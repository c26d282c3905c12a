/**
 The free stack of single frames. Its nodes live in the free frames themselves: a node is a
 frame's content, reached through a virtual page, and heads a run of frames of which only the
 first is written.

 A page is mapped without override, and giving it back does not unmap it. So a page that is
 handed out again may still lead to an older frame, and the node is then written there:
 `AsWritten`. `Corrected` maps the page to the new frame whatever it led to before.
 */
module FrameStack {
  import opened Bits
  import opened BitmapSearch
  import opened BmpPageAllocators
  import opened Forms

  /** What a frame holds: zeroes, a node (`Next`, `Base`, `Pages`), or anything else. */
  datatype Page = Zero | Node(next: nat, base: nat, pages: nat) | Other

  /** A run on the stack: the virtual page of its node, its first frame, its length. */
  datatype Run = Run(at: nat, base: nat, pages: nat)

  datatype Runs = Bottom | On(top: Run, below: Runs)

  function RunFrames(rs: Runs): set<nat> {
    match rs
    case Bottom => {}
    case On(r, below) => Interval(r.base, r.pages) + RunFrames(below)
  }

  function Total(rs: Runs): nat {
    match rs
    case Bottom => 0
    case On(r, below) => r.pages + Total(below)
  }

  /** The virtual pages of the nodes. */
  function Ats(rs: Runs): set<nat> {
    match rs
    case Bottom => {}
    case On(r, below) => {r.at} + Ats(below)
  }

  function HeadOf(rs: Runs): nat {
    if rs.On? then rs.top.at else 0
  }

  /** Contents of frames, the page tables' answer for virtual pages, virtual pages taken from the pool. */
  datatype Space = Space(mem: map<nat, Page>, virt: map<nat, nat>, held: set<nat>)

  /** The node of `r`, followed by that at `next`. */
  ghost predicate HasNode(r: Run, next: nat, s: Space) {
    && r.at != 0 && r.at in s.held && r.at in s.virt && s.virt[r.at] == r.base && r.pages > 0
    && r.base in s.mem && s.mem[r.base] == Node(next, r.base, r.pages)
  }

  /** The nodes of `rs`, linked through virtual pages and frame contents; runs and pages are disjoint. */
  ghost predicate Linked(rs: Runs, s: Space) {
    match rs
    case Bottom => true
    case On(r, below) =>
      && HasNode(r, HeadOf(below), s)
      && Interval(r.base, r.pages) !! RunFrames(below) && r.at !in Ats(below)
      && Linked(below, s)
  }

  /** The frames that hold the nodes. */
  function Bases(rs: Runs): set<nat> {
    match rs
    case Bottom => {}
    case On(r, below) => {r.base} + Bases(below)
  }

  /** What two spaces must share for the nodes of `rs` to stay. */
  ghost predicate Keeps(rs: Runs, s: Space, s': Space) {
    && (forall a | a in Ats(rs) && a in s.virt :: a in s'.virt && s'.virt[a] == s.virt[a])
    && (forall a | a in Ats(rs) && a in s.held :: a in s'.held)
    && (forall f | f in Bases(rs) && f in s.mem :: f in s'.mem && s'.mem[f] == s.mem[f])
  }

  lemma {:induction false} LinkedKept(rs: Runs, s: Space, s': Space)
    requires Linked(rs, s) && Keeps(rs, s, s')
    ensures Linked(rs, s')
  {
    if rs.On? {
      LinkedKept(rs.below, s, s');
    }
  }

  lemma {:induction false} LinkedHeld(rs: Runs, s: Space)
    requires Linked(rs, s)
    ensures Ats(rs) <= s.held && 0 !in Ats(rs) && Bases(rs) <= RunFrames(rs) && |RunFrames(rs)| == Total(rs)
  {
    if rs.On? {
      LinkedHeld(rs.below, s);
      IntervalSize(rs.top.base, rs.top.pages);
    }
  }

  lemma OneLinked(r: Run, s: Space)
    requires HasNode(r, 0, s)
    ensures Linked(On(r, Bottom), s) && RunFrames(On(r, Bottom)) == Interval(r.base, r.pages)
    ensures Ats(On(r, Bottom)) == {r.at}
  {
  }

  lemma Offset(s: set<nat>, t: set<nat>)
    requires s !! t
    ensures s + t - t == s - {}
  {
  }

  // ----- Mapping a page -----

  /** `PagingMapPage` without override: as written, a page that is mapped keeps its frame. */
  function Mapped(form: Form, virt: map<nat, nat>, v: nat, frame: nat): (r: map<nat, nat>)
    ensures v in r
  {
    if form == AsWritten && v in virt then virt else virt[v := frame]
  }

  /** The page leads to the frame that it is mapped for: it was not mapped, or to the same frame. */
  predicate Lands(form: Form, s: Space, v: nat, frame: nat) {
    form == Corrected || v !in s.virt || s.virt[v] == frame
  }

  /** A node for `frame` written through page `v`. */
  function Written(form: Form, s: Space, v: nat, frame: nat, node: Page): Space {
    var virt := Mapped(form, s.virt, v, frame);
    Space(s.mem[virt[v] := node], virt, s.held + {v})
  }

  lemma WrittenLands(form: Form, s: Space, v: nat, frame: nat, node: Page)
    ensures var w := Written(form, s, v, frame, node);
            && (w.virt[v] == frame <==> Lands(form, s, v, frame))
            && (Lands(form, s, v, frame) ==> w == Space(s.mem[frame := node], s.virt[v := frame], s.held + {v}))
            && (!Lands(form, s, v, frame) ==> w == Space(s.mem[s.virt[v] := node], s.virt, s.held + {v}))
  {
    if form == AsWritten && v in s.virt && s.virt[v] == frame {
      assert s.virt[v := frame] == s.virt;
    }
  }

  // ----- A node pushed -----

  function Pushed(form: Form, s: Space, next: nat, v: nat, frame: nat): Space {
    Written(form, s, v, frame, Node(next, frame, 1))
  }

  lemma PushLands(form: Form, rs: Runs, s: Space, v: nat, frame: nat)
    requires Linked(rs, s) && v != 0 && v !in s.held && frame !in RunFrames(rs) && Lands(form, s, v, frame)
    ensures Linked(On(Run(v, frame, 1), rs), Pushed(form, s, HeadOf(rs), v, frame))
  {
    var s' := Pushed(form, s, HeadOf(rs), v, frame);
    LinkedHeld(rs, s);
    WrittenLands(form, s, v, frame, Node(HeadOf(rs), frame, 1));
    assert v !in Ats(rs) && frame !in Bases(rs);
    LinkedKept(rs, s, s');
    OnLinked(Run(v, frame, 1), rs, s');
  }

  lemma OnLinked(r: Run, rs: Runs, s: Space)
    requires HasNode(r, HeadOf(rs), s) && r.pages == 1 && r.base !in RunFrames(rs) && r.at !in Ats(rs) && Linked(rs, s)
    ensures Linked(On(r, rs), s)
  {
    assert Interval(r.base, 1) == {r.base};
  }

  /** A push leaves a linked stack exactly when its page leads to the frame pushed. */
  lemma PushLinkedIff(form: Form, rs: Runs, s: Space, v: nat, frame: nat)
    requires Linked(rs, s) && v != 0 && v !in s.held && frame !in RunFrames(rs)
    ensures Linked(On(Run(v, frame, 1), rs), Pushed(form, s, HeadOf(rs), v, frame)) <==> Lands(form, s, v, frame)
    ensures !Lands(form, s, v, frame) ==>
              Pushed(form, s, HeadOf(rs), v, frame).mem[s.virt[v]] == Node(HeadOf(rs), frame, 1)
  {
    if Lands(form, s, v, frame) {
      PushLands(form, rs, s, v, frame);
    } else {
      WrittenLands(form, s, v, frame, Node(HeadOf(rs), frame, 1));
      assert !HasNode(Run(v, frame, 1), HeadOf(rs), Pushed(form, s, HeadOf(rs), v, frame));
    }
  }

  lemma PushAdds(form: Form, rs: Runs, s: Space, v: nat, frame: nat)
    requires Linked(rs, s) && v != 0 && v !in s.held && frame !in RunFrames(rs)
    ensures RunFrames(On(Run(v, frame, 1), rs)) == RunFrames(rs) + {frame}
    ensures Pushed(form, s, HeadOf(rs), v, frame).held - Ats(On(Run(v, frame, 1), rs)) == s.held - Ats(rs)
  {
    assert Interval(frame, 1) == {frame};
  }

  // ----- The top node taken -----

  /** The stack without its first frame; `t` is the new node's virtual page. */
  function Popped(rs: Runs, t: nat): Runs
    requires rs.On?
  {
    if rs.top.pages > 1 then On(Run(t, rs.top.base + 1, rs.top.pages - 1), rs.below) else rs.below
  }

  /** Midway: the first frame zeroed, its page given back, and the frame pushed again through `v`. */
  function Midway(form: Form, rs: Runs, s: Space, v: nat): Space
    requires rs.On?
  {
    var r := rs.top;
    Pushed(form, Space(s.mem[r.base := Zero], s.virt, s.held - {r.at}), r.at, v, r.base)
  }

  /** At the end: the rest of the run, if any, got a node through `t`. */
  function AfterPop(form: Form, rs: Runs, s: Space, v: nat, t: nat): Space
    requires rs.On?
  {
    var r := rs.top;
    if r.pages > 1
    then Written(form, Midway(form, rs, s, v), t, r.base + 1, Node(HeadOf(rs.below), r.base + 1, r.pages - 1))
    else Midway(form, rs, s, v)
  }

  ghost predicate FreshPages(rs: Runs, s: Space, v: nat, t: nat)
    requires rs.On?
  {
    v != 0 && v !in s.held - {rs.top.at} && t != 0 && t !in s.held - {rs.top.at} + {v}
  }

  /** Both pages lead where they should. */
  predicate BothLand(form: Form, rs: Runs, s: Space, v: nat, t: nat)
    requires rs.On?
  {
    Lands(form, s, v, rs.top.base) && (rs.top.pages > 1 ==> Lands(form, s, t, rs.top.base + 1))
  }

  lemma FirstOfRun(base: nat, n: nat)
    requires n > 0
    ensures Interval(base, n) == {base} + Interval(base + 1, n - 1) && base !in Interval(base + 1, n - 1)
    ensures n > 1 ==> base + 1 in Interval(base, n)
  {
  }

  /** The content of frames midway: the frame taken, and where its node went. */
  lemma MidwayIs(form: Form, rs: Runs, s: Space, v: nat)
    requires rs.On? && Linked(rs, s) && v !in s.held - {rs.top.at}
    ensures var (r, m) := (rs.top, Midway(form, rs, s, v));
            && m.held == s.held - {r.at} + {v}
            && (Lands(form, s, v, r.base) ==>
                  m.virt == s.virt[v := r.base] && m.mem == s.mem[r.base := Node(r.at, r.base, 1)])
            && (!Lands(form, s, v, r.base) ==>
                  && m.virt == s.virt && s.virt[v] != r.base
                  && m.mem == s.mem[r.base := Zero][s.virt[v] := Node(r.at, r.base, 1)])
  {
    var r := rs.top;
    var z := Space(s.mem[r.base := Zero], s.virt, s.held - {r.at});
    WrittenLands(form, z, v, r.base, Node(r.at, r.base, 1));
    assert s.mem[r.base := Zero][r.base := Node(r.at, r.base, 1)] == s.mem[r.base := Node(r.at, r.base, 1)];
  }

  lemma MidwayBelow(form: Form, rs: Runs, s: Space, v: nat)
    requires rs.On? && Linked(rs, s) && v !in s.held - {rs.top.at}
    requires Lands(form, s, v, rs.top.base) || s.virt[v] !in Bases(rs.below)
    ensures Linked(rs.below, Midway(form, rs, s, v))
  {
    var m := Midway(form, rs, s, v);
    LinkedHeld(rs.below, s);
    MidwayIs(form, rs, s, v);
    FirstOfRun(rs.top.base, rs.top.pages);
    assert rs.top.base !in Bases(rs.below);
    assert v !in Ats(rs.below);
    assert Keeps(rs.below, s, m);
    LinkedKept(rs.below, s, m);
  }

  /** Midway the runs below are intact exactly when the node did not go into one of their own nodes. */
  lemma MidwayBelowIff(form: Form, rs: Runs, s: Space, v: nat)
    requires rs.On? && Linked(rs, s) && v !in s.held - {rs.top.at}
    ensures Linked(rs.below, Midway(form, rs, s, v)) <==>
              Lands(form, s, v, rs.top.base) || s.virt[v] !in Bases(rs.below)
  {
    if Lands(form, s, v, rs.top.base) || s.virt[v] !in Bases(rs.below) {
      MidwayBelow(form, rs, s, v);
    } else {
      MidwayIs(form, rs, s, v);
      NodeLost(rs.below, Midway(form, rs, s, v), s.virt[v]);
    }
  }

  /** A frame of a node that does not hold one of its own. */
  lemma {:induction false} NodeLost(rs: Runs, s: Space, f: nat)
    requires f in Bases(rs) && f in s.mem && s.mem[f].Node? && s.mem[f].base != f
    ensures !Linked(rs, s)
  {
    if f != rs.top.base {
      NodeLost(rs.below, s, f);
    }
  }

  /** When the two writes of a pop leave a linked stack. */
  ghost predicate PopFits(form: Form, rs: Runs, s: Space, v: nat, t: nat)
    requires rs.On?
  {
    && (rs.top.pages > 1 ==> Lands(form, s, t, rs.top.base + 1))
    && (Lands(form, s, v, rs.top.base) || s.virt[v] !in Bases(rs.below))
  }

  lemma SecondPage(form: Form, rs: Runs, s: Space, v: nat, t: nat)
    requires rs.On? && Linked(rs, s) && FreshPages(rs, s, v, t)
    ensures Lands(form, Midway(form, rs, s, v), t, rs.top.base + 1) <==> Lands(form, s, t, rs.top.base + 1)
    ensures t !in Ats(rs.below) && t !in Midway(form, rs, s, v).held
  {
    LinkedHeld(rs, s);
    MidwayIs(form, rs, s, v);
  }

  /**
   A pop leaves a linked stack exactly when the page of the rest leads to the rest, and the
   node pushed midway did not go into the node of another run.
   */
  lemma PopLinkedIff(form: Form, rs: Runs, s: Space, v: nat, t: nat)
    requires rs.On? && Linked(rs, s) && FreshPages(rs, s, v, t)
    ensures Linked(Popped(rs, t), AfterPop(form, rs, s, v, t)) <==> PopFits(form, rs, s, v, t)
  {
    MidwayBelowIff(form, rs, s, v);
    if rs.top.pages > 1 {
      SecondPage(form, rs, s, v, t);
      BelowApart(rs, s);
      RestLinkedIff(form, rs, Midway(form, rs, s, v), t);
    }
  }

  lemma BelowApart(rs: Runs, s: Space)
    requires rs.On? && Linked(rs, s)
    ensures Interval(rs.top.base, rs.top.pages) !! RunFrames(rs.below) && Bases(rs.below) <= RunFrames(rs.below)
  {
    LinkedHeld(rs.below, s);
  }

  /** The node of the rest of a run, in a space whose top run has lost its first frame. */
  lemma RestLinkedIff(form: Form, rs: Runs, m: Space, t: nat)
    requires rs.On? && rs.top.pages > 1 && Interval(rs.top.base, rs.top.pages) !! RunFrames(rs.below)
    requires t != 0 && t !in m.held && t !in Ats(rs.below) && Bases(rs.below) <= RunFrames(rs.below)
    ensures var r := rs.top;
            var w := Written(form, m, t, r.base + 1, Node(HeadOf(rs.below), r.base + 1, r.pages - 1));
            Linked(Popped(rs, t), w) <==> Lands(form, m, t, r.base + 1) && Linked(rs.below, m)
  {
    var r := rs.top;
    var node := Node(HeadOf(rs.below), r.base + 1, r.pages - 1);
    var w := Written(form, m, t, r.base + 1, node);
    WrittenLands(form, m, t, r.base + 1, node);
    FirstOfRun(r.base, r.pages);
    if Lands(form, m, t, r.base + 1) {
      assert r.base + 1 !in Bases(rs.below);
      if Linked(rs.below, m) {
        LinkedKept(rs.below, m, w);
      }
      if Linked(rs.below, w) {
        LinkedBack(rs.below, m, w, t, r.base + 1, node);
      }
    }
  }

  /** A node written elsewhere cannot be what links the runs. */
  lemma {:induction false} LinkedBack(rs: Runs, m: Space, w: Space, t: nat, f: nat, node: Page)
    requires Linked(rs, w) && t !in Ats(rs) && f !in Bases(rs)
    requires w == Space(m.mem[f := node], m.virt[t := f], m.held + {t})
    ensures Linked(rs, m)
  {
    if rs.On? {
      LinkedBack(rs.below, m, w, t, f, node);
    }
  }

  lemma PopRemoves(rs: Runs, s: Space, t: nat)
    requires rs.On? && Linked(rs, s)
    ensures RunFrames(rs) == RunFrames(Popped(rs, t)) + {rs.top.base} && rs.top.base !in RunFrames(Popped(rs, t))
    ensures Total(Popped(rs, t)) == Total(rs) - 1
  {
    FirstOfRun(rs.top.base, rs.top.pages);
  }

  /** A pop loses the virtual page of the node that was pushed and dropped. */
  lemma PopLoses(form: Form, rs: Runs, s: Space, v: nat, t: nat)
    requires rs.On? && Linked(rs, s) && FreshPages(rs, s, v, t)
    ensures AfterPop(form, rs, s, v, t).held - Ats(Popped(rs, t)) == (s.held - Ats(rs)) + {v}
    ensures v !in s.held - Ats(rs)
  {
    LinkedHeld(rs, s);
    SecondPage(form, rs, s, v, t);
    MidwayIs(form, rs, s, v);
  }

  /**
   What a pop leaves in memory. With both pages right, the frame handed out holds the node that
   was written after it was zeroed, and only that frame and the next are touched. With the first
   page wrong, the frame is zero and the node is in an older frame, whoever holds that.
   */
  lemma PopLeaves(form: Form, rs: Runs, s: Space, v: nat, t: nat)
    requires rs.On? && Linked(rs, s) && FreshPages(rs, s, v, t)
    requires (rs.top.pages > 1 ==> Lands(form, s, t, rs.top.base + 1))
    ensures var (r, mem) := (rs.top, AfterPop(form, rs, s, v, t).mem);
            && r.base in mem
            && (Lands(form, s, v, r.base) ==>
                  && mem[r.base] == Node(r.at, r.base, 1)
                  && forall f: nat | f !in {r.base, r.base + 1} ::
                       (f in mem <==> f in s.mem) && (f in mem ==> mem[f] == s.mem[f]))
            && (!Lands(form, s, v, r.base) ==>
                  && mem[r.base] == Zero && s.virt[v] in mem
                  && (r.pages == 1 || s.virt[v] != r.base + 1 ==> mem[s.virt[v]] == Node(r.at, r.base, 1)))
  {
    MidwayIs(form, rs, s, v);
    SecondPage(form, rs, s, v, t);
    WrittenLands(form, Midway(form, rs, s, v), t, rs.top.base + 1,
                 Node(HeadOf(rs.below), rs.top.base + 1, rs.top.pages - 1));
  }

  // ----- Which pages a first-fit pool hands out -----

  /** The lowest page from `low` on that is not taken: what first fit answers to a request for one page. */
  ghost predicate Lowest(low: nat, held: set<nat>, v: nat) {
    low <= v && v !in held && forall u: nat | low <= u < v :: u in held
  }

  /** No page of the pool is free. */
  ghost predicate Full(low: nat, high: nat, held: set<nat>) { forall u: nat | low <= u < high :: u in held }

  /** At most one page of the pool is free. */
  ghost predicate NearlyFull(low: nat, high: nat, held: set<nat>) {
    forall u: nat, w: nat | low <= u < w < high :: u in held || w in held
  }

  /** Giving a page back and taking the lowest leaves as many pages as before. */
  lemma FullAfterGive(low: nat, high: nat, held: set<nat>, at: nat, v: nat)
    requires at in held && low <= at < high && Lowest(low, held - {at}, v)
    ensures v < high && (Full(low, high, held - {at} + {v}) <==> Full(low, high, held))
  {
    if Full(low, high, held - {at} + {v}) {
      assert at in held - {at} + {v};
      forall u: nat | low <= u < high
        ensures u in held
      {
        assert u in held - {at} + {v};
      }
    }
  }

  lemma FullAfterTake(low: nat, high: nat, held: set<nat>, v: nat)
    requires Lowest(low, held, v) && v < high
    ensures Full(low, high, held + {v}) <==> NearlyFull(low, high, held)
  {
    if NearlyFull(low, high, held) {
      forall u: nat | low <= u < high
        ensures u in held + {v}
      {
        if u != v {
          assert v in held || u in held;
        }
      }
    }
  }

  /** Every mapped page is taken, and the taken pages have no gap between them. */
  ghost predicate Clean(low: nat, s: Space) {
    && (forall a | a in s.virt :: a in s.held)
    && (forall a | a in s.held :: low <= a)
    && (forall a: nat, b: nat | low <= a < b && b in s.held :: a in s.held)
  }

  /** From a clean space a push finds an unmapped page. */
  lemma PushClean(form: Form, low: nat, s: Space, next: nat, v: nat, frame: nat)
    requires Clean(low, s) && Lowest(low, s.held, v)
    ensures Lands(form, s, v, frame) && Clean(low, Pushed(form, s, next, v, frame))
  {
    WrittenLands(form, s, v, frame, Node(next, frame, 1));
  }

  /**
   In a pop the page just given back is the lowest free one and comes back first, still mapped
   to the frame it is wanted for; the second page was never mapped.
   */
  lemma PopClean(form: Form, low: nat, rs: Runs, s: Space, v: nat, t: nat)
    requires rs.On? && Linked(rs, s) && Clean(low, s)
    requires Lowest(low, s.held - {rs.top.at}, v) && Lowest(low, s.held - {rs.top.at} + {v}, t)
    ensures v == rs.top.at && BothLand(form, rs, s, v, t) && Clean(low, AfterPop(form, rs, s, v, t))
  {
    var r := rs.top;
    assert v == r.at;
    assert s.held - {r.at} + {v} == s.held;
    MidwayIs(form, rs, s, v);
    WrittenLands(form, Midway(form, rs, s, v), t, r.base + 1, Node(HeadOf(rs.below), r.base + 1, r.pages - 1));
  }

  // ----- Every run of calls for single pages -----

  /**
   What the kernel asks of its pages and frames, one page at a time: a virtual page from the
   pool, a page mapped, a page given back with its frame (`VirtualFree` of one page), a first run
   for an empty stack, a frame pushed, a frame popped. `v` and `t` are the pool's answers.
   */
  datatype Call =
    | Take(v: nat)
    | Map(page: nat, frame: nat)
    | Give(page: nat, v: nat)
    | Fill(first: nat, n: nat, v: nat)
    | Push(frame: nat, v: nat)
    | Pop(v: nat, t: nat)

  /** The stack, its space, and the virtual pages that callers hold. */
  datatype Kernel = Kernel(rs: Runs, s: Space, mine: set<nat>)

  /** First fit from a pool that ends at `high`. */
  ghost predicate Answers(low: nat, high: nat, held: set<nat>, v: nat) { Lowest(low, held, v) && v < high }

  /** The pool answers by first fit; a caller maps and gives back its own pages and frames alone. */
  ghost predicate Legal(low: nat, high: nat, k: Kernel, c: Call) {
    match c
    case Take(v) => Answers(low, high, k.s.held, v)
    case Map(page, frame) => page in k.mine
    case Give(page, v) =>
      && page in k.mine && page in k.s.virt && k.s.virt[page] !in RunFrames(k.rs)
      && Answers(low, high, k.s.held - {page}, v)
    case Fill(first, n, v) => k.rs.Bottom? && n > 0 && Answers(low, high, k.s.held, v)
    case Push(frame, v) => frame !in RunFrames(k.rs) && Answers(low, high, k.s.held, v)
    case Pop(v, t) =>
      && k.rs.On? && Answers(low, high, k.s.held - {k.rs.top.at}, v)
      && Lowest(low, k.s.held - {k.rs.top.at} + {v}, t) && (k.rs.top.pages > 1 ==> t < high)
  }

  /** The space after a call, by the code as written. */
  ghost function SpaceAfter(low: nat, high: nat, k: Kernel, c: Call): Space
    requires Legal(low, high, k, c)
  {
    match c
    case Take(v) => k.s.(held := k.s.held + {v})
    case Map(page, frame) => k.s.(virt := Mapped(AsWritten, k.s.virt, page, frame))
    case Give(page, v) => Pushed(AsWritten, k.s.(held := k.s.held - {page}), HeadOf(k.rs), v, k.s.virt[page])
    case Fill(first, n, v) => Written(AsWritten, k.s, v, first, Node(0, first, n))
    case Push(frame, v) => Pushed(AsWritten, k.s, HeadOf(k.rs), v, frame)
    case Pop(v, t) => AfterPop(AsWritten, k.rs, k.s, v, t)
  }

  ghost function RunsAfter(low: nat, high: nat, k: Kernel, c: Call): Runs
    requires Legal(low, high, k, c)
  {
    match c
    case Take(_) => k.rs
    case Map(_, _) => k.rs
    case Give(page, v) => On(Run(v, k.s.virt[page], 1), k.rs)
    case Fill(first, n, v) => On(Run(v, first, n), k.rs)
    case Push(frame, v) => On(Run(v, frame, 1), k.rs)
    case Pop(v, t) => Popped(k.rs, t)
  }

  ghost function After(low: nat, high: nat, k: Kernel, c: Call): Kernel
    requires Legal(low, high, k, c)
  {
    var mine := match c
      case Take(v) => k.mine + {v}
      case Give(page, _) => k.mine - {page}
      case _ => k.mine;
    Kernel(RunsAfter(low, high, k, c), SpaceAfter(low, high, k, c), mine)
  }

  /** The stack is linked in a clean space inside the pool, and its nodes are in no caller's page. */
  ghost predicate Sound(low: nat, high: nat, k: Kernel) {
    && Linked(k.rs, k.s) && Clean(low, k.s) && (forall a | a in k.s.held :: a < high)
    && k.mine <= k.s.held && k.mine !! Ats(k.rs)
  }

  /** Pages taken that neither a node nor a caller uses. */
  ghost function Lost(k: Kernel): set<nat> { k.s.held - Ats(k.rs) - k.mine }

  lemma FirstBack(low: nat, s: Space, page: nat, v: nat)
    requires Clean(low, s) && page in s.held && Lowest(low, s.held - {page}, v)
    ensures v == page && s.held - {page} + {v} == s.held
  {
  }

  /** A page given back comes back first, for the frame it still leads to. */
  lemma GiveLinks(low: nat, rs: Runs, s: Space, page: nat, v: nat)
    requires 0 < low && Linked(rs, s) && Clean(low, s) && page in s.virt && page !in Ats(rs)
    requires s.virt[page] !in RunFrames(rs) && Lowest(low, s.held - {page}, v)
    ensures Linked(On(Run(v, s.virt[page], 1), rs),
                   Pushed(AsWritten, s.(held := s.held - {page}), HeadOf(rs), v, s.virt[page]))
  {
    FirstBack(low, s, page, v);
    var z := s.(held := s.held - {page});
    LinkedHeld(rs, s);
    LinkedKept(rs, s, z);
    PushLands(AsWritten, rs, z, v, s.virt[page]);
  }

  /** And the space is as clean as before: the same pages taken, mapped to the same frames. */
  lemma GiveClean(low: nat, s: Space, next: nat, page: nat, v: nat)
    requires Clean(low, s) && page in s.virt && Lowest(low, s.held - {page}, v)
    ensures var z := Pushed(AsWritten, s.(held := s.held - {page}), next, v, s.virt[page]);
            v == page && z.held == s.held && z.virt == s.virt && Clean(low, z)
  {
    FirstBack(low, s, page, v);
    WrittenLands(AsWritten, s.(held := s.held - {page}), v, s.virt[page], Node(next, s.virt[page], 1));
  }

  lemma MapKeeps(low: nat, rs: Runs, s: Space, page: nat, frame: nat)
    requires Linked(rs, s) && Clean(low, s) && page in s.held && page !in Ats(rs)
    ensures var s' := s.(virt := Mapped(AsWritten, s.virt, page, frame)); Linked(rs, s') && Clean(low, s')
  {
    LinkedKept(rs, s, s.(virt := Mapped(AsWritten, s.virt, page, frame)));
  }

  lemma CallLinks(low: nat, high: nat, k: Kernel, c: Call)
    requires 0 < low && Sound(low, high, k) && Legal(low, high, k, c)
    ensures Linked(RunsAfter(low, high, k, c), SpaceAfter(low, high, k, c)) && Clean(low, SpaceAfter(low, high, k, c))
  {
    match c
    case Take(v) => LinkedKept(k.rs, k.s, SpaceAfter(low, high, k, c));
    case Map(page, frame) => MapKeeps(low, k.rs, k.s, page, frame);
    case Give(page, v) =>
      GiveLinks(low, k.rs, k.s, page, v);
      GiveClean(low, k.s, HeadOf(k.rs), page, v);
    case Fill(first, n, v) =>
      WrittenLands(AsWritten, k.s, v, first, Node(0, first, n));
      OneLinked(Run(v, first, n), SpaceAfter(low, high, k, c));
    case Push(frame, v) =>
      PushClean(AsWritten, low, k.s, HeadOf(k.rs), v, frame);
      PushLands(AsWritten, k.rs, k.s, v, frame);
    case Pop(v, t) =>
      BothPages(AsWritten, low, k.rs, k.s, v, t);
      PopLinkedIff(AsWritten, k.rs, k.s, v, t);
  }

  /** What a call does to the pages: all stay in the pool, callers' pages are theirs, and so many are lost. */
  ghost predicate Takes(high: nat, k: Kernel, k': Kernel, lost: set<nat>) {
    && (forall a | a in k'.s.held :: a < high) && k'.mine <= k'.s.held && k'.mine !! Ats(k'.rs)
    && Lost(k') == Lost(k) + lost && lost !! Lost(k)
  }

  /** A node in a page that was not taken loses nothing. */
  lemma NodeTakes(high: nat, k: Kernel, k': Kernel, v: nat)
    requires (forall a | a in k.s.held :: a < high) && k.mine <= k.s.held
    requires k.mine !! Ats(k.rs) && Ats(k.rs) <= k.s.held
    requires v !in k.s.held && v < high && k'.mine == k.mine
    requires k'.s.held == k.s.held + {v} && Ats(k'.rs) == Ats(k.rs) + {v}
    ensures Takes(high, k, k', {})
  {
  }

  /** Nor does a node in a page that a caller gives back. */
  lemma BackTakes(high: nat, k: Kernel, k': Kernel, v: nat)
    requires (forall a | a in k.s.held :: a < high) && k.mine <= k.s.held && k.mine !! Ats(k.rs)
    requires v in k.mine && k'.mine == k.mine - {v} && k'.s.held == k.s.held && Ats(k'.rs) == Ats(k.rs) + {v}
    ensures Takes(high, k, k', {})
  {
  }

  lemma GiveTakes(low: nat, high: nat, k: Kernel, page: nat, v: nat)
    requires 0 < low && Sound(low, high, k) && Legal(low, high, k, Give(page, v))
    ensures Takes(high, k, After(low, high, k, Give(page, v)), {})
  {
    GiveClean(low, k.s, HeadOf(k.rs), page, v);
    BackTakes(high, k, After(low, high, k, Give(page, v)), v);
  }

  lemma FillTakes(low: nat, high: nat, k: Kernel, first: nat, n: nat, v: nat)
    requires 0 < low && Sound(low, high, k) && Legal(low, high, k, Fill(first, n, v))
    ensures Takes(high, k, After(low, high, k, Fill(first, n, v)), {})
  {
    LinkedHeld(k.rs, k.s);
    NodeTakes(high, k, After(low, high, k, Fill(first, n, v)), v);
  }

  lemma PushTakes(low: nat, high: nat, k: Kernel, frame: nat, v: nat)
    requires 0 < low && Sound(low, high, k) && Legal(low, high, k, Push(frame, v))
    ensures Takes(high, k, After(low, high, k, Push(frame, v)), {})
  {
    LinkedHeld(k.rs, k.s);
    NodeTakes(high, k, After(low, high, k, Push(frame, v)), v);
  }

  lemma TakeTakes(low: nat, high: nat, k: Kernel, v: nat)
    requires 0 < low && Sound(low, high, k) && Legal(low, high, k, Call.Take(v))
    ensures Takes(high, k, After(low, high, k, Call.Take(v)), {})
  {
    LinkedHeld(k.rs, k.s);
  }

  lemma MapTakes(low: nat, high: nat, k: Kernel, page: nat, frame: nat)
    requires 0 < low && Sound(low, high, k) && Legal(low, high, k, Map(page, frame))
    ensures Takes(high, k, After(low, high, k, Map(page, frame)), {})
  {
  }

  /** A pop loses a page for good, and no other call does. */
  lemma CallLoses(low: nat, high: nat, k: Kernel, c: Call)
    requires 0 < low && Sound(low, high, k) && Legal(low, high, k, c)
    ensures Takes(high, k, After(low, high, k, c), if c.Pop? then {c.v} else {})
  {
    match c
    case Take(v) => TakeTakes(low, high, k, v);
    case Map(page, frame) => MapTakes(low, high, k, page, frame);
    case Give(page, v) => GiveTakes(low, high, k, page, v);
    case Fill(first, n, v) => FillTakes(low, high, k, first, n, v);
    case Push(frame, v) => PushTakes(low, high, k, frame, v);
    case Pop(v, t) => PopTakes(low, high, k, v, t);
  }

  lemma PopTakes(low: nat, high: nat, k: Kernel, v: nat, t: nat)
    requires 0 < low && Sound(low, high, k) && Legal(low, high, k, Pop(v, t))
    ensures Takes(high, k, After(low, high, k, Pop(v, t)), {v})
  {
    var s' := AfterPop(AsWritten, k.rs, k.s, v, t);
    LinkedHeld(k.rs, k.s);
    FirstBack(low, k.s, k.rs.top.at, v);
    PopLoses(AsWritten, k.rs, k.s, v, t);
    MidwayIs(AsWritten, k.rs, k.s, v);
    assert s'.held == if k.rs.top.pages > 1 then k.s.held + {t} else k.s.held;
  }

  /** One call for a single page keeps the kernel sound. */
  lemma CallKeeps(low: nat, high: nat, k: Kernel, c: Call)
    requires 0 < low && Sound(low, high, k) && Legal(low, high, k, c)
    ensures Sound(low, high, After(low, high, k, c))
  {
    CallLinks(low, high, k, c);
    CallLoses(low, high, k, c);
  }

  /** The calls of a list, each legal where it is made. */
  ghost predicate LegalRun(low: nat, high: nat, k: Kernel, cs: seq<Call>)
    decreases |cs|
  {
    cs == [] || (Legal(low, high, k, cs[0]) && LegalRun(low, high, After(low, high, k, cs[0]), cs[1..]))
  }

  ghost function Final(low: nat, high: nat, k: Kernel, cs: seq<Call>): Kernel
    requires LegalRun(low, high, k, cs)
    decreases |cs|
  {
    if cs == [] then k else Final(low, high, After(low, high, k, cs[0]), cs[1..])
  }

  /** How many frames a run of calls takes from the stack. */
  function Pops(cs: seq<Call>): nat {
    if cs == [] then 0 else (if cs[0].Pop? then 1 else 0) + Pops(cs[1..])
  }

  /** Over every run of single pages the code as written keeps its stack linked, by first fit. */
  lemma {:induction false} RunLinked(low: nat, high: nat, k: Kernel, cs: seq<Call>)
    requires 0 < low && Sound(low, high, k) && LegalRun(low, high, k, cs)
    ensures Sound(low, high, Final(low, high, k, cs))
    decreases |cs|
  {
    if cs != [] {
      CallKeeps(low, high, k, cs[0]);
      RunLinked(low, high, After(low, high, k, cs[0]), cs[1..]);
    }
  }

  /** And it loses exactly one page of the pool for every frame taken. */
  lemma {:induction false} RunLoses(low: nat, high: nat, k: Kernel, cs: seq<Call>)
    requires 0 < low && Sound(low, high, k) && LegalRun(low, high, k, cs)
    ensures |Lost(Final(low, high, k, cs))| == |Lost(k)| + Pops(cs)
    decreases |cs|
  {
    if cs != [] {
      CallKeeps(low, high, k, cs[0]);
      CallLoses(low, high, k, cs[0]);
      RunLoses(low, high, After(low, high, k, cs[0]), cs[1..]);
    }
  }

  /** So no run takes more frames from the stack than the pool has pages that are not lost yet. */
  lemma RunBounded(low: nat, high: nat, k: Kernel, cs: seq<Call>)
    requires 0 < low <= high && Sound(low, high, k) && LegalRun(low, high, k, cs)
    ensures |Lost(k)| + Pops(cs) <= high - low
  {
    RunLinked(low, high, k, cs);
    RunLoses(low, high, k, cs);
    WithinPool(low, high, Lost(Final(low, high, k, cs)));
  }

  lemma WithinPool(low: nat, high: nat, pages: set<nat>)
    requires low <= high && forall a | a in pages :: low <= a < high
    ensures |pages| <= high - low
  {
    IntervalSize(low, high - low);
    assert pages <= Interval(low, high - low);
    SubsetSize(pages, Interval(low, high - low));
  }

  lemma {:induction false} SubsetSize(s: set<nat>, t: set<nat>)
    requires s <= t
    ensures |s| <= |t|
    decreases s
  {
    if s != {} {
      var x :| x in s;
      SubsetSize(s - {x}, t - {x});
    }
  }

  // ----- When it is not so -----

  /** `VirtualAlloc` of `n` pages, of which the first alone is mapped; and `VirtualFree`, which unmaps nothing. */
  function TookPages(s: Space, p: nat, n: nat, frame: nat): Space {
    Space(s.mem, Mapped(AsWritten, s.virt, p, frame), s.held + Interval(p, n))
  }

  function GavePages(s: Space, p: nat, n: nat): Space {
    s.(held := s.held - Interval(p, n))
  }

  /** Giving pages back keeps the space clean exactly when none of them is mapped and none above them is taken. */
  lemma GiveCleanIff(low: nat, s: Space, p: nat, n: nat)
    requires Clean(low, s) && n > 0 && Interval(p, n) <= s.held
    ensures Clean(low, GavePages(s, p, n)) <==>
              (forall a | a in Interval(p, n) :: a !in s.virt) && (forall a | a in s.held :: a < p + n)
  {
    var g := GavePages(s, p, n);
    assert p in Interval(p, n);
    if a :| a in s.held && p + n <= a {
      assert a in g.held && p !in g.held;
    }
  }

  /**
   A run that goes wrong: two or more pages are allocated and given back, and the stack then
   takes one frame back. First fit answers with the first of these pages, still mapped to a frame
   that is clear in the bitmap by now: the node goes there, and the stack is not linked.
   */
  lemma StaleRun(low: nat, rs: Runs, s: Space, p: nat, n: nat, was: nat, frame: nat)
    requires 0 < low && Clean(low, s) && Linked(rs, s) && Lowest(low, s.held, p) && n >= 2
    requires was != frame && frame !in RunFrames(rs)
    ensures var s1 := GavePages(TookPages(s, p, n, was), p, n);
            var s2 := Pushed(AsWritten, s1, HeadOf(rs), p, frame);
            && Lowest(low, s1.held, p) && !Lands(AsWritten, s1, p, frame)
            && !Linked(On(Run(p, frame, 1), rs), s2) && s2.mem[was] == Node(HeadOf(rs), frame, 1)
  {
    var s1 := GavePages(TookPages(s, p, n, was), p, n);
    forall u: nat | low <= u < p
      ensures u in s1.held
    {
      assert u !in Interval(p, n);
    }
    assert p in Interval(p, n) && s1.virt[p] == was;
    WrittenLands(AsWritten, s1, p, frame, Node(HeadOf(rs), frame, 1));
  }

  /** `SetupKernelHeap`: `n` pages from `from` mapped to frames from `first`, without taking them from the pool. */
  function MappedRange(virt: map<nat, nat>, from: nat, first: nat, n: nat): map<nat, nat> {
    if n == 0 then virt else Mapped(AsWritten, MappedRange(virt, from, first, n - 1), from + n - 1, first + n - 1)
  }

  lemma {:induction false} MappedRangeAt(virt: map<nat, nat>, from: nat, first: nat, n: nat, k: nat)
    ensures var r := MappedRange(virt, from, first, n);
            if from + k in virt then from + k in r && r[from + k] == virt[from + k]
            else (from + k in r <==> k < n) && (k < n ==> r[from + k] == first + k)
  {
    if n > 0 {
      MappedRangeAt(virt, from, first, n - 1, k);
    }
  }

  const HEAP_PAGES: nat := 0x2000

  /**
   The kernel's heap lies over the start of its own pool. Once it is mapped, a page handed out
   below its end leads to a frame of the heap: the node lands right for no frame but that. And
   the heap does not get the pages that the stack has mapped before: they keep their frames.
   */
  lemma HeapOverPool(low: nat, s: Space, first: nat, v: nat, frame: nat, a: nat)
    requires Clean(low, s) && Lowest(low, s.held, v) && v < low + HEAP_PAGES && a in s.virt
    ensures var h := s.(virt := MappedRange(s.virt, low, first, HEAP_PAGES));
            && (Lands(AsWritten, h, v, frame) <==> frame == first + (v - low))
            && a in h.virt && h.virt[a] == s.virt[a]
  {
    MappedRangeAt(s.virt, low, first, HEAP_PAGES, v - low);
    MappedRangeAt(s.virt, low, first, HEAP_PAGES, a - low);
  }

  /**
   The first frame taken on the booted kernel: the second node of the pop goes into a frame of the
   heap, and the stack is not linked any more. The heap's frames are not the stack's.
   */
  lemma BootUnlinks(low: nat, rs: Runs, s: Space, first: nat, v: nat, t: nat)
    requires 0 < low && Clean(low, s) && Linked(rs, s) && rs.On? && rs.top.pages > 1
    requires Lowest(low, s.held - {rs.top.at}, v) && Lowest(low, s.held - {rs.top.at} + {v}, t) && t < low + HEAP_PAGES
    requires rs.top.base + 1 !in Interval(first, HEAP_PAGES)
    ensures var h := s.(virt := MappedRange(s.virt, low, first, HEAP_PAGES));
            var s' := AfterPop(AsWritten, rs, h, v, t);
            && Linked(rs, h) && !Linked(Popped(rs, t), s')
            && first + (t - low) in s'.mem
            && s'.mem[first + (t - low)] == Node(HeadOf(rs.below), rs.top.base + 1, rs.top.pages - 1)
  {
    var h := s.(virt := MappedRange(s.virt, low, first, HEAP_PAGES));
    BothPages(AsWritten, low, rs, s, v, t);
    HeapKeepsStack(low, rs, s, first);
    FirstBack(low, s, rs.top.at, v);
    MappedRangeAt(s.virt, low, first, HEAP_PAGES, t - low);
    assert first + (t - low) in Interval(first, HEAP_PAGES);
    PopLinkedIff(AsWritten, rs, h, v, t);
    SecondPage(AsWritten, rs, h, v, t);
    WrittenLands(AsWritten, Midway(AsWritten, rs, h, v), t, rs.top.base + 1,
                 Node(HeadOf(rs.below), rs.top.base + 1, rs.top.pages - 1));
    MidwayIs(AsWritten, rs, h, v);
  }

  lemma HeapKeepsStack(low: nat, rs: Runs, s: Space, first: nat)
    requires Clean(low, s) && Linked(rs, s)
    ensures Linked(rs, s.(virt := MappedRange(s.virt, low, first, HEAP_PAGES)))
  {
    var h := s.(virt := MappedRange(s.virt, low, first, HEAP_PAGES));
    forall a | a in Ats(rs) && a in s.virt
      ensures a in h.virt && h.virt[a] == s.virt[a]
    {
      MappedRangeAt(s.virt, low, first, HEAP_PAGES, a - low);
    }
    LinkedKept(rs, s, h);
  }

  lemma {:induction false} PagesBelow(s: set<nat>) returns (b: nat)
    ensures forall v | v in s :: v < b
    decreases |s|
  {
    if s == {} {
      b := 0;
    } else {
      var x :| x in s;
      var c := PagesBelow(s - {x});
      b := if c > x then c else x + 1;
      assert forall v | v in s :: v == x || v in s - {x};
    }
  }

  lemma LowestPage(low: nat, held: set<nat>) returns (v: nat)
    ensures Lowest(low, held, v)
  {
    var b := PagesBelow(held);
    v := low;
    while v in held
      invariant low <= v && forall u: nat | low <= u < v :: u in held
      decreases b - v
    {
      v := v + 1;
    }
  }

  /** The pages of a pop in a valid stack: by override, or because the space is clean. */
  lemma BothPages(form: Form, low: nat, rs: Runs, s: Space, v: nat, t: nat)
    requires 0 < low && rs.On? && Linked(rs, s) && (form == AsWritten ==> Clean(low, s))
    requires Lowest(low, s.held - {rs.top.at}, v) && Lowest(low, s.held - {rs.top.at} + {v}, t)
    ensures FreshPages(rs, s, v, t) && BothLand(form, rs, s, v, t) && PopFits(form, rs, s, v, t)
    ensures form == AsWritten ==> Clean(low, AfterPop(form, rs, s, v, t))
  {
    if form == AsWritten {
      PopClean(form, low, rs, s, v, t);
    }
  }

  /** A panic for want of frames, or a fault for want of virtual pages: the pool goes on through a null pointer. */
  datatype Outcome = Served | Panic | NoPage

  class StackPageAllocator {
    const bitmap: BmpPageAllocator
    const form: Form
    /** The first page of the pool of virtual pages, and the page behind its last. */
    const low: nat
    const high: nat
    /** `m_NextFreePage`, a virtual page; 0 for none. */
    var next: nat
    var space: Space
    ghost var runs: Runs
    /** The kernel has stopped for want of memory. */
    var halted: bool

    /** The pool's pages, and as written a clean space. */
    ghost predicate Ready()
      reads `space
    {
      0 < low < high && (forall a | a in space.held :: low <= a < high) && (form == AsWritten ==> Clean(low, space))
    }

    /** The stack is linked, in frames of its own; as written that needs a clean space. */
    ghost predicate Valid()
      reads this, bitmap, bitmap.bmp
    {
      && bitmap.Valid() && Ready()
      && next == HeadOf(runs) && Linked(runs, space) && RunFrames(runs) <= bitmap.frames
    }

    /** Virtual pages taken that no node uses. */
    ghost function Lost(): set<nat>
      reads this
    {
      space.held - Ats(runs)
    }

    /** Frames in use in the bitmap and not on the stack. */
    ghost function Outside(): set<nat>
      reads this, bitmap
    {
      bitmap.frames - RunFrames(runs)
    }

    /** First fit for one page: the lowest that is not taken, until none is left. */
    method VirtualAlloc() returns (st: Outcome, v: nat)
      requires low <= high
      modifies this`space
      ensures st != Panic && (st == NoPage <==> Full(low, high, old(space).held))
      ensures st == NoPage ==> space == old(space)
      ensures st == Served ==> Lowest(low, old(space).held, v) && v < high
      ensures st == Served ==> space == old(space).(held := old(space).held + {v})
    {
      v := low;
      while v < high && v in space.held
        invariant low <= v <= high && forall u: nat | low <= u < v :: u in space.held
      {
        v := v + 1;
      }
      if v == high {
        return NoPage, 0;
      }
      space := space.(held := space.held + {v});
      st := Served;
    }

    /** The node written through a virtual page that is mapped for a frame. */
    method TemporaryMapToPage(frame: nat, node: Page) returns (st: Outcome, v: nat)
      requires low <= high
      modifies this`space
      ensures st != Panic && (st == NoPage <==> Full(low, high, old(space).held))
      ensures st == NoPage ==> space == old(space)
      ensures st == Served ==> Lowest(low, old(space).held, v) && v < high
      ensures st == Served ==> space == Written(form, old(space), v, frame, node)
    {
      st, v := VirtualAlloc();
      if st == Served {
        if form == Corrected || v !in space.virt {
          space := space.(virt := space.virt[v := frame]);
        }
        space := space.(mem := space.mem[space.virt[v] := node]);
      }
    }

    /** A node for `n` frames of the bitmap, with nothing below. */
    method GetPageFromBitmap(n: nat) returns (st: Outcome, v: nat, ghost first: nat)
      requires bitmap.Valid() && n > 0 && Ready()
      modifies this`space, bitmap`used, bitmap`frames, bitmap.bmp
      ensures bitmap.Valid() && Ready()
      ensures st == Panic <==> old(bitmap.Answer(Corrected, n)) == NotFound
      ensures st == Panic ==> bitmap.frames == old(bitmap.frames) && space == old(space) && !old(bitmap.Serves(n))
      ensures st == NoPage <==> old(bitmap.Answer(Corrected, n)) != NotFound && Full(low, high, old(space).held)
      ensures st == Served ==> HasNode(Run(v, first, n), 0, space) && Lowest(low, old(space).held, v) && v < high
      ensures st == Served ==> space.held == old(space).held + {v} && Interval(first, n) !! old(bitmap.frames)
      ensures st == Served ==> bitmap.frames == old(bitmap.frames) + Interval(first, n)
    {
      var kr, addr := bitmap.Alloc(Corrected, n);
      if kr != Done {
        return Panic, 0, 0;
      }
      var base := addr / BLOCK;
      first := base;
      st, v := TemporaryMapToPage(base, Node(0, base, n));
      WrittenLands(form, old(space), v, base, Node(0, base, n));
    }

    /** A first run of `n` frames for an empty stack. */
    method Fill(n: nat) returns (st: Outcome, ghost v: nat)
      requires Valid() && runs.Bottom? && n > 0
      modifies this`space, this`next, this`runs, bitmap`used, bitmap`frames, bitmap.bmp
      ensures bitmap.Valid()
      ensures st == Panic <==> old(bitmap.Answer(Corrected, n)) == NotFound
      ensures st == Panic ==> !old(bitmap.Serves(n))
      ensures st == NoPage <==> old(bitmap.Answer(Corrected, n)) != NotFound && Full(low, high, old(space).held)
      ensures st == Served ==>
                Valid() && runs.On? && Lost() == old(Lost()) && Outside() == old(Outside()) && Total(runs) == n
      ensures st == Served ==> runs.top.pages == n && Lowest(low, old(space).held, v) && v < high
      ensures st == Served ==> space.held == old(space).held + {v}
    {
      var at;
      ghost var first;
      st, at, first := GetPageFromBitmap(n);
      v := at;
      if st == Served {
        next := at;
        Offset(old(bitmap.frames), Interval(first, n));
        Offset(old(space).held, {at});
        OneLinked(Run(at, first, n), space);
        runs := On(Run(at, first, n), Bottom);
      }
    }

    /** At least 16 frames to start with, and a pool with nothing taken. */
    constructor (bitmap: BmpPageAllocator, initSizeInPages: nat, form: Form, low: nat, high: nat)
      requires bitmap.Valid() && 0 < low < high
      modifies bitmap`used, bitmap`frames, bitmap.bmp
      ensures this.bitmap == bitmap && this.form == form && this.low == low && this.high == high && bitmap.Valid()
      ensures halted <==>
                old(bitmap.Answer(Corrected, if initSizeInPages < 16 then 16 else initSizeInPages)) == NotFound
      ensures halted ==> !old(bitmap.Serves(if initSizeInPages < 16 then 16 else initSizeInPages))
      ensures !halted ==> Valid() && Total(runs) == if initSizeInPages < 16 then 16 else initSizeInPages
      ensures !halted ==> Outside() == old(bitmap.frames) && Lost() == {}
    {
      this.bitmap, this.form, this.low, this.high := bitmap, form, low, high;
      next, space, runs, halted := 0, Space(map[], map[], {}), Bottom, false;
      new;
      assert low !in space.held;
      var st;
      ghost var v;
      st, v := Fill(if initSizeInPages < 16 then 16 else initSizeInPages);
      halted := st == Panic;
    }

    /** The number of frames on the stack. */
    method GetTotalPages() returns (n: nat)
      requires next == HeadOf(runs) && Linked(runs, space)
      ensures n == Total(runs) == |RunFrames(runs)|
    {
      LinkedHeld(runs, space);
      n := 0;
      var p := next;
      ghost var rs := runs;
      while p != 0
        invariant p == HeadOf(rs) && Linked(rs, space)
        invariant n + Total(rs) == Total(runs)
        decreases rs
      {
        n := n + space.mem[space.virt[p]].pages;
        p := space.mem[space.virt[p]].next;
        rs := rs.below;
      }
    }

    /** The body of `Free`: a node for one frame, on top of whatever `next` is. */
    method Push(frame: nat) returns (st: Outcome, v: nat)
      requires low <= high
      modifies this`space, this`next
      ensures st != Panic && (st == NoPage <==> Full(low, high, old(space).held))
      ensures st == Served ==> Lowest(low, old(space).held, v) && v < high && next == v
      ensures st == Served ==> space == Pushed(form, old(space), old(next), v, frame)
    {
      st, v := TemporaryMapToPage(frame, Node(next, frame, 1));
      if st == Served {
        next := v;
      }
    }

    /** An address inside a page is ignored, and the page is not given back; without a virtual page it fails. */
    method Free(addr: nat) returns (st: Outcome)
      requires Valid() && addr / BLOCK in bitmap.frames && addr / BLOCK !in RunFrames(runs)
      modifies this`space, this`next, this`runs
      ensures st != Panic && (st == NoPage <==> addr % BLOCK == 0 && Full(low, high, old(space).held))
      ensures st == Served ==> Valid() && Lost() == old(Lost())
      ensures addr % BLOCK != 0 ==> runs == old(runs)
      ensures st == Served && addr % BLOCK == 0 ==> RunFrames(runs) == old(RunFrames(runs)) + {addr / BLOCK}
      ensures st == Served && addr % BLOCK == 0 ==> Outside() == old(Outside()) - {addr / BLOCK}
      ensures st == Served && addr % BLOCK == 0 ==> Total(runs) == old(Total(runs)) + 1
    {
      if addr % BLOCK != 0 {
        return Served;
      }
      var v;
      st, v := Push(addr / BLOCK);
      if st == Served {
        PushReady(v, addr / BLOCK, old(next), old(space));
        PushLinkedIff(form, runs, old(space), v, addr / BLOCK);
        PushAdds(form, runs, old(space), v, addr / BLOCK);
        runs := On(Run(v, addr / BLOCK, 1), runs);
      }
    }

    lemma PushReady(v: nat, frame: nat, top: nat, s: Space)
      requires 0 < low < high && (forall a | a in s.held :: low <= a < high) && (form == AsWritten ==> Clean(low, s))
      requires Lowest(low, s.held, v) && v < high && space == Pushed(form, s, top, v, frame)
      ensures Ready() && Lands(form, s, v, frame)
    {
      if form == AsWritten {
        PushClean(form, low, s, top, v, frame);
      }
    }

    /**
     `MemoryManager::VirtualFree` of one page: the page goes back to the pool, still mapped, and
     the frame behind it to the page allocator, which pushes it on this very stack.
     */
    method VirtualFree(at: nat) returns (v: nat)
      requires at in space.virt && at in space.held && low <= at < high
      modifies this`space, this`next
      ensures Lowest(low, old(space).held - {at}, v) && v < high && next == v
      ensures space == Pushed(form, old(space).(held := old(space).held - {at}), old(next), v, old(space).virt[at])
    {
      var frame := space.virt[at];
      space := space.(held := space.held - {at});
      assert at !in space.held;
      var st;
      st, v := Push(frame);
    }

    /** The frame on top, zeroed, given back and taken again; its run gets a new node. */
    method TakeTop() returns (st: Outcome, addr: nat, ghost frame: nat, ghost lost: nat)
      requires Valid() && runs.On?
      modifies this`space, this`next, this`runs
      ensures st != Panic && (st == NoPage <==> old(runs).top.pages > 1 && Full(low, high, old(space).held))
      ensures st == Served ==> Valid() && addr == frame * BLOCK
      ensures st == Served ==> Outside() == old(Outside()) + {frame} && frame !in old(Outside())
      ensures st == Served ==> Total(runs) == old(Total(runs)) - 1
      ensures st == Served ==> Lost() == old(Lost()) + {lost} && lost !in old(Lost())
      ensures st == Served ==> Touched(old(space), frame)
    {
      var node := space.mem[space.virt[next]];
      ghost var v, t;
      addr, frame := node.base * BLOCK, node.base;
      st, v, t := Retake(node);
      lost := v;
      if st == Served {
        PopReady(runs, old(space), v, t);
        PopLinkedIff(form, runs, old(space), v, t);
        PopRemoves(runs, old(space), t);
        PopLoses(form, runs, old(space), v, t);
        PopLeaves(form, runs, old(space), v, t);
        runs := Popped(runs, t);
      }
    }

    lemma PopReady(rs: Runs, s: Space, v: nat, t: nat)
      requires 0 < low < high && (forall a | a in s.held :: low <= a < high) && (form == AsWritten ==> Clean(low, s))
      requires rs.On? && Linked(rs, s) && space == AfterPop(form, rs, s, v, t)
      requires Lowest(low, s.held - {rs.top.at}, v) && v < high
      requires Lowest(low, s.held - {rs.top.at} + {v}, t) && (rs.top.pages > 1 ==> t < high)
      ensures Ready() && FreshPages(rs, s, v, t) && BothLand(form, rs, s, v, t) && PopFits(form, rs, s, v, t)
    {
      BothPages(form, low, rs, s, v, t);
      MidwayIs(form, rs, s, v);
    }

    /** Only `frame` and the next were written to, and `frame` holds a node. */
    ghost predicate Touched(s: Space, frame: nat)
      reads `space
    {
      && frame in space.mem && space.mem[frame].Node?
      && forall f: nat | f !in {frame, frame + 1} && f in s.mem :: f in space.mem && space.mem[f] == s.mem[f]
    }

    method Retake(node: Page) returns (st: Outcome, ghost v: nat, ghost t: nat)
      requires runs.On? && HasNode(runs.top, HeadOf(runs.below), space) && 0 < low && low <= runs.top.at < high
      requires next == runs.top.at && node == space.mem[runs.top.base]
      modifies this`space, this`next
      ensures st != Panic && (st == NoPage <==> runs.top.pages > 1 && Full(low, high, old(space).held))
      ensures st == Served ==> Lowest(low, old(space).held - {runs.top.at}, v) && v < high
      ensures st == Served ==>
                Lowest(low, old(space).held - {runs.top.at} + {v}, t) && (runs.top.pages > 1 ==> t < high)
      ensures st == Served ==> space == AfterPop(form, runs, old(space), v, t) && next == HeadOf(Popped(runs, t))
    {
      space := space.(mem := space.mem[space.virt[next] := Zero]);
      v := VirtualFree(next);
      FullAfterGive(low, high, old(space).held, runs.top.at, v);
      if node.pages > 1 {
        st, next := TemporaryMapToPage(node.base + 1, Node(node.next, node.base + 1, node.pages - 1));
        t := next;
      } else {
        t := LowestPage(low, space.held);
        st, next := Served, node.next;
      }
    }

    /** An empty stack gets sixteen frames of the bitmap. */
    method Refill() returns (st: Outcome)
      requires Valid()
      modifies this`space, this`next, this`runs, bitmap`used, bitmap`frames, bitmap.bmp
      ensures bitmap.Valid()
      ensures st == Panic <==> old(runs).Bottom? && old(bitmap.Answer(Corrected, 16)) == NotFound
      ensures st == NoPage <==>
                old(runs).Bottom? && old(bitmap.Answer(Corrected, 16)) != NotFound && Full(low, high, old(space).held)
      ensures st == Served ==> Valid() && runs.On? && Lost() == old(Lost()) && Outside() == old(Outside())
      ensures st == Served ==> Total(runs) == if old(runs).On? then old(Total(runs)) else 16
      ensures old(runs).On? ==> space == old(space) && runs == old(runs)
      ensures st == Served && old(runs).Bottom? ==> runs.top.pages == 16
      ensures st == Served && old(runs).Bottom? ==>
                (Full(low, high, space.held) <==> NearlyFull(low, high, old(space).held))
    {
      LinkedHeld(runs, space);
      st := Served;
      if next == 0 {
        ghost var v;
        st, v := Fill(16);
        if st == Served {
          FullAfterTake(low, high, old(space).held, v);
        }
      }
    }

    /**
     Takes one frame: the first of the run on top. Midway the frame is on the stack again, as a
     node that is then dropped; its virtual page stays taken. From a valid state, which as written
     means a clean space, both nodes land: exactly one frame leaves, with the dropped node in it
     although it was zeroed. `PopLinkedIff` and `PopLeaves` say what happens from any other.
     */
    method Alloc() returns (st: Outcome, addr: nat, ghost frame: nat, ghost lost: nat)
      requires Valid()
      modifies this`space, this`next, this`runs, bitmap`used, bitmap`frames, bitmap.bmp
      ensures bitmap.Valid()
      ensures st == Panic <==> old(runs).Bottom? && old(bitmap.Answer(Corrected, 16)) == NotFound
      ensures st == Panic ==> !old(bitmap.Serves(16))
      ensures st == NoPage <==> old(Exhausts())
      ensures st == Served ==> Valid() && addr == frame * BLOCK
      ensures st == Served ==> Outside() == old(Outside()) + {frame} && frame !in old(Outside())
      ensures st == Served ==> Total(runs) == (if old(runs).On? then old(Total(runs)) else 16) - 1
      ensures st == Served ==> Lost() == old(Lost()) + {lost} && lost !in old(Lost())
      ensures st == Served ==> frame in space.mem && space.mem[frame].Node?
      ensures st == Served && old(runs).On? ==> Touched(old(space), frame)
    {
      if bitmap.Serves(16) { bitmap.AnswerMeans(16); }
      st := Refill();
      addr, frame, lost := 0, 0, 0;
      if st == Served {
        st, addr, frame, lost := TakeTop();
      } else {
        FullIsNearly(old(space).held);
      }
    }

    lemma FullIsNearly(held: set<nat>)
      ensures Full(low, high, held) ==> NearlyFull(low, high, held)
    {
    }

    /**
     The pool has too few pages for a frame to be taken: none, when the rest of the run on top
     needs one; at most one, when the stack is empty and the bitmap has a run for it.
     */
    ghost predicate Exhausts()
      reads this, bitmap, bitmap.bmp
      requires bitmap.Valid()
    {
      if runs.On? then runs.top.pages > 1 && Full(low, high, space.held)
      else bitmap.Answer(Corrected, 16) != NotFound && NearlyFull(low, high, space.held)
    }

    /** Every frame taken loses a page, and lost pages are in the pool: they bound the frames ever taken. */
    lemma LostBound()
      requires Valid()
      ensures |Lost()| <= high - low
    {
      WithinPool(low, high, Lost());
    }
  }
}
