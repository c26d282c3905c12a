/** Map, unmap and translate refine a flat partial map from pages to frames, over every run. */
module PagingRefinement {
  import opened Forms
  import opened PageTables
  import opened RecursiveSlot
  import opened PagingSpec

  lemma StagesCompose(s: Machine, o1: Outcome, o2: Outcome, cr3: nat, own: Owners, own1: Owners, own2: Owners,
                      flags: nat)
    requires StageKeeps(s, o1, cr3, own, own1, flags) && StageKeeps(o1.s, o2, cr3, own1, own2, flags)
    ensures StageKeeps(s, o2, cr3, own, own2, flags)
  {
  }

  ghost function OwnersP3(s: Machine, cr3: nat, own: Owners, t3: nat, path: Path, flags: nat): Owners
    requires Inv(s, cr3, own) && TableFlags(flags) && path.p4 != RECURSIVE && t3 in own && own[t3] == L3(path.p4)
  {
    var slot := Slot(t3, path.p3);
    EnsureTableKeeps(s, cr3, own, slot, flags);
    var o := EnsureTable(s, cr3, slot, flags);
    var own1 := Grown(s, own, slot);
    if o.st != Done then own1 else Grown(o.s, own1, Slot(o.s.m(slot).frame, path.p2))
  }

  lemma DescendP3Keeps(s: Machine, cr3: nat, own: Owners, t3: nat, path: Path, flags: nat)
    requires Inv(s, cr3, own) && TableFlags(flags) && path.p4 != RECURSIVE && t3 in own && own[t3] == L3(path.p4)
    requires s.m(Slot(cr3, path.p4)) != EMPTY && s.m(Slot(cr3, path.p4)).frame == t3
    ensures var (o, leaf) := DescendP3(s, cr3, t3, path, flags);
            && StageKeeps(s, o, cr3, own, OwnersP3(s, cr3, own, t3, path, flags), flags)
            && (o.st == Done || o.st == Panic)
            && (o.st == Done ==> Locate(o.s.m, cr3, path) == Some(leaf))
  {
    var slot := Slot(t3, path.p3);
    EnsureTableKeeps(s, cr3, own, slot, flags);
    var o := EnsureTable(s, cr3, slot, flags);
    if o.st == Done {
      var own1 := Grown(s, own, slot);
      var slot2 := Slot(o.s.m(slot).frame, path.p2);
      EnsureTableKeeps(o.s, cr3, own1, slot2, flags);
      StagesCompose(s, o, EnsureTable(o.s, cr3, slot2, flags), cr3, own, own1, Grown(o.s, own1, slot2),
                    flags);
    }
  }

  /** The tables after the descent. */
  ghost function Descended(c: Form, s: Machine, cr3: nat, own: Owners, path: Path, flags: nat): (o: Owners)
    requires Inv(s, cr3, own) && Ordinary(path) && TableFlags(flags)
  {
    WalkIsLocate(s.m, cr3, own, SKIP, TEMP);
    var probe := Probe(c, s.m, cr3, path.p4).value;
    EnsureTableKeeps(s, cr3, own, probe, flags);
    var o := EnsureTable(s, cr3, probe, flags);
    var own1 := Grown(s, own, probe);
    var e4 := o.s.m(Slot(cr3, path.p4));
    if o.st != Done || e4 == EMPTY then own1 else OwnersP3(o.s, cr3, own1, e4.frame, path, flags)
  }

  /**
   The descent creates tables without changing any translation. It faults exactly when the
   constant is as written and the root entry is empty: the code then tests the wrong entry,
   and the next lookup needs the table that was never created.
   */
  lemma DescendKeeps(c: Form, s: Machine, cr3: nat, own: Owners, path: Path, flags: nat)
    requires Inv(s, cr3, own) && Ordinary(path) && TableFlags(flags)
    ensures var (o, leaf) := Descend(c, s, cr3, path, flags);
            && StageKeeps(s, o, cr3, own, Descended(c, s, cr3, own, path, flags), flags)
            && o.st in {Done, PageFault, Panic}
            && (o.st == PageFault ==> !Served(c, s.m, cr3, path.p4))
            && (o.st == Done ==>
                  && Served(c, s.m, cr3, path.p4)
                  && Locate(o.s.m, cr3, path) == Some(leaf)
                  && Probed(c, o.s.m, cr3, path.p4))
  {
    WalkIsLocate(s.m, cr3, own, SKIP, TEMP);
    var probe := Probe(c, s.m, cr3, path.p4).value;
    EnsureTableKeeps(s, cr3, own, probe, flags);
    var o := EnsureTable(s, cr3, probe, flags);
    var own1 := Grown(s, own, probe);
    var e4 := o.s.m(Slot(cr3, path.p4));
    if o.st == Done && e4 != EMPTY {
      DescendP3Keeps(o.s, cr3, own1, e4.frame, path, flags);
      var o2 := DescendP3(o.s, cr3, e4.frame, path, flags).0;
      StagesCompose(s, o, o2, cr3, own, own1, OwnersP3(o.s, cr3, own1, e4.frame, path, flags), flags);
    }
  }

  /** Every ordinary page keeps its translation but `path`, which gets `target`. */
  ghost predicate Retargets(m: Memory, m': Memory, cr3: nat, path: Path, target: Option<Entry>) {
    forall q: Path | Ordinary(q) :: Walk(m', cr3, q) == if q == path then target else Walk(m, cr3, q)
  }

  lemma LeafKeeps(s: Machine, cr3: nat, own: Owners, path: Path, e: Entry)
    requires Inv(s, cr3, own) && Ordinary(path) && Locate(s.m, cr3, path).Some? && (e == EMPTY || Present(e))
    ensures var m' := Write(s.m, Locate(s.m, cr3, path).value, e);
            && Inv(s.(m := m'), cr3, own)
            && KeepsLinks(s.m, m', own)
            && (forall t: Slot | t.table in own && !own[t.table].L1? :: m'(t) == s.m(t))
            && Retargets(s.m, m', cr3, path, if e == EMPTY then None else Some(e))
  {
    WalkIsLocate(s.m, cr3, own, SKIP, path);
    SetLeaf(s.m, cr3, own, SKIP, path, e);
  }

  /** The tables after a mapping request. */
  ghost function MapOwners(c: Form, s: Machine, cr3: nat, own: Owners, v: nat, p: nat, tblFlags: nat): (o: Owners)
    requires Inv(s, cr3, own) && Ordinary(PathOf(v)) && TableFlags(tblFlags)
  {
    if (v == 0 && p == 0) || v % 4096 != 0 || p % 4096 != 0 then own
    else Descended(c, s, cr3, own, PathOf(v), tblFlags)
  }

  /**
   Mapping: the entry that decides a page becomes the requested frame with the requested flags
   exactly when the flat map accepts the request; every other page keeps its entry, whatever
   tables were created, and these are linked with the table flags asked for.
   */
  lemma MapRefines(c: Form, s: Machine, cr3: nat, own: Owners, v: nat, p: nat, tblFlags: nat, pgFlags: nat,
                   canOverride: bool)
    requires Inv(s, cr3, own) && MapArgs(v, tblFlags, pgFlags) && Served(c, s.m, cr3, PathOf(v).p4)
    ensures var o := MapPage(c, s, cr3, v, p, tblFlags, pgFlags, canOverride);
            var own' := MapOwners(c, s, cr3, own, v, p, tblFlags);
            && Inv(o.s, cr3, own')
            && KeepsLinks(s.m, o.s.m, own) && NewLinks(s.m, o.s.m, own, own', tblFlags)
            && (forall f | f in own :: f in own' && own'[f] == own[f])
            && (o.st == Panic ==> o.s.src == Frames([]))
            && (o.st != Panic ==> o.st == MapStatus(Walk(s.m, cr3, PathOf(v)), v, p, canOverride))
            && (o.st != Done ==> SameWalks(s.m, o.s.m, cr3))
            && (o.st == Done ==>
                  && Retargets(s.m, o.s.m, cr3, PathOf(v), Some(Entry(p / 4096, pgFlags)))
                  && Probed(c, o.s.m, cr3, PathOf(v).p4))
  {
    var path := PathOf(v);
    if (v == 0 && p == 0) || v % 4096 != 0 || p % 4096 != 0 { return; }
    DescendKeeps(c, s, cr3, own, path, tblFlags);
    var o := Descend(c, s, cr3, path, tblFlags).0;
    if o.st == Done {
      var own' := Descended(c, s, cr3, own, path, tblFlags);
      assert Walk(o.s.m, cr3, path) == if o.s.m(Locate(o.s.m, cr3, path).value) == EMPTY then None
                                       else Some(o.s.m(Locate(o.s.m, cr3, path).value)) by {
        WalkIsLocate(o.s.m, cr3, own', SKIP, path);
      }
      MapLeaf(c, s, o, cr3, own, own', path, Entry(p / 4096, pgFlags), tblFlags);
    }
  }

  /** The last step of a mapping request, after a descent that kept everything. */
  lemma MapLeaf(c: Form, s: Machine, o: Outcome, cr3: nat, own: Owners, own': Owners, path: Path, e: Entry,
                flags: nat)
    requires Inv(s, cr3, own) && StageKeeps(s, o, cr3, own, own', flags) && Ordinary(path)
    requires Locate(o.s.m, cr3, path).Some? && Present(e) && Probed(c, o.s.m, cr3, path.p4)
    ensures var m' := Write(o.s.m, Locate(o.s.m, cr3, path).value, e);
            && Inv(o.s.(m := m'), cr3, own') && KeepsLinks(s.m, m', own) && NewLinks(s.m, m', own, own', flags)
            && Retargets(s.m, m', cr3, path, Some(e))
            && Probed(c, m', cr3, path.p4)
  {
    LeafKeeps(o.s, cr3, own', path, e);
    WalkIsLocate(o.s.m, cr3, own', SKIP, TEMP);
  }

  /**
   With the constant as written, a well-formed request for which the frames last faults
   if and only if the root entry of its address is empty.
   */
  lemma MapFaultsIff(s: Machine, cr3: nat, own: Owners, v: nat, p: nat, tblFlags: nat, pgFlags: nat, canOverride: bool)
    requires Inv(s, cr3, own) && MapArgs(v, tblFlags, pgFlags)
    requires v % 4096 == 0 && p % 4096 == 0 && (v != 0 || p != 0)
    ensures var st := MapPage(AsWritten, s, cr3, v, p, tblFlags, pgFlags, canOverride).st;
            && (st != Panic ==> (st == PageFault <==> s.m(Slot(cr3, PathOf(v).p4)) == EMPTY))
            && (s.src.Bump? ==> st != Panic)
  {
    DescendKeeps(AsWritten, s, cr3, own, PathOf(v), tblFlags);
  }

  // ----- Looking up and unmapping -----

  /**
   Translating answers from the page's walk. With the constant as written this needs both
   that the probed entry is set if the page is mapped, and that the root entry is set
   if the probed one is.
   */
  lemma LookupRefines(c: Form, m: Memory, cr3: nat, own: Owners, path: Path)
    requires Tree(m, cr3, own, SKIP) && Locate(m, cr3, TEMP).Some? && Ordinary(path)
    ensures var (st, s) := Lookup(c, m, cr3, path);
            var right := if Walk(m, cr3, path).None? then st == NotMapped
                         else st == Done && Locate(m, cr3, path) == Some(s) && m(s) == Walk(m, cr3, path).value;
            right <==> (if Probed(c, m, cr3, path.p4) then m(Slot(cr3, path.p4)) != EMPTY else Walk(m, cr3, path).None?)
  {
    WalkIsLocate(m, cr3, own, SKIP, path);
    WalkIsLocate(m, cr3, own, SKIP, TEMP);
  }

  /** Unmapping removes exactly the page, unless it is mapped to frame 0, which the code takes for unmapped. */
  lemma UnmapRefines(c: Form, s: Machine, cr3: nat, own: Owners, v: nat)
    requires Inv(s, cr3, own) && Ordinary(PathOf(v)) && Served(c, s.m, cr3, PathOf(v).p4)
    requires Walk(s.m, cr3, PathOf(v)).Some? ==> Probed(c, s.m, cr3, PathOf(v).p4)
    ensures var o := UnmapPage(c, s, cr3, v);
            && Inv(o.s, cr3, own) && KeepsLinks(s.m, o.s.m, own)
            && o.st == UnmapStatus(Walk(s.m, cr3, PathOf(v)), v)
            && (o.st != Done ==> o.s == s)
            && (o.st == Done ==> Retargets(s.m, o.s.m, cr3, PathOf(v), None))
  {
    LookupRefines(c, s.m, cr3, own, PathOf(v));
    if UnmapPage(c, s, cr3, v).st == Done {
      LeafKeeps(s, cr3, own, PathOf(v), EMPTY);
    }
  }

  /** What a flat map answers to an unmapping request. */
  function UnmapStatus(was: Option<Entry>, v: nat): Status {
    if v == 0 then ArgNull
    else if v % 4096 != 0 then Unaligned
    else if was.None? || was.value.frame == 0 then NotMapped
    else Done
  }

  // ----- Runs -----

  datatype Op =
    | Map(v: nat, p: nat, tblFlags: nat, pgFlags: nat, canOverride: bool)
    | Unmap(v: nat)
    | Translate(v: nat)

  /** A status, with a physical address when `Translate` is done. */
  datatype Reply = Reply(st: Status, phys: nat)

  function Exec(c: Form, s: Machine, cr3: nat, op: Op): (r: (Machine, Reply))
    requires SourceOk(s.src)
    ensures SourceOk(r.0.src) && r.0.src.Bump? == s.src.Bump?
  {
    match op
    case Map(v, p, tf, pf, ovr) => var o := MapPage(c, s, cr3, v, p, tf, pf, ovr); (o.s, Reply(o.st, 0))
    case Unmap(v) => var o := UnmapPage(c, s, cr3, v); (o.s, Reply(o.st, 0))
    case Translate(v) => var (st, phys) := VirtToPhys(c, s.m, cr3, v); (s, Reply(st, phys))
  }

  /** The specification: a partial map from pages to frames, with the flags of each mapping. */
  type Flat = map<Path, Entry>

  function Get(f: Flat, p: Path): Option<Entry> { if p in f then Some(f[p]) else None }

  function FlatExec(f: Flat, op: Op): (Flat, Reply) {
    match op
    case Map(v, p, _, flags, ovr) =>
      var st := MapStatus(Get(f, PathOf(v)), v, p, ovr);
      (if st == Done then f[PathOf(v) := Entry(p / 4096, flags)] else f, Reply(st, 0))
    case Unmap(v) =>
      var st := UnmapStatus(Get(f, PathOf(v)), v);
      (if st == Done then f - {PathOf(v)} else f, Reply(st, 0))
    case Translate(v) =>
      (f, if PathOf(v) in f then Reply(Done, f[PathOf(v)].frame * 4096 + v % 4096) else Reply(NotMapped, 0))
  }

  /** Replies to a list of requests; a panic or a page fault ends the run. */
  function Run(c: Form, s: Machine, cr3: nat, ops: seq<Op>): seq<Reply>
    requires SourceOk(s.src)
    decreases |ops|
  {
    if ops == [] then [] else
    var (s', r) := Exec(c, s, cr3, ops[0]);
    if r.st in {Panic, PageFault} then [r]
    else [r] + Run(c, s', cr3, ops[1..])
  }

  function FlatRun(f: Flat, ops: seq<Op>): seq<Reply>
    decreases |ops|
  {
    if ops == [] then [] else
    var (f', r) := FlatExec(f, ops[0]);
    [r] + FlatRun(f', ops[1..])
  }

  /** The tables, and the flat map, that a run leaves. */
  function Left(c: Form, s: Machine, cr3: nat, ops: seq<Op>): Machine
    requires SourceOk(s.src)
    decreases |ops|
  {
    if ops == [] then s else
    var (s', r) := Exec(c, s, cr3, ops[0]);
    if r.st in {Panic, PageFault} then s' else Left(c, s', cr3, ops[1..])
  }

  function FlatLeft(f: Flat, ops: seq<Op>): Flat
    decreases |ops|
  {
    if ops == [] then f else FlatLeft(FlatExec(f, ops[0]).0, ops[1..])
  }

  ghost predicate ValidOp(c: Form, m: Memory, cr3: nat, op: Op) {
    && Served(c, m, cr3, PathOf(op.v).p4)
    && Ordinary(PathOf(op.v))
    && (op.Map? ==> MapArgs(op.v, op.tblFlags, op.pgFlags))
  }

  /** The tables implement `f` on ordinary pages, and lookups of mapped pages start right. */
  ghost predicate Implements(c: Form, s: Machine, cr3: nat, f: Flat) {
    && (forall q: Path | Ordinary(q) :: Walk(s.m, cr3, q) == Get(f, q))
    && (forall q: Path | Ordinary(q) && q in f :: Probed(c, s.m, cr3, q.p4))
  }

  /** The replies of the tables are those of the flat map, except that they may end in a panic. */
  ghost predicate Agree(table: seq<Reply>, flat: seq<Reply>) {
    || table == flat
    || (0 < |table| <= |flat| && table[|table| - 1].st == Panic && table[..|table| - 1] == flat[..|table| - 1])
  }

  /** The request is answered as by the flat map, and the tables implement the flat map that results. */
  ghost predicate Follows(c: Form, s: Machine, cr3: nat, op: Op, s': Machine, own': Owners, f': Flat) {
    && Inv(s', cr3, own')
    && Implements(c, s', cr3, f')
    && (forall p4: nat :: Served(c, s.m, cr3, p4) ==> Served(c, s'.m, cr3, p4))
  }

  lemma FollowsRetarget(c: Form, s: Machine, cr3: nat, own: Owners, f: Flat, op: Op,
                        s': Machine, own': Owners, f': Flat, target: Option<Entry>)
    requires Inv(s, cr3, own) && Implements(c, s, cr3, f)
    requires Inv(s', cr3, own') && KeepsLinks(s.m, s'.m, own)
    requires Retargets(s.m, s'.m, cr3, PathOf(op.v), target)
    requires f' == match target case None => f - {PathOf(op.v)} case Some(e) => f[PathOf(op.v) := e]
    requires target.Some? ==> Probed(c, s'.m, cr3, PathOf(op.v).p4)
    ensures Follows(c, s, cr3, op, s', own', f')
  {
    KeepsProbed(c, s, cr3, own, s');
    assert forall q: Path | Ordinary(q) :: Walk(s.m, cr3, q) == Get(f, q);
  }

  lemma FollowsSame(c: Form, s: Machine, cr3: nat, own: Owners, f: Flat, op: Op, s': Machine, own': Owners)
    requires Inv(s, cr3, own) && Implements(c, s, cr3, f)
    requires Inv(s', cr3, own') && KeepsLinks(s.m, s'.m, own) && SameWalks(s.m, s'.m, cr3)
    ensures Follows(c, s, cr3, op, s', own', f)
  {
    KeepsProbed(c, s, cr3, own, s');
  }

  lemma KeepsProbed(c: Form, s: Machine, cr3: nat, own: Owners, s': Machine)
    requires Inv(s, cr3, own) && KeepsLinks(s.m, s'.m, own)
    ensures forall q: Path | q.p4 != RECURSIVE && Probed(c, s.m, cr3, q.p4) :: Probed(c, s'.m, cr3, q.p4)
    ensures forall p4: nat :: Served(c, s.m, cr3, p4) ==> Served(c, s'.m, cr3, p4)
  {
    WalkIsLocate(s.m, cr3, own, SKIP, TEMP);
  }

  lemma MapFollows(c: Form, s: Machine, cr3: nat, own: Owners, f: Flat, op: Op)
    requires Inv(s, cr3, own) && Implements(c, s, cr3, f) && ValidOp(c, s.m, cr3, op) && op.Map?
    ensures var o := MapPage(c, s, cr3, op.v, op.p, op.tblFlags, op.pgFlags, op.canOverride);
            var (f', flat) := FlatExec(f, op);
            && (o.st != Panic ==>
                  && o.st == flat.st
                  && Follows(c, s, cr3, op, o.s, MapOwners(c, s, cr3, own, op.v, op.p, op.tblFlags), f'))
            && (o.st == Panic ==> o.s.src == Frames([]))
  {
    MapRefines(c, s, cr3, own, op.v, op.p, op.tblFlags, op.pgFlags, op.canOverride);
    var o := MapPage(c, s, cr3, op.v, op.p, op.tblFlags, op.pgFlags, op.canOverride);
    var own' := MapOwners(c, s, cr3, own, op.v, op.p, op.tblFlags);
    if o.st == Done {
      FollowsRetarget(c, s, cr3, own, f, op, o.s, own', FlatExec(f, op).0, Some(Entry(op.p / 4096, op.pgFlags)));
    } else if o.st != Panic {
      FollowsSame(c, s, cr3, own, f, op, o.s, own');
    }
  }

  lemma UnmapFollows(c: Form, s: Machine, cr3: nat, own: Owners, f: Flat, op: Op)
    requires Inv(s, cr3, own) && Implements(c, s, cr3, f) && ValidOp(c, s.m, cr3, op) && op.Unmap?
    ensures var o := UnmapPage(c, s, cr3, op.v);
            var (f', flat) := FlatExec(f, op);
            o.st == flat.st && Follows(c, s, cr3, op, o.s, own, f')
  {
    UnmapRefines(c, s, cr3, own, op.v);
    var o := UnmapPage(c, s, cr3, op.v);
    if o.st == Done {
      FollowsRetarget(c, s, cr3, own, f, op, o.s, own, FlatExec(f, op).0, None);
    } else {
      FollowsSame(c, s, cr3, own, f, op, o.s, own);
    }
  }

  /** One request, whatever its kind. */
  lemma ExecRefines(c: Form, s: Machine, cr3: nat, own: Owners, f: Flat, op: Op) returns (own': Owners)
    requires Inv(s, cr3, own) && Implements(c, s, cr3, f) && ValidOp(c, s.m, cr3, op)
    ensures var (s', r) := Exec(c, s, cr3, op);
            var (f', flat) := FlatExec(f, op);
            && (r.st != Panic ==> r == flat && r.st != PageFault && Follows(c, s, cr3, op, s', own', f'))
            && (r.st == Panic ==> s'.src == Frames([]))
  {
    own' := own;
    match op
    case Map(v, p, tf, pf, ovr) =>
      MapFollows(c, s, cr3, own, f, op);
      own' := MapOwners(c, s, cr3, own, v, p, tf);
    case Unmap(v) =>
      UnmapFollows(c, s, cr3, own, f, op);
    case Translate(v) =>
      LookupRefines(c, s.m, cr3, own, PathOf(v));
      FollowsSame(c, s, cr3, own, f, op, s, own);
  }

  lemma SameTails(r: Reply, a: seq<Reply>, b: seq<Reply>)
    ensures [r] + a == [r] + b ==> a == b
  {
    assert ([r] + a)[1..] == a && ([r] + b)[1..] == b;
  }

  lemma AgreeCons(r: Reply, table: seq<Reply>, flat: seq<Reply>)
    requires Agree(table, flat)
    ensures Agree([r] + table, [r] + flat)
  {
    if table != flat {
      assert ([r] + table)[..|table|] == [r] + table[..|table| - 1];
      assert ([r] + flat)[..|table|] == [r] + flat[..|table| - 1];
    }
  }

  /**
   Over every run of map, unmap and translate on ordinary pages the tables answer as a flat
   partial map: with the corrected constant on all of them, with the constant as written on
   those whose root entry is set at the start. Only the frame allocator can cut a run short.
   */
  lemma {:induction false} RunRefines(c: Form, s: Machine, cr3: nat, own: Owners, f: Flat, ops: seq<Op>)
    requires Inv(s, cr3, own) && Implements(c, s, cr3, f)
    requires forall i | 0 <= i < |ops| :: ValidOp(c, s.m, cr3, ops[i])
    ensures Agree(Run(c, s, cr3, ops), FlatRun(f, ops))
    ensures s.src.Bump? ==> Run(c, s, cr3, ops) == FlatRun(f, ops)
    decreases |ops|
  {
    if ops == [] {
    } else {
      var own' := ExecRefines(c, s, cr3, own, f, ops[0]);
      var (s', r) := Exec(c, s, cr3, ops[0]);
      var f' := FlatExec(f, ops[0]).0;
      if r.st != Panic {
        RunRefines(c, s', cr3, own', f', ops[1..]);
        AgreeCons(r, Run(c, s', cr3, ops[1..]), FlatRun(f', ops[1..]));
      }
    }
  }

  /** A run that is not cut short leaves tables that implement the flat map it leaves, frames and flags. */
  lemma {:induction false} RunLeaves(c: Form, s: Machine, cr3: nat, own: Owners, f: Flat, ops: seq<Op>)
    requires Inv(s, cr3, own) && Implements(c, s, cr3, f)
    requires forall i | 0 <= i < |ops| :: ValidOp(c, s.m, cr3, ops[i])
    requires Run(c, s, cr3, ops) == FlatRun(f, ops)
    ensures Implements(c, Left(c, s, cr3, ops), cr3, FlatLeft(f, ops))
    decreases |ops|
  {
    if ops != [] {
      var own' := ExecRefines(c, s, cr3, own, f, ops[0]);
      RunTails(c, s, cr3, f, ops);
      RunLeaves(c, Exec(c, s, cr3, ops[0]).0, cr3, own', FlatExec(f, ops[0]).0, ops[1..]);
    }
  }

  lemma RunTails(c: Form, s: Machine, cr3: nat, f: Flat, ops: seq<Op>)
    requires SourceOk(s.src) && ops != [] && Run(c, s, cr3, ops) == FlatRun(f, ops)
    ensures var (s', r) := Exec(c, s, cr3, ops[0]);
            r.st !in {Panic, PageFault} && Run(c, s', cr3, ops[1..]) == FlatRun(FlatExec(f, ops[0]).0, ops[1..])
  {
    var (s', r) := Exec(c, s, cr3, ops[0]);
    var (f', flat) := FlatExec(f, ops[0]);
    assert Run(c, s, cr3, ops)[0] == r && FlatRun(f, ops)[0] == flat;
    SameTails(r, Run(c, s', cr3, ops[1..]), FlatRun(f', ops[1..]));
  }
}
