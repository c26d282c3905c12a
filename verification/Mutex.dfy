/**
 The recursive mutex as a state machine: any number of processors, each at one memory access of
 `Acquire` (a loop of `TryAcquire`) or `Release`, interleaved in any order. The number of the
 current processor, a constant 0 in the source, is a parameter.
 */
module Mutexes {
  /** The access a processor makes next; all but the first two of each call are in the edit section. */
  datatype Pc =
    | Idle
    | TryLock | TestDepth | SetOwner | SetDepth | TestOwner | Nest | Leave(success: bool)
    | LockToRelease | Drop | ClearDepth | ClearOwner | LeaveRelease

  const NOBODY: int := -1

  /** The mutex, where the processors are, and how often each has acquired it without releasing it. */
  datatype State = State(lock: bool, depth: int, owner: int, pc: seq<Pc>, holds: seq<nat>, acquired: nat, released: nat)

  /** What an idle processor calls. */
  datatype Call = Acquire | Release | Nothing

  datatype Event = Event(p: nat, call: Call)

  type Ids = nat -> int

  function Init(n: nat): State {
    State(false, 0, NOBODY, seq(n, _ => Idle), seq(n, _ => 0), 0, 0)
  }

  predicate InEdit(pc: Pc) {
    !pc.Idle? && !pc.TryLock? && !pc.LockToRelease?
  }

  function At(s: State, p: nat, pc: Pc): State
    requires p < |s.pc|
  {
    s.(pc := s.pc[p := pc])
  }

  /** One access of processor `p`. A compare-and-swap that fails leaves everything as it is. */
  function Step(ids: Ids, s: State, e: Event): State
    requires e.p < |s.pc| == |s.holds|
  {
    var p := e.p;
    match s.pc[p]
    case Idle =>
      (match e.call
       case Acquire => At(s, p, TryLock)
       case Release => At(s, p, LockToRelease)
       case Nothing => s)
    case TryLock => if s.lock then s else At(s.(lock := true), p, TestDepth)
    case TestDepth => At(s, p, if s.depth == 0 then SetOwner else TestOwner)
    case SetOwner => At(s.(owner := ids(p)), p, SetDepth)
    case SetDepth =>
      At(s.(depth := 1, holds := s.holds[p := s.holds[p] + 1], acquired := s.acquired + 1), p, Leave(true))
    case TestOwner => At(s, p, if s.owner == ids(p) then Nest else Leave(false))
    case Nest =>
      At(s.(depth := s.depth + 1, holds := s.holds[p := s.holds[p] + 1], acquired := s.acquired + 1), p, Leave(true))
    case Leave(success) => At(s.(lock := false), p, if success then Idle else TryLock)
    case LockToRelease => if s.lock then s else At(s.(lock := true), p, Drop)
    case Drop =>
      if s.depth > 0 then
        var held := if s.holds[p] > 0 then s.holds[p] - 1 else 0;
        At(s.(depth := s.depth - 1, holds := s.holds[p := held], released := s.released + 1), p,
           if s.depth == 1 then ClearDepth else LeaveRelease)
      else At(s, p, LeaveRelease)
    case ClearDepth => At(s.(depth := 0), p, ClearOwner)
    case ClearOwner => At(s.(owner := NOBODY), p, LeaveRelease)
    case LeaveRelease => At(s.(lock := false), p, Idle)
  }

  function Run(ids: Ids, s: State, es: seq<Event>): State
    requires |s.pc| == |s.holds| && forall e | e in es :: e.p < |s.pc|
    decreases es
  {
    if es == [] then s else Run(ids, Step(ids, s, es[0]), es[1..])
  }

  // ----- The edit section -----

  predicate Settled(s: State) { s.owner == NOBODY <==> s.depth == 0 }

  /** What the processor in the edit section knows. */
  predicate EditOk(ids: Ids, s: State, p: nat)
    requires p < |s.pc|
  {
    match s.pc[p]
    case SetOwner => s.depth == 0 && s.owner == NOBODY
    case SetDepth => s.depth == 0 && s.owner == ids(p)
    case TestOwner => s.depth > 0 && Settled(s)
    case Nest => s.depth > 0 && s.owner == ids(p)
    case ClearDepth => s.depth == 0 && s.owner != NOBODY
    case ClearOwner => s.depth == 0 && s.owner != NOBODY
    case _ => Settled(s)
  }

  /**
   At most one processor is in the edit section, and the lock is set exactly while one is; the
   depth counts acquisitions less releases; outside the section nobody owns the mutex exactly
   when its depth is 0.
   */
  ghost predicate Inv(ids: Ids, s: State) {
    && |s.pc| == |s.holds|
    && (forall p: nat | p < |s.pc| && InEdit(s.pc[p]) :: s.lock && EditOk(ids, s, p))
    && (forall p: nat, q: nat | p < q < |s.pc| :: !(InEdit(s.pc[p]) && InEdit(s.pc[q])))
    && (s.lock ==> exists p: nat :: p < |s.pc| && InEdit(s.pc[p]))
    && (!s.lock ==> Settled(s))
    && s.depth == s.acquired - s.released >= 0
  }

  predicate Proper(ids: Ids, n: nat) { forall p: nat | p < n :: ids(p) != NOBODY }

  /** Others stay where they are; and they stay out of the edit section. */
  lemma OthersStay(ids: Ids, s: State, e: Event)
    requires |s.pc| == |s.holds| && e.p < |s.pc|
    ensures var s' := Step(ids, s, e);
            |s'.pc| == |s'.holds| == |s.pc| &&
            forall q: nat | q < |s.pc| && q != e.p :: s'.pc[q] == s.pc[q] && s'.holds[q] == s.holds[q]
  {
  }

  lemma StepInside(ids: Ids, s: State, e: Event)
    requires Inv(ids, s) && e.p < |s.pc| && Proper(ids, |s.pc|)
    ensures var s' := Step(ids, s, e);
            && (InEdit(s'.pc[e.p]) ==> s'.lock && EditOk(ids, s', e.p))
            && (InEdit(s.pc[e.p]) && !InEdit(s'.pc[e.p]) ==> !s'.lock && Settled(s'))
            && (!InEdit(s.pc[e.p]) && InEdit(s'.pc[e.p]) ==> !s.lock)
            && s'.depth == s'.acquired - s'.released >= 0
  {
  }

  lemma StepOutside(ids: Ids, s: State, e: Event)
    requires |s.pc| == |s.holds| && e.p < |s.pc| && !InEdit(s.pc[e.p])
    ensures var s' := Step(ids, s, e);
            && s'.depth == s.depth && s'.owner == s.owner && s'.holds == s.holds
            && (s'.lock == s.lock || InEdit(s'.pc[e.p]))
  {
  }

  lemma StepKeeps(ids: Ids, s: State, e: Event)
    requires Inv(ids, s) && e.p < |s.pc| && Proper(ids, |s.pc|)
    ensures Inv(ids, Step(ids, s, e)) && |Step(ids, s, e).pc| == |s.pc|
  {
    var p, s' := e.p, Step(ids, s, e);
    OthersStay(ids, s, e);
    StepInside(ids, s, e);
    if InEdit(s.pc[p]) {
      forall q: nat | q < |s.pc| && q != p
        ensures !InEdit(s'.pc[q])
      {
        assert !(InEdit(s.pc[p]) && InEdit(s.pc[q]));
      }
      if s'.lock {
        assert InEdit(s'.pc[p]);
      }
    } else {
      StepOutside(ids, s, e);
      OutsideKeeps(ids, s, e);
    }
  }

  lemma OutsideKeeps(ids: Ids, s: State, e: Event)
    requires Inv(ids, s) && e.p < |s.pc| && Proper(ids, |s.pc|) && !InEdit(s.pc[e.p])
    ensures Inv(ids, Step(ids, s, e))
  {
    var p, s' := e.p, Step(ids, s, e);
    OthersStay(ids, s, e);
    StepInside(ids, s, e);
    StepOutside(ids, s, e);
    if InEdit(s'.pc[p]) {
      assert forall q: nat | q < |s.pc| :: !InEdit(s.pc[q]);
    } else if s'.lock {
      var q: nat :| q < |s.pc| && InEdit(s.pc[q]);
      assert InEdit(s'.pc[q]);
    }
  }

  lemma InitOk(ids: Ids, n: nat)
    ensures Inv(ids, Init(n))
  {
  }

  /** For any number of processors and any interleaving. */
  lemma {:induction false} RunKeeps(ids: Ids, s: State, es: seq<Event>)
    requires Inv(ids, s) && Proper(ids, |s.pc|) && forall e | e in es :: e.p < |s.pc|
    ensures Inv(ids, Run(ids, s, es))
    decreases es
  {
    if es != [] {
      StepKeeps(ids, s, es[0]);
      RunKeeps(ids, Step(ids, s, es[0]), es[1..]);
    }
  }

  predicate HasProcessor(s: State, p: nat) { p < |s.pc| == |s.holds| }

  // ----- Holders -----

  ghost predicate Injective(ids: Ids, n: nat) {
    forall p: nat, q: nat | p < q < n :: ids(p) != ids(q)
  }

  /** `h` is the only processor that holds the mutex, and holds it `depth` times. */
  ghost predicate OnlyHolder(ids: Ids, s: State, h: nat) {
    && h < |s.holds| && s.owner == ids(h) && s.holds[h] == s.depth
    && forall q: nat | q < |s.holds| && q != h :: s.holds[q] == 0
  }

  ghost predicate HoldersOk(ids: Ids, s: State) {
    && |s.pc| == |s.holds|
    && (s.depth <= 0 ==> forall q: nat | q < |s.holds| :: s.holds[q] == 0)
    && (s.depth > 0 ==> exists h: nat :: OnlyHolder(ids, s, h))
    && (forall p: nat | p < |s.pc| && (s.pc[p] == LockToRelease || s.pc[p] == Drop) :: s.holds[p] > 0)
  }

  /** Only a holder calls `Release`. */
  predicate Fair(s: State, e: Event)
    requires e.p < |s.pc| && |s.pc| == |s.holds|
  {
    s.pc[e.p].Idle? && e.call.Release? ==> s.holds[e.p] > 0
  }

  ghost predicate FairRun(ids: Ids, s: State, es: seq<Event>)
    requires |s.pc| == |s.holds| && forall e | e in es :: e.p < |s.pc|
    decreases es
  {
    es != [] ==> Fair(s, es[0]) && FairRun(ids, Step(ids, s, es[0]), es[1..])
  }

  lemma HolderIs(ids: Ids, s: State, p: nat, h: nat)
    requires Injective(ids, |s.holds|) && OnlyHolder(ids, s, h)
    requires p < |s.holds| && (s.owner == ids(p) || s.holds[p] > 0)
    ensures p == h
  {
  }

  lemma DepthSteps(ids: Ids, s: State, e: Event)
    requires Inv(ids, s) && HoldersOk(ids, s) && e.p < |s.pc| && Injective(ids, |s.pc|) && Proper(ids, |s.pc|)
    requires s.pc[e.p] == SetDepth || s.pc[e.p] == Nest || s.pc[e.p] == Drop
    ensures HoldersOk(ids, Step(ids, s, e))
  {
    var p, s' := e.p, Step(ids, s, e);
    OthersStay(ids, s, e);
    if s.depth > 0 {
      var h: nat :| OnlyHolder(ids, s, h);
      HolderIs(ids, s, p, h);
    }
    if s'.depth > 0 {
      assert OnlyHolder(ids, s', p);
    }
  }

  lemma OtherSteps(ids: Ids, s: State, e: Event)
    requires Inv(ids, s) && HoldersOk(ids, s) && e.p < |s.pc| && Fair(s, e)
    requires s.pc[e.p] != SetDepth && s.pc[e.p] != Nest && s.pc[e.p] != Drop
    ensures HoldersOk(ids, Step(ids, s, e))
  {
    var s' := Step(ids, s, e);
    OthersStay(ids, s, e);
    assert s'.holds == s.holds && (s.depth > 0 ==> s'.depth == s.depth && s'.owner == s.owner);
    if s.depth > 0 {
      var h: nat :| OnlyHolder(ids, s, h);
      assert OnlyHolder(ids, s', h);
    }
  }

  lemma StepHolders(ids: Ids, s: State, e: Event)
    requires Inv(ids, s) && HoldersOk(ids, s) && e.p < |s.pc| && Fair(s, e)
    requires Injective(ids, |s.pc|) && Proper(ids, |s.pc|)
    ensures Inv(ids, Step(ids, s, e)) && HoldersOk(ids, Step(ids, s, e))
  {
    StepKeeps(ids, s, e);
    if s.pc[e.p] == SetDepth || s.pc[e.p] == Nest || s.pc[e.p] == Drop {
      DepthSteps(ids, s, e);
    } else {
      OtherSteps(ids, s, e);
    }
  }

  ghost predicate OneHolder(s: State) {
    forall p: nat, q: nat | p < q < |s.holds| :: s.holds[p] == 0 || s.holds[q] == 0
  }

  lemma {:induction false} RunHolders(ids: Ids, s: State, es: seq<Event>)
    requires Inv(ids, s) && HoldersOk(ids, s) && Injective(ids, |s.pc|) && Proper(ids, |s.pc|)
    requires (forall e | e in es :: e.p < |s.pc|) && FairRun(ids, s, es)
    ensures HoldersOk(ids, Run(ids, s, es)) && OneHolder(Run(ids, s, es))
    decreases es
  {
    if es != [] {
      RunRest(ids, s, es);
      RunHolders(ids, Step(ids, s, es[0]), es[1..]);
    }
  }

  /** After the first access of a run the rest of it starts as the whole did. */
  lemma RunRest(ids: Ids, s: State, es: seq<Event>)
    requires Inv(ids, s) && HoldersOk(ids, s) && Injective(ids, |s.pc|) && Proper(ids, |s.pc|)
    requires es != [] && (forall e | e in es :: e.p < |s.pc|) && FairRun(ids, s, es)
    ensures var s' := Step(ids, s, es[0]);
            && |s'.pc| == |s.pc| && Inv(ids, s') && HoldersOk(ids, s') && FairRun(ids, s', es[1..])
  {
    StepHolders(ids, s, es[0]);
  }

  // ----- What a call has done when it returns -----

  predicate Acquiring(pc: Pc) {
    pc.TryLock? || pc.TestDepth? || pc.SetOwner? || pc.SetDepth? || pc.TestOwner? || pc.Nest? || pc.Leave?
  }

  predicate Releasing(pc: Pc) { !pc.Idle? && !Acquiring(pc) }

  /** How far the call under way has changed the holds of its processor. */
  function Gained(pc: Pc): int {
    if pc == Leave(true) then 1 else if pc.ClearDepth? || pc.ClearOwner? || pc.LeaveRelease? then -1 else 0
  }

  /** What an access that ends a call has brought about by then: a completed `Acquire`, or `Release`. */
  function Completed(ids: Ids, s: State, e: Event, p: nat): int
    requires HasProcessor(s, p) && e.p < |s.pc|
  {
    var pc, pc' := s.pc[p], Step(ids, s, e).pc[p];
    if pc'.Idle? && Acquiring(pc) then 1 else if pc'.Idle? && Releasing(pc) then -1 else 0
  }

  /** The calls of `p` that a run completes: those of `Acquire` less those of `Release`. */
  function CompletedIn(ids: Ids, s: State, es: seq<Event>, p: nat): int
    requires HasProcessor(s, p) && forall e | e in es :: e.p < |s.pc|
    decreases es
  {
    if es == [] then 0 else Completed(ids, s, es[0], p) + CompletedIn(ids, Step(ids, s, es[0]), es[1..], p)
  }

  /** One access: holds follow the calls completed and the one under way, the depth follows the holder. */
  lemma StepCounts(ids: Ids, s: State, e: Event, p: nat)
    requires Inv(ids, s) && HoldersOk(ids, s) && e.p < |s.pc| && Injective(ids, |s.pc|) && p < |s.pc|
    ensures HasProcessor(Step(ids, s, e), p)
    ensures var s' := Step(ids, s, e);
            s'.holds[p] - Gained(s'.pc[p]) == s.holds[p] - Gained(s.pc[p]) + Completed(ids, s, e, p)
  {
    OthersStay(ids, s, e);
    if e.p == p && s.pc[p] == Drop {
      var h: nat :| OnlyHolder(ids, s, h);
      HolderIs(ids, s, p, h);
    }
  }

  /**
   Over every run with releases by holders each processor's holds are what they were, and one more
   for each `Acquire` that has returned, one less for each `Release`: no `Acquire` returns without
   the mutex, and no `Release` with it.
   */
  lemma {:induction false} RunCounts(ids: Ids, s: State, es: seq<Event>, p: nat)
    requires Inv(ids, s) && HoldersOk(ids, s) && Injective(ids, |s.pc|) && Proper(ids, |s.pc|)
    requires (forall e | e in es :: e.p < |s.pc|) && FairRun(ids, s, es) && p < |s.pc|
    ensures HasProcessor(Run(ids, s, es), p)
    ensures var s' := Run(ids, s, es);
            s'.holds[p] - Gained(s'.pc[p]) == s.holds[p] - Gained(s.pc[p]) + CompletedIn(ids, s, es, p)
    decreases es
  {
    if es != [] {
      RunRest(ids, s, es);
      StepCounts(ids, s, es[0], p);
      RunCounts(ids, Step(ids, s, es[0]), es[1..], p);
    }
  }

  /** Processor `p` is in a call up to the last state of the run. */
  ghost predicate InCall(ids: Ids, s: State, es: seq<Event>, p: nat)
    requires HasProcessor(s, p) && forall e | e in es :: e.p < |s.pc|
    decreases es
  {
    es != [] ==> !s.pc[p].Idle? && InCall(ids, Step(ids, s, es[0]), es[1..], p)
  }

  /** A call that is under way completes what it is, and nothing else, when its processor is idle again. */
  lemma {:induction false} CallCompletes(ids: Ids, s: State, es: seq<Event>, p: nat)
    requires HasProcessor(s, p) && (forall e | e in es :: e.p < |s.pc|) && InCall(ids, s, es, p) && !s.pc[p].Idle?
    ensures HasProcessor(Run(ids, s, es), p)
    ensures var pc := Run(ids, s, es).pc[p];
            CompletedIn(ids, s, es, p) == if !pc.Idle? then 0 else if Acquiring(s.pc[p]) then 1 else -1
    decreases es
  {
    if es != [] {
      var s' := Step(ids, s, es[0]);
      OthersStay(ids, s, es[0]);
      StaysInCall(ids, s, es[0], p);
      if s'.pc[p].Idle? {
        assert es[1..] == [];
      } else {
        CallCompletes(ids, s', es[1..], p);
      }
    }
  }

  lemma StaysInCall(ids: Ids, s: State, e: Event, p: nat)
    requires HasProcessor(s, p) && e.p < |s.pc| && !s.pc[p].Idle?
    ensures var pc' := Step(ids, s, e).pc[p]; pc'.Idle? || (Acquiring(pc') <==> Acquiring(s.pc[p]))
  {
    OthersStay(ids, s, e);
  }

  /** The call, and the accesses of all processors up to the first state in which `p` is idle again. */
  ghost predicate WholeCall(ids: Ids, s: State, es: seq<Event>, p: nat, call: Call)
    requires HasProcessor(s, p) && forall e | e in es :: e.p < |s.pc|
  {
    && es != [] && s.pc[p].Idle? && es[0] == Event(p, call) && InCall(ids, Step(ids, s, es[0]), es[1..], p)
    && |Run(ids, s, es).pc| == |s.pc| && Run(ids, s, es).pc[p].Idle?
  }

  /**
   From the call of `Acquire` to the first state in which the processor is idle again, whatever the
   others do meanwhile, its holds have grown by exactly one; of `Release` they have shrunk by one.
   */
  lemma CallsCount(ids: Ids, s: State, es: seq<Event>, p: nat, call: Call)
    requires Inv(ids, s) && HoldersOk(ids, s) && Injective(ids, |s.pc|) && Proper(ids, |s.pc|)
    requires (forall e | e in es :: e.p < |s.pc|) && FairRun(ids, s, es) && p < |s.pc|
    requires !call.Nothing? && WholeCall(ids, s, es, p, call)
    ensures HasProcessor(Run(ids, s, es), p)
    ensures Run(ids, s, es).holds[p] == s.holds[p] + if call.Acquire? then 1 else -1
  {
    RunCounts(ids, s, es, p);
    OthersStay(ids, s, es[0]);
    CallCompletes(ids, Step(ids, s, es[0]), es[1..], p);
  }

  /** With nobody in a call the depth in memory is the calls completed, and its owner completed them. */
  lemma DepthCounts(ids: Ids, n: nat, es: seq<Event>, p: nat)
    requires Injective(ids, n) && Proper(ids, n) && (forall e | e in es :: e.p < n)
    requires FairRun(ids, Init(n), es) && p < n
    requires |Run(ids, Init(n), es).pc| == n && forall q: nat | q < n :: Run(ids, Init(n), es).pc[q].Idle?
    ensures var s := Run(ids, Init(n), es);
            && !s.lock && CompletedIn(ids, Init(n), es, p) == (if s.owner == ids(p) then s.depth else 0)
            && (s.owner == NOBODY <==> s.depth == 0)
  {
    InitOk(ids, n);
    RunKeeps(ids, Init(n), es);
    RunHolders(ids, Init(n), es);
    RunCounts(ids, Init(n), es, p);
  }

  // ----- One call without interruption -----

  lemma RunCons(ids: Ids, s: State, e: Event, es: seq<Event>)
    requires |s.pc| == |s.holds| && e.p < |s.pc| && forall f | f in es :: f.p < |s.pc|
    ensures forall f | f in [e] + es :: f.p < |s.pc|
    ensures Run(ids, s, [e] + es) == Run(ids, Step(ids, s, e), es)
  {
    assert ([e] + es)[1..] == es;
  }

  /** `Acquire` of processor `p`: the call, then its accesses. */
  function AcquireEvents(p: nat): seq<Event> {
    var step := Event(p, Nothing);
    [Event(p, Acquire)] + ([step] + FourNothings(p))
  }

  function Acquired(ids: Ids, s: State, p: nat): State
    requires p < |s.holds|
  {
    s.(depth := s.depth + 1, owner := ids(p), holds := s.holds[p := s.holds[p] + 1], acquired := s.acquired + 1)
  }

  lemma AtTwice(s: State, p: nat, a: Pc, b: Pc)
    requires p < |s.pc|
    ensures At(At(s, p, a), p, b) == At(s, p, b)
  {
  }

  lemma RunCall(ids: Ids, s: State, p: nat, es: seq<Event>)
    requires HasProcessor(s, p) && s.pc[p] == Idle && forall e | e in es :: e.p < |s.pc|
    ensures forall f | f in [Event(p, Acquire)] + es :: f.p < |s.pc|
    ensures Run(ids, s, [Event(p, Acquire)] + es) == Run(ids, At(s, p, TryLock), es)
  {
    RunCons(ids, s, Event(p, Acquire), es);
  }

  lemma RunLock(ids: Ids, s: State, p: nat, es: seq<Event>)
    requires HasProcessor(s, p) && !s.lock && forall e | e in es :: e.p < |s.pc|
    ensures forall f | f in [Event(p, Nothing)] + es :: f.p < |s.pc|
    ensures Run(ids, At(s, p, TryLock), [Event(p, Nothing)] + es) == Run(ids, At(s.(lock := true), p, TestDepth), es)
  {
    RunCons(ids, At(s, p, TryLock), Event(p, Nothing), es);
    AtTwice(s.(lock := true), p, TryLock, TestDepth);
  }

  /** Whose mutex it is: from the test of the depth to the change of the depth, two accesses. */
  function Change(s: State): Pc { if s.depth == 0 then SetDepth else Nest }

  lemma RunTest(ids: Ids, s: State, p: nat, es: seq<Event>)
    requires HasProcessor(s, p) && forall e | e in es :: e.p < |s.pc|
    ensures forall f | f in [Event(p, Nothing)] + es :: f.p < |s.pc|
    ensures Run(ids, At(s, p, TestDepth), [Event(p, Nothing)] + es)
         == Run(ids, At(s, p, if s.depth == 0 then SetOwner else TestOwner), es)
  {
    RunCons(ids, At(s, p, TestDepth), Event(p, Nothing), es);
    AtTwice(s, p, TestDepth, if s.depth == 0 then SetOwner else TestOwner);
  }

  lemma RunOwner(ids: Ids, s: State, p: nat, es: seq<Event>)
    requires HasProcessor(s, p) && (s.depth == 0 || s.owner == ids(p)) && forall e | e in es :: e.p < |s.pc|
    ensures forall f | f in [Event(p, Nothing)] + es :: f.p < |s.pc|
    ensures Run(ids, At(s, p, if s.depth == 0 then SetOwner else TestOwner), [Event(p, Nothing)] + es)
         == Run(ids, At(s.(owner := ids(p)), p, Change(s)), es)
  {
    var pc := if s.depth == 0 then SetOwner else TestOwner;
    RunCons(ids, At(s, p, pc), Event(p, Nothing), es);
    AtTwice(s.(owner := ids(p)), p, pc, Change(s));
  }

  lemma RunChange(ids: Ids, s: State, p: nat, es: seq<Event>)
    requires HasProcessor(s, p) && s.owner == ids(p) && forall e | e in es :: e.p < |s.pc|
    ensures forall f | f in [Event(p, Nothing)] + es :: f.p < |s.pc|
    ensures Run(ids, At(s, p, Change(s)), [Event(p, Nothing)] + es)
         == Run(ids, At(Acquired(ids, s, p), p, Leave(true)), es)
  {
    RunCons(ids, At(s, p, Change(s)), Event(p, Nothing), es);
    AtTwice(Acquired(ids, s, p), p, Change(s), Leave(true));
  }

  lemma RunLeave(ids: Ids, s: State, p: nat)
    requires HasProcessor(s, p) && s.lock
    ensures Run(ids, At(s, p, Leave(true)), [Event(p, Nothing)] + []) == At(s.(lock := false), p, Idle)
  {
    RunCons(ids, At(s, p, Leave(true)), Event(p, Nothing), []);
    AtTwice(s.(lock := false), p, Leave(true), Idle);
  }

  function FourNothings(p: nat): seq<Event> {
    var step := Event(p, Nothing);
    [step] + ([step] + ([step] + ([step] + [])))
  }

  lemma RunFour(ids: Ids, s: State, p: nat)
    requires HasProcessor(s, p) && s.lock && (s.depth == 0 || s.owner == ids(p))
    ensures Run(ids, At(s, p, TestDepth), FourNothings(p)) == At(Acquired(ids, s, p).(lock := false), p, Idle)
  {
    var step := Event(p, Nothing);
    RunTest(ids, s, p, [step] + ([step] + ([step] + [])));
    RunOwner(ids, s, p, [step] + ([step] + []));
    RunChange(ids, s.(owner := ids(p)), p, [step] + []);
    RunLeave(ids, Acquired(ids, s, p), p);
  }

  lemma BackToIdle(ids: Ids, s: State, p: nat)
    requires HasProcessor(s, p) && s.pc[p] == Idle && !s.lock
    ensures At(Acquired(ids, s.(lock := true), p).(lock := false), p, Idle) == Acquired(ids, s, p)
  {
    assert s.pc[p := Idle] == s.pc;
  }

  lemma RunSix(ids: Ids, s: State, p: nat)
    requires HasProcessor(s, p) && s.pc[p] == Idle && !s.lock && (s.depth == 0 || s.owner == ids(p))
    ensures forall e | e in AcquireEvents(p) :: e.p < |s.pc|
    ensures Run(ids, s, AcquireEvents(p)) == At(Acquired(ids, s.(lock := true), p).(lock := false), p, Idle)
  {
    RunCall(ids, s, p, [Event(p, Nothing)] + FourNothings(p));
    RunLock(ids, s, p, FourNothings(p));
    RunFour(ids, s.(lock := true), p);
  }

  /** When the mutex is free, or `p`'s own, `p` acquires it without waiting: again, the depth grows by one. */
  lemma Acquires(ids: Ids, s: State, p: nat)
    requires HasProcessor(s, p) && s.pc[p] == Idle && !s.lock && s.depth >= 0
    requires s.depth == 0 || s.owner == ids(p)
    ensures forall e | e in AcquireEvents(p) :: e.p < |s.pc|
    ensures Run(ids, s, AcquireEvents(p)) == Acquired(ids, s, p)
  {
    RunSix(ids, s, p);
    BackToIdle(ids, s, p);
  }

  // ----- Release, and a try that fails, without interruption -----

  function Nothings(p: nat, k: nat): (es: seq<Event>)
    ensures forall e | e in es :: e.p == p
  {
    if k == 0 then [] else [Event(p, Nothing)] + Nothings(p, k - 1)
  }

  /** `Release` of processor `p`: the call, then its accesses; two more give the mutex up for good. */
  function ReleaseEvents(p: nat, last: bool): (es: seq<Event>)
    ensures forall e | e in es :: e.p == p
  {
    [Event(p, Release)] + Nothings(p, if last then 5 else 3)
  }

  function Released(s: State, p: nat): State
    requires p < |s.holds| && s.holds[p] > 0
  {
    s.(depth := s.depth - 1, owner := if s.depth == 1 then NOBODY else s.owner,
       holds := s.holds[p := s.holds[p] - 1], released := s.released + 1)
  }

  lemma RunNothing(ids: Ids, s: State, p: nat, k: nat)
    requires HasProcessor(s, p) && k > 0
    ensures HasProcessor(Step(ids, s, Event(p, Nothing)), p)
    ensures Run(ids, s, Nothings(p, k)) == Run(ids, Step(ids, s, Event(p, Nothing)), Nothings(p, k - 1))
  {
    RunCons(ids, s, Event(p, Nothing), Nothings(p, k - 1));
  }

  function Dropped(s: State, p: nat): State
    requires p < |s.holds| && s.holds[p] > 0
  {
    s.(depth := s.depth - 1, holds := s.holds[p := s.holds[p] - 1], released := s.released + 1)
  }

  lemma RunOut(ids: Ids, s: State, p: nat)
    requires HasProcessor(s, p)
    ensures Run(ids, At(s, p, LeaveRelease), Nothings(p, 1)) == At(s.(lock := false), p, Idle)
  {
    RunNothing(ids, At(s, p, LeaveRelease), p, 1);
    AtTwice(s.(lock := false), p, LeaveRelease, Idle);
  }

  lemma RunClear(ids: Ids, s: State, p: nat)
    requires HasProcessor(s, p) && s.depth == 0
    ensures Run(ids, At(s, p, ClearDepth), Nothings(p, 3)) == At(s.(owner := NOBODY, lock := false), p, Idle)
  {
    RunNothing(ids, At(s, p, ClearDepth), p, 3);
    AtTwice(s, p, ClearDepth, ClearOwner);
    RunNothing(ids, At(s, p, ClearOwner), p, 2);
    AtTwice(s.(owner := NOBODY), p, ClearOwner, LeaveRelease);
    RunOut(ids, s.(owner := NOBODY), p);
  }

  lemma StepDrop(ids: Ids, s: State, p: nat)
    requires HasProcessor(s, p) && s.depth > 0 && s.holds[p] > 0
    ensures Step(ids, At(s, p, Drop), Event(p, Nothing))
         == At(Dropped(s, p), p, if s.depth == 1 then ClearDepth else LeaveRelease)
  {
    AtTwice(Dropped(s, p), p, Drop, if s.depth == 1 then ClearDepth else LeaveRelease);
  }

  /** From the change of the depth on. */
  lemma RunDrop(ids: Ids, s: State, p: nat)
    requires HasProcessor(s, p) && s.depth > 0 && s.holds[p] > 0
    ensures Run(ids, At(s, p, Drop), Nothings(p, if s.depth == 1 then 4 else 2))
         == At(Released(s, p).(lock := false), p, Idle)
  {
    RunNothing(ids, At(s, p, Drop), p, if s.depth == 1 then 4 else 2);
    StepDrop(ids, s, p);
    if s.depth == 1 {
      RunClear(ids, Dropped(s, p), p);
    } else {
      RunOut(ids, Dropped(s, p), p);
    }
  }

  lemma RunToDrop(ids: Ids, s: State, p: nat, k: nat)
    requires HasProcessor(s, p) && s.pc[p] == Idle && !s.lock && k > 0
    ensures forall e | e in [Event(p, Release)] + Nothings(p, k) :: e.p < |s.pc|
    ensures Run(ids, s, [Event(p, Release)] + Nothings(p, k))
         == Run(ids, At(s.(lock := true), p, Drop), Nothings(p, k - 1))
  {
    RunCons(ids, s, Event(p, Release), Nothings(p, k));
    RunNothing(ids, At(s, p, LockToRelease), p, k);
    AtTwice(s.(lock := true), p, LockToRelease, Drop);
  }

  lemma ReleasedIdle(s: State, p: nat)
    requires HasProcessor(s, p) && s.pc[p] == Idle && !s.lock && s.holds[p] > 0
    ensures At(Released(s.(lock := true), p).(lock := false), p, Idle) == Released(s, p)
  {
    assert s.pc[p := Idle] == s.pc;
  }

  /**
   A holder releases without waiting: the lock is clear again, depth and holds are one less, and
   nobody owns the mutex exactly when the depth was 1.
   */
  lemma Releases(ids: Ids, s: State, p: nat)
    requires HasProcessor(s, p) && s.pc[p] == Idle && !s.lock && s.depth > 0 && s.holds[p] > 0
    ensures Run(ids, s, ReleaseEvents(p, s.depth == 1)) == Released(s, p)
  {
    RunToDrop(ids, s, p, if s.depth == 1 then 5 else 3);
    RunDrop(ids, s.(lock := true), p);
    ReleasedIdle(s, p);
  }

  /** While another owns the mutex a try changes nothing, and the processor goes on trying. */
  lemma Waits(ids: Ids, s: State, p: nat)
    requires HasProcessor(s, p) && s.pc[p] == TryLock && !s.lock && s.depth > 0 && s.owner != ids(p)
    ensures Run(ids, s, Nothings(p, 4)) == s
  {
    var l := s.(lock := true);
    RunNothing(ids, s, p, 4);
    RunNothing(ids, At(l, p, TestDepth), p, 3);
    AtTwice(l, p, TestDepth, TestOwner);
    RunNothing(ids, At(l, p, TestOwner), p, 2);
    AtTwice(l, p, TestOwner, Leave(false));
    RunNothing(ids, At(l, p, Leave(false)), p, 1);
    AtTwice(s, p, Leave(false), TryLock);
    assert s.pc[p := TryLock] == s.pc;
  }

  lemma {:induction false} NoReleaseFair(ids: Ids, s: State, es: seq<Event>)
    requires |s.pc| == |s.holds| && forall e | e in es :: e.p < |s.pc| && !e.call.Release?
    ensures FairRun(ids, s, es)
    decreases es
  {
    if es != [] {
      NoReleaseFair(ids, Step(ids, s, es[0]), es[1..]);
    }
  }

  lemma {:induction false} RunConcat(ids: Ids, s: State, a: seq<Event>, b: seq<Event>)
    requires |s.pc| == |s.holds| && forall e | e in a + b :: e.p < |s.pc|
    ensures (forall e | e in a :: e.p < |s.pc|) && (forall e | e in b :: e.p < |s.pc|)
    ensures |Run(ids, s, a).pc| == |Run(ids, s, a).holds| == |s.pc|
    ensures Run(ids, s, a + b) == Run(ids, Run(ids, s, a), b)
    decreases a
  {
    assert forall e | e in a :: e in a + b;
    assert forall e | e in b :: e in a + b;
    if a == [] {
      assert a + b == b;
    } else {
      assert (a + b)[1..] == a[1..] + b && (a + b)[0] == a[0];
      RunConcat(ids, Step(ids, s, a[0]), a[1..], b);
    }
  }

  ghost predicate Excludes(ids: Ids, n: nat) {
    forall es: seq<Event> | (forall e | e in es :: e.p < n) && FairRun(ids, Init(n), es) ::
      OneHolder(Run(ids, Init(n), es))
  }

  /** Two processors with one number both acquire the mutex, one after the other. */
  lemma SameIdShares(ids: Ids, n: nat, p: nat, q: nat)
    requires p < q < n && ids(p) == ids(q)
    ensures !Excludes(ids, n)
  {
    var s := Init(n);
    var es := AcquireEvents(p) + AcquireEvents(q);
    Acquires(ids, s, p);
    Acquires(ids, Acquired(ids, s, p), q);
    assert forall e | e in es :: e.p < n && !e.call.Release?;
    RunConcat(ids, s, AcquireEvents(p), AcquireEvents(q));
    NoReleaseFair(ids, s, es);
    var t := Run(ids, s, es);
    assert t.holds[p] == 1 && t.holds[q] == 1;
    assert !OneHolder(t);
  }

  /**
   When releases are by holders, at most one processor holds the mutex over every run exactly
   when the processors have distinct numbers; the source's constant 0 serves one processor.
   */
  lemma ExcludesIff(ids: Ids, n: nat)
    requires Proper(ids, n)
    ensures Excludes(ids, n) <==> Injective(ids, n)
  {
    if Injective(ids, n) {
      forall es: seq<Event> | (forall e | e in es :: e.p < n) && FairRun(ids, Init(n), es)
        ensures OneHolder(Run(ids, Init(n), es))
      {
        InitOk(ids, n);
        RunHolders(ids, Init(n), es);
      }
    } else {
      var p: nat, q: nat :| p < q < n && ids(p) == ids(q);
      SameIdShares(ids, n, p, q);
    }
  }

  /** The number in the source. */
  function Stub(): Ids { _ => 0 }

  lemma StubIff(n: nat)
    ensures Excludes(Stub(), n) <==> n <= 1
  {
    ExcludesIff(Stub(), n);
    if n >= 2 {
      assert Stub()(0) == Stub()(1);
    }
  }
}
