/**
  The reusable barrier of memtest86+ (smp.c), for any number of processors.

  Shared memory is one spin lock, one counter and two gate flags; `maxproc` is the number of
  participants.  Every load, store and locked instruction on shared memory is a transition of its
  own, and the two gates are polled outside the lock, exactly as in barrier().
 */
module Barrier {
  import L = SpinLock
  import P = Powers

  // Where a processor is inside barrier().  The comment gives the instruction it executes next.
  datatype PC =
    | Out        // not in barrier(): its next step calls it
    | Gate1      // spin_wait(&st1)
    | Acq1       // spin_lock(&lck)
    | Load1      // load count
    | Store1     // store count - 1, test for zero
    // last arrival
    | CloseSt1   // st1 = 0
    | OpenSt2    // st2 = 1
    | Load2      // load count
    | Store2     // store count + 1
    | UnlockLast // spin_unlock, return
    // everybody else
    | Unlock1    // spin_unlock
    | Gate2      // spin_wait(&st2)
    | Acq2       // spin_lock(&lck)
    | Load3      // load count
    | Store3     // store count + 1, test for maxproc
    | OpenSt1    // st1 = 1
    | CloseSt2   // st2 = 0
    | Unlock2    // spin_unlock, return

  // `reg` is each processor's register copy of count; `left` is history: how many barriers the
  // processor has completed.
  datatype State = State(lck: L.State, count: int, st1: int, st2: int,
                         pc: seq<PC>, reg: seq<int>, left: seq<nat>)
  {
    predicate WF(n: nat) {
      |lck.ph| == n && |pc| == n && |reg| == n && |left| == n
    }

    // How many times processor p has called barrier().
    function Entered(p: nat): nat
      requires p < |pc| && |pc| == |left|
    {
      if pc[p] == Out then left[p] else left[p] + 1
    }
  }

  // barrier_init(max)
  function Init(n: nat): (s: State) {
    State(L.Init(n), n, 1, 0, seq(n, _ => Out), seq(n, _ => 0), seq(n, _ => 0))
  }

  // What one instruction of barrier() can read and write: the processor's own program counter,
  // register and history, and the shared counter and gates.
  datatype View = View(pc: PC, reg: int, left: nat, count: int, st1: int, st2: int)

  // Whether the next instruction belongs to the spin lock.  Passing a gate begins spin_lock.
  predicate LockInstruction(v: View) {
    match v.pc
    case Gate1 => v.st1 != 0
    case Gate2 => v.st2 != 0
    case Acq1 | Acq2 | Unlock1 | UnlockLast | Unlock2 => true
    case _ => false
  }

  // The instruction itself; `owns` says whether the processor owns the lock afterwards.
  function Exec(v: View, owns: bool, maxproc: nat): View {
    match v.pc
    case Out => v.(pc := Gate1)
    case Gate1 => if v.st1 == 0 then v else v.(pc := Acq1)
    case Acq1 => if owns then v.(pc := Load1) else v
    case Load1 => v.(reg := v.count, pc := Store1)
    case Store1 => v.(count := v.reg - 1, pc := if v.reg - 1 == 0 then CloseSt1 else Unlock1)
    case CloseSt1 => v.(st1 := 0, pc := OpenSt2)
    case OpenSt2 => v.(st2 := 1, pc := Load2)
    case Load2 => v.(reg := v.count, pc := Store2)
    case Store2 => v.(count := v.reg + 1, pc := UnlockLast)
    case UnlockLast => v.(left := v.left + 1, pc := Out)
    case Unlock1 => v.(pc := Gate2)
    case Gate2 => if v.st2 == 0 then v else v.(pc := Acq2)
    case Acq2 => if owns then v.(pc := Load3) else v
    case Load3 => v.(reg := v.count, pc := Store3)
    case Store3 => v.(count := v.reg + 1, pc := if v.reg + 1 == maxproc then OpenSt1 else Unlock2)
    case OpenSt1 => v.(st1 := 1, pc := CloseSt2)
    case CloseSt2 => v.(st2 := 0, pc := Unlock2)
    case Unlock2 => v.(left := v.left + 1, pc := Out)
  }

  function ViewOf(s: State, p: nat): View
    requires s.WF(|s.pc|) && p < |s.pc|
  {
    View(s.pc[p], s.reg[p], s.left[p], s.count, s.st1, s.st2)
  }

  /** Processor p executes its next instruction. */
  function Step(s: State, p: nat): (r: State)
    requires s.WF(|s.pc|) && p < |s.pc|
    ensures r.WF(|s.pc|)
  {
    var v := ViewOf(s, p);
    var lck := if LockInstruction(v) then L.Step(s.lck, p) else s.lck;
    var w := Exec(v, lck.ph[p].Holding?, |s.pc|);
    State(lck, w.count, w.st1, w.st2, s.pc[p := w.pc], s.reg[p := w.reg], s.left[p := w.left])
  }

  ghost function Run(s: State, sched: seq<nat>): (r: State)
    requires s.WF(|s.pc|) && L.Schedule(|s.pc|, sched)
    ensures r.WF(|s.pc|)
    decreases |sched|
  {
    if sched == [] then s
    else Step(Run(s, sched[..|sched| - 1]), sched[|sched| - 1])
  }

  // ------------------------------------------------------------------ the invariant

  predicate HoldsLock(c: PC) {
    !(c.Out? || c.Gate1? || c.Gate2? || c.Acq1? || c.Acq2?)
  }

  // The processor has taken one off the counter and not yet put it back.
  predicate Counted(c: PC) {
    || c.CloseSt1? || c.OpenSt2? || c.Load2? || c.Store2?
    || c.Unlock1? || c.Gate2? || c.Acq2? || c.Load3? || c.Store3?
  }

  ghost function CountedSet(s: State): set<nat> {
    set p | 0 <= p < |s.pc| && Counted(s.pc[p])
  }

  // What the program counter says about the processor's phase in the lock.
  ghost predicate PhaseMatches(c: PC, ph: L.Phase) {
    && (HoldsLock(c) <==> ph.Holding?)
    && (c.Acq1? || c.Acq2? <==> ph.Trying? || ph.Spinning?)
  }

  ghost predicate LockMatches(s: State)
    requires s.WF(|s.pc|)
  {
    && L.Inv(s.lck)
    && forall p :: 0 <= p < |s.pc| ==> PhaseMatches(s.pc[p], s.lck.ph[p])
  }

  // Between its load and its store of count, a processor's register holds the current count.
  ghost predicate Fresh(c: PC, reg: int, count: int) {
    c.Store1? || c.Store2? || c.Store3? ==> reg == count
  }

  ghost predicate CounterMatches(s: State)
    requires s.WF(|s.pc|)
  {
    && s.count == |s.pc| - |CountedSet(s)|
    && forall p :: 0 <= p < |s.pc| ==> Fresh(s.pc[p], s.reg[p], s.count)
  }

  ghost predicate SomeoneAt(s: State, c: PC) {
    exists l :: 0 <= l < |s.pc| && s.pc[l] == c
  }

  // Episode e is filling: gate 1 open, gate 2 shut.
  ghost predicate FillingAt(c: PC, left: nat, e: nat) {
    || (left == e && (c.Out? || c.Gate1? || c.Acq1? || c.Load1? || c.Store1? || c.Unlock1? || c.Gate2? || c.CloseSt1?))
    || (left + 1 == e && c.Unlock2?)
  }

  ghost predicate Filling(s: State, e: nat)
    requires s.WF(|s.pc|)
  {
    && s.st1 == 1 && s.st2 == 0
    && (forall p :: 0 <= p < |s.pc| ==> FillingAt(s.pc[p], s.left[p], e))
    && (s.count == 0 <==> SomeoneAt(s, CloseSt1))
  }

  // The last arrival of episode e has shut gate 1 and not yet opened gate 2.
  ghost predicate ClosingAt(c: PC, left: nat, e: nat) {
    left == e && (c.OpenSt2? || c.Gate2?)
  }

  ghost predicate Closing(s: State, e: nat)
    requires s.WF(|s.pc|)
  {
    && s.st1 == 0 && s.st2 == 0 && s.count == 0
    && SomeoneAt(s, OpenSt2)
    && (forall p :: 0 <= p < |s.pc| ==> ClosingAt(s.pc[p], s.left[p], e))
  }

  // Episode e is draining: gate 1 shut, gate 2 open.
  ghost predicate DrainingAt(c: PC, left: nat, e: nat, count: int) {
    || (left == e && (c.UnlockLast? || c.Gate2? || c.Acq2? || c.Load3? || c.Store3? || c.Unlock2? || c.OpenSt1?))
    || (left == e && (c.Load2? || c.Store2?) && count == 0)
    || (left == e + 1 && (c.Out? || c.Gate1?))
  }

  ghost predicate Draining(s: State, e: nat)
    requires s.WF(|s.pc|)
  {
    && s.st1 == 0 && s.st2 == 1
    && (forall p :: 0 <= p < |s.pc| ==> DrainingAt(s.pc[p], s.left[p], e, s.count))
    && (s.count == |s.pc| <==> SomeoneAt(s, OpenSt1))
  }

  // The last to leave episode e has opened gate 1 and not yet shut gate 2.
  ghost predicate ReopeningAt(c: PC, left: nat, e: nat) {
    (left == e && c.CloseSt2?) || (left == e + 1 && (c.Out? || c.Gate1? || c.Acq1?))
  }

  ghost predicate Reopening(s: State, e: nat)
    requires s.WF(|s.pc|)
  {
    && s.st1 == 1 && s.st2 == 1 && s.count == |s.pc|
    && SomeoneAt(s, CloseSt2)
    && (forall p :: 0 <= p < |s.pc| ==> ReopeningAt(s.pc[p], s.left[p], e))
  }

  ghost predicate InEpisode(s: State, e: nat)
    requires s.WF(|s.pc|)
  {
    Filling(s, e) || Closing(s, e) || Draining(s, e) || Reopening(s, e)
  }

  ghost predicate Inv(s: State, e: nat) {
    s.WF(|s.pc|) && 2 <= |s.pc| && LockMatches(s) && CounterMatches(s) && InEpisode(s, e)
  }

  // ------------------------------------------------------------------ counting

  lemma CountedBound(s: State)
    ensures |CountedSet(s)| <= |s.pc|
    ensures |CountedSet(s)| == |s.pc| <==> forall p :: 0 <= p < |s.pc| ==> Counted(s.pc[p])
    ensures |CountedSet(s)| == 0 ==> forall p :: 0 <= p < |s.pc| ==> !Counted(s.pc[p])
  {
    FullBelow(CountedSet(s), |s.pc|);
    forall p | 0 <= p < |s.pc|
      ensures |CountedSet(s)| == |s.pc| ==> Counted(s.pc[p])
      ensures |CountedSet(s)| == 0 ==> !Counted(s.pc[p])
    {
      assert p in CountedSet(s) <==> Counted(s.pc[p]);
    }
  }

  lemma FullBelow(t: set<nat>, n: nat)
    requires forall p :: p in t ==> p < n
    ensures |t| <= n
    ensures |t| == n <==> forall p :: 0 <= p < n ==> p in t
    decreases n
  {
    if n != 0 {
      FullBelow(t - {n - 1}, n - 1);
      assert n - 1 in t ==> t == (t - {n - 1}) + {n - 1};
    }
  }

  // Only the program counter of p matters to the difference a step of p makes.
  lemma CountedChange(s: State, r: State, p: nat)
    requires |s.pc| == |r.pc| && p < |s.pc|
    requires forall q :: 0 <= q < |s.pc| && q != p ==> r.pc[q] == s.pc[q]
    ensures |CountedSet(r)| == |CountedSet(s)|
              + (if Counted(r.pc[p]) then 1 else 0) - (if Counted(s.pc[p]) then 1 else 0)
  {
    var base := CountedSet(s) - {p};
    assert CountedSet(s) == if Counted(s.pc[p]) then base + {p} else base;
    assert CountedSet(r) == if Counted(r.pc[p]) then base + {p} else base;
  }

  lemma OnlyHolder(s: State, p: nat)
    requires s.WF(|s.pc|) && LockMatches(s) && p < |s.pc| && HoldsLock(s.pc[p])
    ensures forall q :: 0 <= q < |s.pc| && q != p ==> !HoldsLock(s.pc[q])
  {
    forall q | 0 <= q < |s.pc| && q != p ensures !HoldsLock(s.pc[q]) {
      assert PhaseMatches(s.pc[q], s.lck.ph[q]) && PhaseMatches(s.pc[p], s.lck.ph[p]);
    }
  }

  // ------------------------------------------------------------------ preservation

  // r is s with processor p's view replaced by w.
  ghost predicate Updated(s: State, r: State, p: nat, w: View)
    requires s.WF(|s.pc|) && r.WF(|s.pc|) && p < |s.pc|
  {
    && r.pc == s.pc[p := w.pc] && r.reg == s.reg[p := w.reg] && r.left == s.left[p := w.left]
    && r.count == w.count && r.st1 == w.st1 && r.st2 == w.st2
  }

  // A step of p leaves the other processors' private state alone, and stores to count put down
  // what the program counter says.
  lemma StepLocal(s: State, p: nat) returns (w: View)
    requires s.WF(|s.pc|) && p < |s.pc|
    ensures Updated(s, Step(s, p), p, w)
    ensures exists owns :: w == Exec(ViewOf(s, p), owns, |s.pc|)
  {
    var v := ViewOf(s, p);
    var lck := if LockInstruction(v) then L.Step(s.lck, p) else s.lck;
    w := Exec(v, lck.ph[p].Holding?, |s.pc|);
  }

  lemma ExecCounter(v: View, owns: bool, n: nat)
    requires Fresh(v.pc, v.reg, v.count)
    ensures var w := Exec(v, owns, n);
      && w.count == v.count + (if Counted(v.pc) then 1 else 0) - (if Counted(w.pc) then 1 else 0)
      && Fresh(w.pc, w.reg, w.count)
      && (HoldsLock(v.pc) || w.count == v.count)
  {
  }

  // How an instruction can move a processor's phase in the lock.
  ghost predicate PhaseMove(v: View, ph: L.Phase, ph': L.Phase) {
    if !LockInstruction(v) then ph' == ph
    else match ph
      case Idle => ph'.Trying?
      case Trying => ph'.Holding? || ph'.Spinning?
      case Spinning => ph'.Spinning? || ph'.Trying?
      case Holding => ph'.Idle?
  }

  lemma ExecPhase(v: View, ph: L.Phase, ph': L.Phase, n: nat)
    requires PhaseMatches(v.pc, ph) && PhaseMove(v, ph, ph')
    ensures PhaseMatches(Exec(v, ph'.Holding?, n).pc, ph')
  {
  }

  lemma StepLock(s: State, p: nat)
    requires s.WF(|s.pc|) && LockMatches(s) && p < |s.pc|
    ensures LockMatches(Step(s, p))
  {
    var v := ViewOf(s, p);
    var lck := if LockInstruction(v) then L.Step(s.lck, p) else s.lck;
    L.InvStep(s.lck, p);
    assert PhaseMatches(s.pc[p], s.lck.ph[p]);
    ExecPhase(v, s.lck.ph[p], lck.ph[p], |s.pc|);
    UpdatedLock(s, lck, p, Exec(v, lck.ph[p].Holding?, |s.pc|).pc);
    assert Step(s, p).lck == lck;
  }

  lemma UpdatedLock(s: State, lck: L.State, p: nat, c: PC)
    requires s.WF(|s.pc|) && LockMatches(s) && p < |s.pc|
    requires L.Inv(lck) && |lck.ph| == |s.pc| && PhaseMatches(c, lck.ph[p])
    requires forall q :: 0 <= q < |s.pc| && q != p ==> lck.ph[q] == s.lck.ph[q]
    ensures forall q :: 0 <= q < |s.pc| ==> PhaseMatches(s.pc[p := c][q], lck.ph[q])
  {
    forall q | 0 <= q < |s.pc| ensures PhaseMatches(s.pc[p := c][q], lck.ph[q]) {
      assert PhaseMatches(s.pc[q], s.lck.ph[q]);
    }
  }

  lemma StepCounter(s: State, p: nat)
    requires s.WF(|s.pc|) && LockMatches(s) && CounterMatches(s) && p < |s.pc|
    ensures CounterMatches(Step(s, p))
  {
    var w := StepLocal(s, p);
    assert Fresh(s.pc[p], s.reg[p], s.count);
    var owns :| w == Exec(ViewOf(s, p), owns, |s.pc|);
    ExecCounter(ViewOf(s, p), owns, |s.pc|);
    UpdatedCounter(s, Step(s, p), p, w);
  }

  lemma UpdatedCounter(s: State, r: State, p: nat, w: View)
    requires s.WF(|s.pc|) && r.WF(|s.pc|) && p < |s.pc|
    requires LockMatches(s) && CounterMatches(s) && Updated(s, r, p, w)
    requires w.count == s.count + (if Counted(s.pc[p]) then 1 else 0) - (if Counted(w.pc) then 1 else 0)
    requires Fresh(w.pc, w.reg, w.count)
    requires HoldsLock(s.pc[p]) || w.count == s.count
    ensures CounterMatches(r)
  {
    CountedChange(s, r, p);
    if HoldsLock(s.pc[p]) {
      OnlyHolder(s, p);
    }
    forall q | 0 <= q < |r.pc| ensures Fresh(r.pc[q], r.reg[q], r.count) {
      assert Fresh(s.pc[q], s.reg[q], s.count);
    }
  }

  lemma ExecFilling(v: View, owns: bool, n: nat, e: nat)
    requires FillingAt(v.pc, v.left, e) && v.st1 == 1 && v.st2 == 0 && Fresh(v.pc, v.reg, v.count)
    ensures var w := Exec(v, owns, n);
      if v.pc == CloseSt1
      then w == v.(st1 := 0, pc := OpenSt2)
      else
        && FillingAt(w.pc, w.left, e) && w.st1 == 1 && w.st2 == 0
        && (w.pc == CloseSt1 ==> w.count == 0)
        && (HoldsLock(v.pc) || w.count == v.count)
        && (w.count == v.count || (w.count == 0 <==> w.pc == CloseSt1))
  {
  }

  lemma StepFilling(s: State, p: nat, e: nat)
    requires Inv(s, e) && Filling(s, e) && p < |s.pc|
    ensures InEpisode(Step(s, p), e)
  {
    assert FillingAt(s.pc[p], s.left[p], e) && Fresh(s.pc[p], s.reg[p], s.count);
    var w := StepLocal(s, p);
    var owns :| w == Exec(ViewOf(s, p), owns, |s.pc|);
    ExecFilling(ViewOf(s, p), owns, |s.pc|, e);
    UpdatedFilling(s, Step(s, p), p, w, e);
  }

  // The last arrival shuts gate 1 when everybody has counted himself in.
  lemma FilledUp(s: State, r: State, p: nat, e: nat)
    requires Inv(s, e) && Filling(s, e) && p < |s.pc| && s.pc[p] == CloseSt1 && r.WF(|s.pc|)
    requires Updated(s, r, p, ViewOf(s, p).(st1 := 0, pc := OpenSt2))
    ensures InEpisode(r, e)
  {
    OnlyHolder(s, p);
    assert SomeoneAt(s, CloseSt1);
    CountedBound(s);
    forall q | 0 <= q < |r.pc| ensures ClosingAt(r.pc[q], r.left[q], e) {
      assert FillingAt(s.pc[q], s.left[q], e) && Counted(s.pc[q]);
    }
    assert r.pc[p] == OpenSt2;
  }

  lemma UpdatedFilling(s: State, r: State, p: nat, w: View, e: nat)
    requires Inv(s, e) && Filling(s, e) && p < |s.pc| && r.WF(|s.pc|) && Updated(s, r, p, w)
    requires if s.pc[p] == CloseSt1
      then w == ViewOf(s, p).(st1 := 0, pc := OpenSt2)
      else
        && FillingAt(w.pc, w.left, e) && w.st1 == 1 && w.st2 == 0
        && (w.pc == CloseSt1 ==> w.count == 0)
        && (HoldsLock(s.pc[p]) || w.count == s.count)
        && (w.count == s.count || (w.count == 0 <==> w.pc == CloseSt1))
    ensures InEpisode(r, e)
  {
    if s.pc[p] == CloseSt1 {
      FilledUp(s, r, p, e);
    } else {
      if HoldsLock(s.pc[p]) {
        OnlyHolder(s, p);
      }
      forall q | 0 <= q < |r.pc| ensures FillingAt(r.pc[q], r.left[q], e) {
        assert FillingAt(s.pc[q], s.left[q], e);
      }
      if SomeoneAt(s, CloseSt1) {
        var l :| 0 <= l < |s.pc| && s.pc[l] == CloseSt1;
        assert r.pc[l] == CloseSt1;
      } else if r.pc[p] == CloseSt1 {
        assert SomeoneAt(r, CloseSt1);
      }
      assert Filling(r, e);
    }
  }

  lemma StepClosing(s: State, p: nat, e: nat)
    requires Inv(s, e) && Closing(s, e) && p < |s.pc|
    ensures InEpisode(Step(s, p), e)
  {
    var w := StepLocal(s, p);
    assert ClosingAt(s.pc[p], s.left[p], e);
    UpdatedClosing(s, Step(s, p), p, w, e);
  }

  lemma UpdatedClosing(s: State, r: State, p: nat, w: View, e: nat)
    requires Inv(s, e) && Closing(s, e) && p < |s.pc| && r.WF(|s.pc|) && Updated(s, r, p, w)
    requires w == if s.pc[p] == OpenSt2 then ViewOf(s, p).(st2 := 1, pc := Load2) else ViewOf(s, p)
    ensures InEpisode(r, e)
  {
    if s.pc[p] == OpenSt2 {
      OnlyHolder(s, p);
      forall q | 0 <= q < |r.pc|
        ensures DrainingAt(r.pc[q], r.left[q], e, r.count) && r.pc[q] != OpenSt1
      {
        assert ClosingAt(s.pc[q], s.left[q], e);
      }
      assert Draining(r, e);
    } else {
      assert r.pc == s.pc && r.left == s.left;
      assert Closing(r, e);
    }
  }

  lemma ExecDraining(v: View, owns: bool, n: nat, e: nat)
    requires DrainingAt(v.pc, v.left, e, v.count) && v.st1 == 0 && v.st2 == 1 && Fresh(v.pc, v.reg, v.count) && n >= 2
    ensures var w := Exec(v, owns, n);
      if v.pc == OpenSt1
      then w == v.(st1 := 1, pc := CloseSt2)
      else
        && DrainingAt(w.pc, w.left, e, w.count) && w.st1 == 0 && w.st2 == 1
        && (HoldsLock(v.pc) || w.count == v.count)
        && (w.count == v.count ==> w.pc != OpenSt1)
        && (w.count == v.count || (w.count == n <==> w.pc == OpenSt1))
  {
  }

  lemma StepDraining(s: State, p: nat, e: nat)
    requires Inv(s, e) && Draining(s, e) && p < |s.pc|
    ensures InEpisode(Step(s, p), e)
  {
    assert DrainingAt(s.pc[p], s.left[p], e, s.count) && Fresh(s.pc[p], s.reg[p], s.count);
    var w := StepLocal(s, p);
    var owns :| w == Exec(ViewOf(s, p), owns, |s.pc|);
    ExecDraining(ViewOf(s, p), owns, |s.pc|, e);
    UpdatedDraining(s, Step(s, p), p, w, e);
  }

  lemma UpdatedDraining(s: State, r: State, p: nat, w: View, e: nat)
    requires Inv(s, e) && Draining(s, e) && p < |s.pc| && r.WF(|s.pc|) && Updated(s, r, p, w)
    requires if s.pc[p] == OpenSt1
      then w == ViewOf(s, p).(st1 := 1, pc := CloseSt2)
      else
        && DrainingAt(w.pc, w.left, e, w.count) && w.st1 == 0 && w.st2 == 1
        && (HoldsLock(s.pc[p]) || w.count == s.count)
        && (w.count == s.count ==> w.pc != OpenSt1)
        && (w.count == s.count || (w.count == |s.pc| <==> w.pc == OpenSt1))
    ensures InEpisode(r, e)
  {
    if HoldsLock(s.pc[p]) {
      OnlyHolder(s, p);
    }
    if s.pc[p] == OpenSt1 {
      assert SomeoneAt(s, OpenSt1);
      CountedBound(s);
      forall q | 0 <= q < |r.pc| ensures ReopeningAt(r.pc[q], r.left[q], e) {
        assert DrainingAt(s.pc[q], s.left[q], e, s.count) && !Counted(s.pc[q]);
      }
      assert r.pc[p] == CloseSt2;
      assert Reopening(r, e);
    } else {
      forall q | 0 <= q < |r.pc| ensures DrainingAt(r.pc[q], r.left[q], e, r.count) {
        assert DrainingAt(s.pc[q], s.left[q], e, s.count);
      }
      if SomeoneAt(s, OpenSt1) {
        var l :| 0 <= l < |s.pc| && s.pc[l] == OpenSt1;
        assert r.pc[l] == OpenSt1;
      } else if r.pc[p] == OpenSt1 {
        assert SomeoneAt(r, OpenSt1);
      }
      assert Draining(r, e);
    }
  }

  lemma ExecReopening(v: View, owns: bool, n: nat, e: nat)
    requires ReopeningAt(v.pc, v.left, e) && v.st1 == 1 && v.st2 == 1
    ensures var w := Exec(v, owns, n);
      if v.pc == CloseSt2
      then w == v.(st2 := 0, pc := Unlock2)
      else
        && (w.pc == Load1 || ReopeningAt(w.pc, w.left, e))
        && w.st1 == 1 && w.st2 == 1 && w.count == v.count
  {
  }

  lemma StepReopening(s: State, p: nat, e: nat) returns (e': nat)
    requires Inv(s, e) && Reopening(s, e) && p < |s.pc|
    ensures e' == e || e' == e + 1
    ensures InEpisode(Step(s, p), e')
  {
    assert ReopeningAt(s.pc[p], s.left[p], e);
    var w := StepLocal(s, p);
    var owns :| w == Exec(ViewOf(s, p), owns, |s.pc|);
    ExecReopening(ViewOf(s, p), owns, |s.pc|, e);
    StepLock(s, p);
    e' := UpdatedReopening(s, Step(s, p), p, w, e);
  }

  lemma UpdatedReopening(s: State, r: State, p: nat, w: View, e: nat) returns (e': nat)
    requires Inv(s, e) && Reopening(s, e) && p < |s.pc|
    requires r.WF(|s.pc|) && Updated(s, r, p, w) && LockMatches(r)
    requires if s.pc[p] == CloseSt2
      then w == ViewOf(s, p).(st2 := 0, pc := Unlock2)
      else
        && (w.pc == Load1 || ReopeningAt(w.pc, w.left, e))
        && w.st1 == 1 && w.st2 == 1 && w.count == s.count
    ensures e' == e || e' == e + 1
    ensures InEpisode(r, e')
  {
    if s.pc[p] == CloseSt2 {
      e' := e + 1;
      OnlyHolder(s, p);
      forall q | 0 <= q < |r.pc|
        ensures FillingAt(r.pc[q], r.left[q], e + 1) && r.pc[q] != CloseSt1
      {
        assert ReopeningAt(s.pc[q], s.left[q], e);
      }
      assert Filling(r, e + 1);
    } else {
      e' := e;
      var l :| 0 <= l < |s.pc| && s.pc[l] == CloseSt2;
      assert r.pc[l] == CloseSt2;
      OnlyHolder(r, l);
      forall q | 0 <= q < |r.pc| ensures ReopeningAt(r.pc[q], r.left[q], e) {
        assert ReopeningAt(s.pc[q], s.left[q], e);
      }
      assert Reopening(r, e);
    }
  }

  lemma InvStep(s: State, p: nat, e: nat) returns (e': nat)
    requires Inv(s, e) && p < |s.pc|
    ensures e' == e || e' == e + 1
    ensures Inv(Step(s, p), e')
  {
    StepLock(s, p);
    StepCounter(s, p);
    e' := e;
    if Filling(s, e) {
      StepFilling(s, p, e);
    } else if Closing(s, e) {
      StepClosing(s, p, e);
    } else if Draining(s, e) {
      StepDraining(s, p, e);
    } else {
      e' := StepReopening(s, p, e);
    }
  }

  lemma InvInit(n: nat)
    requires 2 <= n <= L.MAX_SAFE
    ensures Inv(Init(n), 0)
  {
    var s := Init(n);
    assert CountedSet(s) == {};
    L.InvInit(n);
    assert forall p :: 0 <= p < n ==> FillingAt(s.pc[p], s.left[p], 0) && s.pc[p] == Out;
  }

  lemma InvRun(n: nat, sched: seq<nat>) returns (e: nat)
    requires 2 <= n <= L.MAX_SAFE && L.Schedule(n, sched)
    ensures Inv(Run(Init(n), sched), e)
  {
    InvInit(n);
    e := InvRunFrom(Init(n), sched, 0);
  }

  lemma {:induction false} InvRunFrom(s: State, sched: seq<nat>, e0: nat) returns (e: nat)
    requires Inv(s, e0) && L.Schedule(|s.pc|, sched)
    ensures Inv(Run(s, sched), e)
    decreases |sched|
  {
    e := e0;
    if sched != [] {
      var prev := sched[..|sched| - 1];
      var p := sched[|sched| - 1];
      e := InvRunFrom(s, prev, e0);
      var m := Run(s, prev);
      e := InvStep(m, p, e);
    }
  }

  // ------------------------------------------------------------------ safety

  /** No processor leaves its k-th barrier before all have entered their k-th, so the completed
      counts never differ by more than one. */
  lemma BarrierIsSafe(n: nat, sched: seq<nat>)
    requires 2 <= n <= L.MAX_SAFE && L.Schedule(n, sched)
    ensures var s := Run(Init(n), sched);
      forall p, q :: 0 <= p < n && 0 <= q < n ==>
        && s.left[p] <= s.Entered(q)
        && s.left[p] <= s.left[q] + 1
  {
    var e := InvRun(n, sched);
    EpisodeBounds(Run(Init(n), sched), e);
  }

  lemma EpisodeBounds(s: State, e: nat)
    requires Inv(s, e)
    ensures forall p, q :: 0 <= p < |s.pc| && 0 <= q < |s.pc| ==>
      s.left[p] <= s.Entered(q) && s.left[p] <= s.left[q] + 1
  {
    forall p, q | 0 <= p < |s.pc| && 0 <= q < |s.pc|
      ensures s.left[p] <= s.Entered(q) && s.left[p] <= s.left[q] + 1
    {
      if Filling(s, e) {
        assert FillingAt(s.pc[p], s.left[p], e) && FillingAt(s.pc[q], s.left[q], e);
      } else if Closing(s, e) {
        assert ClosingAt(s.pc[p], s.left[p], e) && ClosingAt(s.pc[q], s.left[q], e);
      } else if Draining(s, e) {
        assert DrainingAt(s.pc[p], s.left[p], e, s.count) && DrainingAt(s.pc[q], s.left[q], e, s.count);
      } else {
        assert ReopeningAt(s.pc[p], s.left[p], e) && ReopeningAt(s.pc[q], s.left[q], e);
      }
    }
  }

  /** The two gates never serve two episodes at once: who passes gate 2 of its k-th barrier does so
      after everybody entered the k-th, and who passes gate 1 of its k-th barrier does so after
      everybody who completed k - 1 is past gate 2 of the previous one. */
  lemma GatesServeOneEpisode(n: nat, sched: seq<nat>, p: nat, q: nat)
    requires 2 <= n <= L.MAX_SAFE && L.Schedule(n, sched) && p < n && q < n
    ensures var s := Run(Init(n), sched);
      && (s.pc[p] == Gate2 && s.st2 != 0 ==> s.Entered(q) >= s.Entered(p))
      && (s.pc[p] == Gate1 && s.st1 != 0 ==>
            s.left[q] >= s.left[p] || (s.left[q] + 1 == s.left[p] && (s.pc[q].CloseSt2? || s.pc[q].Unlock2?)))
  {
    var e := InvRun(n, sched);
    var s := Run(Init(n), sched);
    if Filling(s, e) {
      assert FillingAt(s.pc[p], s.left[p], e) && FillingAt(s.pc[q], s.left[q], e);
    } else if Closing(s, e) {
      assert ClosingAt(s.pc[p], s.left[p], e) && ClosingAt(s.pc[q], s.left[q], e);
    } else if Draining(s, e) {
      assert DrainingAt(s.pc[p], s.left[p], e, s.count) && DrainingAt(s.pc[q], s.left[q], e, s.count);
    } else {
      assert ReopeningAt(s.pc[p], s.left[p], e) && ReopeningAt(s.pc[q], s.left[q], e);
    }
  }

  /** Whenever nobody is inside, shared memory is back to what barrier_init stored, and everybody
      has completed the same number of barriers. */
  lemma BarrierIsReusable(n: nat, sched: seq<nat>)
    requires 2 <= n <= L.MAX_SAFE && L.Schedule(n, sched)
    requires forall p :: 0 <= p < n ==> Run(Init(n), sched).pc[p] == Out
    ensures var s := Run(Init(n), sched);
      && s.lck.slock == 1 && s.count == n && s.st1 == 1 && s.st2 == 0
      && forall p, q :: 0 <= p < n && 0 <= q < n ==> s.left[p] == s.left[q]
  {
    var e := InvRun(n, sched);
    QuietState(Run(Init(n), sched), e);
  }

  lemma QuietState(s: State, e: nat)
    requires Inv(s, e) && forall p :: 0 <= p < |s.pc| ==> s.pc[p] == Out
    ensures s.lck.slock == 1 && s.count == |s.pc| && s.st1 == 1 && s.st2 == 0
    ensures forall p :: 0 <= p < |s.pc| ==> s.left[p] == e
  {
    assert CountedSet(s) == {};
    assert forall p :: 0 <= p < |s.pc| ==> PhaseMatches(s.pc[p], s.lck.ph[p]);
    assert Filling(s, e) by {
      assert !SomeoneAt(s, OpenSt1) && !SomeoneAt(s, OpenSt2) && !SomeoneAt(s, CloseSt2);
    }
    assert forall p :: 0 <= p < |s.pc| ==> FillingAt(s.pc[p], s.left[p], e);
  }

  // ------------------------------------------------------------------ progress

  // Everybody inside waits at gate 2 for somebody who has not called yet.
  ghost predicate WaitsForLaggard(s: State, e: nat)
    requires s.WF(|s.pc|)
  {
    && (forall p :: 0 <= p < |s.pc| ==> s.left[p] == e && (s.pc[p].Out? || s.pc[p].Gate2?))
    && SomeoneAt(s, Out)
  }

  ghost predicate NobodyHolds(s: State) {
    forall h :: 0 <= h < |s.pc| ==> !HoldsLock(s.pc[h])
  }

  // Nothing keeps p where it is: its gate is open and the lock it wants is free.
  ghost predicate Ready(s: State, p: nat)
    requires p < |s.pc|
  {
    match s.pc[p]
    case Gate1 => s.st1 == 1
    case Gate2 => s.st2 == 1
    case Acq1 | Acq2 => NobodyHolds(s)
    case _ => true
  }

  // The next instruction of p moves it on in barrier(), or ends its wait for the lock byte.
  predicate Advances(s: State, p: nat)
    requires s.WF(|s.pc|) && p < |s.pc|
  {
    var r := Step(s, p);
    r.pc[p] != s.pc[p] || (s.lck.ph[p].Spinning? && r.lck.ph[p].Trying?)
  }

  lemma FreeLock(s: State)
    requires s.WF(|s.pc|) && LockMatches(s) && NobodyHolds(s)
    ensures s.lck.slock == 1
  {
    assert forall h :: 0 <= h < |s.pc| ==> PhaseMatches(s.pc[h], s.lck.ph[h]);
  }

  lemma ReadyAdvances(s: State, p: nat)
    requires s.WF(|s.pc|) && LockMatches(s) && p < |s.pc| && Ready(s, p)
    ensures Advances(s, p)
  {
    assert PhaseMatches(s.pc[p], s.lck.ph[p]);
    if s.pc[p].Acq1? || s.pc[p].Acq2? {
      FreeLock(s);
    }
  }

  lemma SomeoneReady(s: State, e: nat) returns (p: nat)
    requires Inv(s, e)
    ensures p < |s.pc| && Ready(s, p)
    ensures s.pc[p] != Out || WaitsForLaggard(s, e)
  {
    if q :| 0 <= q < |s.pc| && HoldsLock(s.pc[q]) {
      p := q;
    } else if q :| 0 <= q < |s.pc| && (s.pc[q].Acq1? || s.pc[q].Acq2?) {
      p := q;
    } else if Draining(s, e) {
      p := NoneAtLockDraining(s, e);
    } else {
      p := NoneAtLockFilling(s, e);
    }
  }

  ghost predicate NobodyAtLock(s: State) {
    forall q :: 0 <= q < |s.pc| ==> s.pc[q].Out? || s.pc[q].Gate1? || s.pc[q].Gate2?
  }

  lemma NoneAtLockDraining(s: State, e: nat) returns (p: nat)
    requires Inv(s, e) && NobodyAtLock(s) && Draining(s, e)
    ensures p < |s.pc| && Ready(s, p) && s.pc[p] != Out
  {
    assert !SomeoneAt(s, OpenSt1);
    assert CountedSet(s) != {};
    p :| p in CountedSet(s);
  }

  lemma NoneAtLockFilling(s: State, e: nat) returns (p: nat)
    requires Inv(s, e) && NobodyAtLock(s) && !Draining(s, e)
    ensures p < |s.pc| && Ready(s, p)
    ensures s.pc[p] != Out || WaitsForLaggard(s, e)
  {
    assert Filling(s, e);
    if q :| 0 <= q < |s.pc| && s.pc[q].Gate1? {
      p := q;
    } else {
      assert !SomeoneAt(s, CloseSt1);
      CountedBound(s);
      p :| 0 <= p < |s.pc| && !Counted(s.pc[p]);
      assert forall q :: 0 <= q < |s.pc| ==> FillingAt(s.pc[q], s.left[q], e);
    }
  }

  ghost predicate SomeCallerAdvances(s: State)
    requires s.WF(|s.pc|)
  {
    exists p :: 0 <= p < |s.pc| && s.pc[p] != Out && Advances(s, p)
  }

  ghost predicate SomeoneIsLate(s: State)
    requires s.WF(|s.pc|)
  {
    exists e: nat :: WaitsForLaggard(s, e)
  }

  /** In every reachable state with callers inside, some caller can execute an instruction that
      neither spins nor loses the race for the lock, unless all callers wait at gate 2 for a
      processor that has not called yet. */
  lemma BarrierNeverDeadlocks(n: nat, sched: seq<nat>)
    requires 2 <= n <= L.MAX_SAFE && L.Schedule(n, sched)
    ensures SomeCallerAdvances(Run(Init(n), sched)) || SomeoneIsLate(Run(Init(n), sched))
  {
    var e := InvRun(n, sched);
    CallerOrLate(Run(Init(n), sched), e);
  }

  lemma CallerOrLate(s: State, e: nat)
    requires Inv(s, e)
    ensures SomeCallerAdvances(s) || SomeoneIsLate(s)
  {
    var p := SomeoneReady(s, e);
    ReadyAdvances(s, p);
  }

  // ------------------------------------------------------------------ fair schedules

  // One more than the largest place below.
  const LENGTH: nat := 13

  // How far a processor has come in the barrier it is executing.  Waiting for the lock is one
  // place, whether the processor tries or spins, so losing a race does not set it back.
  function Place(c: PC): (r: nat)
    ensures r < LENGTH
  {
    match c
    case Out => 0
    case Gate1 => 1
    case Acq1 => 2
    case Load1 => 3
    case Store1 => 4
    case Unlock1 | CloseSt1 => 5
    case Gate2 | OpenSt2 => 6
    case Acq2 | Load2 => 7
    case Load3 | Store2 => 8
    case Store3 | UnlockLast => 9
    case OpenSt1 => 10
    case CloseSt2 => 11
    case Unlock2 => 12
  }

  function Progress(c: PC, left: nat): nat {
    LENGTH * left + Place(c)
  }

  function Sum(xs: seq<nat>): nat {
    if xs == [] then 0 else Sum(xs[..|xs| - 1]) + xs[|xs| - 1]
  }

  lemma SumUpdate(xs: seq<nat>, i: nat, x: nat)
    requires i < |xs|
    ensures Sum(xs[i := x]) == Sum(xs) - xs[i] + x
  {
    if i < |xs| - 1 {
      SumUpdate(xs[..|xs| - 1], i, x);
      assert xs[i := x][..|xs| - 1] == xs[..|xs| - 1][i := x];
    } else {
      assert xs[i := x][..|xs| - 1] == xs[..|xs| - 1];
    }
  }

  lemma {:induction false} SumAtMost(xs: seq<nat>, b: int)
    requires forall i :: 0 <= i < |xs| ==> xs[i] <= b
    ensures Sum(xs) <= |xs| * b
  {
    if xs != [] {
      SumAtMost(xs[..|xs| - 1], b);
      assert |xs| * b == (|xs| - 1) * b + b;
    }
  }

  lemma {:induction false} SumAtLeast(xs: seq<nat>, a: int)
    requires forall i :: 0 <= i < |xs| ==> a <= xs[i]
    ensures |xs| * a <= Sum(xs)
  {
    if xs != [] {
      SumAtLeast(xs[..|xs| - 1], a);
      assert |xs| * a == (|xs| - 1) * a + a;
    }
  }

  function Places(s: State): (xs: seq<nat>)
    requires s.WF(|s.pc|)
    ensures |xs| == |s.pc|
  {
    seq(|s.pc|, p requires 0 <= p < |s.pc| => Progress(s.pc[p], s.left[p]))
  }

  function Total(s: State): nat
    requires s.WF(|s.pc|)
  {
    Sum(Places(s))
  }

  // An instruction moves its processor on, or changes nothing but the lock.
  lemma ExecRaises(v: View, owns: bool, n: nat)
    ensures var w := Exec(v, owns, n);
      if w.pc == v.pc then w == v else Progress(w.pc, w.left) > Progress(v.pc, v.left)
  {
  }

  lemma StepRaises(s: State, p: nat)
    requires s.WF(|s.pc|) && p < |s.pc|
    ensures var r := Step(s, p);
      if r.pc[p] == s.pc[p] then r == s.(lck := r.lck) else Total(r) > Total(s)
  {
    var r := Step(s, p);
    var w := StepLocal(s, p);
    var owns :| w == Exec(ViewOf(s, p), owns, |s.pc|);
    ExecRaises(ViewOf(s, p), owns, |s.pc|);
    if r.pc[p] != s.pc[p] {
      SumUpdate(Places(s), p, Progress(w.pc, w.left));
      assert Places(r) == Places(s)[p := Progress(w.pc, w.left)];
    }
  }

  lemma {:induction false} RunRaises(s: State, sched: seq<nat>)
    requires s.WF(|s.pc|) && L.Schedule(|s.pc|, sched)
    ensures Total(Run(s, sched)) >= Total(s)
    decreases |sched|
  {
    if sched != [] {
      var prev := sched[..|sched| - 1];
      RunRaises(s, prev);
      var m := Run(s, prev);
      var p := sched[|sched| - 1];
      StepRaises(m, p);
      assert Places(m.(lck := Step(m, p).lck)) == Places(m);
    }
  }

  lemma {:induction false} RunAppend(s: State, a: seq<nat>, b: seq<nat>)
    requires s.WF(|s.pc|) && L.Schedule(|s.pc|, a) && L.Schedule(|s.pc|, b)
    ensures L.Schedule(|s.pc|, a + b)
    ensures Run(s, a + b) == Run(Run(s, a), b)
    decreases |b|
  {
    if b == [] {
      assert a + b == a;
    } else {
      var front := b[..|b| - 1];
      RunAppend(s, a, front);
      assert (a + b)[..|a + b| - 1] == a + front;
    }
  }

  // The instructions that processor p executes in a schedule.
  function Steps(sched: seq<nat>, p: nat): nat {
    multiset(sched)[p]
  }

  // The instructions a ready processor needs until it moves on: one more when it spins.
  function Needs(ph: L.Phase): nat {
    if ph.Spinning? then 2 else 1
  }

  lemma RunFirst(s: State, p: nat, rest: seq<nat>)
    requires s.WF(|s.pc|) && p < |s.pc| && L.Schedule(|s.pc|, rest)
    ensures L.Schedule(|s.pc|, [p] + rest)
    ensures Run(s, [p] + rest) == Run(Step(s, p), rest)
  {
    RunAppend(s, [p], rest);
    assert [p][..0] == [];
  }

  // Until somebody moves, who is ready stays so and needs no more; his own instruction counts.
  lemma ReadyStays(s: State, p: nat, q: nat)
    requires s.WF(|s.pc|) && LockMatches(s) && p < |s.pc| && q < |s.pc|
    requires Ready(s, q) && Step(s, p).pc[p] == s.pc[p]
    ensures var r := Step(s, p);
      && LockMatches(r) && Ready(r, q) && Total(r) == Total(s)
      && Needs(r.lck.ph[q]) <= Needs(s.lck.ph[q]) - (if p == q then 1 else 0)
  {
    var r := Step(s, p);
    StepRaises(s, p);
    StepLock(s, p);
    assert Places(r) == Places(s);
    if p == q {
      ReadyAdvances(s, q);
    } else {
      assert r.lck.ph[q] == s.lck.ph[q];
    }
  }

  /** A ready processor that gets its instructions moves on, unless somebody else moved first. */
  lemma {:induction false} ReadyMoves(s: State, q: nat, sched: seq<nat>)
    requires s.WF(|s.pc|) && LockMatches(s) && L.Schedule(|s.pc|, sched)
    requires q < |s.pc| && Ready(s, q) && Steps(sched, q) >= Needs(s.lck.ph[q])
    ensures Total(Run(s, sched)) > Total(s)
    decreases |sched|
  {
    var p, rest := sched[0], sched[1..];
    RunFirst(s, p, rest);
    assert sched == [p] + rest;
    StepRaises(s, p);
    var r := Step(s, p);
    if r.pc[p] != s.pc[p] {
      RunRaises(r, rest);
    } else {
      ReadyStays(s, p, q);
      ReadyMoves(r, q, rest);
    }
  }

  // Every processor executes at least one instruction in it.
  ghost predicate Round(n: nat, sched: seq<nat>) {
    forall p :: 0 <= p < n ==> p in sched
  }

  // The schedule contains m rounds, one after the other.
  ghost predicate HasRounds(n: nat, sched: seq<nat>, m: nat)
    decreases m
  {
    m == 0 || exists i :: 0 <= i <= |sched| && Round(n, sched[..i]) && HasRounds(n, sched[i..], m - 1)
  }

  lemma FirstRound(n: nat, sched: seq<nat>, m: nat) returns (a: seq<nat>, b: seq<nat>)
    requires L.Schedule(n, sched) && 0 < m && HasRounds(n, sched, m)
    ensures sched == a + b && L.Schedule(n, a) && L.Schedule(n, b)
    ensures Round(n, a) && HasRounds(n, b, m - 1)
  {
    var i :| 0 <= i <= |sched| && Round(n, sched[..i]) && HasRounds(n, sched[i..], m - 1);
    a, b := sched[..i], sched[i..];
  }

  // Every processor executes at least two instructions in it.
  ghost predicate Twice(n: nat, sched: seq<nat>) {
    forall p: nat :: p < n ==> Steps(sched, p) >= 2
  }

  lemma FirstTwoRounds(n: nat, sched: seq<nat>, m: nat) returns (a: seq<nat>, b: seq<nat>)
    requires L.Schedule(n, sched) && HasRounds(n, sched, m + 2)
    ensures sched == a + b && L.Schedule(n, a) && L.Schedule(n, b)
    ensures Twice(n, a) && HasRounds(n, b, m)
  {
    var first, rest := FirstRound(n, sched, m + 2);
    var second;
    second, b := FirstRound(n, rest, m + 1);
    a := first + second;
    forall p: nat | p < n ensures Steps(a, p) >= 2 {
      assert p in first && p in second;
      assert Steps(a, p) == Steps(first, p) + Steps(second, p);
    }
  }

  lemma TwoRoundsRaise(s: State, e: nat, a: seq<nat>, b: seq<nat>) returns (e': nat)
    requires Inv(s, e) && L.Schedule(|s.pc|, a) && Twice(|s.pc|, a) && L.Schedule(|s.pc|, b)
    ensures Inv(Run(s, a), e') && Total(Run(s, a)) > Total(s)
    ensures L.Schedule(|s.pc|, a + b) && Run(s, a + b) == Run(Run(s, a), b)
  {
    var q := SomeoneReady(s, e);
    ReadyMoves(s, q, a);
    e' := InvRunFrom(s, a, e);
    RunAppend(s, a, b);
  }

  lemma {:induction false} RoundsRaise(s: State, e: nat, sched: seq<nat>, m: nat)
    requires s.WF(|s.pc|) && Inv(s, e) && L.Schedule(|s.pc|, sched) && HasRounds(|s.pc|, sched, 2 * m)
    ensures Total(Run(s, sched)) >= Total(s) + m
    decreases m
  {
    if m == 0 {
      RunRaises(s, sched);
    } else {
      var mid, e', b := TwoMore(s, e, sched, m - 1);
      RoundsRaise(mid, e', b, m - 1);
    }
  }

  lemma TwoMore(s: State, e: nat, sched: seq<nat>, m: nat) returns (r: State, e': nat, b: seq<nat>)
    requires s.WF(|s.pc|) && Inv(s, e) && L.Schedule(|s.pc|, sched) && HasRounds(|s.pc|, sched, 2 * m + 2)
    ensures |r.pc| == |s.pc| && Inv(r, e') && L.Schedule(|r.pc|, b) && HasRounds(|r.pc|, b, 2 * m)
    ensures Total(r) > Total(s) && Run(s, sched) == Run(r, b)
  {
    var a;
    a, b := FirstTwoRounds(|s.pc|, sched, 2 * m);
    e' := TwoRoundsRaise(s, e, a, b);
    r := Run(s, a);
  }

  // The rounds after which everybody has completed k more barriers.
  function Enough(n: nat, k: nat): nat {
    2 * (n * (LENGTH * (k + 2)))
  }

  lemma FairFrom(s: State, e: nat, more: seq<nat>, k: nat)
    requires Inv(s, e) && L.Schedule(|s.pc|, more) && HasRounds(|s.pc|, more, Enough(|s.pc|, k))
    ensures forall p :: 0 <= p < |s.pc| ==> Run(s, more).left[p] >= s.left[p] + k
  {
    var n := |s.pc|;
    RoundsRaise(s, e, more, n * (LENGTH * (k + 2)));
    var e' := InvRunFrom(s, more, e);
    var r := Run(s, more);
    EpisodeBounds(s, e);
    EpisodeBounds(r, e');
    forall p | 0 <= p < n ensures r.left[p] >= s.left[p] + k {
      if r.left[p] < s.left[p] + k {
        TooFewMoves(s, r, p, k);
      }
    }
  }

  // Somebody k barriers short keeps everybody within the next two barriers of where they began.
  lemma TooFewMoves(s: State, r: State, p: nat, k: nat)
    requires s.WF(|s.pc|) && r.WF(|s.pc|) && p < |s.pc| && r.left[p] < s.left[p] + k
    requires forall i :: 0 <= i < |s.pc| ==> s.left[p] <= s.left[i] + 1
    requires forall i :: 0 <= i < |s.pc| ==> r.left[i] <= r.left[p] + 1
    ensures Total(r) < Total(s) + |s.pc| * (LENGTH * (k + 2))
  {
    var n, gain := |s.pc|, LENGTH * (k + 2);
    var low: int := LENGTH * s.left[p] - LENGTH;
    SumAtLeast(Places(s), low);
    SumAtMost(Places(r), low + gain - 1);
    Shortfall(n, low, gain, Total(s), Total(r));
  }

  lemma Shortfall(n: nat, low: int, gain: int, before: int, after: int)
    requires 0 < n && n * low <= before && after <= n * (low + gain - 1)
    ensures after < before + n * gain
  {
    P.Distribute(low, gain - 1, n);
    P.Distribute(gain - 1, 1, n);
  }

  /** Under every fair schedule the barrier completes: from any reachable state, any continuation
      that contains Enough(n, k) rounds lets every processor complete k more barriers. */
  lemma FairSchedulesComplete(n: nat, sched: seq<nat>, more: seq<nat>, k: nat)
    requires 2 <= n <= L.MAX_SAFE && L.Schedule(n, sched)
    requires L.Schedule(n, more) && HasRounds(n, more, Enough(n, k))
    ensures forall p :: 0 <= p < n ==>
      Run(Run(Init(n), sched), more).left[p] >= Run(Init(n), sched).left[p] + k
  {
    var e := InvRun(n, sched);
    FairFrom(Run(Init(n), sched), e, more, k);
  }

  // Each processor in turn, m times over.
  function Turns(n: nat, m: nat): seq<nat> {
    if m == 0 then [] else seq(n, p requires 0 <= p < n => p) + Turns(n, m - 1)
  }

  lemma {:induction false} TurnsHaveRounds(n: nat, m: nat)
    ensures L.Schedule(n, Turns(n, m)) && HasRounds(n, Turns(n, m), m)
  {
    if m != 0 {
      TurnsHaveRounds(n, m - 1);
      var turn: seq<nat>, all := seq(n, p requires 0 <= p < n => p), Turns(n, m);
      assert all[..n] == turn && all[n..] == Turns(n, m - 1);
      forall p | 0 <= p < n ensures p in turn {
        assert turn[p] == p;
      }
    }
  }

  /** The barrier never wedges: from every reachable state some continuation lets every processor
      complete any number of barriers. */
  lemma BarrierNeverWedges(n: nat, sched: seq<nat>, k: nat) returns (more: seq<nat>)
    requires 2 <= n <= L.MAX_SAFE && L.Schedule(n, sched)
    ensures L.Schedule(n, more)
    ensures forall p :: 0 <= p < n ==> Run(Run(Init(n), sched), more).left[p] >= k
  {
    more := Turns(n, Enough(n, k));
    TurnsHaveRounds(n, Enough(n, k));
    FairSchedulesComplete(n, sched, more, k);
  }

  // ------------------------------------------------------------------ why one processor returns early

  // With a single participant the first pass through the body shuts gate 1 for good.
  ghost predicate Alone(v: View) {
    match v.pc
    case Out | Gate1 => if v.left == 0 then v.st1 == 1 && v.count == 1 else v.left == 1 && v.st1 == 0
    case Acq1 | Load1 => v.left == 0 && v.count == 1
    case Store1 => v.left == 0 && v.reg == 1
    case CloseSt1 => v.left == 0
    case OpenSt2 | Load2 | Store2 | UnlockLast => v.left == 0 && v.st1 == 0
    case _ => false
  }

  lemma ExecAlone(v: View, owns: bool)
    requires Alone(v)
    ensures Alone(Exec(v, owns, 1))
  {
  }

  /** The body of barrier() run by a single participant lets it through once and never again:
      hence the early return for one CPU. */
  lemma {:induction false} OneProcessorWedges(sched: seq<nat>)
    requires L.Schedule(1, sched)
    ensures Run(Init(1), sched).left[0] <= 1
    decreases |sched|
  {
    AloneRun(sched);
  }

  lemma {:induction false} AloneRun(sched: seq<nat>)
    requires L.Schedule(1, sched)
    ensures Alone(ViewOf(Run(Init(1), sched), 0))
    decreases |sched|
  {
    if sched != [] {
      var s := Run(Init(1), sched[..|sched| - 1]);
      AloneRun(sched[..|sched| - 1]);
      var w := StepLocal(s, 0);
      var owns :| w == Exec(ViewOf(s, 0), owns, 1);
      ExecAlone(ViewOf(s, 0), owns);
      assert ViewOf(Step(s, 0), 0) == w;
    }
  }
}
