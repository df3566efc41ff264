/**
  The byte spin lock of memtest86+ (smp.h): `lock; decb`, success when the sign
  flag stays clear, otherwise read-only spinning until the byte is positive again.

  The lock is a transition system: one transition is one instruction that touches the
  lock byte, executed by one processor.  A schedule is the sequence of processors that
  execute the next instruction, so a statement about every schedule is a statement
  about every interleaving.
 */
module SpinLock {
  // The program point of a processor with respect to one lock.
  datatype Phase =
    | Idle      // not inside spin_lock, does not own the lock
    | Trying    // about to execute `lock; decb`
    | Spinning  // about to execute `cmpb $0`
    | Holding   // spin_lock has returned

  // A signed byte.
  type sbyte = b: int | -128 <= b < 128

  // `slock` is the lock.  `decs` and `touched` are history variables: the number of
  // decrements since the last store of 1, and the processors that executed them.
  datatype State = State(slock: sbyte, ph: seq<Phase>, decs: nat, touched: set<nat>)

  // `decb`: one less, modulo 256.
  function Dec8(b: sbyte): (r: sbyte)
    ensures (r - (b - 1)) % 0x100 == 0
  {
    if b == -128 then 127 else b - 1
  }

  function Init(n: nat): State {
    State(1, seq(n, _ => Idle), 0, {})
  }

  function Step(s: State, p: nat): (r: State)
    requires p < |s.ph|
    ensures |r.ph| == |s.ph|
    ensures forall q :: 0 <= q < |s.ph| && q != p ==> r.ph[q] == s.ph[q]
  {
    match s.ph[p]
    case Idle => s.(ph := s.ph[p := Trying])
    case Trying =>
      var b := Dec8(s.slock);
      State(b, s.ph[p := if b >= 0 then Holding else Spinning], s.decs + 1, s.touched + {p})
    case Spinning =>
      if s.slock <= 0 then s else s.(ph := s.ph[p := Trying])
    case Holding =>
      State(1, s.ph[p := Idle], 0, {})
  }

  ghost predicate Schedule(n: nat, sched: seq<nat>) {
    forall i :: 0 <= i < |sched| ==> sched[i] < n
  }

  ghost function Run(s: State, sched: seq<nat>): (r: State)
    requires Schedule(|s.ph|, sched)
    ensures |r.ph| == |s.ph|
    decreases |sched|
  {
    if sched == [] then s
    else Step(Run(s, sched[..|sched| - 1]), sched[|sched| - 1])
  }

  ghost predicate MutualExclusion(s: State) {
    forall p, q :: 0 <= p < |s.ph| && 0 <= q < |s.ph| && s.ph[p] == Holding && s.ph[q] == Holding ==> p == q
  }

  // The largest number of processors for which the signed byte cannot wrap.
  const MAX_SAFE: nat := 129

  // The inductive invariant.
  ghost predicate Inv(s: State) {
    && |s.ph| <= MAX_SAFE
    && (forall p :: p in s.touched ==> p < |s.ph| && (s.ph[p] == Holding || s.ph[p] == Spinning))
    && s.decs == |s.touched|
    && s.slock == 1 - s.decs
    && (forall p :: 0 <= p < |s.ph| && s.ph[p] == Holding ==> p in s.touched)
    && MutualExclusion(s)
    && (s.touched != {} ==> exists p :: 0 <= p < |s.ph| && s.ph[p] == Holding)
  }

  lemma SubsetBelow(t: set<nat>, n: nat)
    requires forall p :: p in t ==> p < n
    ensures |t| <= n
    decreases n
  {
    if n != 0 {
      SubsetBelow(t - {n - 1}, n - 1);
    }
  }

  lemma InvInit(n: nat)
    requires n <= MAX_SAFE
    ensures Inv(Init(n))
  {
  }

  lemma InvStep(s: State, p: nat)
    requires Inv(s) && p < |s.ph|
    ensures Inv(Step(s, p))
  {
    match s.ph[p]
    case Idle | Spinning => InvWait(s, p);
    case Trying => InvTrying(s, p);
    case Holding => assert !Step(s, p).ph[p].Holding?;
  }

  lemma InvWait(s: State, p: nat)
    requires Inv(s) && p < |s.ph| && (s.ph[p].Idle? || s.ph[p].Spinning?)
    ensures Inv(Step(s, p))
  {
    if s.ph[p].Idle? || s.slock > 0 {
      assert s.ph[p].Spinning? ==> s.touched == {};
      if s.touched != {} {
        var h :| 0 <= h < |s.ph| && s.ph[h] == Holding;
        assert Step(s, p).ph[h] == Holding;
      }
    }
  }

  lemma InvTrying(s: State, p: nat)
    requires Inv(s) && p < |s.ph| && s.ph[p].Trying?
    ensures Inv(Step(s, p))
  {
    var r := Step(s, p);
    assert p !in s.touched;
    SubsetBelow(s.touched + {p}, |s.ph|);
    if s.touched == {} {
      assert r.ph[p] == Holding;
    } else {
      var h :| 0 <= h < |s.ph| && s.ph[h] == Holding;
      assert r.ph[p] == Spinning && r.ph[h] == Holding;
    }
  }

  lemma InvRun(n: nat, sched: seq<nat>)
    requires n <= MAX_SAFE && Schedule(n, sched)
    ensures |Init(n).ph| == n && Inv(Run(Init(n), sched))
  {
    if sched == [] {
      InvInit(n);
    } else {
      InvRun(n, sched[..|sched| - 1]);
      InvStep(Run(Init(n), sched[..|sched| - 1]), sched[|sched| - 1]);
    }
  }

  /** Whatever the interleaving, the byte counts the decrements since the last unlock and stays
      above 1 - n, so it never wraps, and at most one processor owns the lock. */
  lemma LockIsSafe(n: nat, sched: seq<nat>)
    requires n <= MAX_SAFE && Schedule(n, sched)
    ensures var s := Run(Init(n), sched);
      && MutualExclusion(s)
      && s.slock == 1 - s.decs
      && 1 - n <= s.slock <= 1
      && (s.slock == 1 <==> forall p :: 0 <= p < n ==> s.ph[p] != Holding)
  {
    InvRun(n, sched);
    var s := Run(Init(n), sched);
    SubsetBelow(s.touched, n);
    if s.slock != 1 {
      assert s.touched != {};
    }
  }

  // The schedule in which processors 0 .. k-1 enter spin_lock one after the other and each
  // executes its first decrement.
  ghost function Pile(k: nat): (r: seq<nat>)
    ensures |r| == 2 * k
    ensures forall i :: 0 <= i < |r| ==> r[i] < k
  {
    if k == 0 then [] else Pile(k - 1) + [k - 1, k - 1]
  }

  lemma RunTwo(s: State, a: seq<nat>, p: nat)
    requires Schedule(|s.ph|, a) && p < |s.ph|
    ensures Schedule(|s.ph|, a + [p, p])
    ensures Run(s, a + [p, p]) == Step(Step(Run(s, a), p), p)
  {
    var b := a + [p];
    assert b[..|b| - 1] == a;
    assert (a + [p, p])[..|a| + 1] == b;
  }

  // After k processors have piled up, the first owns the lock and the others spin.
  ghost predicate Piled(s: State, k: nat) {
    && s.slock == 1 - k
    && forall q :: 0 <= q < |s.ph| ==> s.ph[q] == if q >= k then Idle else if q == 0 then Holding else Spinning
  }

  lemma {:induction false} PileState(n: nat, k: nat)
    requires k <= n && k <= MAX_SAFE
    ensures Piled(Run(Init(n), Pile(k)), k)
  {
    if k == 0 {
      assert Run(Init(n), Pile(0)) == Init(n);
    } else {
      PileState(n, k - 1);
      var s := Run(Init(n), Pile(k - 1));
      PileMore(s, k - 1);
      assert Run(Init(n), Pile(k)) == Step(Step(s, k - 1), k - 1) by {
        RunTwo(Init(n), Pile(k - 1), k - 1);
      }
    }
  }

  lemma PileMore(s: State, k: nat)
    requires k < |s.ph| && k < MAX_SAFE && Piled(s, k)
    ensures Piled(Step(Step(s, k), k), k + 1)
  {
    var t := Step(s, k);
    assert s.ph[k] == Idle;
    assert t.ph[k] == Trying;
  }

  /** With one processor more the byte wraps from -128 to 127 and the lock is granted twice. */
  lemma LockWraps(n: nat, most: nat)
    requires most == MAX_SAFE && n > most
    ensures Schedule(n, Pile(most + 1))
    ensures !MutualExclusion(Run(Init(n), Pile(most + 1)))
  {
    PileState(n, most);
    RunTwo(Init(n), Pile(most), most);
    var s := Run(Init(n), Pile(most + 1));
    assert s.ph[0] == Holding && s.ph[most] == Holding;
  }

  /** Mutual exclusion holds in every reachable state exactly when at most 129 processors share the
      lock; MAX_CPUS is 32. */
  lemma MutualExclusionExactly(n: nat)
    ensures (forall sched :: Schedule(n, sched) ==> MutualExclusion(Run(Init(n), sched))) <==> n <= MAX_SAFE
  {
    if n <= MAX_SAFE {
      forall sched | Schedule(n, sched)
        ensures MutualExclusion(Run(Init(n), sched))
      {
        LockIsSafe(n, sched);
      }
    } else {
      LockWraps(n, MAX_SAFE);
    }
  }
}
