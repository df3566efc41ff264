/**
  The moving inversions test with shifting 32-bit patterns of memtest86+ (movinv32, test.c), on memory
  that returns what was written to it, and the test that runs it on all its patterns (main.c).

  Memory is an array of 32-bit words indexed by word address.  A segment runs first its first last its
  last word inclusive, as the code holds it, and is worked through in pieces of SPINSZ words.  error()
  counts.
 */
module MovInv {
  import opened Shifting

  const SPINSZ: nat := 0x400_0000

  // Word addresses of a 32-bit address space.
  const ADDRESSES: nat := 0x4000_0000

  datatype Segment = Segment(start: nat, end: nat)

  function Words(s: Segment): int {
    s.end - s.start + 1
  }

  // The piecewise loops leave out a last word that would make a piece of its own, and on the way down
  // run one word past a segment whose last piece would be empty.
  ghost predicate Shaped(s: Segment) {
    s.start < s.end && (Words(s) <= SPINSZ || Words(s) % SPINSZ !in {1, 2})
  }

  ghost predicate Within(s: Segment, a: int) {
    s.start <= a <= s.end
  }

  ghost predicate Disjoint(s: Segment, t: Segment) {
    s.end < t.start || t.end < s.start
  }

  ghost predicate Layout(segs: seq<Segment>, size: nat) {
    && size <= ADDRESSES
    && (forall j :: 0 <= j < |segs| ==> Shaped(segs[j]) && segs[j].end < size)
    && (forall i, j :: 0 <= i < j < |segs| ==> Disjoint(segs[i], segs[j]))
  }

  // The bits carry over first each segment last the one before it exactly when every segment but the last
  // is a multiple of 32 words.
  ghost predicate Even(segs: seq<Segment>, first: nat) {
    forall j :: first <= j < |segs| - 1 ==> Words(segs[j]) % 32 == 0
  }

  // The down count at a position whose bit is x modulo 32.
  function Count(x: int): nat {
    x % 32 + 1
  }

  // A comparison of a word with a value.
  type Comparison = (nat, word)

  // The words first..last were compared with the pattern at phase c.
  ghost predicate Compared(checks: set<Comparison>, sval: nat, c: int, first: int, last: int) {
    forall a: nat :: first <= a <= last ==> (a, Want(sval, c, a)) in checks
  }

  class Tester {
    const mem: array<word>
    var errors: nat

    // All comparisons so far.
    ghost var checks: set<Comparison>

    // The words first..last hold the pattern at phase c, or its complement.
    ghost predicate Holds(sval: nat, c: int, first: int, last: int)
      reads mem
      requires 0 <= first && last < mem.Length
    {
      forall a :: first <= a <= last ==> mem[a] == Want(sval, c, a)
    }

    ghost predicate HoldsNot(sval: nat, c: int, first: int, last: int)
      reads mem
      requires 0 <= first && last < mem.Length
    {
      forall a :: first <= a <= last ==> mem[a] == Not(Want(sval, c, a))
    }

    // Pieces: the code between the bounds checks, each a loop written in assembly.

    method Fill(first: nat, last: nat, k0: nat, pat0: word, sval: nat, lb: word, ghost c: int)
      returns (k: nat, pat: word)
      requires first <= last < mem.Length && sval < 2 && lb == Pat(sval, 0)
      requires k0 == (first + c) % 32 && pat0 == Pat(sval, k0)
      modifies mem
      ensures k == (last + 1 + c) % 32 && pat == Pat(sval, k)
      ensures Holds(sval, c, first, last)
      ensures forall a :: 0 <= a < mem.Length && !(first <= a <= last) ==> mem[a] == old(mem[a])
    {
      var p := first;
      k, pat := k0, pat0;
      while true
        invariant first <= p <= last
        invariant k == (p + c) % 32 && pat == Pat(sval, k)
        invariant Holds(sval, c, first, p - 1)
        invariant forall a :: 0 <= a < mem.Length && !(first <= a < p) ==> mem[a] == old(mem[a])
        decreases last - p
      {
        mem[p] := pat;
        k, pat := StepUp(k, pat, sval, lb, p + c);
        if p >= last {
          break;
        }
        p := p + 1;
      }
    }

    // Go on to the next bit, and from the last one to the first.
    method StepUp(k0: nat, pat0: word, sval: nat, lb: word, ghost x: int) returns (k: nat, pat: word)
      requires sval < 2 && k0 == x % 32 && pat0 == Pat(sval, k0) && lb == Pat(sval, 0)
      ensures k == (x + 1) % 32 && pat == Pat(sval, k)
    {
      NextBit(x);
      k := k0 + 1;
      if k == 32 {
        pat := lb;
        k := 0;
      } else {
        UpIsNext(sval, k0);
        pat := Up(pat0, sval);
      }
    }

    // Go back by one bit, and from the first one to the last.  Here k is one more than the bit's number.
    method StepDown(k0: nat, pat0: word, sval: nat, hb: word, ghost x: int) returns (k: nat, pat: word)
      requires sval < 2 && k0 == Count(x) && pat0 == Pat(sval, k0 - 1) && hb == Pat(sval, 31)
      ensures k == Count(x - 1) && pat == Pat(sval, k - 1)
    {
      NextBit(x);
      k := k0 - 1;
      if k > 0 {
        DownIsPrevious(sval, k0 - 1);
        pat := Down(pat0, sval);
      } else {
        pat := hb;
        k := 32;
      }
    }

    method Check(p: nat, wanted: word)
      requires p < mem.Length
      modifies `errors, `checks
      ensures errors == old(errors) + if mem[p] == wanted then 0 else 1
      ensures checks == old(checks) + {(p, wanted)}
    {
      checks := checks + {(p, wanted)};
      if mem[p] != wanted {
        errors := errors + 1;
      }
    }

    method InvertUp(first: nat, last: nat, k0: nat, pat0: word, sval: nat, lb: word, ghost c: int)
      returns (k: nat, pat: word)
      requires first <= last < mem.Length && sval < 2 && lb == Pat(sval, 0)
      requires k0 == (first + c) % 32 && pat0 == Pat(sval, k0)
      modifies mem, `errors, `checks
      ensures old(checks) <= checks
      ensures k == (last + 1 + c) % 32 && pat == Pat(sval, k)
      ensures HoldsNot(sval, c, first, last)
      ensures forall a :: 0 <= a < mem.Length && !(first <= a <= last) ==> mem[a] == old(mem[a])
      ensures errors >= old(errors) && (errors == old(errors) <==> old(Holds(sval, c, first, last)))
      ensures Compared(checks, sval, c, first, last)
    {
      var p := first;
      k, pat := k0, pat0;
      while true
        invariant first <= p <= last
        invariant k == (p + c) % 32 && pat == Pat(sval, k)
        invariant HoldsNot(sval, c, first, p - 1)
        invariant forall a :: 0 <= a < mem.Length && !(first <= a < p) ==> mem[a] == old(mem[a])
        invariant errors >= old(errors) && (errors == old(errors) <==> old(Holds(sval, c, first, p - 1)))
        invariant old(checks) <= checks && Compared(checks, sval, c, first, p - 1)
        decreases last - p
      {
        Check(p, pat);
        mem[p] := Not(pat);
        k, pat := StepUp(k, pat, sval, lb, p + c);
        if p >= last {
          break;
        }
        p := p + 1;
      }
    }

    method InvertDown(first: nat, last: nat, k0: nat, pat0: word, sval: nat, hb: word, ghost c: int)
      returns (k: nat, pat: word)
      requires first <= last < mem.Length && sval < 2 && hb == Pat(sval, 31)
      requires k0 == Count(last + c) && pat0 == Pat(sval, k0 - 1)
      modifies mem, `errors, `checks
      ensures old(checks) <= checks
      ensures k == Count(first - 1 + c) && pat == Pat(sval, k - 1)
      ensures Holds(sval, c, first, last)
      ensures forall a :: 0 <= a < mem.Length && !(first <= a <= last) ==> mem[a] == old(mem[a])
      ensures errors >= old(errors) && (errors == old(errors) <==> old(HoldsNot(sval, c, first, last)))
    {
      var p := last;
      k, pat := InvertOne(p, k0, pat0, sval, hb, c);
      while p > first
        invariant first <= p <= last
        invariant k == Count(p - 1 + c) && pat == Pat(sval, k - 1)
        invariant Holds(sval, c, p, last)
        invariant forall a :: 0 <= a < mem.Length && !(p <= a <= last) ==> mem[a] == old(mem[a])
        invariant errors >= old(errors) && (errors == old(errors) <==> old(HoldsNot(sval, c, p, last)))
        invariant old(checks) <= checks
      {
        p := p - 1;
        k, pat := InvertOne(p, k, pat, sval, hb, c);
      }
    }

    method InvertOne(p: nat, k0: nat, pat0: word, sval: nat, hb: word, ghost c: int) returns (k: nat, pat: word)
      requires p < mem.Length && sval < 2 && hb == Pat(sval, 31)
      requires k0 == Count(p + c) && pat0 == Pat(sval, k0 - 1)
      modifies mem, `errors, `checks
      ensures old(checks) <= checks
      ensures k == Count(p - 1 + c) && pat == Pat(sval, k - 1)
      ensures mem[p] == Want(sval, c, p)
      ensures forall a :: 0 <= a < mem.Length && a != p ==> mem[a] == old(mem[a])
      ensures errors == old(errors) + if old(mem[p]) == Not(Want(sval, c, p)) then 0 else 1
    {
      Check(p, Not(pat0));
      mem[p] := pat0;
      k, pat := StepDown(k0, pat0, sval, hb, p + c);
    }

    // Segments: the pieces in turn.

    // Check for overflow, and for the end.
    method NextUp(s: Segment, ghost p: nat, pe0: nat) returns (pe: nat, done: nat)
      requires Shaped(s) && UpTo(s, p, pe0) && s.end < ADDRESSES
      ensures p != pe && p <= pe <= s.end
      ensures if done == 0 then UpTo(s, pe + 1, pe) else pe == s.end
    {
      var end := s.end;
      done := 0;
      if (pe0 + SPINSZ) % ADDRESSES > pe0 && pe0 != 0 {
        pe := pe0 + SPINSZ;
      } else {
        pe := end;
      }
      if pe >= end {
        pe := end;
        done := done + 1;
      }
    }

    // Check for underflow, and for the start.
    method NextDown(s: Segment, ghost p: nat, pe0: nat) returns (pe: nat, done: nat)
      requires Shaped(s) && DownTo(s, p, pe0) && s.end < ADDRESSES
      ensures p != pe && s.start <= pe <= p
      ensures if done == 0 then DownTo(s, pe - 1, pe) else pe == s.start
    {
      var start, end := s.start, s.end;
      done := 0;
      if (pe0 - SPINSZ) % ADDRESSES < pe0 && pe0 != 0 {
        pe := (pe0 - SPINSZ) % ADDRESSES;
      } else {
        pe := start;
        done := done + 1;
      }
      if pe < start || pe > end {
        pe := start;
        done := done + 1;
      }
    }

    method FillSegment(s: Segment, p1: word, lb: word, sval: nat, off: nat)
      requires Shaped(s) && s.end < mem.Length <= ADDRESSES
      requires sval < 2 && off < 32 && p1 == Pat(sval, off) && lb == Pat(sval, 0)
      modifies mem
      ensures Holds(sval, off - s.start, s.start, s.end)
      ensures forall a :: 0 <= a < mem.Length && !Within(s, a) ==> mem[a] == old(mem[a])
    {
      var p, pe, done := s.start, s.start, 0;
      var k, pat := off, p1;
      ghost var c := off - s.start;
      while done == 0
        invariant done == 0 ==> UpTo(s, p, pe) && k == (p + c) % 32 && pat == Pat(sval, k)
        invariant done != 0 ==> p == s.end + 1
        invariant s.start <= p <= s.end + 1 && Holds(sval, c, s.start, p - 1)
        invariant forall a :: 0 <= a < mem.Length && !(s.start <= a < p) ==> mem[a] == old(mem[a])
        decreases s.end + 1 - p
      {
        pe, done := NextUp(s, p, pe);
        if p == pe {
          break;
        }
        k, pat := Fill(p, pe, k, pat, sval, lb, c);
        p := pe + 1;
      }
    }

    method InvertSegmentUp(s: Segment, p1: word, lb: word, sval: nat, off: nat) returns (k: nat, pat: word)
      requires Shaped(s) && s.end < mem.Length <= ADDRESSES
      requires sval < 2 && off < 32 && p1 == Pat(sval, off) && lb == Pat(sval, 0)
      modifies mem, `errors, `checks
      ensures old(checks) <= checks
      ensures k == (off + Words(s)) % 32
      ensures HoldsNot(sval, off - s.start, s.start, s.end)
      ensures forall a :: 0 <= a < mem.Length && !Within(s, a) ==> mem[a] == old(mem[a])
      ensures errors >= old(errors)
      ensures errors == old(errors) <==> old(Holds(sval, off - s.start, s.start, s.end))
      ensures Compared(checks, sval, off - s.start, s.start, s.end)
    {
      var p, pe, done := s.start, s.start, 0;
      k, pat := off, p1;
      ghost var c := off - s.start;
      while done == 0
        invariant k == (p + c) % 32 && pat == Pat(sval, k)
        invariant done == 0 ==> UpTo(s, p, pe)
        invariant done != 0 ==> p == s.end + 1
        invariant s.start <= p <= s.end + 1 && HoldsNot(sval, c, s.start, p - 1)
        invariant forall a :: 0 <= a < mem.Length && !(s.start <= a < p) ==> mem[a] == old(mem[a])
        invariant errors >= old(errors) && (errors == old(errors) <==> old(Holds(sval, c, s.start, p - 1)))
        invariant old(checks) <= checks && Compared(checks, sval, c, s.start, p - 1)
        decreases s.end + 1 - p
      {
        pe, done := NextUp(s, p, pe);
        if p == pe {
          break;
        }
        k, pat := InvertUp(p, pe, k, pat, sval, lb, c);
        p := pe + 1;
      }
    }

    // One piece of the way down.
    method PieceDown(s: Segment, p: nat, pe0: nat, k0: nat, pat0: word, hb: word, sval: nat, ghost c: int)
      returns (pe: nat, done: nat, k: nat, pat: word)
      requires Shaped(s) && s.end < mem.Length <= ADDRESSES && Goes(s, p, pe0, 0) && p <= s.end
      requires sval < 2 && hb == Pat(sval, 31) && k0 == Count(p + c) && pat0 == Pat(sval, k0 - 1)
      requires Holds(sval, c, p + 1, s.end)
      modifies mem, `errors, `checks
      ensures old(checks) <= checks
      ensures Goes(s, pe - 1, pe, done) && pe <= p && if done == 0 then s.start < pe else pe == s.start
      ensures k == Count(pe - 1 + c) && pat == Pat(sval, k - 1)
      ensures Holds(sval, c, pe, s.end)
      ensures forall a :: 0 <= a < mem.Length && !(pe <= a <= p) ==> mem[a] == old(mem[a])
      ensures errors >= old(errors) && (errors == old(errors) <==> old(HoldsNot(sval, c, pe, p)))
    {
      k, pat := k0, pat0;
      pe, done := NextDown(s, p, pe0);
      if p == pe {
        return;
      }
      k, pat := InvertDown(pe, p, k0, pat0, sval, hb, c);
    }

    method InvertSegmentDown(s: Segment, k0: nat, pat0: word, hb: word, sval: nat, ghost c: int)
      returns (k: nat, pat: word)
      requires Shaped(s) && s.end < mem.Length <= ADDRESSES
      requires sval < 2 && hb == Pat(sval, 31) && k0 == Count(s.end + c) && pat0 == Pat(sval, k0 - 1)
      modifies mem, `errors, `checks
      ensures old(checks) <= checks
      ensures k == Count(s.start - 1 + c) && pat == Pat(sval, k - 1)
      ensures Holds(sval, c, s.start, s.end)
      ensures forall a :: 0 <= a < mem.Length && !Within(s, a) ==> mem[a] == old(mem[a])
      ensures errors >= old(errors)
      ensures errors == old(errors) <==> old(HoldsNot(sval, c, s.start, s.end))
    {
      var p: int, pe: int, done := s.end, s.end, 0;
      k, pat := k0, pat0;
      while done == 0
        invariant k == Count(p + c) && pat == Pat(sval, k - 1)
        invariant Goes(s, p, pe, done) && (if done == 0 then s.start <= p else p == s.start - 1)
        invariant s.start - 1 <= p <= s.end && Holds(sval, c, p + 1, s.end)
        invariant forall a :: 0 <= a < mem.Length && !(p < a <= s.end) ==> mem[a] == old(mem[a])
        invariant old(checks) <= checks && errors >= old(errors)
        invariant errors == old(errors) <==> old(HoldsNot(sval, c, p + 1, s.end))
        decreases p - s.start + 1
      {
        pe, done, k, pat := PieceDown(s, p, pe, k, pat, hb, sval, c);
        p := pe - 1;
      }
    }
  }

  // Where a piecewise loop stands: p is the next word, pe the last bound.
  ghost predicate UpTo(s: Segment, p: int, pe: int) {
    || p == pe == s.start
    || (p == pe + 1 <= s.end && s.start < pe && (pe - s.start) % SPINSZ == 0)
  }

  ghost predicate DownTo(s: Segment, p: int, pe: int) {
    || p == pe == s.end
    || (p == pe - 1 >= s.start && pe < s.end && (s.end - pe) % SPINSZ == 0)
  }

  // And when it is done.
  ghost predicate Goes(s: Segment, p: int, pe: int, done: nat) {
    if done == 0 then DownTo(s, p, pe) else p == s.start - 1
  }
}
