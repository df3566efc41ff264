/**
  sanitize_e820_map of memtest86+ (memsize.c): remove the overlaps of a BIOS memory map.  This module
  says what a memory map means and proves facts about maps; Sanitize.dfy holds the algorithm.
 */
module E820 {
  const WORD64: nat := 0x1_0000_0000_0000_0000
  const E820MAX: nat := 127

  type u64 = x: nat | x < WORD64

  datatype Entry = Entry(addr: u64, size: u64, typ: nat) {
    function End(): nat { addr + size }
  }

  predicate Covers(e: Entry, a: nat) {
    e.addr <= a < e.End()
  }

  function Max(x: nat, y: nat): nat {
    if x > y then x else y
  }

  // The meaning of a map: the largest type among the entries that cover an address, 0 for none.
  function TypeAt(m: seq<Entry>, a: nat): nat {
    if m == [] then 0
    else
      var t := TypeAt(m[..|m| - 1], a);
      if Covers(m[|m| - 1], a) then Max(t, m[|m| - 1].typ) else t
  }

  // What the algorithm takes an entry to cover: one of size zero it never takes off its list again.
  predicate Reaches(e: Entry, a: nat) {
    e.addr <= a && (e.size == 0 || a < e.End())
  }

  function ReachedAt(m: seq<Entry>, a: nat): nat {
    if m == [] then 0
    else
      var t := ReachedAt(m[..|m| - 1], a);
      if Reaches(m[|m| - 1], a) then Max(t, m[|m| - 1].typ) else t
  }

  // The highest address at which an entry starts or ends.
  function LastPoint(m: seq<Entry>): nat {
    if m == [] then 0 else Max(LastPoint(m[..|m| - 1]), m[|m| - 1].End())
  }

  // Sorted, disjoint, no empty entry, no two abutting entries of the same type.
  ghost predicate Canonical(m: seq<Entry>) {
    && (forall i :: 0 <= i < |m| ==> m[i].size > 0 && m[i].typ > 0)
    && (forall i :: 0 < i < |m| ==> Follows(m[i - 1], m[i]))
  }

  ghost predicate Follows(e: Entry, f: Entry) {
    e.End() <= f.addr && (e.End() == f.addr ==> e.typ != f.typ)
  }

  // ------------------------------------------------------------------ facts about types at addresses

  lemma {:induction false} TypeAtSpec(m: seq<Entry>, a: nat)
    ensures forall i :: 0 <= i < |m| && Covers(m[i], a) ==> m[i].typ <= TypeAt(m, a)
    ensures TypeAt(m, a) != 0 ==> exists i :: 0 <= i < |m| && Covers(m[i], a) && m[i].typ == TypeAt(m, a)
  {
    if m != [] {
      var init := m[..|m| - 1];
      TypeAtSpec(init, a);
      if TypeAt(m, a) != 0 && TypeAt(m, a) == TypeAt(init, a) {
        var i :| 0 <= i < |init| && Covers(init[i], a) && init[i].typ == TypeAt(init, a);
        assert m[i] == init[i];
      }
      assert forall i :: 0 <= i < |init| ==> m[i] == init[i];
    }
  }

  lemma {:induction false} ReachedAtSpec(m: seq<Entry>, a: nat)
    ensures forall i :: 0 <= i < |m| && Reaches(m[i], a) ==> m[i].typ <= ReachedAt(m, a)
    ensures ReachedAt(m, a) != 0 ==> exists i :: 0 <= i < |m| && Reaches(m[i], a) && m[i].typ == ReachedAt(m, a)
  {
    if m != [] {
      var init := m[..|m| - 1];
      ReachedAtSpec(init, a);
      if ReachedAt(m, a) != 0 && ReachedAt(m, a) == ReachedAt(init, a) {
        var i :| 0 <= i < |init| && Reaches(init[i], a) && init[i].typ == ReachedAt(init, a);
        assert m[i] == init[i];
      }
      assert forall i :: 0 <= i < |init| ==> m[i] == init[i];
    }
  }

  lemma {:induction false} LastPointSpec(m: seq<Entry>)
    ensures forall i :: 0 <= i < |m| ==> m[i].End() <= LastPoint(m)
    ensures m != [] ==> exists i :: 0 <= i < |m| && m[i].End() == LastPoint(m)
  {
    if m != [] {
      var init := m[..|m| - 1];
      LastPointSpec(init);
      assert forall i :: 0 <= i < |init| ==> m[i] == init[i];
      if LastPoint(m) != m[|m| - 1].End() {
        assert init != [];
        var i :| 0 <= i < |init| && init[i].End() == LastPoint(init);
        assert m[i] == init[i];
      }
    }
  }

  // ------------------------------------------------------------------ canonical maps

  lemma {:induction false} CanonicalOrder(m: seq<Entry>, i: nat, j: nat)
    requires Canonical(m) && i < j < |m|
    ensures m[i].End() <= m[j].addr
    decreases j - i
  {
    if i + 1 < j {
      CanonicalOrder(m, i, j - 1);
      assert Follows(m[j - 1], m[j]);
    } else {
      assert Follows(m[j - 1], m[j]);
    }
  }

  // In a canonical map an address has the type of the one entry that covers it.
  lemma CanonicalTypeAt(m: seq<Entry>, i: nat, a: nat)
    requires Canonical(m) && i < |m| && Covers(m[i], a)
    ensures TypeAt(m, a) == m[i].typ
  {
    TypeAtSpec(m, a);
    var k :| 0 <= k < |m| && Covers(m[k], a) && m[k].typ == TypeAt(m, a);
    if k < i {
      CanonicalOrder(m, k, i);
    } else if i < k {
      CanonicalOrder(m, i, k);
    }
  }

  lemma NoneCovers(m: seq<Entry>, a: nat)
    requires forall i :: 0 <= i < |m| ==> !Covers(m[i], a)
    ensures TypeAt(m, a) == 0
  {
    TypeAtSpec(m, a);
  }

  // Right after an entry of a canonical map the type is another one.
  lemma CanonicalEdge(m: seq<Entry>, i: nat)
    requires Canonical(m) && i < |m|
    ensures TypeAt(m, m[i].End()) != m[i].typ
  {
    var a := m[i].End();
    assert i + 1 < |m| ==> Follows(m[i], m[i + 1]);
    if TypeAt(m, a) == m[i].typ {
      TypeAtSpec(m, a);
      var k :| 0 <= k < |m| && Covers(m[k], a) && m[k].typ == TypeAt(m, a);
      if k < i {
        CanonicalOrder(m, k, i);
      } else if i + 1 < k {
        CanonicalOrder(m, i + 1, k);
      }
    }
  }

  // The gap before entry i.
  lemma CanonicalGap(m: seq<Entry>, i: nat, a: nat)
    requires Canonical(m) && i <= |m|
    requires i > 0 ==> m[i - 1].End() <= a
    requires i < |m| ==> a < m[i].addr
    ensures TypeAt(m, a) == 0
  {
    forall k | 0 <= k < |m| ensures !Covers(m[k], a) {
      if k + 1 < i {
        CanonicalOrder(m, k, i - 1);
      } else if i < k {
        CanonicalOrder(m, i, k);
      }
    }
    NoneCovers(m, a);
  }

  // Two canonical maps that agree below `top`, where b ends at or below it, agree entry by entry;
  // the last entry of b may be cut short.
  lemma {:induction false} CanonicalAgree(a: seq<Entry>, b: seq<Entry>, top: nat, i: nat)
    requires Canonical(a) && Canonical(b) && i < |b|
    requires forall k :: 0 <= k < |b| ==> b[k].End() <= top
    requires forall x :: 0 <= x < top ==> TypeAt(a, x) == TypeAt(b, x)
    ensures i < |a| && a[i].addr == b[i].addr && a[i].typ == b[i].typ && b[i].End() <= a[i].End()
    ensures b[i].End() < top ==> a[i] == b[i]
  {
    if i > 0 {
      CanonicalAgree(a, b, top, i - 1);
      assert Follows(b[i - 1], b[i]);
    }
    assert i > 0 ==> a[i - 1] == b[i - 1];
    var low := if i > 0 then b[i - 1].End() else 0;
    CanonicalTypeAt(b, i, b[i].addr);
    if i >= |a| || b[i].addr < a[i].addr {
      CanonicalGap(a, i, b[i].addr);
    } else if a[i].addr < b[i].addr {
      assert i > 0 ==> Follows(a[i - 1], a[i]);
      CanonicalTypeAt(a, i, a[i].addr);
      CanonicalGap(b, i, a[i].addr);
    } else {
      CanonicalTypeAt(a, i, a[i].addr);
      SameEnd(a, b, top, i);
    }
  }

  lemma SameEnd(a: seq<Entry>, b: seq<Entry>, top: nat, i: nat)
    requires Canonical(a) && Canonical(b) && i < |b| && i < |a| && b[i].End() <= top
    requires forall x :: 0 <= x < top ==> TypeAt(a, x) == TypeAt(b, x)
    requires a[i].addr == b[i].addr && a[i].typ == b[i].typ
    ensures b[i].End() <= a[i].End() && (b[i].End() < top ==> a[i] == b[i])
  {
    if a[i].End() < b[i].End() {
      CanonicalTypeAt(b, i, a[i].End());
      CanonicalEdge(a, i);
    } else if b[i].End() < a[i].End() && b[i].End() < top {
      CanonicalTypeAt(a, i, b[i].End());
      CanonicalEdge(b, i);
    }
  }

  /** A canonical map is determined by its meaning. */
  lemma CanonicalUnique(a: seq<Entry>, b: seq<Entry>)
    requires Canonical(a) && Canonical(b)
    requires forall x: nat :: TypeAt(a, x) == TypeAt(b, x)
    ensures a == b
  {
    var top := Max(LastPoint(a), LastPoint(b)) + 1;
    LastPointSpec(a);
    LastPointSpec(b);
    forall i | 0 <= i < |b| ensures i < |a| && a[i] == b[i] {
      CanonicalAgree(a, b, top, i);
    }
    if |a| > |b| {
      CanonicalAgree(b, a, top, |b|);
    }
  }
}
