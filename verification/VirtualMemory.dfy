/**
  How memtest86+ reaches memory above 2 GB (payloads/memtest86+/vmem.c): physical memory is tested in
  windows of 2 GB, and every window but the first is seen at the virtual addresses from 2 GB to 4 GB.
  Pages are 4 KB, and directory entries map 2 MB each.
 */
module VirtualMemory {
  import opened Powers

  const WINDOW: nat := 0x8_0000
  const HALF: nat := 0x8000_0000
  const FULL: nat := 0x1_0000_0000

  datatype Pde = Pde(lo: nat, hi: nat)

  // The entries for window w.
  function Entry(w: nat, i: nat): Pde {
    Pde(w % 2 * HALF + i * 0x20_0000 + 0xE3, w / 2)
  }

  // What the page tables make of the virtual address va: the first 2 GB map to themselves.
  function Translate(pd2: seq<Pde>, va: nat): nat
    requires |pd2| == 1024 && va < FULL
  {
    if va < HALF then va
    else
      var e := pd2[(va - HALF) / 0x20_0000];
      e.hi * FULL + e.lo / 0x20_0000 * 0x20_0000 + va % 0x20_0000
  }

  // mapping()
  function Mapping(page: nat): (va: nat)
    ensures va < FULL
  {
    if page < 0x8_0000 then page * 0x1000 else (page % 0x8_0000 + 0x8_0000) * 0x1000
  }

  // emapping(): the last word of the page before.
  function Emapping(page: nat): (va: nat)
    requires page > 0
    ensures va < FULL
  {
    Mapping(page - 1) + 0xFFC
  }

  // The window's entries are loaded.
  ghost predicate Loaded(pd2: seq<Pde>, w: nat) {
    |pd2| == 1024 && (w > 0 ==> forall i :: 0 <= i < 1024 ==> pd2[i] == Entry(w, i))
  }

  // With window w loaded, the offset off above 2 GB is the offset off in window w.
  lemma TranslateHigh(pd2: seq<Pde>, w: nat, off: nat)
    requires w > 0 && Loaded(pd2, w) && off < HALF
    ensures Translate(pd2, HALF + off) == w * HALF + off
  {
    var i, r := off / 0x20_0000, off % 0x20_0000;
    assert off == i * 0x20_0000 + r;
    EntryBase(w, i);
    assert (HALF + off) % 0x20_0000 == r by {
      assert HALF + off == (i + 0x400) * 0x20_0000 + r;
    }
  }

  lemma EntryBase(w: nat, i: nat)
    requires i < 1024
    ensures Entry(w, i).lo < FULL
    ensures Entry(w, i).hi * FULL + Entry(w, i).lo / 0x20_0000 * 0x20_0000 == w * HALF + i * 0x20_0000
  {
    var b := w % 2;
    assert Entry(w, i).lo == (b * 0x400 + i) * 0x20_0000 + 0xE3;
    assert Entry(w, i).lo / 0x20_0000 == b * 0x400 + i;
    assert w == 2 * (w / 2) + b;
  }

  // Bit b of x.
  function Flag(x: nat, b: nat): bool {
    if b == 0 then x % 2 == 1 else Flag(x / 2, b - 1)
  }

  // A multiple of a higher power of two does not touch it.
  lemma {:induction false} FlagBelow(m: nat, n: nat, c: nat, b: nat)
    requires b < n
    ensures Flag(m * Pow2(n) + c, b) == Flag(c, b)
  {
    var k := m * Pow2(n - 1);
    assert m * Pow2(n) == 2 * k;
    HalfOf(k, c);
    if b > 0 {
      FlagBelow(m, n - 1, c / 2, b - 1);
    }
  }

  lemma HalfOf(k: nat, c: nat)
    ensures (2 * k + c) / 2 == k + c / 2 && (2 * k + c) % 2 == c % 2
  {
    DivUnique(2 * k + c, k + c / 2, 2, c % 2);
  }

  /** Every entry of a loaded window maps: it is present, it can be written, and it is a page of 2 MB; it is
      not for user programs, and caching is on. */
  lemma EntriesMap(pd2: seq<Pde>, w: nat, i: nat)
    requires w > 0 && Loaded(pd2, w) && i < 1024
    ensures var lo := pd2[i].lo; Flag(lo, 0) && Flag(lo, 1) && Flag(lo, 7)
    ensures var lo := pd2[i].lo; !Flag(lo, 2) && !Flag(lo, 3) && !Flag(lo, 4)
    ensures pd2[i].lo < FULL
  {
    var m, c := w % 2 * 0x400 + i, 0xE3;
    var bits := 21;
    Pow2Of21(bits);
    EntryBase(w, i);
    assert pd2[i].lo == m * Pow2(bits) + c;
    forall b: nat | b < 8 ensures Flag(pd2[i].lo, b) == Flag(c, b) {
      FlagBelow(m, bits, c, b);
    }
    assert Flag(c, 0) && Flag(c, 1) && Flag(c, 7) && !Flag(c, 2) && !Flag(c, 3) && !Flag(c, 4);
  }

  lemma Pow2Of21(n: nat)
    requires n == 21
    ensures Pow2(n) == 0x20_0000
  {
    assert Pow2(5) == 0x20;
    Pow2Square(5, 0x20);
    Pow2Square(10, 0x400);
    assert Pow2(21) == 2 * Pow2(20);
  }

  /** The mapped address of a page of the loaded window is that page, at every byte. */
  lemma MappingResolves(pd2: seq<Pde>, page: nat, off: nat)
    requires Loaded(pd2, page / WINDOW) && off < 0x1000
    ensures Mapping(page) + off < FULL
    ensures Translate(pd2, Mapping(page) + off) == page * 0x1000 + off
  {
    var w, r := page / WINDOW, page % WINDOW;
    if w == 0 {
      assert page < WINDOW;
    } else {
      assert page >= WINDOW;
      TranslateHigh(pd2, w, r * 0x1000 + off);
    }
  }

  // The virtual pages of one window are as far apart as the physical ones.
  lemma MappingLinear(p: nat, q: nat)
    requires p <= q && p / WINDOW == q / WINDOW
    ensures Mapping(q) == Mapping(p) + (q - p) * 0x1000
  {
    assert q % WINDOW - p % WINDOW == q - p;
  }

  class Pager {
    const pae: bool
    const lm: bool
    const pd2: array<Pde>
    var mappedWin: nat

    // map_page(): load the window of a page.
    method MapPage(page: nat) returns (ok: bool)
      requires pd2.Length == 1024
      modifies this`mappedWin, pd2
      ensures ok <==> page < WINDOW || (pae && (lm || page <= 0x100_0000))
      ensures ok ==> Loaded(pd2[..], page / WINDOW)
      ensures ok && page >= WINDOW ==> mappedWin == page / WINDOW
      ensures !ok || page < WINDOW ==> pd2[..] == old(pd2[..]) && mappedWin == old(mappedWin)
    {
      var win := page / 0x8_0000;
      if win == 0 {
        return true;
      }
      if !pae {
        return false;
      }
      if !lm && page > 0x100_0000 {
        return false;
      }
      for i := 0 to 1024
        invariant forall k :: 0 <= k < i ==> pd2[k] == Entry(win, k)
      {
        pd2[i] := Pde(win % 2 * 0x8000_0000 + i % 0x400 * 0x20_0000 + 0xE3, win / 2);
      }
      mappedWin := win;
      return true;
    }

    // page_of()
    function PageOf(va: nat): nat
      reads this
    {
      var page := va / 0x1000;
      if page >= 0x8_0000 then page % 0x8_0000 + mappedWin * 0x8_0000 else page
    }

    /** The page of every byte of a mapped page is that page, once its window is loaded. */
    lemma PageOfMapping(page: nat, off: nat)
      requires off < 0x1000 && (page >= WINDOW ==> mappedWin == page / WINDOW)
      ensures PageOf(Mapping(page) + off) == page
    {
      assert (Mapping(page) + off) / 0x1000 == Mapping(page) / 0x1000;
    }
  }
}
