/**
  The windows that a test of memtest86+ runs through (test_start and compute_segments in
  payloads/memtest86+/main.c): which pages end up in some segment, and which physical memory the
  segments' addresses reach while they are tested.
 */
module TestWindows {
  import opened Powers
  import opened VirtualMemory

  const MAX_MEM: nat := 0x7FF0_0000
  const WIN0_START: nat := 0x100

  // A range of pages.
  datatype Range = Range(start: nat, end: nat)

  // A segment of v->map: its first page, and its first and last word as virtual addresses.
  datatype Segment = Segment(pbase: nat, start: nat, end: nat)

  // The memory map and the limits.
  datatype Setup = Setup(pmap: seq<Range>, lower: nat, upper: nat)

  // The last range of the map ends highest, and nothing overflows.
  ghost predicate Mapped(s: Setup) {
    && s.pmap != []
    && forall i :: 0 <= i < |s.pmap| ==> s.pmap[i].end <= s.pmap[|s.pmap| - 1].end
  }

  ghost predicate Selected(s: Setup, x: nat) {
    s.lower <= x < s.upper && exists i :: 0 <= i < |s.pmap| && s.pmap[i].start <= x < s.pmap[i].end
  }

  // The word at physical address y is in a selected page.
  ghost predicate Wanted(s: Setup, y: nat) {
    y % 4 == 0 && Selected(s, y / 0x1000)
  }

  // Segment g holds a word that the page tables pd2 take to the physical address y.
  ghost predicate Reaches(pd2: seq<Pde>, g: Segment, y: nat)
    requires |pd2| == 1024
  {
    exists va: nat :: g.start <= va <= g.end && va % 4 == 0 && va < FULL && Translate(pd2, va) == y
  }

  // The word at physical address y is tested by a round whose segments are segs.
  ghost predicate Tested(pd2: seq<Pde>, segs: seq<Segment>, y: nat)
    requires |pd2| == 1024
  {
    exists j :: 0 <= j < |segs| && Reaches(pd2, segs[j], y)
  }

  function Max(a: nat, b: nat): nat { if a < b then b else a }
  function Min(a: nat, b: nat): nat { if a < b then a else b }

  // What of range r is tested in [wstart, wend).
  function Clip(r: Range, wstart: nat, wend: nat): Range {
    Range(Max(r.start, wstart), Min(r.end, wend))
  }

  function SegmentOf(r: Range): Segment
    requires r.start < r.end
  {
    Segment(r.start, Mapping(r.start), Emapping(r.end))
  }

  // The segments of the first n ranges.
  ghost function Segments(pmap: seq<Range>, wstart: nat, wend: nat, n: nat): seq<Segment>
    requires n <= |pmap|
  {
    if n == 0 then []
    else
      var c := Clip(pmap[n - 1], wstart, wend);
      Segments(pmap, wstart, wend, n - 1) + if c.start < c.end then [SegmentOf(c)] else []
  }

  // Byte off of page x.
  lemma AddressParts(x: nat, off: nat)
    requires off < 0x1000
    ensures (x * 0x1000 + off) / 0x1000 == x && (x * 0x1000 + off) % 4 == off % 4
  {
    DivUnique(x * 0x1000 + off, x, 0x1000, off);
    ModAddMultiple(off, x * 0x400, 4);
  }

  // The virtual page of a page.
  function VirtualPage(page: nat): (k: nat)
    ensures Mapping(page) == k * 0x1000
  {
    if page < WINDOW then page else page % WINDOW + WINDOW
  }

  // Inside one window, a segment is as many virtual pages as physical ones, through their last word.
  lemma SegmentBounds(r: Range, w: nat)
    requires w * WINDOW <= r.start < r.end <= (w + 1) * WINDOW
    ensures var k := VirtualPage(r.start); var g := SegmentOf(r);
      g.start == k * 0x1000 && g.end == (k + (r.end - 1 - r.start)) * 0x1000 + 0xFFC
  {
    InWindow(r.start, w);
    InWindow(r.end - 1, w);
    MappingLinear(r.start, r.end - 1);
  }

  // And byte off of its i-th page is reached at byte off of its i-th virtual page.
  lemma PageLed(pd2: seq<Pde>, r: Range, w: nat, i: nat, off: nat)
    requires Loaded(pd2, w) && w * WINDOW <= r.start && r.start + i < r.end <= (w + 1) * WINDOW && off < 0x1000
    ensures var va := (VirtualPage(r.start) + i) * 0x1000 + off;
      va < FULL && Translate(pd2, va) == (r.start + i) * 0x1000 + off
  {
    InWindow(r.start, w);
    InWindow(r.start + i, w);
    MappingLinear(r.start, r.start + i);
    MappingResolves(pd2, r.start + i, off);
  }

  // The page and the byte of virtual address va, counted from virtual page k.
  lemma Located(k: nat, n: nat, va: nat) returns (i: nat, off: nat)
    requires n > 0 && k * 0x1000 <= va <= (k + (n - 1)) * 0x1000 + 0xFFC
    ensures i < n && off < 0x1000 && va == (k + i) * 0x1000 + off
  {
    i, off := va / 0x1000 - k, va % 0x1000;
  }

  /** Inside one window, a segment reaches exactly the words of its pages. */
  lemma ReachesExactly(pd2: seq<Pde>, r: Range, w: nat, y: nat)
    requires Loaded(pd2, w) && w * WINDOW <= r.start < r.end <= (w + 1) * WINDOW
    ensures Reaches(pd2, SegmentOf(r), y) <==> y % 4 == 0 && r.start <= y / 0x1000 < r.end
  {
    if y % 4 == 0 && r.start <= y / 0x1000 < r.end {
      WordLed(pd2, r, w, y);
    }
    if Reaches(pd2, SegmentOf(r), y) {
      WordLeads(pd2, r, w, y);
    }
  }

  lemma WordLed(pd2: seq<Pde>, r: Range, w: nat, y: nat)
    requires Loaded(pd2, w) && w * WINDOW <= r.start < r.end <= (w + 1) * WINDOW
    requires y % 4 == 0 && r.start <= y / 0x1000 < r.end
    ensures Reaches(pd2, SegmentOf(r), y)
  {
    var x, off := y / 0x1000, y % 0x1000;
    var k, i := VirtualPage(r.start), x - r.start;
    var va := (k + i) * 0x1000 + off;
    AddressParts(x, off);
    AddressParts(k + i, off);
    LastWord(off);
    SegmentBounds(r, w);
    PageLed(pd2, r, w, i, off);
    assert SegmentOf(r).start <= va <= SegmentOf(r).end;
  }

  lemma LastWord(off: nat)
    requires off < 0x1000 && off % 4 == 0
    ensures off <= 0xFFC
  {
  }

  lemma WordLeads(pd2: seq<Pde>, r: Range, w: nat, y: nat)
    requires Loaded(pd2, w) && w * WINDOW <= r.start < r.end <= (w + 1) * WINDOW
    requires Reaches(pd2, SegmentOf(r), y)
    ensures y % 4 == 0 && r.start <= y / 0x1000 < r.end
  {
    var va: nat :| SegmentOf(r).start <= va <= SegmentOf(r).end && va % 4 == 0 && va < FULL && Translate(pd2, va) == y;
    var k := VirtualPage(r.start);
    SegmentBounds(r, w);
    var i, off := Located(k, r.end - r.start, va);
    PageLed(pd2, r, w, i, off);
    AddressParts(k + i, off);
    AddressParts(r.start + i, off);
  }

  /** The end of a segment is its last word: from its start through that word it is as long as its pages. */
  lemma SegmentSize(r: Range, w: nat)
    requires w * WINDOW <= r.start < r.end <= (w + 1) * WINDOW
    ensures SegmentOf(r).end + 4 - SegmentOf(r).start == (r.end - r.start) * 0x1000
    ensures SegmentOf(r).start % 0x1000 == 0 && SegmentOf(r).end % 4 == 0
  {
    var k := VirtualPage(r.start);
    SegmentBounds(r, w);
    DivUnique(k * 0x1000, k, 0x1000, 0);
    AddressParts(k + (r.end - 1 - r.start), 0xFFC);
  }

  lemma InWindow(x: nat, w: nat)
    requires w * WINDOW <= x < (w + 1) * WINDOW
    ensures x / WINDOW == w
  {
  }

  ghost predicate InSome(pmap: seq<Range>, n: nat, wstart: nat, wend: nat, x: nat)
    requires n <= |pmap|
  {
    wstart <= x < wend && exists i :: 0 <= i < n && pmap[i].start <= x < pmap[i].end
  }

  /** The segments of a window reach exactly the words of the selected pages. */
  lemma {:induction false} SegmentsExact(pd2: seq<Pde>, pmap: seq<Range>, wstart: nat, wend: nat, n: nat, w: nat, y: nat)
    requires n <= |pmap| && Loaded(pd2, w) && w * WINDOW <= wstart < wend <= (w + 1) * WINDOW
    ensures Tested(pd2, Segments(pmap, wstart, wend, n), y) <==>
      y % 4 == 0 && InSome(pmap, n, wstart, wend, y / 0x1000)
  {
    if n > 0 {
      var before := Segments(pmap, wstart, wend, n - 1);
      var c := Clip(pmap[n - 1], wstart, wend);
      SegmentsExact(pd2, pmap, wstart, wend, n - 1, w, y);
      InSomeStep(pmap, n, wstart, wend, y / 0x1000);
      if c.start < c.end {
        ReachesExactly(pd2, c, w, y);
        TestedAppend(pd2, before, SegmentOf(c), y);
      } else {
        assert before + [] == before;
      }
    }
  }

  lemma InSomeStep(pmap: seq<Range>, n: nat, wstart: nat, wend: nat, x: nat)
    requires 0 < n <= |pmap|
    ensures var c := Clip(pmap[n - 1], wstart, wend);
      InSome(pmap, n, wstart, wend, x) <==> InSome(pmap, n - 1, wstart, wend, x) || c.start <= x < c.end
  {
    var r := pmap[n - 1];
    if InSome(pmap, n, wstart, wend, x) && !(r.start <= x < r.end) {
      var i :| 0 <= i < n && pmap[i].start <= x < pmap[i].end;
      assert i < n - 1;
    }
    if r.start <= x < r.end && wstart <= x < wend {
      assert 0 <= n - 1 < n && pmap[n - 1].start <= x < pmap[n - 1].end;
    }
  }

  lemma TestedAppend(pd2: seq<Pde>, segs: seq<Segment>, g: Segment, y: nat)
    requires |pd2| == 1024
    ensures Tested(pd2, segs + [g], y) <==> Tested(pd2, segs, y) || Reaches(pd2, g, y)
  {
    var all := segs + [g];
    if Tested(pd2, segs, y) {
      var j :| 0 <= j < |segs| && Reaches(pd2, segs[j], y);
      assert all[j] == segs[j];
    }
    if Reaches(pd2, g, y) {
      assert all[|segs|] == g;
    }
    if Tested(pd2, all, y) {
      var j :| 0 <= j < |all| && Reaches(pd2, all[j], y);
      assert all[j] == if j < |segs| then segs[j] else g;
    }
  }

  /** compute_segments() */
  method ComputeSegments(s: Setup, win: Range) returns (map_: seq<Segment>)
    ensures var wstart, wend := Max(win.start, s.lower), Min(win.end, s.upper);
      map_ == if wstart >= wend then [] else Segments(s.pmap, wstart, wend, |s.pmap|)
  {
    var wstart, wend := win.start, win.end;
    map_ := [];
    if wstart < s.lower {
      wstart := s.lower;
    }
    if wend > s.upper {
      wend := s.upper;
    }
    if wstart >= wend {
      return;
    }
    for i := 0 to |s.pmap|
      invariant map_ == Segments(s.pmap, wstart, wend, i)
    {
      var start, end := s.pmap[i].start, s.pmap[i].end;
      if start <= wstart {
        start := wstart;
      }
      if end >= wend {
        end := wend;
      }
      if start < end && start < wend && end > wstart {
        map_ := map_ + [Segment(start, Mapping(start), Emapping(end))];
      }
    }
  }

  // ------------------------------------------------------------------ the rounds of a test

  // The page tables and the segments while one window is tested.
  datatype Round = Round(pd2: seq<Pde>, segs: seq<Segment>)

  ghost predicate Touched(rounds: seq<Round>, y: nat) {
    exists r :: 0 <= r < |rounds| && |rounds[r].pd2| == 1024 && Tested(rounds[r].pd2, rounds[r].segs, y)
  }

  lemma TouchedAppend(rounds: seq<Round>, r: Round, y: nat)
    requires |r.pd2| == 1024
    ensures Touched(rounds + [r], y) <==> Touched(rounds, y) || Tested(r.pd2, r.segs, y)
  {
    var all := rounds + [r];
    if Touched(rounds, y) {
      var i :| 0 <= i < |rounds| && |rounds[i].pd2| == 1024 && Tested(rounds[i].pd2, rounds[i].segs, y);
      assert all[i] == rounds[i];
    }
    if Tested(r.pd2, r.segs, y) {
      assert all[|rounds|] == r;
    }
    if Touched(all, y) {
      var i :| 0 <= i < |all| && |all[i].pd2| == 1024 && Tested(all[i].pd2, all[i].segs, y);
      assert all[i] == if i < |rounds| then rounds[i] else r;
    }
  }

  // What compute_segments() makes of a window.
  ghost function WindowSegments(s: Setup, win: Range): seq<Segment> {
    var wstart, wend := Max(win.start, s.lower), Min(win.end, s.upper);
    if wstart >= wend then [] else Segments(s.pmap, wstart, wend, |s.pmap|)
  }

  // A window of the loop inside a window of the page tables: it tests exactly the words of its selected pages.
  lemma RoundExact(pd2: seq<Pde>, s: Setup, win: Range, w: nat, y: nat)
    requires Loaded(pd2, w) && w * WINDOW <= win.start && win.end <= (w + 1) * WINDOW
    ensures Tested(pd2, WindowSegments(s, win), y) <==> Wanted(s, y) && win.start <= y / 0x1000 < win.end
  {
    var wstart, wend := Max(win.start, s.lower), Min(win.end, s.upper);
    if wstart < wend {
      SegmentsExact(pd2, s.pmap, wstart, wend, |s.pmap|, w, y);
    }
  }

  // A window without segments has no selected pages.
  lemma NoSegments(s: Setup, win: Range, w: nat, x: nat)
    requires w * WINDOW <= win.start && win.end <= (w + 1) * WINDOW && WindowSegments(s, win) == []
    ensures !(Selected(s, x) && win.start <= x < win.end)
  {
    var pd2 := seq(1024, i requires 0 <= i < 1024 => Entry(w, i));
    AddressParts(x, 0);
    RoundExact(pd2, s, win, w, x * 0x1000 + 0);
  }

  // Range i is the first of which something is tested in [wstart, wend).
  ghost predicate FirstRange(pmap: seq<Range>, wstart: nat, wend: nat, n: nat, i: nat)
    requires n <= |pmap|
  {
    i < n && Clip(pmap[i], wstart, wend).start < Clip(pmap[i], wstart, wend).end
    && forall k :: 0 <= k < i ==> Clip(pmap[k], wstart, wend).start >= Clip(pmap[k], wstart, wend).end
  }

  // The first segment begins with the first tested page of that range.
  lemma {:induction false} FirstPage(pmap: seq<Range>, wstart: nat, wend: nat, n: nat) returns (i: nat)
    requires n <= |pmap| && Segments(pmap, wstart, wend, n) != []
    ensures FirstRange(pmap, wstart, wend, n, i)
    ensures Segments(pmap, wstart, wend, n)[0].pbase == Max(pmap[i].start, wstart)
  {
    var before := Segments(pmap, wstart, wend, n - 1);
    if before != [] {
      i := FirstPage(pmap, wstart, wend, n - 1);
    } else {
      i := n - 1;
      NoneBefore(pmap, wstart, wend, n - 1);
    }
  }

  lemma {:induction false} NoneBefore(pmap: seq<Range>, wstart: nat, wend: nat, n: nat)
    requires n <= |pmap| && Segments(pmap, wstart, wend, n) == []
    ensures forall k :: 0 <= k < n ==> Clip(pmap[k], wstart, wend).start >= Clip(pmap[k], wstart, wend).end
  {
    if n > 0 {
      NoneBefore(pmap, wstart, wend, n - 1);
    }
  }

  /** The page that is mapped for a window is the first selected one of the first range that has any there. */
  lemma FirstSelected(s: Setup, win: Range) returns (i: nat)
    requires WindowSegments(s, win) != []
    ensures var y, wstart, wend := WindowSegments(s, win)[0].pbase, Max(win.start, s.lower), Min(win.end, s.upper);
      && FirstRange(s.pmap, wstart, wend, |s.pmap|, i) && y == Max(s.pmap[i].start, wstart)
      && Selected(s, y) && win.start <= y < win.end
  {
    i := FirstPage(s.pmap, Max(win.start, s.lower), Min(win.end, s.upper), |s.pmap|);
  }

  ghost predicate Mappable(p: Pager, y: nat) {
    y < WINDOW || (p.pae && (p.lm || y <= 0x100_0000))
  }

  // Nothing of the window is selected, or the first page of its first segment can be mapped: that is all
  // that map_page() is asked.
  ghost predicate Opens(p: Pager, s: Setup, win: Range) {
    WindowSegments(s, win) != [] ==> Mappable(p, WindowSegments(s, win)[0].pbase)
  }

  // The w-th window of 2 GB.
  function Window(w: nat): Range {
    Range(w * WINDOW, (w + 1) * WINDOW)
  }

  // The first n windows above the first 2 GB open.
  ghost predicate OpenUpTo(p: Pager, s: Setup, n: nat) {
    forall w: nat :: 1 <= w < n ==> Opens(p, s, Window(w))
  }

  // The windows that the loop may come to: those up to MAX_MEM.
  const WINDOWS: nat := 4095

  // The words of the selected pages below upto are tested, and no others.
  ghost predicate DoneBelow(s: Setup, rounds: seq<Round>, upto: nat) {
    forall y: nat :: Touched(rounds, y) <==> Wanted(s, y) && y / 0x1000 < upto
  }

  // Where the loop stands: window 0 is the low memory that is tested from the relocated copy, window 1
  // the rest of the first 2 GB, and every later one starts where the one before ended.
  ghost predicate Progress(s: Setup, rounds: seq<Round>, window: nat, winNext: nat) {
    && winNext % WINDOW == 0
    && (window == 0 ==> winNext == 0 && rounds == [])
    && (window == 1 ==> winNext == 0 && forall y: nat ::
          (Touched(rounds, y) ==> Wanted(s, y) && y / 0x1000 < WINDOW)
          && (Wanted(s, y) && y / 0x1000 < WIN0_START ==> Touched(rounds, y)))
    && (window >= 2 ==> winNext > 0 && DoneBelow(s, rounds, winNext))
  }

  // The window the loop tests next.
  function NextWindow(window: nat, winNext: nat, win1End: nat): Range {
    if window == 0 then Range(0, win1End)
    else if window == 1 then Range(WIN0_START, WINDOW)
    else Range(winNext, winNext + WINDOW)
  }

  // One window done, and the loop's variables moved on.
  lemma ProgressStep(s: Setup, rounds: seq<Round>, now: seq<Round>, window: nat, winNext: nat, win1End: nat)
    requires Progress(s, rounds, window, winNext) && WIN0_START <= win1End <= WINDOW
    requires Adds(s, rounds, now, NextWindow(window, winNext, win1End))
    ensures Progress(s, now, if window < 2 then window + 1 else window, if window == 0 then 0 else winNext + WINDOW)
  {
  }

  // What one window adds.
  ghost predicate Adds(s: Setup, rounds: seq<Round>, now: seq<Round>, win: Range) {
    forall y: nat :: Touched(now, y) <==> Touched(rounds, y) || (Wanted(s, y) && win.start <= y / 0x1000 < win.end)
  }

  lemma RoundAdds(s: Setup, rounds: seq<Round>, r: Round, win: Range, w: nat)
    requires Loaded(r.pd2, w) && w * WINDOW <= win.start && win.end <= (w + 1) * WINDOW
    requires r.segs == WindowSegments(s, win)
    ensures Adds(s, rounds, rounds + [r], win)
  {
    forall y: nat
      ensures Touched(rounds + [r], y) <==>
        Touched(rounds, y) || (Wanted(s, y) && win.start <= y / 0x1000 < win.end)
    {
      TouchedAppend(rounds, r, y);
      RoundExact(r.pd2, s, win, w, y);
    }
  }

  lemma EmptyAdds(s: Setup, rounds: seq<Round>, win: Range, w: nat)
    requires w * WINDOW <= win.start && win.end <= (w + 1) * WINDOW && WindowSegments(s, win) == []
    ensures Adds(s, rounds, rounds, win)
  {
    forall y: nat ensures !(Wanted(s, y) && win.start <= y / 0x1000 < win.end) {
      NoSegments(s, win, w, y / 0x1000);
    }
  }

  // Load the window of the segments and test them.
  method TestWindow(p: Pager, s: Setup, win: Range, ghost w: nat, ghost rounds: seq<Round>)
    returns (ok: bool, ghost now: seq<Round>)
    requires p.pd2.Length == 1024 && w * WINDOW <= win.start && win.end <= (w + 1) * WINDOW
    modifies p`mappedWin, p.pd2
    ensures ok <==> Opens(p, s, win)
    ensures ok ==> Adds(s, rounds, now, win)
    ensures !ok ==> now == rounds
  {
    now := rounds;
    var segs := ComputeSegments(s, win);
    assert segs == WindowSegments(s, win);
    if segs == [] {
      EmptyAdds(s, rounds, win, w);
      return true, now;
    }
    ghost var i := FirstSelected(s, win);
    var y := segs[0].pbase;
    InWindow(y, w);
    ok := p.MapPage(y);
    if ok {
      now := rounds + [Round(p.pd2[..], segs)];
      RoundAdds(s, rounds, Round(p.pd2[..], segs), win, w);
    }
  }

  /** The window loop of test_start().  Exactly the words of the selected pages below upto are
      tested.  That is every selected page below MAX_MEM and one window more exactly when the first page of
      the first segment of every window can be mapped; otherwise upto is the start of the first window where
      it cannot. */
  method TestAllWindows(p: Pager, s: Setup, win1End: nat) returns (upto: nat, ghost rounds: seq<Round>)
    requires p.pd2.Length == 1024 && Mapped(s) && WIN0_START <= win1End <= WINDOW
    modifies p`mappedWin, p.pd2
    ensures DoneBelow(s, rounds, upto) && upto <= MAX_MEM + WINDOW
    ensures Complete(s, upto) <==> OpenUpTo(p, s, WINDOWS)
    ensures Complete(s, upto) || StopsAt(p, s, upto)
    ensures p.pae && p.lm ==> DoneBelow(s, rounds, MAX_MEM + WINDOW)
  {
    rounds := [];
    var window, winNext := 0, 0;
    ghost var w := 0;
    while winNext <= s.pmap[|s.pmap| - 1].end + WINDOW
      invariant Progress(s, rounds, window, winNext) && winNext == w * WINDOW
      invariant winNext <= MAX_MEM + WINDOW && OpenUpTo(p, s, w)
      decreases MAX_MEM + WINDOW - winNext, 2 - window
    {
      if winNext > MAX_MEM {
        break;
      }
      if window == 0 && s.lower >= WIN0_START {
        window := window + 1;
      }
      var win := NextWindow(window, winNext, win1End);
      ghost var before := rounds;
      var ok;
      ok, rounds := TestWindow(p, s, win, w, rounds);
      if !ok {
        Stopped(p, s, rounds, window, w, win1End);
        return winNext, rounds;
      }
      ProgressStep(s, before, rounds, window, winNext, win1End);
      if window != 0 {
        winNext := winNext + WINDOW;
        w := w + 1;
      }
      if window < 2 {
        window := window + 1;
      }
    }
    AllDone(s, winNext);
    CompleteOpens(p, s, w);
    return winNext, rounds;
  }

  // Every selected page that the loop's bound lets it reach is below upto.
  ghost predicate Complete(s: Setup, upto: nat) {
    forall x: nat :: Selected(s, x) && x < MAX_MEM + WINDOW ==> x < upto
  }

  lemma AllDone(s: Setup, winNext: nat)
    requires Mapped(s) && (winNext > s.pmap[|s.pmap| - 1].end + WINDOW || winNext >= MAX_MEM + WINDOW)
    ensures Complete(s, winNext)
  {
  }

  // The w-th window is the first that does not open.
  ghost predicate StopsAt(p: Pager, s: Setup, upto: nat) {
    exists w: nat :: 1 <= w < WINDOWS && upto == w * WINDOW && OpenUpTo(p, s, w) && !Opens(p, s, Window(w))
  }

  // A window that does not open has a selected page.
  lemma ClosedHasPage(p: Pager, s: Setup, win: Range) returns (y: nat)
    requires !Opens(p, s, win)
    ensures Selected(s, y) && win.start <= y < win.end && !Mappable(p, y)
  {
    var i := FirstSelected(s, win);
    y := WindowSegments(s, win)[0].pbase;
  }

  // The first 2 GB need no mapping, so the loop can only stop in a later window.
  lemma Stopped(p: Pager, s: Setup, rounds: seq<Round>, window: nat, w: nat, win1End: nat)
    requires Progress(s, rounds, window, w * WINDOW) && win1End <= WINDOW && OpenUpTo(p, s, w) && w < WINDOWS
    requires !Opens(p, s, NextWindow(window, w * WINDOW, win1End))
    ensures window >= 2 && DoneBelow(s, rounds, w * WINDOW)
    ensures StopsAt(p, s, w * WINDOW) && !Complete(s, w * WINDOW) && !OpenUpTo(p, s, WINDOWS)
    ensures !(p.pae && p.lm)
  {
    var y := ClosedHasPage(p, s, NextWindow(window, w * WINDOW, win1End));
    assert NextWindow(window, w * WINDOW, win1End) == Window(w);
    assert !Opens(p, s, Window(w));
  }

  // When all pages are below, no window above has any, and the others have opened.
  lemma CompleteOpens(p: Pager, s: Setup, n: nat)
    requires Complete(s, n * WINDOW) && OpenUpTo(p, s, n)
    ensures OpenUpTo(p, s, WINDOWS)
  {
    forall w: nat | 1 <= w < WINDOWS ensures Opens(p, s, Window(w)) {
      if w >= n && !Opens(p, s, Window(w)) {
        var y := ClosedHasPage(p, s, Window(w));
      }
    }
  }
}
