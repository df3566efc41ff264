/**
  How the processors of memtest86+ divide a segment (calculate_chunk in payloads/memtest86+/test.c).  The
  segment runs from its first to its last word inclusive; its length in bytes is taken from the difference
  of the two, divided, and rounded up to a multiple of 64 bytes.
 */
module Shares {
  import opened Powers
  import opened MovInv

  // The share of every processor but the last, in words.
  function ShareWords(s: Segment, cpus: nat): nat
    requires s.start <= s.end && cpus > 1
  {
    var bytes := 4 * (s.end - s.start);
    (bytes / cpus + 63) / 64 * 64 / 4
  }

  // The i-th of cpus parts, of w words each but for the last one, which gets what is left.
  function Part(s: Segment, w: nat, cpus: nat, i: nat): Segment
    requires w > 0 && i < cpus
  {
    var start := s.start + w * i;
    Segment(start, if i == cpus - 1 then s.end else start + w - 1)
  }

  // The share of processor i.
  function Share(s: Segment, cpus: nat, i: nat): Segment
    requires s.start <= s.end && i < cpus && (cpus > 1 ==> ShareWords(s, cpus) > 0)
  {
    if cpus == 1 then s else Part(s, ShareWords(s, cpus), cpus, i)
  }

  /** A share is the least multiple of 16 words that is no less than its part of the bytes. */
  lemma ShareWordsLeast(s: Segment, cpus: nat)
    requires s.start <= s.end && cpus > 1
    ensures var w, part := ShareWords(s, cpus), 4 * (s.end - s.start) / cpus;
      w % 16 == 0 && part <= 4 * w < part + 64
  {
    RoundedTo64(4 * (s.end - s.start) / cpus);
  }

  lemma RoundedTo64(x: nat)
    ensures var w := (x + 63) / 64 * 64 / 4; w % 16 == 0 && x <= 4 * w < x + 64
  {
    var q := (x + 63) / 64;
    DivUnique(q * 64, 16 * q, 4, 0);
    DivUnique(16 * q, q, 16, 0);
  }

  // ------------------------------------------------------------------ parts of any size

  // All parts but the last lie in the segment.
  ghost predicate PartsFit(s: Segment, w: nat, cpus: nat) {
    w * (cpus - 1) <= Words(s)
  }

  // Which part a word is in.
  function PartOf(s: Segment, w: nat, cpus: nat, a: nat): (i: nat)
    requires w > 0 && cpus > 0 && Within(s, a)
    ensures i < cpus
  {
    var q := (a - s.start) / w;
    if q < cpus then q else cpus - 1
  }

  lemma Ordered(i: nat, j: nat, w: nat)
    requires i <= j
    ensures w * i <= w * j && (i < j ==> w * i + w <= w * j)
  {
    Distribute(i, j - i, w);
    if i < j {
      AtLeastOnce(j - i, w);
    }
  }

  // Every word of the segment is in its part, and in no other.
  lemma InOnePart(s: Segment, w: nat, cpus: nat, a: nat, i: nat)
    requires w > 0 && i < cpus && Within(s, a)
    ensures Within(Part(s, w, cpus, i), a) <==> i == PartOf(s, w, cpus, a)
  {
    var d := a - s.start;
    Quotient(d, w, i);
    if cpus - 1 < d / w {
      Ordered(cpus - 1, d / w, w);
    }
  }

  lemma Quotient(d: nat, w: nat, i: nat)
    requires w > 0
    ensures w * i <= d < w * i + w <==> d / w == i
    ensures w * i <= d <==> i <= d / w
  {
    var q := d / w;
    assert d == w * q + d % w;
    if i < q {
      Ordered(i, q, w);
    } else if q < i {
      Ordered(q, i, w);
    }
  }

  // A part that fits holds words of the segment only.
  lemma PartInside(s: Segment, w: nat, cpus: nat, a: nat, i: nat)
    requires w > 0 && i < cpus && PartsFit(s, w, cpus) && Within(Part(s, w, cpus, i), a)
    ensures Within(s, a)
  {
    if i < cpus - 1 {
      Ordered(i, cpus - 1, w);
    }
  }

  // The last word of the last part but one is behind the segment when the parts do not fit.
  lemma PartOutside(s: Segment, w: nat, cpus: nat) returns (a: nat)
    requires s.start <= s.end && w > 0 && cpus > 1 && !PartsFit(s, w, cpus)
    ensures Within(Part(s, w, cpus, cpus - 2), a) && !Within(s, a)
  {
    a := s.start + w * (cpus - 2) + (w - 1);
    Distribute(cpus - 2, 1, w);
  }

  // ------------------------------------------------------------------ the shares

  ghost predicate SharesFit(s: Segment, cpus: nat)
    requires s.start <= s.end && cpus > 0
  {
    cpus > 1 ==> PartsFit(s, ShareWords(s, cpus), cpus)
  }

  // Which share a word is in.
  function ShareOf(s: Segment, cpus: nat, a: nat): (i: nat)
    requires s.start <= s.end && cpus > 0 && Within(s, a) && (cpus > 1 ==> ShareWords(s, cpus) > 0)
    ensures i < cpus
  {
    if cpus == 1 then 0 else PartOf(s, ShareWords(s, cpus), cpus, a)
  }

  // Every word is in exactly one share, if it is in the segment, and else in none.
  ghost predicate Partitions(s: Segment, cpus: nat)
    requires s.start <= s.end && cpus > 0 && (cpus > 1 ==> ShareWords(s, cpus) > 0)
  {
    forall a: nat, i: nat :: i < cpus ==>
      (Within(Share(s, cpus, i), a) <==> Within(s, a) && i == ShareOf(s, cpus, a))
  }

  /** The processors divide the words of the segment among them exactly when all shares but the last fit into
      it. */
  lemma SharesPartition(s: Segment, cpus: nat)
    requires s.start <= s.end && cpus > 0 && (cpus > 1 ==> ShareWords(s, cpus) > 0)
    ensures Partitions(s, cpus) <==> SharesFit(s, cpus)
  {
    if SharesFit(s, cpus) {
      forall a: nat, i: nat | i < cpus
        ensures Within(Share(s, cpus, i), a) <==> Within(s, a) && i == ShareOf(s, cpus, a)
      {
        if cpus > 1 {
          var w := ShareWords(s, cpus);
          if Within(Part(s, w, cpus, i), a) {
            PartInside(s, w, cpus, a, i);
          }
          if Within(s, a) {
            InOnePart(s, w, cpus, a, i);
          }
        }
      }
    } else {
      var a := PartOutside(s, ShareWords(s, cpus), cpus);
      assert Within(Share(s, cpus, cpus - 2), a) && !Within(s, a);
    }
  }

  /** A segment of more than 16 words for every ordered pair of processors is large enough. */
  lemma LargeSegmentsFit(s: Segment, cpus: nat)
    requires s.start <= s.end && cpus > 1 && Words(s) > 16 * (cpus * (cpus - 1))
    ensures ShareWords(s, cpus) > 0 && SharesFit(s, cpus)
  {
    ShareWordsLeast(s, cpus);
    LargeEnough(4 * (s.end - s.start), cpus - 1, ShareWords(s, cpus));
  }

  lemma LargeEnough(bytes: nat, n: nat, w: nat)
    requires n > 0 && bytes >= 64 * ((n + 1) * n) && bytes / (n + 1) <= 4 * w < bytes / (n + 1) + 64
    ensures w > 0 && w * n <= bytes / 4 + 1
  {
    var part := bytes / (n + 1);
    assert 64 * ((n + 1) * n) == (64 * n) * (n + 1);
    Quotient(bytes, n + 1, 64 * n);
    assert part >= 64 * n;
    assert bytes >= part * (n + 1);
    Distribute(n, 1, part);
    ScaledBound(4 * w, part + 63, n);
    Distribute(part, 63, n);
  }

  lemma ScaledBound(x: nat, y: nat, n: nat)
    requires x <= y
    ensures x * n <= y * n
  {
  }

  /** One page is not, for twelve processors: the eleventh runs 32 words past its end. */
  lemma PageForTwelve(s: Segment)
    requires s.end - s.start == 1023
    ensures ShareWords(s, 12) == 96 && !SharesFit(s, 12) && Share(s, 12, 10).end == s.end + 32
  {
    assert 4 * (s.end - s.start) == 4092;
  }

  lemma ShareOfTwoPages(s: Segment)
    requires s.end - s.start == 2047
    ensures ShareWords(s, 3) == 688 && Words(Share(s, 3, 0)) % 32 == 16
  {
    assert 4 * (s.end - s.start) == 8188;
  }

  /** Rounding to 16 words is not enough for movinv32: of two segments of two pages each, the first of three
      processors gets odd multiples of 16 words, and MovInv32 then reports errors on good memory. */
  lemma SharesOutOfStep(s: Segment, t: Segment)
    requires s.end - s.start == 2047 && t.end - t.start == 2047
    ensures ShareWords(s, 3) == 688 && ShareWords(t, 3) == 688
    ensures !Even([Share(s, 3, 0), Share(t, 3, 0)], 0)
  {
    ShareOfTwoPages(s);
    ShareOfTwoPages(t);
    assert [Share(s, 3, 0), Share(t, 3, 0)][0] == Share(s, 3, 0);
  }
}
