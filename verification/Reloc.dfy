/**
  Self-relocation of memtest86+ (payloads/memtest86+/reloc.c): the program moves itself and fixes its
  own image up in place, each time from the address it was last fixed up for.  Relocation types and
  the values they stand for are those of the System V ABI, Intel386 supplement, chapter 4,
  "Relocation".  The image is linked at address 0 and is indexed here by link-time offset.
 */
module Reloc {
  const MOD: int := 0x1_0000_0000

  type byte = x: int | 0 <= x < 256
  type word = x: int | 0 <= x < MOD

  // Other stands for the types the switch has no case for: its default does nothing.
  datatype Kind = NoReloc | Relative | GlobDat | JmpSlot | Abs32 | Pc32 | Other
  datatype Rel = Rel(offset: nat, kind: Kind, sym: nat)
  datatype Sym = Sym(value: word, undefined: bool)

  // 32-bit arithmetic.
  function Wrap(x: int): word {
    x % MOD
  }

  lemma WrapBy(x: int, y: int, k: int)
    requires x == y + MOD * k
    ensures Wrap(x) == Wrap(y)
  {
  }

  lemma WrapApart(x: int) returns (k: int)
    ensures x == Wrap(x) + MOD * k
  {
    k := x / MOD;
  }

  lemma WrapAdd(x: int, y: int)
    ensures Wrap(Wrap(x) + y) == Wrap(x + y)
  {
    var k := WrapApart(x);
    WrapBy(Wrap(x) + y, x + y, -k);
  }

  lemma WrapShift(x: int, d: int)
    ensures Wrap(x + d) == Wrap(x) <==> Wrap(d) == 0
  {
    var i := WrapApart(x);
    var j := WrapApart(x + d);
    var k := WrapApart(d);
    if Wrap(d) == 0 {
      WrapBy(x + d, x, k);
    }
    if Wrap(x + d) == Wrap(x) {
      WrapBy(d, 0, j - i);
    }
  }

  // ------------------------------------------------------------------ one word

  // What elf_machine_rel() leaves in the word w when the image moves from ll to l.
  function Fix(r: Rel, s: Sym, w: word, l: word, ll: word): word {
    var lsAddr := if s.undefined then 0 else ll;
    var sAddr := if s.undefined then 0 else l;
    match r.kind
    case Relative => Wrap(w + (l - ll))
    case GlobDat => Wrap(sAddr + s.value)
    case JmpSlot => Wrap(sAddr + s.value)
    case Abs32 =>
      var first := if ll == 0 then Wrap(w + s.value) else w;
      Wrap(first + (sAddr - lsAddr))
    case Pc32 =>
      var first := if ll == 0 then Wrap(w + (s.value - r.offset)) else w;
      Wrap(first + ((sAddr - l) - (lsAddr - ll)))
    case NoReloc => w
    case Other => w
  }

  // The ABI's formula: A is the addend the link editor left, B the base, S the symbol's address, P the
  // address of the word itself.
  function Formula(r: Rel, s: Sym, a: int, b: int): int {
    var symbol := s.value + if s.undefined then 0 else b;
    match r.kind
    case Relative => b + a
    case GlobDat => symbol
    case JmpSlot => symbol
    case Abs32 => symbol + a
    case Pc32 => symbol + a - (b + r.offset)
    case NoReloc => a
    case Other => a
  }

  // What a word gains each time the image leaves address 0 again: the code takes a last load address of
  // 0 for the first call and adds the symbol once more.
  function Drift(r: Rel, s: Sym): int {
    match r.kind
    case Abs32 => s.value
    case Pc32 => s.value - r.offset
    case _ => 0
  }

  // n times d
  function Times(n: nat, d: int): int {
    if n == 0 then 0 else Times(n - 1, d) + d
  }

  function Last(loads: seq<word>): word {
    if loads == [] then 0 else loads[|loads| - 1]
  }

  function Init(loads: seq<word>): seq<word>
    requires loads != []
  {
    loads[..|loads| - 1]
  }

  function Zeros(loads: seq<word>): nat {
    if loads == [] then 0 else Zeros(Init(loads)) + if Last(loads) == 0 then 1 else 0
  }

  // A word after the image was fixed up for each address in turn, from the addend a.
  function FixAll(r: Rel, s: Sym, a: word, loads: seq<word>): word {
    if loads == [] then a
    else Fix(r, s, FixAll(r, s, a, Init(loads)), Last(loads), Last(Init(loads)))
  }

  // What the types that add to the word add in one step.
  function Step(r: Rel, s: Sym, l: word, ll: word): int {
    var again := if ll == 0 then Drift(r, s) else 0;
    match r.kind
    case Relative => l - ll
    case Abs32 => again + if s.undefined then 0 else l - ll
    case Pc32 => again + if s.undefined then ll - l else 0
    case _ => 0
  }

  lemma AddTwice(w: word, x: int, y: int)
    ensures Wrap(Wrap(w + x) + y) == Wrap(w + (x + y))
  {
    WrapAdd(w + x, y);
  }

  ghost predicate Sets(r: Rel) {
    r.kind.GlobDat? || r.kind.JmpSlot?
  }

  lemma FixIsStep(r: Rel, s: Sym, w: word, l: word, ll: word)
    ensures Fix(r, s, w, l, ll) == if Sets(r) then Wrap(Formula(r, s, w, l)) else Wrap(w + Step(r, s, l, ll))
  {
    match r.kind
    case Abs32 => AddTwice(w, s.value, if s.undefined then 0 else l - ll);
    case Pc32 => AddTwice(w, s.value - r.offset, if s.undefined then ll - l else 0);
    case _ =>
  }

  lemma FormulaSteps(r: Rel, s: Sym, a: word, l: word, ll: word, n: nat)
    requires !Sets(r)
    ensures Formula(r, s, a, l) == a + Step(r, s, l, 0)
    ensures Formula(r, s, a, l) + Times(if ll == 0 then n + 1 else n, Drift(r, s))
         == Formula(r, s, a, ll) + Times(n, Drift(r, s)) + Step(r, s, l, ll)
  {
  }

  lemma {:induction false} NoDrift(n: nat)
    ensures Times(n, 0) == 0
  {
    if n > 0 {
      NoDrift(n - 1);
    }
  }

  lemma FirstFix(r: Rel, s: Sym, a: word, l: word)
    ensures Fix(r, s, a, l, 0) == Wrap(Formula(r, s, a, l))
  {
    FixIsStep(r, s, a, l, 0);
    if !Sets(r) {
      FormulaSteps(r, s, a, l, 0, 0);
    }
  }

  // One more move, on the exact value the word stands for.
  lemma NextFix(r: Rel, s: Sym, a: word, l: word, ll: word, n: nat, w: word)
    requires w == Wrap(Formula(r, s, a, ll) + Times(n, Drift(r, s)))
    ensures Fix(r, s, w, l, ll) == Wrap(Formula(r, s, a, l) + Times(if ll == 0 then n + 1 else n, Drift(r, s)))
  {
    FixIsStep(r, s, w, l, ll);
    if Sets(r) {
      NoDrift(if ll == 0 then n + 1 else n);
    } else {
      FormulaSteps(r, s, a, l, ll, n);
      WrapAdd(Formula(r, s, a, ll) + Times(n, Drift(r, s)), Step(r, s, l, ll));
    }
  }

  // The ABI's formula at the last load address, off by the drift for every 0 among the earlier ones.
  function Settled(r: Rel, s: Sym, a: word, loads: seq<word>): word
    requires loads != []
  {
    Wrap(Formula(r, s, a, Last(loads)) + Times(Zeros(Init(loads)), Drift(r, s)))
  }

  /** After any sequence of load addresses a word is the ABI's formula at the last one, off by the drift
      for every 0 among the earlier ones. */
  lemma {:induction false} FixAllFormula(r: Rel, s: Sym, a: word, loads: seq<word>)
    requires loads != []
    ensures FixAll(r, s, a, loads) == Settled(r, s, a, loads)
  {
    var before := Init(loads);
    if before == [] {
      FirstFix(r, s, a, Last(loads));
    } else {
      FixAllFormula(r, s, a, before);
      NextFix(r, s, a, Last(loads), Last(before), Zeros(Init(before)), FixAll(r, s, a, before));
    }
  }

  ghost predicate NoDriftAt(r: Rel, s: Sym, loads: seq<word>)
    requires loads != []
  {
    Wrap(Times(Zeros(Init(loads)), Drift(r, s))) == 0
  }

  lemma NothingDrifts(r: Rel, s: Sym, loads: seq<word>)
    requires loads != [] && Drift(r, s) == 0
    ensures NoDriftAt(r, s, loads)
  {
    NoDrift(Zeros(Init(loads)));
  }

  lemma FixAllAgrees(r: Rel, s: Sym, a: word, loads: seq<word>)
    requires loads != []
    ensures FixAll(r, s, a, loads) == FixAll(r, s, a, [Last(loads)]) <==> NoDriftAt(r, s, loads)
  {
    var once := [Last(loads)];
    assert Init(once) == [] && Last(once) == Last(loads);
    FixAllFormula(r, s, a, loads);
    FixAllFormula(r, s, a, once);
    Agree(Formula(r, s, a, Last(loads)), Times(Zeros(Init(loads)), Drift(r, s)),
      FixAll(r, s, a, loads), FixAll(r, s, a, once));
  }

  lemma Agree(x: int, d: int, v: word, w: word)
    requires v == Wrap(x + d) && w == Wrap(x)
    ensures v == w <==> Wrap(d) == 0
  {
    WrapShift(x, d);
  }

  // ------------------------------------------------------------------ words in the image

  function Load(img: seq<byte>, at: nat): word
    requires at + 4 <= |img|
  {
    var b0: int, b1: int, b2: int, b3: int := img[at], img[at + 1], img[at + 2], img[at + 3];
    b0 + 0x100 * b1 + 0x1_0000 * b2 + 0x100_0000 * b3
  }

  function Store(img: seq<byte>, at: nat, w: word): seq<byte>
    requires at + 4 <= |img|
  {
    img[at := w % 256][at + 1 := w / 0x100 % 256][at + 2 := w / 0x1_0000 % 256][at + 3 := w / 0x100_0000 % 256]
  }

  lemma LoadStore(img: seq<byte>, at: nat, w: word)
    requires at + 4 <= |img|
    ensures Load(Store(img, at, w), at) == w
  {
    var w1 := w / 0x100;
    var w2 := w1 / 0x100;
    assert w / 0x1_0000 == w2 && w / 0x100_0000 == w2 / 0x100;
  }

  // A word determines its four bytes.
  lemma LoadInjective(p: seq<byte>, q: seq<byte>, at: nat, k: nat)
    requires at + 4 <= |p| && |p| == |q| && Load(p, at) == Load(q, at)
    requires at <= k < at + 4
    ensures p[k] == q[k]
  {
    BytesInjective(p[at], p[at + 1], p[at + 2], p[at + 3], q[at], q[at + 1], q[at + 2], q[at + 3]);
  }

  lemma BytesInjective(a: byte, b: byte, c: byte, d: byte, a': byte, b': byte, c': byte, d': byte)
    requires a + 0x100 * b + 0x1_0000 * c + 0x100_0000 * d == a' + 0x100 * b' + 0x1_0000 * c' + 0x100_0000 * d'
    ensures a == a' && b == b' && c == c' && d == d'
  {
    LowByte(a, b + 0x100 * c + 0x1_0000 * d, a', b' + 0x100 * c' + 0x1_0000 * d');
    LowByte(b, c + 0x100 * d, b', c' + 0x100 * d');
    LowByte(c, d, c', d');
  }

  lemma LowByte(a: byte, high: nat, a': byte, high': nat)
    requires a + 0x100 * high == a' + 0x100 * high'
    ensures a == a' && high == high'
  {
  }

  ghost predicate Writes(r: Rel) {
    !r.kind.NoReloc? && !r.kind.Other?
  }

  ghost predicate Fits(r: Rel, syms: seq<Sym>, size: nat) {
    r.offset + 4 <= size && r.sym < |syms|
  }

  ghost predicate Apart(r: Rel, q: Rel) {
    Writes(r) && Writes(q) ==> r.offset + 4 <= q.offset || q.offset + 4 <= r.offset
  }

  // The relocation entries lie in the image, and no two of them fix overlapping words up.
  ghost predicate Sound(rels: seq<Rel>, syms: seq<Sym>, size: nat) {
    && (forall i :: 0 <= i < |rels| ==> Fits(rels[i], syms, size))
    && (forall i, j :: 0 <= i < j < |rels| ==> Apart(rels[i], rels[j]))
  }

  ghost predicate Covers(r: Rel, k: nat) {
    Writes(r) && r.offset <= k < r.offset + 4
  }

  ghost predicate Covered(rels: seq<Rel>, k: nat) {
    exists i :: 0 <= i < |rels| && Covers(rels[i], k)
  }

  // ------------------------------------------------------------------ one pass over the table

  // One entry.
  function Apply(img: seq<byte>, r: Rel, syms: seq<Sym>, l: word, ll: word): (out: seq<byte>)
    requires Fits(r, syms, |img|)
    ensures |out| == |img|
  {
    Store(img, r.offset, Fix(r, syms[r.sym], Load(img, r.offset), l, ll))
  }

  // elf_dynamic_do_rel(): the entries in order.
  ghost function Pass(img: seq<byte>, rels: seq<Rel>, syms: seq<Sym>, l: word, ll: word): (out: seq<byte>)
    requires forall i :: 0 <= i < |rels| ==> Fits(rels[i], syms, |img|)
    ensures |out| == |img|
  {
    if rels == [] then img
    else
      var before := rels[..|rels| - 1];
      assert forall i :: 0 <= i < |before| ==> before[i] == rels[i];
      assert Fits(rels[|rels| - 1], syms, |img|);
      Apply(Pass(img, before, syms, l, ll), rels[|rels| - 1], syms, l, ll)
  }

  // One entry changes its own word only, and nothing when its type is one that does nothing.
  lemma ApplyElsewhere(img: seq<byte>, r: Rel, syms: seq<Sym>, l: word, ll: word, k: nat)
    requires Fits(r, syms, |img|) && k < |img| && !Covers(r, k)
    ensures Apply(img, r, syms, l, ll)[k] == img[k]
  {
    if !Writes(r) {
      var out := Apply(img, r, syms, l, ll);
      LoadStore(img, r.offset, Load(img, r.offset));
      if r.offset <= k < r.offset + 4 {
        LoadInjective(out, img, r.offset, k);
      }
    }
  }

  /** A pass leaves every byte that no entry covers. */
  lemma {:induction false} PassElsewhere(img: seq<byte>, rels: seq<Rel>, syms: seq<Sym>, l: word, ll: word, k: nat)
    requires Sound(rels, syms, |img|) && k < |img| && !Covered(rels, k)
    ensures Pass(img, rels, syms, l, ll)[k] == img[k]
  {
    if rels != [] {
      var before, r := rels[..|rels| - 1], rels[|rels| - 1];
      assert forall i :: 0 <= i < |before| ==> before[i] == rels[i];
      assert rels[|rels| - 1] == r;
      PassElsewhere(img, before, syms, l, ll, k);
      ApplyElsewhere(Pass(img, before, syms, l, ll), r, syms, l, ll, k);
    }
  }

  // A word that no entry covers any part of.
  lemma PassKeepsWord(img: seq<byte>, rels: seq<Rel>, syms: seq<Sym>, l: word, ll: word, at: nat)
    requires Sound(rels, syms, |img|) && at + 4 <= |img|
    requires forall k :: at <= k < at + 4 ==> !Covered(rels, k)
    ensures Load(Pass(img, rels, syms, l, ll), at) == Load(img, at)
  {
    PassElsewhere(img, rels, syms, l, ll, at);
    PassElsewhere(img, rels, syms, l, ll, at + 1);
    PassElsewhere(img, rels, syms, l, ll, at + 2);
    PassElsewhere(img, rels, syms, l, ll, at + 3);
  }

  lemma ApplyKeepsWord(img: seq<byte>, r: Rel, syms: seq<Sym>, l: word, ll: word, at: nat)
    requires Fits(r, syms, |img|) && at + 4 <= |img|
    requires forall k :: at <= k < at + 4 ==> !Covers(r, k)
    ensures Load(Apply(img, r, syms, l, ll), at) == Load(img, at)
  {
    ApplyElsewhere(img, r, syms, l, ll, at);
    ApplyElsewhere(img, r, syms, l, ll, at + 1);
    ApplyElsewhere(img, r, syms, l, ll, at + 2);
    ApplyElsewhere(img, r, syms, l, ll, at + 3);
  }

  /** A pass fixes each entry's word up once, from what it held before the pass. */
  lemma {:induction false} PassFixes(img: seq<byte>, rels: seq<Rel>, syms: seq<Sym>, l: word, ll: word, i: nat)
    requires Sound(rels, syms, |img|) && i < |rels| && Writes(rels[i])
    ensures Load(Pass(img, rels, syms, l, ll), rels[i].offset)
         == Fix(rels[i], syms[rels[i].sym], Load(img, rels[i].offset), l, ll)
  {
    var before, r := rels[..|rels| - 1], rels[|rels| - 1];
    assert forall j :: 0 <= j < |before| ==> before[j] == rels[j];
    var mid := Pass(img, before, syms, l, ll);
    if i < |before| {
      PassFixes(img, before, syms, l, ll, i);
      assert Apart(rels[i], rels[|rels| - 1]);
      ApplyKeepsWord(mid, r, syms, l, ll, rels[i].offset);
    } else {
      forall k | r.offset <= k < r.offset + 4 ensures !Covered(before, k) {
        forall j | 0 <= j < |before| ensures !Covers(before[j], k) {
          assert Apart(rels[j], rels[|rels| - 1]);
        }
      }
      PassKeepsWord(img, before, syms, l, ll, r.offset);
      LoadStore(mid, r.offset, Fix(r, syms[r.sym], Load(mid, r.offset), l, ll));
    }
  }

  // ------------------------------------------------------------------ many moves

  // The image after it was fixed up for each load address in turn.
  ghost function Moves(img: seq<byte>, rels: seq<Rel>, syms: seq<Sym>, loads: seq<word>): (out: seq<byte>)
    requires Sound(rels, syms, |img|)
    ensures |out| == |img|
  {
    if loads == [] then img
    else Pass(Moves(img, rels, syms, Init(loads)), rels, syms, Last(loads), Last(Init(loads)))
  }

  lemma {:induction false} MovesFix(img: seq<byte>, rels: seq<Rel>, syms: seq<Sym>, loads: seq<word>, i: nat)
    requires Sound(rels, syms, |img|) && i < |rels| && Writes(rels[i])
    ensures Load(Moves(img, rels, syms, loads), rels[i].offset)
         == FixAll(rels[i], syms[rels[i].sym], Load(img, rels[i].offset), loads)
  {
    if loads != [] {
      MovesFix(img, rels, syms, Init(loads), i);
      PassFixes(Moves(img, rels, syms, Init(loads)), rels, syms, Last(loads), Last(Init(loads)), i);
    }
  }

  /** Bytes that no entry covers are never changed. */
  lemma {:induction false} MovesElsewhere(img: seq<byte>, rels: seq<Rel>, syms: seq<Sym>, loads: seq<word>, k: nat)
    requires Sound(rels, syms, |img|) && k < |img| && !Covered(rels, k)
    ensures Moves(img, rels, syms, loads)[k] == img[k]
  {
    if loads != [] {
      MovesElsewhere(img, rels, syms, Init(loads), k);
      PassElsewhere(Moves(img, rels, syms, Init(loads)), rels, syms, Last(loads), Last(Init(loads)), k);
    }
  }

  /** After any moves every entry's word holds the ABI's formula at the last load address with the
      original addend, plus its drift times the number of earlier load addresses that were 0. */
  lemma MovesFormula(img: seq<byte>, rels: seq<Rel>, syms: seq<Sym>, loads: seq<word>, i: nat, a: word)
    requires Sound(rels, syms, |img|) && loads != []
    requires i < |rels| && Writes(rels[i]) && a == Load(img, rels[i].offset)
    ensures Load(Moves(img, rels, syms, loads), rels[i].offset) == Settled(rels[i], syms[rels[i].sym], a, loads)
  {
    MovesFix(img, rels, syms, loads, i);
    FixAllFormula(rels[i], syms[rels[i].sym], a, loads);
  }

  // One word, after all the moves and after one.
  lemma WordAgrees(img: seq<byte>, rels: seq<Rel>, syms: seq<Sym>, loads: seq<word>, i: nat, r: Rel, s: Sym)
    requires Sound(rels, syms, |img|) && loads != []
    requires i < |rels| && r == rels[i] && s == syms[r.sym] && Writes(r)
    ensures Load(Moves(img, rels, syms, loads), r.offset) == Load(Moves(img, rels, syms, [Last(loads)]), r.offset)
        <==> NoDriftAt(r, s, loads)
  {
    MovesFix(img, rels, syms, loads, i);
    MovesFix(img, rels, syms, [Last(loads)], i);
    FixAllAgrees(r, s, Load(img, r.offset), loads);
  }

  ghost predicate Driftless(rels: seq<Rel>, syms: seq<Sym>, loads: seq<word>)
    requires loads != [] && forall i :: 0 <= i < |rels| ==> rels[i].sym < |syms|
  {
    forall i :: 0 <= i < |rels| ==> NoDriftAt(rels[i], syms[rels[i].sym], loads)
  }

  lemma DriftlessAgree(img: seq<byte>, rels: seq<Rel>, syms: seq<Sym>, loads: seq<word>, k: nat)
    requires Sound(rels, syms, |img|) && loads != [] && Driftless(rels, syms, loads) && k < |img|
    ensures Moves(img, rels, syms, loads)[k] == Moves(img, rels, syms, [Last(loads)])[k]
  {
    var p, q := Moves(img, rels, syms, loads), Moves(img, rels, syms, [Last(loads)]);
    if Covered(rels, k) {
      var i :| 0 <= i < |rels| && Covers(rels[i], k);
      WordAgrees(img, rels, syms, loads, i, rels[i], syms[rels[i].sym]);
      LoadInjective(p, q, rels[i].offset, k);
    } else {
      MovesElsewhere(img, rels, syms, loads, k);
      MovesElsewhere(img, rels, syms, [Last(loads)], k);
    }
  }

  /** Fixing the image up for a series of addresses gives, byte for byte, what fixing it up once for the
      last one gives, exactly when no entry drifts; in particular when no earlier address was 0. */
  lemma PathIndependence(img: seq<byte>, rels: seq<Rel>, syms: seq<Sym>, loads: seq<word>)
    requires Sound(rels, syms, |img|) && loads != []
    ensures Moves(img, rels, syms, loads) == Moves(img, rels, syms, [Last(loads)])
        <==> Driftless(rels, syms, loads)
    ensures 0 !in Init(loads) ==> Moves(img, rels, syms, loads) == Moves(img, rels, syms, [Last(loads)])
  {
    var p, q := Moves(img, rels, syms, loads), Moves(img, rels, syms, [Last(loads)]);
    if Driftless(rels, syms, loads) {
      forall k | 0 <= k < |p| ensures p[k] == q[k] {
        DriftlessAgree(img, rels, syms, loads, k);
      }
    }
    if p == q {
      forall i | 0 <= i < |rels| ensures NoDriftAt(rels[i], syms[rels[i].sym], loads) {
        if Writes(rels[i]) {
          WordAgrees(img, rels, syms, loads, i, rels[i], syms[rels[i].sym]);
        } else {
          NothingDrifts(rels[i], syms[rels[i].sym], loads);
        }
      }
    }
    if 0 !in Init(loads) {
      NoZeros(Init(loads));
    }
  }

  lemma {:induction false} NoZeros(loads: seq<word>)
    requires 0 !in loads
    ensures Zeros(loads) == 0
  {
    if loads != [] {
      assert Last(loads) in loads;
      NoZeros(Init(loads));
    }
  }
}
