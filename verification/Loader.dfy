/**
  The start-up code of memtest86+ (payloads/memtest86+/reloc.c) as it changes the program's own image:
  the words that relocation entries name, the pointers of the dynamic section, and the address it was
  last fixed up for, which stays in the image between two calls.
 */
module Loader {
  import opened Reloc

  // elf_machine_rel(): one entry, in place.
  method ElfMachineRel(image: array<byte>, r: Rel, syms: seq<Sym>, l: word, ll: word)
    requires Fits(r, syms, image.Length)
    modifies image
    ensures image[..] == Apply(old(image[..]), r, syms, l, ll)
  {
    ghost var was := image[..];
    var s := syms[r.sym];
    var w := LoadWord(image, r.offset);
    if r.kind.Relative? {
      StoreWord(image, r.offset, Wrap(w + (l - ll)));
      return;
    }
    if r.kind.NoReloc? {
      StoreIsIdle(was, r.offset);
      return;
    }
    var lsAddr := if s.undefined then 0 else ll;
    var sAddr := if s.undefined then 0 else l;
    match r.kind
    case GlobDat =>
      StoreWord(image, r.offset, Wrap(sAddr + s.value));
    case JmpSlot =>
      StoreWord(image, r.offset, Wrap(sAddr + s.value));
    case Abs32 =>
      if ll == 0 {
        w := Wrap(w + s.value);
      }
      StoreWord(image, r.offset, Wrap(w + (sAddr - lsAddr)));
    case Pc32 =>
      if ll == 0 {
        w := Wrap(w + (s.value - r.offset));
      }
      StoreWord(image, r.offset, Wrap(w + ((sAddr - l) - (lsAddr - ll))));
    case _ =>
      StoreIsIdle(was, r.offset);
  }

  lemma StoreIsIdle(img: seq<byte>, at: nat)
    requires at + 4 <= |img|
    ensures Store(img, at, Load(img, at)) == img
  {
    var out := Store(img, at, Load(img, at));
    LoadStore(img, at, Load(img, at));
    forall k | 0 <= k < |img| ensures out[k] == img[k] {
      if at <= k < at + 4 {
        LoadInjective(out, img, at, k);
      }
    }
  }

  method LoadWord(image: array<byte>, at: nat) returns (w: word)
    requires at + 4 <= image.Length
    ensures w == Load(image[..], at)
  {
    var b0: int, b1: int, b2: int, b3: int := image[at], image[at + 1], image[at + 2], image[at + 3];
    w := b0 + 0x100 * b1 + 0x1_0000 * b2 + 0x100_0000 * b3;
  }

  method StoreWord(image: array<byte>, at: nat, w: word)
    requires at + 4 <= image.Length
    modifies image
    ensures image[..] == Store(old(image[..]), at, w)
  {
    image[at] := w % 256;
    image[at + 1] := w / 0x100 % 256;
    image[at + 2] := w / 0x1_0000 % 256;
    image[at + 3] := w / 0x100_0000 % 256;
  }

  lemma {:induction false} PassConcat(img: seq<byte>, a: seq<Rel>, b: seq<Rel>, syms: seq<Sym>, l: word, ll: word)
    requires Sound(a + b, syms, |img|)
    ensures Sound(a, syms, |img|) && Sound(b, syms, |img|)
    ensures Pass(Pass(img, a, syms, l, ll), b, syms, l, ll) == Pass(img, a + b, syms, l, ll)
  {
    SoundParts(a, b, syms, |img|);
    if b == [] {
      assert a + b == a;
    } else {
      var before := b[..|b| - 1];
      assert (a + b)[..|a + b| - 1] == a + before;
      assert (a + b)[|a + b| - 1] == b[|b| - 1];
      assert a + b == (a + before) + [b[|b| - 1]];
      SoundParts(a + before, [b[|b| - 1]], syms, |img|);
      PassConcat(img, a, before, syms, l, ll);
    }
  }

  lemma SoundParts(a: seq<Rel>, b: seq<Rel>, syms: seq<Sym>, size: nat)
    requires Sound(a + b, syms, size)
    ensures Sound(a, syms, size) && Sound(b, syms, size)
  {
    var c := a + b;
    forall i | 0 <= i < |b| ensures Fits(b[i], syms, size) {
      assert c[|a| + i] == b[i];
    }
    forall i | 0 <= i < |a| ensures Fits(a[i], syms, size) {
      assert c[i] == a[i];
    }
    forall i, j | 0 <= i < j < |b| ensures Apart(b[i], b[j]) {
      assert c[|a| + i] == b[i] && c[|a| + j] == b[j];
    }
    forall i, j | 0 <= i < j < |a| ensures Apart(a[i], a[j]) {
      assert c[i] == a[i] && c[j] == a[j];
    }
  }

  // elf_dynamic_do_rel()
  method ElfDynamicDoRel(image: array<byte>, rels: seq<Rel>, syms: seq<Sym>, l: word, ll: word)
    requires Sound(rels, syms, image.Length)
    modifies image
    ensures image[..] == Pass(old(image[..]), rels, syms, l, ll)
  {
    ghost var was := image[..];
    var i := 0;
    while i < |rels|
      invariant 0 <= i <= |rels| && Sound(rels[..i], syms, image.Length)
      invariant image[..] == Pass(was, rels[..i], syms, l, ll)
    {
      assert rels[..i + 1][..i] == rels[..i];
      ElfMachineRel(image, rels[i], syms, l, ll);
      i := i + 1;
    }
    assert rels[..i] == rels;
  }

  // The two calls of elf_dynamic_do_rel(): the relocation table, then the procedure linkage table's.
  method RelocateImage(image: array<byte>, rels: seq<Rel>, jmprels: seq<Rel>, syms: seq<Sym>, l: word, ll: word)
    requires Sound(rels + jmprels, syms, image.Length)
    modifies image
    ensures image[..] == Pass(old(image[..]), rels + jmprels, syms, l, ll)
  {
    SoundParts(rels, jmprels, syms, image.Length);
    PassConcat(image[..], rels, jmprels, syms, l, ll);
    ElfDynamicDoRel(image, rels, syms, l, ll);
    ElfDynamicDoRel(image, jmprels, syms, l, ll);
  }

  // The entries of the dynamic section that hold addresses.
  const PLTGOT: nat := 0
  const STRTAB: nat := 1
  const SYMTAB: nat := 2
  const REL: nat := 3
  const JMPREL: nat := 4

  // Link-time offsets as addresses in an image at base.
  function AddressesAt(offsets: seq<word>, base: word): (r: seq<word>)
    ensures |r| == |offsets|
  {
    seq(|offsets|, i requires 0 <= i < |offsets| => Wrap(offsets[i] + base))
  }

  // Pointers that are right for ll are right for l after the move.
  lemma Follow(offsets: seq<word>, l: word, ll: word, i: nat)
    requires i < |offsets|
    ensures Wrap(AddressesAt(offsets, ll)[i] + (l - ll)) == AddressesAt(offsets, l)[i]
  {
    WrapAdd(offsets[i] + ll, l - ll);
  }

  // A pointer leads back to its offset.
  function OffsetOf(address: word, base: word): word {
    Wrap(address - base)
  }

  lemma LeadsBack(offsets: seq<word>, l: word, i: nat)
    requires i < |offsets|
    ensures OffsetOf(AddressesAt(offsets, l)[i], l) == offsets[i]
  {
    var back: int := l;
    WrapAdd(offsets[i] + l, -back);
  }

  /** The image and what the start-up code keeps about it between calls. */
  class Program {
    const image: array<byte>

    // What the image holds unchanged: relocation and symbol tables by the offset they are linked at,
    // the dynamic section's addresses as linked, and whether DT_PLTREL says DT_REL.
    const tables: map<word, seq<Rel>>
    const symtabs: map<word, seq<Sym>>
    const offsets: seq<word>
    const pltIsRel: bool

    // The dynamic section's addresses, rewritten in place, and the static last_load_address.
    var info: seq<word>
    var lastLoadAddress: word

    // The image as linked, and every load address so far.
    ghost var linked: seq<byte>
    ghost var loads: seq<word>

    ghost predicate Tables() {
      |offsets| == 5 && offsets[REL] in tables && offsets[JMPREL] in tables && offsets[SYMTAB] in symtabs
    }

    // The entries one call applies, in order.
    ghost function Entries(): seq<Rel>
      requires Tables()
    {
      tables[offsets[REL]] + if pltIsRel then tables[offsets[JMPREL]] else []
    }

    ghost function Symbols(): seq<Sym>
      requires Tables()
    {
      symtabs[offsets[SYMTAB]]
    }

    ghost predicate Valid()
      reads this, image
    {
      && Tables()
      && Sound(Entries(), Symbols(), image.Length)
      && |linked| == image.Length
      && lastLoadAddress == Last(loads)
      && image[..] == Moves(linked, Entries(), Symbols(), loads)
      && info == AddressesAt(offsets, lastLoadAddress)
    }

    // elf_get_dynamic_info(): the addresses follow the move.
    method ElfGetDynamicInfo(l: word, ll: word)
      requires |offsets| == 5 && info == AddressesAt(offsets, ll)
      modifies `info
      ensures info == AddressesAt(offsets, l)
    {
      Follow(offsets, l, ll, PLTGOT);
      Follow(offsets, l, ll, STRTAB);
      Follow(offsets, l, ll, SYMTAB);
      Follow(offsets, l, ll, REL);
      Follow(offsets, l, ll, JMPREL);
      var delta := l - ll;
      info := info[PLTGOT := Wrap(info[PLTGOT] + delta)];
      info := info[STRTAB := Wrap(info[STRTAB] + delta)];
      info := info[SYMTAB := Wrap(info[SYMTAB] + delta)];
      info := info[REL := Wrap(info[REL] + delta)];
      info := info[JMPREL := Wrap(info[JMPREL] + delta)];
    }

    /** _dl_start() at load address l. */
    method DlStart(l: word)
      requires Valid()
      modifies this, image
      ensures Valid() && loads == old(loads) + [l] && linked == old(linked)
      ensures image[..] == Pass(old(image[..]), Entries(), Symbols(), l, old(lastLoadAddress))
    {
      var ll := lastLoadAddress;
      lastLoadAddress := l;
      ElfGetDynamicInfo(l, ll);
      LeadsBack(offsets, l, SYMTAB);
      LeadsBack(offsets, l, REL);
      LeadsBack(offsets, l, JMPREL);

      // The tables are read through the addresses just rewritten.
      var syms := symtabs[OffsetOf(info[SYMTAB], l)];
      var jmprels := if pltIsRel then tables[OffsetOf(info[JMPREL], l)] else [];
      RelocateImage(image, tables[OffsetOf(info[REL], l)], jmprels, syms, l, ll);
      loads := loads + [l];
      assert Init(loads) == old(loads);
    }
  }
}
