/**
  The write and erase routines of the sortbootorder flash drivers: winbond.c (gigadevice.c and
  macronix.c do the same), eon.c (spansion.c and stmicro.c do the same), sst.c and the common erase of
  spi_flash.c.  All the writers come to one abstract write, and one that fails has written a prefix.
 */
module FlashDrivers {
  import opened Powers
  import opened Wrappers
  import opened FlashChip

  // What a writer may assume: the range lies on the chip and the chip can be addressed with 24 bits.
  ghost predicate Fits(chip: Chip, offset: nat, length: nat) {
    offset + length <= |chip.data| <= LIMIT
  }

  // The abstract write: done, the chip is idle with buf programmed at offset and all else as it was; not
  // done, the bus failed and a prefix of buf is programmed.
  ghost predicate Wrote(was: Chip, now: Chip, offset: nat, buf: seq<byte>, ok: bool)
    requires Fits(was, offset, |buf|)
  {
    if ok then now.data == Programmed(was.data, offset, buf) && Idle(now)
    else exists n :: 0 <= n <= |buf| && now.data == Programmed(was.data, offset, buf[..n])
  }

  lemma Prefix(was: Chip, now: Chip, offset: nat, buf: seq<byte>, n: nat)
    requires Fits(was, offset, |buf|) && n <= |buf| && now.data == Programmed(was.data, offset, buf[..n])
    ensures Wrote(was, now, offset, buf, false)
  {
  }

  /** What a completed write means on an erased range. */
  lemma WroteOnErased(was: Chip, now: Chip, offset: nat, buf: seq<byte>)
    requires Fits(was, offset, |buf|) && Wrote(was, now, offset, buf, true)
    requires forall k :: offset <= k < offset + |buf| ==> was.data[k] == ERASED
    ensures now.data == was.data[..offset] + buf + was.data[offset + |buf|..]
  {
    ProgrammedOnErased(was.data, offset, buf);
  }

  // What a routine of cost transfers does to the bus's budget: it succeeds exactly when the budget
  // covers them, and fails on a dead bus.
  ghost predicate Spent(was: nat, now: nat, cost: nat, ok: bool) {
    ok == (was >= cost) && now == if ok then was - cost else 0
  }

  // ------------------------------------------------------------------ page programming

  // Write enable, page program, wait.
  method ProgramChunk(bus: Bus, cmd: seq<byte>, at: nat, chunk: seq<byte>) returns (ok: bool)
    requires Idle(bus.chip) && Fits(bus.chip, at, |chunk|)
    requires |cmd| == 4 && cmd[0] == PAGE_PROGRAM && Address(cmd) == at
    requires 0 < |chunk| && at % PAGE + |chunk| <= PAGE
    modifies bus
    ensures |bus.chip.data| == old(|bus.chip.data|)
    ensures ok ==> Idle(bus.chip) && bus.chip.data == Programmed(old(bus.chip.data), at, chunk)
    ensures Spent(old(bus.budget), bus.budget, 3, ok)
    ensures !ok ==> bus.chip.data == old(bus.chip.data) || bus.chip.data == Programmed(old(bus.chip.data), at, chunk)
  {
    ghost var data := bus.chip.data;
    ok := bus.Xfer([WRITE_ENABLE]);
    if !ok {
      return;
    }
    InsidePage(data, at, chunk);
    assert (cmd + chunk)[4..] == chunk;
    ok := bus.Xfer(cmd + chunk);
    if !ok {
      return;
    }
    ok := bus.WaitReady();
  }

  // The bytes of buf that a chunk adds.
  lemma NextChunk(data: seq<byte>, offset: nat, buf: seq<byte>, actual: nat, n: nat)
    requires actual + n <= |buf| && offset + |buf| <= |data|
    ensures Programmed(Programmed(data, offset, buf[..actual]), offset + actual, buf[actual..actual + n])
         == Programmed(data, offset, buf[..actual + n])
  {
    assert buf[..actual] + buf[actual..actual + n] == buf[..actual + n];
    ProgrammedConcat(data, offset, buf[..actual], buf[actual..actual + n]);
  }

  // One chunk of a longer write, after the first actual bytes of buf.
  method WriteChunk(bus: Bus, ghost was: Chip, cmd: seq<byte>, offset: nat, buf: seq<byte>, actual: nat, n: nat)
    returns (ok: bool)
    requires Fits(was, offset, |buf|) && 0 < n <= |buf| - actual && Idle(bus.chip)
    requires bus.chip.data == Programmed(was.data, offset, buf[..actual])
    requires |cmd| == 4 && cmd[0] == PAGE_PROGRAM && Address(cmd) == offset + actual
    requires (offset + actual) % PAGE + n <= PAGE
    modifies bus
    ensures ok ==> Idle(bus.chip) && bus.chip.data == Programmed(was.data, offset, buf[..actual + n])
    ensures !ok ==> Wrote(was, bus.chip, offset, buf, false)
    ensures Spent(old(bus.budget), bus.budget, 3, ok)
  {
    NextChunk(was.data, offset, buf, actual, n);
    ghost var before := bus.chip.data;
    ok := ProgramChunk(bus, cmd, offset + actual, buf[actual..actual + n]);
    if !ok {
      Prefix(was, bus.chip, offset, buf, if bus.chip.data == before then actual else actual + n);
    }
  }

  // A page size of the drivers: the chip's, or less when the controller takes less.
  predicate PageSize(size: nat) {
    size == 64 || size == 256
  }

  lemma ChunkInsidePage(at: nat, size: nat, n: nat)
    requires PageSize(size) && n <= size - at % size
    ensures at % PAGE + n <= PAGE
  {
  }

  // The pages that a range touches.
  function Pages(at: nat, length: nat, size: nat): nat
    requires PageSize(size)
  {
    if length == 0 then 0 else (at + length - 1) / size - at / size + 1
  }

  // A chunk that ends with its page, or with the range, takes one page off.
  lemma PagesNext(at: nat, length: nat, size: nat, n: nat)
    requires PageSize(size) && 0 < n <= length && (n == size - at % size || n == length < size - at % size)
    ensures Pages(at, length, size) == 1 + Pages(at + n, length - n, size)
  {
  }

  // An address survives being cut into the command's three bytes.
  lemma AddressParts(at: nat)
    requires at < LIMIT
    ensures at / 0x1_0000 % 0x100 * 0x1_0000 + at / 0x100 % 0x100 * 0x100 + at % 0x100 == at
  {
    var q := at / 0x100;
    assert at / 0x1_0000 == q / 0x100;
  }

  lemma ChunkAddress(at: nat)
    requires at < LIMIT
    ensures Address([PAGE_PROGRAM, at / 0x1_0000 % 0x100, at / 0x100 % 0x100, at % 0x100]) == at
  {
    AddressParts(at);
  }

  /** winbond_write(): a running offset. */
  method WinbondWrite(bus: Bus, offset0: nat, buf: seq<byte>, pageSize: nat) returns (ok: bool)
    requires Idle(bus.chip) && Fits(bus.chip, offset0, |buf|) && PageSize(pageSize)
    modifies bus
    ensures Wrote(old(bus.chip), bus.chip, offset0, buf, ok)
    ensures Spent(old(bus.budget), bus.budget, 3 * Pages(offset0, |buf|, pageSize), ok)
  {
    ghost var was, budget, chunks: nat := bus.chip, bus.budget, 0;
    var offset, byteAddr, actual := offset0, offset0 % pageSize, 0;
    ok := true;
    ProgrammedNothing(was.data, offset0);
    while actual < |buf|
      invariant 0 <= actual <= |buf| && offset == offset0 + actual
      invariant actual < |buf| ==> byteAddr == offset % pageSize
      invariant bus.budget == budget - 3 * chunks
      invariant chunks + Pages(offset, |buf| - actual, pageSize) == Pages(offset0, |buf|, pageSize)
      invariant ok && Idle(bus.chip) && bus.chip.data == Programmed(was.data, offset0, buf[..actual])
    {
      var n := Min(|buf| - actual, pageSize - byteAddr);
      ChunkInsidePage(offset, pageSize, n);
      PagesNext(offset, |buf| - actual, pageSize, n);
      ChunkAddress(offset);
      var cmd := [PAGE_PROGRAM, offset / 0x1_0000 % 0x100, offset / 0x100 % 0x100, offset % 0x100];
      ok := WriteChunk(bus, was, cmd, offset0, buf, actual, n);
      if !ok {
        return;
      }
      NextBoundary(offset, pageSize, n);
      chunks := chunks + 1;
      offset := offset + n;
      actual := actual + n;
      byteAddr := 0;
    }
    assert buf[..|buf|] == buf;
  }

  function Min(a: nat, b: nat): nat {
    if a < b then a else b
  }

  lemma NextBoundary(at: nat, size: nat, n: nat)
    requires PageSize(size)
    ensures n == size - at % size ==> (at + n) % size == 0 && at / size + 1 == (at + n) / size
  {
  }

  lemma PageAddress(page: nat, byteAddr: nat)
    requires byteAddr < PAGE && page < 0x1_0000
    ensures Address([PAGE_PROGRAM, page / 0x100 % 0x100, page % 0x100, byteAddr % 0x100]) == page * PAGE + byteAddr
  {
  }

  lemma ByteOf(at: nat, page: nat, byteAddr: nat)
    requires byteAddr < PAGE && page * PAGE + byteAddr == at
    ensures at % PAGE == byteAddr
  {
  }

  /** eon_write(): a page number and a byte number. */
  method EonWrite(bus: Bus, offset: nat, buf: seq<byte>) returns (ok: bool)
    requires Idle(bus.chip) && Fits(bus.chip, offset, |buf|)
    modifies bus
    ensures Wrote(old(bus.chip), bus.chip, offset, buf, ok)
    ensures Spent(old(bus.budget), bus.budget, 3 * Pages(offset, |buf|, PAGE), ok)
  {
    ghost var was, budget, chunks: nat := bus.chip, bus.budget, 0;
    var pageSize := PAGE;
    var pageAddr: nat, byteAddr: nat, actual := offset / pageSize, offset % pageSize, 0;
    ok := true;
    ProgrammedNothing(was.data, offset);
    while actual < |buf|
      invariant 0 <= actual <= |buf|
      invariant actual < |buf| ==> byteAddr < PAGE && pageAddr * PAGE + byteAddr == offset + actual
      invariant bus.budget == budget - 3 * chunks
      invariant chunks + Pages(offset + actual, |buf| - actual, PAGE) == Pages(offset, |buf|, PAGE)
      invariant ok && Idle(bus.chip) && bus.chip.data == Programmed(was.data, offset, buf[..actual])
    {
      var n := Min(|buf| - actual, pageSize - byteAddr);
      PageAddress(pageAddr, byteAddr);
      ByteOf(offset + actual, pageAddr, byteAddr);
      PagesNext(offset + actual, |buf| - actual, PAGE, n);
      var cmd := [PAGE_PROGRAM, pageAddr / 0x100 % 0x100, pageAddr % 0x100, byteAddr % 0x100];
      ok := WriteChunk(bus, was, cmd, offset, buf, actual, n);
      if !ok {
        return;
      }
      chunks := chunks + 1;
      actual := actual + n;
      pageAddr := pageAddr + 1;
      byteAddr := 0;
    }
    assert buf[..|buf|] == buf;
  }

  // ------------------------------------------------------------------ word programming

  /** sst_byte_write(), after the first actual bytes of a longer write. */
  method SstByteWrite(bus: Bus, ghost was: Chip, offset: nat, buf: seq<byte>, actual: nat) returns (ok: bool)
    requires Fits(was, offset, |buf|) && actual < |buf| && Idle(bus.chip)
    requires bus.chip.data == Programmed(was.data, offset, buf[..actual])
    modifies bus
    ensures ok ==> Idle(bus.chip) && bus.chip.data == Programmed(was.data, offset, buf[..actual + 1])
    ensures !ok ==> Wrote(was, bus.chip, offset, buf, false)
    ensures Spent(old(bus.budget), bus.budget, 3, ok)
  {
    var at := offset + actual;
    ChunkAddress(at);
    var cmd := [PAGE_PROGRAM, at / 0x1_0000 % 0x100, at / 0x100 % 0x100, at % 0x100];
    ok := WriteChunk(bus, was, cmd, offset, buf, actual, 1);
  }

  // Between words: the chip is at the next address, or at none before the first word.
  predicate AtWord(chip: Chip, cmd: seq<byte>, offset: nat) {
    && !chip.busy
    && cmd != [] && cmd[0] == WORD_PROGRAM
    && (if |cmd| == 4 then chip.aai.None? && chip.wel && Address(cmd) == offset
        else |cmd| == 1 && chip.aai == Some(offset))
  }

  // One word, and wait.
  method SstWord(bus: Bus, cmd: seq<byte>, offset: nat, w: seq<byte>) returns (ok: bool)
    requires AtWord(bus.chip, cmd, offset) && |w| == 2 && offset % 2 == 0 && Fits(bus.chip, offset, 2)
    modifies bus
    ensures Spent(old(bus.budget), bus.budget, 2, ok)
    ensures ok ==> AtWord(bus.chip, [WORD_PROGRAM], offset + 2)
    ensures ok ==> bus.chip.data == Programmed(old(bus.chip.data), offset, w)
    ensures !ok ==> bus.chip.data == old(bus.chip.data) || bus.chip.data == Programmed(old(bus.chip.data), offset, w)
  {
    assert (cmd + w)[|cmd|..] == w;
    ok := bus.Xfer(cmd + w);
    if !ok {
      return;
    }
    ok := bus.WaitReady();
  }

  // The command that starts word programming.
  function FirstWord(at: nat): (cmd: seq<byte>)
    ensures |cmd| == 4 && cmd[0] == WORD_PROGRAM && (at < LIMIT ==> Address(cmd) == at)
  {
    assert at < LIMIT ==> Address([WORD_PROGRAM, at / 0x1_0000 % 0x100, at / 0x100 % 0x100, at % 0x100]) == at by {
      if at < LIMIT {
        AddressParts(at);
      }
    }
    [WORD_PROGRAM, at / 0x1_0000 % 0x100, at / 0x100 % 0x100, at % 0x100]
  }

  // One word of a longer write.
  method SstChunk(bus: Bus, ghost was: Chip, cmd: seq<byte>, offset: nat, buf: seq<byte>, actual: nat)
    returns (ok: bool)
    requires Fits(was, offset, |buf|) && actual + 2 <= |buf| && (offset + actual) % 2 == 0
    requires AtWord(bus.chip, cmd, offset + actual)
    requires bus.chip.data == Programmed(was.data, offset, buf[..actual])
    modifies bus
    ensures ok ==> AtWord(bus.chip, [WORD_PROGRAM], offset + (actual + 2))
    ensures ok ==> bus.chip.data == Programmed(was.data, offset, buf[..actual + 2])
    ensures !ok ==> Wrote(was, bus.chip, offset, buf, false)
    ensures Spent(old(bus.budget), bus.budget, 2, ok)
  {
    NextChunk(was.data, offset, buf, actual, 2);
    ghost var before := bus.chip.data;
    ok := SstWord(bus, cmd, offset + actual, buf[actual..actual + 2]);
    if !ok {
      Prefix(was, bus.chip, offset, buf, if bus.chip.data == before then actual else actual + 2);
    }
  }

  // The transfers of sst_write: a byte in front takes three, so does one behind, a word two, and two more
  // begin and end word programming.
  function SstTransfers(offset: nat, length: nat): nat
    requires length >= 1
  {
    var words := length - offset % 2;
    3 * (offset % 2) + 1 + 2 * (words / 2) + 1 + 3 * (words % 2)
  }

  /** sst_write(): an odd byte in front, words, an odd byte behind.  It computes the length less one. */
  method SstWrite(bus: Bus, offset0: nat, buf: seq<byte>) returns (ok: bool)
    requires Idle(bus.chip) && Fits(bus.chip, offset0, |buf|) && |buf| >= 1
    modifies bus
    ensures Wrote(old(bus.chip), bus.chip, offset0, buf, ok)
    ensures Spent(old(bus.budget), bus.budget, SstTransfers(offset0, |buf|), ok)
  {
    ghost var was := bus.chip;
    var actual := offset0 % 2;
    ok := SstFront(bus, offset0, buf);
    if !ok {
      return;
    }
    ok := bus.Xfer([WRITE_ENABLE]);
    if !ok {
      Prefix(was, bus.chip, offset0, buf, actual);
      return;
    }
    ghost var words := |buf| - actual;
    actual, ok := SstWords(bus, was, offset0, buf, actual, words / 2, words % 2);
    if ok {
      ok := SstEnd(bus, was, offset0, buf, actual);
    }
  }

  // The byte in front of the first word.
  method SstFront(bus: Bus, offset: nat, buf: seq<byte>) returns (ok: bool)
    requires Idle(bus.chip) && Fits(bus.chip, offset, |buf|) && |buf| >= 1
    modifies bus
    ensures ok ==> Idle(bus.chip) && bus.chip.data == Programmed(old(bus.chip.data), offset, buf[..offset % 2])
    ensures !ok ==> Wrote(old(bus.chip), bus.chip, offset, buf, false)
    ensures Spent(old(bus.budget), bus.budget, 3 * (offset % 2), ok)
  {
    ok := true;
    ProgrammedNothing(bus.chip.data, offset);
    assert buf[..0] == [];
    if offset % 2 != 0 {
      ok := SstByteWrite(bus, bus.chip, offset, buf, 0);
    }
  }

  // The words, and odd bytes that are left over.
  method SstWords(bus: Bus, ghost was: Chip, offset0: nat, buf: seq<byte>, actual0: nat, ghost words: nat, ghost odd: nat)
    returns (actual: nat, ok: bool)
    requires Fits(was, offset0, |buf|) && actual0 + 2 * words + odd == |buf| && odd < 2 && |buf| >= 1
    requires (offset0 + actual0) % 2 == 0
    requires Idle(bus.chip) && bus.chip.wel
    requires bus.chip.data == Programmed(was.data, offset0, buf[..actual0])
    modifies bus
    ensures ok ==> actual + odd == |buf| && !bus.chip.busy
    ensures ok ==> bus.chip.data == Programmed(was.data, offset0, buf[..actual])
    ensures !ok ==> Wrote(was, bus.chip, offset0, buf, false)
    ensures Spent(old(bus.budget), bus.budget, 2 * words, ok)
  {
    ghost var budget, left: nat := bus.budget, words;
    actual := actual0;
    ok := true;
    var cmd := FirstWord(offset0 + actual);
    while actual < |buf| - 1
      invariant actual + 2 * left + odd == |buf| && left <= words && (offset0 + actual) % 2 == 0
      invariant bus.budget == budget - 2 * (words - left) && !bus.chip.busy
      invariant offset0 + actual < LIMIT ==> AtWord(bus.chip, cmd, offset0 + actual)
      invariant bus.chip.data == Programmed(was.data, offset0, buf[..actual])
    {
      ok := SstChunk(bus, was, cmd, offset0, buf, actual);
      if !ok {
        return;
      }
      cmd := [WORD_PROGRAM];
      left := left - 1;
      actual := actual + 2;
    }
  }

  // Leave word programming, and the byte that is left over.
  method SstEnd(bus: Bus, ghost was: Chip, offset0: nat, buf: seq<byte>, actual: nat) returns (ok: bool)
    requires Fits(was, offset0, |buf|) && |buf| - 1 <= actual <= |buf| && !bus.chip.busy
    requires bus.chip.data == Programmed(was.data, offset0, buf[..actual])
    modifies bus
    ensures Wrote(was, bus.chip, offset0, buf, ok)
    ensures Spent(old(bus.budget), bus.budget, 1 + 3 * (|buf| - actual), ok)
  {
    ok := bus.Xfer([WRITE_DISABLE]);
    if !ok {
      Prefix(was, bus.chip, offset0, buf, actual);
      return;
    }
    assert buf[..|buf|] == buf;
    if actual != |buf| {
      ok := SstByteWrite(bus, was, offset0, buf, actual);
    }
  }

  // ------------------------------------------------------------------ erasing

  datatype EraseResult = Done | Misaligned | Failed

  /** spi_flash_cmd_erase(): refused unless whole erase units are named; otherwise every unit of the range
      is erased, in order and once, and nothing else. */
  method Erase(bus: Bus, offset0: nat, length: nat) returns (r: EraseResult)
    requires Idle(bus.chip) && Fits(bus.chip, offset0, length) && bus.eraser.size > 0
    requires bus.eraser.command !in {WRITE_ENABLE, WRITE_DISABLE, PAGE_PROGRAM, WORD_PROGRAM}
    modifies bus
    ensures r.Misaligned? <==> offset0 % bus.eraser.size != 0 || length % bus.eraser.size != 0
    ensures r.Misaligned? ==> bus.chip == old(bus.chip) && bus.budget == old(bus.budget)
    ensures r.Done? ==> Idle(bus.chip) && bus.chip.data == ErasedAt(old(bus.chip.data), offset0, length)
    ensures !r.Misaligned? ==> Spent(old(bus.budget), bus.budget, 3 * (length / bus.eraser.size), r.Done?)
    ensures r.Failed? ==> ErasedPrefix(old(bus.chip), bus.chip, bus.eraser, offset0, length)
  {
    var size := bus.eraser.size;
    if offset0 % size != 0 || length % size != 0 {
      return Misaligned;
    }
    ghost var was, budget := bus.chip, bus.budget;
    ghost var from, units, i := offset0 / size, length / size, 0;
    var offset, end := offset0, offset0 + length;
    Whole(offset0, size);
    Whole(length, size);
    ErasedNothing(was.data, offset0);
    while offset < end
      invariant 0 <= i <= units && offset == offset0 + i * size <= end
      invariant bus.budget == budget - 3 * i && Idle(bus.chip)
      invariant bus.chip.data == ErasedAt(was.data, offset0, i * size)
      decreases end - offset
    {
      UnitsOrder(i, units, size);
      MultipleOf(from + i, size);
      MultipleOf(i, size);
      MultipleOf(i + 1, size);
      Distribute(from, i, size);
      Distribute(i, 1, size);
      ErasedNext(was.data, offset0, i * size, size);
      var ok := EraseUnit(bus, offset);
      if !ok {
        ghost var n := if bus.chip.data == ErasedAt(was.data, offset0, i * size) then i * size else (i + 1) * size;
        assert ErasedUpTo(was, bus.chip, bus.eraser, offset0, length, n);
        return Failed;
      }
      offset := offset + size;
      i := i + 1;
    }
    UnitsOrder(i, units, size);
    r := Done;
  }

  ghost predicate ErasedUpTo(was: Chip, now: Chip, eraser: Eraser, offset: nat, length: nat, n: nat) {
    eraser.size > 0 && n <= length && n % eraser.size == 0 && now.data == ErasedAt(was.data, offset, n)
  }

  ghost predicate ErasedPrefix(was: Chip, now: Chip, eraser: Eraser, offset: nat, length: nat) {
    exists n :: ErasedUpTo(was, now, eraser, offset, length, n)
  }

  // Write enable, erase, wait.
  method EraseUnit(bus: Bus, offset: nat) returns (ok: bool)
    requires Idle(bus.chip) && bus.eraser.size > 0 && offset % bus.eraser.size == 0
    requires offset < |bus.chip.data| <= LIMIT
    requires bus.eraser.command !in {WRITE_ENABLE, WRITE_DISABLE, PAGE_PROGRAM, WORD_PROGRAM}
    modifies bus
    ensures Spent(old(bus.budget), bus.budget, 3, ok)
    ensures ok ==> Idle(bus.chip) && bus.chip.data == ErasedAt(old(bus.chip.data), offset, bus.eraser.size)
    ensures !ok ==> bus.chip.data in {old(bus.chip.data), ErasedAt(old(bus.chip.data), offset, bus.eraser.size)}
  {
    var cmd := [bus.eraser.command, offset / 0x1_0000 % 0x100, offset / 0x100 % 0x100, offset % 0x100];
    EraseAddress(bus.eraser.command, offset);
    ok := bus.Xfer([WRITE_ENABLE]);
    if !ok {
      return;
    }
    ok := bus.Xfer(cmd);
    if !ok {
      return;
    }
    ok := bus.WaitReady();
  }

  lemma EraseAddress(command: byte, at: nat)
    requires at < LIMIT
    ensures Address([command, at / 0x1_0000 % 0x100, at / 0x100 % 0x100, at % 0x100]) == at
  {
    AddressParts(at);
  }

  lemma ErasedNothing(data: seq<byte>, at: nat)
    ensures ErasedAt(data, at, 0) == data
  {
  }

  lemma ErasedNext(data: seq<byte>, at: nat, n: nat, size: nat)
    ensures ErasedAt(ErasedAt(data, at, n), at + n, size) == ErasedAt(data, at, n + size)
  {
  }

  lemma Whole(x: nat, size: nat)
    requires size > 0 && x % size == 0
    ensures x == x / size * size
  {
  }

  lemma MultipleOf(k: nat, size: nat)
    requires size > 0
    ensures k * size >= 0 && k * size % size == 0
  {
    DivUnique(k * size, k, size, 0);
  }

  lemma UnitsOrder(i: nat, units: nat, size: nat)
    requires size > 0 && i <= units
    ensures i * size < units * size <==> i < units
    ensures i < units ==> (i + 1) * size <= units * size
  {
    if i < units {
      Distribute(units - i, i, size);
      AtLeastOnce(units - i, size);
      Distribute(i, 1, size);
    }
  }

  /** Erasing a range and writing inside it: the bytes read back, the rest of the range is erased, and
      nothing outside changes, whatever the chip held. */
  lemma EraseThenWrite(was: Chip, mid: Chip, now: Chip, at: nat, length: nat, offset: nat, buf: seq<byte>)
    requires Fits(was, at, length) && mid.data == ErasedAt(was.data, at, length)
    requires at <= offset && offset + |buf| <= at + length && Wrote(mid, now, offset, buf, true)
    ensures |now.data| == |was.data| && now.data[offset..offset + |buf|] == buf
    ensures forall k :: at <= k < offset || offset + |buf| <= k < at + length ==> now.data[k] == ERASED
    ensures forall k :: 0 <= k < at || at + length <= k < |was.data| ==> now.data[k] == was.data[k]
  {
    WroteOnErased(mid, now, offset, buf);
  }
}
