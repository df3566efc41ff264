/**
  A serial NOR flash as the sortbootorder drivers (payloads/sortbootorder/) take it to be: commands are
  byte strings, a program or an erase needs the write-enable latch and clears it, a page program wraps
  inside its 256-byte page, programming only clears bits, word programming increments its address by
  itself, and a busy chip ignores everything but status polling.  The bus can fail at any transfer.
 */
module FlashChip {
  import opened Wrappers

  const PAGE: nat := 256
  const LIMIT: nat := 0x100_0000

  type byte = x: nat | x < 256

  const ERASED: byte := 0xFF

  const WRITE_ENABLE: byte := 0x06
  const WRITE_DISABLE: byte := 0x04
  const PAGE_PROGRAM: byte := 0x02
  const WORD_PROGRAM: byte := 0xAD

  datatype Chip = Chip(data: seq<byte>, wel: bool, aai: Option<nat>, busy: bool)

  // What erasing is done with: the command and the size it erases.
  datatype Eraser = Eraser(command: byte, size: nat)

  // Programming clears bits.
  function And(x: byte, y: byte): byte {
    ((x as bv8) & (y as bv8)) as nat
  }

  lemma AndErased(y: byte)
    ensures And(ERASED, y) == y
  {
    assert (0xFF as bv8) & (y as bv8) == y as bv8;
  }

  // The data with buf programmed at address at.
  function Programmed(data: seq<byte>, at: nat, buf: seq<byte>): (r: seq<byte>)
    requires at + |buf| <= |data|
    ensures |r| == |data|
  {
    seq(|data|, k requires 0 <= k < |data| =>
      if at <= k < at + |buf| then And(data[k], buf[k - at]) else data[k])
  }

  /** Programming two stretches in a row is programming both at once. */
  lemma ProgrammedConcat(data: seq<byte>, at: nat, a: seq<byte>, b: seq<byte>)
    requires at + |a| + |b| <= |data|
    ensures Programmed(Programmed(data, at, a), at + |a|, b) == Programmed(data, at, a + b)
  {
  }

  lemma ProgrammedNothing(data: seq<byte>, at: nat)
    requires at <= |data|
    ensures Programmed(data, at, []) == data
  {
  }

  /** On erased bytes, programming is writing. */
  lemma ProgrammedOnErased(data: seq<byte>, at: nat, buf: seq<byte>)
    requires at + |buf| <= |data|
    requires forall k :: at <= k < at + |buf| ==> data[k] == ERASED
    ensures Programmed(data, at, buf) == data[..at] + buf + data[at + |buf|..]
  {
    var p, q := Programmed(data, at, buf), data[..at] + buf + data[at + |buf|..];
    forall k | 0 <= k < |data| ensures p[k] == q[k] {
      if at <= k < at + |buf| {
        AndErased(buf[k - at]);
      }
    }
  }

  // What the chip does with a page program: addresses wrap inside the page.
  function ProgrammedPage(data: seq<byte>, at: nat, buf: seq<byte>): seq<byte> {
    seq(|data|, k requires 0 <= k < |data| =>
      if k / PAGE == at / PAGE && (k - at) % PAGE < |buf| then And(data[k], buf[(k - at) % PAGE]) else data[k])
  }

  /** A page program that stays inside its page programs the bytes where they belong. */
  lemma InsidePage(data: seq<byte>, at: nat, buf: seq<byte>)
    requires at + |buf| <= |data| && at % PAGE + |buf| <= PAGE
    ensures ProgrammedPage(data, at, buf) == Programmed(data, at, buf)
  {
    var p, q := ProgrammedPage(data, at, buf), Programmed(data, at, buf);
    forall k | 0 <= k < |data| ensures p[k] == q[k] {
      PageOffset(k, at, |buf|);
    }
  }

  lemma PageOffset(k: nat, at: nat, n: nat)
    requires at % PAGE + n <= PAGE
    ensures at <= k < at + n <==> k / PAGE == at / PAGE && (k - at) % PAGE < n
    ensures at <= k < at + n ==> (k - at) % PAGE == k - at
  {
  }

  /** One that does not stay inside overwrites the start of its page. */
  lemma AcrossPageWraps(data: seq<byte>, at: nat, buf: seq<byte>)
    requires at + |buf| <= |data| && |buf| <= PAGE < at % PAGE + |buf|
    ensures var home := at - at % PAGE;
      ProgrammedPage(data, at, buf)[home] == And(data[home], buf[PAGE - at % PAGE])
  {
    var home := at - at % PAGE;
    assert home / PAGE == at / PAGE && (home - at) % PAGE == PAGE - at % PAGE;
  }

  function ErasedAt(data: seq<byte>, at: nat, size: nat): seq<byte> {
    seq(|data|, k requires 0 <= k < |data| => if at <= k < at + size then ERASED else data[k])
  }

  function Address(c: seq<byte>): nat
    requires |c| >= 4
  {
    var high: nat, middle: nat, low: nat := c[1], c[2], c[3];
    high * 0x1_0000 + middle * 0x100 + low
  }

  // What a transfer does to the chip.
  function Command(chip: Chip, eraser: Eraser, c: seq<byte>): Chip {
    if c == [] || chip.busy then chip
    else if c[0] == WRITE_DISABLE then chip.(wel := false, aai := None)
    else if c[0] == WORD_PROGRAM then WordProgram(chip, c)
    else if chip.aai.Some? then chip
    else if c[0] == WRITE_ENABLE then chip.(wel := true)
    else if c[0] == PAGE_PROGRAM then PageProgram(chip, c)
    else if c[0] == eraser.command && |c| == 4 && eraser.size > 0 && chip.wel && Address(c) < |chip.data| then
      var at := Address(c) - Address(c) % eraser.size;
      chip.(data := ErasedAt(chip.data, at, eraser.size), wel := false, busy := true)
    else chip
  }

  function PageProgram(chip: Chip, c: seq<byte>): Chip {
    if chip.wel && 4 < |c| <= 4 + PAGE && Address(c) < |chip.data| then
      chip.(data := ProgrammedPage(chip.data, Address(c), c[4..]), wel := false, busy := true)
    else chip
  }

  // The first word comes with its address, the others with the command byte alone.
  function WordProgram(chip: Chip, c: seq<byte>): Chip {
    if chip.aai.None? then
      if chip.wel && |c| == 6 && Address(c) % 2 == 0 && Address(c) + 2 <= |chip.data| then
        chip.(data := Programmed(chip.data, Address(c), c[4..]), aai := Some(Address(c) + 2), busy := true)
      else chip
    else
      if |c| == 3 && chip.aai.value + 2 <= |chip.data| then
        chip.(data := Programmed(chip.data, chip.aai.value, c[1..]), aai := Some(chip.aai.value + 2), busy := true)
      else chip
  }

  // Ready for the next write.
  predicate Idle(chip: Chip) {
    !chip.busy && chip.aai.None?
  }

  class Bus {
    var chip: Chip
    const eraser: Eraser

    // Transfers left before the bus fails.
    var budget: nat

    // spi_xfer()
    method Xfer(c: seq<byte>) returns (ok: bool)
      modifies this
      ensures ok == (old(budget) > 0)
      ensures ok ==> chip == Command(old(chip), eraser, c) && budget == old(budget) - 1
      ensures !ok ==> chip == old(chip) && budget == 0
    {
      ok := budget > 0;
      if ok {
        chip := Command(chip, eraser, c);
        budget := budget - 1;
      }
    }

    // spi_flash_cmd_wait_ready(): poll until the chip is no longer busy.
    method WaitReady() returns (ok: bool)
      modifies this
      ensures ok == (old(budget) > 0)
      ensures ok ==> chip == old(chip).(busy := false) && budget == old(budget) - 1
      ensures !ok ==> chip == old(chip) && budget == 0
    {
      ok := budget > 0;
      if ok {
        chip := chip.(busy := false);
        budget := budget - 1;
      }
    }
  }
}
