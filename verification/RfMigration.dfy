/** The move of the RF driver from embedded to SPI flash at boot, init_platform_bootloader in
    Board/SC3165/platform.c. */
module RfMigration {
  import opened Flash
  import opened CheckSum
  import opened Chunks

  // Addresses in the embedded flash, counted from 0x08000000.
  const EMBEDDED: nat := 0x8_0000
  const TAG: nat := 0x8000
  const TAG_SECTOR: nat := 0x4000
  const SOURCE: nat := 0x4_0000
  const CRC_CELL: nat := 0x7_FFFF

  /** The row of the RF partition in mico_partitions. */
  datatype Rf = Rf(start: nat, length: nat)

  /** What the two chips hold. */
  datatype Chips = Chips(embedded: seq<byte>, spi: seq<byte>)

  datatype Outcome = Skipped | Failed | Halted | Committed

  predicate Fit(rf: Rf, c: Chips) {
    |c.embedded| == EMBEDDED && 0 < rf.length && SOURCE + rf.length <= EMBEDDED && rf.start + rf.length <= |c.spi|
  }

  function Source(rf: Rf, c: Chips): (s: seq<byte>)
    requires Fit(rf, c)
    ensures |s| == rf.length
  {
    c.embedded[SOURCE..SOURCE + rf.length]
  }

  function Dest(rf: Rf, c: Chips): (s: seq<byte>)
    requires Fit(rf, c)
    ensures |s| == rf.length
  {
    c.spi[rf.start..rf.start + rf.length]
  }

  /** spi with s in place of the partition. */
  function Replaced(rf: Rf, spi: seq<byte>, s: seq<byte>): (r: seq<byte>)
    requires rf.start + rf.length <= |spi| && |s| == rf.length
    ensures |r| == |spi| && r[rf.start..rf.start + rf.length] == s
  {
    spi[..rf.start] + s + spi[rf.start + rf.length..]
  }

  predicate SameOutside(rf: Rf, c: Chips, d: Chips)
    requires Fit(rf, c)
  {
    && |d.spi| == |c.spi| && d.embedded == c.embedded
    && d.spi[..rf.start] == c.spi[..rf.start] && d.spi[rf.start + rf.length..] == c.spi[rf.start + rf.length..]
  }

  /** Erasing the tag takes its whole sector. */
  function Untagged(embedded: seq<byte>): (r: seq<byte>)
    requires |embedded| == EMBEDDED
    ensures |r| == EMBEDDED && r[TAG] == BLANK
  {
    embedded[..TAG] + Filled(TAG_SECTOR) + embedded[TAG + TAG_SECTOR..]
  }

  predicate Tagged(c: Chips)
    requires |c.embedded| == EMBEDDED
  {
    c.embedded[TAG] == 0
  }

  predicate Checks(rf: Rf, step: (int, byte) -> int, c: Chips, s: seq<byte>)
    requires Fit(rf, c)
  {
    Fold(step, 0, s) == c.embedded[CRC_CELL]
  }

  /** A boot without any fault. */
  function CleanOutcome(rf: Rf, step: (int, byte) -> int, c: Chips): (outcome: Outcome)
    requires Fit(rf, c)
  {
    if !Tagged(c) then Skipped else if Checks(rf, step, c, Source(rf, c)) then Committed else Halted
  }

  function CleanBoot(rf: Rf, step: (int, byte) -> int, c: Chips): (d: Chips)
    requires Fit(rf, c)
    ensures Fit(rf, d)
  {
    match CleanOutcome(rf, step, c)
    case Skipped => c
    case Committed => Chips(Untagged(c.embedded), Replaced(rf, c.spi, Source(rf, c)))
    case _ => Chips(c.embedded, Replaced(rf, c.spi, Source(rf, c)))
  }

  /** What an undisturbed boot decides, on the cells it looks at: skipped unless the byte at 0x8000 is 0, and
      else committed if and only if the source has the CRC-8 stored at 0x7_FFFF. */
  lemma DecidesOnCells(rf: Rf, step: (int, byte) -> int, c: Chips)
    requires Fit(rf, c)
    ensures var crc := Fold(step, 0, c.embedded[0x4_0000..0x4_0000 + rf.length]);
      && (CleanOutcome(rf, step, c) == Skipped <==> c.embedded[0x8000] != 0)
      && (CleanOutcome(rf, step, c) == Committed <==> c.embedded[0x8000] == 0 && crc == c.embedded[0x7_FFFF])
      && (CleanOutcome(rf, step, c) == Halted <==> c.embedded[0x8000] == 0 && crc != c.embedded[0x7_FFFF])
  {
  }

  /** And what it leaves, cell by cell: the source in the destination unless it was skipped, the tag's sector of
      16 KB blank if it was committed, and everything else as it was. */
  lemma BootsCellByCell(rf: Rf, step: (int, byte) -> int, c: Chips, i: nat)
    requires Fit(rf, c)
    ensures var d := CleanBoot(rf, step, c); |d.embedded| == |c.embedded| && |d.spi| == |c.spi|
    ensures i < |c.embedded| ==> var cell := CleanBoot(rf, step, c).embedded[i];
      cell == if 0x8000 <= i < 0xC000 && CleanOutcome(rf, step, c) == Committed then 0xFF else c.embedded[i]
    ensures i < |c.spi| ==> var cell := CleanBoot(rf, step, c).spi[i];
      cell == if rf.start <= i < rf.start + rf.length && CleanOutcome(rf, step, c) != Skipped
              then c.embedded[0x4_0000 + i - rf.start] else c.spi[i]
  {
    var d := CleanBoot(rf, step, c);
    if rf.start <= i < rf.start + rf.length && CleanOutcome(rf, step, c) != Skipped {
      assert d.spi[rf.start..rf.start + rf.length] == Source(rf, c);
      assert d.spi[i] == d.spi[rf.start..rf.start + rf.length][i - rf.start];
    }
  }

  /** A boot of a faithful driver, cut short anywhere or not at all: nothing but the destination has
      changed, or the move is complete. */
  predicate CutBoot(rf: Rf, step: (int, byte) -> int, c: Chips, d: Chips) {
    Fit(rf, c) && if SameOutside(rf, c, d) then Tagged(c) || d == c
                  else CleanOutcome(rf, step, c) == Committed && d == CleanBoot(rf, step, c)
  }

  /** What the chips hold before the first of a series of boots, each cut short, and after each of them. */
  predicate CutBoots(rf: Rf, step: (int, byte) -> int, boots: seq<Chips>)
    decreases |boots|
  {
    var n := |boots|;
    n > 0 && if n == 1 then Fit(rf, boots[0])
             else CutBoots(rf, step, boots[..n - 1]) && CutBoot(rf, step, boots[n - 2], boots[n - 1])
  }

  lemma CutBootKeepsOutcome(rf: Rf, step: (int, byte) -> int, c: Chips, d: Chips)
    requires CutBoot(rf, step, c, d)
    ensures Fit(rf, d) && CleanBoot(rf, step, d) == CleanBoot(rf, step, c)
  {
    if SameOutside(rf, c, d) {
      assert Source(rf, d) == Source(rf, c);
    } else {
      assert !Tagged(d);
    }
  }

  /** However often boots are cut short, one uninterrupted boot leaves the flash as if it had been the
      only one. */
  lemma {:induction false} CutBootsThenClean(rf: Rf, step: (int, byte) -> int, boots: seq<Chips>)
    requires CutBoots(rf, step, boots)
    ensures var last := boots[|boots| - 1];
      Fit(rf, boots[0]) && Fit(rf, last) && CleanBoot(rf, step, last) == CleanBoot(rf, step, boots[0])
    decreases |boots|
  {
    if |boots| > 1 {
      var early := boots[..|boots| - 1];
      CutBootsThenClean(rf, step, early);
      CutBootKeepsOutcome(rf, step, early[|early| - 1], boots[|boots| - 1]);
    }
  }

  /** A source that does not match its CRC is never committed: the tag stays, and every boot that gets so
      far copies again and halts again. */
  lemma {:induction false} MismatchNeverCommits(rf: Rf, step: (int, byte) -> int, boots: seq<Chips>)
    requires CutBoots(rf, step, boots) && Fit(rf, boots[0]) && CleanOutcome(rf, step, boots[0]) == Halted
    ensures var last := boots[|boots| - 1];
      Fit(rf, last) && last.embedded == boots[0].embedded && CleanOutcome(rf, step, last) == Halted
    decreases |boots|
  {
    if |boots| > 1 {
      MismatchNeverCommits(rf, step, boots[..|boots| - 1]);
    }
  }

  lemma CleanBootIsFinal(rf: Rf, step: (int, byte) -> int, c: Chips)
    requires Fit(rf, c)
    ensures var d := CleanBoot(rf, step, c);
      && CleanBoot(rf, step, d) == d
      && (CleanOutcome(rf, step, c) == Committed ==> CleanOutcome(rf, step, d) == Skipped)
      && (Tagged(c) ==> Dest(rf, d) == Source(rf, c))
  {
    var d := CleanBoot(rf, step, c);
    CutBootKeepsOutcome(rf, step, c, d);
  }

  // ---- the code ----

  class Loader {
    const rf: Rf
    const step: (int, byte) -> int
    const data: array<byte>
    var chips: Chips
    var mode: Mode
    var powered: bool

    constructor (rf: Rf, step: (int, byte) -> int, chips: Chips, mode: Mode)
      requires Fit(rf, chips)
      ensures Valid() && this.chips == chips && this.mode == mode && powered && fresh(data)
      ensures this.rf == rf && this.step == step
    {
      this.rf, this.step, this.chips, this.mode, powered := rf, step, chips, mode, true;
      data := new byte[SIZE_PER_RW];
    }

    predicate Valid()
      reads this
    {
      Fit(rf, chips) && data.Length == SIZE_PER_RW
    }

    predicate Steady()
      reads `mode
    {
      mode == Reliable || mode == PowerCut
    }

    twostate predicate Worn()
      reads this
    {
      powered ==> old(powered)
    }

    method Attempt() returns (ok: bool)
      modifies `powered
      ensures Worn() && (ok ==> powered) && (Steady() && powered ==> ok)
    {
      if !powered { return false; }
      var dies: bool := *;
      if mode != Reliable && dies {
        powered := false;
        return false;
      }
      var fails: bool := *;
      ok := Steady() || !fails;
    }

    /** Erase the destination; cut short, it has erased some cells and left the others. */
    method EraseDest() returns (ok: bool)
      requires Valid()
      modifies `chips, `powered
      ensures Valid() && Worn() && SameOutside(rf, old(chips), chips)
      ensures ok ==> powered && Dest(rf, chips) == Filled(rf.length)
      ensures Steady() && powered ==> ok
    {
      ok := Attempt();
      var cells := Filled(rf.length);
      if !ok {
        cells :| |cells| == rf.length &&
          forall i :: 0 <= i < |cells| ==> cells[i] == BLANK || cells[i] == Dest(rf, chips)[i];
      }
      chips := Chips(chips.embedded, Replaced(rf, chips.spi, cells));
    }

    /** platform_flash_read of the embedded flash, a memory copy. */
    method ReadSource(offset: nat, len: nat)
      requires Valid() && len <= SIZE_PER_RW && offset + len <= rf.length
      modifies data
      ensures data[..len] == Source(rf, chips)[offset..offset + len]
    {
      var source := Source(rf, chips);
      forall i | 0 <= i < len { data[i] := source[offset + i]; }
    }

    method ReadDest(offset: nat, len: nat) returns (ok: bool)
      requires Valid() && len <= SIZE_PER_RW && offset + len <= rf.length
      modifies data, `powered
      ensures Worn() && (Steady() && powered ==> ok)
      ensures ok ==> powered && data[..len] == Dest(rf, chips)[offset..offset + len]
    {
      ok := Attempt();
      var dest := Dest(rf, chips);
      forall i | 0 <= i < len { data[i] := if ok then dest[offset + i] else BLANK; }
    }

    /** platform_flash_write to the SPI flash; a write that fails, or any write in Corrupting mode, may
        leave anything in the cells it was to program. */
    method WriteDest(offset: nat, len: nat) returns (ok: bool)
      requires Valid() && len <= SIZE_PER_RW && offset + len <= rf.length
      modifies `chips, `powered
      ensures Valid() && Worn() && SameOutside(rf, old(chips), chips) && (Steady() && powered ==> ok)
      ensures ok ==> powered
      ensures ok && mode != Corrupting ==> Dest(rf, chips) == Programmed(Dest(rf, old(chips)), offset, data[..len])
    {
      ok := Attempt();
      var was := Dest(rf, chips);
      var now := Programmed(was, offset, data[..len]);
      if !ok || mode == Corrupting {
        assert |now[offset..offset + len]| == len;
        var junk: seq<byte> :| |junk| == len;
        now := was[..offset] + junk + was[offset + len..];
      }
      chips := Chips(chips.embedded, Replaced(rf, chips.spi, now));
    }

    /** Erase of the one byte at the tag's address, which is its whole sector. */
    method EraseTag() returns (ok: bool)
      requires Valid()
      modifies `chips, `powered
      ensures Valid() && Worn() && (Steady() && powered ==> ok)
      ensures chips == if ok then Chips(Untagged(old(chips).embedded), old(chips).spi) else old(chips)
      ensures ok ==> powered
    {
      ok := Attempt();
      if ok { chips := chips.(embedded := Untagged(chips.embedded)); }
    }

    predicate CopiedUpTo(source: seq<byte>, done: nat)
      requires Valid()
      reads this
    {
      |source| == rf.length && done <= |source| && Source(rf, chips) == source
      && (mode != Corrupting ==> Dest(rf, chips) == source[..done] + Filled(rf.length - done))
    }

    method CopyChunk(done: nat, copyLength: nat, ghost source: seq<byte>) returns (ok: bool)
      requires Valid() && CopiedUpTo(source, done) && copyLength <= SIZE_PER_RW && done + copyLength <= rf.length
      modifies data, `chips, `powered
      ensures Valid() && Worn() && SameOutside(rf, old(chips), chips) && (Steady() && powered ==> ok)
      ensures ok ==> CopiedUpTo(source, done + copyLength)
    {
      ReadSource(done, copyLength);
      CopyGrows(source, done, copyLength);
      ok := WriteDest(done, copyLength);
    }

    /** The copy loop, over destination cells just erased. */
    method Copy() returns (ok: bool)
      requires Valid() && Dest(rf, chips) == Filled(rf.length)
      modifies data, `chips, `powered
      ensures Valid() && Worn() && SameOutside(rf, old(chips), chips) && (Steady() && powered ==> ok)
      ensures ok && mode != Corrupting ==> Dest(rf, chips) == Source(rf, old(chips))
    {
      ghost var source := Source(rf, chips);
      ok := true;
      var i, done: nat := 0, 0; // done: the address cursors, which the driver advances together
      while ok && i <= rf.length / SIZE_PER_RW
        invariant Valid() && Worn() && SameOutside(rf, old(chips), chips) && (Steady() && powered ==> ok)
        invariant done == Offset(rf.length, i)
        invariant ok ==> CopiedUpTo(source, done)
        decreases rf.length / SIZE_PER_RW + 1 - i
      {
        ChunkBounds(rf.length, i);
        var copyLength := ChunkLength(rf.length, i);
        if copyLength == 0 { break; }
        ok := CopyChunk(done, copyLength, source);
        i, done := i + 1, done + copyLength;
      }
      assert Filled(0) == [];
    }

    /** The CRC-8 loop over the destination. */
    method Verify() returns (ok: bool, crc: int)
      requires Valid()
      modifies data, `powered
      ensures Worn() && (Steady() && powered ==> ok)
      ensures ok ==> crc == Fold(step, 0, Dest(rf, chips))
    {
      ok, crc := true, 0;
      var i, done: nat := 0, 0;
      while ok && i <= rf.length / SIZE_PER_RW
        invariant Valid() && Worn() && (Steady() && powered ==> ok)
        invariant done == Offset(rf.length, i)
        invariant ok ==> crc == Fold(step, 0, Dest(rf, chips)[..done])
        decreases rf.length / SIZE_PER_RW + 1 - i
      {
        ChunkBounds(rf.length, i);
        var copyLength := ChunkLength(rf.length, i);
        if copyLength == 0 { break; }
        ok := ReadDest(done, copyLength);
        if ok {
          ChunkFolds(step, Dest(rf, chips), done, copyLength, data[..copyLength]);
          crc := Fold(step, crc, data[..copyLength]);
        }
        i, done := i + 1, done + copyLength;
      }
      assert ok ==> done == rf.length && Dest(rf, chips)[..done] == Dest(rf, chips);
    }

    /** What follows the copy: the tag is erased if the destination has this CRC-8, and else the boot halts. */
    method Commit(crcResult: byte) returns (outcome: Outcome)
      requires Valid()
      modifies data, `chips, `powered
      ensures Valid() && Worn() && outcome != Skipped
      ensures chips == if outcome == Committed then Chips(Untagged(old(chips).embedded), old(chips).spi) else old(chips)
      ensures outcome == Committed ==> Fold(step, 0, Dest(rf, old(chips))) == crcResult
      ensures outcome == Halted ==> Fold(step, 0, Dest(rf, old(chips))) != crcResult
      ensures Steady() && powered ==>
        outcome == if Fold(step, 0, Dest(rf, old(chips))) == crcResult then Committed else Halted
    {
      outcome := Failed;
      var ok, crc := Verify();
      if ok {
        if crcResult != crc {
          outcome := Halted;
        } else {
          ok := EraseTag();
          if ok { outcome := Committed; }
        }
      }
    }

    /** init_platform_bootloader. Halted is its endless loop; a failed call leaves it at once. */
    method InitPlatformBootloader() returns (outcome: Outcome)
      requires Valid()
      modifies this, data
      ensures Valid() && Worn()
      ensures outcome == Skipped <==> old(chips).embedded[0x8000] != 0
      ensures outcome == Skipped ==> chips == old(chips)
      ensures outcome != Committed ==> SameOutside(rf, old(chips), chips)
      ensures outcome == Committed ==>
        && chips.embedded == Untagged(old(chips).embedded)
        && Fold(step, 0, Dest(rf, chips)) == old(chips).embedded[0x7_FFFF]
        && SameOutside(rf, old(chips), chips.(embedded := old(chips).embedded))
      ensures outcome == Halted ==> Fold(step, 0, Dest(rf, chips)) != old(chips).embedded[0x7_FFFF]
      ensures mode != Corrupting ==> CutBoot(rf, step, old(chips), chips)
      ensures Steady() && powered ==>
        chips == CleanBoot(rf, step, old(chips)) && outcome == CleanOutcome(rf, step, old(chips))
    {
      var isDriverNeedCopy, crcResult := chips.embedded[TAG], chips.embedded[CRC_CELL];
      if isDriverNeedCopy != 0 { return Skipped; }
      outcome := Failed;
      var ok := Attempt();
      if ok { ok := Attempt(); }
      if ok { ok := EraseDest(); }
      if ok { ok := Copy(); }
      if ok {
        if mode != Corrupting { BehindCopy(rf, step, old(chips), chips); }
        outcome := Commit(crcResult);
      }
    }
  }

  /** Chips that differ in the destination alone are told apart by it. */
  lemma DestinationTells(rf: Rf, c: Chips, d: Chips)
    requires Fit(rf, c) && Fit(rf, d) && SameOutside(rf, c, d)
    ensures d.spi == Replaced(rf, c.spi, Dest(rf, d))
  {
    assert d.spi == d.spi[..rf.start] + Dest(rf, d) + d.spi[rf.start + rf.length..];
  }

  /** What a tagged boot leaves behind a copy that has succeeded. */
  lemma BehindCopy(rf: Rf, step: (int, byte) -> int, c: Chips, copied: Chips)
    requires Fit(rf, c) && Fit(rf, copied) && Tagged(c) && SameOutside(rf, c, copied)
    requires Dest(rf, copied) == Source(rf, c)
    ensures CleanBoot(rf, step, c) ==
      if Fold(step, 0, Dest(rf, copied)) == c.embedded[CRC_CELL] then Chips(Untagged(copied.embedded), copied.spi)
      else copied
    ensures Fold(step, 0, Dest(rf, copied)) == c.embedded[CRC_CELL] ==>
      CutBoot(rf, step, c, Chips(Untagged(copied.embedded), copied.spi))
  {
    DestinationTells(rf, c, copied);
    assert Untagged(copied.embedded)[TAG] != c.embedded[TAG];
  }

  lemma ChunkFolds(step: (int, byte) -> int, dest: seq<byte>, done: nat, n: nat, chunk: seq<byte>)
    requires done + n <= |dest| && chunk == dest[done..done + n]
    ensures Fold(step, Fold(step, 0, dest[..done]), chunk) == Fold(step, 0, dest[..done + n])
  {
    assert chunk == Slice(dest, done, n);
    FoldNext(step, dest, done, n);
  }

  lemma CopyGrows(source: seq<byte>, done: nat, n: nat)
    requires done + n <= |source|
    ensures Programmed(source[..done] + Filled(|source| - done), done, source[done..done + n])
         == source[..done + n] + Filled(|source| - done - n)
  {
    var was := source[..done] + Filled(|source| - done);
    ProgramsErased(was, done, source[done..done + n]);
    assert was[done + n..] == Filled(|source| - done - n);
  }
}
