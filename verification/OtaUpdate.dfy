/** The installer of staged firmware, Bootloader/Update_for_OTA.c. */
module OtaUpdate {
  import opened Flash
  import opened CheckSum
  import opened Chunks

  const RECORD_SIZE: nat := 24
  const PARA_RAM_SIZE: nat := 16384

  datatype Check =
    | NotExist | NeedUpdate(dest: Partition) | UpdateTagNotExist | ContentTypeNotExist
    | DataLengthOverflow | StartAddressError | CrcError

  // ---- the boot record (boot_table_t, little-endian) ----

  function Le16(b: seq<byte>, i: nat): (r: nat)
    requires i + 2 <= |b|
  {
    b[i] as int + 0x100 * b[i + 1] as int
  }

  function Le32(b: seq<byte>, i: nat): (r: nat)
    requires i + 4 <= |b|
  {
    Le16(b, i) + 0x1_0000 * Le16(b, i + 2)
  }

  type Record = r: seq<byte> | |r| == RECORD_SIZE witness Filled(RECORD_SIZE)

  function StartAddress(rec: Record): (a: nat) { Le32(rec, 0) }
  function Length(rec: Record): (len: nat) { Le32(rec, 4) }
  function Crc(rec: Record): (c: nat) { Le16(rec, 18) }

  /** What the fields alone say of a record. */
  function Classify(layout: Layout, rec: Record): (c: Check)
    ensures c.NeedUpdate? ==> c.dest != OtaTemp && c.dest != Parameter1 && Length(rec) <= layout(c.dest).length
  {
    if AllBlank(rec) then NotExist
    else if rec[17] != 'U' as int then UpdateTagNotExist
    else if StartAddress(rec) != layout(OtaTemp).start then StartAddressError
    else if rec[16] !in {'B' as int, 'A' as int, 'D' as int} then ContentTypeNotExist
    else
      var dest :=
        if rec[16] == 'B' as int then Bootloader
        else if rec[16] == 'A' as int then Application
        else RfFirmware;
      if Length(rec) > layout(dest).length then DataLengthOverflow else NeedUpdate(dest)
  }

  /** The verdict of updateLogCheck when no read fails: the checksum pass rejects a record only by
      running off the end of the staging partition, and it is skipped for checksum 0xFFFF. */
  function Decide(layout: Layout, rec: Record): (c: Check)
    ensures c.NeedUpdate? ==> c.dest != OtaTemp && c.dest != Parameter1 && Length(rec) <= layout(c.dest).length
  {
    var c := Classify(layout, rec);
    if c.NeedUpdate? && Crc(rec) != 0xFFFF && Length(rec) > layout(OtaTemp).length then CrcError else c
  }

  /** Whether updateLogCheck gets as far as reading the image for its checksum. */
  predicate ReadsImage(layout: Layout, rec: Record) {
    Classify(layout, rec).NeedUpdate? && Crc(rec) != 0xFFFF && Length(rec) > 0
  }

  // ---- what a run of update() does to the flash ----

  /** The partitions update() cannot do without. */
  predicate CanRun(layout: Layout) {
    layout(OtaTemp).present && layout(Parameter1).present && CanReadRecord(layout)
  }

  predicate CanReadRecord(layout: Layout) {
    layout(Parameter1).length >= RECORD_SIZE
  }

  function RecordOf(layout: Layout, m: Memory): (r: Record)
    requires Fits(layout, m) && CanRun(layout)
  {
    m[Parameter1][..RECORD_SIZE]
  }

  function Verdict(layout: Layout, m: Memory): (c: Check)
    requires Fits(layout, m) && CanRun(layout)
    ensures c.NeedUpdate? ==>
      c.dest != OtaTemp && c.dest != Parameter1 && Length(RecordOf(layout, m)) <= layout(c.dest).length
  {
    Decide(layout, RecordOf(layout, m))
  }

  function Cleared(para: seq<byte>): (r: seq<byte>)
    requires |para| >= RECORD_SIZE
  {
    Filled(RECORD_SIZE) + para[RECORD_SIZE..]
  }

  /** The destination once n bytes of the staged image are in an erased partition. */
  function Burnt(layout: Layout, m: Memory, dest: Partition, n: nat): (r: seq<byte>)
    requires Fits(layout, m) && n <= layout(OtaTemp).length && n <= layout(dest).length
    ensures |r| == layout(dest).length
  {
    m[OtaTemp][..n] + Filled(layout(dest).length - n)
  }

  /** How much of an image gets copied: all, or the chunks that end inside the staging partition. */
  function Copied(layout: Layout, length: nat): (n: nat)
    ensures n <= length && n <= layout(OtaTemp).length
  {
    var staging := layout(OtaTemp).length;
    if length <= staging then length else staging / SIZE_PER_RW * SIZE_PER_RW
  }

  function AfterInstall(layout: Layout, m: Memory, dest: Partition, length: nat): (r: Memory)
    requires Fits(layout, m) && CanRun(layout) && dest != OtaTemp && dest != Parameter1 && length <= layout(dest).length
    ensures Fits(layout, r)
  {
    if !layout(dest).present then m else
    var r := m[dest := Burnt(layout, m, dest, Copied(layout, length))];
    if Copied(layout, length) < length then r
    else r[Parameter1 := Cleared(m[Parameter1])][OtaTemp := Filled(layout(OtaTemp).length)]
  }

  function InstallStatus(layout: Layout, dest: Partition, length: nat): (err: Status) {
    if !layout(dest).present then UnsupportedErr else if Copied(layout, length) < length then ParamErr else NoErr
  }

  /** The flash after an undisturbed run. */
  function CleanBoot(layout: Layout, m: Memory): (r: Memory)
    requires Fits(layout, m)
    ensures Fits(layout, r)
  {
    if !CanRun(layout) then m else
    match Verdict(layout, m)
    case NeedUpdate(dest) => AfterInstall(layout, m, dest, Length(RecordOf(layout, m)))
    case _ => m[OtaTemp := Filled(layout(OtaTemp).length)]
  }

  function CleanStatus(layout: Layout, m: Memory): (err: Status)
    requires Fits(layout, m)
  {
    if !layout(OtaTemp).present || !layout(Parameter1).present then UnsupportedErr
    else if layout(Parameter1).length < RECORD_SIZE then ParamErr
    else match Verdict(layout, m)
      case NeedUpdate(dest) => InstallStatus(layout, dest, Length(RecordOf(layout, m)))
      case _ => NoErr
  }

  predicate SameBut(m: Memory, m': Memory, ps: set<Partition>) {
    forall p: Partition :: p !in ps ==> m'[p] == m[p]
  }

  /** The image is in place: the first n bytes of the destination are those staged in m. */
  predicate Installed(m: Memory, m': Memory, dest: Partition, n: nat) {
    n <= |m[OtaTemp]| && n <= |m'[dest]| && m'[dest][..n] == m[OtaTemp][..n]
  }

  /** A chunk stands behind the cells before it; `exact` when writes store what they are given. */
  predicate ChunkStored(was: seq<byte>, now: seq<byte>, off: nat, chunk: seq<byte>, exact: bool) {
    && off + |chunk| <= |was| == |now| && now[..off] == was[..off] && Slice(now, off, |chunk|) == chunk
    && (exact ==> now == Programmed(was, off, chunk))
  }

  /** The first `off` bytes of the image have been copied. */
  predicate CopiedUpTo(layout: Layout, m: Memory, m': Memory, dest: Partition, off: nat, exact: bool)
    requires Fits(layout, m)
  {
    && off <= layout(dest).length
    && SameBut(m, m', {dest}) && Installed(m, m', dest, off)
    && (exact ==> m'[dest] == Burnt(layout, m, dest, off))
  }

  /** The copy loop before round i, with the chunks it has visited. */
  predicate ImageCopied(layout: Layout, m: Memory, m': Memory, dest: Partition, length: nat, i: nat, off: nat,
          done: seq<Chunk>, exact: bool)
    requires Fits(layout, m)
  {
    off == Offset(length, i) && ForDone(done, length, i) && CopiedUpTo(layout, m, m', dest, off, exact)
  }

  /** The copy ended early, at the chunk that overruns the staging partition. */
  predicate Overran(layout: Layout, m: Memory, m': Memory, dest: Partition, length: nat)
    requires Fits(layout, m) && length <= layout(dest).length
  {
    Copied(layout, length) < length && m'[dest] == Burnt(layout, m, dest, Copied(layout, length))
  }

  predicate PartlyCleared(layout: Layout, m: Memory, m': Memory)
    requires Fits(layout, m) && layout(Parameter1).length >= RECORD_SIZE
  {
    || m' == m
    || (SameBut(m, m', {Parameter1})
        && Torn(Filled(layout(Parameter1).length), 0, Cleared(m[Parameter1]), m'[Parameter1]))
    || m' == m[Parameter1 := Cleared(m[Parameter1])][OtaTemp := Filled(layout(OtaTemp).length)]
  }

  /** What an installation of n bytes may leave when it is cut short: record and staged image as they
      were; or the image in place and the record on its way to blank; or everything done. */
  predicate PartlyInstalled(layout: Layout, m: Memory, m': Memory, dest: Partition, n: nat)
    requires Fits(layout, m) && CanRun(layout)
  {
    || SameBut(m, m', {dest})
    || (Installed(m, m', dest, n) && SameBut(m, m', {dest, Parameter1})
        && Torn(Filled(layout(Parameter1).length), 0, Cleared(m[Parameter1]), m'[Parameter1]))
    || (Installed(m, m', dest, n) && SameBut(m, m', {dest, Parameter1, OtaTemp})
        && m'[Parameter1] == Cleared(m[Parameter1]) && AllBlank(m'[OtaTemp]))
  }

  /** Everything a run may leave when it is cut short anywhere, by failing power or a failing call. */
  predicate Interrupted(layout: Layout, m: Memory, m': Memory)
    requires Fits(layout, m)
  {
    && Fits(layout, m')
    && if !CanRun(layout) then m' == m else
       match Verdict(layout, m)
       case NeedUpdate(dest) => PartlyInstalled(layout, m, m', dest, Length(RecordOf(layout, m)))
       case _ => m' == m || m' == m[OtaTemp := Filled(layout(OtaTemp).length)]
  }

  /** Everything a run may leave when calls may fail with the power on: as above, or the staged image
      erased behind a failed read of the checksum pass. */
  predicate FaultyRun(layout: Layout, m: Memory, m': Memory)
    requires Fits(layout, m)
  {
    || Interrupted(layout, m, m')
    || (CanRun(layout) && ReadsImage(layout, RecordOf(layout, m)) && m' == m[OtaTemp := Filled(layout(OtaTemp).length)])
  }

  // ---- the code ----

  class Installer {
    const flash: Device
    const crcStep: (int, byte) -> int
    const data: array<byte>
    const newData: array<byte>
    const paraSaveInRam: array<byte>

    ghost predicate Valid()
      reads this, flash
    {
      && flash.Valid()
      && data.Length == newData.Length == SIZE_PER_RW && paraSaveInRam.Length == PARA_RAM_SIZE
      && data != newData && data != paraSaveInRam && newData != paraSaveInRam
      && flash.layout(Parameter1).length <= PARA_RAM_SIZE
    }

    constructor (flash: Device, crcStep: (int, byte) -> int)
      requires flash.Valid() && flash.layout(Parameter1).length <= PARA_RAM_SIZE
      ensures Valid() && this.flash == flash && this.crcStep == crcStep
      ensures fresh(data) && fresh(newData) && fresh(paraSaveInRam)
    {
      this.flash, this.crcStep := flash, crcStep;
      data := new byte[SIZE_PER_RW](_ => BLANK);
      newData := new byte[SIZE_PER_RW](_ => BLANK);
      paraSaveInRam := new byte[PARA_RAM_SIZE](_ => BLANK);
    }

    /** The last thing the flash saw was the erase of the parameters, or a broken write to them. */
    ghost predicate CutInParameters()
      reads flash
    {
      flash.log != [] && flash.log[|flash.log| - 1] in {Erase(Parameter1), Tear(Parameter1)}
    }

    /** Power has lasted so far, no call fails otherwise, and both partitions of the copy exist. */
    predicate Undisturbed(dest: Partition)
      reads flash
    {
      flash.powered && flash.Steady() && flash.layout(dest).present && flash.layout(OtaTemp).present
    }

    /** checkcrc: a mismatch is only logged, so `err` speaks of the reads alone; `crc` is what is logged. */
    method CheckCrc(crcIn: nat, length: nat) returns (err: Status, crc: int, ghost visited: seq<Chunk>)
      requires Valid()
      modifies flash`powered, data
      ensures Valid() && flash.Worn()
      ensures flash.powered && flash.Steady() ==>
        (err == NoErr <==> crcIn == 0xFFFF || length == 0 || flash.Accepts(OtaTemp, 0, length))
      ensures crcIn == 0xFFFF || length == 0 ==> err == NoErr
      ensures err == NoErr ==> crcIn == 0xFFFF || length <= flash.layout(OtaTemp).length
      ensures err == NoErr && crcIn != 0xFFFF ==>
        crc == Crc16(crcStep, flash.mem[OtaTemp][..length]) && visited == WhileChunks(0, length)
      ensures flash.powered && flash.Steady() && flash.layout(OtaTemp).length < SIZE_PER_RW && err != NoErr ==>
        data[..] == old(data[..])
    {
      crc, err, visited := 0, NoErr, [];
      if crcIn == 0xFFFF { return; }
      var totalLen: nat, off: nat := length, 0;
      var context := 0;
      while totalLen > 0
        invariant Valid() && err == NoErr
        invariant off + totalLen == length
        invariant off <= flash.layout(OtaTemp).length
        invariant off > 0 ==> flash.layout(OtaTemp).present
        invariant off % SIZE_PER_RW == 0 || totalLen == 0
        invariant off == 0 ==> data[..] == old(data[..])
        invariant context == Fold(crcStep, 0, flash.mem[OtaTemp][..off])
        invariant WhileDone(visited, length, totalLen)
        invariant flash.Worn()
      {
        var len := if SIZE_PER_RW < totalLen then SIZE_PER_RW else totalLen;
        err, off, context := FeedNext(context, off, len);
        if err != NoErr { return; }
        ghost var done, left := visited, totalLen;
        visited := done + [Chunk(length - left, len)];
        totalLen := totalLen - len;
        WhileRound(done, length, left, len, visited, totalLen);
      }
      crc := crcStep(crcStep(context, 0), 0);
    }

    /** Read the next chunk of the staged image and feed it to the checksum. */
    method FeedNext(context: int, off: nat, len: nat) returns (err: Status, next: nat, r: int)
      requires Valid() && 0 < len <= SIZE_PER_RW && off <= flash.layout(OtaTemp).length
      requires context == Fold(crcStep, 0, flash.mem[OtaTemp][..off])
      modifies flash`powered, data
      ensures Valid() && flash.Worn()
      ensures err == NoErr ==> flash.Accepts(OtaTemp, off, len) && next == off + len
                               && r == Fold(crcStep, 0, flash.mem[OtaTemp][..next])
      ensures flash.powered && flash.Steady() ==> (err == NoErr <==> flash.Accepts(OtaTemp, off, len))
      ensures !flash.Accepts(OtaTemp, off, len) ==> data[..] == old(data[..])
    {
      r := context;
      err, next := flash.Read(OtaTemp, off, data, len);
      if err == NoErr {
        r := Feed(context, len);
        FoldNext(crcStep, flash.mem[OtaTemp], off, len);
      }
    }

    /** CRC16_Update over data[..len]. */
    method Feed(crc: int, len: nat) returns (r: int)
      requires Valid() && len <= SIZE_PER_RW
      ensures r == Fold(crcStep, crc, data[..len])
    {
      r := crc;
      for i := 0 to len
        invariant r == Fold(crcStep, crc, data[..i])
      {
        assert data[..i + 1][..i] == data[..i];
        r := crcStep(r, data[i]);
      }
    }

    method UpdateLogCheck(updateLog: array<byte>) returns (check: Check)
      requires Valid() && updateLog.Length == RECORD_SIZE && updateLog != data
      modifies flash`powered, data
      ensures Valid() && flash.Worn()
      ensures var verdict := Decide(flash.layout, updateLog[..]);
        && (check == verdict || (check == CrcError && ReadsImage(flash.layout, updateLog[..])))
        && (flash.powered && flash.Steady() && flash.layout(OtaTemp).present ==> check == verdict)
      ensures check.NeedUpdate? ==>
        || (check.dest == Bootloader && updateLog[16] == 0x42)
        || (check.dest == Application && updateLog[16] == 0x41)
        || (check.dest == RfFirmware && updateLog[16] == 0x44)
      ensures flash.powered && flash.Steady() && flash.layout(OtaTemp).length < SIZE_PER_RW && !check.NeedUpdate? ==>
        data[..] == old(data[..])
    {
      var rec := updateLog[..];
      var i := 0;
      while i < RECORD_SIZE && updateLog[i] == BLANK
        invariant i <= RECORD_SIZE && AllBlank(updateLog[..i])
      {
        i := i + 1;
      }
      if i == RECORD_SIZE {
        assert rec == rec[..i];
        return NotExist;
      }
      assert !AllBlank(rec);
      if rec[17] != 'U' as int { return UpdateTagNotExist; }
      if StartAddress(rec) != flash.layout(OtaTemp).start { return StartAddressError; }
      var dest;
      if rec[16] == 'B' as int { dest := Bootloader; }
      else if rec[16] == 'A' as int { dest := Application; }
      else if rec[16] == 'D' as int { dest := RfFirmware; }
      else { return ContentTypeNotExist; }
      if Length(rec) > flash.layout(dest).length { return DataLengthOverflow; }
      var err, _, _ := CheckCrc(Crc(rec), Length(rec));
      if err != NoErr { return CrcError; }
      return NeedUpdate(dest);
    }

    /** The comparison of all SIZE_PER_RW cells of the buffer with 0xFF. */
    method FirstDirty() returns (j: nat)
      requires Valid()
      ensures j <= SIZE_PER_RW && AllBlank(data[..j])
      ensures if j < SIZE_PER_RW then data[j] != BLANK else AllBlank(data[..])
    {
      j := 0;
      while j < SIZE_PER_RW && data[j] == BLANK
        invariant j <= SIZE_PER_RW && AllBlank(data[..j])
      {
        j := j + 1;
      }
      assert data[..SIZE_PER_RW] == data[..];
    }

    /** The part of update() without a valid record: erase the staging area unless it is blank. */
    method ScanStaging() returns (err: Status)
      requires Valid() && flash.layout(OtaTemp).present
      modifies flash`mem, flash`powered, flash`log, data
      ensures Valid() && flash.Worn()
      ensures
        || (flash.mem == old(flash.mem) && flash.log == old(flash.log))
        || (flash.mem == old(flash.mem)[OtaTemp := Filled(flash.layout(OtaTemp).length)]
            && flash.log == old(flash.log) + [Erase(OtaTemp)] && flash.powered)
      ensures flash.powered && flash.Steady() ==>
        (flash.layout(OtaTemp).length < SIZE_PER_RW ==> AllBlank(old(data[..]))) ==>
        && err == NoErr
        && flash.mem == old(flash.mem)[OtaTemp := Filled(flash.layout(OtaTemp).length)]
        && flash.log == old(flash.log) + if AllBlank(old(flash.mem)[OtaTemp]) then [] else [Erase(OtaTemp)]
    {
      var total := flash.layout(OtaTemp).length;
      ghost var staged := flash.mem[OtaTemp];
      ghost var clean := total < SIZE_PER_RW ==> AllBlank(data[..]);
      var size := total / SIZE_PER_RW;
      var off := 0;
      for i := 0 to size + 1
        invariant Valid() && flash.Worn() && flash.mem == old(flash.mem) && flash.log == old(flash.log)
        invariant off == if i <= size then i * SIZE_PER_RW else total
        invariant AllBlank(staged[..off])
        invariant clean && (i > 0 || total < SIZE_PER_RW) ==> AllBlank(data[..])
      {
        var len := if i == size then total % SIZE_PER_RW else SIZE_PER_RW;
        ghost var was, stale := off, data[..];
        err, off := flash.Read(OtaTemp, off, data, len);
        if err != NoErr { return; }
        assert len > 0 ==> data[..len] == Slice(staged, was, len);
        var j := FirstDirty();
        if j < SIZE_PER_RW {
          if clean { DirtyChunk(staged, was, len, stale, data[..], j); }
          err := EraseUnlocked(OtaTemp);
          return;
        }
        assert AllBlank(data[..len]) by { assert data[..len] == data[..][..len]; }
        assert staged[..off] == staged[..was] + Slice(staged, was, len);
      }
      assert staged == staged[..off];
      assert flash.mem == flash.mem[OtaTemp := Filled(total)] by { assert staged == Filled(total); }
      return NoErr;
    }

    /** Write data[..len], wind the offset back, read the cells back and compare. */
    method WriteAndCompare(dest: Partition, off: nat, len: nat) returns (err: Status, next: nat)
      requires Valid() && 0 < len <= SIZE_PER_RW
      modifies flash`mem, flash`powered, flash`log, newData
      ensures Valid() && flash.Worn() && SameBut(old(flash.mem), flash.mem, {dest})
      ensures err == NoErr ==>
        && next == off + len
        && flash.powered && flash.Accepts(dest, off, len)
        && ChunkStored(old(flash.mem)[dest], flash.mem[dest], off, data[..len], flash.mode != Corrupting)
      ensures flash.powered && flash.Steady() && flash.Accepts(dest, off, len) ==>
        BlankFrom(old(flash.mem)[dest], off) ==> err == NoErr
    {
      ghost var was := flash.mem[dest];
      err, next := flash.Write(dest, off, data, len);
      if err == NoErr {
        ComparesEqual(was, flash.mem[dest], off, data[..len], flash.mode != Corrupting);
        err, next := Compare(dest, next - len, len);
      }
    }

    /** Read the cells back and compare them with data[..len]. */
    method Compare(dest: Partition, off: nat, len: nat) returns (err: Status, next: nat)
      requires Valid() && 0 < len <= SIZE_PER_RW
      modifies flash`powered, newData
      ensures Valid() && flash.Worn()
      ensures err == NoErr ==>
        && next == off + len
        && flash.powered && flash.Accepts(dest, off, len) && Slice(flash.mem[dest], off, len) == data[..len]
      ensures flash.powered && flash.Steady() && flash.Accepts(dest, off, len) ==>
        (err == NoErr <==> Slice(flash.mem[dest], off, len) == data[..len])
    {
      err, next := flash.Read(dest, off, newData, len);
      if err == NoErr && data[..len] != newData[..len] { err := WriteErr; }
    }

    /** One round of the copy loop, which began with the flash holding m. */
    method CopyChunk(ghost m: Memory, dest: Partition, off: nat, destOff: nat, len: nat)
      returns (err: Status, next: nat, destNext: nat)
      requires Valid() && Fits(flash.layout, m) && dest != OtaTemp
      requires off == destOff && 0 < len <= SIZE_PER_RW && off + len <= flash.layout(dest).length
      requires CopiedUpTo(flash.layout, m, flash.mem, dest, off, flash.mode != Corrupting)
      modifies flash`mem, flash`powered, flash`log, data, newData
      ensures Valid() && flash.Worn() && SameBut(m, flash.mem, {dest})
      ensures err == NoErr ==>
        && next == destNext == off + len
        && CopiedUpTo(flash.layout, m, flash.mem, dest, next, flash.mode != Corrupting)
      ensures Undisturbed(dest) ==>
        err == if flash.Accepts(OtaTemp, off, len) then NoErr else ParamErr
      ensures !flash.Accepts(OtaTemp, off, len) && flash.mode != Corrupting ==>
        flash.mem[dest] == Burnt(flash.layout, m, dest, off)
    {
      destNext := destOff;
      TailIsBlank(flash.layout, m, flash.mem, dest, off);
      err, next := flash.Read(OtaTemp, off, data, len);
      if err == NoErr {
        assert data[..len] == Slice(m[OtaTemp], off, len);
        err, destNext := WriteAndCompare(dest, destOff, len);
        if err == NoErr {
          CopyGrows(flash.layout, m, old(flash.mem), flash.mem, dest, off, len, flash.mode != Corrupting);
        }
      }
    }

    ghost predicate CopyingImage(m: Memory, dest: Partition, length: nat, i: nat, off: nat, destOff: nat,
            done: seq<Chunk>)
      requires Fits(flash.layout, m)
      reads flash
    {
      off == destOff && ImageCopied(flash.layout, m, flash.mem, dest, length, i, off, done, flash.mode != Corrupting)
    }

    /** Round i of the copy loop for an image of `length` bytes. */
    method CopyRound(ghost m: Memory, dest: Partition, length: nat, i: nat, off: nat, destOff: nat,
            ghost done: seq<Chunk>)
      returns (err: Status, next: nat, destNext: nat, ghost visited: seq<Chunk>)
      requires Valid() && Fits(flash.layout, m) && dest != OtaTemp && length <= flash.layout(dest).length
      requires i < length / SIZE_PER_RW || (i == length / SIZE_PER_RW && length % SIZE_PER_RW != 0)
      requires CopyingImage(m, dest, length, i, off, destOff, done)
      modifies flash`mem, flash`powered, flash`log, data, newData
      ensures Valid() && flash.Worn() && SameBut(m, flash.mem, {dest})
      ensures err == NoErr ==> CopyingImage(m, dest, length, i + 1, next, destNext, visited)
      ensures err != NoErr && Undisturbed(dest) ==>
        err == ParamErr && Overran(flash.layout, m, flash.mem, dest, length)
    {
      var copyLength := ChunkLength(length, i);
      ChunkBounds(length, i);
      ForRound(done, length, i);
      visited := done + [Chunk(off, copyLength)];
      CopyStops(flash.layout, length, off, copyLength);
      err, next, destNext := CopyChunk(m, dest, off, destOff, copyLength);
    }

    /** The copy loop: every chunk is written, read back and compared. The loop guard folds in the
        break taken in round `size` when nothing is left to copy. */
    method CopyRounds(ghost m: Memory, dest: Partition, length: nat)
      returns (err: Status, i: nat, off: nat, destOff: nat, ghost visited: seq<Chunk>)
      requires Valid() && dest != OtaTemp && length <= flash.layout(dest).length
      requires m == flash.mem && AllBlank(m[dest])
      modifies flash`mem, flash`powered, flash`log, data, newData
      ensures Valid() && flash.Worn() && SameBut(m, flash.mem, {dest})
      ensures err == NoErr ==> CopyingImage(m, dest, length, i, off, destOff, visited)
      ensures err == NoErr ==> i >= length / SIZE_PER_RW && (i == length / SIZE_PER_RW ==> length % SIZE_PER_RW == 0)
      ensures err != NoErr && Undisturbed(dest) ==>
        err == ParamErr && Overran(flash.layout, m, flash.mem, dest, length)
    {
      CopyStarts(flash.layout, m, dest, length, flash.mode != Corrupting);
      var size := length / SIZE_PER_RW;
      i, off, destOff := 0, 0, 0;
      err, visited := NoErr, [];
      while err == NoErr && (i < size || (i == size && length % SIZE_PER_RW != 0))
        invariant Valid() && flash.Worn() && SameBut(m, flash.mem, {dest})
        invariant err == NoErr ==> CopyingImage(m, dest, length, i, off, destOff, visited)
        invariant err != NoErr && Undisturbed(dest) ==>
          err == ParamErr && Overran(flash.layout, m, flash.mem, dest, length)
        decreases size + 1 - i
      {
        err, off, destOff, visited := CopyRound(m, dest, length, i, off, destOff, visited);
        i := i + 1;
      }
    }

    method CopyImage(dest: Partition, length: nat) returns (err: Status, ghost visited: seq<Chunk>)
      requires Valid() && dest != OtaTemp && length <= flash.layout(dest).length && AllBlank(flash.mem[dest])
      modifies flash`mem, flash`powered, flash`log, data, newData
      ensures Valid() && flash.Worn() && SameBut(old(flash.mem), flash.mem, {dest})
      ensures err == NoErr ==>
        && CopiedUpTo(flash.layout, old(flash.mem), flash.mem, dest, length, flash.mode != Corrupting)
        && visited == ForChunks(length, 0)
      ensures err != NoErr && Undisturbed(dest) ==>
        err == ParamErr && Overran(flash.layout, old(flash.mem), flash.mem, dest, length)
    {
      ghost var m := flash.mem;
      var i, off, destOff;
      err, i, off, destOff, visited := CopyRounds(m, dest, length);
      if err == NoErr {
        CopyEnds(flash.layout, m, flash.mem, dest, length, i, off, visited, flash.mode != Corrupting);
      }
    }

    method Install(dest: Partition, length: nat) returns (err: Status)
      requires Valid() && dest != OtaTemp && length <= flash.layout(dest).length
      modifies flash`mem, flash`powered, flash`log, data, newData
      ensures Valid() && flash.Worn() && SameBut(old(flash.mem), flash.mem, {dest})
      ensures err == NoErr ==>
        CopiedUpTo(flash.layout, old(flash.mem), flash.mem, dest, length, flash.mode != Corrupting)
      ensures err != NoErr && Undisturbed(dest) ==>
        err == ParamErr && Overran(flash.layout, old(flash.mem), flash.mem, dest, length)
    {
      err := EraseUnlocked(dest);
      if err == NoErr {
        ghost var erased := flash.mem;
        ghost var visited;
        err, visited := CopyImage(dest, length);
        ErasingKeepsImage(flash.layout, old(flash.mem), erased, flash.mem, dest, length, flash.mode != Corrupting);
      }
    }

    /** MicoFlashDisableSecurity, then MicoFlashErase, of a whole partition. */
    method EraseUnlocked(p: Partition) returns (err: Status)
      requires Valid()
      modifies flash`mem, flash`powered, flash`log
      ensures Valid() && flash.Worn()
      ensures if err == NoErr
        then flash.mem == old(flash.mem)[p := Filled(flash.layout(p).length)]
             && flash.log == old(flash.log) + [Erase(p)]
        else flash.mem == old(flash.mem) && flash.log == old(flash.log)
      ensures flash.powered && flash.Steady() && flash.layout(p).present ==> err == NoErr
      ensures err == NoErr ==> flash.powered
    {
      err := flash.DisableSecurity(p);
      if err == NoErr {
        err := flash.EraseAll(p);
      }
    }

    /** Blank the record and keep the parameters behind it: save, erase, write back. */
    method RewriteParameters() returns (err: Status)
      requires Valid() && flash.layout(Parameter1).present && flash.layout(Parameter1).length >= RECORD_SIZE
      modifies flash`mem, flash`powered, flash`log, paraSaveInRam
      ensures Valid() && flash.Worn()
      ensures SameBut(old(flash.mem), flash.mem, {Parameter1})
      ensures err == NoErr ==> flash.powered
      ensures flash.mode != Corrupting && err == NoErr ==> flash.mem[Parameter1] == Cleared(old(flash.mem)[Parameter1])
      ensures flash.mode != Corrupting && err != NoErr ==>
        || flash.mem == old(flash.mem)
        || (Torn(Filled(flash.layout(Parameter1).length), 0, Cleared(old(flash.mem)[Parameter1]), flash.mem[Parameter1])
            && CutInParameters())
      ensures flash.powered && flash.Steady() ==> err == NoErr
    {
      var size := flash.layout(Parameter1).length;
      ghost var para := flash.mem[Parameter1];
      err := flash.DisableSecurity(Parameter1);
      if err != NoErr { return; }
      var next;
      err, next := flash.Read(Parameter1, 0, paraSaveInRam, size);
      if err != NoErr { return; }
      assert forall k :: 0 <= k < size ==> paraSaveInRam[k] == paraSaveInRam[..size][k];
      forall k | 0 <= k < RECORD_SIZE { paraSaveInRam[k] := BLANK; }
      assert paraSaveInRam[..size] == Cleared(para);
      err := flash.EraseAll(Parameter1);
      if err != NoErr { return; }
      ClearedTears(para);
      err, next := flash.Write(Parameter1, 0, paraSaveInRam, size);
    }

    /** Clear the record, then drop the staged image. */
    method ClearRecord() returns (err: Status)
      requires Valid() && flash.layout(OtaTemp).present && flash.layout(Parameter1).present
      requires flash.layout(Parameter1).length >= RECORD_SIZE
      modifies flash`mem, flash`powered, flash`log, paraSaveInRam
      ensures Valid() && flash.Worn() && SameBut(old(flash.mem), flash.mem, {Parameter1, OtaTemp})
      ensures flash.mode != Corrupting ==> PartlyCleared(flash.layout, old(flash.mem), flash.mem)
      ensures flash.mode != Corrupting ==>
        || flash.mem[Parameter1] in {old(flash.mem)[Parameter1], Cleared(old(flash.mem)[Parameter1])}
        || CutInParameters()
      ensures flash.powered && flash.Steady() ==>
        && err == NoErr
        && flash.mem == old(flash.mem)[Parameter1 := Cleared(old(flash.mem)[Parameter1])]
                                      [OtaTemp := Filled(flash.layout(OtaTemp).length)]
    {
      err := RewriteParameters();
      if err == NoErr {
        ClearedTears(old(flash.mem)[Parameter1]);
        err := EraseUnlocked(OtaTemp);
      }
    }

    /** The part of update() with a valid record. */
    method InstallAndClear(dest: Partition, length: nat) returns (err: Status)
      requires Valid() && CanRun(flash.layout) && dest != OtaTemp && dest != Parameter1
      requires length <= flash.layout(dest).length
      modifies flash`mem, flash`powered, flash`log, data, newData, paraSaveInRam
      ensures Valid() && flash.Worn()
      ensures flash.mode != Corrupting ==> PartlyInstalled(flash.layout, old(flash.mem), flash.mem, dest, length)
      ensures err == NoErr ==> Installed(old(flash.mem), flash.mem, dest, length)
      ensures flash.mode != Corrupting ==>
        || flash.mem[Parameter1] in {old(flash.mem)[Parameter1], Cleared(old(flash.mem)[Parameter1])}
        || CutInParameters()
      ensures flash.powered && flash.Steady() ==>
        && err == InstallStatus(flash.layout, dest, length)
        && flash.mem == AfterInstall(flash.layout, old(flash.mem), dest, length)
    {
      if !flash.layout(dest).present { return UnsupportedErr; }
      err := Install(dest, length);
      if err == NoErr {
        ghost var installed := flash.mem;
        err := ClearRecord();
        InstallsPartly(flash.layout, old(flash.mem), installed, flash.mem, dest, length);
        if flash.powered && flash.Steady() {
          InstallsFully(flash.layout, old(flash.mem), installed, flash.mem, dest, length);
        }
      } else if flash.powered && flash.Steady() {
        InstallsUpToEnd(flash.layout, old(flash.mem), flash.mem, dest, length);
      }
    }

    /** Clear the RAM buffers and read the boot record. */
    method ReadRecord() returns (err: Status, updateLog: array<byte>)
      requires Valid()
      modifies flash`powered, data, newData, paraSaveInRam
      ensures Valid() && flash.Worn() && fresh(updateLog) && updateLog.Length == RECORD_SIZE
      ensures AllBlank(data[..])
      ensures err == NoErr ==> CanReadRecord(flash.layout) && updateLog[..] == flash.mem[Parameter1][..RECORD_SIZE]
      ensures flash.powered && flash.Steady() && flash.layout(Parameter1).present ==>
        err == if CanReadRecord(flash.layout) then NoErr else ParamErr
    {
      forall k | 0 <= k < SIZE_PER_RW { data[k] := BLANK; }
      forall k | 0 <= k < SIZE_PER_RW { newData[k] := BLANK; }
      forall k | 0 <= k < flash.layout(Parameter1).length { paraSaveInRam[k] := BLANK; }
      updateLog := new byte[RECORD_SIZE];
      var next;
      err, next := flash.Read(Parameter1, 0, updateLog, RECORD_SIZE);
      assert updateLog[..] == updateLog[..RECORD_SIZE];
    }

    /** Read the boot record and judge it; its length is what an installation goes by. */
    method JudgeRecord() returns (err: Status, check: Check, length: nat)
      requires Valid() && flash.layout(OtaTemp).present && flash.layout(Parameter1).present
      modifies flash`powered, data, newData, paraSaveInRam
      ensures Valid() && flash.Worn()
      ensures err == NoErr ==> CanRun(flash.layout)
      ensures err == NoErr ==> length == Length(RecordOf(flash.layout, flash.mem))
      ensures err == NoErr ==>
        || check == Verdict(flash.layout, flash.mem)
        || (check == CrcError && ReadsImage(flash.layout, RecordOf(flash.layout, flash.mem)))
      ensures err != NoErr ==> check == NotExist
      ensures flash.powered && flash.Steady() ==> err == if CanReadRecord(flash.layout) then NoErr else ParamErr
      ensures flash.powered && flash.Steady() && err == NoErr ==>
        && check == Verdict(flash.layout, flash.mem)
        && (flash.layout(OtaTemp).length < SIZE_PER_RW && !check.NeedUpdate? ==> AllBlank(data[..]))
    {
      check, length := NotExist, 0;
      var updateLog;
      err, updateLog := ReadRecord();
      if err == NoErr {
        check := UpdateLogCheck(updateLog);
        length := Length(updateLog[..]);
      }
    }

    method Update() returns (err: Status, check: Check)
      requires Valid()
      modifies flash`mem, flash`powered, flash`log, data, newData, paraSaveInRam
      ensures Valid() && flash.Worn()
      // a run that power outlives
      ensures flash.powered && flash.Steady() ==>
        && err == CleanStatus(flash.layout, old(flash.mem))
        && flash.mem == CleanBoot(flash.layout, old(flash.mem))
      // a run cut short: by power at any call, or by any failing call but a read of the checksum pass
      ensures flash.Steady() ==> Interrupted(flash.layout, old(flash.mem), flash.mem)
      ensures flash.mode == Flaky && CanRun(flash.layout) && check == Verdict(flash.layout, old(flash.mem)) ==>
        Interrupted(flash.layout, old(flash.mem), flash.mem)
      // so a run with failing calls is as safe as that unless the record asks for a checksum pass
      ensures flash.mode == Flaky ==> FaultyRun(flash.layout, old(flash.mem), flash.mem)
      // a run whose checksum pass met a failing read with the power on
      ensures flash.mode == Flaky && CanRun(flash.layout) && check != Verdict(flash.layout, old(flash.mem)) ==>
        || flash.mem == old(flash.mem)
        || flash.mem == old(flash.mem)[OtaTemp := Filled(flash.layout(OtaTemp).length)]
      ensures !CanRun(flash.layout) ==> flash.mem == old(flash.mem)
      // success means the image is in place, whatever the write driver stored
      ensures err == NoErr && check.NeedUpdate? ==>
        && CanRun(flash.layout)
        && Installed(old(flash.mem), flash.mem, check.dest, Length(RecordOf(flash.layout, old(flash.mem))))
      // the parameters behind the record are lost only between their erase and the end of their write
      ensures flash.mode != Corrupting && CanRun(flash.layout) ==>
        || flash.mem[Parameter1][RECORD_SIZE..] == old(flash.mem)[Parameter1][RECORD_SIZE..]
        || CutInParameters()
      // without a valid record, staging is erased exactly when it is dirty
      ensures flash.powered && flash.Steady() && CanRun(flash.layout) ==>
        !Verdict(flash.layout, old(flash.mem)).NeedUpdate? ==>
        flash.log == old(flash.log) + if AllBlank(old(flash.mem)[OtaTemp]) then [] else [Erase(OtaTemp)]
    {
      err, check := UnsupportedErr, NotExist;
      if flash.layout(OtaTemp).present && flash.layout(Parameter1).present {
        var length;
        err, check, length := JudgeRecord();
        if err == NoErr {
          if check.NeedUpdate? {
            err := InstallAndClear(check.dest, length);
          } else {
            err := ScanStaging();
          }
        }
      }
    }
  }

  /** A write whose cells compare equal is a stored chunk; one into erased cells compares equal. */
  lemma ComparesEqual(was: seq<byte>, now: seq<byte>, off: nat, chunk: seq<byte>, exact: bool)
    requires off + |chunk| <= |was| && Stores(was, off, chunk, now, exact)
    ensures Slice(now, off, |chunk|) == chunk ==> ChunkStored(was, now, off, chunk, exact)
    ensures exact && BlankFrom(was, off) ==> Slice(now, off, |chunk|) == chunk
  {
    if exact && BlankFrom(was, off) { ProgramsErased(was, off, chunk); }
  }

  /** A dirty cell of the buffer is a dirty cell of the partition when the stale cells are blank. */
  lemma DirtyChunk(staged: seq<byte>, was: nat, len: nat, stale: seq<byte>, buf: seq<byte>, j: nat)
    requires was + len <= |staged| && len <= |buf| == |stale| && j < |buf| && buf[j] != BLANK
    requires len > 0 ==> buf[..len] == Slice(staged, was, len)
    requires forall k :: len <= k < |buf| ==> buf[k] == stale[k]
    requires len == |stale| || AllBlank(stale)
    ensures !AllBlank(staged)
  {
    assert j < len;
    assert buf[..len][j] == Slice(staged, was, len)[j];
  }

  lemma InstallsPartly(layout: Layout, m: Memory, m1: Memory, m2: Memory, dest: Partition, n: nat)
    requires Fits(layout, m) && Fits(layout, m1) && CanRun(layout) && dest != OtaTemp && dest != Parameter1
    requires SameBut(m, m1, {dest}) && Installed(m, m1, dest, n)
    ensures PartlyCleared(layout, m1, m2) ==> PartlyInstalled(layout, m, m2, dest, n)
    ensures SameBut(m1, m2, {Parameter1, OtaTemp}) ==> Installed(m, m2, dest, n)
  {
    assert m1[Parameter1] == m[Parameter1] && m1[OtaTemp] == m[OtaTemp];
    if PartlyCleared(layout, m1, m2) {
      if SameBut(m1, m2, {Parameter1}) {
        assert m2[dest] == m1[dest] && m2[OtaTemp] == m[OtaTemp];
      } else {
        assert m2[dest] == m1[dest] && m2[Parameter1] == Cleared(m[Parameter1]);
      }
    }
  }

  lemma InstallsFully(layout: Layout, m: Memory, m1: Memory, m2: Memory, dest: Partition, n: nat)
    requires Fits(layout, m) && Fits(layout, m1) && CanRun(layout) && dest != OtaTemp && dest != Parameter1
    requires layout(dest).present && CopiedUpTo(layout, m, m1, dest, n, true)
    requires m2 == m1[Parameter1 := Cleared(m1[Parameter1])][OtaTemp := Filled(layout(OtaTemp).length)]
    ensures InstallStatus(layout, dest, n) == NoErr && m2 == AfterInstall(layout, m, dest, n)
  {
  }

  lemma InstallsUpToEnd(layout: Layout, m: Memory, m2: Memory, dest: Partition, n: nat)
    requires Fits(layout, m) && CanRun(layout) && dest != OtaTemp && dest != Parameter1
    requires layout(dest).present && n <= layout(dest).length
    requires SameBut(m, m2, {dest}) && Overran(layout, m, m2, dest, n)
    ensures InstallStatus(layout, dest, n) == ParamErr && m2 == AfterInstall(layout, m, dest, n)
  {
  }

  lemma ErasingKeepsImage(layout: Layout, m: Memory, m1: Memory, m2: Memory, dest: Partition, n: nat, exact: bool)
    requires Fits(layout, m) && Fits(layout, m1) && dest != OtaTemp && SameBut(m, m1, {dest}) && SameBut(m1, m2, {dest})
    ensures SameBut(m, m2, {dest})
    ensures CopiedUpTo(layout, m1, m2, dest, n, exact) ==> CopiedUpTo(layout, m, m2, dest, n, exact)
    ensures n <= layout(dest).length && Overran(layout, m1, m2, dest, n) ==> Overran(layout, m, m2, dest, n)
  {
  }

  /** Before the first round nothing has been copied, into an erased destination. */
  lemma CopyStarts(layout: Layout, m: Memory, dest: Partition, length: nat, exact: bool)
    requires Fits(layout, m) && AllBlank(m[dest])
    ensures ImageCopied(layout, m, m, dest, length, 0, 0, [], exact)
  {
    assert ForDone([], length, 0);
  }

  lemma TailIsBlank(layout: Layout, m: Memory, m1: Memory, dest: Partition, off: nat)
    requires Fits(layout, m)
    ensures CopiedUpTo(layout, m, m1, dest, off, true) ==> BlankFrom(m1[dest], off)
  {
  }

  lemma CopyGrows(layout: Layout, m: Memory, m1: Memory, m2: Memory, dest: Partition, off: nat, len: nat, exact: bool)
    requires Fits(layout, m) && Fits(layout, m1) && Fits(layout, m2) && dest != OtaTemp
    requires CopiedUpTo(layout, m, m1, dest, off, exact) && SameBut(m1, m2, {dest})
    requires off + len <= layout(OtaTemp).length
    requires ChunkStored(m1[dest], m2[dest], off, Slice(m[OtaTemp], off, len), exact)
    ensures CopiedUpTo(layout, m, m2, dest, off + len, exact)
  {
    var s, t := m2[dest], m[OtaTemp];
    assert s[..off + len] == s[..off] + Slice(s, off, len);
    assert t[..off + len] == t[..off] + Slice(t, off, len);
    if exact { BurnsNext(layout, m, dest, off, len); }
  }

  /** Behind the last round everything has been copied. */
  lemma CopyEnds(layout: Layout, m: Memory, m': Memory, dest: Partition, length: nat, i: nat, off: nat,
          done: seq<Chunk>, exact: bool)
    requires Fits(layout, m) && ImageCopied(layout, m, m', dest, length, i, off, done, exact)
    requires i >= length / SIZE_PER_RW && (i == length / SIZE_PER_RW ==> length % SIZE_PER_RW == 0)
    ensures CopiedUpTo(layout, m, m', dest, length, exact) && done == ForChunks(length, 0)
  {
    ForEnds(done, length, i);
    assert Offset(length, i) == length;
  }

  /** The first chunk that overruns the staging partition is where Copied ends. */
  lemma CopyStops(layout: Layout, length: nat, off: nat, len: nat)
    requires off % SIZE_PER_RW == 0 && off <= layout(OtaTemp).length && 0 < len <= SIZE_PER_RW && off + len <= length
    ensures off + len > layout(OtaTemp).length ==> Copied(layout, length) == off < length
  {
  }

  /** Writing the next chunk behind a partly burnt image burns that much more. */
  lemma BurnsNext(layout: Layout, m: Memory, dest: Partition, n: nat, len: nat)
    requires Fits(layout, m) && n + len <= layout(OtaTemp).length && n + len <= layout(dest).length
    ensures Programmed(Burnt(layout, m, dest, n), n, Slice(m[OtaTemp], n, len)) == Burnt(layout, m, dest, n + len)
  {
    ProgramsErased(Burnt(layout, m, dest, n), n, Slice(m[OtaTemp], n, len));
  }

  /** The erased parameter partition, and the rewritten one, are both stages of its torn rewrite. */
  lemma ClearedTears(para: seq<byte>)
    requires |para| >= RECORD_SIZE
    ensures Torn(Filled(|para|), 0, Cleared(para), Filled(|para|))
    ensures Torn(Filled(|para|), 0, Cleared(para), Cleared(para))
    ensures Programmed(Filled(|para|), 0, Cleared(para)) == Cleared(para)
  {
    TornNotAtAll(Filled(|para|), 0, Cleared(para));
    ProgramsErased(Filled(|para|), 0, Cleared(para));
    forall i | 0 <= i < |para| ensures Between(BLANK, Cleared(para)[i], Cleared(para)[i]) {
      ProgramsBlank(Cleared(para)[i]);
      AndAbsorbs(Cleared(para)[i], 0);
    }
  }
}
