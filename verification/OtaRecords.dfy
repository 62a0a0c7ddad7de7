/** What a boot does, on the bytes of the boot record: which letter means which partition, where the fields
    stand, and what becomes of each partition. */
module OtaRecords {
  import opened Flash
  import opened OtaUpdate

  /** The four bytes at i, the lowest first. */
  function Word(s: seq<byte>, i: nat): (w: nat)
    requires i + 4 <= |s|
  {
    s[i] as int + 0x100 * s[i + 1] as int + 0x1_0000 * s[i + 2] as int + 0x100_0000 * s[i + 3] as int
  }

  /** The letter A, B or D. */
  predicate Letter(c: byte, p: Partition) {
    (c == 0x41 && p == Application) || (c == 0x42 && p == Bootloader) || (c == 0x44 && p == RfFirmware)
  }

  /** The record asks for an image of n bytes in p: the letter U behind that of p, the address of the staging
      partition, a length that p can hold, and a checksum of 0xFFFF or a length that can be staged. */
  predicate Asks(layout: Layout, m: Memory, p: Partition, n: nat)
    requires Fits(layout, m) && CanRun(layout)
  {
    var rec := m[Parameter1];
    && Letter(rec[16], p) && rec[17] == 0x55
    && Word(rec, 0) == layout(OtaTemp).start
    && Word(rec, 4) == n <= layout(p).length
    && ((rec[18] == 0xFF && rec[19] == 0xFF) || n <= layout(OtaTemp).length)
  }

  /** updateLogCheck accepts just the records that ask for something, and for that. */
  lemma AcceptedIffAsked(layout: Layout, m: Memory, p: Partition, n: nat)
    requires Fits(layout, m) && CanRun(layout)
    ensures Asks(layout, m, p, n) <==> Verdict(layout, m) == NeedUpdate(p) && Length(RecordOf(layout, m)) == n
  {
    var rec := RecordOf(layout, m);
    assert forall i :: 0 <= i < RECORD_SIZE ==> rec[i] == m[Parameter1][i];
    assert Crc(rec) == 0xFFFF <==> rec[18] == 0xFF && rec[19] == 0xFF;
    assert rec[17] == 0x55 ==> !AllBlank(rec);
  }

  /** Why a record is not accepted: the first of the reasons that applies, in this order. */
  lemma RejectedInOrder(layout: Layout, m: Memory)
    requires Fits(layout, m) && CanRun(layout)
    ensures var rec, verdict := m[Parameter1], Verdict(layout, m);
      var blank := forall i :: 0 <= i < 24 ==> rec[i] == 0xFF;
      var tagged, staged, known :=
        rec[17] == 0x55, Word(rec, 0) == layout(OtaTemp).start, exists p: Partition :: Letter(rec[16], p);
      && (verdict == NotExist <==> blank)
      && (verdict == UpdateTagNotExist <==> !blank && !tagged)
      && (verdict == StartAddressError <==> tagged && !staged)
      && (verdict == ContentTypeNotExist <==> tagged && staged && !known)
      && (verdict == DataLengthOverflow <==>
            tagged && staged && exists p: Partition :: Letter(rec[16], p) && Word(rec, 4) > layout(p).length)
  {
    var rec := RecordOf(layout, m);
    assert forall i :: 0 <= i < RECORD_SIZE ==> rec[i] == m[Parameter1][i];
    assert Letter(0x41, Application) && Letter(0x42, Bootloader) && Letter(0x44, RfFirmware);
  }

  /** What the destination holds behind a copy of k bytes of the staged image. */
  predicate Holds(cells: seq<byte>, staged: seq<byte>, k: nat) {
    k <= |staged| && k <= |cells| && forall i :: 0 <= i < |cells| ==> cells[i] == if i < k then staged[i] else 0xFF
  }

  predicate Blank(cells: seq<byte>) {
    forall i :: 0 <= i < |cells| ==> cells[i] == 0xFF
  }

  /** The record is blank, and the parameters behind it are as they were. */
  predicate RecordBlanked(before: seq<byte>, after: seq<byte>) {
    |before| == |after| && forall i :: 0 <= i < |after| ==> after[i] == if i < 24 then 0xFF else before[i]
  }

  /** An image that is asked for goes to the partition of its letter and to no other; record and staging area
      are blank behind it. */
  lemma GoesWhereItsLetterSays(layout: Layout, m: Memory, p: Partition, n: nat)
    requires Fits(layout, m) && CanRun(layout) && Asks(layout, m, p, n)
    requires layout(p).present && n <= layout(OtaTemp).length
    ensures var r := CleanBoot(layout, m);
      && Holds(r[p], m[OtaTemp], n)
      && RecordBlanked(m[Parameter1], r[Parameter1]) && Blank(r[OtaTemp])
      && (forall q: Partition :: q != p && q != Parameter1 && q != OtaTemp ==> r[q] == m[q])
      && CleanStatus(layout, m) == NoErr
  {
    AcceptedIffAsked(layout, m, p, n);
  }

  /** One that is longer than the staging area breaks off behind the last whole chunk of 4096 bytes, and its
      record stays. */
  lemma BreaksOffInStaging(layout: Layout, m: Memory, p: Partition, n: nat)
    requires Fits(layout, m) && CanRun(layout) && Asks(layout, m, p, n)
    requires layout(p).present && n > layout(OtaTemp).length
    ensures var r := CleanBoot(layout, m);
      && Holds(r[p], m[OtaTemp], layout(OtaTemp).length / 4096 * 4096)
      && (forall q: Partition :: q != p ==> r[q] == m[q])
      && CleanStatus(layout, m) == ParamErr
  {
    AcceptedIffAsked(layout, m, p, n);
  }

  /** Where nothing can be installed nothing is: no partition for the letter, or no staging area or parameters. */
  lemma LeavesAllAlone(layout: Layout, m: Memory, p: Partition, n: nat)
    requires Fits(layout, m) && (CanRun(layout) ==> Asks(layout, m, p, n) && !layout(p).present)
    ensures CleanBoot(layout, m) == m
    ensures CleanStatus(layout, m) ==
      if layout(OtaTemp).present && layout(Parameter1).present && layout(Parameter1).length < 24 then ParamErr
      else UnsupportedErr
  {
    if CanRun(layout) { AcceptedIffAsked(layout, m, p, n); }
  }

  /** A record that asks for nothing costs the staged image, and nothing else. */
  lemma AskingNothing(layout: Layout, m: Memory)
    requires Fits(layout, m) && CanRun(layout) && forall p: Partition, n: nat :: !Asks(layout, m, p, n)
    ensures var r := CleanBoot(layout, m);
      && Blank(r[OtaTemp]) && (forall q: Partition :: q != OtaTemp ==> r[q] == m[q])
      && CleanStatus(layout, m) == NoErr
  {
    var verdict := Verdict(layout, m);
    if verdict.NeedUpdate? { AcceptedIffAsked(layout, m, verdict.dest, Length(RecordOf(layout, m))); }
  }
}
