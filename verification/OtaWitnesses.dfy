/** Flash contents of a real board on which update() does less, or more, than its record asks for. */
module OtaWitnesses {
  import opened Flash
  import opened CheckSum
  import opened OtaUpdate
  import opened OtaCrashSafety
  import opened OtaRecords

  /** mico_partitions of Board/SC3165/platform.c; the row it leaves out is all zeros, and 0 is an owner. */
  function Sc3165(): (layout: Layout) {
    (p: Partition) =>
      match p
      case Bootloader => Info(true, 0x0800_0000, 0x8000)
      case Application => Info(true, 0x0800_C000, 0x7_4000)
      case Ate => Info(true, 0, 0)
      case OtaTemp => Info(true, 0x4_0000, 0x7_0000)
      case RfFirmware => Info(true, 0x2000, 0x3_E000)
      case Parameter1 => Info(true, 0, 0x1000)
      case Parameter2 => Info(true, 0x1000, 0x1000)
      case ObjectModel => Info(true, 0xB_0000, 0x1_0000)
  }

  /** A record with this letter, for what is staged at the beginning of the OTA partition. */
  function StagedRecord(letter: byte, length: seq<byte>, crc: seq<byte>): (rec: Record)
    requires |length| == 4 && |crc| == 2
  {
    [0, 0, 4, 0] + length + [0, 0, 0, 0, 0, 0, 0, 0] + [letter, 'U' as int] + crc + [0, 0, 0, 0]
  }

  function ApplicationRecord(length: seq<byte>, crc: seq<byte>): (rec: Record)
    requires |length| == 4 && |crc| == 2
  {
    StagedRecord('A' as int, length, crc)
  }

  function Cells(rec: Record, image: seq<byte>, p: Partition): (cells: seq<byte>)
    requires |image| <= 0x7_0000
    ensures |cells| == Sc3165()(p).length
  {
    if p == Parameter1 then rec + Filled(0x1000 - RECORD_SIZE)
    else if p == OtaTemp then image + Filled(0x7_0000 - |image|)
    else Filled(Sc3165()(p).length)
  }

  /** Blank flash but for that record and a staged image. */
  function Staged(rec: Record, image: seq<byte>): (m: Memory)
    requires |image| <= 0x7_0000
    ensures Fits(Sc3165(), m)
  {
    map p: Partition | true :: Cells(rec, image, p)
  }

  lemma RecordBytes(letter: byte, length: seq<byte>, crc: seq<byte>, image: seq<byte>)
    requires |length| == 4 && |crc| == 2 && |image| <= 0x7_0000
    ensures var para := Staged(StagedRecord(letter, length, crc), image)[Parameter1];
      && |para| == 0x1000 && para[..RECORD_SIZE] == StagedRecord(letter, length, crc)
      && para[16] == letter && para[17] == 0x55 && para[18] == crc[0] && para[19] == crc[1]
      && Word(para, 0) == 0x4_0000 && Word(para, 4) == Word(length, 0)
  {
    var rec := StagedRecord(letter, length, crc);
    var para := Staged(rec, image)[Parameter1];
    assert para[..RECORD_SIZE] == rec;
    assert forall i :: 0 <= i < RECORD_SIZE ==> para[i] == rec[i];
    assert rec[4..8] == length && rec[18..20] == crc;
  }

  lemma RecordRead(length: seq<byte>, crc: seq<byte>, image: seq<byte>)
    requires |length| == 4 && |crc| == 2 && Le32(length, 0) <= 0x7_4000 && |image| <= 0x7_0000
    ensures var rec := RecordOf(Sc3165(), Staged(ApplicationRecord(length, crc), image));
      && Classify(Sc3165(), rec) == NeedUpdate(Application)
      && Length(rec) == Le32(length, 0) && Crc(rec) == Le16(crc, 0)
  {
    var rec := ApplicationRecord(length, crc);
    assert RecordOf(Sc3165(), Staged(rec, image)) == rec;
    assert rec[4..8] == length && rec[18..20] == crc;
    assert rec[17] == 'U' as int && rec[16] == 'A' as int && StartAddress(rec) == 0x4_0000;
  }

  lemma StagedAsks(letter: byte, length: seq<byte>, image: seq<byte>, p: Partition)
    requires |length| == 4 && Letter(letter, p) && Word(length, 0) == |image|
    requires |image| <= 0x7_0000 && |image| <= Sc3165()(p).length
    ensures Asks(Sc3165(), Staged(StagedRecord(letter, length, [0xFF, 0xFF]), image), p, |image|)
  {
    RecordBytes(letter, length, [0xFF, 0xFF], image);
  }

  /** What is staged on that board with no checksum goes to the partition of its letter, and the other two stay
      blank. */
  lemma StagedInstalled(letter: byte, length: seq<byte>, image: seq<byte>, p: Partition)
    requires |length| == 4 && Letter(letter, p) && Word(length, 0) == |image|
    requires |image| <= 0x7_0000 && |image| <= Sc3165()(p).length
    ensures var r := CleanBoot(Sc3165(), Staged(StagedRecord(letter, length, [0xFF, 0xFF]), image));
      && Holds(r[p], image, |image|)
      && forall q: Partition :: q != p && q != Parameter1 && q != OtaTemp ==> Blank(r[q])
  {
    var m := Staged(StagedRecord(letter, length, [0xFF, 0xFF]), image);
    StagedAsks(letter, length, image, p);
    GoesWhereItsLetterSays(Sc3165(), m, p, |image|);
    StagedHolds(CleanBoot(Sc3165(), m)[p], m[OtaTemp], image);
  }

  /** A driver of 128 KB, longer than the bootloader's partition, and a bootloader of 16 KB. */
  lemma DriverInstalled(image: seq<byte>)
    requires |image| == 0x2_0000
    ensures var r := CleanBoot(Sc3165(), Staged(StagedRecord(0x44, [0, 0, 2, 0], [0xFF, 0xFF]), image));
      Holds(r[RfFirmware], image, 0x2_0000) && Blank(r[Bootloader]) && Blank(r[Application])
  {
    StagedInstalled(0x44, [0, 0, 2, 0], image, RfFirmware);
  }

  lemma BootloaderInstalled(image: seq<byte>)
    requires |image| == 0x4000
    ensures var r := CleanBoot(Sc3165(), Staged(StagedRecord(0x42, [0, 0x40, 0, 0], [0xFF, 0xFF]), image));
      Holds(r[Bootloader], image, 0x4000) && Blank(r[RfFirmware]) && Blank(r[Application])
  {
    StagedInstalled(0x42, [0, 0x40, 0, 0], image, Bootloader);
  }

  lemma StagedHolds(cells: seq<byte>, staged: seq<byte>, image: seq<byte>)
    requires image <= staged && Holds(cells, staged, |image|)
    ensures Holds(cells, image, |image|)
  {
    assert forall i :: 0 <= i < |image| ==> staged[i] == image[i];
  }

  /** An application image as long as its partition does not fit the staging partition. Without a checksum
      the record is taken, the destination erased and the copy broken off, at this boot and, as the record
      stays, at each one after it. */
  lemma OverlongRecord(image: seq<byte>)
    requires |image| == 0x7_0000
    ensures var layout, m := Sc3165(), Staged(ApplicationRecord([0, 0x40, 7, 0], [0xFF, 0xFF]), image);
      && Verdict(layout, m) == NeedUpdate(Application) && Length(RecordOf(layout, m)) == 0x7_4000
      && CleanStatus(layout, m) == ParamErr
      && RecordOf(layout, CleanBoot(layout, m)) == RecordOf(layout, m)
      && CleanBoot(layout, m)[Application][0x7_0000..] == Filled(0x4000)
  {
    RecordRead([0, 0x40, 7, 0], [0xFF, 0xFF], image);
    CarriedOutIffStaged(Sc3165(), Staged(ApplicationRecord([0, 0x40, 7, 0], [0xFF, 0xFF]), image));
  }

  /** The record is pending, its checksum is not that of the staged image, and a boot installs the image. */
  predicate InstalledDespite(crcStep: (int, byte) -> int, crc: seq<byte>, image: seq<byte>)
    requires |crc| == 2 && |image| == 1
  {
    var layout, m := Sc3165(), Staged(ApplicationRecord([1, 0, 0, 0], crc), image);
    && Pending(layout, m) && Crc(RecordOf(layout, m)) != Crc16(crcStep, image)
    && Done(layout, m, CleanBoot(layout, m)) && CleanBoot(layout, m)[Application][..1] == image
  }

  /** Whatever the checksum, an image of one byte is installed under a record with the wrong one. */
  lemma WrongChecksumInstalled(crcStep: (int, byte) -> int, image: seq<byte>)
    requires |image| == 1
    ensures InstalledDespite(crcStep, [0, 0], image) || InstalledDespite(crcStep, [1, 0], image)
  {
    OneByteInstalled(if Crc16(crcStep, image) == 0 then [1, 0] else [0, 0], image);
  }

  lemma OneByteInstalled(crc: seq<byte>, image: seq<byte>)
    requires |crc| == 2 && |image| == 1
    ensures var layout, m := Sc3165(), Staged(ApplicationRecord([1, 0, 0, 0], crc), image);
      && Pending(layout, m) && Crc(RecordOf(layout, m)) == Le16(crc, 0)
      && Done(layout, m, CleanBoot(layout, m)) && CleanBoot(layout, m)[Application][..1] == image
  {
    var layout, m := Sc3165(), Staged(ApplicationRecord([1, 0, 0, 0], crc), image);
    RecordRead([1, 0, 0, 0], crc, image);
    assert Pending(layout, m) && Target(layout, m) == Application && Length(RecordOf(layout, m)) == 1;
    CleanBootFinishes(layout, m, m);
    assert m[OtaTemp][..1] == image;
  }
}
