/** What the order of operations in update() buys: an installation survives any number of power losses. */
module OtaCrashSafety {
  import opened Flash
  import opened OtaUpdate

  /** A valid record for an image that is staged whole, not for the bootloader itself. */
  predicate Pending(layout: Layout, m: Memory) {
    && Fits(layout, m) && CanRun(layout)
    && Verdict(layout, m).NeedUpdate?
    && Verdict(layout, m).dest != Bootloader && layout(Verdict(layout, m).dest).present
    && Length(RecordOf(layout, m)) <= layout(OtaTemp).length
  }

  function Target(layout: Layout, m: Memory): (p: Partition)
    requires Pending(layout, m)
    ensures p != OtaTemp && p != Parameter1
  {
    Verdict(layout, m).dest
  }

  predicate ImageInPlace(layout: Layout, m0: Memory, m: Memory)
    requires Pending(layout, m0) && Fits(layout, m)
  {
    Installed(m0, m, Target(layout, m0), Length(RecordOf(layout, m0)))
  }

  /** The job given by m0 is safe in m: record and image both intact, or the image already in place
      and the record gone. Nothing else but the target has moved. */
  predicate Safe(layout: Layout, m0: Memory, m: Memory)
    requires Pending(layout, m0)
  {
    && Fits(layout, m)
    && (|| SameBut(m0, m, {Target(layout, m0)})
        || (&& ImageInPlace(layout, m0, m)
            && SameBut(m0, m, {Target(layout, m0), Parameter1, OtaTemp})
            && AllBlank(RecordOf(layout, m))
            && (m[OtaTemp] == m0[OtaTemp] || AllBlank(m[OtaTemp]))))
  }

  predicate Done(layout: Layout, m0: Memory, m: Memory)
    requires Pending(layout, m0)
  {
    && Fits(layout, m)
    && ImageInPlace(layout, m0, m)
    && AllBlank(RecordOf(layout, m)) && AllBlank(m[OtaTemp])
    && SameBut(m0, m, {Target(layout, m0), Parameter1, OtaTemp})
  }

  /** However torn its rewrite, the record reads as blank. */
  lemma TornRecordIsBlank(para: seq<byte>, now: seq<byte>)
    requires |para| >= RECORD_SIZE && Torn(Filled(|para|), 0, Cleared(para), now)
    ensures AllBlank(now[..RECORD_SIZE])
  {
    forall i | 0 <= i < RECORD_SIZE ensures now[i] == BLANK {
      assert Between(Filled(|para|)[i], Cleared(para)[i], now[i]);
      TornBlankStaysBlank(now[i]);
    }
  }

  lemma BlankRecordIsNoUpdate(layout: Layout, m: Memory)
    requires Fits(layout, m) && CanRun(layout) && AllBlank(RecordOf(layout, m))
    ensures Verdict(layout, m) == NotExist
  {
  }

  lemma InterruptedStaysSafe(layout: Layout, m0: Memory, m: Memory, m': Memory)
    requires Pending(layout, m0) && Safe(layout, m0, m) && Interrupted(layout, m, m')
    ensures Safe(layout, m0, m')
  {
    if SameBut(m0, m, {Target(layout, m0)}) {
      assert m[Parameter1] == m0[Parameter1] && m[OtaTemp] == m0[OtaTemp];
      if Torn(Filled(layout(Parameter1).length), 0, Cleared(m[Parameter1]), m'[Parameter1]) {
        TornRecordIsBlank(m[Parameter1], m'[Parameter1]);
      }
    } else {
      BlankRecordIsNoUpdate(layout, m);
    }
  }

  lemma CleanBootFinishes(layout: Layout, m0: Memory, m: Memory)
    requires Pending(layout, m0) && Safe(layout, m0, m)
    ensures Done(layout, m0, CleanBoot(layout, m)) && CleanStatus(layout, m) == NoErr
  {
    if SameBut(m0, m, {Target(layout, m0)}) {
      assert m[Parameter1] == m0[Parameter1] && m[OtaTemp] == m0[OtaTemp];
    } else {
      BlankRecordIsNoUpdate(layout, m);
    }
  }

  /** A second undisturbed boot changes nothing, whatever the first one found; after a success it finds
      no record and a blank staging area, so that it does not even erase. */
  lemma CleanBootIdempotent(layout: Layout, m: Memory)
    requires Fits(layout, m)
    ensures CleanBoot(layout, CleanBoot(layout, m)) == CleanBoot(layout, m)
    ensures CleanStatus(layout, m) == NoErr ==> var r := CleanBoot(layout, m);
      !Verdict(layout, r).NeedUpdate? && AllBlank(r[OtaTemp])
  {
    if CanRun(layout) {
      var verdict, r := Verdict(layout, m), CleanBoot(layout, m);
      if !verdict.NeedUpdate? {
        assert RecordOf(layout, r) == RecordOf(layout, m);
      } else if !layout(verdict.dest).present {
        assert r == m;
      } else if Length(RecordOf(layout, m)) <= layout(OtaTemp).length {
        assert RecordOf(layout, r) == Filled(RECORD_SIZE);
        BlankRecordIsNoUpdate(layout, r);
      } else {
        assert RecordOf(layout, r) == RecordOf(layout, m) && r[OtaTemp] == m[OtaTemp];
      }
    }
  }

  /** The parameters behind the record come through an undisturbed boot, and the record itself is
      either kept or blanked. */
  lemma CleanBootKeepsParameters(layout: Layout, m: Memory)
    requires Fits(layout, m) && CanRun(layout)
    ensures CleanBoot(layout, m)[Parameter1][RECORD_SIZE..] == m[Parameter1][RECORD_SIZE..]
    ensures var after := RecordOf(layout, CleanBoot(layout, m)); after == RecordOf(layout, m) || AllBlank(after)
  {
  }

  function Last(boots: seq<Memory>): (m: Memory)
    requires boots != []
  {
    boots[|boots| - 1]
  }

  /** Boot i of a history may have been cut short anywhere. */
  predicate InterruptedAt(layout: Layout, boots: seq<Memory>, i: nat)
    requires 0 < i < |boots|
  {
    Fits(layout, boots[i - 1]) && Interrupted(layout, boots[i - 1], boots[i])
  }

  predicate BootSeries(layout: Layout, boots: seq<Memory>) {
    && |boots| > 0 && Fits(layout, boots[0])
    && (forall i :: 0 < i < |boots| ==> InterruptedAt(layout, boots, i))
  }

  lemma {:induction false} SeriesFits(layout: Layout, boots: seq<Memory>, i: nat)
    requires BootSeries(layout, boots) && i < |boots|
    ensures Fits(layout, boots[i])
  {
    if i > 0 { assert InterruptedAt(layout, boots, i); }
  }

  /** The parameter partition was left erased, or written in part, by the rewrite that blanks its record. */
  predicate CutInRewrite(before: seq<byte>, now: seq<byte>) {
    && |before| >= RECORD_SIZE
    && Torn(Filled(|before|), 0, Cleared(before), now)
    && now != before && now != Cleared(before)
  }

  /** Boot i was cut inside the rewrite; before it the parameters are untouched, and what it left stays. */
  predicate CutAt(boots: seq<Memory>, i: nat)
    requires 0 < i < |boots|
  {
    && CutInRewrite(boots[i - 1][Parameter1], boots[i][Parameter1])
    && boots[i - 1][Parameter1] == boots[0][Parameter1]
    && boots[i][Parameter1] == Last(boots)[Parameter1]
  }

  /** The parameters are those of the first boot, with or without the record, or some boot was cut. */
  predicate MovedOnce(layout: Layout, boots: seq<Memory>)
    requires BootSeries(layout, boots) && layout(Parameter1).length >= RECORD_SIZE
  {
    var para := boots[0][Parameter1];
    || Last(boots)[Parameter1] in {para, Cleared(para)}
    || exists i :: 0 < i < |boots| && CutAt(boots, i)
  }

  /** The parameters behind the record are those of the first boot, unless some boot was cut inside the
      rewrite: then they are what that boot left. */
  predicate TailKeptUnlessCut(layout: Layout, boots: seq<Memory>, tail: seq<byte>)
    requires BootSeries(layout, boots) && layout(Parameter1).length >= RECORD_SIZE
  {
    || tail == boots[0][Parameter1][RECORD_SIZE..]
    || exists i :: 0 < i < |boots| && CutAt(boots, i) && tail == boots[i][Parameter1][RECORD_SIZE..]
  }

  /** One more boot: the parameters move only while the record is still there. */
  lemma MovesWithRecord(layout: Layout, m0: Memory, m: Memory, m': Memory)
    requires Pending(layout, m0) && Safe(layout, m0, m) && Interrupted(layout, m, m')
    ensures
      || m'[Parameter1] == m[Parameter1]
      || (m[Parameter1] == m0[Parameter1]
          && (m'[Parameter1] == Cleared(m[Parameter1]) || CutInRewrite(m[Parameter1], m'[Parameter1])))
  {
    if SameBut(m0, m, {Target(layout, m0)}) {
      assert m[Parameter1] == m0[Parameter1];
    } else {
      BlankRecordIsNoUpdate(layout, m);
    }
  }

  lemma MovesOnce(layout: Layout, boots: seq<Memory>, m: Memory)
    requires BootSeries(layout, boots) && BootSeries(layout, boots + [m])
    requires layout(Parameter1).length >= RECORD_SIZE && MovedOnce(layout, boots)
    requires var para, last := boots[0][Parameter1], Last(boots)[Parameter1];
      || m[Parameter1] == last
      || (last == para && (m[Parameter1] == Cleared(last) || CutInRewrite(last, m[Parameter1])))
    ensures MovedOnce(layout, boots + [m])
  {
    var n, all := |boots|, boots + [m];
    if m[Parameter1] != boots[n - 1][Parameter1] {
      if m[Parameter1] != Cleared(boots[0][Parameter1]) { assert CutAt(all, n); }
    } else if i :| 0 < i < n && CutAt(boots, i) {
      assert CutAt(all, i);
    }
  }

  lemma SeriesBefore(layout: Layout, boots: seq<Memory>)
    requires BootSeries(layout, boots) && |boots| > 1
    ensures var before, m := boots[..|boots| - 1], Last(boots);
      && BootSeries(layout, before) && boots == before + [m] && before[0] == boots[0]
      && Fits(layout, Last(before)) && Interrupted(layout, Last(before), m)
  {
    var before := boots[..|boots| - 1];
    assert InterruptedAt(layout, boots, |boots| - 1);
    forall i | 0 < i < |before| ensures InterruptedAt(layout, before, i) {
      assert InterruptedAt(layout, boots, i);
    }
  }

  lemma SeriesGoesOn(layout: Layout, boots: seq<Memory>, m: Memory)
    requires BootSeries(layout, boots) && Fits(layout, Last(boots))
    requires Interrupted(layout, Last(boots), m)
    ensures BootSeries(layout, boots + [m])
  {
    var all := boots + [m];
    forall i | 0 < i < |all| ensures InterruptedAt(layout, all, i) {
      assert i < |boots| ==> InterruptedAt(layout, boots, i);
    }
  }

  lemma {:induction false} SeriesStaysSafe(layout: Layout, boots: seq<Memory>)
    requires BootSeries(layout, boots) && Pending(layout, boots[0])
    ensures Safe(layout, boots[0], Last(boots)) && MovedOnce(layout, boots)
    decreases |boots|
  {
    if |boots| > 1 {
      var before, m := boots[..|boots| - 1], Last(boots);
      SeriesBefore(layout, boots);
      SeriesStaysSafe(layout, before);
      StaysSafeOnce(layout, before, m);
    }
  }

  lemma StaysSafeOnce(layout: Layout, boots: seq<Memory>, m: Memory)
    requires BootSeries(layout, boots) && BootSeries(layout, boots + [m]) && Pending(layout, boots[0])
    requires Safe(layout, boots[0], Last(boots)) && MovedOnce(layout, boots)
    requires Interrupted(layout, Last(boots), m)
    ensures Safe(layout, boots[0], m) && MovedOnce(layout, boots + [m])
  {
    InterruptedStaysSafe(layout, boots[0], Last(boots), m);
    MovesWithRecord(layout, boots[0], Last(boots), m);
    MovesOnce(layout, boots, m);
  }

  lemma TailFollows(layout: Layout, boots: seq<Memory>, tail: seq<byte>)
    requires BootSeries(layout, boots) && layout(Parameter1).length >= RECORD_SIZE && MovedOnce(layout, boots)
    requires tail == Last(boots)[Parameter1][RECORD_SIZE..]
    ensures TailKeptUnlessCut(layout, boots, tail)
  {
    if i :| 0 < i < |boots| && CutAt(boots, i) {
      assert tail == boots[i][Parameter1][RECORD_SIZE..];
    }
  }

  /** After any finite history of interrupted boots, one boot that power outlives ends the installation. */
  lemma SurvivesPowerLosses(layout: Layout, boots: seq<Memory>)
    requires BootSeries(layout, boots) && Pending(layout, boots[0])
    ensures Safe(layout, boots[0], Last(boots)) && MovedOnce(layout, boots)
    ensures Done(layout, boots[0], CleanBoot(layout, Last(boots)))
    ensures TailKeptUnlessCut(layout, boots, CleanBoot(layout, Last(boots))[Parameter1][RECORD_SIZE..])
  {
    var last := Last(boots);
    SeriesStaysSafe(layout, boots);
    CleanBootFinishes(layout, boots[0], last);
    CleanBootKeepsParameters(layout, last);
    TailFollows(layout, boots, CleanBoot(layout, last)[Parameter1][RECORD_SIZE..]);
  }

  /** The length check compares with the destination only. An image longer than the staging partition
      is rejected by its checksum pass; without one (checksum 0xFFFF) it is never finished: the record
      stays, and each boot erases the destination again. So a valid record is carried out if and only
      if its image fits the staging partition. */
  lemma CarriedOutIffStaged(layout: Layout, m: Memory)
    requires Fits(layout, m) && CanRun(layout)
    requires Verdict(layout, m).NeedUpdate? && layout(Verdict(layout, m).dest).present
    ensures var n, r := Length(RecordOf(layout, m)), CleanBoot(layout, m);
      && (CleanStatus(layout, m) == NoErr <==> n <= layout(OtaTemp).length)
      && (AllBlank(RecordOf(layout, r)) <==> n <= layout(OtaTemp).length)
      && (n > layout(OtaTemp).length ==>
            Crc(RecordOf(layout, m)) == 0xFFFF && Verdict(layout, r) == Verdict(layout, m) && r[OtaTemp] == m[OtaTemp])
  {
    var n, r := Length(RecordOf(layout, m)), CleanBoot(layout, m);
    if n > layout(OtaTemp).length {
      assert r[Parameter1] == m[Parameter1];
    } else {
      assert RecordOf(layout, r) == Filled(RECORD_SIZE);
    }
  }

  /** A read that fails in the checksum pass with the power on makes update() erase the staged image
      and keep the record. The next undisturbed boot then installs blank flash: the image that was
      staged ends up in place if and only if it was blank itself. */
  lemma FailedChecksumReadLosesImage(layout: Layout, m: Memory)
    requires Pending(layout, m) && ReadsImage(layout, RecordOf(layout, m))
    ensures var r := CleanBoot(layout, m[OtaTemp := Filled(layout(OtaTemp).length)]);
      && AllBlank(r[Target(layout, m)])
      && AllBlank(RecordOf(layout, r))
      && (ImageInPlace(layout, m, r) <==> AllBlank(m[OtaTemp][..Length(RecordOf(layout, m))]))
  {
    var n, lost := Length(RecordOf(layout, m)), m[OtaTemp := Filled(layout(OtaTemp).length)];
    var r := CleanBoot(layout, lost);
    assert RecordOf(layout, lost) == RecordOf(layout, m);
    assert r[Target(layout, m)] == Burnt(layout, lost, Target(layout, m), n);
    assert AllBlank(r[Target(layout, m)]);
    assert ImageInPlace(layout, m, r) ==> AllBlank(m[OtaTemp][..n]);
    if AllBlank(m[OtaTemp][..n]) {
      assert r[Target(layout, m)][..n] == m[OtaTemp][..n];
    }
  }

  /** Whatever a run with failing calls leaves, the next undisturbed boot puts the image in place. */
  ghost predicate OutlivesFaults(layout: Layout, m: Memory)
    requires Pending(layout, m)
  {
    forall m' :: FaultyRun(layout, m, m') ==> ImageInPlace(layout, m, CleanBoot(layout, m'))
  }

  /** Which records are safe under failing calls: those whose image is not read for its checksum, that is
      those with checksum 0xFFFF or length 0, and blank images. */
  lemma OutlivesFaultsIff(layout: Layout, m: Memory)
    requires Pending(layout, m)
    ensures var rec := RecordOf(layout, m);
      OutlivesFaults(layout, m) <==> Crc(rec) == 0xFFFF || Length(rec) == 0 || AllBlank(m[OtaTemp][..Length(rec)])
  {
    var rec, lost := RecordOf(layout, m), m[OtaTemp := Filled(layout(OtaTemp).length)];
    if ReadsImage(layout, rec) { FailedChecksumReadLosesImage(layout, m); }
    if !ReadsImage(layout, rec) || AllBlank(m[OtaTemp][..Length(rec)]) {
      forall m' | FaultyRun(layout, m, m') ensures ImageInPlace(layout, m, CleanBoot(layout, m')) {
        if Interrupted(layout, m, m') {
          InterruptedStaysSafe(layout, m, m, m');
          CleanBootFinishes(layout, m, m');
        }
      }
    } else {
      assert FaultyRun(layout, m, lost);
    }
  }

  /** The losing run from the failed checksum pass on, which is not run here: update() has read the record, counts
      it as none, and scans the staging area with no call failing any more; then an undisturbed boot. */
  method LoseImage(installer: Installer) returns (err: Status)
    requires installer.Valid() && Pending(installer.flash.layout, installer.flash.mem)
    requires ReadsImage(installer.flash.layout, RecordOf(installer.flash.layout, installer.flash.mem))
    modifies installer.flash, installer.data, installer.newData, installer.paraSaveInRam
    ensures installer.Valid() && err == NoErr
    ensures AllBlank(installer.flash.mem[Target(installer.flash.layout, old(installer.flash.mem))])
    ensures AllBlank(RecordOf(installer.flash.layout, installer.flash.mem))
  {
    var flash := installer.flash;
    ghost var m := flash.mem;
    ghost var lost := m[OtaTemp := Filled(flash.layout(OtaTemp).length)];
    flash.PowerUp(Reliable);
    var updateLog, check;
    err, updateLog := installer.ReadRecord();
    err := installer.ScanStaging();
    FailedChecksumReadLosesImage(flash.layout, m);
    err, check := installer.Update();
    CleanBootFinishes(flash.layout, lost, lost);
  }

  /** One boot in the course of the job m0, in which power may fail in any call. If it loses parameters
      behind the record, its last call to the flash was their erase or a broken write to them. */
  method LossyBoot(installer: Installer, ghost m0: Memory)
    requires installer.Valid()
    requires Pending(installer.flash.layout, m0) && Safe(installer.flash.layout, m0, installer.flash.mem)
    modifies installer.flash, installer.data, installer.newData, installer.paraSaveInRam
    ensures installer.Valid() && Safe(installer.flash.layout, m0, installer.flash.mem)
    ensures Interrupted(installer.flash.layout, old(installer.flash.mem), installer.flash.mem)
    ensures installer.flash.mem[Parameter1][RECORD_SIZE..] == old(installer.flash.mem)[Parameter1][RECORD_SIZE..]
            || installer.CutInParameters()
  {
    ghost var m := installer.flash.mem;
    installer.flash.PowerUp(PowerCut);
    var err, check := installer.Update();
    InterruptedStaysSafe(installer.flash.layout, m0, m, installer.flash.mem);
  }

  /** The runs that may lose power, and what the flash held before the first and after each of them. */
  method LossyBoots(installer: Installer, losses: nat) returns (ghost boots: seq<Memory>)
    requires installer.Valid() && Pending(installer.flash.layout, installer.flash.mem)
    modifies installer.flash, installer.data, installer.newData, installer.paraSaveInRam
    ensures installer.Valid()
    ensures |boots| == losses + 1 && boots[0] == old(installer.flash.mem) && Last(boots) == installer.flash.mem
    ensures BootSeries(installer.flash.layout, boots)
    ensures Safe(installer.flash.layout, boots[0], installer.flash.mem)
  {
    var flash := installer.flash;
    boots := [flash.mem];
    for i := 0 to losses
      invariant installer.Valid() && |boots| == i + 1
      invariant boots[0] == old(flash.mem) && boots[i] == flash.mem
      invariant BootSeries(flash.layout, boots) && Safe(flash.layout, boots[0], flash.mem)
    {
      LossyBoot(installer, boots[0]);
      SeriesGoesOn(flash.layout, boots, flash.mem);
      boots := boots + [flash.mem];
    }
  }

  /** One boot that power outlives. */
  method SteadyBoot(installer: Installer) returns (err: Status)
    requires installer.Valid()
    modifies installer.flash, installer.data, installer.newData, installer.paraSaveInRam
    ensures installer.Valid() && err == CleanStatus(installer.flash.layout, old(installer.flash.mem))
    ensures installer.flash.mem == CleanBoot(installer.flash.layout, old(installer.flash.mem))
  {
    installer.flash.PowerUp(Reliable);
    var check;
    err, check := installer.Update();
  }

  /** What such a boot makes of a series of interrupted ones. */
  lemma FinishesSeries(layout: Layout, boots: seq<Memory>, err: Status, m: Memory)
    requires BootSeries(layout, boots) && Pending(layout, boots[0]) && Fits(layout, Last(boots))
    requires m == CleanBoot(layout, Last(boots)) && err == CleanStatus(layout, Last(boots))
    ensures err == NoErr && Done(layout, boots[0], m)
    ensures TailKeptUnlessCut(layout, boots, m[Parameter1][RECORD_SIZE..])
  {
    SurvivesPowerLosses(layout, boots);
    CleanBootFinishes(layout, boots[0], Last(boots));
  }

  /** Boot again and again, losing power in each of the first `losses` runs or not, then once with the
      power steady. */
  method RebootUntilDone(installer: Installer, losses: nat) returns (err: Status, ghost boots: seq<Memory>)
    requires installer.Valid() && Pending(installer.flash.layout, installer.flash.mem)
    modifies installer.flash, installer.data, installer.newData, installer.paraSaveInRam
    ensures installer.Valid() && err == NoErr
    ensures |boots| == losses + 1 && boots[0] == old(installer.flash.mem)
    ensures BootSeries(installer.flash.layout, boots)
    ensures Fits(installer.flash.layout, Last(boots))
    ensures installer.flash.mem == CleanBoot(installer.flash.layout, Last(boots))
    ensures Done(installer.flash.layout, old(installer.flash.mem), installer.flash.mem)
    ensures TailKeptUnlessCut(installer.flash.layout, boots, installer.flash.mem[Parameter1][RECORD_SIZE..])
  {
    var flash := installer.flash;
    boots := LossyBoots(installer, losses);
    err := SteadyBoot(installer);
    FinishesSeries(flash.layout, boots, err, flash.mem);
  }
}
