/**
 The pipeline from a guest snapshot to the kernel: exactly which disk inventories make
 samples that pass validation, and what the group samples mean.
 */
module Acceptance {
  import opened Common
  import opened SensorId
  import opened Topology
  import Labels

  const MAX_DISK_ID_SIZE := 79

  ghost predicate AcceptableDisk(d: DiskReading) {
    0 < |d.id| <= MAX_DISK_ID_SIZE && 0 !in d.id && (d.unavailable || Representable(d.temp))
  }

  /** The inventories whose samples the host can publish. */
  ghost predicate Acceptable(disks: seq<DiskReading>) {
    |DiskSamples(disks)| <= MAX_SENSORS
    && (forall i :: 0 <= i < |disks| ==> AcceptableDisk(disks[i]))
    && (forall i, j :: 0 <= i < j < |disks| ==> disks[i].id != disks[j].id)
    && (forall i, kind :: 0 <= i < |disks| && kind in GROUP_KINDS && TwoOf(disks, kind) ==>
          DiskId(disks[i]) != GroupSensor(kind).id)
  }

  lemma SingleIds(disks: seq<DiskReading>)
    ensures forall i :: 0 <= i < |disks| ==> SingleSamples(disks)[i].sensor.id == DiskId(disks[i])
    ensures forall i :: 0 <= i < |disks| ==>
      (ValidSample(Disk, SingleSamples(disks)[i]) <==> AcceptableDisk(disks[i]))
  {
    forall i | 0 <= i < |disks|
      ensures SingleSamples(disks)[i].sensor.id == DiskId(disks[i])
      ensures ValidSample(Disk, SingleSamples(disks)[i]) <==> AcceptableDisk(disks[i])
    {
      SingleAt(disks, i);
      DiskSampleValid(disks[i]);
    }
  }

  lemma DiskIdValid(id: seq<byte>)
    ensures ValidId(Disk, Ascii("disk:") + id) <==> 0 < |id| <= MAX_DISK_ID_SIZE && 0 !in id
  {
    var full := Ascii("disk:") + id;
    FamilyNames();
    assert Ascii("disk:") == FamilyName(Disk) + [COLON];
    assert full[..5] == Ascii("disk:") && full[5..] == id;
    assert forall b :: b in full <==> b in Ascii("disk:") || b in id;
    assert 0 !in Ascii("disk:");
  }

  lemma DiskSampleValid(d: DiskReading)
    ensures DiskSample(d).sensor.id == DiskId(d)
    ensures ValidSample(Disk, DiskSample(d)) <==> AcceptableDisk(d)
  {
    hide Labels.Sanitized, Labels.AcceptedByKernel, ValidId, Labels.ValidLabel;
    DiskIdValid(d.id);
    Labels.SanitizedIsAccepted(d.name, DiskId(d));
    assert Milli(100.0) == FAILSAFE_MILLI;
  }

  lemma PrintableLabel(s: string)
    requires 0 < |s| <= Labels.MAX_LABEL_SIZE && forall i :: 0 <= i < |s| ==> 32 <= s[i] as int < 127
    ensures Labels.ValidLabel(Ascii(s)) && 0 !in Ascii(s)
  {
    assert forall b :: b in Ascii(s) ==> b >= 32;
  }

  lemma GroupSensorsValid(kind: Kind)
    requires kind in GROUP_KINDS
    ensures ValidId(Disk, GroupSensor(kind).id) && Labels.ValidLabel(GroupSensor(kind).text)
  {
    hide ValidId, Labels.ValidLabel;
    var suffix := match kind case Hdd => "group:hdd" case SataSsd => "group:ssd" case _ => "group:nvme";
    assert GroupSensor(kind).id == Ascii("disk:") + Ascii(suffix);
    PrintableLabel(suffix);
    DiskIdValid(Ascii(suffix));
    PrintableLabel(match kind case Hdd => "HDD maximum" case SataSsd => "SATA SSD maximum"
                              case _ => "NVMe SSD maximum");
  }

  lemma GroupIdsDistinct()
    ensures GroupSensor(Hdd).id != GroupSensor(SataSsd).id
    ensures GroupSensor(NVMe).id != GroupSensor(SataSsd).id && GroupSensor(NVMe).id != GroupSensor(Hdd).id
  {
    assert GroupSensor(Hdd).id[11] != GroupSensor(SataSsd).id[11];
    assert |GroupSensor(Hdd).id| == |GroupSensor(SataSsd).id| == 14 && |GroupSensor(NVMe).id| == 15;
  }

  lemma GroupsDistinct(disks: seq<DiskReading>)
    ensures DistinctSamples(GroupSamples(disks, GROUP_KINDS))
  {
    GroupIdsDistinct();
    var g1 := GroupSamples(disks, [Hdd]);
    var g2 := GroupSamples(disks, [Hdd, SataSsd]);
    assert [Hdd][..0] == [] && [Hdd, SataSsd][..1] == [Hdd] && GROUP_KINDS[..2] == [Hdd, SataSsd];
    assert GroupSamples(disks, []) == [];
    assert |g1| <= 1 && forall s :: s in g1 ==> s.sensor == GroupSensor(Hdd);
    assert DistinctSamples(g2);
    assert forall s :: s in g2 ==> s.sensor == GroupSensor(Hdd) || s.sensor == GroupSensor(SataSsd);
  }

  lemma GroupAccepted(disks: seq<DiskReading>, kind: Kind, s: Sample)
    requires forall i :: 0 <= i < |disks| ==> AcceptableDisk(disks[i])
    requires kind in GROUP_KINDS && GroupShows(disks, kind, s)
    ensures ValidSample(Disk, s)
  {
    hide GroupSensor, Labels.ValidLabel, ValidId, TwoOf, Milli;
    assert Milli(100.0) == FAILSAFE_MILLI by { FailsafeMilli(); }
    GroupSensorsValid(kind);
  }

  lemma FailsafeMilli()
    ensures Milli(100.0) == FAILSAFE_MILLI
  {
  }

  lemma GroupsAccepted(disks: seq<DiskReading>)
    requires forall i :: 0 <= i < |disks| ==> AcceptableDisk(disks[i])
    ensures forall s :: s in GroupSamples(disks, GROUP_KINDS) ==> ValidSample(Disk, s)
  {
    hide GroupSamples, GroupShows, ValidSample, AcceptableDisk, TwoOf;
    GroupsOf(disks, GROUP_KINDS);
    forall s | s in GroupSamples(disks, GROUP_KINDS) ensures ValidSample(Disk, s) {
      var kind :| kind in GROUP_KINDS && GroupShows(disks, kind, s);
      GroupAccepted(disks, kind, s);
    }
  }

  /**
   The samples of an inventory pass validation if and only if the inventory is acceptable;
   no label and no group ever makes validation fail.
   */
  lemma PipelineAccepts(disks: seq<DiskReading>)
    ensures ValidSamples(Disk, DiskSamples(disks)) <==> Acceptable(disks)
  {
    if Acceptable(disks) {
      AcceptableIsValid(disks);
    }
    if ValidSamples(Disk, DiskSamples(disks)) {
      ValidIsAcceptable(disks);
    }
  }

  lemma AcceptableIsValid(disks: seq<DiskReading>)
    requires Acceptable(disks)
    ensures ValidSamples(Disk, DiskSamples(disks))
  {
    hide GroupSamples, SingleSamples, GroupSensor, ValidSample, AcceptableDisk, Members, AnyUnavailable;
    var g, s := GroupSamples(disks, GROUP_KINDS), SingleSamples(disks);
    GroupsAccepted(disks);
    GroupsDistinct(disks);
    GroupsOf(disks, GROUP_KINDS);
    SingleIds(disks);
    forall i, j | 0 <= i < |g| && 0 <= j < |s| ensures g[i].sensor.id != s[j].sensor.id {
      assert g[i] in g;
      var kind :| kind in GROUP_KINDS && GroupShows(disks, kind, g[i]);
    }
    forall i, j | 0 <= i < j < |s| ensures s[i].sensor.id != s[j].sensor.id {
      assert DiskId(disks[i])[5..] == disks[i].id && DiskId(disks[j])[5..] == disks[j].id;
    }
  }

  lemma NoCollision(disks: seq<DiskReading>, i: nat, kind: Kind)
    requires DistinctSamples(DiskSamples(disks))
    requires i < |disks| && kind in GROUP_KINDS && TwoOf(disks, kind)
    ensures DiskId(disks[i]) != GroupSensor(kind).id
  {
    hide GroupSamples, SingleSamples, GroupSensor, DiskSample, Members, AnyUnavailable, ValidSample, AcceptableDisk,
      Grouped;
    var g, s := GroupSamples(disks, GROUP_KINDS), SingleSamples(disks);
    var k := GroupIsShown(disks, kind);
    GroupSampleSensor(disks, kind, g[k]);
    SingleIds(disks);
    var all := g + s;
    assert all[k] == g[k] && all[|g| + i] == s[i];
  }

  lemma ValidIsAcceptable(disks: seq<DiskReading>)
    requires ValidSamples(Disk, DiskSamples(disks))
    ensures Acceptable(disks)
  {
    hide GroupSamples, SingleSamples, GroupSensor, ValidSample, AcceptableDisk, Members, AnyUnavailable;
    var g, s, all := GroupSamples(disks, GROUP_KINDS), SingleSamples(disks), DiskSamples(disks);
    SingleIds(disks);
    assert forall i :: 0 <= i < |s| ==> all[|g| + i] == s[i];
    forall i, kind | 0 <= i < |disks| && kind in GROUP_KINDS && TwoOf(disks, kind)
      ensures DiskId(disks[i]) != GroupSensor(kind).id
    {
      NoCollision(disks, i, kind);
    }
    forall i, j | 0 <= i < j < |disks| ensures disks[i].id != disks[j].id {
      assert all[|g| + i].sensor.id != all[|g| + j].sensor.id;
    }
  }

  /** At most three groups are added, so 1021 disks are never too many. */
  lemma GroupsFit(disks: seq<DiskReading>)
    requires |disks| <= 1021
    ensures |DiskSamples(disks)| <= MAX_SENSORS
  {
    GroupsOf(disks, GROUP_KINDS);
  }

  /** The text of a sample that Go made is accepted by the kernel, sent with its newline. */
  ghost predicate LabelsAccepted(samples: seq<Sample>) {
    forall i :: 0 <= i < |samples| ==> Labels.AcceptedByKernel(samples[i].sensor.text + [Labels.NEWLINE])
  }

  lemma GroupLabelAccepted(kind: Kind)
    requires kind in GROUP_KINDS
    ensures Labels.AcceptedByKernel(GroupSensor(kind).text + [Labels.NEWLINE])
  {
    hide Labels.AcceptedByKernel;
    GroupSensorsValid(kind);
    var text := GroupSensor(kind).text;
    assert text[0] == 72 || text[0] == 83 || text[0] == 78;
    Labels.AcceptedIffVisible(text);
  }

  lemma GroupLabelsAccepted(disks: seq<DiskReading>)
    ensures LabelsAccepted(GroupSamples(disks, GROUP_KINDS))
  {
    hide GroupSamples, GroupSensor, GroupShows, Labels.AcceptedByKernel, Members, TwoOf;
    GroupsOf(disks, GROUP_KINDS);
    var g := GroupSamples(disks, GROUP_KINDS);
    forall i | 0 <= i < |g| ensures Labels.AcceptedByKernel(g[i].sensor.text + [Labels.NEWLINE]) {
      assert g[i] in g;
      var kind :| kind in GROUP_KINDS && GroupShows(disks, kind, g[i]);
      GroupSampleSensor(disks, kind, g[i]);
      GroupLabelAccepted(kind);
    }
  }

  lemma DiskLabelAccepted(d: DiskReading)
    ensures Labels.AcceptedByKernel(DiskSample(d).sensor.text + [Labels.NEWLINE])
  {
    hide Labels.Sanitized, Labels.AcceptedByKernel;
    Labels.SanitizedIsAccepted(d.name, DiskId(d));
  }

  lemma SingleLabelsAccepted(disks: seq<DiskReading>)
    ensures LabelsAccepted(SingleSamples(disks))
  {
    hide SingleSamples, DiskSample, Labels.AcceptedByKernel;
    var s := SingleSamples(disks);
    forall i | 0 <= i < |s| ensures Labels.AcceptedByKernel(s[i].sensor.text + [Labels.NEWLINE]) {
      SingleAt(disks, i);
      DiskLabelAccepted(disks[i]);
    }
  }

  /** Labels never make the kernel refuse a disk sample. */
  lemma DiskLabelsAccepted(disks: seq<DiskReading>)
    ensures LabelsAccepted(DiskSamples(disks))
  {
    hide GroupSamples, SingleSamples, Labels.AcceptedByKernel;
    GroupLabelsAccepted(disks);
    SingleLabelsAccepted(disks);
    var g, s := GroupSamples(disks, GROUP_KINDS), SingleSamples(disks);
    assert forall i :: 0 <= i < |g + s| ==> (g + s)[i] == if i < |g| then g[i] else s[i - |g|];
  }

  lemma GroupSampleSensor(disks: seq<DiskReading>, kind: Kind, s: Sample)
    requires GroupShows(disks, kind, s)
    ensures s.sensor == GroupSensor(kind)
  {
  }

  // ----- HBAs -----

  const MAX_HBA_ID_SIZE := 80
  const MAX_BOARD_ID_SIZE := 74

  /** The HBA has a sample under its own ID. */
  predicate HasMain(h: HbaReading) {
    h.iocTemp.Some? || h.boardTemp.None?
  }

  function MainTemp(h: HbaReading): Temp {
    if h.iocTemp.Some? then h.iocTemp.value else h.temp
  }

  ghost predicate AcceptableHba(h: HbaReading) {
    0 !in h.id
    && (HasMain(h) ==> 0 < |h.id| <= MAX_HBA_ID_SIZE && Representable(MainTemp(h)))
    && (h.boardTemp.Some? ==> |h.id| <= MAX_BOARD_ID_SIZE && Representable(h.boardTemp.value))
  }

  /** No sample of one HBA has the ID of a sample of the other. */
  predicate Apart(g: HbaReading, h: HbaReading) {
    (HasMain(g) && HasMain(h) ==> g.id != h.id)
    && (g.boardTemp.Some? && h.boardTemp.Some? ==> g.id != h.id)
    && (HasMain(g) && h.boardTemp.Some? ==> g.id != Ascii("board:") + h.id)
    && (g.boardTemp.Some? && HasMain(h) ==> h.id != Ascii("board:") + g.id)
  }

  ghost predicate AllApart(hbas: seq<HbaReading>) {
    forall i, j :: 0 <= i < j < |hbas| ==> Apart(hbas[i], hbas[j])
  }

  /** The HBA lists whose samples the host can publish. */
  ghost predicate AcceptableHbas(hbas: seq<HbaReading>) {
    |HbaSamples(hbas)| <= MAX_SENSORS && AllApart(hbas)
    && forall i :: 0 <= i < |hbas| ==> AcceptableHba(hbas[i])
  }

  function MainId(h: HbaReading): seq<byte> {
    Ascii("hba:") + h.id
  }

  function BoardId(h: HbaReading): seq<byte> {
    Ascii("hba:board:") + h.id
  }

  lemma BoardIsMainOf(h: HbaReading)
    ensures BoardId(h) == Ascii("hba:") + (Ascii("board:") + h.id)
  {
    assert Ascii("hba:board:") == Ascii("hba:") + Ascii("board:");
  }

  lemma HbaIdValid(id: seq<byte>)
    ensures ValidId(Hba, Ascii("hba:") + id) <==> 0 < |id| <= MAX_HBA_ID_SIZE && 0 !in id
  {
    var full := Ascii("hba:") + id;
    FamilyNames();
    assert Ascii("hba:") == FamilyName(Hba) + [COLON];
    assert full[..4] == Ascii("hba:") && full[4..] == id;
    assert forall b :: b in full <==> b in Ascii("hba:") || b in id;
    assert 0 !in Ascii("hba:");
  }

  lemma HbaSampleValid(h: HbaReading, id: seq<byte>, probe: seq<byte>, t: Temp)
    requires id != [] && 0x21 <= id[0] < 0x7F
    ensures var s := HbaSample(h, id, probe, t);
            s.sensor.id == id && Labels.AcceptedByKernel(s.sensor.text + [Labels.NEWLINE])
            && (ValidSample(Hba, s) <==> ValidId(Hba, id) && Representable(t))
  {
    hide Labels.Sanitized, Labels.AcceptedByKernel, ValidId, Representable;
    var base := if h.model != [] then h.model else h.id;
    var probed := if probe != [] then base + Ascii(" ") + probe else base;
    var full := if h.pciAddress != [] then probed + Ascii(" (") + h.pciAddress + Ascii(")") else probed;
    Labels.SanitizedIsAccepted(full, id);
  }

  ghost predicate HasSample(samples: seq<Sample>, id: seq<byte>) {
    exists i :: 0 <= i < |samples| && samples[i].sensor.id == id
  }

  /** One HBA: its samples, their validity and their labels. */
  lemma SamplesOfOne(h: HbaReading)
    ensures LabelsAccepted(SamplesOfHba(h))
    ensures (forall i :: 0 <= i < |SamplesOfHba(h)| ==> ValidSample(Hba, SamplesOfHba(h)[i])) <==> AcceptableHba(h)
    ensures forall id :: HasSample(SamplesOfHba(h), id) <==>
                         (HasMain(h) && id == MainId(h)) || (h.boardTemp.Some? && id == BoardId(h))
    ensures DistinctSamples(SamplesOfHba(h)) && SamplesOfHba(h) != []
  {
    hide HbaSample, ValidId, Representable, Labels.AcceptedByKernel, ValidSample, Ascii;
    HbaIds(h);
    if HasMain(h) {
      HbaSampleValid(h, MainId(h), if h.iocTemp.Some? then Ascii("IOC") else [], MainTemp(h));
    }
    if h.boardTemp.Some? {
      HbaSampleValid(h, BoardId(h), Ascii("Board"), h.boardTemp.value);
    }
    var s := SamplesOfHba(h);
    if HasMain(h) {
      assert s[0].sensor.id == MainId(h);
    }
    if h.boardTemp.Some? {
      assert s[|s| - 1].sensor.id == BoardId(h);
    }
  }

  lemma HbaIds(h: HbaReading)
    ensures MainId(h) != [] && MainId(h)[0] == 104 && BoardId(h) != [] && BoardId(h)[0] == 104
    ensures MainId(h) != BoardId(h)
    ensures ValidId(Hba, MainId(h)) <==> 0 < |h.id| <= MAX_HBA_ID_SIZE && 0 !in h.id
    ensures ValidId(Hba, BoardId(h)) <==> |h.id| <= MAX_BOARD_ID_SIZE && 0 !in h.id
  {
    hide ValidId;
    HbaIdValid(h.id);
    HbaIdValid(Ascii("board:") + h.id);
    BoardIsMainOf(h);
    assert 0 !in Ascii("board:");
    assert |MainId(h)| != |BoardId(h)|;
  }

  /** Two sample lists share no ID. */
  ghost predicate Disjoint(a: seq<Sample>, b: seq<Sample>) {
    forall i, j :: 0 <= i < |a| && 0 <= j < |b| ==> a[i].sensor.id != b[j].sensor.id
  }

  lemma ApartMeansDisjoint(g: HbaReading, h: HbaReading)
    ensures Apart(g, h) <==> Disjoint(SamplesOfHba(g), SamplesOfHba(h))
  {
    hide SamplesOfHba, HasMain, MainId, BoardId;
    SamplesOfOne(g);
    SamplesOfOne(h);
    SameMain(g, h);
    var a, b := SamplesOfHba(g), SamplesOfHba(h);
    if !Apart(g, h) {
      var id := if HasMain(g) && ((HasMain(h) && g.id == h.id) || (h.boardTemp.Some? && MainId(g) == BoardId(h)))
                then MainId(g) else BoardId(g);
      assert HasSample(a, id) && HasSample(b, id);
      var i :| 0 <= i < |a| && a[i].sensor.id == id;
      var j :| 0 <= j < |b| && b[j].sensor.id == id;
    }
    forall i, j | 0 <= i < |a| && 0 <= j < |b| && a[i].sensor.id == b[j].sensor.id ensures !Apart(g, h) {
      var id := a[i].sensor.id;
      assert HasSample(a, id) && HasSample(b, id);
      assert (HasMain(g) && id == MainId(g)) || (g.boardTemp.Some? && id == BoardId(g));
      assert (HasMain(h) && id == MainId(h)) || (h.boardTemp.Some? && id == BoardId(h));
    }
  }

  lemma SameMain(g: HbaReading, h: HbaReading)
    ensures MainId(g) == MainId(h) <==> g.id == h.id
    ensures BoardId(g) == BoardId(h) <==> g.id == h.id
    ensures MainId(g) == BoardId(h) <==> g.id == Ascii("board:") + h.id
    ensures MainId(h) == BoardId(g) <==> h.id == Ascii("board:") + g.id
  {
    BoardIsMainOf(g);
    BoardIsMainOf(h);
    assert MainId(g)[4..] == g.id && MainId(h)[4..] == h.id;
    assert BoardId(g)[10..] == g.id && BoardId(h)[10..] == h.id;
    assert BoardId(g)[4..] == Ascii("board:") + g.id && BoardId(h)[4..] == Ascii("board:") + h.id;
  }

  lemma DistinctConcat(a: seq<Sample>, b: seq<Sample>)
    ensures DistinctSamples(a + b) <==> DistinctSamples(a) && DistinctSamples(b) && Disjoint(a, b)
  {
    var all := a + b;
    assert forall i :: 0 <= i < |a| ==> all[i] == a[i];
    assert forall j :: 0 <= j < |b| ==> all[|a| + j] == b[j];
  }

  lemma {:induction false} DisjointFromAll(hbas: seq<HbaReading>, b: seq<Sample>)
    ensures Disjoint(HbaSamples(hbas), b) <==>
            forall i :: 0 <= i < |hbas| ==> Disjoint(SamplesOfHba(hbas[i]), b)
  {
    hide SamplesOfHba;
    if hbas != [] {
      var before, last := hbas[..|hbas| - 1], hbas[|hbas| - 1];
      DisjointFromAll(before, b);
      DisjointConcat(HbaSamples(before), SamplesOfHba(last), b);
      assert forall i :: 0 <= i < |before| ==> before[i] == hbas[i];
    }
  }

  lemma DisjointConcat(a: seq<Sample>, c: seq<Sample>, b: seq<Sample>)
    ensures Disjoint(a + c, b) <==> Disjoint(a, b) && Disjoint(c, b)
  {
    var all := a + c;
    assert forall i :: 0 <= i < |a| ==> all[i] == a[i];
    assert forall j :: 0 <= j < |c| ==> all[|a| + j] == c[j];
  }

  lemma NoneDistinct()
    ensures DistinctSamples([])
  {
  }

  lemma {:induction false} HbasDistinct(hbas: seq<HbaReading>)
    ensures DistinctSamples(HbaSamples(hbas)) <==> AllApart(hbas)
  {
    hide SamplesOfHba, Apart, Disjoint, DistinctSamples, LabelsAccepted;
    assert hbas == [] ==> DistinctSamples(HbaSamples(hbas)) by { NoneDistinct(); }
    if hbas != [] {
      var n := |hbas| - 1;
      var before, last := hbas[..n], hbas[n];
      HbasDistinct(before);
      SamplesOfOne(last);
      DistinctConcat(HbaSamples(before), SamplesOfHba(last));
      DisjointFromAll(before, SamplesOfHba(last));
      forall i | 0 <= i < n ensures Apart(hbas[i], last) <==> Disjoint(SamplesOfHba(before[i]), SamplesOfHba(last)) {
        ApartMeansDisjoint(hbas[i], last);
      }
      assert AllApart(hbas) <==> AllApart(before) && forall i :: 0 <= i < n ==> Apart(hbas[i], last);
    }
  }

  ghost predicate All(samples: seq<Sample>, p: Sample -> bool) {
    forall i :: 0 <= i < |samples| ==> p(samples[i])
  }

  lemma AllOfConcat(a: seq<Sample>, b: seq<Sample>, p: Sample -> bool)
    ensures All(a + b, p) <==> All(a, p) && All(b, p)
  {
    var all := a + b;
    assert forall i :: 0 <= i < |a| ==> all[i] == a[i];
    assert forall j :: 0 <= j < |b| ==> all[|a| + j] == b[j];
  }

  lemma {:induction false} AllOfHbas(hbas: seq<HbaReading>, p: Sample -> bool)
    ensures All(HbaSamples(hbas), p) <==> forall i :: 0 <= i < |hbas| ==> All(SamplesOfHba(hbas[i]), p)
  {
    hide SamplesOfHba, All;
    assert hbas == [] ==> All(HbaSamples(hbas), p) by { AllOfNone(p); }
    if hbas != [] {
      var before, last := hbas[..|hbas| - 1], hbas[|hbas| - 1];
      AllOfHbas(before, p);
      AllOfConcat(HbaSamples(before), SamplesOfHba(last), p);
      assert forall i :: 0 <= i < |before| ==> before[i] == hbas[i];
    }
  }

  lemma AllOfNone(p: Sample -> bool)
    ensures All([], p)
  {
  }

  /** The samples of an HBA list pass validation if and only if the list is acceptable. */
  lemma HbaPipelineAccepts(hbas: seq<HbaReading>)
    ensures ValidSamples(Hba, HbaSamples(hbas)) <==> AcceptableHbas(hbas)
  {
    hide HbaSamples, SamplesOfHba, ValidSample, AcceptableHba, AllApart;
    var valid := s => ValidSample(Hba, s);
    HbasDistinct(hbas);
    AllOfHbas(hbas, valid);
    forall i | 0 <= i < |hbas| ensures All(SamplesOfHba(hbas[i]), valid) <==> AcceptableHba(hbas[i]) {
      SamplesOfOne(hbas[i]);
    }
  }

  lemma HbaLabelsAccepted(hbas: seq<HbaReading>)
    ensures LabelsAccepted(HbaSamples(hbas))
  {
    hide HbaSamples, SamplesOfHba, Labels.AcceptedByKernel;
    var accepted := (s: Sample) => Labels.AcceptedByKernel(s.sensor.text + [Labels.NEWLINE]);
    AllOfHbas(hbas, accepted);
    forall i | 0 <= i < |hbas| ensures All(SamplesOfHba(hbas[i]), accepted) {
      SamplesOfOne(hbas[i]);
    }
  }
}
