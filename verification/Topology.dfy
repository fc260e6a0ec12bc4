/**
 The samples a host publishes for a guest snapshot: one for every disk, one for every group
 of at least two disks of a kind, and one or two for every HBA; their validation; and the
 comparison of a sample list with the topology last applied.
 */
module Topology {
  import opened Common
  import opened SensorId
  import Decimal
  import Labels

  /** A float64 temperature; finite values are taken as exact. */
  datatype Temp = Finite(celsius: real) | NaN | PosInf | NegInf

  const FAILSAFE := Finite(100.0)
  const FAILSAFE_MILLI := 100000
  const MAX_SENSORS := 1024
  const MIN_GROUP_SIZE := 2

  datatype Sensor = Sensor(id: seq<byte>, text: seq<byte>)
  datatype Sample = Sample(sensor: Sensor, temperature: Temp, skipRefresh: bool)

  datatype DiskReading = DiskReading(id: seq<byte>, name: seq<byte>, device: seq<byte>,
    transport: seq<byte>, rotational: bool, temp: Temp, unavailable: bool)
  datatype HbaReading = HbaReading(id: seq<byte>, model: seq<byte>, pciAddress: seq<byte>,
    temp: Temp, iocTemp: Option<Temp>, boardTemp: Option<Temp>)

  /** A guest snapshot; a nil inventory is None, an error message is only told apart from "". */
  datatype Response = Response(disks: Option<seq<DiskReading>>, hbas: Option<seq<HbaReading>>,
    diskError: bool, hbaError: bool)

  datatype Kind = Hdd | SataSsd | NVMe | OtherSsd

  /** strings.EqualFold against an ASCII constant. */
  predicate EqualFold(s: seq<byte>, lower: string) {
    var rs := Labels.Runes(s);
    |rs| == |lower| && forall i :: 0 <= i < |rs| ==> FoldCase(rs[i]) == lower[i] as int
  }

  lemma {:induction false} AsciiRunes(s: seq<byte>)
    requires forall i :: 0 <= i < |s| ==> s[i] < 0x80
    ensures |Labels.Runes(s)| == |s| && forall i :: 0 <= i < |s| ==> Labels.Runes(s)[i] == s[i] as int
  {
    if s != [] {
      AsciiRunes(s[1..]);
    }
  }

  /** Equal up to the case of ASCII letters. */
  ghost predicate Caseless(s: seq<byte>, lower: string) {
    |s| == |lower|
    && forall i :: 0 <= i < |s| ==> (if 65 <= s[i] <= 90 then s[i] as int + 32 else s[i] as int) == lower[i] as int
  }

  lemma EqualFoldIsCaseless(s: seq<byte>, lower: string)
    requires forall i :: 0 <= i < |s| ==> s[i] < 0x80
    ensures EqualFold(s, lower) <==> Caseless(s, lower)
  {
    AsciiRunes(s);
  }

  function KindOf(d: DiskReading): Kind {
    if d.rotational then Hdd
    else if EqualFold(d.transport, "nvme") || HasPrefix(d.device, Ascii("nvme")) then NVMe
    else if EqualFold(d.transport, "ata") || EqualFold(d.transport, "scsi-sata") || EqualFold(d.transport, "scsi-1ata")
    then SataSsd
    else OtherSsd
  }

  /** With an ASCII transport: which disks the maximum of each group is over. */
  lemma KindIs(d: DiskReading)
    requires forall i :: 0 <= i < |d.transport| ==> d.transport[i] < 0x80
    ensures KindOf(d) == Hdd <==> d.rotational
    ensures KindOf(d) == NVMe <==> !d.rotational && (Caseless(d.transport, "nvme") || Ascii("nvme") <= d.device)
    ensures KindOf(d) == SataSsd <==>
            !d.rotational && !Caseless(d.transport, "nvme") && !(Ascii("nvme") <= d.device)
            && (Caseless(d.transport, "ata") || Caseless(d.transport, "scsi-sata")
                || Caseless(d.transport, "scsi-1ata"))
  {
    hide EqualFold, Caseless;
    EqualFoldIsCaseless(d.transport, "nvme");
    EqualFoldIsCaseless(d.transport, "ata");
    EqualFoldIsCaseless(d.transport, "scsi-sata");
    EqualFoldIsCaseless(d.transport, "scsi-1ata");
  }

  /** Go's > on float64. */
  predicate Greater(a: Temp, b: Temp) {
    match (a, b)
    case (Finite(x), Finite(y)) => x > y
    case (PosInf, _) => b.Finite? || b.NegInf?
    case (Finite(_), NegInf) => true
    case _ => false
  }

  // ----- makeHWMonSamples -----

  function Members(disks: seq<DiskReading>, kind: Kind): (m: seq<DiskReading>) {
    if disks == [] then [] else
      var last := disks[|disks| - 1];
      Members(disks[..|disks| - 1], kind) + (if KindOf(last) == kind then [last] else [])
  }

  function Maximum(members: seq<DiskReading>): (t: Temp) {
    if members == [] then Finite(0.0) else
      var last, before := members[|members| - 1], members[..|members| - 1];
      if before == [] || Greater(last.temp, Maximum(before)) then last.temp else Maximum(before)
  }

  predicate AnyUnavailable(members: seq<DiskReading>) {
    exists i :: 0 <= i < |members| && members[i].unavailable
  }

  const GROUP_KINDS: seq<Kind> := [Hdd, SataSsd, NVMe]

  function GroupSensor(kind: Kind): Sensor {
    match kind
    case Hdd => Sensor(Ascii("disk:group:hdd"), Ascii("HDD maximum"))
    case SataSsd => Sensor(Ascii("disk:group:ssd"), Ascii("SATA SSD maximum"))
    case NVMe => Sensor(Ascii("disk:group:nvme"), Ascii("NVMe SSD maximum"))
    case OtherSsd => Sensor([], [])
  }

  predicate Grouped(disks: seq<DiskReading>, kind: Kind) {
    |Members(disks, kind)| >= MIN_GROUP_SIZE
  }

  function GroupSamples(disks: seq<DiskReading>, kinds: seq<Kind>): (s: seq<Sample>) {
    if kinds == [] then [] else
      var last := kinds[|kinds| - 1];
      var members := Members(disks, last);
      GroupSamples(disks, kinds[..|kinds| - 1])
      + if !Grouped(disks, last) then []
        else [Sample(GroupSensor(last), if AnyUnavailable(members) then FAILSAFE else Maximum(members),
                     AnyUnavailable(members))]
  }

  function DiskId(d: DiskReading): (id: seq<byte>) {
    Ascii("disk:") + d.id
  }

  function DiskSample(d: DiskReading): (s: Sample) {
    Sample(Sensor(DiskId(d), Labels.Sanitized(d.name, DiskId(d))),
           if d.unavailable then FAILSAFE else d.temp, d.unavailable)
  }

  function SingleSamples(disks: seq<DiskReading>): (s: seq<Sample>)
    ensures |s| == |disks|
  {
    if disks == [] then [] else SingleSamples(disks[..|disks| - 1]) + [DiskSample(disks[|disks| - 1])]
  }

  function DiskSamples(disks: seq<DiskReading>): (s: seq<Sample>) {
    GroupSamples(disks, GROUP_KINDS) + SingleSamples(disks)
  }

  /** makeHBASample. */
  function HbaSample(h: HbaReading, id: seq<byte>, probe: seq<byte>, t: Temp): (s: Sample) {
    var base := if h.model != [] then h.model else h.id;
    var probed := if probe != [] then base + Ascii(" ") + probe else base;
    var full := if h.pciAddress != [] then probed + Ascii(" (") + h.pciAddress + Ascii(")") else probed;
    Sample(Sensor(id, Labels.Sanitized(full, id)), t, false)
  }

  function SamplesOfHba(h: HbaReading): (s: seq<Sample>) {
    if h.iocTemp.None? && h.boardTemp.None? then [HbaSample(h, Ascii("hba:") + h.id, [], h.temp)]
    else
      (if h.iocTemp.Some? then [HbaSample(h, Ascii("hba:") + h.id, Ascii("IOC"), h.iocTemp.value)] else [])
      + (if h.boardTemp.Some? then [HbaSample(h, Ascii("hba:board:") + h.id, Ascii("Board"),
          h.boardTemp.value)] else [])
  }

  function HbaSamples(hbas: seq<HbaReading>): (s: seq<Sample>) {
    if hbas == [] then [] else HbaSamples(hbas[..|hbas| - 1]) + SamplesOfHba(hbas[|hbas| - 1])
  }

  lemma MembersExtend(disks: seq<DiskReading>, i: nat, kind: Kind)
    requires i < |disks|
    ensures var m, n := Members(disks[..i], kind), Members(disks[..i + 1], kind);
            if KindOf(disks[i]) != kind then n == m
            else n == m + [disks[i]]
                 && Maximum(n) == (if m == [] || Greater(disks[i].temp, Maximum(m)) then disks[i].temp else Maximum(m))
                 && (AnyUnavailable(n) <==> AnyUnavailable(m) || disks[i].unavailable)
  {
    assert disks[..i + 1][..i] == disks[..i];
    var m := Members(disks[..i], kind);
    assert m + [] == m;
    assert (m + [disks[i]])[..|m|] == m && (m + [disks[i]])[|m|] == disks[i];
    assert forall k :: 0 <= k < |m| ==> (m + [disks[i]])[k] == m[k];
  }

  // ----- what the samples show -----

  /** A temperature that Go's comparison may pick as the maximum of the disks of a kind. */
  ghost predicate IsMaximum(disks: seq<DiskReading>, kind: Kind, t: Temp) {
    (exists i :: 0 <= i < |disks| && KindOf(disks[i]) == kind && disks[i].temp == t)
    && forall i :: 0 <= i < |disks| && KindOf(disks[i]) == kind && t.Finite? ==>
      !disks[i].temp.PosInf? && (disks[i].temp.Finite? ==> disks[i].temp.celsius <= t.celsius)
  }

  /** At least two disks are of the kind. */
  ghost predicate TwoOf(disks: seq<DiskReading>, kind: Kind) {
    exists i, j :: 0 <= i < j < |disks| && KindOf(disks[i]) == kind && KindOf(disks[j]) == kind
  }

  ghost predicate OneUnavailable(disks: seq<DiskReading>, kind: Kind) {
    exists i :: 0 <= i < |disks| && KindOf(disks[i]) == kind && disks[i].unavailable
  }

  /** The group of a kind: it shows the maximum, or is left to go stale when that is unknown. */
  ghost predicate GroupShows(disks: seq<DiskReading>, kind: Kind, s: Sample) {
    TwoOf(disks, kind) && s.sensor == GroupSensor(kind)
    && (s.skipRefresh <==> OneUnavailable(disks, kind))
    && if s.skipRefresh then s.temperature == Finite(100.0) else IsMaximum(disks, kind, s.temperature)
  }

  ghost predicate DiskShows(d: DiskReading, s: Sample) {
    s.sensor.id == Ascii("disk:") + d.id && s.skipRefresh == d.unavailable
    && s.temperature == if d.unavailable then Finite(100.0) else d.temp
  }

  ghost predicate ShowsAGroup(disks: seq<DiskReading>, s: Sample) {
    exists kind :: kind in GROUP_KINDS && GroupShows(disks, kind, s)
  }

  /** One of the first n samples is that of the group. */
  ghost predicate GroupShown(disks: seq<DiskReading>, kind: Kind, samples: seq<Sample>, n: int)
    requires n <= |samples|
  {
    exists k :: 0 <= k < n && GroupShows(disks, kind, samples[k])
  }

  /** First the groups in order, then one sample for every disk in its order. */
  ghost predicate DisksShow(disks: seq<DiskReading>, samples: seq<Sample>) {
    var groups := |samples| - |disks|;
    0 <= groups <= |GROUP_KINDS|
    && (forall k :: 0 <= k < groups ==> ShowsAGroup(disks, samples[k]))
    && (forall kind :: kind in GROUP_KINDS && TwoOf(disks, kind) ==> GroupShown(disks, kind, samples, groups))
    && forall i :: 0 <= i < |disks| ==> DiskShows(disks[i], samples[groups + i])
  }

  /** The probe of the IOC, or without any probe the controller's legacy temperature. */
  ghost predicate IocShows(h: HbaReading, s: Sample) {
    s.sensor.id == Ascii("hba:") + h.id && !s.skipRefresh
    && if h.iocTemp.Some? then s.temperature == h.iocTemp.value else h.boardTemp.None? && s.temperature == h.temp
  }

  ghost predicate BoardShows(h: HbaReading, s: Sample) {
    s.sensor.id == Ascii("hba:board:") + h.id && !s.skipRefresh && h.boardTemp == Some(s.temperature)
  }

  /** Every HBA has its samples, and every sample is one of an HBA. */
  ghost predicate HbasShow(hbas: seq<HbaReading>, samples: seq<Sample>) {
    (forall h :: h in hbas && (h.iocTemp.Some? || h.boardTemp.None?) ==>
          exists s :: s in samples && IocShows(h, s))
    && (forall h :: h in hbas && h.boardTemp.Some? ==> exists s :: s in samples && BoardShows(h, s))
    && forall s :: s in samples ==> exists h :: h in hbas && (IocShows(h, s) || BoardShows(h, s))
  }

  lemma {:induction false} MembersOf(disks: seq<DiskReading>, kind: Kind)
    ensures forall d :: d in Members(disks, kind) <==> d in disks && KindOf(d) == kind
  {
    if disks != [] {
      MembersOf(disks[..|disks| - 1], kind);
      assert disks == disks[..|disks| - 1] + [disks[|disks| - 1]];
    }
  }

  lemma SomeMember(disks: seq<DiskReading>, kind: Kind)
    ensures Members(disks, kind) != [] <==> exists i :: 0 <= i < |disks| && KindOf(disks[i]) == kind
  {
    hide KindOf;
    MembersOf(disks, kind);
    if Members(disks, kind) != [] {
      assert Members(disks, kind)[0] in disks;
    }
  }

  lemma {:induction false} GroupedMeansTwo(disks: seq<DiskReading>, kind: Kind)
    ensures Grouped(disks, kind) <==> TwoOf(disks, kind)
  {
    hide KindOf;
    if disks != [] {
      var n := |disks| - 1;
      var before := disks[..n];
      GroupedMeansTwo(before, kind);
      SomeMember(before, kind);
      assert forall i :: 0 <= i < n ==> before[i] == disks[i];
      if Grouped(disks, kind) && !Grouped(before, kind) {
        var i :| 0 <= i < n && KindOf(before[i]) == kind;
        assert KindOf(disks[i]) == kind && KindOf(disks[n]) == kind;
      }
    }
  }

  lemma UnavailableMember(disks: seq<DiskReading>, kind: Kind)
    ensures AnyUnavailable(Members(disks, kind)) <==> OneUnavailable(disks, kind)
  {
    var m := Members(disks, kind);
    MembersOf(disks, kind);
    if AnyUnavailable(m) {
      var i :| 0 <= i < |m| && m[i].unavailable;
      assert m[i] in disks;
    }
    if OneUnavailable(disks, kind) {
      var i :| 0 <= i < |disks| && KindOf(disks[i]) == kind && disks[i].unavailable;
      assert disks[i] in m;
    }
  }

  lemma {:induction false} MaximumIsMember(members: seq<DiskReading>)
    requires members != []
    ensures exists i :: 0 <= i < |members| && Maximum(members) == members[i].temp
  {
    var before := members[..|members| - 1];
    if before != [] {
      MaximumIsMember(before);
      var i :| 0 <= i < |before| && Maximum(before) == before[i].temp;
      assert members[i] == before[i];
    }
    assert members[|members| - 1].temp == members[|members| - 1].temp;
  }

  /** No reading that compares is above the maximum. */
  ghost predicate Above(m: Temp, t: Temp) {
    (m.Finite? ==> !t.PosInf? && (t.Finite? ==> t.celsius <= m.celsius))
    && (m.NegInf? ==> t.NegInf? || t.NaN?)
  }

  lemma {:induction false} MaximumIsUpperBound(members: seq<DiskReading>)
    ensures forall i :: 0 <= i < |members| ==> Above(Maximum(members), members[i].temp)
  {
    if members != [] {
      var before := members[..|members| - 1];
      MaximumIsUpperBound(before);
      assert forall i :: 0 <= i < |before| ==> members[i] == before[i] && Above(Maximum(before), members[i].temp);
    }
  }

  lemma MaximumOfKind(disks: seq<DiskReading>, kind: Kind)
    requires Members(disks, kind) != []
    ensures IsMaximum(disks, kind, Maximum(Members(disks, kind)))
  {
    hide Maximum, Members;
    var m := Members(disks, kind);
    MembersOf(disks, kind);
    MaximumIsMember(m);
    MaximumIsUpperBound(m);
    var k :| 0 <= k < |m| && Maximum(m) == m[k].temp;
    assert m[k] in disks;
    var i :| 0 <= i < |disks| && disks[i] == m[k];
    forall i | 0 <= i < |disks| && KindOf(disks[i]) == kind ensures Above(Maximum(m), disks[i].temp) {
      assert disks[i] in m;
      var j :| 0 <= j < |m| && m[j] == disks[i];
    }
  }

  lemma GroupShowsMaximum(disks: seq<DiskReading>, kind: Kind)
    requires Grouped(disks, kind)
    ensures var m := Members(disks, kind);
            var skip := AnyUnavailable(m);
            GroupShows(disks, kind, Sample(GroupSensor(kind), if skip then FAILSAFE else Maximum(m), skip))
  {
    hide Members, Maximum, AnyUnavailable;
    GroupedMeansTwo(disks, kind);
    UnavailableMember(disks, kind);
    MaximumOfKind(disks, kind);
  }

  /** The emitted groups, in the order of their kinds. */
  lemma {:induction false} GroupsOf(disks: seq<DiskReading>, kinds: seq<Kind>)
    ensures |GroupSamples(disks, kinds)| <= |kinds|
    ensures forall s :: s in GroupSamples(disks, kinds) ==> exists kind :: kind in kinds && GroupShows(disks, kind, s)
    ensures forall kind :: kind in kinds && TwoOf(disks, kind) ==>
      exists s :: s in GroupSamples(disks, kinds) && GroupShows(disks, kind, s)
  {
    hide GroupShows, GroupSensor, Members, Maximum, AnyUnavailable, TwoOf, Grouped;
    if kinds != [] {
      var before, last := kinds[..|kinds| - 1], kinds[|kinds| - 1];
      GroupsOf(disks, before);
      GroupedMeansTwo(disks, last);
      assert kinds == before + [last];
      if Grouped(disks, last) {
        GroupShowsMaximum(disks, last);
        var s := GroupSamples(disks, kinds)[|GroupSamples(disks, before)|];
        assert GroupSamples(disks, kinds) == GroupSamples(disks, before) + [s] && GroupShows(disks, last, s);
      }
    }
  }

  lemma {:induction false} SingleAt(disks: seq<DiskReading>, i: nat)
    requires i < |disks|
    ensures SingleSamples(disks)[i] == DiskSample(disks[i]) && DiskShows(disks[i], SingleSamples(disks)[i])
  {
    if i < |disks| - 1 {
      SingleAt(disks[..|disks| - 1], i);
    }
  }

  lemma GroupsShow(disks: seq<DiskReading>, k: nat)
    requires k < |GroupSamples(disks, GROUP_KINDS)|
    ensures ShowsAGroup(disks, GroupSamples(disks, GROUP_KINDS)[k])
  {
    hide GroupSamples, GroupShows;
    GroupsOf(disks, GROUP_KINDS);
    assert GroupSamples(disks, GROUP_KINDS)[k] in GroupSamples(disks, GROUP_KINDS);
  }

  lemma GroupIsShown(disks: seq<DiskReading>, kind: Kind) returns (k: nat)
    requires kind in GROUP_KINDS && TwoOf(disks, kind)
    ensures k < |GroupSamples(disks, GROUP_KINDS)| && GroupShows(disks, kind, GroupSamples(disks, GROUP_KINDS)[k])
  {
    hide GroupSamples, GroupShows, TwoOf;
    GroupsOf(disks, GROUP_KINDS);
    var g := GroupSamples(disks, GROUP_KINDS);
    var x :| x in g && GroupShows(disks, kind, x);
    k :| 0 <= k < |g| && g[k] == x;
  }

  lemma GroupIsShownIn(disks: seq<DiskReading>, kind: Kind, after: seq<Sample>)
    requires kind in GROUP_KINDS && TwoOf(disks, kind)
    ensures var g := GroupSamples(disks, GROUP_KINDS); GroupShown(disks, kind, g + after, |g|)
  {
    hide GroupSamples, GroupShows, TwoOf;
    var k := GroupIsShown(disks, kind);
    var g := GroupSamples(disks, GROUP_KINDS);
    assert (g + after)[k] == g[k];
  }

  lemma DiskSamplesShow(disks: seq<DiskReading>)
    ensures DisksShow(disks, DiskSamples(disks))
  {
    hide GroupSamples, SingleSamples, DiskSample, GroupShows, DiskShows, TwoOf, ShowsAGroup, GroupShown;
    var g, s, all := GroupSamples(disks, GROUP_KINDS), SingleSamples(disks), DiskSamples(disks);
    GroupsOf(disks, GROUP_KINDS);
    forall k | 0 <= k < |g| ensures ShowsAGroup(disks, all[k]) {
      GroupsShow(disks, k);
    }
    forall i | 0 <= i < |disks| ensures DiskShows(disks[i], all[|g| + i]) {
      SingleAt(disks, i);
    }
    forall kind | kind in GROUP_KINDS && TwoOf(disks, kind)
      ensures GroupShown(disks, kind, all, |g|)
    {
      GroupIsShownIn(disks, kind, s);
    }
    assert |all| - |disks| == |g| <= |GROUP_KINDS|;
  }

  lemma OneHbaShows(h: HbaReading)
    ensures HbasShow([h], SamplesOfHba(h))
  {
    hide Ascii, Labels.Sanitized;
    var s := SamplesOfHba(h);
    if h.iocTemp.Some? || h.boardTemp.None? {
      assert s[0] in s && IocShows(h, s[0]);
    }
    if h.boardTemp.Some? {
      assert s[|s| - 1] in s && BoardShows(h, s[|s| - 1]);
    }
    assert h in [h];
  }

  lemma {:induction false} HbaSamplesShow(hbas: seq<HbaReading>)
    ensures HbasShow(hbas, HbaSamples(hbas))
  {
    hide SamplesOfHba, IocShows, BoardShows;
    if hbas != [] {
      var before, last := hbas[..|hbas| - 1], hbas[|hbas| - 1];
      HbaSamplesShow(before);
      OneHbaShows(last);
      ShowTogether(before, HbaSamples(before), [last], SamplesOfHba(last));
      assert hbas == before + [last];
    }
  }

  lemma ShowTogether(a: seq<HbaReading>, s: seq<Sample>, b: seq<HbaReading>, t: seq<Sample>)
    requires HbasShow(a, s) && HbasShow(b, t)
    ensures HbasShow(a + b, s + t)
  {
    hide IocShows, BoardShows;
    assert forall x :: x in s + t <==> x in s || x in t;
    assert forall h :: h in a + b <==> h in a || h in b;
  }

  method GroupOf(disks: seq<DiskReading>, kind: Kind) returns (count: nat, maximum: Temp, unavailable: bool)
    ensures count == |Members(disks, kind)|
    ensures maximum == Maximum(Members(disks, kind))
    ensures unavailable <==> AnyUnavailable(Members(disks, kind))
  {
    count, maximum, unavailable := 0, Finite(0.0), false;
    for i := 0 to |disks|
      invariant count == |Members(disks[..i], kind)|
      invariant maximum == Maximum(Members(disks[..i], kind))
      invariant unavailable <==> AnyUnavailable(Members(disks[..i], kind))
    {
      MembersExtend(disks, i, kind);
      if KindOf(disks[i]) != kind {
        continue;
      }
      if count == 0 || Greater(disks[i].temp, maximum) {
        maximum := disks[i].temp;
      }
      unavailable := unavailable || disks[i].unavailable;
      count := count + 1;
    }
    assert disks[..|disks|] == disks;
  }

  method MakeGroupSamples(disks: seq<DiskReading>) returns (samples: seq<Sample>)
    ensures samples == GroupSamples(disks, GROUP_KINDS)
  {
    samples := [];
    for g := 0 to |GROUP_KINDS|
      invariant samples == GroupSamples(disks, GROUP_KINDS[..g])
    {
      var kind := GROUP_KINDS[g];
      assert GROUP_KINDS[..g + 1][..g] == GROUP_KINDS[..g];
      var count, maximum, unavailable := GroupOf(disks, kind);
      if count < MIN_GROUP_SIZE {
        assert GroupSamples(disks, GROUP_KINDS[..g + 1]) == samples;
        continue;
      }
      if unavailable {
        maximum := FAILSAFE;
      }
      samples := samples + [Sample(GroupSensor(kind), maximum, unavailable)];
    }
    assert GROUP_KINDS[..|GROUP_KINDS|] == GROUP_KINDS;
  }

  method MakeDiskSample(d: DiskReading) returns (s: Sample)
    ensures s == DiskSample(d)
  {
    var temperature := d.temp;
    if d.unavailable {
      temperature := FAILSAFE;
    }
    var text := Labels.SanitizeLabel(d.name, DiskId(d));
    s := Sample(Sensor(DiskId(d), text), temperature, d.unavailable);
  }

  method MakeDiskSamples(disks: seq<DiskReading>) returns (samples: seq<Sample>)
    ensures samples == SingleSamples(disks)
  {
    hide DiskSample;
    samples := [];
    for i := 0 to |disks|
      invariant samples == SingleSamples(disks[..i])
    {
      var s := MakeDiskSample(disks[i]);
      assert disks[..i + 1][..i] == disks[..i];
      samples := samples + [s];
    }
    assert disks[..|disks|] == disks;
  }

  method MakeHbaSamples(hbas: seq<HbaReading>) returns (samples: seq<Sample>)
    ensures samples == HbaSamples(hbas)
  {
    hide SamplesOfHba;
    samples := [];
    for i := 0 to |hbas|
      invariant samples == HbaSamples(hbas[..i])
    {
      assert hbas[..i + 1][..i] == hbas[..i];
      samples := samples + SamplesOfHba(hbas[i]);
    }
    assert hbas[..|hbas|] == hbas;
  }

  /** makeHWMonSamples. */
  method MakeSamples(state: Response) returns (disks: seq<Sample>, hbas: seq<Sample>)
    ensures disks == DiskSamples(if state.disks.Some? then state.disks.value else [])
    ensures hbas == HbaSamples(if state.hbas.Some? then state.hbas.value else [])
    // What these show of the response.
    ensures DisksShow(if state.disks.Some? then state.disks.value else [], disks)
    ensures HbasShow(if state.hbas.Some? then state.hbas.value else [], hbas)
  {
    hide DisksShow, HbasShow, GroupSamples, SingleSamples, HbaSamples;
    var d := if state.disks.Some? then state.disks.value else [];
    var h := if state.hbas.Some? then state.hbas.value else [];
    DiskSamplesShow(d);
    HbaSamplesShow(h);
    var groups := MakeGroupSamples(d);
    var singles := MakeDiskSamples(d);
    disks := groups + singles;
    hbas := MakeHbaSamples(h);
  }

  // ----- validation -----

  /** math.Round(t * 1000): half away from zero. */
  function Milli(t: real): (m: int) {
    if t >= 0.0 then (t * 1000.0 + 0.5).Floor else -((0.5 - t * 1000.0).Floor)
  }

  /** The nearest integer to 1000 t; of two, the one farther from zero. */
  ghost predicate Rounded(m: int, t: real) {
    var error := m as real - 1000.0 * t;
    if t >= 0.0 then -0.5 < error <= 0.5 else -0.5 <= error < 0.5
  }

  lemma MilliRounds(t: real)
    ensures Rounded(Milli(t), t)
  {
  }

  /** There is only one such integer. */
  lemma RoundedIsUnique(m: int, n: int, t: real)
    requires Rounded(m, t) && Rounded(n, t)
    ensures m == n
  {
    assert -1.0 < m as real - n as real < 1.0;
  }

  predicate Representable(t: Temp) {
    t.Finite? && Decimal.IsInt64(Milli(t.celsius))
  }

  predicate ValidSample(f: Family, s: Sample) {
    ValidId(f, s.sensor.id) && Labels.ValidLabel(s.sensor.text) && Representable(s.temperature)
  }

  ghost predicate DistinctSamples(samples: seq<Sample>) {
    forall i, j :: 0 <= i < j < |samples| ==> samples[i].sensor.id != samples[j].sensor.id
  }

  ghost predicate ValidSamples(f: Family, samples: seq<Sample>) {
    |samples| <= MAX_SENSORS && DistinctSamples(samples)
    && forall i :: 0 <= i < |samples| ==> ValidSample(f, samples[i])
  }

  /** The milli-Celsius value written for a sample. */
  function MilliOf(s: Sample): (m: int)
    requires Representable(s.temperature)
  {
    Milli(s.temperature.celsius)
  }

  /** The values that go with a valid sample list. */
  ghost predicate MilliValues(samples: seq<Sample>, milli: seq<int>) {
    |milli| == |samples|
    && forall i :: 0 <= i < |samples| ==>
      Representable(samples[i].temperature) && milli[i] == MilliOf(samples[i])
  }

  lemma MilliValuesRound(samples: seq<Sample>, milli: seq<int>)
    requires MilliValues(samples, milli)
    ensures forall i :: 0 <= i < |samples| ==>
      samples[i].temperature.Finite? && Rounded(milli[i], samples[i].temperature.celsius)
  {
    hide Milli, Rounded;
    forall i | 0 <= i < |samples| ensures Rounded(milli[i], samples[i].temperature.celsius) {
      MilliRounds(samples[i].temperature.celsius);
    }
  }

  datatype SampleError = TooMany | BadId | DuplicateId | BadLabel | BadTemperature

  /** validateHWMonSamples: it succeeds exactly on valid lists. */
  method ValidateSamples(f: Family, samples: seq<Sample>) returns (r: Result<seq<int>, SampleError>)
    ensures r.Ok? <==> ValidSamples(f, samples)
    ensures r.Ok? ==> MilliValues(samples, r.value)
    ensures r.Ok? ==> forall i :: 0 <= i < |samples| ==>
      samples[i].temperature.Finite? && Rounded(r.value[i], samples[i].temperature.celsius)
  {
    hide ValidId, Labels.ValidLabel, Milli, Rounded;
    if |samples| > MAX_SENSORS {
      return Err(TooMany);
    }
    var ids: set<seq<byte>> := {};
    var milli: seq<int> := [];
    for i := 0 to |samples|
      invariant ids == set k | 0 <= k < i :: samples[k].sensor.id
      invariant DistinctSamples(samples[..i])
      invariant forall k :: 0 <= k < i ==> ValidSample(f, samples[k])
      invariant MilliValues(samples[..i], milli)
    {
      var s := samples[i];
      if !ValidId(f, s.sensor.id) {
        return Err(BadId);
      }
      if s.sensor.id in ids {
        return Err(DuplicateId);
      }
      ids := ids + {s.sensor.id};
      if !Labels.ValidLabel(s.sensor.text) {
        return Err(BadLabel);
      }
      if !Representable(s.temperature) {
        return Err(BadTemperature);
      }
      milli := milli + [MilliOf(s)];
    }
    assert samples[..|samples|] == samples;
    MilliValuesRound(samples, milli);
    return Ok(milli);
  }

  // ----- topology comparison -----

  function SensorsOf(samples: seq<Sample>): (s: seq<Sensor>)
    ensures |s| == |samples| && forall i :: 0 <= i < |s| ==> s[i] == samples[i].sensor
  {
    seq(|samples|, i requires 0 <= i < |samples| => samples[i].sensor)
  }

  ghost predicate DistinctIds(sensors: seq<Sensor>) {
    forall i, j :: 0 <= i < j < |sensors| ==> sensors[i].id != sensors[j].id
  }

  function SensorSet(sensors: seq<Sensor>): set<Sensor> {
    set s | s in sensors
  }

  /** The label of the last sample of an ID, for every ID. */
  function LabelMap(sensors: seq<Sensor>): (m: map<seq<byte>, seq<byte>>) {
    if sensors == [] then map[] else
      var last := sensors[|sensors| - 1];
      LabelMap(sensors[..|sensors| - 1])[last.id := last.text]
  }

  /** What sameHWMonConfiguration checks on any two lists. */
  predicate SameConfiguration(expected: seq<Sensor>, current: seq<Sensor>) {
    |expected| == |current|
    && forall i :: 0 <= i < |expected| ==>
      expected[i].id in LabelMap(current) && LabelMap(current)[expected[i].id] == expected[i].text
  }

  /** sameHWMonConfiguration: on distinct IDs it decides equality of the two topologies. */
  method SameTopology(expected: seq<Sensor>, current: seq<Sample>) returns (same: bool)
    ensures same <==> SameConfiguration(expected, SensorsOf(current))
    ensures DistinctIds(expected) && DistinctSamples(current) ==>
              (same <==> SensorSet(expected) == SensorSet(SensorsOf(current)))
  {
    ghost var sensors := SensorsOf(current);
    if DistinctIds(expected) && DistinctSamples(current) {
      SameIsSetEquality(expected, sensors);
    }
    if |expected| != |current| {
      return false;
    }
    var labels: map<seq<byte>, seq<byte>> := map[];
    for i := 0 to |current|
      invariant labels == LabelMap(sensors[..i])
    {
      assert sensors[..i + 1][..i] == sensors[..i];
      labels := labels[current[i].sensor.id := current[i].sensor.text];
    }
    assert sensors[..|current|] == sensors;
    for i := 0 to |expected|
      invariant forall k :: 0 <= k < i ==> expected[k].id in labels && labels[expected[k].id] == expected[k].text
    {
      if expected[i].id !in labels || labels[expected[i].id] != expected[i].text {
        return false;
      }
    }
    return true;
  }

  lemma {:induction false} LabelMapIsSet(sensors: seq<Sensor>)
    requires DistinctIds(sensors)
    ensures forall s: Sensor :: s in sensors <==> s.id in LabelMap(sensors) && LabelMap(sensors)[s.id] == s.text
  {
    if sensors != [] {
      var before, last := sensors[..|sensors| - 1], sensors[|sensors| - 1];
      LabelMapIsSet(before);
      assert sensors == before + [last];
      assert forall s: Sensor :: s in before ==> s.id != last.id;
      assert forall s: Sensor :: s in sensors <==> s in before || s == last;
    }
  }

  lemma {:induction false} DistinctSize(sensors: seq<Sensor>)
    requires DistinctIds(sensors)
    ensures |SensorSet(sensors)| == |sensors|
  {
    if sensors != [] {
      var before, last := sensors[..|sensors| - 1], sensors[|sensors| - 1];
      DistinctSize(before);
      assert sensors == before + [last];
      assert SensorSet(sensors) == SensorSet(before) + {last};
    }
  }

  lemma SubsetOfSameSize<T>(a: set<T>, b: set<T>)
    requires a <= b && |a| == |b|
    ensures a == b
  {
    assert |b - a| == |b| - |a|;
    assert b == a + (b - a);
  }

  /** One direction of the comparison is checked; the equal lengths give the other. */
  lemma SameIsSetEquality(expected: seq<Sensor>, current: seq<Sensor>)
    requires DistinctIds(expected) && DistinctIds(current)
    ensures SameConfiguration(expected, current) <==> SensorSet(expected) == SensorSet(current)
  {
    LabelMapIsSet(current);
    DistinctSize(expected);
    DistinctSize(current);
    if SameConfiguration(expected, current) {
      assert SensorSet(expected) <= SensorSet(current);
      SubsetOfSameSize(SensorSet(expected), SensorSet(current));
    } else if SensorSet(expected) == SensorSet(current) {
      forall i | 0 <= i < |expected|
        ensures expected[i].id in LabelMap(current) && LabelMap(current)[expected[i].id] == expected[i].text
      {
        assert expected[i] in SensorSet(expected);
      }
      assert false;
    }
  }
}
