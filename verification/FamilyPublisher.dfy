/**
 Publishing one family of sensors: validate the samples, update the temperatures in place
 while the topology is unchanged, and otherwise, or when a sensor has disappeared, rebuild
 the family in the kernel.
 */
module FamilyPublisher {
  import opened Common
  import opened SensorId
  import opened Topology
  import opened VirtTempSensor
  import opened VirtTempKernel
  import Decimal
  import Labels

  // ----- what an operation may do to the kernel -----

  /** A store that publishing these samples may make: the failsafe, or a sample's value into the sensor of its ID. */
  ghost predicate Allowed(s: Store, f: Family, samples: seq<Sample>) {
    s.entry.family == f
    && (s.value == VirtTempSensor.FAILSAFE_MILLI || exists i :: 0 <= i < |samples| && IsSampleStore(s, samples[i]))
  }

  ghost predicate IsSampleStore(s: Store, sample: Sample) {
    Named(s.entry) && IdOf(s.entry) == sample.sensor.id
    && Representable(sample.temperature) && s.value == MilliOf(sample)
  }

  /** Every reading stored since is allowed. */
  ghost predicate StoresOf(before: seq<Store>, after: seq<Store>, f: Family, samples: seq<Sample>) {
    before <= after && forall j :: |before| <= j < |after| ==> Allowed(after[j], f, samples)
  }

  lemma MoreStores(a: seq<Store>, b: seq<Store>, c: seq<Store>, f: Family, samples: seq<Sample>, more: seq<Sample>)
    requires StoresOf(a, b, f, samples) && StoresOf(b, c, f, more) && forall s :: s in more ==> s in samples
    ensures StoresOf(a, c, f, samples)
  {
    hide IsSampleStore;
    forall j | |a| <= j < |c| ensures Allowed(c[j], f, samples) {
      if j < |b| {
        assert c[j] == b[j];
      } else if c[j].value != VirtTempSensor.FAILSAFE_MILLI {
        var i :| 0 <= i < |more| && IsSampleStore(c[j], more[i]);
        assert more[i] in samples;
        var k :| 0 <= k < |samples| && samples[k] == more[i];
      }
    }
  }

  ghost predicate OtherFamilyUnchanged(k: Sensors, k': Sensors, f: Family) {
    forall e: Entry :: e.family != f ==> (e in k <==> e in k') && (e in k ==> k'[e] == k[e])
  }

  lemma StillUnchanged(k: Sensors, k1: Sensors, k2: Sensors, f: Family)
    requires OtherFamilyUnchanged(k, k1, f) && OtherFamilyUnchanged(k1, k2, f)
    ensures OtherFamilyUnchanged(k, k2, f)
  {
  }

  /** The sensor of a directory shows a sample of its ID. */
  ghost predicate ShowsOne(k: Sensors, e: Entry, samples: seq<Sample>)
    requires e in k
  {
    exists i :: 0 <= i < |samples| && IsSampleStore(Store(e, k[e].temperature, k[e].lastUpdate), samples[i])
  }

  /**
   A value comes before the registration: a sensor that is registered now and was not shows a
   sample of its ID, and no reading changes but to such a one.
   */
  ghost predicate InitializedFirst(k: Sensors, k': Sensors, f: Family, samples: seq<Sample>) {
    forall e :: e in k' && e.family == f ==>
      (k'[e].registered && !(e in k && k[e].registered) ==> ShowsOne(k', e, samples))
      && (e in k ==> k'[e].temperature == k[e].temperature || ShowsOne(k', e, samples))
  }

  lemma StaysShown(k: Sensors, k': Sensors, e: Entry, samples: seq<Sample>, more: seq<Sample>)
    requires e in k && e in k' && k'[e].temperature == k[e].temperature && ShowsOne(k, e, more)
    requires forall s :: s in more ==> s in samples
    ensures ShowsOne(k', e, samples)
  {
    hide Named, IdOf, Representable, MilliOf;
    var i :| 0 <= i < |more| && IsSampleStore(Store(e, k[e].temperature, k[e].lastUpdate), more[i]);
    assert more[i] in samples;
    var j :| 0 <= j < |samples| && samples[j] == more[i];
    assert IsSampleStore(Store(e, k'[e].temperature, k'[e].lastUpdate), samples[j]);
  }

  lemma StillInitializedFirst(k: Sensors, k1: Sensors, k2: Sensors, f: Family, samples: seq<Sample>, more: seq<Sample>)
    requires InitializedFirst(k, k1, f, samples) && InitializedFirst(k1, k2, f, more)
    requires k.Keys * k2.Keys <= k1.Keys && forall s :: s in more ==> s in samples
    ensures InitializedFirst(k, k2, f, samples)
  {
    hide ShowsOne;
    forall e | e in k2 && e.family == f
      ensures k2[e].registered && !(e in k && k[e].registered) ==> ShowsOne(k2, e, samples)
      ensures e in k ==> k2[e].temperature == k[e].temperature || ShowsOne(k2, e, samples)
    {
      if ShowsOne(k2, e, more) {
        StaysShown(k2, k2, e, samples, more);
      } else if e in k1 && ShowsOne(k1, e, samples) {
        StaysShown(k1, k2, e, samples, samples);
      }
    }
  }

  // ----- what success means -----

  function LabelLine(s: Sensor): seq<byte> {
    s.text + [VirtTempKernel.NEWLINE]
  }

  function SampleEntry(f: Family, s: Sample): (e: Entry)
    requires ValidId(f, s.sensor.id)
  {
    EntryOf(f, s.sensor.id)
  }

  /** The sensor exists under its own name and shows its trimmed label. */
  predicate Live(k: Sensors, f: Family, s: Sensor)
    requires ValidId(f, s.id)
  {
    EntryOf(f, s.id) in k
    && k[EntryOf(f, s.id)].text == Labels.Strim(LabelLine(s)) && k[EntryOf(f, s.id)].registered
  }

  predicate Shows(k: Sensors, f: Family, s: Sample)
    requires ValidId(f, s.sensor.id) && Representable(s.temperature)
  {
    Live(k, f, s.sensor) && k[SampleEntry(f, s)].temperature == MilliOf(s)
  }

  /** The sensor of a sample was written at a time or later. */
  predicate WrittenSince(k: Sensors, f: Family, s: Sample, t: int)
    requires ValidId(f, s.sensor.id)
  {
    SampleEntry(f, s) in k && k[SampleEntry(f, s)].lastUpdate >= t
  }

  /** Every refreshed sensor was written at a time or later. */
  ghost predicate AllWritten(k: Sensors, f: Family, samples: seq<Sample>, t: int) {
    forall i :: 0 <= i < |samples| && !samples[i].skipRefresh ==>
      ValidId(f, samples[i].sensor.id) && WrittenSince(k, f, samples[i], t)
  }

  /** Every refreshed sensor shows its sample's temperature, rounded to milli-Celsius. */
  ghost predicate AllRounded(k: Sensors, f: Family, samples: seq<Sample>) {
    forall i :: 0 <= i < |samples| && !samples[i].skipRefresh ==>
      var s := samples[i];
      ValidId(f, s.sensor.id) && SampleEntry(f, s) in k && s.temperature.Finite?
      && Rounded(k[SampleEntry(f, s)].temperature, s.temperature.celsius)
  }

  lemma AllWrittenLater(k: Sensors, f: Family, samples: seq<Sample>, t: int, u: int)
    requires t <= u && AllWritten(k, f, samples, u)
    ensures AllWritten(k, f, samples, t)
  {
  }

  lemma ExactIsRounded(k: Sensors, f: Family, samples: seq<Sample>)
    requires ValidSamples(f, samples) && Exact(k, f, samples)
    ensures AllRounded(k, f, samples)
  {
    hide ValidId, Milli, Rounded, Labels.ValidLabel, SensorKey, Labels.Strim, WithinTopology;
    forall i | 0 <= i < |samples| && !samples[i].skipRefresh
      ensures ValidId(f, samples[i].sensor.id) && SampleEntry(f, samples[i]) in k && samples[i].temperature.Finite?
      ensures Rounded(k[SampleEntry(f, samples[i])].temperature, samples[i].temperature.celsius)
    {
      assert ValidSample(f, samples[i]) && Shows(k, f, samples[i]);
      MilliRounds(samples[i].temperature.celsius);
    }
  }

  /** Every sensor of the family in the kernel is one of the given sensors, live. */
  ghost predicate WithinTopology(k: Sensors, f: Family, sensors: seq<Sensor>) {
    forall e :: e in k && e.family == f ==>
      exists s :: s in sensors && ValidId(f, s.id) && e == EntryOf(f, s.id) && Live(k, f, s)
  }

  /** The family in the kernel is exactly the samples: IDs, labels and every refreshed reading. */
  ghost predicate Exact(k: Sensors, f: Family, samples: seq<Sample>)
    requires ValidSamples(f, samples)
  {
    WithinTopology(k, f, SensorsOf(samples))
    && forall i :: 0 <= i < |samples| ==>
      Live(k, f, samples[i].sensor) && (!samples[i].skipRefresh ==> Shows(k, f, samples[i]))
  }

  // ----- reconcileHWMonFamily -----

  /** What creating, initializing and labelling one sensor may do. */
  ghost predicate Installs(k: Sensors, k': Sensors, f: Family, s: Sample)
    requires ValidSample(f, s)
  {
    OtherFamilyUnchanged(k, k', f) && k.Keys <= k'.Keys <= k.Keys + {SampleEntry(f, s)}
    && forall e :: e in k && Named(e) && IdOf(e) != s.sensor.id ==> k'[e] == k[e]
  }

  lemma WriteInstalls(k: Sensors, k1: Sensors, k2: Sensors, f: Family, s: Sample)
    requires ValidSample(f, s) && Installs(k, k1, f, s) && WritesOnly(k1, k2, f, s)
    ensures Installs(k, k2, f, s)
  {
    hide Named, IdOf, MilliOf, Representable, ValidId;
  }

  lemma LabelInstalls(k: Sensors, k1: Sensors, k2: Sensors, f: Family, s: Sample)
    requires ValidSample(f, s) && Installs(k, k1, f, s) && k2.Keys == k1.Keys
    requires forall e :: e in k1 && e != SampleEntry(f, s) ==> k2[e] == k1[e]
    ensures Installs(k, k2, f, s)
  {
    hide DecodeSensorId, MilliOf, Representable, ValidId;
    EntryNamed(f, s.sensor.id);
  }

  lemma MkdirInstalls(k: Sensors, k1: Sensors, f: Family, s: Sample, now: int)
    requires ValidSample(f, s) && WellFormed(k, now)
    requires k1 == k || (SampleEntry(f, s) !in k && k1 == k[SampleEntry(f, s) := NewSensor(now)])
    ensures Installs(k, k1, f, s)
  {
    hide DecodeSensorId, MilliOf, Representable, ValidId;
    EntryNamed(f, s.sensor.id);
  }

  lemma MkdirInitializes(k: Sensors, k1: Sensors, f: Family, s: Sample, now: int)
    requires ValidSample(f, s) && WellFormed(k, now)
    requires k1 == k || (SampleEntry(f, s) !in k && k1 == k[SampleEntry(f, s) := NewSensor(now)])
    ensures InitializedFirst(k, k1, f, [s])
  {
    hide ShowsOne, ValidSample;
  }

  /** A sensor of the sample's ID holding the sample's value shows it. */
  lemma ShowsSample(k: Sensors, e: Entry, s: Sample)
    requires e in k && Named(e) && IdOf(e) == s.sensor.id && Representable(s.temperature)
    requires k[e].temperature == MilliOf(s)
    ensures ShowsOne(k, e, [s])
  {
    hide Named, IdOf, MilliOf, Representable;
    assert IsSampleStore(Store(e, k[e].temperature, k[e].lastUpdate), [s][0]);
  }

  lemma WriteInitializes(k: Sensors, k': Sensors, f: Family, s: Sample)
    requires ValidSample(f, s) && WritesOnly(k, k', f, s)
    ensures InitializedFirst(k, k', f, [s])
  {
    hide Named, IdOf, MilliOf, Representable, ValidId, ShowsOne;
    forall e | e in k' && e.family == f && k'[e].temperature != k[e].temperature ensures ShowsOne(k', e, [s]) {
      ShowsSample(k', e, s);
    }
  }

  /** Writing the label of a sensor that has its value. */
  lemma LabelInitializes(k: Sensors, k': Sensors, f: Family, s: Sample, now: int)
    requires ValidSample(f, s) && WellFormed(k, now) && k'.Keys == k.Keys
    requires exists e :: e in k && IdOf(e) == s.sensor.id && k[e].temperature == MilliOf(s)
    requires forall e :: e in k ==> k'[e].temperature == k[e].temperature && (e != SampleEntry(f, s) ==> k'[e] == k[e])
    ensures InitializedFirst(k, k', f, [s])
  {
    hide DecodeSensorId, MilliOf, Representable, ValidId, Labels.ValidLabel, SensorKey, ShowsOne;
    EntryNamed(f, s.sensor.id);
    var e := SampleEntry(f, s);
    if e in k {
      var written :| written in k && IdOf(written) == s.sensor.id && k[written].temperature == MilliOf(s);
      assert written == e;
      ShowsSample(k', e, s);
    }
  }

  /** The body of reconcileHWMonFamily's first loop. */
  method InstallSensor(kernel: Kernel, f: Family, s: Sample, value: int) returns (err: Option<Errno>)
    requires kernel.Valid() && ValidSample(f, s) && value == MilliOf(s)
    modifies kernel`sensors, kernel`now, kernel`stores
    ensures kernel.Valid() && kernel.now >= old(kernel.now)
    ensures Installs(old(kernel.sensors), kernel.sensors, f, s)
    ensures StoresOf(old(kernel.stores), kernel.stores, f, [s])
    ensures InitializedFirst(old(kernel.sensors), kernel.sensors, f, [s])
    ensures err.None? ==> Shows(kernel.sensors, f, s) && WrittenSince(kernel.sensors, f, s, old(kernel.now))
    ensures err.None? ==> Installable(old(kernel.sensors), s.sensor)
    ensures f !in kernel.faulty && Installable(old(kernel.sensors), s.sensor) ==> err.None?
  {
    hide ValidId, DecodeSensorId, Labels.AcceptedByKernel, Labels.Strim, Consistent, Labels.ValidLabel,
      Representable, MilliOf, Explained, IsSampleStore, Canonical, InitializedFirst;
    var e := SampleEntry(f, s);
    EntryNamed(f, s.sensor.id);
    ghost var k0 := kernel.sensors;
    NoAliasMeans(k0, f, s.sensor.id);
    err := kernel.Mkdir(e);
    ghost var k1, stores1 := kernel.sensors, kernel.stores;
    MkdirInstalls(k0, k1, f, s, kernel.now);
    MkdirInitializes(k0, k1, f, s, kernel.now);
    if err.Some? && err != Some(Exists) {
      return;
    }
    err := WriteSample(kernel, f, s, value);
    ghost var k2 := kernel.sensors;
    WriteInstalls(k0, k1, k2, f, s);
    WriteInitializes(k1, k2, f, s);
    StillInitializedFirst(k0, k1, k2, f, [s], [s]);
    MoreStores(old(kernel.stores), stores1, kernel.stores, f, [s], [s]);
    if err.Some? {
      return;
    }
    err := kernel.WriteLabel(e, LabelLine(s.sensor));
    LabelInstalls(k0, k2, kernel.sensors, f, s);
    LabelInitializes(k2, kernel.sensors, f, s, kernel.now);
    StillInitializedFirst(k0, k2, kernel.sensors, f, [s], [s]);
    if err.None? {
      LiveIsInstallable(kernel.sensors, kernel.now, f, s.sensor);
      WasInstallable(k0, kernel.sensors, s.sensor);
    }
  }

  /** The directory is named by its ID as Go names it, with lower-case digits. */
  predicate Canonical(e: Entry)
    requires Named(e)
  {
    e.name == SensorKey(e.family, IdOf(e))
  }

  /** Every directory of the ID has its canonical name. */
  ghost predicate NoAlias(k: Sensors, id: seq<byte>) {
    forall e :: e in k && Named(e) && IdOf(e) == id ==> Canonical(e)
  }

  lemma NoAliasMeans(k: Sensors, f: Family, id: seq<byte>)
    requires ValidId(f, id)
    ensures NoAlias(k, id) <==> forall e :: e in k && Named(e) && IdOf(e) == id ==> e == EntryOf(f, id)
  {
    hide DecodeSensorId, SensorKey, ValidId;
    EntryNamed(f, id);
    forall e | e in k && Named(e) && IdOf(e) == id ensures e.family == f {
      PathFindsId(e, f, id);
    }
  }

  /** What a sensor needs of a fault-free kernel: a label that is not all spaces, and no alias. */
  ghost predicate Installable(k: Sensors, s: Sensor) {
    Labels.AcceptedByKernel(LabelLine(s)) && NoAlias(k, s.id)
  }

  lemma WasInstallable(k: Sensors, k': Sensors, s: Sensor)
    requires k.Keys <= k'.Keys && Installable(k', s)
    ensures Installable(k, s)
  {
    hide Named, Labels.AcceptedByKernel;
  }

  /** A live sensor proves that its label is accepted and that its ID has no other directory. */
  lemma LiveIsInstallable(k: Sensors, now: int, f: Family, s: Sensor)
    requires WellFormed(k, now) && ValidId(f, s.id) && Labels.ValidLabel(s.text) && Live(k, f, s)
    ensures Installable(k, s)
  {
    hide DecodeSensorId, SensorKey, ValidId, Labels.AcceptedByKernel, Labels.Strim, NoAlias, Labels.ValidLabel;
    EntryNamed(f, s.id);
    NoAliasMeans(k, f, s.id);
    Labels.AcceptedIffVisible(s.text);
  }

  /** Writes the value of a sample to the device of its ID. */
  method WriteSample(kernel: Kernel, f: Family, s: Sample, value: int) returns (err: Option<Errno>)
    requires kernel.Valid() && ValidSample(f, s) && value == MilliOf(s)
    modifies kernel`sensors, kernel`now, kernel`stores
    ensures kernel.Valid() && kernel.now >= old(kernel.now)
    ensures WritesOnly(old(kernel.sensors), kernel.sensors, f, s)
    ensures StoresOf(old(kernel.stores), kernel.stores, f, [s])
    ensures err.None? ==> exists e ::
          e in kernel.sensors && IdOf(e) == s.sensor.id && kernel.sensors[e].temperature == value
          && kernel.sensors[e].lastUpdate >= old(kernel.now)
    ensures f !in kernel.faulty ==> err == if HasId(old(kernel.sensors), s.sensor.id) then None else Some(NotExist)
  {
    hide ValidId, DecodeSensorId, DevicePath, DeviceNode, Labels.ValidLabel, Decimal.FormatInt, Decimal.ParseWrite,
      Explained, StoresOf;
    assert StoresOf(kernel.stores, kernel.stores, f, [s]) by { NothingDone(kernel.sensors, kernel.stores, f, [s]); }
    PathsFindId(kernel.sensors, f, s.sensor.id);
    Decimal.WriteRoundTrip(value);
    err := kernel.WriteDevice(f, DevicePath(ROOT, s.sensor.id), Decimal.FormatInt(value) + [Decimal.NEWLINE]);
    if kernel.stores != old(kernel.stores) {
      ghost var e :| e in old(kernel.sensors) && IdOf(e) == s.sensor.id
                     && kernel.stores == old(kernel.stores) + [Store(e, value, kernel.now)];
      OneStoreAllowed(old(kernel.stores), e, kernel.now, f, s);
    }
  }

  lemma OneStoreAllowed(before: seq<Store>, e: Entry, at: int, f: Family, s: Sample)
    requires Named(e) && IdOf(e) == s.sensor.id && e.family == f && Representable(s.temperature)
    ensures StoresOf(before, before + [Store(e, MilliOf(s), at)], f, [s])
  {
    hide Named, IdOf, MilliOf, Representable;
    assert IsSampleStore(Store(e, MilliOf(s), at), [s][0]);
  }

  ghost predicate HasId(k: Sensors, id: seq<byte>)
    requires forall e :: e in k ==> Named(e)
  {
    exists e :: e in k && IdOf(e) == id
  }

  lemma PathsFindId(k: Sensors, f: Family, id: seq<byte>)
    requires ValidId(f, id) && forall e :: e in k ==> Named(e)
    ensures forall e :: e in k ==> (PathOf(e) == DevicePath(ROOT, id) <==> IdOf(e) == id)
    ensures forall e :: e in k && IdOf(e) == id ==> e.family == f
    ensures HasDevice(k, DevicePath(ROOT, id)) <==> HasId(k, id)
  {
    hide DevicePath, DeviceNode, PathOf, ValidId, DecodeSensorId;
    forall e | e in k
      ensures PathOf(e) == DevicePath(ROOT, id) <==> IdOf(e) == id
      ensures IdOf(e) == id ==> e.family == f
    {
      PathFindsId(e, f, id);
    }
  }

  /** The store is as before but for the reading of the sensor with the sample's ID. */
  ghost predicate WritesOnly(k: Sensors, k': Sensors, f: Family, s: Sample)
    requires Representable(s.temperature)
  {
    k'.Keys == k.Keys
    && forall e :: e in k ==>
      Named(e) && k'[e] == k[e].(temperature := k'[e].temperature, lastUpdate := k'[e].lastUpdate)
      && (k'[e] != k[e] ==> IdOf(e) == s.sensor.id && e.family == f && k'[e].temperature == MilliOf(s))
  }

  /** The second loop of reconcileHWMonFamily: drops every directory that is not wanted. */
  method RemoveStale(kernel: Kernel, f: Family, desired: set<seq<byte>>) returns (err: Option<Errno>)
    requires kernel.Valid()
    modifies kernel`sensors, kernel`now
    ensures kernel.Valid() && kernel.now >= old(kernel.now)
    ensures RemovesOnly(old(kernel.sensors), kernel.sensors, f, desired)
    ensures err.None? ==> forall e :: e in kernel.sensors && e.family == f ==> e.name in desired
    ensures f !in kernel.faulty ==> err.None?
  {
    hide WellFormed, Explained;
    ghost var k0 := kernel.sensors;
    var names: set<seq<byte>>;
    names, err := kernel.ReadDir(f);
    if err.Some? {
      return;
    }
    var todo := names;
    while todo != {}
      invariant kernel.Valid() && kernel.now >= old(kernel.now)
      invariant RemovesOnly(k0, kernel.sensors, f, desired)
      invariant forall e :: e in kernel.sensors && e.family == f ==> e.name in desired || e.name in todo
      invariant forall e :: e in k0 && e.family == f && e.name in todo ==> e in kernel.sensors
      invariant forall n :: n in todo ==> Entry(f, n) in k0
      decreases |todo|
    {
      var name :| name in todo;
      todo := todo - {name};
      if name in desired {
        continue;
      }
      err := kernel.Remove(Entry(f, name));
      if err.Some? {
        return;
      }
    }
    err := None;
  }

  ghost predicate RemovesOnly(k: Sensors, k': Sensors, f: Family, desired: set<seq<byte>>) {
    (forall e :: e in k' ==> e in k && k'[e] == k[e])
    && forall e :: e in k && (e.family != f || e.name in desired) ==> e in k'
  }

  ghost predicate AllInstallable(k: Sensors, samples: seq<Sample>) {
    forall i :: 0 <= i < |samples| ==> Installable(k, samples[i].sensor)
  }

  /** The first n samples are live and show their values. */
  ghost predicate ShownUpTo(k: Sensors, f: Family, samples: seq<Sample>, n: nat)
    requires n <= |samples|
  {
    forall i :: 0 <= i < n ==> ValidSample(f, samples[i]) && Shows(k, f, samples[i])
  }

  ghost predicate AllShown(k: Sensors, f: Family, samples: seq<Sample>) {
    ShownUpTo(k, f, samples, |samples|)
  }

  /** The sensors of the first n samples were written at a time or later. */
  ghost predicate WrittenUpTo(k: Sensors, f: Family, samples: seq<Sample>, n: nat, t: int)
    requires n <= |samples|
  {
    forall i :: 0 <= i < n ==> ValidId(f, samples[i].sensor.id) && WrittenSince(k, f, samples[i], t)
  }

  lemma WrittenLater(k: Sensors, f: Family, s: Sample, t: int, u: int)
    requires t <= u && ValidId(f, s.sensor.id) && WrittenSince(k, f, s, u)
    ensures WrittenSince(k, f, s, t)
  {
  }

  lemma InstallKeepsWritten(k: Sensors, k': Sensors, f: Family, samples: seq<Sample>, i: nat, t: int)
    requires i < |samples| && ValidSamples(f, samples) && Installs(k, k', f, samples[i])
    requires WrittenUpTo(k, f, samples, i, t) && WrittenSince(k', f, samples[i], t)
    ensures WrittenUpTo(k', f, samples, i + 1, t)
  {
    hide DecodeSensorId, ValidId, SensorKey, Representable, Labels.ValidLabel;
    forall j | 0 <= j < i ensures WrittenSince(k', f, samples[j], t) {
      EntryNamed(f, samples[j].sensor.id);
    }
  }

  /** Installing one more sensor disturbs none of those before it. */
  lemma InstallKeeps(k0: Sensors, k: Sensors, k': Sensors, f: Family, samples: seq<Sample>, i: nat)
    requires i < |samples| && ValidSamples(f, samples)
    requires OtherFamilyUnchanged(k0, k, f) && Installs(k, k', f, samples[i])
    ensures OtherFamilyUnchanged(k0, k', f)
    ensures ShownUpTo(k, f, samples, i) && Shows(k', f, samples[i]) ==> ShownUpTo(k', f, samples, i + 1)
  {
    hide DecodeSensorId, ValidId, MilliOf, Representable, Labels.Strim, SensorKey;
    EntryNamed(f, samples[i].sensor.id);
    forall j | 0 <= j < i && Shows(k, f, samples[j]) ensures Shows(k', f, samples[j]) {
      EntryNamed(f, samples[j].sensor.id);
    }
  }

  lemma InstallsKeys(k: Sensors, k': Sensors, f: Family, s: Sample)
    requires ValidSample(f, s) && Installs(k, k', f, s)
    ensures k.Keys <= k'.Keys
  {
  }

  lemma StaysInstallable(k: Sensors, k': Sensors, f: Family, s: Sample, other: Sensor)
    requires ValidSample(f, s) && Installs(k, k', f, s) && Installable(k, other)
    ensures Installable(k', other)
  {
    hide DecodeSensorId, ValidId, MilliOf, Representable, SensorKey, Labels.AcceptedByKernel, Labels.ValidLabel;
    EntryNamed(f, s.sensor.id);
    assert Canonical(SampleEntry(f, s));
  }

  lemma InstallKeepsInstallable(k: Sensors, k': Sensors, f: Family, samples: seq<Sample>, i: nat)
    requires i < |samples| && ValidSamples(f, samples) && Installs(k, k', f, samples[i])
    ensures AllInstallable(k, samples) ==> AllInstallable(k', samples)
  {
    hide Installable, Installs, ValidSample;
    if AllInstallable(k, samples) {
      forall j | 0 <= j < |samples| ensures Installable(k', samples[j].sensor) {
        StaysInstallable(k, k', f, samples[i], samples[j].sensor);
      }
    }
  }

  /** The first loop of reconcileHWMonFamily. */
  method InstallAll(kernel: Kernel, f: Family, samples: seq<Sample>, milli: seq<int>)
    returns (desired: set<seq<byte>>, err: Option<Errno>)
    requires kernel.Valid() && ValidSamples(f, samples) && MilliValues(samples, milli)
    modifies kernel`sensors, kernel`now, kernel`stores
    ensures kernel.Valid() && kernel.now >= old(kernel.now)
    ensures OtherFamilyUnchanged(old(kernel.sensors), kernel.sensors, f)
    ensures StoresOf(old(kernel.stores), kernel.stores, f, samples)
    ensures InitializedFirst(old(kernel.sensors), kernel.sensors, f, samples)
    ensures err.None? ==> AllShown(kernel.sensors, f, samples)
    ensures err.None? ==> WrittenUpTo(kernel.sensors, f, samples, |samples|, old(kernel.now))
    ensures err.None? ==> desired == set j | 0 <= j < |samples| :: SampleEntry(f, samples[j]).name
    ensures err.None? ==> AllInstallable(old(kernel.sensors), samples)
    ensures f !in kernel.faulty && AllInstallable(old(kernel.sensors), samples) ==> err.None?
  {
    hide Explained, StoresOf, OtherFamilyUnchanged, ShownUpTo, ValidId, MilliOf, Representable, Shows, WellFormed,
      Installable, Installs, InitializedFirst, WrittenSince, WrittenUpTo, Labels.ValidLabel, SampleEntry;
    ghost var k0 := kernel.sensors;
    desired := {};
    NothingDone(k0, kernel.stores, f, samples);
    for i := 0 to |samples|
      invariant kernel.Valid() && kernel.now >= old(kernel.now)
      invariant desired == set j | 0 <= j < i :: SampleEntry(f, samples[j]).name
      invariant OtherFamilyUnchanged(k0, kernel.sensors, f) && StoresOf(old(kernel.stores), kernel.stores, f, samples)
      invariant ShownUpTo(kernel.sensors, f, samples, i) && InitializedFirst(k0, kernel.sensors, f, samples)
      invariant WrittenUpTo(kernel.sensors, f, samples, i, old(kernel.now))
      invariant k0.Keys <= kernel.sensors.Keys && forall j :: 0 <= j < i ==> Installable(k0, samples[j].sensor)
      invariant AllInstallable(k0, samples) ==> AllInstallable(kernel.sensors, samples)
    {
      ghost var k, stores, now := kernel.sensors, kernel.stores, kernel.now;
      desired := desired + {SampleEntry(f, samples[i]).name};
      err := InstallSensor(kernel, f, samples[i], milli[i]);
      InstallKeeps(k0, k, kernel.sensors, f, samples, i);
      StillInitializedFirst(k0, k, kernel.sensors, f, samples, [samples[i]]);
      if err.None? {
        assert WrittenSince(kernel.sensors, f, samples[i], old(kernel.now)) by {
          WrittenLater(kernel.sensors, f, samples[i], old(kernel.now), now);
        }
        InstallKeepsWritten(k, kernel.sensors, f, samples, i, old(kernel.now));
      }
      InstallKeepsInstallable(k, kernel.sensors, f, samples, i);
      assert k.Keys <= kernel.sensors.Keys by { InstallsKeys(k, kernel.sensors, f, samples[i]); }
      if Installable(k, samples[i].sensor) {
        WasInstallable(k0, k, samples[i].sensor);
      }
      MoreStores(old(kernel.stores), stores, kernel.stores, f, samples, [samples[i]]);
      if err.Some? {
        return;
      }
    }
    err := None;
  }

  /** reconcileHWMonFamily. */
  method Reconcile(kernel: Kernel, f: Family, samples: seq<Sample>, milli: seq<int>) returns (err: Option<Errno>)
    requires kernel.Valid() && ValidSamples(f, samples) && MilliValues(samples, milli)
    modifies kernel`sensors, kernel`now, kernel`stores
    ensures kernel.Valid() && kernel.now >= old(kernel.now)
    ensures OtherFamilyUnchanged(old(kernel.sensors), kernel.sensors, f)
    ensures StoresOf(old(kernel.stores), kernel.stores, f, samples)
    ensures InitializedFirst(old(kernel.sensors), kernel.sensors, f, samples)
    ensures err.None? ==> AllWritten(kernel.sensors, f, samples, old(kernel.now))
    ensures err.None? ==> Exact(kernel.sensors, f, samples) && AllShown(kernel.sensors, f, samples)
    ensures err.None? ==> AllInstallable(old(kernel.sensors), samples)
    ensures f !in kernel.faulty && AllInstallable(old(kernel.sensors), samples) ==> err.None?
  {
    hide Explained, StoresOf, ValidSamples, MilliValues, AllInstallable, AllShown, Exact, WellFormed, SampleEntry,
      InitializedFirst, WrittenUpTo, AllWritten;
    var desired: set<seq<byte>>;
    desired, err := InstallAll(kernel, f, samples, milli);
    if err.Some? {
      return;
    }
    ghost var k := kernel.sensors;
    err := RemoveStale(kernel, f, desired);
    RemovalKeepsShown(k, kernel.sensors, f, samples, desired);
    RemovalKeepsWritten(old(kernel.sensors), k, kernel.sensors, f, samples, desired, old(kernel.now));
    if err.None? {
      ShownIsExact(kernel.sensors, f, samples, desired);
    }
  }

  lemma NothingDone(k: Sensors, stores: seq<Store>, f: Family, samples: seq<Sample>)
    ensures OtherFamilyUnchanged(k, k, f) && ShownUpTo(k, f, samples, 0) && StoresOf(stores, stores, f, samples)
    ensures InitializedFirst(k, k, f, samples) && forall t :: WrittenUpTo(k, f, samples, 0, t)
  {
  }

  lemma RemovalKeepsShown(k: Sensors, k': Sensors, f: Family, samples: seq<Sample>, desired: set<seq<byte>>)
    requires ValidSamples(f, samples) && AllShown(k, f, samples) && RemovesOnly(k, k', f, desired)
    requires desired == set j | 0 <= j < |samples| :: SampleEntry(f, samples[j]).name
    ensures AllShown(k', f, samples)
  {
    hide ValidId, MilliOf, Representable, Labels.Strim, SensorKey, Labels.ValidLabel;
    forall i | 0 <= i < |samples| ensures Shows(k', f, samples[i]) {
      assert Shows(k, f, samples[i]) && SampleEntry(f, samples[i]).name in desired;
    }
  }

  lemma RemovalKeepsWritten(k0: Sensors, k: Sensors, k': Sensors, f: Family, samples: seq<Sample>,
    desired: set<seq<byte>>, t: int)
    requires ValidSamples(f, samples) && RemovesOnly(k, k', f, desired)
    requires InitializedFirst(k0, k, f, samples) && WrittenUpTo(k, f, samples, |samples|, t)
    requires desired == set j | 0 <= j < |samples| :: SampleEntry(f, samples[j]).name
    ensures InitializedFirst(k0, k', f, samples) && AllWritten(k', f, samples, t)
  {
    hide ValidId, SensorKey, Representable, Labels.ValidLabel, Named, IdOf, MilliOf;
    forall i | 0 <= i < |samples| ensures WrittenSince(k', f, samples[i], t) {
      assert WrittenSince(k, f, samples[i], t) && SampleEntry(f, samples[i]).name in desired;
    }
    forall e | e in k' && e.family == f && ShowsOne(k, e, samples) ensures ShowsOne(k', e, samples) {
      StaysShown(k, k', e, samples, samples);
    }
  }

  lemma ShownIsExact(k: Sensors, f: Family, samples: seq<Sample>, desired: set<seq<byte>>)
    requires ValidSamples(f, samples) && AllShown(k, f, samples)
    requires desired == set j | 0 <= j < |samples| :: SampleEntry(f, samples[j]).name
    requires forall e :: e in k && e.family == f ==> e.name in desired
    ensures Exact(k, f, samples)
  {
    hide ValidId, MilliOf, Representable, Labels.Strim, SensorKey, Labels.ValidLabel;
    forall e | e in k && e.family == f
      ensures exists s :: s in SensorsOf(samples) && ValidId(f, s.id) && e == EntryOf(f, s.id) && Live(k, f, s)
    {
      var j :| 0 <= j < |samples| && e.name == SampleEntry(f, samples[j]).name;
      assert Shows(k, f, samples[j]) && SensorsOf(samples)[j] == samples[j].sensor;
    }
    forall i | 0 <= i < |samples| ensures Live(k, f, samples[i].sensor) && Shows(k, f, samples[i]) {
      assert Shows(k, f, samples[i]);
    }
  }

  // ----- updateHWMonFamily -----

  /** Labels, names and registrations of the whole store are as they were. */
  ghost predicate SameKernelTopology(k: Sensors, k': Sensors) {
    k'.Keys == k.Keys
    && forall e :: e in k ==> k'[e] == k[e].(temperature := k'[e].temperature, lastUpdate := k'[e].lastUpdate)
  }

  /** Only sensors of refreshed samples change, and only to show them. */
  ghost predicate UpdatesOnly(k: Sensors, k': Sensors, f: Family, samples: seq<Sample>) {
    SameKernelTopology(k, k')
    && forall e :: e in k && k'[e] != k[e] ==>
      e.family == f && Named(e)
      && exists i :: 0 <= i < |samples| && !samples[i].skipRefresh && IdOf(e) == samples[i].sensor.id
                     && Representable(samples[i].temperature) && k'[e].temperature == MilliOf(samples[i])
  }

  /** The sensor of a sample exists and, unless it was skipped, shows the sample, written at time t or later. */
  ghost predicate Updated(k: Sensors, s: Sample, t: int) {
    exists e :: e in k && Named(e) && IdOf(e) == s.sensor.id
                && (!s.skipRefresh ==>
                      Representable(s.temperature) && k[e].temperature == MilliOf(s) && k[e].lastUpdate >= t)
  }

  lemma WriteKeepsUpdates(k0: Sensors, k: Sensors, k': Sensors, f: Family, samples: seq<Sample>, i: nat, t: int)
    requires i < |samples| && ValidSamples(f, samples) && !samples[i].skipRefresh
    requires UpdatesOnly(k0, k, f, samples) && WritesOnly(k, k', f, samples[i])
    ensures UpdatesOnly(k0, k', f, samples)
    ensures forall j :: 0 <= j < i && Updated(k, samples[j], t) ==> Updated(k', samples[j], t)
  {
    hide Named, IdOf, MilliOf, Representable, ValidId, Labels.ValidLabel;
    forall j | 0 <= j < i && Updated(k, samples[j], t) ensures Updated(k', samples[j], t) {
      var e :| e in k && Named(e) && IdOf(e) == samples[j].sensor.id
               && (!samples[j].skipRefresh ==> k[e].temperature == MilliOf(samples[j]) && k[e].lastUpdate >= t);
      assert IdOf(e) != samples[i].sensor.id && k'[e] == k[e];
    }
    forall e | e in k0 && k'[e] != k0[e]
      ensures e.family == f && Named(e)
      ensures exists i :: 0 <= i < |samples| && !samples[i].skipRefresh && IdOf(e) == samples[i].sensor.id
                          && k'[e].temperature == MilliOf(samples[i])
    {
      if k'[e] != k[e] {
        assert IdOf(e) == samples[i].sensor.id;
      }
    }
  }

  method UpdateFamily(kernel: Kernel, f: Family, samples: seq<Sample>, milli: seq<int>) returns (err: Option<Errno>)
    requires kernel.Valid() && ValidSamples(f, samples) && MilliValues(samples, milli)
    modifies kernel`sensors, kernel`now, kernel`stores
    ensures kernel.Valid() && kernel.now >= old(kernel.now)
    ensures UpdatesOnly(old(kernel.sensors), kernel.sensors, f, samples)
    ensures StoresOf(old(kernel.stores), kernel.stores, f, samples)
    ensures err.None? ==> forall i :: 0 <= i < |samples| ==> Updated(kernel.sensors, samples[i], old(kernel.now))
    ensures f !in kernel.faulty ==> err.None? || err == Some(NotExist)
  {
    hide ValidId, MilliOf, Representable, IdOf, DevicePath, Labels.ValidLabel, UpdatesOnly, StoresOf, Explained,
      Named, Labels.Strim, DecodeSensorId, SensorKey;
    ghost var k0 := kernel.sensors;
    assert UpdatesOnly(k0, k0, f, samples) by { NothingUpdated(k0, f, samples); }
    NothingDone(k0, kernel.stores, f, samples);
    for i := 0 to |samples|
      invariant kernel.Valid() && kernel.now >= old(kernel.now)
      invariant UpdatesOnly(k0, kernel.sensors, f, samples) && StoresOf(old(kernel.stores), kernel.stores, f, samples)
      invariant forall j :: 0 <= j < i ==> Updated(kernel.sensors, samples[j], old(kernel.now))
    {
      if samples[i].skipRefresh {
        PathsFindId(kernel.sensors, f, samples[i].sensor.id);
        err := kernel.StatDevice(f, DevicePath(ROOT, samples[i].sensor.id));
        if err.Some? {
          return;
        }
        continue;
      }
      ghost var k, stores := kernel.sensors, kernel.stores;
      err := WriteSample(kernel, f, samples[i], milli[i]);
      WriteKeepsUpdates(k0, k, kernel.sensors, f, samples, i, old(kernel.now));
      MoreStores(old(kernel.stores), stores, kernel.stores, f, samples, [samples[i]]);
      if err.Some? {
        return;
      }
    }
    err := None;
  }

  lemma NothingUpdated(k: Sensors, f: Family, samples: seq<Sample>)
    ensures UpdatesOnly(k, k, f, samples)
  {
  }

  // ----- publishHWMonFamily -----

  ghost predicate ValidSensors(f: Family, sensors: seq<Sensor>) {
    |sensors| <= MAX_SENSORS && DistinctIds(sensors)
    && forall i :: 0 <= i < |sensors| ==> ValidId(f, sensors[i].id) && Labels.ValidLabel(sensors[i].text)
  }

  class Inventory {
    var sensors: Option<seq<Sensor>>
    var needsReconcile: bool

    constructor ()
      ensures sensors == None && !needsReconcile
    {
      sensors, needsReconcile := None, false;
    }

    /** The last applied topology is well formed and, unless a rebuild is due, bounds the kernel. */
    ghost predicate Tracks(k: Sensors, f: Family)
      reads this
    {
      sensors.Some? ==>
        ValidSensors(f, sensors.value) && (!needsReconcile ==> WithinTopology(k, f, sensors.value))
    }
  }

  datatype PublishError = BadSamples(why: SampleError) | KernelError(errno: Errno)

  /** publishHWMonFamily. */
  method PublishFamily(kernel: Kernel, inventory: Inventory, f: Family, samples: seq<Sample>)
    returns (changed: bool, err: Option<PublishError>)
    requires kernel.Valid() && inventory.Tracks(kernel.sensors, f)
    modifies kernel`sensors, kernel`now, kernel`stores, inventory
    ensures kernel.Valid() && kernel.now >= old(kernel.now) && inventory.Tracks(kernel.sensors, f)
    // Invalid samples change nothing at all.
    ensures !ValidSamples(f, samples) ==>
              err.Some? && kernel.sensors == old(kernel.sensors) && kernel.stores == old(kernel.stores)
    ensures !ValidSamples(f, samples) ==> unchanged(inventory)
    // However the call ends, it only stores values of the samples or the failsafe, in its own family.
    ensures OtherFamilyUnchanged(old(kernel.sensors), kernel.sensors, f)
    ensures StoresOf(old(kernel.stores), kernel.stores, f, samples)
    // Success is exact, also when sensors had vanished.
    ensures err.None? ==> ValidSamples(f, samples) && Exact(kernel.sensors, f, samples) && !inventory.needsReconcile
    // Every refreshed sensor shows its rounded temperature, written by this call.
    ensures err.None? ==> AllRounded(kernel.sensors, f, samples)
    ensures err.None? ==> AllWritten(kernel.sensors, f, samples, old(kernel.now))
    // However the call ends, no sensor is registered before it has its value.
    ensures InitializedFirst(old(kernel.sensors), kernel.sensors, f, samples)
    ensures changed ==> err.None? && AllShown(kernel.sensors, f, samples)
    ensures changed ==> inventory.sensors == Some(SensorsOf(samples))
    ensures err.None? && !changed ==>
              unchanged(inventory) && inventory.sensors.Some?
              && UpdatesOnly(old(kernel.sensors), kernel.sensors, f, samples)
    // Failure keeps the last applied topology and never forgets that a rebuild is due.
    ensures err.Some? ==> !changed && inventory.sensors == old(inventory.sensors)
    ensures err.Some? && old(inventory.needsReconcile) ==> inventory.needsReconcile
    // The topology of the kernel moves only with a reported or a pending rebuild.
    ensures !changed && !inventory.needsReconcile ==> SameKernelTopology(old(kernel.sensors), kernel.sensors)
    // Without faults exactly the publishable samples succeed, from any earlier state.
    ensures err.None? ==> Publishable(old(kernel.sensors), f, samples)
    ensures f !in kernel.faulty && Publishable(old(kernel.sensors), f, samples) ==> err.None?
  {
    NothingDone(kernel.sensors, kernel.stores, f, samples);
    var milli := ValidateSamples(f, samples);
    if milli.Err? {
      return false, Some(BadSamples(milli.error));
    }
    hide ValidSamples, Explained, StoresOf, OtherFamilyUnchanged, AllShown, UpdatesOnly, WithinTopology, WellFormed,
      AllInstallable, MilliValues, ValidSensors, InitializedFirst, AllWritten, AllRounded, Exact;
    assert ValidSensors(f, SensorsOf(samples)) by { SamplesAreSensors(f, samples); }
    var rebuild: bool;
    rebuild, err := TryUpdate(kernel, inventory, f, samples, milli.value);
    if !rebuild {
      if err.None? {
        ExactIsRounded(kernel.sensors, f, samples);
      }
      return false, err;
    }
    ghost var k, stores, now := kernel.sensors, kernel.stores, kernel.now;
    var failure := Reconcile(kernel, f, samples, milli.value);
    StillUnchanged(old(kernel.sensors), k, kernel.sensors, f);
    assert k.Keys == old(kernel.sensors).Keys;
    StillInitializedFirst(old(kernel.sensors), k, kernel.sensors, f, samples, samples);
    MoreStores(old(kernel.stores), stores, kernel.stores, f, samples, samples);
    if failure.Some? {
      inventory.needsReconcile := true;
      return false, Some(KernelError(failure.value));
    }
    AllWrittenLater(kernel.sensors, f, samples, old(kernel.now), now);
    ExactIsRounded(kernel.sensors, f, samples);
    inventory.sensors := Some(SensorsOf(samples));
    inventory.needsReconcile := false;
    return true, None;
  }

  /** The first half of publishHWMonFamily: update in place, or say that a rebuild is needed. */
  method TryUpdate(kernel: Kernel, inventory: Inventory, f: Family, samples: seq<Sample>, milli: seq<int>)
    returns (rebuild: bool, err: Option<PublishError>)
    requires kernel.Valid() && inventory.Tracks(kernel.sensors, f)
    requires ValidSamples(f, samples) && MilliValues(samples, milli)
    modifies kernel`sensors, kernel`now, kernel`stores
    ensures kernel.Valid() && kernel.now >= old(kernel.now) && inventory.Tracks(kernel.sensors, f)
    ensures OtherFamilyUnchanged(old(kernel.sensors), kernel.sensors, f)
    ensures StoresOf(old(kernel.stores), kernel.stores, f, samples)
    ensures SameKernelTopology(old(kernel.sensors), kernel.sensors)
    ensures AllInstallable(old(kernel.sensors), samples) <==> AllInstallable(kernel.sensors, samples)
    ensures !rebuild && err.None? ==> AllInstallable(kernel.sensors, samples)
    ensures InitializedFirst(old(kernel.sensors), kernel.sensors, f, samples)
    ensures !rebuild && err.None? ==> AllWritten(kernel.sensors, f, samples, old(kernel.now))
    ensures !rebuild ==> !inventory.needsReconcile && inventory.sensors.Some?
    ensures !rebuild && err.None? ==>
              Exact(kernel.sensors, f, samples) && UpdatesOnly(old(kernel.sensors), kernel.sensors, f, samples)
    ensures !rebuild && err.Some? ==> f in kernel.faulty
  {
    hide InitializedFirst, AllWritten, Explained, StoresOf, OtherFamilyUnchanged, UpdatesOnly, Updated,
      WithinTopology, WellFormed, AllInstallable,
      MilliValues, SameConfiguration, Exact, Labels.ValidLabel, ValidId, Representable;
    NothingDone(kernel.sensors, kernel.stores, f, samples);
    if inventory.needsReconcile || inventory.sensors.None? {
      return true, None;
    }
    var same := SameTopology(inventory.sensors.value, samples);
    if !same {
      return true, None;
    }
    ghost var k0, now := kernel.sensors, kernel.now;
    var failure := UpdateFamily(kernel, f, samples, milli);
    UpdateConsequences(k0, kernel.sensors, f, inventory.sensors.value, samples, now, now);
    if failure.None? {
      ExactIsInstallable(kernel.sensors, kernel.now, f, samples);
      return false, None;
    }
    if failure != Some(NotExist) && failure != Some(NoDevice) {
      return false, Some(KernelError(failure.value));
    }
    return true, None;
  }

  lemma WithinSameSet(k: Sensors, k': Sensors, f: Family, sensors: seq<Sensor>, other: seq<Sensor>)
    requires WithinTopology(k, f, sensors) && SameKernelTopology(k, k')
    requires forall s :: s in sensors ==> s in other
    ensures WithinTopology(k', f, other)
  {
    hide ValidId, Labels.Strim, SensorKey;
  }

  lemma SameSetSameMembers(expected: seq<Sensor>, current: seq<Sensor>)
    requires SensorSet(expected) == SensorSet(current)
    ensures forall s :: s in expected <==> s in current
  {
    forall s ensures s in expected <==> s in current {
      assert s in SensorSet(expected) <==> s in SensorSet(current);
    }
  }

  lemma UpdatedIsLive(k: Sensors, f: Family, samples: seq<Sample>, i: nat, t: int)
    requires i < |samples| && ValidSamples(f, samples) && WithinTopology(k, f, SensorsOf(samples))
    requires Updated(k, samples[i], t)
    ensures Live(k, f, samples[i].sensor) && (!samples[i].skipRefresh ==> Shows(k, f, samples[i]))
    ensures !samples[i].skipRefresh ==> WrittenSince(k, f, samples[i], t)
  {
    hide MilliOf, Representable, Labels.Strim, SensorKey, Labels.ValidLabel, DecodeSensorId, ValidId;
    var e :| e in k && Named(e) && IdOf(e) == samples[i].sensor.id
             && (!samples[i].skipRefresh ==> k[e].temperature == MilliOf(samples[i]) && k[e].lastUpdate >= t);
    PathFindsId(e, f, samples[i].sensor.id);
    var s :| s in SensorsOf(samples) && ValidId(f, s.id) && e == EntryOf(f, s.id) && Live(k, f, s);
    var j :| 0 <= j < |samples| && SensorsOf(samples)[j] == s;
    EntryNamed(f, s.id);
    assert samples[j].sensor.id == samples[i].sensor.id;
  }

  lemma ExactIsInstallable(k: Sensors, now: int, f: Family, samples: seq<Sample>)
    requires ValidSamples(f, samples) && WellFormed(k, now) && Exact(k, f, samples)
    ensures AllInstallable(k, samples)
  {
    hide Installable, Live, ValidId, Representable, WellFormed, Labels.ValidLabel;
    forall i | 0 <= i < |samples| ensures Installable(k, samples[i].sensor) {
      assert ValidSample(f, samples[i]);
      LiveIsInstallable(k, now, f, samples[i].sensor);
    }
  }

  /** What a fault-free kernel needs to accept the samples of a family. */
  ghost predicate Publishable(k: Sensors, f: Family, samples: seq<Sample>) {
    ValidSamples(f, samples) && AllInstallable(k, samples)
  }

  /** The directory "AB" of the disks, whose ID's own name is "ab". */
  const UPPER_CASE := Entry(Disk, [65, 66])
  const UPPER_CASE_SAMPLE := Sample(Sensor([100, 105, 115, 107, 58, 0xAB], [120]), FAILSAFE, false)

  lemma UpperCaseIsAlias()
    ensures Named(UPPER_CASE) && IdOf(UPPER_CASE) == UPPER_CASE_SAMPLE.sensor.id && !Canonical(UPPER_CASE)
    ensures ValidId(Disk, UPPER_CASE_SAMPLE.sensor.id)
  {
    FamilyNames();
    var id := UPPER_CASE_SAMPLE.sensor.id;
    assert Unhex(UPPER_CASE.name) == [0xAB];
    assert FamilyName(Disk) + [COLON] + [0xAB] == id;
    assert DecodeSensorId(Disk, UPPER_CASE.name) == Ok(id);
    assert SensorKey(Disk, id)[0] == 97 by { assert id[5..] == [0xAB]; }
    DecodedIdsAreValid(Disk, UPPER_CASE.name);
  }

  /** Made by hand, it takes the device of that ID and blocks its own directory. */
  lemma UpperCaseDirectoryBlocks()
    ensures WellFormed(map[UPPER_CASE := NewSensor(0)], 0) && ValidSamples(Disk, [UPPER_CASE_SAMPLE])
    ensures !Publishable(map[UPPER_CASE := NewSensor(0)], Disk, [UPPER_CASE_SAMPLE])
    ensures Publishable(map[], Disk, [UPPER_CASE_SAMPLE])
  {
    hide Labels.Strim, Labels.AcceptedByKernel, DecodeSensorId, ValidId, Canonical;
    UpperCaseIsAlias();
    assert Milli(100.0) == Topology.FAILSAFE_MILLI;
    Labels.AcceptedIffVisible(UPPER_CASE_SAMPLE.sensor.text);
    var k := map[UPPER_CASE := NewSensor(0)];
    assert UPPER_CASE in k && !NoAlias(k, UPPER_CASE_SAMPLE.sensor.id);
    assert !Installable(k, [UPPER_CASE_SAMPLE][0].sensor);
    assert Installable(map[], UPPER_CASE_SAMPLE.sensor) by {
      assert Labels.AcceptedByKernel(UPPER_CASE_SAMPLE.sensor.text + [Labels.NEWLINE]) by {
        assert UPPER_CASE_SAMPLE.sensor.text[0] == 120;
      }
    }
  }

  lemma UpdatesOwnFamily(k: Sensors, k': Sensors, f: Family, samples: seq<Sample>)
    requires UpdatesOnly(k, k', f, samples)
    ensures OtherFamilyUnchanged(k, k', f)
  {
  }

  lemma UpdateInitializes(k: Sensors, k': Sensors, f: Family, samples: seq<Sample>)
    requires UpdatesOnly(k, k', f, samples)
    ensures InitializedFirst(k, k', f, samples)
  {
    hide Named, IdOf, MilliOf, Representable;
    forall e | e in k && k'[e] != k[e] ensures ShowsOne(k', e, samples) {
      var i :| 0 <= i < |samples| && IdOf(e) == samples[i].sensor.id && Representable(samples[i].temperature)
               && k'[e].temperature == MilliOf(samples[i]);
      assert IsSampleStore(Store(e, k'[e].temperature, k'[e].lastUpdate), samples[i]);
    }
  }

  lemma UpdateConsequences(k: Sensors, k': Sensors, f: Family, sensors: seq<Sensor>, samples: seq<Sample>,
    now: int, t: int)
    requires ValidSamples(f, samples) && WellFormed(k, now) && UpdatesOnly(k, k', f, samples)
    requires SensorSet(sensors) == SensorSet(SensorsOf(samples)) && WithinTopology(k, f, sensors)
    ensures OtherFamilyUnchanged(k, k', f) && SameKernelTopology(k, k') && WithinTopology(k', f, sensors)
    ensures AllInstallable(k, samples) <==> AllInstallable(k', samples)
    ensures (forall i :: 0 <= i < |samples| ==> Updated(k', samples[i], t)) ==>
              Exact(k', f, samples) && AllWritten(k', f, samples, t)
    ensures InitializedFirst(k, k', f, samples)
  {
    hide ValidId, Labels.ValidLabel, IdOf, Representable, MilliOf, Updated, OtherFamilyUnchanged, InitializedFirst,
      WrittenSince,
      Live;
    UpdatesOwnFamily(k, k', f, samples);
    UpdateInitializes(k, k', f, samples);
    WithinSameSet(k, k', f, sensors, sensors);
    SameSetSameMembers(sensors, SensorsOf(samples));
    WithinSameSet(k, k', f, sensors, SensorsOf(samples));
    forall i | 0 <= i < |samples| && Updated(k', samples[i], t)
      ensures Live(k', f, samples[i].sensor) && (!samples[i].skipRefresh ==> Shows(k', f, samples[i]))
      ensures !samples[i].skipRefresh ==> WrittenSince(k', f, samples[i], t)
    {
      UpdatedIsLive(k', f, samples, i, t);
    }
  }

  lemma SamplesAreSensors(f: Family, samples: seq<Sample>)
    requires ValidSamples(f, samples)
    ensures ValidSensors(f, SensorsOf(samples))
  {
  }
}
