/**
 The host daemon: restoring the cached topology, publishing every guest snapshot to both
 families, saving the topology durably, and announcing it to subscribers.
 */
module HwmonHost {
  import opened Common
  import opened SensorId
  import opened Topology
  import opened VirtTempKernel
  import opened FamilyPublisher
  import Acceptance
  import Labels

  // ----- the cache file -----

  /** The persisted topology; a family never initialized is None. */
  datatype Cache = Cache(disks: Option<seq<Sensor>>, hbas: Option<seq<Sensor>>)

  datatype CacheFile = Missing | Unreadable | Stored(cache: Cache)

  /** samplesFromCache: restored sensors start at the failsafe. */
  function SamplesFromCache(sensors: seq<Sensor>): (s: seq<Sample>)
    ensures SensorsOf(s) == sensors
  {
    seq(|sensors|, i requires 0 <= i < |sensors| => Sample(sensors[i], FAILSAFE, false))
  }

  /** A cache of valid sensors, which is all the daemon ever writes. */
  ghost predicate ValidFile(file: CacheFile) {
    file.Stored? ==>
      (file.cache.disks.Some? ==> ValidSensors(Disk, file.cache.disks.value))
      && (file.cache.hbas.Some? ==> ValidSensors(Hba, file.cache.hbas.value))
  }

  /** What was saved for a family passes validation when it is restored. */
  lemma CachedIsValid(f: Family, sensors: seq<Sensor>)
    ensures ValidSensors(f, sensors) <==> ValidSamples(f, SamplesFromCache(sensors))
  {
    hide ValidId, Labels.ValidLabel;
    assert Milli(100.0) == FAILSAFE_MILLI;
    var s := SamplesFromCache(sensors);
    assert forall i :: 0 <= i < |s| ==> s[i].sensor == sensors[i] && s[i].temperature == FAILSAFE;
    if ValidSamples(f, s) {
      forall i | 0 <= i < |sensors| ensures ValidId(f, sensors[i].id) && Labels.ValidLabel(sensors[i].text) {
        assert ValidSample(f, s[i]);
      }
      forall i, j | 0 <= i < j < |sensors| ensures sensors[i].id != sensors[j].id {
        assert s[i].sensor.id != s[j].sensor.id;
      }
    }
  }

  /** The families of a response that the publisher acts on, with their samples. */
  function SamplesFor(f: Family, state: Response): (s: Option<seq<Sample>>) {
    if f.Disk? then
      if state.diskError || state.disks.None? then None else Some(DiskSamples(state.disks.value))
    else
      if state.hbaError || state.hbas.None? then None else Some(HbaSamples(state.hbas.value))
  }

  /** Every reading a snapshot stores is allowed by the samples of its family. */
  ghost predicate SnapshotStores(before: seq<Store>, after: seq<Store>, disks: Option<seq<Sample>>,
    hbas: Option<seq<Sample>>) {
    before <= after
    && forall j :: |before| <= j < |after| ==>
      var samples := if after[j].entry.family.Disk? then disks else hbas;
      samples.Some? && Allowed(after[j], after[j].entry.family, samples.value)
  }

  /** A family with an authoritative inventory is published, another one is left alone. */
  ghost predicate FamilyStores(before: seq<Store>, after: seq<Store>, f: Family, samples: Option<seq<Sample>>) {
    if samples.Some? then StoresOf(before, after, f, samples.value) else after == before
  }

  /** Publishing the disks and then the HBAs. */
  lemma StoresOfBoth(a: seq<Store>, b: seq<Store>, c: seq<Store>, disks: Option<seq<Sample>>, hbas: Option<seq<Sample>>)
    requires FamilyStores(a, b, Disk, disks) && FamilyStores(b, c, Hba, hbas)
    ensures SnapshotStores(a, c, disks, hbas)
  {
    hide IsSampleStore;
    forall j | |a| <= j < |c|
      ensures var samples := if c[j].entry.family.Disk? then disks else hbas;
              samples.Some? && Allowed(c[j], c[j].entry.family, samples.value)
    {
      if j < |b| {
        assert c[j] == b[j];
      }
    }
  }

  /** A family's state depends only on its own sensors. */
  lemma FamilyFrame(k: Sensors, k': Sensors, f: Family, g: Family, sensors: seq<Sensor>)
    requires f != g && OtherFamilyUnchanged(k, k', g)
    ensures WithinTopology(k, f, sensors) ==> WithinTopology(k', f, sensors)
  {
    hide ValidId, Labels.Strim, SensorKey;
  }

  lemma ExactFrame(k: Sensors, k': Sensors, f: Family, g: Family, samples: seq<Sample>)
    requires f != g && OtherFamilyUnchanged(k, k', g) && ValidSamples(f, samples)
    ensures Exact(k, f, samples) ==> Exact(k', f, samples)
    ensures AllShown(k, f, samples) ==> AllShown(k', f, samples)
  {
    hide ValidId, Labels.Strim, SensorKey, Representable, MilliOf, Labels.ValidLabel;
    FamilyFrame(k, k', f, g, SensorsOf(samples));
    forall i | 0 <= i < |samples|
      ensures Live(k, f, samples[i].sensor) ==> Live(k', f, samples[i].sensor)
      ensures Shows(k, f, samples[i]) ==> Shows(k', f, samples[i])
    {
    }
  }

  lemma VanishKeepsTopology(k: Sensors, gone: set<Entry>, f: Family, sensors: seq<Sensor>)
    requires WithinTopology(k, f, sensors)
    ensures WithinTopology(k - gone, f, sensors)
  {
    hide ValidId, Labels.Strim, SensorKey;
  }

  /** Labels of the sensors an observer can find. */
  function Announcement(k: Sensors): (a: map<Entry, seq<byte>>) {
    map e | e in k :: k[e].text
  }

  ghost predicate AnnouncedAs(k: Sensors, announced: map<Entry, seq<byte>>, disks: bool, hbas: bool) {
    forall e :: e in k && (if e.family.Disk? then disks else hbas) ==> e in announced && announced[e] == k[e].text
  }

  /** The kernel and the topologies last applied to it. */
  datatype Configuration = Configuration(sensors: Sensors, disks: Option<seq<Sensor>>, hbas: Option<seq<Sensor>>)

  /** Sensors came, went or were relabelled, or a family has another applied topology. */
  ghost predicate Reconfigured(before: Configuration, after: Configuration) {
    !SameKernelTopology(before.sensors, after.sensors) || before.disks != after.disks || before.hbas != after.hbas
  }

  lemma StaysAnnounced(k: Sensors, k': Sensors, announced: map<Entry, seq<byte>>, disks: bool, hbas: bool)
    requires SameKernelTopology(k, k')
    ensures AnnouncedAs(k, announced, disks, hbas) ==> AnnouncedAs(k', announced, disks, hbas)
    ensures !disks && !hbas ==> AnnouncedAs(k', announced, disks, hbas)
  {
  }

  /** What saveCache writes for the two inventories. */
  function Saved(disks: Option<seq<Sensor>>, hbas: Option<seq<Sensor>>): Cache {
    Cache(disks, hbas)
  }

  /** A sensor without ID and label cannot be restored on any kernel. */
  lemma UnrestorableCache(k: Sensors)
    ensures !Publishable(k, Disk, SamplesFromCache([Sensor([], [])]))
  {
    var samples := SamplesFromCache([Sensor([], [])]);
    assert !ValidSample(Disk, samples[0]);
  }

  /** No directory has the ID of a sample under another name. */
  ghost predicate NoAliases(k: Sensors, samples: seq<Sample>) {
    forall i :: 0 <= i < |samples| ==> NoAlias(k, samples[i].sensor.id)
  }

  /** The family has an authoritative inventory, and the kernel is exactly that. */
  ghost predicate ExactIn(k: Sensors, f: Family, samples: Option<seq<Sample>>) {
    samples.Some? && ValidSamples(f, samples.value) && Exact(k, f, samples.value)
  }

  /** A publishable inventory of the family is made exact, whatever becomes of the other family. */
  ghost predicate Heals(k: Sensors, k': Sensors, f: Family, samples: Option<seq<Sample>>) {
    samples.Some? && Publishable(k, f, samples.value) ==> ExactIn(k', f, samples)
  }

  /** The family is exactly the samples; every refreshed sensor shows its reading, written at time t or later. */
  ghost predicate Published(k: Sensors, f: Family, samples: seq<Sample>, t: int) {
    ValidSamples(f, samples) && Exact(k, f, samples) && AllRounded(k, f, samples) && AllWritten(k, f, samples, t)
  }

  function OtherFamily(f: Family): Family {
    if f.Disk? then Hba else Disk
  }

  /** Nothing happens to the sensors of a family. */
  ghost predicate Untouched(w: World, w': World, f: Family) {
    OtherFamilyUnchanged(w.sensors, w'.sensors, OtherFamily(f))
    && w.stores <= w'.stores && forall j :: |w.stores| <= j < |w'.stores| ==> w'.stores[j].entry.family != f
  }

  /** The disks follow a snapshot that has an inventory of them without an error, and only such a one. */
  ghost predicate DisksFollow(w: World, w': World, faulty: set<Family>, state: Response) {
    if state.diskError || state.disks.None? then Untouched(w, w', Disk)
    else Disk !in faulty && Publishable(w.sensors, Disk, DiskSamples(state.disks.value)) ==>
      Published(w'.sensors, Disk, DiskSamples(state.disks.value), w.now)
  }

  /** The HBAs likewise, whatever the snapshot says of the disks. */
  ghost predicate HbasFollow(w: World, w': World, faulty: set<Family>, state: Response) {
    if state.hbaError || state.hbas.None? then Untouched(w, w', Hba)
    else Hba !in faulty && Publishable(w.sensors, Hba, HbaSamples(state.hbas.value)) ==>
      Published(w'.sensors, Hba, HbaSamples(state.hbas.value), w.now)
  }

  /** Publishing one family leaves the sensors of the other. */
  lemma OtherUntouched(w: World, w': World, f: Family, g: Family, samples: seq<Sample>)
    requires f != g && OtherFamilyUnchanged(w.sensors, w'.sensors, g) && StoresOf(w.stores, w'.stores, g, samples)
    ensures Untouched(w, w', f)
  {
    hide IsSampleStore;
  }

  /** Every sensor of a topology is live under its trimmed label and shows 100 °C. */
  ghost predicate AtFailsafe(k: Sensors, f: Family, sensors: seq<Sensor>) {
    forall i :: 0 <= i < |sensors| ==>
      ValidId(f, sensors[i].id) && EntryOf(f, sensors[i].id) in k
      && k[EntryOf(f, sensors[i].id)].temperature == 100000 && k[EntryOf(f, sensors[i].id)].registered
      && k[EntryOf(f, sensors[i].id)].text == Labels.Strim(sensors[i].text + [Labels.NEWLINE])
  }

  lemma CachedIsAtFailsafe(k: Sensors, f: Family, sensors: seq<Sensor>)
    requires AllShown(k, f, SamplesFromCache(sensors))
    ensures AtFailsafe(k, f, sensors)
  {
    hide ValidId, Labels.Strim, SensorKey, Labels.ValidLabel;
    assert Milli(100.0) == 100000;
    var samples := SamplesFromCache(sensors);
    forall i | 0 <= i < |sensors|
      ensures ValidId(f, sensors[i].id) && EntryOf(f, sensors[i].id) in k
      ensures k[EntryOf(f, sensors[i].id)].temperature == 100000 && k[EntryOf(f, sensors[i].id)].registered
      ensures k[EntryOf(f, sensors[i].id)].text == Labels.Strim(sensors[i].text + [Labels.NEWLINE])
    {
      assert Shows(k, f, samples[i]) && samples[i].sensor == sensors[i];
    }
  }

  lemma SelfUntouched(w: World)
    ensures Untouched(w, w, Disk) && Untouched(w, w, Hba)
  {
  }

  lemma PublishedLater(k: Sensors, f: Family, samples: seq<Sample>, t: int, u: int)
    requires t <= u && Published(k, f, samples, u)
    ensures Published(k, f, samples, t) && ValidSamples(f, samples) && Exact(k, f, samples)
  {
    hide ValidSamples, Exact, AllRounded;
    AllWrittenLater(k, f, samples, t, u);
  }

  lemma UntouchedTwice(w: World, w1: World, w2: World, f: Family)
    requires Untouched(w, w1, f) && Untouched(w1, w2, f)
    ensures Untouched(w, w2, f)
  {
    forall j | |w.stores| <= j < |w2.stores| ensures w2.stores[j].entry.family != f {
      if j < |w1.stores| {
        assert w2.stores[j] == w1.stores[j];
      }
    }
  }

  lemma StaysPublished(w: World, w': World, f: Family, samples: seq<Sample>, t: int)
    requires Untouched(w, w', f) && Published(w.sensors, f, samples, t)
    ensures Published(w'.sensors, f, samples, t)
  {
    hide ValidId, SensorKey, Labels.ValidLabel, Rounded;
    var g := if f.Disk? then Hba else Disk;
    assert OtherFamilyUnchanged(w.sensors, w'.sensors, g);
    ExactFrame(w.sensors, w'.sensors, f, g, samples);
    forall i | 0 <= i < |samples| && !samples[i].skipRefresh
      ensures WrittenSince(w'.sensors, f, samples[i], t)
      ensures Rounded(w'.sensors[SampleEntry(f, samples[i])].temperature, samples[i].temperature.celsius)
    {
      assert WrittenSince(w.sensors, f, samples[i], t);
    }
  }

  /** Both inventories are authoritative and publishable. */
  ghost predicate AllPublishable(k: Sensors, state: Response) {
    SamplesFor(Disk, state).Some? && Publishable(k, Disk, SamplesFor(Disk, state).value)
    && SamplesFor(Hba, state).Some? && Publishable(k, Hba, SamplesFor(Hba, state).value)
  }

  class Host {
    const kernel: Kernel
    const disks: Inventory
    const hbas: Inventory
    var file: CacheFile
    var cacheDirty: bool
    var seenGuestSnapshot: bool
    /** Whether writing the cache may fail. */
    var storageFaulty: bool
    /** A reconfiguration happened, or was restored, that no written event has followed. */
    ghost var unannounced: bool
    /** The topology at the last announcement, and whether a later one could not be written. */
    ghost var announced: map<Entry, seq<byte>>
    ghost var eventLost: bool
    /** Whether the daemon wrote the cache file, now or in an earlier life. */
    ghost var ownFile: bool

    ghost predicate Wired()
      reads kernel, disks, hbas
    {
      disks != hbas && kernel.Valid()
      && disks.Tracks(kernel.sensors, Disk) && hbas.Tracks(kernel.sensors, Hba)
    }

    /** reconciliationPending. */
    predicate Pending()
      reads disks, hbas
    {
      disks.needsReconcile || hbas.needsReconcile
    }

    predicate Initialized(f: Family)
      reads disks, hbas
    {
      if f.Disk? then disks.sensors.Some? else hbas.sensors.Some?
    }

    /** The durable file holds the topology of every initialized family, or a save is due. */
    ghost predicate CacheCurrent()
      reads this`cacheDirty, this`file, disks, hbas
    {
      cacheDirty || FileMatches(file)
    }

    ghost predicate FileMatches(file: CacheFile)
      reads disks, hbas
    {
      (disks.sensors.Some? ==> file.Stored? && file.cache.disks == disks.sensors)
      && (hbas.sensors.Some? ==> file.Stored? && file.cache.hbas == hbas.sensors)
    }

    /** Every sensor of an initialized family has been announced under its current label. */
    ghost predicate AllAnnounced()
      reads this`announced, kernel, disks, hbas
    {
      AnnouncedAs(kernel.sensors, announced, disks.sensors.Some?, hbas.sensors.Some?)
    }

    ghost predicate NothingUnannounced()
      reads this, kernel, disks, hbas
    {
      (seenGuestSnapshot && !eventLost && !Pending() ==> AllAnnounced())
      && (unannounced && !eventLost ==>
            Pending() || (!seenGuestSnapshot && (Initialized(Disk) || Initialized(Hba))))
    }

    ghost predicate Valid()
      reads this, kernel, disks, hbas
    {
      Wired() && CacheCurrent() && NothingUnannounced() && (ownFile ==> ValidFile(file))
    }

    /** A daemon starting on a kernel and a cache file left by anybody. */
    constructor (kernel: Kernel, file: CacheFile, storageFaulty: bool, ghost ownFile: bool)
      requires kernel.Valid() && (ownFile ==> ValidFile(file))
      ensures Valid() && fresh(disks) && fresh(hbas) && this.kernel == kernel && this.file == file
          && this.ownFile == ownFile
      ensures disks.sensors.None? && hbas.sensors.None? && !Pending() && !cacheDirty && !seenGuestSnapshot
      ensures !unannounced && this.storageFaulty == storageFaulty
    {
      this.kernel, this.file, this.ownFile := kernel, file, ownFile;
      var d := new Inventory();
      var h := new Inventory();
      disks, hbas := d, h;
      cacheDirty, seenGuestSnapshot := false, false;
      this.storageFaulty := storageFaulty;
      announced, eventLost, unannounced := map[], false, false;
    }

    /** saveCache: the file is replaced as a whole or not at all; success means it was replaced. */
    method SaveCache() returns (ok: bool)
      requires Wired()
      modifies this`file, this`ownFile
      ensures ok ==> file == Stored(Saved(disks.sensors, hbas.sensors))
      ensures !storageFaulty ==> ok
      ensures (file == old(file) && ownFile == old(ownFile))
              || (file == Stored(Saved(disks.sensors, hbas.sensors)) && FileMatches(file) && ownFile && ValidFile(file))
    {
      var cache := Saved(disks.sensors, hbas.sensors);
      var fault: bool := *;
      fault := fault && storageFaulty;
      if fault {
        return false;
      }
      file, ownFile := Stored(cache), true;
      fault := *;
      ok := !(fault && storageFaulty);
    }

    /** One family of publish and of restore. */
    method PublishTo(f: Family, samples: seq<Sample>) returns (changed: bool, err: Option<PublishError>)
      requires Wired()
      modifies kernel`sensors, kernel`now, kernel`stores, disks, hbas
      ensures Wired() && kernel.now >= old(kernel.now) && OtherFamilyUnchanged(old(kernel.sensors), kernel.sensors, f)
      ensures f.Disk? ==> unchanged(hbas)
      ensures f.Hba? ==> unchanged(disks)
      ensures StoresOf(old(kernel.stores), kernel.stores, f, samples)
      ensures err.None? ==> ValidSamples(f, samples) && Exact(kernel.sensors, f, samples)
      ensures err.None? ==> Published(kernel.sensors, f, samples, old(kernel.now))
      ensures Untouched(old(kernel.View()), kernel.View(), OtherFamily(f))
      ensures changed ==> err.None? && AllShown(kernel.sensors, f, samples)
      ensures var i := if f.Disk? then disks else hbas;
              (err.None? ==> i.sensors.Some? && !i.needsReconcile)
              && (changed ==> i.sensors == Some(SensorsOf(samples)))
              && (!changed ==> i.sensors == old(i.sensors))
              && (old(i.needsReconcile) && !i.needsReconcile ==> changed)
              && (!changed && !i.needsReconcile ==> SameKernelTopology(old(kernel.sensors), kernel.sensors))
      ensures err.None? && !changed ==> old(Initialized(f))
      ensures err.None? ==> Publishable(old(kernel.sensors), f, samples)
      ensures f !in kernel.faulty && Publishable(old(kernel.sensors), f, samples) ==> err.None?
    {
      hide WithinTopology, WellFormed, Explained, StoresOf, ValidSensors, ValidId, Exact, ValidSamples, AllShown,
        UpdatesOnly, AllRounded, AllWritten, InitializedFirst;
      ghost var k, w := kernel.sensors, kernel.View();
      if f.Disk? {
        changed, err := PublishFamily(kernel, disks, Disk, samples);
        if hbas.sensors.Some? && !hbas.needsReconcile {
          FamilyFrame(k, kernel.sensors, Hba, Disk, hbas.sensors.value);
        }
      } else {
        changed, err := PublishFamily(kernel, hbas, Hba, samples);
        if disks.sensors.Some? && !disks.needsReconcile {
          FamilyFrame(k, kernel.sensors, Disk, Hba, disks.sensors.value);
        }
      }
      OtherUntouched(w, kernel.View(), OtherFamily(f), f, samples);
    }

    /** The first half of publish: each family with an authoritative inventory. */
    method PublishFamilies(state: Response) returns (changed: bool, failed: bool)
      requires Wired()
      modifies kernel`sensors, kernel`now, kernel`stores, disks, hbas
      ensures Wired() && kernel.now >= old(kernel.now)
      ensures SnapshotStores(old(kernel.stores), kernel.stores, SamplesFor(Disk, state), SamplesFor(Hba, state))
      ensures !changed && !Pending() ==>
                !old(Pending()) && SameKernelTopology(old(kernel.sensors), kernel.sensors)
      ensures !changed ==> disks.sensors == old(disks.sensors) && hbas.sensors == old(hbas.sensors)
      ensures !failed ==>
                !Pending() && ExactIn(kernel.sensors, Disk, SamplesFor(Disk, state))
                && ExactIn(kernel.sensors, Hba, SamplesFor(Hba, state))
      // Each family follows its own part of the snapshot, and heals on its own.
      ensures DisksFollow(old(kernel.View()), kernel.View(), kernel.faulty, state)
      ensures HbasFollow(old(kernel.View()), kernel.View(), kernel.faulty, state)
      ensures forall f :: f !in kernel.faulty ==>
                Heals(old(kernel.sensors), kernel.sensors, f, SamplesFor(f, state))
      ensures !failed ==> AllPublishable(old(kernel.sensors), state)
      ensures kernel.faulty == {} && AllPublishable(old(kernel.sensors), state) ==> !failed
      ensures changed ==> Initialized(Disk) || Initialized(Hba)
    {
      hide Published, Untouched, Publishable, DiskSamples, HbaSamples, WithinTopology, WellFormed, ValidSensors,
        Exact, ValidSamples, AllShown, StoresOf, SnapshotStores, OtherFamilyUnchanged, Explained;
      var diskSamples, hbaSamples := MakeSamples(state);
      var disksChanged, hbasChanged, diskFailed, hbaFailed := false, false, true, true;
      ghost var w0 := kernel.View();
      SelfUntouched(w0);
      if !state.diskError && state.disks.Some? {
        var err: Option<PublishError>;
        disksChanged, err := PublishTo(Disk, diskSamples);
        diskFailed := err.Some?;
      }
      ghost var w1 := kernel.View();
      SelfUntouched(w1);
      HbasAsBefore(w0, w1, hbaSamples);
      if !state.hbaError && state.hbas.Some? {
        var err: Option<PublishError>;
        hbasChanged, err := PublishTo(Hba, hbaSamples);
        hbaFailed := err.Some?;
        if !hbaFailed {
          PublishedLater(kernel.sensors, Hba, hbaSamples, w0.now, w1.now);
        }
      }
      StoresOfBoth(w0.stores, w1.stores, kernel.stores, SamplesFor(Disk, state), SamplesFor(Hba, state));
      if !diskFailed {
        StaysPublished(w1, kernel.View(), Disk, diskSamples, w0.now);
        PublishedLater(kernel.sensors, Disk, diskSamples, w0.now, w0.now);
      }
      if state.diskError || state.disks.None? {
        UntouchedTwice(w0, w1, kernel.View(), Disk);
      }
      if state.hbaError || state.hbas.None? {
        UntouchedTwice(w0, w1, kernel.View(), Hba);
      }
      changed, failed := disksChanged || hbasChanged, diskFailed || hbaFailed;
    }

    /** publish: both families, then the cache. */
    method Publish(state: Response) returns (reconfigured: bool, failed: bool, ghost rebuilt: bool)
      requires Wired() && CacheCurrent() && (ownFile ==> ValidFile(file))
      modifies this`file, this`ownFile, this`cacheDirty, kernel`sensors, kernel`now, kernel`stores, disks, hbas
      ensures Wired() && CacheCurrent() && (ownFile ==> ValidFile(file)) && kernel.now >= old(kernel.now)
      ensures SnapshotStores(old(kernel.stores), kernel.stores, SamplesFor(Disk, state), SamplesFor(Hba, state))
      // A rebuild is reported at once unless another one is pending.
      ensures reconfigured <==> rebuilt && !Pending()
      ensures rebuilt ==> Initialized(Disk) || Initialized(Hba)
      ensures !rebuilt && !Pending() ==>
                !old(Pending()) && SameKernelTopology(old(kernel.sensors), kernel.sensors)
                && disks.sensors == old(disks.sensors) && hbas.sensors == old(hbas.sensors)
      ensures !rebuilt ==> disks.sensors == old(disks.sensors) && hbas.sensors == old(hbas.sensors)
      ensures !failed ==>
                !Pending() && !cacheDirty && ExactIn(kernel.sensors, Disk, SamplesFor(Disk, state))
                && ExactIn(kernel.sensors, Hba, SamplesFor(Hba, state))
      // Each family follows its own part of the snapshot, whatever becomes of the other and of the cache.
      ensures DisksFollow(old(kernel.View()), kernel.View(), kernel.faulty, state)
      ensures HbasFollow(old(kernel.View()), kernel.View(), kernel.faulty, state)
      ensures forall f :: f !in kernel.faulty ==>
                Heals(old(kernel.sensors), kernel.sensors, f, SamplesFor(f, state))
      // Without faults exactly publishable snapshots succeed.
      ensures !failed ==> AllPublishable(old(kernel.sensors), state)
      ensures kernel.faulty == {} && !storageFaulty && AllPublishable(old(kernel.sensors), state) ==> !failed
    {
      hide AllPublishable, Heals, DisksFollow, HbasFollow, SnapshotStores, Explained, WithinTopology, WellFormed,
        ValidSensors, ValidFile,
        ExactIn, SameKernelTopology;
      var topologyChanged: bool;
      topologyChanged, failed := PublishFamilies(state);
      rebuilt := topologyChanged;
      if topologyChanged {
        cacheDirty := true;
      }
      reconfigured := topologyChanged && !Pending();
      if cacheDirty {
        var saved := SaveCache();
        if !saved {
          return reconfigured, true, rebuilt;
        }
        cacheDirty := false;
      }
    }

    ghost predicate ExactFamily(f: Family, samples: seq<Sample>)
      reads kernel
    {
      ValidSamples(f, samples) && Exact(kernel.sensors, f, samples)
    }

    /** shouldNotifyTopologyChanged and notifyTopologyChanged. */
    method Announce(reconfigured: bool, first: bool, eventWritten: bool) returns (announcing: bool)
      modifies this`announced, this`eventLost, this`unannounced
      ensures announcing <==> !Pending() && (reconfigured || (first && (disks.sensors.Some? || hbas.sensors.Some?)))
      ensures announcing && eventWritten ==> AllAnnounced() && !eventLost && !unannounced
      ensures announcing && !eventWritten ==> eventLost && unannounced == old(unannounced)
      ensures !announcing ==>
            announced == old(announced) && eventLost == old(eventLost) && unannounced == old(unannounced)
    {
      var initialized := disks.sensors.Some? || hbas.sensors.Some?;
      announcing := !Pending() && (reconfigured || (first && initialized));
      if announcing {
        if eventWritten {
          announced, eventLost, unannounced := Announcement(kernel.sensors), false, false;
        } else {
          eventLost := true;
        }
      }
    }

    ghost function Applied(): Configuration
      reads kernel, disks, hbas
    {
      Configuration(kernel.sensors, disks.sensors, hbas.sensors)
    }

    /** One iteration of hwmonOrchestrationLoop for a received snapshot. */
    method OnSnapshot(state: Response, expired: bool, eventWritten: bool) returns (announcing: bool, failed: bool)
      requires Valid()
      modifies this, kernel`sensors, kernel`now, kernel`stores, disks, hbas
      ensures Valid() && kernel.now >= old(kernel.now)
      ensures expired ==> !announcing && kernel.sensors == old(kernel.sensors) && kernel.stores == old(kernel.stores)
      ensures expired ==> seenGuestSnapshot == old(seenGuestSnapshot)
      ensures !expired ==> seenGuestSnapshot
      ensures !expired ==>
                SnapshotStores(old(kernel.stores), kernel.stores, SamplesFor(Disk, state), SamplesFor(Hba, state))
      // Each family follows its own part of the snapshot; success means that both are exact.
      ensures !expired ==> DisksFollow(old(kernel.View()), kernel.View(), kernel.faulty, state)
      ensures !expired ==> HbasFollow(old(kernel.View()), kernel.View(), kernel.faulty, state)
      ensures !expired ==>
                forall f :: f !in kernel.faulty ==>
                  Heals(old(kernel.sensors), kernel.sensors, f, SamplesFor(f, state))
      ensures !failed ==>
                !expired && ExactIn(kernel.sensors, Disk, SamplesFor(Disk, state))
                && ExactIn(kernel.sensors, Hba, SamplesFor(Hba, state))
      // Never while a family is to be rebuilt; and then everything is announced.
      ensures announcing ==> !Pending() && (eventWritten ==> AllAnnounced() && !eventLost && !unannounced)
      ensures old(!eventLost) && (announcing ==> eventWritten) ==> !eventLost
      ensures !expired && !Pending() && Reconfigured(old(Applied()), Applied()) ==> announcing
      // Every reconfiguration, by this snapshot or not yet announced before it, is announced now
      // or remains marked; and it remains so only by a pending rebuild or a lost event.
      ensures !expired && (old(unannounced) || Reconfigured(old(Applied()), Applied())) ==>
                unannounced || (announcing && eventWritten)
      ensures !expired && unannounced && !eventLost ==> Pending()
      ensures !expired && !Pending() && !eventLost ==> AllAnnounced()
    {
      hide SnapshotStores, Explained, WithinTopology, WellFormed, ValidSensors, ValidFile, CacheCurrent, Wired,
        ExactIn, AnnouncedAs, SamplesFor, AllPublishable, Heals, DisksFollow, HbasFollow;
      if expired {
        return false, true;
      }
      ghost var k := kernel.sensors;
      var reconfigured: bool;
      ghost var rebuilt: bool;
      ghost var before := Applied();
      reconfigured, failed, rebuilt := Publish(state);
      unannounced := unannounced || rebuilt || Reconfigured(before, Applied());
      if !rebuilt && !Pending() {
        StaysAnnounced(k, kernel.sensors, announced, disks.sensors.Some?, hbas.sensors.Some?);
      }
      var first := !seenGuestSnapshot;
      seenGuestSnapshot := true;
      announcing := Announce(reconfigured, first, eventWritten);
      failed := failed || (announcing && !eventWritten);
    }

    /** One family of restore. */
    method RestoreFamily(f: Family) returns (ok: bool)
      requires Wired() && !Initialized(f) && file.Stored?
      modifies kernel`sensors, kernel`now, kernel`stores, disks, hbas
      ensures Wired() && kernel.now >= old(kernel.now) && OtherFamilyUnchanged(old(kernel.sensors), kernel.sensors, f)
      ensures if f.Disk? then unchanged(hbas) else unchanged(disks)
      ensures FamilyStores(old(kernel.stores), kernel.stores, f, CachedSamples(f))
      ensures RestoredOrNot(f) && RestoresIf(f, old(kernel.sensors))
      ensures ok <==> (CachedSamples(f).Some? ==> Initialized(f))
      ensures !SameKernelTopology(old(kernel.sensors), kernel.sensors) ==>
                Initialized(f) || (if f.Disk? then disks else hbas).needsReconcile
      ensures old((if f.Disk? then disks else hbas).needsReconcile) ==>
                Initialized(f) || (if f.Disk? then disks else hbas).needsReconcile
    {
      hide Publishable, WithinTopology, WellFormed, Explained, StoresOf, ValidSensors, ValidSamples, Exact, AllShown,
        AtFailsafe;
      ok := true;
      assert OtherFamilyUnchanged(kernel.sensors, kernel.sensors, f) by {
        NothingDone(kernel.sensors, kernel.stores, f, []);
      }
      if CachedSamples(f).Some? {
        var _, err := PublishTo(f, CachedSamples(f).value);
        ok := err.None?;
        if Initialized(f) {
          CachedIsAtFailsafe(kernel.sensors, f, (if f.Disk? then file.cache.disks else file.cache.hbas).value);
        }
      }
    }

    /** restore: every cached family on its own. */
    method Restore() returns (ok: bool)
      requires Valid() && !seenGuestSnapshot && !cacheDirty && disks.sensors.None? && hbas.sensors.None?
      modifies this`unannounced, kernel`sensors, kernel`now, kernel`stores, disks, hbas
      ensures Valid() && kernel.now >= old(kernel.now)
      ensures RestoredOrNot(Disk) && RestoredOrNot(Hba)
      // Each family is restored on its own: without its faults exactly when it is publishable.
      ensures RestoresIf(Disk, old(kernel.sensors)) && RestoresIf(Hba, old(kernel.sensors))
      ensures ok <==> !file.Unreadable?
                      && (CachedSamples(Disk).Some? ==> Initialized(Disk))
                      && (CachedSamples(Hba).Some? ==> Initialized(Hba))
      ensures SnapshotStores(old(kernel.stores), kernel.stores, CachedSamples(Disk), CachedSamples(Hba))
      ensures Reconfigured(old(Applied()), Applied()) ==> unannounced
      ensures forall f :: f !in kernel.faulty ==> Heals(old(kernel.sensors), kernel.sensors, f, CachedSamples(f))
    {
      hide Publishable, WithinTopology, WellFormed, Explained, FamilyStores, SnapshotStores, ValidSensors,
        ValidSamples, Exact, AllShown, ValidFile, OtherFamilyUnchanged, SameKernelTopology, AtFailsafe;
      ghost var k0, stores0 := kernel.sensors, kernel.stores;
      if !file.Stored? {
        NothingRestored(stores0);
        assert SameKernelTopology(k0, k0) by { SameAsItself(k0); }
        return file.Missing?;
      }
      var disksOk := RestoreFamily(Disk);
      ghost var k1, stores1 := kernel.sensors, kernel.stores;
      var hbasOk := RestoreFamily(Hba);
      ok := disksOk && hbasOk;
      StoresOfBoth(stores0, stores1, kernel.stores, CachedSamples(Disk), CachedSamples(Hba));
      unannounced := unannounced || Reconfigured(Configuration(k0, None, None), Applied());
      if CachedSamples(Hba).Some? {
        SamePublishable(k0, k1, Hba, Disk, CachedSamples(Hba).value);
      }
      if disks.sensors.Some? {
        ExactFrame(k1, kernel.sensors, Disk, Hba, CachedSamples(Disk).value);
        CachedIsAtFailsafe(kernel.sensors, Disk, file.cache.disks.value);
      }
      if !Initialized(Disk) && !Initialized(Hba) && !Pending() {
        SameTwice(k0, k1, kernel.sensors);
      }
    }

    /** The samples a restart makes of the cached family. */
    function CachedSamples(f: Family): Option<seq<Sample>>
      reads this`file
    {
      if !file.Stored? then None
      else
        var sensors := if f.Disk? then file.cache.disks else file.cache.hbas;
        if sensors.None? then None else Some(SamplesFromCache(sensors.value))
    }

    /** The cache has the family, and the kernel can take it. */
    ghost predicate Restorable(f: Family, k: Sensors)
      reads this`file
    {
      CachedSamples(f).Some? && Publishable(k, f, CachedSamples(f).value)
    }

    ghost predicate RestoresIf(f: Family, before: Sensors)
      reads this`file, kernel`faulty, disks, hbas
    {
      (Initialized(f) ==> Restorable(f, before)) && (f !in kernel.faulty && Restorable(f, before) ==> Initialized(f))
    }

    /** An initialized family is exactly the cached one, with every reading at the failsafe. */
    ghost predicate RestoredOrNot(f: Family)
      reads this, kernel, disks, hbas
    {
      var sensors := if f.Disk? then disks.sensors else hbas.sensors;
      sensors.Some? ==>
        CachedSamples(f).Some? && sensors.value == SensorsOf(CachedSamples(f).value)
        && ExactFamily(f, CachedSamples(f).value) && AllShown(kernel.sensors, f, CachedSamples(f).value)
        && AtFailsafe(kernel.sensors, f, sensors.value)
    }

    /** Sensors vanish between iterations. */
    method Vanish(gone: set<Entry>)
      requires Valid()
      modifies kernel`sensors
      ensures Valid() && kernel.sensors == old(kernel.sensors) - gone
    {
      hide WithinTopology, WellFormed, ValidSensors, ValidFile;
      ghost var k := kernel.sensors;
      kernel.Vanish(gone);
      if disks.sensors.Some? && !disks.needsReconcile {
        VanishKeepsTopology(k, gone, Disk, disks.sensors.value);
      }
      if hbas.sensors.Some? && !hbas.needsReconcile {
        VanishKeepsTopology(k, gone, Hba, hbas.sensors.value);
      }
    }
  }

  lemma NothingRestored(stores: seq<Store>)
    ensures SnapshotStores(stores, stores, None, None)
  {
    StoresOfBoth(stores, stores, stores, None, None);
  }

  lemma SameAsItself(k: Sensors)
    ensures SameKernelTopology(k, k)
  {
  }

  lemma SameTwice(k: Sensors, k1: Sensors, k2: Sensors)
    requires SameKernelTopology(k, k1) && SameKernelTopology(k1, k2)
    ensures SameKernelTopology(k, k2)
  {
  }

  /**
   A restart followed by a save: without faults the new file has a family if and only if the
   cached one could be published, so a family that could not is lost.
   */
  method RestartAndSave(host: Host) returns (restored: bool, saved: bool)
    requires host.Valid() && !host.seenGuestSnapshot && !host.cacheDirty
    requires host.disks.sensors.None? && host.hbas.sensors.None?
    modifies host, host.kernel`sensors, host.kernel`now, host.kernel`stores, host.disks, host.hbas
    ensures !host.storageFaulty ==> saved
    ensures saved ==> host.file.Stored?
    ensures saved && Disk !in host.kernel.faulty ==>
              (host.file.cache.disks.Some? <==> old(host.Restorable(Disk, host.kernel.sensors)))
    ensures saved && Hba !in host.kernel.faulty ==>
              (host.file.cache.hbas.Some? <==> old(host.Restorable(Hba, host.kernel.sensors)))
    ensures saved && host.file.cache.disks.Some? ==>
              old(host.file.Stored?) && host.file.cache.disks == old(host.file).cache.disks
    ensures saved && host.file.cache.hbas.Some? ==>
              old(host.file.Stored?) && host.file.cache.hbas == old(host.file).cache.hbas
  {
    hide Publishable, WithinTopology, WellFormed, ValidSensors, ValidSamples, Exact, AllShown;
    restored := host.Restore();
    assert host.RestoresIf(Disk, old(host.kernel.sensors)) && host.RestoresIf(Hba, old(host.kernel.sensors));
    saved := host.SaveCache();
  }

  /** Whether a family can be published depends only on its own directories. */
  lemma PublishableFrame(k: Sensors, k': Sensors, f: Family, g: Family, samples: seq<Sample>)
    requires f != g && OtherFamilyUnchanged(k, k', g) && Publishable(k, f, samples)
    ensures Publishable(k', f, samples)
  {
    hide DecodeSensorId, ValidId, Labels.AcceptedByKernel, SensorKey, Canonical, Labels.ValidLabel, Representable;
    forall i, e | 0 <= i < |samples| && e in k' && Named(e) && IdOf(e) == samples[i].sensor.id ensures Canonical(e) {
      assert ValidSample(f, samples[i]) && Installable(k, samples[i].sensor);
      PathFindsId(e, f, samples[i].sensor.id);
      assert e in k;
    }
    forall i | 0 <= i < |samples| ensures Installable(k', samples[i].sensor) {
      assert Installable(k, samples[i].sensor);
    }
  }

  lemma SamePublishable(k: Sensors, k': Sensors, f: Family, g: Family, samples: seq<Sample>)
    requires f != g && OtherFamilyUnchanged(k, k', g)
    ensures Publishable(k, f, samples) <==> Publishable(k', f, samples)
  {
    hide Publishable, OtherFamilyUnchanged;
    UnchangedBack(k, k', g);
    if Publishable(k, f, samples) {
      PublishableFrame(k, k', f, g, samples);
    }
    if Publishable(k', f, samples) {
      PublishableFrame(k', k, f, g, samples);
    }
  }

  lemma UnchangedBack(k: Sensors, k': Sensors, g: Family)
    requires OtherFamilyUnchanged(k, k', g)
    ensures OtherFamilyUnchanged(k', k, g)
  {
  }

  /** What the HBAs need is not changed by publishing the disks. */
  lemma HbasAsBefore(w: World, w': World, samples: seq<Sample>)
    requires Untouched(w, w', Hba)
    ensures Publishable(w.sensors, Hba, samples) <==> Publishable(w'.sensors, Hba, samples)
  {
    hide Publishable;
    assert OtherFamilyUnchanged(w.sensors, w'.sensors, Disk);
    SamePublishable(w.sensors, w'.sensors, Hba, Disk, samples);
  }

  /** Samples made of a disk inventory carry labels the kernel accepts: only the inventory and aliases matter. */
  lemma DisksArePublishable(k: Sensors, disks: seq<DiskReading>)
    ensures Publishable(k, Disk, DiskSamples(disks)) <==>
            Acceptance.Acceptable(disks) && NoAliases(k, DiskSamples(disks))
  {
    hide Acceptance.Acceptable, ValidSamples, DiskSamples, NoAlias, Labels.AcceptedByKernel;
    Acceptance.PipelineAccepts(disks);
    Acceptance.DiskLabelsAccepted(disks);
  }

  lemma HbasArePublishable(k: Sensors, hbas: seq<HbaReading>)
    ensures Publishable(k, Hba, HbaSamples(hbas)) <==>
            Acceptance.AcceptableHbas(hbas) && NoAliases(k, HbaSamples(hbas))
  {
    hide Acceptance.AcceptableHbas, ValidSamples, HbaSamples, NoAlias, Labels.AcceptedByKernel;
    Acceptance.HbaPipelineAccepts(hbas);
    Acceptance.HbaLabelsAccepted(hbas);
  }
}
