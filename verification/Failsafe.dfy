/**
 The end-to-end failsafe over whole runs of a host: snapshots, restarts, vanishing sensors
 and waiting, in any order and with any failures inside them.
 */
module Failsafe {
  import opened Common
  import opened SensorId
  import opened Topology
  import opened VirtTempKernel
  import opened FamilyPublisher
  import opened HwmonHost
  import Acceptance
  import VirtTempSensor

  ghost predicate ValidWorld(w: World) {
    WellFormed(w.sensors, w.now) && Explained(w.sensors, w.stores, w.now)
  }

  datatype Event =
    | Snapshot(state: Response)
    | Restart(disks: Option<seq<Sensor>>, hbas: Option<seq<Sensor>>)
    | Vanish(gone: set<Entry>)
    | Wait

  function Cached(sensors: Option<seq<Sensor>>): Option<seq<Sample>> {
    if sensors.None? then None else Some(SamplesFromCache(sensors.value))
  }

  /** What an event publishes of a family. */
  function SamplesOf(e: Event, f: Family): (s: Option<seq<Sample>>) {
    match e
    case Snapshot(state) => SamplesFor(f, state)
    case Restart(disks, hbas) => Cached(if f.Disk? then disks else hbas)
    case _ => None
  }

  /** What Host.OnSnapshot, Host.Restore, Host.Vanish and the passing of time may do. */
  ghost predicate Step(w: World, e: Event, w': World) {
    w.now <= w'.now && ValidWorld(w')
    && match e
       case Vanish(gone) => w'.sensors == w.sensors - gone && w'.stores == w.stores
       case Wait => w'.sensors == w.sensors && w'.stores == w.stores
       case _ => SnapshotStores(w.stores, w'.stores, SamplesOf(e, Disk), SamplesOf(e, Hba))
  }

  ghost predicate IsRun(worlds: seq<World>, events: seq<Event>) {
    |worlds| == |events| + 1 && ValidWorld(worlds[0])
    && forall i :: 0 <= i < |events| ==> Step(worlds[i], events[i], worlds[i + 1])
  }

  /**
   The disks of the snapshot are not published, or it reports the sensor of an ID as unavailable
   or not at all: every disk with the ID is unavailable, and a group with the ID has an
   unavailable member.
   */
  ghost predicate QuietDisks(state: Response, id: seq<byte>) {
    !state.diskError && state.disks.Some? ==>
      (forall i :: 0 <= i < |state.disks.value| && DiskId(state.disks.value[i]) == id ==>
            state.disks.value[i].unavailable)
      && (forall kind :: kind in GROUP_KINDS && TwoOf(state.disks.value, kind) && GroupSensor(kind).id == id ==>
            OneUnavailable(state.disks.value, kind))
  }

  /** The HBAs of the snapshot are not published, or none of them has a sensor of the ID. */
  ghost predicate QuietHbas(state: Response, id: seq<byte>) {
    !state.hbaError && state.hbas.Some? ==>
      forall i :: 0 <= i < |state.hbas.value| ==>
        var h := state.hbas.value[i];
        !(Acceptance.HasMain(h) && Acceptance.MainId(h) == id)
        && !(h.boardTemp.Some? && Acceptance.BoardId(h) == id)
  }

  ghost predicate Quiet(state: Response, f: Family, id: seq<byte>) {
    if f.Disk? then QuietDisks(state, id) else QuietHbas(state, id)
  }

  /** Samples that can only show the failsafe for an ID. */
  ghost predicate OnlyFailsafe(samples: seq<Sample>, id: seq<byte>) {
    forall i :: 0 <= i < |samples| && samples[i].sensor.id == id ==> samples[i].temperature == FAILSAFE
  }

  lemma QuietGroup(disks: seq<DiskReading>, id: seq<byte>, s: Sample)
    requires forall kind :: kind in GROUP_KINDS && TwoOf(disks, kind) && GroupSensor(kind).id == id ==>
               OneUnavailable(disks, kind)
    requires s in GroupSamples(disks, GROUP_KINDS) && s.sensor.id == id
    ensures s.temperature == FAILSAFE
  {
    hide GroupSamples, GroupSensor, OneUnavailable, TwoOf;
    GroupsOf(disks, GROUP_KINDS);
    var kind :| kind in GROUP_KINDS && GroupShows(disks, kind, s);
  }

  lemma QuietSingle(disks: seq<DiskReading>, id: seq<byte>, i: nat)
    requires i < |disks| && (DiskId(disks[i]) == id ==> disks[i].unavailable)
    ensures SingleSamples(disks)[i].sensor.id == id ==> SingleSamples(disks)[i].temperature == FAILSAFE
  {
    SingleAt(disks, i);
    Acceptance.DiskSampleValid(disks[i]);
  }

  lemma QuietDiskSamples(state: Response, id: seq<byte>)
    requires QuietDisks(state, id) && !state.diskError && state.disks.Some?
    ensures OnlyFailsafe(DiskSamples(state.disks.value), id)
  {
    hide GroupSamples, SingleSamples, OneUnavailable, TwoOf, GroupSensor;
    var disks := state.disks.value;
    var g, s := GroupSamples(disks, GROUP_KINDS), SingleSamples(disks);
    var all := g + s;
    forall i | 0 <= i < |all| && all[i].sensor.id == id ensures all[i].temperature == FAILSAFE {
      if i < |g| {
        assert g[i] in g;
        QuietGroup(disks, id, g[i]);
      } else {
        QuietSingle(disks, id, i - |g|);
      }
    }
  }

  lemma QuietHbaSamples(state: Response, id: seq<byte>)
    requires QuietHbas(state, id) && !state.hbaError && state.hbas.Some?
    ensures OnlyFailsafe(HbaSamples(state.hbas.value), id)
  {
    hide HbaSamples, SamplesOfHba, Acceptance.HasMain, Acceptance.MainId, Acceptance.BoardId;
    var hbas, other := state.hbas.value, (s: Sample) => s.sensor.id != id;
    forall i | 0 <= i < |hbas| ensures Acceptance.All(SamplesOfHba(hbas[i]), other) {
      Acceptance.SamplesOfOne(hbas[i]);
      var one := SamplesOfHba(hbas[i]);
      assert !Acceptance.HasSample(one, id);
    }
    Acceptance.AllOfHbas(hbas, other);
    assert forall i :: 0 <= i < |HbaSamples(hbas)| ==> other(HbaSamples(hbas)[i]);
  }

  /** The samples of a quiet snapshot can only show the failsafe for the ID. */
  lemma QuietSamples(state: Response, f: Family, id: seq<byte>)
    requires Quiet(state, f, id) && SamplesFor(f, state).Some?
    ensures OnlyFailsafe(SamplesFor(f, state).value, id)
  {
    hide DiskSamples, HbaSamples, QuietDisks, QuietHbas, OnlyFailsafe;
    if f.Disk? {
      QuietDiskSamples(state, id);
    } else {
      QuietHbaSamples(state, id);
    }
  }

  /** Whatever was stored for the ID after time t is the failsafe. */
  ghost predicate SafeSince(stores: seq<Store>, id: seq<byte>, t: int) {
    forall s :: s in stores && Named(s.entry) && IdOf(s.entry) == id ==> s.value == FAILSAFE_MILLI || s.at <= t
  }

  lemma AllowedIsFailsafe(s: Store, f: Family, samples: seq<Sample>, id: seq<byte>)
    requires Allowed(s, f, samples) && OnlyFailsafe(samples, id) && Named(s.entry) && IdOf(s.entry) == id
    ensures s.value == FAILSAFE_MILLI
  {
    hide DecodeSensorId;
    assert Milli(100.0) == FAILSAFE_MILLI;
  }

  lemma StoresKeepSafe(before: seq<Store>, after: seq<Store>, disks: Option<seq<Sample>>, hbas: Option<seq<Sample>>,
    f: Family, id: seq<byte>, t: int)
    requires ValidId(f, id) && SafeSince(before, id, t) && SnapshotStores(before, after, disks, hbas)
    requires var samples := if f.Disk? then disks else hbas;
             samples.Some? ==> OnlyFailsafe(samples.value, id)
    ensures SafeSince(after, id, t)
  {
    hide ValidId, DecodeSensorId, Allowed, OnlyFailsafe;
    forall s | s in after && Named(s.entry) && IdOf(s.entry) == id ensures s.value == FAILSAFE_MILLI || s.at <= t {
      var j :| 0 <= j < |after| && after[j] == s;
      PathFindsId(s.entry, f, id);
      if j < |before| {
        assert before[j] == s;
      } else {
        AllowedIsFailsafe(s, f, (if f.Disk? then disks else hbas).value, id);
      }
    }
  }

  lemma StepKeepsSafe(w: World, e: Event, w': World, f: Family, id: seq<byte>, t: int)
    requires ValidId(f, id) && SafeSince(w.stores, id, t) && Step(w, e, w')
    requires e.Snapshot? && w'.now > t ==> Quiet(e.state, f, id)
    ensures SafeSince(w'.stores, id, t)
  {
    hide ValidId, DecodeSensorId, SnapshotStores, SamplesFor, WellFormed, LastStore, Quiet, OnlyFailsafe;
    if w'.now > t && (e.Snapshot? || e.Restart?) {
      if SamplesOf(e, f).Some? {
        if e.Snapshot? {
          QuietSamples(e.state, f, id);
        } else {
          CachedIsFailsafe(if f.Disk? then e.disks else e.hbas, id);
        }
      }
      StoresKeepSafe(w.stores, w'.stores, SamplesOf(e, Disk), SamplesOf(e, Hba), f, id, t);
    }
  }

  lemma CachedIsFailsafe(sensors: Option<seq<Sensor>>, id: seq<byte>)
    ensures sensors.Some? ==> OnlyFailsafe(Cached(sensors).value, id)
  {
  }

  /** What a read shows of a sensor after some stores into it. */
  function ReadAfter(stores: seq<Store>, e: Entry, now: int, timeout: nat): (value: int)
    requires LastStore(stores, e).Some?
  {
    var s := LastStore(stores, e).value;
    VirtTempSensor.ReadValue(VirtTempSensor.NewSensor(s.at).(temperature := s.value), now, timeout)
  }

  /** A read shows the sensor's last store while that is fresh, and 100 °C afterwards. */
  lemma WorldIsRead(w: World, e: Entry, now: int, timeout: nat)
    requires ValidWorld(w) && e in w.sensors
    ensures LastStore(w.stores, e).Some?
    ensures var s := LastStore(w.stores, e).value;
            var shown := VirtTempSensor.ReadValue(w.sensors[e], now, timeout);
            shown == ReadAfter(w.stores, e, now, timeout) && shown == if now - s.at <= timeout then s.value else 100000
  {
    hide WellFormed, LastStore;
  }

  /** Until the timeout, counted from the start of its publication, a refreshed sensor shows its rounded temperature. */
  lemma PublishedIsRead(w: World, f: Family, samples: seq<Sample>, i: nat, t: int, now: int, timeout: nat)
    requires Published(w.sensors, f, samples, t) && i < |samples| && !samples[i].skipRefresh && now - t <= timeout
    ensures var s := samples[i];
            ValidId(f, s.sensor.id) && EntryOf(f, s.sensor.id) in w.sensors && s.temperature.Finite?
            && Rounded(VirtTempSensor.ReadValue(w.sensors[EntryOf(f, s.sensor.id)], now, timeout),
                       s.temperature.celsius)
  {
    hide ValidId, SensorKey, Exact, ValidSamples, Rounded;
    assert WrittenSince(w.sensors, f, samples[i], t);
  }

  /** Every snapshot that ends after time t is quiet. */
  ghost predicate QuietAfter(worlds: seq<World>, events: seq<Event>, f: Family, id: seq<byte>, t: int)
    requires |worlds| == |events| + 1
  {
    forall i :: 0 <= i < |events| && events[i].Snapshot? && worlds[i + 1].now > t ==> Quiet(events[i].state, f, id)
  }

  lemma {:induction false} AlwaysSafe(worlds: seq<World>, events: seq<Event>, f: Family, id: seq<byte>, t: int, n: nat)
    requires IsRun(worlds, events) && n < |worlds| && ValidId(f, id) && worlds[0].now <= t
    requires QuietAfter(worlds, events, f, id, t)
    ensures SafeSince(worlds[n].stores, id, t)
  {
    hide ValidId, DecodeSensorId, Step, Quiet, WellFormed, LastStore;
    if n > 0 {
      AlwaysSafe(worlds, events, f, id, t, n - 1);
      StepKeepsSafe(worlds[n - 1], events[n - 1], worlds[n], f, id, t);
    }
  }

  /**
   If every snapshot that ends after time t reports a disk, or a group with such a member, as
   unavailable or not at all, or no longer has an HBA's sensor, then every reading of the sensor
   later than t plus the stale timeout is the failsafe, across updates, rebuilds, reloads and
   restarts. The read may come at any moment, also inside a publication: after any number of the
   stores made.
   */
  lemma FailsafeHolds(worlds: seq<World>, events: seq<Event>, f: Family, id: seq<byte>, t: int, timeout: nat, n: nat,
    e: Entry, moment: nat, now: int)
    requires IsRun(worlds, events) && n < |worlds| && ValidId(f, id) && worlds[0].now <= t
    requires QuietAfter(worlds, events, f, id, t)
    requires Named(e) && IdOf(e) == id && moment <= |worlds[n].stores|
    requires LastStore(worlds[n].stores[..moment], e).Some? && now > t + timeout
    ensures ReadAfter(worlds[n].stores[..moment], e, now, timeout) == FAILSAFE_MILLI
  {
    hide ValidId, DecodeSensorId, IsRun, QuietAfter, LastStore;
    AlwaysSafe(worlds, events, f, id, t, n);
    var s := LastStore(worlds[n].stores[..moment], e).value;
    assert s in worlds[n].stores;
  }

  // ----- the daemon produces such runs -----

  /** What wakes the daemon, and what happens to the kernel between its iterations. */
  datatype Input =
    | Received(state: Response, expired: bool, eventWritten: bool)
    | Gone(entries: set<Entry>)
    | Idle

  function EventOf(input: Input): Event {
    match input
    case Received(state, expired, _) => if expired then Wait else Snapshot(state)
    case Gone(entries) => Vanish(entries)
    case Idle => Wait
  }

  /** The worlds so far are a run of the first events, and the last one is the present. */
  ghost predicate Traces(worlds: seq<World>, events: seq<Event>, now: World) {
    IsRun(worlds, events) && worlds[|events|] == now
  }

  lemma TraceGrows(worlds: seq<World>, events: seq<Event>, now: World, e: Event, next: World)
    requires Traces(worlds, events, now) && Step(now, e, next)
    ensures Traces(worlds + [next], events + [e], next)
  {
    hide Step;
  }

  /** An event makes every family exact that it can publish; a snapshot does no less and no more. */
  ghost predicate HealedBy(e: Event, faulty: set<Family>, w: World, w': World) {
    (forall f :: f !in faulty ==> Heals(w.sensors, w'.sensors, f, SamplesOf(e, f)))
    && (e.Snapshot? ==> DisksFollow(w, w', faulty, e.state) && HbasFollow(w, w', faulty, e.state))
  }

  lemma NothingToHeal(e: Event, faulty: set<Family>, w: World, w': World)
    requires !e.Snapshot? && !e.Restart?
    ensures HealedBy(e, faulty, w, w')
  {
  }

  ghost predicate Healing(worlds: seq<World>, events: seq<Event>, faulty: set<Family>)
    requires |worlds| == |events| + 1
  {
    forall i :: 0 <= i < |events| ==> HealedBy(events[i], faulty, worlds[i], worlds[i + 1])
  }

  /** One wake-up of hwmonOrchestrationLoop, or one change of the kernel between two. */
  method Handle(host: Host, input: Input)
    requires host.Valid()
    modifies host, host.kernel`sensors, host.kernel`now, host.kernel`stores, host.disks, host.hbas
    ensures host.Valid() && Step(old(host.kernel.View()), EventOf(input), host.kernel.View())
    ensures HealedBy(EventOf(input), host.kernel.faulty, old(host.kernel.View()), host.kernel.View())
  {
    hide SnapshotStores, Heals, DisksFollow, HbasFollow, WellFormed, Explained, Host.CacheCurrent, AnnouncedAs,
      ValidFile, WithinTopology,
      ValidSensors;
    ghost var w := host.kernel.View();
    match input
    case Received(state, expired, eventWritten) =>
      var _, _ := host.OnSnapshot(state, expired, eventWritten);
      if expired {
        NothingToHeal(Wait, host.kernel.faulty, w, host.kernel.View());
      }
    case Gone(entries) =>
      host.Vanish(entries);
      NothingToHeal(Vanish(entries), host.kernel.faulty, w, host.kernel.View());
    case Idle =>
      host.kernel.Elapse();
      NothingToHeal(Wait, host.kernel.faulty, w, host.kernel.View());
  }

  /**
   runHWMon: restore, then hwmonOrchestrationLoop. Every invariant of the host holds at the
   end, and what the kernel goes through is a run that starts with the restart.
   */
  method RunHwmon(kernel: Kernel, file: CacheFile, storageFaulty: bool, ghost ownFile: bool, inputs: seq<Input>)
    returns (host: Host, ghost worlds: seq<World>, ghost events: seq<Event>)
    requires kernel.Valid() && (ownFile ==> ValidFile(file))
    modifies kernel`sensors, kernel`now, kernel`stores
    ensures host.Valid() && host.kernel == kernel && |events| == 1 + |inputs|
    ensures Traces(worlds, events, kernel.View()) && worlds[0] == old(kernel.View())
    ensures events[0] == if file.Stored? then Restart(file.cache.disks, file.cache.hbas) else Restart(None, None)
    ensures forall i :: 0 <= i < |inputs| ==> events[i + 1] == EventOf(inputs[i])
    ensures Healing(worlds, events, kernel.faulty)
  {
    hide SnapshotStores, Heals, DisksFollow, HbasFollow, WellFormed, Explained, Host.CacheCurrent,
      Host.NothingUnannounced, ValidFile,
      WithinTopology, ValidSensors;
    worlds, events := [kernel.View()], [];
    host := new Host(kernel, file, storageFaulty, ownFile);
    var _ := host.Restore();
    ghost var restart := if file.Stored? then Restart(file.cache.disks, file.cache.hbas) else Restart(None, None);
    TraceGrows(worlds, events, worlds[0], restart, kernel.View());
    worlds, events := worlds + [kernel.View()], events + [restart];
    for i := 0 to |inputs|
      invariant host.Valid() && host.kernel == kernel && fresh(host) && fresh(host.disks) && fresh(host.hbas)
      invariant Traces(worlds, events, kernel.View()) && |events| == 1 + i
      invariant worlds[0] == old(kernel.View()) && events[0] == restart
      invariant forall k :: 0 <= k < i ==> events[k + 1] == EventOf(inputs[k])
      invariant Healing(worlds, events, kernel.faulty)
    {
      ghost var before := kernel.View();
      Handle(host, inputs[i]);
      TraceGrows(worlds, events, before, EventOf(inputs[i]), kernel.View());
      worlds, events := worlds + [kernel.View()], events + [EventOf(inputs[i])];
    }
  }
}
