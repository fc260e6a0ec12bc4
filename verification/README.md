# Verification of unraid-vsock-sensors

A Dafny model of the parts of unraid-vsock-sensors whose correctness depends on state kept
across calls, processes and machines, with proofs of what those parts promise. `dafny verify
dfyconfig.toml` checks all of it.

The system carries disk and HBA temperatures from an Unraid guest to the hwmon subsystem of its
host. Each half is modelled with the branches, constants and error paths of its source.

**The kernel module** `virt-temp.c`
- `SensorId`: configfs names, sensor IDs and device nodes, on both sides of the boundary.
- `Labels`, `Decimal`: the text that crosses it (UTF-8 labels, decimal temperatures).
- `VirtTempSensor`: one sensor. The class `LockedSensor` records every state a reader without
  the lock could see while a label is replaced, rolled back or a temperature is written.
- `SensorLifetime`, `ReadFreshness`: step relations for open/write/close/rmdir and for lock-free
  reads against writers, over every interleaving; `Modular` has the arithmetic of wrapping clocks.
- `VirtTempKernel`: the class `Kernel`, the object store as the host sees it. On behalf of
  a faulty family any operation may fail for any reason; `Mkdir` and `Remove` then have no effect,
  the two writes may fail before or after theirs. Its ghost log `stores` holds
  every reading ever put into a sensor; at every moment a sensor shows the last one put into it.

**The host daemon** `hwmon*.go`
- `Topology`, `Acceptance`: from a guest snapshot to validated samples, what each sample shows, and
  which snapshots are valid.
- `FamilyPublisher`: validate, update in place, rebuild, on the `Kernel` class.
- `HwmonHost`: the class `Host` with cache file, restart, announcements and the order of both
  families. The ghost field `unannounced` marks a reconfiguration, rebuilt or restored, that no
  written event has followed yet; `announced` is the topology at the last event, `eventLost` says
  that a later event could not be written, `ownFile` that the daemon itself wrote the cache file.
- `Failsafe`: whole runs. `RunHwmon` is the daemon's life from restore on; it is proved to produce
  the runs that the failsafe theorem is about.
- `SnapshotQueue`: the one-slot channel between receiver and publisher.

**The guest collectors** `disk*.go`, `hba*.go`
- `SmartSource`, `DiskState`, `DiskCollector`: the three owners of a disk's thermal state, each a
  class that refines a function. `DiskTraces` proves where published temperatures come from over
  every run, `DiskRows` what every published row is, from the inventory, the probes and the events.
- `DueReads`: when a run is in fallback and when a direct read is due, and which poll intervals keep
  a due read due until it begins.
- `FallbackRotation`: the concurrent workers of one fallback cycle, and the cursor over cycles.
- `DiskInventory`, `KeyOrder`: the merge of `disks.ini` and `devs.ini` against a specification on
  multisets of sections.
- `HbaCollector`, `StorCli`: age and identity of HBA readings.

Times are unbounded integers, a zero `time.Time` is `None`, finite temperatures are reals.
Concurrency is a step relation whose steps are the source's atomic operations. Classes are proved
against functions of their old state, and the run theorems are about those functions.

## Main results

- `FamilyPublisher.PublishFamily`, `HwmonHost.Host.Publish`: self-healing exactness of each family,
  whatever becomes of the other, and the exact condition for it, down to the inventories
  (`HwmonHost.DisksArePublishable`, `HwmonHost.HbasArePublishable`).
- `Failsafe.FailsafeHolds`, `Failsafe.RunHwmon`: the failsafe over the daemon's whole life.
- `HwmonHost.Host.OnSnapshot`: no reconfiguration stays unannounced but by a pending rebuild or a
  lost event; cache consistency; `HwmonHost.Host.Restore`: crash recovery, family by family.
- `DiskRows.RowsAre`, `DiskTraces.NoRevival`, `DiskRows.WakeGraceIsEarned`: what every published row
  is and where readings and graces come from, over every run.
- `Topology.MakeSamples`, `Topology.ValidateSamples`: each group shows the maximum of its disks, each
  disk and probe its own reading, rounded to the nearest milli-Celsius.
- `SmartSource.CadenceIsExact`, `DiskTraces.DirectReadsAreSpaced`, `DueReads.DueIsExact`: the cadence
  of direct reads and the life of a due one, for exactly the lists of poll intervals that keep them.
- `DiskInventory.ReadDiskInventory`, `DiskInventory.InventoryIsUnique`: the merge refines a
  specification without order, into the lexicographic order of names.
- `FallbackRotation.EveryDiskIsObserved`, `SnapshotQueue.NewestIsNeverLost`,
  `HbaCollector.AnswersAreRecent`, `SensorLifetime.NoUseAfterFree`, `ReadFreshness.FreshReads`: the
  concurrent protocols in every interleaving.

Some properties one might expect are false of the code. Each has a concrete input and the exact
condition under which it holds:
- The kernel's label is not always the label the host sent. `strim` also drops the byte 0xA0,
  which the kernel's `isspace` table counts as a space, so a label ending in U+00E0 loses its last
  byte (`LabelCanLoseAByte`). `KernelLabel` gives the condition for every valid label.
- The wrapping stale test is right exactly when the time past the timeout is not in the second
  half of a turn of the counter (`WrappedIsTrue`); a sensor not written for longer than half a
  turn is shown as fresh again (`WrappedReadCanBeWrong`).
- Direct reads are not always a poll interval apart (`ChangingIntervalBreaksCadence`). With a list
  of intervals they are, at the interval in force at the later read, if and only if no positive
  interval is followed by a zero or a longer one and then by a positive one (`CadenceIsExact`). So
  an interval may fall, not rise. The condition also covers heartbeats: if they may be
  stamped more than 15 s and a nanosecond before a refresh they follow, any three intervals whose
  first and last are positive break it.
- A due read can be used up without beginning: an inventory that cannot be read when the fallback is
  entered again leaves it not due at the next refresh (`UnreadInventoryUsesUpRead`). With a constant
  interval this never happens (`DueStaysDue`). `DueIsExact` gives the condition on the list of
  intervals: after an attempt with one interval, a positive interval is followed by a longer one; or
  by any short enough positive one when, just before it, polling was off, the interval was longer
  than that of the attempt, or heartbeats may be late enough.
- Publishing to a fault-free kernel succeeds if and only if the samples are valid, every label has
  a byte that is no space to the kernel, and no directory of a sample's ID has another name than
  the one with lower-case digits (`Publishable` in `PublishFamily`). A directory "AB" made by hand
  blocks the ID of "ab" (`UpperCaseDirectoryBlocks`), and a cached label of one space is refused
  (`BlankLabelIsRefused`). Labels the host makes itself are never refused.
- A save writes the families that have a topology and no others (`Host.SaveCache`), so the cache
  holds the families of this daemon's life, not all ever saved: without faults, a save after a
  restart keeps a cached family if and only if it could be published (`RestartAndSave`); a sensor
  without ID and label never can (`UnrestorableCache`).

The topology event is written once: when that fails, `eventLost` and `unannounced` stay set until
the next event, and `OnSnapshot` promises nothing more than that.

## Model

| member | source | states |
|---|---|---|
| `SensorId.DecodeInto` | virt-temp/module/virt-temp.c:354-377 | on the caller's 85-byte buffer every store is in bounds; the result is success, EINVAL or ENAMETOOLONG exactly as the specification of names says, and on success the buffer is the ID as a C string |
| `SensorId.IdRoundTrip` | hwmon_device.go:161-163 | kernel decoding of the directory name Go computes gives back every valid ID |
| `SensorId.DecodedIdsAreValid` | virt-temp/module/virt-temp.c:354-377 | every name the kernel accepts is that of a valid ID, up to the case of its digits |
| `SensorId.NodeIsPath` | hwmon_device.go:165-167 | the node the kernel publishes, cut to its buffer, is the path Go opens, for every valid ID |
| `SensorId.KeysInjective` | hwmon_device.go:161-163 | directory names of different IDs of a family differ |
| `SensorId.DevicePathsInjective` | hwmon_device.go:165-167 | device paths determine family and ID |
| `Labels.SanitizeLabel` | hwmon_topology.go:130-144 | the result is the longest prefix of whole characters of the normalized label, or of its fallback, that fits 95 bytes |
| `Labels.CutLabel` | hwmon_topology.go:139-143 | stepping back to a rune start ends at a character boundary and drops no character that fits |
| `Labels.RunesOfUtf8` | hwmon_topology.go:146-153 | decoding gives back every text that was encoded in UTF-8 |
| `Labels.SanitizedKeepsText` | hwmon_topology.go:130-153 | a text with visible ends is sent with its control characters as spaces and nothing else changed, up to the last whole character within 95 bytes |
| `Labels.AsciiIsUnchanged` | hwmon_topology.go:130-153 | printable ASCII of at most 95 bytes without outer spaces is sent as it is |
| `Labels.BlankTextFallsBack` | hwmon_topology.go:132-134 | a text of spaces and control characters gives way to the fallback |
| `Labels.SanitizedIsAccepted` | hwmon_topology.go:126-144 | every sanitized label passes validation and, with its newline, the checks of the kernel's label store |
| `Labels.KernelLabel` | virt-temp/module/virt-temp.c:280-289 | for every valid label the kernel stores the trimmed one, which is the label sent if and only if neither its first nor its last byte is a kernel space |
| `Labels.LabelCanLoseAByte` | virt-temp/module/virt-temp.c:286 | a valid two-byte label is stored as its first byte only |
| `Decimal.WriteRoundTrip` | hwmon_device.go:169-179 | the decimal line of every int64 is within the kernel's 32-byte limit and parses back to it |
| `Topology.GroupOf` | hwmon_topology.go:51-64 | the loop counts the members of a kind, their first greatest temperature and whether one is unavailable |
| `Topology.MakeSamples` | hwmon_topology.go:49-107 | first the groups of at least two disks in the order of their kinds, each with a maximum that is one of its disks' readings and that no reading exceeds, or left to go stale when a member is unavailable; then every disk in order with its own reading; then every HBA, with the IOC probe, or without any probe the legacy temperature, under `hba:` and the board probe under `hba:board:` |
| `Topology.DiskSamplesShow` | hwmon_topology.go:49-93 | the samples of every disk list are those groups and readings, and every kind with two disks has its group |
| `Topology.HbaSamplesShow` | hwmon_topology.go:94-124 | every HBA has its samples, and every sample shows a probe of an HBA |
| `Topology.MaximumIsMember` | hwmon_topology.go:55-57 | the group value is the reading of a member, also with NaN and infinities |
| `Topology.MaximumIsUpperBound` | hwmon_topology.go:55-57 | no finite or infinite reading of a member exceeds the group value, unless that is NaN |
| `Topology.KindIs` | internal/sensors/models.go:38-52 | with an ASCII transport in any case of letters: which disks each group is of |
| `Topology.ValidateSamples` | hwmon_device.go:61-97 | succeeds if and only if the list is valid; then every value is the integer nearest to a thousand times the temperature, halves away from zero |
| `Topology.MilliRounds` | hwmon_device.go:89-94 | the conversion is the nearest integer, halves away from zero, for every real |
| `Topology.RoundedIsUnique` | hwmon_device.go:89-94 | no other integer meets that description |
| `Topology.SameTopology` | hwmon_topology.go:157-172 | on distinct IDs the one-directional check decides equality of the two sets of sensors |
| `Topology.SameIsSetEquality` | hwmon_topology.go:157-172 | the pigeonhole argument: equal lengths turn inclusion into equality |
| `Acceptance.PipelineAccepts` | hwmon_topology.go:49-93 | the samples of an inventory pass validation if and only if its IDs are distinct, NUL-free, 1 to 79 bytes and no emitted group's, its available temperatures are representable, and at most 1024 samples result |
| `Acceptance.GroupsFit` | hwmon_device.go:23-25 | at most 1021 disks never exceed the sensor limit |
| `Acceptance.HbaPipelineAccepts` | hwmon_topology.go:94-124 | the samples of an HBA list pass validation if and only if its IDs are NUL-free, of 1 to 80 bytes, or at most 74 with a board probe, no two emitted IDs collide, its temperatures are representable and at most 1024 samples result |
| `Acceptance.DiskLabelsAccepted` | hwmon_topology.go:126-144 | no label of a disk or group sample is refused by the kernel |
| `Acceptance.HbaLabelsAccepted` | hwmon_topology.go:109-124 | no label of an HBA sample is refused by the kernel |
| `VirtTempSensor.MakeHwmonName` | virt-temp/module/virt-temp.c:142-173 | the bounded loop builds the specified name and never overruns the buffer |
| `VirtTempSensor.NameIsRegistrable` | virt-temp/module/virt-temp.c:142-173 | every label gives a name that is more than the prefix, fits, and has no character the hwmon core refuses |
| `VirtTempSensor.PlainName` | virt-temp/module/virt-temp.c:142-173 | a label of lower-case letters and digits is its own name after the prefix |
| `VirtTempSensor.LockedSensor.StoreLabelLocked` | virt-temp/module/virt-temp.c:270-327 | refines the specified outcome, and at every step in between a registered sensor has a non-empty label and its name, which never change while it is registered |
| `VirtTempSensor.StoreOutcome` | virt-temp/module/virt-temp.c:270-327 | a store succeeds exactly when the text is acceptable, the sensor not removed and registration works or was there already; success leaves the trimmed label live, failure the previous label |
| `VirtTempSensor.StoreKeepsConsistent` | virt-temp/module/virt-temp.c:311-323 | registered implies a label, its name and not removed, whatever both registrations answer |
| `VirtTempSensor.RepeatHeals` | virt-temp/module/virt-temp.c:295-299 | after any failed store and any rollback, the same store with a working registration goes live |
| `VirtTempSensor.LockedSensor.WriteTemperatureLocked` | virt-temp/module/virt-temp.c:218-242 | a write sets temperature and time, in this order, or changes nothing and reports a bad line or ENODEV |
| `VirtTempSensor.LockedSensor.MarkRemoved` | virt-temp/module/virt-temp.c:379-386 | removal unregisters, and no reader ever sees an inconsistent sensor |
| `SensorLifetime.NoUseAfterFree` | virt-temp/module/virt-temp.c:200-250 | in every interleaving the count is the configfs reference plus the open files, and no step touches freed memory |
| `SensorLifetime.FreedExactlyAtTheEnd` | virt-temp/module/virt-temp.c:336-342 | the memory is freed if and only if rmdir is over and no file is open |
| `SensorLifetime.LiveUntilRemoved` | virt-temp/module/virt-temp.c:229-240 | a write or a label store succeeds if and only if no rmdir has marked the sensor before |
| `ReadFreshness.FreshReads` | virt-temp/module/virt-temp.c:78-104 | a read judged fresh returns the value of the write whose timestamp it loaded or of a later one, none older than the timeout at the comparison; a stale one returns the failsafe |
| `ReadFreshness.WrappedStaleIs` | virt-temp/module/virt-temp.c:78-84 | the wrapping comparison depends only on the time past the timeout modulo the counter |
| `ReadFreshness.WrappedIsTrue` | virt-temp/module/virt-temp.c:82-83 | it equals the true comparison if and only if the time past the timeout is not in the second half of a turn |
| `ReadFreshness.WrappedReadCanBeWrong` | virt-temp/module/virt-temp.c:82-83 | with 32-bit jiffies at 250 Hz and a timeout of 10 s, a sensor silent for half a turn more is shown as fresh |
| `VirtTempKernel.PathFindsId` | virt-temp/module/virt-temp.c:130-140 | a path computed from an ID leads to the directory of that ID and family and to no other |
| `VirtTempKernel.Kernel.Mkdir` | virt-temp/module/virt-temp.c:388-425 | a directory appears with no label and the failsafe as its one store, or nothing changes; it is refused when it exists, its name does not decode or its device exists |
| `VirtTempKernel.Kernel.WriteDevice` | virt-temp/module/virt-temp.c:218-242 | at most one sensor changes, that of the path, to the parsed line and the present time; the log gains exactly that store |
| `VirtTempKernel.Kernel.WriteLabel` | virt-temp/module/virt-temp.c:270-327 | only the label, name and registration of one directory change; success means the trimmed label is live |
| `FamilyPublisher.InstallSensor` | hwmon_device.go:105-122 | creating, initializing and labelling one sensor disturbs no other ID; a sensor gets its value before it is first registered; success means it is live and shows its value, written by this call, and without faults comes exactly for a label the kernel accepts and an ID without alias |
| `FamilyPublisher.RemoveStale` | hwmon_device.go:124-138 | drops unwanted directories of the family only, and all of them on success |
| `FamilyPublisher.Reconcile` | hwmon_device.go:99-139 | from any kernel state success leaves exactly the desired family with every value shown; however it ends, only values of the samples or the failsafe are stored, in its own family; without faults it succeeds if and only if every sample is installable |
| `FamilyPublisher.UpdateFamily` | hwmon_device.go:141-159 | only readings of refreshed sensors change, each to its value; success means every sensor exists and every refreshed one was written by this call |
| `FamilyPublisher.UpdateConsequences` | hwmon_device.go:39-43 | a complete update of an unchanged topology makes the family exact though only devices were looked at |
| `FamilyPublisher.PublishFamily` | hwmon_device.go:28-59 | success from any state, also with sensors gone since, leaves the family exactly the current IDs and trimmed labels, every refreshed sensor written by this call and showing its temperature rounded to milli-Celsius; no sensor is registered before it has its value; without faults success comes if and only if the samples are publishable; however the call ends, the other family is untouched and only values of the samples or the failsafe are stored; invalid samples change nothing; failure keeps the last topology and every due rebuild; the kernel's topology moves only with a reported change or a pending rebuild |
| `FamilyPublisher.UpperCaseDirectoryBlocks` | virt-temp/module/virt-temp.c:408-415 | a directory whose name decodes to the same ID takes its device and blocks the publication, which would succeed without it |
| `Labels.AcceptedIffVisible` | virt-temp/module/virt-temp.c:280-289 | the kernel accepts a valid label exactly when one of its bytes is no space to it |
| `Labels.BlankLabelIsRefused` | hwmon_device.go:83-86 | the label of one space passes validation and is refused by the kernel |
| `HwmonHost.DisksArePublishable` | hwmon_topology.go:49-93 | the samples of a disk inventory are publishable exactly when the inventory is acceptable and no ID has an alias |
| `HwmonHost.HbasArePublishable` | hwmon_topology.go:94-124 | the same for HBA lists |
| `HwmonHost.CachedIsValid` | hwmon_cache.go:132-152 | a topology is valid if and only if its restored samples pass validation |
| `HwmonHost.Host.SaveCache` | hwmon_cache.go:91-129 | the file is replaced as a whole or kept; success means it is exactly the projection of both inventories, and comes whenever storage does not fail |
| `HwmonHost.RestartAndSave` | hwmon_cache.go:62-98 | after a restart and a save the file has a family, unchanged, if and only if the cached one was publishable, for every family without faults |
| `HwmonHost.UnrestorableCache` | hwmon_device.go:75-80 | a cached sensor without ID and label is publishable on no kernel |
| `HwmonHost.Host.PublishFamilies` | hwmon.go:161-190 | disks that come without an error, and are publishable to a kernel without faults for them, are published exactly, rounded and by this call, whatever the snapshot says of the HBAs, and the other way round; a family with an error or without an inventory has its sensors and its log untouched; success means both are exact, and without faults comes if and only if both are publishable; no topology moves unreported |
| `HwmonHost.Host.Publish` | hwmon.go:161-205 | the same, whatever becomes of the cache, which afterwards is due or current; a rebuild is reported exactly when nothing is pending, and without one nothing moved or something is pending |
| `HwmonHost.Host.Announce` | hwmon.go:140-159 | announces exactly for a finished reconfiguration or the first snapshot of an initialized family, never while a rebuild is pending |
| `HwmonHost.Host.OnSnapshot` | hwmon.go:113-131 | each family follows its own fields of a snapshot that is not expired: without an error, and publishable to a kernel without faults for it, it is exact, rounded and freshly written; with an error or without an inventory nothing of it is touched; a reconfiguration of any kind, by it or earlier, is announced unless a rebuild is pending or an event write failed, and never while one is pending; all host invariants are kept |
| `HwmonHost.Host.Restore` | hwmon_cache.go:62-85 | each family on its own is left uninitialized or exactly the cached one, every sensor live under its trimmed label and at 100 °C, without its faults the latter exactly when it is publishable, and is marked to be announced; the restart succeeds exactly when the cache is readable and every cached family was restored |
| `HwmonHost.Host.Vanish` | hwmon.go:31-36 | every host invariant survives a reload of the module |
| `Failsafe.FailsafeHolds` | virt-temp/module/virt-temp.c:94-104 | if every snapshot that ends after T reports a disk, or a group with such a member, as unavailable or not at all, or has no sensor of an HBA any more, or does not publish the family, every read of the sensor later than T plus the timeout is 100000, at any moment, also inside a publication, and across updates, rebuilds, reloads and restarts |
| `Failsafe.WorldIsRead` | virt-temp/module/virt-temp.c:94-104 | a read shows the last store into the sensor while that is within the timeout, and 100000 later |
| `Failsafe.PublishedIsRead` | virt-temp/module/virt-temp.c:94-104 | within the timeout of its publication a refreshed sensor reads as its rounded temperature |
| `Failsafe.StoresKeepSafe` | hwmon_device.go:28-59 | a publication of such samples stores only the failsafe for the ID; no other family's device can be its |
| `Failsafe.QuietSamples` | hwmon_topology.go:49-107 | the samples of such a snapshot can only show the failsafe for the ID |
| `Failsafe.RunHwmon` | hwmon.go:74-138 | the daemon from restore through any number of iterations keeps every host invariant, takes the kernel through a run of the failsafe theorem, at each restart and snapshot makes every publishable family without faults exact, and at each snapshot each family follows its own fields alone |
| `SnapshotQueue.FinalSendNeverBlocks` | hwmon_stream.go:88-98 | after draining, the channel is empty until the final send, in every interleaving |
| `SnapshotQueue.ReceivesInOrder` | hwmon_stream.go:78-99 | the consumer receives a strictly increasing selection of what was produced |
| `SnapshotQueue.NewestIsNeverLost` | hwmon_stream.go:86-92 | between sends, the newest completed send is pending or was the last one received |
| `SnapshotQueue.OnlyNewerReplaces` | hwmon_stream.go:86-98 | a pending snapshot is dropped only for its newer successor, which can then be sent |
| `SmartSource.SourceMonitor.Evaluate` | disk_source.go:64-100 | the new state and the decision are those of the specification |
| `SmartSource.AttemptsAreSpaced` | disk_source.go:96-98 | the instance of a constant interval: any two direct attempts are at least one interval apart, across recovery and re-entry |
| `DueReads.FallbackIffSilent` | disk_source.go:64-83 | in every run the fallback is chosen exactly when polling is on and the last heartbeat, or without any the first refresh, is more than the interval and 15 s ago |
| `DueReads.DueIffWaited` | disk_source.go:84-98 | in fallback a read is due exactly at the entry, without an attempt before, or an interval after the last one |
| `DueReads.DueIsExact` | disk_source.go:64-106 | for a list of poll intervals and a bound on the lag of heartbeats, no run uses up a due read without beginning it if and only if the intervals never drop one, a condition on three or four of them |
| `DueReads.DueStaysDue` | disk.go:139-165 | the instance of a constant interval: once due, an attempt stays due at every refresh in fallback until one begins, so an unreadable inventory does not use it up |
| `DueReads.UnreadInventoryUsesUpRead` | disk.go:139-145 | with polling off for one refresh, an unreadable inventory at the re-entry uses up the read |
| `SmartSource.CadenceIsExact` | disk_source.go:64-106 | for a list of poll intervals and a bound on the lag of heartbeats, every run keeps its attempts the interval in force apart if and only if no positive interval is followed by a zero, a longer one, or with a lag beyond 15 s and a nanosecond any, and then by a positive one |
| `SmartSource.ChangingIntervalBreaksCadence` | disk_source.go:79-98 | polling switched off and on again repeats an attempt after 10 s of a 60 s interval |
| `DiskState.MakeDiskObservations` | disk_state.go:41-62 | one observation for each disk: in standby exactly when spun down, otherwise the temperature when polling is on and there is one, and an error when not |
| `DiskState.DiskTracker.InvalidateContinuity` | disk_state.go:81-87 | every disk becomes unavailable, history stays |
| `DiskState.DiskTracker.Apply` | disk_state.go:93-140 | tracker and readings after all observations are those of the specification, and absent disks are dropped |
| `DiskCollector.SnapshotCollector.ReuseFallbackSnapshot` | disk.go:227-262 | each row keeps the last reading of its disk unless the last refresh failed or did not have it |
| `DiskCollector.SnapshotCollector.RefreshWithContext` | disk.go:123-166 | one refresh is the specified step of source, tracker and snapshot together |
| `DiskCollector.SnapshotCollector.Snapshot` | disk.go:267-281 | readings are answered exactly while the last refresh succeeded less than 15 s ago |
| `DiskCollector.RunIsCoherent` | disk.go:123-166 | in every reachable state rows agree with the tracker, a failure leaves every disk unavailable, and no disk wakes in fallback |
| `DiskTraces.PublicationsAreCoherent` | disk_state.go:93-140 | a reading is unavailable if and only if its thermal state is, and a temperature other than 0 implies a valid one |
| `DiskRows.RowsAre` | disk_state.go:93-140 | every row published by a collecting refresh in every run: standby exactly when the disk is spun down, or its probe says so in fallback; otherwise valid with the temperature of inventory or probe when there is one; otherwise waking at 0 °C within the grace, and else unavailable |
| `DiskRows.ReusedRowsAre` | disk.go:227-262 | between two direct reads every row repeats the last reading of its disk under the current names, unless the last refresh failed or did not have it |
| `DiskRows.OtherEventsKeepRows` | disk.go:204-211 | a failed refresh marks the collector failed and keeps its rows; a heartbeat changes nothing published |
| `DiskTraces.NoRevival` | disk.go:138-165 | a valid temperature was parsed from the inventory of the last refresh, or measured by a direct attempt since which every refresh stayed in the episode, attempted nothing and found the disk |
| `DiskRows.WakeGraceIsEarned` | disk_state.go:110-124 | a waking disk was spun down, or in standby for its probe, at an earlier refresh and was never lost since; the first poll of emhttpd after that found it active at w, and every one since found it active without a temperature, each less than a poll and 5 s after w; without polling there is no grace |
| `DiskTraces.NeverWakingInFallback` | disk.go:138-165 | no disk is waking after a refresh that ends in fallback |
| `DiskTraces.DirectReadsAreSpaced` | disk.go:123-166 | under the exact condition, two refreshes of the collector that begin direct reads are at least the interval in force apart, whatever happened in between |
| `DiskTraces.RunSchedules` | disk.go:190-202 | the collector schedules exactly like the source state alone, so the cadence theorems are about it |
| `FallbackRotation.AlwaysOrdered` | disk_fallback.go:37-52 | in every interleaving each claim is being worked on by one worker or is written, and nothing else is written |
| `FallbackRotation.CycleOutcome` | disk_fallback.go:28-54 | when the workers have ended, exactly the next claimed positions after the cursor are observed and other slots keep their error; workers run dry only when all disks are claimed |
| `FallbackRotation.NeverClaimedTwice` | disk_fallback.go:44-49 | no disk is claimed twice in a cycle |
| `FallbackRotation.CounterIsBounded` | disk_fallback.go:40-47 | the counter never exceeds the disks by more than the workers |
| `FallbackRotation.EveryDiskIsObserved` | disk_fallback.go:37-54 | over n consecutive cycles of any interleavings, each with at least one claim, every disk is observed |
| `FallbackRotation.BoundIsReached` | disk_fallback.go:54 | the bound is exact |
| `DiskInventory.ReadAssigned` | disk_inventory.go:131-174 | fails exactly on an empty file or two present sections with one non-empty ID; otherwise the entries are those of the present sections |
| `DiskInventory.ReadUnassigned` | disk_inventory.go:176-232 | fails exactly when two sections that are neither shadowed nor flash share an ID and both have a device; otherwise each ID survives once, with a device if any copy has one |
| `DiskInventory.SelectedDisks` | disk_inventory.go:107-129 | succeeds exactly when every selected entry that counts is valid, with their disks in order |
| `DiskInventory.ReadDiskInventory` | disk_inventory.go:40-46 | fails exactly as the order-free specification says, and otherwise yields its list: the wanted disks with distinct IDs, in the lexicographic order of names, and of IDs between equal names |
| `DiskInventory.InventoryIsUnique` | disk_inventory.go:75-105 | the specification determines the list, so no order of sections in either file can be seen |
| `KeyOrder.SortedIsUnique` | disk_inventory.go:98-103 | two lists sorted by name and ID with the same elements and distinct keys are equal |
| `KeyOrder.LessIsLexicographic` | disk_inventory.go:98-103 | one string is less than another exactly when, after a common part, it ends or has the smaller character |
| `HbaCollector.HbaMonitor.Complete` | hba.go:194-223 | a result is accepted only before its deadline and without cancellation; otherwise the collector fails and keeps its last snapshot |
| `HbaCollector.HbaMonitor.Snapshot` | hba.go:228-246 | disabled answers an empty inventory; enabled answers unless failed or expired |
| `HbaCollector.AnswersAreRecent` | hba.go:194-246 | in every interleaving an answer at t comes from a collection that finished before its deadline and less than interval + 15 s before t, with no refresh ended since |
| `HbaCollector.RecentIsAnswered` | hba.go:232-246 | the converse: the last accepted readings are answered until they expire |
| `StorCli.MatchControllers` | hba_storcli.go:141-155 | succeeds exactly when every controller has an identity and no two share one, in any order of the map |
| `StorCli.BuildReadings` | hba_storcli.go:85-95 | each controller with a temperature once, with its identity, its two probes and the legacy temperature of the IOC or else the board, in the lexicographic order of IDs |
| `StorCli.ReadingsMean` | hba.go:52-70 | what the readings of any two maps are, field by field |
| `StorCli.ReadingsAreUnique` | hba_storcli.go:85-95 | the order in which the maps are walked cannot be seen in the readings |
| `StorCli.Reader.Collect` | hba_storcli.go:28-50 | at most one discovery and two reads; success pairs the last temperatures with metadata of the same controllers; metadata contradicted by a read is not kept, neither cached nor freshly discovered, except what a rediscovery then found |

## Left out

- The VSOCK transport, frame scanning, the HTTP control server, PHP pages, packaging and service files: plumbing without state of this kind.
- JSON and INI decoding, number parsing (`ParseFloat`, `parseStorCLI`, SMART output): sections, readings and probe results arrive decoded; a cache file that does not decode is `Unreadable`.
- Running `storcli`, `smartctl_type` and `sdspin`, with their timeouts: every answer is arbitrary. The MPT3 ioctl backend is not part of this model.
- The sysfs bus selector and the disk policy store: whether a disk is selected is an input of each section; poll_attributes parsing: the poll interval is an input of each refresh.
- The test whether a queued snapshot has expired (hwmon_stream.go:28-30) is an input of `OnSnapshot`.
- Diagnostics, log deduplication and the texts of most errors: read-only, or easy members.
- The namespace check of `validateHWMonSamples`: the type `Family` has only the two valid values.
- Floating-point rounding: finite temperatures are reals, rounded half away from zero; NaN and infinities are separate values.
- Time in `Kernel` and `VirtTempSensor` is unbounded; wrap-around of jiffies is treated in `ReadFreshness` alone.
- FailsafeHolds: the stale timeout is fixed and nobody but the daemon writes devices; that a read between the two stores of one write is right is the subject of `ReadFreshness`.
- PublishFamily: sensors vanish between calls, not during one.
- RefreshWithContext: log lines are left out, and a heartbeat that arrives during a refresh counts as arriving after it; only the decision at the start reads heartbeats.
- CycleOutcome: a worker's observation is one step, an arbitrary result; how that result follows from the two commands is left out. `DiskCollector` takes the outcome of a cycle as its list of probes.
- MakeHwmonName: the name grows as a sequence whose length is bounded, not in a byte array.
- SortByKey: an insertion sort stands for `sort.Slice`; only that its result is a sorted rearrangement is used.
- LiveUntilRemoved: that `misc_deregister` and in-flight opens exclude each other is an assumption of the step relation, as the kernel's misc mutex provides.
- Strings of the guest's modules are sequences of characters; their size is counted in UTF-8 bytes, and ill-formed UTF-8 is left out there.
