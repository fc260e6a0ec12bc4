/**
 The kernel side as the host sees it: a store of sensors behind configfs directories and
 device nodes. Every operation takes time and, on behalf of a faulty family, may fail for any
 reason; an operation that is not atomic for its caller may fail after its effect.
 */
module VirtTempKernel {
  import opened Common
  import opened SensorId
  import opened VirtTempSensor
  import Decimal
  import Labels

  const NEWLINE: byte := 10

  /** The device root, /dev. */
  const ROOT: seq<byte> := [47, 100, 101, 118]

  /** A directory of a family. */
  datatype Entry = Entry(family: Family, name: seq<byte>)

  type Sensors = map<Entry, State>

  predicate Named(e: Entry) {
    DecodeSensorId(e.family, e.name).Ok?
  }

  /** The ID make_sensor decoded from the directory name. */
  function IdOf(e: Entry): (id: seq<byte>)
    requires Named(e)
  {
    DecodeSensorId(e.family, e.name).value
  }

  /** The path of the device node of a directory. */
  function PathOf(e: Entry): (path: seq<byte>)
    requires Named(e)
  {
    ROOT + Ascii("/") + DeviceNode(IdOf(e))
  }

  /** The directory Go uses for an ID of a family. */
  function EntryOf(f: Family, id: seq<byte>): (e: Entry)
    requires ValidId(f, id)
  {
    Entry(f, SensorKey(f, id))
  }

  /** Only decodable names exist, and no two directories share a device node. */
  ghost predicate WellFormed(k: Sensors, now: int) {
    (forall e :: e in k ==> Named(e) && Consistent(k[e]) && !k[e].removed && k[e].lastUpdate <= now)
    && (forall e, e' :: e in k && e' in k && IdOf(e) == IdOf(e') ==> e == e')
  }

  ghost predicate HasDevice(k: Sensors, path: seq<byte>)
    requires forall e :: e in k ==> Named(e)
  {
    exists e :: e in k && PathOf(e) == path
  }

  /** A reading put into the sensor of a directory. */
  datatype Store = Store(entry: Entry, value: int, at: int)

  /** What a directory's sensor shows after these stores: the last one into it. */
  function LastStore(stores: seq<Store>, e: Entry): (s: Option<Store>)
    ensures s.Some? ==> s.value in stores && s.value.entry == e
  {
    if stores == [] then None
    else if stores[|stores| - 1].entry == e then Some(stores[|stores| - 1])
    else LastStore(stores[..|stores| - 1], e)
  }

  /** Every sensor shows its last store, and no store is later than now. */
  ghost predicate Explained(k: Sensors, stores: seq<Store>, now: int) {
    (forall e :: e in k ==> LastStore(stores, e) == Some(Store(e, k[e].temperature, k[e].lastUpdate)))
    && forall s :: s in stores ==> Named(s.entry) && s.at <= now
  }

  lemma OneMoreStore(k: Sensors, stores: seq<Store>, now: int, e: Entry, s: State)
    requires Explained(k, stores, now) && Named(e) && s.lastUpdate <= now
    ensures Explained(k[e := s], stores + [Store(e, s.temperature, s.lastUpdate)], now)
  {
    hide DecodeSensorId;
    var after := stores + [Store(e, s.temperature, s.lastUpdate)];
    assert after[..|stores|] == stores;
  }

  lemma SameReading(k: Sensors, stores: seq<Store>, now: int, e: Entry, s: State)
    requires Explained(k, stores, now) && e in k && s.temperature == k[e].temperature && s.lastUpdate == k[e].lastUpdate
    ensures Explained(k[e := s], stores, now)
  {
  }

  /** A write that succeeds is one more store; one that fails changes nothing. */
  lemma WriteIsStore(k: Sensors, stores: seq<Store>, now: int, e: Entry, line: seq<byte>)
    requires WellFormed(k, now) && Explained(k, stores, now) && e in k
    ensures var (s, err) := WriteTemperature(k[e], line, now);
            WellFormed(k[e := s], now) && (Decimal.ParseWrite(line).Ok? ==> err.None?)
            && if err.Some? then k[e := s] == k
               else Decimal.ParseWrite(line).Ok? && s.temperature == Decimal.ParseWrite(line).value
                    && Explained(k[e := s], stores + [Store(e, s.temperature, now)], now)
  {
    hide Explained, DecodeSensorId, Decimal.ParseWrite, HwmonName;
    var (s, err) := WriteTemperature(k[e], line, now);
    if err.None? {
      OneMoreStore(k, stores, now, e, s);
    }
  }

  /** No directory but e itself has the device node of e. */
  ghost predicate Unaliased(k: Sensors, e: Entry)
    requires Named(e) && forall x :: x in k ==> Named(x)
  {
    forall x :: x in k && IdOf(x) == IdOf(e) ==> x == e
  }

  lemma EntryNamed(f: Family, id: seq<byte>)
    requires ValidId(f, id)
    ensures Named(EntryOf(f, id)) && IdOf(EntryOf(f, id)) == id
  {
    IdRoundTrip(f, id);
  }

  /** A path computed from a valid ID leads to the sensor of that ID and to no other. */
  lemma PathFindsId(e: Entry, f: Family, id: seq<byte>)
    requires Named(e) && ValidId(f, id)
    ensures PathOf(e) == DevicePath(ROOT, id) <==> IdOf(e) == id
    ensures IdOf(e) == id ==> e.family == f
  {
    hide DeviceNode, DevicePath, ValidId, DecodeSensorId;
    DecodedIdsAreValid(e.family, e.name);
    NodeIsPath(e.family, IdOf(e), ROOT);
    if PathOf(e) == DevicePath(ROOT, id) || IdOf(e) == id {
      DevicePathsInjective(e.family, IdOf(e), f, id, ROOT);
    }
  }

  /** The store at one moment, with every reading put into it so far. */
  datatype World = World(sensors: Sensors, now: int, stores: seq<Store>)

  class Kernel {
    var sensors: Sensors
    var now: int
    /** The families whose operations may fail. */
    var faulty: set<Family>
    /** Every reading ever put into a sensor, in order. */
    ghost var stores: seq<Store>

    ghost predicate Valid()
      reads this
    {
      WellFormed(sensors, now) && Explained(sensors, stores, now)
    }

    ghost function View(): World
      reads this
    {
      World(sensors, now, stores)
    }

    constructor (now: int, faulty: set<Family>)
      ensures Valid() && sensors == map[] && this.now == now && this.faulty == faulty && stores == []
    {
      this.sensors, this.now, this.faulty, this.stores := map[], now, faulty, [];
    }

    method Fault(f: Family) returns (fault: bool)
      ensures fault ==> f in faulty
    {
      fault := *;
      fault := fault && f in faulty;
    }

    method AnyError() returns (err: Option<Errno>)
      ensures err.Some?
    {
      var e: Errno := *;
      err := Some(e);
    }

    /** Time passes. */
    method Elapse()
      requires Valid()
      modifies this`now
      ensures Valid() && now >= old(now)
    {
      var d: nat :| true;
      now := now + d;
    }

    /** Sensors disappear behind the publisher's back: rmdir by hand or a module reload. */
    method Vanish(gone: set<Entry>)
      requires Valid()
      modifies this`sensors
      ensures Valid() && sensors == old(sensors) - gone
    {
      sensors := sensors - gone;
    }

    /** mkdir: make_sensor and its registrations. */
    method Mkdir(e: Entry) returns (err: Option<Errno>)
      requires Valid()
      modifies this`sensors, this`now, this`stores
      ensures Valid() && now >= old(now)
      ensures err.Some? ==> sensors == old(sensors) && stores == old(stores)
      ensures err.None? ==> e !in old(sensors) && sensors == old(sensors)[e := NewSensor(now)]
      ensures err.None? ==> stores == old(stores) + [Store(e, FAILSAFE_MILLI, now)]
      ensures e.family !in faulty && e in old(sensors) ==> err == Some(Exists)
      ensures e.family !in faulty && e !in old(sensors) && Named(e) && Unaliased(old(sensors), e) ==> err.None?
    {
      hide Explained, LastStore;
      Elapse();
      var fault := Fault(e.family);
      if fault {
        err := AnyError();
      } else if e in sensors {
        err := Some(Exists);
      } else if !Named(e) {
        err := Some(InvalidArgument);
      } else if exists x :: x in sensors && IdOf(x) == IdOf(e) {
        err := Some(Exists);
      } else {
        OneMoreStore(sensors, stores, now, e, NewSensor(now));
        sensors := sensors[e := NewSensor(now)];
        stores := stores + [Store(e, FAILSAFE_MILLI, now)];
        err := None;
      }
    }

    /** The directory whose device node has a path. */
    method Lookup(path: seq<byte>) returns (found: Option<Entry>)
      requires Valid()
      ensures found.Some? ==> found.value in sensors && PathOf(found.value) == path
      ensures found.None? ==> forall e :: e in sensors ==> PathOf(e) != path
    {
      if exists e :: e in sensors && PathOf(e) == path {
        var e :| e in sensors && PathOf(e) == path;
        found := Some(e);
      } else {
        found := None;
      }
    }

    /** Opens a device node for a family, writes one line and closes it. */
    method WriteDevice(f: Family, path: seq<byte>, line: seq<byte>) returns (err: Option<Errno>)
      requires Valid()
      modifies this`sensors, this`now, this`stores
      ensures Valid() && now >= old(now)
      ensures err.None? || sensors != old(sensors) ==>
        exists e :: e in old(sensors) && PathOf(e) == path
                    && (err.None? ==> WriteTemperature(old(sensors)[e], line, now).1.None?)
                    && sensors == old(sensors)[e := WriteTemperature(old(sensors)[e], line, now).0]
      ensures stores == old(stores)
              || exists e :: e in old(sensors) && PathOf(e) == path && Decimal.ParseWrite(line).Ok?
                             && stores == old(stores) + [Store(e, Decimal.ParseWrite(line).value, now)]
      ensures f !in faulty && Decimal.ParseWrite(line).Ok? ==>
        err == if HasDevice(old(sensors), path) then None else Some(NotExist)
    {
      hide Explained, LastStore, WriteTemperature, Decimal.ParseWrite, DecodeSensorId, DeviceNode, Consistent;
      Elapse();
      var e := Lookup(path);
      var fault := Fault(f);
      if fault || e.None? {
        if fault {
          err := AnyError();
        } else {
          err := Some(NotExist);
        }
        return;
      }
      WriteIsStore(sensors, stores, now, e.value, line);
      var (s, failure) := WriteTemperature(sensors[e.value], line, now);
      if failure.None? {
        stores := stores + [Store(e.value, s.temperature, now)];
      }
      sensors := sensors[e.value := s];
      err := failure;
      fault := Fault(f);
      if fault {
        err := AnyError();
      }
    }

    /** stat on a device node for a family. */
    method StatDevice(f: Family, path: seq<byte>) returns (err: Option<Errno>)
      requires Valid()
      modifies this`now
      ensures Valid() && now >= old(now)
      ensures err.None? ==> HasDevice(sensors, path)
      ensures f !in faulty ==> err == if HasDevice(sensors, path) then None else Some(NotExist)
    {
      Elapse();
      var e := Lookup(path);
      var fault := Fault(f);
      if fault {
        err := AnyError();
      } else {
        err := if e.None? then Some(NotExist) else None;
      }
    }

    /** Opens the label attribute of a directory, writes one line and closes it. */
    method WriteLabel(e: Entry, line: seq<byte>) returns (err: Option<Errno>)
      requires Valid()
      modifies this`sensors, this`now
      ensures Valid() && now >= old(now)
      ensures sensors.Keys == old(sensors).Keys
      ensures forall x :: x in sensors && x != e ==> sensors[x] == old(sensors)[x]
      ensures e in sensors ==>
        sensors[e].temperature == old(sensors)[e].temperature && sensors[e].lastUpdate == old(sensors)[e].lastUpdate
      ensures err.None? ==> e in sensors && sensors[e].text == Labels.Strim(line) && sensors[e].registered
      ensures e.family !in faulty && e in sensors && Labels.AcceptedByKernel(line) ==> err.None?
    {
      hide Explained, LastStore, StoreLabel, Consistent, Labels.AcceptedByKernel, Labels.Strim, DecodeSensorId;
      Elapse();
      var fault := Fault(e.family);
      if fault || e !in sensors {
        if fault {
          err := AnyError();
        } else {
          err := Some(NotExist);
        }
        return;
      }
      var broken := Fault(e.family);
      var rollbackBroken := Fault(e.family);
      StoreOutcome(sensors[e], line, !broken, !rollbackBroken);
      StoreKeepsConsistent(sensors[e], line, !broken, !rollbackBroken);
      var (s, failure) := StoreLabel(sensors[e], line, !broken, !rollbackBroken);
      SameReading(sensors, stores, now, e, s);
      sensors := sensors[e := s];
      err := failure;
      fault := Fault(e.family);
      if fault {
        err := AnyError();
      }
    }

    /** The directories of a family. */
    method ReadDir(f: Family) returns (names: set<seq<byte>>, err: Option<Errno>)
      requires Valid()
      modifies this`now
      ensures Valid() && now >= old(now)
      ensures err.None? ==> names == set e | e in sensors && e.family == f :: e.name
      ensures f !in faulty ==> err.None?
    {
      Elapse();
      var fault := Fault(f);
      names := set e | e in sensors && e.family == f :: e.name;
      err := None;
      if fault {
        err := AnyError();
      }
    }

    /** rmdir. */
    method Remove(e: Entry) returns (err: Option<Errno>)
      requires Valid()
      modifies this`sensors, this`now
      ensures Valid() && now >= old(now)
      ensures sensors == old(sensors) || sensors == old(sensors) - {e}
      ensures err.None? ==> sensors == old(sensors) - {e}
      ensures e.family !in faulty && e in old(sensors) ==> err.None?
    {
      Elapse();
      var fault := Fault(e.family);
      if fault {
        err := AnyError();
      } else if e !in sensors {
        err := Some(NotExist);
      } else {
        sensors := sensors - {e};
        err := None;
      }
    }
  }
}
