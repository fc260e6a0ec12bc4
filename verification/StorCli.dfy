/**
 The StorCLI backend: cached controller metadata, at most one rediscovery per collection, and
 readings that pair temperatures only with metadata of the same set of controllers.
 */
module StorCli {
  import opened Common
  import opened KeyOrder
  import opened HbaCollector

  datatype Metadata = Metadata(id: string, model: string, pciAddress: string)

  datatype Temperatures = Temperatures(ioc: Option<real>, board: Option<real>)

  /** makeHBAReading: the IOC temperature is the legacy one, else the board's. */
  function MakeReading(m: Metadata, t: Temperatures): (r: Option<Hba>) {
    var legacy := if t.ioc.Some? then t.ioc else t.board;
    if legacy.None? then None else Some(Hba(m.id, m.model, m.pciAddress, legacy.value, t.ioc, t.board))
  }

  /** The reading is of this controller: its identity, its probes, and the legacy temperature. */
  ghost predicate Reads(h: Hba, m: Metadata, t: Temperatures) {
    h.id == m.id && h.model == m.model && h.pciAddress == m.pciAddress
    && h.iocTemp == t.ioc && h.boardTemp == t.board
    && (t.ioc.Some? ==> h.temp == t.ioc.value) && (t.ioc.None? ==> t.board == Some(h.temp))
  }

  /** Every controller with a probe has its reading, every reading is of one, in the order of IDs. */
  ghost predicate AreReadings(temperatures: map<int, Temperatures>, metadata: map<int, Metadata>, readings: seq<Hba>)
    requires temperatures.Keys == metadata.Keys
  {
    (forall h :: h in readings ==> exists c :: c in temperatures && Reads(h, metadata[c], temperatures[c]))
    && (forall c :: c in temperatures && (temperatures[c].ioc.Some? || temperatures[c].board.Some?) ==>
          exists h :: h in readings && Reads(h, metadata[c], temperatures[c]))
    && forall i, j :: 0 <= i < j < |readings| ==> Precedes(readings[i].id, readings[j].id)
  }

  lemma ReadingsMean(temperatures: map<int, Temperatures>, metadata: map<int, Metadata>, readings: seq<Hba>)
    requires temperatures.Keys == metadata.Keys && IsReadings(temperatures, metadata, readings)
    ensures AreReadings(temperatures, metadata, readings)
  {
    hide SortedBy, Precedes;
    forall i, j | 0 <= i < j < |readings| ensures Precedes(readings[i].id, readings[j].id) {
      SortedIsInOrder(readings, IdKey, i, j);
      LessIsLexicographic("", "");
      LessIrreflexive("");
    }
    forall c | c in temperatures && (temperatures[c].ioc.Some? || temperatures[c].board.Some?)
      ensures exists h :: h in readings && Reads(h, metadata[c], temperatures[c])
    {
      var h := MakeReading(metadata[c], temperatures[c]).value;
      assert h in readings && Reads(h, metadata[c], temperatures[c]);
    }
  }

  ghost predicate DistinctIdentities(metadata: map<int, Metadata>) {
    forall c, d :: c in metadata && d in metadata && metadata[c].id == metadata[d].id ==> c == d
  }

  function IdKey(h: Hba): Key {
    ("", h.id)
  }

  /** The readings of the controllers that have a temperature, each once, in the order of their IDs. */
  ghost predicate IsReadings(temperatures: map<int, Temperatures>, metadata: map<int, Metadata>, readings: seq<Hba>)
    requires temperatures.Keys == metadata.Keys
  {
    SortedBy(readings, IdKey)
    && (forall i, j :: 0 <= i < j < |readings| ==> IdKey(readings[i]) != IdKey(readings[j]))
    && forall h :: h in readings <==> exists c ::
          c in temperatures && MakeReading(metadata[c], temperatures[c]) == Some(h)
  }

  /** The order in which the maps are walked cannot be seen in the result. */
  lemma ReadingsAreUnique(temperatures: map<int, Temperatures>, metadata: map<int, Metadata>, readings: seq<Hba>,
    other: seq<Hba>)
    requires temperatures.Keys == metadata.Keys
    requires IsReadings(temperatures, metadata, readings) && IsReadings(temperatures, metadata, other)
    ensures readings == other
  {
    SortedIsUnique(readings, other, IdKey);
  }

  lemma SomeMember(s: set<int>)
    requires s != {}
    ensures exists c :: c in s
  {
    assert |s| > 0;
    assert (forall c: int :: c !in s) ==> s == {};
  }

  /** What the loop of buildHBAReadings has gathered from the controllers walked so far. */
  ghost predicate Gathered(walked: set<int>, temperatures: map<int, Temperatures>, metadata: map<int, Metadata>,
    readings: seq<Hba>)
    requires temperatures.Keys == metadata.Keys
  {
    (forall i, j :: 0 <= i < j < |readings| ==> readings[i].id != readings[j].id)
    && forall h :: h in readings <==> exists c ::
          c in walked && c in temperatures && MakeReading(metadata[c], temperatures[c]) == Some(h)
  }

  lemma GatherOne(walked: set<int>, c: int, temperatures: map<int, Temperatures>, metadata: map<int, Metadata>,
    readings: seq<Hba>)
    requires temperatures.Keys == metadata.Keys && DistinctIdentities(metadata)
    requires Gathered(walked, temperatures, metadata, readings) && c in temperatures && c !in walked
    ensures var r := MakeReading(metadata[c], temperatures[c]);
            Gathered(walked + {c}, temperatures, metadata, if r.Some? then readings + [r.value] else readings)
  {
    var r := MakeReading(metadata[c], temperatures[c]);
    var readings' := if r.Some? then readings + [r.value] else readings;
    forall i | 0 <= i < |readings| ensures readings[i].id != metadata[c].id {
      assert readings[i] in readings;
      var d :| d in walked && d in temperatures && MakeReading(metadata[d], temperatures[d]) == Some(readings[i]);
      assert d in metadata;
    }
    assert forall h :: h in readings' <==> h in readings || r == Some(h);
  }

  /** The sorted rearrangement of what was gathered. */
  lemma SortedGathered(temperatures: map<int, Temperatures>, metadata: map<int, Metadata>, readings: seq<Hba>,
    sorted: seq<Hba>)
    requires temperatures.Keys == metadata.Keys && Gathered(temperatures.Keys, temperatures, metadata, readings)
    requires SortedBy(sorted, IdKey) && multiset(sorted) == multiset(readings)
    ensures IsReadings(temperatures, metadata, sorted)
  {
    assert forall h :: h in sorted <==> h in multiset(sorted);
    assert forall h :: h in readings <==> h in multiset(readings);
    forall i, j | 0 <= i < j < |sorted| ensures IdKey(sorted[i]) != IdKey(sorted[j]) {
      Twice(sorted, sorted[i]);
      Twice(readings, sorted[i]);
      assert sorted[i] in multiset(sorted) && sorted[j] in multiset(sorted);
      var k :| 0 <= k < |readings| && readings[k] == sorted[i];
      var m :| 0 <= m < |readings| && readings[m] == sorted[j];
    }
  }

  /** buildHBAReadings, walking the map in any order. */
  method BuildReadings(temperatures: map<int, Temperatures>, metadata: map<int, Metadata>) returns (readings: seq<Hba>)
    requires temperatures.Keys == metadata.Keys && DistinctIdentities(metadata)
    ensures IsReadings(temperatures, metadata, readings) && AreReadings(temperatures, metadata, readings)
  {
    hide AreReadings, Gathered, DistinctIdentities;
    readings := [];
    var todo := temperatures.Keys;
    assert Gathered({}, temperatures, metadata, readings) by { NothingGathered(temperatures, metadata); }
    ghost var walked: set<int> := {};
    while todo != {}
      invariant todo <= temperatures.Keys && walked == temperatures.Keys - todo
      invariant Gathered(walked, temperatures, metadata, readings)
      decreases |todo|
    {
      SomeMember(todo);
      var c :| c in todo;
      GatherOne(walked, c, temperatures, metadata, readings);
      todo := todo - {c};
      walked := walked + {c};
      var reading := MakeReading(metadata[c], temperatures[c]);
      if reading.Some? {
        readings := readings + [reading.value];
      }
    }
    assert walked == temperatures.Keys;
    var sorted := SortByKey(readings, IdKey);
    SortedGathered(temperatures, metadata, readings, sorted);
    ReadingsMean(temperatures, metadata, sorted);
    readings := sorted;
  }

  lemma NothingGathered(temperatures: map<int, Temperatures>, metadata: map<int, Metadata>)
    requires temperatures.Keys == metadata.Keys
    ensures Gathered({}, temperatures, metadata, [])
  {
  }

  /** Every controller has an identity, and no two have the same one. */
  ghost predicate Matchable(controllers: map<int, string>, identities: map<string, Metadata>) {
    (forall c :: c in controllers ==> controllers[c] in identities)
    && forall c, d :: c in controllers && d in controllers ==>
      (identities[controllers[c]].id == identities[controllers[d]].id ==> c == d)
  }

  /** The metadata of the controllers walked so far, and the owner of every identity among them. */
  ghost predicate Matched(controllers: map<int, string>, identities: map<string, Metadata>, metadata: map<int,
    Metadata>,
    ids: map<string, int>)
  {
    (forall c :: c in metadata ==>
          c in controllers && controllers[c] in identities && metadata[c] == identities[controllers[c]])
    && (forall c :: c in metadata ==> metadata[c].id in ids && ids[metadata[c].id] == c)
    && forall id :: id in ids ==> ids[id] in metadata && metadata[ids[id]].id == id
  }

  lemma MatchOne(controllers: map<int, string>, identities: map<string, Metadata>, metadata: map<int, Metadata>,
    ids: map<string, int>, c: int)
    requires Matched(controllers, identities, metadata, ids) && c in controllers && c !in metadata
    ensures controllers[c] !in identities ==> !Matchable(controllers, identities)
    ensures controllers[c] in identities ==>
      var m := identities[controllers[c]];
      if m.id in ids then !Matchable(controllers, identities)
      else Matched(controllers, identities, metadata[c := m], ids[m.id := c])
  {
    if controllers[c] in identities && identities[controllers[c]].id in ids {
      var d := ids[identities[controllers[c]].id];
      assert d in controllers && d != c && metadata[d] == identities[controllers[d]];
    }
  }

  lemma NothingMatched(controllers: map<int, string>, identities: map<string, Metadata>)
    ensures Matched(controllers, identities, map[], map[])
  {
  }

  lemma MatchAll(controllers: map<int, string>, identities: map<string, Metadata>, metadata: map<int, Metadata>,
    ids: map<string, int>)
    requires Matched(controllers, identities, metadata, ids) && metadata.Keys == controllers.Keys
    ensures Matchable(controllers, identities) && DistinctIdentities(metadata)
    ensures forall c :: c in controllers ==> metadata[c] == identities[controllers[c]]
  {
  }

  /** matchStorCLIControllers: succeeds exactly when the controllers are matchable, in any order. */
  method MatchControllers(controllers: map<int, string>, identities: map<string, Metadata>)
    returns (r: Option<map<int, Metadata>>)
    ensures r.Some? <==> Matchable(controllers, identities)
    ensures r.Some? ==> r.value.Keys == controllers.Keys && DistinctIdentities(r.value)
    ensures r.Some? ==> forall c :: c in controllers ==> r.value[c] == identities[controllers[c]]
  {
    hide Matched, Matchable, DistinctIdentities;
    var metadata: map<int, Metadata> := map[];
    var ids: map<string, int> := map[];
    var todo := controllers.Keys;
    assert Matched(controllers, identities, metadata, ids) by { NothingMatched(controllers, identities); }
    while todo != {}
      invariant todo <= controllers.Keys && metadata.Keys == controllers.Keys - todo
      invariant Matched(controllers, identities, metadata, ids)
      decreases |todo|
    {
      SomeMember(todo);
      var c :| c in todo;
      MatchOne(controllers, identities, metadata, ids, c);
      todo := todo - {c};
      var pci := controllers[c];
      if pci !in identities {
        return None;
      }
      var identity := identities[pci];
      if identity.id in ids {
        return None;
      }
      ids, metadata := ids[identity.id := c], metadata[c := identity];
    }
    MatchAll(controllers, identities, metadata, ids);
    return Some(metadata);
  }

  /** The storcli command and sysfs: every answer is arbitrary and counted. */
  class Backend {
    ghost var discoveries: nat
    ghost var temperatureReads: nat
    /** What the last temperature command reported. */
    ghost var lastRead: map<int, Temperatures>

    method Discover() returns (r: Option<map<int, Metadata>>)
      modifies this`discoveries
      ensures discoveries == old(discoveries) + 1 && (r.Some? ==> DistinctIdentities(r.value))
    {
      discoveries := discoveries + 1;
      var controllers: map<int, string> := *;
      var identities: map<string, Metadata> := *;
      var broken: bool := *;
      if broken {
        return None;
      }
      r := MatchControllers(controllers, identities);
    }

    method ReadTemperatures() returns (r: Option<map<int, Temperatures>>)
      modifies this`temperatureReads, this`lastRead
      ensures temperatureReads == old(temperatureReads) + 1 && (r.Some? ==> lastRead == r.value)
    {
      temperatureReads := temperatureReads + 1;
      var temperatures: map<int, Temperatures> := *;
      var broken: bool := *;
      if broken {
        return None;
      }
      lastRead := temperatures;
      return Some(temperatures);
    }
  }

  class Reader {
    var metadata: Option<map<int, Metadata>>

    ghost predicate Valid()
      reads this
    {
      metadata.Some? ==> DistinctIdentities(metadata.value)
    }

    constructor ()
      ensures Valid() && metadata.None?
    {
      metadata := None;
    }

    /** A successful answer is made of the last temperatures and the current metadata. */
    ghost predicate Answers(backend: Backend, readings: seq<Hba>)
      reads this, backend
    {
      metadata.Some? && backend.lastRead.Keys == metadata.value.Keys
      && IsReadings(backend.lastRead, metadata.value, readings)
      && AreReadings(backend.lastRead, metadata.value, readings)
    }

    /** read: the temperatures must be of exactly the known controllers. */
    method Read(backend: Backend) returns (r: Option<seq<Hba>>)
      requires Valid() && metadata.Some?
      modifies backend
      ensures backend.temperatureReads == old(backend.temperatureReads) + 1
          && backend.discoveries == old(backend.discoveries)
      ensures r.Some? ==> Answers(backend, r.value)
    {
      var temperatures := backend.ReadTemperatures();
      if temperatures.None? || temperatures.value.Keys != metadata.value.Keys {
        return None;
      }
      var readings := BuildReadings(temperatures.value, metadata.value);
      return Some(readings);
    }

    /**
     collect: at most one discovery and two reads; metadata that a read contradicted is not
     kept, unless the read came with the discovery that replaced it.
     */
    method Collect(backend: Backend) returns (r: Option<seq<Hba>>)
      requires Valid()
      modifies this, backend
      ensures Valid()
      ensures backend.discoveries <= old(backend.discoveries) + 1
          && backend.temperatureReads <= old(backend.temperatureReads) + 2
      ensures r.Some? ==> Answers(backend, r.value)
      ensures old(metadata.None?) && r.None? ==> metadata.None?
      ensures r.None? ==> metadata.None? || backend.discoveries == old(backend.discoveries) + 1
      ensures old(metadata.Some?) && backend.discoveries == old(backend.discoveries) ==>
            r.Some? && metadata == old(metadata)
    {
      var freshDiscovery := false;
      if metadata.None? {
        var discovered := backend.Discover();
        if discovered.None? {
          return None;
        }
        metadata := discovered;
        freshDiscovery := true;
      }
      r := Read(backend);
      if r.Some? {
        return;
      }
      metadata := None;
      if freshDiscovery {
        return None;
      }
      var discovered := backend.Discover();
      if discovered.None? {
        return None;
      }
      metadata := discovered;
      r := Read(backend);
    }
  }
}
