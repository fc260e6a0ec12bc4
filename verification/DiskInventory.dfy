/**
 Merging the two inventory files into the list of thermal disks: assigned disks, then
 unassigned devices that neither copy an assigned disk nor sit on a flash device, with
 incomplete copies replaced in place, sorted by name, and checked.
 */
module DiskInventory {
  import opened Common
  import opened KeyOrder
  import opened DiskState

  const MAX_DISK_ID_SIZE := 79

  /**
   A section of an inventory file, its fields trimmed and its device normalized. selected is
   what the policy and bus selector says of it; thermalError is empty unless one of the two
   binary fields is invalid.
   */
  datatype Section = Section(disk: UnraidDisk, notPresent: bool, selected: bool, thermalError: string)

  datatype Origin = Assigned | Unassigned

  datatype Entry = Entry(disk: UnraidDisk, origin: Origin, selected: bool, validationError: string)

  datatype InventoryError = Unreadable | NoSections | DuplicateId(id: string) | InvalidDisk(name: string, why: string)

  /** The bytes of a string in UTF-8, which is what Go's len counts. */
  function Size(s: string): (n: nat)
    ensures n == 0 <==> s == ""
  {
    if s == "" then 0
    else
      var c := s[|s| - 1] as int;
      Size(s[..|s| - 1]) + (if c < 0x80 then 1 else if c < 0x800 then 2 else if c < 0x10000 then 3 else 4)
  }

  /** diskValidationError; a message is empty exactly when there is no error. */
  function ValidationError(d: UnraidDisk, thermalError: string): (e: string)
    ensures e == "" <==> 0 < Size(d.id) <= MAX_DISK_ID_SIZE && d.device != "" && thermalError == ""
  {
    if d.id == "" then "missing stable ID"
    else if Size(d.id) > MAX_DISK_ID_SIZE then "stable ID is too long"
    else if d.device == "" then "missing or invalid device"
    else thermalError
  }

  function EntryOf(s: Section, origin: Origin): Entry {
    Entry(s.disk, origin, s.selected, ValidationError(s.disk, s.thermalError))
  }

  // ----- the order-free specification -----

  /** Two sections of a file, possibly equal ones, share an ID among those that count. */
  ghost predicate Clash(file: multiset<Section>, counts: Section -> bool) {
    exists s, t :: s in file && t in file && counts(s) && counts(t) && s.disk.id == t.disk.id
                   && (s != t || file[s] >= 2)
  }

  /** An assigned section that must have an ID of its own. */
  predicate PresentWithId(s: Section) {
    !s.notPresent && s.disk.id != ""
  }

  function AssignedIds(file: multiset<Section>): set<string> {
    set s | s in file && PresentWithId(s) :: s.disk.id
  }

  predicate IsFlash(name: string) {
    |name| == 5 && forall i :: 0 <= i < 5 ==> FoldCase(name[i] as int) == "flash"[i] as int
  }

  function FlashDevices(file: multiset<Section>): set<string> {
    set s | s in file && !s.notPresent && IsFlash(s.disk.name) && s.disk.device != "" :: s.disk.device
  }

  /** An unassigned section that is neither a copy of an assigned disk nor a flash device. */
  predicate Relevant(s: Section, taken: set<string>, flash: set<string>) {
    (s.disk.id == "" || s.disk.id !in taken) && s.disk.device !in flash
  }

  function RelevantWithDevice(taken: set<string>, flash: set<string>): Section -> bool {
    s => Relevant(s, taken, flash) && s.disk.id != "" && s.disk.device != ""
  }

  /** The sections whose disks the thermal collector wants. */
  function Wanted(a: multiset<Section>, u: multiset<Section>): (w: set<Section>) {
    (set s | s in a && !s.notPresent && s.selected)
    + (set s | s in u && Relevant(s, AssignedIds(a), FlashDevices(a)) && s.disk.device != "" && s.selected)
  }

  ghost predicate Fails(a: multiset<Section>, u: multiset<Section>) {
    |a| == 0 || Clash(a, PresentWithId) || Clash(u, RelevantWithDevice(AssignedIds(a), FlashDevices(a)))
    || exists s :: s in Wanted(a, u) && ValidationError(s.disk, s.thermalError) != ""
  }

  function ThermalDisks(a: multiset<Section>, u: multiset<Section>): (disks: set<UnraidDisk>) {
    set s | s in Wanted(a, u) :: s.disk
  }

  function DiskKey(d: UnraidDisk): Key {
    (d.name, d.id)
  }

  /** What a successful reading of the two files is, without any order of sections. */
  ghost predicate IsInventory(a: multiset<Section>, u: multiset<Section>, disks: seq<UnraidDisk>) {
    SortedBy(disks, DiskKey) && DistinctInventory(disks) && forall d :: d in disks <==> d in ThermalDisks(a, u)
  }

  /**
   Success or failure and the whole result depend on which sections the files hold, not on
   their order: the specification determines the list.
   */
  lemma InventoryIsUnique(a: multiset<Section>, u: multiset<Section>, disks: seq<UnraidDisk>, other: seq<UnraidDisk>)
    requires IsInventory(a, u, disks) && IsInventory(a, u, other)
    ensures disks == other
  {
    SortedIsUnique(disks, other, DiskKey);
  }

  /** The name comes first in the lexicographic order, or the ID between equal names. */
  ghost predicate ByNameAndId(d: UnraidDisk, e: UnraidDisk) {
    Precedes(d.name, e.name) || (d.name == e.name && Precedes(d.id, e.id))
  }

  lemma InventoryIsInOrder(a: multiset<Section>, u: multiset<Section>, disks: seq<UnraidDisk>)
    requires IsInventory(a, u, disks)
    ensures forall i, j :: 0 <= i < j < |disks| ==> ByNameAndId(disks[i], disks[j])
  {
    hide ThermalDisks, SortedBy, Precedes;
    forall i, j | 0 <= i < j < |disks| ensures ByNameAndId(disks[i], disks[j]) {
      SortedIsInOrder(disks, DiskKey, i, j);
    }
  }

  // ----- index form of a clash -----

  ghost predicate ClashAt(sections: seq<Section>, counts: Section -> bool, i: int, j: int) {
    0 <= i < j < |sections| && counts(sections[i]) && counts(sections[j]) && sections[i].disk.id == sections[j].disk.id
  }

  lemma ClashByIndex(sections: seq<Section>, counts: Section -> bool)
    ensures Clash(multiset(sections), counts) <==> exists i, j :: ClashAt(sections, counts, i, j)
  {
    if Clash(multiset(sections), counts) {
      var s, t :| s in multiset(sections) && t in multiset(sections) && counts(s) && counts(t) && s.disk.id == t.disk.id
                  && (s != t || multiset(sections)[s] >= 2);
      Twice(sections, s);
      if s != t {
        var i :| 0 <= i < |sections| && sections[i] == s;
        var j :| 0 <= j < |sections| && sections[j] == t;
        assert ClashAt(sections, counts, if i < j then i else j, if i < j then j else i);
      } else {
        var i, j :| 0 <= i < j < |sections| && sections[i] == s && sections[j] == s;
        assert ClashAt(sections, counts, i, j);
      }
    }
    if i, j :| ClashAt(sections, counts, i, j) {
      Twice(sections, sections[i]);
      assert sections[i] in multiset(sections) && sections[j] in multiset(sections);
    }
  }

  /** The first n sections do not clash among themselves. */
  ghost predicate NoClashIn(sections: seq<Section>, counts: Section -> bool, n: nat) {
    forall i, j :: ClashAt(sections, counts, i, j) ==> j >= n
  }

  /** Section j clashes with an earlier one. */
  ghost predicate ClashesBack(sections: seq<Section>, counts: Section -> bool, j: nat) {
    exists i :: ClashAt(sections, counts, i, j)
  }

  lemma NoClashSteps(sections: seq<Section>, counts: Section -> bool, n: nat)
    requires n <= |sections|
    ensures NoClashIn(sections, counts, 0)
    ensures n < |sections| && NoClashIn(sections, counts, n) && !ClashesBack(sections, counts, n) ==>
              NoClashIn(sections, counts, n + 1)
    ensures ClashesBack(sections, counts, n) ==> Clash(multiset(sections), counts)
    ensures NoClashIn(sections, counts, |sections|) ==> !Clash(multiset(sections), counts)
  {
    ClashByIndex(sections, counts);
  }

  // ----- the two readers -----

  /** Non-empty IDs are the IDs of one entry only. */
  ghost predicate UniqueIds(entries: seq<Entry>) {
    forall i, j :: 0 <= i < j < |entries| && entries[i].disk.id != "" ==> entries[i].disk.id != entries[j].disk.id
  }

  /** The entries of the assigned file are those of its present sections. */
  ghost predicate FromAssigned(sections: seq<Section>, entries: seq<Entry>) {
    (forall s :: s in sections && !s.notPresent ==> EntryOf(s, Assigned) in entries)
    && forall e :: e in entries ==> exists s :: s in sections && !s.notPresent && e == EntryOf(s, Assigned)
  }

  lemma NextAssigned(sections: seq<Section>, s: Section, entries: seq<Entry>)
    requires FromAssigned(sections, entries)
    ensures s.notPresent ==> FromAssigned(sections + [s], entries)
    ensures !s.notPresent ==> FromAssigned(sections + [s], entries + [EntryOf(s, Assigned)])
  {
    assert forall t :: t in sections + [s] <==> t in sections || t == s;
    assert forall e :: e in entries + [EntryOf(s, Assigned)] <==> e in entries || e == EntryOf(s, Assigned);
  }

  function SeenIds(sections: seq<Section>): set<string> {
    set s | s in sections && PresentWithId(s) :: s.disk.id
  }

  lemma SeenMeansClash(sections: seq<Section>, i: nat)
    requires i < |sections|
    ensures ClashesBack(sections, PresentWithId, i) <==>
            PresentWithId(sections[i]) && sections[i].disk.id in SeenIds(sections[..i])
    ensures SeenIds(sections[..i + 1]) ==
            SeenIds(sections[..i]) + if PresentWithId(sections[i]) then {sections[i].disk.id} else {}
  {
    assert sections[..i + 1] == sections[..i] + [sections[i]];
    if PresentWithId(sections[i]) && sections[i].disk.id in SeenIds(sections[..i]) {
      var s :| s in sections[..i] && PresentWithId(s) && s.disk.id == sections[i].disk.id;
      var k :| 0 <= k < i && sections[..i][k] == s;
      assert ClashAt(sections, PresentWithId, k, i);
    }
    if k :| ClashAt(sections, PresentWithId, k, i) {
      assert sections[..i][k] == sections[k];
    }
  }

  /** readAssignedEntries. */
  method ReadAssigned(sections: seq<Section>) returns (r: Result<seq<Entry>, InventoryError>)
    ensures r.Ok? <==> sections != [] && !Clash(multiset(sections), PresentWithId)
    ensures r.Ok? ==> FromAssigned(sections, r.value) && UniqueIds(r.value)
  {
    hide FromAssigned, Clash, ClashesBack, NoClashIn, SeenIds, ValidationError;
    var entries: seq<Entry> := [];
    var seenIds: set<string> := {};
    assert FromAssigned(sections[..0], entries) && SeenIds(sections[..0]) == {} by { NoAssigned(); }
    NoClashSteps(sections, PresentWithId, 0);
    for i := 0 to |sections|
      invariant FromAssigned(sections[..i], entries) && UniqueIds(entries)
      invariant seenIds == SeenIds(sections[..i]) && NoClashIn(sections, PresentWithId, i)
      invariant forall k :: 0 <= k < |entries| && entries[k].disk.id != "" ==> entries[k].disk.id in seenIds
    {
      var s := sections[i];
      assert sections[..i + 1] == sections[..i] + [s];
      NextAssigned(sections[..i], s, entries);
      SeenMeansClash(sections, i);
      NoClashSteps(sections, PresentWithId, i);
      if s.notPresent {
        continue;
      }
      if s.disk.id != "" {
        if s.disk.id in seenIds {
          return Err(DuplicateId(s.disk.id));
        }
        seenIds := seenIds + {s.disk.id};
      }
      entries := entries + [EntryOf(s, Assigned)];
    }
    assert sections[..|sections|] == sections;
    if sections == [] {
      return Err(NoSections);
    }
    return Ok(entries);
  }

  lemma NoAssigned()
    ensures FromAssigned([], []) && SeenIds([]) == {}
  {
  }

  /**
   The unassigned file after merging: every entry is that of a relevant section; every
   relevant section without an ID has its entry; every other ID survives in one entry, which
   is that of its section with a device if there is one.
   */
  ghost predicate Merged(sections: seq<Section>, taken: set<string>, flash: set<string>, entries: seq<Entry>) {
    (forall e :: e in entries ==>
          exists s :: s in sections && Relevant(s, taken, flash) && e == EntryOf(s, Unassigned))
    && UniqueIds(entries)
    && forall s :: s in sections && Relevant(s, taken, flash) ==>
      if s.disk.id == "" || s.disk.device != "" then EntryOf(s, Unassigned) in entries
      else exists e :: e in entries && e.disk.id == s.disk.id
  }

  /** The index map points at the entry of every ID, and knows every ID. */
  ghost predicate Indexed(entries: seq<Entry>, index: map<string, nat>) {
    (forall id :: id in index ==> id != "" && index[id] < |entries| && entries[index[id]].disk.id == id)
    && forall k :: 0 <= k < |entries| && entries[k].disk.id != "" ==>
      entries[k].disk.id in index && index[entries[k].disk.id] == k
  }

  /** A relevant section is represented by the entries. */
  ghost predicate Represented(s: Section, entries: seq<Entry>, index: map<string, nat>)
    requires Indexed(entries, index)
  {
    if s.disk.id == "" then EntryOf(s, Unassigned) in entries
    else s.disk.id in index && (s.disk.device != "" ==> entries[index[s.disk.id]] == EntryOf(s, Unassigned))
  }

  ghost predicate MergedSoFar(sections: seq<Section>, taken: set<string>, flash: set<string>, entries: seq<Entry>,
    index: map<string, nat>)
  {
    Indexed(entries, index)
    && (forall e :: e in entries ==>
          exists s :: s in sections && Relevant(s, taken, flash) && e == EntryOf(s, Unassigned))
    && forall s :: s in sections && Relevant(s, taken, flash) ==> Represented(s, entries, index)
  }

  lemma AddEntry(sections: seq<Section>, s: Section, taken: set<string>, flash: set<string>, entries: seq<Entry>,
    index: map<string, nat>)
    requires MergedSoFar(sections, taken, flash, entries, index) && Relevant(s, taken, flash) && s.disk.id !in index
    ensures var entries' := entries + [EntryOf(s, Unassigned)];
            var index' := if s.disk.id == "" then index else index[s.disk.id := |entries|];
            MergedSoFar(sections + [s], taken, flash, entries', index')
  {
    var e := EntryOf(s, Unassigned);
    var entries' := entries + [e];
    var index' := if s.disk.id == "" then index else index[s.disk.id := |entries|];
    assert entries'[|entries|] == e && s in sections + [s];
    assert forall t :: t in sections ==> t in sections + [s];
    assert Indexed(entries', index');
    forall t | t in sections && Relevant(t, taken, flash) ensures Represented(t, entries', index') {
      assert Represented(t, entries, index);
    }
  }

  lemma ReplaceEntry(sections: seq<Section>, s: Section, taken: set<string>, flash: set<string>, entries: seq<Entry>,
    index: map<string, nat>)
    requires MergedSoFar(sections, taken, flash, entries, index) && Relevant(s, taken, flash)
    requires s.disk.id in index && s.disk.device != "" && entries[index[s.disk.id]].disk.device == ""
    ensures MergedSoFar(sections + [s], taken, flash, entries[index[s.disk.id] := EntryOf(s, Unassigned)], index)
  {
    var k := index[s.disk.id];
    var entries' := entries[k := EntryOf(s, Unassigned)];
    assert s in sections + [s] && forall t :: t in sections ==> t in sections + [s];
    assert Indexed(entries', index);
    forall t | t in sections && Relevant(t, taken, flash) ensures Represented(t, entries', index) {
      assert Represented(t, entries, index);
      if t.disk.id == "" {
        var m :| 0 <= m < |entries| && entries[m] == EntryOf(t, Unassigned);
        assert entries'[m] == entries[m];
      }
    }
    forall e | e in entries' ensures exists t ::
          t in sections + [s] && Relevant(t, taken, flash) && e == EntryOf(t, Unassigned) {
      var m :| 0 <= m < |entries'| && entries'[m] == e;
      if m != k {
        assert entries[m] in entries;
      }
    }
  }

  /** A later copy without a device, or of a shadowed disk, changes nothing. */
  lemma SkipSection(sections: seq<Section>, s: Section, taken: set<string>, flash: set<string>, entries: seq<Entry>,
    index: map<string, nat>)
    requires MergedSoFar(sections, taken, flash, entries, index)
    requires Relevant(s, taken, flash) ==> s.disk.id in index && s.disk.device == ""
    ensures MergedSoFar(sections + [s], taken, flash, entries, index)
  {
    assert forall t :: t in sections + [s] <==> t in sections || t == s;
  }

  /** readUnassignedEntries. */
  method ReadUnassigned(sections: seq<Section>, taken: set<string>, flash: set<string>)
    returns (r: Result<seq<Entry>, InventoryError>)
    ensures r.Ok? <==> !Clash(multiset(sections), RelevantWithDevice(taken, flash))
    ensures r.Ok? ==> Merged(sections, taken, flash, r.value)
  {
    hide MergedSoFar, Clash, ClashesBack, NoClashIn, ValidationError, UniqueIds;
    ghost var counts := RelevantWithDevice(taken, flash);
    var entries: seq<Entry> := [];
    var index: map<string, nat> := map[];
    assert MergedSoFar(sections[..0], taken, flash, entries, index) by { NothingMerged(taken, flash); }
    NoClashSteps(sections, counts, 0);
    for i := 0 to |sections|
      invariant MergedSoFar(sections[..i], taken, flash, entries, index)
      invariant NoClashIn(sections, counts, i)
    {
      var s := sections[i];
      assert sections[..i + 1] == sections[..i] + [s];
      SoFarIsIndexed(sections[..i], taken, flash, entries, index);
      ClashWithEarlier(sections, i, taken, flash, entries, index);
      NoClashSteps(sections, counts, i);
      if (s.disk.id != "" && s.disk.id in taken) || s.disk.device in flash {
        SkipSection(sections[..i], s, taken, flash, entries, index);
        continue;
      }
      var entry := EntryOf(s, Unassigned);
      if s.disk.id == "" {
        AddEntry(sections[..i], s, taken, flash, entries, index);
        entries := entries + [entry];
        continue;
      }
      if s.disk.id in index {
        var previous := entries[index[s.disk.id]];
        if previous.disk.device != "" && entry.disk.device != "" {
          return Err(DuplicateId(s.disk.id));
        }
        if previous.disk.device == "" && entry.disk.device != "" {
          ReplaceEntry(sections[..i], s, taken, flash, entries, index);
          entries := entries[index[s.disk.id] := entry];
        } else {
          SkipSection(sections[..i], s, taken, flash, entries, index);
        }
        continue;
      }
      AddEntry(sections[..i], s, taken, flash, entries, index);
      index := index[s.disk.id := |entries|];
      entries := entries + [entry];
    }
    assert sections[..|sections|] == sections;
    SoFarIsMerged(sections, taken, flash, entries, index);
    return Ok(entries);
  }

  lemma NothingMerged(taken: set<string>, flash: set<string>)
    ensures MergedSoFar([], taken, flash, [], map[])
  {
  }

  lemma SoFarIsIndexed(sections: seq<Section>, taken: set<string>, flash: set<string>, entries: seq<Entry>,
    index: map<string, nat>)
    requires MergedSoFar(sections, taken, flash, entries, index)
    ensures Indexed(entries, index)
  {
  }

  /** The next section clashes with an earlier one exactly when both copies have a device. */
  lemma ClashWithEarlier(sections: seq<Section>, i: nat, taken: set<string>, flash: set<string>, entries: seq<Entry>,
    index: map<string, nat>)
    requires i < |sections| && MergedSoFar(sections[..i], taken, flash, entries, index)
    ensures ClashesBack(sections, RelevantWithDevice(taken, flash), i) <==>
            Relevant(sections[i], taken, flash) && sections[i].disk.id in index && sections[i].disk.device != ""
            && entries[index[sections[i].disk.id]].disk.device != ""
  {
    var s, counts := sections[i], RelevantWithDevice(taken, flash);
    if k :| ClashAt(sections, counts, k, i) {
      assert sections[..i][k] == sections[k];
      assert Represented(sections[k], entries, index);
    }
    if Relevant(s, taken, flash) && s.disk.id in index && s.disk.device != ""
        && entries[index[s.disk.id]].disk.device != "" {
      var e := entries[index[s.disk.id]];
      assert e in entries;
      var t :| t in sections[..i] && Relevant(t, taken, flash) && e == EntryOf(t, Unassigned);
      var k :| 0 <= k < i && sections[..i][k] == t;
      assert ClashAt(sections, counts, k, i);
    }
  }

  lemma SoFarIsMerged(sections: seq<Section>, taken: set<string>, flash: set<string>, entries: seq<Entry>,
    index: map<string, nat>)
    requires MergedSoFar(sections, taken, flash, entries, index)
    ensures Merged(sections, taken, flash, entries)
  {
    forall s | s in sections && Relevant(s, taken, flash)
      ensures if s.disk.id == "" || s.disk.device != "" then EntryOf(s, Unassigned) in entries
              else exists e :: e in entries && e.disk.id == s.disk.id
    {
      assert Represented(s, entries, index);
      if s.disk.id != "" {
        assert entries[index[s.disk.id]] in entries;
      }
    }
  }

  // ----- readDiskInventoryEntries and selectedDisks -----

  /** The collector looks at an entry; transient unassigned rows without a device are passed over. */
  predicate Taken(e: Entry) {
    e.selected && !(e.origin.Unassigned? && e.disk.device == "")
  }

  function Selected(entries: seq<Entry>): (disks: seq<UnraidDisk>) {
    if entries == [] then [] else
      var last := entries[|entries| - 1];
      Selected(entries[..|entries| - 1]) + (if Taken(last) then [last.disk] else [])
  }

  ghost predicate AllValid(entries: seq<Entry>) {
    forall i :: 0 <= i < |entries| && Taken(entries[i]) ==> entries[i].validationError == ""
  }

  lemma NextSelected(entries: seq<Entry>, i: nat)
    requires i < |entries|
    ensures AllValid(entries[..i + 1]) <==>
          AllValid(entries[..i]) && (Taken(entries[i]) ==> entries[i].validationError == "")
    ensures Taken(entries[i]) && entries[i].validationError != "" ==> !AllValid(entries)
    ensures Selected(entries[..i + 1]) ==
            if Taken(entries[i]) then Selected(entries[..i]) + [entries[i].disk] else Selected(entries[..i])
  {
    assert entries[..i + 1] == entries[..i] + [entries[i]] && entries[..i + 1][..i] == entries[..i];
    assert Selected(entries[..i]) + [] == Selected(entries[..i]);
  }

  lemma NoneSelected()
    ensures AllValid([]) && Selected([]) == []
  {
  }

  /** selectedDisks. */
  method SelectedDisks(entries: seq<Entry>) returns (r: Result<seq<UnraidDisk>, InventoryError>)
    ensures r.Ok? <==> AllValid(entries)
    ensures r.Ok? ==> r.value == Selected(entries)
  {
    hide AllValid, Selected;
    var disks: seq<UnraidDisk> := [];
    assert AllValid(entries[..0]) && Selected(entries[..0]) == [] by { NoneSelected(); }
    for i := 0 to |entries|
      invariant AllValid(entries[..i]) && disks == Selected(entries[..i])
    {
      var entry := entries[i];
      NextSelected(entries, i);
      if !entry.selected {
        continue;
      }
      if entry.origin.Unassigned? && entry.disk.device == "" {
        continue;
      }
      if entry.validationError != "" {
        return Err(InvalidDisk(entry.disk.name, entry.validationError));
      }
      disks := disks + [entry.disk];
    }
    assert entries[..|entries|] == entries;
    return Ok(disks);
  }

  function EntryKey(e: Entry): Key {
    DiskKey(e.disk)
  }

  lemma {:induction false} SelectedMembers(entries: seq<Entry>)
    ensures forall d :: d in Selected(entries) <==> exists e :: e in entries && Taken(e) && e.disk == d
  {
    if entries != [] {
      var before, last := entries[..|entries| - 1], entries[|entries| - 1];
      SelectedMembers(before);
      assert entries == before + [last];
      forall d ensures d in Selected(entries) <==> exists e :: e in entries && Taken(e) && e.disk == d {
        if d in Selected(entries) && d !in Selected(before) {
          assert last in entries && Taken(last) && last.disk == d;
        }
      }
    }
  }

  /** Where a selected disk comes from. */
  lemma SelectedAt(entries: seq<Entry>, i: nat) returns (k: nat)
    requires i < |Selected(entries)|
    ensures k < |entries| && Taken(entries[k]) && entries[k].disk == Selected(entries)[i]
  {
    SelectedMembers(entries);
    assert Selected(entries)[i] in Selected(entries);
    var e :| e in entries && Taken(e) && e.disk == Selected(entries)[i];
    k :| 0 <= k < |entries| && entries[k] == e;
  }

  lemma {:induction false} SelectedSorted(entries: seq<Entry>)
    requires SortedBy(entries, EntryKey)
    ensures SortedBy(Selected(entries), DiskKey)
  {
    if entries != [] {
      var before, last := entries[..|entries| - 1], entries[|entries| - 1];
      SelectedSorted(before);
      var s := Selected(before);
      forall i | 0 <= i < |s| ensures !KeyLess(DiskKey(last.disk), DiskKey(s[i])) {
        var k := SelectedAt(before, i);
        assert entries[k] == before[k] && EntryKey(entries[k]) == DiskKey(s[i]) && EntryKey(last) == DiskKey(last.disk);
      }
    }
  }

  lemma {:induction false} SelectedDistinct(entries: seq<Entry>)
    requires UniqueIds(entries) && AllValid(entries)
    requires forall e :: e in entries && e.validationError == "" ==> e.disk.id != ""
    ensures DistinctInventory(Selected(entries))
  {
    if entries != [] {
      var before, last := entries[..|entries| - 1], entries[|entries| - 1];
      assert entries == before + [last];
      SelectedDistinct(before);
      var s := Selected(before);
      forall i | 0 <= i < |s| ensures s[i].id != last.disk.id {
        var k := SelectedAt(before, i);
        assert entries[k] == before[k] && entries[k] in entries;
      }
    }
  }

  lemma UniqueIdsRearranged(entries: seq<Entry>, other: seq<Entry>)
    requires UniqueIds(entries) && multiset(entries) == multiset(other)
    ensures UniqueIds(other)
  {
    forall i, j | 0 <= i < j < |other| && other[i].disk.id != "" ensures other[i].disk.id != other[j].disk.id {
      assert other[i] in multiset(other) && other[j] in multiset(other);
      Twice(other, other[i]);
      Twice(entries, other[i]);
      var k :| 0 <= k < |entries| && entries[k] == other[i];
      var m :| 0 <= m < |entries| && entries[m] == other[j];
    }
  }

  /** The two sets read off the assigned entries are those of the sections. */
  lemma SetsOfAssigned(sections: seq<Section>, entries: seq<Entry>)
    requires FromAssigned(sections, entries)
    ensures (set e | e in entries && e.disk.id != "" :: e.disk.id) == AssignedIds(multiset(sections))
    ensures (set e | e in entries && IsFlash(e.disk.name) && e.disk.device != "" :: e.disk.device) ==
            FlashDevices(multiset(sections))
  {
    var ids := set e | e in entries && e.disk.id != "" :: e.disk.id;
    var flash := set e | e in entries && IsFlash(e.disk.name) && e.disk.device != "" :: e.disk.device;
    forall id ensures id in ids <==> id in AssignedIds(multiset(sections)) {
      if id in ids {
        var e :| e in entries && e.disk.id != "" && e.disk.id == id;
        var s :| s in sections && !s.notPresent && e == EntryOf(s, Assigned);
        assert s in multiset(sections);
      }
      if id in AssignedIds(multiset(sections)) {
        var s :| s in multiset(sections) && PresentWithId(s) && s.disk.id == id;
        assert EntryOf(s, Assigned) in entries;
      }
    }
    forall d ensures d in flash <==> d in FlashDevices(multiset(sections)) {
      if d in flash {
        var e :| e in entries && IsFlash(e.disk.name) && e.disk.device != "" && e.disk.device == d;
        var s :| s in sections && !s.notPresent && e == EntryOf(s, Assigned);
        assert s in multiset(sections);
      }
      if d in FlashDevices(multiset(sections)) {
        var s :| s in multiset(sections) && !s.notPresent && IsFlash(s.disk.name) && s.disk.device != ""
            && s.disk.device == d;
        assert EntryOf(s, Assigned) in entries;
      }
    }
  }

  /** The taken entries are exactly those of the wanted sections. */
  ghost predicate TakesWanted(a: multiset<Section>, u: multiset<Section>, entries: seq<Entry>) {
    (forall e :: e in entries && Taken(e) ==>
          exists s :: s in Wanted(a, u) && s.disk == e.disk
              && ValidationError(s.disk, s.thermalError) == e.validationError)
    && forall s :: s in Wanted(a, u) ==>
      exists e :: e in entries && Taken(e) && s.disk == e.disk
          && ValidationError(s.disk, s.thermalError) == e.validationError
  }

  lemma MergeTakesWanted(a: seq<Section>, u: seq<Section>, x: seq<Entry>, y: seq<Entry>, all: seq<Entry>)
    requires FromAssigned(a, x) && multiset(all) == multiset(x + y)
    requires Merged(u, AssignedIds(multiset(a)), FlashDevices(multiset(a)), y)
    ensures TakesWanted(multiset(a), multiset(u), all)
  {
    hide ValidationError, UniqueIds, IsFlash, AssignedIds, FlashDevices;
    assert forall e :: e in all <==> e in multiset(all);
    assert forall e :: e in all <==> e in x || e in y;
    var w := Wanted(multiset(a), multiset(u));
    forall e | e in all && Taken(e)
      ensures exists s :: s in w && s.disk == e.disk && ValidationError(s.disk, s.thermalError) == e.validationError
    {
      if e in x {
        var s :| s in a && !s.notPresent && e == EntryOf(s, Assigned);
        assert s in multiset(a) && s in w;
      } else {
        var s :| s in u && Relevant(s, AssignedIds(multiset(a)), FlashDevices(multiset(a)))
            && e == EntryOf(s, Unassigned);
        assert s in multiset(u) && s in w;
      }
    }
    forall s | s in w
      ensures exists e ::
            e in all && Taken(e) && s.disk == e.disk && ValidationError(s.disk, s.thermalError) == e.validationError
    {
      if s in multiset(a) && !s.notPresent && s.selected {
        assert EntryOf(s, Assigned) in all;
      } else {
        assert EntryOf(s, Unassigned) in all;
      }
    }
  }

  lemma MergeHasUniqueIds(a: seq<Section>, u: seq<Section>, x: seq<Entry>, y: seq<Entry>)
    requires FromAssigned(a, x) && UniqueIds(x)
    requires Merged(u, AssignedIds(multiset(a)), FlashDevices(multiset(a)), y)
    ensures UniqueIds(x + y)
  {
    hide ValidationError, IsFlash;
    SetsOfAssigned(a, x);
    forall i, j | 0 <= i < |x| && 0 <= j < |y| && x[i].disk.id != "" ensures x[i].disk.id != y[j].disk.id {
      assert x[i] in x && y[j] in y;
      var s :| s in u && Relevant(s, AssignedIds(multiset(a)), FlashDevices(multiset(a)))
          && y[j] == EntryOf(s, Unassigned);
      assert x[i].disk.id in (set e | e in x && e.disk.id != "" :: e.disk.id);
    }
  }

  lemma SelectedAreThermal(a: multiset<Section>, u: multiset<Section>, all: seq<Entry>)
    requires TakesWanted(a, u, all)
    ensures forall d :: d in Selected(all) <==> d in ThermalDisks(a, u)
  {
    hide Wanted, ValidationError, Taken, Selected;
    SelectedMembers(all);
    forall d ensures d in Selected(all) <==> d in ThermalDisks(a, u) {
      if d in Selected(all) {
        var e :| e in all && Taken(e) && e.disk == d;
      }
      if d in ThermalDisks(a, u) {
        var s :| s in Wanted(a, u) && s.disk == d;
      }
    }
  }

  lemma ValidIffWanted(a: multiset<Section>, u: multiset<Section>, all: seq<Entry>)
    requires TakesWanted(a, u, all)
    ensures AllValid(all) <==> !exists s :: s in Wanted(a, u) && ValidationError(s.disk, s.thermalError) != ""
  {
    hide Wanted, ValidationError, Taken;
    if AllValid(all) {
      forall s | s in Wanted(a, u) ensures ValidationError(s.disk, s.thermalError) == "" {
        var e :| e in all && Taken(e) && s.disk == e.disk
            && ValidationError(s.disk, s.thermalError) == e.validationError;
        var k :| 0 <= k < |all| && all[k] == e;
      }
    } else {
      var k :| 0 <= k < |all| && Taken(all[k]) && all[k].validationError != "";
      assert all[k] in all;
    }
  }

  /** The sorted entries lead to the inventory of the specification. */
  lemma EntriesGiveInventory(a: multiset<Section>, u: multiset<Section>, all: seq<Entry>)
    requires TakesWanted(a, u, all) && UniqueIds(all) && SortedBy(all, EntryKey)
    requires forall e :: e in all && e.validationError == "" ==> e.disk.id != ""
    ensures AllValid(all) <==> !exists s :: s in Wanted(a, u) && ValidationError(s.disk, s.thermalError) != ""
    ensures AllValid(all) ==> IsInventory(a, u, Selected(all))
  {
    hide Wanted, ValidationError, SortedBy, UniqueIds, TakesWanted, AllValid, DistinctInventory, ThermalDisks, Selected;
    ValidIffWanted(a, u, all);
    SelectedAreThermal(a, u, all);
    SelectedSorted(all);
    if AllValid(all) {
      SelectedDistinct(all);
    }
  }

  lemma EntriesAreOf(a: seq<Section>, u: seq<Section>, taken: set<string>, flash: set<string>, x: seq<Entry>,
    y: seq<Entry>, all: seq<Entry>)
    requires FromAssigned(a, x) && Merged(u, taken, flash, y) && multiset(all) == multiset(x + y)
    ensures forall e :: e in all && e.validationError == "" ==> e.disk.id != ""
  {
    hide UniqueIds;
    assert forall e :: e in all <==> e in multiset(all);
    assert forall e :: e in all <==> e in x || e in y;
  }

  /** readDiskInventory, from the sections of the two files; None is a file that cannot be loaded. */
  method ReadDiskInventory(a: Option<seq<Section>>, u: Option<seq<Section>>)
    returns (r: Result<seq<UnraidDisk>, InventoryError>)
    ensures r.Ok? <==> a.Some? && u.Some? && !Fails(multiset(a.value), multiset(u.value))
    ensures r.Ok? ==> IsInventory(multiset(a.value), multiset(u.value), r.value)
    ensures r.Ok? ==> forall i, j :: 0 <= i < j < |r.value| ==> ByNameAndId(r.value[i], r.value[j])
  {
    hide FromAssigned, Merged, Clash, Wanted, ValidationError, UniqueIds, TakesWanted, SortedBy, IsFlash, AllValid,
      Selected, IsInventory;
    if a.None? {
      return Err(Unreadable);
    }
    var x := ReadAssigned(a.value);
    if x.Err? {
      return Err(x.error);
    }
    var ids := set e | e in x.value && e.disk.id != "" :: e.disk.id;
    var flash := set e | e in x.value && IsFlash(e.disk.name) && e.disk.device != "" :: e.disk.device;
    SetsOfAssigned(a.value, x.value);
    if u.None? {
      return Err(Unreadable);
    }
    var y := ReadUnassigned(u.value, ids, flash);
    if y.Err? {
      return Err(y.error);
    }
    var all := SortByKey(x.value + y.value, EntryKey);
    MergeTakesWanted(a.value, u.value, x.value, y.value, all);
    MergeHasUniqueIds(a.value, u.value, x.value, y.value);
    UniqueIdsRearranged(x.value + y.value, all);
    EntriesAreOf(a.value, u.value, ids, flash, x.value, y.value, all);
    EntriesGiveInventory(multiset(a.value), multiset(u.value), all);
    r := SelectedDisks(all);
    if r.Ok? {
      InventoryIsInOrder(multiset(a.value), multiset(u.value), r.value);
    }
  }
}
