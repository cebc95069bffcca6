/** Whole runs of the inode table: what its clients are promised however it caches, evicts
    and writes back. */
module InodeRuns {
  import opened Wrappers
  import opened Layout
  import opened InodeCache

  /** The allocated inodes as clients know them: the newest record, the handles that are
      out, and the record on disk. */
  datatype View = View(records: map<Id, DiskInode>, users: map<Id, nat>, stored: map<Id, DiskInode>)

  datatype Op = Open(id: Id) | Close(id: Id) | Edit(id: Id, record: DiskInode) | Sync | Evict(device: nat) | New(device: nat, count: nat)

  datatype Answer = Refused | Done | Read(record: DiskInode) | Made(id: Id)

  ghost function Newest(slots: Slots, disk: Records, id: Id): DiskInode
  {
    match Logical(slots, disk, id) case Some(record) => record case None => ZeroInode
  }

  ghost function ViewOf(slots: Slots, disk: Records, numbers: set<Id>): View
  {
    View(map id | id in numbers :: Newest(slots, disk, id), map id | id in numbers :: UsersOf(slots, id),
         map id | id in numbers :: if id in disk then disk[id] else ZeroInode)
  }

  predicate InUse(v: View, id: Id) { id in v.users && v.users[id] > 0 }

  /** As many inodes are in use as the table has slots. */
  ghost predicate Crowded(v: View)
  {
    |set id | id in v.users && v.users[id] > 0| >= CAPACITY
  }

  /** Every other inode is as it was, but that one without links and users may be gone. */
  ghost predicate Kept(v: View, v': View, but: set<Id>)
  {
    forall id: Id | id !in but :: KeptOne(v, v', id)
  }

  ghost predicate KeptOne(v: View, v': View, id: Id)
  {
    && (id in v'.records <==> id in v'.users) && (id in v.records <==> id in v.users)
    && (id in v'.records ==> id in v.records && v'.records[id] == v.records[id] && v'.users[id] == v.users[id])
    && (id in v.records && id !in v'.records ==> v.records[id].links == 0 && v.users[id] == 0)
  }

  /** What an operation may answer and do. */
  ghost predicate Acts(op: Op, v: View, a: Answer, v': View)
  {
    match op
    case Open(id) =>
      if a == Refused then v' == v && (id.device == 0 || id !in v.records || Crowded(v))
      else
        && id in v.records && a == Read(v.records[id]) && Kept(v, v', {id}) && id in v.users
        && id in v'.records && v'.records[id] == v.records[id] && id in v'.users && v'.users[id] == v.users[id] + 1
    case Close(id) =>
      if a == Refused then v' == v && !InUse(v, id)
      else a == Done && InUse(v, id) && v' == v.(users := v.users[id := v.users[id] - 1])
    case Edit(id, record) =>
      if a == Refused then v' == v && !(InUse(v, id) && SameKind(v, id, record))
      else a == Done && InUse(v, id) && SameKind(v, id, record) && v' == v.(records := v.records[id := record])
    case Sync => a == Done && v' == v.(stored := v.records)
    case Evict(device) =>
      if a == Refused then v' == v && exists id: Id :: id.device == device && InUse(v, id)
      else a == Done && Kept(v, v', {}) && forall id: Id | id.device == device :: !InUse(v, id)
    case New(device, count) =>
      match a
      case Made(id) =>
        && id.device == device && 1 <= id.number <= count && id !in v.records
        && Taken(v, device, id.number)
        && v' == View(v.records[id := ZeroInode], v.users[id := 0], v.stored[id := ZeroInode])
      case _ => a == Refused && v' == v && Taken(v, device, count + 1)
  }

  /** All numbers of a device below that one are allocated. */
  ghost predicate Taken(v: View, device: nat, below: nat)
  {
    forall n: nat | 1 <= n < below :: Id(device, n) in v.records
  }

  /** A file keeps its kind: with data zones or without. */
  predicate SameKind(v: View, id: Id, record: DiskInode)
  {
    id in v.records && (HasData(v.records[id].mode) <==> HasData(record.mode))
  }

  /** A run, view by view. */
  ghost predicate Traces(ops: seq<Op>, answers: seq<Answer>, views: seq<View>)
  {
    && |answers| == |ops| && |views| == |ops| + 1
    && forall i | 0 <= i < |ops| :: Acts(ops[i], views[i], answers[i], views[i + 1])
  }

  /** The record of an inode by what its clients last wrote. */
  function LastWritten(first: DiskInode, ops: seq<Op>, answers: seq<Answer>, id: Id): DiskInode
    requires |answers| == |ops|
  {
    if ops == [] then first
    else
      var k := |ops| - 1;
      if ops[k].Edit? && ops[k].id == id && answers[k] == Done then ops[k].record
      else if answers[k] == Made(id) then ZeroInode
      else LastWritten(first, ops[..k], answers[..k], id)
  }

  /** Throughout a run every inode is what was last written to it, however often it was
      evicted and loaded again. */
  lemma {:induction false} RunRemembers(ops: seq<Op>, answers: seq<Answer>, views: seq<View>, id: Id)
    requires Traces(ops, answers, views) && id in views[|ops|].records
    ensures var first := if id in views[0].records then views[0].records[id] else ZeroInode;
      views[|ops|].records[id] == LastWritten(first, ops, answers, id)
  {
    if ops != [] {
      var k := |ops| - 1;
      assert Acts(ops[k], views[k], answers[k], views[k + 1]);
      StepRemembers(ops[k], views[k], answers[k], views[k + 1], id);
      if id in views[k].records { RunRemembers(ops[..k], answers[..k], views[..k + 1], id); }
    }
  }

  lemma StepRemembers(op: Op, v: View, a: Answer, v': View, id: Id)
    requires Acts(op, v, a, v') && id in v'.records
    ensures id !in v.records ==> a == Made(id)
    ensures a == Made(id) ==> v'.records[id] == ZeroInode
    ensures a != Made(id) ==> v'.records[id] == if op.Edit? && op.id == id && a == Done then op.record else v.records[id]
  {
    match op
    case Open(other) => if other != id && a != Refused { assert KeptOne(v, v', id); }
    case Evict(_) => if a != Refused { assert KeptOne(v, v', id); }
    case _ =>
  }

  /** The handles that are out on an inode: one more for each open, one less for each close. */
  function HandlesOut(first: int, ops: seq<Op>, answers: seq<Answer>, id: Id): int
    requires |answers| == |ops|
  {
    if ops == [] then first
    else
      var k := |ops| - 1;
      var before := HandlesOut(first, ops[..k], answers[..k], id);
      if answers[k] == Made(id) then 0
      else if ops[k] == Open(id) && answers[k] != Refused then before + 1
      else if ops[k] == Close(id) && answers[k] == Done then before - 1
      else before
  }

  lemma {:induction false} RunCounts(ops: seq<Op>, answers: seq<Answer>, views: seq<View>, id: Id)
    requires Traces(ops, answers, views) && id in views[|ops|].users && views[0].records.Keys == views[0].users.Keys
    ensures views[|ops|].records.Keys == views[|ops|].users.Keys
    ensures var first := if id in views[0].users then views[0].users[id] else 0;
      views[|ops|].users[id] == HandlesOut(first, ops, answers, id)
  {
    KeysAlike(ops, answers, views);
    if ops != [] {
      var k := |ops| - 1;
      KeysAlike(ops[..k], answers[..k], views[..k + 1]);
      assert Acts(ops[k], views[k], answers[k], views[k + 1]);
      StepCounts(ops[k], views[k], answers[k], views[k + 1], id);
      if id in views[k].users { RunCounts(ops[..k], answers[..k], views[..k + 1], id); }
    }
  }

  lemma {:induction false} KeysAlike(ops: seq<Op>, answers: seq<Answer>, views: seq<View>)
    requires Traces(ops, answers, views) && views[0].records.Keys == views[0].users.Keys
    ensures views[|ops|].records.Keys == views[|ops|].users.Keys
  {
    if ops != [] {
      var k := |ops| - 1;
      KeysAlike(ops[..k], answers[..k], views[..k + 1]);
      assert Acts(ops[k], views[k], answers[k], views[k + 1]);
      StepKeys(ops[k], views[k], answers[k], views[k + 1]);
    }
  }

  lemma StepKeys(op: Op, v: View, a: Answer, v': View)
    requires Acts(op, v, a, v') && v.records.Keys == v.users.Keys
    ensures v'.records.Keys == v'.users.Keys
  {
    if (op.Open? || op.Evict?) && a != Refused {
      forall id: Id ensures id in v'.records <==> id in v'.users {
        assert op.Evict? || id != op.id ==> KeptOne(v, v', id);
      }
    }
  }

  lemma StepCounts(op: Op, v: View, a: Answer, v': View, id: Id)
    requires Acts(op, v, a, v') && id in v'.users && v.records.Keys == v.users.Keys
    ensures id !in v.users ==> a == Made(id)
    ensures a == Made(id) ==> v'.users[id] == 0
    ensures a != Made(id) ==> v'.users[id] == v.users[id] + (if op == Open(id) && a != Refused then 1 else 0)
                                                          - (if op == Close(id) && a == Done then 1 else 0)
  {
    match op
    case Open(other) => if other != id && a != Refused { assert KeptOne(v, v', id); }
    case Evict(_) => if a != Refused { assert KeptOne(v, v', id); }
    case _ =>
  }

  /** An inode that is in use throughout a run is not released in it. */
  lemma {:induction false} UsedStays(ops: seq<Op>, answers: seq<Answer>, views: seq<View>, id: Id)
    requires Traces(ops, answers, views) && id in views[0].records
    requires forall i | 0 <= i < |ops| :: InUse(views[i], id)
    ensures id in views[|ops|].records
  {
    if ops != [] {
      var k := |ops| - 1;
      UsedStays(ops[..k], answers[..k], views[..k + 1], id);
      assert Acts(ops[k], views[k], answers[k], views[k + 1]);
      if ops[k].Open? || ops[k].Evict? { assert ops[k].Evict? || id != ops[k].id ==> KeptOne(views[k], views[k + 1], id); }
    }
  }

  // ----- the table's operations -----

  /** Whether an inode that is not cached could be. */
  method HasRoom(table: InodeTable) returns (r: bool)
    ensures r <==> exists k: Index :: table.slots[k].None? || Idle(table.slots, k)
  {
    for k := 0 to CAPACITY
      invariant forall j: Index | j < k :: table.slots[j].Some? && !Idle(table.slots, j)
    {
      if table.slots[k].None? || table.slots[k].value.users == 0 {
        return true;
      }
    }
    return false;
  }

  ghost function Seen(table: InodeTable): View
    reads table
  {
    ViewOf(table.slots, table.disk, table.numbers)
  }

  method PerformOpen(table: InodeTable, id: Id, now: U32) returns (a: Answer)
    requires table.Valid()
    modifies table
    ensures table.Valid() && Acts(Open(id), old(Seen(table)), a, Seen(table))
  {
    hide OneSlot, Faithful, ZonesOwned, SpecialsOwnNothing, Logical, UsersOf, InTable, Survives, Kept, KeptOne, Crowded;
    ghost var s, d, n := table.slots, table.disk, table.numbers;
    var found := table.Lookup(id);
    var room := HasRoom(table);
    if id.device == 0 || id !in table.numbers || (found.None? && !room) {
      if found.None? && !room { AllInUse(s, d, n); }
      return Refused;
    }
    if found.Some? { IsInTable(s, found.value, id); }
    var k := table.AcquireRaw(id, now);
    LogicalCached(table.slots, table.disk, k, id);
    AllKept(s, d, n, table.slots, table.disk, table.numbers, {id});
    return Read(table.slots[k].value.record);
  }

  method PerformClose(table: InodeTable, id: Id) returns (a: Answer)
    requires table.Valid()
    modifies table
    ensures table.Valid() && Acts(Close(id), old(Seen(table)), a, Seen(table))
  {
    hide ViewOf, OneSlot, Faithful, ZonesOwned, SpecialsOwnNothing, Logical, UsersOf, InTable;
    ghost var s, d, n := table.slots, table.disk, table.numbers;
    var found := table.Lookup(id);
    CachedCount(s, d, n, found, id);
    if found.None? || table.slots[found.value].value.users == 0 {
      return Refused;
    }
    var k := found.value;
    table.Handle(k, table.slots[k].value.users - 1);
    HandleView(s, d, n, k, s[k].value.users - 1);
    return Done;
  }

  method PerformEdit(table: InodeTable, id: Id, record: DiskInode) returns (a: Answer)
    requires table.Valid()
    modifies table
    ensures table.Valid() && Acts(Edit(id, record), old(Seen(table)), a, Seen(table))
  {
    hide ViewOf, OneSlot, Faithful, ZonesOwned, SpecialsOwnNothing, Logical, UsersOf, InTable, HasData;
    ghost var s, d, n := table.slots, table.disk, table.numbers;
    var found := table.Lookup(id);
    CachedCount(s, d, n, found, id);
    if found.None? || table.slots[found.value].value.users == 0 {
      return Refused;
    }
    var k := found.value;
    if HasData(table.slots[k].value.record.mode) != HasData(record.mode) {
      return Refused;
    }
    NoDataNoZones(s, d, table.owners, k, id);
    table.Change(k, record);
    RecordView(s, d, n, k, record);
    return Done;
  }

  method PerformSync(table: InodeTable) returns (a: Answer)
    requires table.Valid()
    modifies table
    ensures table.Valid() && Acts(Sync, old(Seen(table)), a, Seen(table))
    ensures forall k: nat, id: Id | Cached(table.slots, k, id) :: id in table.disk && table.disk[id] == table.slots[k].value.record
  {
    hide OneSlot, Faithful, ZonesOwned, SpecialsOwnNothing, Logical, UsersOf, InTable;
    ghost var s, d, n := table.slots, table.disk, table.numbers;
    table.SyncInodes();
    forall id: Id ensures Logical(table.slots, table.disk, id) == Logical(s, d, id) {
      assert table.Inode(id) == old(table.Inode(id));
    }
    SyncedView(s, d, n, table.slots, table.disk);
    return Done;
  }

  /** A device goes only when none of its inodes is in use. */
  method PerformEvict(table: InodeTable, device: nat, now: U32) returns (a: Answer)
    requires table.Valid()
    modifies table
    ensures table.Valid() && Acts(Evict(device), old(Seen(table)), a, Seen(table))
    ensures a == Done ==> forall k: Index | table.slots[k].Some? :: table.slots[k].value.id.device != device
  {
    hide OneSlot, Faithful, ZonesOwned, SpecialsOwnNothing, Logical, UsersOf, InTable, Survives, KeptOne;
    ghost var s, d, n := table.slots, table.disk, table.numbers;
    DeviceInUse(s, d, n, device);
    var active := table.HasActiveInodes(device);
    if active {
      return Refused;
    }
    table.EvictDevice(device, now);
    AllKept(s, d, n, table.slots, table.disk, table.numbers, {});
    return Done;
  }

  method PerformNew(table: InodeTable, device: nat, count: nat) returns (a: Answer)
    requires table.Valid()
    modifies table
    ensures table.Valid() && Acts(New(device, count), old(Seen(table)), a, Seen(table))
  {
    hide OneSlot, Faithful, ZonesOwned, SpecialsOwnNothing, Logical, UsersOf, InTable;
    ghost var s, d, n := table.slots, table.disk, table.numbers;
    var id := table.AllocInode(device, count);
    if id.None? {
      return Refused;
    }
    forall other: Id | other != id.value ensures Logical(s, table.disk, other) == Logical(s, d, other) {
      assert table.Inode(other) == old(table.Inode(other));
    }
    NewView(s, d, n, id.value);
    return Made(id.value);
  }

  method Perform(table: InodeTable, op: Op, now: U32) returns (a: Answer)
    requires table.Valid()
    modifies table
    ensures table.Valid() && Acts(op, old(Seen(table)), a, Seen(table))
  {
    hide Acts, Seen;
    match op
    case Open(id) => a := PerformOpen(table, id, now);
    case Close(id) => a := PerformClose(table, id);
    case Edit(id, record) => a := PerformEdit(table, id, record);
    case Sync => a := PerformSync(table);
    case Evict(device) => a := PerformEvict(table, device, now);
    case New(device, count) => a := PerformNew(table, device, count);
  }

  /** Any run is a trace of such steps: opening, closing, editing, syncing, evicting and
      allocating in any order. */
  method Run(table: InodeTable, ops: seq<Op>, now: U32) returns (answers: seq<Answer>, ghost views: seq<View>)
    requires table.Valid()
    modifies table
    ensures table.Valid() && Traces(ops, answers, views)
    ensures views[0] == old(Seen(table)) && views[|ops|] == Seen(table)
  {
    hide Acts, Seen;
    answers, views := [], [Seen(table)];
    for i := 0 to |ops|
      invariant table.Valid() && |answers| == i && |views| == i + 1
      invariant views[0] == old(Seen(table)) && views[i] == Seen(table)
      invariant forall j | 0 <= j < i :: Acts(ops[j], views[j], answers[j], views[j + 1])
    {
      var a := Perform(table, ops[i], now);
      answers, views := answers + [a], views + [Seen(table)];
    }
  }

  // ----- facts about views -----

  lemma IsInTable(slots: Slots, k: nat, id: Id)
    requires Cached(slots, k, id)
    ensures InTable(slots, id)
  {
  }

  lemma AllKept(s: Slots, d: Records, n: set<Id>, s': Slots, d': Records, n': set<Id>, but: set<Id>)
    requires OneSlot(s) && forall id: Id :: Survives(s, d, n, s', d', n', id)
    requires forall id: Id | id !in but :: UsersOf(s', id) == UsersOf(s, id)
    ensures Kept(ViewOf(s, d, n), ViewOf(s', d', n'), but)
  {
    hide OneSlot, Logical, UsersOf;
    forall id: Id | id !in but ensures KeptOne(ViewOf(s, d, n), ViewOf(s', d', n'), id) {
      assert Survives(s, d, n, s', d', n', id);
      if id in n && id !in n' {
        var k: nat :| Cached(s, k, id) && s[k].value.record.links == 0 && s[k].value.users == 0;
        LogicalCached(s, d, k, id);
        UsersCached(s, k, id);
      }
    }
  }

  /** The slots in use hold as many inodes. */
  lemma {:induction false} IdsInUse(s: Slots, d: Records, n: set<Id>, m: nat, ids: set<Id>)
    requires OneSlot(s) && m <= CAPACITY && forall k: Index | k < m :: s[k].Some? && s[k].value.users > 0
    requires forall id: Id :: id in ids <==> exists k: nat :: k < m && Cached(s, k, id)
    ensures |ids| == m
  {
    if m > 0 {
      var last := s[m - 1].value.id;
      assert Cached(s, m - 1, last);
      IdsInUse(s, d, n, m - 1, ids - {last});
    } else {
      assert ids == {};
    }
  }

  lemma AllInUse(s: Slots, d: Records, n: set<Id>)
    requires OneSlot(s) && Faithful(s, d, n) && forall k: Index :: s[k].Some? && !Idle(s, k)
    ensures Crowded(ViewOf(s, d, n))
  {
    hide Logical, UsersOf;
    var v := ViewOf(s, d, n);
    var ids := set id | id in v.users && v.users[id] > 0;
    var cached := set k: Index | 0 <= k < CAPACITY :: s[k].value.id;
    forall id: Id ensures id in cached <==> exists k: nat :: k < CAPACITY && Cached(s, k, id) {
      if id in cached {
        var k: Index :| s[k].value.id == id;
        assert Cached(s, k, id);
      }
    }
    IdsInUse(s, d, n, CAPACITY, cached);
    forall id | id in cached ensures id in ids {
      var k: Index :| s[k].value.id == id;
      assert Cached(s, k, id);
      UsersCached(s, k, id);
    }
    SubsetSize(cached, ids);
  }

  lemma SubsetSize(a: set<Id>, b: set<Id>)
    requires a <= b
    ensures |a| <= |b|
  {
    assert b == a + (b - a);
  }

  lemma CachedCount(s: Slots, d: Records, n: set<Id>, found: Option<nat>, id: Id)
    requires OneSlot(s) && Faithful(s, d, n)
    requires match found case None => !InTable(s, id) case Some(k) => Cached(s, k, id)
    ensures var v := ViewOf(s, d, n);
      match found
      case None => !InUse(v, id)
      case Some(k) =>
        && id in n && id in v.users && v.users[id] == s[k].value.users
        && id in v.records && v.records[id] == s[k].value.record
  {
    if found.Some? {
      UsersCached(s, found.value, id);
      LogicalCached(s, d, found.value, id);
    }
  }

  lemma HandleView(s: Slots, d: Records, n: set<Id>, k: Index, users: nat)
    requires OneSlot(s) && Faithful(s, d, n) && s[k].Some?
    ensures var id := s[k].value.id; var s' := s[k := Some(s[k].value.(users := users))];
      var v := ViewOf(s, d, n); id in n && ViewOf(s', d, n) == v.(users := v.users[id := users])
  {
    hide OneSlot, Faithful, Logical, UsersOf;
    var id := s[k].value.id;
    var s' := s[k := Some(s[k].value.(users := users))];
    CachedCount(s, d, n, Some(k), id);
    SlotChanged(s, d, k, s'[k].value);
    UsersCached(s', k, id);
    UsersBut(s, s', k, id);
  }

  lemma RecordView(s: Slots, d: Records, n: set<Id>, k: Index, record: DiskInode)
    requires OneSlot(s) && Faithful(s, d, n) && s[k].Some?
    ensures var id := s[k].value.id; var s' := s[k := Some(s[k].value.(record := record, dirty := true))];
      var v := ViewOf(s, d, n); id in n && ViewOf(s', d, n) == v.(records := v.records[id := record])
  {
    hide OneSlot, Faithful, Logical, UsersOf;
    var id := s[k].value.id;
    var s' := s[k := Some(s[k].value.(record := record, dirty := true))];
    CachedCount(s, d, n, Some(k), id);
    SlotChanged(s, d, k, s'[k].value);
    UsersCached(s', k, id);
    UsersBut(s, s', k, id);
  }

  lemma SyncedView(s: Slots, d: Records, n: set<Id>, s': Slots, d': Records)
    requires OneSlot(s') && Faithful(s', d', n) && n <= d'.Keys
    requires forall id: Id :: Logical(s', d', id) == Logical(s, d, id)
    requires forall id: Id :: UsersOf(s', id) == UsersOf(s, id)
    requires forall k: nat, id: Id | Cached(s', k, id) :: id in d' && d'[id] == s'[k].value.record
    ensures var v := ViewOf(s, d, n); ViewOf(s', d', n) == v.(stored := v.records)
  {
    hide OneSlot, Faithful, Logical, UsersOf, InTable;
    forall id | id in n ensures Newest(s', d', id) == d'[id] {
      StoredNewest(s', d', id);
    }
  }

  lemma StoredNewest(s: Slots, d: Records, id: Id)
    requires OneSlot(s) && id in d && forall k: nat | Cached(s, k, id) :: d[id] == s[k].value.record
    ensures Newest(s, d, id) == d[id]
  {
    if k: nat :| Cached(s, k, id) { LogicalCached(s, d, k, id); } else { NotCached(s, d, id); }
  }

  lemma DeviceInUse(s: Slots, d: Records, n: set<Id>, device: nat)
    requires OneSlot(s) && Faithful(s, d, n)
    ensures (exists k: Index :: s[k].Some? && s[k].value.id.device == device && s[k].value.users > 0)
        <==> exists id: Id :: id.device == device && InUse(ViewOf(s, d, n), id)
  {
    hide Logical, UsersOf;
    if k: Index :| s[k].Some? && s[k].value.id.device == device && s[k].value.users > 0 {
      assert Cached(s, k, s[k].value.id);
      UsersCached(s, k, s[k].value.id);
      assert InUse(ViewOf(s, d, n), s[k].value.id);
    }
    if id: Id :| id.device == device && InUse(ViewOf(s, d, n), id) {
      var k := HolderOf(s, id);
    }
  }

  lemma HolderOf(s: Slots, id: Id) returns (k: Index)
    requires OneSlot(s) && UsersOf(s, id) > 0
    ensures Cached(s, k, id) && s[k].value.users == UsersOf(s, id)
  {
    k :| Cached(s, k, id);
    UsersCached(s, k, id);
  }

  lemma NewView(s: Slots, d: Records, n: set<Id>, id: Id)
    requires OneSlot(s) && !InTable(s, id) && id !in n && Logical(s, d[id := ZeroInode], id) == Some(ZeroInode)
    requires forall other: Id | other != id :: Logical(s, d[id := ZeroInode], other) == Logical(s, d, other)
    ensures var v := ViewOf(s, d, n);
      ViewOf(s, d[id := ZeroInode], n + {id}) == View(v.records[id := ZeroInode], v.users[id := 0], v.stored[id := ZeroInode])
  {
    hide OneSlot, Logical, UsersOf, InTable;
    NotUsed(s, id);
  }

  lemma NotUsed(s: Slots, id: Id)
    requires !InTable(s, id)
    ensures UsersOf(s, id) == 0
  {
  }
}
