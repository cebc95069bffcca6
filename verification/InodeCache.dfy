/** The kernel's table of cached inodes: clock eviction, write-back, and the deferred
    release of inodes that lost their last link. */
module InodeCache {
  import opened Wrappers
  import opened Layout

  const CAPACITY := 32

  datatype Id = Id(device: nat, number: nat)

  /** `users` counts the handles held outside the table. */
  datatype Entry = Entry(id: Id, record: DiskInode, dirty: bool, users: nat)

  type Slots = s: seq<Option<Entry>> | |s| == CAPACITY witness seq(CAPACITY, _ => None)

  type Index = k: nat | k < CAPACITY

  type Records = map<Id, DiskInode>

  /** A data zone of a device. */
  datatype Zone = Zone(device: nat, number: nat)

  predicate Cached(slots: Slots, k: nat, id: Id)
  {
    k < CAPACITY && slots[k].Some? && slots[k].value.id == id
  }

  ghost predicate InTable(slots: Slots, id: Id)
  {
    exists k: nat :: Cached(slots, k, id)
  }

  // ----- the invariant -----

  /** At most one slot per inode. */
  ghost predicate OneSlot(slots: Slots)
  {
    forall j: nat, k: nat, id: Id | Cached(slots, j, id) && Cached(slots, k, id) :: j == k
  }

  /** Only allocated inodes are cached, and clean copies equal the record on disk. */
  ghost predicate Faithful(slots: Slots, disk: Records, numbers: set<Id>)
  {
    forall k: nat, id: Id | Cached(slots, k, id) ::
      id in numbers && id in disk && (!slots[k].value.dirty ==> slots[k].value.record == disk[id])
  }

  /** Zones belong to allocated inodes of their own device. */
  ghost predicate ZonesOwned(owners: map<Zone, Id>, numbers: set<Id>)
  {
    forall z | z in owners :: owners[z] in numbers && owners[z].device == z.device
  }

  /** The inode itself, wherever its newest record is. */
  ghost function Logical(slots: Slots, disk: Records, id: Id): Option<DiskInode>
  {
    if k: nat :| Cached(slots, k, id) then Some(slots[k].value.record)
    else if id in disk then Some(disk[id]) else None
  }

  lemma LogicalCached(slots: Slots, disk: Records, k: nat, id: Id)
    requires OneSlot(slots) && Cached(slots, k, id)
    ensures Logical(slots, disk, id) == Some(slots[k].value.record)
  {
  }

  ghost function ZonesOf(owners: map<Zone, Id>, id: Id): set<Zone>
  {
    set z | z in owners && owners[z] == id
  }

  /** Special files own no zones. */
  ghost predicate SpecialsOwnNothing(slots: Slots, disk: Records, owners: map<Zone, Id>)
  {
    forall z | z in owners ::
      Logical(slots, disk, owners[z]).Some? && HasData(Logical(slots, disk, owners[z]).value.mode)
  }

  /** A slot that nobody outside uses. */
  predicate Idle(slots: Slots, k: nat)
  {
    k < CAPACITY && slots[k].Some? && slots[k].value.users == 0
  }

  /** The handles that are out on an inode. */
  ghost function UsersOf(slots: Slots, id: Id): nat
  {
    if k: nat :| Cached(slots, k, id) then slots[k].value.users else 0
  }

  lemma UsersCached(slots: Slots, k: nat, id: Id)
    requires OneSlot(slots) && Cached(slots, k, id)
    ensures UsersOf(slots, id) == slots[k].value.users
  {
  }

  /** Only slot k changed, and nobody used what it held or holds but for inode `id`. */
  lemma UsersBut(slots: Slots, slots': Slots, k: Index, id: Id)
    requires OneSlot(slots) && OneSlot(slots') && forall j: Index | j != k :: slots'[j] == slots[j]
    requires slots[k].Some? && slots[k].value.id != id ==> slots[k].value.users == 0
    requires slots'[k].Some? && slots'[k].value.id != id ==> slots'[k].value.users == 0
    ensures forall other: Id | other != id :: UsersOf(slots', other) == UsersOf(slots, other)
  {
    forall other: Id | other != id ensures UsersOf(slots', other) == UsersOf(slots, other) {
      UsersElsewhere(slots, slots', k, other);
      UsersElsewhere(slots', slots, k, other);
    }
  }

  lemma UsersElsewhere(slots: Slots, slots': Slots, k: Index, other: Id)
    requires OneSlot(slots) && OneSlot(slots') && forall j: Index | j != k :: slots'[j] == slots[j]
    requires Cached(slots, k, other) ==> slots[k].value.users == 0
    ensures UsersOf(slots, other) > 0 ==> UsersOf(slots', other) == UsersOf(slots, other)
  {
    if j: nat :| Cached(slots, j, other) {
      UsersCached(slots, j, other);
      if j != k {
        assert Cached(slots', j, other);
        UsersCached(slots', j, other);
      }
    }
  }

  /** The offset-th slot from the clock hand on. */
  function HandAt(clock: Index, offset: nat): Index { (clock + offset) % CAPACITY }

  /** The first clean idle slot from the hand on, or else the first idle one. */
  ghost predicate IsVictim(slots: Slots, clock: Index, offset: nat)
  {
    && offset < CAPACITY && Idle(slots, HandAt(clock, offset))
    && if !slots[HandAt(clock, offset)].value.dirty then
         forall o: nat | o < offset && Idle(slots, HandAt(clock, o)) :: slots[HandAt(clock, o)].value.dirty
       else
         && (forall o: nat | o < CAPACITY && Idle(slots, HandAt(clock, o)) :: slots[HandAt(clock, o)].value.dirty)
         && (forall o: nat | o < offset :: !Idle(slots, HandAt(clock, o)))
  }

  ghost predicate VictimAt(slots: Slots, clock: Index, k: Index)
  {
    exists offset: nat :: IsVictim(slots, clock, offset) && HandAt(clock, offset) == k
  }

  /** Slot j comes before slot k, counting up from the hand and on from slot 0. */
  predicate Between(clock: Index, j: Index, k: Index)
  {
    if clock <= k then clock <= j < k else clock <= j || j < k
  }

  /** No idle slot from the hand up to the victim could have been taken in its place. */
  lemma VictimIsFirst(slots: Slots, clock: Index, k: Index)
    requires VictimAt(slots, clock, k)
    ensures slots[k].Some? && slots[k].value.users == 0
    ensures forall j: Index | Idle(slots, j) && Between(clock, j, k) :: !slots[k].value.dirty && slots[j].value.dirty
    ensures slots[k].value.dirty ==> forall j: Index | Idle(slots, j) :: slots[j].value.dirty
  {
    var offset: nat :| IsVictim(slots, clock, offset) && HandAt(clock, offset) == k;
    forall j: Index | Idle(slots, j)
      ensures slots[k].value.dirty ==> slots[j].value.dirty
      ensures Between(clock, j, k) ==> !slots[k].value.dirty && slots[j].value.dirty
    {
      HandReaches(clock, j);
      var o: nat :| o < CAPACITY && HandAt(clock, o) == j;
      assert Between(clock, j, k) ==> o < offset;
    }
  }

  lemma HandReaches(clock: Index, k: Index)
    ensures exists offset: nat :: offset < CAPACITY && HandAt(clock, offset) == k
  {
    var offset := if k >= clock then k - clock else k + CAPACITY - clock;
    assert HandAt(clock, offset) == k;
  }

  class InodeTable {
    var slots: Slots
    var clock: Index
    /** The inode table on disk, the inode bitmap, and who owns each allocated zone. */
    var disk: Records
    var numbers: set<Id>
    var owners: map<Zone, Id>

    ghost predicate Valid()
      reads this
    {
      && OneSlot(slots) && Faithful(slots, disk, numbers) && ZonesOwned(owners, numbers)
      && numbers <= disk.Keys && SpecialsOwnNothing(slots, disk, owners)
    }

    ghost function Inode(id: Id): Option<DiskInode>
      reads this
    {
      Logical(slots, disk, id)
    }

    constructor (disk: Records, numbers: set<Id>, owners: map<Zone, Id>)
      requires numbers <= disk.Keys && ZonesOwned(owners, numbers)
      requires forall z | z in owners :: HasData(disk[owners[z]].mode)
      ensures Valid() && this.disk == disk && this.numbers == numbers && this.owners == owners
      ensures forall k: Index :: slots[k] == None
    {
      slots := seq(CAPACITY, _ => None);
      clock := 0;
      this.disk, this.numbers, this.owners := disk, numbers, owners;
    }

    /** Searches the slots for an inode. */
    method Lookup(id: Id) returns (r: Option<nat>)
      ensures match r case None => !InTable(slots, id) case Some(k) => Cached(slots, k, id)
    {
      for k := 0 to CAPACITY
        invariant forall j: nat | j < k :: !Cached(slots, j, id)
      {
        if slots[k].Some? && slots[k].value.id == id {
          return Some(k);
        }
      }
      return None;
    }

    /** The clock scan: prefers a clean slot, to avoid a write. */
    method FindVictim() returns (r: Option<Index>)
      ensures match r
        case None => forall k: Index :: !Idle(slots, k)
        case Some(k) => VictimAt(slots, clock, k)
    {
      var fallback: Option<nat> := None;
      for offset := 0 to CAPACITY
        invariant match fallback
          case None => forall o: nat | o < offset :: !Idle(slots, HandAt(clock, o))
          case Some(b) => b < offset && Idle(slots, HandAt(clock, b)) && forall o: nat | o < b :: !Idle(slots, HandAt(clock, o))
        invariant forall o: nat | o < offset && Idle(slots, HandAt(clock, o)) :: slots[HandAt(clock, o)].value.dirty
      {
        var k := HandAt(clock, offset);
        if slots[k].Some? && slots[k].value.users == 0 {
          if !slots[k].value.dirty {
            assert IsVictim(slots, clock, offset);
            return Some(k);
          }
          if fallback.None? {
            fallback := Some(offset);
          }
        }
      }
      if fallback.None? {
        forall k: Index ensures !Idle(slots, k) {
          HandReaches(clock, k);
          var o: nat :| o < CAPACITY && HandAt(clock, o) == k;
        }
        return None;
      }
      assert IsVictim(slots, clock, fallback.value);
      return Some(HandAt(clock, fallback.value));
    }

    /** Writes a record to the inode table. */
    method WriteInode(id: Id, record: DiskInode)
      modifies this`disk
      ensures disk == old(disk)[id := record]
    {
      disk := disk[id := record];
    }

    /** Releases all data zones of an inode that can have any. */
    method Truncate(id: Id, record: DiskInode, now: U32) returns (record': DiskInode)
      requires HasData(record.mode) || ZonesOf(owners, id) == {}
      modifies this`owners
      ensures owners == old(owners) - ZonesOf(old(owners), id)
      ensures HasData(record.mode) ==>
        record' == record.(direct := ZeroInode.direct, single := 0, double := 0, size := 0, mtime := now)
      ensures !HasData(record.mode) ==> record' == record
    {
      if !HasData(record.mode) {
        assert owners - {} == owners;
        return record;
      }
      ghost var mine := ZonesOf(owners, id);
      owners := map z | z in owners && owners[z] != id :: owners[z];
      assert owners == old(owners) - mine;
      return record.(direct := ZeroInode.direct, single := 0, double := 0, size := 0, mtime := now);
    }

    /** Zeroes the record of an inode and clears its bit. */
    method FreeInode(id: Id)
      requires id in numbers
      modifies this`disk, this`numbers
      ensures disk == old(disk)[id := ZeroInode] && numbers == old(numbers) - {id}
    {
      WriteInode(id, ZeroInode);
      numbers := numbers - {id};
    }

    /** Empties a slot: an inode without links is released together with its zones, any
        other is written back if it is dirty. */
    method FlushSlot(k: Index, now: U32)
      requires Valid() && slots[k].Some?
      modifies this`slots, this`disk, this`numbers, this`owners
      ensures Valid() && slots == old(slots)[k := None]
      ensures var e := old(slots)[k].value;
        if e.record.links == 0 then
          && e.id in old(numbers) && numbers == old(numbers) - {e.id}
          && owners == old(owners) - ZonesOf(old(owners), e.id)
          && disk == old(disk)[e.id := ZeroInode]
        else numbers == old(numbers) && owners == old(owners) && disk == old(disk)[e.id := e.record]
      ensures forall id: Id | id != old(slots)[k].value.id || old(slots)[k].value.record.links != 0 ::
                Inode(id) == old(Inode(id))
    {
      var victim := slots[k].value;
      assert Cached(slots, k, victim.id);
      LogicalCached(slots, disk, k, victim.id);
      NoDataNoZones(slots, disk, owners, k, victim.id);
      SlotEmptied(slots, k);
      slots := slots[k := None];
      if victim.record.links == 0 {
        var _ := Truncate(victim.id, victim.record, now);
        FreeInode(victim.id);
      } else {
        if victim.dirty {
          WriteInode(victim.id, victim.record);
        }
        assert disk == old(disk)[victim.id := victim.record];
      }
      OthersStay(old(slots), old(disk), slots, disk, k);
    }

    /** Puts an inode that is not in the table into a free slot, or into a victim's. */
    method Install(entry: Entry, now: U32) returns (k: Index)
      requires Valid() && !InTable(slots, entry.id) && entry.id in numbers && entry.id in disk
      requires !entry.dirty && entry.record == disk[entry.id]
      requires exists k: Index :: slots[k].None? || Idle(slots, k)
      modifies this
      ensures Valid() && Cached(slots, k, entry.id) && slots[k] == Some(entry)
      ensures forall j: Index | j != k :: slots[j] == old(slots)[j]
      ensures if (exists j: Index :: old(slots)[j].None?) then old(slots)[k].None? && clock == old(clock)
              else VictimAt(old(slots), old(clock), k) && clock == (k + 1) % CAPACITY
      ensures forall id: Id | !Evicted(old(slots)[k], id) :: Inode(id) == old(Inode(id)) && (id in numbers <==> id in old(numbers))
      ensures forall id: Id | Evicted(old(slots)[k], id) ::
        id in old(numbers) && id !in numbers && Inode(id) == Some(ZeroInode) && owners == old(owners) - ZonesOf(old(owners), id)
      ensures (forall id: Id :: !Evicted(old(slots)[k], id)) ==> owners == old(owners)
    {
      hide OneSlot, Faithful, ZonesOwned, SpecialsOwnNothing, Logical, IsVictim, ZonesOf, InTable;
      for i := 0 to CAPACITY
        invariant forall j: Index | j < i :: slots[j].Some?
        invariant Valid() && slots == old(slots) && clock == old(clock) && disk == old(disk)
        invariant numbers == old(numbers) && owners == old(owners)
      {
        if slots[i].None? {
          Place(i, entry);
          return i;
        }
      }
      var victim := FindVictim();
      k := victim.value;
      Replace(k, entry, now);
      clock := (k + 1) % CAPACITY;
    }

    /** Flushes a slot and gives it to another inode. */
    method Replace(k: Index, entry: Entry, now: U32)
      requires Valid() && !InTable(slots, entry.id) && entry.id in numbers && entry.id in disk
      requires !entry.dirty && entry.record == disk[entry.id]
      requires slots[k].Some?
      modifies this`slots, this`disk, this`numbers, this`owners
      ensures Valid() && slots == old(slots)[k := Some(entry)]
      ensures forall id: Id | !Evicted(old(slots)[k], id) :: Inode(id) == old(Inode(id)) && (id in numbers <==> id in old(numbers))
      ensures forall id: Id | Evicted(old(slots)[k], id) ::
        id in old(numbers) && id !in numbers && Inode(id) == Some(ZeroInode) && owners == old(owners) - ZonesOf(old(owners), id)
      ensures (forall id: Id :: !Evicted(old(slots)[k], id)) ==> owners == old(owners)
    {
      ghost var was := slots[k].value;
      assert Cached(slots, k, was.id);
      FlushSlot(k, now);
      SlotEmptied(old(slots), k);
      NotThere(old(slots), slots, k, entry.id);
      assert was.record.links == 0 ==> Evicted(old(slots)[k], was.id);
      Gone(slots, disk, old(slots), k, was.id);
      Place(k, entry);
    }

    /** Writes an entry to an empty slot. */
    method Place(k: Index, entry: Entry)
      requires Valid() && slots[k].None? && !InTable(slots, entry.id) && entry.id in numbers && entry.id in disk
      requires !entry.dirty && entry.record == disk[entry.id]
      modifies this`slots
      ensures Valid() && slots == old(slots)[k := Some(entry)]
      ensures forall id: Id :: Inode(id) == old(Inode(id))
    {
      slots := slots[k := Some(entry)];
      assert Cached(slots, k, entry.id);
      forall j: nat, id: Id | Cached(slots, j, id) ensures (j == k && id == entry.id) || Cached(old(slots), j, id) {
      }
      Placed(old(slots), disk, k, entry);
    }

    /** Looks an inode up, or loads it; one more handle on it is out. */
    method AcquireRaw(id: Id, now: U32) returns (k: Index)
      requires Valid() && id.device != 0 && id in numbers
      requires InTable(slots, id) || exists k: Index :: slots[k].None? || Idle(slots, k)
      modifies this
      ensures Valid() && Cached(slots, k, id) && UsersOf(slots, id) == old(UsersOf(slots, id)) + 1
      ensures forall other: Id | other != id :: UsersOf(slots, other) == old(UsersOf(slots, other))
      ensures Inode(id) == old(Inode(id)) && id in numbers
      ensures forall other: Id :: Survives(old(slots), old(disk), old(numbers), slots, disk, numbers, other)
    {
      var found := Lookup(id);
      if found.Some? {
        k := found.value;
        UsersCached(slots, k, id);
        Handle(k, slots[k].value.users + 1);
        assert Cached(slots, k, id);
        UsersCached(slots, k, id);
        UsersBut(old(slots), slots, k, id);
        forall other: Id ensures Survives(old(slots), old(disk), old(numbers), slots, disk, numbers, other) {
          assert Inode(other) == old(Inode(other));
        }
        return;
      }
      NotCached(slots, disk, id);
      ghost var s, c := slots, clock;
      k := Install(Entry(id, disk[id], false, 1), now);
      LogicalCached(slots, disk, k, id);
      UsersCached(slots, k, id);
      InstalledIdle(s, c, k);
      UsersBut(s, slots, k, id);
      forall other: Id ensures Survives(old(slots), old(disk), old(numbers), slots, disk, numbers, other) {
        if Evicted(s[k], other) {
          VictimWasIdle(s, c, k, other);
        } else {
          assert Inode(other) == old(Inode(other));
        }
      }
    }

    /** Takes or drops a handle. */
    method Handle(k: Index, users: nat)
      requires Valid() && slots[k].Some?
      modifies this`slots
      ensures Valid() && slots == old(slots)[k := Some(old(slots)[k].value.(users := users))]
      ensures forall id: Id :: Inode(id) == old(Inode(id))
    {
      SlotChanged(slots, disk, k, slots[k].value.(users := users));
      slots := slots[k := Some(slots[k].value.(users := users))];
    }

    /** A holder of the inode changes its record. */
    method Change(k: Index, record: DiskInode)
      requires Valid() && slots[k].Some? && slots[k].value.users > 0
      requires HasData(record.mode) || ZonesOf(owners, slots[k].value.id) == {}
      modifies this`slots
      ensures Valid() && slots == old(slots)[k := Some(old(slots)[k].value.(record := record, dirty := true))]
      ensures forall id: Id :: Inode(id) == if id == old(slots)[k].value.id then Some(record) else old(Inode(id))
    {
      var e := slots[k].value.(record := record, dirty := true);
      SlotChanged(slots, disk, k, e);
      forall z | z in owners && owners[z] == e.id ensures HasData(record.mode) { assert z in ZonesOf(owners, e.id); }
      slots := slots[k := Some(e)];
    }

    /** Writes a dirty inode back. */
    method SyncSlot(k: Index)
      requires Valid() && slots[k].Some?
      modifies this`slots, this`disk
      ensures Valid() && slots == old(slots)[k := Some(old(slots)[k].value.(dirty := false))]
      ensures disk == old(disk)[old(slots)[k].value.id := old(slots)[k].value.record]
      ensures forall id: Id :: Inode(id) == old(Inode(id))
    {
      var e := slots[k].value;
      assert Cached(slots, k, e.id);
      SlotSynced(slots, disk, k);
      if e.dirty {
        WriteInode(e.id, e.record);
        slots := slots[k := Some(e.(dirty := false))];
      }
      assert slots == old(slots)[k := Some(e.(dirty := false))] && disk == old(disk)[e.id := e.record];
    }

    /** Writes every cached inode back. */
    method SyncInodes()
      requires Valid()
      modifies this`slots, this`disk
      ensures Valid() && numbers == old(numbers)
      ensures forall id: Id :: Inode(id) == old(Inode(id)) && UsersOf(slots, id) == old(UsersOf(slots, id))
      ensures forall k: nat, id: Id | Cached(slots, k, id) :: id in disk && disk[id] == slots[k].value.record && !slots[k].value.dirty
    {
      for k := 0 to CAPACITY
        invariant Valid()
        invariant forall id: Id :: Inode(id) == old(Inode(id)) && UsersOf(slots, id) == old(UsersOf(slots, id))
        invariant forall j: nat | j < k && slots[j].Some? :: !slots[j].value.dirty
      {
        if slots[k].Some? {
          ghost var s, id := slots, slots[k].value.id;
          SyncSlot(k);
          assert Cached(s, k, id) && Cached(slots, k, id);
          UsersCached(s, k, id);
          UsersCached(slots, k, id);
          UsersBut(s, slots, k, id);
        }
      }
    }

    /** Whether a cached inode of a device is in use. */
    method HasActiveInodes(device: nat) returns (r: bool)
      ensures r <==> exists k: Index :: slots[k].Some? && slots[k].value.id.device == device && slots[k].value.users > 0
    {
      for k := 0 to CAPACITY
        invariant forall j: Index | j < k && slots[j].Some? && slots[j].value.id.device == device :: slots[j].value.users == 0
      {
        if slots[k].Some? && slots[k].value.id.device == device && slots[k].value.users > 0 {
          return true;
        }
      }
      return false;
    }

    /** Flushes and removes every cached inode of a device none of whose inodes is in use. */
    method EvictDevice(device: nat, now: U32)
      requires Valid() && forall k: Index | slots[k].Some? && slots[k].value.id.device == device :: slots[k].value.users == 0
      modifies this`slots, this`disk, this`numbers, this`owners
      ensures Valid() && forall k: Index | slots[k].Some? :: slots[k].value.id.device != device
      ensures forall k: Index | old(slots)[k].Some? && old(slots)[k].value.id.device != device :: slots[k] == old(slots)[k]
      ensures forall id: Id :: UsersOf(slots, id) == old(UsersOf(slots, id))
      ensures forall id: Id :: Survives(old(slots), old(disk), old(numbers), slots, disk, numbers, id)
    {
      for k := 0 to CAPACITY
        invariant Valid()
        invariant forall j: Index | j < k && slots[j].Some? :: slots[j].value.id.device != device
        invariant forall j: Index | slots[j].Some? :: slots[j] == old(slots)[j]
        invariant forall j: Index | old(slots)[j].Some? && (j >= k || old(slots)[j].value.id.device != device) :: slots[j] == old(slots)[j]
        invariant forall id: Id :: Survives(old(slots), old(disk), old(numbers), slots, disk, numbers, id)
        invariant forall id: Id :: UsersOf(slots, id) == old(UsersOf(slots, id))
      {
        if slots[k].Some? && slots[k].value.id.device == device {
          ghost var s, d, n := slots, disk, numbers;
          ghost var e := slots[k].value;
          assert Cached(s, k, e.id) && Cached(old(slots), k, e.id);
          LogicalCached(s, d, k, e.id);
          FlushSlot(k, now);
          SlotEmptied(s, k);
          UsersBut(s, slots, k, Id(device + 1, 0));
          UsersElsewhere(s, slots, k, Id(device + 1, 0));
          UsersElsewhere(slots, s, k, Id(device + 1, 0));
          Gone(slots, disk, s, k, e.id);
          forall id: Id ensures Survives(old(slots), old(disk), old(numbers), slots, disk, numbers, id) {
            assert Survives(old(slots), old(disk), old(numbers), s, d, n, id);
            if id != e.id || e.record.links != 0 { assert Inode(id) == Logical(s, d, id); }
          }
        }
      }
    }

    /** Allocates the lowest number of a device that the bitmap has free, with a zeroed
        record: no copy from an earlier life of the number is in the table. */
    method AllocInode(device: nat, inodeCount: nat) returns (r: Option<Id>)
      requires Valid()
      modifies this`disk, this`numbers
      ensures Valid()
      ensures match r
        case None =>
          && (forall n | 1 <= n <= inodeCount :: Id(device, n) in numbers)
          && numbers == old(numbers) && disk == old(disk)
        case Some(id) =>
          && id.device == device && 1 <= id.number <= inodeCount && id !in old(numbers)
          && (forall n | 1 <= n < id.number :: Id(device, n) in old(numbers))
          && numbers == old(numbers) + {id} && disk == old(disk)[id := ZeroInode]
          && !InTable(slots, id) && Inode(id) == Some(ZeroInode)
          && forall other: Id | other != id :: Inode(other) == old(Inode(other))
    {
      for n := 1 to inodeCount + 1
        invariant forall m | 1 <= m < n :: Id(device, m) in numbers
        invariant numbers == old(numbers) && disk == old(disk)
      {
        if Id(device, n) !in numbers {
          TakeNumber(Id(device, n));
          return Some(Id(device, n));
        }
      }
      return None;
    }

    /** Marks a free number as allocated and zeroes its record. */
    method TakeNumber(id: Id)
      requires Valid() && id !in numbers
      modifies this`disk, this`numbers
      ensures Valid() && numbers == old(numbers) + {id} && disk == old(disk)[id := ZeroInode]
      ensures !InTable(slots, id) && Inode(id) == Some(ZeroInode)
      ensures forall other: Id | other != id :: Inode(other) == old(Inode(other))
    {
      FreeNotCached(slots, disk, numbers, id);
      DiskChanged(slots, disk, id, ZeroInode);
      WriteInode(id, ZeroInode);
      numbers := numbers + {id};
      NotCached(slots, disk, id);
    }
  }

  /** Evicting that slot released the inode. */
  predicate Evicted(slot: Option<Entry>, id: Id)
  {
    slot.Some? && slot.value.id == id && slot.value.record.links == 0
  }

  /** Nothing that evictions do changes an inode, except that one which had lost its last
      link and its last user is released. */
  ghost predicate Survives(slots: Slots, disk: Records, numbers: set<Id>, slots': Slots, disk': Records, numbers': set<Id>, id: Id)
  {
    if id in numbers && id !in numbers' then
      && Logical(slots', disk', id) == Some(ZeroInode)
      && exists k: nat :: Cached(slots, k, id) && slots[k].value.record.links == 0 && slots[k].value.users == 0
    else Logical(slots', disk', id) == Logical(slots, disk, id) && (id in numbers <==> id in numbers')
  }

  lemma NotCached(slots: Slots, disk: Records, id: Id)
    requires !InTable(slots, id)
    ensures Logical(slots, disk, id) == if id in disk then Some(disk[id]) else None
  {
  }

  lemma FreeNotCached(slots: Slots, disk: Records, numbers: set<Id>, id: Id)
    requires Faithful(slots, disk, numbers) && id !in numbers
    ensures !InTable(slots, id)
  {
  }

  /** Changing a record on disk that no slot caches. */
  lemma DiskChanged(slots: Slots, disk: Records, id: Id, record: DiskInode)
    requires OneSlot(slots) && !InTable(slots, id)
    ensures forall other: Id | other != id :: Logical(slots, disk[id := record], other) == Logical(slots, disk, other)
  {
    forall other: Id | other != id ensures Logical(slots, disk[id := record], other) == Logical(slots, disk, other) {
      if j: nat :| Cached(slots, j, other) {
        LogicalCached(slots, disk, j, other);
        LogicalCached(slots, disk[id := record], j, other);
      }
    }
  }

  /** Changing what a slot says of its inode. */
  lemma SlotChanged(slots: Slots, disk: Records, k: Index, e: Entry)
    requires OneSlot(slots) && slots[k].Some? && e.id == slots[k].value.id
    ensures OneSlot(slots[k := Some(e)])
    ensures forall j: nat, id: Id {:trigger Cached(slots[k := Some(e)], j, id)} :: Cached(slots[k := Some(e)], j, id) <==> Cached(slots, j, id)
    ensures forall id: Id :: Logical(slots[k := Some(e)], disk, id) == if id == e.id then Some(e.record) else Logical(slots, disk, id)
    ensures Logical(slots, disk, e.id) == Some(slots[k].value.record)
  {
    var slots' := slots[k := Some(e)];
    forall j: nat, id: Id ensures Cached(slots', j, id) <==> Cached(slots, j, id) {
    }
    forall i: nat, j: nat, id: Id | Cached(slots', i, id) && Cached(slots', j, id) ensures i == j {
      assert Cached(slots, i, id) && Cached(slots, j, id);
    }
    assert Cached(slots, k, e.id);
    LogicalCached(slots, disk, k, e.id);
    LogicalCached(slots', disk, k, e.id);
    forall id: Id | id != e.id ensures Logical(slots', disk, id) == Logical(slots, disk, id) {
      if j: nat :| Cached(slots, j, id) {
        LogicalCached(slots, disk, j, id);
        LogicalCached(slots', disk, j, id);
      }
    }
  }

  /** Writing a cached record back. */
  lemma SlotSynced(slots: Slots, disk: Records, k: Index)
    requires OneSlot(slots) && slots[k].Some?
    ensures var e := slots[k].value; var slots' := slots[k := Some(e.(dirty := false))];
      && OneSlot(slots')
      && (forall j: nat, id: Id :: Cached(slots', j, id) <==> Cached(slots, j, id))
      && forall id: Id :: Logical(slots', disk[e.id := e.record], id) == Logical(slots, disk, id)
  {
    var e := slots[k].value;
    var slots' := slots[k := Some(e.(dirty := false))];
    SlotChanged(slots, disk, k, e.(dirty := false));
    forall id: Id ensures Logical(slots', disk[e.id := e.record], id) == Logical(slots, disk, id) {
      if id == e.id {
        LogicalCached(slots', disk[e.id := e.record], k, id);
      } else if j: nat :| Cached(slots', j, id) {
        LogicalCached(slots', disk, j, id);
        LogicalCached(slots', disk[e.id := e.record], j, id);
      }
    }
  }

  lemma InstalledIdle(slots: Slots, clock: Index, k: Index)
    requires slots[k].None? || VictimAt(slots, clock, k)
    ensures slots[k].Some? ==> slots[k].value.users == 0
  {
  }

  lemma VictimWasIdle(slots: Slots, clock: Index, k: Index, id: Id)
    requires Evicted(slots[k], id) && VictimAt(slots, clock, k)
    ensures exists j: nat :: Cached(slots, j, id) && slots[j].value.record.links == 0 && slots[j].value.users == 0
  {
    assert Cached(slots, k, id);
  }

  lemma NoDataNoZones(slots: Slots, disk: Records, owners: map<Zone, Id>, k: nat, id: Id)
    requires OneSlot(slots) && SpecialsOwnNothing(slots, disk, owners) && Cached(slots, k, id)
    ensures HasData(slots[k].value.record.mode) || ZonesOf(owners, id) == {}
  {
    LogicalCached(slots, disk, k, id);
    if z :| z in ZonesOf(owners, id) { assert owners[z] == id; }
  }

  lemma SlotEmptied(slots: Slots, k: Index)
    requires OneSlot(slots)
    ensures OneSlot(slots[k := None])
    ensures forall j: nat, id: Id {:trigger Cached(slots, j, id)} {:trigger Cached(slots[k := None], j, id)} ::
              Cached(slots[k := None], j, id) <==> Cached(slots, j, id) && j != k
  {
    var slots' := slots[k := None];
    forall j: nat, id: Id ensures Cached(slots', j, id) <==> Cached(slots, j, id) && j != k {
    }
    forall i: nat, j: nat, id: Id | Cached(slots', i, id) && Cached(slots', j, id) ensures i == j {
      assert Cached(slots, i, id) && Cached(slots, j, id);
    }
  }

  /** An inode whose slot was emptied is what the disk says. */
  lemma Gone(slots': Slots, disk: Records, slots: Slots, k: Index, id: Id)
    requires OneSlot(slots) && Cached(slots, k, id) && slots' == slots[k := None] && id in disk
    ensures Logical(slots', disk, id) == Some(disk[id])
  {
    SlotEmptied(slots, k);
    assert forall j: nat :: !Cached(slots', j, id);
  }

  lemma OthersStay(slots: Slots, disk: Records, slots': Slots, disk': Records, k: Index)
    requires OneSlot(slots) && slots[k].Some? && slots' == slots[k := None]
    requires var id := slots[k].value.id; id in disk' && disk' == disk[id := disk'[id]]
    ensures forall id: Id | id != slots[k].value.id :: Logical(slots', disk', id) == Logical(slots, disk, id)
    ensures Logical(slots', disk', slots[k].value.id) == Some(disk'[slots[k].value.id])
  {
    SlotEmptied(slots, k);
    forall id: Id | id != slots[k].value.id ensures Logical(slots', disk', id) == Logical(slots, disk, id) {
      forall j: nat ensures Cached(slots', j, id) <==> Cached(slots, j, id) {
      }
      if j: nat :| Cached(slots, j, id) {
        LogicalCached(slots, disk, j, id);
        LogicalCached(slots', disk', j, id);
      }
    }
    assert Cached(slots, k, slots[k].value.id);
    assert forall j: nat :: !Cached(slots', j, slots[k].value.id);
  }

  lemma NotThere(slots: Slots, slots': Slots, k: Index, id: Id)
    requires !InTable(slots, id) && slots' == slots[k := None]
    ensures !InTable(slots', id) && slots'[k].None?
  {
    forall j: nat ensures Cached(slots', j, id) ==> Cached(slots, j, id) {
    }
  }

  lemma Placed(slots: Slots, disk: Records, k: Index, entry: Entry)
    requires OneSlot(slots) && slots[k].None? && !InTable(slots, entry.id) && OneSlot(slots[k := Some(entry)])
    requires entry.id in disk && entry.record == disk[entry.id]
    ensures forall id: Id :: Logical(slots[k := Some(entry)], disk, id) == Logical(slots, disk, id)
  {
    var slots' := slots[k := Some(entry)];
    forall id: Id ensures Logical(slots', disk, id) == Logical(slots, disk, id) {
      if id == entry.id {
        LogicalCached(slots', disk, k, id);
      } else if j: nat :| Cached(slots, j, id) {
        LogicalCached(slots, disk, j, id);
        LogicalCached(slots', disk, j, id);
      } else {
        assert forall j: nat :: Cached(slots', j, id) ==> Cached(slots, j, id);
      }
    }
  }
}
