/** The block cache: pinned slots, victim selection and dirty write-back, against the plain
    store of blocks it speeds up. */
module BufferCache {
  import opened Wrappers
  import opened Layout

  datatype Key = Key(dev: nat, block: nat)

  type Store = map<Key, Block>

  /** A device holds zeros where nothing was ever written. */
  function BlockOf(s: Store, key: Key): Block
  {
    if key in s then s[key] else ZeroBlock
  }

  datatype Meta = Meta(key: Option<Key>, refCount: nat, dirty: bool, upToDate: bool, ioLocked: bool)
  {
    /** Dirty counts more than busy. */
    function Penalty(): nat { (if dirty then 2 else 0) + if ioLocked then 1 else 0 }
  }

  const EMPTY_META := Meta(None, 0, false, false, false)

  type Index = map<Key, nat>

  // ----- the invariant -----

  /** The index is injective and agrees with the keys in the slots. */
  ghost predicate Indexed(slots: seq<Meta>, index: Index)
  {
    && (forall key | key in index :: index[key] < |slots| && slots[index[key]].key == Some(key))
    && (forall k | 0 <= k < |slots| && slots[k].key.Some? :: slots[k].key.value in index && index[slots[k].key.value] == k)
  }

  /** Pinned or dirty slots are bound; dirty data is valid, and clean valid data is what
      the device holds. */
  ghost predicate Coherent(slots: seq<Meta>, data: seq<Block>, disk: Store)
    requires |data| == |slots|
  {
    forall k | 0 <= k < |slots| ::
      && (slots[k].refCount > 0 || slots[k].dirty || slots[k].upToDate ==> slots[k].key.Some?)
      && (slots[k].dirty ==> slots[k].upToDate)
      && (slots[k].upToDate && !slots[k].dirty ==> data[k] == BlockOf(disk, slots[k].key.value))
  }

  /** Each slot is on the replacement list once. */
  ghost predicate Listed(order: seq<nat>, n: nat)
  {
    && |order| == n
    && (forall i | 0 <= i < n :: order[i] < n)
    && (forall i, j | 0 <= i < j < n :: order[i] != order[j])
    && (forall k: nat | k < n :: k in order)
  }

  /** What a block logically holds: the valid cached copy, or else the device's. */
  ghost function Logical(slots: seq<Meta>, data: seq<Block>, index: Index, disk: Store, key: Key): Block
    requires |data| == |slots|
  {
    if key in index && index[key] < |slots| && slots[index[key]].upToDate then data[index[key]] else BlockOf(disk, key)
  }

  /** A candidate that costs least, the first of those on the list. */
  ghost predicate Cheapest(slots: seq<Meta>, order: seq<nat>, i: nat)
    requires forall j | 0 <= j < |order| :: order[j] < |slots|
  {
    && i < |order| && slots[order[i]].refCount == 0
    && (forall j | 0 <= j < |order| && slots[order[j]].refCount == 0 :: slots[order[i]].Penalty() <= slots[order[j]].Penalty())
    && (forall j | 0 <= j < i && slots[order[j]].refCount == 0 :: slots[order[i]].Penalty() < slots[order[j]].Penalty())
  }

  class BufferCache {
    var slots: seq<Meta>
    var data: seq<Block>
    var index: Index
    var order: seq<nat>
    /** The devices, as far as the driver honours its requests. */
    var disk: Store

    ghost predicate Valid()
      reads this
    {
      && |data| == |slots| && Indexed(slots, index) && Coherent(slots, data, disk) && Listed(order, |slots|)
    }

    ghost function Holds(key: Key): Block
      requires |data| == |slots|
      reads this
    {
      Logical(slots, data, index, disk, key)
    }

    constructor (n: nat, disk: Store)
      ensures Valid() && |slots| == n && index == map[] && this.disk == disk
      ensures forall key :: Holds(key) == BlockOf(disk, key)
    {
      slots := seq(n, _ => EMPTY_META);
      data := seq(n, _ => ZeroBlock);
      index := map[];
      order := seq(n, i => i);
      this.disk := disk;
      new;
      forall k: nat | k < n ensures k in order { assert order[k] == k; }
    }

    // ----- the driver -----

    /** Waits for the request in flight: a read-ahead, if any. */
    method WaitIo(k: nat)
      requires Valid() && k < |slots|
      modifies this`slots, this`data
      ensures Valid() && |slots| == old(|slots|) && !slots[k].ioLocked
      ensures slots[k].key == old(slots)[k].key && slots[k].refCount == old(slots)[k].refCount && slots[k].dirty == old(slots)[k].dirty
      ensures old(slots)[k].upToDate ==> slots[k].upToDate && data[k] == old(data)[k]
      ensures forall i | 0 <= i < |slots| && i != k :: slots[i] == old(slots)[i] && data[i] == old(data)[i]
      ensures SameContents(old(slots), old(data), old(index), old(disk), slots, data, index, disk)
    {
      if slots[k].ioLocked {
        if slots[k].key.Some? && !slots[k].upToDate {
          data := data[k := BlockOf(disk, slots[k].key.value)];
          slots := slots[k := slots[k].(upToDate := true)];
        }
        slots := slots[k := slots[k].(ioLocked := false)];
      }
    }

    /** Reads the slot's block unless the copy is valid. */
    method SubmitRead(k: nat)
      requires Valid() && k < |slots| && slots[k].key.Some?
      modifies this`slots, this`data
      ensures Valid() && |slots| == old(|slots|)
      ensures slots[k] == old(slots)[k].(upToDate := true)
      ensures forall i | 0 <= i < |slots| && i != k :: slots[i] == old(slots)[i] && data[i] == old(data)[i]
      ensures SameContents(old(slots), old(data), old(index), old(disk), slots, data, index, disk)
    {
      if !slots[k].upToDate {
        data := data[k := BlockOf(disk, slots[k].key.value)];
        slots := slots[k := slots[k].(upToDate := true)];
      }
    }

    /** Writes the slot's block to the device if it is dirty. */
    method SubmitWrite(k: nat)
      requires Valid() && k < |slots|
      modifies this`slots, this`disk
      ensures Valid() && |slots| == old(|slots|)
      ensures slots == old(slots)[k := old(slots)[k].(dirty := false)]
      ensures disk == if old(slots)[k].dirty then old(disk)[old(slots)[k].key.value := data[k]] else old(disk)
      ensures SameContents(old(slots), old(data), old(index), old(disk), slots, data, index, disk)
    {
      if slots[k].dirty {
        disk := disk[slots[k].key.value := data[k]];
        slots := slots[k := slots[k].(dirty := false)];
      }
      assert slots[k].(dirty := false) == slots[k];
    }

    // ----- pinning -----

    /** The best slot to reuse, in list order. */
    method FindReclaimCandidate() returns (r: Option<nat>)
      requires Valid()
      ensures match r
        case None => forall k | 0 <= k < |slots| :: slots[k].refCount > 0
        case Some(k) => exists i: nat :: Cheapest(slots, order, i) && order[i] == k
      ensures r.Some? ==> r.value < |slots| && slots[r.value].refCount == 0 && forall k | 0 <= k < |slots| && slots[k].refCount == 0 ::
        && (slots[r.value].dirty ==> slots[k].dirty)
        && (slots[r.value].ioLocked ==> slots[k].ioLocked || (slots[k].dirty && !slots[r.value].dirty))
    {
      var best: Option<nat> := None;
      var i := 0;
      while i < |order|
        invariant i <= |order|
        invariant match best
          case None => forall j | 0 <= j < i :: slots[order[j]].refCount > 0
          case Some(b) => b < i && BestBelow(slots, order, b, i) && slots[order[b]].Penalty() > 0
      {
        var k := order[i];
        if slots[k].refCount == 0 && (best.None? || slots[k].Penalty() < slots[order[best.value]].Penalty()) {
          best := Some(i);
          if slots[k].Penalty() == 0 {
            FreeIsCheapest(slots, order, i);
            NoBetter(slots, order, i);
            return Some(k);
          }
        }
        i := i + 1;
      }
      if best.None? {
        forall k: nat | k < |slots| ensures slots[k].refCount > 0 { assert k in order; }
        return None;
      }
      assert Cheapest(slots, order, best.value);
      NoBetter(slots, order, best.value);
      return Some(order[best.value]);
    }

    /** Moves a slot to the tail of the replacement list. */
    method MoveToBack(k: nat)
      requires Listed(order, |slots|) && k < |slots|
      modifies this`order
      ensures Listed(order, |slots|) && |order| > 0 && order[|order| - 1] == k
      ensures exists i :: 0 <= i < |old(order)| && old(order)[i] == k && order == old(order)[..i] + old(order)[i + 1..] + [k]
    {
      var i := 0;
      assert k in order;
      while order[i] != k
        decreases |order| - i
        invariant i < |order| && forall j | 0 <= j < i :: order[j] != k
      {
        assert exists j :: 0 <= j < |order| && order[j] == k;
        i := i + 1;
      }
      StillListed(order, |slots|, i);
      order := order[..i] + order[i + 1..] + [k];
    }

    /** Rebinds a slot to a key that is not cached. */
    method TryRebindBuffer(key: Key, k: nat) returns (r: bool)
      requires Valid() && k < |slots| && slots[k].refCount == 0 && !slots[k].dirty
      modifies this`slots, this`index, this`order
      ensures Valid() && |slots| == old(|slots|) && r == (key !in old(index))
      ensures !r ==> slots == old(slots) && index == old(index) && order == old(order)
      ensures r ==> key in index && index[key] == k && slots[k] == old(slots)[k].(key := Some(key), refCount := 1, upToDate := false)
      ensures forall i | 0 <= i < |slots| && i != k :: slots[i] == old(slots)[i]
      ensures r ==> exists i :: 0 <= i < |old(order)| && old(order)[i] == k && order == old(order)[..i] + old(order)[i + 1..] + [k]
      ensures SameContents(old(slots), old(data), old(index), old(disk), slots, data, index, disk)
    {
      hide Indexed, Coherent, SameContents, Listed;
      if key in index {
        NothingRebound(slots, data, index, disk);
        return false;
      }
      Rebinds(slots, data, index, disk, key, k);
      var oldKey := slots[k].key;
      if oldKey.Some? {
        index := index - {oldKey.value};
        slots := slots[k := slots[k].(key := None)];
      }
      slots := slots[k := slots[k].(refCount := 1, dirty := false, upToDate := false)];
      slots := slots[k := slots[k].(key := Some(key))];
      index := index[key := k];
      MoveToBack(k);
      assert slots == old(slots)[k := Meta(Some(key), 1, false, false, old(slots)[k].ioLocked)];
      return true;
    }

    /** Pins a slot for a key, cached or rebound; none is free when all are pinned. Victims
        are written back and rebound in one stretch. */
    method Get(key: Key) returns (r: Option<nat>)
      requires Valid()
      modifies this`slots, this`data, this`index, this`order, this`disk
      ensures Valid() && |slots| == old(|slots|)
      ensures forall other :: Holds(other) == old(Holds(other))
      ensures r.None? || key in old(index) ==> order == old(order)
      ensures r.Some? && key !in old(index) ==>
        exists i :: 0 <= i < |old(order)| && old(order)[i] == r.value && order == old(order)[..i] + old(order)[i + 1..] + [r.value]
      ensures match r
        case None => key !in old(index) && (forall k | 0 <= k < |slots| :: old(slots)[k].refCount > 0) && slots == old(slots)
        case Some(k) =>
          && k < |slots| && slots[k].key == Some(key) && key in index && index[key] == k
          && slots[k].refCount == 1 + (if key in old(index) then old(slots)[k].refCount else 0)
          && (key !in old(index) ==> old(slots)[k].refCount == 0)
          && forall i | 0 <= i < |slots| && i != k ::
              slots[i].key == old(slots)[i].key && slots[i].refCount == old(slots)[i].refCount && data[i] == old(data)[i]
    {
      if key in index {
        var k := index[key];
        slots := slots[k := slots[k].(refCount := slots[k].refCount + 1)];
        WaitIo(k);
        return Some(k);
      }
      var victim := FindReclaimCandidate();
      if victim.None? {
        return None;
      }
      var k := victim.value;
      WaitIo(k);
      SubmitWrite(k);
      var bound := TryRebindBuffer(key, k);
      return Some(k);
    }

    /** Drops one pin. */
    method Release(k: nat)
      requires Valid() && k < |slots| && slots[k].refCount > 0
      modifies this`slots, this`data
      ensures Valid() && |slots| == old(|slots|)
      ensures forall key :: Holds(key) == old(Holds(key))
      ensures slots[k].refCount == old(slots)[k].refCount - 1 && slots[k].key == old(slots)[k].key
      ensures forall i | 0 <= i < |slots| && i != k :: slots[i] == old(slots)[i]
    {
      WaitIo(k);
      slots := slots[k := slots[k].(refCount := slots[k].refCount - 1)];
    }

    // ----- what the file system uses -----

    /** Pins a block with its contents. */
    method Read(key: Key) returns (r: Option<nat>)
      requires Valid()
      modifies this`slots, this`data, this`index, this`order, this`disk
      ensures Valid() && |slots| == old(|slots|)
      ensures forall other :: Holds(other) == old(Holds(other))
      ensures match r
        case None => key !in old(index) && (forall k | 0 <= k < |slots| :: old(slots)[k].refCount > 0) && slots == old(slots)
        case Some(k) =>
          && k < |slots| && slots[k].key == Some(key) && slots[k].upToDate && slots[k].refCount > 0
          && data[k] == old(Holds(key))
          && slots[k].refCount == 1 + (if key in old(index) then old(slots)[k].refCount else 0)
          && (key !in old(index) ==> old(slots)[k].refCount == 0)
          && forall i | 0 <= i < |slots| && i != k ::
              slots[i].key == old(slots)[i].key && slots[i].refCount == old(slots)[i].refCount && data[i] == old(data)[i]
    {
      r := Get(key);
      if r.Some? && !slots[r.value].upToDate {
        SubmitRead(r.value);
      }
    }

    /** Changes a pinned block whose contents are valid, and marks it dirty. */
    method Modify(k: nat, block: Block)
      requires Valid() && k < |slots| && slots[k].refCount > 0 && slots[k].upToDate
      modifies this`slots, this`data
      ensures Valid() && slots == old(slots)[k := old(slots)[k].(dirty := true)] && data == old(data)[k := block]
      ensures forall key :: Holds(key) == if slots[k].key == Some(key) then block else old(Holds(key))
    {
      data := data[k := block];
      slots := slots[k := slots[k].(dirty := true)];
    }

    /** Overwrites a whole pinned block: the copy is valid from now on. */
    method Overwrite(k: nat, block: Block)
      requires Valid() && k < |slots| && slots[k].refCount > 0
      modifies this`slots, this`data
      ensures Valid() && slots == old(slots)[k := old(slots)[k].(dirty := true, upToDate := true)] && data == old(data)[k := block]
      ensures forall key :: Holds(key) == if slots[k].key == Some(key) then block else old(Holds(key))
    {
      data := data[k := block];
      slots := slots[k := slots[k].(upToDate := true)];
      slots := slots[k := slots[k].(dirty := true)];
    }

    method FillZero(k: nat)
      requires Valid() && k < |slots| && slots[k].refCount > 0
      modifies this`slots, this`data
      ensures Valid() && slots == old(slots)[k := old(slots)[k].(dirty := true, upToDate := true)] && data == old(data)[k := ZeroBlock]
      ensures forall key :: Holds(key) == if slots[k].key == Some(key) then ZeroBlock else old(Holds(key))
    {
      Overwrite(k, ZeroBlock);
    }

    /** Writes back the dirty buffers among the given keys. Afterwards the device holds what
        they logically hold. */
    method SyncDirty(keys: set<Key>)
      requires Valid()
      modifies this`slots, this`disk
      ensures Valid() && |slots| == old(|slots|)
      ensures forall key :: Holds(key) == old(Holds(key))
      ensures forall key | key in keys :: BlockOf(disk, key) == Holds(key)
      ensures forall k | 0 <= k < |slots| :: slots[k] == old(slots)[k].(dirty := slots[k].dirty)
    {
      for k := 0 to |slots|
        invariant Valid() && |slots| == old(|slots|)
        invariant forall key :: Holds(key) == old(Holds(key))
        invariant forall i | 0 <= i < |slots| :: slots[i] == old(slots)[i].(dirty := slots[i].dirty)
        invariant forall i | 0 <= i < k && slots[i].key.Some? && slots[i].key.value in keys :: !slots[i].dirty
      {
        if slots[k].dirty && slots[k].key.Some? && slots[k].key.value in keys {
          SubmitWrite(k);
        }
      }
    }
  }

  // ----- runs -----

  datatype Op = Load(key: Key) | Store(key: Key, block: Block) | Zero(key: Key) | Sync(keys: set<Key>)

  /** What an operation does to a plain store. */
  function Plain(s: Store, op: Op): Store
  {
    match op
    case Load(_) => s
    case Store(key, block) => s[key := block]
    case Zero(key) => s[key := ZeroBlock]
    case Sync(_) => s
  }

  function PlainRun(s: Store, ops: seq<Op>): Store
  {
    if ops == [] then s else Plain(PlainRun(s, ops[..|ops| - 1]), ops[|ops| - 1])
  }

  /** What the loads of a run read from a plain store. */
  function PlainReads(s: Store, ops: seq<Op>): seq<Block>
  {
    if ops == [] then []
    else
      var before := ops[..|ops| - 1];
      var last := ops[|ops| - 1];
      PlainReads(s, before) + if last.Load? then [BlockOf(PlainRun(s, before), last.key)] else []
  }

  /** What was last stored to a block. */
  function LastStored(s: Store, ops: seq<Op>, key: Key): Block
  {
    if ops == [] then if key in s then s[key] else ZeroBlock
    else
      var before, last := ops[..|ops| - 1], ops[|ops| - 1];
      if last.Store? && last.key == key then last.block
      else if last.Zero? && last.key == key then ZeroBlock
      else LastStored(s, before, key)
  }

  function Recalled(s: Store, ops: seq<Op>): seq<Block>
  {
    if ops == [] then []
    else
      var before, last := ops[..|ops| - 1], ops[|ops| - 1];
      Recalled(s, before) + if last.Load? then [LastStored(s, before, last.key)] else []
  }

  /** The plain store remembers what was last stored. */
  lemma {:induction false} PlainRemembers(s: Store, ops: seq<Op>)
    ensures PlainReads(s, ops) == Recalled(s, ops)
    ensures forall key :: BlockOf(PlainRun(s, ops), key) == LastStored(s, ops, key)
  {
    if ops != [] { PlainRemembers(s, ops[..|ops| - 1]); }
  }

  /** Over every run, whatever is evicted when, each load reads the bytes last written to
      the block; and a sync of all blocks brings the device up to date. */
  method Run(cache: BufferCache, ops: seq<Op>, start: Store) returns (loaded: seq<Block>)
    requires cache.Valid() && |cache.slots| > 0 && Unpinned(cache.slots)
    requires forall key :: cache.Holds(key) == BlockOf(start, key)
    modifies cache
    ensures cache.Valid() && |cache.slots| == old(|cache.slots|) && Unpinned(cache.slots)
    ensures loaded == PlainReads(start, ops) == Recalled(start, ops)
    ensures forall key :: cache.Holds(key) == LastStored(start, ops, key)
    ensures forall key :: cache.Holds(key) == BlockOf(PlainRun(start, ops), key)
    ensures ops != [] && ops[|ops| - 1].Sync? ==>
      forall key | key in ops[|ops| - 1].keys :: BlockOf(cache.disk, key) == BlockOf(PlainRun(start, ops), key)
  {
    loaded := [];
    for i := 0 to |ops|
      invariant cache.Valid() && |cache.slots| == old(|cache.slots|) && Unpinned(cache.slots)
      invariant loaded == PlainReads(start, ops[..i])
      invariant forall key :: cache.Holds(key) == BlockOf(PlainRun(start, ops[..i]), key)
      invariant i > 0 && ops[i - 1].Sync? ==>
        forall key | key in ops[i - 1].keys :: BlockOf(cache.disk, key) == BlockOf(PlainRun(start, ops[..i]), key)
    {
      assert ops[..i + 1][..i] == ops[..i];
      var block := Perform(cache, ops[i], PlainRun(start, ops[..i]));
      if ops[i].Load? {
        loaded := loaded + [block];
      }
    }
    assert ops[..|ops|] == ops;
    PlainRemembers(start, ops);
  }

  ghost predicate Unpinned(slots: seq<Meta>) { forall k | 0 <= k < |slots| :: slots[k].refCount == 0 }

  /** One operation on an unpinned cache, as the file system does it. */
  method Perform(cache: BufferCache, op: Op, ghost plain: Store) returns (block: Block)
    requires cache.Valid() && |cache.slots| > 0 && Unpinned(cache.slots)
    requires forall key :: cache.Holds(key) == BlockOf(plain, key)
    modifies cache
    ensures cache.Valid() && |cache.slots| == old(|cache.slots|) && Unpinned(cache.slots)
    ensures forall key :: cache.Holds(key) == BlockOf(Plain(plain, op), key)
    ensures op.Load? ==> block == BlockOf(plain, op.key)
    ensures op.Sync? ==> forall key | key in op.keys :: BlockOf(cache.disk, key) == BlockOf(plain, key)
  {
    hide Indexed, Coherent, Listed, Logical;
    block := ZeroBlock;
    match op {
      case Load(key) => block := LoadBlock(cache, key);
      case Store(key, bytes) => StoreBlock(cache, key, bytes);
      case Zero(key) => ZeroOut(cache, key);
      case Sync(keys) => cache.SyncDirty(keys);
    }
  }

  method LoadBlock(cache: BufferCache, key: Key) returns (block: Block)
    requires cache.Valid() && |cache.slots| > 0 && Unpinned(cache.slots)
    modifies cache
    ensures cache.Valid() && |cache.slots| == old(|cache.slots|) && Unpinned(cache.slots)
    ensures forall other :: cache.Holds(other) == old(cache.Holds(other))
    ensures block == old(cache.Holds(key))
  {
    hide Indexed, Coherent, Listed, Logical;
    assert cache.slots[0].refCount == 0;
    var k := cache.Read(key);
    block := cache.data[k.value];
    cache.Release(k.value);
  }

  method StoreBlock(cache: BufferCache, key: Key, block: Block)
    requires cache.Valid() && |cache.slots| > 0 && Unpinned(cache.slots)
    modifies cache
    ensures cache.Valid() && |cache.slots| == old(|cache.slots|) && Unpinned(cache.slots)
    ensures forall other :: cache.Holds(other) == if other == key then block else old(cache.Holds(other))
  {
    hide Indexed, Coherent, Listed, Logical;
    assert cache.slots[0].refCount == 0;
    var k := cache.Read(key);
    cache.Modify(k.value, block);
    cache.Release(k.value);
  }

  method ZeroOut(cache: BufferCache, key: Key)
    requires cache.Valid() && |cache.slots| > 0 && Unpinned(cache.slots)
    modifies cache
    ensures cache.Valid() && |cache.slots| == old(|cache.slots|) && Unpinned(cache.slots)
    ensures forall other :: cache.Holds(other) == if other == key then ZeroBlock else old(cache.Holds(other))
  {
    hide Indexed, Coherent, Listed, Logical;
    assert cache.slots[0].refCount == 0;
    var k := cache.Get(key);
    cache.FillZero(k.value);
    cache.Release(k.value);
  }

  /** No block's logical contents differ. */
  ghost predicate SameContents(slots: seq<Meta>, data: seq<Block>, index: Index, disk: Store,
                               slots': seq<Meta>, data': seq<Block>, index': Index, disk': Store)
    requires |data| == |slots| && |data'| == |slots'|
  {
    forall key :: Logical(slots', data', index', disk', key) == Logical(slots, data, index, disk, key)
  }

  /** No dirty slot is reused while a clean one could be, and no busy one for an idle one. */
  lemma NoBetter(slots: seq<Meta>, order: seq<nat>, i: nat)
    requires Listed(order, |slots|) && Cheapest(slots, order, i)
    ensures order[i] < |slots| && slots[order[i]].refCount == 0
    ensures forall k | 0 <= k < |slots| && slots[k].refCount == 0 ::
              && (slots[order[i]].dirty ==> slots[k].dirty)
              && (slots[order[i]].ioLocked ==> slots[k].ioLocked || (slots[k].dirty && !slots[order[i]].dirty))
  {
    forall k: nat | k < |slots| && slots[k].refCount == 0 ensures slots[order[i]].Penalty() <= slots[k].Penalty() {
      assert k in order;
    }
  }

  ghost predicate BestBelow(slots: seq<Meta>, order: seq<nat>, b: nat, n: nat)
    requires n <= |order| && b < n && forall j | 0 <= j < |order| :: order[j] < |slots|
  {
    && slots[order[b]].refCount == 0
    && (forall j | 0 <= j < n && slots[order[j]].refCount == 0 :: slots[order[b]].Penalty() <= slots[order[j]].Penalty())
    && (forall j | 0 <= j < b && slots[order[j]].refCount == 0 :: slots[order[b]].Penalty() < slots[order[j]].Penalty())
  }

  lemma FreeIsCheapest(slots: seq<Meta>, order: seq<nat>, i: nat)
    requires i < |order| && forall j | 0 <= j < |order| :: order[j] < |slots|
    requires slots[order[i]].refCount == 0 && slots[order[i]].Penalty() == 0
    requires forall j | 0 <= j < i && slots[order[j]].refCount == 0 :: slots[order[j]].Penalty() > 0
    ensures Cheapest(slots, order, i)
  {
  }

  lemma StillListed(order: seq<nat>, n: nat, i: nat)
    requires Listed(order, n) && i < n
    ensures Listed(order[..i] + order[i + 1..] + [order[i]], n)
  {
    var r := order[..i] + order[i + 1..] + [order[i]];
    forall k: nat | k < n ensures k in r {
      assert k in order;
      var j :| 0 <= j < n && order[j] == k;
      assert k == if j < i then r[j] else if j == i then r[n - 1] else r[j - 1];
    }
  }

  lemma NothingRebound(slots: seq<Meta>, data: seq<Block>, index: Index, disk: Store)
    requires |data| == |slots|
    ensures SameContents(slots, data, index, disk, slots, data, index, disk)
  {
  }

  /** Rebinding a clean unpinned slot loses nothing. */
  lemma Rebinds(slots: seq<Meta>, data: seq<Block>, index: Index, disk: Store, key: Key, k: nat)
    requires |data| == |slots| && Indexed(slots, index) && Coherent(slots, data, disk)
    requires k < |slots| && !slots[k].dirty && key !in index
    ensures var slots' := slots[k := Meta(Some(key), 1, false, false, slots[k].ioLocked)];
      var index' := (if slots[k].key.Some? then index - {slots[k].key.value} else index)[key := k];
      Indexed(slots', index') && Coherent(slots', data, disk) && SameContents(slots, data, index, disk, slots', data, index', disk)
  {
  }
}
