/** Files as the kernel reads, writes and truncates them in place, over the zone trees of
    the same format, against the flat sequence of bytes. */
module KernelFile {
  import opened Wrappers
  import opened Layout
  import opened ZoneTree
  import opened ZoneSteps
  import opened FlatFiles
  import BitScan
  import Raw = RawImage
  import I = Image
  import E = Errors

  datatype Errno = FBIG | ERROR

  class KernelInode {
    const fs: I.Image
    const n: nat
    /** The record in memory, ahead of the one on disk while `dirty`. */
    var record: DiskInode
    var dirty: bool
    var accessTime: U32
    var changeTime: U32

    ghost predicate Valid()
      reads this, fs, fs.raw, fs.inodeBits, fs.zoneBits
    {
      && fs.Valid() && n in fs.world && fs.world[n] == record && n in fs.raw.inodes
      && (!dirty ==> fs.raw.inodes[n] == record)
    }

    /** ... and bytes past the size read as zero. */
    ghost predicate Clean()
      reads this, fs, fs.raw, fs.inodeBits, fs.zoneBits
    {
      Valid() && PastZero(record, fs.raw.zones)
    }

    /** The file as a flat byte sequence. */
    ghost function Flat(): Bytes
      reads this, fs, fs.raw
    {
      Contents(record, fs.raw.zones)
    }

    constructor (fs: I.Image, n: nat)
      requires fs.Valid() && n in fs.raw.inodes && n in fs.world && fs.world[n] == fs.raw.inodes[n]
      ensures Valid() && this.fs == fs && this.n == n && record == fs.raw.inodes[n] && !dirty
    {
      hide Good, Raw.Holds, I.Image.Shape;
      var r := fs.ReadInode(n);
      this.fs, this.n, record := fs, n, r.value;
      dirty, accessTime, changeTime := false, 0, 0;
    }

    // ----- mapping -----

    /** A fresh zeroed zone; 0 when there is none. */
    method TryAlloc() returns (z: U16)
      requires Valid()
      modifies fs, fs.raw, fs.zoneBits
      ensures Valid() && fs.raw.inodes == old(fs.raw.inodes) && fs.world == old(fs.world)
      ensures z == 0 ==> fs.spare == 0 && fs.Snapshot() == old(fs.Snapshot())
      ensures z != 0 ==> Fresh(old(fs.Snapshot()), fs.Snapshot(), z)
      ensures old(fs.spare) <= fs.spare + 1
    {
      hide Good, Raw.Holds, Fresh;
      var zone := fs.AllocateZone();
      if zone.Err? {
        return 0;
      }
      FreshNonZero(old(fs.Snapshot()), fs.Snapshot(), zone.value);
      return zone.value;
    }

    /** Entry k of the table that position p holds in block t; with `create` an empty
        entry gets a zone. */
    method ResolveIndirectEntry(p: Ptr, t: nat, k: EntryIndex, create: bool) returns (z: nat)
      requires Valid() && p.IsTable() && Target(record, fs.raw.zones, p) == t
      modifies fs, fs.raw, fs.zoneBits
      ensures Valid() && fs.raw.inodes == old(fs.raw.inodes)
      ensures Quiet(old(fs.Snapshot()), fs.Snapshot(), n)
      ensures z == Target(record, fs.raw.zones, Child(p, k))
      ensures !create ==> fs.Snapshot() == old(fs.Snapshot())
      ensures create && z == 0 ==> fs.spare == 0 || (t == 0 && fs.spare == old(fs.spare))
      ensures old(fs.spare) <= fs.spare + 1 && (!create ==> fs.spare == old(fs.spare))
    {
      hide Good, Sound, Raw.Holds, I.Image.Shape, Quiet, Takes, Fresh;
      ghost var s := fs.Snapshot();
      fs.Now();
      QuietRefl(s, n);
      if t == 0 {
        NoTableNoEntry(record, fs.raw.zones, p, k);
        return 0;
      }
      OwnsRoot(s, n, p);
      EntryTarget(record, fs.raw.zones, p, k);
      var table := fs.ReadTable(t);
      z := table[k];
      if z == 0 && create {
        var zone := TryAlloc();
        if zone != 0 {
          ghost var u := fs.Snapshot();
          FreshTaken(s, u, zone, n);
          fs.Now();
          TableTarget(u, n, p, t, k);
          fs.WriteEntry(n, p, t, k, zone);
          TakenAfterFresh(s, u, fs.Snapshot(), n, Child(p, k), zone);
          OneMoreZone(s, fs.Snapshot(), n, Child(p, k));
          z := zone;
        }
      }
    }

    /** The zone of a root table; with `create` a missing table is made. */
    method ResolveRoot(p: Ptr, create: bool, now: U32) returns (root: nat)
      requires Valid() && (p.Single? || p.Double?)
      modifies this, fs, fs.raw, fs.zoneBits
      ensures Valid() && fs.raw.inodes == old(fs.raw.inodes) && accessTime == old(accessTime)
      ensures Quiet(old(fs.Snapshot()), fs.Snapshot(), n) && SameFile(old(record), record)
      ensures root == Target(record, fs.raw.zones, p)
      ensures !create ==> fs.Snapshot() == old(fs.Snapshot()) && dirty == old(dirty) && changeTime == old(changeTime)
      ensures create && root == 0 ==> fs.spare == 0
      ensures old(fs.spare) <= fs.spare + 1 && (!create ==> fs.spare == old(fs.spare))
    {
      hide Good, Sound, Raw.Holds, I.Image.Shape, Quiet, Takes, Fresh, Grows, Adds;
      ghost var s := fs.Snapshot();
      fs.Now();
      QuietRefl(s, n);
      root := if p.Single? then record.single else record.double;
      if root == 0 && create {
        var zone := TryAlloc();
        if zone != 0 {
          ghost var u := fs.Snapshot();
          FreshTaken(s, u, zone, n);
          var updated := WithRoot(record, p, zone);
          fs.AttachRoot(n, record, updated, p, zone);
          record, dirty, changeTime := updated, true, now;
          TakenAfterFresh(s, u, fs.Snapshot(), n, p, zone);
          OneMoreZone(s, fs.Snapshot(), n, p);
        }
        root := zone;
      }
    }

    /** The zone of direct pointer i; with `create` a missing one is allocated. */
    method ResolveDirect(i: DirectIndex, create: bool, now: U32) returns (z: nat)
      requires Valid()
      modifies this, fs, fs.raw, fs.zoneBits
      ensures Valid() && fs.raw.inodes == old(fs.raw.inodes) && accessTime == old(accessTime)
      ensures Quiet(old(fs.Snapshot()), fs.Snapshot(), n) && SameFile(old(record), record)
      ensures z == Target(record, fs.raw.zones, Direct(i))
      ensures !create ==> fs.Snapshot() == old(fs.Snapshot()) && dirty == old(dirty) && changeTime == old(changeTime)
      ensures create && z == 0 ==> fs.spare == 0
      ensures old(fs.spare) <= fs.spare + 1 && (!create ==> fs.spare == old(fs.spare))
    {
      hide Good, Sound, Raw.Holds, I.Image.Shape, Quiet, Takes, Fresh, Grows, Adds;
      ghost var s := fs.Snapshot();
      fs.Now();
      QuietRefl(s, n);
      z := record.direct[i];
      if z == 0 && create {
        var zone := TryAlloc();
        if zone != 0 {
          ghost var u := fs.Snapshot();
          FreshTaken(s, u, zone, n);
          var updated := WithDirect(record, i, zone);
          fs.AttachDirect(n, record, updated, i, zone);
          record, dirty, changeTime := updated, true, now;
          TakenAfterFresh(s, u, fs.Snapshot(), n, Direct(i), zone);
          OneMoreZone(s, fs.Snapshot(), n, Direct(i));
        }
        z := zone;
      }
    }

    /** The zone behind one logical block. With `create` missing tables and zones are
        made, which changes no byte of this or any other file; 0 then means that no
        zone is free. */
    method MapBlockId(b: nat, create: bool, now: U32) returns (r: Result<nat, Errno>)
      requires Valid()
      modifies this, fs, fs.raw, fs.zoneBits
      ensures Valid() && fs.raw.inodes == old(fs.raw.inodes) && accessTime == old(accessTime)
      ensures Quiet(old(fs.Snapshot()), fs.Snapshot(), n) && SameFile(old(record), record)
      ensures r == if b < MAX_LOGICAL_BLOCKS then Ok(ZoneAt(record, fs.raw.zones, b)) else Err(FBIG)
      ensures !create ==> fs.Snapshot() == old(fs.Snapshot()) && dirty == old(dirty) && changeTime == old(changeTime)
      ensures create && r == Ok(0) ==> fs.spare == 0
      ensures old(fs.spare) <= fs.spare + 3 && (!create ==> fs.spare == old(fs.spare))
    {
      hide Good, Sound, Raw.Holds, I.Image.Shape, Quiet, Target;
      ghost var s := fs.Snapshot();
      fs.Now();
      QuietRefl(s, n);
      if b >= MAX_LOGICAL_BLOCKS {
        return Err(FBIG);
      }
      var z: nat;
      if b < DIRECT_ZONE_COUNT {
        z := ResolveDirect(b, create, now);
      } else if b < DIRECT_ZONE_COUNT + INDIRECT_ENTRY_COUNT {
        z := ResolveSingle(b - DIRECT_ZONE_COUNT, create, now);
      } else {
        var block := b - (DIRECT_ZONE_COUNT + 1 + INDIRECT_ENTRY_COUNT - 1);
        z := ResolveDouble(block / INDIRECT_ENTRY_COUNT, block % INDIRECT_ENTRY_COUNT, create, now);
      }
      return Ok(z);
    }

    method ResolveSingle(k: EntryIndex, create: bool, now: U32) returns (z: nat)
      requires Valid()
      modifies this, fs, fs.raw, fs.zoneBits
      ensures Valid() && fs.raw.inodes == old(fs.raw.inodes) && accessTime == old(accessTime)
      ensures Quiet(old(fs.Snapshot()), fs.Snapshot(), n) && SameFile(old(record), record)
      ensures z == Target(record, fs.raw.zones, SingleAt(k))
      ensures !create ==> fs.Snapshot() == old(fs.Snapshot()) && dirty == old(dirty) && changeTime == old(changeTime)
      ensures create && z == 0 ==> fs.spare == 0
      ensures old(fs.spare) <= fs.spare + 2 && (!create ==> fs.spare == old(fs.spare))
    {
      hide Good, Sound, Raw.Holds, I.Image.Shape, Quiet, Target;
      ghost var s := fs.Snapshot();
      var root := ResolveRoot(Single, create, now);
      ghost var t := fs.Snapshot();
      z := ResolveIndirectEntry(Single, root, k, create);
      QuietTrans(s, t, fs.Snapshot(), n);
    }

    method ResolveDouble(j: EntryIndex, k: EntryIndex, create: bool, now: U32) returns (z: nat)
      requires Valid()
      modifies this, fs, fs.raw, fs.zoneBits
      ensures Valid() && fs.raw.inodes == old(fs.raw.inodes) && accessTime == old(accessTime)
      ensures Quiet(old(fs.Snapshot()), fs.Snapshot(), n) && SameFile(old(record), record)
      ensures z == Target(record, fs.raw.zones, Inner(j, k))
      ensures !create ==> fs.Snapshot() == old(fs.Snapshot()) && dirty == old(dirty) && changeTime == old(changeTime)
      ensures create && z == 0 ==> fs.spare == 0
      ensures old(fs.spare) <= fs.spare + 3 && (!create ==> fs.spare == old(fs.spare))
    {
      hide Good, Sound, Raw.Holds, I.Image.Shape, Quiet, Target;
      ghost var s := fs.Snapshot();
      var root := ResolveRoot(Double, create, now);
      ghost var t := fs.Snapshot();
      var inner := ResolveIndirectEntry(Double, root, j, create);
      ghost var u := fs.Snapshot();
      QuietTrans(s, t, u, n);
      z := ResolveIndirectEntry(Outer(j), inner, k, create);
      QuietTrans(s, u, fs.Snapshot(), n);
    }

    /** Without `create` the kernel and the image engine find the same zone for every
        logical block. */
    method BothLookups(b: nat) returns (kernel: Result<nat, Errno>, image: Result<nat, E.Error>)
      requires Valid()
      modifies this, fs, fs.raw, fs.zoneBits
      ensures Valid() && fs.Snapshot() == old(fs.Snapshot()) && record == old(record)
      ensures kernel.Ok? == image.Ok? && (kernel.Ok? ==> kernel.value == image.value)
    {
      hide Good, Sound, Raw.Holds, I.Image.Shape, Quiet, Target, ZoneAt;
      kernel := MapBlockId(b, false, 0);
      image := fs.LookupDataZone(n, record, b);
    }

    // ----- reading -----

    /** Up to len bytes from an offset. Holes read as zeros, the end of the file clips. */
    method ReadAt(offset: U32, len: nat, now: U32) returns (r: Result<Bytes, Errno>)
      requires Valid()
      modifies this, fs, fs.raw, fs.zoneBits
      ensures Valid() && fs.Snapshot() == old(fs.Snapshot()) && fs.raw.inodes == old(fs.raw.inodes)
      ensures record == old(record) && changeTime == old(changeTime) && fs.spare == old(fs.spare)
      ensures r == if TooFar(|Flat()|, offset, len) then Err(FBIG) else Ok(Clipped(Flat(), offset, len))
      ensures r.Ok? ==>
        && |r.value| == (if offset >= |Flat()| then 0 else Min(len, |Flat()| - offset))
        && forall i | 0 <= i < |r.value| :: r.value[i] == Flat()[offset + i]
      ensures r.Ok? && r.value != [] ==> accessTime == now && dirty
      ensures (r.Ok? && r.value != []) || (accessTime == old(accessTime) && dirty == old(dirty))
    {
      hide Good, Sound, Raw.Holds, I.Image.Shape, Quiet, Target, ZoneAt, Contents;
      ClippedReadsOut(Flat(), offset, len);
      if len == 0 || offset >= record.size {
        assert Clipped(Flat(), offset, len) == [];
        return Ok([]);
      }
      var end := Min(record.size, offset + len);
      var buf: Bytes := [];
      while |buf| < end - offset
        invariant |buf| <= end - offset
        invariant Valid() && fs.Snapshot() == old(fs.Snapshot()) && fs.raw.inodes == old(fs.raw.inodes)
        invariant record == old(record) && changeTime == old(changeTime) && fs.spare == old(fs.spare)
        invariant accessTime == old(accessTime) && dirty == old(dirty)
        invariant buf != [] ==> (offset + |buf| - 1) / BLOCK_SIZE < MAX_LOGICAL_BLOCKS
        invariant forall i | 0 <= i < |buf| :: buf[i] == ByteAt(record, fs.raw.zones, offset + i)
      {
        var pos := offset + |buf|;
        var chunkLength := ChunkLength(pos, end - pos);
        var zone := MapBlockId(pos / BLOCK_SIZE, false, now);
        if zone.Err? {
          FurtherBlock(pos, end);
          return Err(zone.error);
        }
        var target := ReadChunk(pos, zone.value, chunkLength);
        buf := buf + target;
      }
      accessTime, dirty := now, true;
      ClippedIs(record, fs.raw.zones, offset, end, buf);
      return Ok(buf);
    }

    /** A run of bytes within one block. */
    method ReadChunk(pos: nat, z: nat, len: nat) returns (target: Bytes)
      requires Valid() && z == ZoneAt(record, fs.raw.zones, pos / BLOCK_SIZE) && pos % BLOCK_SIZE + len <= BLOCK_SIZE
      ensures |target| == len
      ensures forall i | 0 <= i < len :: target[i] == ByteAt(record, fs.raw.zones, pos + i)
    {
      hide Good, Sound, Raw.Holds, I.Image.Shape, ZoneAt;
      if z == 0 {
        target := Zeros(len);
      } else {
        fs.ZoneOwned(n, pos / BLOCK_SIZE);
        var block := fs.ReadBlock(z);
        target := block[pos % BLOCK_SIZE..pos % BLOCK_SIZE + len];
      }
      forall i | 0 <= i < len ensures target[i] == ByteAt(record, fs.raw.zones, pos + i) {
        PatchedByte(pos, len, pos + i);
      }
    }

    // ----- writing -----

    /** Puts bytes into the block of one mapped zone. */
    method PatchBlock(ghost b: nat, z: nat, at: nat, source: Bytes)
      requires Valid() && b < MAX_LOGICAL_BLOCKS && z == ZoneAt(record, fs.raw.zones, b) != 0
      requires at + |source| <= BLOCK_SIZE
      modifies fs.raw
      ensures Valid() && fs.raw.inodes == old(fs.raw.inodes) && z in old(fs.raw.zones)
      ensures fs.Snapshot() == Written(old(fs.Snapshot()), z, Patched(old(fs.raw.zones)[z], at, source))
    {
      hide Good, Sound, Raw.Holds, I.Image.Shape, Target;
      fs.Now();
      LogicalPtrInjective(b, b);
      OwnsData(fs.Snapshot(), n, LogicalPtr(b));
      var block := fs.ReadBlock(z);
      fs.WriteDataBlock(z, Patched(block, at, source));
    }

    /** One round of the write loop. */
    method WriteChunk(offset: nat, buf: Bytes, written: nat, len: nat, now: U32, ghost s: Snap) returns (failure: Option<Errno>)
      requires Valid() && written < |buf| && len == ChunkLength(offset + written, |buf| - written)
      requires Splices(s, fs.Snapshot(), n, offset, buf, written) && OthersKept(s, fs.Snapshot(), n)
      modifies this, fs, fs.raw, fs.zoneBits
      ensures Valid() && fs.raw.inodes == old(fs.raw.inodes) && accessTime == old(accessTime)
      ensures SameFile(old(record), record) && fs.lost == old(fs.lost)
      ensures OthersKept(s, fs.Snapshot(), n)
      ensures failure.None? ==> (offset + written) / BLOCK_SIZE < MAX_LOGICAL_BLOCKS
      ensures failure == None ==> Splices(s, fs.Snapshot(), n, offset, buf, written + len)
      ensures failure.Some? ==> Splices(s, fs.Snapshot(), n, offset, buf, written)
      ensures failure.Some? ==> failure == Some(if (offset + written) / BLOCK_SIZE < MAX_LOGICAL_BLOCKS then ERROR else FBIG)
      ensures failure == Some(ERROR) ==> fs.spare == 0
      ensures old(fs.spare) <= fs.spare + 3
    {
      hide Good, Sound, Raw.Holds, I.Image.Shape, Target, Splices, OthersKept, ZoneAt, SameBytes, Grows;
      ghost var t := fs.Snapshot();
      var pos := offset + written;
      var zone := MapBlockId(pos / BLOCK_SIZE, true, now);
      ghost var u := fs.Snapshot();
      I.OthersTrans(s, t, u, n);
      SplicesSame(s, t, u, n, offset, buf, written);
      if zone.Err? {
        return Some(zone.error);
      }
      if zone.value == 0 {
        return Some(ERROR);
      }
      fs.Now();
      fs.ZoneOwned(n, pos / BLOCK_SIZE);
      SplicesMore(s, t, u, n, offset, buf, written, len, u.disk[zone.value]);
      OverwriteOthers(u, n, pos / BLOCK_SIZE, Patched(u.disk[zone.value], pos % BLOCK_SIZE, buf[written..written + len]));
      PatchBlock(pos / BLOCK_SIZE, zone.value, pos % BLOCK_SIZE, buf[written..written + len]);
      I.OthersTrans(s, u, fs.Snapshot(), n);
      return None;
    }

    /** The write loop: goes on until all is written or a block cannot be mapped. */
    method WriteChunks(offset: U32, buf: Bytes, now: U32) returns (written: nat, failure: Option<Errno>)
      requires Valid() && buf != []
      modifies this, fs, fs.raw, fs.zoneBits
      ensures Valid() && fs.raw.inodes == old(fs.raw.inodes) && accessTime == old(accessTime)
      ensures SameFile(old(record), record) && fs.lost == old(fs.lost)
      ensures Splices(old(fs.Snapshot()), fs.Snapshot(), n, offset, buf, written) && OthersKept(old(fs.Snapshot()), fs.Snapshot(), n)
      ensures written > 0 ==> offset + written <= MAX_LOGICAL_BLOCKS * BLOCK_SIZE
      ensures written <= |buf| && (written < |buf| <==> failure.Some?)
      ensures failure.Some? ==> failure == Some(if (offset + written) / BLOCK_SIZE < MAX_LOGICAL_BLOCKS then ERROR else FBIG)
      ensures failure == Some(ERROR) ==> fs.spare == 0
      ensures old(fs.spare) <= fs.spare + 3 * BlocksIn(offset, |buf|)
    {
      hide Good, Sound, Raw.Holds, I.Image.Shape, Target, Splices, OthersKept, BlocksIn, ChunkLength;
      NoBlocks(offset);
      ghost var s := fs.Snapshot();
      fs.Now();
      QuietRefl(s, n);
      SplicesNone(s, n, offset, buf);
      written, failure := 0, None;
      while failure.None? && written < |buf|
        invariant 0 <= written <= |buf|
        invariant Valid() && fs.raw.inodes == old(fs.raw.inodes) && accessTime == old(accessTime)
        invariant SameFile(old(record), record) && fs.lost == old(fs.lost)
        invariant Splices(s, fs.Snapshot(), n, offset, buf, written) && OthersKept(s, fs.Snapshot(), n)
        invariant written > 0 ==> offset + written <= MAX_LOGICAL_BLOCKS * BLOCK_SIZE
        invariant written == 0 || written == |buf| || (offset + written) % BLOCK_SIZE == 0
        invariant old(fs.spare) <= fs.spare + 3 * BlocksIn(offset, if failure.None? then written else |buf|)
        invariant failure.Some? ==> written < |buf|
        invariant failure.Some? ==> failure == Some(if (offset + written) / BLOCK_SIZE < MAX_LOGICAL_BLOCKS then ERROR else FBIG)
        invariant failure == Some(ERROR) ==> fs.spare == 0
        decreases failure.None?, |buf| - written
      {
        var chunkLength := ChunkLength(offset + written, |buf| - written);
        OneMoreBlock(offset, written, |buf|);
        failure := WriteChunk(offset, buf, written, chunkLength, now, s);
        if failure.None? {
          written := written + chunkLength;
        }
      }
    }

    /** Stamps a new size and the time of modification into the record. */
    method TouchModified(size: U32, now: U32)
      requires Valid()
      modifies this, fs
      ensures Valid() && record == old(record).(size := size, mtime := now) && changeTime == now && dirty
      ensures accessTime == old(accessTime) && fs.world == old(fs.world)[n := record]
      ensures fs.own == old(fs.own) && fs.lost == old(fs.lost) && fs.spare == old(fs.spare)
    {
      hide Good, Raw.Holds, I.Image.Shape;
      record, changeTime, dirty := record.(size := size, mtime := now), now, true;
      fs.ResizeIsFree(n, record);
    }

    /** Writes buf at an offset as far as it goes. The bytes written are in place, every
        other byte of the file reads as before, and the size becomes
        max(size, offset + written), even when nothing was written. A write stops short
        only at the format's last block or when no zone is free. */
    method WriteAt(offset: U32, buf: Bytes, now: U32) returns (r: Result<nat, Errno>)
      requires Valid()
      modifies this, fs, fs.raw, fs.zoneBits
      ensures Valid() && fs.raw.inodes == old(fs.raw.inodes) && accessTime == old(accessTime)
      ensures OthersKept(old(fs.Snapshot()), fs.Snapshot(), n) && fs.lost == old(fs.lost)
      ensures buf == [] ==> r == Ok(0) && fs.Snapshot() == old(fs.Snapshot()) && record == old(record) && dirty == old(dirty)
      ensures buf != [] ==>
        && Splices(old(fs.Snapshot()), fs.Snapshot(), n, offset, buf, Count(r)) && r != Ok(0)
        && Count(r) <= |buf| && I.SameMeta(old(record), record)
        && record.size == Max(old(record).size, offset + Count(r))
        && record.mtime == now == changeTime && dirty
      ensures buf != [] && Count(r) < |buf| ==>
        if (offset + Count(r)) / BLOCK_SIZE >= MAX_LOGICAL_BLOCKS then r.Err? ==> r.error == FBIG
        else fs.spare == 0 && (r.Err? ==> r.error == ERROR)
      ensures old(fs.spare) <= fs.spare + 3 * BlocksIn(offset, |buf|)
      ensures old(Clean()) ==> Clean() && Flat() == AfterWrite(old(Flat()), offset, buf, Count(r))
    {
      hide Good, Sound, Raw.Holds, I.Image.Shape, Target, Splices, OthersKept, BlocksIn;
      ghost var s := fs.Snapshot();
      fs.Now();
      QuietRefl(s, n);
      SplicesNone(s, n, offset, buf);
      if buf == [] {
        return Ok(0);
      }
      var written, failure := WriteChunks(offset, buf, now);
      ghost var t := fs.Snapshot();
      TouchModified(Max(record.size, offset + written), now);
      ResizeKeeps(s, t, fs.Snapshot(), n, offset, buf, written);
      if old(Clean()) {
        SplicedContents(s, fs.Snapshot(), n, offset, buf, written);
      }
      return if written == 0 && failure.Some? then Err(failure.value) else Ok(written);
    }

    // ----- truncating and syncing -----

    /** Frees the zones of a tree that the record has dropped, depth first: the tree of
        position p, with as many levels of tables as the position has. */
    method FreeZoneTree(z: nat, levels: nat, ghost s: Snap, ghost p: Ptr)
      requires fs.Valid() && fs.raw.zones == s.disk && Sound(s) && n in s.w
      requires z == Target(s.w[n], s.disk, p) && levels == Levels(p) && TreeZones(s.own, n, p) <= fs.lost
      modifies fs, fs.raw, fs.zoneBits
      ensures fs.Valid() && fs.world == old(fs.world) && fs.own == old(fs.own)
      ensures fs.raw.inodes == old(fs.raw.inodes) && fs.raw.zones == old(fs.raw.zones)
      ensures fs.lost == old(fs.lost) - TreeZones(s.own, n, p)
      ensures fs.spare == old(fs.spare) + |TreeZones(s.own, n, p)|
      decreases levels, 1
    {
      hide Good, Sound, Raw.Holds, I.Image.Shape, TreeZones, ZonesBelow, Target, Child, EntryOf, Under;
      if z == 0 {
        NoTree(s, n, p);
        assert fs.lost - {} == fs.lost;
        return;
      }
      TreeRoot(s, n, p);
      if levels > 0 {
        OwnsRoot(s, n, p);
        var table := fs.ReadTable(z);
        FreeEntries(table, levels, s, p);
      }
      fs.FreeZone(z);
      LessAll(old(fs.lost), ZonesBelow(s.own, n, p, INDIRECT_ENTRY_COUNT), z);
    }

    /** Frees the trees of a table's entries. */
    method FreeEntries(table: Table, levels: nat, ghost s: Snap, ghost p: Ptr)
      requires fs.Valid() && fs.raw.zones == s.disk && Sound(s) && n in s.w
      requires p.IsTable() && levels == Levels(p) && TreeZones(s.own, n, p) <= fs.lost
      requires forall k: EntryIndex :: table[k] == EntryOf(s.disk, Target(s.w[n], s.disk, p), k)
      modifies fs, fs.raw, fs.zoneBits
      ensures fs.Valid() && fs.world == old(fs.world) && fs.own == old(fs.own)
      ensures fs.raw.inodes == old(fs.raw.inodes) && fs.raw.zones == old(fs.raw.zones)
      ensures fs.lost == old(fs.lost) - ZonesBelow(s.own, n, p, INDIRECT_ENTRY_COUNT)
      ensures fs.spare == old(fs.spare) + |ZonesBelow(s.own, n, p, INDIRECT_ENTRY_COUNT)|
      decreases levels, 0
    {
      hide Good, Sound, Raw.Holds, I.Image.Shape, TreeZones, ZonesBelow, Target, Child, EntryOf, Under;
      NoneBelow(s.own, n, p);
      assert fs.lost - {} == fs.lost;
      for k := 0 to INDIRECT_ENTRY_COUNT
        invariant fs.Valid() && fs.world == old(fs.world) && fs.own == old(fs.own)
        invariant fs.raw.inodes == old(fs.raw.inodes) && fs.raw.zones == old(fs.raw.zones)
        invariant fs.lost == old(fs.lost) - ZonesBelow(s.own, n, p, k)
        invariant fs.spare == old(fs.spare) + |ZonesBelow(s.own, n, p, k)|
      {
        ChildTree(s.own, n, p, k);
        EntryTarget(s.w[n], s.disk, p, k);
        FreeZoneTree(table[k], levels - 1, s, Child(p, k));
      }
    }

    /** Drops a root table from the record, then frees its tree. */
    method DropTree(p: Ptr, levels: nat)
      requires Valid() && (p.Single? || p.Double?) && levels == Levels(p)
      modifies this`record, this`dirty, fs, fs.raw, fs.zoneBits
      ensures Valid() && dirty && record == WithRoot(old(record), p, 0)
      ensures fs.world == old(fs.world)[n := record]
      ensures fs.raw.inodes == old(fs.raw.inodes) && fs.raw.zones == old(fs.raw.zones)
      ensures fs.own == old(fs.own) - PartZones(old(fs.own), n, RootPart(p)) && fs.lost == old(fs.lost)
      ensures fs.spare == old(fs.spare) + |PartZones(old(fs.own), n, RootPart(p))|
    {
      hide Good, Sound, Raw.Holds, I.Image.Shape, Loses, PartZones, TreeZones;
      ghost var s := fs.Snapshot();
      fs.Now();
      var root := if p.Single? then record.single else record.double;
      I.RootTargets(record, fs.raw.zones);
      RootZones(s, n, p);
      record, dirty := WithRoot(record, p, 0), true;
      DropRoot(fs.world, fs.raw.zones, n, p);
      fs.DetachPart(n, record, RootPart(p));
      FreeZoneTree(root, levels, s, p);
      assert s.lost + TreeZones(s.own, n, p) - TreeZones(s.own, n, p) == s.lost;
    }

    /** Releases all data of a regular file or directory; other types have none. */
    method Truncate(now: U32)
      requires Valid()
      modifies this, fs, fs.raw, fs.zoneBits
      ensures Valid() && fs.raw.inodes == old(fs.raw.inodes) && accessTime == old(accessTime)
      ensures OthersKept(old(fs.Snapshot()), fs.Snapshot(), n)
      ensures !HasData(old(record).mode) ==> fs.Snapshot() == old(fs.Snapshot()) && record == old(record) && dirty == old(dirty)
      ensures HasData(old(record).mode) ==>
        && Flat() == [] && Clean() && record == Emptied(old(record)).(mtime := now)
        && fs.own == old(fs.own) - InodeZones(old(fs.own), n) && fs.lost == old(fs.lost)
        && fs.spare == old(fs.spare) + |InodeZones(old(fs.own), n)|
        && changeTime == now && dirty
    {
      hide Quiet, PastZero, Contents, Good, Sound, Raw.Holds, I.Image.Shape, OthersKept, InodeZones, PartZones, I.DirectsBelow;
      ghost var s := fs.Snapshot();
      fs.Now();
      QuietRefl(s, n);
      if !HasData(record.mode) {
        return;
      }
      record := fs.FreeDirect(n, record);
      dirty := true;
      ghost var own1 := fs.own;
      DropTree(Single, 1);
      ghost var own2 := fs.own;
      DropTree(Double, 2);
      I.AllParts(s.own, own1, own2, n);
      I.ReleaseKeepsOthers(s, fs.Snapshot(), n);
      ghost var t := fs.Snapshot();
      TouchModified(0, now);
      EmptiedIsZero(record, fs.raw.zones);
      I.ReleaseKeepsOthers(t, fs.Snapshot(), n);
      I.OthersTrans(s, t, fs.Snapshot(), n);
    }

    /** Writes the record back when it is newer than the one on disk. */
    method Sync()
      requires Valid()
      modifies this`dirty, fs.raw
      ensures Valid() && !dirty && fs.raw.inodes == old(fs.raw.inodes)[n := record] && fs.raw.zones == old(fs.raw.zones)
    {
      hide Good, Raw.Holds, I.Image.Shape;
      if dirty {
        fs.WriteInode(n, record);
        dirty := false;
      }
    }

    // ----- runs -----

    /** One operation, against the flat file. */
    method Step(op: FileOp, now: U32) returns (reply: Reply)
      requires Clean() && HasData(record.mode)
      modifies this, fs, fs.raw, fs.zoneBits
      ensures Clean() && record.mode == old(record).mode && OthersKept(old(fs.Snapshot()), fs.Snapshot(), n)
      ensures Answers(old(Flat()), op, reply) && Flat() == FlatStep(old(Flat()), op, reply)
      ensures Costs(op, reply, old(fs.spare), fs.spare)
    {
      hide Good, Sound, Raw.Holds, I.Image.Shape, OthersKept, Contents, PastZero, InodeZones, Quiet, Splices;
      fs.Now();
      QuietKeepsOthers(fs.Snapshot(), n);
      match op
      case Read(offset, len) =>
        var data := ReadAt(offset, len, now);
        reply := Data(data);
      case Write(offset, buf) =>
        var r := WriteAt(offset, buf, now);
        reply := Wrote(r);
      case Cut =>
        Truncate(now);
        reply := Done;
    }

    /** Over every run of reads, writes and truncations the file answers as the flat
        sequence does, every other file keeps its contents, and a write stops short only at
        the format's last block or at the last free zone: counts of free zones that start
        as they are and fall by what a write takes reach zero with it. */
    method Run(ops: seq<FileOp>, now: U32) returns (replies: seq<Reply>, ghost spares: seq<nat>)
      requires Clean() && HasData(record.mode)
      modifies this, fs, fs.raw, fs.zoneBits
      ensures Clean() && OthersKept(old(fs.Snapshot()), fs.Snapshot(), n)
      ensures |replies| == |ops| && AllAnswer(old(Flat()), ops, replies) && Flat() == FlatRun(old(Flat()), ops, replies)
      ensures AllCost(ops, replies, spares) && spares[0] == old(fs.spare) && spares[|ops|] == fs.spare
    {
      hide Answers, FlatStep, FlatRun, AllAnswer, Costs, Good, Sound, Raw.Holds, I.Image.Shape, OthersKept, Contents, PastZero;
      fs.Now();
      ghost var s := fs.Snapshot();
      QuietKeepsOthers(s, n);
      NothingRun(Flat());
      replies, spares := [], [fs.spare];
      for i := 0 to |ops|
        invariant Clean() && HasData(record.mode) && OthersKept(s, fs.Snapshot(), n)
        invariant |replies| == i && AllAnswer(old(Flat()), ops[..i], replies)
        invariant Flat() == FlatRun(old(Flat()), ops[..i], replies)
        invariant |spares| == i + 1 && spares[0] == old(fs.spare) && spares[i] == fs.spare
        invariant forall j | 0 <= j < i :: Costs(ops[j], replies[j], spares[j], spares[j + 1])
      {
        ghost var t := fs.Snapshot();
        var reply := Step(ops[i], now);
        I.OthersTrans(s, t, fs.Snapshot(), n);
        assert ops[..i + 1] == ops[..i] + [ops[i]];
        RunSnoc(old(Flat()), ops[..i], replies, ops[i], reply);
        replies, spares := replies + [reply], spares + [fs.spare];
      }
      assert ops[..|ops|] == ops;
    }
  }

  /** How many blocks a range of bytes touches. */
  function BlocksIn(offset: nat, len: nat): nat
  {
    if len == 0 then 0 else (offset + len - 1) / BLOCK_SIZE - offset / BLOCK_SIZE + 1
  }

  lemma NoBlocks(offset: nat)
    ensures BlocksIn(offset, 0) == 0
  {
  }

  /** A round of the write loop ends with its block or with the range. */
  lemma OneMoreBlock(offset: nat, written: nat, all: nat)
    requires written < all && (written == 0 || (offset + written) % BLOCK_SIZE == 0)
    ensures var next := written + ChunkLength(offset + written, all - written);
      && (next == all || (offset + next) % BLOCK_SIZE == 0)
      && BlocksIn(offset, written) + 1 == BlocksIn(offset, next) <= BlocksIn(offset, all)
  {
    var pos := offset + written;
    var next := written + ChunkLength(pos, all - written);
    assert (offset + next - 1) / BLOCK_SIZE == pos / BLOCK_SIZE;
    if written > 0 { assert (pos - 1) / BLOCK_SIZE == pos / BLOCK_SIZE - 1; }
  }

  datatype FileOp = Read(offset: U32, len: nat) | Write(offset: U32, buf: Bytes) | Cut

  datatype Reply = Data(data: Result<Bytes, Errno>) | Wrote(count: Result<nat, Errno>) | Done

  /** What the flat file allows as a reply. */
  predicate Answers(c: Bytes, op: FileOp, reply: Reply)
  {
    match op
    case Read(offset, len) =>
      && reply.Data?
      && if TooFar(|c|, offset, len) then reply.data == Err(FBIG) else reply.data.Ok? && ReadsOut(c, offset, len, reply.data.value)
    case Write(_, buf) =>
      && reply.Wrote? && Count(reply.count) <= |buf| && (reply.count == Ok(0) <==> buf == [])
    case Cut => reply == Done
  }

  function FlatStep(c: Bytes, op: FileOp, reply: Reply): Bytes
  {
    match op
    case Read(_, _) => c
    case Write(offset, buf) => if reply.Wrote? then AfterWrite(c, offset, buf, Count(reply.count)) else c
    case Cut => []
  }

  function FlatRun(c: Bytes, ops: seq<FileOp>, replies: seq<Reply>): Bytes
    requires |replies| == |ops|
  {
    if ops == [] then c
    else FlatStep(FlatRun(c, ops[..|ops| - 1], replies[..|ops| - 1]), ops[|ops| - 1], replies[|ops| - 1])
  }

  predicate AllAnswer(c: Bytes, ops: seq<FileOp>, replies: seq<Reply>)
    requires |replies| == |ops|
  {
    ops == [] ||
    var k := |ops| - 1;
    AllAnswer(c, ops[..k], replies[..k]) && Answers(FlatRun(c, ops[..k], replies[..k]), ops[k], replies[k])
  }

  /** How the number of free zones moves, and the only causes for a write to stop short:
      the last block of the format, or that no zone is left. */
  ghost predicate Costs(op: FileOp, reply: Reply, spare: nat, spare': nat)
  {
    match op
    case Read(_, _) => spare' == spare
    case Cut => spare' >= spare
    case Write(offset, buf) =>
      && spare <= spare' + 3 * BlocksIn(offset, |buf|)
      && reply.Wrote?
      && (Count(reply.count) < |buf| ==>
            if (offset + Count(reply.count)) / BLOCK_SIZE >= MAX_LOGICAL_BLOCKS
            then reply.count.Err? ==> reply.count.error == FBIG
            else spare' == 0 && (reply.count.Err? ==> reply.count.error == ERROR))
  }

  ghost predicate AllCost(ops: seq<FileOp>, replies: seq<Reply>, spares: seq<nat>)
  {
    && |replies| == |ops| && |spares| == |ops| + 1
    && forall i | 0 <= i < |ops| :: Costs(ops[i], replies[i], spares[i], spares[i + 1])
  }

  /** The zones that operations take at most together. */
  function ZonesOfAll(ops: seq<FileOp>): nat
  {
    if ops == [] then 0
    else ZonesOfAll(ops[..|ops| - 1]) + match ops[|ops| - 1] case Write(offset, buf) => 3 * BlocksIn(offset, |buf|) case _ => 0
  }

  /** With more free zones than that at the start, every write within the format is whole. */
  lemma {:induction false} WritesWhole(ops: seq<FileOp>, replies: seq<Reply>, spares: seq<nat>)
    requires AllCost(ops, replies, spares) && spares[0] > ZonesOfAll(ops)
    ensures spares[|ops|] + ZonesOfAll(ops) >= spares[0]
    ensures forall i | 0 <= i < |ops| && ops[i].Write? && ops[i].offset + |ops[i].buf| <= MAX_LOGICAL_BLOCKS * BLOCK_SIZE ::
              replies[i].Wrote? && Count(replies[i].count) >= |ops[i].buf|
  {
    if ops != [] {
      var k := |ops| - 1;
      WritesWhole(ops[..k], replies[..k], spares[..k + 1]);
      assert Costs(ops[k], replies[k], spares[k], spares[k + 1]);
      forall i | 0 <= i < |ops| && ops[i].Write? && ops[i].offset + |ops[i].buf| <= MAX_LOGICAL_BLOCKS * BLOCK_SIZE
        ensures replies[i].Wrote? && Count(replies[i].count) >= |ops[i].buf|
      {
        if i < k { assert ops[..k][i] == ops[i] && replies[..k][i] == replies[i]; }
      }
    }
  }

  lemma NothingRun(c: Bytes)
    ensures AllAnswer(c, [], []) && FlatRun(c, [], []) == c
  {
  }

  /** What was last written to a byte: by a write that reached it, or zero since a truncation. */
  function LastByte(c: Bytes, ops: seq<FileOp>, replies: seq<Reply>, pos: nat): U8
    requires |replies| == |ops|
  {
    if ops == [] then (if pos < |c| then c[pos] else 0)
    else
      var k := |ops| - 1;
      match ops[k]
      case Cut => 0
      case Write(offset, buf) =>
        if replies[k].Wrote? && Count(replies[k].count) <= |buf| && offset <= pos < offset + Count(replies[k].count)
        then buf[pos - offset] else LastByte(c, ops[..k], replies[..k], pos)
      case Read(_, _) => LastByte(c, ops[..k], replies[..k], pos)
  }

  /** How far the writes since the last truncation reach, or the file did before. */
  function LastSize(c: Bytes, ops: seq<FileOp>, replies: seq<Reply>): nat
    requires |replies| == |ops|
  {
    if ops == [] then |c|
    else
      var k := |ops| - 1;
      var size := LastSize(c, ops[..k], replies[..k]);
      match ops[k]
      case Cut => 0
      case Write(offset, buf) =>
        if replies[k].Wrote? && buf != [] && Count(replies[k].count) <= |buf| then Max(size, offset + Count(replies[k].count)) else size
      case Read(_, _) => size
  }

  /** Throughout a run every byte of the file is what was last written to it. */
  lemma {:induction false} RunRemembers(c: Bytes, ops: seq<FileOp>, replies: seq<Reply>, pos: nat)
    requires |replies| == |ops|
    ensures FlatByte(FlatRun(c, ops, replies), pos) == LastByte(c, ops, replies, pos)
    ensures |FlatRun(c, ops, replies)| == LastSize(c, ops, replies)
  {
    if ops != [] {
      RunRemembers(c, ops[..|ops| - 1], replies[..|ops| - 1], pos);
    }
  }

  lemma RunSnoc(c: Bytes, ops: seq<FileOp>, replies: seq<Reply>, op: FileOp, reply: Reply)
    requires |replies| == |ops|
    ensures FlatRun(c, ops + [op], replies + [reply]) == FlatStep(FlatRun(c, ops, replies), op, reply)
    ensures AllAnswer(c, ops + [op], replies + [reply]) <==>
            AllAnswer(c, ops, replies) && Answers(FlatRun(c, ops, replies), op, reply)
  {
    assert (ops + [op])[..|ops|] == ops && (replies + [reply])[..|ops|] == replies;
  }

  lemma QuietKeepsOthers(s: Snap, n: nat)
    requires Sound(s) && n in s.w
    ensures OthersKept(s, s, n)
  {
    QuietRefl(s, n);
  }

  /** The flat file after the first k bytes of d were written; writing nothing is a no-op. */
  function AfterWrite(c: Bytes, offset: nat, d: Bytes, k: nat): Bytes
  {
    if d == [] || k > |d| then c else Spliced(c, offset, d[..k])
  }

  // ----- zone trees -----

  /** How many levels of tables a position starts. */
  function Levels(p: Ptr): nat
  {
    match p case Double => 2 case Single => 1 case Outer(_) => 1 case _ => 0
  }

  /** The part of a record that goes with a root table. */
  function RootPart(p: Ptr): Part { if p.Single? then SinglePart else DoublePart }

  /** The zones inode n owns at a position and under it. */
  ghost function TreeZones(own: Owners, n: nat, p: Ptr): set<nat>
  {
    set z | z in own && own[z].inode == n && (own[z].ptr == p || Under(own[z].ptr, p))
  }

  /** Position q belongs to one of the first k entries of the table at p. */
  predicate EntryBelow(q: Ptr, p: Ptr, k: nat)
  {
    match p
    case Single => q.SingleAt? && q.k < k
    case Double => (q.Outer? || q.Inner?) && q.j < k
    case Outer(j) => q.Inner? && q.j == j && q.k < k
    case _ => false
  }

  ghost function ZonesBelow(own: Owners, n: nat, p: Ptr, k: nat): set<nat>
  {
    set z | z in own && own[z].inode == n && EntryBelow(own[z].ptr, p, k)
  }

  lemma NoneBelow(own: Owners, n: nat, p: Ptr)
    ensures ZonesBelow(own, n, p, 0) == {}
  {
  }

  /** The tree of a table is its entries' trees and the table. */
  lemma TreeRoot(s: Snap, n: nat, p: Ptr)
    requires Sound(s) && n in s.w && Target(s.w[n], s.disk, p) != 0
    ensures var z := Target(s.w[n], s.disk, p); var below := ZonesBelow(s.own, n, p, INDIRECT_ENTRY_COUNT);
      && z in TreeZones(s.own, n, p) && z !in below
      && TreeZones(s.own, n, p) == below + {z} && |TreeZones(s.own, n, p)| == |below| + 1
      && (!p.IsTable() ==> below == {})
  {
    var z, below := Target(s.w[n], s.disk, p), ZonesBelow(s.own, n, p, INDIRECT_ENTRY_COUNT);
    TreeRootZone(s, n, p);
    forall y ensures y in TreeZones(s.own, n, p) <==> y in below + {z} {
      TreeMember(s, n, p, y);
    }
    hide Sound, Target, ZonesBelow, TreeZones;
    assert TreeZones(s.own, n, p) == below + {z};
  }

  lemma TreeRootZone(s: Snap, n: nat, p: Ptr)
    requires Sound(s) && n in s.w && Target(s.w[n], s.disk, p) != 0
    ensures var z := Target(s.w[n], s.disk, p);
      z in TreeZones(s.own, n, p) && z !in ZonesBelow(s.own, n, p, INDIRECT_ENTRY_COUNT)
    ensures !p.IsTable() ==> ZonesBelow(s.own, n, p, INDIRECT_ENTRY_COUNT) == {}
  {
    OwnerOf(s.w, s.disk, s.own, n, p);
  }

  lemma TreeMember(s: Snap, n: nat, p: Ptr, y: nat)
    requires Sound(s) && n in s.w && Target(s.w[n], s.disk, p) != 0
    ensures y in TreeZones(s.own, n, p) <==> y in ZonesBelow(s.own, n, p, INDIRECT_ENTRY_COUNT) || y == Target(s.w[n], s.disk, p)
  {
    hide Target;
    OwnerOf(s.w, s.disk, s.own, n, p);
    if y in s.own { OwnerPoints(s.w, s.disk, s.own, y); }
  }

  lemma LessAll(lost: set<nat>, below: set<nat>, z: nat)
    ensures lost - below - {z} == lost - (below + {z}) && (below == {} ==> lost - below == lost)
  {
  }

  /** One more entry's tree. */
  lemma ChildTree(own: Owners, n: nat, p: Ptr, k: EntryIndex)
    requires p.IsTable()
    ensures var child := TreeZones(own, n, Child(p, k)); var below := ZonesBelow(own, n, p, k);
      && ZonesBelow(own, n, p, k + 1) == below + child && below !! child
      && |ZonesBelow(own, n, p, k + 1)| == |below| + |child| && child <= TreeZones(own, n, p)
      && Levels(Child(p, k)) == Levels(p) - 1
      && forall lost: set<nat> :: lost - below - child == lost - ZonesBelow(own, n, p, k + 1)
  {
    var child, below := TreeZones(own, n, Child(p, k)), ZonesBelow(own, n, p, k);
    assert ZonesBelow(own, n, p, k + 1) == below + child;
    DisjointSize(below, child);
  }

  lemma NoTree(s: Snap, n: nat, p: Ptr)
    requires Sound(s) && n in s.w && Target(s.w[n], s.disk, p) == 0
    ensures TreeZones(s.own, n, p) == {}
  {
    forall z | z in TreeZones(s.own, n, p) ensures false {
      OwnerPoints(s.w, s.disk, s.own, z);
    }
  }

  lemma RootZones(s: Snap, n: nat, p: Ptr)
    requires Sound(s) && (p.Single? || p.Double?)
    ensures TreeZones(s.own, n, p) == PartZones(s.own, n, RootPart(p))
    ensures TreeZones(s.own, n, p) <= s.own.Keys && TreeZones(s.own, n, p) !! s.lost
  {
  }

  /** How many bytes a write reports. */
  function Count(r: Result<nat, Errno>): nat { if r.Ok? then r.value else 0 }

  /** A read that reaches a block the format cannot address. */
  predicate TooFar(size: nat, offset: nat, len: nat)
  {
    len > 0 && offset < size && (Min(size, offset + len) - 1) / BLOCK_SIZE >= MAX_LOGICAL_BLOCKS
  }

  lemma FurtherBlock(pos: nat, end: nat)
    requires pos < end
    ensures (end - 1) / BLOCK_SIZE >= pos / BLOCK_SIZE
  {
  }

  lemma ClippedIs(ino: DiskInode, disk: Disk, offset: nat, end: nat, buf: Bytes)
    requires offset + |buf| == end <= ino.size
    requires forall i | 0 <= i < |buf| :: buf[i] == ByteAt(ino, disk, offset + i)
    ensures buf == Contents(ino, disk)[offset..end]
  {
  }

  lemma SplicesNone(s: Snap, n: nat, offset: nat, d: Bytes)
    requires n in s.w
    ensures Splices(s, s, n, offset, d, 0)
  {
  }

  lemma SplicesSame(s: Snap, t: Snap, u: Snap, n: nat, offset: nat, d: Bytes, k: nat)
    requires Splices(s, t, n, offset, d, k) && n in u.w && SameBytes(t, u, n)
    ensures Splices(s, u, n, offset, d, k)
  {
    forall pos: nat
      ensures ByteAt(u.w[n], u.disk, pos) == if offset <= pos < offset + k then d[pos - offset] else ByteAt(s.w[n], s.disk, pos)
    {
      assert ByteAt(u.w[n], u.disk, pos) == ByteAt(t.w[n], t.disk, pos);
    }
  }

  lemma ResizeKeeps(s: Snap, t: Snap, u: Snap, n: nat, offset: nat, d: Bytes, k: nat)
    requires Splices(s, t, n, offset, d, k) && OthersKept(s, t, n)
    requires n in u.w && u.w == t.w[n := u.w[n]] && u.disk == t.disk && SamePointers(t.w[n], u.w[n])
    ensures Splices(s, u, n, offset, d, k) && OthersKept(s, u, n)
  {
    forall pos: nat ensures ByteAt(u.w[n], u.disk, pos) == ByteAt(t.w[n], t.disk, pos) {
      SamePointersSameByte(t.w[n], u.w[n], u.disk, pos);
    }
    hide OthersKept, Splices;
    SplicesSame(s, t, u, n, offset, d, k);
    I.ReleaseKeepsOthers(t, u, n);
    I.OthersTrans(s, t, u, n);
  }

  lemma EmptiedIsZero(ino: DiskInode, disk: Disk)
    requires ino == Emptied(ino)
    ensures PastZero(ino, disk) && Contents(ino, disk) == []
  {
    EmptyIsFilledToZero(ino, disk);
    forall pos: nat ensures ByteAt(ino, disk, pos) == 0 {
      assert ZoneAt(ino, disk, pos / BLOCK_SIZE) == 0;
    }
  }

  /** Only the zone pointers of a record differ. */
  predicate SameFile(a: DiskInode, b: DiskInode)
  {
    b == a.(direct := b.direct, single := b.single, double := b.double)
  }

  lemma FreshNonZero(s: Snap, t: Snap, z: nat)
    requires Fresh(s, t, z)
    ensures z != 0
  {
  }

  lemma NoTableNoEntry(ino: DiskInode, disk: Disk, p: Ptr, k: EntryIndex)
    requires p.IsTable() && Target(ino, disk, p) == 0
    ensures Target(ino, disk, Child(p, k)) == 0
  {
  }

  lemma EntryTarget(ino: DiskInode, disk: Disk, p: Ptr, k: EntryIndex)
    requires p.IsTable()
    ensures Target(ino, disk, Child(p, k)) == EntryOf(disk, Target(ino, disk, p), k)
  {
  }
}
