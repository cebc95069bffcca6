/** The image engine below directories: zone allocation, zone trees and the contents
    of inodes, over the flat block array. */
module Image {
  import opened Errors
  import opened Wrappers
  import opened Layout
  import opened ZoneTree
  import opened ZoneSteps
  import opened BitSpec
  import BitScan
  import Raw = RawImage

  /** What opening an image loads. */
  datatype Opened = Opened(sb: Raw.SuperBlock, inodeBits: BitScan.Bitmap, zoneBits: BitScan.Bitmap)

  class Image {
    const sb: Raw.SuperBlock
    const raw: Raw.RawImage
    const inodeBits: BitScan.Bitmap
    const zoneBits: BitScan.Bitmap
    /** The current inode records: those on disk, except that the record an operation
        is working on may be newer in memory. */
    ghost var world: World
    /** Which pointer reaches each attached zone. */
    ghost var own: Owners
    /** Allocated zones that no pointer reaches. */
    ghost var lost: set<nat>

    /** How many data zones are free. */
    ghost var spare: nat

    /** Both bitmaps have the geometry of the super block, and the header on disk
        equals the bitmaps in memory. */
    ghost predicate Shape()
      reads this, raw, inodeBits, zoneBits
    {
      && raw.Valid() && raw.sb == sb && inodeBits != zoneBits
      && inodeBits.Valid() && inodeBits.startIndex == 0 && inodeBits.bitCount == sb.inodeCount + 1
      && |inodeBits.blocks| == sb.inodeBitmapBlocks
      && zoneBits.Valid() && zoneBits.startIndex == sb.firstDataZone - 1
      && zoneBits.bitCount == sb.zoneCount - sb.firstDataZone + 1
      && |zoneBits.blocks| == sb.zoneBitmapBlocks
      && raw.header[1] == Raw.EncodeSuper(sb)
      && raw.header[2..2 + sb.inodeBitmapBlocks] == inodeBits.blocks
      && raw.header[2 + sb.inodeBitmapBlocks..] == zoneBits.blocks
    }

    ghost function Snapshot(): Snap
      reads this, raw
    {
      Snap(world, raw.zones, own, lost)
    }

    /** The image invariant. */
    ghost predicate Valid()
      reads this, raw, inodeBits, zoneBits
    {
      && Shape() && world.Keys == raw.inodes.Keys
      && Good(Snapshot(), zoneBits.Used(), sb.firstDataZone, spare)
    }

    /** A freshly zeroed image: bit 0 of both bitmaps is reserved, nothing else is used. */
    constructor Format(sb: Raw.SuperBlock)
      requires sb.Laid()
      ensures this.sb == sb && Valid() && inodeBits.Valid() && world == raw.inodes
      ensures spare == sb.zoneCount - sb.firstDataZone
      ensures own == map[] && lost == {}
      ensures inodeBits.Used() == {0}
      ensures forall n | n in raw.inodes :: raw.inodes[n] == ZeroInode
      ensures fresh(raw) && fresh(inodeBits) && fresh(zoneBits)
    {
      hide Raw.Holds, Raw.EncodeSuper, Good, BitScan.Bitmap.Used, BitScan.Bitmap.Flags, BitScan.Bitmap.AllFlags, BitScan.Bitmap.Valid, Sound;
      this.sb := sb;
      raw := new Raw.RawImage(sb);
      inodeBits := new BitScan.Bitmap.Empty(0, sb.inodeCount + 1);
      zoneBits := new BitScan.Bitmap.Empty(sb.firstDataZone - 1, sb.zoneCount - sb.firstDataZone + 1);
      own, lost, spare := map[], {}, sb.zoneCount - sb.firstDataZone;
      world := map[];
      new;
      SyncSuperBlock();
      ReserveBits();
      world := raw.inodes;
      raw.Domains();
      FreshIsGood(raw.inodes, raw.zones, sb.firstDataZone, sb.zoneCount, zoneBits.Used());
    }

    /** Marks bit 0 of both empty bitmaps and writes them to the header. */
    method ReserveBits()
      requires raw.Valid() && raw.sb == sb && inodeBits != zoneBits
      requires inodeBits.Valid() && inodeBits.startIndex == 0 && inodeBits.bitCount == sb.inodeCount + 1
      requires |inodeBits.blocks| == sb.inodeBitmapBlocks && inodeBits.Used() == {}
      requires zoneBits.Valid() && zoneBits.startIndex == sb.firstDataZone - 1
      requires zoneBits.bitCount == sb.zoneCount - sb.firstDataZone + 1
      requires |zoneBits.blocks| == sb.zoneBitmapBlocks && zoneBits.Used() == {}
      requires |raw.header| > 1 && raw.header[1] == Raw.EncodeSuper(sb)
      modifies raw, inodeBits, zoneBits
      ensures Shape() && raw.inodes == old(raw.inodes) && raw.zones == old(raw.zones)
      ensures inodeBits.Used() == {0} && zoneBits.Used() == {sb.firstDataZone - 1}
    {
      hide Raw.Holds, Raw.EncodeSuper, BitScan.Bitmap.Used, BitScan.Bitmap.Flags, BitScan.Bitmap.AllFlags;
      raw.Domains();
      inodeBits.Set(0);
      zoneBits.Set(sb.firstDataZone - 1);
      SyncInodeBitmap();
      SyncZoneBitmap();
    }

    method SyncSuperBlock()
      requires raw.Valid() && raw.sb == sb
      modifies raw
      ensures raw.Valid() && raw.inodes == old(raw.inodes) && raw.zones == old(raw.zones)
      ensures |raw.header| > 1 && raw.header[1] == Raw.EncodeSuper(sb)
    {
      hide Raw.Holds, Raw.EncodeSuper;
      raw.Domains();
      raw.WriteHeader(1, [Raw.EncodeSuper(sb)]);
    }

    method SyncInodeBitmap()
      requires raw.Valid() && raw.sb == sb && sb.TableStart() == 2 + |inodeBits.blocks| + sb.zoneBitmapBlocks
      modifies raw
      ensures raw.Valid() && raw.inodes == old(raw.inodes) && raw.zones == old(raw.zones)
      ensures |raw.header| > 1 && raw.header[1] == old(raw.header)[1]
      ensures raw.header[2..2 + |inodeBits.blocks|] == inodeBits.blocks
      ensures raw.header[2 + |inodeBits.blocks|..] == old(raw.header)[2 + |inodeBits.blocks|..]
    {
      hide Raw.Holds, Raw.EncodeSuper;
      raw.Domains();
      ghost var h := raw.header;
      raw.WriteHeader(2, inodeBits.blocks);
      assert raw.header[1] == raw.header[..2][1] == h[..2][1] == h[1];
    }

    /** Opens the image once more from its blocks alone: between any two operations this
        gives the geometry and both bitmaps as they are in memory. */
    method Reopen() returns (r: Option<Opened>)
      requires Valid()
      ensures r.Some? && r.value.sb == sb
      ensures
        && r.value.inodeBits.Valid() && r.value.inodeBits.blocks == inodeBits.blocks
        && r.value.inodeBits.startIndex == inodeBits.startIndex && r.value.inodeBits.bitCount == inodeBits.bitCount
      ensures
        && r.value.zoneBits.Valid() && r.value.zoneBits.blocks == zoneBits.blocks
        && r.value.zoneBits.startIndex == zoneBits.startIndex && r.value.zoneBits.bitCount == zoneBits.bitCount
    {
      hide Raw.Holds, Good, Raw.EncodeSuper, Raw.DecodeSuper, BitScan.Bitmap.Used;
      raw.Domains();
      var first := raw.ReadHeader(1, 1);
      Raw.SuperRoundTrip(sb);
      var decoded := Raw.DecodeSuper(first[0]);
      if decoded.None? {
        return None;
      }
      var found := decoded.value;
      var inodeBlocks := raw.ReadHeader(2, found.inodeBitmapBlocks);
      var zoneBlocks := raw.ReadHeader(2 + found.inodeBitmapBlocks, found.zoneBitmapBlocks);
      var openedInodes := new BitScan.Bitmap.FromBlocks(0, found.inodeCount + 1, inodeBlocks);
      var openedZones := new BitScan.Bitmap.FromBlocks(found.firstDataZone - 1, found.zoneCount - found.firstDataZone + 1, zoneBlocks);
      return Some(Opened(found, openedInodes, openedZones));
    }

    // ----- zones -----

    method SyncZoneBitmap()
      requires raw.Valid() && raw.sb == sb && sb.TableStart() == 2 + sb.inodeBitmapBlocks + |zoneBits.blocks|
      modifies raw
      ensures raw.Valid() && raw.inodes == old(raw.inodes) && raw.zones == old(raw.zones)
      ensures |raw.header| > 1 && raw.header[1] == old(raw.header)[1]
      ensures raw.header[2..2 + sb.inodeBitmapBlocks] == old(raw.header)[2..2 + sb.inodeBitmapBlocks]
      ensures raw.header[2 + sb.inodeBitmapBlocks..] == zoneBits.blocks
    {
      hide Raw.Holds, Raw.EncodeSuper;
      raw.Domains();
      ghost var h := raw.header;
      var k := 2 + sb.inodeBitmapBlocks;
      raw.WriteHeader(k, zoneBits.blocks);
      assert raw.header[2..k] == raw.header[..k][2..] == h[..k][2..] == h[2..k];
      assert raw.header[1] == raw.header[..k][1] == h[..k][1] == h[1];
    }

    /** Allocates one data zone and zeroes its block. */
    method AllocateZone() returns (r: Result<U16, Error>)
      requires Valid()
      modifies this, raw, zoneBits
      ensures Valid() && world == old(world) && raw.inodes == old(raw.inodes)
      ensures r.Ok? ==> Fresh(old(Snapshot()), Snapshot(), r.value) && old(spare) > 0 && spare == old(spare) - 1
      ensures r.Err? ==> r.error == NoSpace && Snapshot() == old(Snapshot()) && spare == old(spare) == 0
    {
      hide Raw.Holds, Raw.EncodeSuper, Good, BitScan.Bitmap.Used, BitScan.Bitmap.Flags, BitScan.Bitmap.AllFlags, FirstClear, Range;
      raw.Domains();
      ghost var used := zoneBits.Used();
      var value := zoneBits.Alloc();
      if value.None? {
        FullRange(sb.firstDataZone, sb.zoneCount, raw.zones.Keys);
        GoodFull(Snapshot(), used, sb.firstDataZone, spare);
        return Err(NoSpace);
      }
      ClaimZone(value.value, used);
      return Ok(value.value);
    }

    /** Records a zone whose bit was just set: syncs the bitmap and zeroes the block. */
    method ClaimZone(z: nat, ghost used: set<nat>)
      requires raw.Valid() && raw.sb == sb && inodeBits != zoneBits
      requires inodeBits.Valid() && zoneBits.Valid()
      requires |inodeBits.blocks| == sb.inodeBitmapBlocks && |zoneBits.blocks| == sb.zoneBitmapBlocks
      requires raw.header[1] == Raw.EncodeSuper(sb)
      requires raw.header[2..2 + sb.inodeBitmapBlocks] == inodeBits.blocks
      requires Good(Snapshot(), used, sb.firstDataZone, spare)
      requires zoneBits.startIndex == sb.firstDataZone - 1 && sb.firstDataZone - 1 <= z < sb.zoneCount
      requires z !in used && zoneBits.Used() == used + {z}
      modifies this, raw
      ensures raw.Valid() && raw.inodes == old(raw.inodes)
      ensures raw.header[1] == Raw.EncodeSuper(sb)
      ensures raw.header[2..2 + sb.inodeBitmapBlocks] == inodeBits.blocks
      ensures raw.header[2 + sb.inodeBitmapBlocks..] == zoneBits.blocks
      ensures Good(Snapshot(), zoneBits.Used(), sb.firstDataZone, spare)
      ensures Fresh(old(Snapshot()), Snapshot(), z) && old(spare) > 0 && spare == old(spare) - 1
    {
      hide Raw.Holds, Raw.EncodeSuper, Good, BitScan.Bitmap.Used, BitScan.Bitmap.Flags, BitScan.Bitmap.AllFlags, Fresh, Sound, Range;
      raw.Domains();
      ghost var s := Snapshot();
      ghost var t := Snap(s.w, s.disk[z := ZeroBlock], s.own, s.lost + {z});
      OnlyDataZones(s, used, sb.firstDataZone, spare, z);
      GoodAlloc(s, used, sb.firstDataZone, spare, z);
      SyncZoneBitmap();
      raw.WriteZone(z, ZeroBlock);
      lost, spare := lost + {z}, spare - 1;
      assert Good(t, used + {z}, sb.firstDataZone, spare);
      assert Good(t, zoneBits.Used(), sb.firstDataZone, spare);
      assert Snapshot() == t;
    }

    /** Frees one data zone that no pointer reaches any more; zone 0 means none. */
    method FreeZone(z: nat)
      requires Valid() && (z == 0 || z in lost)
      modifies this, raw, zoneBits
      ensures Valid() && world == old(world) && raw.inodes == old(raw.inodes)
      ensures raw.zones == old(raw.zones) && own == old(own)
      ensures if z == 0 then lost == old(lost) && spare == old(spare)
              else lost == old(lost) - {z} && spare == old(spare) + 1
    {
      hide Raw.Holds, Raw.EncodeSuper, Good, BitScan.Bitmap.Flags, BitScan.Bitmap.AllFlags;
      if z != 0 {
        GoodFree(Snapshot(), zoneBits.Used(), sb.firstDataZone, spare, z);
        zoneBits.UsedRange();
        hide BitScan.Bitmap.Used;
        zoneBits.Clear(z);
        SyncZoneBitmap();
        lost, spare := lost - {z}, spare + 1;
      }
    }

    lemma Now()
      requires Valid()
      ensures Sound(Snapshot())
      ensures own.Keys <= raw.zones.Keys && lost <= raw.zones.Keys && own.Keys !! lost
    {
      hide Good, Raw.Holds, Raw.EncodeSuper, BitScan.Bitmap.Used;
      GoodSound(Snapshot(), zoneBits.Used(), sb.firstDataZone, spare);
    }

    // ----- indirect tables -----

    method ReadTable(t: nat) returns (table: Table)
      requires Valid() && t in raw.zones
      ensures forall k: EntryIndex :: table[k] == EntryOf(raw.zones, t, k)
      ensures t != 0
    {
      hide Good, Raw.Holds, Raw.EncodeSuper;
      raw.Domains();
      var b := raw.ReadZone(t);
      table := DecodeTable(b);
    }

    /** Sets entry k of the table that position p of inode n holds in zone t. */
    method WriteEntry(n: nat, p: Ptr, t: nat, k: EntryIndex, z: U16)
      requires Valid() && n in world && p.IsTable() && Target(world[n], raw.zones, p) == t != 0
      requires z in lost && z in raw.zones && (p.Double? ==> raw.zones[z] == ZeroBlock)
      requires Target(world[n], raw.zones, Child(p, k)) == 0
      modifies this, raw
      ensures Valid() && world == old(world) && raw.inodes == old(raw.inodes) && spare == old(spare)
      ensures Takes(old(Snapshot()), Snapshot(), n, Child(p, k), z)
      ensures raw.zones == old(raw.zones)[t := raw.zones[t]]
    {
      hide Good, Sound, Takes, Raw.Holds, Raw.EncodeSuper, Target, BitScan.Bitmap.Used;
      ghost var s, used := Snapshot(), zoneBits.Used();
      GoodSound(s, used, sb.firstDataZone, spare);
      TableTarget(s, n, p, t, k);
      var b := raw.ReadZone(t);
      var table := DecodeTable(b);
      table := table[k := z];
      var b' := EncodeTable(table);
      ghost var u := Snap(s.w, s.disk[t := b'], s.own[z := Owner(n, Child(p, k))], s.lost - {z});
      TakeEntry(s, n, p, t, b', k, z);
      GoodTakes(s, used, sb.firstDataZone, spare, u, n, Child(p, k), z);
      raw.WriteZone(t, b');
      own, lost := own[z := Owner(n, Child(p, k))], lost - {z};
      assert Good(u, zoneBits.Used(), sb.firstDataZone, spare);
      assert Snapshot() == u;
    }

    /** Attaches a zeroed zone as the root table p of inode n. */
    ghost method AttachRoot(n: nat, inode: DiskInode, inode': DiskInode, p: Ptr, z: U16)
      requires Valid() && n in world && world[n] == inode && (p.Single? || p.Double?)
      requires Target(inode, raw.zones, p) == 0
      requires inode' == WithRoot(inode, p, z)
      requires z in lost && z in raw.zones && raw.zones[z] == ZeroBlock
      modifies this
      ensures Valid() && world == old(world)[n := inode'] && spare == old(spare)
      ensures Takes(old(Snapshot()), Snapshot(), n, p, z)
    {
      hide Good, Sound, Takes, Raw.Holds, Raw.EncodeSuper, Target, BitScan.Bitmap.Used;
      var s, used := Snapshot(), zoneBits.Used();
      GoodSound(s, used, sb.firstDataZone, spare);
      var u := Snap(s.w[n := inode'], s.disk, s.own[z := Owner(n, p)], s.lost - {z});
      TakeRoot(s, n, p, z);
      GoodTakes(s, used, sb.firstDataZone, spare, u, n, p, z);
      world, own, lost := world[n := inode'], own[z := Owner(n, p)], lost - {z};
      assert Good(u, zoneBits.Used(), sb.firstDataZone, spare);
      assert Snapshot() == u;
    }

    /** Attaches a zone as direct pointer i of inode n. */
    ghost method AttachDirect(n: nat, inode: DiskInode, inode': DiskInode, i: DirectIndex, z: U16)
      requires Valid() && n in world && world[n] == inode && inode.direct[i] == 0 && z in lost
      requires inode' == WithDirect(inode, i, z)
      modifies this
      ensures Valid() && world == old(world)[n := inode'] && spare == old(spare)
      ensures Takes(old(Snapshot()), Snapshot(), n, Direct(i), z)
    {
      hide Good, Sound, Takes, Raw.Holds, Raw.EncodeSuper, Target, BitScan.Bitmap.Used;
      var s, used := Snapshot(), zoneBits.Used();
      GoodSound(s, used, sb.firstDataZone, spare);
      var u := Snap(s.w[n := inode'], s.disk, s.own[z := Owner(n, Direct(i))], s.lost - {z});
      TakeDirect(s, n, i, z);
      GoodTakes(s, used, sb.firstDataZone, spare, u, n, Direct(i), z);
      world, own, lost := world[n := inode'], own[z := Owner(n, Direct(i))], lost - {z};
      assert Good(u, zoneBits.Used(), sb.firstDataZone, spare);
      assert Snapshot() == u;
    }

    /** Allocates the root table p of inode n unless it is there already. */
    method EnsureRoot(n: nat, inode: DiskInode, p: Ptr)
      returns (inode': DiskInode, r: Result<Unit, Error>)
      requires Valid() && n in world && world[n] == inode && (p.Single? || p.Double?)
      modifies this, raw, zoneBits
      ensures Valid() && world == old(world)[n := inode'] && raw.inodes == old(raw.inodes) && lost == old(lost)
      ensures inode' == WithRoot(inode, p, Target(inode', raw.zones, p))
      ensures Grows(old(Snapshot()), Snapshot(), n)
      ensures r.Ok? ==>
        && Target(inode', raw.zones, p) != 0
        && Adds(old(Snapshot()), Snapshot(), n, {p})
        && old(spare) == spare + if Target(inode, old(raw.zones), p) == 0 then 1 else 0
      ensures r.Err? ==>
        && r.error == NoSpace && inode' == inode && spare == old(spare) == 0
        && Target(inode, old(raw.zones), p) == 0
    {
      hide Good, Sound, Takes, Fresh, Grows, Adds, Raw.Holds, Raw.EncodeSuper, Shape;
      ghost var s := Snapshot();
      Now();
      GrowsRefl(s, n);
      assert world[n := inode] == world;
      inode' := inode;
      if (if p.Single? then inode.single else inode.double) != 0 {
        AddsPresent(s, n, p);
        return inode, Ok(Unit);
      }
      var z := AllocateZone();
      if z.Err? {
        return inode, Err(z.error);
      }
      inode' := WithRoot(inode, p, z.value);
      ghost var t := Snapshot();
      FreshTaken(s, t, z.value, n);
      AttachRoot(n, inode, inode', p, z.value);
      ghost var u := Snapshot();
      TakenAfterFresh(s, t, u, n, p, z.value);
      return inode', Ok(Unit);
    }

    /** Allocates inner table j of inode n unless it is there already. */
    method EnsureInner(n: nat, inode: DiskInode, j: EntryIndex)
      returns (inner: nat, r: Result<Unit, Error>)
      requires Valid() && n in world && world[n] == inode && inode.double != 0
      modifies this, raw, zoneBits
      ensures Valid() && world == old(world) && raw.inodes == old(raw.inodes) && lost == old(lost)
      ensures Grows(old(Snapshot()), Snapshot(), n)
      ensures r.Ok? ==>
        && inner == Target(inode, raw.zones, Outer(j)) != 0
        && Adds(old(Snapshot()), Snapshot(), n, {Outer(j)})
        && old(spare) == spare + if Target(inode, old(raw.zones), Outer(j)) == 0 then 1 else 0
      ensures r.Err? ==>
        && r.error == NoSpace && spare == old(spare) == 0
        && Target(inode, old(raw.zones), Outer(j)) == 0
    {
      hide Good, Sound, Takes, Fresh, Grows, Adds, Raw.Holds, Raw.EncodeSuper, Shape;
      ghost var s := Snapshot();
      Now();
      GrowsRefl(s, n);
      OwnsRoot(s, n, Double);
      var outer := ReadTable(inode.double);
      inner := outer[j];
      if inner != 0 {
        AddsPresent(s, n, Outer(j));
        return inner, Ok(Unit);
      }
      var z := AllocateZone();
      if z.Err? {
        return 0, Err(z.error);
      }
      ghost var t := Snapshot();
      FreshTaken(s, t, z.value, n);
      WriteEntry(n, Double, inode.double, j, z.value);
      TakenAfterFresh(s, t, Snapshot(), n, Outer(j), z.value);
      return z.value, Ok(Unit);
    }

    /** Attaches zone z to a logical block behind the single-indirect table. */
    method SetSingle(n: nat, inode: DiskInode, k: EntryIndex, z: U16)
      returns (inode': DiskInode, r: Result<Unit, Error>)
      requires Valid() && n in world && world[n] == inode && z in lost && z in raw.zones
      requires Target(inode, raw.zones, SingleAt(k)) == 0
      modifies this, raw, zoneBits
      ensures Valid() && world == old(world)[n := inode'] && raw.inodes == old(raw.inodes)
      ensures inode' == inode.(single := inode'.single)
      ensures Grows(old(Snapshot()), Snapshot(), n)
      ensures r.Ok? ==>
        && Adds(old(Snapshot()), Snapshot(), n, {Single, SingleAt(k)})
        && Target(inode', raw.zones, SingleAt(k)) == z && lost == old(lost) - {z}
        && old(spare) == spare + if inode.single == 0 then 1 else 0
      ensures r.Err? ==> r.error == NoSpace && lost == old(lost) && spare == old(spare) == 0 && inode.single == 0
    {
      hide Good, Sound, Takes, Grows, Adds, Raw.Holds, Raw.EncodeSuper, Shape;
      ghost var s := Snapshot();
      inode', r := EnsureRoot(n, inode, Single);
      if r.Err? {
        return;
      }
      ghost var t := Snapshot();
      AddsStays(s, t, n, {Single}, SingleAt(k));
      Now();
      WriteEntry(n, Single, inode'.single, k, z);
      LastStep(s, t, Snapshot(), n, {Single}, SingleAt(k), z);
      assert {Single} + {SingleAt(k)} == {Single, SingleAt(k)};
    }

    /** Attaches zone z to a logical block behind the double-indirect table. */
    method SetDouble(n: nat, inode: DiskInode, j: EntryIndex, k: EntryIndex, z: U16)
      returns (inode': DiskInode, r: Result<Unit, Error>)
      requires Valid() && n in world && world[n] == inode && z in lost && z in raw.zones
      requires Target(inode, raw.zones, Inner(j, k)) == 0
      modifies this, raw, zoneBits
      ensures Valid() && world == old(world)[n := inode'] && raw.inodes == old(raw.inodes)
      ensures inode' == inode.(double := inode'.double)
      ensures Grows(old(Snapshot()), Snapshot(), n)
      ensures r.Ok? ==>
        && Adds(old(Snapshot()), Snapshot(), n, {Double, Outer(j), Inner(j, k)})
        && Target(inode', raw.zones, Inner(j, k)) == z && lost == old(lost) - {z}
        && old(spare) == spare + (if inode.double == 0 then 1 else 0)
                               + if Target(inode, old(raw.zones), Outer(j)) == 0 then 1 else 0
      ensures r.Err? ==>
        && r.error == NoSpace && lost == old(lost) && spare == 0
        && old(spare) < (if inode.double == 0 then 1 else 0)
                      + if Target(inode, old(raw.zones), Outer(j)) == 0 then 1 else 0
    {
      hide Good, Sound, Takes, Grows, Adds, Raw.Holds, Raw.EncodeSuper, Shape;
      ghost var s := Snapshot();
      inode', r := EnsureRoot(n, inode, Double);
      if r.Err? {
        NoRootNoOuter(inode, s.disk, j);
        return;
      }
      ghost var t := Snapshot();
      assert {Double} !! {Outer(j), Inner(j, k)};
      AddsStays(s, t, n, {Double}, Inner(j, k));
      var inner;
      inner, r := EnsureInner(n, inode', j);
      ghost var u := Snapshot();
      GrowsTrans(s, t, u, n);
      SameOuter(s, t, n, j);
      if r.Err? {
        return;
      }
      AddsStays(t, u, n, {Outer(j)}, Inner(j, k));
      AddsTrans(s, t, u, n, {Double}, {Outer(j)});
      Now();
      WriteEntry(n, Outer(j), inner, k, z);
      LastStep(s, u, Snapshot(), n, {Double} + {Outer(j)}, Inner(j, k), z);
      assert {Double} + {Outer(j)} + {Inner(j, k)} == {Double, Outer(j), Inner(j, k)};
    }

    /** Attaches zone z to one logical block, allocating tables as needed. It runs out
        of space exactly when the spare zones do not cover the missing tables. */
    method SetDataZone(n: nat, inode: DiskInode, b: nat, z: U16)
      returns (inode': DiskInode, r: Result<Unit, Error>)
      requires Valid() && n in world && world[n] == inode && z in lost && z in raw.zones
      requires ZoneAt(inode, raw.zones, b) == 0
      modifies this, raw, zoneBits
      ensures Valid() && world == old(world)[n := inode'] && raw.inodes == old(raw.inodes)
      ensures inode' == inode.(direct := inode'.direct, single := inode'.single, double := inode'.double)
      ensures Grows(old(Snapshot()), Snapshot(), n)
      ensures r.Ok? ==>
        && b < MAX_LOGICAL_BLOCKS && Adds(old(Snapshot()), Snapshot(), n, Path(b))
        && ZoneAt(inode', raw.zones, b) == z && lost == old(lost) - {z}
        && old(spare) == spare + PathCost(inode, old(raw.zones), b)
      ensures r.Err? ==>
        && lost == old(lost)
        && if b >= MAX_LOGICAL_BLOCKS then r.error == InvalidArgument && inode' == inode && spare == old(spare)
           else r.error == NoSpace && spare == 0 && old(spare) < PathCost(inode, old(raw.zones), b)
    {
      hide Good, Sound, Takes, Grows, Adds, Raw.Holds, Raw.EncodeSuper, Shape;
      ghost var s := Snapshot();
      Now();
      GrowsRefl(s, n);
      if b >= MAX_LOGICAL_BLOCKS {
        assert world[n := inode] == world;
        return inode, Err(InvalidArgument);
      }
      if b < DIRECT_ZONE_COUNT {
        inode' := WithDirect(inode, b, z);
        AttachDirect(n, inode, inode', b, z);
        LastStep(s, s, Snapshot(), n, {}, Direct(b), z);
        assert {} + {Direct(b)} == Path(b);
        return inode', Ok(Unit);
      }
      var i := b - DIRECT_ZONE_COUNT;
      if i < INDIRECT_ENTRY_COUNT {
        inode', r := SetSingle(n, inode, i, z);
      } else {
        i := i - INDIRECT_ENTRY_COUNT;
        inode', r := SetDouble(n, inode, i / INDIRECT_ENTRY_COUNT, i % INDIRECT_ENTRY_COUNT, z);
      }
    }

    // ----- releasing the zones of an inode -----

    /** One part of inode n's tree is dropped from its record: its zones wait to be freed. */
    ghost method DetachPart(n: nat, inode': DiskInode, part: Part)
      requires Valid() && n in world && Loses(world, raw.zones, world[n := inode'], n, part)
      modifies this
      ensures Valid() && world == old(world)[n := inode'] && spare == old(spare)
      ensures own == old(own) - PartZones(old(own), n, part)
      ensures lost == old(lost) + PartZones(old(own), n, part)
    {
      hide Good, Raw.Holds, Raw.EncodeSuper, Loses, PartZones, BitScan.Bitmap.Used;
      var s, used := Snapshot(), zoneBits.Used();
      GoodDetach(s, used, sb.firstDataZone, spare, world[n := inode'], n, part);
      var zs := PartZones(own, n, part);
      world, own, lost := world[n := inode'], own - zs, lost + zs;
      assert Snapshot() == Snap(s.w[n := inode'], s.disk, s.own - zs, s.lost + zs);
    }

    /** Frees every zone a table lists. */
    method FreeListed(t: Table)
      requires Valid() && Distinct(t) && Listed(t, |t|) <= lost
      modifies this, raw, zoneBits
      ensures Valid() && world == old(world) && raw.inodes == old(raw.inodes) && raw.zones == old(raw.zones)
      ensures own == old(own) && lost == old(lost) - Listed(t, |t|)
      ensures spare == old(spare) + |Listed(t, |t|)|
    {
      hide Good, Raw.Holds, Raw.EncodeSuper, BitScan.Bitmap.Used, Shape, Distinct, Listed;
      ListedNone(t);
      for k := 0 to INDIRECT_ENTRY_COUNT
        invariant Valid() && world == old(world) && raw.inodes == old(raw.inodes) && raw.zones == old(raw.zones)
        invariant own == old(own) && lost == old(lost) - Listed(t, k)
        invariant spare == old(spare) + |Listed(t, k)|
      {
        ListedStep(t, k);
        FreeZone(t[k]);
      }
    }

    /** Frees a table and every zone it lists. */
    method FreeTable(table: Table, root: nat)
      requires Valid() && Distinct(table) && Listed(table, |table|) <= lost
      requires root in lost && root != 0 && root !in Listed(table, |table|)
      modifies this, raw, zoneBits
      ensures Valid() && world == old(world) && raw.inodes == old(raw.inodes) && raw.zones == old(raw.zones)
      ensures own == old(own) && lost == old(lost) - (Listed(table, |table|) + {root})
      ensures spare == old(spare) + |Listed(table, |table|) + {root}|
    {
      hide Good, Listed, Distinct, Raw.Holds, Raw.EncodeSuper, Shape;
      FreeListed(table);
      FreeZone(root);
      DisjointSize(Listed(table, |table|), {root});
      assert old(lost) - Listed(table, |table|) - {root} == old(lost) - (Listed(table, |table|) + {root});
    }

    method FreeDirect(n: nat, inode: DiskInode) returns (inode': DiskInode)
      requires Valid() && n in world && world[n] == inode
      modifies this, raw, zoneBits
      ensures Valid() && world == old(world)[n := inode'] && raw.inodes == old(raw.inodes) && raw.zones == old(raw.zones)
      ensures inode' == inode.(direct := ZeroInode.direct)
      ensures own == old(own) - DirectsBelow(old(own), n, DIRECT_ZONE_COUNT) && lost == old(lost)
      ensures spare == old(spare) + |DirectsBelow(old(own), n, DIRECT_ZONE_COUNT)|
    {
      hide Good, Raw.Holds, Raw.EncodeSuper, BitScan.Bitmap.Used, Shape;
      inode' := inode;
      assert world[n := inode] == world;
      for i := 0 to DIRECT_ZONE_COUNT
        invariant Valid() && world == old(world)[n := inode'] && raw.inodes == old(raw.inodes) && raw.zones == old(raw.zones)
        invariant inode' == inode.(direct := inode'.direct)
        invariant forall k | 0 <= k < i :: inode'.direct[k] == 0
        invariant own == old(own) - DirectsBelow(old(own), n, i) && lost == old(lost)
        invariant spare == old(spare) + |DirectsBelow(old(own), n, i)|
      {
        inode' := FreeOneDirect(n, inode', i);
        DirectsStep(old(own), n, i);
      }
    }

    method FreeOneDirect(n: nat, inode: DiskInode, i: DirectIndex) returns (inode': DiskInode)
      requires Valid() && n in world && world[n] == inode
      modifies this, raw, zoneBits
      ensures Valid() && world == old(world)[n := inode'] && raw.inodes == old(raw.inodes) && raw.zones == old(raw.zones)
      ensures inode' == WithDirect(inode, i, 0)
      ensures own == old(own) - PartZones(old(own), n, DirectPart(i)) && lost == old(lost)
      ensures spare == old(spare) + |PartZones(old(own), n, DirectPart(i))|
    {
      hide Good, Sound, Loses, PartZones, Raw.Holds, Raw.EncodeSuper, Shape;
      Now();
      DirectPartZone(Snapshot(), n, i);
      var z := inode.direct[i];
      inode' := WithDirect(inode, i, 0);
      DropDirect(world, raw.zones, n, i);
      DetachPart(n, inode', DirectPart(i));
      if z != 0 {
        FreeZone(z);
      }
    }

    method FreeSingle(n: nat, inode: DiskInode) returns (inode': DiskInode)
      requires Valid() && n in world && world[n] == inode
      modifies this, raw, zoneBits
      ensures Valid() && world == old(world)[n := inode'] && raw.inodes == old(raw.inodes) && raw.zones == old(raw.zones)
      ensures inode' == WithRoot(inode, Single, 0)
      ensures own == old(own) - PartZones(old(own), n, SinglePart) && lost == old(lost)
      ensures spare == old(spare) + |PartZones(old(own), n, SinglePart)|
    {
      hide Good, Sound, Loses, PartZones, Listed, Distinct, Target, EntryOf, Raw.Holds, Raw.EncodeSuper, Shape;
      ghost var s := Snapshot();
      Now();
      inode' := inode;
      assert world[n := inode] == world;
      RootTargets(inode, s.disk);
      if inode.single == 0 {
        NoRootNoZones(s, n, Single);
        assert own - {} == own;
        return;
      }
      OwnsRoot(s, n, Single);
      var table := ReadTable(inode.single);
      SingleRelease(s, n, table);
      inode' := WithRoot(inode, Single, 0);
      DropRoot(world, raw.zones, n, Single);
      DetachPart(n, inode', SinglePart);
      FreeTable(table, inode.single);
      BackToLost(s.lost, PartZones(s.own, n, SinglePart));
    }

    /** Frees one inner table and the zones it lists. */
    method FreeBranch(inner: nat, ghost s: Snap, ghost n: nat, ghost j: EntryIndex)
      requires Valid() && raw.zones == s.disk && Sound(s) && n in s.w
      requires inner == Target(s.w[n], s.disk, Outer(j)) && BranchZones(s.own, n, j) <= lost
      modifies this, raw, zoneBits
      ensures Valid() && world == old(world) && raw.inodes == old(raw.inodes) && raw.zones == old(raw.zones)
      ensures own == old(own) && lost == old(lost) - BranchZones(s.own, n, j)
      ensures spare == old(spare) + |BranchZones(s.own, n, j)|
    {
      hide Good, Sound, BranchZones, Listed, Distinct, Raw.Holds, Raw.EncodeSuper, Shape;
      if inner == 0 {
        NoBranch(s, n, j);
        assert lost - {} == lost;
        return;
      }
      OwnsRoot(s, n, Outer(j));
      var table := ReadTable(inner);
      BranchRelease(s, n, j, table);
      FreeTable(table, inner);
    }

    method FreeDouble(n: nat, inode: DiskInode) returns (inode': DiskInode)
      requires Valid() && n in world && world[n] == inode
      modifies this, raw, zoneBits
      ensures Valid() && world == old(world)[n := inode'] && raw.inodes == old(raw.inodes) && raw.zones == old(raw.zones)
      ensures inode' == WithRoot(inode, Double, 0)
      ensures own == old(own) - PartZones(old(own), n, DoublePart) && lost == old(lost)
      ensures spare == old(spare) + |PartZones(old(own), n, DoublePart)|
    {
      hide Good, Sound, Loses, PartZones, BranchZones, BranchesBelow, Target, EntryOf, Raw.Holds, Raw.EncodeSuper, Shape;
      ghost var s := Snapshot();
      Now();
      inode' := inode;
      assert world[n := inode] == world;
      if inode.double == 0 {
        RootTargets(inode, s.disk);
        NoRootNoZones(s, n, Double);
        assert own - {} == own;
        return;
      }
      RootTargets(inode, s.disk);
      OwnsRoot(s, n, Double);
      var outer := ReadTable(inode.double);
      OuterTargets(inode, s.disk, outer);
      DoubleRelease(s, n);
      inode' := WithRoot(inode, Double, 0);
      DropRoot(world, raw.zones, n, Double);
      DetachPart(n, inode', DoublePart);
      FreeOuter(outer, inode.double, s, n);
      BackToLost(s.lost, PartZones(s.own, n, DoublePart));
    }

    /** Frees the root and every branch of a dropped double-indirect tree. */
    method FreeOuter(outer: Table, root: nat, ghost s: Snap, ghost n: nat)
      requires Valid() && raw.zones == s.disk && Sound(s) && n in s.w
      requires forall j: EntryIndex :: outer[j] == Target(s.w[n], s.disk, Outer(j))
      requires BranchesBelow(s.own, n, INDIRECT_ENTRY_COUNT) <= lost
      requires root in lost && root != 0 && root !in BranchesBelow(s.own, n, INDIRECT_ENTRY_COUNT)
      modifies this, raw, zoneBits
      ensures Valid() && world == old(world) && raw.inodes == old(raw.inodes) && raw.zones == old(raw.zones)
      ensures own == old(own) && lost == old(lost) - (BranchesBelow(s.own, n, INDIRECT_ENTRY_COUNT) + {root})
      ensures spare == old(spare) + |BranchesBelow(s.own, n, INDIRECT_ENTRY_COUNT) + {root}|
    {
      hide Good, Sound, BranchesBelow, Raw.Holds, Raw.EncodeSuper, Shape;
      ghost var zs := BranchesBelow(s.own, n, INDIRECT_ENTRY_COUNT);
      FreeBranches(outer, s, n);
      FreeZone(root);
      DisjointSize(zs, {root});
      assert old(lost) - zs - {root} == old(lost) - (zs + {root});
    }

    /** Frees every branch of a dropped double-indirect tree. */
    method FreeBranches(outer: Table, ghost s: Snap, ghost n: nat)
      requires Valid() && raw.zones == s.disk && Sound(s) && n in s.w
      requires forall j: EntryIndex :: outer[j] == Target(s.w[n], s.disk, Outer(j))
      requires BranchesBelow(s.own, n, INDIRECT_ENTRY_COUNT) <= lost
      modifies this, raw, zoneBits
      ensures Valid() && world == old(world) && raw.inodes == old(raw.inodes) && raw.zones == old(raw.zones)
      ensures own == old(own) && lost == old(lost) - BranchesBelow(s.own, n, INDIRECT_ENTRY_COUNT)
      ensures spare == old(spare) + |BranchesBelow(s.own, n, INDIRECT_ENTRY_COUNT)|
    {
      hide Good, Sound, BranchZones, BranchesBelow, Raw.Holds, Raw.EncodeSuper, BitScan.Bitmap.Used, Shape;
      NoBranches(s.own, n);
      for j := 0 to INDIRECT_ENTRY_COUNT
        invariant Valid() && world == old(world) && raw.inodes == old(raw.inodes) && raw.zones == old(raw.zones)
        invariant own == old(own) && lost == old(lost) - BranchesBelow(s.own, n, j)
        invariant spare == old(spare) + |BranchesBelow(s.own, n, j)|
      {
        BranchesGrow(s.own, n, j);
        FreeBranch(outer[j], s, n, j);
      }
    }

    /** Frees all data and table zones of inode n and empties its record. The zone
        bitmap afterwards lacks exactly the zones the inode owned. */
    method FreeInodeData(n: nat, inode: DiskInode) returns (inode': DiskInode)
      requires Valid() && n in world && world[n] == inode
      modifies this, raw, zoneBits
      ensures Valid() && world == old(world)[n := inode'] && raw.inodes == old(raw.inodes) && raw.zones == old(raw.zones)
      ensures inode' == Emptied(inode)
      ensures own == old(own) - InodeZones(old(own), n) && lost == old(lost)
      ensures spare == old(spare) + |InodeZones(old(own), n)|
    {
      hide Good, Raw.Holds, Raw.EncodeSuper, BitScan.Bitmap.Used, Shape, DirectsBelow, PartZones, InodeZones;
      ghost var own0, w := own, world;
      var d := FreeDirect(n, inode);
      ghost var own1 := own;
      var e := FreeSingle(n, d);
      Overwrite(w, n, d, e);
      ghost var own2 := own;
      var f := FreeDouble(n, e);
      Overwrite(w, n, e, f);
      inode' := f.(size := 0);
      ResizeIsFree(n, inode');
      Overwrite(w, n, f, inode');
      AllParts(own0, own1, own2, n);
    }

    /** The size field of a record points nowhere. */
    ghost method ResizeIsFree(n: nat, inode: DiskInode)
      requires Valid() && n in world && SamePointers(world[n], inode)
      modifies this
      ensures Valid() && world == old(world)[n := inode]
      ensures own == old(own) && lost == old(lost) && spare == old(spare)
    {
      hide Good, Raw.Holds, Raw.EncodeSuper, BitScan.Bitmap.Used;
      var s := Snapshot();
      GoodSameWorld(s, zoneBits.Used(), sb.firstDataZone, spare, n, inode);
      world := world[n := inode];
      assert Snapshot() == Snap(s.w[n := inode], s.disk, s.own, s.lost);
    }

    // ----- contents -----

    /** The zone behind one logical block. */
    method LookupDataZone(ghost n: nat, inode: DiskInode, b: nat) returns (r: Result<nat, Error>)
      requires Valid() && n in world && world[n] == inode
      ensures r == if b < MAX_LOGICAL_BLOCKS then Ok(ZoneAt(inode, raw.zones, b)) else Err(InvalidArgument)
    {
      hide Good, Sound, Raw.Holds, Raw.EncodeSuper, Shape;
      Now();
      if b >= MAX_LOGICAL_BLOCKS {
        return Err(InvalidArgument);
      }
      if b < DIRECT_ZONE_COUNT {
        return Ok(inode.direct[b]);
      }
      var i := b - DIRECT_ZONE_COUNT;
      if i < INDIRECT_ENTRY_COUNT {
        if inode.single == 0 {
          return Ok(0);
        }
        OwnsRoot(Snapshot(), n, Single);
        var table := ReadTable(inode.single);
        return Ok(table[i]);
      }
      i := i - INDIRECT_ENTRY_COUNT;
      if inode.double == 0 {
        return Ok(0);
      }
      OwnsRoot(Snapshot(), n, Double);
      var outer := ReadTable(inode.double);
      var inner := outer[i / INDIRECT_ENTRY_COUNT];
      if inner == 0 {
        return Ok(0);
      }
      OwnsRoot(Snapshot(), n, Outer(i / INDIRECT_ENTRY_COUNT));
      var table := ReadTable(inner);
      return Ok(table[i % INDIRECT_ENTRY_COUNT]);
    }

    /** Reads all bytes of one inode; a block without a zone reads as zeros. */
    method ReadInodeContents(ghost n: nat, inode: DiskInode) returns (r: Result<Bytes, Error>)
      requires Valid() && n in world && world[n] == inode
      ensures r == if DataBlocks(inode.size) <= MAX_LOGICAL_BLOCKS then Ok(Contents(inode, raw.zones))
                   else Err(InvalidArgument)
    {
      hide Good, Sound, Raw.Holds, Raw.EncodeSuper, Shape, Contents, ZoneAt;
      var data := Zeros(inode.size);
      var blockCount := DataBlocks(inode.size);
      for b := 0 to blockCount
        invariant |data| == inode.size && b <= MAX_LOGICAL_BLOCKS
        invariant forall pos | 0 <= pos < inode.size ::
                    data[pos] == if pos < b * BLOCK_SIZE then ByteAt(inode, raw.zones, pos) else 0
      {
        var zone := LookupDataZone(n, inode, b);
        if zone.Err? {
          return Err(zone.error);
        }
        if zone.value != 0 {
          ZoneOwned(n, b);
          var block := ReadBlock(zone.value);
          var start := b * BLOCK_SIZE;
          var end := Min(|data|, start + BLOCK_SIZE);
          data := data[..start] + block[..end - start] + data[end..];
        }
      }
      ContentsAre(inode, raw.zones, data);
      return Ok(data);
    }

    method ReadBlock(z: nat) returns (b: Block)
      requires Valid() && z in raw.zones
      ensures b == raw.zones[z]
    {
      hide Good, Raw.Holds, Raw.EncodeSuper, BitScan.Bitmap.Used;
      b := raw.ReadZone(z);
    }

    lemma ZoneOwned(n: nat, b: nat)
      requires Valid() && n in world && ZoneAt(world[n], raw.zones, b) != 0
      ensures ZoneAt(world[n], raw.zones, b) in raw.zones
    {
      hide Good, Sound, Raw.Holds, Raw.EncodeSuper, Shape;
      Now();
      OwnsRoot(Snapshot(), n, LogicalPtr(b));
    }

    /** Writes logical block b of the data: a zone, its place in the tree, the bytes. */
    method WriteOneBlock(n: nat, inode: DiskInode, data: Bytes, b: nat)
      returns (inode': DiskInode, r: Result<Unit, Error>)
      requires Valid() && n in world && world[n] == inode && b < DataBlocks(|data|)
      requires FilledTo(inode, raw.zones, b) && Stored(inode, raw.zones, data, b)
      modifies this, raw, zoneBits
      ensures Valid() && world == old(world)[n := inode'] && raw.inodes == old(raw.inodes)
      ensures inode' == inode.(direct := inode'.direct, single := inode'.single, double := inode'.double)
      ensures Grows(old(Snapshot()), Snapshot(), n)
      ensures r.Ok? ==>
        && b < MAX_LOGICAL_BLOCKS && lost == old(lost)
        && FilledTo(inode', raw.zones, b + 1) && Stored(inode', raw.zones, data, b + 1)
        && old(spare) == spare + 1 + PathCost(inode, old(raw.zones), b)
      ensures r.Err? ==>
        && |lost| == |old(lost)| + (if old(spare) == 0 then 0 else 1)
        && if b < MAX_LOGICAL_BLOCKS then r.error == NoSpace && old(spare) < 1 + PathCost(inode, old(raw.zones), b)
           else (r.error == NoSpace && old(spare) == 0) || r.error == InvalidArgument
    {
      hide Good, Sound, Grows, Adds, FilledTo, Stored, Raw.Holds, Raw.EncodeSuper, Shape, ZoneAt, PathCost, Fresh;
      ghost var s := Snapshot();
      Now();
      GrowsRefl(s, n);
      inode' := inode;
      Overwrite(world, n, inode, inode);
      var zone := AllocateZone();
      if zone.Err? {
        return inode, Err(zone.error);
      }
      var z := zone.value;
      ghost var t := Snapshot();
      FreshTaken(s, t, z, n);
      NotFilledYet(s, t, n, b, z);
      inode', r := SetDataZone(n, inode, b, z);
      ghost var u := Snapshot();
      GrowsTrans(s, t, u, n);
      if r.Err? {
        return;
      }
      Now();
      BlockWritten(s, t, u, n, data, b, z);
      WriteDataBlock(z, Chunk(data, b));
      assert Snapshot() == Written(u, z, Chunk(data, b));
      assert s.lost + {z} - {z} == s.lost;
    }

    /** Writes the bytes of one attached data zone. */
    method WriteDataBlock(z: nat, block: Block)
      requires Valid() && z in raw.zones && (z in own ==> !own[z].ptr.IsTable())
      modifies raw
      ensures Valid() && raw.inodes == old(raw.inodes) && raw.zones == old(raw.zones)[z := block]
    {
      hide Good, Raw.Holds, Raw.EncodeSuper, BitScan.Bitmap.Used;
      ghost var s, used := Snapshot(), zoneBits.Used();
      GoodWrite(s, used, sb.firstDataZone, spare, z, block);
      raw.WriteZone(z, block);
      assert Good(Snap(s.w, s.disk[z := block], s.own, s.lost), zoneBits.Used(), sb.firstDataZone, spare);
      assert Snapshot() == Snap(s.w, s.disk[z := block], s.own, s.lost);
    }

    /** Writes all blocks of the data into the empty tree of inode n. */
    method WriteBlocks(n: nat, inode: DiskInode, data: Bytes) returns (inode': DiskInode, r: Result<Unit, Error>)
      requires Valid() && n in world && world[n] == inode && FilledTo(inode, raw.zones, 0)
      modifies this, raw, zoneBits
      ensures Valid() && world == old(world)[n := inode'] && raw.inodes == old(raw.inodes)
      ensures inode' == inode.(direct := inode'.direct, single := inode'.single, double := inode'.double)
      ensures Grows(old(Snapshot()), Snapshot(), n)
      ensures r.Ok? <==> old(spare) >= ZoneCost(DataBlocks(|data|))
      ensures r.Ok? ==>
        && DataBlocks(|data|) <= MAX_LOGICAL_BLOCKS && lost == old(lost)
        && FilledTo(inode', raw.zones, DataBlocks(|data|))
        && Stored(inode', raw.zones, data, DataBlocks(|data|))
        && spare == old(spare) - ZoneCost(DataBlocks(|data|))
      ensures r.Err? ==> |lost| == |old(lost)| + Stranded(old(spare)) && r.error == NoSpace
    {
      hide Good, Sound, Grows, FilledTo, Stored, Raw.Holds, Raw.EncodeSuper, Shape, PathCost, Stranded;
      ghost var s := Snapshot();
      Now();
      GrowsRefl(s, n);
      SpareBound();
      inode' := inode;
      Overwrite(world, n, inode, inode);
      NothingStored(inode, raw.zones, data);
      var blockCount := DataBlocks(|data|);
      var b := 0;
      while b < blockCount
        invariant b <= blockCount && b <= MAX_LOGICAL_BLOCKS
        invariant Valid() && world == old(world)[n := inode'] && raw.inodes == old(raw.inodes)
        invariant inode' == inode.(direct := inode'.direct, single := inode'.single, double := inode'.double)
        invariant Grows(s, Snapshot(), n) && lost == old(lost)
        invariant FilledTo(inode', raw.zones, b) && Stored(inode', raw.zones, data, b)
        invariant spare == old(spare) - ZoneCost(b)
      {
        ghost var t, before := Snapshot(), inode';
        if b < MAX_LOGICAL_BLOCKS {
          ZoneCostStep(inode', raw.zones, b);
        }
        inode', r := WriteOneBlock(n, inode', data, b);
        Overwrite(old(world), n, before, inode');
        GrowsTrans(s, t, Snapshot(), n);
        ZoneCostMonotone(b, blockCount);
        if r.Err? {
          ZoneCostMonotone(b + 1, blockCount);
          StrandedAt(b, old(spare));
          return;
        }
        b := b + 1;
      }
      return inode', Ok(Unit);
    }

    /** Every data zone is owned, lost or spare. */
    lemma AllCounted()
      requires Valid()
      ensures |own| + |lost| + spare == |raw.zones|
    {
      hide Raw.Holds, Raw.EncodeSuper, Sound, BitScan.Bitmap.Used;
    }

    lemma SpareBound()
      requires Valid()
      ensures spare < 0x1_0000
    {
      hide Raw.Holds, Raw.EncodeSuper, Sound, BitScan.Bitmap.Used;
      raw.Domains();
      ZoneTotal(raw.zones, sb.firstDataZone, sb.zoneCount);
    }

    // ----- inode numbers -----

    /** Takes the first free inode number; the number is not a new record yet. */
    method AllocateInodeNumber() returns (r: Result<nat, Error>)
      requires Valid()
      modifies raw, inodeBits
      ensures Valid() && inodeBits.Valid() && raw.inodes == old(raw.inodes) && raw.zones == old(raw.zones)
      ensures match r
        case Ok(n) =>
          && n !in old(inodeBits.Used()) && n <= sb.inodeCount && inodeBits.Used() == old(inodeBits.Used()) + {n}
          && forall m | 0 <= m < n :: m in old(inodeBits.Used())
        case Err(e) => e == NoSpace && inodeBits.Used() == old(inodeBits.Used()) == Range(0, sb.inodeCount + 1)
    {
      hide Good, Raw.Holds, Raw.EncodeSuper, BitScan.Bitmap.Used, BitScan.Bitmap.Flags, BitScan.Bitmap.AllFlags, FirstClear, Range;
      raw.Domains();
      var value := inodeBits.Alloc();
      if value.None? {
        return Err(NoSpace);
      }
      SyncInodeBitmap();
      return Ok(value.value);
    }

    /** Zeroes the record of an inode without zones and frees its number. */
    method FreeInodeNumber(n: nat)
      requires Valid() && n in world && SamePointers(world[n], ZeroInode)
      modifies this, raw, inodeBits
      ensures Valid() && inodeBits.Valid() && raw.zones == old(raw.zones)
      ensures world == old(world)[n := ZeroInode] && raw.inodes == old(raw.inodes)[n := ZeroInode]
      ensures own == old(own) && lost == old(lost) && spare == old(spare)
      ensures inodeBits.Used() == old(inodeBits.Used()) - {n}
    {
      hide Good, Raw.Holds, Raw.EncodeSuper, BitScan.Bitmap.Used, BitScan.Bitmap.Flags, BitScan.Bitmap.AllFlags, SamePointers;
      raw.Domains();
      ResizeIsFree(n, ZeroInode);
      WriteInode(n, ZeroInode);
      inodeBits.Clear(n);
      SyncInodeBitmap();
    }

    // ----- inode records -----

    /** Reads one inode record; the number is range-checked. */
    method ReadInode(n: nat) returns (r: Result<DiskInode, Error>)
      requires Valid()
      ensures r == if n in raw.inodes then Ok(raw.inodes[n]) else Err(Corrupt)
    {
      hide Good, Raw.Holds, Raw.EncodeSuper, BitScan.Bitmap.Used;
      var ino := raw.ReadInode(n);
      if ino.None? {
        return Err(Corrupt);
      }
      return Ok(ino.value);
    }

    /** Writes back the record an operation worked on. */
    method WriteInode(n: nat, inode: DiskInode)
      requires Valid() && n in world && world[n] == inode
      modifies raw
      ensures Valid() && raw.inodes == old(raw.inodes)[n := inode] && raw.zones == old(raw.zones)
    {
      hide Good, Raw.Holds, Raw.EncodeSuper, BitScan.Bitmap.Used;
      raw.WriteInode(n, inode);
    }

    /** Rewrites all file data of one inode. It succeeds exactly when the zones that are
        free once the old data is released cover the blocks and their tables; then the
        contents are the data. When space runs out the inode is left empty, and at most
        one zone stays allocated without an owner. */
    method WriteInodeContents(n: nat, inode: DiskInode, data: Bytes, mtime: U32)
      returns (inode': DiskInode, r: Result<Unit, Error>)
      requires Valid() && n in world && SamePointers(world[n], inode)
      modifies this, raw, zoneBits
      ensures Valid() && world == old(world)[n := inode'] && raw.inodes == old(raw.inodes)[n := inode']
      ensures OthersKept(old(Snapshot()), Snapshot(), n)
      ensures SameMeta(inode, inode') && inode'.mtime == mtime
      ensures r.Ok? <==> old(spare) + |InodeZones(old(own), n)| >= ZoneCost(DataBlocks(|data|))
      ensures r.Ok? ==> Contents(inode', raw.zones) == data && PastZero(inode', raw.zones)
      ensures r.Ok? ==> lost == old(lost) && DataBlocks(|data|) <= MAX_LOGICAL_BLOCKS
      ensures r.Ok? ==> spare == old(spare) + |InodeZones(old(own), n)| - ZoneCost(DataBlocks(|data|))
      ensures r.Err? ==> r.error == NoSpace && inode' == Emptied(inode')
      ensures r.Err? ==>
        && InodeZones(own, n) == {}
        && |lost| == |old(lost)| + Stranded(old(spare) + |InodeZones(old(own), n)|)
      ensures |InodeZones(own, n)| == ZoneCost(DataBlocks(inode'.size))
      ensures OwnersKept(old(own), own, n)
    {
      hide Stranded, Good, Sound, OthersKept, FilledTo, Stored, InodeZones, Contents, PastZero, ZoneCost, Raw.Holds, Raw.EncodeSuper, Shape, SamePointers;
      ghost var w, s := world, Snapshot();
      var written;
      written, r := Rebuild(n, inode, data);
      OthersLeft(own, n);
      NothingCosts();
      NoZones();
      if r.Err? {
        inode' := Abandon(n, written, mtime, s);
      } else {
        inode' := Complete(n, written, data, mtime, s);
      }
      Overwrite(w, n, written, inode');
    }

    /** Frees what inode n has and stores the blocks of the data in its empty tree. */
    method Rebuild(n: nat, inode: DiskInode, data: Bytes) returns (written: DiskInode, r: Result<Unit, Error>)
      requires Valid() && n in world && SamePointers(world[n], inode)
      modifies this, raw, zoneBits
      ensures Valid() && world == old(world)[n := written] && raw.inodes == old(raw.inodes)
      ensures OthersKept(old(Snapshot()), Snapshot(), n) && SameMeta(inode, written)
      ensures OwnersKept(old(own), own, n)
      ensures r.Ok? <==> old(spare) + |InodeZones(old(own), n)| >= ZoneCost(DataBlocks(|data|))
      ensures r.Ok? ==>
        && lost == old(lost) && DataBlocks(|data|) <= MAX_LOGICAL_BLOCKS
        && FilledTo(written, raw.zones, DataBlocks(|data|)) && Stored(written, raw.zones, data, DataBlocks(|data|))
        && spare == old(spare) + |InodeZones(old(own), n)| - ZoneCost(DataBlocks(|data|))
        && |InodeZones(own, n)| == ZoneCost(DataBlocks(|data|)) < 0x2_0000
      ensures r.Err? ==> r.error == NoSpace && |lost| == |old(lost)| + Stranded(old(spare) + |InodeZones(old(own), n)|)
    {
      hide OwnersKept, Stranded, Good, Sound, Grows, OthersKept, FilledTo, Stored, InodeZones, ZoneCost, Raw.Holds, Raw.EncodeSuper, Shape, SamePointers;
      ghost var w, s := world, Snapshot();
      var empty := Release(n, inode);
      ghost var t := Snapshot();
      Now();
      SpareBound();
      AllCounted();
      written, r := WriteBlocks(n, empty, data);
      Overwrite(w, n, empty, written);
      AllCounted();
      GrowsOwners(t, Snapshot(), n);
      OwnersTrans(s.own, t.own, own, n);
      GrowsKeepsOthers(t, Snapshot(), n);
      OthersTrans(s, t, Snapshot(), n);
    }

    /** Frees what inode n has. */
    method Release(n: nat, inode: DiskInode) returns (empty: DiskInode)
      requires Valid() && n in world && SamePointers(world[n], inode)
      modifies this, raw, zoneBits
      ensures Valid() && world == old(world)[n := empty] && raw.inodes == old(raw.inodes)
      ensures OthersKept(old(Snapshot()), Snapshot(), n) && SameMeta(inode, empty) && FilledTo(empty, raw.zones, 0)
      ensures OwnersKept(old(own), own, n) && InodeZones(own, n) == {}
      ensures lost == old(lost) && spare == old(spare) + |InodeZones(old(own), n)|
    {
      hide Good, Sound, OthersKept, FilledTo, InodeZones, OwnersKept, Raw.Holds, Raw.EncodeSuper, Shape, SamePointers;
      ghost var w, s := world, Snapshot();
      Now();
      ResizeIsFree(n, inode);
      empty := FreeInodeData(n, inode);
      Overwrite(w, n, inode, empty);
      ReleaseKeepsOthers(s, Snapshot(), n);
      NoneLeft(s.own, n);
      OthersLeft(s.own, n);
      EmptyIsFilledToZero(empty, raw.zones);
    }

    /** A write that ran out of space: releases what it had attached. */
    method Abandon(n: nat, inode: DiskInode, mtime: U32, ghost s: Snap) returns (inode': DiskInode)
      requires Valid() && n in world && world[n] == inode && OthersKept(s, Snapshot(), n)
      modifies this, raw, zoneBits
      ensures Valid() && world == old(world)[n := inode'] && raw.inodes == old(raw.inodes)[n := inode']
      ensures OthersKept(s, Snapshot(), n) && SameMeta(inode, inode') && inode'.mtime == mtime
      ensures inode' == Emptied(inode') && InodeZones(own, n) == {} && lost == old(lost)
      ensures own == old(own) - InodeZones(old(own), n)
    {
      hide Good, Sound, OthersKept, InodeZones, Contents, Raw.Holds, Raw.EncodeSuper, Shape;
      ghost var w, t := world, Snapshot();
      var e := FreeInodeData(n, inode);
      ReleaseKeepsOthers(t, Snapshot(), n);
      OthersTrans(s, t, Snapshot(), n);
      NoneLeft(t.own, n);
      inode' := Finish(n, e, 0, mtime, s);
      Overwrite(w, n, e, inode');
    }

    /** A write that stored every block: sets the size. */
    method Complete(n: nat, inode: DiskInode, data: Bytes, mtime: U32, ghost s: Snap) returns (inode': DiskInode)
      requires Valid() && n in world && world[n] == inode && OthersKept(s, Snapshot(), n)
      requires ZoneCost(DataBlocks(|data|)) < 0x2_0000 && DataBlocks(|data|) <= MAX_LOGICAL_BLOCKS
      requires FilledTo(inode, raw.zones, DataBlocks(|data|)) && Stored(inode, raw.zones, data, DataBlocks(|data|))
      modifies this, raw
      ensures Valid() && world == old(world)[n := inode'] && raw.inodes == old(raw.inodes)[n := inode']
      ensures OthersKept(s, Snapshot(), n) && SameMeta(inode, inode') && inode'.mtime == mtime
      ensures Contents(inode', raw.zones) == data && PastZero(inode', raw.zones) && inode'.size == |data|
      ensures own == old(own) && lost == old(lost) && spare == old(spare)
    {
      CostCoversSize(|data|);
      hide Good, OthersKept, FilledTo, Stored, Contents, PastZero, ZoneCost, Raw.Holds, Raw.EncodeSuper, Shape;
      StoredContents(inode, raw.zones, data);
      StoredPastZero(inode, raw.zones, data, mtime);
      inode' := Finish(n, inode, |data|, mtime, s);
    }

    /** Stamps size and time into the record and writes it back. */
    method Finish(n: nat, inode: DiskInode, size: U32, mtime: U32, ghost s: Snap) returns (inode': DiskInode)
      requires Valid() && n in world && world[n] == inode && OthersKept(s, Snapshot(), n)
      modifies this, raw
      ensures Valid() && world == old(world)[n := inode'] && raw.inodes == old(raw.inodes)[n := inode']
      ensures inode' == inode.(size := size, mtime := mtime) && raw.zones == old(raw.zones)
      ensures own == old(own) && lost == old(lost) && spare == old(spare) && OthersKept(s, Snapshot(), n)
      ensures Contents(inode', raw.zones) == Contents(inode.(size := size), old(raw.zones))
    {
      hide Good, Raw.Holds, Raw.EncodeSuper, Shape, Contents;
      inode' := inode.(size := size, mtime := mtime);
      ResizeIsFree(n, inode');
      WriteInode(n, inode');
      ContentsIgnoreTime(inode.(size := size), raw.zones, mtime);
    }
  }

  predicate SameMeta(a: DiskInode, b: DiskInode)
  {
    a.mode == b.mode && a.uid == b.uid && a.gid == b.gid && a.links == b.links
  }

  lemma ContentsIgnoreTime(ino: DiskInode, disk: Disk, mtime: U32)
    ensures Contents(ino.(mtime := mtime), disk) == Contents(ino, disk)
  {
    forall pos | 0 <= pos < ino.size ensures ByteAt(ino.(mtime := mtime), disk, pos) == ByteAt(ino, disk, pos) {
    }
  }

  lemma NothingStored(ino: DiskInode, disk: Disk, data: Bytes)
    ensures Stored(ino, disk, data, 0)
  {
  }

  lemma BackToLost(lost: set<nat>, zs: set<nat>)
    requires zs !! lost
    ensures lost + zs - zs == lost
  {
  }

  lemma NothingCosts()
    ensures ZoneCost(DataBlocks(0)) == 0
  {
  }

  lemma NoZones()
    ensures var none: set<nat> := {}; |none| == 0
  {
  }

  lemma OthersLeft(own: Owners, n: nat)
    ensures OwnersKept(own, own - InodeZones(own, n), n)
  {
  }

  lemma NoneLeft(own: Owners, n: nat)
    ensures InodeZones(own - InodeZones(own, n), n) == {}
  {
  }

  lemma CostCoversSize(size: nat)
    ensures ZoneCost(DataBlocks(size)) * BLOCK_SIZE >= size
  {
  }

  lemma ReleaseKeepsOthers(s: Snap, t: Snap, n: nat)
    requires n in s.w && n in t.w && t.w == s.w[n := t.w[n]] && t.disk == s.disk
    ensures OthersKept(s, t, n)
  {
  }

  lemma OthersTrans(s: Snap, t: Snap, u: Snap, n: nat)
    requires OthersKept(s, t, n) && OthersKept(t, u, n)
    ensures OthersKept(s, u, n)
  {
  }

  lemma ContentsAre(inode: DiskInode, disk: Disk, data: Bytes)
    requires |data| == inode.size && forall pos | 0 <= pos < inode.size :: data[pos] == ByteAt(inode, disk, pos)
    ensures data == Contents(inode, disk)
  {
  }

  /** Block b of a tree filled to b is empty, also after an unrelated allocation. */
  lemma NotFilledYet(s: Snap, t: Snap, n: nat, b: nat, z: nat)
    requires Sound(s) && Fresh(s, t, z) && n in s.w && FilledTo(s.w[n], s.disk, b)
    ensures ZoneAt(t.w[n], t.disk, b) == 0
    ensures b < MAX_LOGICAL_BLOCKS ==> PathCost(t.w[n], t.disk, b) == PathCost(s.w[n], s.disk, b)
  {
    FreshTaken(s, t, z, n);
    assert ZoneAt(s.w[n], s.disk, b) == 0;
  }

  lemma Overwrite(w: World, n: nat, a: DiskInode, b: DiskInode)
    ensures w[n := a][n := b] == w[n := b]
    ensures n in w && w[n] == b ==> w[n := b] == w
  {
  }

  lemma GoodSameWorld(s: Snap, used: set<nat>, first: nat, spare: nat, n: nat, inode: DiskInode)
    requires Good(s, used, first, spare) && n in s.w && SamePointers(s.w[n], inode)
    ensures Good(Snap(s.w[n := inode], s.disk, s.own, s.lost), used, first, spare)
  {
    var w' := s.w[n := inode];
    forall m, p {:trigger Target(w'[m], s.disk, p)} | m in w'
      ensures Target(w'[m], s.disk, p) == Target(s.w[m], s.disk, p)
    {
    }
    OwnedSameTargets(s.w, w', s.disk, s.own);
  }

  lemma OwnedSameTargets(w: World, w': World, disk: Disk, own: Owners)
    requires Owned(w, disk, own) && w'.Keys == w.Keys
    requires forall m, p {:trigger Target(w'[m], disk, p)} | m in w' :: Target(w'[m], disk, p) == Target(w[m], disk, p)
    ensures Owned(w', disk, own)
  {
  }

  lemma NoBranches(own: Owners, n: nat)
    ensures BranchesBelow(own, n, 0) == {}
  {
  }

  /** The three parts of a zone tree are all of it. */
  lemma AllParts(own0: Owners, own1: Owners, own2: Owners, n: nat)
    requires own1 == own0 - DirectsBelow(own0, n, DIRECT_ZONE_COUNT)
    requires own2 == own1 - PartZones(own1, n, SinglePart)
    ensures own2 - PartZones(own2, n, DoublePart) == own0 - InodeZones(own0, n)
    ensures |InodeZones(own0, n)| == |DirectsBelow(own0, n, DIRECT_ZONE_COUNT)|
                                   + |PartZones(own1, n, SinglePart)| + |PartZones(own2, n, DoublePart)|
  {
    hide DirectsBelow, PartZones, InodeZones;
    var a, b, c := DirectsBelow(own0, n, DIRECT_ZONE_COUNT), PartZones(own1, n, SinglePart), PartZones(own2, n, DoublePart);
    PartsUnion(own0, own1, own2, n);
    DisjointSize(a, b);
    DisjointSize(a + b, c);
    assert own0 - a - b - c == own0 - (a + b + c);
  }

  lemma PartsUnion(own0: Owners, own1: Owners, own2: Owners, n: nat)
    requires own1 == own0 - DirectsBelow(own0, n, DIRECT_ZONE_COUNT)
    requires own2 == own1 - PartZones(own1, n, SinglePart)
    ensures var a, b, c := DirectsBelow(own0, n, DIRECT_ZONE_COUNT), PartZones(own1, n, SinglePart), PartZones(own2, n, DoublePart);
      InodeZones(own0, n) == a + b + c && a !! b && a + b !! c
  {
  }

  lemma RootTargets(ino: DiskInode, disk: Disk)
    ensures Target(ino, disk, Single) == ino.single && Target(ino, disk, Double) == ino.double
  {
  }

  /** The zones behind the direct pointers below i. */
  ghost function DirectsBelow(own: Owners, n: nat, i: nat): set<nat>
  {
    set z | z in own && own[z].inode == n && own[z].ptr.Direct? && own[z].ptr.i < i
  }

  lemma DirectsStep(own: Owners, n: nat, i: DirectIndex)
    ensures var below := DirectsBelow(own, n, i);
      var rest := own - below;
      && rest - PartZones(rest, n, DirectPart(i)) == own - DirectsBelow(own, n, i + 1)
      && |DirectsBelow(own, n, i + 1)| == |below| + |PartZones(rest, n, DirectPart(i))|
  {
    var below := DirectsBelow(own, n, i);
    var rest := own - below;
    assert DirectsBelow(own, n, i + 1) == below + PartZones(rest, n, DirectPart(i));
    DisjointSize(below, PartZones(rest, n, DirectPart(i)));
  }

  lemma ListedNone(t: seq<nat>)
    ensures Listed(t, 0) == {}
  {
  }

  lemma NoRootNoOuter(inode: DiskInode, disk: Disk, j: EntryIndex)
    ensures inode.double == 0 ==> Target(inode, disk, Outer(j)) == 0
  {
  }

  /** Adding the double-indirect root leaves outer entry j as it was. */
  lemma SameOuter(s: Snap, t: Snap, n: nat, j: EntryIndex)
    requires Adds(s, t, n, {Double})
    ensures Target(t.w[n], t.disk, Outer(j)) == 0 <==> Target(s.w[n], s.disk, Outer(j)) == 0
  {
  }

  /** Every data zone is in the bitmap's range. */
  lemma FullRange(first: nat, count: nat, keys: set<nat>)
    requires 0 < first < count && forall z :: z in keys <==> first <= z < count
    ensures keys <= Range(first - 1, count - first + 1)
  {
  }

  lemma OnlyDataZones(s: Snap, used: set<nat>, first: nat, spare: nat, z: nat)
    requires Good(s, used, first, spare) && z !in used
    ensures z != first - 1
  {
  }

  lemma ZeroInodesPointNowhere(w: World, disk: Disk)
    requires forall n | n in w :: w[n] == ZeroInode
    ensures Owned(w, disk, map[])
  {
    forall n, p {:trigger Target(w[n], disk, p)} | n in w ensures Target(w[n], disk, p) == 0 {
      if p.Direct? { assert ZeroInode.direct[p.i] == 0; }
    }
  }

  lemma ZoneTotal(disk: Disk, first: nat, count: nat)
    requires 0 < first < count && forall z :: z in disk <==> first <= z < count
    ensures |disk| == count - first
  {
    RangeSize(first, count - first);
    assert disk.Keys == Range(first, count - first);
    assert |disk| == |disk.Keys|;
  }

  lemma FreshIsGood(w: World, disk: Disk, first: nat, count: nat, used: set<nat>)
    requires forall n | n in w :: w[n] == ZeroInode
    requires 0 < first < count && forall z :: z in disk <==> first <= z < count
    requires used == {first - 1}
    ensures Good(Snap(w, disk, map[], {}), used, first, count - first)
  {
    hide Sound;
    FreshIsSound(w, disk);
    ZoneTotal(disk, first, count);
    NothingOwned();
  }

  lemma FreshIsSound(w: World, disk: Disk)
    requires forall n | n in w :: w[n] == ZeroInode
    ensures Sound(Snap(w, disk, map[], {}))
  {
    hide Owned;
    ZeroInodesPointNowhere(w, disk);
  }

  lemma NothingOwned()
    ensures var own: Owners := map[]; |own| == 0
  {
  }
}
