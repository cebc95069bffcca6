/** The image as a flat array of blocks: super block, two bitmaps, inode table, data
    zones. The contracts describe it as three separate parts (`header`, `inodes`,
    `zones`); the proofs show that the regions and the 32-byte inode slots never
    overlap, so that a write to one part leaves the others alone. */
module RawImage {
  import opened Wrappers
  import opened Layout
  import opened ZoneTree

  const MINIX_SUPER_MAGIC := 0x137F
  const MAX_FILE_SIZE: U32 := MAX_LOGICAL_BLOCKS * BLOCK_SIZE

  datatype SuperBlock = SuperBlock(
    inodeCount: U16,
    zoneCount: U16,
    inodeBitmapBlocks: U16,
    zoneBitmapBlocks: U16,
    firstDataZone: U16)
  {
    /** The geometry that image creation lays out. */
    ghost predicate Laid() {
      && inodeCount > 0
      && inodeBitmapBlocks == BitmapBlocks(inodeCount + 1)
      && firstDataZone == TableStart() + InodeBlocks(inodeCount)
      && firstDataZone < zoneCount
      && zoneBitmapBlocks == BitmapBlocks(zoneCount - firstDataZone + 1)
    }

    /** The first block of the inode table. */
    function TableStart(): nat { 2 + inodeBitmapBlocks + zoneBitmapBlocks }

    function InodeBlock(n: nat): nat
      requires n >= 1
    {
      TableStart() + (n - 1) / INODES_PER_BLOCK
    }

    function InodeSlot(n: nat): nat
      requires n >= 1
    {
      (n - 1) % INODES_PER_BLOCK
    }

    predicate IsDataZone(z: nat) { firstDataZone <= z < zoneCount }
  }

  /** The eighteen bytes of the super block, in a block of zeros. */
  function SuperBytes(sb: SuperBlock): (b: Bytes)
    ensures |b| == 18
    ensures ReadU16(b, 0) == sb.inodeCount && ReadU16(b, 2) == sb.zoneCount
    ensures ReadU16(b, 4) == sb.inodeBitmapBlocks && ReadU16(b, 6) == sb.zoneBitmapBlocks
    ensures ReadU16(b, 8) == sb.firstDataZone && ReadU16(b, 10) == 0
    ensures ReadU32(b, 12) == MAX_FILE_SIZE && ReadU16(b, 16) == MINIX_SUPER_MAGIC
  {
    U16Bytes(sb.inodeCount) + U16Bytes(sb.zoneCount) + U16Bytes(sb.inodeBitmapBlocks) + U16Bytes(sb.zoneBitmapBlocks)
    + U16Bytes(sb.firstDataZone) + U16Bytes(0) + U32Bytes(MAX_FILE_SIZE) + U16Bytes(MINIX_SUPER_MAGIC)
  }

  function EncodeSuper(sb: SuperBlock): Block { SuperBytes(sb) + Zeros(BLOCK_SIZE - 18) }

  /** What opening an image makes of its super block; none if one of the checks fails. */
  function DecodeSuper(b: Block): Option<SuperBlock>
  {
    var sb := SuperBlock(ReadU16(b, 0), ReadU16(b, 2), ReadU16(b, 4), ReadU16(b, 6), ReadU16(b, 8));
    if ReadU16(b, 16) != MINIX_SUPER_MAGIC || ReadU16(b, 10) != 0 then None
    else if sb.inodeCount == 0 || sb.firstDataZone >= sb.zoneCount then None
    else Some(sb)
  }

  /** Where its fields lie, low byte first, with the magic number behind them. */
  lemma SuperOnDisk(sb: SuperBlock)
    ensures var b := EncodeSuper(sb);
      && Field(b, 0, 2, sb.inodeCount) && Field(b, 2, 2, sb.zoneCount) && Field(b, 4, 2, sb.inodeBitmapBlocks)
      && Field(b, 6, 2, sb.zoneBitmapBlocks) && Field(b, 8, 2, sb.firstDataZone) && Field(b, 10, 2, 0)
      && Field(b, 12, 4, (7 + 512 + 512 * 512) * 1024) && Field(b, 16, 2, 0x137F)
      && forall i | 18 <= i < BLOCK_SIZE :: b[i] == 0
  {
    var s, b := SuperBytes(sb), EncodeSuper(sb);
    forall o: nat | o <= 16 ensures Field(s, o, 2, ReadU16(s, o)) && Field(b, o, 2, ReadU16(s, o)) {
      ReadsLittleEndian(s, o);
      FieldWithin(s, o, 2, ReadU16(s, o), b, 0);
    }
    ReadsLittleEndian(s, 12);
    FieldWithin(s, 12, 4, ReadU32(s, 12), b, 0);
    hide Field, ReadU16, ReadU32, U16Bytes, U32Bytes, SuperBytes;
    assert ReadU16(s, 0) == sb.inodeCount;
  }

  /** The super block of an image that was created is accepted and reads back. */
  lemma SuperRoundTrip(sb: SuperBlock)
    requires sb.Laid()
    ensures DecodeSuper(EncodeSuper(sb)) == Some(sb)
  {
    var s, b := SuperBytes(sb), EncodeSuper(sb);
    assert forall i | 0 <= i < 18 :: b[i] == s[i];
    hide SuperBytes, EncodeSuper;
  }

  /** Inode blocks lie between the bitmaps and the data zones. */
  lemma InodeBlockInTable(sb: SuperBlock, n: nat)
    requires sb.Laid() && 1 <= n <= sb.inodeCount
    ensures sb.TableStart() <= sb.InodeBlock(n) < sb.firstDataZone
  {
  }

  /** The records lie one after another in the bytes of the image, from the table on. */
  lemma InodeAddress(sb: SuperBlock, n: nat)
    requires n >= 1
    ensures sb.InodeBlock(n) * BLOCK_SIZE + sb.InodeSlot(n) * DISK_INODE_SIZE
         == (2 + sb.inodeBitmapBlocks + sb.zoneBitmapBlocks) * BLOCK_SIZE + (n - 1) * DISK_INODE_SIZE
  {
  }

  /** Distinct inodes have distinct slots. */
  lemma InodePositionInjective(sb: SuperBlock, m: nat, n: nat)
    requires m >= 1 && n >= 1
    ensures sb.InodeBlock(m) == sb.InodeBlock(n) && sb.InodeSlot(m) == sb.InodeSlot(n) <==> m == n
  {
  }

  function Slot(b: Block, slot: nat): (r: Bytes)
    requires slot < INODES_PER_BLOCK
    ensures |r| == DISK_INODE_SIZE
  {
    b[slot * DISK_INODE_SIZE..slot * DISK_INODE_SIZE + DISK_INODE_SIZE]
  }

  function PutSlot(b: Block, slot: nat, bytes: Bytes): Block
    requires slot < INODES_PER_BLOCK && |bytes| == DISK_INODE_SIZE
  {
    b[..slot * DISK_INODE_SIZE] + bytes + b[slot * DISK_INODE_SIZE + DISK_INODE_SIZE..]
  }

  lemma PutSlotFrame(b: Block, slot: nat, bytes: Bytes, other: nat)
    requires slot < INODES_PER_BLOCK && |bytes| == DISK_INODE_SIZE && other < INODES_PER_BLOCK
    ensures Slot(PutSlot(b, slot, bytes), other) == if other == slot then bytes else Slot(b, other)
  {
    var r := PutSlot(b, slot, bytes);
    if other < slot {
      assert other * DISK_INODE_SIZE + DISK_INODE_SIZE <= slot * DISK_INODE_SIZE;
    } else if other > slot {
      assert slot * DISK_INODE_SIZE + DISK_INODE_SIZE <= other * DISK_INODE_SIZE;
    }
  }

  function InodeAt(sb: SuperBlock, storage: seq<Block>, n: nat): DiskInode
    requires 1 <= n && sb.InodeBlock(n) < |storage|
  {
    DecodeInode(Slot(storage[sb.InodeBlock(n)], sb.InodeSlot(n))).value
  }

  function WithInode(sb: SuperBlock, storage: seq<Block>, n: nat, ino: DiskInode): (r: seq<Block>)
    requires 1 <= n && sb.InodeBlock(n) < |storage|
    ensures |r| == |storage|
  {
    var b := sb.InodeBlock(n);
    storage[b := PutSlot(storage[b], sb.InodeSlot(n), EncodeInode(ino))]
  }

  /** Writing one inode record changes that record and no other. */
  lemma WithInodeFrame(sb: SuperBlock, storage: seq<Block>, n: nat, ino: DiskInode, m: nat)
    requires sb.Laid() && |storage| == sb.zoneCount
    requires 1 <= n <= sb.inodeCount && 1 <= m <= sb.inodeCount
    requires sb.InodeBlock(n) < |storage| && sb.InodeBlock(m) < |storage|
    ensures InodeAt(sb, WithInode(sb, storage, n, ino), m) == if m == n then ino else InodeAt(sb, storage, m)
  {
    InodePositionInjective(sb, m, n);
    PutSlotFrame(storage[sb.InodeBlock(n)], sb.InodeSlot(n), EncodeInode(ino), sb.InodeSlot(m));
    InodeRoundTrip(ino, []);
    assert EncodeInode(ino) + [] == EncodeInode(ino);
  }

  lemma WithInodeOutside(sb: SuperBlock, storage: seq<Block>, n: nat, ino: DiskInode)
    requires 1 <= n && sb.InodeBlock(n) < |storage|
    ensures forall i | 0 <= i < |storage| && i != sb.InodeBlock(n) :: WithInode(sb, storage, n, ino)[i] == storage[i]
  {
  }

  /** The blocks hold exactly the given header, inode records and data zones. */
  ghost predicate Holds(sb: SuperBlock, storage: seq<Block>, header: seq<Block>, inodes: World, zones: Disk)
  {
    && sb.Laid() && |storage| == sb.zoneCount
    && header == storage[..sb.TableStart()]
    && (forall n :: n in inodes <==> 1 <= n <= sb.inodeCount)
    && (forall n | n in inodes :: sb.InodeBlock(n) < |storage| && InodeAt(sb, storage, n) == inodes[n])
    && (forall z :: z in zones <==> sb.IsDataZone(z))
    && (forall z | z in zones :: storage[z] == zones[z])
  }

  lemma HoldsWithInode(sb: SuperBlock, storage: seq<Block>, header: seq<Block>, inodes: World, zones: Disk, n: nat, ino: DiskInode)
    requires Holds(sb, storage, header, inodes, zones) && n in inodes
    ensures 1 <= n && sb.InodeBlock(n) < |storage|
    ensures Holds(sb, WithInode(sb, storage, n, ino), header, inodes[n := ino], zones)
  {
    hide InodeAt, WithInode;
    InodeBlockInTable(sb, n);
    WithInodeOutside(sb, storage, n, ino);
    PrefixKept(storage, WithInode(sb, storage, n, ino), sb.TableStart(), sb.InodeBlock(n));
    forall z | z in zones ensures WithInode(sb, storage, n, ino)[z] == zones[z] {
      assert z != sb.InodeBlock(n);
    }
    forall m | m in inodes
      ensures sb.InodeBlock(m) < |storage|
      ensures InodeAt(sb, WithInode(sb, storage, n, ino), m) == if m == n then ino else inodes[m]
    {
      InodeKept(sb, storage, header, inodes, zones, n, ino, m);
    }
  }

  lemma InodeKept(sb: SuperBlock, storage: seq<Block>, header: seq<Block>, inodes: World, zones: Disk, n: nat, ino: DiskInode, m: nat)
    requires Holds(sb, storage, header, inodes, zones) && n in inodes && m in inodes
    requires sb.InodeBlock(n) < |storage| && sb.InodeBlock(m) < |storage| && n >= 1 && m >= 1
    ensures InodeAt(sb, WithInode(sb, storage, n, ino), m) == if m == n then ino else inodes[m]
  {
    hide InodeAt, WithInode;
    WithInodeFrame(sb, storage, n, ino, m);
  }

  lemma PrefixKept(a: seq<Block>, b: seq<Block>, n: nat, k: nat)
    requires |a| == |b| && n <= k < |a| && forall i | 0 <= i < |a| && i != k :: b[i] == a[i]
    ensures b[..n] == a[..n]
  {
  }

  lemma HoldsWithBlock(sb: SuperBlock, storage: seq<Block>, header: seq<Block>, inodes: World, zones: Disk, i: nat, b: Block)
    requires Holds(sb, storage, header, inodes, zones)
    ensures i in zones ==> i < |storage| && Holds(sb, storage[i := b], header, inodes, zones[i := b])
    ensures i < |header| ==> i < |storage| && Holds(sb, storage[i := b], header[i := b], inodes, zones)
  {
    if i in zones || i < |header| {
      forall n | n in inodes
        ensures sb.InodeBlock(n) != i && i < |storage| && InodeAt(sb, storage[i := b], n) == inodes[n]
      {
        InodeBlockInTable(sb, n);
      }
    }
  }

  class RawImage {
    const sb: SuperBlock
    var storage: seq<Block>
    /** The three parts of the image the rest of the engine speaks about. */
    ghost var header: seq<Block>
    ghost var inodes: World
    ghost var zones: Disk

    ghost predicate Valid()
      reads this
    {
      Holds(sb, storage, header, inodes, zones)
    }

    lemma Domains()
      requires Valid()
      ensures sb.Laid() && |header| == sb.TableStart()
      ensures forall n :: n in inodes <==> 1 <= n <= sb.inodeCount
      ensures forall z :: z in zones <==> sb.IsDataZone(z)
    {
    }

    /** Zeroed storage of the given geometry. */
    constructor (sb: SuperBlock)
      requires sb.Laid()
      ensures Valid() && this.sb == sb
      ensures header == seq(sb.TableStart(), _ => ZeroBlock)
      ensures forall n | n in inodes :: inodes[n] == ZeroInode
      ensures forall z | z in zones :: zones[z] == ZeroBlock
    {
      this.sb := sb;
      storage := seq(sb.zoneCount, _ => ZeroBlock);
      header := seq(sb.TableStart(), _ => ZeroBlock);
      inodes := Filled(1, sb.inodeCount + 1, ZeroInode);
      zones := Filled(sb.firstDataZone, sb.zoneCount, ZeroBlock);
      new;
      forall n | n in inodes
        ensures sb.InodeBlock(n) < |storage| && InodeAt(sb, storage, n) == ZeroInode
      {
        InodeBlockInTable(sb, n);
        ZeroSlot(sb.InodeSlot(n));
      }
    }

    /** Reads one inode record; the number is range-checked. */
    method ReadInode(n: nat) returns (r: Option<DiskInode>)
      requires Valid()
      ensures r == if n in inodes then Some(inodes[n]) else None
    {
      if n == 0 || n > sb.inodeCount {
        return None;
      }
      return Some(InodeAt(sb, storage, n));
    }

    method WriteInode(n: nat, ino: DiskInode)
      requires Valid() && n in inodes
      modifies this
      ensures Valid() && inodes == old(inodes)[n := ino]
      ensures zones == old(zones) && header == old(header)
    {
      hide Holds, WithInode;
      HoldsWithInode(sb, storage, header, inodes, zones, n, ino);
      storage := WithInode(sb, storage, n, ino);
      inodes := inodes[n := ino];
    }

    method ReadZone(z: nat) returns (b: Block)
      requires Valid() && z in zones
      ensures b == zones[z]
    {
      b := storage[z];
    }

    method WriteZone(z: nat, b: Block)
      requires Valid() && z in zones
      modifies this
      ensures Valid() && zones == old(zones)[z := b]
      ensures inodes == old(inodes) && header == old(header)
    {
      HoldsWithBlock(sb, storage, header, inodes, zones, z, b);
      storage := storage[z := b];
      zones := zones[z := b];
    }

    method ReadHeader(start: nat, n: nat) returns (blocks: seq<Block>)
      requires Valid() && start + n <= sb.TableStart()
      ensures |blocks| == n && blocks == header[start..start + n]
    {
      blocks := [];
      for i := 0 to n
        invariant blocks == header[start..start + i]
      {
        blocks := blocks + [storage[start + i]];
      }
    }

    /** Writes a run of header blocks, as the super-block and bitmap syncs do. */
    method WriteHeader(start: nat, blocks: seq<Block>)
      requires Valid() && start + |blocks| <= sb.TableStart()
      modifies this
      ensures Valid() && header == old(header)[..start] + blocks + old(header)[start + |blocks|..]
      ensures header[..start] == old(header)[..start] && header[start..start + |blocks|] == blocks
      ensures header[start + |blocks|..] == old(header)[start + |blocks|..]
      ensures inodes == old(inodes) && zones == old(zones)
    {
      for i := 0 to |blocks|
        invariant Valid() && header == old(header)[..start] + blocks[..i] + old(header)[start + i..]
        invariant inodes == old(inodes) && zones == old(zones)
      {
        WriteHeaderBlock(start + i, blocks[i]);
      }
    }

    method WriteHeaderBlock(i: nat, b: Block)
      requires Valid() && i < sb.TableStart()
      modifies this
      ensures Valid() && header == old(header)[i := b]
      ensures inodes == old(inodes) && zones == old(zones)
    {
      HoldsWithBlock(sb, storage, header, inodes, zones, i, b);
      storage := storage[i := b];
      header := header[i := b];
    }
  }

  lemma ZeroSlot(slot: nat)
    requires slot < INODES_PER_BLOCK
    ensures DecodeInode(Slot(ZeroBlock, slot)) == Some(ZeroInode)
  {
    var b := Slot(ZeroBlock, slot);
    assert forall i | 0 <= i < 32 :: b[i] == 0;
  }
}
