/** The zone tree of an inode: seven direct pointers, a table of 512 pointers, and
    a table of 512 such tables. Every pointer position has a name (`Ptr`), so that
    "this zone is reached by exactly one pointer" can be said and kept. */
module ZoneTree {
  import opened Wrappers
  import opened Layout

  /** Data-zone blocks by zone number. */
  type Disk = map<nat, Block>

  /** Inode records by inode number. */
  type World = map<nat, DiskInode>

  type DirectIndex = i: nat | i < DIRECT_ZONE_COUNT
  type EntryIndex = k: nat | k < INDIRECT_ENTRY_COUNT

  datatype Ptr =
    | Direct(i: DirectIndex)
    | Single
    | SingleAt(k: EntryIndex)
    | Double
    | Outer(j: EntryIndex)
    | Inner(j: EntryIndex, k: EntryIndex)
  {
    /** Whether the position holds the zone of an indirect table. */
    predicate IsTable() { Single? || Double? || Outer? }
  }

  /** Entry k of the table in zone z; an absent table is all zeros. */
  function EntryOf(disk: Disk, z: nat, k: EntryIndex): nat
  {
    if z != 0 && z in disk then Entry(disk[z], k) else 0
  }

  /** The zone a pointer position holds; 0 means none. */
  function Target(ino: DiskInode, disk: Disk, p: Ptr): nat
  {
    match p
    case Direct(i) => ino.direct[i]
    case Single => ino.single
    case SingleAt(k) => EntryOf(disk, ino.single, k)
    case Double => ino.double
    case Outer(j) => EntryOf(disk, ino.double, j)
    case Inner(j, k) => EntryOf(disk, EntryOf(disk, ino.double, j), k)
  }

  function WithDirect(ino: DiskInode, i: DirectIndex, z: U16): DiskInode
  {
    ino.(direct := ino.direct[i := z])
  }

  /** The inode with one of its two root pointers set. */
  function WithRoot(ino: DiskInode, p: Ptr, z: U16): DiskInode
    requires p.Single? || p.Double?
  {
    if p.Single? then ino.(single := z) else ino.(double := z)
  }

  /** The position that backs one logical block. */
  function LogicalPtr(b: nat): Ptr
    requires b < MAX_LOGICAL_BLOCKS
  {
    if b < DIRECT_ZONE_COUNT then Direct(b)
    else if b < DIRECT_ZONE_COUNT + INDIRECT_ENTRY_COUNT then SingleAt(b - DIRECT_ZONE_COUNT)
    else
      var r := b - DIRECT_ZONE_COUNT - INDIRECT_ENTRY_COUNT;
      assert r / INDIRECT_ENTRY_COUNT < INDIRECT_ENTRY_COUNT;
      Inner(r / INDIRECT_ENTRY_COUNT, r % INDIRECT_ENTRY_COUNT)
  }

  lemma LogicalPtrInjective(a: nat, b: nat)
    requires a < MAX_LOGICAL_BLOCKS && b < MAX_LOGICAL_BLOCKS
    ensures LogicalPtr(a) == LogicalPtr(b) <==> a == b
    ensures !LogicalPtr(a).IsTable()
  {
  }

  /** The zone behind one logical block, the meaning both implementations share. */
  function ZoneAt(ino: DiskInode, disk: Disk, b: nat): nat
  {
    if b < MAX_LOGICAL_BLOCKS then Target(ino, disk, LogicalPtr(b)) else 0
  }

  /** The zone of a logical block in the words of the record and its tables: seven in the
      record, 512 in the single-indirect table, and then 512 in each table that the
      double-indirect table lists. */
  lemma ZoneInWords(ino: DiskInode, disk: Disk, b: nat)
    requires b < MAX_LOGICAL_BLOCKS
    ensures b < 7 ==> ZoneAt(ino, disk, b) == ino.direct[b]
    ensures 7 <= b < 519 && ino.single != 0 && ino.single in disk ==>
      ZoneAt(ino, disk, b) == ReadU16(disk[ino.single], 2 * (b - 7))
    ensures b >= 519 && ino.double != 0 && ino.double in disk ==>
      var t := ReadU16(disk[ino.double], 2 * ((b - 519) / 512));
      if t != 0 && t in disk then ZoneAt(ino, disk, b) == ReadU16(disk[t], 2 * ((b - 519) % 512)) else ZoneAt(ino, disk, b) == 0
  {
  }

  predicate SamePointers(a: DiskInode, b: DiskInode)
  {
    a.direct == b.direct && a.single == b.single && a.double == b.double
  }

  function Emptied(ino: DiskInode): DiskInode
  {
    ino.(direct := ZeroInode.direct, single := 0, double := 0, size := 0)
  }

  // ----- ownership -----

  datatype Owner = Owner(inode: nat, ptr: Ptr)

  type Owners = map<nat, Owner>

  /** `own` is the exact inverse of all pointers of all inodes: every zone a pointer
      reaches has that pointer as its owner, and every owner points to its zone. */
  ghost predicate Owned(w: World, disk: Disk, own: Owners)
  {
    && (forall n, p | n in w && Target(w[n], disk, p) != 0 ::
          Target(w[n], disk, p) in own && own[Target(w[n], disk, p)] == Owner(n, p))
    && (forall z | z in own ::
          z != 0 && z in disk && own[z].inode in w && Target(w[own[z].inode], disk, own[z].ptr) == z)
  }

  /** What `Owned` means without the owner map: no two pointers share a zone, and a
      zone is owned exactly when some pointer reaches it. */
  lemma OwnedMeansOnePointer(w: World, disk: Disk, own: Owners)
    requires Owned(w, disk, own)
    ensures forall n, p, n', p' | n in w && n' in w && Target(w[n], disk, p) == Target(w[n'], disk, p') != 0 ::
              n == n' && p == p'
    ensures forall z :: z in own <==> z != 0 && exists n, p :: n in w && Target(w[n], disk, p) == z
  {
    forall z | z in own ensures z != 0 && exists n, p :: n in w && Target(w[n], disk, p) == z {
      assert own[z].inode in w && Target(w[own[z].inode], disk, own[z].ptr) == z;
    }
  }

  lemma OwnerOf(w: World, disk: Disk, own: Owners, n: nat, p: Ptr)
    requires Owned(w, disk, own) && n in w
    ensures var z := Target(w[n], disk, p); z != 0 ==> z in own && own[z] == Owner(n, p)
  {
  }

  lemma OwnerPoints(w: World, disk: Disk, own: Owners, z: nat)
    requires Owned(w, disk, own) && z in own
    ensures z != 0 && z in disk && own[z].inode in w && Target(w[own[z].inode], disk, own[z].ptr) == z
  {
  }

  /** A pointer of the inode is under a table position. */
  predicate Under(p: Ptr, table: Ptr)
  {
    match table
    case Single => p.SingleAt?
    case Double => p.Outer? || p.Inner?
    case Outer(j) => p.Inner? && p.j == j
    case _ => false
  }

  lemma WriteFrameAt(w: World, disk: Disk, own: Owners, z: nat, b: Block, n: nat, p: Ptr)
    requires Owned(w, disk, own) && z in disk && n in w
    requires z in own && own[z].inode == n && own[z].ptr.IsTable() ==> !Under(p, own[z].ptr)
    ensures Target(w[n], disk[z := b], p) == Target(w[n], disk, p)
  {
    OwnerOf(w, disk, own, n, Single);
    OwnerOf(w, disk, own, n, Double);
    if p.Inner? {
      OwnerOf(w, disk, own, n, Outer(p.j));
    }
  }

  /** Writing a block that is no inode's table changes no pointer. */
  lemma DataWriteFrame(w: World, disk: Disk, own: Owners, z: nat, b: Block)
    requires Owned(w, disk, own) && z in disk
    requires z in own ==> !own[z].ptr.IsTable()
    ensures forall n, p | n in w :: Target(w[n], disk[z := b], p) == Target(w[n], disk, p)
  {
    forall n, p | n in w ensures Target(w[n], disk[z := b], p) == Target(w[n], disk, p) {
      WriteFrameAt(w, disk, own, z, b, n, p);
    }
  }

  /** Writing a table changes only the pointers under it. */
  lemma TableWriteFrame(w: World, disk: Disk, own: Owners, z: nat, b: Block, n0: nat, p0: Ptr)
    requires Owned(w, disk, own) && z in own && own[z] == Owner(n0, p0) && p0.IsTable()
    ensures forall n, p {:trigger Target(w[n], disk[z := b], p)} | n in w && !(n == n0 && Under(p, p0)) ::
              Target(w[n], disk[z := b], p) == Target(w[n], disk, p)
  {
    forall n, p {:trigger Target(w[n], disk[z := b], p)} | n in w && !(n == n0 && Under(p, p0))
      ensures Target(w[n], disk[z := b], p) == Target(w[n], disk, p)
    {
      WriteFrameAt(w, disk, own, z, b, n, p);
    }
  }

  /** Pointer p0 of inode n0 goes from nothing to z; everything else stays. */
  ghost predicate Gains(w: World, disk: Disk, w': World, disk': Disk, n0: nat, p0: Ptr, z: nat)
  {
    && w'.Keys == w.Keys && disk'.Keys == disk.Keys && n0 in w
    && Target(w[n0], disk, p0) == 0
    && forall n, p {:trigger Target(w'[n], disk', p)} {:trigger Target(w[n], disk, p)} | n in w ::
         Target(w'[n], disk', p) == if n == n0 && p == p0 then z else Target(w[n], disk, p)
  }

  lemma Attach(w: World, disk: Disk, own: Owners, w': World, disk': Disk, n0: nat, p0: Ptr, z: nat)
    requires Owned(w, disk, own) && Gains(w, disk, w', disk', n0, p0, z)
    requires z !in own && z != 0 && z in disk
    ensures Owned(w', disk', own[z := Owner(n0, p0)])
  {
    var own' := own[z := Owner(n0, p0)];
    forall n, p | n in w' && Target(w'[n], disk', p) != 0
      ensures Target(w'[n], disk', p) in own' && own'[Target(w'[n], disk', p)] == Owner(n, p)
    {
      if n == n0 && p == p0 {
      } else {
        assert Target(w'[n], disk', p) == Target(w[n], disk, p);
      }
    }
    forall y | y in own'
      ensures y != 0 && y in disk' && own'[y].inode in w' && Target(w'[own'[y].inode], disk', own'[y].ptr) == y
    {
      if y != z {
        assert Target(w[own[y].inode], disk, own[y].ptr) == y;
      }
    }
  }

  /** The parts of a zone tree that are released together. */
  datatype Part = DirectPart(i: DirectIndex) | SinglePart | DoublePart
  {
    predicate Has(p: Ptr) {
      match this
      case DirectPart(i) => p == Direct(i)
      case SinglePart => p.Single? || p.SingleAt?
      case DoublePart => p.Double? || p.Outer? || p.Inner?
    }
  }

  /** The zones inode n0 owns through one part of its tree. */
  ghost function PartZones(own: Owners, n0: nat, part: Part): set<nat>
  {
    set z | z in own && own[z].inode == n0 && part.Has(own[z].ptr)
  }

  /** All zones inode n0 owns. */
  ghost function InodeZones(own: Owners, n0: nat): set<nat>
  {
    set z | z in own && own[z].inode == n0
  }

  ghost predicate Loses(w: World, disk: Disk, w': World, n0: nat, part: Part)
  {
    && w'.Keys == w.Keys
    && forall n, p {:trigger Target(w'[n], disk, p)} {:trigger Target(w[n], disk, p)} | n in w ::
         Target(w'[n], disk, p) == if n == n0 && part.Has(p) then 0 else Target(w[n], disk, p)
  }

  lemma Detach(w: World, disk: Disk, own: Owners, w': World, n0: nat, part: Part)
    requires Owned(w, disk, own) && Loses(w, disk, w', n0, part)
    ensures Owned(w', disk, own - PartZones(own, n0, part))
  {
    var own' := own - PartZones(own, n0, part);
    forall n, p | n in w' && Target(w'[n], disk, p) != 0
      ensures Target(w'[n], disk, p) in own' && own'[Target(w'[n], disk, p)] == Owner(n, p)
    {
      assert Target(w'[n], disk, p) == Target(w[n], disk, p);
    }
    forall y | y in own'
      ensures y != 0 && y in disk && own'[y].inode in w' && Target(w'[own'[y].inode], disk, own'[y].ptr) == y
    {
      assert Target(w[own[y].inode], disk, own[y].ptr) == y;
    }
  }

  /** The zones an indirect table lists. */
  ghost function Listed(t: seq<nat>, n: nat): set<nat>
    requires n <= |t|
  {
    set k | 0 <= k < n && t[k] != 0 :: t[k]
  }

  /** The part under the single-indirect root is the root and the listed zones. */
  lemma SinglePartZones(w: World, disk: Disk, own: Owners, n0: nat, t: seq<nat>)
    requires Owned(w, disk, own) && n0 in w && w[n0].single != 0
    requires |t| == INDIRECT_ENTRY_COUNT
    requires forall k: EntryIndex :: t[k] == EntryOf(disk, w[n0].single, k)
    ensures PartZones(own, n0, SinglePart) == Listed(t, |t|) + {w[n0].single}
  {
    var ino := w[n0];
    assert Target(ino, disk, Single) == ino.single;
    forall z | z in Listed(t, |t|) ensures z in PartZones(own, n0, SinglePart) {
      var k: EntryIndex :| t[k] == z;
      assert Target(ino, disk, SingleAt(k)) == z;
    }
    forall z | z in PartZones(own, n0, SinglePart) ensures z in Listed(t, |t|) + {ino.single} {
      if own[z].ptr.SingleAt? { assert t[own[z].ptr.k] == z; }
    }
  }

  /** The zones behind one entry of the double-indirect root: the inner table and
      what it lists. */
  ghost function BranchZones(own: Owners, n0: nat, j: nat): set<nat>
  {
    set z | z in own && own[z].inode == n0
         && (own[z].ptr.Outer? || own[z].ptr.Inner?) && own[z].ptr.j == j
  }

  lemma BranchListed(w: World, disk: Disk, own: Owners, n0: nat, j: EntryIndex, t: seq<nat>)
    requires Owned(w, disk, own) && n0 in w && Target(w[n0], disk, Outer(j)) != 0
    requires |t| == INDIRECT_ENTRY_COUNT
    requires forall k: EntryIndex :: t[k] == EntryOf(disk, Target(w[n0], disk, Outer(j)), k)
    ensures BranchZones(own, n0, j) == Listed(t, |t|) + {Target(w[n0], disk, Outer(j))}
  {
    var ino := w[n0];
    forall z | z in Listed(t, |t|) ensures z in BranchZones(own, n0, j) {
      var k: EntryIndex :| t[k] == z;
      assert Target(ino, disk, Inner(j, k)) == z;
    }
    forall z | z in BranchZones(own, n0, j) ensures z in Listed(t, |t|) + {Target(ino, disk, Outer(j))} {
      if own[z].ptr.Inner? { assert t[own[z].ptr.k] == z; }
    }
  }

  lemma BranchEmpty(w: World, disk: Disk, own: Owners, n0: nat, j: EntryIndex)
    requires Owned(w, disk, own) && n0 in w && Target(w[n0], disk, Outer(j)) == 0
    ensures BranchZones(own, n0, j) == {}
  {
    forall z | z in BranchZones(own, n0, j) ensures false {
      OwnerPoints(w, disk, own, z);
    }
  }

  /** The branches with index below j. */
  ghost function BranchesBelow(own: Owners, n0: nat, j: nat): set<nat>
  {
    set z | z in own && own[z].inode == n0
         && (own[z].ptr.Outer? || own[z].ptr.Inner?) && own[z].ptr.j < j
  }

  lemma BranchesStep(own: Owners, n0: nat, j: nat)
    ensures BranchesBelow(own, n0, j + 1) == BranchesBelow(own, n0, j) + BranchZones(own, n0, j)
  {
  }

  lemma DoublePartZones(w: World, disk: Disk, own: Owners, n0: nat)
    requires Owned(w, disk, own) && n0 in w && w[n0].double != 0
    ensures PartZones(own, n0, DoublePart) == BranchesBelow(own, n0, INDIRECT_ENTRY_COUNT) + {w[n0].double}
  {
    assert Target(w[n0], disk, Double) == w[n0].double;
  }

  // ----- contents -----

  /** Byte `pos` of a file: a block without a zone reads as zeros. */
  function ByteAt(ino: DiskInode, disk: Disk, pos: nat): U8
  {
    var z := ZoneAt(ino, disk, pos / BLOCK_SIZE);
    if z != 0 && z in disk then disk[z][pos % BLOCK_SIZE] else 0
  }

  /** The contents of an inode as a flat byte sequence. */
  ghost function Contents(ino: DiskInode, disk: Disk): (c: Bytes)
    ensures |c| == ino.size
  {
    seq(ino.size, pos requires 0 <= pos < ino.size => ByteAt(ino, disk, pos))
  }
}
