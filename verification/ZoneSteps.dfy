/** How one inode's zone tree grows and shrinks, as relations between snapshots of
    the pointers, the blocks, the owners and the zones allocated but not attached. */
module ZoneSteps {
  import opened Wrappers
  import opened Layout
  import opened ZoneTree

  /** `lost` holds the zones whose bit is set although no pointer reaches them: a zone
      between its allocation and its attachment, or one leaked by a failed write. */
  datatype Snap = Snap(w: World, disk: Disk, own: Owners, lost: set<nat>)

  ghost predicate Sound(s: Snap)
  {
    && Owned(s.w, s.disk, s.own)
    && s.own.Keys !! s.lost
    && 0 !in s.lost
    && s.lost <= s.disk.Keys
  }

  lemma SoundDomains(s: Snap)
    requires Sound(s)
    ensures s.own.Keys <= s.disk.Keys && s.lost <= s.disk.Keys
    ensures s.own.Keys !! s.lost && |s.own.Keys + s.lost| == |s.own| + |s.lost|
  {
    forall z | z in s.own.Keys ensures z in s.disk {
      OwnerPoints(s.w, s.disk, s.own, z);
    }
  }

  /** The snapshot agrees with the zone bitmap: a bit is set exactly when its zone is
      attached or lost (or is the reserved bit below the first data zone), and
      `spare` zones are left. */
  ghost predicate Good(s: Snap, used: set<nat>, first: nat, spare: nat)
  {
    && Sound(s)
    && (forall z :: z in used <==> z in s.own || z in s.lost || z == first - 1)
    && first - 1 !in s.disk
    && |s.own| + |s.lost| + spare == |s.disk|
  }

  lemma SubsetSize<T>(a: set<T>, b: set<T>)
    requires a <= b
    ensures |a| <= |b| && (|a| == |b| <==> a == b)
  {
    assert b == a + (b - a);
    assert |b| == |a| + |b - a|;
  }

  lemma GoodSound(s: Snap, used: set<nat>, first: nat, spare: nat)
    requires Good(s, used, first, spare)
    ensures Sound(s)
    ensures s.own.Keys <= s.disk.Keys && s.lost <= s.disk.Keys && s.own.Keys !! s.lost
  {
    SoundDomains(s);
  }

  /** Nothing is spare exactly when every data zone's bit is set. */
  lemma GoodFull(s: Snap, used: set<nat>, first: nat, spare: nat)
    requires Good(s, used, first, spare)
    ensures spare == 0 <==> s.disk.Keys <= used
  {
    SoundDomains(s);
    var taken := s.own.Keys + s.lost;
    SubsetSize(taken, s.disk.Keys);
    assert |s.disk| == |s.disk.Keys|;
    assert s.disk.Keys <= used <==> s.disk.Keys <= taken;
  }

  lemma GoodAlloc(s: Snap, used: set<nat>, first: nat, spare: nat, z: nat)
    requires Good(s, used, first, spare) && z in s.disk && z !in used && z != 0
    ensures var t := Snap(s.w, s.disk[z := ZeroBlock], s.own, s.lost + {z});
      spare > 0 && Fresh(s, t, z) && Good(t, used + {z}, first, spare - 1)
  {
    var t := Snap(s.w, s.disk[z := ZeroBlock], s.own, s.lost + {z});
    GoodFull(s, used, first, spare);
    FreshSound(s, t, z);
    assert t.disk.Keys == s.disk.Keys;
    assert |t.disk| == |t.disk.Keys| && |s.disk| == |s.disk.Keys|;
  }

  lemma GoodFree(s: Snap, used: set<nat>, first: nat, spare: nat, z: nat)
    requires Good(s, used, first, spare) && z in s.lost
    ensures z in s.disk && z in used
    ensures Good(Snap(s.w, s.disk, s.own, s.lost - {z}), used - {z}, first, spare + 1)
  {
    assert s.lost == s.lost - {z} + {z};
  }

  lemma GoodTakes(s: Snap, used: set<nat>, first: nat, spare: nat, t: Snap, n: nat, p: Ptr, z: nat)
    requires Good(s, used, first, spare) && Takes(s, t, n, p, z)
    ensures Good(t, used, first, spare)
    ensures Grows(s, t, n) && Adds(s, t, n, {p}) && Target(t.w[n], t.disk, p) == z
  {
    TakesKeeps(s, t, n, p, z);
    assert t.disk.Keys == s.disk.Keys;
    assert |t.disk| == |t.disk.Keys| && |s.disk| == |s.disk.Keys|;
  }

  /** Writing the block of a data zone. */
  lemma GoodWrite(s: Snap, used: set<nat>, first: nat, spare: nat, z: nat, b: Block)
    requires Good(s, used, first, spare) && z in s.disk
    requires z in s.own ==> !s.own[z].ptr.IsTable()
    ensures Good(Snap(s.w, s.disk[z := b], s.own, s.lost), used, first, spare)
    ensures forall n, p {:trigger Target(s.w[n], s.disk[z := b], p)} | n in s.w ::
              Target(s.w[n], s.disk[z := b], p) == Target(s.w[n], s.disk, p)
  {
    DataWriteFrame(s.w, s.disk, s.own, z, b);
    OwnedSame(s.w, s.disk, s.disk[z := b], s.own);
    var t := s.disk[z := b];
    assert t.Keys == s.disk.Keys;
    assert |t| == |t.Keys| && |s.disk| == |s.disk.Keys|;
  }

  /** Dropping one part of an inode's tree: its zones become lost zones. */
  lemma GoodDetach(s: Snap, used: set<nat>, first: nat, spare: nat, w': World, n: nat, part: Part)
    requires Good(s, used, first, spare) && Loses(s.w, s.disk, w', n, part)
    ensures var zs := PartZones(s.own, n, part);
      Good(Snap(w', s.disk, s.own - zs, s.lost + zs), used, first, spare)
  {
    var zs := PartZones(s.own, n, part);
    Detach(s.w, s.disk, s.own, w', n, part);
    DetachCount(s.own, s.lost, zs);
    forall z | z in zs ensures z != 0 && z in s.disk {
      OwnerPoints(s.w, s.disk, s.own, z);
    }
  }

  lemma DetachCount(own: Owners, lost: set<nat>, zs: set<nat>)
    requires own.Keys !! lost && zs <= own.Keys
    ensures |own - zs| + |lost + zs| == |own| + |lost|
  {
    var own' := own - zs;
    assert own'.Keys == own.Keys - zs;
    assert |own'| == |own'.Keys| && |own| == |own.Keys|;
    assert own.Keys == (own.Keys - zs) + zs;
    assert |lost + zs| == |lost| + |zs|;
  }

  /** From s to t only inode n's tree changed, and only by gaining zones: all other
      pointers, and all blocks but n's own tables, are as before. */
  ghost predicate Grows(s: Snap, t: Snap, n: nat)
  {
    && n in s.w && t.w.Keys == s.w.Keys && t.disk.Keys == s.disk.Keys
    && (forall m | m in s.w && m != n :: t.w[m] == s.w[m])
    && (forall m, p {:trigger Target(t.w[m], t.disk, p)} {:trigger Target(s.w[m], s.disk, p)} | m in s.w && m != n ::
          Target(t.w[m], t.disk, p) == Target(s.w[m], s.disk, p))
    && (forall p {:trigger Target(t.w[n], t.disk, p)} {:trigger Target(s.w[n], s.disk, p)} ::
          Target(s.w[n], s.disk, p) != 0 ==> Target(t.w[n], t.disk, p) == Target(s.w[n], s.disk, p))
    && (forall y | y in s.own :: y in t.own && t.own[y] == s.own[y])
    && (forall y | y in t.own :: y in s.own || t.own[y].inode == n)
    && (forall y | y in s.own && y in s.disk && !(s.own[y].inode == n && s.own[y].ptr.IsTable()) :: t.disk[y] == s.disk[y])
  }

  /** ... and the positions of n that gained a zone are exactly those in `more`. */
  ghost predicate Adds(s: Snap, t: Snap, n: nat, more: set<Ptr>)
  {
    n in s.w && n in t.w && forall p {:trigger Target(t.w[n], t.disk, p)} {:trigger Target(s.w[n], s.disk, p)} ::
      Target(t.w[n], t.disk, p) != 0 <==> Target(s.w[n], s.disk, p) != 0 || p in more
  }

  lemma GrowsRefl(s: Snap, n: nat)
    requires Sound(s) && n in s.w
    ensures Grows(s, s, n) && Adds(s, s, n, {})
  {
  }

  lemma GrowsTrans(s: Snap, t: Snap, u: Snap, n: nat)
    requires Grows(s, t, n) && Grows(t, u, n)
    ensures Grows(s, u, n)
  {
    assert forall m, p | m in s.w && m != n ::
        Target(u.w[m], u.disk, p) == Target(t.w[m], t.disk, p) == Target(s.w[m], s.disk, p);
    assert forall p :: Target(s.w[n], s.disk, p) != 0 ==>
        Target(u.w[n], u.disk, p) == Target(t.w[n], t.disk, p) == Target(s.w[n], s.disk, p);
  }

  lemma AddsTrans(s: Snap, t: Snap, u: Snap, n: nat, a: set<Ptr>, b: set<Ptr>)
    requires n in s.w && n in t.w && n in u.w
    requires Adds(s, t, n, a) && Adds(t, u, n, b)
    ensures Adds(s, u, n, a + b)
  {
    assert forall p :: Target(u.w[n], u.disk, p) != 0 <==> Target(t.w[n], t.disk, p) != 0 || p in b;
  }

  /** A fresh zone, zeroed and not yet attached. */
  ghost predicate Fresh(s: Snap, t: Snap, z: nat)
  {
    && z != 0 && z in s.disk && z !in s.own && z !in s.lost
    && t == Snap(s.w, s.disk[z := ZeroBlock], s.own, s.lost + {z})
  }

  lemma FreshSound(s: Snap, t: Snap, z: nat)
    requires Sound(s) && Fresh(s, t, z)
    ensures Sound(t)
  {
    DataWriteFrame(s.w, s.disk, s.own, z, ZeroBlock);
    OwnedSame(s.w, s.disk, t.disk, s.own);
  }

  lemma FreshKeeps(s: Snap, t: Snap, z: nat, n: nat)
    requires Sound(s) && Fresh(s, t, z) && n in s.w
    ensures Sound(t) && Grows(s, t, n) && Adds(s, t, n, {})
  {
    DataWriteFrame(s.w, s.disk, s.own, z, ZeroBlock);
    OwnedSame(s.w, s.disk, t.disk, s.own);
  }

  lemma OwnedSame(w: World, disk: Disk, disk': Disk, own: Owners)
    requires Owned(w, disk, own) && disk'.Keys == disk.Keys
    requires forall n, p {:trigger Target(w[n], disk', p)} | n in w :: Target(w[n], disk', p) == Target(w[n], disk, p)
    ensures Owned(w, disk', own)
  {
  }

  /** Position p of inode n takes zone z, which was waiting in `lost`. */
  ghost predicate Takes(s: Snap, t: Snap, n: nat, p: Ptr, z: nat)
  {
    && z in s.lost
    && Gains(s.w, s.disk, t.w, t.disk, n, p, z)
    && (forall m | m in s.w && m != n :: t.w[m] == s.w[m])
    && t.own == s.own[z := Owner(n, p)] && t.lost == s.lost - {z}
    && (forall y | y in s.own && y in s.disk && !(s.own[y].inode == n && s.own[y].ptr.IsTable()) :: t.disk[y] == s.disk[y])
  }

  lemma TakesKeeps(s: Snap, t: Snap, n: nat, p: Ptr, z: nat)
    requires Sound(s) && Takes(s, t, n, p, z)
    ensures Sound(t) && Grows(s, t, n) && Adds(s, t, n, {p})
    ensures Target(t.w[n], t.disk, p) == z
    ensures |t.own| + |t.lost| == |s.own| + |s.lost|
  {
    Attach(s.w, s.disk, s.own, t.w, t.disk, n, p, z);
    TakenCount(s.own, s.lost, n, p, z);
  }

  lemma TakenCount(own: Owners, lost: set<nat>, n: nat, p: Ptr, z: nat)
    requires own.Keys !! lost && z in lost
    ensures |own[z := Owner(n, p)]| + |lost - {z}| == |own| + |lost|
    ensures own[z := Owner(n, p)].Keys == own.Keys + {z}
  {
    var own' := own[z := Owner(n, p)];
    assert own'.Keys == own.Keys + {z};
    assert |own'| == |own'.Keys| && |own| == |own.Keys|;
  }

  /** Setting a direct pointer. */
  lemma TakeDirect(s: Snap, n: nat, i: DirectIndex, z: U16)
    requires Sound(s) && n in s.w && z in s.lost && s.w[n].direct[i] == 0
    ensures var ino := WithDirect(s.w[n], i, z);
      Takes(s, Snap(s.w[n := ino], s.disk, s.own[z := Owner(n, Direct(i))], s.lost - {z}), n, Direct(i), z)
  {
  }

  lemma ZeroEntries(k: EntryIndex)
    ensures Entry(ZeroBlock, k) == 0
  {
  }

  /** Setting a root pointer to a zeroed table. */
  lemma TakeRoot(s: Snap, n: nat, p: Ptr, z: U16)
    requires Sound(s) && n in s.w && z in s.lost && s.disk[z] == ZeroBlock
    requires p.Single? || p.Double?
    requires Target(s.w[n], s.disk, p) == 0
    ensures var ino := WithRoot(s.w[n], p, z);
      Takes(s, Snap(s.w[n := ino], s.disk, s.own[z := Owner(n, p)], s.lost - {z}), n, p, z)
  {
    var ino := WithRoot(s.w[n], p, z);
    forall q ensures Target(ino, s.disk, q) == if q == p then z else Target(s.w[n], s.disk, q) {
      if q.SingleAt? { ZeroEntries(q.k); }
      if q.Outer? || q.Inner? { ZeroEntries(q.j); }
    }
  }

  /** The position that entry k of a table position stands for. */
  function Child(p: Ptr, k: EntryIndex): Ptr
    requires p.IsTable()
  {
    match p
    case Single => SingleAt(k)
    case Double => Outer(k)
    case Outer(j) => Inner(j, k)
  }

  /** b with entry k set to z and all other entries as they were. */
  ghost predicate EntrySet(b: Block, b': Block, k: EntryIndex, z: nat)
  {
    forall i: EntryIndex {:trigger Entry(b', i)} {:trigger Entry(b, i)} :: Entry(b', i) == if i == k then z else Entry(b, i)
  }

  lemma TableTarget(s: Snap, n: nat, p: Ptr, t: nat, k: EntryIndex)
    requires Sound(s) && n in s.w && p.IsTable() && Target(s.w[n], s.disk, p) == t != 0
    ensures t in s.own && t in s.disk && s.own[t] == Owner(n, p)
    ensures Target(s.w[n], s.disk, Child(p, k)) == Entry(s.disk[t], k)
  {
    OwnerOf(s.w, s.disk, s.own, n, p);
  }

  /** The targets of the written inode after one entry of one of its tables changed. */
  lemma EntryTargets(s: Snap, n: nat, p: Ptr, t: nat, b: Block, k: EntryIndex, z: nat, q: Ptr)
    requires Sound(s) && n in s.w && p.IsTable() && Target(s.w[n], s.disk, p) == t != 0
    requires t in s.disk && EntrySet(s.disk[t], b, k, z)
    requires z in s.lost && (p.Double? ==> s.disk[z] == ZeroBlock)
    requires Target(s.w[n], s.disk, Child(p, k)) == 0
    requires Under(q, p)
    ensures Target(s.w[n], s.disk[t := b], q) == if q == Child(p, k) then z else Target(s.w[n], s.disk, q)
  {
    TableTarget(s, n, p, t, k);
    OwnerOf(s.w, s.disk, s.own, n, Double);
    if q.Inner? {
      OwnerOf(s.w, s.disk, s.own, n, Outer(q.j));
      ZeroEntries(q.k);
      assert Entry(s.disk[t], q.j) == Entry(b, q.j) || p != Double || q.j == k;
    }
  }

  /** Setting one entry of a table. */
  lemma TakeEntry(s: Snap, n: nat, p: Ptr, t: nat, b: Block, k: EntryIndex, z: nat)
    requires Sound(s) && n in s.w && p.IsTable() && Target(s.w[n], s.disk, p) == t != 0
    requires t in s.disk && EntrySet(s.disk[t], b, k, z)
    requires z in s.lost && (p.Double? ==> s.disk[z] == ZeroBlock)
    requires Target(s.w[n], s.disk, Child(p, k)) == 0
    ensures Takes(s, Snap(s.w, s.disk[t := b], s.own[z := Owner(n, Child(p, k))], s.lost - {z}),
                  n, Child(p, k), z)
  {
    TableTarget(s, n, p, t, k);
    TableWriteFrame(s.w, s.disk, s.own, t, b, n, p);
    forall q {:trigger Target(s.w[n], s.disk[t := b], q)}
      ensures Target(s.w[n], s.disk[t := b], q) == if q == Child(p, k) then z else Target(s.w[n], s.disk, q)
    {
      if Under(q, p) { EntryTargets(s, n, p, t, b, k, z, q); }
    }
  }

  // ----- which positions a logical block needs -----

  /** The positions on the way to logical block b, tables included. */
  function Path(b: nat): set<Ptr>
    requires b < MAX_LOGICAL_BLOCKS
  {
    var p := LogicalPtr(b);
    match p
    case Direct(_) => {p}
    case SingleAt(_) => {Single, p}
    case Inner(j, _) => {Double, Outer(j), p}
  }

  /** How many zones the path to block b still lacks. */
  function PathCost(ino: DiskInode, disk: Disk, b: nat): nat
    requires b < MAX_LOGICAL_BLOCKS
  {
    var p := LogicalPtr(b);
    match p
    case Direct(_) => 0
    case SingleAt(_) => if ino.single == 0 then 1 else 0
    case Inner(j, _) => (if ino.double == 0 then 1 else 0) + if Target(ino, disk, Outer(j)) == 0 then 1 else 0
  }

  /** The pointers of an inode whose first b logical blocks were written in order:
      those blocks and exactly the tables they need. */
  ghost predicate FilledTo(ino: DiskInode, disk: Disk, b: nat)
  {
    && (forall i: nat | i < MAX_LOGICAL_BLOCKS :: ZoneAt(ino, disk, i) != 0 <==> i < b)
    && (ino.single != 0 <==> b > 7)
    && (ino.double != 0 <==> b > 519)
    && (forall j: EntryIndex :: Target(ino, disk, Outer(j)) != 0 <==> 519 + 512 * j < b)
  }

  /** The zones that b blocks written in order take, tables included. */
  function ZoneCost(b: nat): nat
  {
    b + (if b > 7 then 1 else 0) + if b > 519 then 1 + (b - 519 + 511) / 512 else 0
  }

  lemma ZoneCostStep(ino: DiskInode, disk: Disk, b: nat)
    requires b < MAX_LOGICAL_BLOCKS && FilledTo(ino, disk, b)
    ensures ZoneCost(b + 1) == ZoneCost(b) + 1 + PathCost(ino, disk, b)
  {
    if b >= 519 {
      var j := (b - 519) / 512;
      assert Target(ino, disk, Outer(j)) != 0 <==> 519 + 512 * j < b;
    }
  }

  /** The zones lost by a write for which so many zones do not suffice: none if they are the
      price of a whole number of blocks, and else the one taken last, whose table was not to
      be had. */
  ghost function Stranded(zones: nat): nat { if exists b: nat :: ZoneCost(b) == zones then 0 else 1 }

  /** ... which settles the numbers in question. */
  lemma StrandedCounts(zones: nat)
    ensures Stranded(zones) == 1 <==> zones == 8 || zones == 521 || (zones >= 522 && (zones - 522) % 513 == 0)
  {
    if zones <= 7 {
      assert ZoneCost(zones) == zones;
    } else if 8 < zones <= 520 {
      assert ZoneCost(zones - 1) == zones;
    } else if zones > 522 && (zones - 522) % 513 != 0 {
      var q, r := (zones - 522) / 513, (zones - 522) % 513;
      assert (512 * q + r + 511) / 512 == q + 1;
      assert ZoneCost(519 + 512 * q + r) == zones;
    } else if zones >= 522 {
      forall b: nat ensures ZoneCost(b) != zones {
        PriceRemainder(b, (zones - 522) / 513);
      }
    }
  }

  lemma PriceRemainder(b: nat, q: nat)
    ensures ZoneCost(b) != 522 + 513 * q
  {
    if b > 519 {
      var m := b - 520;
      assert (m + 512) / 512 == m / 512 + 1;
      assert ZoneCost(b) == 523 + m + m / 512;
      if m / 512 < q { assert m < 512 * q; } else { assert m >= 512 * (m / 512) >= 512 * q; }
    }
  }

  /** Writing stops at the block that the zones cover only in part. */
  lemma StrandedAt(b: nat, zones: nat)
    requires ZoneCost(b) <= zones < ZoneCost(b + 1)
    ensures Stranded(zones) == if zones == ZoneCost(b) then 0 else 1
  {
    hide ZoneCost;
    if c: nat :| ZoneCost(c) == zones && c != b {
      if c < b { ZoneCostMonotone(c, b); } else { ZoneCostMonotone(b + 1, c); }
    }
  }

  lemma {:induction false} ZoneCostMonotone(a: nat, b: nat)
    requires a <= b
    ensures ZoneCost(a) + (b - a) <= ZoneCost(b)
  {
  }

  lemma EmptyIsFilledToZero(ino: DiskInode, disk: Disk)
    requires ino.direct == ZeroInode.direct && ino.single == 0 && ino.double == 0
    ensures FilledTo(ino, disk, 0)
  {
    forall i: nat | i < MAX_LOGICAL_BLOCKS ensures ZoneAt(ino, disk, i) == 0 {
      if i < 7 { assert ZeroInode.direct[i] == 0; }
    }
  }

  /** Adding the path to block b fills one block more. */
  lemma FilledStep(s: Snap, t: Snap, n: nat, b: nat)
    requires n in s.w && n in t.w && b < MAX_LOGICAL_BLOCKS
    requires FilledTo(s.w[n], s.disk, b) && Adds(s, t, n, Path(b))
    ensures FilledTo(t.w[n], t.disk, b + 1)
  {
    forall i: nat | i < MAX_LOGICAL_BLOCKS ensures ZoneAt(t.w[n], t.disk, i) != 0 <==> i < b + 1 {
      LogicalPtrInjective(i, b);
      assert ZoneAt(s.w[n], s.disk, i) != 0 <==> i < b;
    }
    assert Target(s.w[n], s.disk, Single) == s.w[n].single && Target(t.w[n], t.disk, Single) == t.w[n].single;
    assert Target(s.w[n], s.disk, Double) == s.w[n].double && Target(t.w[n], t.disk, Double) == t.w[n].double;
    forall j: EntryIndex ensures Target(t.w[n], t.disk, Outer(j)) != 0 <==> 519 + 512 * j < b + 1 {
      assert Target(s.w[n], s.disk, Outer(j)) != 0 <==> 519 + 512 * j < b;
    }
  }

  // ----- compositions used by the allocation of tables -----

  lemma AddsPresent(s: Snap, n: nat, p: Ptr)
    requires n in s.w && Target(s.w[n], s.disk, p) != 0
    ensures Adds(s, s, n, {p})
  {
  }

  lemma OwnsRoot(s: Snap, n: nat, p: Ptr)
    requires Sound(s) && n in s.w && Target(s.w[n], s.disk, p) != 0
    ensures Target(s.w[n], s.disk, p) in s.disk
  {
    OwnerOf(s.w, s.disk, s.own, n, p);
    OwnerPoints(s.w, s.disk, s.own, Target(s.w[n], s.disk, p));
  }

  /** What a freshly allocated zone offers to the position that takes it. */
  lemma FreshTaken(s: Snap, t: Snap, z: nat, n: nat)
    requires Sound(s) && Fresh(s, t, z) && n in s.w
    ensures t.w == s.w && z in t.lost && z in t.disk && t.disk[z] == ZeroBlock
    ensures t.own == s.own && t.lost == s.lost + {z} && z !in s.lost
    ensures Grows(s, t, n) && Adds(s, t, n, {})
    ensures forall p :: Target(t.w[n], t.disk, p) == Target(s.w[n], s.disk, p)
  {
    FreshKeeps(s, t, z, n);
    DataWriteFrame(s.w, s.disk, s.own, z, ZeroBlock);
  }

  /** A fresh zone taken by position p: the tree gained p, and nothing is lost. */
  lemma TakenAfterFresh(s: Snap, t: Snap, u: Snap, n: nat, p: Ptr, z: nat)
    requires Sound(s) && Fresh(s, t, z) && n in s.w && Takes(t, u, n, p, z)
    ensures Grows(s, u, n) && Adds(s, u, n, {p}) && Target(u.w[n], u.disk, p) == z != 0
    ensures u.lost == s.lost
  {
    hide Grows, Adds, Sound, Gains, Target, Takes, Fresh;
    FreshSound(s, t, z);
    FreshKeeps(s, t, z, n);
    FreshTaken(s, t, z, n);
    TakenLost(t, u, n, p, z);
    TakesKeeps(t, u, n, p, z);
    GrowsTrans(s, t, u, n);
    AddsTrans(s, t, u, n, {}, {p});
    assert {} + {p} == {p};
    assert s.lost + {z} - {z} == s.lost;
  }

  lemma TakenLost(t: Snap, u: Snap, n: nat, p: Ptr, z: nat)
    requires Takes(t, u, n, p, z)
    ensures u.lost == t.lost - {z}
  {
  }

  /** A position that was empty and is not among the added ones is still empty. */
  lemma AddsStays(s: Snap, t: Snap, n: nat, more: set<Ptr>, p: Ptr)
    requires Adds(s, t, n, more) && Target(s.w[n], s.disk, p) == 0 && p !in more
    ensures Target(t.w[n], t.disk, p) == 0
  {
  }

  /** The last step of attaching a data zone: its own position takes it. */
  lemma LastStep(s: Snap, t: Snap, u: Snap, n: nat, more: set<Ptr>, p: Ptr, z: nat)
    requires Grows(s, t, n) && Adds(s, t, n, more) && t.lost == s.lost
    requires Sound(t) && Takes(t, u, n, p, z)
    ensures Grows(s, u, n) && Adds(s, u, n, more + {p})
    ensures u.lost == s.lost - {z} && Target(u.w[n], u.disk, p) == z
  {
    TakesKeeps(t, u, n, p, z);
    GrowsTrans(s, t, u, n);
    AddsTrans(s, t, u, n, more, {p});
  }

  // ----- releasing -----

  lemma DropDirect(w: World, disk: Disk, n: nat, i: DirectIndex)
    requires n in w
    ensures Loses(w, disk, w[n := WithDirect(w[n], i, 0)], n, DirectPart(i))
  {
  }

  lemma DropRoot(w: World, disk: Disk, n: nat, p: Ptr)
    requires n in w && (p.Single? || p.Double?)
    ensures Loses(w, disk, w[n := WithRoot(w[n], p, 0)], n, if p.Single? then SinglePart else DoublePart)
  {
  }

  lemma DirectPartZone(s: Snap, n: nat, i: DirectIndex)
    requires Sound(s) && n in s.w
    ensures PartZones(s.own, n, DirectPart(i)) <= s.own.Keys
    ensures PartZones(s.own, n, DirectPart(i)) == if s.w[n].direct[i] == 0 then {} else {s.w[n].direct[i] as nat}
  {
    OwnerOf(s.w, s.disk, s.own, n, Direct(i));
    forall z | z in PartZones(s.own, n, DirectPart(i)) ensures z == s.w[n].direct[i] && z != 0 {
      OwnerPoints(s.w, s.disk, s.own, z);
    }
  }

  /** An absent root has no zones under it. */
  lemma NoRootNoZones(s: Snap, n: nat, p: Ptr)
    requires Sound(s) && n in s.w && (p.Single? || p.Double?) && Target(s.w[n], s.disk, p) == 0
    ensures PartZones(s.own, n, if p.Single? then SinglePart else DoublePart) == {}
  {
    var part := if p.Single? then SinglePart else DoublePart;
    forall z | z in PartZones(s.own, n, part) ensures false {
      OwnerPoints(s.w, s.disk, s.own, z);
    }
  }

  /** The entries of a table are distinct, none of them is 0 twice over, and none is
      the table itself or its parent. */
  ghost predicate Distinct(t: seq<nat>)
  {
    forall i, j | 0 <= i < j < |t| && t[i] != 0 :: t[i] != t[j]
  }

  lemma TableDistinct(s: Snap, n: nat, p: Ptr, t: seq<nat>)
    requires Sound(s) && n in s.w && p.IsTable() && Target(s.w[n], s.disk, p) != 0
    requires |t| == INDIRECT_ENTRY_COUNT
    requires forall k: EntryIndex :: t[k] == EntryOf(s.disk, Target(s.w[n], s.disk, p), k)
    ensures Distinct(t)
    ensures Target(s.w[n], s.disk, p) !in Listed(t, |t|)
  {
    OwnerOf(s.w, s.disk, s.own, n, p);
    forall k: EntryIndex | t[k] != 0 ensures t[k] in s.own && s.own[t[k]] == Owner(n, Child(p, k)) {
      TableTarget(s, n, p, Target(s.w[n], s.disk, p), k);
      OwnerOf(s.w, s.disk, s.own, n, Child(p, k));
    }
  }

  lemma DisjointSize(a: set<nat>, b: set<nat>)
    requires a !! b
    ensures |a + b| == |a| + |b|
  {
  }

  lemma ListedStep(t: seq<nat>, k: nat)
    requires k < |t| && Distinct(t)
    ensures Listed(t, k + 1) == if t[k] == 0 then Listed(t, k) else Listed(t, k) + {t[k]}
    ensures t[k] !in Listed(t, k)
    ensures Listed(t, k) <= Listed(t, |t|)
    ensures t[k] != 0 ==> t[k] in Listed(t, |t|)
  {
  }

  /** What is to be freed once the single-indirect root is dropped. */
  lemma SingleRelease(s: Snap, n: nat, t: seq<nat>)
    requires Sound(s) && n in s.w && s.w[n].single != 0 && |t| == INDIRECT_ENTRY_COUNT
    requires forall k: EntryIndex :: t[k] == EntryOf(s.disk, s.w[n].single, k)
    ensures Distinct(t) && s.w[n].single !in Listed(t, |t|)
    ensures PartZones(s.own, n, SinglePart) == Listed(t, |t|) + {s.w[n].single as nat}
    ensures PartZones(s.own, n, SinglePart) !! s.lost
  {
    assert Target(s.w[n], s.disk, Single) == s.w[n].single;
    TableDistinct(s, n, Single, t);
    SinglePartZones(s.w, s.disk, s.own, n, t);
  }

  /** What is to be freed for outer entry j once the double-indirect root is dropped. */
  lemma BranchRelease(s: Snap, n: nat, j: EntryIndex, t: seq<nat>)
    requires Sound(s) && n in s.w && Target(s.w[n], s.disk, Outer(j)) != 0 && |t| == INDIRECT_ENTRY_COUNT
    requires forall k: EntryIndex :: t[k] == EntryOf(s.disk, Target(s.w[n], s.disk, Outer(j)), k)
    ensures Distinct(t) && Target(s.w[n], s.disk, Outer(j)) !in Listed(t, |t|)
    ensures BranchZones(s.own, n, j) == Listed(t, |t|) + {Target(s.w[n], s.disk, Outer(j))}
  {
    TableDistinct(s, n, Outer(j), t);
    BranchListed(s.w, s.disk, s.own, n, j, t);
  }

  lemma BranchesGrow(own: Owners, n: nat, j: nat)
    ensures BranchesBelow(own, n, j + 1) == BranchesBelow(own, n, j) + BranchZones(own, n, j)
    ensures BranchesBelow(own, n, j) !! BranchZones(own, n, j)
    ensures |BranchesBelow(own, n, j + 1)| == |BranchesBelow(own, n, j)| + |BranchZones(own, n, j)|
    ensures j < INDIRECT_ENTRY_COUNT ==> BranchZones(own, n, j) <= BranchesBelow(own, n, INDIRECT_ENTRY_COUNT)
  {
    BranchesStep(own, n, j);
    DisjointSize(BranchesBelow(own, n, j), BranchZones(own, n, j));
  }

  lemma DoubleRelease(s: Snap, n: nat)
    requires Sound(s) && n in s.w && s.w[n].double != 0
    ensures PartZones(s.own, n, DoublePart) == BranchesBelow(s.own, n, INDIRECT_ENTRY_COUNT) + {s.w[n].double as nat}
    ensures s.w[n].double !in BranchesBelow(s.own, n, INDIRECT_ENTRY_COUNT)
    ensures PartZones(s.own, n, DoublePart) !! s.lost
  {
    DoublePartZones(s.w, s.disk, s.own, n);
    OwnerOf(s.w, s.disk, s.own, n, Double);
  }

  lemma NoBranch(s: Snap, n: nat, j: EntryIndex)
    requires Sound(s) && n in s.w && Target(s.w[n], s.disk, Outer(j)) == 0
    ensures BranchZones(s.own, n, j) == {}
  {
    BranchEmpty(s.w, s.disk, s.own, n, j);
  }

  lemma OuterTargets(ino: DiskInode, disk: Disk, t: seq<nat>)
    requires |t| == INDIRECT_ENTRY_COUNT
    requires forall j: EntryIndex :: t[j] == EntryOf(disk, ino.double, j)
    ensures forall j: EntryIndex :: t[j] == Target(ino, disk, Outer(j))
  {
  }

  // ----- contents -----

  /** Block i of the data, padded with zeros. */
  function Chunk(data: Bytes, i: nat): Block
    requires i < DataBlocks(|data|)
  {
    var start := i * BLOCK_SIZE;
    var end := Min(|data|, start + BLOCK_SIZE);
    data[start..end] + Zeros(BLOCK_SIZE - (end - start))
  }

  /** The first b blocks of the data are in place. */
  ghost predicate Stored(ino: DiskInode, disk: Disk, data: Bytes, b: nat)
    requires b <= DataBlocks(|data|)
  {
    forall i: nat | i < b :: ZoneAt(ino, disk, i) in disk && disk[ZoneAt(ino, disk, i)] == Chunk(data, i)
  }

  /** With every block in place and the size set, the contents are the data. */
  lemma StoredContents(ino: DiskInode, disk: Disk, data: Bytes)
    requires |data| < 0x1_0000_0000
    requires Stored(ino, disk, data, DataBlocks(|data|))
    requires FilledTo(ino, disk, DataBlocks(|data|)) && DataBlocks(|data|) <= MAX_LOGICAL_BLOCKS
    ensures Contents(ino.(size := |data|), disk) == data
  {
    var done := ino.(size := |data|);
    forall pos | 0 <= pos < |data| ensures ByteAt(done, disk, pos) == data[pos] {
      var i := pos / BLOCK_SIZE;
      assert ZoneAt(done, disk, i) == ZoneAt(ino, disk, i);
      assert ZoneAt(ino, disk, i) in disk && disk[ZoneAt(ino, disk, i)] == Chunk(data, i);
      assert ZoneAt(ino, disk, i) != 0;
      ChunkByte(data, pos);
    }
  }

  /** Bytes past the size read as zero. */
  ghost predicate PastZero(ino: DiskInode, disk: Disk)
  {
    forall pos: nat | pos >= ino.size :: ByteAt(ino, disk, pos) == 0
  }

  /** What a file written block by block leaves past its end are the zeros of the last block. */
  lemma StoredPastZero(ino: DiskInode, disk: Disk, data: Bytes, mtime: U32)
    requires |data| < 0x1_0000_0000
    requires DataBlocks(|data|) <= MAX_LOGICAL_BLOCKS
    requires FilledTo(ino, disk, DataBlocks(|data|)) && Stored(ino, disk, data, DataBlocks(|data|))
    ensures PastZero(ino.(size := |data|, mtime := mtime), disk)
  {
    var done := ino.(size := |data|, mtime := mtime);
    forall pos: nat | pos >= done.size ensures ByteAt(done, disk, pos) == 0 {
      var i := pos / BLOCK_SIZE;
      assert ZoneAt(done, disk, i) == ZoneAt(ino, disk, i);
      if i < DataBlocks(|data|) {
        assert disk[ZoneAt(ino, disk, i)] == Chunk(data, i);
      }
    }
  }

  lemma ChunkByte(data: Bytes, pos: nat)
    requires pos < |data|
    ensures pos / BLOCK_SIZE < DataBlocks(|data|)
    ensures Chunk(data, pos / BLOCK_SIZE)[pos % BLOCK_SIZE] == data[pos]
  {
  }

  /** A snapshot with one more data block written. */
  function Written(s: Snap, z: nat, b: Block): Snap
  {
    Snap(s.w, s.disk[z := b], s.own, s.lost)
  }

  /** Filling the block of a zone that was not attached in s keeps all of s. */
  lemma GrowsWrite(s: Snap, t: Snap, n: nat, z: nat, b: Block)
    requires Sound(t) && Grows(s, t, n) && z in t.disk && z !in s.own
    requires z in t.own ==> !t.own[z].ptr.IsTable()
    ensures Grows(s, Written(t, z, b), n)
    ensures n in t.w && Adds(t, Written(t, z, b), n, {})
    ensures forall p {:trigger Target(t.w[n], t.disk[z := b], p)} :: Target(t.w[n], t.disk[z := b], p) == Target(t.w[n], t.disk, p)
  {
    DataWriteFrame(t.w, t.disk, t.own, z, b);
    var u := Written(t, z, b);
    forall m, p {:trigger Target(u.w[m], u.disk, p)} | m in t.w
      ensures Target(u.w[m], u.disk, p) == Target(t.w[m], t.disk, p)
    {
    }
    GrowsSameTargets(s, t, u, n);
  }

  lemma GrowsSameTargets(s: Snap, t: Snap, u: Snap, n: nat)
    requires Grows(s, t, n) && u.w == t.w && u.own == t.own && u.disk.Keys == t.disk.Keys
    requires forall m, p {:trigger Target(u.w[m], u.disk, p)} | m in t.w :: Target(u.w[m], u.disk, p) == Target(t.w[m], t.disk, p)
    requires forall y | y in s.own && y in s.disk :: u.disk[y] == t.disk[y]
    ensures Grows(s, u, n)
  {
  }

  /** Blocks stored before stay stored while the tree grows. */
  lemma StoredKept(s: Snap, t: Snap, n: nat, data: Bytes, b: nat)
    requires Sound(s) && Grows(s, t, n) && n in t.w && b < DataBlocks(|data|) && b < MAX_LOGICAL_BLOCKS
    requires FilledTo(s.w[n], s.disk, b) && Stored(s.w[n], s.disk, data, b)
    requires ZoneAt(t.w[n], t.disk, b) in t.disk && t.disk[ZoneAt(t.w[n], t.disk, b)] == Chunk(data, b)
    ensures Stored(t.w[n], t.disk, data, b + 1)
  {
    forall i: nat | i < b
      ensures ZoneAt(t.w[n], t.disk, i) in t.disk && t.disk[ZoneAt(t.w[n], t.disk, i)] == Chunk(data, i)
    {
      StoredBlockKept(s, t, n, i);
    }
  }

  lemma StoredBlockKept(s: Snap, t: Snap, n: nat, i: nat)
    requires Sound(s) && Grows(s, t, n) && n in t.w && i < MAX_LOGICAL_BLOCKS
    requires ZoneAt(s.w[n], s.disk, i) != 0
    ensures ZoneAt(t.w[n], t.disk, i) == ZoneAt(s.w[n], s.disk, i)
    ensures ZoneAt(s.w[n], s.disk, i) in s.disk && ZoneAt(s.w[n], s.disk, i) in t.disk
    ensures t.disk[ZoneAt(s.w[n], s.disk, i)] == s.disk[ZoneAt(s.w[n], s.disk, i)]
  {
    var p := LogicalPtr(i);
    LogicalPtrInjective(i, i);
    OwnerOf(s.w, s.disk, s.own, n, p);
    OwnerPoints(s.w, s.disk, s.own, Target(s.w[n], s.disk, p));
  }

  /** All inodes but n own what they owned. */
  ghost predicate OwnersKept(own: Owners, own': Owners, n: nat)
  {
    forall m: nat | m != n :: InodeZones(own', m) == InodeZones(own, m)
  }

  /** Growing adds zones to inode n alone; a tree built from nothing owns what was used. */
  lemma GrowsOwners(s: Snap, t: Snap, n: nat)
    requires Grows(s, t, n)
    ensures OwnersKept(s.own, t.own, n)
    ensures InodeZones(s.own, n) == {} ==> |t.own| == |s.own| + |InodeZones(t.own, n)|
    ensures |t.disk| == |s.disk|
  {
    SameSize(s.disk, t.disk);
    if InodeZones(s.own, n) == {} {
      GrewFromNothing(s.own, t.own, n);
    }
  }

  lemma OwnersTrans(own: Owners, own': Owners, own'': Owners, n: nat)
    requires OwnersKept(own, own', n) && OwnersKept(own', own'', n)
    ensures OwnersKept(own, own'', n)
  {
  }

  lemma SameSize(a: Disk, b: Disk)
    requires a.Keys == b.Keys
    ensures |a| == |b|
  {
    assert |a| == |a.Keys| && |b| == |b.Keys|;
  }

  lemma GrewFromNothing(own: Owners, own': Owners, n: nat)
    requires InodeZones(own, n) == {}
    requires forall y | y in own :: y in own' && own'[y] == own[y]
    requires forall y | y in own' :: y in own || own'[y].inode == n
    ensures |own'| == |own| + |InodeZones(own', n)|
  {
    forall y | y in own ensures y !in InodeZones(own', n) {
      assert y !in InodeZones(own, n);
    }
    assert own'.Keys == own.Keys + InodeZones(own', n);
    DisjointSize(own.Keys, InodeZones(own', n));
    assert |own'| == |own'.Keys| && |own| == |own.Keys|;
  }

  /** Every other inode reads the same while inode n's tree grows. */
  ghost predicate OthersKept(s: Snap, t: Snap, n: nat)
  {
    && s.w.Keys == t.w.Keys
    && forall m | m in s.w && m != n :: t.w[m] == s.w[m] && Contents(t.w[m], t.disk) == Contents(s.w[m], s.disk)
  }

  lemma GrowsKeepsOthers(s: Snap, t: Snap, n: nat)
    requires Sound(s) && Grows(s, t, n)
    ensures OthersKept(s, t, n)
  {
    forall m | m in s.w && m != n
      ensures Contents(t.w[m], t.disk) == Contents(s.w[m], s.disk)
    {
      OtherKept(s, t, n, m);
    }
  }

  lemma OtherKept(s: Snap, t: Snap, n: nat, m: nat)
    requires Sound(s) && Grows(s, t, n) && m in s.w && m != n
    ensures t.w[m] == s.w[m] && Contents(t.w[m], t.disk) == Contents(s.w[m], s.disk)
  {
    var ino := s.w[m];
    forall b: nat
      ensures ZoneAt(ino, t.disk, b) == ZoneAt(ino, s.disk, b)
      ensures ZoneAt(ino, s.disk, b) in s.disk && ZoneAt(ino, s.disk, b) != 0 ==>
                t.disk[ZoneAt(ino, s.disk, b)] == s.disk[ZoneAt(ino, s.disk, b)]
    {
      if b < MAX_LOGICAL_BLOCKS {
        var p := LogicalPtr(b);
        assert Target(t.w[m], t.disk, p) == Target(s.w[m], s.disk, p);
        OwnerOf(s.w, s.disk, s.own, m, p);
      }
    }
    ContentsSame(ino, s.disk, t.disk);
  }

  /** Contents depend only on the zones behind the logical blocks and their bytes. */
  lemma ContentsSame(ino: DiskInode, disk: Disk, disk': Disk)
    requires disk'.Keys == disk.Keys
    requires forall b: nat {:trigger ZoneAt(ino, disk', b)} :: ZoneAt(ino, disk', b) == ZoneAt(ino, disk, b)
    requires forall b: nat {:trigger ZoneAt(ino, disk, b)} ::
        ZoneAt(ino, disk, b) in disk && ZoneAt(ino, disk, b) != 0 ==> disk'[ZoneAt(ino, disk, b)] == disk[ZoneAt(ino, disk, b)]
    ensures Contents(ino, disk') == Contents(ino, disk)
  {
    forall pos | 0 <= pos < ino.size ensures ByteAt(ino, disk', pos) == ByteAt(ino, disk, pos) {
      assert ZoneAt(ino, disk', pos / BLOCK_SIZE) == ZoneAt(ino, disk, pos / BLOCK_SIZE);
    }
  }

  /** One more logical block allocated (s to t), attached (t to u) and written. */
  lemma BlockWritten(s: Snap, t: Snap, u: Snap, n: nat, data: Bytes, b: nat, z: nat)
    requires Sound(s) && n in s.w && Fresh(s, t, z)
    requires Sound(u) && Grows(t, u, n) && b < MAX_LOGICAL_BLOCKS && Adds(t, u, n, Path(b))
    requires ZoneAt(u.w[n], u.disk, b) == z && b < DataBlocks(|data|)
    requires FilledTo(s.w[n], s.disk, b) && Stored(s.w[n], s.disk, data, b)
    ensures z in u.disk && (z in u.own ==> !u.own[z].ptr.IsTable())
    ensures var v := Written(u, z, Chunk(data, b));
      && Grows(s, v, n)
      && FilledTo(v.w[n], v.disk, b + 1) && Stored(v.w[n], v.disk, data, b + 1)
  {
    hide Grows, Adds, Sound, FilledTo, Stored, Path, Gains;
    FreshKeeps(s, t, z, n);
    GrowsTrans(s, t, u, n);
    LogicalPtrInjective(b, b);
    OwnsData(u, n, LogicalPtr(b));
    var v := Written(u, z, Chunk(data, b));
    GrowsWrite(s, u, n, z, Chunk(data, b));
    AddsTrans(s, t, u, n, {}, Path(b));
    AddsTrans(s, u, v, n, {} + Path(b), {});
    assert {} + Path(b) + {} == Path(b);
    FilledStep(s, v, n, b);
    StoredKept(s, v, n, data, b);
  }

  lemma OwnsData(s: Snap, n: nat, p: Ptr)
    requires Sound(s) && n in s.w && !p.IsTable() && Target(s.w[n], s.disk, p) != 0
    ensures var z := Target(s.w[n], s.disk, p); z in s.disk && z in s.own && !s.own[z].ptr.IsTable()
  {
    OwnerOf(s.w, s.disk, s.own, n, p);
    OwnerPoints(s.w, s.disk, s.own, Target(s.w[n], s.disk, p));
  }
}
