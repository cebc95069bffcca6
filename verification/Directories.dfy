/** Directories as their entry arrays, and the tree that an image's records hold. */
module Directories {
  import opened Wrappers
  import opened Layout
  import opened ZoneTree
  import opened ZoneSteps
  import NS = Namespace

  type Entries = seq<DirEntry>

  /** No two live entries share a name. */
  ghost predicate Unique(es: Entries)
  {
    forall i, j | 0 <= i < j < |es| && es[i].inode != 0 && es[j].inode != 0 :: EntryName(es[i]) != EntryName(es[j])
  }

  /** Slot k holds the live entry of that name. */
  ghost predicate At(es: Entries, k: nat, a: Name)
  {
    k < |es| && es[k].inode != 0 && EntryName(es[k]) == a
  }

  lemma AtOnce(es: Entries, j: nat, k: nat, a: Name)
    requires Unique(es) && At(es, j, a) && At(es, k, a)
    ensures j == k
  {
  }

  ghost function SlotOf(es: Entries, a: Name): (k: nat)
    requires exists k: nat :: At(es, k, a)
    ensures At(es, k, a)
  {
    var k: nat :| At(es, k, a);
    k
  }

  ghost predicate Named(es: Entries, a: Name) { exists k: nat :: At(es, k, a) }

  ghost function LiveNames(es: Entries): (s: set<Name>)
    ensures forall a: Name :: a in s <==> Named(es, a)
  {
    var s := set k: nat | k < |es| && At(es, k, EntryName(es[k])) :: EntryName(es[k]);
    assert forall k: nat, a: Name {:trigger At(es, k, a)} | At(es, k, a) :: At(es, k, EntryName(es[k])) && a in s;
    s
  }

  /** What the live entries name. */
  ghost function NamesOf(es: Entries): (m: map<Name, nat>)
    requires Unique(es)
    ensures forall a: Name :: a in m <==> Named(es, a)
    ensures forall k: nat, a: Name | At(es, k, a) :: a in m && m[a] == es[k].inode
  {
    var m := map a | a in LiveNames(es) :: es[SlotOf(es, a)].inode as nat;
    assert forall k: nat, a: Name | At(es, k, a) :: a in m && m[a] == es[k].inode by {
      forall k: nat, a: Name | At(es, k, a) ensures a in m && m[a] == es[k].inode {
        assert Named(es, a);
        AtOnce(es, k, SlotOf(es, a), a);
      }
    }
    m
  }

  lemma NamesUnique(es: Entries, m: map<Name, nat>)
    requires Unique(es)
    requires forall a: Name :: a in m <==> Named(es, a)
    requires forall k: nat, a: Name | At(es, k, a) :: a in m && m[a] == es[k].inode
    ensures NamesOf(es) == m
  {
    forall a | a in m ensures NamesOf(es)[a] == m[a] {
      var k: nat :| At(es, k, a);
    }
  }

  // ----- changes to an entry array -----

  /** e goes to slot k, or to the end when k is past the last slot. */
  function Put(es: Entries, k: nat, e: DirEntry): Entries
    requires k <= |es|
  {
    if k < |es| then es[k := e] else es + [e]
  }

  lemma PutNames(es: Entries, k: nat, e: DirEntry)
    requires Unique(es) && k <= |es| && (k < |es| ==> es[k].inode == 0)
    requires e.inode != 0 && EntryName(e) !in NamesOf(es)
    ensures Unique(Put(es, k, e)) && NamesOf(Put(es, k, e)) == NamesOf(es)[EntryName(e) := e.inode]
  {
    hide CutAtNul;
    var es' := Put(es, k, e);
    var m := NamesOf(es)[EntryName(e) := e.inode as nat];
    forall j: nat, a: Name ensures At(es', j, a) <==> if j == k then a == EntryName(e) else At(es, j, a) {
    }
    PutUnique(es, k, e);
    forall a: Name ensures a in m <==> Named(es', a) {
      if a == EntryName(e) {
        assert At(es', k, a);
      } else if a in m {
        var j: nat :| At(es, j, a);
        assert At(es', j, a);
      }
    }
    NamesUnique(es', m);
  }

  lemma PutUnique(es: Entries, k: nat, e: DirEntry)
    requires Unique(es) && k <= |es| && (k < |es| ==> es[k].inode == 0)
    requires EntryName(e) !in NamesOf(es)
    ensures Unique(Put(es, k, e))
  {
    hide CutAtNul, NamesOf;
    var es' := Put(es, k, e);
    forall i, j | 0 <= i < j < |es'| && es'[i].inode != 0 && es'[j].inode != 0
      ensures EntryName(es'[i]) != EntryName(es'[j])
    {
      if i == k { assert At(es, j, EntryName(es'[j])); }
      if j == k { assert At(es, i, EntryName(es'[i])); }
    }
  }

  lemma DropNames(es: Entries, k: nat, a: Name)
    requires Unique(es) && At(es, k, a)
    ensures Unique(es[k := EmptyEntry]) && NamesOf(es[k := EmptyEntry]) == NamesOf(es) - {a}
  {
    hide CutAtNul;
    var es' := es[k := EmptyEntry];
    var m := NamesOf(es) - {a};
    forall j: nat, b: Name ensures At(es', j, b) <==> At(es, j, b) && b != a {
      if At(es, j, a) { AtOnce(es, j, k, a); }
    }
    forall b: Name ensures b in m <==> Named(es', b) {
      if b in m {
        var j: nat :| At(es, j, b);
        assert At(es', j, b);
      }
    }
    NamesUnique(es', m);
  }

  lemma TurnNames(es: Entries, k: nat, a: Name, c: U16)
    requires Unique(es) && At(es, k, a) && c != 0
    ensures Unique(es[k := es[k].(inode := c)]) && NamesOf(es[k := es[k].(inode := c)]) == NamesOf(es)[a := c]
  {
    hide CutAtNul;
    var es' := es[k := es[k].(inode := c)];
    var m := NamesOf(es)[a := c as nat];
    forall j: nat, b: Name ensures At(es', j, b) <==> At(es, j, b) {
    }
    forall b: Name ensures b in m <==> Named(es', b) {
      if b in m {
        var j: nat :| At(es, j, b);
        assert At(es', j, b);
      }
    }
    forall j: nat, b: Name | At(es', j, b) ensures b in m && m[b] == es'[j].inode {
      if b == a { AtOnce(es, j, k, a); }
    }
    NamesUnique(es', m);
  }

  // ----- scans -----

  /** The first live entry of that name. */
  method FindName(es: Entries, a: Name) returns (r: Option<nat>)
    ensures r.Some? ==> At(es, r.value, a)
    ensures r.None? ==> forall k: nat :: !At(es, k, a)
  {
    for k := 0 to |es|
      invariant forall j: nat | j < k :: !At(es, j, a)
    {
      if es[k].inode != 0 && EntryName(es[k]) == a {
        return Some(k);
      }
    }
    return None;
  }

  /** The first empty slot, or the length. */
  method FindSlot(es: Entries) returns (k: nat)
    ensures k <= |es| && (k < |es| ==> es[k].inode == 0)
    ensures forall j | 0 <= j < k :: es[j].inode != 0
  {
    k := 0;
    while k < |es| && es[k].inode != 0
      invariant k <= |es|
      invariant forall j | 0 <= j < k :: es[j].inode != 0
    {
      k := k + 1;
    }
  }

  /** Whether only the two dot entries are live. */
  method OnlyDots(es: Entries) returns (r: bool)
    ensures r <==> forall k: nat, a: Name | At(es, k, a) :: a == DOT || a == DOTDOT
  {
    for k := 0 to |es|
      invariant forall j: nat, a: Name | j < k && At(es, j, a) :: a == DOT || a == DOTDOT
    {
      if es[k].inode != 0 {
        var name := EntryName(es[k]);
        if name != DOT && name != DOTDOT {
          assert At(es, k, name);
          return false;
        }
      }
    }
    return true;
  }

  // ----- the tree of an image -----

  predicate DirectoryInode(ino: DiskInode) { FileType(ino.mode) == Some(Directory) }

  /** The bytes of a directory are whole entries with distinct names, within reach. */
  ghost predicate WellFormed(bytes: Bytes)
  {
    && |bytes| % DIRECTORY_ENTRY_SIZE == 0
    && DataBlocks(|bytes|) <= MAX_LOGICAL_BLOCKS
    && Unique(DecodeEntries(bytes))
  }

  ghost function DirNames(bytes: Bytes): map<Name, nat>
  {
    if WellFormed(bytes) then NamesOf(DecodeEntries(bytes)) else map[]
  }

  ghost function NodeOf(ino: DiskInode, disk: Disk): NS.Node
  {
    if DirectoryInode(ino) then NS.Dir(ino.links, DirNames(Contents(ino, disk)))
    else NS.File(ino.links, Contents(ino, disk))
  }

  /** The allocated inodes as a tree. */
  ghost function TreeOf(live: set<nat>, s: Snap): NS.Nodes
  {
    map n | n in live && n in s.w :: NodeOf(s.w[n], s.disk)
  }

  /** Directories decode, the records of unallocated inodes are zero, and there is no
      inode 0. */
  ghost predicate Formed(live: set<nat>, s: Snap)
  {
    && 0 !in live && live <= s.w.Keys
    && (forall n | n in s.w && n !in live :: s.w[n] == ZeroInode)
    && (forall n | n in live && DirectoryInode(s.w[n]) :: WellFormed(Contents(s.w[n], s.disk)))
  }

  /** Inode d owns exactly the zones that its size takes: it has no holes. */
  ghost predicate DenseAt(s: Snap, d: nat)
  {
    d in s.w && |InodeZones(s.own, d)| == ZoneCost(DataBlocks(s.w[d].size))
  }

  /** No directory has holes. */
  ghost predicate DenseDirectories(live: set<nat>, s: Snap)
  {
    forall d: nat | d in live && d in s.w && DirectoryInode(s.w[d]) :: DenseAt(s, d)
  }

  /** When only inode n changed, and is without holes or no directory, none has come. */
  lemma DenseStep(live: set<nat>, s: Snap, t: Snap, n: nat)
    requires DenseDirectories(live, s) && OthersKept(s, t, n) && OwnersKept(s.own, t.own, n)
    requires n in live && n in t.w && DirectoryInode(t.w[n]) ==> DenseAt(t, n)
    ensures DenseDirectories(live, t)
  {
    forall d: nat | d in live && d in t.w && DirectoryInode(t.w[d]) ensures DenseAt(t, d) {
      if d != n { assert DenseAt(s, d); }
    }
  }

  /** An inode number that comes or goes is no directory. */
  lemma DenseNumber(live: set<nat>, live': set<nat>, s: Snap, n: nat)
    requires DenseDirectories(live, s) && live' <= live + {n} && (n in s.w ==> s.w[n] == ZeroInode)
    ensures DenseDirectories(live', s)
  {
    forall d: nat | d in live' && d in s.w && DirectoryInode(s.w[d]) ensures DenseAt(s, d) {
      assert d in live;
    }
  }

  /** Only inode d's record and only its zones changed. */
  ghost predicate OneChanged(w: World, own: Owners, w': World, own': Owners, d: nat)
  {
    d in w && d in w' && w' == w[d := w'[d]] && OwnersKept(own, own', d)
  }

  lemma NothingChanged(w: World, own: Owners, d: nat)
    requires d in w
    ensures OneChanged(w, own, w, own, d)
  {
  }

  lemma TreeAt(live: set<nat>, s: Snap, n: nat)
    requires Formed(live, s) && n in live
    ensures n in s.w && n in TreeOf(live, s) && TreeOf(live, s)[n] == NodeOf(s.w[n], s.disk)
  {
  }

  /** When only inode n changed, only node n changed. */
  lemma TreeStep(live: set<nat>, s: Snap, t: Snap, n: nat)
    requires Formed(live, s) && OthersKept(s, t, n) && n in live
    ensures n in t.w && TreeOf(live, t) == TreeOf(live, s)[n := NodeOf(t.w[n], t.disk)]
  {
    hide Contents, DirNames;
  }

  lemma FormedStep(live: set<nat>, s: Snap, t: Snap, n: nat)
    requires Formed(live, s) && OthersKept(s, t, n) && n in live
    requires n in t.w && (DirectoryInode(t.w[n]) ==> WellFormed(Contents(t.w[n], t.disk)))
    ensures Formed(live, t)
  {
    hide Contents, WellFormed;
  }

  /** A newly allocated number is an empty file without links. */
  lemma NumberTaken(live: set<nat>, s: Snap, n: nat)
    requires Formed(live, s) && n in s.w && n !in live && n != 0
    ensures Formed(live + {n}, s) && s.w[n] == ZeroInode
    ensures TreeOf(live + {n}, s) == TreeOf(live, s)[n := NS.File(0, [])]
    ensures n !in TreeOf(live, s)
  {
    assert Contents(ZeroInode, s.disk) == [];
    hide WellFormed, DirNames;
  }

  /** A number given back takes its node along. */
  lemma NumberFreed(live: set<nat>, s: Snap, t: Snap, n: nat)
    requires Formed(live, s) && OthersKept(s, t, n) && n in t.w && t.w[n] == ZeroInode
    ensures Formed(live - {n}, t)
    ensures TreeOf(live - {n}, t) == TreeOf(live, s) - {n}
  {
    hide Contents, WellFormed, DirNames;
  }

  /** An array of entries as a directory's bytes. */
  lemma EntriesWellFormed(es: Entries)
    requires Unique(es) && DataBlocks(|EncodeEntries(es)|) <= MAX_LOGICAL_BLOCKS
    ensures WellFormed(EncodeEntries(es)) && DirNames(EncodeEntries(es)) == NamesOf(es)
  {
    EntriesRoundTrip(es);
  }

  lemma NoEntriesWellFormed()
    ensures WellFormed([]) && DirNames([]) == map[]
  {
    assert NamesOf([]) == map[];
  }

  lemma NamesFromBytes(bytes: Bytes)
    requires WellFormed(bytes)
    ensures Unique(DecodeEntries(bytes)) && DirNames(bytes) == NamesOf(DecodeEntries(bytes))
  {
  }

  /** Meta-data other than the type and link count does not show in the tree. */
  lemma SameNode(a: DiskInode, b: DiskInode, disk: Disk)
    requires SamePointers(a, b) && a.size == b.size
    ensures Contents(a, disk) == Contents(b, disk)
  {
    forall pos | 0 <= pos < a.size ensures ByteAt(a, disk, pos) == ByteAt(b, disk, pos) {
      SameZones(a, b, disk, pos / BLOCK_SIZE);
    }
  }

  lemma SameZones(a: DiskInode, b: DiskInode, disk: Disk, i: nat)
    requires SamePointers(a, b)
    ensures ZoneAt(a, disk, i) == ZoneAt(b, disk, i)
  {
  }
}
