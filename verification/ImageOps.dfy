/** The image engine's directories and paths, over its inode contents. */
module ImageOps {
  import opened Wrappers
  import opened Errors
  import opened Layout
  import opened Paths
  import opened ZoneTree
  import opened ZoneSteps
  import opened Directories
  import BitScan
  import BitSpec
  import Raw = RawImage
  import I = Image
  import NS = Namespace
  import Laws = NamespaceLaws

  class MinixImage {
    /** The engine below directories. */
    const core: I.Image

    /** An image with an empty root directory. */
    constructor Create(sb: Raw.SuperBlock, options: NodeOptions)
      requires sb.Laid()
      ensures Ready() && Dense() && NS.TreeOK(Tree())
      ensures Tree() == map[NS.ROOT := NS.Dir(2, NS.DotNames(NS.ROOT, NS.ROOT))]
      ensures core.lost == {}
      ensures fresh(core) && fresh(core.raw) && fresh(core.inodeBits) && fresh(core.zoneBits)
    {
      hide Good, Raw.Holds, I.Image.Shape, BitScan.Bitmap.Used, Contents, WellFormed, DirNames, Unique, OthersKept, Formed, TreeOf;
      core := new I.Image.Format(sb);
      new;
      Blank();
      MakeRoot(options);
    }

    /** Makes the root directory: inode 1, since no other number is taken. */
    method MakeRoot(options: NodeOptions)
      requires Ready() && Tree() == map[] && Live() == {} && NS.ROOT in core.raw.inodes && core.spare > 0
      modifies core, core.raw, core.zoneBits, core.inodeBits
      ensures Ready() && NS.TreeOK(Tree()) && core.lost == old(core.lost)
      ensures old(Dense()) ==> Dense()
      ensures Tree() == map[NS.ROOT := NS.Dir(2, NS.DotNames(NS.ROOT, NS.ROOT))]
    {
      hide Dense, Good, Raw.Holds, I.Image.Shape, BitScan.Bitmap.Used, Contents, WellFormed, DirNames, Unique, OthersKept, Formed, TreeOf, NS.TreeOK, NS.DotNames;
      var root := TakeNumber();
      if root.Err? {
        assert false;
      }
      FirstNumber(root.value, old(Live()));
      var started := NewDirectory(root.value, root.value, options);
      if started.Err? {
        assert false;
      }
      NS.RootAloneOK();
      RootAlone(NS.File(0, []), NS.Dir(2, NS.DotNames(NS.ROOT, NS.ROOT)));
    }

    /** A formatted image without its root. */
    lemma Blank()
      requires core.Valid() && core.inodeBits.Valid() && core.world == core.raw.inodes
      requires core.inodeBits.Used() == {0} && forall n | n in core.raw.inodes :: core.raw.inodes[n] == ZeroInode
      ensures Ready() && Dense() && Tree() == map[] && Live() == {} && core.sb.Laid() && NS.ROOT in core.raw.inodes
    {
      hide Good, BitScan.Bitmap.Used;
    }

    /** The allocated inodes; bit 0 of the bitmap is reserved. */
    ghost function Live(): set<nat>
      requires core.inodeBits.Valid()
      reads core.inodeBits
    {
      core.inodeBits.Used() - {0}
    }

    /** The image as a tree. */
    ghost function Tree(): NS.Nodes
      requires core.inodeBits.Valid()
      reads core, core.raw, core.inodeBits
    {
      TreeOf(Live(), core.Snapshot())
    }

    /** What holds between any two steps of an operation, failed ones included. */
    ghost predicate Ready()
      reads core, core.raw, core.inodeBits, core.zoneBits
    {
      && core.Valid() && core.inodeBits.Valid() && core.inodeBits != core.zoneBits && core.world == core.raw.inodes
      && 0 in core.inodeBits.Used()
      && Formed(Live(), core.Snapshot())
    }

    /** No directory has holes, as in every image the engine has made. */
    ghost predicate Dense()
      reads core, core.raw, core.inodeBits
      requires core.inodeBits.Valid()
    {
      DenseDirectories(Live(), core.Snapshot())
    }

    /** The zones at hand do not cover directory d rewritten with so many more bytes. */
    ghost predicate Short(d: nat, more: nat)
      reads core
    {
      && d in core.world
      && core.spare + |InodeZones(core.own, d)| < ZoneCost(DataBlocks(core.world[d].size + more))
    }

    /** A directory without holes can always be rewritten at its size, and a longer one wants
        at most three zones more. */
    lemma NeverShort(d: nat)
      requires Ready() && NS.IsDir(Tree(), d) && Dense()
      ensures !Short(d, 0) && (Short(d, DIRECTORY_ENTRY_SIZE) ==> core.spare < 3)
    {
      hide Good, Raw.Holds, I.Image.Shape, BitScan.Bitmap.Used, Contents, WellFormed, DirNames, Formed, TreeOf, ZoneCost, DataBlocks, InodeZones, DenseAt;
      RecordOf(d);
      DenseIs(core.Snapshot(), d);
      OneEntryMore(core.world[d].size);
    }

    /** What one more entry takes of the spare zones. */
    lemma GrowthPrice(d: nat)
      requires Ready() && NS.IsDir(Tree(), d) && Dense()
      ensures d in core.world
      ensures ZoneCost(DataBlocks(core.world[d].size + DIRECTORY_ENTRY_SIZE)) <= |InodeZones(core.own, d)| + 3
    {
      hide Good, Raw.Holds, I.Image.Shape, BitScan.Bitmap.Used, Contents, WellFormed, DirNames, Formed, TreeOf, ZoneCost, DataBlocks, InodeZones, DenseAt;
      RecordOf(d);
      DenseIs(core.Snapshot(), d);
      OneEntryMore(core.world[d].size);
    }

    /** The zones at hand, less some, do not cover directory d rewritten one entry longer. */
    ghost predicate ShortAfter(d: nat, taken: nat)
      reads core
    {
      && d in core.world
      && core.spare + |InodeZones(core.own, d)| < taken + ZoneCost(DataBlocks(core.world[d].size + DIRECTORY_ENTRY_SIZE))
    }

    /** The inode numbers that are not allocated. */
    ghost function FreeNumbers(): set<nat>
      requires core.inodeBits.Valid()
      reads core.inodeBits
    {
      BitSpec.Range(1, core.sb.inodeCount) - Live()
    }

    /** At least so many inode numbers and zones are free. */
    ghost predicate Spare(numbers: nat, zones: nat)
      requires core.inodeBits.Valid()
      reads core, core.inodeBits
    {
      numbers <= |FreeNumbers()| && zones <= core.spare
    }

    /** Enough is free for a file of some size at a path whose directory exists. */
    ghost predicate Affords(path: ImagePath, size: nat)
      requires core.inodeBits.Valid()
      reads core, core.raw, core.inodeBits
    {
      Spare(if NS.Resolve(Tree(), path).None? then 1 else 0, Price(size) + 3)
    }

    // ----- directory entries -----

    /** Reads and decodes one directory's entries. */
    method ReadDirectoryEntries(d: nat) returns (r: Result<Entries, Error>)
      requires Ready() && d in Tree()
      ensures match r
        case Ok(es) =>
          && NS.IsDir(Tree(), d) && Unique(es) && NamesOf(es) == Tree()[d].names
          && d in core.world && |es| * DIRECTORY_ENTRY_SIZE == core.world[d].size
        case Err(e) => e == NotDirectory && !NS.IsDir(Tree(), d)
    {
      hide Good, Raw.Holds, I.Image.Shape, BitScan.Bitmap.Used, Contents, WellFormed, DirNames, Unique;
      TreeAt(Live(), core.Snapshot(), d);
      var ino := core.ReadInode(d);
      if ino.Err? {
        assert false;
      }
      if !DirectoryInode(ino.value) {
        return Err(NotDirectory);
      }
      DirectorySize(Live(), core.Snapshot(), d);
      var bytes := core.ReadInodeContents(d, ino.value);
      if bytes.Err? {
        assert false;
      }
      if |bytes.value| % DIRECTORY_ENTRY_SIZE != 0 {
        return Err(Corrupt);
      }
      NamesFromBytes(bytes.value);
      var es := DecodeAll(bytes.value);
      return Ok(es);
    }

    /** Encodes and writes an entry array under a record that is already in memory. */
    method WriteDirectoryEntriesWithInode(d: nat, inode: DiskInode, es: Entries, mtime: U32)
      returns (inode': DiskInode, r: Result<Unit, Error>)
      requires core.Valid() && d in core.world && SamePointers(core.world[d], inode)
      modifies core, core.raw, core.zoneBits
      ensures core.Valid() && core.world == old(core.world)[d := inode']
      ensures core.raw.inodes == old(core.raw.inodes)[d := inode']
      ensures OthersKept(old(core.Snapshot()), core.Snapshot(), d) && I.SameMeta(inode, inode')
      ensures OwnersKept(old(core.own), core.own, d) && DenseAt(core.Snapshot(), d)
      ensures r.Ok? <==> old(core.spare) + |InodeZones(old(core.own), d)| >= ZoneCost(DataBlocks(|es| * DIRECTORY_ENTRY_SIZE))
      ensures r.Ok? ==> core.lost == old(core.lost)
      ensures r.Ok? ==>
        core.spare == old(core.spare) + |InodeZones(old(core.own), d)| - ZoneCost(DataBlocks(|es| * DIRECTORY_ENTRY_SIZE))
      ensures r.Ok? ==> Unique(es) ==>
        WellFormed(Contents(inode', core.raw.zones)) && DirNames(Contents(inode', core.raw.zones)) == NamesOf(es)
      ensures r.Err? ==> r.error == NoSpace
      ensures r.Err? ==>
        WellFormed(Contents(inode', core.raw.zones)) && DirNames(Contents(inode', core.raw.zones)) == map[]
    {
      hide Good, Raw.Holds, I.Image.Shape, BitScan.Bitmap.Used, Contents, WellFormed, DirNames, Unique, OthersKept;
      var bytes := EncodeAll(es);
      inode', r := core.WriteInodeContents(d, inode, bytes, mtime);
      if r.Ok? {
        if Unique(es) { EntriesWellFormed(es); }
      } else {
        EmptyContents(inode', core.raw.zones);
        NoEntriesWellFormed();
      }
    }

    /** Replaces the entries of directory d; a failure leaves it without entries. */
    method WriteDirectoryEntries(d: nat, es: Entries, mtime: U32) returns (r: Result<Unit, Error>)
      requires Ready() && NS.IsDir(Tree(), d) && Unique(es)
      modifies core, core.raw, core.zoneBits
      ensures Ready()
      ensures old(Dense()) ==> Dense()
      ensures Tree() == old(Tree())[d := NS.Dir(old(Tree())[d].links, if r.Ok? then NamesOf(es) else map[])]
      ensures if r.Ok? then core.lost == old(core.lost) else r.error == NoSpace
      ensures r.Ok? <==> old(core.spare) + |InodeZones(old(core.own), d)| >= ZoneCost(DataBlocks(|es| * DIRECTORY_ENTRY_SIZE))
      ensures OneChanged(old(core.world), old(core.own), core.world, core.own, d)
      ensures r.Ok? ==>
        core.spare == old(core.spare) + |InodeZones(old(core.own), d)| - ZoneCost(DataBlocks(|es| * DIRECTORY_ENTRY_SIZE))
    {
      hide DenseDirectories, DenseAt, OwnersKept, Good, Raw.Holds, I.Image.Shape, BitScan.Bitmap.Used, Contents, WellFormed, DirNames, Unique, OthersKept, Formed, TreeOf;
      ghost var live, s := Live(), core.Snapshot();
      RecordOf(d);
      var ino := core.ReadInode(d);
      if ino.Err? {
        assert false;
      }
      var ino';
      ino', r := WriteDirectoryEntriesWithInode(d, ino.value, es, mtime);
      TreeStep(live, s, core.Snapshot(), d);
      FormedStep(live, s, core.Snapshot(), d);
      if old(Dense()) { DenseStep(live, s, core.Snapshot(), d); }
    }

    /** Replaces the entries of a directory by as many others. */
    method RewriteEntries(d: nat, es: Entries, mtime: U32) returns (r: Result<Unit, Error>)
      requires Ready() && NS.IsDir(Tree(), d) && Unique(es)
      requires d in core.world && |es| * DIRECTORY_ENTRY_SIZE == core.world[d].size
      modifies core, core.raw, core.zoneBits
      ensures Ready()
      ensures old(Dense()) ==> Dense() && r.Ok?
      ensures r.Ok? ==>
        Tree() == old(Tree())[d := NS.Dir(old(Tree())[d].links, NamesOf(es))] && core.lost == old(core.lost)
      ensures r.Err? ==> r.error == NoSpace && old(Short(d, 0)) && Tree() == NS.Cleared(old(Tree()), d)
    {
      hide Dense, Good, Raw.Holds, I.Image.Shape, BitScan.Bitmap.Used, Contents, WellFormed, DirNames, Unique, OthersKept, Formed, TreeOf, ZoneCost, DataBlocks, InodeZones;
      if Dense() { NeverShort(d); }
      r := WriteDirectoryEntries(d, es, mtime);
    }

    /** Replaces the entries of a directory by at most one more. */
    method GrowEntries(d: nat, es: Entries, mtime: U32) returns (r: Result<Unit, Error>)
      requires Ready() && NS.IsDir(Tree(), d) && Unique(es) && d in core.world
      requires ZoneCost(DataBlocks(|es| * DIRECTORY_ENTRY_SIZE)) <= ZoneCost(DataBlocks(core.world[d].size + DIRECTORY_ENTRY_SIZE))
      modifies core, core.raw, core.zoneBits
      ensures Ready()
      ensures old(Dense()) ==> Dense() && (r.Ok? ==> core.spare + 3 >= old(core.spare))
      ensures r.Ok? ==>
        Tree() == old(Tree())[d := NS.Dir(old(Tree())[d].links, NamesOf(es))] && core.lost == old(core.lost)
      ensures r.Err? ==> r.error == NoSpace && old(Short(d, DIRECTORY_ENTRY_SIZE)) && Tree() == NS.Cleared(old(Tree()), d)
      ensures OneChanged(old(core.world), old(core.own), core.world, core.own, d)
    {
      hide OneChanged, Dense, Good, Raw.Holds, I.Image.Shape, BitScan.Bitmap.Used, Contents, WellFormed, DirNames, Unique, OthersKept, Formed, TreeOf, ZoneCost, DataBlocks, InodeZones;
      if Dense() { GrowthPrice(d); }
      r := WriteDirectoryEntries(d, es, mtime);
    }

    /** Looks up one child entry inside a directory. */
    method LookupChild(d: nat, name: Name) returns (r: Result<Option<nat>, Error>)
      requires Ready() && d in Tree()
      ensures r == if !NS.IsDir(Tree(), d) then Err(NotDirectory)
                   else if NS.Names(Tree(), d, name) then Ok(Some(NS.Child(Tree(), d, name))) else Ok(None)
    {
      hide Good, Raw.Holds, I.Image.Shape, BitScan.Bitmap.Used, Contents, WellFormed, DirNames, Unique, OthersKept, Formed, TreeOf, Ready;
      var entries := ReadDirectoryEntries(d);
      if entries.Err? {
        return Err(entries.error);
      }
      var k := FindName(entries.value, name);
      if k.None? {
        return Ok(None);
      }
      assert Named(entries.value, name);
      return Ok(Some(entries.value[k.value].inode));
    }

    /** Adds one child entry to a directory, in the first empty slot or at the end. */
    method AddDirectoryEntry(d: nat, name: Name, child: U16, mtime: U32) returns (r: Result<Unit, Error>)
      requires Ready() && d in Tree() && child != 0 && 0 !in name
      modifies core, core.raw, core.zoneBits
      ensures Ready()
      ensures old(Dense()) ==> Dense()
      ensures r.Ok? ==>
        && NS.IsDir(old(Tree()), d) && name !in old(Tree())[d].names
        && Tree() == NS.PutName(old(Tree()), d, name, child) && core.lost == old(core.lost)
      ensures r.Err? && r.error != NoSpace ==> Tree() == old(Tree()) && core.lost == old(core.lost)
      ensures r.Err? ==> match r.error
        case NotDirectory => !NS.IsDir(old(Tree()), d)
        case AlreadyExists => NS.Names(old(Tree()), d, name)
        case NameTooLong => |name| > NAME_LENGTH
        case NoSpace =>
          NS.IsDir(old(Tree()), d) && old(Short(d, DIRECTORY_ENTRY_SIZE)) && Tree() == NS.Cleared(old(Tree()), d)
        case _ => false
      ensures OneChanged(old(core.world), old(core.own), core.world, core.own, d)
      ensures r.Ok? && old(Dense()) ==> core.spare + 3 >= old(core.spare)
    {
      hide Short, NS.Cleared, OneChanged, Dense, Good, Raw.Holds, I.Image.Shape, BitScan.Bitmap.Used, Contents, WellFormed, DirNames, Unique, OthersKept, Formed, TreeOf, ZoneCost, DataBlocks, InodeZones;
      RecordOf(d);
      NothingChanged(core.world, core.own, d);
      var filled := LongerEntries(d, name, child);
      if filled.Err? {
        return Err(filled.error);
      }
      r := GrowEntries(d, filled.value, mtime);
    }

    /** The entries of a directory with one more. */
    method LongerEntries(d: nat, name: Name, child: U16) returns (r: Result<Entries, Error>)
      requires Ready() && d in Tree() && child != 0 && 0 !in name
      ensures match r
        case Ok(es) =>
          && NS.IsDir(Tree(), d) && !NS.Names(Tree(), d, name) && Unique(es) && d in core.world
          && NamesOf(es) == Tree()[d].names[name := child]
          && ZoneCost(DataBlocks(|es| * DIRECTORY_ENTRY_SIZE)) <= ZoneCost(DataBlocks(core.world[d].size + DIRECTORY_ENTRY_SIZE))
        case Err(e) =>
          || (e == NotDirectory && !NS.IsDir(Tree(), d))
          || (e == AlreadyExists && NS.Names(Tree(), d, name))
          || (e == NameTooLong && |name| > NAME_LENGTH)
    {
      hide Good, Raw.Holds, I.Image.Shape, BitScan.Bitmap.Used, Contents, WellFormed, DirNames, Unique, OthersKept, Formed, TreeOf, ZoneCost, DataBlocks, InodeZones, Ready;
      var entries := ReadDirectoryEntries(d);
      if entries.Err? {
        return Err(entries.error);
      }
      var es := entries.value;
      var taken := FindName(es, name);
      if taken.Some? {
        assert Named(es, name);
        return Err(AlreadyExists);
      }
      var filled := WithEntry(es, name, child);
      if filled.None? {
        return Err(NameTooLong);
      }
      return Ok(filled.value);
    }

    /** Removes one child entry from a directory. */
    method RemoveDirectoryEntry(d: nat, name: Name, expected: Option<nat>) returns (r: Result<nat, Error>)
      requires Ready() && d in Tree()
      modifies core, core.raw, core.zoneBits
      ensures Ready()
      ensures old(Dense()) ==> Dense() && r != Err(NoSpace)
      ensures r.Ok? ==>
        && NS.Names(old(Tree()), d, name) && r.value == NS.Child(old(Tree()), d, name)
        && Tree() == NS.DelName(old(Tree()), d, name) && core.lost == old(core.lost)
      ensures r.Err? && r.error != NoSpace ==> Tree() == old(Tree()) && core.lost == old(core.lost)
      ensures r.Err? ==> match r.error
        case NotDirectory => !NS.IsDir(old(Tree()), d)
        case NotFound => NS.IsDir(old(Tree()), d) && !NS.Names(old(Tree()), d, name)
        case Corrupt => expected.Some? && expected.value != NS.Child(old(Tree()), d, name)
        case NoSpace => old(Short(d, 0)) && Tree() == NS.Cleared(old(Tree()), d)
        case _ => false
    {
      hide Short, NS.Cleared, NodeOf, DirectoryInode, Dense, Good, Raw.Holds, I.Image.Shape, BitScan.Bitmap.Used, Contents, WellFormed, DirNames, Unique, OthersKept, Formed, TreeOf, ZoneCost, DataBlocks, InodeZones;
      var entries := ReadDirectoryEntries(d);
      if entries.Err? {
        return Err(entries.error);
      }
      var es := entries.value;
      var k := FindName(es, name);
      if k.None? {
        return Err(NotFound);
      }
      assert Named(es, name);
      var removed := es[k.value].inode;
      if expected.Some? && removed != expected.value {
        return Err(Corrupt);
      }
      var written := EmptySlot(d, es, k.value, name);
      if written.Err? {
        return Err(NoSpace);
      }
      return Ok(removed);
    }

    /** Rewrites a directory with one entry emptied. */
    method EmptySlot(d: nat, es: Entries, k: nat, ghost name: Name) returns (r: Result<Unit, Error>)
      requires Ready() && NS.IsDir(Tree(), d) && Unique(es) && NamesOf(es) == Tree()[d].names && At(es, k, name)
      requires d in core.world && |es| * DIRECTORY_ENTRY_SIZE == core.world[d].size
      modifies core, core.raw, core.zoneBits
      ensures Ready()
      ensures old(Dense()) ==> Dense() && r.Ok?
      ensures r.Ok? ==> Tree() == NS.DelName(old(Tree()), d, name) && core.lost == old(core.lost)
      ensures r.Err? ==> r.error == NoSpace && old(Short(d, 0)) && Tree() == NS.Cleared(old(Tree()), d)
    {
      hide Short, NS.Cleared, NodeOf, DirectoryInode, Dense, Good, Raw.Holds, I.Image.Shape, BitScan.Bitmap.Used, Contents, WellFormed, DirNames, Unique, OthersKept, Formed, TreeOf, ZoneCost, DataBlocks, InodeZones;
      DropNames(es, k, name);
      var inode := ReadNode(d);
      r := RewriteEntries(d, es[k := EmptyEntry], inode.mtime);
    }

    /** Whether a directory has no entries but its dots. */
    method DirectoryIsEmpty(d: nat) returns (r: Result<bool, Error>)
      requires Ready() && d in Tree()
      ensures match r
        case Ok(empty) => NS.IsDir(Tree(), d) && (empty <==> NS.Bare(Tree(), d))
        case Err(e) => e == NotDirectory && !NS.IsDir(Tree(), d)
    {
      hide Good, Raw.Holds, I.Image.Shape, BitScan.Bitmap.Used, Contents, WellFormed, DirNames, Unique, OthersKept, Formed, TreeOf;
      var entries := ReadDirectoryEntries(d);
      if entries.Err? {
        return Err(entries.error);
      }
      var only := OnlyDots(entries.value);
      DotsAreBare(Tree(), d, entries.value);
      return Ok(only);
    }

    /** Turns the `..` of a moved directory to its new parent. */
    method UpdateDirectoryParent(d: nat, parent: U16, mtime: U32) returns (r: Result<Unit, Error>)
      requires Ready() && d in Tree() && parent != 0
      modifies core, core.raw, core.zoneBits
      ensures Ready()
      ensures old(Dense()) ==> Dense() && r != Err(NoSpace)
      ensures r.Ok? ==>
        && NS.Names(old(Tree()), d, DOTDOT)
        && Tree() == NS.PutName(old(Tree()), d, DOTDOT, parent) && core.lost == old(core.lost)
      ensures r.Err? && r.error != NoSpace ==> Tree() == old(Tree()) && core.lost == old(core.lost)
      ensures r.Err? ==> match r.error
        case NotDirectory => !NS.IsDir(old(Tree()), d)
        case Corrupt => !NS.Names(old(Tree()), d, DOTDOT)
        case NoSpace => old(Short(d, 0)) && Tree() == NS.Cleared(old(Tree()), d)
        case _ => false
    {
      hide Short, Dense, Good, Raw.Holds, I.Image.Shape, BitScan.Bitmap.Used, Contents, WellFormed, DirNames, Unique, OthersKept, Formed, TreeOf, ZoneCost, DataBlocks, InodeZones;
      var entries := ReadDirectoryEntries(d);
      if entries.Err? {
        return Err(entries.error);
      }
      var es := entries.value;
      var k := FindName(es, DOTDOT);
      if k.None? {
        return Err(Corrupt);
      }
      assert Named(es, DOTDOT);
      TurnNames(es, k.value, DOTDOT, parent);
      r := RewriteEntries(d, es[k.value := es[k.value].(inode := parent)], mtime);
    }

    lemma RecordOf(n: nat)
      requires Ready() && n in Tree()
      ensures n in core.raw.inodes && n in Live() && core.world[n] == core.raw.inodes[n]
      ensures Tree()[n] == NodeOf(core.raw.inodes[n], core.raw.zones)
    {
      hide Good, Raw.Holds, I.Image.Shape, BitScan.Bitmap.Used, Contents, WellFormed, DirNames, NodeOf;
    }

    // ----- inodes -----

    /** Writes an inode back with another link count. */
    method ChangeLinks(n: nat, inode: DiskInode, links: U8)
      requires Ready() && n in Tree() && core.raw.inodes[n] == inode
      modifies core, core.raw
      ensures Ready() && Tree() == NS.SetLinks(old(Tree()), n, links) && core.lost == old(core.lost)
      ensures old(Dense()) ==> Dense()
      ensures core.world == old(core.world)[n := inode.(links := links)]
      ensures core.own == old(core.own) && core.spare == old(core.spare)
    {
      hide DenseDirectories, DenseAt, OwnersKept, Good, Raw.Holds, I.Image.Shape, BitScan.Bitmap.Used, Contents, WellFormed, DirNames, Unique, OthersKept, Formed, TreeOf;
      RecordOf(n);
      ghost var live, s := Live(), core.Snapshot();
      var inode' := inode.(links := links);
      core.ResizeIsFree(n, inode');
      core.WriteInode(n, inode');
      ghost var t := core.Snapshot();
      I.ReleaseKeepsOthers(s, t, n);
      SameNode(inode, inode', s.disk);
      RecordFormed(live, s, n);
      TreeStep(live, s, t, n);
      FormedStep(live, s, t, n);
      if old(Dense()) {
        SameDensity(live, s, t, n);
        DenseStep(live, s, t, n);
      }
    }

    /** Frees the zones and the number of an inode. */
    method ReleaseInode(n: nat, inode: DiskInode)
      requires Ready() && n in Tree() && core.raw.inodes[n] == inode
      modifies core, core.raw, core.zoneBits, core.inodeBits
      ensures Ready() && Tree() == old(Tree()) - {n} && core.lost == old(core.lost)
      ensures old(Dense()) ==> Dense()
    {
      hide DenseDirectories, DenseAt, OwnersKept, Good, Raw.Holds, I.Image.Shape, BitScan.Bitmap.Used, Contents, WellFormed, DirNames, Unique, OthersKept, Formed, TreeOf, Emptied;
      RecordOf(n);
      ghost var live, s := Live(), core.Snapshot();
      var empty := core.FreeInodeData(n, inode);
      EmptyPointsNowhere(inode);
      core.FreeInodeNumber(n);
      ghost var t := core.Snapshot();
      I.Overwrite(s.w, n, empty, ZeroInode);
      I.ReleaseKeepsOthers(s, t, n);
      NumberFreed(live, s, t, n);
      assert Live() == live - {n};
      if old(Dense()) {
        I.OthersLeft(s.own, n);
        DenseStep(live, s, t, n);
        DenseNumber(live, live - {n}, t, n);
      }
    }

    /** Takes one link from an inode; the inode goes with its last link. */
    method DecrementLinkOrFree(n: nat, inode: DiskInode)
      requires Ready() && n in Tree() && core.raw.inodes[n] == inode
      modifies core, core.raw, core.zoneBits, core.inodeBits
      ensures Ready() && core.lost == old(core.lost)
      ensures old(Dense()) ==> Dense()
      ensures Tree() == if old(Tree())[n].links > 1 then NS.SetLinks(old(Tree()), n, old(Tree())[n].links - 1)
                        else old(Tree()) - {n}
    {
      hide Dense, Good, Raw.Holds, I.Image.Shape, BitScan.Bitmap.Used, Contents, WellFormed, DirNames, Unique, OthersKept, Formed, TreeOf, Ready;
      RecordOf(n);
      if inode.links > 1 {
        ChangeLinks(n, inode, inode.links - 1);
      } else {
        ReleaseInode(n, inode);
      }
    }

    /** Takes a free inode number: a nameless empty file for the moment. */
    method TakeNumber() returns (r: Result<U16, Error>)
      requires Ready()
      modifies core.raw, core.inodeBits
      ensures Ready() && core.lost == old(core.lost)
      ensures old(Dense()) ==> Dense()
      ensures match r
        case Ok(n) =>
          && n !in old(Tree()) && n != 0 && core.raw.inodes == old(core.raw.inodes)
          && n in core.raw.inodes && core.raw.inodes[n] == ZeroInode && n in Live()
          && (forall m | 1 <= m < n :: m in old(Live()))
          && Tree() == old(Tree())[n := NS.File(0, [])]
        case Err(e) => e == NoSpace && Tree() == old(Tree()) && core.raw.inodes.Keys <= old(Live()) && old(FreeNumbers()) == {}
      ensures r.Ok? ==> |FreeNumbers()| == |old(FreeNumbers())| - 1
    {
      hide DenseDirectories, DenseAt, OwnersKept, Good, Raw.Holds, I.Image.Shape, BitScan.Bitmap.Used, Contents, WellFormed, DirNames, Unique, OthersKept, Formed, TreeOf;
      hide BitSpec.Range, ZoneSteps.Sound, Raw.InodeAt;
      ghost var live, s := Live(), core.Snapshot();
      var value := core.AllocateInodeNumber();
      if value.Err? {
        AllTaken();
        return Err(value.error);
      }
      var n := value.value;
      NumberInTable(n);
      assert Live() == live + {n};
      NumberTaken(live, s, n);
      OneLess(core.sb.inodeCount, live, n);
      if old(Dense()) { DenseNumber(live, live + {n}, s, n); }
      return Ok(n);
    }

    lemma AllTaken()
      requires core.Valid() && core.inodeBits.Valid()
      requires core.inodeBits.Used() == BitSpec.Range(0, core.sb.inodeCount + 1)
      ensures core.raw.inodes.Keys <= Live() && FreeNumbers() == {}
    {
      hide Good, BitScan.Bitmap.Used;
    }

    lemma NumberFits(n: nat)
      requires core.Valid() && n in core.raw.inodes
      ensures n <= 0xFFFF
    {
      hide Good, BitScan.Bitmap.Used;
    }

    lemma NumberInTable(n: nat)
      requires core.Valid() && 1 <= n <= core.sb.inodeCount
      ensures n in core.raw.inodes
    {
      hide Good, BitScan.Bitmap.Used;
    }

    /** Gives inode n its first zone and its two dot entries. */
    method NewDirectory(n: U16, parent: U16, options: NodeOptions) returns (r: Result<Unit, Error>)
      requires n in core.raw.inodes && core.raw.inodes[n] == ZeroInode && parent != 0
      requires Ready() && n in Tree()
      modifies core, core.raw, core.zoneBits
      ensures Ready()
      ensures old(Dense()) ==> Dense()
      ensures r.Ok? <==> old(core.spare) > 0
      ensures if r.Ok? then core.lost == old(core.lost) else r.error == NoSpace
      ensures r.Ok? ==> Tree() == old(Tree())[n := NS.Dir(2, NS.DotNames(n, parent))]
      ensures r.Err? ==> Tree() == old(Tree())
      ensures OneChanged(old(core.world), old(core.own), core.world, core.own, n)
      ensures r.Ok? ==> core.spare == old(core.spare) - 1
    {
      hide ZoneCost, DenseDirectories, DenseAt, OwnersKept, Good, Raw.Holds, I.Image.Shape, BitScan.Bitmap.Used, Contents, WellFormed, DirNames, Unique, OthersKept, Formed, TreeOf;
      ghost var live, s := Live(), core.Snapshot();
      RecordOf(n);
      OneBlockCosts();
      var inode;
      inode, r := DraftDirectory(n, options);
      if r.Err? {
        NothingChanged(core.world, core.own, n);
        return;
      }
      ghost var t := core.Snapshot();
      var es := DotEntries(n, parent);
      var inode';
      inode', r := WriteDirectoryEntriesWithInode(n, inode, es, options.mtime);
      ghost var u := core.Snapshot();
      I.OthersTrans(s, t, u, n);
      I.Overwrite(s.w, n, inode, inode');
      TreeStep(live, s, u, n);
      FormedStep(live, s, u, n);
      OwnersTrans(s.own, t.own, u.own, n);
      if old(Dense()) {
        DenseStep(live, s, u, n);
      }
    }

    /** The record of a new directory, with its first zone; not on disk yet. */
    method DraftDirectory(n: nat, options: NodeOptions) returns (inode: DiskInode, r: Result<Unit, Error>)
      requires Ready() && n in core.world && core.world[n] == ZeroInode
      modifies core, core.raw, core.zoneBits
      ensures core.Valid() && core.world == old(core.world)[n := inode] && core.raw.inodes == old(core.raw.inodes)
      ensures OthersKept(old(core.Snapshot()), core.Snapshot(), n) && core.lost == old(core.lost)
      ensures OwnersKept(old(core.own), core.own, n)
      ensures r.Ok? <==> old(core.spare) > 0
      ensures r.Ok? ==> inode.mode == DirectoryMode(options.mode) && inode.links == 2 && |InodeZones(core.own, n)| == 1 && core.spare == old(core.spare) - 1
      ensures r.Err? ==> r.error == NoSpace && core.world == old(core.world) && core.Snapshot() == old(core.Snapshot())
    {
      hide OwnersKept, Good, Raw.Holds, I.Image.Shape, BitScan.Bitmap.Used, Contents, WellFormed, DirNames, Unique, OthersKept, Formed, TreeOf, InodeZones, Takes, Grows, Sound, Fresh;
      ghost var s := core.Snapshot();
      core.Now();
      ZeroOwnsNothing(s, n);
      var z := core.AllocateZone();
      if z.Err? {
        I.ReleaseKeepsOthers(s, s, n);
        I.Overwrite(s.w, n, ZeroInode, ZeroInode);
        SameOwners(s.own, n);
        return ZeroInode, Err(NoSpace);
      }
      ghost var t := core.Snapshot();
      FreshTaken(s, t, z.value, n);
      GrowsKeepsOthers(s, t, n);
      var bare: DiskInode := ZeroInode.(mode := DirectoryMode(options.mode), uid := options.uid, gid := options.gid,
                                        mtime := options.mtime, links := 2);
      core.ResizeIsFree(n, bare);
      ghost var t' := core.Snapshot();
      core.Now();
      I.ReleaseKeepsOthers(t, t', n);
      I.OthersTrans(s, t, t', n);
      inode := WithDirect(bare, 0, z.value);
      core.AttachDirect(n, bare, inode, 0, z.value);
      ghost var u := core.Snapshot();
      TakesKeeps(t', u, n, Direct(0), z.value);
      GrowsKeepsOthers(t', u, n);
      I.OthersTrans(s, t', u, n);
      TakenOnce(s, t, t', u, n, z.value);
      I.Overwrite(s.w, n, bare, inode);
      return inode, Ok(Unit);
    }

    // ----- paths -----

    /** Resolves a path to an inode number. */
    method ResolvePath(path: ImagePath) returns (r: Result<nat, Error>)
      requires Ready() && NS.TreeOK(Tree())
      ensures match r
        case Ok(n) => NS.Resolve(Tree(), path) == Some(n) && n in Tree()
        case Err(e) => NS.Resolve(Tree(), path) == None && (e == NotFound || e == NotDirectory)
    {
      hide Good, Raw.Holds, I.Image.Shape, BitScan.Bitmap.Used, Contents, WellFormed, DirNames, Unique, OthersKept, Formed, TreeOf, NS.Dotted, NS.Rooted, NS.Reached, NS.Counted;
      var current := ROOT_INODE_NUMBER;
      NS.RootExists(Tree());
      assert path[0..] == path;
      for i := 0 to |path|
        invariant current in Tree() && NS.Walk(Tree(), current, path[i..]) == NS.Resolve(Tree(), path)
      {
        assert path[i..][1..] == path[i + 1..];
        var next := LookupChild(current, path[i]);
        if next.Err? {
          return Err(NotDirectory);
        }
        if next.value.None? {
          return Err(NotFound);
        }
        NS.ChildExists(Tree(), current, path[i]);
        current := next.value.value;
      }
      return Ok(current);
    }

    /** Resolves the directory that holds the last name of a path. */
    method ResolveParent(path: ImagePath) returns (r: Result<nat, Error>)
      requires Ready() && NS.TreeOK(Tree()) && path != []
      ensures match r
        case Ok(d) => d == NS.Holder(Tree(), path) && d in Tree() && d != 0
        case Err(e) => (e == NotFound || e == NotDirectory) && !NS.IsDir(Tree(), NS.Holder(Tree(), path))
    {
      hide Dense, Good, Raw.Holds, I.Image.Shape, BitScan.Bitmap.Used, Formed, TreeOf, NS.TreeOK, NS.Walk;
      HolderExists(Tree(), path);
      TreeNumbers(Tree());
      r := ResolvePath(path[..|path| - 1]);
    }

    /** Creates a directory below an existing one. */
    method CreateDirectory(parent: U16, name: Name, options: NodeOptions) returns (r: Result<U16, Error>)
      requires Ready() && NS.IsDir(Tree(), parent) && parent != 0 && 0 !in name
      modifies core, core.raw, core.zoneBits, core.inodeBits
      ensures Ready()
      ensures old(Dense()) ==> Dense()
      ensures match r
        case Ok(n) =>
          && n != 0 && n !in old(Tree()) && name !in old(Tree())[parent].names
          && Tree() == NS.MadeDirCapped(old(Tree()), parent, name, n) && core.lost == old(core.lost)
        case Err(NoSpace) =>
          && NS.MadeDirFails(old(Tree()), Tree(), parent)
          && (old(Spare(1, 1)) ==> old(ShortAfter(parent, 1)))
          && (old(Dense()) ==> !old(Spare(1, 4)))
        case Err(e) =>
          && ((e == AlreadyExists && NS.Names(old(Tree()), parent, name)) || (e == NameTooLong && |name| > NAME_LENGTH))
          && Tree() == old(Tree()) && core.lost == old(core.lost)
      ensures r.Ok? ==> |FreeNumbers()| == |old(FreeNumbers())| - 1
      ensures r.Ok? && old(Dense()) ==> core.spare + 4 >= old(core.spare)
    {
      hide FreeNumbers, OneChanged, NS.MadeDirFails, NS.MadeDirCapped, NS.Cleared, NS.MoreLinks, NS.PutName, NS.DotNames, Dense, Good, Raw.Holds, I.Image.Shape, BitScan.Bitmap.Used, Contents, WellFormed, DirNames, Unique, OthersKept, Formed, TreeOf;
      ghost var ns := Tree();
      var number := TakeNumber();
      if number.Err? {
        NS.NothingMade(ns, parent);
        return Err(number.error);
      }
      var n := number.value;
      NS.MadeDirStages(ns, parent, name, n);
      var started := NewDirectory(n, parent, options);
      if started.Err? {
        return Err(started.error);
      }
      OthersSize(old(core.world), old(core.own), core.world, core.own, n, parent);
      if Dense() { NeverShort(parent); }
      var added := EnterDirectory(parent, name, n, options);
      return if added.Ok? then Ok(n) else Err(added.error);
    }

    /** Enters a new directory into its parent, or drops it again. */
    method EnterDirectory(parent: U16, name: Name, n: U16, options: NodeOptions) returns (r: Result<Unit, Error>)
      requires Ready() && NS.IsDir(Tree(), parent) && n in Tree() && n != parent && n != 0 && 0 !in name
      modifies core, core.raw, core.zoneBits, core.inodeBits
      ensures Ready()
      ensures old(Dense()) ==> Dense() && (r.Ok? ==> core.spare + 3 >= old(core.spare))
      ensures r.Ok? ==>
        && !NS.Names(old(Tree()), parent, name) && FreeNumbers() == old(FreeNumbers()) && core.lost == old(core.lost)
        && Tree() == NS.MoreLinks(NS.PutName(old(Tree()), parent, name, n), parent)
      ensures r.Err? ==>
        if r.error == NoSpace then old(Short(parent, DIRECTORY_ENTRY_SIZE)) && Tree() == NS.Cleared(old(Tree()), parent) - {n}
        else
          && ((r.error == AlreadyExists && NS.Names(old(Tree()), parent, name)) || (r.error == NameTooLong && |name| > NAME_LENGTH))
          && Tree() == old(Tree()) - {n} && core.lost == old(core.lost)
    {
      hide Short, OneChanged, NS.MoreLinks, Dense, Good, Raw.Holds, I.Image.Shape, BitScan.Bitmap.Used, Contents, WellFormed, DirNames, Unique, OthersKept, Formed, TreeOf;
      r := AddDirectoryEntry(parent, name, n, options.mtime);
      if r.Err? {
        DiscardInode(n);
        return;
      }
      AddLink(parent);
    }

    /** Drops a new inode whose entry could not be added. */
    method DiscardInode(n: nat)
      requires Ready() && n in Tree()
      modifies core, core.raw, core.zoneBits, core.inodeBits
      ensures Ready() && Tree() == old(Tree()) - {n} && core.lost == old(core.lost)
      ensures old(Dense()) ==> Dense()
    {
      hide Dense, Good, Raw.Holds, I.Image.Shape, BitScan.Bitmap.Used, Contents, WellFormed, DirNames, Unique, OthersKept, Formed, TreeOf;
      RecordOf(n);
      var inode := core.ReadInode(n);
      if inode.Err? {
        assert false;
      }
      ReleaseInode(n, inode.value);
    }

    /** Reads an inode and writes it back with one link more. */
    method AddLink(n: nat)
      requires Ready() && n in Tree()
      modifies core, core.raw
      ensures Ready() && core.lost == old(core.lost)
      ensures Tree() == NS.MoreLinks(old(Tree()), n)
      ensures old(Dense()) ==> Dense()
      ensures core.spare == old(core.spare)
    {
      hide Dense, Good, Raw.Holds, I.Image.Shape, BitScan.Bitmap.Used, Contents, WellFormed, DirNames, Unique, OthersKept, Formed, TreeOf;
      RecordOf(n);
      var inode := core.ReadInode(n);
      if inode.Err? {
        assert false;
      }
      ChangeLinks(n, inode.value, Min(255, inode.value.links + 1));
    }

    /** Reads an inode and writes it back with one link less, but never below none. */
    method DropLink(n: nat)
      requires Ready() && n in Tree()
      modifies core, core.raw
      ensures Ready() && core.lost == old(core.lost)
      ensures old(Dense()) ==> Dense()
      ensures Tree() == NS.SetLinks(old(Tree()), n, if old(Tree())[n].links > 0 then old(Tree())[n].links - 1 else 0)
    {
      hide Dense, Good, Raw.Holds, I.Image.Shape, BitScan.Bitmap.Used, Contents, WellFormed, DirNames, Unique, OthersKept, Formed, TreeOf;
      RecordOf(n);
      var inode := core.ReadInode(n);
      if inode.Err? {
        assert false;
      }
      ChangeLinks(n, inode.value, Max(0, inode.value.links - 1));
    }

    // ----- operations by path -----

    /** Creates the requested directory and all missing parents. */
    method MkdirAll(text: Bytes, options: NodeOptions) returns (r: Result<Unit, Error>)
      requires Ready() && NS.TreeOK(Tree()) && Storable(text)
      requires Parsed(text).Ok? ==> NS.RoomToMake(Tree(), Parsed(text).value)
      modifies core, core.raw, core.zoneBits, core.inodeBits
      ensures Ready()
      ensures old(Dense()) ==> Dense()
      ensures r.Ok? ==>
        && Parsed(text).Ok? && NS.TreeOK(Tree()) && core.lost == old(core.lost)
        && NS.CanMake(old(Tree()), Parsed(text).value) && NS.MadeAll(old(Tree()), Tree(), Parsed(text).value)
      ensures r.Err? && r.error != NoSpace ==>
        && Tree() == old(Tree()) && core.lost == old(core.lost)
        && !(Parsed(text).Ok? && NS.CanMake(old(Tree()), Parsed(text).value))
      ensures r.Ok? ==>
        var missing := NS.Missing(old(Tree()), Parsed(text).value);
        |FreeNumbers()| + missing == |old(FreeNumbers())| && (old(Dense()) ==> core.spare + 4 * missing >= old(core.spare))
      ensures r == Err(NoSpace) ==>
        && Parsed(text).Ok? && NS.MkdirFails(old(Tree()), Tree(), Parsed(text).value)
        && var missing := NS.Missing(old(Tree()), Parsed(text).value);
           old(Dense()) ==> !old(Spare(missing, 4 * missing))
    {
      hide FreeNumbers, ShortAfter, NS.RoomToMake, NS.MadeDirFails, NS.Missing, NS.Resolve, Dense, Good, Raw.Holds, I.Image.Shape, BitScan.Bitmap.Used, Contents, WellFormed, DirNames, Unique, OthersKept, Formed, TreeOf, NS.Dotted, NS.Rooted, NS.Reached, NS.Counted, NS.Bare, NS.Extends, NS.MadeDir, NS.MadeDirCapped, Parsed, ValidPath;
      var parsed := Parse(text);
      if parsed.Err? {
        ParseErrors(text);
        return Err(parsed.error);
      }
      var path := parsed.value;
      PathNames(text);
      ghost var ns := Tree();
      NS.ExtendsRefl(ns, []);
      NS.RootResolves(ns);
      var current: U16 := ROOT_INODE_NUMBER;
      for i := 0 to |path|
        invariant Ready() && NS.TreeOK(Tree()) && core.lost == old(core.lost)
        invariant old(Dense()) ==> Dense()
        invariant current != 0 && NS.IsDir(Tree(), current) && NS.Resolve(Tree(), path[..i]) == Some(current as nat)
        invariant NS.Extends(ns, Tree(), path[..i], None)
        invariant Tree() == ns || (NS.Bare(Tree(), current) && Tree()[current].links < 255)
        invariant |FreeNumbers()| + NS.Missing(ns, path[..i]) == |old(FreeNumbers())|
        invariant old(Dense()) ==> core.spare + 4 * NS.Missing(ns, path[..i]) >= old(core.spare)
      {
        var component := path[i];
        assert path[..i + 1] == path[..i] + [component];
        NS.MissingNext(ns, path, i);
        NS.MissingPrefix(ns, path, i + 1);
        var child := LookupChild(current, component);
        if child.Err? {
          assert false;
        }
        if child.value.Some? {
          ExistingChild(ns, Tree(), path[..i], current, component);
          RecordOf(child.value.value);
          NumberFits(child.value.value);
          var inode := core.ReadInode(child.value.value);
          if inode.Err? {
            assert false;
          }
          if !DirectoryInode(inode.value) {
            assert !NS.Passable(ns, path[..i + 1]);
            return Err(NotDirectory);
          }
          current := child.value.value;
        } else {
          ghost var m := Tree();
          ChildMissing(ns, m, path, i, current);
          var made := CreateDirectory(current, component, options);
          if made.Err? {
            if made.error == NoSpace { assert NS.MkdirFailsAt(ns, Tree(), path, i, m); }
            return Err(made.error);
          }
          NS.NotCapped(m, current, component, made.value);
          ChildMade(ns, m, path[..i], current, component, made.value);
          current := made.value;
        }
      }
      assert path[..|path|] == path;
      NS.MadeCouldBe(ns, Tree(), path);
      return Ok(Unit);
    }

    /** A regular file of a size that the format can address. */
    ghost predicate Plain(n: nat)
      reads core
    {
      && n in core.world && FileType(core.world[n].mode) == Some(Regular)
      && DataBlocks(core.world[n].size) <= MAX_LOGICAL_BLOCKS
    }

    /** Writes the data of inode n under a record that is already in memory. */
    method StoreFile(n: nat, inode: DiskInode, data: Bytes, mtime: U32) returns (r: Result<Unit, Error>)
      requires Ready() && n in Tree() && SamePointers(core.raw.inodes[n], inode) && !DirectoryInode(inode)
      modifies core, core.raw, core.zoneBits
      ensures Ready()
      ensures old(Dense()) ==> Dense()
      ensures Tree() == old(Tree())[n := NS.File(inode.links, if r.Ok? then data else [])]
      ensures if r.Ok? then core.lost == old(core.lost) else r.error == NoSpace
      ensures OneChanged(old(core.world), old(core.own), core.world, core.own, n)
      ensures r.Ok? <==> old(core.spare) + |InodeZones(old(core.own), n)| >= ZoneCost(DataBlocks(|data|))
      ensures r.Ok? ==> core.spare == old(core.spare) + |InodeZones(old(core.own), n)| - ZoneCost(DataBlocks(|data|))
      ensures r.Ok? && FileType(inode.mode) == Some(Regular) ==> Plain(n)
    {
      hide DenseDirectories, DenseAt, OwnersKept, Good, Raw.Holds, I.Image.Shape, BitScan.Bitmap.Used, Contents, WellFormed, DirNames, Unique, OthersKept, Formed, TreeOf, SamePointers;
      RecordOf(n);
      ghost var live, s := Live(), core.Snapshot();
      var inode';
      inode', r := core.WriteInodeContents(n, inode, data, mtime);
      if r.Err? { EmptyContents(inode', core.raw.zones); }
      TreeStep(live, s, core.Snapshot(), n);
      FormedStep(live, s, core.Snapshot(), n);
      if old(Dense()) { DenseStep(live, s, core.Snapshot(), n); }
    }

    /** The record of an entry's inode. */
    method ReadNode(n: nat) returns (inode: DiskInode)
      requires Ready() && n in Tree()
      ensures n in core.raw.inodes && core.raw.inodes[n] == inode && 1 <= n <= 0xFFFF
      ensures DirectoryInode(inode) <==> NS.IsDir(Tree(), n)
      ensures Tree()[n].links == inode.links
    {
      hide Good, Raw.Holds, I.Image.Shape, BitScan.Bitmap.Used, Contents, WellFormed, DirNames, Unique, OthersKept, Formed, TreeOf;
      RecordOf(n);
      NumberFits(n);
      var record := core.ReadInode(n);
      if record.Err? {
        assert false;
      }
      inode := record.value;
    }

    /** Creates missing parents and then creates or overwrites one file. */
    method WriteFileAtPath(text: Bytes, data: Bytes, options: NodeOptions, overwrite: bool, parentOptions: NodeOptions)
      returns (r: Result<Unit, Error>)
      requires Ready() && NS.TreeOK(Tree()) && Storable(text)
      requires Parsed(text).Ok? ==> NS.RoomToMake(Tree(), NS.Above(Parsed(text).value))
      modifies core, core.raw, core.zoneBits, core.inodeBits
      ensures Ready()
      ensures old(Dense()) ==> Dense()
      ensures r.Ok? ==>
        && Parsed(text).Ok? && core.lost == old(core.lost)
        && NS.FilePut(old(Tree()), Tree(), Parsed(text).value, data, overwrite) && Readable(Parsed(text).value)
      ensures r.Err? && r.error != NoSpace ==>
        && Tree() == old(Tree()) && core.lost == old(core.lost)
        && !(Parsed(text).Ok? && NS.CanPut(old(Tree()), Parsed(text).value, overwrite))
      ensures r == Err(NoSpace) ==>
        && Parsed(text).Ok? && Parsed(text).value != [] && NS.WriteFails(old(Tree()), Tree(), Parsed(text).value)
        && (old(Dense()) ==> !old(Spare(NS.Missing(Tree(), Parsed(text).value), PriceBelow(Tree(), Parsed(text).value, |data|))))
    {
      hide FreeNumbers, ShortAfter, Plain, ZoneCost, DataBlocks, InodeZones, OneChanged, NS.RoomToMake, NS.MkdirFails, NS.PutFails, NS.Missing, NS.Resolve, Dense, Good, Raw.Holds, I.Image.Shape, BitScan.Bitmap.Used, Contents, WellFormed, DirNames, Unique, OthersKept, Formed, TreeOf, NS.TreeOK, NS.Extends, NS.Created, Parsed, NS.Walk, ValidPath;
      ghost var ns := Tree();
      var parsed := Parse(text);
      if parsed.Err? {
        ParseErrors(text);
        return Err(parsed.error);
      }
      var path := parsed.value;
      if path == [] {
        return Err(IsDirectory);
      }
      PathNames(text);
      var parent := path[..|path| - 1];
      NS.MissingLast(ns, path);
      var name := path[|path| - 1];
      ParentText(path);
      var made := MkdirAll(Display(parent), parentOptions);
      if made.Err? {
        return Err(made.error);
      }
      ghost var m := Tree();
      TargetBefore(ns, m, path);
      r := PutFile(path, data, options, overwrite);
      if r.Ok? { PutAfter(ns, m, Tree(), path, data, overwrite); }
      if r == Err(NoSpace) { PutFailsSince(ns, m, Tree(), path); }
    }

    /** Creates or overwrites a file whose directory exists. */
    method PutFile(path: ImagePath, data: Bytes, options: NodeOptions, overwrite: bool) returns (r: Result<Unit, Error>)
      requires Ready() && NS.TreeOK(Tree()) && path != [] && NS.Clean(path)
      requires NS.DirAbove(Tree(), path) && 0 !in NS.Last(path) && |NS.Last(path)| <= NAME_LENGTH
      modifies core, core.raw, core.zoneBits, core.inodeBits
      ensures Ready()
      ensures old(Dense()) ==> Dense() && (r == Err(NoSpace) ==> !old(Affords(path, |data|)))
      ensures r.Ok? ==> core.lost == old(core.lost) && NS.FilePut(old(Tree()), Tree(), path, data, overwrite) && Readable(path)
      ensures r.Err? && r.error != NoSpace ==>
        Tree() == old(Tree()) && core.lost == old(core.lost) && !NS.CanPut(old(Tree()), path, overwrite)
      ensures r == Err(NoSpace) ==> NS.PutFailsIn(old(Tree()), Tree(), NS.Above(path), old(Tree()))
    {
      hide FreeNumbers, ShortAfter, Plain, ZoneCost, DataBlocks, InodeZones, OneChanged, NS.PutFails, NS.Resolve, Dense, Good, Raw.Holds, I.Image.Shape, BitScan.Bitmap.Used, Contents, WellFormed, DirNames, Unique, OthersKept, Formed, TreeOf, NS.TreeOK, NS.Extends, NS.Created, NS.Walk;
      NS.ExtendsRefl(Tree(), path[..|path| - 1]);
      NS.MadeCouldBe(Tree(), Tree(), path[..|path| - 1]);
      var parent, name := path[..|path| - 1], path[|path| - 1];
      ghost var m := Tree();
      var d := ResolvePath(parent);
      if d.Err? {
        assert false;
      }
      var existing := LookupChild(d.value, name);
      if existing.Err? {
        assert false;
      }
      if existing.value.Some? {
        var f := existing.value.value;
        EntryExists(m, d.value, name);
        TargetStands(m, m, path, d.value);
        var inode := ReadNode(f);
        if DirectoryInode(inode) {
          return Err(IsDirectory);
        }
        if !overwrite {
          return Err(AlreadyExists);
        }
        var inode' := inode.(mode := RegularMode(options.mode), uid := options.uid, gid := options.gid);
        r := StoreFile(f, inode', data, options.mtime);
        if r.Ok? {
          FileRewritten(m, m, path, d.value, f, data);
        } else {
          NS.DataLost(m, d.value, f);
          assert NS.PutFailsIn(m, Tree(), parent, m);
        }
      } else {
        TargetNew(m, m, path, d.value);
        ghost var n;
        r, n := CreateFile(d.value, name, data, options);
        if r.Ok? {
          FileCreated(m, m, path, d.value, Tree(), data, n);
        } else if r.error == NoSpace {
          assert NS.PutFailsIn(m, Tree(), parent, m);
        }
      }
    }

    /** A new inode with its data, then its entry. */
    method CreateFile(d: nat, name: Name, data: Bytes, options: NodeOptions) returns (r: Result<Unit, Error>, ghost n: nat)
      requires Ready() && NS.IsDir(Tree(), d) && 0 !in name
      modifies core, core.raw, core.zoneBits, core.inodeBits
      ensures Ready()
      ensures old(Dense()) ==> Dense()
      ensures r.Ok? ==>
        && name !in old(Tree())[d].names && core.lost == old(core.lost) && Plain(n)
        && n != 0 && n !in old(Tree()) && Tree() == NS.Created(old(Tree()), d, name, n, data)
      ensures r.Err? ==> match r.error
        case NoSpace =>
          && NS.PutFails(old(Tree()), Tree(), d)
          && (old(Spare(1, Price(|data|))) ==> old(ShortAfter(d, Price(|data|))))
          && (old(Dense()) ==> !old(Spare(1, Price(|data|) + 3)))
        case AlreadyExists => NS.Names(old(Tree()), d, name) && Tree() == old(Tree()) && core.lost == old(core.lost)
        case NameTooLong => |name| > NAME_LENGTH && Tree() == old(Tree()) && core.lost == old(core.lost)
        case _ => false
    {
      hide FreeNumbers, OneChanged, ZoneCost, DataBlocks, InodeZones, NS.PutFails, NS.Cleared, NS.Created, NS.PutName, Dense, Good, Raw.Holds, I.Image.Shape, BitScan.Bitmap.Used, Contents, WellFormed, DirNames, Unique, OthersKept, Formed, TreeOf;
      ghost var ns := Tree();
      n := 0;
      var number := TakeNumber();
      if number.Err? {
        NS.NothingPut(ns, d);
        return Err(number.error), n;
      }
      n := number.value;
      NS.PutStages(ns, d, name, n, data);
      NumberOwnsNothing(number.value);
      var inode: DiskInode := ZeroInode.(mode := RegularMode(options.mode), uid := options.uid, gid := options.gid, links := 1);
      r := StoreFile(number.value, inode, data, options.mtime);
      if r.Err? {
        return;
      }
      OthersSize(old(core.world), old(core.own), core.world, core.own, n, d);
      if Dense() { NeverShort(d); }
      r := EnterFile(d, name, number.value, options.mtime);
    }

    /** Enters a new file into a directory, or drops it again. */
    method EnterFile(d: nat, name: Name, n: U16, mtime: U32) returns (r: Result<Unit, Error>)
      requires Ready() && NS.IsDir(Tree(), d) && n in Tree() && n != d && n != 0 && 0 !in name
      modifies core, core.raw, core.zoneBits, core.inodeBits
      ensures Ready()
      ensures old(Dense()) ==> Dense()
      ensures r.Ok? ==>
        && !NS.Names(old(Tree()), d, name) && core.lost == old(core.lost)
        && Tree() == NS.PutName(old(Tree()), d, name, n) && (old(Plain(n)) ==> Plain(n))
      ensures r.Err? ==>
        if r.error == NoSpace then old(Short(d, DIRECTORY_ENTRY_SIZE)) && Tree() == NS.Cleared(old(Tree()), d) - {n as nat}
        else
          && ((r.error == AlreadyExists && NS.Names(old(Tree()), d, name)) || (r.error == NameTooLong && |name| > NAME_LENGTH))
          && Tree() == old(Tree()) - {n as nat} && core.lost == old(core.lost)
    {
      hide Short, OneChanged, Dense, Good, Raw.Holds, I.Image.Shape, BitScan.Bitmap.Used, Contents, WellFormed, DirNames, Unique, OthersKept, Formed, TreeOf;
      RecordOf(n);
      r := AddDirectoryEntry(d, name, n, mtime);
      if r.Err? {
        DiscardInode(n);
      } else {
        OthersSize(old(core.world), old(core.own), core.world, core.own, d, n);
      }
    }

    /** A number just taken owns no zones. */
    lemma NumberOwnsNothing(n: nat)
      requires Ready() && n in core.world && core.world[n] == ZeroInode
      ensures InodeZones(core.own, n) == {} && |InodeZones(core.own, n)| == 0
    {
      hide Good, Raw.Holds, I.Image.Shape, BitScan.Bitmap.Used, Formed, Sound;
      core.Now();
      ZeroOwnsNothing(core.Snapshot(), n);
    }

    /** Removes one file name; the file goes with its last name. Unless space runs out
        it succeeds exactly when the path names something that is no directory. */
    method RemoveFile(text: Bytes) returns (r: Result<Unit, Error>)
      requires Ready() && NS.TreeOK(Tree())
      modifies core, core.raw, core.zoneBits, core.inodeBits
      ensures Ready()
      ensures old(Dense()) ==> Dense() && r != Err(NoSpace)
      ensures r.Ok? ==>
        && Parsed(text).Ok? && NS.Unlinks(old(Tree()), Tree(), Parsed(text).value)
        && Laws.PathGone(old(Tree()), Tree(), Parsed(text).value)
        && NS.TreeOK(Tree()) && core.lost == old(core.lost)
      ensures r.Err? && r.error != NoSpace ==>
        && Tree() == old(Tree()) && core.lost == old(core.lost)
        && !(Parsed(text).Ok? && NS.CanUnlink(old(Tree()), Parsed(text).value))
      ensures r == Err(NoSpace) ==>
        && Parsed(text).Ok? && NS.CanUnlink(old(Tree()), Parsed(text).value)
        && old(Short(NS.Holder(Tree(), Parsed(text).value), 0))
    {
      hide Laws.PathGone, Laws.PathAdded, Laws.PathMoved, NS.Holder, NS.Resolve, Short, Dense, Good, Raw.Holds, I.Image.Shape, BitScan.Bitmap.Used, Contents, WellFormed, DirNames, Unique, OthersKept, Formed, TreeOf, ZoneCost, DataBlocks, InodeZones, NS.TreeOK, Parsed, NS.Walk, ValidPath;
      ghost var ns := Tree();
      var parsed := Parse(text);
      if parsed.Err? {
        ParseErrors(text);
        return Err(parsed.error);
      }
      var path := parsed.value;
      if path == [] {
        return Err(IsDirectory);
      }
      PathNames(text);
      var d := ResolveParent(path);
      if d.Err? {
        return Err(d.error);
      }
      var name := path[|path| - 1];
      var child := LookupChild(d.value, name);
      if child.Err? {
        return Err(child.error);
      }
      if child.value.None? {
        return Err(NotFound);
      }
      EntryExists(ns, d.value, name);
      var f := child.value.value;
      var inode := ReadNode(f);
      if DirectoryInode(inode) {
        return Err(IsDirectory);
      }
      UnlinkedTree(ns, d.value, name);
      var removed := RemoveDirectoryEntry(d.value, name, Some(f));
      if removed.Err? {
        return Err(removed.error);
      }
      inode := ReadNode(f);
      DecrementLinkOrFree(f, inode);
      Laws.UnlinkedPaths(ns, Tree(), path);
      return Ok(Unit);
    }

    /** Removes one empty directory. Unless space runs out it succeeds exactly when the
        path names an empty directory other than the root. */
    method RemoveDirectory(text: Bytes) returns (r: Result<Unit, Error>)
      requires Ready() && NS.TreeOK(Tree())
      modifies core, core.raw, core.zoneBits, core.inodeBits
      ensures Ready()
      ensures old(Dense()) ==> Dense() && r != Err(NoSpace)
      ensures r.Ok? ==>
        && Parsed(text).Ok? && NS.RemovesDir(old(Tree()), Tree(), Parsed(text).value)
        && Laws.PathGone(old(Tree()), Tree(), Parsed(text).value)
        && NS.TreeOK(Tree()) && core.lost == old(core.lost)
      ensures r.Err? && r.error != NoSpace ==>
        && Tree() == old(Tree()) && core.lost == old(core.lost)
        && !(Parsed(text).Ok? && NS.CanRemoveDir(old(Tree()), Parsed(text).value))
      ensures r == Err(NoSpace) ==>
        && Parsed(text).Ok? && NS.CanRemoveDir(old(Tree()), Parsed(text).value)
        && old(Short(NS.Holder(Tree(), Parsed(text).value), 0))
    {
      hide Laws.PathGone, Laws.PathAdded, Laws.PathMoved, Short, Dense, Good, Raw.Holds, I.Image.Shape, BitScan.Bitmap.Used, Contents, WellFormed, DirNames, Unique, OthersKept, Formed, TreeOf, NS.TreeOK, NS.Bare, Parsed, NS.Walk, ValidPath;
      ghost var ns := Tree();
      var parsed := Parse(text);
      if parsed.Err? {
        ParseErrors(text);
        return Err(parsed.error);
      }
      var path := parsed.value;
      if path == [] {
        return Err(IsDirectory);
      }
      PathNames(text);
      PathStands(ns, path);
      var c := ResolvePath(path);
      if c.Err? {
        return Err(c.error);
      }
      var inode := ReadNode(c.value);
      if !DirectoryInode(inode) {
        return Err(NotDirectory);
      }
      var empty := DirectoryIsEmpty(c.value);
      if empty.Err? {
        assert false;
      }
      if !empty.value {
        return Err(DirectoryNotEmpty);
      }
      var d := ResolvePath(path[..|path| - 1]);
      if d.Err? {
        assert false;
      }
      var name := path[|path| - 1];
      r := TakeDirectory(d.value, name, c.value);
      if r.Ok? { Laws.RemovedPaths(ns, Tree(), path); }
    }

    /** Removes empty directory c, entry `name` of d. */
    method TakeDirectory(d: nat, name: Name, c: nat) returns (r: Result<Unit, Error>)
      requires Ready() && NS.TreeOK(Tree()) && NS.Names(Tree(), d, name) && !NS.IsDot(name)
      requires NS.Child(Tree(), d, name) == c && NS.IsDir(Tree(), c) && NS.Bare(Tree(), c)
      modifies core, core.raw, core.zoneBits, core.inodeBits
      ensures Ready() && c != d && old(Tree())[d].links > 0
      ensures old(Dense()) ==> Dense() && r.Ok?
      ensures r.Ok? ==> Tree() == NS.RemovedDir(old(Tree()), d, name) && NS.TreeOK(Tree()) && core.lost == old(core.lost)
      ensures r.Err? ==> r.error == NoSpace && old(Short(d, 0))
    {
      hide Dense, Good, Raw.Holds, I.Image.Shape, BitScan.Bitmap.Used, Contents, WellFormed, DirNames, Unique, OthersKept, Formed, TreeOf, NS.TreeOK, NS.Bare, NS.RemovedDir;
      ghost var ns := Tree();
      RemovedTree(ns, d, name);
      var removed := RemoveDirectoryEntry(d, name, Some(c));
      if removed.Err? {
        return Err(removed.error);
      }
      DropLink(d);
      var inode := ReadNode(c);
      ReleaseInode(c, inode);
      return Ok(Unit);
    }

    /** Creates one hard link to an existing file. Unless space runs out it succeeds
        exactly when the source is a file and the target could be added. */
    method LinkPath(source: Bytes, target: Bytes) returns (r: Result<Unit, Error>)
      requires Ready() && NS.TreeOK(Tree()) && Storable(target)
      modifies core, core.raw, core.zoneBits
      ensures Ready()
      ensures old(Dense()) ==> Dense()
      ensures r.Ok? ==>
        && Parsed(source).Ok? && Parsed(target).Ok?
        && NS.Links(old(Tree()), Tree(), Parsed(source).value, Parsed(target).value)
        && Laws.PathAdded(old(Tree()), Tree(), Parsed(source).value, Parsed(target).value)
        && (NS.TreeOK(Tree()) <==> old(Tree())[NS.Standing(old(Tree()), Parsed(source).value)].links < 255)
        && core.lost == old(core.lost)
      ensures r.Err? && r.error != NoSpace ==>
        && Tree() == old(Tree()) && core.lost == old(core.lost)
        && !(Parsed(source).Ok? && Parsed(target).Ok? && NS.CanLink(old(Tree()), Parsed(source).value, Parsed(target).value))
      ensures r == Err(NoSpace) ==>
        && Parsed(source).Ok? && Parsed(target).Ok?
        && NS.CanLink(old(Tree()), Parsed(source).value, Parsed(target).value)
        && old(Short(NS.Holder(Tree(), Parsed(target).value), DIRECTORY_ENTRY_SIZE))
        && NS.LinkFails(old(Tree()), Tree(), Parsed(source).value, Parsed(target).value)
    {
      hide Laws.PathGone, Laws.PathAdded, Laws.PathMoved, NS.MoreLinks, NS.LinkedCapped, NS.Holder, NS.Resolve, Short, NS.Cleared, Dense, Good, Raw.Holds, I.Image.Shape, BitScan.Bitmap.Used, Contents, WellFormed, DirNames, Unique, OthersKept, Formed, TreeOf, NS.TreeOK, Parsed, NS.Walk, ValidPath;
      ghost var ns := Tree();
      var from := Parse(source);
      if from.Err? {
        ParseErrors(source);
        return Err(from.error);
      }
      var to := Parse(target);
      if to.Err? {
        ParseErrors(target);
        return Err(to.error);
      }
      if to.value == [] {
        return Err(InvalidArgument);
      }
      PathNames(source);
      PathNames(target);
      PathStands(ns, from.value);
      var f := ResolvePath(from.value);
      if f.Err? {
        return Err(f.error);
      }
      var inode := ReadNode(f.value);
      if DirectoryInode(inode) {
        return Err(Unsupported);
      }
      var d := ResolveParent(to.value);
      if d.Err? {
        return Err(d.error);
      }
      var name := to.value[|to.value| - 1];
      var taken := LookupChild(d.value, name);
      if taken.Err? {
        return Err(taken.error);
      }
      if taken.value.Some? {
        return Err(AlreadyExists);
      }
      LinkedTree(ns, d.value, name, f.value);
      r := GiveName(d.value, name, f.value, inode);
      if r.Ok? { Laws.LinkedPaths(ns, Tree(), from.value, to.value); }
    }

    /** Counts one more link of file f, then enters its new name. */
    method GiveName(d: nat, name: Name, f: U16, inode: DiskInode) returns (r: Result<Unit, Error>)
      requires Ready() && NS.TreeOK(Tree()) && NS.IsDir(Tree(), d) && !NS.Names(Tree(), d, name)
      requires !NS.IsDot(name) && 0 !in name && |name| <= NAME_LENGTH
      requires f != 0 && f in Tree() && Tree()[f].File?
      requires f in core.raw.inodes && core.raw.inodes[f] == inode && inode.links == Tree()[f].links
      modifies core, core.raw, core.zoneBits
      ensures Ready()
      ensures old(Dense()) ==> Dense()
      ensures r.Ok? ==> Tree() == NS.LinkedCapped(old(Tree()), d, name, f) && core.lost == old(core.lost)
      ensures r.Err? ==>
        && r.error == NoSpace && old(Short(d, DIRECTORY_ENTRY_SIZE))
        && Tree() == NS.Cleared(NS.MoreLinks(old(Tree()), f), d)
    {
      hide Dense, Good, Raw.Holds, I.Image.Shape, BitScan.Bitmap.Used, Contents, WellFormed, DirNames, Unique, OthersKept, Formed, TreeOf, NS.TreeOK;
      assert f != d;
      ChangeLinks(f, inode, Min(255, inode.links + 1));
      r := AddDirectoryEntry(d, name, f, inode.mtime);
    }

    /** Renames one path. Unless space runs out it succeeds exactly when the source is an
        entry, the target could be added, and no directory would move below itself. */
    method RenamePath(source: Bytes, target: Bytes) returns (r: Result<Unit, Error>)
      requires Ready() && NS.TreeOK(Tree()) && Storable(target)
      modifies core, core.raw, core.zoneBits
      ensures Ready()
      ensures old(Dense()) ==> Dense()
      ensures r.Ok? ==>
        && Parsed(source).Ok? && Parsed(target).Ok?
        && core.lost == old(core.lost)
        && if source == target then Tree() == old(Tree())
           else
             && NS.Renames(old(Tree()), Tree(), Parsed(source).value, Parsed(target).value)
             && Laws.PathMoved(old(Tree()), Tree(), Parsed(source).value, Parsed(target).value)
             && (NS.TreeOK(Tree()) <==> !NS.Overfills(old(Tree()), Parsed(source).value, Parsed(target).value))
      ensures r.Err? && r.error != NoSpace ==>
        && Tree() == old(Tree()) && core.lost == old(core.lost)
        && !(Parsed(source).Ok? && Parsed(target).Ok? && NS.CanRename(old(Tree()), Parsed(source).value, Parsed(target).value))
      ensures r == Err(NoSpace) ==>
        && Parsed(source).Ok? && Parsed(target).Ok?
        && NS.CanRename(old(Tree()), Parsed(source).value, Parsed(target).value)
        && NS.RenameFails(old(Tree()), Tree(), NS.Holder(old(Tree()), Parsed(source).value), NS.Last(Parsed(source).value),
                          NS.Holder(old(Tree()), Parsed(target).value), NS.Last(Parsed(target).value))
        && (old(Dense()) ==>
              && old(Short(NS.Holder(Tree(), Parsed(target).value), DIRECTORY_ENTRY_SIZE))
              && Tree() == NS.Cleared(old(Tree()), NS.Holder(old(Tree()), Parsed(target).value)))
    {
      hide Laws.PathGone, Laws.PathAdded, Laws.PathMoved, NS.RenameFails, NS.Holder, NS.Resolve, Short, NS.Cleared, NS.Overfills, Dense, Good, Raw.Holds, I.Image.Shape, BitScan.Bitmap.Used, Contents, WellFormed, DirNames, Unique, OthersKept, Formed, TreeOf, NS.TreeOK, NS.RenamedCapped, Parsed, NS.Walk, NS.IsDot, NS.Clean, ValidPath;
      ghost var ns := Tree();
      var parsed := Parse(source);
      if parsed.Err? {
        ParseErrors(source);
        return Err(parsed.error);
      }
      var from := parsed.value;
      parsed := Parse(target);
      if parsed.Err? {
        ParseErrors(target);
        return Err(parsed.error);
      }
      var to := parsed.value;
      DisplayParsed(source);
      DisplayParsed(target);
      if from == to {
        return Ok(Unit);
      }
      if from == [] || to == [] {
        return Err(InvalidArgument);
      }
      PathNames(source);
      PathNames(target);
      var s := ResolveParent(from);
      if s.Err? {
        return Err(s.error);
      }
      var t := ResolveParent(to);
      if t.Err? {
        return Err(t.error);
      }
      var name := from[|from| - 1];
      var newName := to[|to| - 1];
      var taken := LookupChild(t.value, newName);
      if taken.Err? {
        return Err(taken.error);
      }
      if taken.value.Some? {
        return Err(AlreadyExists);
      }
      var child := LookupChild(s.value, name);
      if child.Err? {
        return Err(child.error);
      }
      if child.value.None? {
        return Err(NotFound);
      }
      r := MoveNode(from, to, s.value, t.value, child.value.value);
      if r.Ok? { Laws.RenamedPaths(ns, Tree(), from, to); }
    }

    /** Moves what a path stands for, unless it would come below itself. */
    method MoveNode(from: ImagePath, to: ImagePath, s: nat, t: nat, n: nat) returns (r: Result<Unit, Error>)
      requires Ready() && NS.TreeOK(Tree()) && NS.Clean(from) && NS.Clean(to)
      requires NS.Stands(Tree(), from) && NS.Vacant(Tree(), to) && 0 !in NS.Last(to) && |NS.Last(to)| <= NAME_LENGTH
      requires s == NS.Holder(Tree(), from) && t == NS.Holder(Tree(), to) && n == NS.Standing(Tree(), from)
      modifies core, core.raw, core.zoneBits
      ensures Ready()
      ensures old(Dense()) ==> Dense()
      ensures r.Ok? ==>
        && NS.Renames(old(Tree()), Tree(), from, to) && core.lost == old(core.lost)
        && (NS.TreeOK(Tree()) <==> !NS.Overfills(old(Tree()), from, to))
      ensures r.Err? && r.error != NoSpace ==>
        Tree() == old(Tree()) && core.lost == old(core.lost) && !NS.CanRename(old(Tree()), from, to)
      ensures r == Err(NoSpace) ==>
        && NS.CanRename(old(Tree()), from, to)
        && NS.RenameFails(old(Tree()), Tree(), s, NS.Last(from), t, NS.Last(to))
        && (old(Dense()) ==> old(Short(t, DIRECTORY_ENTRY_SIZE)) && Tree() == NS.Cleared(old(Tree()), t))
    {
      hide NS.RenameFails, NS.Holder, NS.Resolve, Short, NS.Cleared, NS.Overfills, Dense, Good, Raw.Holds, I.Image.Shape, BitScan.Bitmap.Used, Contents, WellFormed, DirNames, Unique, OthersKept, Formed, TreeOf, NS.TreeOK, NS.RenamedCapped;
      ghost var ns := Tree();
      EntryExists(ns, s, NS.Last(from));
      TreeNumbers(ns);
      var inode := ReadNode(n);
      if DirectoryInode(inode) && from < to {
        return Err(InvalidArgument);
      }
      var _ := ReadNode(t);
      RenamedTree(ns, from, to);
      r := MoveEntry(s, NS.Last(from), t, NS.Last(to), n, inode);
    }

    /** Turns the `..` of directory n to t and counts the link. */
    method Reparent(n: nat, t: U16, mtime: U32) returns (r: Result<Unit, Error>)
      requires Ready() && NS.Names(Tree(), n, DOTDOT) && t in Tree() && t != 0
      modifies core, core.raw, core.zoneBits
      ensures Ready()
      ensures old(Dense()) ==> Dense() && r.Ok?
      ensures r.Err? ==> Tree() == NS.Cleared(old(Tree()), n)
      ensures r.Ok? ==> Tree() == NS.Reparented(old(Tree()), n, t) && core.lost == old(core.lost)
      ensures r.Err? ==> r.error == NoSpace
    {
      hide Dense, Good, Raw.Holds, I.Image.Shape, BitScan.Bitmap.Used, Contents, WellFormed, DirNames, Unique, OthersKept, Formed, TreeOf;
      r := UpdateDirectoryParent(n, t, mtime);
      if r.Ok? {
        AddLink(t);
      }
    }

    /** Adds the new entry, turns the parent of a moved directory, and takes the old
        entry away. */
    method MoveEntry(s: nat, a: Name, t: U16, b: Name, n: U16, inode: DiskInode) returns (r: Result<Unit, Error>)
      requires Ready() && NS.Names(Tree(), s, a) && NS.Child(Tree(), s, a) == n != 0
      requires NS.IsDir(Tree(), t) && t != 0 && !NS.Names(Tree(), t, b)
      requires !NS.IsDot(a) && !NS.IsDot(b) && 0 !in b && |b| <= NAME_LENGTH
      requires n in Tree() && (DirectoryInode(inode) <==> NS.IsDir(Tree(), n))
      requires NS.IsDir(Tree(), n) ==> NS.Names(Tree(), n, DOTDOT)
      requires Tree()[s].links > 0 && Tree()[t].links <= 255
      modifies core, core.raw, core.zoneBits
      ensures Ready()
      ensures old(Dense()) ==> Dense()
      ensures r.Ok? ==> Tree() == NS.RenamedCapped(old(Tree()), s, a, t, b) && core.lost == old(core.lost)
      ensures r.Err? ==> r.error == NoSpace
      ensures r.Err? && old(Dense()) ==> old(Short(t, DIRECTORY_ENTRY_SIZE)) && Tree() == NS.Cleared(old(Tree()), t)
      ensures r.Err? ==> NS.RenameFails(old(Tree()), Tree(), s, a, t, b)
    {
      hide Short, NS.Cleared, Dense, Good, Raw.Holds, I.Image.Shape, BitScan.Bitmap.Used, Contents, WellFormed, DirNames, Unique, OthersKept, Formed, TreeOf;
      hide NS.RenamedCapped, NS.Renamed, DirectoryInode;
      NS.CappedSteps(Tree(), s, a, t, b);
      var directory := DirectoryInode(inode);
      r := AddDirectoryEntry(t, b, n, inode.mtime);
      if r.Err? {
        return;
      }
      if directory && s != t {
        r := Reparent(n, t, inode.mtime);
        if r.Err? {
          return;
        }
      }
      var removed := RemoveDirectoryEntry(s, a, Some(n));
      if removed.Err? {
        return Err(removed.error);
      }
      if directory && s != t {
        DropLink(s);
      }
      return Ok(Unit);
    }

    /** The path leads to a regular file whose size the format can address. */
    ghost predicate Readable(path: ImagePath)
      reads core, core.raw, core.inodeBits
      requires core.inodeBits.Valid()
    {
      match NS.Resolve(Tree(), path) case None => false case Some(f) => Plain(f)
    }

    /** Reads one regular file. */
    method ReadFileAtPath(text: Bytes) returns (r: Result<Bytes, Error>)
      requires Ready() && NS.TreeOK(Tree())
      ensures r.Ok? <==> Parsed(text).Ok? && Readable(Parsed(text).value)
      ensures r.Ok? ==> NS.Reads(Tree(), Parsed(text).value, r.value)
    {
      hide Good, Raw.Holds, I.Image.Shape, BitScan.Bitmap.Used, Contents, WellFormed, DirNames, Unique, OthersKept, Formed, TreeOf, NS.TreeOK, Parsed;
      var parsed := Parse(text);
      if parsed.Err? {
        return Err(parsed.error);
      }
      var f := ResolvePath(parsed.value);
      if f.Err? {
        return Err(f.error);
      }
      RecordOf(f.value);
      var inode := ReadNode(f.value);
      match FileType(inode.mode) {
        case Some(Regular) =>
          r := core.ReadInodeContents(f.value, inode);
        case Some(Directory) =>
          return Err(IsDirectory);
        case Some(_) =>
          return Err(Unsupported);
        case None =>
          return Err(Corrupt);
      }
    }

    /** Between operations that lost no zone, a zone bit is set exactly when one and only
        one pointer of an allocated inode reaches the zone (or the bit is the reserved
        one), an inode bit exactly when an entry names the inode, and every link count is
        the number of those entries. */
    lemma BitsExact()
      requires Ready() && NS.TreeOK(Tree()) && core.lost == {}
      ensures ZonesExact(core.world, core.raw.zones, Live(), core.zoneBits.Used(), core.sb.firstDataZone)
      ensures forall n: nat | n != 0 :: n in core.inodeBits.Used() <==> NS.Refs(Tree(), n) != {}
      ensures forall n | n in Live() :: n in core.raw.inodes && core.raw.inodes[n].links == |NS.Refs(Tree(), n)|
    {
      hide Good, Raw.Holds, BitScan.Bitmap.Used, Contents, WellFormed, DirNames, Unique, OthersKept, Formed, TreeOf, Target, NS.TreeOK, ZonesExact;
      OwnersExact(Live(), core.Snapshot(), core.zoneBits.Used(), core.sb.firstDataZone, core.spare);
      LiveIsTree(Live(), core.Snapshot());
      NamesExact(Live(), Tree());
      forall n | n in Live() ensures n in core.raw.inodes && core.raw.inodes[n].links == |NS.Refs(Tree(), n)| {
        RecordOf(n);
        LinksOf(core.raw.inodes[n], core.raw.zones);
      }
    }
  }

  datatype NodeOptions = NodeOptions(mode: U16, uid: U16, gid: U8, mtime: U32)

  /** The entries with one more name, in the first empty slot or at the end; none if the
      name is too long. */
  method WithEntry(es: Entries, name: Name, child: U16) returns (r: Option<Entries>)
    requires Unique(es) && name !in NamesOf(es) && 0 !in name && child != 0
    ensures r.None? <==> |name| > NAME_LENGTH
    ensures r.Some? ==>
      && Unique(r.value) && NamesOf(r.value) == NamesOf(es)[name := child]
      && ZoneCost(DataBlocks(|r.value| * DIRECTORY_ENTRY_SIZE)) <= ZoneCost(DataBlocks((|es| + 1) * DIRECTORY_ENTRY_SIZE))
  {
    hide CutAtNul, ZoneCost, DataBlocks, Unique;
    var slot := FindSlot(es);
    var entry := NewEntry(name, child);
    if entry.None? {
      return None;
    }
    EntryNameRoundTrip(name, child);
    PutNames(es, slot, entry.value);
    PutCost(es, slot, entry.value);
    return Some(Put(es, slot, entry.value));
  }

  /** The first two entries of every directory. */
  method DotEntries(n: U16, parent: U16) returns (es: Entries)
    requires n != 0 && parent != 0
    ensures Unique(es) && NamesOf(es) == NS.DotNames(n, parent) && |es| == 2
    ensures es[0] == EntryRecord(n, [46] + Zeros(13)) && es[1] == EntryRecord(parent, [46, 46] + Zeros(12))
  {
    es := [NewEntry(DOT, n).value, NewEntry(DOTDOT, parent).value];
    EntryNameRoundTrip(DOT, n);
    EntryNameRoundTrip(DOTDOT, parent);
    assert DOT != DOTDOT;
    assert At(es, 0, DOT) && At(es, 1, DOTDOT);
    NamesUnique(es, NS.DotNames(n, parent));
  }

  /** A zone allocated (s to t), then attached to inode n (t' to u). */
  lemma TakenOnce(s: Snap, t: Snap, t': Snap, u: Snap, n: nat, z: nat)
    requires Fresh(s, t, z) && t'.own == t.own && t'.lost == t.lost && Takes(t', u, n, Direct(0), z)
    ensures u.lost == s.lost && OwnersKept(s.own, u.own, n)
    ensures InodeZones(s.own, n) == {} ==> |InodeZones(u.own, n)| == 1
  {
    if InodeZones(s.own, n) == {} {
      forall y ensures y in InodeZones(u.own, n) <==> y == z {
        assert y !in InodeZones(s.own, n);
      }
      assert InodeZones(u.own, n) == {z};
    }
  }

  lemma ZeroOwnsNothing(s: Snap, n: nat)
    requires Sound(s) && n in s.w && s.w[n] == ZeroInode
    ensures InodeZones(s.own, n) == {}
  {
    forall y | y in InodeZones(s.own, n) ensures false {
      OwnerPoints(s.w, s.disk, s.own, y);
      EmptyTargets(s.disk, s.own[y].ptr);
    }
  }

  lemma EmptyTargets(disk: Disk, p: Ptr)
    ensures Target(ZeroInode, disk, p) == 0
  {
    if p.Direct? { assert ZeroInode.direct[p.i] == 0; }
  }

  /** What a file of a size costs in zones. */
  ghost function Price(size: nat): nat { ZoneCost(DataBlocks(size)) }

  /** ... and what writing it at a path costs at most, with the directories to be made and
      the entry. */
  ghost function PriceBelow(ns: NS.Nodes, path: ImagePath, size: nat): nat
  {
    4 * NS.Missing(ns, NS.Above(path)) + Price(size) + 3
  }

  lemma OneBlockCosts()
    ensures ZoneCost(DataBlocks(2 * DIRECTORY_ENTRY_SIZE)) == 1
  {
  }

  lemma OneLess(count: nat, live: set<nat>, n: nat)
    requires 1 <= n <= count && n !in live
    ensures |BitSpec.Range(1, count) - (live + {n})| == |BitSpec.Range(1, count) - live| - 1
  {
    assert BitSpec.Range(1, count) - live == (BitSpec.Range(1, count) - (live + {n})) + {n};
  }

  /** The names of the path hold no NUL byte, which a directory slot cannot keep. */
  predicate Storable(text: Bytes) { Parsed(text).Ok? ==> forall i | 0 <= i < |Parsed(text).value| :: 0 !in Parsed(text).value[i] }

  lemma DenseIs(s: Snap, d: nat)
    requires DenseAt(s, d)
    ensures d in s.w && |InodeZones(s.own, d)| == ZoneCost(DataBlocks(s.w[d].size))
  {
  }

  /** One entry more takes at most a block with two tables. */
  lemma OneEntryMore(size: nat)
    ensures ZoneCost(DataBlocks(size + DIRECTORY_ENTRY_SIZE)) <= ZoneCost(DataBlocks(size)) + 3
  {
  }

  /** What another inode's change leaves of an inode. */
  lemma OthersSize(w: World, own: Owners, w': World, own': Owners, n: nat, d: nat)
    requires OneChanged(w, own, w', own', n) && d != n
    ensures d in w <==> d in w'
    ensures d in w ==> w'[d] == w[d] && InodeZones(own', d) == InodeZones(own, d)
  {
  }

  lemma SameOwners(own: Owners, n: nat)
    ensures OwnersKept(own, own, n)
  {
  }

  /** A record with the same size and zones is as dense as before. */
  lemma SameDensity(live: set<nat>, s: Snap, t: Snap, n: nat)
    requires DenseDirectories(live, s) && n in live && n in s.w && n in t.w && t.own == s.own
    requires t.w[n].mode == s.w[n].mode && t.w[n].size == s.w[n].size
    ensures OwnersKept(s.own, t.own, n) && (DirectoryInode(t.w[n]) ==> DenseAt(t, n))
  {
    if DirectoryInode(t.w[n]) { assert DenseAt(s, n); }
  }

  lemma PathNames(text: Bytes)
    requires Parsed(text).Ok?
    ensures ValidPath(Parsed(text).value) && NS.Clean(Parsed(text).value)
    ensures forall i | 0 <= i < |Parsed(text).value| :: |Parsed(text).value[i]| <= NAME_LENGTH
  {
    DisplayParsed(text);
  }

  lemma ExistingChild(ns: NS.Nodes, m: NS.Nodes, q: ImagePath, d: nat, a: Name)
    requires NS.TreeOK(m) && NS.Names(m, d, a) && !NS.IsDot(a)
    requires NS.Resolve(m, q) == Some(d) && NS.Extends(ns, m, q, None) && (m == ns || NS.Bare(m, d))
    ensures m == ns && NS.Child(m, d, a) in m && NS.Child(m, d, a) != 0
    ensures NS.Resolve(m, q + [a]) == Some(NS.Child(m, d, a)) && NS.Extends(ns, m, q + [a], None)
  {
    hide NS.Dotted, NS.Rooted, NS.Reached, NS.Counted, NS.Extends;
    NS.ChildExists(m, d, a);
    NS.NumbersPositive(m, NS.Child(m, d, a));
    assert (q + [a])[..|q|] == q;
    NS.WalkLast(m, NS.ROOT, q + [a]);
    NS.ExtendsRefl(m, q + [a]);
  }

  /** A name that is missing now was missing before, and there is room for it. */
  lemma ChildMissing(ns: NS.Nodes, m: NS.Nodes, path: ImagePath, i: nat, d: nat)
    requires i < |path| && NS.Clean(path) && NS.IsDir(m, d) && !NS.Names(m, d, path[i])
    requires NS.Resolve(m, path[..i]) == Some(d) && NS.Extends(ns, m, path[..i], None)
    ensures NS.Resolve(ns, path[..i + 1]).None?
    ensures m == ns && NS.RoomToMake(ns, path) ==> m[d].links < 255
  {
    assert path[..i + 1][..i] == path[..i];
    NS.WalkLast(m, NS.ROOT, path[..i + 1]);
    assert NS.RoomToMake(ns, path) ==> NS.RoomAt(ns, path, i);
  }

  lemma ChildMade(ns: NS.Nodes, m: NS.Nodes, q: ImagePath, d: nat, a: Name, n: nat)
    requires NS.TreeOK(m) && NS.IsDir(m, d) && a !in m[d].names && !NS.IsDot(a) && n !in m && n != 0
    requires NS.Clean(q) && NS.Resolve(m, q) == Some(d) && NS.Extends(ns, m, q, None)
    ensures var k := NS.MadeDir(m, d, a, n);
      && NS.TreeOK(k) && NS.IsDir(k, n) && k[n].links == 2 && NS.Bare(k, n)
      && NS.Resolve(k, q + [a]) == Some(n) && NS.Extends(ns, k, q + [a], None)
  {
    hide NS.Dotted, NS.Rooted, NS.Reached, NS.Counted, NS.Bare, NS.Extends, NS.MadeDir;
    NS.MadeDirOK(m, d, a, n);
    NS.MadeDirNode(m, d, a, n);
    NS.MadeDirExtends(m, q, d, a, n);
    NS.ExtendsTrans(ns, m, NS.MadeDir(m, d, a, n), q, q + [a], None);
  }

  lemma RootAlone(a: NS.Node, b: NS.Node)
    ensures map[NS.ROOT := a][NS.ROOT := b] == map[NS.ROOT := b] && map[][NS.ROOT := a] == map[NS.ROOT := a]
  {
  }

  lemma ParentText(path: ImagePath)
    requires ValidPath(path) && path != []
    requires forall i | 0 <= i < |path| :: 0 !in path[i]
    ensures Parsed(Display(path[..|path| - 1])) == Ok(path[..|path| - 1]) && Storable(Display(path[..|path| - 1]))
  {
    ParentValid(path);
    ParsedDisplay(path[..|path| - 1]);
  }

  lemma EntryExists(ns: NS.Nodes, d: nat, a: Name)
    requires NS.TreeOK(ns)
    ensures NS.Names(ns, d, a) ==> NS.Child(ns, d, a) in ns && NS.Child(ns, d, a) != 0
  {
    hide NS.Dotted, NS.Rooted, NS.Reached, NS.Counted;
    if NS.Names(ns, d, a) {
      NS.ChildExists(ns, d, a);
      NS.NumbersPositive(ns, NS.Child(ns, d, a));
    }
  }

  lemma TreeNumbers(ns: NS.Nodes)
    requires NS.TreeOK(ns)
    ensures 0 !in ns
  {
  }

  /** There is no directory 0. */
  lemma HolderExists(ns: NS.Nodes, path: ImagePath)
    requires NS.TreeOK(ns) && path != []
    ensures NS.Resolve(ns, path[..|path| - 1]).None? ==> !NS.IsDir(ns, NS.Holder(ns, path))
  {
  }

  lemma FileRewritten(ns: NS.Nodes, m: NS.Nodes, path: ImagePath, d: nat, f: nat, data: Bytes)
    requires NS.TreeOK(m) && path != [] && NS.Clean(path) && NS.Extends(ns, m, path[..|path| - 1], None)
    requires NS.Resolve(m, path[..|path| - 1]) == Some(d) && NS.Names(m, d, path[|path| - 1])
    requires NS.Child(m, d, path[|path| - 1]) == f && f in m && m[f].File?
    ensures var k := m[f := NS.File(m[f].links, data)];
      NS.TreeOK(k) && NS.Resolve(k, path) == Some(f) && NS.Extends(ns, k, path, Some(f))
  {
    hide NS.TreeOK, NS.Extends;
    NS.RewrittenOK(m, f, data);
    NS.RewrittenExtends(m, f, data, path);
    NS.WalkLast(m, NS.ROOT, path);
    NS.ExtendsTrans(ns, m, m[f := NS.File(m[f].links, data)], path[..|path| - 1], path, Some(f));
  }

  /** A target that exists had all its directories before. */
  lemma TargetStands(ns: NS.Nodes, m: NS.Nodes, path: ImagePath, d: nat)
    requires path != [] && NS.Clean(path) && NS.Names(m, d, path[|path| - 1])
    requires NS.Resolve(m, path[..|path| - 1]) == Some(d) && (m == ns || NS.Bare(m, d))
    ensures m == ns && NS.Resolve(ns, path) == Some(NS.Child(m, d, path[|path| - 1]))
  {
    NS.WalkLast(m, NS.ROOT, path);
  }

  lemma TargetNew(ns: NS.Nodes, m: NS.Nodes, path: ImagePath, d: nat)
    requires path != [] && NS.Clean(path) && !NS.Names(m, d, path[|path| - 1])
    requires NS.Resolve(m, path[..|path| - 1]) == Some(d) && NS.Extends(ns, m, path[..|path| - 1], None)
    ensures NS.Resolve(ns, path) == None
  {
    NS.WalkLast(m, NS.ROOT, path);
  }

  /** What the path led to before its directories were made. */
  lemma TargetBefore(ns: NS.Nodes, m: NS.Nodes, path: ImagePath)
    requires NS.ReadyFor(ns, m, path)
    ensures NS.DirAbove(m, path) && NS.CanMake(m, NS.Above(path))
    ensures NS.Resolve(m, path).None? ==> NS.Resolve(ns, path).None?
    ensures NS.Resolve(m, path).Some? ==> m == ns
  {
    hide NS.TreeOK, NS.Extends, NS.CanMake;
    NS.WalkLast(m, NS.ROOT, path);
    NS.ExtendsRefl(m, NS.Above(path));
    NS.MadeCouldBe(m, m, NS.Above(path));
    var d := NS.Resolve(m, NS.Above(path)).value;
    if NS.Names(m, d, path[|path| - 1]) { TargetStands(ns, m, path, d); } else { TargetNew(ns, m, path, d); }
  }

  lemma PutAfter(ns: NS.Nodes, m: NS.Nodes, k: NS.Nodes, path: ImagePath, data: Bytes, overwrite: bool)
    requires NS.ReadyFor(ns, m, path) && NS.FilePut(m, k, path, data, overwrite)
    ensures NS.FilePut(ns, k, path, data, overwrite)
  {
    hide NS.TreeOK, NS.Extends, NS.CanMake, NS.Resolve, NS.Reads, NS.Clean, NS.IsDir, NS.Bare;
    TargetBefore(ns, m, path);
    NS.ExtendsTrans(ns, m, k, NS.Above(path), path, NS.Resolve(k, path));
  }

  lemma PutFailsSince(ns: NS.Nodes, m: NS.Nodes, k: NS.Nodes, path: ImagePath)
    requires NS.ReadyFor(ns, m, path) && NS.PutFailsIn(m, k, NS.Above(path), m)
    ensures NS.WriteFails(ns, k, path)
  {
    hide NS.TreeOK, NS.Extends, NS.CanMake, NS.Resolve, NS.PutFails;
    assert NS.PutFailsIn(ns, k, NS.Above(path), m);
  }

  lemma FileCreated(ns: NS.Nodes, m: NS.Nodes, path: ImagePath, d: nat, k: NS.Nodes, data: Bytes, n: nat)
    requires NS.TreeOK(m) && path != [] && NS.Clean(path) && NS.Extends(ns, m, path[..|path| - 1], None)
    requires NS.Resolve(m, path[..|path| - 1]) == Some(d) && NS.IsDir(m, d) && path[|path| - 1] !in m[d].names
    requires n != 0 && n !in m && k == NS.Created(m, d, path[|path| - 1], n, data)
    ensures NS.TreeOK(k) && NS.Resolve(k, path) == Some(n)
    ensures var f := NS.Resolve(k, path);
      f.value in k && k[f.value].File? && k[f.value].data == data && NS.Extends(ns, k, path, f)
  {
    hide NS.Dotted, NS.Rooted, NS.Reached, NS.Counted, NS.Extends;
    var q, a := path[..|path| - 1], path[|path| - 1];
    assert path == q + [a];
    NS.CreatedOK(m, d, a, n, data);
    NS.CreatedExtends(m, q, d, a, n, data);
    NS.ExtendsTrans(ns, m, k, q, path, None);
    NS.ExtendsWeaker(ns, k, path, Some(n));
  }

  /** Taking the name, then the link. */
  lemma UnlinkedTree(ns: NS.Nodes, d: nat, a: Name)
    requires NS.TreeOK(ns) && NS.Names(ns, d, a) && !NS.IsDot(a)
    requires NS.Child(ns, d, a) in ns && ns[NS.Child(ns, d, a)].File?
    ensures NS.TreeOK(NS.Unlinked(ns, d, a))
  {
    NS.UnlinkedOK(ns, d, a);
  }

  /** A path resolves exactly when its last name stands in its parent. */
  lemma PathStands(ns: NS.Nodes, path: ImagePath)
    requires NS.TreeOK(ns)
    ensures path != [] ==>
      && (NS.Stands(ns, path) <==> NS.Resolve(ns, path).Some?)
      && (NS.Stands(ns, path) ==> NS.Resolve(ns, path) == Some(NS.Standing(ns, path)))
      && (NS.Stands(ns, path) ==> NS.Resolve(ns, path[..|path| - 1]) == Some(NS.Holder(ns, path)))
    ensures path == [] ==> NS.Resolve(ns, path) == Some(NS.ROOT) && NS.IsDir(ns, NS.ROOT)
  {
    if path != [] { NS.StandsResolves(ns, path); }
  }

  lemma RemovedTree(ns: NS.Nodes, d: nat, a: Name)
    requires NS.TreeOK(ns) && NS.Names(ns, d, a) && !NS.IsDot(a)
    requires NS.IsDir(ns, NS.Child(ns, d, a)) && NS.Bare(ns, NS.Child(ns, d, a))
    ensures NS.Child(ns, d, a) != d && ns[d].links > 0 && NS.TreeOK(NS.RemovedDir(ns, d, a))
    ensures NS.SetLinks(NS.DelName(ns, d, a), d, ns[d].links - 1) - {NS.Child(ns, d, a)} == NS.RemovedDir(ns, d, a)
  {
    hide NS.TreeOK;
    NS.RemovedDirOK(ns, d, a);
    NS.RemovedDirOrder(ns, d, a);
  }

  lemma LinkedTree(ns: NS.Nodes, d: nat, a: Name, f: nat)
    requires NS.TreeOK(ns) && NS.IsDir(ns, d) && a !in ns[d].names && !NS.IsDot(a)
    requires f in ns && ns[f].File? && ns[f].links <= 255
    ensures NS.TreeOK(NS.LinkedCapped(ns, d, a, f)) <==> ns[f].links < 255
  {
    NS.LinkSaturation(ns, d, a, f);
  }

  /** What a rename between two paths needs and keeps. */
  lemma RenamedTree(ns: NS.Nodes, from: ImagePath, to: ImagePath)
    requires NS.TreeOK(ns) && NS.CanRename(ns, from, to) && NS.Clean(from) && NS.Clean(to)
    requires ns[NS.Holder(ns, to)].links <= 255
    ensures var s, t := NS.Holder(ns, from), NS.Holder(ns, to);
      && ns[s].links > 0
      && (NS.IsDir(ns, NS.Standing(ns, from)) ==> NS.Names(ns, NS.Standing(ns, from), DOTDOT))
      && (NS.TreeOK(NS.RenamedCapped(ns, s, NS.Last(from), t, NS.Last(to))) <==> !NS.Overfills(ns, from, to))
  {
    hide NS.Dotted, NS.Rooted, NS.Reached, NS.Counted, NS.Renamed, NS.RenamedCapped;
    HolderExists(ns, from);
    HolderExists(ns, to);
    assert from == from[..|from| - 1] + [NS.Last(from)] && to == to[..|to| - 1] + [NS.Last(to)];
    NS.RenameSaturation(ns, from[..|from| - 1], NS.Last(from), to[..|to| - 1], NS.Last(to));
    if NS.IsDir(ns, NS.Standing(ns, from)) { NS.DottedAt(ns, NS.Standing(ns, from)); }
  }

  /** A zone's bit is set exactly when one pointer of one allocated inode reaches it; the
      bit below the first data zone is reserved. */
  ghost predicate ZonesExact(w: World, disk: Disk, live: set<nat>, used: set<nat>, first: nat)
  {
    && (forall z: nat :: z in used <==> z == first - 1 || Reaching(w, disk, live, z))
    && (forall n, p, n', p' | n in w && n' in w && Target(w[n], disk, p) == Target(w[n'], disk, p') != 0 ::
          n == n' && p == p')
  }

  ghost predicate Reaching(w: World, disk: Disk, live: set<nat>, z: nat)
  {
    z != 0 && exists n, p :: n in live && n in w && Target(w[n], disk, p) == z
  }

  lemma OwnersExact(live: set<nat>, s: Snap, used: set<nat>, first: nat, spare: nat)
    requires Formed(live, s) && Good(s, used, first, spare) && s.lost == {}
    ensures ZonesExact(s.w, s.disk, live, used, first)
  {
    hide Target;
    OwnedMeansOnePointer(s.w, s.disk, s.own);
    LiveOwners(live, s);
    forall z: nat ensures z in s.own <==> Reaching(s.w, s.disk, live, z) {
    }
  }

  lemma LiveIsTree(live: set<nat>, s: Snap)
    requires Formed(live, s)
    ensures TreeOf(live, s).Keys == live
  {
  }

  lemma LinksOf(inode: DiskInode, disk: Disk)
    ensures NodeOf(inode, disk).links == inode.links
  {
  }

  /** Only allocated inodes have pointers. */
  lemma LiveOwners(live: set<nat>, s: Snap)
    requires Formed(live, s)
    ensures forall n, p | n in s.w && Target(s.w[n], s.disk, p) != 0 :: n in live
  {
    forall n, p | n in s.w && n !in live ensures Target(s.w[n], s.disk, p) == 0 {
      if p.Direct? { assert ZeroInode.direct[p.i] == 0; }
    }
  }

  lemma NamesExact(live: set<nat>, ns: NS.Nodes)
    requires NS.TreeOK(ns) && ns.Keys == live
    ensures forall n: nat :: n in live <==> NS.Refs(ns, n) != {}
    ensures forall n | n in live :: ns[n].links == |NS.Refs(ns, n)|
  {
    hide NS.Refs, NS.Dotted, NS.Rooted, NS.Reached;
    forall n: nat | n !in live ensures NS.Refs(ns, n) == {} {
      NS.FreshUnnamed(ns, n);
    }
  }

  lemma FirstNumber(n: nat, live: set<nat>)
    requires live == {} && n != 0 && forall m | 1 <= m < n :: m in live
    ensures n == NS.ROOT
  {
    assert 1 in live || 1 !in live;
  }

  lemma DirectorySize(live: set<nat>, s: Snap, d: nat)
    requires Formed(live, s) && d in live && DirectoryInode(s.w[d])
    ensures WellFormed(Contents(s.w[d], s.disk))
    ensures DataBlocks(s.w[d].size) <= MAX_LOGICAL_BLOCKS && s.w[d].size % DIRECTORY_ENTRY_SIZE == 0
  {
  }

  lemma EmptyContents(inode: DiskInode, disk: Disk)
    requires inode == Emptied(inode)
    ensures Contents(inode, disk) == []
  {
  }

  /** Decodes the entries of a directory one by one. */
  method DecodeAll(bytes: Bytes) returns (es: Entries)
    requires |bytes| % DIRECTORY_ENTRY_SIZE == 0
    ensures es == DecodeEntries(bytes)
  {
    hide DecodeEntry, DecodeEntries;
    es := [];
    var start := 0;
    assert bytes[0..] == bytes;
    while start < |bytes|
      invariant start <= |bytes| && start % DIRECTORY_ENTRY_SIZE == 0
      invariant DecodeEntries(bytes) == es + DecodeEntries(bytes[start..])
    {
      DecodeStep(bytes, start);
      es := es + [DecodeEntry(bytes[start..start + DIRECTORY_ENTRY_SIZE])];
      start := start + DIRECTORY_ENTRY_SIZE;
    }
    assert bytes[start..] == [];
    NothingDecoded();
  }

  lemma PutCost(es: Entries, k: nat, e: DirEntry)
    requires k <= |es|
    ensures ZoneCost(DataBlocks(|Put(es, k, e)| * DIRECTORY_ENTRY_SIZE)) <= ZoneCost(DataBlocks((|es| + 1) * DIRECTORY_ENTRY_SIZE))
  {
    ZoneCostMonotone(DataBlocks(|Put(es, k, e)| * DIRECTORY_ENTRY_SIZE), DataBlocks((|es| + 1) * DIRECTORY_ENTRY_SIZE));
  }

  lemma NothingDecoded()
    ensures DecodeEntries([]) == []
  {
  }

  lemma DecodeStep(bytes: Bytes, start: nat)
    requires |bytes| % DIRECTORY_ENTRY_SIZE == 0 && start % DIRECTORY_ENTRY_SIZE == 0 && start < |bytes|
    ensures start + DIRECTORY_ENTRY_SIZE <= |bytes|
    ensures DecodeEntries(bytes[start..])
         == [DecodeEntry(bytes[start..start + DIRECTORY_ENTRY_SIZE])] + DecodeEntries(bytes[start + DIRECTORY_ENTRY_SIZE..])
  {
    var rest := bytes[start..];
    assert rest[..DIRECTORY_ENTRY_SIZE] == bytes[start..start + DIRECTORY_ENTRY_SIZE];
    assert rest[DIRECTORY_ENTRY_SIZE..] == bytes[start + DIRECTORY_ENTRY_SIZE..];
  }

  /** Encodes an entry array one entry after another. */
  method EncodeAll(es: Entries) returns (bytes: Bytes)
    ensures bytes == EncodeEntries(es)
  {
    bytes := [];
    for k := 0 to |es|
      invariant EncodeEntries(es) == bytes + EncodeEntries(es[k..])
    {
      assert es[k..][1..] == es[k + 1..];
      bytes := bytes + EncodeEntry(es[k]);
    }
    assert es[|es|..] == [];
  }

  lemma DotsAreBare(ns: NS.Nodes, d: nat, es: Entries)
    requires NS.IsDir(ns, d) && Unique(es) && NamesOf(es) == ns[d].names
    ensures NS.Bare(ns, d) <==> forall k: nat, a: Name | At(es, k, a) :: a == DOT || a == DOTDOT
  {
    hide Unique;
    forall k: nat, a: Name | At(es, k, a) ensures NS.Names(ns, d, a) {
    }
    forall a: Name | NS.Names(ns, d, a) ensures exists k: nat :: At(es, k, a) {
      assert Named(es, a);
    }
  }

  /** A record's node before and after a step that keeps its contents. */
  lemma RecordFormed(live: set<nat>, s: Snap, n: nat)
    requires Formed(live, s) && n in live
    ensures n in s.w && (DirectoryInode(s.w[n]) ==> WellFormed(Contents(s.w[n], s.disk)))
  {
  }

  lemma EmptyPointsNowhere(inode: DiskInode)
    ensures SamePointers(Emptied(inode), ZeroInode)
  {
  }
}
