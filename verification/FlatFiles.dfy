/** A file as a flat sequence of bytes with holes that read as zeros, and what the steps
    of the kernel's file code mean for it. */
module FlatFiles {
  import opened Wrappers
  import opened Layout
  import opened ZoneTree
  import opened ZoneSteps
  import I = Image

  // ----- the flat file -----

  /** Byte `pos` of a flat file; past its end it reads as zero. */
  function FlatByte(c: Bytes, pos: nat): U8 { if pos < |c| then c[pos] else 0 }

  /** d written at an offset: the file grows as far as it must, a gap becomes zeros. */
  function Spliced(c: Bytes, offset: nat, d: Bytes): (r: Bytes)
    ensures |r| == Max(|c|, offset + |d|)
    ensures forall p | 0 <= p < |r| :: r[p] == if offset <= p < offset + |d| then d[p - offset] else FlatByte(c, p)
  {
    var padded := c + Zeros(Max(0, offset - |c|));
    padded[..offset] + d + if offset + |d| < |c| then c[offset + |d|..] else []
  }

  /** As many bytes as are asked for and there are from an offset on, each that of the file. */
  predicate ReadsOut(c: Bytes, offset: nat, len: nat, data: Bytes)
  {
    && |data| == (if offset >= |c| then 0 else Min(len, |c| - offset))
    && forall i | 0 <= i < |data| :: data[i] == c[offset + i]
  }

  lemma ClippedReadsOut(c: Bytes, offset: nat, len: nat)
    ensures ReadsOut(c, offset, len, Clipped(c, offset, len))
  {
  }

  /** Up to len bytes from an offset, clipped at the end of the file. */
  function Clipped(c: Bytes, offset: nat, len: nat): Bytes
  {
    if offset >= |c| then [] else c[offset..Min(|c|, offset + len)]
  }

  /** Reading back what was just written gives it, and any other read sees the old bytes. */
  lemma ReadAfterWrite(c: Bytes, offset: nat, d: Bytes, at: nat, len: nat)
    ensures Clipped(Spliced(c, offset, d), offset, |d|) == d
    ensures at + len <= offset ==> Clipped(Spliced(c, offset, d), at, len) == Clipped(c + Zeros(Max(0, offset - |c|)), at, len)
    ensures offset + |d| <= at ==> Clipped(Spliced(c, offset, d), at, len) == Clipped(c, at, len)
  {
    var w := Spliced(c, offset, d);
    assert w[offset..offset + |d|] == d;
  }

  // ----- bytes of a zone tree -----

  /** Every byte of inode n, within its size or past it, reads as before. */
  ghost predicate SameBytes(s: Snap, t: Snap, n: nat)
    requires n in s.w && n in t.w
  {
    forall pos: nat :: ByteAt(t.w[n], t.disk, pos) == ByteAt(s.w[n], s.disk, pos)
  }

  /** The first k bytes of d are at the offset and every other byte reads as before. */
  ghost predicate Splices(s: Snap, t: Snap, n: nat, offset: nat, d: Bytes, k: nat)
  {
    && n in s.w && n in t.w && k <= |d|
    && forall pos: nat :: ByteAt(t.w[n], t.disk, pos) ==
         if offset <= pos < offset + k then d[pos - offset] else ByteAt(s.w[n], s.disk, pos)
  }

  /** A tree with the written bytes and the new size is the spliced flat file, and bytes
      past the size are still zero. */
  lemma SplicedContents(s: Snap, t: Snap, n: nat, offset: nat, d: Bytes, k: nat)
    requires Splices(s, t, n, offset, d, k) && PastZero(s.w[n], s.disk)
    requires t.w[n].size == Max(s.w[n].size, offset + k)
    ensures Contents(t.w[n], t.disk) == Spliced(Contents(s.w[n], s.disk), offset, d[..k])
    ensures PastZero(t.w[n], t.disk)
  {
    var c := Contents(s.w[n], s.disk);
    forall pos: nat ensures ByteAt(s.w[n], s.disk, pos) == FlatByte(c, pos) {
      if pos >= |c| { assert ByteAt(s.w[n], s.disk, pos) == 0; }
    }
    var r := Spliced(c, offset, d[..k]);
    forall pos | 0 <= pos < t.w[n].size ensures ByteAt(t.w[n], t.disk, pos) == r[pos] {
      assert ByteAt(s.w[n], s.disk, pos) == FlatByte(c, pos);
    }
  }

  lemma SameBytesTrans(s: Snap, t: Snap, u: Snap, n: nat)
    requires n in s.w && n in t.w && n in u.w && SameBytes(s, t, n) && SameBytes(t, u, n)
    ensures SameBytes(s, u, n)
  {
    forall pos: nat ensures ByteAt(u.w[n], u.disk, pos) == ByteAt(s.w[n], s.disk, pos) {
      assert ByteAt(t.w[n], t.disk, pos) == ByteAt(s.w[n], s.disk, pos);
    }
  }

  lemma SamePointersSameByte(a: DiskInode, b: DiskInode, disk: Disk, pos: nat)
    requires SamePointers(a, b)
    ensures ByteAt(b, disk, pos) == ByteAt(a, disk, pos)
  {
  }

  // ----- growing a tree -----

  /** One inode's tree grew without anything reading differently. */
  ghost predicate Quiet(s: Snap, t: Snap, n: nat)
  {
    && n in s.w && n in t.w && Grows(s, t, n) && SameBytes(s, t, n) && OthersKept(s, t, n) && t.lost == s.lost
  }

  /** A tree that gained at most zeroed data zones reads the same. */
  lemma GrowsQuietly(s: Snap, t: Snap, n: nat)
    requires Sound(s) && Grows(s, t, n) && n in t.w && t.lost == s.lost
    requires forall b: nat | ZoneAt(s.w[n], s.disk, b) == 0 ::
               ZoneAt(t.w[n], t.disk, b) == 0 || (ZoneAt(t.w[n], t.disk, b) in t.disk && t.disk[ZoneAt(t.w[n], t.disk, b)] == ZeroBlock)
    ensures Quiet(s, t, n)
  {
    forall pos: nat ensures ByteAt(t.w[n], t.disk, pos) == ByteAt(s.w[n], s.disk, pos) {
      GrowsQuietlyAt(s, t, n, pos);
    }
    GrowsKeepsOthers(s, t, n);
  }

  lemma GrowsQuietlyAt(s: Snap, t: Snap, n: nat, pos: nat)
    requires Sound(s) && Grows(s, t, n) && n in t.w
    requires forall b: nat | ZoneAt(s.w[n], s.disk, b) == 0 ::
               ZoneAt(t.w[n], t.disk, b) == 0 || (ZoneAt(t.w[n], t.disk, b) in t.disk && t.disk[ZoneAt(t.w[n], t.disk, b)] == ZeroBlock)
    ensures ByteAt(t.w[n], t.disk, pos) == ByteAt(s.w[n], s.disk, pos)
  {
    var b := pos / BLOCK_SIZE;
    if ZoneAt(s.w[n], s.disk, b) != 0 {
      StoredBlockKept(s, t, n, b);
    }
  }

  /** Gaining one position, a table or a zeroed data zone, changes no byte. */
  lemma OneMoreZone(s: Snap, t: Snap, n: nat, p: Ptr)
    requires Sound(s) && Grows(s, t, n) && Adds(s, t, n, {p}) && n in t.w && t.lost == s.lost
    requires p.IsTable() || (Target(t.w[n], t.disk, p) in t.disk && t.disk[Target(t.w[n], t.disk, p)] == ZeroBlock)
    ensures Quiet(s, t, n)
  {
    forall b: nat | ZoneAt(s.w[n], s.disk, b) == 0
      ensures ZoneAt(t.w[n], t.disk, b) == 0 || (ZoneAt(t.w[n], t.disk, b) in t.disk && t.disk[ZoneAt(t.w[n], t.disk, b)] == ZeroBlock)
    {
      if b < MAX_LOGICAL_BLOCKS {
        LogicalPtrInjective(b, b);
        assert Target(t.w[n], t.disk, LogicalPtr(b)) != 0 ==> LogicalPtr(b) == p;
      }
    }
    hide Grows, Adds, Sound, Target, ZoneAt;
    GrowsQuietly(s, t, n);
  }

  lemma QuietRefl(s: Snap, n: nat)
    requires Sound(s) && n in s.w
    ensures Quiet(s, s, n)
  {
    GrowsRefl(s, n);
    GrowsKeepsOthers(s, s, n);
  }

  lemma QuietTrans(s: Snap, t: Snap, u: Snap, n: nat)
    requires Quiet(s, t, n) && Quiet(t, u, n)
    ensures Quiet(s, u, n)
  {
    hide Grows, SameBytes, OthersKept;
    GrowsTrans(s, t, u, n);
    SameBytesTrans(s, t, u, n);
    I.OthersTrans(s, t, u, n);
  }

  // ----- overwriting part of one block -----

  /** Overwriting the zone of logical block b changes the bytes of that block only. */
  lemma OverwriteByte(s: Snap, n: nat, b: nat, block: Block, pos: nat)
    requires Sound(s) && n in s.w && b < MAX_LOGICAL_BLOCKS && ZoneAt(s.w[n], s.disk, b) != 0
    ensures ByteAt(s.w[n], s.disk[ZoneAt(s.w[n], s.disk, b) := block], pos) ==
            if pos / BLOCK_SIZE == b then block[pos % BLOCK_SIZE] else ByteAt(s.w[n], s.disk, pos)
  {
    var z := ZoneAt(s.w[n], s.disk, b);
    var c := pos / BLOCK_SIZE;
    LogicalPtrInjective(b, b);
    OwnsData(s, n, LogicalPtr(b));
    DataWriteFrame(s.w, s.disk, s.own, z, block);
    if c < MAX_LOGICAL_BLOCKS {
      LogicalPtrInjective(b, c);
      OwnerOf(s.w, s.disk, s.own, n, LogicalPtr(b));
      OwnerOf(s.w, s.disk, s.own, n, LogicalPtr(c));
    }
  }

  /** ... and no byte of another inode. */
  lemma OverwriteOthers(s: Snap, n: nat, b: nat, block: Block)
    requires Sound(s) && n in s.w && b < MAX_LOGICAL_BLOCKS && ZoneAt(s.w[n], s.disk, b) != 0
    ensures OthersKept(s, Written(s, ZoneAt(s.w[n], s.disk, b), block), n)
  {
    forall m | m in s.w && m != n
      ensures Contents(s.w[m], s.disk[ZoneAt(s.w[n], s.disk, b) := block]) == Contents(s.w[m], s.disk)
    {
      OverwriteOther(s, n, b, block, m);
    }
  }

  lemma OverwriteOther(s: Snap, n: nat, b: nat, block: Block, m: nat)
    requires Sound(s) && n in s.w && b < MAX_LOGICAL_BLOCKS && ZoneAt(s.w[n], s.disk, b) != 0
    requires m in s.w && m != n
    ensures Contents(s.w[m], s.disk[ZoneAt(s.w[n], s.disk, b) := block]) == Contents(s.w[m], s.disk)
  {
    var z := ZoneAt(s.w[n], s.disk, b);
    LogicalPtrInjective(b, b);
    OwnsData(s, n, LogicalPtr(b));
    OwnerOf(s.w, s.disk, s.own, n, LogicalPtr(b));
    DataWriteFrame(s.w, s.disk, s.own, z, block);
    forall c: nat ensures ZoneAt(s.w[m], s.disk, c) != z && ZoneAt(s.w[m], s.disk[z := block], c) == ZoneAt(s.w[m], s.disk, c) {
      if c < MAX_LOGICAL_BLOCKS {
        OwnerOf(s.w, s.disk, s.own, m, LogicalPtr(c));
      }
    }
    ContentsSame(s.w[m], s.disk, s.disk[z := block]);
  }

  /** `block` with d put in at an offset. */
  function Patched(block: Block, at: nat, d: Bytes): (r: Block)
    requires at + |d| <= BLOCK_SIZE
    ensures forall i | 0 <= i < BLOCK_SIZE :: r[i] == if at <= i < at + |d| then d[i - at] else block[i]
  {
    block[..at] + d + block[at + |d|..]
  }

  /** How much of the next k bytes fits into the block that holds `pos`. */
  function ChunkLength(pos: nat, left: nat): (r: nat)
    ensures r <= left && pos % BLOCK_SIZE + r <= BLOCK_SIZE && (left > 0 ==> r > 0)
  {
    Min(left, BLOCK_SIZE - pos % BLOCK_SIZE)
  }

  /** One round of the write loop: the block was mapped (t to u) and patched. */
  lemma SplicesMore(s: Snap, t: Snap, u: Snap, n: nat, offset: nat, d: Bytes, k: nat, len: nat, was: Block)
    requires Splices(s, t, n, offset, d, k) && n in u.w && SameBytes(t, u, n) && Sound(u)
    requires k < |d| && len == ChunkLength(offset + k, |d| - k)
    requires (offset + k) / BLOCK_SIZE < MAX_LOGICAL_BLOCKS
    requires ZoneAt(u.w[n], u.disk, (offset + k) / BLOCK_SIZE) != 0
    requires ZoneAt(u.w[n], u.disk, (offset + k) / BLOCK_SIZE) in u.disk
    requires was == u.disk[ZoneAt(u.w[n], u.disk, (offset + k) / BLOCK_SIZE)]
    ensures Splices(s, Written(u, ZoneAt(u.w[n], u.disk, (offset + k) / BLOCK_SIZE),
                              Patched(was, (offset + k) % BLOCK_SIZE, d[k..k + len])), n, offset, d, k + len)
  {
    var b, at := (offset + k) / BLOCK_SIZE, (offset + k) % BLOCK_SIZE;
    var block := Patched(was, at, d[k..k + len]);
    var v := Written(u, ZoneAt(u.w[n], u.disk, b), block);
    hide Sound;
    forall pos: nat
      ensures ByteAt(v.w[n], v.disk, pos) ==
              if offset <= pos < offset + k + len then d[pos - offset] else ByteAt(s.w[n], s.disk, pos)
    {
      assert ByteAt(t.w[n], t.disk, pos) == if offset <= pos < offset + k then d[pos - offset] else ByteAt(s.w[n], s.disk, pos);
      assert ByteAt(u.w[n], u.disk, pos) == ByteAt(t.w[n], t.disk, pos);
      OverwriteByte(u, n, b, block, pos);
      hide ByteAt;
      PatchedByte(offset + k, len, pos);
    }
  }

  /** Where a byte of a chunk lies in its block. */
  lemma PatchedByte(start: nat, len: nat, pos: nat)
    requires start % BLOCK_SIZE + len <= BLOCK_SIZE
    ensures start <= pos < start + len <==>
            pos / BLOCK_SIZE == start / BLOCK_SIZE && start % BLOCK_SIZE <= pos % BLOCK_SIZE < start % BLOCK_SIZE + len
    ensures pos / BLOCK_SIZE == start / BLOCK_SIZE ==> pos % BLOCK_SIZE - start % BLOCK_SIZE == pos - start
  {
  }
}
