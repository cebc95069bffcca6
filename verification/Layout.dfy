/** On-disk Minix v1 records and their byte encodings. */
module Layout {
  import opened Wrappers
  import Bits

  const BLOCK_SIZE := 1024
  const NAME_LENGTH := 14
  const ROOT_INODE_NUMBER := 1
  const DIRECT_ZONE_COUNT := 7
  const INDIRECT_ENTRY_COUNT := 512
  const DISK_INODE_SIZE := 32
  const DIRECTORY_ENTRY_SIZE := 16
  const INODES_PER_BLOCK := 32
  const MAX_LOGICAL_BLOCKS := 7 + 512 + 512 * 512

  type U8 = x: int | 0 <= x < 0x100
  type U16 = x: int | 0 <= x < 0x1_0000
  type U32 = x: int | 0 <= x < 0x1_0000_0000

  type Bytes = seq<U8>
  type Block = b: Bytes | |b| == BLOCK_SIZE witness seq(BLOCK_SIZE, _ => 0)

  function Zeros(n: nat): (r: Bytes)
    ensures |r| == n && forall i | 0 <= i < n :: r[i] == 0
  {
    seq(n, _ => 0)
  }

  const ZeroBlock: Block := Zeros(BLOCK_SIZE)

  /** How many blocks hold n bytes, n inode records, n bitmap bits (`div_ceil`). */
  function DataBlocks(n: nat): nat { (n + 1023) / 1024 }
  function InodeBlocks(n: nat): nat { (n + 31) / 32 }
  function BitmapBlocks(n: nat): nat { (n + 8191) / 8192 }

  /** A number of blocks is enough exactly when it is no less than that. */
  lemma BlocksEnough(n: nat, k: nat)
    ensures k * BLOCK_SIZE >= n <==> k >= DataBlocks(n)
    ensures k * BLOCK_SIZE >= n * DISK_INODE_SIZE <==> k >= InodeBlocks(n)
    ensures 8 * (k * BLOCK_SIZE) >= n <==> k >= BitmapBlocks(n)
  {
  }

  /** One inode record. The two kinds of inode that own data zones are regular
      files and directories; the type sits in the high four bits of `mode`. */
  datatype InodeRecord = InodeRecord(
    mode: U16,
    uid: U16,
    size: U32,
    mtime: U32,
    gid: U8,
    links: U8,
    direct: seq<U16>,
    single: U16,
    double: U16)

  type DiskInode = d: InodeRecord | |d.direct| == DIRECT_ZONE_COUNT
    witness InodeRecord(0, 0, 0, 0, 0, 0, seq(DIRECT_ZONE_COUNT, _ => 0), 0, 0)

  const ZeroInode: DiskInode := InodeRecord(0, 0, 0, 0, 0, 0, [0, 0, 0, 0, 0, 0, 0], 0, 0)

  datatype InodeType = Regular | Directory | Fifo | BlockDevice | CharacterDevice

  /** The type nibble of a mode word (`mode & 0o170000`, shifted down). */
  function TypeNibble(mode: U16): nat { mode / 0x1000 }

  function FileType(mode: U16): Option<InodeType> {
    match TypeNibble(mode)
    case 8 => Some(Regular)
    case 4 => Some(Directory)
    case 1 => Some(Fifo)
    case 6 => Some(BlockDevice)
    case 2 => Some(CharacterDevice)
    case _ => None
  }

  /** The type sits in the high four bits of the mode word. */
  lemma TypeDigits(mode: U16)
    ensures FileType(mode) == Some(Regular) <==> 0x8000 <= mode < 0x9000
    ensures FileType(mode) == Some(Directory) <==> 0x4000 <= mode < 0x5000
    ensures FileType(mode) == Some(Fifo) <==> 0x1000 <= mode < 0x2000
    ensures FileType(mode) == Some(BlockDevice) <==> 0x6000 <= mode < 0x7000
    ensures FileType(mode) == Some(CharacterDevice) <==> 0x2000 <= mode < 0x3000
  {
  }

  /** Only regular files and directories own data zones. */
  predicate HasData(mode: U16) { FileType(mode) == Some(Regular) || FileType(mode) == Some(Directory) }

  function RegularMode(permissions: U16): (m: U16)
    ensures FileType(m) == Some(Regular) && m % 0x1000 == permissions % 0x1000
  {
    0x8000 + permissions % 0x1000
  }

  function DirectoryMode(permissions: U16): (m: U16)
    ensures FileType(m) == Some(Directory) && m % 0x1000 == permissions % 0x1000
  {
    0x4000 + permissions % 0x1000
  }

  // ----- little-endian fields -----

  function U16Bytes(v: U16): (b: Bytes)
    ensures |b| == 2 && ReadU16(b, 0) == v
  {
    [v % 0x100, v / 0x100]
  }

  function U32Bytes(v: U32): (b: Bytes)
    ensures |b| == 4 && ReadU32(b, 0) == v
  {
    U16Bytes(v % 0x1_0000) + U16Bytes(v / 0x1_0000)
  }

  function ReadU16(b: Bytes, offset: nat): U16
    requires offset + 2 <= |b|
  {
    (b[offset] as int) + 0x100 * (b[offset + 1] as int)
  }

  function ReadU32(b: Bytes, offset: nat): U32
    requires offset + 4 <= |b|
  {
    (ReadU16(b, offset) as int) + 0x1_0000 * (ReadU16(b, offset + 2) as int)
  }

  /** The i-th byte of a number, counted from the low end. */
  function ByteOf(v: nat, i: nat): U8 { if i == 0 then v % 0x100 else ByteOf(v / 0x100, i - 1) }

  /** Number v lies in n bytes from o on, its low byte first. */
  predicate Field(b: Bytes, o: nat, n: nat, v: nat)
  {
    o + n <= |b| && forall i | 0 <= i < n :: b[o + i] == ByteOf(v, i)
  }

  /** The words read are the little-endian numbers of their bytes. */
  lemma ReadsLittleEndian(b: Bytes, o: nat)
    ensures o + 2 <= |b| ==> ReadU16(b, o) == Bits.WordOf(b[o..o + 2]) && Field(b, o, 2, ReadU16(b, o))
    ensures o + 4 <= |b| ==> ReadU32(b, o) == Bits.WordOf(b[o..o + 4]) && Field(b, o, 4, ReadU32(b, o))
  {
    hide Bits.WordOf, Field;
    if o + 2 <= |b| {
      Words(b, o, 2);
      Words(b, o + 1, 1);
      NoBytes(b, o + 2);
    }
    if o + 4 <= |b| {
      Words(b, o, 4);
      Words(b, o + 1, 3);
      Words(b, o + 2, 2);
      Words(b, o + 3, 1);
      NoBytes(b, o + 4);
    }
  }

  lemma NoBytes(b: Bytes, o: nat)
    requires o <= |b|
    ensures Bits.WordOf(b[o..o]) == 0
  {
  }

  lemma EncodedFields(v: U32)
    ensures Field(U32Bytes(v), 0, 4, v)
    ensures v < 0x1_0000 ==> Field(U16Bytes(v), 0, 2, v)
  {
    ReadsLittleEndian(U32Bytes(v), 0);
    if v < 0x1_0000 { ReadsLittleEndian(U16Bytes(v), 0); }
  }

  /** A field lies as well inside longer bytes. */
  lemma FieldWithin(b: Bytes, o: nat, n: nat, v: nat, whole: Bytes, at: nat)
    requires Field(b, o, n, v) && at + |b| <= |whole| && whole[at..at + |b|] == b
    ensures Field(whole, at + o, n, v)
  {
    forall i | 0 <= i < n ensures whole[at + o + i] == ByteOf(v, i) {
      assert whole[at..at + |b|][o + i] == b[o + i];
    }
  }

  /** The word of some bytes has them as its bytes. */
  lemma {:induction false} Words(b: Bytes, o: nat, n: nat)
    requires o + n <= |b|
    ensures Field(b, o, n, Bits.WordOf(b[o..o + n]))
    ensures n > 0 ==> Bits.WordOf(b[o..o + n]) == b[o] + 0x100 * Bits.WordOf(b[o + 1..o + n])
    decreases n
  {
    if n > 0 {
      assert b[o..o + n][1..] == b[o + 1..o + n];
      Words(b, o + 1, n - 1);
      var w := Bits.WordOf(b[o + 1..o + n]);
      var v := b[o] + 0x100 * w;
      assert v / 0x100 == w;
      forall i | 0 <= i < n ensures b[o + i] == ByteOf(v, i) {
        if i > 0 { assert b[o + 1 + (i - 1)] == ByteOf(w, i - 1); }
      }
    }
  }

  /** Overwrites one little-endian field in place. */
  method WriteU16(bytes: array<U8>, offset: nat, value: U16)
    requires offset + 2 <= bytes.Length
    modifies bytes
    ensures bytes[..] == old(bytes[..offset]) + U16Bytes(value) + old(bytes[offset + 2..])
    ensures Field(bytes[..], offset, 2, value)
  {
    bytes[offset], bytes[offset + 1] := value % 0x100, value / 0x100;
    EncodedFields(value);
    FieldWithin(U16Bytes(value), 0, 2, value, bytes[..], offset);
  }

  method WriteU32(bytes: array<U8>, offset: nat, value: U32)
    requires offset + 4 <= bytes.Length
    modifies bytes
    ensures bytes[..] == old(bytes[..offset]) + U32Bytes(value) + old(bytes[offset + 4..])
    ensures Field(bytes[..], offset, 4, value)
  {
    WriteU16(bytes, offset, value % 0x1_0000);
    WriteU16(bytes, offset + 2, value / 0x1_0000);
    EncodedFields(value);
    FieldWithin(U32Bytes(value), 0, 4, value, bytes[..], offset);
  }

  // ----- inode records -----

  /** The seven direct zone fields, in slot order. */
  function DirectBytes(d: DiskInode): (b: Bytes)
    ensures |b| == 14
    ensures forall i | 0 <= i < DIRECT_ZONE_COUNT :: ReadU16(b, 2 * i) == d.direct[i]
  {
    U16Bytes(d.direct[0]) + U16Bytes(d.direct[1]) + U16Bytes(d.direct[2]) + U16Bytes(d.direct[3])
    + U16Bytes(d.direct[4]) + U16Bytes(d.direct[5]) + U16Bytes(d.direct[6])
  }

  function HeadBytes(d: DiskInode): (b: Bytes)
    ensures |b| == 14
    ensures ReadU16(b, 0) == d.mode && ReadU16(b, 2) == d.uid
    ensures ReadU32(b, 4) == d.size && ReadU32(b, 8) == d.mtime
    ensures b[12] == d.gid && b[13] == d.links
  {
    U16Bytes(d.mode) + U16Bytes(d.uid) + U32Bytes(d.size) + U32Bytes(d.mtime) + [d.gid, d.links]
  }

  function EncodeInode(d: DiskInode): (b: Bytes)
    ensures |b| == DISK_INODE_SIZE
  {
    HeadBytes(d) + DirectBytes(d) + (U16Bytes(d.single) + U16Bytes(d.double))
  }

  function DecodeInode(b: Bytes): Option<DiskInode>
  {
    if |b| < DISK_INODE_SIZE then None
    else
      Some(InodeRecord(
        ReadU16(b, 0), ReadU16(b, 2), ReadU32(b, 4), ReadU32(b, 8), b[12], b[13],
        [ReadU16(b, 14), ReadU16(b, 16), ReadU16(b, 18), ReadU16(b, 20),
         ReadU16(b, 22), ReadU16(b, 24), ReadU16(b, 26)],
        ReadU16(b, 28), ReadU16(b, 30)))
  }

  /** Decoding what was encoded gives the record back, whatever bytes follow it. */
  lemma InodeRoundTrip(d: DiskInode, rest: Bytes)
    ensures DecodeInode(EncodeInode(d) + rest) == Some(d)
  {
    var h, z := HeadBytes(d), DirectBytes(d);
    var b := EncodeInode(d) + rest;
    assert forall k | 0 <= k < 14 :: b[k] == h[k];
    assert forall k | 0 <= k < 14 :: b[14 + k] == z[k];
    assert forall i | 0 <= i < DIRECT_ZONE_COUNT :: ReadU16(b, 14 + 2 * i) == ReadU16(z, 2 * i);
    assert DecodeInode(b).value.direct == d.direct by {
      assert forall i | 0 <= i < DIRECT_ZONE_COUNT :: DecodeInode(b).value.direct[i] == ReadU16(b, 14 + 2 * i);
    }
  }

  lemma FieldBytes(b: Bytes, o: nat)
    requires o + 2 <= |b|
    ensures U16Bytes(ReadU16(b, o)) == b[o..o + 2]
    ensures o + 4 <= |b| ==> U32Bytes(ReadU32(b, o)) == b[o..o + 4]
  {
    LowHighByte(b[o], b[o + 1]);
    if o + 4 <= |b| {
      LowHighByte(b[o + 2], b[o + 3]);
      LowHighWord(ReadU16(b, o), ReadU16(b, o + 2));
      hide ReadU16;
      assert b[o..o + 4] == b[o..o + 2] + b[o + 2..o + 4];
    }
  }

  lemma LowHighByte(low: U8, high: U8)
    ensures (low + 0x100 * high) % 0x100 == low && (low + 0x100 * high) / 0x100 == high
  {
  }

  lemma LowHighWord(low: U16, high: U16)
    ensures (low + 0x1_0000 * high) % 0x1_0000 == low && (low + 0x1_0000 * high) / 0x1_0000 == high
  {
  }

  /** Encoding what was decoded gives the 32 bytes back: no byte of a slot is lost. */
  lemma InodeBytesRoundTrip(b: Bytes)
    requires |b| == DISK_INODE_SIZE
    ensures DecodeInode(b).Some? && EncodeInode(DecodeInode(b).value) == b
  {
    var d := DecodeInode(b).value;
    HeadBytesBack(b, d);
    DirectBytesBack(b, d);
    FieldBytes(b, 28);
    FieldBytes(b, 30);
    assert b[..14] + b[14..28] + (b[28..30] + b[30..]) == b;
  }

  lemma HeadBytesBack(b: Bytes, d: DiskInode)
    requires |b| == DISK_INODE_SIZE
    requires d.mode == ReadU16(b, 0) && d.uid == ReadU16(b, 2)
    requires d.size == ReadU32(b, 4) && d.mtime == ReadU32(b, 8)
    requires d.gid == b[12] && d.links == b[13]
    ensures HeadBytes(d) == b[..14]
  {
    FieldBytes(b, 0);
    FieldBytes(b, 2);
    FieldBytes(b, 4);
    FieldBytes(b, 8);
    assert b[0..2] + b[2..4] + b[4..8] + b[8..12] + [b[12], b[13]] == b[..14];
  }

  lemma DirectBytesBack(b: Bytes, d: DiskInode)
    requires |b| == DISK_INODE_SIZE
    requires forall i | 0 <= i < DIRECT_ZONE_COUNT :: d.direct[i] == ReadU16(b, 14 + 2 * i)
    ensures DirectBytes(d) == b[14..28]
  {
    forall i | 0 <= i < DIRECT_ZONE_COUNT
      ensures U16Bytes(d.direct[i]) == b[14 + 2 * i..16 + 2 * i]
    {
      FieldBytes(b, 14 + 2 * i);
    }
    assert b[14..16] + b[16..18] + b[18..20] + b[20..22] + b[22..24] + b[24..26] + b[26..28] == b[14..28];
  }

  /** Where the fields of an inode lie in its 32 bytes. */
  predicate InodeFields(b: Bytes, d: DiskInode)
  {
    && Field(b, 0, 2, d.mode) && Field(b, 2, 2, d.uid) && Field(b, 4, 4, d.size) && Field(b, 8, 4, d.mtime)
    && Field(b, 12, 1, d.gid) && Field(b, 13, 1, d.links)
    && (forall i | 0 <= i < DIRECT_ZONE_COUNT :: Field(b, 14 + 2 * i, 2, d.direct[i]))
    && Field(b, 28, 2, d.single) && Field(b, 30, 2, d.double)
  }

  /** An encoded inode holds its fields there, and what is decoded is what lies there. */
  lemma InodeOnDisk(d: DiskInode, b: Bytes)
    ensures InodeFields(EncodeInode(d), d)
    ensures |b| >= DISK_INODE_SIZE ==> DecodeInode(b).Some? && InodeFields(b, DecodeInode(b).value)
  {
    InodeRoundTrip(d, []);
    assert EncodeInode(d) + [] == EncodeInode(d);
    DecodedFields(EncodeInode(d));
    DecodedFields(b);
  }

  lemma DecodedFields(b: Bytes)
    ensures |b| >= DISK_INODE_SIZE ==> DecodeInode(b).Some? && InodeFields(b, DecodeInode(b).value)
  {
    if |b| >= DISK_INODE_SIZE {
      var d := DecodeInode(b).value;
      forall o: nat | o <= 30 ensures Field(b, o, 2, ReadU16(b, o)) { ReadsLittleEndian(b, o); }
      ReadsLittleEndian(b, 4);
      ReadsLittleEndian(b, 8);
      OneByte(b, 12);
      OneByte(b, 13);
      hide Field, ReadU16, ReadU32;
      assert d.direct == [ReadU16(b, 14), ReadU16(b, 16), ReadU16(b, 18), ReadU16(b, 20), ReadU16(b, 22), ReadU16(b, 24), ReadU16(b, 26)];
    }
  }

  lemma OneByte(b: Bytes, o: nat)
    requires o < |b|
    ensures Field(b, o, 1, b[o])
  {
    assert ByteOf(b[o], 0) == b[o];
  }

  // ----- directory entries -----

  /** `inode == 0` marks an empty slot. */
  datatype EntryRecord = EntryRecord(inode: U16, name: Bytes)

  type DirEntry = e: EntryRecord | |e.name| == NAME_LENGTH
    witness EntryRecord(0, seq(NAME_LENGTH, _ => 0))

  const EmptyEntry: DirEntry := EntryRecord(0, Zeros(NAME_LENGTH))

  /** A file name as the bytes of its UTF-8 form. */
  type Name = Bytes

  const DOT: Name := [46]
  const DOTDOT: Name := [46, 46]

  function NewEntry(name: Name, inode: U16): (r: Option<DirEntry>)
    ensures r.None? <==> |name| > NAME_LENGTH
  {
    if |name| > NAME_LENGTH then None
    else Some(EntryRecord(inode, name + Zeros(NAME_LENGTH - |name|)))
  }

  /** The bytes before the first NUL. */
  function CutAtNul(b: Bytes): (r: Name)
    ensures r <= b && 0 !in r
    ensures |r| < |b| ==> b[|r|] == 0
  {
    if b == [] || b[0] == 0 then [] else [b[0]] + CutAtNul(b[1..])
  }

  function EntryName(e: DirEntry): Name { CutAtNul(e.name) }

  lemma {:induction false} CutAtNulPadded(name: Name, pad: nat)
    requires 0 !in name
    ensures CutAtNul(name + Zeros(pad)) == name
  {
    var b := name + Zeros(pad);
    if name != [] {
      assert b[1..] == name[1..] + Zeros(pad);
      CutAtNulPadded(name[1..], pad);
    }
  }

  /** A stored name reads back exactly when it holds no NUL byte: the slot keeps
      no length, so a NUL inside a name cuts it short. */
  lemma EntryNameRoundTrip(name: Name, inode: U16)
    requires |name| <= NAME_LENGTH
    ensures EntryName(NewEntry(name, inode).value) == name <==> 0 !in name
  {
    if 0 !in name {
      CutAtNulPadded(name, NAME_LENGTH - |name|);
    }
  }

  function EncodeEntry(e: DirEntry): (b: Bytes)
    ensures |b| == DIRECTORY_ENTRY_SIZE
  {
    U16Bytes(e.inode) + e.name
  }

  function DecodeEntry(b: Bytes): (e: DirEntry)
    requires |b| == DIRECTORY_ENTRY_SIZE
  {
    EntryRecord(ReadU16(b, 0), b[2..])
  }

  /** A directory's bytes, entry by entry. */
  function EncodeEntries(es: seq<DirEntry>): (b: Bytes)
    ensures |b| == |es| * DIRECTORY_ENTRY_SIZE
  {
    if es == [] then [] else EncodeEntry(es[0]) + EncodeEntries(es[1..])
  }

  function DecodeEntries(b: Bytes): (es: seq<DirEntry>)
    requires |b| % DIRECTORY_ENTRY_SIZE == 0
    ensures |es| == |b| / DIRECTORY_ENTRY_SIZE
  {
    if b == [] then []
    else [DecodeEntry(b[..DIRECTORY_ENTRY_SIZE])] + DecodeEntries(b[DIRECTORY_ENTRY_SIZE..])
  }

  lemma EntryRoundTrip(e: DirEntry)
    ensures DecodeEntry(EncodeEntry(e)) == e
  {
  }

  /** The number of an entry comes first, low byte first, then the fourteen bytes of its name. */
  lemma EntryOnDisk(e: DirEntry, b: Bytes)
    ensures Field(EncodeEntry(e), 0, 2, e.inode) && EncodeEntry(e)[2..] == e.name
    ensures |b| == DIRECTORY_ENTRY_SIZE ==> Field(b, 0, 2, DecodeEntry(b).inode) && b[2..] == DecodeEntry(b).name
  {
    EntryRoundTrip(e);
    ReadsLittleEndian(EncodeEntry(e), 0);
    ReadsLittleEndian(b, 0);
  }

  /** A directory rewritten from its entries reads back as those entries. */
  lemma {:induction false} EntriesRoundTrip(es: seq<DirEntry>)
    ensures DecodeEntries(EncodeEntries(es)) == es
  {
    if es != [] {
      var b := EncodeEntries(es);
      assert b[..DIRECTORY_ENTRY_SIZE] == EncodeEntry(es[0]);
      assert b[DIRECTORY_ENTRY_SIZE..] == EncodeEntries(es[1..]);
      EntryRoundTrip(es[0]);
      EntriesRoundTrip(es[1..]);
    }
  }

  /** Entry k of a directory lies at sixteen times k. */
  lemma {:induction false} EntriesInOrder(es: seq<DirEntry>, k: nat)
    requires k < |es|
    ensures EncodeEntries(es)[16 * k..16 * k + 16] == EncodeEntry(es[k])
  {
    var b := EncodeEntries(es);
    if k == 0 {
      assert b[..16] == EncodeEntry(es[0]);
    } else {
      EntriesInOrder(es[1..], k - 1);
      assert b[16 * k..16 * k + 16] == EncodeEntries(es[1..])[16 * (k - 1)..16 * (k - 1) + 16];
    }
  }

  // ----- indirect tables -----

  type Table = t: seq<U16> | |t| == INDIRECT_ENTRY_COUNT witness seq(INDIRECT_ENTRY_COUNT, _ => 0)

  /** Entry k of a block read as a table of 16-bit zones. */
  function Entry(b: Block, k: nat): U16
    requires k < INDIRECT_ENTRY_COUNT
  {
    ReadU16(b, 2 * k)
  }

  /** Reads one indirect block as a table. */
  method DecodeTable(b: Block) returns (t: Table)
    ensures forall k | 0 <= k < INDIRECT_ENTRY_COUNT :: t[k] == Entry(b, k)
  {
    var acc: seq<U16> := [];
    for k := 0 to INDIRECT_ENTRY_COUNT
      invariant |acc| == k
      invariant forall i | 0 <= i < k :: acc[i] == Entry(b, i)
    {
      acc := acc + [ReadU16(b, 2 * k)];
    }
    t := acc;
  }

  /** Writes a table into a fresh block. */
  method EncodeTable(t: Table) returns (b: Block)
    ensures forall k | 0 <= k < INDIRECT_ENTRY_COUNT :: Entry(b, k) == t[k] && Field(b, 2 * k, 2, t[k])
  {
    var acc: Bytes := [];
    for k := 0 to INDIRECT_ENTRY_COUNT
      invariant |acc| == 2 * k
      invariant forall i | 0 <= i < k :: ReadU16(acc, 2 * i) == t[i]
    {
      acc := acc + U16Bytes(t[k]);
    }
    b := acc;
    forall k | 0 <= k < INDIRECT_ENTRY_COUNT ensures Field(b, 2 * k, 2, t[k]) {
      ReadsLittleEndian(b, 2 * k);
    }
  }
}
