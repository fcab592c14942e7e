/** The on-disk form of a cramfs directory tree: inodes, names, block tables and where each piece goes. */
module CramfsFormat {
  import opened Bytes

  const BLKSIZE: nat := 4096
  const INODE_SIZE: nat := 12
  const SUPER_SIZE: nat := 76

  /** The in-core tree as mkcramfs links it: child is the first entry of a directory (Nil for
      everything else and for empty directories), next the following entry of the same directory.
      The id stands for the address of the entry. */
  datatype Tree =
    | Nil
    | Entry(id: nat, name: seq<byte>, mode: nat, uid: nat, gid: nat, size: nat, data: seq<byte>,
            child: Tree, next: Tree)

  const FIFO := 1
  const CHR := 2
  const DIR := 4
  const BLK := 6
  const REG := 8
  const LNK := 10
  const SOCK := 12

  /** The file type bits S_IFMT of a mode. */
  function FileType(mode: nat): nat {
    mode / 4096 % 16
  }

  predicate IsDir(e: Tree) requires e.Entry? { FileType(e.mode) == DIR }
  predicate IsReg(e: Tree) requires e.Entry? { FileType(e.mode) == REG }
  predicate IsLnk(e: Tree) requires e.Entry? { FileType(e.mode) == LNK }

  /** entry->sig is set for symlinks and non-empty regular files. */
  predicate HasSig(e: Tree)
    requires e.Entry?
  {
    (IsReg(e) && e.size > 0) || IsLnk(e)
  }

  /** Four-byte words that n bytes take. */
  function Words(n: nat): (w: nat)
    ensures n <= 4 * w < n + 4
  {
    if n == 0 then 0 else if n <= 4 then 1 else 1 + Words(n - 4)
  }

  /** A name padded with NULs to a multiple of four bytes. */
  function Padded(name: seq<byte>): (r: seq<byte>)
    ensures |r| == 4 * Words(|name|)
  {
    name + Zeros(4 * Words(|name|) - |name|)
  }

  function EntrySize(e: Tree): (n: nat)
    requires e.Entry?
    ensures n >= INODE_SIZE
  {
    INODE_SIZE + 4 * Words(|e.name|)
  }

  /** Bytes of one directory's listing: what parse_directory accumulates in totalsize. */
  function ListSize(t: Tree): (n: nat)
    ensures t.Nil? <==> n == 0
  {
    if t.Nil? then 0 else EntrySize(t) + ListSize(t.next)
  }

  /** Bytes of all listings below the directories in this listing. */
  function DeepSize(t: Tree): nat {
    if t.Nil? then 0 else ListSize(t.child) + DeepSize(t.child) + DeepSize(t.next)
  }

  function TreeSize(t: Tree): nat {
    ListSize(t) + DeepSize(t)
  }

  lemma Sum4(a: nat, b: nat, c: nat)
    requires a % 4 == 0 && b % 4 == 0 && c % 4 == 0
    ensures (a + b + c) % 4 == 0
  {
  }

  lemma {:induction false} Aligned(t: Tree)
    ensures ListSize(t) % 4 == 0 && DeepSize(t) % 4 == 0
  {
    if t.Entry? {
      hide Words;
      Aligned(t.child);
      Aligned(t.next);
      Sum4(INODE_SIZE, 4 * Words(|t.name|), ListSize(t.next));
      Sum4(ListSize(t.child), DeepSize(t.child), DeepSize(t.next));
    }
  }

  /** An entry that fits the field widths of the format. */
  predicate ValidEntry(e: Tree)
    requires e.Entry?
  {
    && 1 <= |e.name| <= 252
    && (forall i :: 0 <= i < |e.name| ==> e.name[i] != 0)
    && e.mode < 0x10000 && e.uid < 0x10000 && e.gid < 256 && e.size < TWO24
    && (IsDir(e) ==> e.size == ListSize(e.child) && e.data == [])
    && (!IsDir(e) ==> e.child.Nil?)
    && (IsReg(e) ==> e.size == |e.data|)
    && (IsLnk(e) ==> e.size == |e.data| && 1 <= |e.data| <= BLKSIZE)
    && (!IsDir(e) && !IsReg(e) && !IsLnk(e) ==> FileType(e.mode) in {FIFO, CHR, BLK, SOCK} && e.data == [])
  }

  predicate Valid(t: Tree) {
    t.Entry? ==> ValidEntry(t) && Valid(t.child) && Valid(t.next)
  }

  function Ids(t: Tree): set<nat> {
    if t.Nil? then {} else {t.id} + Ids(t.child) + Ids(t.next)
  }

  /** No entry is linked in twice. */
  predicate Unique(t: Tree) {
    t.Entry? ==>
      && t.id !in Ids(t.child) && t.id !in Ids(t.next) && Ids(t.child) !! Ids(t.next)
      && Unique(t.child) && Unique(t.next)
  }

  // ---- inodes ----

  datatype Inode = Inode(mode: nat, uid: nat, size: nat, gid: nat, namelen: nat, offset: nat)

  function Truncated(i: Inode): Inode {
    Inode(i.mode % 0x10000, i.uid % 0x10000, i.size % TWO24, i.gid % 256, i.namelen % 64, i.offset % TWO26)
  }

  /** The three bit-field words of struct cramfs_inode; each field keeps only its own bits. */
  function InodeBytes(i: Inode): (r: seq<byte>)
    ensures |r| == INODE_SIZE
  {
    FieldBytes(Truncated(i))
  }

  function FieldBytes(t: Inode): (r: seq<byte>)
    ensures |r| == INODE_SIZE
  {
    Le32(t.mode + 0x10000 * t.uid) + Le32(t.size + TWO24 * t.gid) + Le32(t.namelen + 64 * t.offset)
  }

  function ReadInode(img: seq<byte>, off: nat): Inode
    requires off + INODE_SIZE <= |img|
  {
    var w0, w1, w2 := Word(img, off), Word(img, off + 4), Word(img, off + 8);
    Inode(w0 % 0x10000, w0 / 0x10000, w1 % TWO24, w1 / TWO24, w2 % 64, w2 / 64)
  }

  lemma Fields16(lo: nat, hi: nat)
    requires lo < 0x10000 && hi < 0x10000
    ensures (lo + 0x10000 * hi) % 0x10000 == lo && (lo + 0x10000 * hi) / 0x10000 == hi && lo + 0x10000 * hi < TWO32
  {
  }

  lemma Fields24(lo: nat, hi: nat)
    requires lo < TWO24 && hi < 256
    ensures (lo + TWO24 * hi) % TWO24 == lo && (lo + TWO24 * hi) / TWO24 == hi && lo + TWO24 * hi < TWO32
  {
  }

  lemma Fields6(lo: nat, hi: nat)
    requires lo < 64 && hi < TWO26
    ensures (lo + 64 * hi) % 64 == lo && (lo + 64 * hi) / 64 == hi && lo + 64 * hi < TWO32
  {
  }

  lemma InodeWords(img: seq<byte>, off: nat, a: nat, b: nat, c: nat)
    requires a < TWO32 && b < TWO32 && c < TWO32
    requires At(img, off, Le32(a) + Le32(b) + Le32(c))
    ensures Word(img, off) == a && Word(img, off + 4) == b && Word(img, off + 8) == c
  {
    AtConcat(img, off, Le32(a) + Le32(b), Le32(c));
    AtConcat(img, off, Le32(a), Le32(b));
    WordOfLe32(img, off, a);
    WordOfLe32(img, off + 4, b);
    WordOfLe32(img, off + 8, c);
  }

  predicate Fits(i: Inode) {
    i.mode < 0x10000 && i.uid < 0x10000 && i.size < TWO24 && i.gid < 256 && i.namelen < 64 && i.offset < TWO26
  }

  lemma ReadFields(img: seq<byte>, off: nat, t: Inode)
    requires Fits(t)
    requires At(img, off, FieldBytes(t))
    ensures ReadInode(img, off) == t
  {
    Fields16(t.mode, t.uid);
    Fields24(t.size, t.gid);
    Fields6(t.namelen, t.offset);
    InodeWords(img, off, t.mode + 0x10000 * t.uid, t.size + TWO24 * t.gid, t.namelen + 64 * t.offset);
  }

  lemma TruncatedFits(i: Inode)
    ensures Fits(Truncated(i))
    ensures Truncated(i) == i <==> Fits(i)
  {
  }

  /** Reading back a written inode gives every field cut to its width, so the inode survives exactly
      when each field fits. */
  lemma InodeRoundTrip(img: seq<byte>, off: nat, i: Inode)
    requires At(img, off, InodeBytes(i))
    ensures ReadInode(img, off) == Truncated(i)
    ensures ReadInode(img, off) == i <==> Fits(i)
  {
    TruncatedFits(i);
    ReadFields(img, off, Truncated(i));
  }

  /** The inode of e with its data offset (in 4-byte units) set to o. */
  function InodeOf(e: Tree, o: nat): Inode
    requires e.Entry?
  {
    Inode(e.mode, e.uid, e.size, e.gid, Words(|e.name|), o)
  }

  function EntryBytes(e: Tree, o: nat): (r: seq<byte>)
    requires e.Entry?
    ensures |r| == EntrySize(e)
  {
    InodeBytes(InodeOf(e, o)) + Padded(e.name)
  }

  /** The offset field of a directory entry whose listings start at deep. */
  function DirOffset(e: Tree, deep: nat): nat
    requires e.Entry?
  {
    if e.child.Nil? then 0 else deep / 4
  }

  // ---- the directory area ----

  /** One listing; the listings of its directories follow each other from deep on. */
  function ListBytes(t: Tree, deep: nat): (r: seq<byte>)
    ensures |r| == ListSize(t)
  {
    if t.Nil? then [] else EntryBytes(t, DirOffset(t, deep)) + ListBytes(t.next, deep + TreeSize(t.child))
  }

  function DeepBytes(t: Tree, deep: nat): (r: seq<byte>)
    ensures |r| == DeepSize(t)
  {
    if t.Nil? then []
    else
      ListBytes(t.child, deep + ListSize(t.child)) + DeepBytes(t.child, deep + ListSize(t.child)) +
      DeepBytes(t.next, deep + TreeSize(t.child))
  }

  /** A listing at off followed by everything below it. */
  function TreeBytes(t: Tree, off: nat): (r: seq<byte>)
    ensures |r| == TreeSize(t)
  {
    ListBytes(t, off + ListSize(t)) + DeepBytes(t, off + ListSize(t))
  }

  // ---- file data ----

  /** zlib as mkcramfs and cramfsck use it. */
  datatype Codec = Codec(compress: seq<byte> -> seq<byte>, inflate: seq<byte> -> Inflated)
  {
    /** Blocks of at most one page inflate to themselves and take at most two pages when deflated. */
    ghost predicate Faithful() {
      forall b: seq<byte> :: 0 < |b| <= BLKSIZE ==>
        0 < |compress(b)| <= 2 * BLKSIZE && inflate(compress(b)) == Bytes(b)
    }
  }

  datatype Inflated = Bytes(out: seq<byte>) | Corrupt

  function Blocks(size: nat): nat {
    (size + BLKSIZE - 1) / BLKSIZE
  }

  function Head(data: seq<byte>): seq<byte> {
    if |data| <= BLKSIZE then data else data[..BLKSIZE]
  }

  function Rest(data: seq<byte>): seq<byte> {
    if |data| <= BLKSIZE then [] else data[BLKSIZE..]
  }

  lemma HeadRest(data: seq<byte>)
    ensures Head(data) + Rest(data) == data
    ensures data != [] ==> 0 < |Head(data)| && |Rest(data)| < |data|
    ensures data != [] ==> Blocks(|data|) == 1 + Blocks(|Rest(data)|)
    ensures |data| >= BLKSIZE ==> |Head(data)| == BLKSIZE
    ensures |data| < BLKSIZE ==> Rest(data) == []
  {
  }

  /** The compressed blocks, one after the other. */
  function Packed(z: Codec, data: seq<byte>): seq<byte>
    decreases |data|
  {
    if data == [] then [] else HeadRest(data); z.compress(Head(data)) + Packed(z, Rest(data))
  }

  /** The pointer table of a file whose first block starts at curr: each word is the end of a block. */
  function Table(z: Codec, data: seq<byte>, curr: nat): (r: seq<byte>)
    ensures |r| == 4 * Blocks(|data|)
    decreases |data|
  {
    if data == [] then []
    else
      HeadRest(data);
      var end := curr + |z.compress(Head(data))|;
      Le32(end) + Table(z, Rest(data), end)
  }

  function FileSize(z: Codec, data: seq<byte>): nat {
    4 * Blocks(|data|) + |Packed(z, data)|
  }

  /** A file's pointer table and blocks stand at off. */
  ghost predicate FileAt(img: seq<byte>, z: Codec, data: seq<byte>, off: nat) {
    var start := off + 4 * Blocks(|data|);
    At(img, off, Table(z, data, start)) && At(img, start, Packed(z, data))
  }

  lemma FileAtFrame(img: seq<byte>, img': seq<byte>, z: Codec, data: seq<byte>, off: nat)
    requires FileAt(img, z, data, off)
    requires |img'| == |img|
    requires forall i :: off <= i < off + FileSize(z, data) ==> img'[i] == img[i]
    ensures FileAt(img', z, data, off)
  {
    var start := off + 4 * Blocks(|data|);
    AtFrame(img, img', off, Table(z, data, start));
    AtFrame(img, img', start, Packed(z, data));
  }

  /** Which bits of the twelve bytes of an inode are which field. */
  lemma {:induction false} InodeFields(img: seq<byte>, off: nat)
    requires off + INODE_SIZE <= |img|
    ensures var i, b := ReadInode(img, off), (k: nat) requires k < 12 => img[off + k] as int;
      && i.mode == b(0) + 0x100 * b(1) && i.uid == b(2) + 0x100 * b(3)
      && i.size == b(4) + 0x100 * b(5) + 0x10000 * b(6) && i.gid == b(7)
      && i.namelen == b(8) % 64 && i.offset == b(8) / 64 + 4 * b(9) + 0x400 * b(10) + 0x40000 * b(11)
  {
    hide Word;
    LittleEndian(0, img, off);
    LittleEndian(0, img, off + 4);
    LittleEndian(0, img, off + 8);
    Halves(img[off], img[off + 1], img[off + 2], img[off + 3]);
    ThreeAndOne(img[off + 4], img[off + 5], img[off + 6], img[off + 7]);
    SixBits(img[off + 8], img[off + 9], img[off + 10], img[off + 11]);
  }

  lemma Halves(a: byte, b: byte, c: byte, d: byte)
    ensures var w := (a as int) + 0x100 * (b as int) + 0x10000 * (c as int) + 0x100_0000 * (d as int);
      w % 0x10000 == a as int + 0x100 * (b as int) && w / 0x10000 == c as int + 0x100 * (d as int)
  {
  }

  lemma ThreeAndOne(a: byte, b: byte, c: byte, d: byte)
    ensures var w := (a as int) + 0x100 * (b as int) + 0x10000 * (c as int) + 0x100_0000 * (d as int);
      w % TWO24 == a as int + 0x100 * (b as int) + 0x10000 * (c as int) && w / TWO24 == d as int
  {
  }

  lemma SixBits(a: byte, b: byte, c: byte, d: byte)
    ensures var w := (a as int) + 0x100 * (b as int) + 0x10000 * (c as int) + 0x100_0000 * (d as int);
      w % 64 == a as int % 64 && w / 64 == a as int / 64 + 4 * (b as int) + 0x400 * (c as int) + 0x40000 * (d as int)
  {
  }
}
