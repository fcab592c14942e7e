/** What cramfsck makes of an image that mkcramfs wrote. */
module CramfsRoundTrip {
  import opened Bytes
  import opened CramfsFormat
  import opened CramfsDedup
  import opened CramfsData
  import opened CramfsWriter
  import opened CramfsReader

  // ---- file data ----

  lemma {:induction false} FirstBlock(img: seq<byte>, z: Codec, data: seq<byte>, off: nat, curr: nat)
    requires z.Faithful() && data != [] && |img| < TWO32
    requires At(img, off, Table(z, data, curr)) && At(img, curr, Packed(z, data))
    ensures var end := curr + |z.compress(Head(data))|;
      && off + 4 <= |img| && Word(img, off) == end && curr < end
      && InflateBlock(img, z, curr, end) == Ok(Head(data))
      && At(img, off + 4, Table(z, Rest(data), end)) && At(img, end, Packed(z, Rest(data)))
  {
    hide At, Word, Le32, Blocks, Head, Rest;
    HeadRest(data);
    var c := z.compress(Head(data));
    var end := curr + |c|;
    HeadLength(data);
    AtConcat(img, off, Le32(end), Table(z, Rest(data), end));
    AtConcat(img, curr, c, Packed(z, Rest(data)));
    Spot(img, curr, c);
    Spot(img, off, Le32(end));
    WordOfLe32(img, off, end);
  }

  lemma HeadLength(data: seq<byte>)
    ensures |Head(data)| == Min(|data|, BLKSIZE)
  {
  }

  lemma Spot(img: seq<byte>, off: nat, s: seq<byte>)
    requires At(img, off, s)
    ensures off + |s| <= |img| && img[off..off + |s|] == s
  {
  }

  /** The block walk over a stored file yields the file. */
  lemma {:induction false} UncompressStored(img: seq<byte>, z: Codec, data: seq<byte>, off: nat, curr: nat, x: Extent)
    requires z.Faithful() && data != [] && |img| < TWO32
    requires At(img, off, Table(z, data, curr)) && At(img, curr, Packed(z, data))
    ensures Uncompress(img, z, off, curr, |data|, x).Ok?
    ensures var r := Uncompress(img, z, off, curr, |data|, x).value;
      r.0 == data && r.1 == x.(endData := r.1.endData)
    decreases |data|
  {
    hide At, Table, Packed, InflateBlock, Word;
    FirstBlock(img, z, data, off, curr);
    HeadRest(data);
    var end := curr + |z.compress(Head(data))|;
    if Rest(data) != [] {
      UncompressStored(img, z, Rest(data), off + 4, end, x.(endData := Max(x.endData, end)));
    }
  }

  lemma {:induction false} SymlinkStored(img: seq<byte>, z: Codec, data: seq<byte>, off: nat, x: Extent)
    requires z.Faithful() && 1 <= |data| <= BLKSIZE && |img| < TWO32
    requires FileAt(img, z, data, off)
    ensures Symlink(img, z, off, |data|, x).Ok?
    ensures var r := Symlink(img, z, off, |data|, x).value;
      r.0 == data && r.1 == x.(endData := r.1.endData)
  {
    hide At, Table, Packed, InflateBlock, Word;
    assert Blocks(|data|) == 1;
    FirstBlock(img, z, data, off, off + 4);
  }

  // ---- names ----

  lemma {:induction false} CStringZeros(name: seq<byte>, n: nat)
    requires forall i :: 0 <= i < |name| ==> name[i] != 0
    ensures CString(name + Zeros(n)) == name
  {
    var s := name + Zeros(n);
    if name == [] {
      assert n > 0 ==> s[0] == 0;
    } else {
      CStringZeros(name[1..], n);
      assert s[1..] == name[1..] + Zeros(n);
    }
  }

  // ---- the tree ----

  /** The tree as its readers see it. */
  function Erase(t: Tree): seq<Node>
    decreases t, 1
  {
    if t.Nil? then [] else [EraseEntry(t)] + Erase(t.next)
  }

  function EraseEntry(e: Tree): Node
    requires e.Entry?
    decreases e, 0
  {
    Node(e.name, e.mode, e.uid, e.gid, e.size, e.data, Erase(e.child))
  }

  /** The entries of one directory. */
  function Entries(t: Tree): (r: seq<Tree>)
    ensures forall k :: 0 <= k < |r| ==> r[k].Entry?
  {
    if t.Nil? then [] else [t] + Entries(t.next)
  }

  /** A reader sees the entries of a directory in their order, each with all of its fields. */
  lemma {:induction false} ErasedEntries(t: Tree, k: nat)
    ensures |Erase(t)| == |Entries(t)|
    ensures k < |Erase(t)| ==>
      var n, e := Erase(t)[k], Entries(t)[k];
      && n.name == e.name && n.mode == e.mode && n.uid == e.uid && n.gid == e.gid && n.size == e.size
      && n.data == e.data && n.children == Erase(e.child)
    decreases t
  {
    if t.Entry? {
      ErasedEntries(t.next, if k > 0 then k - 1 else 0);
    }
  }

  function Height(t: Tree): nat {
    if t.Nil? then 0 else Max(if IsDir(t) then 1 + Height(t.child) else 0, Height(t.next))
  }

  /** How the walk over a listing moves the extents: the end of the inodes is the end of the last listing, and
      the data starts at lo once some file that starts there has been seen. */
  ghost predicate Walked(img: seq<byte>, t: Tree, off: nat, deep: nat, lo: nat, x: Extent, y: Extent) {
    && y.endInode == Max(x.endInode, EndOf(t, off, deep))
    && lo <= y.startData <= x.startData
    && (SigIds(t) == {} ==> y.startData == x.startData)
    && (StartsAt(img, t, off, deep, lo) ==> y.startData == lo)
  }

  function EndOf(t: Tree, off: nat, deep: nat): nat {
    if t.Nil? then 0 else if DeepSize(t) == 0 then off + ListSize(t) else Max(off + ListSize(t), deep + DeepSize(t))
  }

  /** One entry: its own data or its own listing. */
  ghost predicate WalkedEntry(img: seq<byte>, e: Tree, off: nat, deep: nat, lo: nat, x: Extent, y: Extent)
    requires e.Entry? && off + INODE_SIZE <= |img|
  {
    && y.endInode == Max(x.endInode, EndOf(e.child, deep, deep + ListSize(e.child)))
    && lo <= y.startData <= x.startData
    && (SigIds(e.child) == {} && !HasSig(e) ==> y.startData == x.startData)
    && (HasSig(e) && 4 * ReadInode(img, off).offset == lo ==> y.startData == lo)
    && (StartsAt(img, e.child, deep, deep + ListSize(e.child), lo) ==> y.startData == lo)
  }

  lemma {:induction false} EndStep(t: Tree, off: nat, deep: nat)
    requires t.Entry?
    ensures EndOf(t, off, deep) ==
      Max(Max(EndOf(t.child, deep, deep + ListSize(t.child)), off + EntrySize(t)),
          EndOf(t.next, off + EntrySize(t), deep + TreeSize(t.child)))
  {
    hide EntrySize, ListSize, DeepSize;
    SizeFacts(t);
    NilSizes(t.child);
    NilSizes(t.next);
  }

  lemma NilSizes(t: Tree)
    ensures t.Nil? ==> ListSize(t) == 0 && DeepSize(t) == 0
  {
  }

  lemma {:induction false} WalkStep(img: seq<byte>, t: Tree, off: nat, deep: nat, lo: nat, x: Extent, y: Extent,
                                    w: Extent)
    requires t.Entry? && off + INODE_SIZE <= |img|
    requires WalkedEntry(img, t, off, deep, lo, x, y)
    requires Walked(img, t.next, off + EntrySize(t), deep + TreeSize(t.child), lo,
                    y.(endInode := Max(y.endInode, off + EntrySize(t))), w)
    ensures Walked(img, t, off, deep, lo, x, w)
  {
    hide EndOf, EntrySize, TreeSize, ListSize, ReadInode, HasSig;
    EndStep(t, off, deep);
  }

  /** Inode fields and name of an entry that is in place. */
  lemma {:induction false} EntryHere(img: seq<byte>, e: Tree, off: nat)
    requires e.Entry? && ValidEntry(e) && InodeHere(img, off, e) && At(img, off + INODE_SIZE, Padded(e.name))
    ensures var i := ReadInode(img, off);
      && i == InodeOf(e, i.offset)
      && off + EntrySize(e) <= |img|
      && CString(img[off + INODE_SIZE..off + EntrySize(e)]) == e.name
      && 4 * i.namelen - |e.name| <= 3
  {
    hide At, CString;
    var i := ReadInode(img, off);
    NameWords(e);
    OffsetFits(img, off);
    assert Fits(InodeOf(e, i.offset));
    InodeRoundTrip(img, off, InodeOf(e, i.offset));
    Spot(img, off + INODE_SIZE, Padded(e.name));
    CStringZeros(e.name, 4 * Words(|e.name|) - |e.name|);
  }

  lemma NameWords(e: Tree)
    requires e.Entry? && ValidEntry(e)
    ensures Words(|e.name|) < 64
  {
  }

  /** mkcramfs takes names of up to 255 bytes, but a name longer than 252 bytes needs 64 words and its length is
      written as zero: the length field comes back exactly when the name has at most 252 bytes. */
  lemma {:induction false} NameLengthKept(img: seq<byte>, e: Tree, off: nat, o: nat)
    requires e.Entry? && |e.name| <= 255 && At(img, off, InodeBytes(InodeOf(e, o)))
    ensures ReadInode(img, off).namelen == Words(|e.name|) <==> |e.name| <= 252
    ensures |e.name| > 252 ==> ReadInode(img, off).namelen == 0
  {
    hide Words, ReadInode, At;
    InodeRoundTrip(img, off, InodeOf(e, o));
  }

  lemma OffsetFits(img: seq<byte>, off: nat)
    requires off + INODE_SIZE <= |img|
    ensures ReadInode(img, off).offset < TWO26
  {
  }

  lemma {:induction false} EntryFacts(img: seq<byte>, z: Codec, e: Tree, off: nat, deep: nat, lo: nat)
    requires e.Entry? && Readable(img, z, e, off, deep, lo)
    ensures off + INODE_SIZE <= |img|
    ensures e.child.Entry? ==> 4 * ReadInode(img, off).offset == deep
    ensures HasSig(e) ==> lo <= 4 * ReadInode(img, off).offset && FileAt(img, z, e.data, 4 * ReadInode(img, off).offset)
    ensures IsReg(e) && !HasSig(e) ==> ReadInode(img, off).offset == 0
    ensures Readable(img, z, e.child, deep, deep + ListSize(e.child), lo)
  {
    hide At, ReadInode, FileAt;
  }

  /** An entry without data and without a listing leaves the extents alone. */
  lemma {:induction false} WalkedNothing(img: seq<byte>, e: Tree, off: nat, deep: nat, lo: nat, x: Extent)
    requires e.Entry? && off + INODE_SIZE <= |img| && e.child.Nil? && !HasSig(e) && 0 < lo <= x.startData
    ensures WalkedEntry(img, e, off, deep, lo, x, x)
  {
    hide ReadInode;
  }

  lemma {:induction false} WalkedFile(img: seq<byte>, e: Tree, off: nat, deep: nat, lo: nat, x: Extent, y: Extent)
    requires e.Entry? && off + INODE_SIZE <= |img| && e.child.Nil? && HasSig(e) && 0 < lo <= x.startData
    requires lo <= 4 * ReadInode(img, off).offset && y.endInode == x.endInode
    requires y.startData == Min(x.startData, 4 * ReadInode(img, off).offset)
    ensures WalkedEntry(img, e, off, deep, lo, x, y)
  {
    hide ReadInode;
  }

  lemma {:induction false} WalkedDir(img: seq<byte>, e: Tree, off: nat, deep: nat, lo: nat, x: Extent, x': Extent,
                                     y: Extent)
    requires e.Entry? && off + INODE_SIZE <= |img| && IsDir(e)
    requires x' == x.(startInode := x'.startInode)
    requires Walked(img, e.child, deep, deep + ListSize(e.child), lo, x', y)
    ensures WalkedEntry(img, e, off, deep, lo, x, y)
  {
    hide ReadInode, EndOf, ListSize, FileType;
  }

  lemma {:induction false} ExpandOther(img: seq<byte>, z: Codec, e: Tree, off: nat, deep: nat, lo: nat, x: Extent,
                                       depth: nat)
    requires e.Entry? && ValidEntry(e) && Readable(img, z, e, off, deep, lo)
    requires !IsDir(e) && !HasSig(e) && 0 < lo <= x.startData
    ensures off + INODE_SIZE <= |img|
    ensures var r := Expand(img, z, InodeOf(e, ReadInode(img, off).offset), e.name, x, depth);
      r == Ok((EraseEntry(e), x)) && WalkedEntry(img, e, off, deep, lo, x, x)
  {
    hide FileType, ReadInode, Readable, Words, WalkedEntry, ListSize;
    EntryFacts(img, z, e, off, deep, lo);
    WalkedNothing(img, e, off, deep, lo, x);
  }

  lemma {:induction false} ExpandFile(img: seq<byte>, z: Codec, e: Tree, off: nat, deep: nat, lo: nat, x: Extent,
                                      depth: nat)
    requires z.Faithful() && |img| < TWO32
    requires e.Entry? && ValidEntry(e) && Readable(img, z, e, off, deep, lo)
    requires HasSig(e) && 0 < lo <= x.startData
    ensures off + INODE_SIZE <= |img|
    ensures var r := Expand(img, z, InodeOf(e, ReadInode(img, off).offset), e.name, x, depth);
      r.Ok? && r.value.0 == EraseEntry(e) && WalkedEntry(img, e, off, deep, lo, x, r.value.1)
  {
    hide FileType, ReadInode, Readable, Words, WalkedEntry, ListSize, Uncompress, Symlink, At, Table, Packed, Blocks;
    EntryFacts(img, z, e, off, deep, lo);
    var o := 4 * ReadInode(img, off).offset;
    var x' := x.(startData := Min(x.startData, o));
    if IsReg(e) {
      UncompressStored(img, z, e.data, o, o + 4 * Blocks(e.size), x');
      var r := Uncompress(img, z, o, o + 4 * Blocks(e.size), e.size, x');
      assert o == 0 ==> x' == x;
      WalkedFile(img, e, off, deep, lo, x, r.value.1);
    } else {
      SymlinkStored(img, z, e.data, o, x');
      WalkedFile(img, e, off, deep, lo, x, Symlink(img, z, o, e.size, x').value.1);
    }
  }

  lemma {:induction false} ExpandDir(img: seq<byte>, z: Codec, e: Tree, off: nat, deep: nat, lo: nat, x: Extent,
                                     depth: nat)
    requires z.Faithful() && |img| < TWO32
    requires e.Entry? && IsDir(e) && ValidEntry(e) && Valid(e.child) && Readable(img, z, e, off, deep, lo)
    requires 0 < lo <= x.startData && depth >= Height(e)
    ensures off + INODE_SIZE <= |img|
    ensures var r := Expand(img, z, InodeOf(e, ReadInode(img, off).offset), e.name, x, depth);
      r.Ok? && r.value.0 == EraseEntry(e) && WalkedEntry(img, e, off, deep, lo, x, r.value.1)
    decreases e, 0
  {
    hide FileType, ReadInode, Readable, Words, Walked, WalkedEntry, ListSize, ExpandList, Valid;
    EntryFacts(img, z, e, off, deep, lo);
    var o := 4 * ReadInode(img, off).offset;
    var x' := if e.size > 0 then x.(startInode := Min(x.startInode, o)) else x;
    NilSizes(e.child);
    ExpandTree(img, z, e.child, deep, deep + ListSize(e.child), lo, x', depth - 1);
    EmptyList(img, z, o, deep, x', depth - 1);
    WalkedDir(img, e, off, deep, lo, x, x', ExpandList(img, z, deep, ListSize(e.child), x', depth - 1).value.1);
  }

  lemma {:induction false} EmptyList(img: seq<byte>, z: Codec, o: nat, deep: nat, x: Extent, depth: nat)
    ensures ExpandList(img, z, o, 0, x, depth) == ExpandList(img, z, deep, 0, x, depth)
  {
  }

  /** One turn of the loop over a directory. */
  lemma {:induction false} ListTurn(img: seq<byte>, z: Codec, e: Tree, off: nat, rest: nat, x: Extent, depth: nat,
                                    n: Node, y: Extent)
    requires e.Entry? && off + EntrySize(e) <= |img|
    requires var i := ReadInode(img, off);
      && i.namelen == Words(|e.name|)
      && CString(img[off + INODE_SIZE..off + EntrySize(e)]) == e.name
      && Expand(img, z, i, e.name, x, depth) == Ok((n, y))
    ensures var end := off + EntrySize(e);
      var r := ExpandList(img, z, end, rest, y.(endInode := Max(y.endInode, end)), depth);
      r.Ok? ==> ExpandList(img, z, off, EntrySize(e) + rest, x, depth) == Ok(([n] + r.value.0, r.value.1))
  {
    hide ReadInode, Expand, Words, CString;
  }

  lemma {:induction false} NextFacts(img: seq<byte>, z: Codec, t: Tree, off: nat, deep: nat, lo: nat)
    requires t.Entry? && Readable(img, z, t, off, deep, lo) && Valid(t)
    ensures InodeHere(img, off, t) && At(img, off + INODE_SIZE, Padded(t.name))
    ensures Readable(img, z, t.next, off + EntrySize(t), deep + TreeSize(t.child), lo)
    ensures ValidEntry(t) && Valid(t.child) && Valid(t.next)
    ensures Height(t.next) <= Height(t)
  {
    hide At, ReadInode, FileAt, InodeHere, EntrySize;
  }

  lemma {:induction false} ExpandEntry(img: seq<byte>, z: Codec, e: Tree, off: nat, deep: nat, lo: nat, x: Extent,
                                       depth: nat)
    requires z.Faithful() && |img| < TWO32
    requires e.Entry? && Valid(e) && Readable(img, z, e, off, deep, lo)
    requires 0 < lo <= x.startData && depth >= Height(e)
    ensures off + EntrySize(e) <= |img|
    ensures ReadInode(img, off).namelen == Words(|e.name|)
    ensures CString(img[off + INODE_SIZE..off + EntrySize(e)]) == e.name
    ensures var r := Expand(img, z, ReadInode(img, off), e.name, x, depth);
      && r.Ok? && r.value.0 == EraseEntry(e) && WalkedEntry(img, e, off, deep, lo, x, r.value.1)
      && 0 < lo <= r.value.1.startData
    decreases e, 1
  {
    hide At, ReadInode, Words, HasSig, Readable, Valid, ValidEntry, Height, IsDir, Expand, CString, EntrySize,
      WalkedEntry,
      EraseEntry, InodeHere;
    NextFacts(img, z, e, off, deep, lo);
    EntryHere(img, e, off);
    if IsDir(e) {
      ExpandDir(img, z, e, off, deep, lo, x, depth);
    } else if HasSig(e) {
      ExpandFile(img, z, e, off, deep, lo, x, depth);
    } else {
      ExpandOther(img, z, e, off, deep, lo, x, depth);
    }
    WalkedBound(img, e, off, deep, lo, x, Expand(img, z, ReadInode(img, off), e.name, x, depth).value.1);
  }

  lemma WalkedBound(img: seq<byte>, e: Tree, off: nat, deep: nat, lo: nat, x: Extent, y: Extent)
    requires e.Entry? && off + INODE_SIZE <= |img| && WalkedEntry(img, e, off, deep, lo, x, y)
    ensures lo <= y.startData
  {
  }

  lemma {:induction false} ExpandNil(img: seq<byte>, z: Codec, t: Tree, off: nat, deep: nat, lo: nat, x: Extent,
                                     depth: nat)
    requires t.Nil? && 0 < lo <= x.startData
    ensures ExpandList(img, z, off, ListSize(t), x, depth) == Ok(([], x)) && Walked(img, t, off, deep, lo, x, x)
  {
  }

  lemma {:induction false} EraseStep(t: Tree)
    requires t.Entry?
    ensures Erase(t) == [EraseEntry(t)] + Erase(t.next)
  {
    hide EraseEntry;
  }

  /** Reading a listing back gives the listing that was written. */
  lemma {:induction false} ExpandTree(img: seq<byte>, z: Codec, t: Tree, off: nat, deep: nat, lo: nat, x: Extent,
                                      depth: nat)
    requires z.Faithful() && |img| < TWO32
    requires Valid(t) && Readable(img, z, t, off, deep, lo)
    requires 0 < lo <= x.startData && depth >= Height(t)
    ensures var r := ExpandList(img, z, off, ListSize(t), x, depth);
      r.Ok? && r.value.0 == Erase(t) && Walked(img, t, off, deep, lo, x, r.value.1)
    decreases t, 2
  {
    hide At, ReadInode, Words, Readable, Valid, ValidEntry, Height, Expand, ExpandList, CString, EntrySize, WalkedEntry,
      Walked, EraseEntry, InodeHere, ListSize, Erase;
    if t.Nil? {
      assert Erase(t) == [] by { NilErase(t); }
      ExpandNil(img, z, t, off, deep, lo, x, depth);
    } else {
      NextFacts(img, z, t, off, deep, lo);
      ExpandEntry(img, z, t, off, deep, lo, x, depth);
      var r := Expand(img, z, ReadInode(img, off), t.name, x, depth).value;
      var y := r.1.(endInode := Max(r.1.endInode, off + EntrySize(t)));
      ExpandTree(img, z, t.next, off + EntrySize(t), deep + TreeSize(t.child), lo, y, depth);
      ListTurn(img, z, t, off, ListSize(t.next), x, depth, r.0, r.1);
      SizeFacts(t);
      EraseStep(t);
      var rest := ExpandList(img, z, off + EntrySize(t), ListSize(t.next), y, depth).value;
      WalkStep(img, t, off, deep, lo, x, r.1, rest.1);
    }
  }

  lemma NilErase(t: Tree)
    requires t.Nil?
    ensures Erase(t) == []
  {
  }

  // ---- the whole image ----

  /** The superblock fields that the reader looks at. */
  lemma {:induction false} SuperHere(img: seq<byte>, root: Tree, fsid: seq<byte>)
    requires root.Entry? && |fsid| == 16 && At(img, 0, SuperBytes(root, fsid)) && Fits(RootInode(root))
    ensures SUPER_SIZE <= |img| && Word(img, 0) == MAGIC && Word(img, 8) == 0
    ensures img[16..32] == SignatureBytes() && ReadInode(img, 64) == RootInode(root)
  {
    hide At, Word, Le32, ReadInode, InodeBytes, SignatureBytes, NameField, RootInode;
    var i := InodeBytes(RootInode(root));
    var a := Le32(MAGIC) + Le32(0x10000);
    var b := a + Le32(0);
    var c := b + Le32(0);
    var d := c + SignatureBytes();
    var e := d + fsid;
    Spot(img, 0, SuperBytes(root, fsid));
    AtConcat(img, 0, e + NameField(), i);
    AtConcat(img, 0, e, NameField());
    AtConcat(img, 0, d, fsid);
    AtConcat(img, 0, c, SignatureBytes());
    AtConcat(img, 0, b, Le32(0));
    AtConcat(img, 0, a, Le32(0));
    AtConcat(img, 0, Le32(MAGIC), Le32(0x10000));
    Spot(img, 16, SignatureBytes());
    WordOfLe32(img, 0, MAGIC);
    WordOfLe32(img, 8, 0);
    InodeRoundTrip(img, 64, RootInode(root));
  }

  /** The file system that root describes, as a reader sees it: the root has no name. */
  function Extracted(root: Tree): Node
    requires root.Entry?
  {
    EraseEntry(root).(name := [])
  }

  lemma {:induction false} ReadableBelow(img: seq<byte>, z: Codec, t: Tree, off: nat, deep: nat, lo: nat, low: nat)
    requires Readable(img, z, t, off, deep, lo) && low <= lo
    ensures Readable(img, z, t, off, deep, low)
    decreases t
  {
    hide At, ReadInode, FileAt, InodeHere, EntrySize, ListSize, TreeSize;
    if t.Entry? {
      ReadableBelow(img, z, t.child, deep, deep + ListSize(t.child), lo, low);
      ReadableBelow(img, z, t.next, off + EntrySize(t), deep + TreeSize(t.child), lo, low);
    }
  }

  lemma {:induction false} StartBound(img: seq<byte>, t: Tree, off: nat, deep: nat, lo: nat)
    requires StartsAt(img, t, off, deep, lo)
    ensures lo < NO_DATA
    decreases t
  {
    hide ReadInode, EntrySize, ListSize, TreeSize;
    OffsetBound(img, off);
    if StartsAt(img, t.child, deep, deep + ListSize(t.child), lo) {
      StartBound(img, t.child, deep, deep + ListSize(t.child), lo);
    } else if StartsAt(img, t.next, off + EntrySize(t), deep + TreeSize(t.child), lo) {
      StartBound(img, t.next, off + EntrySize(t), deep + TreeSize(t.child), lo);
    }
  }

  lemma OffsetBound(img: seq<byte>, off: nat)
    requires off + INODE_SIZE <= |img|
    ensures 4 * ReadInode(img, off).offset < NO_DATA
  {
    hide Word;
  }

  /** The walk over the root listing ends where the file data begins. */
  lemma {:induction false} WalkedAll(img: seq<byte>, z: Codec, root: Tree, fsid: seq<byte>, x: Extent, y: Extent)
    requires root.Entry? && |fsid| == 16 && CramfsImage(img, z, root, fsid)
    requires x.endInode == 0 && x.startData == NO_DATA
    requires var deep, lo := SUPER_SIZE + ListSize(root.child), SUPER_SIZE + TreeSize(root.child);
      Walked(img, root.child, SUPER_SIZE, deep, Min(lo, NO_DATA), x, y)
    ensures y.startData == NO_DATA || y.endInode == y.startData
  {
    hide At, SuperBytes, ListSize, DeepSize, Readable;
    var list := root.child;
    NilSizes(list);
    if SigIds(list) != {} {
      assert list.Entry?;
      StartBound(img, list, SUPER_SIZE, SUPER_SIZE + ListSize(list), SUPER_SIZE + TreeSize(list));
      hide StartsAt, SigIds;
    }
  }

  lemma {:induction false} ExpandRoot(img: seq<byte>, z: Codec, i: Inode, x: Extent, depth: nat, nodes: seq<Node>,
                                      y: Extent)
    requires FileType(i.mode) == DIR && depth > 0
    requires var x' := if i.size > 0 then x.(startInode := Min(x.startInode, 4 * i.offset)) else x;
      ExpandList(img, z, 4 * i.offset, i.size, x', depth - 1) == Ok((nodes, y))
    ensures Expand(img, z, i, [], x, depth) == Ok((Described(i, [], [], nodes), y))
  {
    hide ExpandList, FileType;
  }

  /** cramfsck accepts every image that mkcramfs writes, and what it extracts is the tree that was packed: names,
      modes, owners, sizes, device numbers, file contents and link targets, in the same order. */
  lemma {:induction false} FsckReadsBack(img: seq<byte>, z: Codec, root: Tree, fsid: seq<byte>, depth: nat)
    requires z.Faithful() && ValidRoot(root) && |fsid| == 16 && CramfsImage(img, z, root, fsid)
    requires depth > Height(root.child)
    ensures Fsck(img, z, depth) == Ok(Extracted(root))
  {
    hide At, SuperBytes, ListSize, DeepSize, Readable, StartsAt, SigIds, Word, ReadInode, Expand, ExpandList, Erase,
      Valid, Unique,
      FileType, Height, Walked;
    SuperHere(img, root, fsid);
    var list := root.child;
    var deep, lo := SUPER_SIZE + ListSize(list), SUPER_SIZE + TreeSize(list);
    var x := Extent(NO_DATA, 0, NO_DATA, 0);
    var x' := if root.size > 0 then x.(startInode := Min(x.startInode, SUPER_SIZE)) else x;
    ReadableBelow(img, z, list, SUPER_SIZE, deep, lo, Min(lo, NO_DATA));
    ExpandTree(img, z, list, SUPER_SIZE, deep, Min(lo, NO_DATA), x', depth - 1);
    var r := ExpandList(img, z, SUPER_SIZE, ListSize(list), x', depth - 1).value;
    ExpandRoot(img, z, RootInode(root), x, depth, r.0, r.1);
    WalkedAll(img, z, root, fsid, x', r.1);
  }
}
