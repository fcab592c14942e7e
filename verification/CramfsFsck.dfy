/** cramfsck as it runs: reads go through a two-block window that is refilled as the walk moves. */
module CramfsFsck {
  import opened Bytes
  import opened CramfsFormat
  import opened CramfsDedup
  import opened CramfsData
  import opened CramfsWriter
  import opened CramfsReader
  import opened CramfsRoundTrip

  function Before<T>(done: seq<T>, o: Outcome<(seq<T>, Extent)>): Outcome<(seq<T>, Extent)> {
    if o.Ok? then Ok((done + o.value.0, o.value.1)) else o
  }

  lemma BeforeNothing<T>(o: Outcome<(seq<T>, Extent)>)
    ensures Before([], o) == o
  {
    if o.Ok? {
      assert [] + o.value.0 == o.value.0;
    }
  }

  lemma BeforeMore<T>(done: seq<T>, more: seq<T>, o: Outcome<(seq<T>, Extent)>)
    ensures Before(done, Before(more, o)) == Before(done + more, o)
  {
    if o.Ok? {
      ConcatAssoc(done, more, o.value.0);
    }
  }

  class Cramfsck {
    const image: seq<byte>
    const z: Codec
    const buffer: array<byte>
    var block: int
    var extent: Extent

    ghost predicate Valid()
      reads this, buffer
    {
      && buffer.Length == 2 * WINDOW
      && (block >= 0 ==> Window(image, buffer[..], block * WINDOW))
    }

    constructor (image: seq<byte>, z: Codec)
      ensures Valid() && this.image == image && this.z == z && fresh(buffer)
      ensures extent == Extent(NO_DATA, 0, NO_DATA, 0)
    {
      this.image, this.z := image, z;
      buffer := new byte[2 * WINDOW];
      block := -1;
      extent := Extent(NO_DATA, 0, NO_DATA, 0);
    }

    /** romfs_read: where the byte at offset of the image stands in the window, with everything behind it. */
    method RomfsRead(offset: nat) returns (p: nat)
      requires Valid()
      modifies this`block, buffer
      ensures Valid() && p < WINDOW && Window(image, buffer[p..], offset)
    {
      var b := offset / WINDOW;
      if b != block {
        block := b;
        var base := b * WINDOW;
        var n := if base >= |image| then 0 else Min(2 * WINDOW, |image| - base);
        var src := if base >= |image| then [] else image[base..base + n];
        CopyInto(buffer, 0, src);
        assert Window(image, buffer[..], base);
      }
      p := offset % WINDOW;
      WindowShift(image, buffer[..], b * WINDOW, p);
      assert buffer[..][p..] == buffer[p..];
    }

    method ReadWord(offset: nat) returns (w: nat)
      requires Valid()
      modifies this`block, buffer
      ensures Valid() && (offset + 4 <= |image| ==> w == Word(image, offset))
    {
      var p := RomfsRead(offset);
      w := Word(buffer[p..], 0);
    }

    /** iget */
    method GetInode(offset: nat) returns (i: Inode)
      requires Valid()
      modifies this`block, buffer
      ensures Valid() && i.namelen < 64 && (offset + INODE_SIZE <= |image| ==> i == ReadInode(image, offset))
    {
      var p := RomfsRead(offset);
      i := ReadInode(buffer[p..], 0);
      if offset + INODE_SIZE <= |image| {
        WindowWord(image, buffer[p..], offset, 0);
        WindowWord(image, buffer[p..], offset, 4);
        WindowWord(image, buffer[p..], offset, 8);
      }
    }

    method ReadBytes(offset: nat, n: nat) returns (s: seq<byte>)
      requires Valid() && n <= WINDOW
      modifies this`block, buffer
      ensures Valid() && |s| == n && (offset + n <= |image| ==> s == image[offset..offset + n])
    {
      var p := RomfsRead(offset);
      s := buffer[p..][..n];
    }

    /** uncompress_block on the bytes curr..next */
    method InflateRange(curr: nat, next: nat) returns (r: Outcome<seq<byte>>)
      requires Valid()
      modifies this`block, buffer
      ensures Valid()
      ensures (InflateBlock(image, z, curr, next) != Fail(Undefined) ==> r == InflateBlock(image, z, curr, next))
    {
      if next < curr || next - curr > WINDOW {
        return Fail(Undefined);
      }
      var s := ReadBytes(curr, next - curr);
      r := match z.inflate(s) case Bytes(out) => Ok(out) case Corrupt => Fail(InflateError);
    }

    /** do_symlink */
    method DoSymlink(offset: nat, size: nat) returns (r: Outcome<seq<byte>>)
      requires Valid()
      modifies this, buffer
      ensures Valid() && Agrees(Symlink(image, z, offset, size, old(extent)), r, extent)
    {
      var next := ReadWord(offset);
      extent := extent.(endData := Max(extent.endData, next));
      r := InflateRange(offset + 4, next);
      if r.Ok? && |r.value| != size {
        r := Fail(SymlinkSize);
      }
    }

    /** One turn of do_uncompress: the pointer at off and the block that it ends. */
    method NextBlock(off: nat, curr: nat, left: nat) returns (next: nat, out: Outcome<seq<byte>>)
      requires Valid() && left > 0
      modifies this, buffer
      ensures Valid() && (off + 4 <= |image| ==> next == Word(image, off))
      ensures extent == old(extent).(endData := Max(old(extent.endData), next))
      ensures Block(image, z, curr, next, left) != Fail(Undefined) ==> out == Block(image, z, curr, next, left)
      ensures out.Ok? ==> |out.value| == Min(left, BLKSIZE)
    {
      hide InflateBlock, Word;
      next := ReadWord(off);
      extent := extent.(endData := Max(extent.endData, next));
      if curr == next {
        out := Ok(Zeros(Min(left, BLKSIZE)));
      } else {
        out := InflateRange(curr, next);
      }
      if out.Ok? && left >= BLKSIZE && |out.value| != BLKSIZE {
        out := Fail(NonBlock);
      } else if out.Ok? && left < BLKSIZE && |out.value| != left {
        out := Fail(NonSize);
      }
    }

    /** do_uncompress */
    method DoUncompress(offset: nat, size: nat) returns (r: Outcome<seq<byte>>)
      requires Valid() && size > 0
      modifies this, buffer
      ensures Valid() && Agrees(Uncompress(image, z, offset, offset + 4 * Blocks(size), size, old(extent)), r, extent)
    {
      hide Uncompress, Block, Window, Blocks, Word, Before;
      var off: nat, curr: nat, left: nat, done := offset, offset + 4 * Blocks(size), size, [];
      ghost var all := Uncompress(image, z, off, curr, left, extent);
      BeforeNothing(all);
      while left > 0
        invariant Valid()
        invariant all != Fail(Undefined) && left > 0 ==>
          all == Before(done, Uncompress(image, z, off, curr, left, extent))
        invariant all != Fail(Undefined) && left == 0 ==> all == Ok((done, extent))
      {
        if all != Fail(Undefined) {
          UncompressStep(image, z, off, curr, left, extent, done, all);
        }
        var next, out := NextBlock(off, curr, left);
        if out.Fail? {
          return Fail(out.why);
        }
        done := done + out.value;
        left, off, curr := left - |out.value|, off + 4, next;
      }
      r := Ok(done);
    }

    /** expand_fs */
    method ExpandFs(i: Inode, name: seq<byte>, depth: nat) returns (r: Outcome<Node>)
      requires Valid()
      modifies this, buffer
      ensures Valid() && Agrees(Expand(image, z, i, name, old(extent), depth), r, extent)
      decreases depth, 0
    {
      hide Uncompress, Symlink, ExpandList, Window;
      var off := 4 * i.offset;
      if FileType(i.mode) == DIR {
        if depth == 0 {
          return Fail(TooDeep);
        }
        if i.size > 0 {
          extent := extent.(startInode := Min(extent.startInode, off));
        }
        var l := ExpandEntries(off, i.size, depth - 1);
        r := if l.Ok? then Ok(Described(i, name, [], l.value)) else Fail(l.why);
      } else if FileType(i.mode) == REG {
        if off > 0 {
          extent := extent.(startData := Min(extent.startData, off));
        }
        if i.size == 0 {
          return Ok(Described(i, name, [], []));
        }
        var d := DoUncompress(off, i.size);
        r := if d.Ok? then Ok(Described(i, name, d.value, [])) else Fail(d.why);
      } else if FileType(i.mode) == LNK {
        extent := extent.(startData := Min(extent.startData, off));
        var d := DoSymlink(off, i.size);
        r := if d.Ok? then Ok(Described(i, name, d.value, [])) else Fail(d.why);
      } else if FileType(i.mode) in {FIFO, CHR, BLK, SOCK} {
        r := Ok(Described(i, name, [], []));
      } else {
        r := Fail(BogusMode);
      }
    }

    /** The loop over a directory's entries inside expand_fs. */
    method ExpandEntries(offset: nat, size: nat, depth: nat) returns (r: Outcome<seq<Node>>)
      requires Valid()
      modifies this, buffer
      ensures Valid() && Agrees(ExpandList(image, z, offset, size, old(extent), depth), r, extent)
      decreases depth, 1
    {
      hide ExpandList, Expand, Window, ReadInode, Before, CString;
      var off: nat, count: int, done := offset, size, [];
      ghost var all := ExpandList(image, z, off, count, extent, depth);
      BeforeNothing(all);
      while count > 0
        invariant Valid()
        invariant all != Fail(Undefined) ==> all == Before(done, ExpandList(image, z, off, count, extent, depth))
      {
        if all != Fail(Undefined) {
          ListStep(image, z, off, count, extent, depth, done, all);
        }
        var child := GetInode(off);
        var newlen := 4 * child.namelen;
        var field := ReadBytes(off + INODE_SIZE, newlen);
        var name := CString(field);
        if newlen - |name| > 3 {
          return Fail(BadPathLength);
        }
        var n := ExpandFs(child, name, depth);
        if n.Fail? {
          return Fail(n.why);
        }
        done := done + [n.value];
        count, off := count - INODE_SIZE - newlen, off + INODE_SIZE + newlen;
        extent := extent.(endInode := Max(extent.endInode, off));
      }
      if all != Fail(Undefined) {
        ListDone(image, z, off, count, extent, depth, done);
      }
      r := Ok(done);
    }
  }

  lemma {:induction false} UncompressStep(img: seq<byte>, z: Codec, off: nat, curr: nat, left: nat, x: Extent,
                                          done: seq<byte>,
                                          all: Outcome<(seq<byte>, Extent)>)
    requires left > 0 && all == Before(done, Uncompress(img, z, off, curr, left, x)) && all != Fail(Undefined)
    ensures off + 4 <= |img|
    ensures var next := Word(img, off);
      var x' := x.(endData := Max(x.endData, next));
      match Block(img, z, curr, next, left)
      case Ok(out) =>
        all == if |out| == left then Ok((done + out, x'))
               else Before(done + out, Uncompress(img, z, off + 4, next, left - |out|, x'))
      case Fail(why) => why != Undefined && all == Fail(why)
  {
    hide Word, Block;
    if off + 4 <= |img| {
      var next := Word(img, off);
      var x' := x.(endData := Max(x.endData, next));
      var b := Block(img, z, curr, next, left);
      if b.Ok? && |b.value| != left {
        BeforeMore(done, b.value, Uncompress(img, z, off + 4, next, left - |b.value|, x'));
      }
    }
  }

  lemma {:induction false} ListStep(img: seq<byte>, z: Codec, off: nat, count: int, x: Extent, depth: nat,
                                    done: seq<Node>,
                                    all: Outcome<(seq<Node>, Extent)>)
    requires count > 0 && all == Before(done, ExpandList(img, z, off, count, x, depth)) && all != Fail(Undefined)
    ensures off + INODE_SIZE <= |img|
    ensures var child := ReadInode(img, off);
      var newlen := 4 * child.namelen;
      var end := off + INODE_SIZE + newlen;
      end <= |img| &&
      var name := CString(img[off + INODE_SIZE..end]);
      if newlen - |name| > 3 then all == Fail(BadPathLength)
      else
        match Expand(img, z, child, name, x, depth)
        case Ok(v) =>
          all == Before(done + [v.0], ExpandList(img, z, end, count - INODE_SIZE - newlen,
                                                 v.1.(endInode := Max(v.1.endInode, end)), depth))
        case Fail(why) => why != Undefined && all == Fail(why)
  {
    hide ReadInode, CString, Expand;
    if off + INODE_SIZE <= |img| {
      var child := ReadInode(img, off);
      var newlen := 4 * child.namelen;
      var end := off + INODE_SIZE + newlen;
      if end <= |img| {
        var e := Expand(img, z, child, CString(img[off + INODE_SIZE..end]), x, depth);
        if e.Ok? {
          BeforeMore(done, [e.value.0], ExpandList(img, z, end, count - INODE_SIZE - newlen,
                                                 e.value.1.(endInode := Max(e.value.1.endInode, end)), depth));
        }
      }
    }
  }

  lemma {:induction false} ListDone(img: seq<byte>, z: Codec, off: nat, count: int, x: Extent, depth: nat,
                                    done: seq<Node>)
    requires count <= 0
    ensures Before(done, ExpandList(img, z, off, count, x, depth)) == Ok((done, x))
  {
    assert done + [] == done;
  }

  /** The bytes w show the image from base on, as far as the image goes. */
  ghost predicate Window(img: seq<byte>, w: seq<byte>, base: nat) {
    forall i :: 0 <= i < |w| && base + i < |img| ==> w[i] == img[base + i]
  }

  lemma WindowShift(img: seq<byte>, w: seq<byte>, base: nat, p: nat)
    requires Window(img, w, base) && p <= |w|
    ensures Window(img, w[p..], base + p)
  {
    forall i | 0 <= i < |w[p..]| && base + p + i < |img| ensures w[p..][i] == img[base + p + i] {
      assert w[p + i] == img[base + (p + i)];
    }
  }

  lemma WindowWord(img: seq<byte>, w: seq<byte>, base: nat, k: nat)
    requires Window(img, w, base) && k + 4 <= |w| && base + k + 4 <= |img|
    ensures Word(w, k) == Word(img, base + k)
  {
    assert w[k + 0] == img[base + (k + 0)] && w[k + 1] == img[base + (k + 1)];
    assert w[k + 2] == img[base + (k + 2)] && w[k + 3] == img[base + (k + 3)];
  }

  /** What a run returns and leaves behind, wherever the outcome is determined. */
  ghost predicate Agrees<T(!new)>(spec: Outcome<(T, Extent)>, r: Outcome<T>, x: Extent) {
    spec != Fail(Undefined) ==>
      match spec
      case Ok(v) => r == Ok(v.0) && x == v.1
      case Fail(why) => r == Fail(why)
  }

  /** cramfsck's main: reads the superblock from the mapped file, then walks through the window. */
  method Check(image: seq<byte>, z: Codec, depth: nat) returns (r: Outcome<Node>)
    ensures Fsck(image, z, depth) != Fail(Undefined) ==> r == Fsck(image, z, depth)
  {
    hide Word, ReadInode, Expand, Window, SignatureBytes;
    if |image| < SUPER_SIZE {
      return Fail(TooShort);
    }
    var start := 0;
    if Word(image, 0) != MAGIC {
      if |image| >= PAD_SIZE + SUPER_SIZE && Word(image, PAD_SIZE) == MAGIC {
        start := PAD_SIZE;
      } else {
        return Fail(WrongMagic);
      }
    }
    if Word(image, start + 8) % 2 == 1 {
      return Fail(VersionTwo);
    }
    var root := ReadInode(image, start + 64);
    if image[start + 16..start + 32] != SignatureBytes() || 4 * root.offset < 4 {
      return Fail(BadSuperblock);
    }
    var f := new Cramfsck(image, z);
    r := f.ExpandFs(root, [], depth);
    if r.Ok? && f.extent.startData != NO_DATA && f.extent.endInode != f.extent.startData {
      r := Fail(LayoutMismatch);
    }
  }

  /** mkcramfs followed by cramfsck -x: whenever the image gets written, the tree comes back. */
  method PackAndCheck(root: Tree, z: Codec, fsid: seq<byte>, room: nat, depth: nat) returns (ok: bool, r: Outcome<Node>)
    requires z.Faithful() && ValidRoot(root) && |fsid| == 16
    requires Rounded(SUPER_SIZE + TreeSize(root.child) + DataRoom(z, root.child)) <= room < TWO32
    requires depth > Height(root.child)
    ensures ok ==> r == Ok(Extracted(root))
    ensures ok <==> Written(z, root)
    ensures SUPER_SIZE + TreeSize(root.child) + DataRoom(z, root.child) <= TWO28 ==>
      (ok <==> Peak(root.child, 0) <= MAXENTRIES)
  {
    hide CramfsImage, ValidRoot, Height, Written, Peak, TreeSize, DataRoom, SharesOffsets, SigIds, Fsck, Extracted;
    var image, offs;
    ok, image, offs := Mkimage(root, z, fsid, room);
    r := Check(image, z, depth);
    if ok {
      FsckReadsBack(image, z, root, fsid, depth);
    }
  }
}
