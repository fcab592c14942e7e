/** cramfsck: walking an image and rebuilding the tree it holds. */
module CramfsReader {
  import opened Bytes
  import opened CramfsFormat
  import opened CramfsData

  /** An extracted file: what the reader creates below the extraction directory. */
  datatype Node = Node(name: seq<byte>, mode: nat, uid: nat, gid: nat, size: nat, data: seq<byte>, children: seq<Node>)

  /** Undefined stands for reads past the end of the image or of the two-block read window, TooDeep for the
      recursion bound; VersionTwo images are checked by CRC, which is not modelled. */
  datatype Failure =
    | TooShort | WrongMagic | VersionTwo | BadSuperblock
    | BadPathLength | BogusMode | InflateError | SymlinkSize | NonBlock | NonSize | LayoutMismatch
    | TooDeep | Undefined

  datatype Outcome<T> = Ok(value: T) | Fail(why: Failure)
  {
    predicate IsFailure() { Fail? }
    function PropagateFailure<U>(): Outcome<U> requires Fail? { Fail(why) }
    function Extract(): T requires Ok? { value }
  }

  /** The extent variables that the walk keeps. */
  datatype Extent = Extent(startInode: nat, endInode: nat, startData: nat, endData: nat)

  const WINDOW: nat := 8192

  /** The block src..next of the image, inflated. */
  function InflateBlock(img: seq<byte>, z: Codec, src: nat, next: nat): Outcome<seq<byte>> {
    if next < src || next - src > WINDOW || next > |img| then Fail(Undefined)
    else match z.inflate(img[src..next])
      case Bytes(out) => Ok(out)
      case Corrupt => Fail(InflateError)
  }

  function Block(img: seq<byte>, z: Codec, curr: nat, next: nat, size: nat): (r: Outcome<seq<byte>>)
    ensures r.Ok? ==> |r.value| == Min(size, BLKSIZE)
  {
    var out :- if curr == next then Ok(Zeros(Min(size, BLKSIZE))) else InflateBlock(img, z, curr, next);
    if size >= BLKSIZE && |out| != BLKSIZE then Fail(NonBlock)
    else if size < BLKSIZE && |out| != size then Fail(NonSize)
    else Ok(out)
  }

  /** do_uncompress: the pointer at off ends the block that starts at curr. */
  function Uncompress(img: seq<byte>, z: Codec, off: nat, curr: nat, size: nat, x: Extent): Outcome<(seq<byte>, Extent)>
    requires size > 0
    decreases size
  {
    if off + 4 > |img| then Fail(Undefined)
    else
      var next := Word(img, off);
      var x' := x.(endData := Max(x.endData, next));
      var out :- Block(img, z, curr, next, size);
      if size == |out| then Ok((out, x'))
      else
        var rest :- Uncompress(img, z, off + 4, next, size - |out|, x');
        Ok((out + rest.0, rest.1))
  }

  function Symlink(img: seq<byte>, z: Codec, off: nat, size: nat, x: Extent): Outcome<(seq<byte>, Extent)> {
    if off + 4 > |img| then Fail(Undefined)
    else
      var next := Word(img, off);
      var out :- InflateBlock(img, z, off + 4, next);
      if |out| != size then Fail(SymlinkSize)
      else Ok((out, x.(endData := Max(x.endData, next))))
  }

  /** The C string at the start of a byte field. */
  function CString(s: seq<byte>): (r: seq<byte>)
    ensures |r| <= |s|
  {
    if s == [] || s[0] == 0 then [] else [s[0]] + CString(s[1..])
  }

  function Described(i: Inode, name: seq<byte>, data: seq<byte>, children: seq<Node>): Node {
    Node(name, i.mode, i.uid, i.gid, i.size, data, children)
  }

  /** expand_fs on one inode. */
  function Expand(img: seq<byte>, z: Codec, i: Inode, name: seq<byte>, x: Extent, depth: nat): Outcome<(Node, Extent)>
    decreases depth, 0, 0
  {
    var off := 4 * i.offset;
    if FileType(i.mode) == DIR then
      if depth == 0 then Fail(TooDeep)
      else
        var x' := if i.size > 0 then x.(startInode := Min(x.startInode, off)) else x;
        var r :- ExpandList(img, z, off, i.size, x', depth - 1);
        Ok((Described(i, name, [], r.0), r.1))
    else if FileType(i.mode) == REG then
      var x' := if off > 0 then x.(startData := Min(x.startData, off)) else x;
      if i.size == 0 then Ok((Described(i, name, [], []), x'))
      else
        var r :- Uncompress(img, z, off, off + 4 * Blocks(i.size), i.size, x');
        Ok((Described(i, name, r.0, []), r.1))
    else if FileType(i.mode) == LNK then
      var r :- Symlink(img, z, off, i.size, x.(startData := Min(x.startData, off)));
      Ok((Described(i, name, r.0, []), r.1))
    else if FileType(i.mode) in {FIFO, CHR, BLK, SOCK} then Ok((Described(i, name, [], []), x))
    else Fail(BogusMode)
  }

  /** The loop of expand_fs over the entries of a directory with count bytes left. */
  function ExpandList(img: seq<byte>, z: Codec, off: nat, count: int, x: Extent, depth: nat): Outcome<(seq<Node>,
                      Extent)>
    decreases depth, 1, count
  {
    if count <= 0 then Ok(([], x))
    else if off + INODE_SIZE > |img| then Fail(Undefined)
    else
      var child := ReadInode(img, off);
      var newlen := 4 * child.namelen;
      var end := off + INODE_SIZE + newlen;
      if end > |img| then Fail(Undefined)
      else
        var name := CString(img[off + INODE_SIZE..end]);
        if newlen - |name| > 3 then Fail(BadPathLength)
        else
          var r :- Expand(img, z, child, name, x, depth);
          var x' := r.1.(endInode := Max(r.1.endInode, end));
          var rest :- ExpandList(img, z, end, count - INODE_SIZE - newlen, x', depth);
          Ok(([r.0] + rest.0, rest.1))
  }

  const PAD_SIZE: nat := 512
  const NO_DATA: nat := 0x1000_0000

  /** main: superblock checks, the walk, and the layout check at the end. */
  function Fsck(img: seq<byte>, z: Codec, depth: nat): Outcome<Node> {
    if |img| < SUPER_SIZE then Fail(TooShort)
    else if Word(img, 0) == MAGIC then FsckAt(img, z, 0, depth)
    else if |img| >= PAD_SIZE + SUPER_SIZE && Word(img, PAD_SIZE) == MAGIC then FsckAt(img, z, PAD_SIZE, depth)
    else Fail(WrongMagic)
  }

  function FsckAt(img: seq<byte>, z: Codec, start: nat, depth: nat): Outcome<Node>
    requires start + SUPER_SIZE <= |img|
  {
    var root := ReadInode(img, start + 64);
    if Word(img, start + 8) % 2 == 1 then Fail(VersionTwo)
    else if img[start + 16..start + 32] != SignatureBytes() || 4 * root.offset < 4 then Fail(BadSuperblock)
    else
      var r :- Expand(img, z, root, [], Extent(NO_DATA, 0, NO_DATA, 0), depth);
      if r.1.startData != NO_DATA && r.1.endInode != r.1.startData then Fail(LayoutMismatch)
      else Ok(r.0)
  }
}
