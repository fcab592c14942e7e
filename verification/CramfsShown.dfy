/** What an image holds, described by its bytes and apart from the walk, and that cramfsck accepts exactly that. */
module CramfsShown {
  import opened Bytes
  import opened CramfsFormat
  import opened CramfsData
  import opened CramfsReader

  // ---- file data ----

  /** The bytes start..end of the image are a block that inflates to piece; an empty block is a hole. */
  ghost predicate BlockShown(img: seq<byte>, z: Codec, start: nat, end: nat, piece: seq<byte>) {
    if start == end then piece == Zeros(|piece|)
    else start <= end <= |img| && end - start <= 8192 && z.inflate(img[start..end]) == Bytes(piece)
  }

  /** Where block j of a file starts whose pointer table is at off and whose first block starts at curr. */
  ghost function BlockStart(img: seq<byte>, off: nat, curr: nat, j: nat): nat
    requires off + 4 * j <= |img|
  {
    if j == 0 then curr else Word(img, off + 4 * (j - 1))
  }

  /** The pages of data; all but the last are full. */
  function Page(data: seq<byte>, j: nat): seq<byte>
    requires 4096 * j <= |data|
  {
    data[4096 * j..Min(4096 * (j + 1), |data|)]
  }

  /** Every pointer of the table is the end of a block that holds the page of its number. */
  ghost predicate FileShown(img: seq<byte>, z: Codec, off: nat, curr: nat, data: seq<byte>) {
    forall j: nat :: 4096 * j < |data| ==> PageShown(img, z, off, curr, data, j)
  }

  ghost predicate PageShown(img: seq<byte>, z: Codec, off: nat, curr: nat, data: seq<byte>, j: nat)
    requires 4096 * j < |data|
  {
    off + 4 * (j + 1) <= |img| &&
    BlockShown(img, z, BlockStart(img, off, curr, j), Word(img, off + 4 * j), Page(data, j))
  }

  ghost predicate LinkShown(img: seq<byte>, z: Codec, off: nat, data: seq<byte>) {
    && off + 4 <= |img| && off + 4 <= Word(img, off) <= |img| && Word(img, off) - (off + 4) <= 8192
    && z.inflate(img[off + 4..Word(img, off)]) == Bytes(data)
  }

  lemma BlockExactly(img: seq<byte>, z: Codec, curr: nat, next: nat, size: nat, piece: seq<byte>)
    ensures Block(img, z, curr, next, size) == Ok(piece) <==>
      |piece| == Min(size, BLKSIZE) && BlockShown(img, z, curr, next, piece)
  {
  }

  lemma PageShift(img: seq<byte>, z: Codec, off: nat, curr: nat, data: seq<byte>, j: nat)
    requires |data| > 4096 && 4096 * (j + 1) < |data| && off + 4 <= |img|
    ensures PageShown(img, z, off + 4, Word(img, off), data[4096..], j) <==> PageShown(img, z, off, curr, data, j + 1)
  {
    hide BlockShown, Word;
    assert Page(data[4096..], j) == Page(data, j + 1);
  }

  lemma FirstPage(img: seq<byte>, z: Codec, off: nat, curr: nat, data: seq<byte>)
    requires data != []
    ensures PageShown(img, z, off, curr, data, 0) <==>
      off + 4 <= |img| && BlockShown(img, z, curr, Word(img, off), data[..Min(4096, |data|)])
  {
    hide BlockShown, Word;
    assert Page(data, 0) == data[..Min(4096, |data|)];
  }

  lemma {:induction false} PagesStep(img: seq<byte>, z: Codec, off: nat, curr: nat, data: seq<byte>)
    requires |data| > 4096
    ensures FileShown(img, z, off, curr, data) <==>
      && off + 4 <= |img| && BlockShown(img, z, curr, Word(img, off), data[..4096])
      && FileShown(img, z, off + 4, Word(img, off), data[4096..])
  {
    hide BlockShown, Word, PageShown, Page;
    var rest := data[4096..];
    FirstPage(img, z, off, curr, data);
    if FileShown(img, z, off, curr, data) {
      assert PageShown(img, z, off, curr, data, 0);
      forall j: nat | 4096 * j < |rest| ensures PageShown(img, z, off + 4, Word(img, off), rest, j) {
        PageShift(img, z, off, curr, data, j);
      }
    }
    if PageShown(img, z, off, curr, data, 0) && FileShown(img, z, off + 4, Word(img, off), rest) {
      forall j: nat | 4096 * j < |data| ensures PageShown(img, z, off, curr, data, j) {
        if j > 0 {
          PageShift(img, z, off, curr, data, j - 1);
        }
      }
    }
  }

  lemma {:induction false} OnePage(img: seq<byte>, z: Codec, off: nat, curr: nat, data: seq<byte>)
    requires 0 < |data| <= 4096
    ensures FileShown(img, z, off, curr, data) <==>
      off + 4 <= |img| && BlockShown(img, z, curr, Word(img, off), data)
  {
    hide BlockShown, Word, PageShown, Page;
    FirstPage(img, z, off, curr, data);
    assert data[..|data|] == data;
    assert forall j: nat :: 4096 * j < |data| ==> j == 0;
    if FileShown(img, z, off, curr, data) {
      assert PageShown(img, z, off, curr, data, 0);
    }
  }

  /** The walk returned this. */
  ghost predicate Gives<T(!new)>(r: Outcome<(T, Extent)>, v: T) {
    r.Ok? && r.value.0 == v
  }

  lemma UncompressStep(img: seq<byte>, z: Codec, off: nat, curr: nat, size: nat, x: Extent, data: seq<byte>)
    requires size > 0 && off + 4 <= |img|
    ensures
      var next := Word(img, off);
      var b := Block(img, z, curr, next, size);
      Gives(Uncompress(img, z, off, curr, size, x), data) <==>
        && b.Ok?
        && if size <= BLKSIZE then data == b.value
           else
             && |data| >= BLKSIZE && data[..BLKSIZE] == b.value
             && Gives(Uncompress(img, z, off + 4, next, size - BLKSIZE, x.(endData := Max(x.endData, next))),
                      data[BLKSIZE..])
  {
    hide Block, Word;
    var next := Word(img, off);
    var b := Block(img, z, curr, next, size);
    if b.Ok? && size > BLKSIZE {
      var r := Uncompress(img, z, off + 4, next, size - BLKSIZE, x.(endData := Max(x.endData, next)));
      if r.Ok? {
        assert (b.value + r.value.0)[..BLKSIZE] == b.value && (b.value + r.value.0)[BLKSIZE..] == r.value.0;
        assert |data| >= BLKSIZE ==> data == data[..BLKSIZE] + data[BLKSIZE..];
      }
    }
  }

  /** The block walk succeeds exactly on the pages that the table shows. */
  lemma {:induction false} UncompressExactly(img: seq<byte>, z: Codec, off: nat, curr: nat, size: nat, x: Extent,
                                             data: seq<byte>)
    requires size > 0
    ensures Gives(Uncompress(img, z, off, curr, size, x), data) <==>
      |data| == size && FileShown(img, z, off, curr, data)
    decreases size
  {
    hide BlockShown, Word, Block, PageShown, Page;
    if off + 4 > |img| {
      if data != [] {
        NoTable(img, z, off, curr, data);
      }
    } else {
      hide Uncompress, FileShown;
      var next := Word(img, off);
      UncompressStep(img, z, off, curr, size, x, data);
      BlockExactly(img, z, curr, next, size, data[..Min(|data|, BLKSIZE)]);
      BlockLength(img, z, curr, next, size);
      if size <= BLKSIZE {
        if 0 < |data| <= BLKSIZE {
          assert data[..|data|] == data;
          OnePage(img, z, off, curr, data);
        }
      } else if |data| > BLKSIZE {
        UncompressExactly(img, z, off + 4, next, size - BLKSIZE, x.(endData := Max(x.endData, next)), data[BLKSIZE..]);
        PagesStep(img, z, off, curr, data);
      } else {
        UncompressExactly(img, z, off + 4, next, size - BLKSIZE, x.(endData := Max(x.endData, next)), []);
      }
    }
  }

  lemma BlockLength(img: seq<byte>, z: Codec, curr: nat, next: nat, size: nat)
    ensures var b := Block(img, z, curr, next, size); b.Ok? ==> |b.value| == Min(size, BLKSIZE)
  {
  }

  lemma NoTable(img: seq<byte>, z: Codec, off: nat, curr: nat, data: seq<byte>)
    requires off + 4 > |img| && data != []
    ensures !FileShown(img, z, off, curr, data)
  {
    assert !PageShown(img, z, off, curr, data, 0);
  }

  lemma LinkExactly(img: seq<byte>, z: Codec, off: nat, size: nat, x: Extent, data: seq<byte>)
    ensures Gives(Symlink(img, z, off, size, x), data) <==> |data| == size && LinkShown(img, z, off, data)
  {
    hide Word;
  }

  // ---- names ----

  /** The field starts with the name and a NUL ends it unless the name fills the field. */
  ghost predicate NameIs(field: seq<byte>, name: seq<byte>) {
    && |name| <= |field| && field[..|name|] == name && (forall i :: 0 <= i < |name| ==> name[i] != 0)
    && (|name| < |field| ==> field[|name|] == 0)
  }

  lemma {:induction false} NameExactly(field: seq<byte>, name: seq<byte>)
    ensures CString(field) == name <==> NameIs(field, name)
    decreases |field|
  {
    if field != [] && field[0] != 0 {
      if name != [] {
        NameExactly(field[1..], name[1..]);
        assert name == [name[0]] + name[1..];
        if NameIs(field[1..], name[1..]) && field[0] == name[0] {
          assert field[..|name|] == [field[0]] + field[1..][..|name| - 1];
        }
        if NameIs(field, name) {
          assert field[..|name|][0] == field[0] && field[1..][..|name| - 1] == field[..|name|][1..];
        }
      }
    } else if name != [] && field != [] && |name| <= |field| {
      assert field[..|name|][0] == field[0];
    }
  }

  // ---- inodes and listings ----

  /** The image shows node n for this inode. */
  ghost predicate Shown(img: seq<byte>, z: Codec, i: Inode, n: Node)
    decreases n, |n.children| + 1
  {
    && n.mode == i.mode && n.uid == i.uid && n.gid == i.gid && n.size == i.size
    && var kind := i.mode / 4096 % 16;
       if kind == 4 then n.data == [] && ListShown(img, z, 4 * i.offset, i.size, n, 0)
       else
         && n.children == []
         && if kind == 8 then
              var start := 4 * i.offset;
              |n.data| == i.size && (i.size > 0 ==> FileShown(img, z, start, start + 4 * Blocks(i.size), n.data))
            else if kind == 10 then |n.data| == i.size && LinkShown(img, z, 4 * i.offset, n.data)
            else (kind == 1 || kind == 2 || kind == 6 || kind == 12) && n.data == []
  }

  /** The count bytes of listing from off on are the children of n from number k on. */
  ghost predicate ListShown(img: seq<byte>, z: Codec, off: nat, count: int, n: Node, k: nat)
    requires k <= |n.children|
    decreases n, |n.children| - k
  {
    if count <= 0 then k == |n.children|
    else
      && k < |n.children| && off + 12 <= |img|
      && var i := ReadInode(img, off);
         var end := off + 12 + 4 * i.namelen;
         && end <= |img| && NameIs(img[off + 12..end], n.children[k].name)
         && 4 * i.namelen - |n.children[k].name| <= 3
         && Shown(img, z, i, n.children[k])
         && ListShown(img, z, end, count - 12 - 4 * i.namelen, n, k + 1)
  }

  /** How many directories are nested. */
  function Levels(n: Node): nat
    decreases n, |n.children| + 1
  {
    if n.mode / 4096 % 16 == 4 then 1 + LevelsFrom(n, 0) else 0
  }

  function LevelsFrom(n: Node, k: nat): nat
    requires k <= |n.children|
    decreases n, |n.children| - k
  {
    if k == |n.children| then 0 else Max(Levels(n.children[k]), LevelsFrom(n, k + 1))
  }

  lemma {:induction false} ExpandExactly(img: seq<byte>, z: Codec, i: Inode, name: seq<byte>, x: Extent, depth: nat,
                                         n: Node)
    ensures Gives(Expand(img, z, i, name, x, depth), n) <==> n.name == name && Shown(img, z, i, n) && Levels(n) <= depth
    decreases depth, 0, 0
  {
    hide ExpandList, Uncompress, Symlink, FileShown, LinkShown, ListShown, LevelsFrom, Blocks;
    var off, kind := 4 * i.offset, i.mode / 4096 % 16;
    if kind == 4 {
      assert n.children[0..] == n.children;
      if depth > 0 {
        var x' := if i.size > 0 then x.(startInode := Min(x.startInode, off)) else x;
        ListExactly(img, z, off, i.size, x', depth - 1, n, 0);
      }
    } else if kind == 8 {
      if i.size > 0 {
        var x' := if off > 0 then x.(startData := Min(x.startData, off)) else x;
        UncompressExactly(img, z, off, off + 4 * Blocks(i.size), i.size, x', n.data);
      }
    } else if kind == 10 {
      LinkExactly(img, z, off, i.size, x.(startData := Min(x.startData, off)), n.data);
    }
  }

  lemma {:induction false} ListExactly(img: seq<byte>, z: Codec, off: nat, count: int, x: Extent, depth: nat, n: Node,
                                       k: nat)
    requires k <= |n.children|
    ensures Gives(ExpandList(img, z, off, count, x, depth), n.children[k..]) <==>
      ListShown(img, z, off, count, n, k) && LevelsFrom(n, k) <= depth
    decreases depth, 1, count
  {
    hide Shown, Expand, NameIs, CString, ReadInode, Levels;
    if count <= 0 {
      assert k == |n.children| ==> n.children[k..] == [];
    } else if off + INODE_SIZE <= |img| && off + INODE_SIZE + 4 * ReadInode(img, off).namelen <= |img| {
      var i := ReadInode(img, off);
      var end := off + INODE_SIZE + 4 * i.namelen;
      var field := img[off + INODE_SIZE..end];
      var name := CString(field);
      ListGives(img, z, off, count, x, depth, n, k);
      hide ExpandList;
      if k < |n.children| {
        NameExactly(field, n.children[k].name);
        ExpandExactly(img, z, i, name, x, depth, n.children[k]);
        var r := Expand(img, z, i, name, x, depth);
        if r.Ok? {
          var x' := r.value.1.(endInode := Max(r.value.1.endInode, end));
          ListExactly(img, z, end, count - INODE_SIZE - 4 * i.namelen, x', depth, n, k + 1);
        }
      }
    }
  }

  lemma {:induction false} ListGives(img: seq<byte>, z: Codec, off: nat, count: int, x: Extent, depth: nat, n: Node,
                                     k: nat)
    requires k <= |n.children| && count > 0
    requires off + INODE_SIZE <= |img| && off + INODE_SIZE + 4 * ReadInode(img, off).namelen <= |img|
    ensures
      var i := ReadInode(img, off);
      var end := off + INODE_SIZE + 4 * i.namelen;
      var name := CString(img[off + INODE_SIZE..end]);
      var r := Expand(img, z, i, name, x, depth);
      Gives(ExpandList(img, z, off, count, x, depth), n.children[k..]) <==>
        && k < |n.children| && 4 * i.namelen - |name| <= 3 && Gives(r, n.children[k])
        && Gives(ExpandList(img, z, end, count - INODE_SIZE - 4 * i.namelen,
                            r.value.1.(endInode := Max(r.value.1.endInode, end)), depth), n.children[k + 1..])
  {
    hide Expand, CString, ReadInode;
    var i := ReadInode(img, off);
    var end := off + INODE_SIZE + 4 * i.namelen;
    var name := CString(img[off + INODE_SIZE..end]);
    var r := Expand(img, z, i, name, x, depth);
    if r.Ok? && 4 * i.namelen - |name| <= 3 {
      var rest := ExpandList(img, z, end, count - INODE_SIZE - 4 * i.namelen,
                             r.value.1.(endInode := Max(r.value.1.endInode, end)), depth);
      if rest.Ok? {
        FirstAndRest(r.value.0, rest.value.0, n.children, k);
      }
    }
  }

  lemma FirstAndRest<T>(a: T, rest: seq<T>, all: seq<T>, k: nat)
    requires k <= |all|
    ensures [a] + rest == all[k..] <==> k < |all| && a == all[k] && rest == all[k + 1..]
  {
    if k < |all| {
      assert all[k..] == [all[k]] + all[k + 1..];
      if [a] + rest == all[k..] {
        assert ([a] + rest)[0] == a && ([a] + rest)[1..] == rest && all[k..][1..] == all[k + 1..];
      }
    }
  }

  // ---- the extents ----

  /** The greatest end of an entry in the listing of n at inode i and in all listings below. */
  function DirEnd(img: seq<byte>, i: Inode, n: Node): nat
    decreases n, |n.children| + 1
  {
    if i.mode / 4096 % 16 == 4 then ListEnd(img, 4 * i.offset, n, 0) else 0
  }

  function ListEnd(img: seq<byte>, off: nat, n: Node, k: nat): nat
    requires k <= |n.children|
    decreases n, |n.children| - k
  {
    if k == |n.children| || off + 12 > |img| then 0
    else
      var i := ReadInode(img, off);
      var end := off + 12 + 4 * i.namelen;
      Max(Max(DirEnd(img, i, n.children[k]), end), ListEnd(img, end, n, k + 1))
  }

  /** Where the data of regular files and symlinks starts. */
  function DataStarts(img: seq<byte>, i: Inode, n: Node): set<nat>
    decreases n, |n.children| + 1
  {
    var kind := i.mode / 4096 % 16;
    if kind == 4 then ListStarts(img, 4 * i.offset, n, 0)
    else if (kind == 8 && i.offset > 0) || kind == 10 then {4 * i.offset}
    else {}
  }

  function ListStarts(img: seq<byte>, off: nat, n: Node, k: nat): set<nat>
    requires k <= |n.children|
    decreases n, |n.children| - k
  {
    if k == |n.children| || off + 12 > |img| then {}
    else
      var i := ReadInode(img, off);
      DataStarts(img, i, n.children[k]) + ListStarts(img, off + 12 + 4 * i.namelen, n, k + 1)
  }

  /** least is the smallest of bound and the elements of s. */
  ghost predicate Least(least: nat, bound: nat, s: set<nat>) {
    least <= bound && (least == bound || least in s) && forall d :: d in s ==> least <= d
  }

  lemma LeastUnion(a: nat, b: nat, c: nat, s: set<nat>, t: set<nat>)
    requires Least(b, a, s) && Least(c, b, t)
    ensures Least(c, a, s + t)
  {
  }

  lemma {:induction false} UncompressKeeps(img: seq<byte>, z: Codec, off: nat, curr: nat, size: nat, x: Extent)
    requires size > 0
    ensures var r := Uncompress(img, z, off, curr, size, x);
      r.Ok? ==> r.value.1.startData == x.startData && r.value.1.endInode == x.endInode
    decreases size
  {
    hide Block, Word;
    if off + 4 <= |img| {
      var b := Block(img, z, curr, Word(img, off), size);
      BlockLength(img, z, curr, Word(img, off), size);
      if b.Ok? && size != |b.value| {
        var x' := x.(endData := Max(x.endData, Word(img, off)));
        UncompressKeeps(img, z, off + 4, Word(img, off), size - |b.value|, x');
      }
    }
  }

  /** What the walk does to the extents is what these functions say about the tree it returns. */
  lemma {:induction false} ExpandExtents(img: seq<byte>, z: Codec, i: Inode, name: seq<byte>, x: Extent, depth: nat)
    requires Expand(img, z, i, name, x, depth).Ok?
    ensures var r := Expand(img, z, i, name, x, depth).value;
      && r.1.endInode == Max(x.endInode, DirEnd(img, i, r.0))
      && Least(r.1.startData, x.startData, DataStarts(img, i, r.0))
    decreases depth, 0, 0
  {
    hide ExpandList, Uncompress, Symlink, ListEnd, ListStarts, Blocks;
    var off, kind := 4 * i.offset, i.mode / 4096 % 16;
    var r := Expand(img, z, i, name, x, depth).value;
    if kind == 4 {
      var x' := if i.size > 0 then x.(startInode := Min(x.startInode, off)) else x;
      assert r.0.children[0..] == r.0.children;
      ListExtents(img, z, off, i.size, x', depth - 1, r.0, 0);
    } else if kind == 8 {
      var x' := if off > 0 then x.(startData := Min(x.startData, off)) else x;
      if i.size > 0 {
        UncompressKeeps(img, z, off, off + 4 * Blocks(i.size), i.size, x');
      }
    } else if kind == 10 {
      SymlinkKeeps(img, z, off, i.size, x.(startData := Min(x.startData, off)));
    }
  }

  lemma SymlinkKeeps(img: seq<byte>, z: Codec, off: nat, size: nat, x: Extent)
    ensures var r := Symlink(img, z, off, size, x);
      r.Ok? ==> r.value.1.startData == x.startData && r.value.1.endInode == x.endInode
  {
  }

  lemma {:induction false} ListExtents(img: seq<byte>, z: Codec, off: nat, count: int, x: Extent, depth: nat, n: Node,
                                       k: nat)
    requires k <= |n.children| && Gives(ExpandList(img, z, off, count, x, depth), n.children[k..])
    ensures var y := ExpandList(img, z, off, count, x, depth).value.1;
      && y.endInode == Max(x.endInode, ListEnd(img, off, n, k))
      && Least(y.startData, x.startData, ListStarts(img, off, n, k))
    decreases depth, 1, count
  {
    hide Expand, CString, ReadInode, DirEnd, DataStarts;
    if count > 0 {
      ListGives(img, z, off, count, x, depth, n, k);
      var i := ReadInode(img, off);
      var end := off + INODE_SIZE + 4 * i.namelen;
      var name := CString(img[off + INODE_SIZE..end]);
      var r := Expand(img, z, i, name, x, depth);
      ExpandExtents(img, z, i, name, x, depth);
      var x' := r.value.1.(endInode := Max(r.value.1.endInode, end));
      ListExtents(img, z, end, count - INODE_SIZE - 4 * i.namelen, x', depth, n, k + 1);
      var y := ExpandList(img, z, off, count, x, depth).value.1;
      LeastUnion(x.startData, x'.startData, y.startData, DataStarts(img, i, n.children[k]),
                 ListStarts(img, end, n, k + 1));
    } else {
      assert n.children[k..] == [];
    }
  }

  lemma {:induction false} StartsBelow(img: seq<byte>, i: Inode, n: Node)
    requires i.offset < TWO26
    ensures forall d :: d in DataStarts(img, i, n) ==> d < NO_DATA
    decreases n, |n.children| + 1
  {
    hide ListStarts;
    ListStartsBelow(img, 4 * i.offset, n, 0);
  }

  lemma {:induction false} ListStartsBelow(img: seq<byte>, off: nat, n: Node, k: nat)
    requires k <= |n.children|
    ensures forall d :: d in ListStarts(img, off, n, k) ==> d < NO_DATA
    decreases n, |n.children| - k
  {
    hide ReadInode, DataStarts;
    if k < |n.children| && off + 12 <= |img| {
      var i := ReadInode(img, off);
      OffsetBelow(img, off);
      StartsBelow(img, i, n.children[k]);
      ListStartsBelow(img, off + 12 + 4 * i.namelen, n, k + 1);
    }
  }

  lemma OffsetBelow(img: seq<byte>, off: nat)
    requires off + INODE_SIZE <= |img|
    ensures ReadInode(img, off).offset < TWO26
  {
    hide Word;
  }

  // ---- the whole image ----

  /** The directory data ends where the file data starts, if there is any. */
  ghost predicate LayoutShown(img: seq<byte>, root: Inode, n: Node) {
    var starts := DataStarts(img, root, n);
    starts == {} || (DirEnd(img, root, n) in starts && forall d :: d in starts ==> DirEnd(img, root, n) <= d)
  }

  /** A superblock of the first version stands at start: magic number, flags, signature and a root directory offset. */
  ghost predicate SuperShown(img: seq<byte>, start: nat) {
    && start + 76 <= |img| && img[start..start + 4] == [0x45, 0x3D, 0xCD, 0x28] && img[start + 8] % 2 == 0
    && img[start + 16..start + 32] == [67, 111, 109, 112, 114, 101, 115, 115, 101, 100, 32, 82, 79, 77, 70, 83]
    && ReadInode(img, start + 64).offset > 0
  }

  /** Where cramfsck looks for the superblock: at the start, or behind 512 bytes of padding. */
  ghost function SuperAt(img: seq<byte>): nat {
    if |img| >= 4 && img[..4] == [0x45, 0x3D, 0xCD, 0x28] then 0 else 512
  }

  lemma MagicIs(img: seq<byte>, off: nat)
    requires off + 4 <= |img|
    ensures Word(img, off) == MAGIC <==> img[off..off + 4] == [0x45, 0x3D, 0xCD, 0x28]
  {
  }

  lemma FlagIs(img: seq<byte>, off: nat)
    requires off + 4 <= |img|
    ensures Word(img, off) % 2 == img[off] % 2
  {
  }

  lemma {:induction false} FsckAtExactly(img: seq<byte>, z: Codec, start: nat, depth: nat, n: Node)
    requires start + 76 <= |img| && img[start..start + 4] == [0x45, 0x3D, 0xCD, 0x28]
    ensures FsckAt(img, z, start, depth) == Ok(n) <==>
      var root := ReadInode(img, start + 64);
      && SuperShown(img, start) && n.name == [] && Shown(img, z, root, n) && Levels(n) <= depth
      && LayoutShown(img, root, n)
    ensures
      var root := ReadInode(img, start + 64);
      SuperShown(img, start) && n.name == [] && Shown(img, z, root, n) && Levels(n) <= depth ==>
      LayoutShown(img, root, n) || FsckAt(img, z, start, depth) == Fail(LayoutMismatch)
  {
    hide Word, ReadInode, Expand, Shown, Levels, DirEnd, DataStarts;
    var root := ReadInode(img, start + 64);
    var x := Extent(NO_DATA, 0, NO_DATA, 0);
    FlagIs(img, start + 8);
    ExpandExactly(img, z, root, [], x, depth, n);
    OffsetBelow(img, start + 64);
    StartsBelow(img, root, n);
    var r := Expand(img, z, root, [], x, depth);
    if r.Ok? {
      ExpandExtents(img, z, root, [], x, depth);
    }
  }

  /** cramfsck accepts an image with this tree exactly when it has the superblock, shows the tree, and its directory
      data ends where the file data starts. */
  lemma {:induction false} FsckExactly(img: seq<byte>, z: Codec, depth: nat, n: Node)
    ensures Fsck(img, z, depth) == Ok(n) <==>
      var start := SuperAt(img);
      && SuperShown(img, start) && n.name == [] && Shown(img, z, ReadInode(img, start + 64), n) && Levels(n) <= depth
      && LayoutShown(img, ReadInode(img, start + 64), n)
  {
    hide Word, ReadInode, FsckAt, Shown, Levels, LayoutShown;
    if |img| >= 76 {
      MagicIs(img, 0);
      assert img[0..4] == img[..4];
      if |img| >= 588 {
        MagicIs(img, 512);
      }
      var start := SuperAt(img);
      if start + 76 <= |img| && img[start..start + 4] == [0x45, 0x3D, 0xCD, 0x28] {
        FsckAtExactly(img, z, start, depth, n);
      }
    }
  }

  /** What cramfsck refuses before it looks at the tree, and with which message. */
  lemma {:induction false} FsckRefuses(img: seq<byte>, z: Codec, depth: nat)
    ensures |img| < 76 ==> Fsck(img, z, depth) == Fail(TooShort)
    ensures
      var start := SuperAt(img);
      && (|img| >= 76 && (start + 76 > |img| || img[start..start + 4] != [0x45, 0x3D, 0xCD, 0x28]) ==>
            Fsck(img, z, depth) == Fail(WrongMagic))
      && (start + 76 <= |img| && img[start..start + 4] == [0x45, 0x3D, 0xCD, 0x28] ==>
            && (img[start + 8] % 2 == 1 ==> Fsck(img, z, depth) == Fail(VersionTwo))
            && (img[start + 8] % 2 == 0 && !SuperShown(img, start) ==> Fsck(img, z, depth) == Fail(BadSuperblock)))
  {
    hide Word, ReadInode, Expand;
    if |img| >= 76 {
      MagicIs(img, 0);
      assert img[0..4] == img[..4];
      FlagIs(img, 8);
      if |img| >= 588 {
        MagicIs(img, 512);
        FlagIs(img, 520);
      }
    }
  }

  /** A walk that succeeds on a superblock that is in order is accepted exactly when the layout fits, and refused for it
      otherwise. */
  lemma {:induction false} LayoutDecides(img: seq<byte>, z: Codec, depth: nat, n: Node)
    requires var start := SuperAt(img);
      SuperShown(img, start) && n.name == [] && Shown(img, z, ReadInode(img, start + 64), n) && Levels(n) <= depth
    ensures Fsck(img, z, depth) ==
      if LayoutShown(img, ReadInode(img, SuperAt(img) + 64), n) then Ok(n) else Fail(LayoutMismatch)
  {
    hide Word, ReadInode, FsckAt, Shown, Levels, LayoutShown;
    var start := SuperAt(img);
    MagicIs(img, start);
    MagicIs(img, 0);
    assert img[0..4] == img[..4];
    FsckAtExactly(img, z, start, depth, n);
  }

  // ---- an image with a gap ----

  /** A root directory with one file "a" of four bytes, whose data stands gap words behind the listing. */
  function GapImage(gap: nat, c: seq<byte>): seq<byte> {
    GapSuper() + (InodeBytes(Inode(0x8000, 0, 4, 0, 1, 23 + gap)) + [97, 0, 0, 0]) + (Zeros(4 * gap) + GapData(gap, c))
  }

  function GapSuper(): (r: seq<byte>)
    ensures |r| == 76
  {
    [0x45, 0x3D, 0xCD, 0x28] + Zeros(12) + SignatureBytes() + Zeros(32) + InodeBytes(Inode(0x4000, 0, 16, 0, 0, 19))
  }

  function GapData(gap: nat, c: seq<byte>): seq<byte> {
    Le32(96 + 4 * gap + |c|) + c
  }

  function GapNode(data: seq<byte>): Node {
    Node([], 0x4000, 0, 0, 16, [], [Node([97], 0x8000, 0, 0, 4, data, [])])
  }

  lemma {:induction false} GapParts(gap: nat, c: seq<byte>)
    requires gap < 1000000 && |c| <= 8192
    ensures var img := GapImage(gap, c);
      && |img| == 96 + 4 * gap + |c|
      && img[..76] == GapSuper() && At(img, 76, InodeBytes(Inode(0x8000, 0, 4, 0, 1, 23 + gap)))
      && img[88..92] == [97, 0, 0, 0]
      && Word(img, 92 + 4 * gap) == |img| && img[96 + 4 * gap..|img|] == c
  {
    hide InodeBytes, GapSuper, Le32, Word;
    var img := GapImage(gap, c);
    var a, b, d := GapSuper(), InodeBytes(Inode(0x8000, 0, 4, 0, 1, 23 + gap)), Zeros(4 * gap);
    var w := Le32(96 + 4 * gap + |c|);
    assert img == a + (b + [97, 0, 0, 0]) + (d + (w + c));
    assert img[92 + 4 * gap..96 + 4 * gap] == w;
    WordOfLe32(img, 92 + 4 * gap, 96 + 4 * gap + |c|);
  }

  lemma {:induction false} GapHead(img: seq<byte>)
    requires |img| >= 96 && img[..76] == GapSuper()
    ensures SuperAt(img) == 0 && SuperShown(img, 0) && ReadInode(img, 64) == Inode(0x4000, 0, 16, 0, 0, 19)
  {
    hide InodeBytes, ReadInode;
    var s, root := GapSuper(), Inode(0x4000, 0, 16, 0, 0, 19);
    assert s[..4] == [0x45, 0x3D, 0xCD, 0x28] && s[8] == 0 && s[16..32] == SignatureBytes();
    assert s[64..76] == InodeBytes(root);
    assert img[..4] == img[..76][..4] && img[0..4] == img[..4];
    assert img[8] == img[..76][8] && img[16..32] == img[..76][16..32] && img[64..76] == img[..76][64..76];
    assert At(img, 64, InodeBytes(root));
    InodeRoundTrip(img, 64, root);
  }

  lemma {:induction false} GapFile(img: seq<byte>, z: Codec, gap: nat, c: seq<byte>, n: Node)
    requires gap < 1000000 && 0 < |c| <= 8192 && |n.data| == 4 && z.inflate(c) == Bytes(n.data)
    requires n == Node([97], 0x8000, 0, 0, 4, n.data, [])
    requires |img| == 96 + 4 * gap + |c| && Word(img, 92 + 4 * gap) == |img| && img[96 + 4 * gap..|img|] == c
    ensures var i := Inode(0x8000, 0, 4, 0, 1, 23 + gap);
      && Shown(img, z, i, n) && Levels(n) == 0 && DirEnd(img, i, n) == 0 && DataStarts(img, i, n) == {92 + 4 * gap}
  {
    hide Word;
    OnePage(img, z, 92 + 4 * gap, 96 + 4 * gap, n.data);
    assert Blocks(4) == 1;
    hide FileShown;
  }

  lemma {:induction false} GapList(img: seq<byte>, z: Codec, i: Inode, n: Node)
    requires |img| >= 92 && ReadInode(img, 76) == i && i.namelen == 1 && img[88..92] == [97, 0, 0, 0]
    requires |n.children| == 1 && n.children[0].name == [97] && Shown(img, z, i, n.children[0])
    requires Levels(n.children[0]) == 0 && DirEnd(img, i, n.children[0]) == 0
    ensures ListShown(img, z, 76, 16, n, 0) && LevelsFrom(n, 0) == 0 && ListEnd(img, 76, n, 0) == 92
    ensures ListStarts(img, 76, n, 0) == DataStarts(img, i, n.children[0])
  {
    hide ReadInode, Shown, Levels, DirEnd, DataStarts;
    assert NameIs(img[88..92], [97]);
    hide NameIs;
    assert ListShown(img, z, 92, 0, n, 1) && LevelsFrom(n, 1) == 0;
    assert ListEnd(img, 92, n, 1) == 0 && ListStarts(img, 92, n, 1) == {};
  }

  lemma RootShown(img: seq<byte>, z: Codec, root: Inode, n: Node)
    requires root == Inode(0x4000, 0, 16, 0, 0, 19) && n == Node([], 0x4000, 0, 0, 16, [], n.children)
    requires ListShown(img, z, 76, 16, n, 0) && LevelsFrom(n, 0) == 0
    ensures Shown(img, z, root, n) && Levels(n) <= 1 && DirEnd(img, root, n) == ListEnd(img, 76, n, 0)
    ensures DataStarts(img, root, n) == ListStarts(img, 76, n, 0)
  {
    hide ListShown, LevelsFrom, ListEnd, ListStarts;
  }

  lemma {:induction false} GapShown(img: seq<byte>, z: Codec, gap: nat, c: seq<byte>, root: Inode, n: Node)
    requires gap < 1000000 && 0 < |c| <= 8192 && img == GapImage(gap, c)
    requires root == Inode(0x4000, 0, 16, 0, 0, 19) && n == Node([], 0x4000, 0, 0, 16, [], n.children)
    requires |n.children| == 1 && var file := n.children[0];
      file == Node([97], 0x8000, 0, 0, 4, file.data, []) && |file.data| == 4 && z.inflate(c) == Bytes(file.data)
    ensures Shown(img, z, root, n) && Levels(n) <= 1
    ensures DirEnd(img, root, n) == 92 && DataStarts(img, root, n) == {92 + 4 * gap}
  {
    GapParts(gap, c);
    hide GapImage, InodeBytes, Word, ReadInode, Shown, ListShown, Levels, LevelsFrom;
    hide DirEnd, ListEnd, DataStarts, ListStarts;
    var i := Inode(0x8000, 0, 4, 0, 1, 23 + gap);
    InodeRoundTrip(img, 76, i);
    GapFile(img, z, gap, c, n.children[0]);
    GapList(img, z, i, n);
    RootShown(img, z, root, n);
  }

  /** The image is accepted exactly without the gap. */
  lemma {:induction false} GapRefused(z: Codec, gap: nat, c: seq<byte>, data: seq<byte>)
    requires gap < 1000000 && 0 < |c| <= 8192 && |data| == 4 && z.inflate(c) == Bytes(data)
    ensures Fsck(GapImage(gap, c), z, 1) == if gap == 0 then Ok(GapNode(data)) else Fail(LayoutMismatch)
  {
    hide Shown, Levels, Fsck, DirEnd, DataStarts, GapSuper, ReadInode;
    var img := GapImage(gap, c);
    GapParts(gap, c);
    GapHead(img);
    GapShown(img, z, gap, c, ReadInode(img, 64), GapNode(data));
    LayoutDecides(img, z, 1, GapNode(data));
  }
}
