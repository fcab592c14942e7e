/** mkcramfs: laying out the directory structure. */
module CramfsWriter {
  import opened Bytes
  import opened CramfsFormat
  import opened CramfsLayout
  import opened CramfsDedup
  import opened CramfsData

  const MAXENTRIES: nat := 100

  function Rev<T>(s: seq<T>): (r: seq<T>)
    ensures |r| == |s| && forall i :: 0 <= i < |s| ==> r[i] == s[|s| - 1 - i]
  {
    if s == [] then [] else [s[|s| - 1]] + Rev(s[..|s| - 1])
  }

  lemma RevConcat<T>(a: seq<T>, b: seq<T>)
    ensures Rev(a + b) == Rev(b) + Rev(a)
  {
  }

  /** s with the first and the last n positions of s[lo..hi] exchanged. */
  ghost function Turned<T>(s: seq<T>, lo: nat, hi: nat, n: nat): (r: seq<T>)
    requires lo + n <= hi <= |s|
    ensures |r| == |s|
  {
    seq(|s|, k requires 0 <= k < |s| => if lo <= k < lo + n || hi - n <= k < hi then s[lo + hi - 1 - k] else s[k])
  }

  lemma TurnedStep<T>(s: seq<T>, lo: nat, hi: nat, n: nat)
    requires lo + 2 * n + 2 <= hi <= |s|
    ensures Turned(s, lo, hi, n)[lo + n] == s[lo + n] && Turned(s, lo, hi, n)[hi - 1 - n] == s[hi - 1 - n]
    ensures Turned(s, lo, hi, n)[lo + n := s[hi - 1 - n]][hi - 1 - n := s[lo + n]] == Turned(s, lo, hi, n + 1)
  {
  }

  lemma TurnedNone<T>(s: seq<T>, lo: nat, hi: nat)
    requires lo <= hi <= |s|
    ensures Turned(s, lo, hi, 0) == s
  {
  }

  lemma TurnedAll<T>(s: seq<T>, lo: nat, hi: nat, n: nat)
    requires lo + n <= hi <= |s| && hi - lo - 1 <= 2 * n <= hi - lo
    ensures Turned(s, lo, hi, n)[lo..hi] == Rev(s[lo..hi]) && Turned(s, lo, hi, n)[..lo] == s[..lo]
  {
    hide Rev;
    var r := Turned(s, lo, hi, n);
    forall k | 0 <= k < hi - lo ensures r[lo..hi][k] == Rev(s[lo..hi])[k] {
      assert r[lo + k] == s[hi - 1 - k];
    }
  }

  /** Reverses a[lo..hi] with two closing indices. */
  method ReverseTail<T>(a: array<T>, lo: nat, hi: nat)
    requires lo <= hi <= a.Length
    modifies a
    ensures a[..lo] == old(a[..lo])
    ensures a[lo..hi] == Rev(old(a[lo..hi]))
  {
    hide Turned, Rev;
    ghost var s, n := a[..], 0;
    TurnedNone(s, lo, hi);
    var i, j := lo, hi - 1;
    while i < j
      invariant i == lo + n && j == hi - 1 - n && lo <= i <= j + 1 && a[..] == Turned(s, lo, hi, n)
    {
      TurnedStep(s, lo, hi, n);
      a[i], a[j] := a[j], a[i];
      i, j, n := i + 1, j - 1, n + 1;
    }
    TurnedAll(s, lo, hi, n);
    assert a[lo..hi] == a[..][lo..hi] && a[..lo] == a[..][..lo];
    assert old(a[lo..hi]) == s[lo..hi] && old(a[..lo]) == s[..lo];
  }

  /** Highest stack level while the listing t and everything below it is written on a stack of h entries. */
  function Peak(t: Tree, h: nat): nat
    decreases t, 1
  {
    var top := h + |Dirs(t, 0)|;
    Max(top, PeakKids(t, top))
  }

  /** The same for the directories of t that are still on a stack of n entries. */
  function PeakKids(t: Tree, n: nat): nat
    decreases t, 0
  {
    if t.Nil? || n == 0 then 0
    else if t.child.Nil? then PeakKids(t.next, n)
    else Max(Peak(t.child, n - 1), PeakKids(t.next, n - 1))
  }

  lemma {:induction false} DirsCount(t: Tree, a: nat, b: nat)
    ensures |Dirs(t, a)| == |Dirs(t, b)|
  {
    if t.Entry? {
      DirsCount(t.next, a + EntrySize(t), b + EntrySize(t));
    }
  }

  /** Highest level reached while the pending directories q (next one first) are worked off. */
  function PeakQueue(q: seq<Pend>): nat {
    if q == [] then 0 else Max(Peak(Kid(q[0]), |q| - 1), PeakQueue(q[1..]))
  }

  lemma PeakQueueStep(q: seq<Pend>)
    requires q != []
    ensures PeakQueue(q) == Max(Peak(Kid(q[0]), |q| - 1), PeakQueue(q[1..]))
  {
    hide Peak;
  }

  lemma {:induction false} PeakPush(t: Tree, off: nat, q: seq<Pend>)
    ensures PeakQueue(Dirs(t, off) + q) == Max(PeakKids(t, |Dirs(t, 0)| + |q|), PeakQueue(q))
  {
    hide Peak, EntrySize, PeakQueue;
    var d := Dirs(t, off);
    DirsCount(t, off, 0);
    if t.Nil? {
      assert d + q == q;
    } else {
      PeakPush(t.next, off + EntrySize(t), q);
      DirsCount(t.next, off + EntrySize(t), 0);
      DirsCount(t.next, 0 + EntrySize(t), 0);
      var d' := Dirs(t.next, off + EntrySize(t));
      if t.child.Nil? {
        assert d == d';
      } else {
        assert (d + q)[1..] == d' + q && (d + q)[0] == Pend(t, off);
        PeakQueueStep(d + q);
      }
    }
  }

  class Mkcramfs {
    /** rom_image */
    const base: array<byte>
    /** The dir_offset field of each entry. */
    var dirOffset: map<nat, nat>
    /** The offset field of each entry that has data. */
    var offset: map<nat, nat>
    /** The same field of each entry that duplicates an earlier one. */
    var same: map<nat, nat>

    constructor (size: nat)
      ensures fresh(base) && base.Length == size
      ensures dirOffset == map[] && offset == map[] && same == map[]
    {
      base := new byte[size](i => 0);
      dirOffset, offset, same := map[], map[], map[];
    }

    /** One inode and its padded name. */
    method WriteEntry(e: Tree, off: nat)
      requires e.Entry? && off + EntrySize(e) <= base.Length
      modifies base
      ensures base[..] == Put(old(base[..]), off, EntryBytes(e, 0))
    {
      hide InodeBytes, Put;
      ghost var before := base[..];
      var inode := InodeBytes(InodeOf(e, 0));
      CopyInto(base, off, inode);
      CopyInto(base, off + INODE_SIZE, e.name);
      PutConcat(before, off, inode, e.name);
      var len := |e.name|;
      assert e.name + Zeros(0) == e.name;
      while len % 4 != 0
        invariant |e.name| <= len <= 4 * Words(|e.name|)
        invariant base[..] == Put(before, off, inode + (e.name + Zeros(len - |e.name|)))
        decreases 4 * Words(|e.name|) - len
      {
        ghost var cur := e.name + Zeros(len - |e.name|);
        base[off + INODE_SIZE + len] := 0;
        assert base[..] == Put(Put(before, off, inode + cur), off + INODE_SIZE + len, [0]);
        PutConcat(before, off, inode + cur, [0]);
        ConcatAssoc(inode, cur, [0]);
        len := len + 1;
        assert cur + [0] == e.name + Zeros(len - |e.name|);
      }
    }

    /** The inner loop: one listing, its non-empty directories pushed on the stack. */
    method WriteListing(t: Tree, off0: nat, stack: array<Pend>, n0: nat) returns (ok: bool, off: nat, n: nat)
      requires off0 + ListSize(t) <= base.Length
      requires n0 <= stack.Length == MAXENTRIES
      modifies this`dirOffset, base, stack
      ensures ok <==> n0 + |Dirs(t, off0)| <= MAXENTRIES
      ensures ok ==>
        && off == off0 + ListSize(t) && n == n0 + |Dirs(t, off0)|
        && base[..] == Put(old(base[..]), off0, Listing0(t))
        && stack[..n] == old(stack[..n0]) + Dirs(t, off0)
        && dirOffset == old(dirOffset) + ListPos(t, off0)
    {
      hide EntryBytes, Listing0, Put, EntrySize, ListPos;
      var e := t;
      off, n := off0, n0;
      while e.Entry?
        invariant n <= MAXENTRIES
        invariant off + ListSize(e) == off0 + ListSize(t)
        invariant n + |Dirs(e, off)| == n0 + |Dirs(t, off0)|
        invariant Put(base[..], off, Listing0(e)) == Put(old(base[..]), off0, Listing0(t))
        invariant stack[..n] + Dirs(e, off) == old(stack[..n0]) + Dirs(t, off0)
        invariant dirOffset + ListPos(e, off) == old(dirOffset) + ListPos(t, off0)
        decreases e
      {
        ListingStep(base[..], stack[..n], dirOffset, e, off);
        dirOffset := dirOffset[e.id := off];
        WriteEntry(e, off);
        if e.child.Entry? {
          if n >= MAXENTRIES {
            return false, off, n;
          }
          stack[n] := Pend(e, off);
          assert stack[..n + 1] == stack[..n] + [Pend(e, off)];
          n := n + 1;
        }
        off := off + EntrySize(e);
        e := e.next;
      }
      EmptyList(base[..], off, e);
      assert ListPos(e, off) == map[] by { EmptyPos(e, off); }
      ok := true;
    }

    /** One turn of the outer loop: the listing, with the pushed directories reversed. */
    method WriteReversed(t: Tree, off0: nat, stack: array<Pend>, n0: nat) returns (ok: bool, off: nat, n: nat)
      requires off0 + ListSize(t) <= base.Length
      requires n0 <= stack.Length == MAXENTRIES
      modifies this`dirOffset, base, stack
      ensures ok <==> n0 + |Dirs(t, off0)| <= MAXENTRIES
      ensures ok ==>
        && off == off0 + ListSize(t) && n == n0 + |Dirs(t, off0)|
        && base[..] == Put(old(base[..]), off0, Listing0(t))
        && stack[..n] == old(stack[..n0]) + Rev(Dirs(t, off0))
        && dirOffset == old(dirOffset) + ListPos(t, off0)
    {
      hide Dirs, Listing0, Put, Rev, ListPos, ListSize;
      ok, off, n := WriteListing(t, off0, stack, n0);
      if ok {
        assert stack[n0..n] == Dirs(t, off0) && stack[..n0] == old(stack[..n0]);
        ReverseTail(stack, n0, n);
        assert stack[..n] == stack[..n0] + stack[n0..n];
      }
    }

    /** Stores a data offset in the inode of an entry; false when the filesystem is too big. */
    method SetDataOffset(at: nat, off: nat) returns (ok: bool)
      requires at + INODE_SIZE <= base.Length && off % 4 == 0
      modifies base
      ensures ok <==> off < TWO28
      ensures base[..] == if ok then SetOffset(old(base[..]), at, off / 4) else old(base[..])
    {
      if off >= TWO28 {
        return false;
      }
      CopyInto(base, at + 8, Le32(Word(base[..], at + 8) % 64 + 64 * (off / 4)));
      ok := true;
    }

    /** One listing in the state that the outer loop keeps. */
    method NextListing(e: Tree, off: nat, stack: array<Pend>, n: nat, ghost w: Work, ghost q: seq<Pend>)
      returns (ok: bool, off': nat, n': nat, ghost q': seq<Pend>)
      requires n == |q| <= MAXENTRIES == stack.Length && stack[..n] == Rev(q)
      requires State(base[..], w, e, off, q, dirOffset)
      modifies this`dirOffset, base, stack
      ensures !ok ==> Peak(w.t, 0) > MAXENTRIES
      ensures ok ==>
        && n' == |q'| <= MAXENTRIES && stack[..n'] == Rev(q') && Queued(base[..], w, off', q', dirOffset)
        && (q' != [] ==> Area(q') < TreeSize(e) + Area(q))
    {
      hide State, Queued, Dirs, Area, Listing0, Put, Peak, Rev, TreeSize, ListSize, ListPos;
      ghost var d := Dirs(e, off);
      ListingState(base[..], w, e, off, q, dirOffset);
      ok, off', n' := WriteReversed(e, off, stack, n);
      q' := d + q;
      RevConcat(d, q);
    }

    /** The directory on top of the stack is popped and gets its offset. */
    method PopDirectory(off: nat, stack: array<Pend>, n: nat, ghost w: Work, ghost q: seq<Pend>)
      returns (ok: bool, e: Tree)
      requires 0 < n == |q| <= MAXENTRIES == stack.Length && stack[..n] == Rev(q)
      requires Queued(base[..], w, off, q, dirOffset)
      modifies base
      ensures !ok ==> !w.Fits()
      ensures ok ==>
        && stack[..n - 1] == Rev(q[1..]) && State(base[..], w, e, off, q[1..], dirOffset)
        && TreeSize(e) + Area(q[1..]) == Area(q)
    {
      hide State, Queued, Area, Rev, TreeSize, SetOffset;
      var p := stack[n - 1];
      RevTop(stack[..n], q);
      assert stack[..n][n - 1] == p && stack[..n][..n - 1] == stack[..n - 1];
      PopState(base[..], w, off, q, dirOffset);
      ok := SetDataOffset(p.at, off);
      e := Kid(p);
    }

    /** Writes all listings from off0 on, each directory pointing at its own. */
    method WriteDirectoryStructure(t: Tree, off0: nat) returns (ok: bool, off: nat)
      requires off0 + TreeSize(t) <= base.Length && off0 % 4 == 0
      modifies this`dirOffset, base
      ensures ok ==>
        && off == off0 + TreeSize(t)
        && base[..off0] == old(base[..off0])
        && At(base[..], off0, TreeBytes(t, off0))
        && dirOffset == old(dirOffset) + TreePos(t, off0)
      ensures ok <==> Peak(t, 0) <= MAXENTRIES && Addressable(t, off0 + ListSize(t))
    {
      hide State, Queued, Area, Peak, Rev, TreeSize, TreeBytes, At, TreePos, Addressable, ListSize;
      var stack := new Pend[MAXENTRIES](i => Pend(Nil, 0));
      var n, e := 0, t;
      off := off0;
      ghost var q: seq<Pend> := [];
      ghost var w := Work(t, off0, base[..off0] + TreeBytes(t, off0), dirOffset + TreePos(t, off0));
      StartState(base[..], w, dirOffset);
      NothingReversed();
      while true
        invariant n == |q| <= MAXENTRIES == stack.Length && stack[..n] == Rev(q)
        invariant State(base[..], w, e, off, q, dirOffset)
        decreases TreeSize(e) + Area(q)
      {
        ok, off, n, q := NextListing(e, off, stack, n, w, q);
        if !ok {
          return;
        }
        if n == 0 {
          break;
        }
        ok, e := PopDirectory(off, stack, n, w, q);
        if !ok {
          return;
        }
        n, q := n - 1, q[1..];
      }
      EndState(base[..], w, off, dirOffset);
      ok := true;
    }

    /** Looks for a file with the contents of newfile, from orig on in traversal order. */
    method FindIdenticalFile(orig: Tree, newfile: Tree) returns (found: bool)
      requires newfile.Entry?
      modifies this`same
      ensures found <==> Find(orig, newfile) != Nothing
      ensures same == match Find(orig, newfile)
        case Dup(of) => old(same)[newfile.id := of]
        case _ => old(same)
      decreases orig
    {
      if orig.Nil? {
        return false;
      }
      if orig.id == newfile.id {
        return true;
      }
      if Duplicates(orig, newfile) {
        same := same[newfile.id := orig.id];
        return true;
      }
      found := FindIdenticalFile(orig.child, newfile);
      if !found {
        found := FindIdenticalFile(orig.next, newfile);
      }
    }

    /** Links every file to the first one with the same contents. */
    method EliminateDoubles(root: Tree, orig: Tree)
      modifies this`same
      ensures same == old(same) + SameMap(root, orig)
      decreases orig
    {
      hide Find, SameMap;
      SameMapStep(root, orig);
      if orig.Entry? {
        ghost var s0 := same;
        if orig.size > 0 && HasSig(orig) {
          var _ := FindIdenticalFile(root, orig);
        }
        assert same == s0 + Link(root, orig);
        EliminateDoubles(root, orig.child);
        EliminateDoubles(root, orig.next);
        MergeAssoc(s0, Link(root, orig), SameMap(root, orig.child));
        MergeAssoc(s0, Link(root, orig) + SameMap(root, orig.child), SameMap(root, orig.next));
      }
    }

    /** Writes the pointer table and the compressed blocks of a file; returns the aligned end. */
    method DoCompress(z: Codec, off: nat, data: seq<byte>) returns (end: nat)
      requires data != [] && off % 4 == 0
      requires off + FileSize(z, data) <= base.Length
      modifies base
      ensures FileAt(base[..], z, data, off)
      ensures Agree(old(base[..]), base[..], 0, off)
      ensures end == (off + FileSize(z, data) + 3) / 4 * 4
    {
      hide Table, Packed, Blocks, Put, Le32, At, Head, Rest, Agree;
      ghost var img0 := base[..];
      AgreeSame(img0, off);
      var start := off + 4 * Blocks(|data|);
      var rest, ptr, curr := data, off, start;
      ghost var tab: seq<byte>, pack: seq<byte> := [], [];
      AtNothing(base[..], off);
      AtNothing(base[..], start);
      while rest != []
        invariant ptr == off + |tab| && ptr + 4 * Blocks(|rest|) == start
        invariant curr == start + |pack| && pack + Packed(z, rest) == Packed(z, data)
        invariant tab + Table(z, rest, curr) == Table(z, data, start)
        invariant At(base[..], off, tab) && At(base[..], start, pack)
        invariant Agree(img0, base[..], 0, off)
        decreases |rest|
      {
        TableStep(z, rest, curr);
        var c := z.compress(Head(rest));
        WriteBlock(off, start, ptr, curr, c, tab, pack, img0);
        ConcatAssoc(tab, Le32(curr + |c|), Table(z, Rest(rest), curr + |c|));
        ConcatAssoc(pack, c, Packed(z, Rest(rest)));
        tab, pack := tab + Le32(curr + |c|), pack + c;
        rest, ptr, curr := Rest(rest), ptr + 4, curr + |c|;
      }
      NoBlocks(z, rest, curr);
      assert tab + [] == tab && pack + [] == pack;
      end := (curr + 3) / 4 * 4;
    }

    /** One compressed block and its end pointer. */
    method WriteBlock(off: nat, start: nat, ptr: nat, curr: nat, c: seq<byte>, ghost tab: seq<byte>,
                      ghost pack: seq<byte>,
                      ghost img0: seq<byte>)
      requires ptr == off + |tab| && curr == start + |pack| && ptr + 4 <= start && curr + |c| <= base.Length
      requires At(base[..], off, tab) && At(base[..], start, pack) && Agree(img0, base[..], 0, off)
      modifies base
      ensures At(base[..], off, tab + Le32(curr + |c|)) && At(base[..], start, pack + c)
      ensures Agree(img0, base[..], 0, off)
    {
      hide Put, Le32, At, Agree;
      BlockStep(base[..], off, start, tab, pack, c, Le32(curr + |c|));
      AgreePut(img0, base[..], off, curr, c);
      CopyInto(base, curr, c);
      AgreePut(img0, base[..], off, ptr, Le32(curr + |c|));
      CopyInto(base, ptr, Le32(curr + |c|));
    }

    /** The data of one entry: a link takes over its target's offset, anything else is stored at off. */
    method StoreEntry(z: Codec, e: Tree, off: nat, ghost j: Job) returns (ok: bool, end: nat)
      requires e.Entry? && HasSig(e) && e.data != []
      requires j.Good(base[..], z, dirOffset, offset, off)
      requires e.id in SigIds(j.list) && e.id !in offset && e.id in j.content && j.content[e.id] == e.data
      requires SameContent(same, j.content) && (e.id in same ==> same[e.id] in offset)
      requires off + FileSize(z, e.data) + 3 <= base.Length
      modifies this`offset, base
      ensures base[..SUPER_SIZE] == old(base[..SUPER_SIZE])
      ensures ok <==> e.id in same || off < TWO28
      ensures ok ==> end == FileEnd(z, same, e, off)
      ensures ok ==>
        && off <= end <= off + FileSize(z, e.data) + 3
        && j.Good(base[..], z, dirOffset, offset, end)
        && Recorded(old(offset), offset, {e.id}, same, off, end)
    {
      hide j.Good, j.Sound, SigIds, FileSize, FileAt, Recorded, SetOffset;
      GoodInode(j, base[..], z, dirOffset, offset, off, e.id);
      ghost var img0 := base[..];
      var at := dirOffset[e.id];
      if e.id in same {
        var o := offset[same[e.id]];
        LinkStep(j, img0, z, dirOffset, offset, off, e.id, same[e.id]);
        LinkRecorded(offset, e.id, same, off);
        ok := SetDataOffset(at, o);
        if !ok {
          return false, off;
        }
        offset := offset[e.id := o];
        end := off;
      } else {
        ok := SetDataOffset(at, off);
        if !ok {
          return false, off;
        }
        ghost var before := offset;
        offset := offset[e.id := off];
        end := DoCompress(z, off, e.data);
        FileStep(j, img0, base[..], z, dirOffset, before, off, end, e.id);
        FileSizePos(z, e.data);
        FileRecorded(before, e.id, same, off, end);
      }
    }

    /** The data of every entry from t on, in traversal order. */
    method WriteData(z: Codec, t: Tree, off: nat, ghost j: Job) returns (ok: bool, end: nat)
      requires j.Good(base[..], z, dirOffset, offset, off)
      requires Pending(t, j, same, offset)
      requires off + DataRoom(z, t) <= base.Length
      modifies this`offset, base
      ensures base[..SUPER_SIZE] == old(base[..SUPER_SIZE])
      ensures ok <==> DataFits(z, same, t, off)
      ensures ok ==> end == DataEnd(z, same, t, off)
      ensures ok ==>
        && end <= off + DataRoom(z, t)
        && j.Good(base[..], z, dirOffset, offset, end)
        && Recorded(old(offset), offset, SigIds(t), same, off, end)
      decreases t
    {
      hide j.Good, Pending, DataRoom, SigIds, Recorded, FileSize, DataFits, DataEnd, FileEnd;
      assert SUPER_SIZE <= base.Length by { GoodBound(j, base[..], z, dirOffset, offset, off); }
      var e := t;
      end := off;
      ghost var done: set<nat> := {};
      NothingRecorded(offset, same, off);
      while e.Entry?
        invariant j.Good(base[..], z, dirOffset, offset, end)
        invariant Pending(e, j, same, offset)
        invariant end + DataRoom(z, e) <= off + DataRoom(z, t)
        invariant Recorded(old(offset), offset, done, same, off, end) && done + SigIds(e) == SigIds(t)
        invariant DataFits(z, same, t, off) <==> DataFits(z, same, e, end)
        invariant DataEnd(z, same, t, off) == DataEnd(z, same, e, end)
        invariant base[..SUPER_SIZE] == old(base[..SUPER_SIZE])
        decreases e
      {
        ghost var mid, offs0 := end, offset;
        PendingParts(z, e, j, same, offset);
        DataStep(z, same, e, end);
        if HasSig(e) {
          ok, end := StoreEntry(z, e, end, j);
          if !ok {
            return;
          }
          RecordedMore(old(offset), offs0, offset, done, {e.id}, same, off, mid, end);
          PendingAfter(e, j, same, offs0, offset, mid, end);
          done := done + {e.id};
        } else {
          if e.child.Entry? {
            ok, end := WriteData(z, e.child, end, j);
            if !ok {
              return;
            }
          } else {
            DataStep(z, same, e.child, end);
            NothingRecorded(offset, same, end);
          }
          RecordedMore(old(offset), offs0, offset, done, SigIds(e.child), same, off, mid, end);
          PendingAfter(e, j, same, offs0, offset, mid, end);
          done := done + SigIds(e.child);
        }
        e := e.next;
      }
      assert SigIds(e) == {} by { NoSigs(e); }
      DataStep(z, same, e, end);
      ok := true;
    }
  }

  lemma AgreeSame(img: seq<byte>, hi: nat)
    requires hi <= |img|
    ensures Agree(img, img, 0, hi)
  {
  }

  lemma AgreePut(img0: seq<byte>, img: seq<byte>, hi: nat, at: nat, s: seq<byte>)
    requires Agree(img0, img, 0, hi) && hi <= at && at + |s| <= |img|
    ensures Agree(img0, Put(img, at, s), 0, hi)
  {
  }

  lemma {:induction false} GoodBound(j: Job, img: seq<byte>, z: Codec, m: map<nat, nat>, offs: map<nat, nat>, hi: nat)
    requires j.Good(img, z, m, offs, hi)
    ensures SUPER_SIZE <= |img|
  {
  }

  /** What is left to store from t on. */
  ghost predicate Pending(t: Tree, j: Job, same: map<nat, nat>, offs: map<nat, nat>) {
    && Holds(j.content, t) && WithData(t) && Unique(t)
    && SigIds(t) <= SigIds(j.list) && SigIds(t) !! offs.Keys
    && SameContent(same, j.content) && TargetsFirst(t, same, offs.Keys)
  }

  lemma {:induction false} NoSigs(t: Tree)
    requires t.Nil?
    ensures SigIds(t) == {}
  {
  }

  lemma {:induction false} NothingRecorded(offs: map<nat, nat>, same: map<nat, nat>, off: nat)
    ensures Recorded(offs, offs, {}, same, off, off)
    ensures SigIds(Nil) == {}
  {
  }

  lemma {:induction false} PendingParts(z: Codec, e: Tree, j: Job, same: map<nat, nat>, offs: map<nat, nat>)
    requires e.Entry? && Pending(e, j, same, offs)
    ensures HasSig(e) ==>
      && e.data != [] && e.id in SigIds(j.list) && e.id !in offs && e.id in j.content && j.content[e.id] == e.data
      && (e.id in same ==> same[e.id] in offs)
      && SigIds(e) == {e.id} + SigIds(e.next)
      && DataRoom(z, e) == FileSize(z, e.data) + 3 + DataRoom(z, e.next)
    ensures !HasSig(e) ==>
      && Pending(e.child, j, same, offs)
      && SigIds(e) == SigIds(e.child) + SigIds(e.next)
      && DataRoom(z, e) == DataRoom(z, e.child) + DataRoom(z, e.next)
    ensures SameContent(same, j.content)
    ensures e.child.Nil? ==> SigIds(e.child) == {}
  {
    hide FileSize;
    assert offs.Keys + {} == offs.Keys;
  }

  lemma {:induction false} PendingAfter(e: Tree, j: Job, same: map<nat, nat>, offs: map<nat, nat>, offs': map<nat, nat>,
                                        off: nat, end: nat)
    requires e.Entry? && Pending(e, j, same, offs)
    requires Recorded(offs, offs', if HasSig(e) then {e.id} else SigIds(e.child), same, off, end)
    ensures Pending(e.next, j, same, offs')
  {
    SigSub(e.child);
    SigSub(e.next);
    var here := if HasSig(e) then {e.id} else {};
    assert HasSig(e) ==> SigIds(e.child) == {};
    assert offs'.Keys == offs.Keys + here + SigIds(e.child);
  }

  lemma {:induction false} LinkRecorded(a: map<nat, nat>, id: nat, same: map<nat, nat>, off: nat)
    requires id !in a && id in same && same[id] in a
    ensures Recorded(a, a[id := a[same[id]]], {id}, same, off, off)
  {
    var b := a[id := a[same[id]]];
    assert id in b && b.Keys == a.Keys + {id};
  }

  lemma {:induction false} FileRecorded(a: map<nat, nat>, id: nat, same: map<nat, nat>, off: nat, end: nat)
    requires id !in a && id !in same && off <= end
    ensures Recorded(a, a[id := off], {id}, same, off, end)
  {
    var b := a[id := off];
    assert id in b && b[id] == off && b.Keys == a.Keys + {id};
  }

  lemma {:induction false} FileSizePos(z: Codec, data: seq<byte>)
    requires data != []
    ensures FileSize(z, data) > 0
  {
    HeadRest(data);
  }

  lemma {:induction false} GoodInode(j: Job, img: seq<byte>, z: Codec, m: map<nat, nat>, offs: map<nat, nat>, hi: nat,
                                     id: nat)
    requires j.Good(img, z, m, offs, hi) && id in SigIds(j.list)
    ensures id in m && SUPER_SIZE <= m[id] && m[id] + INODE_SIZE <= hi <= |img| && hi % 4 == 0
  {
    JobInode(j, m, id);
  }

  lemma {:induction false} AtNothing(img: seq<byte>, off: nat)
    requires off <= |img|
    ensures At(img, off, [])
  {
  }

  lemma {:induction false} NoBlocks(z: Codec, data: seq<byte>, curr: nat)
    requires data == []
    ensures Packed(z, data) == [] && Table(z, data, curr) == []
  {
  }

  lemma {:induction false} SameMapStep(root: Tree, t: Tree)
    ensures t.Nil? ==> SameMap(root, t) == map[]
    ensures t.Entry? ==> SameMap(root, t) == Link(root, t) + SameMap(root, t.child) + SameMap(root, t.next)
  {
  }

  /** What is to be laid out: the tree, where, and the finished bytes and positions. */
  datatype Work = Work(t: Tree, off0: nat, f: seq<byte>, goal: map<nat, nat>)
  {
    /** All directories of the tree start where an offset can point. */
    predicate Fits() { Addressable(t, off0 + ListSize(t)) }
  }

  /** Between two turns of the outer loop: e is to be written at off, then the queue q. */
  ghost predicate State(img: seq<byte>, w: Work, e: Tree, off: nat, q: seq<Pend>, m: map<nat, nat>) {
    && (e.Nil? ==> q == [])
    && off % 4 == 0 && off + TreeSize(e) + Area(q) == w.off0 + TreeSize(w.t) == |w.f| <= |img|
    && Matches(img, w.f, off, q) && Reserved(img, w.f, off + TreeSize(e), q)
    && At(w.f, off, TreeBytes(e, off))
    && m + TreePos(e, off) + PendPos(q, off + TreeSize(e)) == w.goal
    && (Peak(e, |q|) <= MAXENTRIES && PeakQueue(q) <= MAXENTRIES <==> Peak(w.t, 0) <= MAXENTRIES)
    && (Addressable(e, off + ListSize(e)) && AddressableQueue(q, off + TreeSize(e)) <==> w.Fits())
  }

  /** After a listing and its reversal, before the next directory is popped. */
  ghost predicate Queued(img: seq<byte>, w: Work, off: nat, q: seq<Pend>, m: map<nat, nat>) {
    && off % 4 == 0 && off + Area(q) == w.off0 + TreeSize(w.t) == |w.f| <= |img|
    && Matches(img, w.f, off, q) && Reserved(img, w.f, off, q)
    && m + PendPos(q, off) == w.goal
    && (|q| <= MAXENTRIES && PeakQueue(q) <= MAXENTRIES <==> Peak(w.t, 0) <= MAXENTRIES)
    && (AddressableQueue(q, off) <==> w.Fits())
  }

  lemma {:induction false} StartState(img: seq<byte>, w: Work, m: map<nat, nat>)
    requires w.off0 % 4 == 0 && w.off0 + TreeSize(w.t) <= |img|
    requires w.f == img[..w.off0] + TreeBytes(w.t, w.off0)
    requires w.goal == m + TreePos(w.t, w.off0)
    ensures State(img, w, w.t, w.off0, [], m)
    ensures At(w.f, w.off0, TreeBytes(w.t, w.off0)) && w.f[..w.off0] == img[..w.off0]
  {
    hide TreeBytes, TreePos, Peak, TreeSize, Addressable;
    NoneAddressable(w.off0 + TreeSize(w.t));
    assert At(w.f, w.off0, TreeBytes(w.t, w.off0));
    assert m + TreePos(w.t, w.off0) + map[] == m + TreePos(w.t, w.off0);
  }

  /** Writing e's listing and queueing its directories. */
  lemma {:induction false} ListingState(img: seq<byte>, w: Work, e: Tree, off: nat, q: seq<Pend>, m: map<nat, nat>)
    requires State(img, w, e, off, q, m)
    ensures off + ListSize(e) <= |img|
    ensures
      Queued(Put(img, off, Listing0(e)), w, off + ListSize(e), Dirs(e, off) + q, m + ListPos(e, off))
    ensures |q| + |Dirs(e, off)| > MAXENTRIES ==> Peak(w.t, 0) > MAXENTRIES
    ensures Dirs(e, off) + q != [] ==> Area(Dirs(e, off) + q) < TreeSize(e) + Area(q)
  {
    hide TreeBytes, TreePos, Peak, PendPos, Listing0, Put, Matches, Reserved, At, PeakQueue;
    hide EntrySize, Addressable, AddressableQueue, w.Fits;
    QueueAddressable(e, off, q);
    AfterListing(img, w.f, off, q, e);
    QueuePositions(e, off, q, m);
    QueuePeak(e, off, q);
    Aligned(e);
    if e.Nil? {
      assert Dirs(e, off) + q == [];
    }
  }

  lemma {:induction false} QueuePositions(e: Tree, off: nat, q: seq<Pend>, m: map<nat, nat>)
    ensures
      var end := off + ListSize(e);
      m + ListPos(e, off) + PendPos(Dirs(e, off) + q, end) == m + TreePos(e, off) + PendPos(q, off + TreeSize(e))
  {
    hide Dirs, ListPos, PendPos, DeepPos;
    var end := off + ListSize(e);
    var l, x, y := ListPos(e, off), DeepPos(e, end), PendPos(q, end + DeepSize(e));
    DirsPos(e, off, end);
    AreaDirs(e, off);
    PendPosConcat(Dirs(e, off), q, end);
    MergeAssoc(m + l, x, y);
    MergeAssoc(m, l, x);
  }

  lemma {:induction false} QueueAddressable(e: Tree, off: nat, q: seq<Pend>)
    ensures
      var end := off + ListSize(e);
      AddressableQueue(Dirs(e, off) + q, end) <==> Addressable(e, end) && AddressableQueue(q, off + TreeSize(e))
  {
    hide Dirs, Addressable, AddressableQueue;
    var end := off + ListSize(e);
    AreaDirs(e, off);
    AddressableConcat(Dirs(e, off), q, end);
    DirsAddressable(e, off, end);
  }

  lemma {:induction false} QueuePeak(e: Tree, off: nat, q: seq<Pend>)
    ensures
      Peak(e, |q|) <= MAXENTRIES && PeakQueue(q) <= MAXENTRIES <==>
      |Dirs(e, off) + q| <= MAXENTRIES && PeakQueue(Dirs(e, off) + q) <= MAXENTRIES
  {
    hide Dirs, PeakQueue, PeakKids;
    PeakPush(e, off, q);
    DirsCount(e, off, 0);
  }

  /** Popping the next directory and setting its offset. */
  lemma {:induction false} PopState(img: seq<byte>, w: Work, off: nat, q: seq<Pend>, m: map<nat, nat>)
    requires Queued(img, w, off, q, m)
    requires q != [] && |q| <= MAXENTRIES
    ensures q[0].at + 12 <= |img|
    ensures off % 4 == 0 && Area(q) == TreeSize(Kid(q[0])) + Area(q[1..])
    ensures off < TWO28 ==> State(SetOffset(img, q[0].at, off / 4), w, Kid(q[0]), off, q[1..], m)
    ensures off >= TWO28 ==> !w.Fits()
  {
    hide TreeBytes, TreePos, TreeSize, ListSize, Peak, At, SetOffset, InodeBytes, Addressable, AddressableQueue, w.Fits;
    AddressableQueueStep(q, off);
    var p := q[0];
    assert Area(q) == TreeSize(Kid(p)) + Area(q[1..]);
    assert At(w.f, off, TreeBytes(Kid(p), off));
    MergeAssoc(m, TreePos(Kid(p), off), PendPos(q[1..], off + TreeSize(Kid(p))));
    if off < TWO28 {
      PopStep(img, w.f, off, q);
    }
  }

  lemma NothingReversed()
    ensures Rev<Pend>([]) == []
  {
  }

  lemma {:induction false} RevTop(s: seq<Pend>, q: seq<Pend>)
    requires s == Rev(q) && q != []
    ensures s[|q| - 1] == q[0] && s[..|q| - 1] == Rev(q[1..])
  {
  }

  lemma {:induction false} EndState(img: seq<byte>, w: Work, off: nat, m: map<nat, nat>)
    requires Queued(img, w, off, [], m)
    requires At(w.f, w.off0, TreeBytes(w.t, w.off0))
    ensures off == w.off0 + TreeSize(w.t)
    ensures img[..w.off0] == w.f[..w.off0]
    ensures At(img, w.off0, TreeBytes(w.t, w.off0))
    ensures m == w.goal
    ensures Peak(w.t, 0) <= MAXENTRIES && w.Fits()
  {
    hide TreeBytes, TreeSize, Peak, w.Fits;
    NoneAddressable(off);
    forall i | 0 <= i < off ensures img[i] == w.f[i] {
      assert Clear([], i);
    }
    assert img[w.off0..off] == w.f[w.off0..off];
    assert m + map[] == m;
  }

  lemma {:induction false} EmptyPos(t: Tree, off: nat)
    requires t.Nil?
    ensures ListPos(t, off) == map[]
  {
  }

  /** What one turn of the listing loop takes off the work that remains. */
  lemma {:induction false} ListingStep(img: seq<byte>, s: seq<Pend>, m: map<nat, nat>, e: Tree, off: nat)
    requires e.Entry? && off + ListSize(e) <= |img|
    ensures Put(img, off, Listing0(e)) == Put(Put(img, off, EntryBytes(e, 0)), off + EntrySize(e), Listing0(e.next))
    ensures
      var here := if e.child.Nil? then [] else [Pend(e, off)];
      s + Dirs(e, off) == (s + here) + Dirs(e.next, off + EntrySize(e))
    ensures m + ListPos(e, off) == m[e.id := off] + ListPos(e.next, off + EntrySize(e))
  {
    hide EntrySize, EntryBytes, Put;
    PutConcat(img, off, EntryBytes(e, 0), Listing0(e.next));
    var here := if e.child.Nil? then [] else [Pend(e, off)];
    ConcatAssoc(s, here, Dirs(e.next, off + EntrySize(e)));
    MergeAssoc(m, map[e.id := off], ListPos(e.next, off + EntrySize(e)));
    assert m + map[e.id := off] == m[e.id := off];
  }

  // ---- main ----

  /** The root directory entry main builds: no name, no sibling, everything else within the field widths. */
  ghost predicate ValidRoot(root: Tree) {
    && root.Entry? && IsDir(root) && root.next.Nil? && root.data == []
    && root.mode < 0x10000 && root.uid < 0x10000 && root.gid < 256
    && root.size == ListSize(root.child) < TWO24
    && Valid(root.child) && Unique(root)
  }

  function Rounded(n: nat): (r: nat)
    requires n > 0
    ensures r >= n
  {
    (n + BLKSIZE - 1) / BLKSIZE * BLKSIZE
  }

  /** The least number of whole blocks that holds n bytes. */
  lemma {:induction false} WholeBlocks(n: nat)
    requires n > 0
    ensures Rounded(n) % 4096 == 0 && n <= Rounded(n) < n + 4096
  {
  }

  /** An image that a reader can take apart. */
  ghost predicate CramfsImage(img: seq<byte>, z: Codec, root: Tree, fsid: seq<byte>)
    requires root.Entry? && |fsid| == 16
  {
    var list := root.child;
    var deep, lo := SUPER_SIZE + ListSize(list), SUPER_SIZE + TreeSize(list);
    && lo <= |img| < TWO32
    && At(img, 0, SuperBytes(root, fsid))
    && Readable(img, z, list, SUPER_SIZE, deep, lo)
    && (SigIds(list) != {} ==> StartsAt(img, list, SUPER_SIZE, deep, lo))
  }

  /** The first half of main: duplicates are linked, and superblock and directory structure written. */
  method LayOut(w: Mkcramfs, root: Tree, fsid: seq<byte>) returns (ok: bool, off: nat)
    requires ValidRoot(root) && |fsid| == 16 && SUPER_SIZE + TreeSize(root.child) <= w.base.Length
    requires w.same == map[] && w.dirOffset == map[]
    modifies w`same, w`dirOffset, w.base
    ensures ok <==> Peak(root.child, 0) <= MAXENTRIES && Addressable(root.child, SUPER_SIZE + ListSize(root.child))
    ensures ok ==>
      && off == SUPER_SIZE + TreeSize(root.child) && w.base[..SUPER_SIZE] == SuperBytes(root, fsid)
      && At(w.base[..], SUPER_SIZE, TreeBytes(root.child, SUPER_SIZE))
      && w.same == SameMap(root, root) && w.dirOffset == TreePos(root.child, SUPER_SIZE)
  {
    hide TreeSize, At, TreeBytes, TreePos, SuperBytes, Peak, SameMap, Put, ValidRoot, Addressable, ListSize;
    RootEntry(root);
    w.EliminateDoubles(root, root);
    CopyInto(w.base, 0, SuperBytes(root, fsid));
    SuperFirst(w.base[..], root, fsid);
    NoLinksYet(SameMap(root, root), TreePos(root.child, SUPER_SIZE));
    ok, off := w.WriteDirectoryStructure(root.child, SUPER_SIZE);
  }

  lemma RootEntry(root: Tree)
    requires ValidRoot(root)
    ensures root.Entry?
  {
  }

  lemma SuperFirst(img: seq<byte>, root: Tree, fsid: seq<byte>)
    requires root.Entry? && |fsid| == 16 && SUPER_SIZE <= |img|
    ensures Put(img, 0, SuperBytes(root, fsid))[..SUPER_SIZE] == SuperBytes(root, fsid)
  {
    hide SuperBytes;
  }

  /** The second half of main: the data of all files, and the image cut to whole blocks. */
  method Store(w: Mkcramfs, root: Tree, z: Codec, fsid: seq<byte>, off: nat)
    returns (ok: bool, image: seq<byte>, offs: map<nat, nat>)
    requires ValidRoot(root) && |fsid| == 16 && off == SUPER_SIZE + TreeSize(root.child)
    requires Addressable(root.child, SUPER_SIZE + ListSize(root.child))
    requires Rounded(off + DataRoom(z, root.child)) <= w.base.Length < TWO32
    requires w.base[..SUPER_SIZE] == SuperBytes(root, fsid) && w.offset == map[]
    requires At(w.base[..], SUPER_SIZE, TreeBytes(root.child, SUPER_SIZE))
    requires w.same == SameMap(root, root) && w.dirOffset == TreePos(root.child, SUPER_SIZE)
    modifies w`offset, w.base
    ensures ok ==> CramfsImage(image, z, root, fsid)
    ensures ok ==> offs.Keys == SigIds(root.child) && SharesOffsets(root, offs)
    ensures ok <==> DataFits(z, SameMap(root, root), root, off)
    ensures ok ==> |image| % 4096 == 0
    ensures ok ==> var end := DataEnd(z, SameMap(root, root), root, off); end <= |image| < end + 4096
  {
    hide TreeSize, DataRoom, At, TreeBytes, TreePos, ValidRoot, SuperBytes, CramfsImage, SameMap, SigIds, Recorded,
      Pending, SharesOffsets, Contents, Addressable, ListSize, DataFits, DataEnd, Rounded;
    image, offs := [], map[];
    RootEntry(root);
    var list := root.child;
    ghost var j := Job(list, Contents(root));
    ReadyToStore(root, z, j, w.base[..], w.dirOffset);
    hide j.Good;
    var end;
    ok, end := w.WriteData(z, root, off, j);
    if !ok {
      return;
    }
    EndBound(j, w.base[..], z, w.dirOffset, w.offset, end);
    RoundedMono(end, off + DataRoom(z, list));
    var n := Rounded(end);
    WholeBlocks(end);
    image, offs := w.base[..n], w.offset;
    Finished(root, z, fsid, j, w.base[..], w.dirOffset, w.offset, off, end, n);
    Shared(root, w.offset, off, end);
  }

  lemma EndBound(j: Job, img: seq<byte>, z: Codec, m: map<nat, nat>, offs: map<nat, nat>, end: nat)
    requires j.Good(img, z, m, offs, end)
    ensures 0 < end <= |img|
  {
  }

  /** The image of the tree can be written: the stack suffices, and inodes can point at all directories and files. */
  predicate Written(z: Codec, root: Tree)
    requires root.Entry?
  {
    && Peak(root.child, 0) <= MAXENTRIES && Addressable(root.child, SUPER_SIZE + ListSize(root.child))
    && DataFits(z, SameMap(root, root), root, SUPER_SIZE + TreeSize(root.child))
  }

  lemma {:induction false} SmallWritten(z: Codec, root: Tree)
    requires ValidRoot(root) && SUPER_SIZE + TreeSize(root.child) + DataRoom(z, root.child) <= TWO28
    ensures Written(z, root) <==> Peak(root.child, 0) <= MAXENTRIES
  {
    hide Peak, Addressable, DataFits, DataRoom, SameMap, DataEnd;
    SmallAddressable(root.child, SUPER_SIZE + ListSize(root.child));
    RootTotals(root, z);
    RoomFits(z, SameMap(root, root), root, SUPER_SIZE + TreeSize(root.child));
  }

  /** mkcramfs: from a directory tree to the bytes of the output file. */
  method Mkimage(root: Tree, z: Codec, fsid: seq<byte>, room: nat)
    returns (ok: bool, image: seq<byte>, offs: map<nat, nat>)
    requires ValidRoot(root) && |fsid| == 16
    requires Rounded(SUPER_SIZE + TreeSize(root.child) + DataRoom(z, root.child)) <= room < TWO32
    ensures ok ==> CramfsImage(image, z, root, fsid)
    ensures ok ==> offs.Keys == SigIds(root.child) && SharesOffsets(root, offs)
    ensures ok <==> Written(z, root)
    ensures ok ==> |image| % 4096 == 0
    ensures ok ==>
      var end := DataEnd(z, SameMap(root, root), root, SUPER_SIZE + TreeSize(root.child));
      end <= |image| < end + 4096
    ensures SUPER_SIZE + TreeSize(root.child) + DataRoom(z, root.child) <= TWO28 ==>
      (ok <==> Peak(root.child, 0) <= MAXENTRIES)
  {
    hide TreeSize, DataRoom, At, TreeBytes, TreePos, ValidRoot, SuperBytes, CramfsImage, Peak, SameMap, SigIds,
      SharesOffsets, Addressable, ListSize, DataFits, DataEnd;
    image, offs := [], map[];
    var w := new Mkcramfs(room);
    RootEntry(root);
    var off;
    ok, off := LayOut(w, root, fsid);
    if ok {
      ok, image, offs := Store(w, root, z, fsid, off);
    }
    if SUPER_SIZE + TreeSize(root.child) + DataRoom(z, root.child) <= TWO28 {
      SmallWritten(z, root);
    }
  }

  lemma NoLinksYet(a: map<nat, nat>, b: map<nat, nat>)
    ensures map[] + a == a && map[] + b == b
  {
  }

  lemma {:induction false} RoundedMono(a: nat, b: nat)
    requires 0 < a <= b
    ensures Rounded(a) <= Rounded(b)
  {
  }

  /** Regular files with the same contents are stored once. */
  ghost predicate SharesOffsets(root: Tree, offs: map<nat, nat>) {
    var s := Pre(root);
    forall a, b ::
      (&& 0 <= a < b < |s| && s[a].Entry? && s[b].Entry? && s[a].data == s[b].data != []
       && s[a].mode / 4096 % 16 == 8 && s[b].mode / 4096 % 16 == 8) ==>
      s[a].id in offs && s[b].id in offs && offs[s[a].id] == offs[s[b].id]
  }

  lemma {:induction false} Shared(root: Tree, offs: map<nat, nat>, off: nat, end: nat)
    requires ValidRoot(root)
    requires Recorded(map[], offs, SigIds(root), SameMap(root, root), off, end)
    ensures SharesOffsets(root, offs)
  {
    hide SameMap, Unique, SigIds, Find;
    var s, same := Pre(root), SameMap(root, root);
    PreEntries(root);
    SigSetPre(root);
    forall a, b | && 0 <= a < b < |s| && s[a].Entry? && s[b].Entry? && s[a].data == s[b].data != []
                  && s[a].mode / 4096 % 16 == 8 && s[b].mode / 4096 % 16 == 8
      ensures s[a].id in offs && s[b].id in offs && offs[s[a].id] == offs[s[b].id]
    {
      RootSizes(root, a);
      RootSizes(root, b);
      SharedTarget(root, a, b);
      assert s[a].id in SigSet(s) && s[b].id in SigSet(s);
    }
  }

  lemma {:induction false} RootSizes(root: Tree, k: nat)
    requires ValidRoot(root) && k < |Pre(root)| && Pre(root)[k].Entry? && IsReg(Pre(root)[k])
    ensures Pre(root)[k].size == |Pre(root)[k].data|
  {
    hide Unique, ListSize;
    var list := root.child;
    PreEntries(list);
    assert Pre(root)[0] == root;
    assert Pre(root) == [root] + Pre(list);
  }

  /** The directory area as written satisfies everything write_data needs. */
  lemma {:induction false} ReadyToStore(root: Tree, z: Codec, j: Job, img: seq<byte>, m: map<nat, nat>)
    requires ValidRoot(root) && j == Job(root.child, Contents(root))
    requires At(img, SUPER_SIZE, TreeBytes(j.list, SUPER_SIZE)) && m == TreePos(j.list, SUPER_SIZE)
    requires Addressable(j.list, SUPER_SIZE + ListSize(j.list)) && SUPER_SIZE + TreeSize(j.list) <= |img|
    ensures j.Good(img, z, m, map[], SUPER_SIZE + TreeSize(j.list))
    ensures Pending(root, j, SameMap(root, root), map[])
    ensures SigIds(root) == SigIds(j.list) && DataRoom(z, root) == DataRoom(z, j.list)
  {
    hide j.Good, Pending, SigIds, DataRoom, At, TreeBytes, TreePos, Valid, Unique, Addressable;
    ReadyTree(root, z, j, img, m);
    ReadyLinks(root, j);
    RootTotals(root, z);
  }

  lemma {:induction false} RootTotals(root: Tree, z: Codec)
    requires ValidRoot(root)
    ensures SigIds(root) == SigIds(root.child) && DataRoom(z, root) == DataRoom(z, root.child)
  {
    hide FileSize, Valid, Unique;
    assert SigIds(Nil) == {} && DataRoom(z, Nil) == 0;
  }

  lemma {:induction false} ReadyLinks(root: Tree, j: Job)
    requires ValidRoot(root) && j == Job(root.child, Contents(root))
    ensures Pending(root, j, SameMap(root, root), map[])
  {
    hide Holds, SameMap, TargetsFirst, SameContent, Contents, ListSize;
    HoldsRoot(root);
    LinksSound(root);
    ValidWithData(j.list);
    var none: map<nat, nat> := map[];
    assert none.Keys == {};
    assert SigIds(root) == SigIds(j.list);
    assert WithData(root);
    assert SigIds(root) !! none.Keys;
    assert Pending(root, j, SameMap(root, root), none);
  }

  lemma {:induction false} ReadyTree(root: Tree, z: Codec, j: Job, img: seq<byte>, m: map<nat, nat>)
    requires ValidRoot(root) && j == Job(root.child, Contents(root))
    requires At(img, SUPER_SIZE, TreeBytes(j.list, SUPER_SIZE)) && m == TreePos(j.list, SUPER_SIZE)
    requires Addressable(j.list, SUPER_SIZE + ListSize(j.list)) && SUPER_SIZE + TreeSize(j.list) <= |img|
    ensures j.Good(img, z, m, map[], SUPER_SIZE + TreeSize(j.list))
  {
    hide At, TreeBytes, TreePos, Placed, Laid, Holds, Contents, ListBytes, DeepBytes, Valid, Unique, ListSize,
      DeepSize, j.Good,
      Addressable;
    var list := j.list;
    var deep := SUPER_SIZE + ListSize(list);
    TreeParts(img, list, SUPER_SIZE);
    Aligned(list);
    LaidFromBytes(img, list, SUPER_SIZE, deep);
    UniqueChild(root);
    PlacedTree(m, list);
    HoldsRoot(root);
    GoodStart(j, z, img, m);
  }

  lemma {:induction false} GoodStart(j: Job, z: Codec, img: seq<byte>, m: map<nat, nat>)
    requires j.Sound(m) && j.Lo() <= |img| && Laid(img, j.list, SUPER_SIZE, SUPER_SIZE + ListSize(j.list))
    requires ListSize(j.list) % 4 == 0 && DeepSize(j.list) % 4 == 0
    ensures j.Good(img, z, m, map[], j.Lo())
  {
    hide j.Sound, Laid, ListSize, DeepSize, SigIds;
    Sum4(SUPER_SIZE, ListSize(j.list), DeepSize(j.list));
  }

  lemma {:induction false} UniqueChild(root: Tree)
    requires root.Entry? && Unique(root)
    ensures Unique(root.child)
  {
  }

  lemma {:induction false} PlacedTree(m: map<nat, nat>, list: Tree)
    requires Unique(list) && m == TreePos(list, SUPER_SIZE)
    ensures Placed(m, list, SUPER_SIZE, SUPER_SIZE + ListSize(list))
  {
    hide ListPos, DeepPos, ListSize, Placed, Unique;
    var deep := SUPER_SIZE + ListSize(list);
    ListKeys(list, SUPER_SIZE);
    DeepKeys(list, deep);
    RowUnder(list);
    WithinSplit(ListPos(list, SUPER_SIZE), DeepPos(list, deep), m);
    PlacedAll(m, list, SUPER_SIZE, deep);
  }

  lemma {:induction false} HoldsRoot(root: Tree)
    requires Unique(root) && root.Entry?
    ensures Holds(Contents(root), root) && Holds(Contents(root), root.child)
  {
    hide Contents, Unique;
    forall k | 0 <= k < |Pre(root)|
      ensures
        Pre(root)[k].Entry? && Pre(root)[k].id in Contents(root) && Contents(root)[Pre(root)[k].id] == Pre(root)[k].data
    {
      ContentsAt(root, k);
    }
    HoldsAll(Contents(root), root);
  }

  lemma {:induction false} Finished(root: Tree, z: Codec, fsid: seq<byte>, j: Job, img: seq<byte>, m: map<nat, nat>,
                                    offs: map<nat, nat>, off: nat, end: nat, n: nat)
    requires ValidRoot(root) && |fsid| == 16 && j == Job(root.child, Contents(root))
    requires j.Good(img, z, m, offs, end) && end <= n <= |img| < TWO32
    requires img[..SUPER_SIZE] == SuperBytes(root, fsid) && off == j.Lo()
    requires Recorded(map[], offs, SigIds(root), SameMap(root, root), off, end)
    ensures CramfsImage(img[..n], z, root, fsid)
    ensures offs.Keys == SigIds(root.child)
  {
    hide SuperBytes, Placed, Laid, Holds, Readable, StartsAt, Stored, DeepSize, ListSize, Contents, SameMap;
    var list := root.child;
    var deep := SUPER_SIZE + ListSize(list);
    assert SigIds(root) == SigIds(list);
    assert offs.Keys == SigIds(list);
    HoldsRoot(root);
    ReadableFrom(j, img, n, z, m, offs, end, list, SUPER_SIZE, deep);
    assert img[..n][0..SUPER_SIZE] == img[..SUPER_SIZE];
    if SigIds(list) != {} {
      var x :| x in SigIds(list);
      assert x in offs.Keys;
      var id :| id in offs && offs[id] == off;
      assert id in offs.Keys;
      StartsFrom(j, img, n, z, m, offs, end, list, SUPER_SIZE, deep, id);
    }
  }
}
