/** Why back-patching is right: an image that agrees with the finished directory area everywhere except in
    the offset fields of the directories still on the stack. */
module CramfsLayout {
  import opened Bytes
  import opened CramfsFormat

  /** A directory on entry_stack together with the dir_offset recorded in it. */
  datatype Pend = Pend(e: Tree, at: nat)

  /** The listing as first written: every offset field is zero. */
  function Listing0(t: Tree): (r: seq<byte>)
    ensures |r| == ListSize(t)
  {
    if t.Nil? then [] else EntryBytes(t, 0) + Listing0(t.next)
  }

  /** The non-empty directories of a listing at off, in order. */
  function Dirs(t: Tree, off: nat): seq<Pend> {
    if t.Nil? then []
    else (if t.child.Nil? then [] else [Pend(t, off)]) + Dirs(t.next, off + EntrySize(t))
  }

  /** What the pending directory contains. */
  function Kid(p: Pend): Tree {
    if p.e.Entry? then p.e.child else Nil
  }

  /** Bytes that the listings below the pending directories will take. */
  function Area(q: seq<Pend>): nat {
    if q == [] then 0 else TreeSize(Kid(q[0])) + Area(q[1..])
  }

  lemma {:induction false} AreaConcat(a: seq<Pend>, b: seq<Pend>)
    ensures Area(a + b) == Area(a) + Area(b)
  {
    hide TreeSize;
    if a == [] {
      assert a + b == b;
    } else {
      AreaConcat(a[1..], b);
      assert (a + b)[1..] == a[1..] + b;
    }
  }

  lemma {:induction false} AreaDirs(t: Tree, off: nat)
    ensures Area(Dirs(t, off)) == DeepSize(t)
  {
    hide EntrySize;
    if t.Entry? {
      var d := Dirs(t.next, off + EntrySize(t));
      AreaDirs(t.next, off + EntrySize(t));
      if t.child.Entry? {
        assert Dirs(t, off)[1..] == d;
      } else {
        assert Dirs(t, off) == d;
      }
    }
  }

  // ---- offsets that fit ----

  /** Every non-empty directory below the listing t starts below 2^28, so that its offset fits. */
  predicate Addressable(t: Tree, deep: nat) {
    t.Entry? ==>
      && (t.child.Entry? ==> deep < TWO28)
      && Addressable(t.child, deep + ListSize(t.child)) && Addressable(t.next, deep + TreeSize(t.child))
  }

  /** The same for pending directories whose listings go to off and on. */
  predicate AddressableQueue(q: seq<Pend>, off: nat)
    decreases |q|
  {
    q == [] ||
    (var t := Kid(q[0]);
     off < TWO28 && Addressable(t, off + ListSize(t)) && AddressableQueue(q[1..], off + TreeSize(t)))
  }

  lemma AddressableQueueStep(q: seq<Pend>, off: nat)
    requires q != []
    ensures var t := Kid(q[0]);
      AddressableQueue(q, off) <==>
        off < TWO28 && Addressable(t, off + ListSize(t)) && AddressableQueue(q[1..], off + TreeSize(t))
  {
    hide Addressable, ListSize, TreeSize;
  }

  lemma NoneAddressable(off: nat)
    ensures AddressableQueue([], off)
  {
  }

  lemma {:induction false} AddressableConcat(a: seq<Pend>, b: seq<Pend>, off: nat)
    ensures AddressableQueue(a + b, off) <==> AddressableQueue(a, off) && AddressableQueue(b, off + Area(a))
    decreases |a|
  {
    hide Addressable, AddressableQueue, ListSize, TreeSize;
    if a == [] {
      assert a + b == b;
      NoneAddressable(off);
    } else {
      assert (a + b)[1..] == a[1..] + b;
      AddressableQueueStep(a, off);
      AddressableQueueStep(a + b, off);
      AddressableConcat(a[1..], b, off + TreeSize(Kid(a[0])));
    }
  }

  lemma AddressableStep(t: Tree, deep: nat)
    requires t.Entry?
    ensures Addressable(t, deep) <==>
      (t.child.Entry? ==> deep < TWO28) && Addressable(t.child, deep + ListSize(t.child)) &&
      Addressable(t.next, deep + TreeSize(t.child))
    ensures t.child.Nil? ==> (Addressable(t, deep) <==> Addressable(t.next, deep))
  {
    hide ListSize;
    if t.child.Nil? {
      EmptyTree(t.child);
    }
  }

  lemma {:induction false} DirsAddressable(t: Tree, off: nat, deep: nat)
    ensures AddressableQueue(Dirs(t, off), deep) <==> Addressable(t, deep)
    decreases t
  {
    hide Addressable, AddressableQueue, ListSize, TreeSize, EntrySize, Dirs;
    if t.Nil? {
      NothingBelow(off, deep);
    } else {
      var d := Dirs(t.next, off + EntrySize(t));
      DirsStep(t, off);
      AddressableStep(t, deep);
      if t.child.Entry? {
        assert ([Pend(t, off)] + d)[1..] == d;
        AddressableQueueStep(Dirs(t, off), deep);
        DirsAddressable(t.next, off + EntrySize(t), deep + TreeSize(t.child));
      } else {
        assert [] + d == d;
        DirsAddressable(t.next, off + EntrySize(t), deep);
      }
    }
  }

  lemma NothingBelow(off: nat, deep: nat)
    ensures Dirs(Nil, off) == [] && AddressableQueue([], deep) && Addressable(Nil, deep)
  {
  }

  lemma {:induction false} SmallAddressable(t: Tree, deep: nat)
    requires deep + DeepSize(t) <= TWO28
    ensures Addressable(t, deep)
    decreases t
  {
    hide EntrySize;
    if t.Entry? {
      SmallAddressable(t.child, deep + ListSize(t.child));
      SmallAddressable(t.next, deep + TreeSize(t.child));
    }
  }

  // ---- where each inode goes ----

  function ListPos(t: Tree, off: nat): map<nat, nat> {
    if t.Nil? then map[] else map[t.id := off] + ListPos(t.next, off + EntrySize(t))
  }

  function DeepPos(t: Tree, deep: nat): map<nat, nat> {
    if t.Nil? then map[]
    else
      ListPos(t.child, deep) + DeepPos(t.child, deep + ListSize(t.child)) +
      DeepPos(t.next, deep + TreeSize(t.child))
  }

  function TreePos(t: Tree, off: nat): map<nat, nat> {
    ListPos(t, off) + DeepPos(t, off + ListSize(t))
  }

  function PendPos(q: seq<Pend>, off: nat): map<nat, nat>
  {
    if q == [] then map[] else TreePos(Kid(q[0]), off) + PendPos(q[1..], off + TreeSize(Kid(q[0])))
  }

  lemma {:induction false} PendPosStep(q: seq<Pend>, off: nat)
    requires q != []
    ensures PendPos(q, off) == TreePos(Kid(q[0]), off) + PendPos(q[1..], off + TreeSize(Kid(q[0])))
  {
    hide TreePos, TreeSize;
  }

  lemma {:induction false} PendPosNone(off: nat)
    ensures PendPos([], off) == map[]
  {
  }

  lemma {:induction false} PendPosConcat(a: seq<Pend>, b: seq<Pend>, off: nat)
    ensures PendPos(a + b, off) == PendPos(a, off) + PendPos(b, off + Area(a))
  {
    hide TreePos, TreeSize, PendPos;
    if a == [] {
      assert a + b == b;
      PendPosNone(off);
    } else {
      var n := TreeSize(Kid(a[0]));
      PendPosConcat(a[1..], b, off + n);
      assert (a + b)[1..] == a[1..] + b;
      PendPosStep(a, off);
      PendPosStep(a + b, off);
      MergeAssoc(TreePos(Kid(a[0]), off), PendPos(a[1..], off + n), PendPos(b, off + Area(a)));
    }
  }

  lemma {:induction false} DirsPos(t: Tree, off: nat, deep: nat)
    ensures PendPos(Dirs(t, off), deep) == DeepPos(t, deep)
  {
    hide TreeSize, TreePos, EntrySize, PendPos, DeepPos;
    if t.Nil? {
      PendPosNone(deep);
      DeepPosNone(deep);
    } else {
      var d := Dirs(t.next, off + EntrySize(t));
      DirsPos(t.next, off + EntrySize(t), deep + TreeSize(t.child));
      DeepPosStep(t, deep);
      if t.child.Entry? {
        assert Dirs(t, off)[1..] == d && Kid(Dirs(t, off)[0]) == t.child;
        PendPosStep(Dirs(t, off), deep);
      } else {
        assert Dirs(t, off) == d;
        EmptyTree(t.child);
      }
    }
  }

  lemma {:induction false} DeepPosNone(deep: nat)
    ensures DeepPos(Nil, deep) == map[]
  {
  }

  lemma {:induction false} DeepPosStep(t: Tree, deep: nat)
    requires t.Entry?
    ensures DeepPos(t, deep) == TreePos(t.child, deep) + DeepPos(t.next, deep + TreeSize(t.child))
    ensures t.child.Nil? ==> DeepPos(t, deep) == DeepPos(t.next, deep + TreeSize(t.child))
  {
    hide ListPos, ListSize, TreeSize;
    if t.child.Nil? {
      NoPos(deep);
    }
  }

  lemma NoPos(off: nat)
    ensures TreePos(Nil, off) == map[]
  {
  }

  // ---- the invariant ----

  /** Position i is not inside the offset word of a pending directory. */
  ghost predicate Clear(q: seq<Pend>, i: int) {
    forall k :: 0 <= k < |q| ==> i < q[k].at + 8 || q[k].at + 12 <= i
  }

  ghost predicate Below(q: seq<Pend>, x: int) {
    forall k :: 0 <= k < |q| ==> q[k].at + 12 <= x
  }

  ghost predicate Apart(q: seq<Pend>) {
    forall j, k :: 0 <= j < k < |q| ==> q[j].at + 12 <= q[k].at || q[k].at + 12 <= q[j].at
  }

  /** Up to off, img is the finished area f but for the pending offset words. */
  ghost predicate Matches(img: seq<byte>, f: seq<byte>, off: nat, q: seq<Pend>) {
    && off <= |f| <= |img|
    && Below(q, off)
    && Apart(q)
    && forall i :: 0 <= i < off && Clear(q, i) ==> img[i] == f[i]
  }

  /** Each pending directory has a zero offset in img; in f it points at the area reserved for it, and that
      area holds its listings. */
  ghost predicate Reserved(img: seq<byte>, f: seq<byte>, off: nat, q: seq<Pend>)
    decreases |q|
  {
    q == [] ||
    (var p := q[0];
     && p.e.Entry? && p.e.child.Entry?
     && At(img, p.at, InodeBytes(InodeOf(p.e, 0)))
     && At(f, p.at, InodeBytes(InodeOf(p.e, off / 4)))
     && At(f, off, TreeBytes(Kid(p), off))
     && Reserved(img, f, off + TreeSize(Kid(p)), q[1..]))
  }

  lemma {:induction false} ReservedConcat(img: seq<byte>, f: seq<byte>, off: nat, a: seq<Pend>, b: seq<Pend>)
    requires Reserved(img, f, off, a) && Reserved(img, f, off + Area(a), b)
    ensures Reserved(img, f, off, a + b)
    decreases |a|
  {
    hide TreeSize, InodeBytes, At, TreeBytes;
    if a == [] {
      assert a + b == b;
    } else {
      ReservedConcat(img, f, off + TreeSize(Kid(a[0])), a[1..], b);
      assert (a + b)[1..] == a[1..] + b;
    }
  }

  lemma {:induction false} ReservedFrame(img: seq<byte>, img': seq<byte>, f: seq<byte>, off: nat, q: seq<Pend>)
    requires Reserved(img, f, off, q)
    requires |img'| == |img|
    requires forall k, i :: 0 <= k < |q| && q[k].at <= i < q[k].at + 12 && i < |img| ==> img'[i] == img[i]
    ensures Reserved(img', f, off, q)
    decreases |q|
  {
    hide TreeSize, InodeBytes, TreeBytes;
    if q != [] {
      var p := q[0];
      AtFrame(img, img', p.at, InodeBytes(InodeOf(p.e, 0)));
      forall k, i | 0 <= k < |q[1..]| && q[1..][k].at <= i < q[1..][k].at + 12 && i < |img|
        ensures img'[i] == img[i]
      {
        assert q[1..][k] == q[k + 1];
      }
      ReservedFrame(img, img', f, off + TreeSize(Kid(p)), q[1..]);
    }
  }

  /** The word holding namelen and offset. */
  function OffsetWord(e: Tree, o: nat): (r: seq<byte>)
    requires e.Entry?
    ensures |r| == 4
  {
    var t := Truncated(InodeOf(e, o));
    Le32(t.namelen + 64 * t.offset)
  }

  /** inode->offset = o, on the bytes. */
  function SetOffset(img: seq<byte>, at: nat, o: nat): (r: seq<byte>)
    requires at + 12 <= |img| && o < TWO26
    ensures |r| == |img|
    ensures forall i :: 0 <= i < |img| && (i < at + 8 || at + 12 <= i) ==> r[i] == img[i]
  {
    Put(img, at + 8, Le32(Word(img, at + 8) % 64 + 64 * o))
  }

  lemma {:induction false} InodeSplit(e: Tree, o: nat)
    requires e.Entry?
    ensures InodeBytes(InodeOf(e, o)) == InodeBytes(InodeOf(e, 0))[..8] + OffsetWord(e, o)
  {
    var a := Truncated(InodeOf(e, o));
    var z := Truncated(InodeOf(e, 0));
    assert a.mode == z.mode && a.uid == z.uid && a.size == z.size && a.gid == z.gid && a.namelen == z.namelen;
    var head := Le32(a.mode + 0x10000 * a.uid) + Le32(a.size + TWO24 * a.gid);
    assert InodeBytes(InodeOf(e, 0))[..8] == head;
  }

  lemma {:induction false} WordNamelen(img: seq<byte>, at: nat, e: Tree, o: nat)
    requires e.Entry?
    requires At(img, at, OffsetWord(e, o))
    ensures Word(img, at) % 64 == Truncated(InodeOf(e, 0)).namelen
    ensures Word(img, at) / 64 == o % TWO26
  {
    var t := Truncated(InodeOf(e, o));
    TruncatedFits(InodeOf(e, o));
    Fields6(t.namelen, t.offset);
    WordOfLe32(img, at, t.namelen + 64 * t.offset);
  }

  lemma {:induction false} OffsetWordIs(e: Tree, o: nat)
    requires e.Entry? && o < TWO26
    ensures OffsetWord(e, o) == Le32(Truncated(InodeOf(e, 0)).namelen + 64 * o)
  {
    hide Le32;
    var t := Truncated(InodeOf(e, o));
    assert t.namelen == Truncated(InodeOf(e, 0)).namelen && t.offset == o;
  }

  /** Patching the offset of an inode gives the inode with the new offset and nothing else changes. */
  lemma {:induction false} SetOffsetAt(img: seq<byte>, at: nat, e: Tree, x: nat, o: nat)
    requires e.Entry? && o < TWO26
    requires At(img, at, InodeBytes(InodeOf(e, x)))
    ensures At(SetOffset(img, at, o), at, InodeBytes(InodeOf(e, o)))
  {
    hide InodeBytes, OffsetWord, Word, Truncated;
    OffsetWordIs(e, o);
    var head := InodeBytes(InodeOf(e, 0))[..8];
    InodeSplit(e, x);
    InodeSplit(e, o);
    AtConcat(img, at, head, OffsetWord(e, x));
    WordNamelen(img, at + 8, e, x);
    var img' := SetOffset(img, at, o);
    AtFrame(img, img', at, head);
    PutAt(img, at + 8, OffsetWord(e, o));
    AtConcat(img', at, head, OffsetWord(e, o));
  }

  // ---- steps ----

  /** Writing one entry with a zero offset, pushing it when it is a non-empty directory. */
  lemma {:induction false} EntryStep(img: seq<byte>, f: seq<byte>, off: nat, q: seq<Pend>, e: Tree, deep: nat)
    requires e.Entry?
    requires Matches(img, f, off, q)
    requires At(f, off, EntryBytes(e, DirOffset(e, deep)))
    ensures
      var img' := Put(img, off, EntryBytes(e, 0));
      var q' := q + (if e.child.Nil? then [] else [Pend(e, off)]);
      Matches(img', f, off + EntrySize(e), q')
  {
    var img' := Put(img, off, EntryBytes(e, 0));
    var n := if e.child.Nil? then [] else [Pend(e, off)];
    var q' := q + n;
    PutAt(img, off, EntryBytes(e, 0));
    InodeSplit(e, DirOffset(e, deep));
    InodeSplit(e, 0);
    forall i | 0 <= i < off + EntrySize(e) && Clear(q', i)
      ensures img'[i] == f[i]
    {
      forall k | 0 <= k < |q| ensures i < q[k].at + 8 || q[k].at + 12 <= i {
        assert q'[k] == q[k];
      }
      if i >= off {
        assert img'[i] == EntryBytes(e, 0)[i - off];
        assert f[i] == EntryBytes(e, DirOffset(e, deep))[i - off];
        if e.child.Entry? {
          assert q'[|q|] == Pend(e, off);
        }
      } else {
        assert Clear(q, i);
      }
    }
  }

  lemma DirsStep(t: Tree, off: nat)
    requires t.Entry?
    ensures Dirs(t, off) == (if t.child.Nil? then [] else [Pend(t, off)]) + Dirs(t.next, off + EntrySize(t))
    ensures ListSize(t) == EntrySize(t) + ListSize(t.next)
  {
    hide EntrySize;
  }

  /** Writing a listing keeps the agreement with the finished area. */
  lemma {:induction false} ListMatches(img: seq<byte>, f: seq<byte>, off: nat, q: seq<Pend>, t: Tree, deep: nat)
    requires Matches(img, f, off, q) && off + ListSize(t) <= |img|
    requires At(f, off, ListBytes(t, deep)) && At(f, deep, DeepBytes(t, deep))
    ensures Matches(Put(img, off, Listing0(t)), f, off + ListSize(t), q + Dirs(t, off))
    decreases t
  {
    hide EntrySize, TreeSize, Matches, At, EntryBytes, TreeBytes, InodeBytes, Put, ListBytes, DeepBytes, Listing0,
      Dirs, ListSize;
    if t.Nil? {
      EmptyList(img, off, t);
      assert q + [] == q;
    } else {
      var size := EntrySize(t);
      var here := if t.child.Nil? then [] else [Pend(t, off)];
      DirsStep(t, off);
      ListSplit(img, f, off, t, deep);
      EntryStep(img, f, off, q, t, deep);
      ListMatches(Put(img, off, EntryBytes(t, 0)), f, off + size, q + here, t.next, deep + TreeSize(t.child));
      ConcatAssoc(q, here, Dirs(t.next, off + size));
    }
  }

  lemma ReservedStep(img: seq<byte>, f: seq<byte>, off: nat, p: Pend, q: seq<Pend>)
    requires p.e.Entry? && p.e.child.Entry?
    requires At(img, p.at, InodeBytes(InodeOf(p.e, 0))) && At(f, p.at, InodeBytes(InodeOf(p.e, off / 4)))
    requires At(f, off, TreeBytes(p.e.child, off)) && Reserved(img, f, off + TreeSize(p.e.child), q)
    ensures Reserved(img, f, off, [p] + q)
  {
    hide At, InodeBytes, InodeOf, TreeBytes, TreeSize;
    assert ([p] + q)[1..] == q;
  }

  /** The directories of a listing have their areas reserved one after the other. */
  lemma {:induction false} ListReserved(img: seq<byte>, f: seq<byte>, off: nat, t: Tree, deep: nat)
    requires off + ListSize(t) <= |img|
    requires At(f, off, ListBytes(t, deep)) && At(f, deep, DeepBytes(t, deep))
    ensures Reserved(Put(img, off, Listing0(t)), f, deep, Dirs(t, off))
    decreases t
  {
    hide EntrySize, TreeSize, At, EntryBytes, TreeBytes, InodeBytes, InodeOf, Put, ListBytes, DeepBytes, Listing0,
      Dirs, ListSize,
      Reserved;
    if t.Nil? {
      EmptyList(img, off, t);
      NothingReserved(img, f, deep);
    } else {
      var size, d := EntrySize(t), Dirs(t.next, off + EntrySize(t));
      DirsStep(t, off);
      ListSplit(img, f, off, t, deep);
      ListReserved(Put(img, off, EntryBytes(t, 0)), f, off + size, t.next, deep + TreeSize(t.child));
      if t.child.Entry? {
        HeadReserved(img, f, off, t, deep);
        ReservedStep(Put(img, off, Listing0(t)), f, deep, Pend(t, off), d);
      } else {
        EmptyTree(t.child);
        assert [] + d == d;
      }
    }
  }

  lemma NothingReserved(img: seq<byte>, f: seq<byte>, off: nat)
    ensures Reserved(img, f, off, [])
  {
  }

  /** Writing a listing with zero offsets for its directories. */
  lemma {:induction false} ListStep(img: seq<byte>, f: seq<byte>, off: nat, q: seq<Pend>, t: Tree, deep: nat)
    requires Matches(img, f, off, q) && off + ListSize(t) <= |img|
    requires At(f, off, ListBytes(t, deep)) && At(f, deep, DeepBytes(t, deep))
    ensures
      var img' := Put(img, off, Listing0(t));
      Matches(img', f, off + ListSize(t), q + Dirs(t, off)) && Reserved(img', f, deep, Dirs(t, off))
  {
    hide Matches, At, Put, ListBytes, DeepBytes, Listing0, Dirs, ListSize, Reserved;
    ListMatches(img, f, off, q, t, deep);
    ListReserved(img, f, off, t, deep);
  }

  lemma {:induction false} EmptyTree(t: Tree)
    requires t.Nil?
    ensures TreeSize(t) == 0
  {
  }

  lemma {:induction false} EmptyList(img: seq<byte>, off: nat, t: Tree)
    requires t.Nil? && off <= |img|
    ensures ListSize(t) == 0 && Dirs(t, off) == [] && Put(img, off, Listing0(t)) == img
  {
  }

  lemma ListBytesStep(t: Tree, deep: nat)
    requires t.Entry?
    ensures ListBytes(t, deep) == EntryBytes(t, DirOffset(t, deep)) + ListBytes(t.next, deep + TreeSize(t.child))
    ensures DeepBytes(t, deep) == TreeBytes(t.child, deep) + DeepBytes(t.next, deep + TreeSize(t.child))
    ensures Listing0(t) == EntryBytes(t, 0) + Listing0(t.next) && ListSize(t) == EntrySize(t) + ListSize(t.next)
  {
    hide EntryBytes, EntrySize, TreeSize;
  }

  lemma {:induction false} ListSplit(img: seq<byte>, f: seq<byte>, off: nat, t: Tree, deep: nat)
    requires t.Entry?
    requires off + ListSize(t) <= |img|
    requires At(f, off, ListBytes(t, deep)) && At(f, deep, DeepBytes(t, deep))
    ensures At(f, off, EntryBytes(t, DirOffset(t, deep)))
    ensures At(f, off + EntrySize(t), ListBytes(t.next, deep + TreeSize(t.child)))
    ensures At(f, deep, TreeBytes(t.child, deep))
    ensures At(f, deep + TreeSize(t.child), DeepBytes(t.next, deep + TreeSize(t.child)))
    ensures Put(img, off, Listing0(t)) == Put(Put(img, off, EntryBytes(t, 0)), off + EntrySize(t), Listing0(t.next))
  {
    hide EntryBytes, At, EntrySize, InodeBytes, Put, ListBytes, DeepBytes, Listing0, ListSize, TreeBytes, TreeSize;
    ListBytesStep(t, deep);
    AtConcat(f, off, EntryBytes(t, DirOffset(t, deep)), ListBytes(t.next, deep + TreeSize(t.child)));
    AtConcat(f, deep, TreeBytes(t.child, deep), DeepBytes(t.next, deep + TreeSize(t.child)));
    PutConcat(img, off, EntryBytes(t, 0), Listing0(t.next));
  }

  lemma {:induction false} HeadReserved(img: seq<byte>, f: seq<byte>, off: nat, t: Tree, deep: nat)
    requires t.Entry? && t.child.Entry?
    requires off + ListSize(t) <= |img|
    requires At(f, off, EntryBytes(t, DirOffset(t, deep)))
    ensures At(Put(img, off, Listing0(t)), off, InodeBytes(InodeOf(t, 0)))
    ensures At(f, off, InodeBytes(InodeOf(t, deep / 4)))
  {
    var img' := Put(img, off, Listing0(t));
    PutAt(img, off, Listing0(t));
    AtConcat(img', off, EntryBytes(t, 0), Listing0(t.next));
    AtConcat(img', off, InodeBytes(InodeOf(t, 0)), Padded(t.name));
    AtConcat(f, off, InodeBytes(InodeOf(t, deep / 4)), Padded(t.name));
  }

  /** Popping the next directory and patching its offset to the current end of the area. */
  lemma {:induction false} PopStep(img: seq<byte>, f: seq<byte>, off: nat, q: seq<Pend>)
    requires q != []
    requires Matches(img, f, off, q) && Reserved(img, f, off, q)
    requires off / 4 < TWO26
    ensures
      var img' := SetOffset(img, q[0].at, off / 4);
      Matches(img', f, off, q[1..]) && Reserved(img', f, off + TreeSize(Kid(q[0])), q[1..])
  {
    hide TreeSize, InodeBytes, TreeBytes, SetOffset;
    var p := q[0];
    var img' := SetOffset(img, p.at, off / 4);
    SetOffsetAt(img, p.at, p.e, 0, off / 4);
    forall i | 0 <= i < off && Clear(q[1..], i)
      ensures img'[i] == f[i]
    {
      if p.at + 8 <= i < p.at + 12 {
        assert img'[i] == img'[p.at..p.at + 12][i - p.at];
        assert f[i] == f[p.at..p.at + 12][i - p.at];
      } else {
        forall k | 0 <= k < |q| ensures i < q[k].at + 8 || q[k].at + 12 <= i {
          if k > 0 { assert q[1..][k - 1] == q[k]; }
        }
        assert Clear(q, i);
      }
    }
    ReservedFrame(img, img', f, off + TreeSize(Kid(p)), q[1..]);
  }

  lemma {:induction false} MatchesSwap(img: seq<byte>, f: seq<byte>, off: nat, a: seq<Pend>, b: seq<Pend>)
    requires Matches(img, f, off, a + b)
    ensures Matches(img, f, off, b + a)
  {
    var x, y := a + b, b + a;
    forall k | 0 <= k < |y|
      ensures y[k] == x[if k < |b| then |a| + k else k - |b|]
    {
    }
    assert Below(y, off);
    forall j, k | 0 <= j < k < |y|
      ensures y[j].at + 12 <= y[k].at || y[k].at + 12 <= y[j].at
    {
      var j', k' := if j < |b| then |a| + j else j - |b|, if k < |b| then |a| + k else k - |b|;
      assert y[j] == x[j'] && y[k] == x[k'];
      assert j' < k' || k' < j';
    }
    forall i | 0 <= i < off && Clear(y, i)
      ensures Clear(x, i)
    {
      forall k | 0 <= k < |x| ensures i < x[k].at + 8 || x[k].at + 12 <= i {
        assert x[k] == y[if k < |a| then |b| + k else k - |a|];
      }
    }
  }

  /** The state after a listing has been written and its directories queued in front. */
  lemma {:induction false} AfterListing(img: seq<byte>, f: seq<byte>, off: nat, q: seq<Pend>, e: Tree)
    requires Matches(img, f, off, q) && off + ListSize(e) <= |img|
    requires Reserved(img, f, off + TreeSize(e), q)
    requires At(f, off, TreeBytes(e, off))
    ensures
      var img' := Put(img, off, Listing0(e));
      var end := off + ListSize(e);
      Matches(img', f, end, Dirs(e, off) + q) && Reserved(img', f, end, Dirs(e, off) + q)
    ensures Area(Dirs(e, off) + q) == DeepSize(e) + Area(q)
  {
    hide ListBytes, DeepBytes, Dirs, Area, Reserved, Listing0, Put, At;
    var end := off + ListSize(e);
    var d := Dirs(e, off);
    AtConcat(f, off, ListBytes(e, end), DeepBytes(e, end));
    ListStep(img, f, off, q, e, end);
    AreaDirs(e, off);
    AreaConcat(d, q);
    var img' := Put(img, off, Listing0(e));
    MatchesSwap(img', f, end, q, d);
    ReservedFrame(img, img', f, off + TreeSize(e), q);
    ReservedConcat(img', f, end, d, q);
  }
}
