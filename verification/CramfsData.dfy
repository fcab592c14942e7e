/** mkcramfs: storing file data and pointing the inodes at it. */
module CramfsData {
  import opened Bytes
  import opened CramfsFormat
  import opened CramfsLayout
  import opened CramfsDedup

  /** How the sizes of a listing and of the area below it add up. */
  lemma {:induction false} SizeFacts(t: Tree)
    requires t.Entry?
    ensures ListSize(t) == EntrySize(t) + ListSize(t.next) && EntrySize(t) >= INODE_SIZE
    ensures TreeSize(t.child) == ListSize(t.child) + DeepSize(t.child)
    ensures DeepSize(t) == TreeSize(t.child) + DeepSize(t.next)
    ensures ListSize(t.child) % 4 == 0 && DeepSize(t.child) % 4 == 0 && TreeSize(t.child) % 4 == 0
  {
    Aligned(t.child);
  }

  // ---- the recorded positions ----

  /** m records every entry of the listing at off whose directories are listed from deep on. */
  ghost predicate Placed(m: map<nat, nat>, t: Tree, off: nat, deep: nat) {
    t.Entry? ==>
      && t.id in m && m[t.id] == off
      && Placed(m, t.child, deep, deep + ListSize(t.child))
      && Placed(m, t.next, off + EntrySize(t), deep + TreeSize(t.child))
  }

  ghost predicate Within(part: map<nat, nat>, m: map<nat, nat>) {
    forall k :: k in part ==> k in m && m[k] == part[k]
  }

  /** The entries of one listing, and those below it. */
  function Row(t: Tree): set<nat> {
    if t.Nil? then {} else {t.id} + Row(t.next)
  }

  function Under(t: Tree): set<nat> {
    if t.Nil? then {} else Ids(t.child) + Under(t.next)
  }

  lemma {:induction false} RowUnder(t: Tree)
    requires Unique(t)
    ensures Row(t) !! Under(t) && Row(t) + Under(t) == Ids(t)
  {
    if t.Entry? {
      RowUnder(t.next);
    }
  }

  lemma {:induction false} ListKeys(t: Tree, off: nat)
    ensures ListPos(t, off).Keys == Row(t)
  {
    hide EntrySize;
    if t.Entry? {
      ListKeys(t.next, off + EntrySize(t));
    }
  }

  lemma {:induction false} DeepKeys(t: Tree, deep: nat)
    requires Unique(t)
    ensures DeepPos(t, deep).Keys == Under(t)
  {
    hide EntrySize, TreeSize, ListSize, ListPos, DeepPos;
    if t.Nil? {
      assert DeepPos(Nil, deep) == map[] by { NoDeep(deep); }
    } else {
      var end := deep + ListSize(t.child);
      var n := deep + TreeSize(t.child);
      PosUnfold(t, 0, deep);
      ListKeys(t.child, deep);
      DeepKeys(t.child, end);
      DeepKeys(t.next, n);
      RowUnder(t.child);
      KeysOf3(ListPos(t.child, deep), DeepPos(t.child, end), DeepPos(t.next, n));
    }
  }

  lemma NoDeep(deep: nat)
    ensures DeepPos(Nil, deep) == map[]
  {
  }

  lemma KeysOf3(a: map<nat, nat>, b: map<nat, nat>, c: map<nat, nat>)
    ensures (a + b + c).Keys == a.Keys + b.Keys + c.Keys
  {
  }

  lemma {:induction false} WithinSplit(a: map<nat, nat>, b: map<nat, nat>, m: map<nat, nat>)
    requires a.Keys !! b.Keys && Within(a + b, m)
    ensures Within(a, m) && Within(b, m)
  {
    forall k | k in a ensures k in m && m[k] == a[k] {
      assert k in a.Keys && k in a + b;
    }
    forall k | k in b ensures k in m && m[k] == b[k] {
      assert k in a + b;
    }
  }

  lemma {:induction false} PlacedParts(m: map<nat, nat>, t: Tree, off: nat, deep: nat)
    requires t.Entry? && Unique(t)
    requires Within(ListPos(t, off), m) && Within(DeepPos(t, deep), m)
    ensures t.id in m && m[t.id] == off
    ensures Within(ListPos(t.child, deep), m) && Within(DeepPos(t.child, deep + ListSize(t.child)), m)
    ensures Within(ListPos(t.next, off + EntrySize(t)), m) && Within(DeepPos(t.next, deep + TreeSize(t.child)), m)
  {
    hide EntrySize, TreeSize, ListSize, Within, ListPos, DeepPos;
    var end := deep + ListSize(t.child);
    var n := deep + TreeSize(t.child);
    var l, d, after := ListPos(t.child, deep), DeepPos(t.child, end), DeepPos(t.next, n);
    var here, row := map[t.id := off], ListPos(t.next, off + EntrySize(t));
    PosUnfold(t, off, deep);
    PartKeys(t, off, deep);
    WithinSplit(l + d, after, m);
    WithinSplit(l, d, m);
    WithinSplit(here, row, m);
    PlacedHead(t.id, off, m);
  }

  lemma {:induction false} PosUnfold(t: Tree, off: nat, deep: nat)
    requires t.Entry?
    ensures ListPos(t, off) == map[t.id := off] + ListPos(t.next, off + EntrySize(t))
    ensures
      DeepPos(t, deep) ==
      ListPos(t.child, deep) + DeepPos(t.child, deep + ListSize(t.child)) + DeepPos(t.next, deep + TreeSize(t.child))
  {
    hide EntrySize, TreeSize, ListSize, ListPos, DeepPos;
    ListPosUnfold(t, off);
    DeepPosUnfold(t, deep);
  }

  lemma ListPosUnfold(t: Tree, off: nat)
    requires t.Entry?
    ensures ListPos(t, off) == map[t.id := off] + ListPos(t.next, off + EntrySize(t))
  {
    hide EntrySize;
  }

  lemma DeepPosUnfold(t: Tree, deep: nat)
    requires t.Entry?
    ensures DeepPos(t, deep) ==
      ListPos(t.child, deep) + DeepPos(t.child, deep + ListSize(t.child)) + DeepPos(t.next, deep + TreeSize(t.child))
  {
    hide ListPos, ListSize, TreeSize;
  }

  lemma {:induction false} PartKeys(t: Tree, off: nat, deep: nat)
    requires t.Entry? && Unique(t)
    ensures
      var l, d := ListPos(t.child, deep), DeepPos(t.child, deep + ListSize(t.child));
      l.Keys !! d.Keys && (l + d).Keys !! DeepPos(t.next, deep + TreeSize(t.child)).Keys
    ensures map[t.id := off].Keys !! ListPos(t.next, off + EntrySize(t)).Keys
  {
    hide EntrySize, TreeSize, ListSize, ListPos, DeepPos;
    var l, d := ListPos(t.child, deep), DeepPos(t.child, deep + ListSize(t.child));
    ListKeys(t.child, deep);
    DeepKeys(t.child, deep + ListSize(t.child));
    DeepKeys(t.next, deep + TreeSize(t.child));
    RowUnder(t.child);
    RowUnder(t.next);
    ListKeys(t.next, off + EntrySize(t));
    assert (l + d).Keys == l.Keys + d.Keys;
  }

  lemma {:induction false} PlacedAll(m: map<nat, nat>, t: Tree, off: nat, deep: nat)
    requires Unique(t)
    requires Within(ListPos(t, off), m) && Within(DeepPos(t, deep), m)
    ensures Placed(m, t, off, deep)
    decreases t
  {
    hide EntrySize, TreeSize, ListSize, Within, ListPos, DeepPos;
    if t.Entry? {
      PlacedParts(m, t, off, deep);
      PlacedAll(m, t.child, deep, deep + ListSize(t.child));
      PlacedAll(m, t.next, off + EntrySize(t), deep + TreeSize(t.child));
    }
  }

  lemma PlacedHead(id: nat, off: nat, m: map<nat, nat>)
    requires Within(map[id := off], m)
    ensures id in m && m[id] == off
  {
    assert id in map[id := off];
  }

  /** An entry's inode lies in the listing or in the area below it. */
  lemma {:induction false} InRange(m: map<nat, nat>, t: Tree, off: nat, deep: nat, id: nat)
    requires Placed(m, t, off, deep) && id in Ids(t)
    ensures id in m
    ensures
      || off <= m[id] <= off + ListSize(t) - INODE_SIZE
      || deep <= m[id] <= deep + DeepSize(t) - INODE_SIZE
    decreases t
  {
    hide EntrySize, TreeSize, ListSize, DeepSize;
    SizeFacts(t);
    if id == t.id {
    } else if id in Ids(t.child) {
      InRange(m, t.child, deep, deep + ListSize(t.child), id);
    } else {
      InRange(m, t.next, off + EntrySize(t), deep + TreeSize(t.child), id);
    }
  }

  /** No two inodes overlap. */
  lemma {:induction false} Spread(m: map<nat, nat>, t: Tree, off: nat, deep: nat, a: nat, b: nat)
    requires Placed(m, t, off, deep) && Unique(t) && off + ListSize(t) <= deep
    requires a in Ids(t) && b in Ids(t) && a != b
    ensures a in m && b in m
    ensures m[a] + INODE_SIZE <= m[b] || m[b] + INODE_SIZE <= m[a]
    decreases t
  {
    hide EntrySize, TreeSize, ListSize, DeepSize;
    SizeFacts(t);
    var c, n := t.child, t.next;
    if a in Ids(c) {
      InRange(m, c, deep, deep + ListSize(c), a);
    } else if a in Ids(n) {
      InRange(m, n, off + EntrySize(t), deep + TreeSize(c), a);
    }
    if b in Ids(c) {
      InRange(m, c, deep, deep + ListSize(c), b);
    } else if b in Ids(n) {
      InRange(m, n, off + EntrySize(t), deep + TreeSize(c), b);
    }
    if a in Ids(c) && b in Ids(c) {
      Spread(m, c, deep, deep + ListSize(c), a, b);
    } else if a in Ids(n) && b in Ids(n) {
      Spread(m, n, off + EntrySize(t), deep + TreeSize(c), a, b);
    }
  }

  // ---- the listings as a reader finds them ----

  /** The inode of e stands at off, whatever its offset field holds. */
  ghost predicate InodeHere(img: seq<byte>, off: nat, e: Tree)
    requires e.Entry?
  {
    off + INODE_SIZE <= |img| && At(img, off, InodeBytes(InodeOf(e, ReadInode(img, off).offset)))
  }

  ghost predicate Laid(img: seq<byte>, t: Tree, off: nat, deep: nat) {
    t.Entry? ==>
      && InodeHere(img, off, t)
      && At(img, off + INODE_SIZE, Padded(t.name))
      && (t.child.Entry? ==> 4 * ReadInode(img, off).offset == deep)
      && (t.child.Nil? && !HasSig(t) ==> ReadInode(img, off).offset == 0)
      && Laid(img, t.child, deep, deep + ListSize(t.child))
      && Laid(img, t.next, off + EntrySize(t), deep + TreeSize(t.child))
  }

  lemma {:induction false} EntryHere(img: seq<byte>, off: nat, e: Tree, o: nat)
    requires e.Entry? && o < TWO26
    requires At(img, off, EntryBytes(e, o))
    ensures InodeHere(img, off, e) && ReadInode(img, off).offset == o
    ensures At(img, off + INODE_SIZE, Padded(e.name))
  {
    hide InodeBytes, ReadInode;
    AtConcat(img, off, InodeBytes(InodeOf(e, o)), Padded(e.name));
    InodeRoundTrip(img, off, InodeOf(e, o));
  }

  lemma {:induction false} LaidEntry(img: seq<byte>, t: Tree, off: nat, deep: nat)
    requires t.Entry? && deep % 4 == 0 && (t.child.Entry? ==> deep < TWO28)
    requires At(img, off, EntryBytes(t, DirOffset(t, deep)))
    requires Laid(img, t.child, deep, deep + ListSize(t.child))
    requires Laid(img, t.next, off + EntrySize(t), deep + TreeSize(t.child))
    ensures Laid(img, t, off, deep)
  {
    hide At, InodeHere, EntryBytes, EntrySize, InodeBytes, ReadInode, ListSize, TreeSize, DirOffset, Padded;
    DirOffsetFits(t, deep);
    EntryHere(img, off, t, DirOffset(t, deep));
  }

  /** What the first entry's directory and the rest of the listing need to be laid out in their turn. */
  lemma {:induction false} BytesParts(img: seq<byte>, t: Tree, off: nat, deep: nat)
    requires t.Entry? && off + ListSize(t) <= |img| && deep % 4 == 0
    requires At(img, off, ListBytes(t, deep)) && At(img, deep, DeepBytes(t, deep))
    ensures At(img, off, EntryBytes(t, DirOffset(t, deep)))
    ensures var end := deep + ListSize(t.child);
      end <= |img| && At(img, deep, ListBytes(t.child, end)) && At(img, end, DeepBytes(t.child, end)) && end % 4 == 0
    ensures var at, end := off + EntrySize(t), deep + TreeSize(t.child);
      at + ListSize(t.next) <= |img| && At(img, at, ListBytes(t.next, end)) && At(img, end, DeepBytes(t.next, end)) &&
      end % 4 == 0
  {
    hide At, EntryBytes, EntrySize, ListBytes, DeepBytes, ListSize, DeepSize, TreeSize, TreeBytes, DirOffset;
    hide Listing0, Put;
    ListSplit(img, img, off, t, deep);
    TreeParts(img, t.child, deep);
    SizeFacts(t);
    Sum4(deep, ListSize(t.child), 0);
    Sum4(deep, TreeSize(t.child), 0);
  }

  lemma {:induction false} LaidFromBytes(img: seq<byte>, t: Tree, off: nat, deep: nat)
    requires off + ListSize(t) <= |img|
    requires At(img, off, ListBytes(t, deep)) && At(img, deep, DeepBytes(t, deep))
    requires Addressable(t, deep) && deep % 4 == 0
    ensures Laid(img, t, off, deep)
    decreases t
  {
    hide At, EntryBytes, EntrySize, ListBytes, DeepBytes, ListSize, DeepSize, TreeSize, TreeBytes, Addressable;
    hide DirOffset;
    if t.Entry? {
      hide Laid;
      AddressableStep(t, deep);
      BytesParts(img, t, off, deep);
      LaidFromBytes(img, t.child, deep, deep + ListSize(t.child));
      LaidFromBytes(img, t.next, off + EntrySize(t), deep + TreeSize(t.child));
      LaidEntry(img, t, off, deep);
    }
  }

  lemma {:induction false} TreeParts(img: seq<byte>, t: Tree, off: nat)
    requires At(img, off, TreeBytes(t, off))
    ensures off + TreeSize(t) <= |img|
    ensures At(img, off, ListBytes(t, off + ListSize(t)))
    ensures At(img, off + ListSize(t), DeepBytes(t, off + ListSize(t)))
  {
    hide ListBytes, DeepBytes;
    AtConcat(img, off, ListBytes(t, off + ListSize(t)), DeepBytes(t, off + ListSize(t)));
  }

  lemma {:induction false} DirOffsetFits(t: Tree, deep: nat)
    requires t.Entry? && deep % 4 == 0 && (t.child.Entry? ==> deep < TWO28)
    ensures DirOffset(t, deep) < TWO26
    ensures t.child.Entry? ==> 4 * DirOffset(t, deep) == deep
    ensures t.child.Nil? ==> DirOffset(t, deep) == 0
  {
  }

  // ---- patching data offsets ----

  lemma {:induction false} SetOffsetRead(img: seq<byte>, at: nat, o: nat)
    requires at + INODE_SIZE <= |img| && o < TWO26
    ensures ReadInode(SetOffset(img, at, o), at).offset == o
  {
    var img' := SetOffset(img, at, o);
    var lo := Word(img, at + 8) % 64;
    Fields6(lo, o);
    PutAt(img, at + 8, Le32(lo + 64 * o));
    hide Word, Le32;
    WordOfLe32(img', at + 8, lo + 64 * o);
  }

  lemma {:induction false} ReadKeep(img: seq<byte>, img': seq<byte>, at: nat)
    requires at + INODE_SIZE <= |img| == |img'|
    requires forall i :: at <= i < at + INODE_SIZE ==> img'[i] == img[i]
    ensures ReadInode(img', at) == ReadInode(img, at)
  {
  }

  lemma {:induction false} HereKeep(img: seq<byte>, img': seq<byte>, off: nat, e: Tree)
    requires e.Entry? && InodeHere(img, off, e) && |img'| == |img|
    requires forall i :: off <= i < off + INODE_SIZE ==> img'[i] == img[i]
    ensures InodeHere(img', off, e)
  {
    hide InodeBytes;
    ReadKeep(img, img', off);
    AtFrame(img, img', off, InodeBytes(InodeOf(e, ReadInode(img, off).offset)));
  }

  lemma {:induction false} HerePatched(img: seq<byte>, off: nat, e: Tree, o: nat)
    requires e.Entry? && InodeHere(img, off, e) && o < TWO26
    ensures InodeHere(SetOffset(img, off, o), off, e)
  {
    hide InodeBytes, SetOffset, ReadInode;
    SetOffsetAt(img, off, e, ReadInode(img, off).offset, o);
    SetOffsetRead(img, off, o);
  }

  ghost predicate Agree(img: seq<byte>, img': seq<byte>, lo: int, hi: int) {
    |img'| == |img| && forall i :: lo <= i < hi && 0 <= i < |img| ==> img'[i] == img[i]
  }

  lemma {:induction false} EntryKeep(img: seq<byte>, img': seq<byte>, off: nat, e: Tree)
    requires e.Entry? && InodeHere(img, off, e) && At(img, off + INODE_SIZE, Padded(e.name))
    requires Agree(img, img', off, off + EntrySize(e))
    ensures InodeHere(img', off, e) && At(img', off + INODE_SIZE, Padded(e.name))
    ensures ReadInode(img', off) == ReadInode(img, off)
  {
    hide InodeHere, ReadInode;
    assert off + INODE_SIZE <= |img| by { HereBound(img, off, e); }
    HereKeep(img, img', off, e);
    ReadKeep(img, img', off);
    AtFrame(img, img', off + INODE_SIZE, Padded(e.name));
  }

  lemma {:induction false} HereBound(img: seq<byte>, off: nat, e: Tree)
    requires e.Entry? && InodeHere(img, off, e)
    ensures off + INODE_SIZE <= |img|
  {
    hide InodeBytes, ReadInode;
  }

  /** Listings survive writes elsewhere. */
  lemma {:induction false} LaidKeep(img: seq<byte>, img': seq<byte>, t: Tree, off: nat, deep: nat)
    requires Laid(img, t, off, deep)
    requires Agree(img, img', off, off + ListSize(t)) && Agree(img, img', deep, deep + DeepSize(t))
    ensures Laid(img', t, off, deep)
    decreases t
  {
    hide EntrySize, TreeSize, ListSize, DeepSize, At, InodeHere, ReadInode;
    if t.Entry? {
      SizeFacts(t);
      EntryKeep(img, img', off, t);
      LaidKeep(img, img', t.child, deep, deep + ListSize(t.child));
      LaidKeep(img, img', t.next, off + EntrySize(t), deep + TreeSize(t.child));
    }
  }

  lemma {:induction false} SigSub(t: Tree)
    ensures SigIds(t) <= Ids(t)
  {
    if t.Entry? {
      SigSub(t.child);
      SigSub(t.next);
    }
  }

  lemma {:induction false} PatchHead(img: seq<byte>, t: Tree, off: nat, deep: nat, o: nat)
    requires t.Entry? && t.child.Nil? && HasSig(t) && Laid(img, t, off, deep)
    requires off + ListSize(t) <= deep && o < TWO26
    ensures off + INODE_SIZE <= |img| && Laid(SetOffset(img, off, o), t, off, deep)
  {
    hide EntrySize, TreeSize, ListSize, DeepSize, InodeHere, ReadInode, SetOffset;
    SizeFacts(t);
    HereBound(img, off, t);
    var img' := SetOffset(img, off, o);
    HerePatched(img, off, t, o);
    AtFrame(img, img', off + INODE_SIZE, Padded(t.name));
    LaidKeep(img, img', t.next, off + EntrySize(t), deep + TreeSize(t.child));
  }

  lemma {:induction false} PatchChild(img: seq<byte>, t: Tree, off: nat, deep: nat, at: nat, o: nat)
    requires t.Entry? && Laid(img, t, off, deep)
    requires off + ListSize(t) <= deep <= at && at + INODE_SIZE <= deep + TreeSize(t.child)
    requires at + INODE_SIZE <= |img| && o < TWO26
    requires Laid(SetOffset(img, at, o), t.child, deep, deep + ListSize(t.child))
    ensures Laid(SetOffset(img, at, o), t, off, deep)
  {
    hide EntrySize, TreeSize, ListSize, DeepSize, At, InodeHere, ReadInode, SetOffset;
    SizeFacts(t);
    var img' := SetOffset(img, at, o);
    EntryKeep(img, img', off, t);
    LaidKeep(img, img', t.next, off + EntrySize(t), deep + TreeSize(t.child));
  }

  lemma {:induction false} PatchNext(img: seq<byte>, t: Tree, off: nat, deep: nat, at: nat, o: nat)
    requires t.Entry? && Laid(img, t, off, deep)
    requires off + ListSize(t) <= deep
    requires
      || off + EntrySize(t) <= at <= off + ListSize(t) - INODE_SIZE
      || deep + TreeSize(t.child) <= at
    requires at + INODE_SIZE <= |img| && o < TWO26
    requires Laid(SetOffset(img, at, o), t.next, off + EntrySize(t), deep + TreeSize(t.child))
    ensures Laid(SetOffset(img, at, o), t, off, deep)
  {
    hide EntrySize, TreeSize, ListSize, DeepSize, At, InodeHere, ReadInode, SetOffset;
    SizeFacts(t);
    var img' := SetOffset(img, at, o);
    EntryKeep(img, img', off, t);
    LaidKeep(img, img', t.child, deep, deep + ListSize(t.child));
  }

  /** Listings survive setting the data offset of one of their files. */
  lemma {:induction false} LaidPatch(img: seq<byte>, m: map<nat, nat>, t: Tree, off: nat, deep: nat, id: nat, o: nat)
    requires Laid(img, t, off, deep) && Placed(m, t, off, deep) && Valid(t)
    requires off + ListSize(t) <= deep && o < TWO26
    requires id in SigIds(t)
    ensures id in m && m[id] + INODE_SIZE <= |img|
    ensures Laid(SetOffset(img, m[id], o), t, off, deep)
    decreases t
  {
    hide EntrySize, TreeSize, ListSize, DeepSize, At, InodeHere, ReadInode, ValidEntry, SetOffset, Ids, Laid, Placed,
      SigIds, Valid;
    SigParts(t, id);
    SizeFacts(t);
    LaidParts(img, t, off, deep);
    PlacedHere(m, t, off, deep);
    var c, n := t.child, t.next;
    SigSub(c);
    SigSub(n);
    if HasSig(t) && id == t.id {
      NoKids(t) by { ValidHere(t); }
      PatchHead(img, t, off, deep, o);
    } else if id in SigIds(c) {
      ValidHere(t);
      InRange(m, c, deep, deep + ListSize(c), id);
      LaidPatch(img, m, c, deep, deep + ListSize(c), id, o);
      PatchChild(img, t, off, deep, m[id], o);
    } else {
      ValidHere(t);
      InRange(m, n, off + EntrySize(t), deep + TreeSize(c), id);
      LaidPatch(img, m, n, off + EntrySize(t), deep + TreeSize(c), id, o);
      PatchNext(img, t, off, deep, m[id], o);
    }
  }

  lemma SigParts(t: Tree, id: nat)
    requires id in SigIds(t)
    ensures t.Entry? && ((HasSig(t) && id == t.id) || id in SigIds(t.child) || id in SigIds(t.next))
  {
  }

  lemma ValidHere(t: Tree)
    requires t.Entry? && Valid(t)
    ensures ValidEntry(t) && Valid(t.child) && Valid(t.next)
  {
    hide ValidEntry;
  }

  lemma LaidParts(img: seq<byte>, t: Tree, off: nat, deep: nat)
    requires t.Entry? && Laid(img, t, off, deep)
    ensures InodeHere(img, off, t) && At(img, off + INODE_SIZE, Padded(t.name))
    ensures t.child.Entry? ==> off + INODE_SIZE <= |img| && 4 * ReadInode(img, off).offset == deep
    ensures t.child.Nil? && !HasSig(t) ==> off + INODE_SIZE <= |img| && ReadInode(img, off).offset == 0
    ensures Laid(img, t.child, deep, deep + ListSize(t.child))
    ensures Laid(img, t.next, off + EntrySize(t), deep + TreeSize(t.child))
  {
    hide EntrySize, TreeSize, ListSize, ReadInode, InodeBytes;
  }

  lemma PlacedHere(m: map<nat, nat>, t: Tree, off: nat, deep: nat)
    requires t.Entry? && Placed(m, t, off, deep)
    ensures t.id in m && m[t.id] == off && Placed(m, t.child, deep, deep + ListSize(t.child))
    ensures Placed(m, t.next, off + EntrySize(t), deep + TreeSize(t.child))
  {
    hide EntrySize, TreeSize, ListSize;
  }

  lemma {:induction false} NoKids(t: Tree)
    requires t.Entry? && ValidEntry(t) && HasSig(t)
    ensures t.child.Nil? && t.size == |t.data| && t.data != []
  {
  }

  // ---- the files stored so far ----

  /** Every entry with a recorded offset points at its own data, all of which lies in [lo, hi). */
  ghost predicate Stored(img: seq<byte>, z: Codec, m: map<nat, nat>, offs: map<nat, nat>,
                         content: map<nat, seq<byte>>, lo: nat, hi: nat)
  {
    forall id :: id in offs ==> FileStored(img, z, m, offs[id], content, id, lo, hi)
  }

  ghost predicate FileStored(img: seq<byte>, z: Codec, m: map<nat, nat>, o: nat, content: map<nat, seq<byte>>,
                             id: nat, lo: nat, hi: nat)
  {
    && id in m && id in content
    && m[id] + INODE_SIZE <= lo <= o < TWO28 && o % 4 == 0 && o + FileSize(z, content[id]) <= hi <= |img|
    && 4 * ReadInode(img, m[id]).offset == o
    && FileAt(img, z, content[id], o)
  }

  lemma {:induction false} StoredKeep(img: seq<byte>, img': seq<byte>, z: Codec, m: map<nat, nat>, offs: map<nat, nat>,
                                      content: map<nat, seq<byte>>, lo: nat, hi: nat, hi': nat)
    requires Stored(img, z, m, offs, content, lo, hi)
    requires hi <= hi' <= |img| && Agree(img, img', 0, hi)
    ensures Stored(img', z, m, offs, content, lo, hi')
  {
    forall id | id in offs
      ensures FileStored(img', z, m, offs[id], content, id, lo, hi')
    {
      hide ReadInode, FileAt, FileSize;
      var o := offs[id];
      assert FileStored(img, z, m, o, content, id, lo, hi);
      ReadKeep(img, img', m[id]);
      FileAtFrame(img, img', z, content[id], o);
    }
  }

  /** Changing the offset in entry x's inode leaves all other entries stored. */
  lemma {:induction false} StoredElsewhere(img: seq<byte>, z: Codec, m: map<nat, nat>, offs: map<nat, nat>,
                                           content: map<nat, seq<byte>>, lo: nat, hi: nat, x: nat, w: nat)
    requires Stored(img, z, m, offs, content, lo, hi) && x in m && m[x] + INODE_SIZE <= lo <= |img| && w < TWO26
    requires forall id :: id in offs && id in m && id != x ==>
      m[id] + INODE_SIZE <= m[x] || m[x] + INODE_SIZE <= m[id]
    ensures Stored(SetOffset(img, m[x], w), z, m, offs - {x}, content, lo, hi)
  {
    var img' := SetOffset(img, m[x], w);
    hide ReadInode, FileAt, FileSize, SetOffset;
    forall id | id in offs && id != x ensures FileStored(img', z, m, offs[id], content, id, lo, hi) {
      assert FileStored(img, z, m, offs[id], content, id, lo, hi);
      ReadKeep(img, img', m[id]);
      FileAtFrame(img, img', z, content[id], offs[id]);
    }
  }

  lemma {:induction false} StoredAdd(img: seq<byte>, z: Codec, m: map<nat, nat>, offs: map<nat, nat>,
                                     content: map<nat, seq<byte>>, lo: nat, hi: nat, x: nat, o: nat)
    requires Stored(img, z, m, offs - {x}, content, lo, hi) && FileStored(img, z, m, o, content, x, lo, hi)
    ensures Stored(img, z, m, offs[x := o], content, lo, hi)
  {
    hide FileStored;
    var offs' := offs[x := o];
    forall id | id in offs' ensures FileStored(img, z, m, offs'[id], content, id, lo, hi) {
      assert id != x ==> id in offs - {x};
    }
  }

  /** Pointing entry x at a stored file keeps all others. */
  lemma {:induction false} StoredPatch(img: seq<byte>, z: Codec, m: map<nat, nat>, offs: map<nat, nat>,
                                       content: map<nat, seq<byte>>, lo: nat, hi: nat, x: nat, o: nat)
    requires Stored(img, z, m, offs, content, lo, hi)
    requires x in m && x in content && m[x] + INODE_SIZE <= lo <= o < TWO28 && o % 4 == 0
    requires o + FileSize(z, content[x]) <= hi <= |img| && FileAt(img, z, content[x], o)
    requires forall id :: id in offs && id in m && id != x ==>
      m[id] + INODE_SIZE <= m[x] || m[x] + INODE_SIZE <= m[id]
    ensures Stored(SetOffset(img, m[x], o / 4), z, m, offs[x := o], content, lo, hi)
  {
    hide ReadInode, FileAt, FileSize, SetOffset, Stored;
    var img' := SetOffset(img, m[x], o / 4);
    StoredElsewhere(img, z, m, offs, content, lo, hi, x, o / 4);
    SetOffsetRead(img, m[x], o / 4);
    FileAtFrame(img, img', z, content[x], o);
    StoredAdd(img', z, m, offs, content, lo, hi, x, o);
  }

  /** Pointing entry x at a file that is then written at hi. */
  lemma {:induction false} StoreNew(img: seq<byte>, img': seq<byte>, z: Codec, m: map<nat, nat>, offs: map<nat, nat>,
                                    content: map<nat, seq<byte>>, lo: nat, hi: nat, hi': nat, x: nat)
    requires Stored(img, z, m, offs, content, lo, hi)
    requires x in m && x in content && x !in offs && m[x] + INODE_SIZE <= lo <= hi < TWO28 && hi % 4 == 0
    requires hi + FileSize(z, content[x]) <= hi' <= |img|
    requires Agree(SetOffset(img, m[x], hi / 4), img', 0, hi) && FileAt(img', z, content[x], hi)
    requires forall id :: id in offs && id in m && id != x ==>
      m[id] + INODE_SIZE <= m[x] || m[x] + INODE_SIZE <= m[id]
    ensures Stored(img', z, m, offs[x := hi], content, lo, hi')
  {
    hide ReadInode, FileAt, FileSize, SetOffset, Stored;
    var mid := SetOffset(img, m[x], hi / 4);
    StoredElsewhere(img, z, m, offs, content, lo, hi, x, hi / 4);
    StoredKeep(mid, img', z, m, offs - {x}, content, lo, hi, hi');
    SetOffsetRead(img, m[x], hi / 4);
    ReadKeep(mid, img', m[x]);
    StoredAdd(img', z, m, offs, content, lo, hi', x, hi);
  }

  // ---- one file ----

  lemma {:induction false} TableStep(z: Codec, data: seq<byte>, curr: nat)
    requires data != []
    ensures
      var c := z.compress(Head(data));
      && Table(z, data, curr) == Le32(curr + |c|) + Table(z, Rest(data), curr + |c|)
      && Packed(z, data) == c + Packed(z, Rest(data))
      && Blocks(|data|) == 1 + Blocks(|Rest(data)|)
      && |Rest(data)| < |data|
  {
    hide Le32;
    HeadRest(data);
  }

  /** Writing one more block and its end pointer. */
  lemma {:induction false} BlockStep(img: seq<byte>, off: nat, start: nat, tab: seq<byte>, pack: seq<byte>,
                                     c: seq<byte>, p: seq<byte>)
    requires At(img, off, tab) && At(img, start, pack)
    requires off + |tab| + |p| <= start && start + |pack| + |c| <= |img|
    ensures
      var img' := Put(Put(img, start + |pack|, c), off + |tab|, p);
      At(img', off, tab + p) && At(img', start, pack + c)
  {
    var mid := Put(img, start + |pack|, c);
    var img' := Put(mid, off + |tab|, p);
    PutAt(img, start + |pack|, c);
    PutAt(mid, off + |tab|, p);
    AtFrame(img, img', off, tab);
    AtFrame(img, img', start, pack);
    AtFrame(mid, img', start + |pack|, c);
    AtConcat(img', off, tab, p);
    AtConcat(img', start, pack, c);
  }

  function DataRoom(z: Codec, t: Tree): nat {
    if t.Nil? then 0
    else (if HasSig(t) then FileSize(z, t.data) + 3 else 0) + DataRoom(z, t.child) + DataRoom(z, t.next)
  }

  /** The aligned end of the data of a file that is written at off; a linked file takes no room. */
  function FileEnd(z: Codec, same: map<nat, nat>, e: Tree, off: nat): nat
    requires e.Entry?
  {
    if e.id in same then off else (off + FileSize(z, e.data) + 3) / 4 * 4
  }

  /** Where the data of the entries from t on ends when it starts at off. */
  function DataEnd(z: Codec, same: map<nat, nat>, t: Tree, off: nat): nat
    decreases t
  {
    if t.Nil? then off
    else if HasSig(t) then DataEnd(z, same, t.next, FileEnd(z, same, t, off))
    else DataEnd(z, same, t.next, DataEnd(z, same, t.child, off))
  }

  /** Every file that takes room starts where an inode can point. */
  predicate DataFits(z: Codec, same: map<nat, nat>, t: Tree, off: nat)
    decreases t
  {
    if t.Nil? then true
    else if HasSig(t) then
      (t.id in same || off < TWO28) && DataFits(z, same, t.next, FileEnd(z, same, t, off))
    else
      DataFits(z, same, t.child, off) && DataFits(z, same, t.next, DataEnd(z, same, t.child, off))
  }

  lemma DataStep(z: Codec, same: map<nat, nat>, t: Tree, off: nat)
    ensures t.Nil? ==> DataEnd(z, same, t, off) == off && DataFits(z, same, t, off)
    ensures t.Entry? && HasSig(t) ==>
      var end := FileEnd(z, same, t, off);
      && DataEnd(z, same, t, off) == DataEnd(z, same, t.next, end)
      && (DataFits(z, same, t, off) <==> (t.id in same || off < TWO28) && DataFits(z, same, t.next, end))
    ensures t.Entry? && !HasSig(t) ==>
      var end := DataEnd(z, same, t.child, off);
      && DataEnd(z, same, t, off) == DataEnd(z, same, t.next, end)
      && (DataFits(z, same, t, off) <==> DataFits(z, same, t.child, off) && DataFits(z, same, t.next, end))
  {
    hide FileEnd, FileSize;
  }

  lemma {:induction false} RoomFits(z: Codec, same: map<nat, nat>, t: Tree, off: nat)
    ensures DataEnd(z, same, t, off) <= off + DataRoom(z, t)
    ensures off + DataRoom(z, t) <= TWO28 ==> DataFits(z, same, t, off)
    decreases t
  {
    hide FileSize;
    if t.Entry? {
      DataStep(z, same, t, off);
      if HasSig(t) {
        RoomFits(z, same, t.next, FileEnd(z, same, t, off));
      } else {
        RoomFits(z, same, t.child, off);
        RoomFits(z, same, t.next, DataEnd(z, same, t.child, off));
      }
    }
  }

  /** content holds the data of every entry of t. */
  ghost predicate Holds(content: map<nat, seq<byte>>, t: Tree) {
    t.Entry? ==> t.id in content && content[t.id] == t.data && Holds(content, t.child) && Holds(content, t.next)
  }

  // ---- what write_data maintains ----

  /** The tree that has been laid out from SUPER_SIZE on, and the data of its entries. */
  datatype Job = Job(list: Tree, content: map<nat, seq<byte>>)
  {
    function Lo(): nat { SUPER_SIZE + TreeSize(list) }

    ghost predicate Sound(m: map<nat, nat>) {
      && Placed(m, list, SUPER_SIZE, SUPER_SIZE + ListSize(list))
      && Unique(list) && Valid(list) && Holds(content, list)
    }

    ghost predicate Good(img: seq<byte>, z: Codec, m: map<nat, nat>, offs: map<nat, nat>, hi: nat) {
      && Lo() <= hi <= |img| && hi % 4 == 0
      && Sound(m)
      && Laid(img, list, SUPER_SIZE, SUPER_SIZE + ListSize(list))
      && Stored(img, z, m, offs, content, Lo(), hi)
      && offs.Keys <= SigIds(list)
    }
  }

  lemma {:induction false} JobInode(j: Job, m: map<nat, nat>, id: nat)
    requires j.Sound(m) && id in SigIds(j.list)
    ensures id in m && m[id] + INODE_SIZE <= j.Lo() && id in j.content && m[id] >= SUPER_SIZE
    ensures forall x :: x in SigIds(j.list) && x != id ==>
      x in m && (m[x] + INODE_SIZE <= m[id] || m[id] + INODE_SIZE <= m[x])
  {
    hide ListSize, DeepSize, Placed, Unique, Valid, Holds, SigIds, Ids;
    var off, deep := SUPER_SIZE, SUPER_SIZE + ListSize(j.list);
    SigSub(j.list);
    InRange(m, j.list, off, deep, id);
    HoldsSig(j.content, j.list, id);
    forall x | x in SigIds(j.list) && x != id
      ensures x in m && (m[x] + INODE_SIZE <= m[id] || m[id] + INODE_SIZE <= m[x])
    {
      Spread(m, j.list, off, deep, x, id);
    }
  }

  lemma {:induction false} HoldsAll(content: map<nat, seq<byte>>, t: Tree)
    requires forall k :: 0 <= k < |Pre(t)| ==>
      Pre(t)[k].Entry? && Pre(t)[k].id in content && content[Pre(t)[k].id] == Pre(t)[k].data
    ensures Holds(content, t)
  {
    if t.Entry? {
      var c := |Pre(t.child)|;
      assert Pre(t)[0] == t;
      forall k | 0 <= k < c ensures Pre(t.child)[k] == Pre(t)[k + 1] {}
      forall k | 0 <= k < |Pre(t.next)| ensures Pre(t.next)[k] == Pre(t)[k + 1 + c] {}
      HoldsAll(content, t.child);
      HoldsAll(content, t.next);
    }
  }

  lemma {:induction false} HoldsSig(content: map<nat, seq<byte>>, t: Tree, id: nat)
    requires Holds(content, t) && id in SigIds(t)
    ensures id in content
  {
    if t.Entry? {
      if id in SigIds(t.child) {
        HoldsSig(content, t.child, id);
      } else if id in SigIds(t.next) {
        HoldsSig(content, t.next, id);
      }
    }
  }

  /** A duplicate takes over the offset of its target. */
  lemma {:induction false} LinkStep(j: Job, img: seq<byte>, z: Codec, m: map<nat, nat>, offs: map<nat, nat>, hi: nat,
                                    id: nat, target: nat)
    requires j.Good(img, z, m, offs, hi)
    requires id in SigIds(j.list) && target in offs && target in j.content && id in j.content
    requires j.content[target] == j.content[id]
    ensures id in m && SUPER_SIZE <= m[id] && m[id] + INODE_SIZE <= |img| && offs[target] < TWO28
    ensures offs[target] % 4 == 0
    ensures j.Good(SetOffset(img, m[id], offs[target] / 4), z, m, offs[id := offs[target]], hi)
  {
    hide ListSize, TreeSize, DeepSize, Placed, Unique, Valid, Holds, SigIds, Laid, SetOffset, FileAt, FileSize;
    JobInode(j, m, id);
    var o := offs[target];
    assert FileStored(img, z, m, o, j.content, target, j.Lo(), hi);
    StoredPatch(img, z, m, offs, j.content, j.Lo(), hi, id, o);
    LaidPatch(img, m, j.list, SUPER_SIZE, SUPER_SIZE + ListSize(j.list), id, o / 4);
  }

  /** A new file is stored at hi. */
  lemma {:induction false} FileStep(j: Job, img: seq<byte>, img': seq<byte>, z: Codec, m: map<nat, nat>,
                                    offs: map<nat, nat>, hi: nat, hi': nat, id: nat)
    requires j.Good(img, z, m, offs, hi) && hi < TWO28
    requires id in SigIds(j.list) && id !in offs && id in j.content
    requires id in m && m[id] + INODE_SIZE <= |img|
    requires hi + FileSize(z, j.content[id]) <= hi' <= |img| && hi' % 4 == 0
    requires Agree(SetOffset(img, m[id], hi / 4), img', 0, hi) && FileAt(img', z, j.content[id], hi)
    ensures j.Good(img', z, m, offs[id := hi], hi')
  {
    hide ListSize, TreeSize, DeepSize, Placed, Unique, Valid, Holds, SigIds, Laid, SetOffset, FileAt, FileSize, Stored;
    JobInode(j, m, id);
    var mid := SetOffset(img, m[id], hi / 4);
    var end := SUPER_SIZE + ListSize(j.list);
    StoreNew(img, img', z, m, offs, j.content, j.Lo(), hi, hi', id);
    LaidPatch(img, m, j.list, SUPER_SIZE, end, id, hi / 4);
    assert TreeSize(j.list) == ListSize(j.list) + DeepSize(j.list) by { TreeSizeIs(j.list); }
    LaidKeep(mid, img', j.list, SUPER_SIZE, end);
  }

  lemma TreeSizeIs(t: Tree)
    ensures TreeSize(t) == ListSize(t) + DeepSize(t)
  {
  }

  /** Entries with data have some, and nothing below them. */
  ghost predicate WithData(t: Tree) {
    t.Entry? ==>
      (HasSig(t) ==> t.data != [] && t.child.Nil?) && WithData(t.child) && WithData(t.next)
  }

  lemma {:induction false} ValidWithData(t: Tree)
    requires Valid(t)
    ensures WithData(t)
  {
    hide ListSize;
    if t.Entry? {
      ValidWithData(t.child);
      ValidWithData(t.next);
    }
  }

  /** From off to end, data offsets were recorded for exactly ids: earlier ones are kept, links share the
      offset of their target, and the first file ever stored starts at off. */
  ghost predicate Recorded(before: map<nat, nat>, after: map<nat, nat>, ids: set<nat>, same: map<nat, nat>,
                           off: nat, end: nat)
  {
    && after.Keys == before.Keys + ids
    && Within(before, after)
    && (forall id :: id in ids && id in same ==> same[id] in after && id in after && after[id] == after[same[id]])
    && off <= end
    && (after == map[] ==> end == off)
    && (before == map[] && after != map[] ==> exists id :: id in after && after[id] == off)
  }

  lemma {:induction false} RecordedMore(a: map<nat, nat>, b: map<nat, nat>, c: map<nat, nat>, ids: set<nat>,
                                        more: set<nat>, same: map<nat, nat>, off: nat, mid: nat, end: nat)
    requires Recorded(a, b, ids, same, off, mid) && Recorded(b, c, more, same, mid, end)
    ensures Recorded(a, c, ids + more, same, off, end)
  {
    if a == map[] && c != map[] {
      if b == map[] {
        var id :| id in c && c[id] == mid;
      } else {
        var id :| id in b && b[id] == off;
        assert id in c && c[id] == off;
      }
    }
    if c == map[] {
      assert b.Keys <= c.Keys;
      assert b == map[];
    }
  }

  // ---- the finished image ----

  const MAGIC: nat := 0x28cd3d45

  /** "Compressed ROMFS" */
  function SignatureBytes(): (r: seq<byte>)
    ensures |r| == 16
  {
    [67, 111, 109, 112, 114, 101, 115, 115, 101, 100, 32, 82, 79, 77, 70, 83]
  }

  /** "Compressed", as strncpy leaves it in a field of 16 bytes. */
  function NameField(): (r: seq<byte>)
    ensures |r| == 16
  {
    [67, 111, 109, 112, 114, 101, 115, 115, 101, 100, 0, 0, 0, 0, 0, 0]
  }

  function RootInode(root: Tree): Inode
    requires root.Entry?
  {
    Inode(root.mode, root.uid, root.size, root.gid, 0, SUPER_SIZE / 4)
  }

  function SuperBytes(root: Tree, fsid: seq<byte>): (r: seq<byte>)
    requires root.Entry? && |fsid| == 16
    ensures |r| == SUPER_SIZE
  {
    Le32(MAGIC) + Le32(0x10000) + Le32(0) + Le32(0) + SignatureBytes() + fsid + NameField() +
    InodeBytes(RootInode(root))
  }

  /** The fields of the superblock: magic number, size, flags, signature, identification, name and root inode. */
  lemma {:induction false} SuperFields(root: Tree, fsid: seq<byte>)
    requires root.Entry? && |fsid| == 16
    ensures var s := SuperBytes(root, fsid);
      && s[..4] == [0x45, 0x3D, 0xCD, 0x28] && s[4..8] == [0, 0, 1, 0] && s[8..16] == [0, 0, 0, 0, 0, 0, 0, 0]
      && s[16..32] == [67, 111, 109, 112, 114, 101, 115, 115, 101, 100, 32, 82, 79, 77, 70, 83] && s[32..48] == fsid
      && s[48..64] == [67, 111, 109, 112, 114, 101, 115, 115, 101, 100, 0, 0, 0, 0, 0, 0]
      && s[64..] == InodeBytes(Inode(root.mode, root.uid, root.size, root.gid, 0, 19))
  {
    hide InodeBytes;
    assert Le32(MAGIC) == [0x45, 0x3D, 0xCD, 0x28] && Le32(0x10000) == [0, 0, 1, 0] && Le32(0) == [0, 0, 0, 0];
    hide Le32;
    var s := SuperBytes(root, fsid);
    assert s[..4] == Le32(MAGIC) && s[4..8] == Le32(0x10000) && s[8..16] == Le32(0) + Le32(0);
    assert s[16..32] == SignatureBytes() && s[32..48] == fsid && s[48..64] == NameField();
  }

  /** Everything a reader needs below a listing: names and fields in place, directories pointing at their
      listings, files pointing at their data, which lies at or above lo. */
  ghost predicate Readable(img: seq<byte>, z: Codec, t: Tree, off: nat, deep: nat, lo: nat) {
    t.Entry? ==>
      && InodeHere(img, off, t)
      && At(img, off + INODE_SIZE, Padded(t.name))
      && (t.child.Entry? ==> 4 * ReadInode(img, off).offset == deep)
      && (HasSig(t) ==>
            lo <= 4 * ReadInode(img, off).offset < TWO28 && FileAt(img, z, t.data, 4 * ReadInode(img, off).offset))
      && (IsReg(t) && !HasSig(t) ==> ReadInode(img, off).offset == 0)
      && Readable(img, z, t.child, deep, deep + ListSize(t.child), lo)
      && Readable(img, z, t.next, off + EntrySize(t), deep + TreeSize(t.child), lo)
  }

  /** Some file starts exactly at lo. */
  ghost predicate StartsAt(img: seq<byte>, t: Tree, off: nat, deep: nat, lo: nat) {
    t.Entry? && off + INODE_SIZE <= |img| &&
    (|| (HasSig(t) && 4 * ReadInode(img, off).offset == lo)
     || StartsAt(img, t.child, deep, deep + ListSize(t.child), lo)
     || StartsAt(img, t.next, off + EntrySize(t), deep + TreeSize(t.child), lo))
  }

  lemma {:induction false} AtPrefix(img: seq<byte>, n: nat, off: nat, s: seq<byte>)
    requires n <= |img| && At(img, off, s) && off + |s| <= n
    ensures At(img[..n], off, s)
  {
    assert img[..n][off..off + |s|] == img[off..off + |s|];
  }

  lemma {:induction false} ReadPrefix(img: seq<byte>, n: nat, off: nat)
    requires off + INODE_SIZE <= n <= |img|
    ensures ReadInode(img[..n], off) == ReadInode(img, off)
  {
  }

  lemma {:induction false} FilePrefix(img: seq<byte>, n: nat, z: Codec, data: seq<byte>, o: nat)
    requires n <= |img| && FileAt(img, z, data, o) && o + FileSize(z, data) <= n
    ensures FileAt(img[..n], z, data, o)
  {
    hide Table, Packed, Blocks, At;
    var start := o + 4 * Blocks(|data|);
    TableLength(z, data, start);
    AtPrefix(img, n, o, Table(z, data, start));
    AtPrefix(img, n, start, Packed(z, data));
  }

  lemma {:induction false} TableLength(z: Codec, data: seq<byte>, curr: nat)
    ensures |Table(z, data, curr)| == 4 * Blocks(|data|)
  {
    hide Table, Blocks;
  }

  lemma {:induction false} EntryPrefix(img: seq<byte>, n: nat, off: nat, e: Tree)
    requires e.Entry? && InodeHere(img, off, e) && At(img, off + INODE_SIZE, Padded(e.name))
    requires off + EntrySize(e) <= n <= |img|
    ensures InodeHere(img[..n], off, e) && At(img[..n], off + INODE_SIZE, Padded(e.name))
    ensures ReadInode(img[..n], off) == ReadInode(img, off)
  {
    hide InodeBytes, ReadInode, At;
    ReadPrefix(img, n, off);
    AtPrefix(img, n, off, InodeBytes(InodeOf(e, ReadInode(img, off).offset)));
    AtPrefix(img, n, off + INODE_SIZE, Padded(e.name));
  }

  /** The image as written to the file, n bytes of the buffer, can be read. */
  lemma {:induction false} ReadableFrom(j: Job, img: seq<byte>, n: nat, z: Codec, m: map<nat, nat>, offs: map<nat, nat>,
                                        hi: nat, t: Tree, off: nat, deep: nat)
    requires j.Good(img, z, m, offs, hi) && hi <= n <= |img|
    requires Laid(img, t, off, deep) && Placed(m, t, off, deep) && Valid(t) && Holds(j.content, t)
    requires SigIds(t) <= offs.Keys
    requires off + ListSize(t) <= hi && deep + DeepSize(t) <= hi
    ensures Readable(img[..n], z, t, off, deep, j.Lo())
    decreases t
  {
    hide EntrySize, TreeSize, ListSize, DeepSize, j.Good, Laid, Placed, Valid, Holds, Readable, SigIds;
    hide At, InodeHere, ReadInode, ValidEntry, EntryReadable;
    if t.Entry? {
      SizeFacts(t);
      LaidParts(img, t, off, deep);
      PlacedHere(m, t, off, deep);
      ValidHere(t);
      HoldsParts(j.content, t);
      SigUnder(t);
      ReadableHead(j, img, n, z, m, offs, hi, t, off, deep);
      ReadableFrom(j, img, n, z, m, offs, hi, t.child, deep, deep + ListSize(t.child));
      ReadableFrom(j, img, n, z, m, offs, hi, t.next, off + EntrySize(t), deep + TreeSize(t.child));
      ReadableStep(img[..n], z, t, off, deep, j.Lo());
    } else {
      NothingReadable(img[..n], z, off, deep, j.Lo());
    }
  }

  /** What a reader needs of a single entry. */
  ghost predicate EntryReadable(img: seq<byte>, z: Codec, t: Tree, off: nat, deep: nat, lo: nat)
    requires t.Entry?
  {
    && InodeHere(img, off, t)
    && At(img, off + INODE_SIZE, Padded(t.name))
    && (t.child.Entry? ==> 4 * ReadInode(img, off).offset == deep)
    && (HasSig(t) ==>
          lo <= 4 * ReadInode(img, off).offset < TWO28 && FileAt(img, z, t.data, 4 * ReadInode(img, off).offset))
    && (IsReg(t) && !HasSig(t) ==> ReadInode(img, off).offset == 0)
  }

  lemma {:induction false} ReadableHead(j: Job, img: seq<byte>, n: nat, z: Codec, m: map<nat, nat>, offs: map<nat, nat>,
                                        hi: nat, t: Tree, off: nat, deep: nat)
    requires j.Good(img, z, m, offs, hi) && hi <= n <= |img| && t.Entry? && off + EntrySize(t) <= hi
    requires InodeHere(img, off, t) && At(img, off + INODE_SIZE, Padded(t.name)) && ValidEntry(t)
    requires t.child.Entry? ==> off + INODE_SIZE <= |img| && 4 * ReadInode(img, off).offset == deep
    requires t.child.Nil? && !HasSig(t) ==> off + INODE_SIZE <= |img| && ReadInode(img, off).offset == 0
    requires t.id in m && m[t.id] == off && t.id in j.content && j.content[t.id] == t.data
    requires HasSig(t) ==> t.id in offs
    ensures EntryReadable(img[..n], z, t, off, deep, j.Lo())
  {
    hide EntrySize, At, InodeHere, ReadInode, ValidEntry, FileAt, FileSize, j.Good;
    EntryPrefix(img, n, off, t);
    if HasSig(t) {
      GoodFile(j, img, z, m, offs, hi, t.id);
      FilePrefix(img, n, z, t.data, offs[t.id]);
    }
    if IsReg(t) && !HasSig(t) {
      RegNoKids(t);
    }
  }

  lemma ReadableStep(img: seq<byte>, z: Codec, t: Tree, off: nat, deep: nat, lo: nat)
    requires t.Entry? && EntryReadable(img, z, t, off, deep, lo)
    requires Readable(img, z, t.child, deep, deep + ListSize(t.child), lo)
    requires Readable(img, z, t.next, off + EntrySize(t), deep + TreeSize(t.child), lo)
    ensures Readable(img, z, t, off, deep, lo)
  {
    hide EntrySize, TreeSize, ListSize, At, ReadInode, FileAt, InodeHere;
  }

  lemma NothingReadable(img: seq<byte>, z: Codec, off: nat, deep: nat, lo: nat)
    ensures Readable(img, z, Nil, off, deep, lo)
  {
  }

  lemma HoldsParts(content: map<nat, seq<byte>>, t: Tree)
    requires t.Entry? && Holds(content, t)
    ensures t.id in content && content[t.id] == t.data && Holds(content, t.child) && Holds(content, t.next)
  {
  }

  lemma SigUnder(t: Tree)
    requires t.Entry?
    ensures SigIds(t.child) <= SigIds(t) && SigIds(t.next) <= SigIds(t) && (HasSig(t) ==> t.id in SigIds(t))
  {
  }

  lemma {:induction false} RegNoKids(t: Tree)
    requires t.Entry? && ValidEntry(t) && IsReg(t)
    ensures t.child.Nil?
  {
    hide ListSize;
  }

  lemma {:induction false} GoodFile(j: Job, img: seq<byte>, z: Codec, m: map<nat, nat>, offs: map<nat, nat>, hi: nat,
                                    id: nat)
    requires j.Good(img, z, m, offs, hi) && id in offs
    ensures FileStored(img, z, m, offs[id], j.content, id, j.Lo(), hi)
  {
  }

  /** The first file recorded starts the data area. */
  lemma {:induction false} StartsFrom(j: Job, img: seq<byte>, n: nat, z: Codec, m: map<nat, nat>, offs: map<nat, nat>,
                                      hi: nat, t: Tree, off: nat, deep: nat, id: nat)
    requires j.Good(img, z, m, offs, hi) && hi <= n <= |img|
    requires Placed(m, t, off, deep) && Laid(img, t, off, deep) && id in SigIds(t) && id in offs
    requires off + ListSize(t) <= hi && deep + DeepSize(t) <= hi
    ensures StartsAt(img[..n], t, off, deep, offs[id])
    decreases t
  {
    hide EntrySize, TreeSize, ListSize, DeepSize, At, InodeHere, ReadInode, FileAt, FileSize, j.Good;
    SizeFacts(t);
    EntryPrefix(img, n, off, t);
    if HasSig(t) && id == t.id {
      GoodFile(j, img, z, m, offs, hi, id);
    } else if id in SigIds(t.child) {
      StartsFrom(j, img, n, z, m, offs, hi, t.child, deep, deep + ListSize(t.child), id);
    } else {
      StartsFrom(j, img, n, z, m, offs, hi, t.next, off + EntrySize(t), deep + TreeSize(t.child), id);
    }
  }
}
