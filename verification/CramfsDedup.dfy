/** mkcramfs: finding files with the same contents. */
module CramfsDedup {
  import opened Bytes
  import opened CramfsFormat

  /** The entries of a tree in the order in which every traversal meets them. */
  function Pre(t: Tree): seq<Tree> {
    if t.Nil? then [] else [t] + Pre(t.child) + Pre(t.next)
  }

  lemma {:induction false} PreEntries(t: Tree)
    ensures forall k :: 0 <= k < |Pre(t)| ==> Pre(t)[k].Entry? && Pre(t)[k].id in Ids(t)
    ensures Valid(t) ==> forall k :: 0 <= k < |Pre(t)| ==> ValidEntry(Pre(t)[k])
  {
    if t.Entry? {
      PreEntries(t.child);
      PreEntries(t.next);
    }
  }

  /** The first 32 bytes of a file, filled up with NULs. */
  function Signature(data: seq<byte>): seq<byte> {
    if |data| >= 32 then data[..32] else data + Zeros(32 - |data|)
  }

  /** compress_path is only set for non-empty regular files. */
  predicate FilesIdentical(a: Tree, b: Tree)
    requires a.Entry? && b.Entry?
  {
    IsReg(a) && a.size > 0 && IsReg(b) && b.size > 0 && a.data == b.data
  }

  predicate Duplicates(orig: Tree, newfile: Tree)
    requires orig.Entry? && newfile.Entry?
  {
    && orig.size == newfile.size && HasSig(orig)
    && Signature(orig.data) == Signature(newfile.data)
    && FilesIdentical(orig, newfile)
  }

  /** Size and signature only save comparisons: with sizes that are those of the contents, two entries are duplicates
      exactly when both are regular files with the same bytes, at least one. */
  lemma {:induction false} SameBytes(a: Tree, b: Tree)
    requires a.Entry? && b.Entry? && (IsReg(a) ==> a.size == |a.data|) && (IsReg(b) ==> b.size == |b.data|)
    ensures Duplicates(a, b) <==>
      a.mode / 4096 % 16 == 8 && b.mode / 4096 % 16 == 8 && a.data == b.data && a.data != []
  {
  }

  /** What a search meets first: the file itself, a file with the same contents, or neither. */
  datatype Found = Self | Dup(of: nat) | Nothing

  function Find(t: Tree, newfile: Tree): Found
    requires newfile.Entry?
  {
    if t.Nil? then Nothing
    else if t.id == newfile.id then Self
    else if Duplicates(t, newfile) then Dup(t.id)
    else
      var below := Find(t.child, newfile);
      if below != Nothing then below else Find(t.next, newfile)
  }

  /** The same-links that eliminate_doubles sets below t. */
  function SameMap(root: Tree, t: Tree): map<nat, nat> {
    if t.Nil? then map[]
    else Link(root, t) + SameMap(root, t.child) + SameMap(root, t.next)
  }

  function Link(root: Tree, e: Tree): map<nat, nat>
    requires e.Entry?
  {
    if e.size > 0 && HasSig(e) && Find(root, e).Dup? then map[e.id := Find(root, e).of] else map[]
  }

  // ---- the search meets the first duplicate in traversal order ----

  function First(s: seq<Tree>, newfile: Tree): Found
    requires newfile.Entry? && forall k :: 0 <= k < |s| ==> s[k].Entry?
  {
    if s == [] then Nothing
    else if s[0].id == newfile.id then Self
    else if Duplicates(s[0], newfile) then Dup(s[0].id)
    else First(s[1..], newfile)
  }

  lemma {:induction false} FirstConcat(a: seq<Tree>, b: seq<Tree>, n: Tree)
    requires n.Entry?
    requires forall k :: 0 <= k < |a| ==> a[k].Entry?
    requires forall k :: 0 <= k < |b| ==> b[k].Entry?
    ensures First(a + b, n) == if First(a, n) != Nothing then First(a, n) else First(b, n)
  {
    if a == [] {
      assert a + b == b;
    } else {
      FirstConcat(a[1..], b, n);
      assert (a + b)[1..] == a[1..] + b;
    }
  }

  lemma {:induction false} FindIsFirst(t: Tree, n: Tree)
    requires n.Entry?
    ensures forall k :: 0 <= k < |Pre(t)| ==> Pre(t)[k].Entry?
    ensures Find(t, n) == First(Pre(t), n)
  {
    PreEntries(t);
    if t.Entry? {
      PreEntries(t.child);
      PreEntries(t.next);
      FindIsFirst(t.child, n);
      FindIsFirst(t.next, n);
      FirstConcat([t] + Pre(t.child), Pre(t.next), n);
      FirstConcat([t], Pre(t.child), n);
      assert [t][1..] == [];
    }
  }

  /** In a list that holds n, the search stops at n or at the first earlier duplicate of it. */
  lemma {:induction false} FirstStops(s: seq<Tree>, n: Tree, k: nat) returns (j: nat)
    requires n.Entry? && forall i :: 0 <= i < |s| ==> s[i].Entry?
    requires k < |s| && s[k] == n
    ensures j <= k
    ensures First(s, n) == (if s[j].id == n.id then Self else Dup(s[j].id))
    ensures s[j].id == n.id || Duplicates(s[j], n)
    ensures forall i :: 0 <= i < j ==> s[i].id != n.id && !Duplicates(s[i], n)
  {
    if s[0].id == n.id || Duplicates(s[0], n) {
      j := 0;
    } else {
      j := FirstStops(s[1..], n, k - 1);
      j := j + 1;
      forall i | 0 <= i < j ensures s[i].id != n.id && !Duplicates(s[i], n) {
        if i > 0 { assert s[i] == s[1..][i - 1]; }
      }
    }
  }

  // ---- what the links guarantee to write_data ----

  function SigIds(t: Tree): set<nat> {
    if t.Nil? then {} else (if HasSig(t) then {t.id} else {}) + SigIds(t.child) + SigIds(t.next)
  }

  function SigSet(s: seq<Tree>): set<nat>
    requires forall k :: 0 <= k < |s| ==> s[k].Entry?
  {
    set k | 0 <= k < |s| && HasSig(s[k]) :: s[k].id
  }

  lemma {:induction false} SigSetPre(t: Tree)
    ensures forall k :: 0 <= k < |Pre(t)| ==> Pre(t)[k].Entry?
    ensures SigSet(Pre(t)) == SigIds(t)
  {
    PreEntries(t);
    if t.Entry? {
      PreEntries(t.child);
      PreEntries(t.next);
      SigSetPre(t.child);
      SigSetPre(t.next);
      SigSetConcat([t], Pre(t.child));
      SigSetConcat([t] + Pre(t.child), Pre(t.next));
      assert SigSet([t]) == if HasSig(t) then {t.id} else {} by {
        assert [t][0] == t;
      }
    }
  }

  lemma {:induction false} SigSetConcat(a: seq<Tree>, b: seq<Tree>)
    requires forall k :: 0 <= k < |a| ==> a[k].Entry?
    requires forall k :: 0 <= k < |b| ==> b[k].Entry?
    ensures SigSet(a + b) == SigSet(a) + SigSet(b)
  {
    var c := a + b;
    forall k | 0 <= k < |a| ensures a[k] == c[k] {}
    forall k | 0 <= k < |b| ensures b[k] == c[|a| + k] {}
  }

  /** Each link below t leads to an entry with data that is among done or comes before its source. */
  ghost predicate TargetsFirst(t: Tree, same: map<nat, nat>, done: set<nat>) {
    t.Entry? ==>
      var here := if HasSig(t) then {t.id} else {};
      && (t.id in same ==> HasSig(t) && same[t.id] in done)
      && TargetsFirst(t.child, same, done + here)
      && TargetsFirst(t.next, same, done + here + SigIds(t.child))
  }

  /** The links say what the search found, entry by entry. */
  ghost predicate LinksOf(root: Tree, same: map<nat, nat>) {
    forall k :: 0 <= k < |Pre(root)| && Pre(root)[k].Entry? ==>
      var e := Pre(root)[k];
      && (e.id in same <==> e.id in Link(root, e))
      && (e.id in same ==> same[e.id] == Link(root, e)[e.id])
  }

  lemma {:induction false} LinkKeys(root: Tree, e: Tree)
    requires e.Entry?
    ensures Link(root, e).Keys <= {e.id}
  {
  }

  lemma {:induction false} SameKeys(root: Tree, t: Tree)
    ensures SameMap(root, t).Keys <= Ids(t)
  {
    if t.Entry? {
      SameKeys(root, t.child);
      SameKeys(root, t.next);
    }
  }

  lemma {:induction false} SameLinks(root: Tree, t: Tree, k: nat)
    requires Unique(t) && k < |Pre(t)|
    ensures Pre(t)[k].Entry?
    ensures
      var e, m := Pre(t)[k], SameMap(root, t);
      && (e.id in m <==> e.id in Link(root, e))
      && (e.id in m ==> m[e.id] == Link(root, e)[e.id])
  {
    hide Find, Link;
    LinkKeys(root, t);
    PreEntries(t);
    PreEntries(t.child);
    PreEntries(t.next);
    SameKeys(root, t.child);
    SameKeys(root, t.next);
    var c := |Pre(t.child)|;
    var e := Pre(t)[k];
    if k == 0 {
      assert e == t;
    } else if k <= c {
      assert e == Pre(t.child)[k - 1];
      SameLinks(root, t.child, k - 1);
      assert e.id in Ids(t.child);
    } else {
      assert e == Pre(t.next)[k - 1 - c];
      SameLinks(root, t.next, k - 1 - c);
      assert e.id in Ids(t.next);
    }
  }

  lemma {:induction false} SameMapLinks(root: Tree)
    requires Unique(root)
    ensures LinksOf(root, SameMap(root, root))
  {
    hide Find;
    forall k | 0 <= k < |Pre(root)| && Pre(root)[k].Entry?
      ensures
        var e, m := Pre(root)[k], SameMap(root, root);
        && (e.id in m <==> e.id in Link(root, e))
        && (e.id in m ==> m[e.id] == Link(root, e)[e.id])
    {
      SameLinks(root, root, k);
    }
  }

  /** A link leads from an entry to the first entry with the same contents, which comes before it and has no
      link itself. */
  lemma {:induction false} LinkTarget(root: Tree, same: map<nat, nat>, k: nat) returns (j: nat)
    requires LinksOf(root, same) && Unique(root)
    requires k < |Pre(root)| && Pre(root)[k].Entry? && Pre(root)[k].id in same
    ensures j < k && Pre(root)[j].Entry? && same[Pre(root)[k].id] == Pre(root)[j].id
    ensures HasSig(Pre(root)[k]) && HasSig(Pre(root)[j]) && Pre(root)[j].data == Pre(root)[k].data
    ensures forall i :: 0 <= i < j && Pre(root)[i].Entry? ==> !Duplicates(Pre(root)[i], Pre(root)[k])
  {
    var s := Pre(root);
    PreEntries(root);
    FindIsFirst(root, s[k]);
    j := FirstStops(s, s[k], k);
  }

  lemma {:induction false} Targets(root: Tree, t: Tree, before: seq<Tree>, after: seq<Tree>, same: map<nat, nat>)
    requires LinksOf(root, same) && Unique(root)
    requires Pre(root) == before + Pre(t) + after
    ensures forall k :: 0 <= k < |before| ==> before[k].Entry?
    ensures TargetsFirst(t, same, SigSet(before))
    decreases t
  {
    PreEntries(root);
    forall k | 0 <= k < |before| ensures before[k].Entry? {
      assert before[k] == Pre(root)[k];
    }
    if t.Entry? {
      var s := Pre(root);
      var c, n := Pre(t.child), Pre(t.next);
      assert s == (before + [t]) + c + (n + after);
      assert s == (before + [t] + c) + n + after;
      Targets(root, t.child, before + [t], n + after, same);
      Targets(root, t.next, before + [t] + c, after, same);
      SigSetPre(t.child);
      SigSetConcat(before, [t]);
      SigSetConcat(before + [t], c);
      assert SigSet([t]) == if HasSig(t) then {t.id} else {} by {
        assert [t][0] == t;
      }
      var k := |before|;
      assert s[k] == t;
      if t.id in same {
        var j := LinkTarget(root, same, k);
        assert before[j] == s[j];
      }
    }
  }

  // ---- contents by entry ----

  function Contents(t: Tree): map<nat, seq<byte>> {
    if t.Nil? then map[] else map[t.id := t.data] + Contents(t.child) + Contents(t.next)
  }

  lemma {:induction false} ContentKeys(t: Tree)
    ensures Contents(t).Keys == Ids(t)
  {
    if t.Entry? {
      ContentKeys(t.child);
      ContentKeys(t.next);
    }
  }

  lemma {:induction false} ContentsAt(t: Tree, k: nat)
    requires Unique(t) && k < |Pre(t)|
    ensures Pre(t)[k].Entry? && Pre(t)[k].id in Contents(t) && Contents(t)[Pre(t)[k].id] == Pre(t)[k].data
  {
    hide Valid;
    PreEntries(t);
    PreEntries(t.child);
    PreEntries(t.next);
    ContentKeys(t.child);
    ContentKeys(t.next);
    var c := |Pre(t.child)|;
    var e := Pre(t)[k];
    if k == 0 {
      assert e == t;
    } else if k <= c {
      assert e == Pre(t.child)[k - 1];
      ContentsAt(t.child, k - 1);
    } else {
      assert e == Pre(t.next)[k - 1 - c];
      ContentsAt(t.next, k - 1 - c);
    }
  }

  lemma {:induction false} IndexOf(t: Tree, id: nat) returns (k: nat)
    requires id in Ids(t)
    ensures k < |Pre(t)| && Pre(t)[k].Entry? && Pre(t)[k].id == id
  {
    if id == t.id {
      k := 0;
    } else if id in Ids(t.child) {
      k := IndexOf(t.child, id);
      assert Pre(t)[k + 1] == Pre(t.child)[k];
      k := k + 1;
    } else {
      k := IndexOf(t.next, id);
      assert Pre(t)[k + 1 + |Pre(t.child)|] == Pre(t.next)[k];
      k := k + 1 + |Pre(t.child)|;
    }
  }

  /** Linked entries have equal data. */
  ghost predicate SameContent(same: map<nat, nat>, content: map<nat, seq<byte>>) {
    forall id :: id in same ==> same[id] in content && id in content && content[same[id]] == content[id]
  }

  /** Everything write_data relies on follows from running eliminate_doubles on the whole tree. */
  lemma {:induction false} LinksSound(root: Tree)
    requires Unique(root)
    ensures SameContent(SameMap(root, root), Contents(root))
    ensures TargetsFirst(root, SameMap(root, root), {})
  {
    var same := SameMap(root, root);
    hide SameMap, Find, Contents, TargetsFirst;
    SameMapLinks(root);
    SameKeys(root, root);
    assert Pre(root) == [] + Pre(root) + [];
    Targets(root, root, [], [], same);
    assert SigSet([]) == {};
    forall id | id in same
      ensures same[id] in Contents(root) && id in Contents(root) && Contents(root)[same[id]] == Contents(root)[id]
    {
      assert id in same.Keys;
      var k := IndexOf(root, id);
      var j := LinkTarget(root, same, k);
      ContentsAt(root, k);
      ContentsAt(root, j);
    }
  }

  /** A regular file is linked to the first file with its contents, unless it is that file. */
  lemma {:induction false} LinkOf(root: Tree, same: map<nat, nat>, k: nat) returns (j: nat)
    requires Unique(root) && LinksOf(root, same)
    requires k < |Pre(root)| && Pre(root)[k].Entry? && FilesIdentical(Pre(root)[k], Pre(root)[k])
    ensures j <= k && Pre(root)[j].Entry? && Duplicates(Pre(root)[j], Pre(root)[k])
    ensures forall i :: 0 <= i < j && Pre(root)[i].Entry? ==> !Duplicates(Pre(root)[i], Pre(root)[k])
    ensures
      var x := Pre(root)[k].id;
      if j == k then x !in same else x in same && same[x] == Pre(root)[j].id
  {
    hide Find, Unique;
    var s := Pre(root);
    PreEntries(root);
    FindIsFirst(root, s[k]);
    j := FirstStops(s, s[k], k);
    if j < k {
      PreUnique(root, j, k);
    }
  }

  /** Two regular files with the same contents end up with the same target: both are linked to the first
      such file, or one of them is that file. */
  lemma {:induction false} SharedTarget(root: Tree, a: nat, b: nat)
    requires Unique(root)
    requires a < b < |Pre(root)| && Pre(root)[a].Entry? && Pre(root)[b].Entry?
    requires FilesIdentical(Pre(root)[a], Pre(root)[b]) && Pre(root)[a].size == Pre(root)[b].size
    ensures
      var same, x, y := SameMap(root, root), Pre(root)[a].id, Pre(root)[b].id;
      y in same && same[y] == if x in same then same[x] else x
  {
    var same := SameMap(root, root);
    hide SameMap, Unique, LinksOf, Signature;
    SameMapLinks(root);
    var s := Pre(root);
    var i := LinkOf(root, same, a);
    var j := LinkOf(root, same, b);
    assert Duplicates(s[a], s[b]) && Duplicates(s[i], s[b]);
  }

  lemma {:induction false} PreUnique(t: Tree, i: nat, k: nat)
    requires Unique(t) && i < k < |Pre(t)|
    ensures Pre(t)[i].Entry? && Pre(t)[k].Entry? && Pre(t)[i].id != Pre(t)[k].id
  {
    PreEntries(t);
    PreEntries(t.child);
    PreEntries(t.next);
    var c := |Pre(t.child)|;
    assert 0 < i <= c ==> Pre(t)[i] == Pre(t.child)[i - 1];
    assert i > c ==> Pre(t)[i] == Pre(t.next)[i - 1 - c];
    assert k <= c ==> Pre(t)[k] == Pre(t.child)[k - 1];
    assert k > c ==> Pre(t)[k] == Pre(t.next)[k - 1 - c];
    if 0 < i && k <= c {
      PreUnique(t.child, i - 1, k - 1);
    } else if i > c {
      PreUnique(t.next, i - 1 - c, k - 1 - c);
    }
  }
}
