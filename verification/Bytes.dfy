/** Byte strings: placement inside a larger image, in-place writes and little-endian words. */
module Bytes {

  type byte = x: int | 0 <= x < 256 witness 0

  function Max(a: nat, b: nat): nat {
    if a >= b then a else b
  }

  function Min(a: nat, b: nat): nat {
    if a <= b then a else b
  }

  /** The bytes s occupy img from off on. */
  ghost predicate At(img: seq<byte>, off: int, s: seq<byte>) {
    0 <= off && off + |s| <= |img| && img[off..off + |s|] == s
  }

  lemma AtConcat(img: seq<byte>, off: int, a: seq<byte>, b: seq<byte>)
    ensures At(img, off, a + b) <==> At(img, off, a) && At(img, off + |a|, b)
  {
    if At(img, off, a + b) {
      var w := img[off..off + |a + b|];
      assert w[..|a|] == a && w[|a|..] == b;
      assert img[off..off + |a|] == w[..|a|];
      assert img[off + |a|..off + |a| + |b|] == w[|a|..];
    }
    if At(img, off, a) && At(img, off + |a|, b) {
      assert img[off..off + |a + b|] == img[off..off + |a|] + img[off + |a|..off + |a| + |b|];
    }
  }

  /** Placement only depends on the bytes it covers. */
  lemma AtFrame(img: seq<byte>, img': seq<byte>, off: int, s: seq<byte>)
    requires At(img, off, s)
    requires |img'| == |img|
    requires forall i :: off <= i < off + |s| ==> img'[i] == img[i]
    ensures At(img', off, s)
  {
    assert img'[off..off + |s|] == img[off..off + |s|];
  }

  lemma ConcatAssoc<T>(x: seq<T>, y: seq<T>, z: seq<T>)
    ensures (x + y) + z == x + (y + z)
  {
  }

  lemma MergeAssoc<K, V>(x: map<K, V>, y: map<K, V>, z: map<K, V>)
    ensures (x + y) + z == x + (y + z)
  {
  }

  /** memcpy of s into img at off. */
  function Put(img: seq<byte>, off: nat, s: seq<byte>): (r: seq<byte>)
    requires off + |s| <= |img|
    ensures |r| == |img|
    ensures forall i :: 0 <= i < |img| ==> r[i] == if off <= i < off + |s| then s[i - off] else img[i]
  {
    img[..off] + s + img[off + |s|..]
  }

  lemma PutAt(img: seq<byte>, off: nat, s: seq<byte>)
    requires off + |s| <= |img|
    ensures At(Put(img, off, s), off, s)
  {
    assert Put(img, off, s)[off..off + |s|] == s;
  }

  /** Two writes side by side are one. */
  lemma PutConcat(img: seq<byte>, off: nat, a: seq<byte>, b: seq<byte>)
    requires off + |a| + |b| <= |img|
    ensures Put(img, off, a + b) == Put(Put(img, off, a), off + |a|, b)
  {
  }

  function Zeros(n: nat): (r: seq<byte>)
    ensures |r| == n && forall i :: 0 <= i < n ==> r[i] == 0
  {
    seq(n, i => 0)
  }

  const TWO24: int := 0x100_0000
  const TWO26: int := 0x400_0000
  const TWO28: int := 0x1000_0000
  const TWO32: int := 0x1_0000_0000

  /** What a C int holds after w has been stored in it. */
  function Signed32(w: nat): int {
    var v := w % TWO32;
    if v < 0x8000_0000 then v else v - TWO32
  }

  /** The four bytes of a 32-bit word, least significant first; higher bits are lost. */
  function Le32(w: nat): (r: seq<byte>)
    ensures |r| == 4
  {
    [w % 256, w / 256 % 256, w / 0x10000 % 256, w / 0x100_0000 % 256]
  }

  function Word4(a: int, b: int, c: int, d: int): int {
    a + 256 * b + 0x10000 * c + 0x100_0000 * d
  }

  lemma Word4OfDigits(w: nat)
    requires w < TWO32
    ensures Word4(w % 256, w / 256 % 256, w / 0x10000 % 256, w / 0x100_0000 % 256) == w
  {
    var a := w / 256;
    var b := a / 256;
    var c := b / 256;
    assert w / 0x10000 == b;
    assert w / 0x100_0000 == c;
    assert c % 256 == c;
  }

  /** The 32-bit word stored at off. */
  function Word(img: seq<byte>, off: nat): (w: nat)
    requires off + 4 <= |img|
    ensures w < TWO32
  {
    Word4(img[off], img[off + 1], img[off + 2], img[off + 3])
  }

  lemma WordOfLe32(img: seq<byte>, off: nat, w: nat)
    requires w < TWO32
    requires At(img, off, Le32(w))
    ensures Word(img, off) == w
  {
    var s := img[off..off + 4];
    assert s[0] == img[off] && s[1] == img[off + 1] && s[2] == img[off + 2] && s[3] == img[off + 3];
    Word4OfDigits(w);
  }

  method CopyInto(a: array<byte>, off: nat, s: seq<byte>)
    requires off + |s| <= a.Length
    modifies a
    ensures a[..] == Put(old(a[..]), off, s)
  {
    for i := 0 to |s|
      invariant forall j :: 0 <= j < a.Length ==>
        a[j] == if off <= j < off + i then s[j - off] else old(a[j])
    {
      a[off + i] := s[i];
    }
  }

  /** The least significant byte comes first. */
  lemma LittleEndian(w: nat, img: seq<byte>, off: nat)
    requires w < TWO32 && off + 4 <= |img|
    ensures var r := Le32(w);
      w == (r[0] as int) + 0x100 * (r[1] as int) + 0x10000 * (r[2] as int) + 0x100_0000 * (r[3] as int)
    ensures Word(img, off) ==
      (img[off] as int) + 0x100 * (img[off + 1] as int) + 0x10000 * (img[off + 2] as int) +
      0x100_0000 * (img[off + 3] as int)
  {
    Word4OfDigits(w);
  }
}
