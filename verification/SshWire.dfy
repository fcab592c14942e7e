/** The binary packet protocol of section 6 of RFC 4253, as dropbear frames, chains and authenticates packets. */
module SshWire {
  import opened Bytes

  const MIN_PACKET_LEN: nat := 16
  const MAX_PACKET_LEN: nat := 35000
  const MAX_PAYLOAD_LEN: nat := 32768
  const PAYLOAD_OFF: nat := 5

  /** A block cipher under one key; the initial "none" copies. */
  datatype Cipher = NoCipher | Cbc(enc: seq<byte> -> seq<byte>, dec: seq<byte> -> seq<byte>)

  /** One direction of a key context. The MAC gets the sequence number and the cleartext packet. */
  datatype Keys = Keys(cipher: Cipher, blockSize: nat, macSize: nat, mac: seq<byte> -> seq<byte>)
  {
    /** The algorithm tables: blocks of 8 or 16 bytes, MACs of 16 or 20; no MAC only beside no cipher. */
    ghost predicate Sound() {
      && (blockSize == 8 || blockSize == 16)
      && (macSize == 16 || macSize == 20 || (macSize == 0 && blockSize == 8))
      && (forall m: seq<byte> :: |mac(m)| == macSize)
      && (cipher.Cbc? ==> forall b: seq<byte> :: |b| == blockSize ==>
            |cipher.enc(b)| == blockSize && |cipher.dec(b)| == blockSize && cipher.dec(cipher.enc(b)) == b)
    }
  }

  // ---- big-endian words ----

  function Be32(w: nat): (r: seq<byte>)
    ensures |r| == 4
  {
    [w / 0x100_0000 % 256, w / 0x10000 % 256, w / 256 % 256, w % 256]
  }

  function BeWord(s: seq<byte>): (w: nat)
    requires |s| >= 4
    ensures w < TWO32
  {
    Word4(s[3], s[2], s[1], s[0])
  }

  /** The most significant byte comes first. */
  lemma BigEndian(w: nat, s: seq<byte>)
    requires w < TWO32 && |s| >= 4
    ensures var r := Be32(w);
      w == 0x100_0000 * (r[0] as int) + 0x10000 * (r[1] as int) + 0x100 * (r[2] as int) + r[3] as int
    ensures BeWord(s) == 0x100_0000 * (s[0] as int) + 0x10000 * (s[1] as int) + 0x100 * (s[2] as int) + s[3] as int
  {
    Word4OfDigits(w);
  }

  lemma BeRoundTrip(w: nat, rest: seq<byte>)
    requires w < TWO32
    ensures BeWord(Be32(w) + rest) == w
  {
    Word4OfDigits(w);
  }

  // ---- exclusive or ----

  function XorBits(a: nat, b: nat, n: nat): (r: nat)
    decreases n
  {
    if n == 0 then 0 else (a + b) % 2 + 2 * XorBits(a / 2, b / 2, n - 1)
  }

  function Pow2(n: nat): (r: nat)
    ensures r > 0
  {
    if n == 0 then 1 else 2 * Pow2(n - 1)
  }

  lemma {:induction false} XorBound(a: nat, b: nat, n: nat)
    ensures XorBits(a, b, n) < Pow2(n)
    decreases n
  {
    if n > 0 {
      XorBound(a / 2, b / 2, n - 1);
    }
  }

  lemma {:induction false} XorTwice(a: nat, b: nat, n: nat)
    requires a < Pow2(n)
    ensures XorBits(XorBits(a, b, n), b, n) == a
    decreases n
  {
    if n > 0 {
      hide Pow2;
      HalfBound(a, n);
      XorTwice(a / 2, b / 2, n - 1);
      XorDigit(a, b, XorBits(a / 2, b / 2, n - 1));
    }
  }

  lemma HalfBound(a: nat, n: nat)
    requires n > 0 && a < Pow2(n)
    ensures a / 2 < Pow2(n - 1)
  {
  }

  lemma XorDigit(a: nat, b: nat, x: nat)
    ensures var y := (a + b) % 2 + 2 * x;
      y / 2 == x && (y + b) % 2 + 2 * (a / 2) == a
  {
  }

  lemma Pow2Eight()
    ensures Pow2(8) == 256
  {
    assert Pow2(4) == 16;
    assert Pow2(6) == 64;
  }

  function XorByte(a: byte, b: byte): byte {
    XorBound(a, b, 8); Pow2Eight();
    XorBits(a, b, 8)
  }

  function Xor(s: seq<byte>, t: seq<byte>): (r: seq<byte>)
    requires |s| == |t|
    ensures |r| == |s|
  {
    seq(|s|, i requires 0 <= i < |s| => XorByte(s[i], t[i]))
  }

  lemma {:induction false} XorUndo(s: seq<byte>, t: seq<byte>)
    requires |s| == |t|
    ensures Xor(Xor(s, t), t) == s
  {
    forall i | 0 <= i < |s| ensures Xor(Xor(s, t), t)[i] == s[i] {
      Pow2Eight();
      XorTwice(s[i], t[i], 8);
    }
  }

  /** Binary digit i of n. */
  function Digit(n: nat, i: nat): nat {
    if i == 0 then n % 2 else Digit(n / 2, i - 1)
  }

  lemma {:induction false} XorDigits(a: nat, b: nat, n: nat, i: nat)
    requires i < n
    ensures Digit(XorBits(a, b, n), i) == (Digit(a, i) + Digit(b, i)) % 2
    decreases i
  {
    var x := XorBits(a / 2, b / 2, n - 1);
    HalfOf(a, b, x);
    if i > 0 {
      XorDigits(a / 2, b / 2, n - 1, i - 1);
    }
  }

  lemma HalfOf(a: nat, b: nat, x: nat)
    ensures ((a + b) % 2 + 2 * x) / 2 == x && ((a + b) % 2 + 2 * x) % 2 == (a % 2 + b % 2) % 2
  {
  }

  /** Every binary digit of the result is the sum of the operands' without carry. */
  lemma {:induction false} XorMeaning(s: seq<byte>, t: seq<byte>, j: nat, i: nat)
    requires |s| == |t| && j < |s| && i < 8
    ensures Digit(Xor(s, t)[j], i) == (Digit(s[j], i) + Digit(t[j], i)) % 2
  {
    XorDigits(s[j], t[j], 8, i);
  }

  // ---- block chaining ----

  function EncBlock(k: Keys, iv: seq<byte>, b: seq<byte>): seq<byte>
    requires |iv| == |b|
  {
    if k.cipher.NoCipher? then b else k.cipher.enc(Xor(b, iv))
  }

  function DecBlock(k: Keys, iv: seq<byte>, c: seq<byte>): (r: seq<byte>)
    requires |iv| == |c| && k.Sound() && |c| == k.blockSize
    ensures |r| == k.blockSize
  {
    if k.cipher.NoCipher? then c else Xor(k.cipher.dec(c), iv)
  }

  lemma {:induction false} BlockRoundTrip(k: Keys, iv: seq<byte>, b: seq<byte>)
    requires k.Sound() && |iv| == |b| == k.blockSize
    ensures |EncBlock(k, iv, b)| == k.blockSize && DecBlock(k, iv, EncBlock(k, iv, b)) == b
  {
    if k.cipher.Cbc? {
      var x := Xor(b, iv);
      assert k.cipher.dec(k.cipher.enc(x)) == x;
      XorUndo(b, iv);
    }
  }

  /** The chaining value after a ciphertext block. */
  function Chain(k: Keys, iv: seq<byte>, c: seq<byte>): (r: seq<byte>)
    ensures |iv| == |c| ==> |r| == |c|
  {
    if k.cipher.NoCipher? then iv else c
  }

  /** The part of n bytes that whole blocks cover. */
  function Whole(n: nat, bs: nat): nat
    requires bs > 0
  {
    if n < bs then 0 else bs + Whole(n - bs, bs)
  }

  lemma {:induction false} WholeBlocks(n: nat, bs: nat)
    requires (bs == 8 || bs == 16) && n % bs == 0
    ensures Whole(n, bs) == n
  {
    if n >= bs {
      ModLess(n, bs);
      WholeBlocks(n - bs, bs);
    }
  }

  lemma ModLess(n: nat, bs: nat)
    requires (bs == 8 || bs == 16) && n >= bs
    ensures (n - bs) % bs == n % bs
  {
    if bs == 8 {
    } else {
    }
  }

  function Encrypt(k: Keys, iv: seq<byte>, s: seq<byte>): (r: seq<byte>)
    requires k.Sound() && |iv| == k.blockSize
    ensures |r| == Whole(|s|, k.blockSize)
    decreases |s|
  {
    if |s| < k.blockSize then []
    else
      BlockRoundTrip(k, iv, s[..k.blockSize]);
      var c := EncBlock(k, iv, s[..k.blockSize]);
      c + Encrypt(k, Chain(k, iv, c), s[k.blockSize..])
  }

  function Decrypt(k: Keys, iv: seq<byte>, c: seq<byte>): (r: seq<byte>)
    requires k.Sound() && |iv| == k.blockSize
    ensures |r| == Whole(|c|, k.blockSize)
    decreases |c|
  {
    if |c| < k.blockSize then []
    else DecBlock(k, iv, c[..k.blockSize]) + Decrypt(k, Chain(k, iv, c[..k.blockSize]), c[k.blockSize..])
  }

  /** The chaining value after a whole ciphertext. */
  function ChainAll(k: Keys, iv: seq<byte>, c: seq<byte>): (r: seq<byte>)
    requires k.Sound() && |iv| == k.blockSize
    ensures |r| == k.blockSize
    decreases |c|
  {
    if |c| < k.blockSize then iv else ChainAll(k, Chain(k, iv, c[..k.blockSize]), c[k.blockSize..])
  }

  lemma {:induction false} DecryptEncrypt(k: Keys, iv: seq<byte>, s: seq<byte>)
    requires k.Sound() && |iv| == k.blockSize && Whole(|s|, k.blockSize) == |s|
    ensures Decrypt(k, iv, Encrypt(k, iv, s)) == s
    decreases |s|
  {
    var n := k.blockSize;
    if |s| < n {
      assert s == [];
    } else {
      hide EncBlock, DecBlock, Chain;
      BlockRoundTrip(k, iv, s[..n]);
      var c := EncBlock(k, iv, s[..n]);
      var rest := Encrypt(k, Chain(k, iv, c), s[n..]);
      assert (c + rest)[..n] == c && (c + rest)[n..] == rest;
      DecryptEncrypt(k, Chain(k, iv, c), s[n..]);
      assert s == s[..n] + s[n..];
    }
  }

  // ---- what chaining computes ----

  lemma {:induction false} EncryptFirst(k: Keys, iv: seq<byte>, s: seq<byte>)
    requires k.Sound() && k.cipher.Cbc? && |iv| == k.blockSize <= |s|
    ensures var n := k.blockSize;
      var b := k.cipher.enc(Xor(s[..n], iv));
      |b| == n && Encrypt(k, iv, s) == b + Encrypt(k, b, s[n..])
  {
    hide Xor;
    BlockRoundTrip(k, iv, s[..k.blockSize]);
  }

  lemma {:induction false} DecryptFirst(k: Keys, iv: seq<byte>, c: seq<byte>)
    requires k.Sound() && k.cipher.Cbc? && |iv| == k.blockSize <= |c|
    ensures var n := k.blockSize;
      |k.cipher.dec(c[..n])| == n &&
      var b := Xor(k.cipher.dec(c[..n]), iv);
      |b| == n && Decrypt(k, iv, c) == b + Decrypt(k, c[..n], c[n..])
  {
    hide Xor;
  }

  lemma Further(n: nat, at: nat)
    requires (n == 8 || n == 16) && at % n == 0 && at > 0
    ensures n <= at && (at - n) % n == 0 && (at == n || 2 * n <= at)
  {
    if n == 8 {
    } else {
    }
  }

  /** The block of s at position at. */
  function BlockAt(s: seq<byte>, n: nat, at: nat): (r: seq<byte>)
    requires at + n <= |s|
    ensures |r| == n
  {
    s[at..at + n]
  }

  /** The block before it, or the initial value before the first. */
  function BlockBefore(iv: seq<byte>, s: seq<byte>, n: nat, at: nat): (r: seq<byte>)
    requires at == 0 || n <= at
    requires at <= |s| && |iv| == n
    ensures |r| == n
  {
    if at == 0 then iv else s[at - n..at]
  }

  lemma NextBlock(iv: seq<byte>, b: seq<byte>, rest: seq<byte>, n: nat, at: nat)
    requires |iv| == |b| == n && n <= at && (at == n || 2 * n <= at) && at + n <= |b + rest|
    ensures BlockAt(b + rest, n, at) == BlockAt(rest, n, at - n)
    ensures BlockBefore(iv, b + rest, n, at) == BlockBefore(b, rest, n, at - n)
  {
  }

  /** Cipher block chaining: every block is combined with the ciphertext block before it and then encrypted. */
  lemma {:induction false} CbcEncrypts(k: Keys, iv: seq<byte>, s: seq<byte>, at: nat)
    requires k.Sound() && k.cipher.Cbc? && |iv| == k.blockSize
    requires at % k.blockSize == 0 && at + k.blockSize <= |s|
    ensures var n, c := k.blockSize, Encrypt(k, iv, s);
      && at + n <= |c| && (at == 0 || n <= at)
      && BlockAt(c, n, at) == k.cipher.enc(Xor(BlockAt(s, n, at), BlockBefore(iv, c, n, at)))
    decreases at
  {
    hide Xor, Encrypt, Whole, BlockAt, BlockBefore, Keys.Sound;
    var n := k.blockSize;
    BlockSizes(k);
    EncryptFirst(k, iv, s);
    var b := k.cipher.enc(Xor(s[..n], iv));
    var rest := Encrypt(k, b, s[n..]);
    if at == 0 {
      FirstOf(iv, b, rest, n);
      FirstOf(iv, s[..n], s[n..], n);
      assert s[..n] + s[n..] == s;
    } else {
      Further(n, at);
      CbcEncrypts(k, b, s[n..], at - n);
      NextBlock(iv, b, rest, n, at);
      NextBlock(iv, s[..n], s[n..], n, at);
      assert s[..n] + s[n..] == s;
    }
  }

  lemma BlockSizes(k: Keys)
    requires k.Sound()
    ensures k.blockSize == 8 || k.blockSize == 16
  {
  }

  lemma FirstOf(iv: seq<byte>, b: seq<byte>, rest: seq<byte>, n: nat)
    requires |iv| == |b| == n
    ensures BlockAt(b + rest, n, 0) == b && BlockBefore(iv, b + rest, n, 0) == iv
  {
  }

  lemma {:induction false} CbcDecrypts(k: Keys, iv: seq<byte>, c: seq<byte>, at: nat)
    requires k.Sound() && k.cipher.Cbc? && |iv| == k.blockSize
    requires at % k.blockSize == 0 && at + k.blockSize <= |c|
    ensures var n, s := k.blockSize, Decrypt(k, iv, c);
      && at + n <= |s| && (at == 0 || n <= at)
      && |k.cipher.dec(BlockAt(c, n, at))| == n
      && BlockAt(s, n, at) == Xor(k.cipher.dec(BlockAt(c, n, at)), BlockBefore(iv, c, n, at))
    decreases at
  {
    hide Xor, Decrypt, Whole, BlockAt, BlockBefore, Keys.Sound;
    var n := k.blockSize;
    BlockSizes(k);
    DecryptFirst(k, iv, c);
    var b := Xor(k.cipher.dec(c[..n]), iv);
    var rest := Decrypt(k, c[..n], c[n..]);
    if at == 0 {
      FirstOf(iv, b, rest, n);
      FirstOf(iv, c[..n], c[n..], n);
      assert c[..n] + c[n..] == c;
    } else {
      Further(n, at);
      CbcDecrypts(k, c[..n], c[n..], at - n);
      NextBlock(iv, b, rest, n, at);
      NextBlock(iv, c[..n], c[n..], n, at);
      assert c[..n] + c[n..] == c;
    }
  }

  /** The chaining value is the last ciphertext block, and without a cipher nothing changes at all. */
  lemma {:induction false} ChainIsLast(k: Keys, iv: seq<byte>, c: seq<byte>)
    requires k.Sound() && |iv| == k.blockSize && Whole(|c|, k.blockSize) == |c|
    ensures k.cipher.Cbc? ==> ChainAll(k, iv, c) == if c == [] then iv else c[|c| - k.blockSize..]
    ensures k.cipher.NoCipher? ==> ChainAll(k, iv, c) == iv && Encrypt(k, iv, c) == c && Decrypt(k, iv, c) == c
    decreases |c|
  {
    var n := k.blockSize;
    if |c| >= n {
      ChainIsLast(k, if k.cipher.NoCipher? then iv else c[..n], c[n..]);
      assert c == c[..n] + c[n..];
      if c[n..] == [] {
        assert c == c[..n] && |c| == n;
      } else {
        assert c[n..][|c| - n - n..] == c[|c| - n..];
      }
    } else {
      assert c == [];
    }
  }

  // ---- packets ----

  /** Padding for a cleartext of n bytes before padding. */
  function PadLength(bs: nat, n: nat): nat
    requires bs == 8 || bs == 16
  {
    var p := bs - n % bs;
    var q := if p < 4 then p + bs else p;
    if n + q < MIN_PACKET_LEN then q + bs else q
  }

  /** At least four bytes of padding, whole blocks, the minimum packet length, and never more than the cleartext
      buffer leaves room for. */
  lemma PadFacts(bs: nat, n: nat)
    requires bs == 8 || bs == 16
    requires n >= PAYLOAD_OFF
    ensures var p := PadLength(bs, n);
      4 <= p <= MIN_PACKET_LEN + 3 && (n + p) % bs == 0 && n + p >= MIN_PACKET_LEN
  {
    if bs == 8 {
    } else {
    }
  }

  /** No shorter padding would do. */
  lemma PadShortest(bs: nat, n: nat, q: nat)
    requires bs == 8 || bs == 16
    requires n >= PAYLOAD_OFF && q >= 4 && (n + q) % bs == 0 && n + q >= MIN_PACKET_LEN
    ensures PadLength(bs, n) <= q
  {
    if bs == 8 {
      Shortest8(n, q);
    } else {
      Shortest16(n, q);
    }
  }

  lemma Shortest8(n: nat, q: nat)
    requires q >= 4 && (n + q) % 8 == 0 && n + q >= MIN_PACKET_LEN
    ensures PadLength(8, n) <= q
  {
    var p := PadLength(8, n);
    assert (n + p) % 8 == 0 && p < 20;
  }

  lemma Shortest16(n: nat, q: nat)
    requires q >= 4 && (n + q) % 16 == 0 && n + q >= MIN_PACKET_LEN
    ensures PadLength(16, n) <= q
  {
    var p := PadLength(16, n);
    assert (n + p) % 16 == 0 && p < 36;
  }

  /** A message with its random padding. */
  datatype Packet = Packet(payload: seq<byte>, padding: seq<byte>)
  {
    ghost predicate Fits(k: Keys) {
      && (k.blockSize == 8 || k.blockSize == 16)
      && 1 <= |payload| <= MAX_PAYLOAD_LEN
      && |padding| == PadLength(k.blockSize, PAYLOAD_OFF + |payload|)
    }
  }

  function Clear(p: Packet): (r: seq<byte>)
    requires |p.padding| < 256
    ensures |r| == PAYLOAD_OFF + |p.payload| + |p.padding|
  {
    Be32(1 + |p.payload| + |p.padding|) + ([|p.padding|] + p.payload + p.padding)
  }

  lemma ClearFacts(k: Keys, p: Packet)
    requires k.Sound() && p.Fits(k)
    ensures 4 <= |p.padding| <= 19
    ensures |Clear(p)| >= MIN_PACKET_LEN && Whole(|Clear(p)|, k.blockSize) == |Clear(p)|
    ensures |Clear(p)| + k.macSize <= MAX_PACKET_LEN
    ensures BeWord(Clear(p)) == |Clear(p)| - 4
    ensures Clear(p)[4] == |p.padding|
    ensures Clear(p)[PAYLOAD_OFF..|Clear(p)| - |p.padding|] == p.payload
    ensures Clear(p)[|Clear(p)| - |p.padding|..] == p.padding
  {
    hide PadLength, Be32, BeWord;
    PadFacts(k.blockSize, PAYLOAD_OFF + |p.payload|);
    var w := 1 + |p.payload| + |p.padding|;
    BeRoundTrip(w, [|p.padding|] + p.payload + p.padding);
    var c := Clear(p);
    WholeBlocks(|c|, k.blockSize);
    assert c[4] == ([|p.padding|] + p.payload + p.padding)[0];
    assert c[PAYLOAD_OFF..|c| - |p.padding|] == p.payload;
    assert c[|c| - |p.padding|..] == p.padding;
  }

  lemma ClearBlocks(k: Keys, p: Packet)
    requires k.Sound() && p.Fits(k)
    ensures |p.padding| < 256 && |Clear(p)| % k.blockSize == 0
  {
    PadFacts(k.blockSize, PAYLOAD_OFF + |p.payload|);
  }

  /** What encrypt_packet puts on the wire. */
  function Wire(k: Keys, num: nat, iv: seq<byte>, p: Packet): (r: seq<byte>)
    requires k.Sound() && |iv| == k.blockSize && |p.padding| < 256
  {
    Encrypt(k, iv, Clear(p)) + k.mac(Be32(num) + Clear(p))
  }

  lemma {:induction false} WireLength(k: Keys, num: nat, iv: seq<byte>, p: Packet)
    requires k.Sound() && |iv| == k.blockSize && p.Fits(k)
    ensures 4 <= |p.padding| <= 19
    ensures |Wire(k, num, iv, p)| == |Clear(p)| + k.macSize
    ensures k.blockSize < |Wire(k, num, iv, p)| <= MAX_PACKET_LEN
  {
    hide Encrypt, Clear;
    ClearFacts(k, p);
  }
}
