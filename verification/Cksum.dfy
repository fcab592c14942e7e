/** The POSIX cksum of cksum.c: a table-driven CRC, the polynomial division it computes, and tagged files. */
module Cksum {
  import opened Wrappers

  const POLY: bv32 := 0x04C11DB7

  /** One step of the division register: the bit shifted out decides whether the generator is subtracted. */
  function Step(c: bv32): bv32 {
    Xor(c << 1, Generator(c))
  }

  function Generator(c: bv32): bv32 {
    if c & 0x8000_0000 != 0 then POLY else 0
  }

  function Xor(a: bv32, b: bv32): bv32 {
    a ^ b
  }

  function Not(a: bv32): bv32 {
    !a
  }

  function Steps(n: nat, c: bv32): bv32 {
    if n == 0 then c else Steps(n - 1, Step(c))
  }

  function Step8(c: bv32): bv32 {
    Step(Step(Step(Step(Step(Step(Step(Step(c))))))))
  }

  /** Entry i of a row of sixteen. */
  function Pick(i: bv8, a0: bv32, a1: bv32, a2: bv32, a3: bv32, a4: bv32, a5: bv32, a6: bv32, a7: bv32,
                a8: bv32, a9: bv32, a10: bv32, a11: bv32, a12: bv32, a13: bv32, a14: bv32, a15: bv32): bv32
  {
    var j := i & 0x0F;
    if j < 8 then
      (if j < 4 then (if j < 2 then (if j == 0 then a0 else a1) else (if j == 2 then a2 else a3))
       else (if j < 6 then (if j == 4 then a4 else a5) else (if j == 6 then a6 else a7)))
    else
      (if j < 12 then (if j < 10 then (if j == 8 then a8 else a9) else (if j == 10 then a10 else a11))
       else (if j < 14 then (if j == 12 then a12 else a13) else (if j == 14 then a14 else a15)))
  }

  /** crctab */
  function Table(i: bv8): bv32 {
    if i < 0x80 then
      if i < 0x40 then
        if i < 0x20 then
          if i < 0x10 then
            Pick(i,
                 0x00000000, 0x04C11DB7, 0x09823B6E, 0x0D4326D9,
                 0x130476DC, 0x17C56B6B, 0x1A864DB2, 0x1E475005,
                 0x2608EDB8, 0x22C9F00F, 0x2F8AD6D6, 0x2B4BCB61,
                 0x350C9B64, 0x31CD86D3, 0x3C8EA00A, 0x384FBDBD)
          else
            Pick(i,
                 0x4C11DB70, 0x48D0C6C7, 0x4593E01E, 0x4152FDA9,
                 0x5F15ADAC, 0x5BD4B01B, 0x569796C2, 0x52568B75,
                 0x6A1936C8, 0x6ED82B7F, 0x639B0DA6, 0x675A1011,
                 0x791D4014, 0x7DDC5DA3, 0x709F7B7A, 0x745E66CD)
        else
          if i < 0x30 then
            Pick(i,
                 0x9823B6E0, 0x9CE2AB57, 0x91A18D8E, 0x95609039,
                 0x8B27C03C, 0x8FE6DD8B, 0x82A5FB52, 0x8664E6E5,
                 0xBE2B5B58, 0xBAEA46EF, 0xB7A96036, 0xB3687D81,
                 0xAD2F2D84, 0xA9EE3033, 0xA4AD16EA, 0xA06C0B5D)
          else
            Pick(i,
                 0xD4326D90, 0xD0F37027, 0xDDB056FE, 0xD9714B49,
                 0xC7361B4C, 0xC3F706FB, 0xCEB42022, 0xCA753D95,
                 0xF23A8028, 0xF6FB9D9F, 0xFBB8BB46, 0xFF79A6F1,
                 0xE13EF6F4, 0xE5FFEB43, 0xE8BCCD9A, 0xEC7DD02D)
      else
        if i < 0x60 then
          if i < 0x50 then
            Pick(i,
                 0x34867077, 0x30476DC0, 0x3D044B19, 0x39C556AE,
                 0x278206AB, 0x23431B1C, 0x2E003DC5, 0x2AC12072,
                 0x128E9DCF, 0x164F8078, 0x1B0CA6A1, 0x1FCDBB16,
                 0x018AEB13, 0x054BF6A4, 0x0808D07D, 0x0CC9CDCA)
          else
            Pick(i,
                 0x7897AB07, 0x7C56B6B0, 0x71159069, 0x75D48DDE,
                 0x6B93DDDB, 0x6F52C06C, 0x6211E6B5, 0x66D0FB02,
                 0x5E9F46BF, 0x5A5E5B08, 0x571D7DD1, 0x53DC6066,
                 0x4D9B3063, 0x495A2DD4, 0x44190B0D, 0x40D816BA)
        else
          if i < 0x70 then
            Pick(i,
                 0xACA5C697, 0xA864DB20, 0xA527FDF9, 0xA1E6E04E,
                 0xBFA1B04B, 0xBB60ADFC, 0xB6238B25, 0xB2E29692,
                 0x8AAD2B2F, 0x8E6C3698, 0x832F1041, 0x87EE0DF6,
                 0x99A95DF3, 0x9D684044, 0x902B669D, 0x94EA7B2A)
          else
            Pick(i,
                 0xE0B41DE7, 0xE4750050, 0xE9362689, 0xEDF73B3E,
                 0xF3B06B3B, 0xF771768C, 0xFA325055, 0xFEF34DE2,
                 0xC6BCF05F, 0xC27DEDE8, 0xCF3ECB31, 0xCBFFD686,
                 0xD5B88683, 0xD1799B34, 0xDC3ABDED, 0xD8FBA05A)
    else
      if i < 0xC0 then
        if i < 0xA0 then
          if i < 0x90 then
            Pick(i,
                 0x690CE0EE, 0x6DCDFD59, 0x608EDB80, 0x644FC637,
                 0x7A089632, 0x7EC98B85, 0x738AAD5C, 0x774BB0EB,
                 0x4F040D56, 0x4BC510E1, 0x46863638, 0x42472B8F,
                 0x5C007B8A, 0x58C1663D, 0x558240E4, 0x51435D53)
          else
            Pick(i,
                 0x251D3B9E, 0x21DC2629, 0x2C9F00F0, 0x285E1D47,
                 0x36194D42, 0x32D850F5, 0x3F9B762C, 0x3B5A6B9B,
                 0x0315D626, 0x07D4CB91, 0x0A97ED48, 0x0E56F0FF,
                 0x1011A0FA, 0x14D0BD4D, 0x19939B94, 0x1D528623)
        else
          if i < 0xB0 then
            Pick(i,
                 0xF12F560E, 0xF5EE4BB9, 0xF8AD6D60, 0xFC6C70D7,
                 0xE22B20D2, 0xE6EA3D65, 0xEBA91BBC, 0xEF68060B,
                 0xD727BBB6, 0xD3E6A601, 0xDEA580D8, 0xDA649D6F,
                 0xC423CD6A, 0xC0E2D0DD, 0xCDA1F604, 0xC960EBB3)
          else
            Pick(i,
                 0xBD3E8D7E, 0xB9FF90C9, 0xB4BCB610, 0xB07DABA7,
                 0xAE3AFBA2, 0xAAFBE615, 0xA7B8C0CC, 0xA379DD7B,
                 0x9B3660C6, 0x9FF77D71, 0x92B45BA8, 0x9675461F,
                 0x8832161A, 0x8CF30BAD, 0x81B02D74, 0x857130C3)
      else
        if i < 0xE0 then
          if i < 0xD0 then
            Pick(i,
                 0x5D8A9099, 0x594B8D2E, 0x5408ABF7, 0x50C9B640,
                 0x4E8EE645, 0x4A4FFBF2, 0x470CDD2B, 0x43CDC09C,
                 0x7B827D21, 0x7F436096, 0x7200464F, 0x76C15BF8,
                 0x68860BFD, 0x6C47164A, 0x61043093, 0x65C52D24)
          else
            Pick(i,
                 0x119B4BE9, 0x155A565E, 0x18197087, 0x1CD86D30,
                 0x029F3D35, 0x065E2082, 0x0B1D065B, 0x0FDC1BEC,
                 0x3793A651, 0x3352BBE6, 0x3E119D3F, 0x3AD08088,
                 0x2497D08D, 0x2056CD3A, 0x2D15EBE3, 0x29D4F654)
        else
          if i < 0xF0 then
            Pick(i,
                 0xC5A92679, 0xC1683BCE, 0xCC2B1D17, 0xC8EA00A0,
                 0xD6AD50A5, 0xD26C4D12, 0xDF2F6BCB, 0xDBEE767C,
                 0xE3A1CBC1, 0xE760D676, 0xEA23F0AF, 0xEEE2ED18,
                 0xF0A5BD1D, 0xF464A0AA, 0xF9278673, 0xFDE69BC4)
          else
            Pick(i,
                 0x89B8FD09, 0x8D79E0BE, 0x803AC667, 0x84FBDBD0,
                 0x9ABC8BD5, 0x9E7D9662, 0x933EB0BB, 0x97FFAD0C,
                 0xAFB010B1, 0xAB710D06, 0xA6322BDF, 0xA2F33668,
                 0xBCB4666D, 0xB8757BDA, 0xB5365D03, 0xB1F740B4)
  }

  lemma Eighth0(i: bv8)
    requires i < 0x20
    ensures Table(i) == Step8((i as bv32) << 24)
  {
  }

  lemma Eighth1(i: bv8)
    requires 0x20 <= i < 0x40
    ensures Table(i) == Step8((i as bv32) << 24)
  {
  }

  lemma Eighth2(i: bv8)
    requires 0x40 <= i < 0x60
    ensures Table(i) == Step8((i as bv32) << 24)
  {
  }

  lemma Eighth3(i: bv8)
    requires 0x60 <= i < 0x80
    ensures Table(i) == Step8((i as bv32) << 24)
  {
  }

  lemma Eighth4(i: bv8)
    requires 0x80 <= i < 0xA0
    ensures Table(i) == Step8((i as bv32) << 24)
  {
  }

  lemma Eighth5(i: bv8)
    requires 0xA0 <= i < 0xC0
    ensures Table(i) == Step8((i as bv32) << 24)
  {
  }

  lemma Eighth6(i: bv8)
    requires 0xC0 <= i < 0xE0
    ensures Table(i) == Step8((i as bv32) << 24)
  {
  }

  lemma Eighth7(i: bv8)
    requires 0xE0 <= i
    ensures Table(i) == Step8((i as bv32) << 24)
  {
  }

  /** Every entry is the remainder of its index shifted up by 32 bits. */
  lemma TableEntry(i: bv8)
    ensures Table(i) == Steps(8, (i as bv32) << 24)
  {
    hide Table, Step8, Steps;
    EightSteps((i as bv32) << 24);
    if i < 0x80 {
      if i < 0x20 {
        Eighth0(i);
      } else if i < 0x40 {
        Eighth1(i);
      } else if i < 0x60 {
        Eighth2(i);
      } else {
        Eighth3(i);
      }
    } else {
      if i < 0xA0 {
        Eighth4(i);
      } else if i < 0xC0 {
        Eighth5(i);
      } else if i < 0xE0 {
        Eighth6(i);
      } else {
        Eighth7(i);
      }
    }
  }

  lemma ShiftBits(a: bv32, b: bv32)
    ensures (a ^ b) << 1 == (a << 1) ^ (b << 1)
  {
  }

  lemma XorIs(a: bv32, b: bv32)
    ensures Xor(a, b) == a ^ b
  {
  }

  lemma ShiftXor(a: bv32, b: bv32)
    ensures Xor(a, b) << 1 == Xor(a << 1, b << 1)
  {
    hide Xor;
    XorIs(a, b);
    XorIs(a << 1, b << 1);
    ShiftBits(a, b);
  }

  lemma TopXor(a: bv32, b: bv32)
    ensures Xor(a, b) & 0x8000_0000 != 0 <==> (a & 0x8000_0000 != 0) != (b & 0x8000_0000 != 0)
  {
  }

  lemma GeneratorValues()
    ensures Xor(POLY, POLY) == 0 && Xor(POLY, 0) == POLY && Xor(0, POLY) == POLY && Xor(0, 0) == 0
  {
  }

  lemma GeneratorXor(a: bv32, b: bv32)
    ensures Generator(Xor(a, b)) == Xor(Generator(a), Generator(b))
  {
    hide Xor;
    TopXor(a, b);
    GeneratorValues();
  }

  lemma XorSymmetric(a: bv32, b: bv32)
    ensures Xor(a, b) == Xor(b, a)
  {
  }

  lemma XorAssoc(a: bv32, b: bv32, c: bv32)
    ensures Xor(Xor(a, b), c) == Xor(a, Xor(b, c))
  {
  }

  lemma XorSwap(a: bv32, b: bv32, c: bv32, d: bv32)
    ensures Xor(Xor(a, b), Xor(c, d)) == Xor(Xor(a, c), Xor(b, d))
  {
    hide Xor;
    XorAssoc(a, b, Xor(c, d));
    XorAssoc(b, c, d);
    XorSymmetric(b, c);
    XorAssoc(c, b, d);
    XorAssoc(a, c, Xor(b, d));
  }

  /** The division is linear. */
  lemma StepXor(a: bv32, b: bv32)
    ensures Step(Xor(a, b)) == Xor(Step(a), Step(b))
  {
    hide Generator, Xor;
    ShiftXor(a, b);
    GeneratorXor(a, b);
    XorSwap(a << 1, b << 1, Generator(a), Generator(b));
  }

  lemma {:induction false} StepsXor(n: nat, a: bv32, b: bv32)
    ensures Steps(n, Xor(a, b)) == Xor(Steps(n, a), Steps(n, b))
    decreases n
  {
    if n > 0 {
      hide Step, Xor;
      StepXor(a, b);
      StepsXor(n - 1, Step(a), Step(b));
    }
  }

  lemma {:induction false} StepsAdd(m: nat, n: nat, c: bv32)
    ensures Steps(m + n, c) == Steps(n, Steps(m, c))
    decreases m
  {
    if m > 0 {
      hide Step;
      StepsAdd(m - 1, n, Step(c));
    }
  }

  // ---- bytes and bits ----

  /** crc = (crc << 8) ^ crctab[((crc >> 24) ^ b) & 0xFF] */
  function TableStep(c: bv32, b: bv8): bv32 {
    Xor(c << 8, Table(((c >> 24) & 0xFF) as bv8 ^ b))
  }

  /** The byte enters at the top of the register, then eight steps. */
  function ByteStep(c: bv32, b: bv8): bv32 {
    Steps(8, Xor(c, (b as bv32) << 24))
  }

  lemma EightSteps(c: bv32)
    ensures Steps(8, c) == Step8(c)
  {
    hide Step;
    var d := Step(Step(Step(Step(c))));
    assert Steps(8, c) == Steps(7, Step(c)) == Steps(6, Step(Step(c))) == Steps(5, Step(Step(Step(c)))) == Steps(4, d);
    assert Steps(4, d) == Steps(3, Step(d)) == Steps(2, Step(Step(d))) == Steps(1, Step(Step(Step(d))));
    assert Steps(1, Step(Step(Step(d)))) == Steps(0, Step(Step(Step(Step(d)))));
  }

  lemma LowSteps(c: bv32)
    ensures Step8(c & 0x00FF_FFFF) == c << 8
  {
  }

  lemma TopByte(c: bv32, b: bv8)
    ensures c ^ ((b as bv32) << 24) == (c & 0x00FF_FFFF) ^ (((((c >> 24) & 0xFF) as bv8 ^ b) as bv32) << 24)
  {
  }

  /** The table does in one lookup what eight steps of the division do. */
  lemma {:induction false} TableIsDivision(c: bv32, b: bv8)
    ensures TableStep(c, b) == ByteStep(c, b)
  {
    var low, index := c & 0x00FF_FFFF, ((c >> 24) & 0xFF) as bv8 ^ b;
    var top := (index as bv32) << 24;
    XorIs(c, (b as bv32) << 24);
    XorIs(low, top);
    TopByte(c, b);
    LowSteps(c);
    hide Xor, Steps, Step8, Table;
    EightSteps(low);
    StepsXor(8, low, top);
    TableEntry(index);
  }

  // ---- bit by bit ----

  /** A message bit enters at the top of the register. */
  function BitStep(c: bv32, m: bool): bv32 {
    Step(Xor(c, Entering(m)))
  }

  function Entering(m: bool): bv32 {
    if m then 0x8000_0000 else 0
  }

  function BitCrc(c: bv32, bits: seq<bool>): bv32
    decreases |bits|
  {
    if bits == [] then c else BitCrc(BitStep(c, bits[0]), bits[1..])
  }

  lemma {:induction false} BitCrcCat(c: bv32, a: seq<bool>, b: seq<bool>)
    ensures BitCrc(c, a + b) == BitCrc(BitCrc(c, a), b)
    decreases |a|
  {
    if a == [] {
      assert a + b == b;
    } else {
      hide BitStep;
      assert (a + b)[1..] == a[1..] + b;
      BitCrcCat(BitStep(c, a[0]), a[1..], b);
    }
  }

  /** The top n bits of w, most significant first. */
  function Top(n: nat, w: bv32): (r: seq<bool>)
    ensures |r| == n
  {
    if n == 0 then [] else [w & 0x8000_0000 != 0] + Top(n - 1, w << 1)
  }

  function Shifted(n: nat, w: bv32): bv32 {
    if n == 0 then w else Shifted(n - 1, w << 1)
  }

  function Rest(w: bv32): bv32 {
    w & 0x7FFF_FFFF
  }

  lemma TopAndRest(w: bv32)
    ensures w == Xor(Entering(w & 0x8000_0000 != 0), Rest(w))
  {
  }

  lemma RestShifts(w: bv32)
    ensures Step(Rest(w)) == w << 1
  {
  }

  lemma {:induction false} OneBit(c: bv32, w: bv32)
    ensures Step(Xor(c, w)) == Xor(BitStep(c, w & 0x8000_0000 != 0), w << 1)
  {
    hide Xor, Step, Rest, Entering;
    TopAndRest(w);
    RestShifts(w);
    var top := Entering(w & 0x8000_0000 != 0);
    XorAssoc(c, top, Rest(w));
    StepXor(Xor(c, top), Rest(w));
  }

  lemma {:induction false} StepsAreBits(n: nat, c: bv32, w: bv32)
    ensures Steps(n, Xor(c, w)) == Xor(BitCrc(c, Top(n, w)), Shifted(n, w))
    decreases n
  {
    if n > 0 {
      hide Xor, Step, BitStep;
      OneBit(c, w);
      var bits := Top(n, w);
      assert bits[1..] == Top(n - 1, w << 1);
      StepsAreBits(n - 1, BitStep(c, bits[0]), w << 1);
    }
  }

  /** The bits of a byte. */
  function Bits8(b: bv8): (r: seq<bool>)
    ensures |r| == 8
  {
    Top(8, (b as bv32) << 24)
  }

  lemma AllShiftedOut(b: bv8)
    ensures Shifted(8, (b as bv32) << 24) == 0
  {
    var w := (b as bv32) << 24;
    assert Shifted(8, w) == Shifted(7, w << 1) == Shifted(6, w << 1 << 1) == Shifted(5, w << 1 << 1 << 1);
    assert Shifted(5, w << 1 << 1 << 1) == Shifted(4, w << 1 << 1 << 1 << 1);
    var v := w << 1 << 1 << 1 << 1;
    assert Shifted(4, v) == Shifted(3, v << 1) == Shifted(2, v << 1 << 1) == Shifted(1, v << 1 << 1 << 1);
    assert Shifted(1, v << 1 << 1 << 1) == Shifted(0, v << 1 << 1 << 1 << 1);
  }

  lemma XorZero(c: bv32)
    ensures Xor(c, 0) == c
  {
  }

  lemma {:induction false} ByteIsBits(c: bv32, b: bv8)
    ensures ByteStep(c, b) == BitCrc(c, Bits8(b))
  {
    hide Xor, Steps, BitCrc, Shifted;
    StepsAreBits(8, c, (b as bv32) << 24);
    AllShiftedOut(b);
    XorZero(BitCrc(c, Bits8(b)));
  }

  // ---- long division ----

  /** Long division of a polynomial over GF(2) by x^32 + POLY: the next coefficient is brought down, and the generator
      is subtracted when the leading coefficient is one. */
  function Divide(r: bv32, bits: seq<bool>): bv32
    decreases |bits|
  {
    if bits == [] then r else Divide(Xor(Step(r), if bits[0] then 1 else 0), bits[1..])
  }

  lemma {:induction false} DivideCat(r: bv32, a: seq<bool>, b: seq<bool>)
    ensures Divide(r, a + b) == Divide(Divide(r, a), b)
    decreases |a|
  {
    if a == [] {
      assert a + b == b;
    } else {
      hide Xor, Step;
      assert (a + b)[1..] == a[1..] + b;
      DivideCat(Xor(Step(r), if a[0] then 1 else 0), a[1..], b);
    }
  }

  function Falses(n: nat): (r: seq<bool>)
    ensures |r| == n
  {
    if n == 0 then [] else [false] + Falses(n - 1)
  }

  lemma {:induction false} DivideZeros(n: nat, r: bv32)
    ensures Divide(r, Falses(n)) == Steps(n, r)
    decreases n
  {
    if n > 0 {
      hide Xor, Step;
      XorZero(Step(r));
      assert Falses(n)[1..] == Falses(n - 1);
      DivideZeros(n - 1, Step(r));
    }
  }

  lemma OneThroughRegister()
    ensures Steps(32, 1) == Step(0x8000_0000) && Steps(32, 0) == 0
  {
    EightSteps(1);
    EightSteps(0x100);
    EightSteps(0x1_0000);
    EightSteps(0x100_0000);
    EightSteps(0);
    EightValues();
    hide Steps, Step8;
    StepsAdd(8, 24, 1);
    StepsAdd(8, 16, 0x100);
    StepsAdd(8, 8, 0x1_0000);
    StepsAdd(8, 24, 0);
    StepsAdd(8, 16, 0);
    StepsAdd(8, 8, 0);
  }

  lemma EightValues()
    ensures Step8(1) == 0x100 && Step8(0x100) == 0x1_0000 && Step8(0x1_0000) == 0x100_0000
    ensures Step8(0x100_0000) == Step(0x8000_0000) && Step8(0) == 0
  {
  }

  /** Bringing a coefficient down before 32 more steps is entering it at the top after them. */
  lemma {:induction false} BringDown(r: bv32, m: bool)
    ensures BitStep(Steps(32, r), m) == Steps(32, Xor(Step(r), if m then 1 else 0))
  {
    OneThroughRegister();
    hide Xor, Step, Steps;
    var low := if m then 1 else 0;
    StepXor(Steps(32, r), Entering(m));
    StepsXor(32, Step(r), low);
    StepsOnce(r);
    StepZero();
  }

  lemma StepZero()
    ensures Step(0) == 0
  {
  }

  lemma {:induction false} StepsOnce(r: bv32)
    ensures Steps(32, Step(r)) == Step(Steps(32, r))
  {
    StepsAdd(1, 32, r);
    StepsAdd(32, 1, r);
    hide Step;
    assert Steps(1, r) == Step(r) && Steps(1, Steps(32, r)) == Step(Steps(32, r));
  }

  lemma {:induction false} BitsDivide(r: bv32, bits: seq<bool>)
    ensures BitCrc(Steps(32, r), bits) == Steps(32, Divide(r, bits))
    decreases |bits|
  {
    if bits != [] {
      hide Xor, Step, Steps, BitStep;
      BringDown(r, bits[0]);
      BitsDivide(Xor(Step(r), if bits[0] then 1 else 0), bits[1..]);
    }
  }

  // ---- whole messages ----

  function Crc(c: bv32, data: seq<bv8>): bv32
    decreases |data|
  {
    if data == [] then c else Crc(TableStep(c, data[0]), data[1..])
  }

  function BitsOf(data: seq<bv8>): seq<bool> {
    if data == [] then [] else Bits8(data[0]) + BitsOf(data[1..])
  }

  lemma {:induction false} CrcIsBits(c: bv32, data: seq<bv8>)
    ensures Crc(c, data) == BitCrc(c, BitsOf(data))
    decreases |data|
  {
    if data != [] {
      hide TableStep, ByteStep, BitCrc, Bits8;
      TableIsDivision(c, data[0]);
      ByteIsBits(c, data[0]);
      BitCrcCat(c, Bits8(data[0]), BitsOf(data[1..]));
      CrcIsBits(TableStep(c, data[0]), data[1..]);
    } else {
      assert BitsOf(data) == [];
    }
  }

  /** The table-driven loop computes the remainder of the message, with 32 zeros appended, by the generator
      polynomial. */
  lemma {:induction false} CrcIsRemainder(data: seq<bv8>)
    ensures Crc(0, data) == Divide(0, BitsOf(data) + Falses(32))
  {
    hide Crc, BitCrc, Divide, Steps, BitsOf, Falses;
    var bits := BitsOf(data);
    CrcIsBits(0, data);
    OneThroughRegister();
    BitsDivide(0, bits);
    DivideCat(0, bits, Falses(32));
    DivideZeros(32, Divide(0, bits));
  }

  // ---- buffers and files ----

  /** The bytes of the length, least significant first, without leading zeros. */
  function LengthBytes(n: nat): seq<bv8> {
    if n == 0 then [] else [(n % 256) as bv8] + LengthBytes(n / 256)
  }

  /** The POSIX checksum: the complement of the CRC of the data and its length. */
  function Posix(data: seq<bv8>): bv32 {
    Not(Crc(0, data + LengthBytes(|data|)))
  }

  /** ... which is bit-by-bit division. */
  lemma {:induction false} PosixIsDivision(data: seq<bv8>)
    ensures Posix(data) == Not(Divide(0, BitsOf(data + LengthBytes(|data|)) + Falses(32)))
  {
    hide Crc, Divide, BitsOf, Falses, LengthBytes;
    CrcIsRemainder(data + LengthBytes(|data|));
  }

  lemma {:induction false} CrcCat(c: bv32, a: seq<bv8>, b: seq<bv8>)
    ensures Crc(c, a + b) == Crc(Crc(c, a), b)
    decreases |a|
  {
    if a == [] {
      assert a + b == b;
    } else {
      hide TableStep;
      assert (a + b)[1..] == a[1..] + b;
      CrcCat(TableStep(c, a[0]), a[1..], b);
    }
  }

  lemma {:induction false} CrcNext(data: seq<bv8>, k: nat)
    requires k < |data|
    ensures Crc(0, data[..k + 1]) == TableStep(Crc(0, data[..k]), data[k])
  {
    hide TableStep;
    assert data[..k + 1] == data[..k] + [data[k]];
    CrcCat(0, data[..k], [data[k]]);
    assert Crc(Crc(0, data[..k]), [data[k]]) == TableStep(Crc(0, data[..k]), data[k]);
  }

  /** The loop over the bytes of the length, and the final complement. */
  method Finish(data: seq<bv8>, crc: bv32) returns (sum: bv32)
    requires crc == Crc(0, data)
    ensures sum == Posix(data)
  {
    hide Crc, TableStep;
    var c, length: nat := crc, |data|;
    CrcCat(0, data, LengthBytes(|data|));
    while length > 0
      invariant Crc(c, LengthBytes(length)) == Crc(0, data + LengthBytes(|data|))
    {
      CrcFirst(c, (length % 256) as bv8, LengthBytes(length / 256));
      c := TableStep(c, (length % 256) as bv8);
      length := length / 256;
    }
    CrcNothing(c);
    sum := Not(c);
  }

  lemma CrcFirst(c: bv32, b: bv8, rest: seq<bv8>)
    ensures Crc(c, [b] + rest) == Crc(TableStep(c, b), rest)
  {
    hide TableStep;
    assert ([b] + rest)[1..] == rest;
  }

  lemma CrcNothing(c: bv32)
    ensures Crc(c, []) == c
  {
  }

  /** cs_calc_buf_sum */
  method CalcBufSum(buf: seq<bv8>) returns (sum: bv32)
    ensures sum == Posix(buf)
  {
    hide Crc, TableStep, Posix;
    var crc: bv32 := 0;
    CrcNothing(0);
    assert buf[..0] == [];
    for k := 0 to |buf|
      invariant crc == Crc(0, buf[..k])
    {
      CrcNext(buf, k);
      crc := TableStep(crc, buf[k]);
    }
    assert buf[..|buf|] == buf;
    sum := Finish(buf, crc);
  }

  const BUFLEN: nat := 65536
  const MAGIC_NUMBER: bv32 := 0xC453DE23

  /** The outcome of cs_calc_sum: a checksum, or a read behind the buffer because eight was taken from a smaller
      count. */
  datatype FileSum = Sum(value: bv32) | Fault

  /** The part of a file that cs_calc_sum sums up. */
  function Covered(file: seq<bv8>, tagged: bool): Option<seq<bv8>> {
    var last := |file| % BUFLEN;
    if !tagged || last == 0 then Some(file) else if last < 8 then None else Some(file[..|file| - 8])
  }

  /** cs_calc_sum: reads the file in blocks and takes the eight bytes of the tag from a block that is not full. */
  method CalcSum(file: seq<bv8>, tagged: bool) returns (r: FileSum)
    ensures match Covered(file, tagged)
      case Some(data) => r == Sum(Posix(data))
      case None => r == Fault
  {
    hide Crc, TableStep, Posix;
    var crc: bv32, pos, length := 0, 0, 0;
    CrcNothing(0);
    assert file[..0] == [];
    while pos < |file|
      invariant 0 <= length <= pos <= |file| && crc == Crc(0, file[..length])
      invariant pos < |file| ==> pos == length && pos % BUFLEN == 0
      invariant pos == |file| ==> Covered(file, tagged) == Some(file[..length])
    {
      var count := if |file| - pos < BUFLEN then |file| - pos else BUFLEN;
      LastBlock(pos, |file|);
      pos := pos + count;
      if count != BUFLEN && tagged {
        if count < 8 {
          return Fault;
        }
        count := count - 8;
      }
      var start := length;
      while length < start + count
        invariant start <= length <= start + count && crc == Crc(0, file[..length])
      {
        CrcNext(file, length);
        crc := TableStep(crc, file[length]);
        length := length + 1;
      }
      assert file[..|file|] == file;
    }
    assert file[..|file|] == file;
    var sum := Finish(file[..length], crc);
    r := Sum(sum);
  }

  lemma LastBlock(pos: nat, n: nat)
    requires pos < n && pos % BUFLEN == 0
    ensures n - pos < BUFLEN ==> n % BUFLEN == n - pos
    ensures n - pos >= BUFLEN ==> (pos + BUFLEN) % BUFLEN == 0
    ensures n - pos == BUFLEN ==> n % BUFLEN == 0
  {
  }

  // ---- tags ----

  function WordBytes(w: bv32): (r: seq<bv8>)
    ensures |r| == 4
  {
    [(w & 0xFF) as bv8, ((w >> 8) & 0xFF) as bv8, ((w >> 16) & 0xFF) as bv8, ((w >> 24) & 0xFF) as bv8]
  }

  function WordOf(s: seq<bv8>): bv32
    requires |s| == 4
  {
    (s[0] as bv32) | ((s[1] as bv32) << 8) | ((s[2] as bv32) << 16) | ((s[3] as bv32) << 24)
  }

  lemma WordRoundTrip(w: bv32)
    ensures WordOf(WordBytes(w)) == w
  {
    assert ((w & 0xFF) as bv8) as bv32 == w & 0xFF;
    assert (((w >> 8) & 0xFF) as bv8) as bv32 == (w >> 8) & 0xFF;
    assert (((w >> 16) & 0xFF) as bv8) as bv32 == (w >> 16) & 0xFF;
    assert (((w >> 24) & 0xFF) as bv8) as bv32 == (w >> 24) & 0xFF;
    WordParts(w);
  }

  lemma WordParts(w: bv32)
    ensures (w & 0xFF) | (((w >> 8) & 0xFF) << 8) | (((w >> 16) & 0xFF) << 16) | (((w >> 24) & 0xFF) << 24) == w
  {
  }

  /** cs_set_sum: appends the tag, or replaces the one that is there. */
  function SetSum(file: seq<bv8>, sum: bv32, tagged: bool): seq<bv8>
    requires tagged ==> |file| >= 8
  {
    (if tagged then file[..|file| - 8] else file) + (WordBytes(MAGIC_NUMBER) + WordBytes(sum))
  }

  predicate IsTagged(file: seq<bv8>)
    requires |file| >= 8
  {
    WordOf(file[|file| - 8..|file| - 4]) == MAGIC_NUMBER
  }

  function ReadSum(file: seq<bv8>): bv32
    requires |file| >= 8
  {
    WordOf(file[|file| - 4..])
  }

  /** A tagged file is recognised, its sum reads back, and replacing the tag only changes the sum. */
  lemma {:induction false} TagReadsBack(data: seq<bv8>, sum: bv32, other: bv32)
    ensures var f := SetSum(data, sum, false);
      |f| == |data| + 8 && IsTagged(f) && ReadSum(f) == sum && SetSum(f, other, true) == SetSum(data, other, false)
  {
    hide WordOf, WordBytes;
    WordRoundTrip(MAGIC_NUMBER);
    WordRoundTrip(sum);
    var f := SetSum(data, sum, false);
    assert f[|f| - 8..|f| - 4] == WordBytes(MAGIC_NUMBER);
    assert f[|f| - 4..] == WordBytes(sum);
    assert f[..|f| - 8] == data;
  }

  /** The tag is left out of the checksum exactly when the untagged length modulo 65536 is below 65528: at 65528 the
      last block is full and the tag is summed up with the data, above it the tag straddles two blocks. */
  lemma {:induction false} TagLeftOut(data: seq<bv8>, sum: bv32)
    ensures var f := SetSum(data, sum, false);
      && (Covered(f, true) == Some(data) <==> |data| % BUFLEN < 65528)
      && (Covered(f, true) == Some(f) <==> |data| % BUFLEN == 65528)
      && (Covered(f, true) == None <==> |data| % BUFLEN > 65528)
  {
    hide WordBytes;
    var f := SetSum(data, sum, false);
    assert f[..|f| - 8] == data;
    EightMore(|data|);
  }

  lemma EightMore(n: nat)
    ensures (n + 8) % BUFLEN == if n % BUFLEN < 65528 then n % BUFLEN + 8 else n % BUFLEN - 65528
  {
  }

  /** At a remainder of 65528 the check sums up the tag as well. Whether the sum comes out the same is decided by the
      CRC r of the data and its length n alone. */
  predicate Survives(r: bv32, n: nat) {
    var untagged := Crc(r, LengthBytes(n));
    Crc(r, WordBytes(MAGIC_NUMBER) + WordBytes(Not(untagged)) + LengthBytes(n + 8)) == untagged
  }

  lemma NotNot(a: bv32)
    ensures Not(Not(a)) == a
  {
  }

  lemma {:induction false} TaggedSum(data: seq<bv8>)
    ensures Posix(SetSum(data, Posix(data), false)) == Posix(data) <==> Survives(Crc(0, data), |data|)
  {
    hide Crc, WordBytes, LengthBytes, Not;
    var sum, length := Posix(data), LengthBytes(|data| + 8);
    var file, tag := SetSum(data, sum, false), WordBytes(MAGIC_NUMBER) + WordBytes(sum);
    CrcCat(0, data, LengthBytes(|data|));
    CrcCat(0, data, tag + length);
    assert file + length == data + (tag + length);
    NotNot(Crc(0, file + length));
    NotNot(Crc(0, data + LengthBytes(|data|)));
  }

  lemma LengthsHere()
    ensures LengthBytes(65528) == [0xF8, 0xFF] && LengthBytes(65536) == [0, 0, 1]
  {
    assert LengthBytes(1) == [1] + LengthBytes(0);
    assert LengthBytes(256) == [0] + LengthBytes(1);
    assert LengthBytes(255) == [0xFF] + LengthBytes(0);
  }

  lemma WordBytesOf(w: bv32, a: bv8, b: bv8, c: bv8, d: bv8)
    requires (w & 0xFF) as bv8 == a && ((w >> 8) & 0xFF) as bv8 == b
    requires ((w >> 16) & 0xFF) as bv8 == c && ((w >> 24) & 0xFF) as bv8 == d
    ensures WordBytes(w) == [a, b, c, d]
  {
  }

  lemma ByteAt(c: bv32, s: seq<bv8>, k: nat, d: bv32)
    requires k < |s| && TableStep(c, s[k]) == d
    ensures Crc(c, s[k..]) == Crc(d, s[k + 1..])
  {
    hide TableStep;
    assert s[k..][1..] == s[k + 1..];
  }

  lemma ZerosLength()
    ensures Crc(0x0000_0000, [0xF8, 0xFF]) == 0xC887_1A07
  {
    hide Crc;
    var s: seq<bv8> := [0xF8, 0xFF];
    assert s[0..] == s && s[|s|..] == [];
    ByteAt(0x0000_0000, s, 0, 0xAFB0_10B1);
    ByteAt(0xAFB0_10B1, s, 1, 0xC887_1A07);
    CrcNothing(0xC887_1A07);
  }

  lemma ZerosMagic()
    ensures Crc(0x0000_0000, [0x23, 0xDE, 0x53, 0xC4]) == 0x6A0D_9F4C
  {
    hide Crc;
    var s: seq<bv8> := [0x23, 0xDE, 0x53, 0xC4];
    assert s[0..] == s && s[|s|..] == [];
    ByteAt(0x0000_0000, s, 0, 0x9560_9039);
    ByteAt(0x9560_9039, s, 1, 0x7F5D_8216);
    ByteAt(0x7F5D_8216, s, 2, 0xF0AD_3B84);
    ByteAt(0xF0AD_3B84, s, 3, 0x6A0D_9F4C);
    CrcNothing(0x6A0D_9F4C);
  }

  lemma ZerosSum()
    ensures Crc(0x6A0D_9F4C, [0xF8, 0xE5, 0x78, 0x37]) == 0x5D1C_84F1
  {
    hide Crc;
    var s: seq<bv8> := [0xF8, 0xE5, 0x78, 0x37];
    assert s[0..] == s && s[|s|..] == [];
    ByteAt(0x6A0D_9F4C, s, 0, 0x2100_4CF0);
    ByteAt(0x2100_4CF0, s, 1, 0x4EC2_1645);
    ByteAt(0x4EC2_1645, s, 2, 0x0CA2_6522);
    ByteAt(0x0CA2_6522, s, 3, 0x5D1C_84F1);
    CrcNothing(0x5D1C_84F1);
  }

  lemma ZerosEnd()
    ensures Crc(0x5D1C_84F1, [0x00, 0x00, 0x01]) == 0x332A_E17E
  {
    hide Crc;
    var s: seq<bv8> := [0x00, 0x00, 0x01];
    assert s[0..] == s && s[|s|..] == [];
    ByteAt(0x5D1C_84F1, s, 0, 0x55DE_DCD4);
    ByteAt(0x55DE_DCD4, s, 1, 0xB18E_146C);
    ByteAt(0xB18E_146C, s, 2, 0x332A_E17E);
    CrcNothing(0x332A_E17E);
  }

  lemma {:induction false} ZerosCrc(data: seq<bv8>)
    requires forall i :: 0 <= i < |data| ==> data[i] == 0
    ensures Crc(0, data) == 0
    decreases |data|
  {
    assert TableStep(0, 0) == 0;
    if data != [] {
      ZerosCrc(data[1..]);
    }
  }

  lemma TagOfZeros()
    ensures WordBytes(MAGIC_NUMBER) == [0x23, 0xDE, 0x53, 0xC4]
    ensures WordBytes(Not(0xC887_1A07)) == [0xF8, 0xE5, 0x78, 0x37]
  {
    hide WordBytes;
    assert Not(0xC887_1A07) == 0x3778_E5F8;
    WordBytesOf(0x3778_E5F8, 0xF8, 0xE5, 0x78, 0x37);
    WordBytesOf(MAGIC_NUMBER, 0x23, 0xDE, 0x53, 0xC4);
  }

  /** A file of 65528 zeros fails the check of its own tag. */
  lemma {:induction false} ZerosFail(data: seq<bv8>)
    requires |data| == 65528 && forall i :: 0 <= i < |data| ==> data[i] == 0
    ensures !Survives(Crc(0, data), |data|)
  {
    ZerosCrc(data);
    hide Crc, WordBytes, LengthBytes, Not;
    LengthsHere();
    ZerosLength();
    TagOfZeros();
    CrcCat(0, WordBytes(MAGIC_NUMBER) + WordBytes(Not(0xC887_1A07)), [0, 0, 1]);
    CrcCat(0, WordBytes(MAGIC_NUMBER), WordBytes(Not(0xC887_1A07)));
    ZerosMagic();
    ZerosSum();
    ZerosEnd();
  }

  /** Tagging a file and checking it. */
  method TagAndCheck(data: seq<bv8>) returns (file: seq<bv8>, ok: bool)
    ensures file == SetSum(data, Posix(data), false)
    ensures ok <==> |data| % BUFLEN < 65528 || (|data| % BUFLEN == 65528 && Survives(Crc(0, data), |data|))
  {
    hide Posix, IsTagged, ReadSum, Survives, Crc;
    var first := CalcSum(data, false);
    file := SetSum(data, first.value, false);
    TagReadsBack(data, first.value, 0);
    TagLeftOut(data, first.value);
    TaggedSum(data);
    var again := CalcSum(file, true);
    ok := IsTagged(file) && again == Sum(ReadSum(file));
  }


  // ---- the pieces by themselves ----

  /** The number that digits to the base 256 stand for, least significant first. */
  function NumberOf(s: seq<nat>): nat {
    if s == [] then 0 else s[0] + 256 * NumberOf(s[1..])
  }

  ghost predicate Spells(s: seq<bv8>, ds: seq<nat>) {
    |s| == |ds| && forall i :: 0 <= i < |ds| ==> ds[i] < 256 && s[i] == ds[i] as bv8
  }

  /** The length is appended least significant byte first and without leading zeros. */
  lemma {:induction false} LengthForm(n: nat) returns (ds: seq<nat>)
    ensures Spells(LengthBytes(n), ds) && NumberOf(ds) == n && (ds != [] ==> ds[|ds| - 1] != 0)
  {
    hide LengthBytes, Spells;
    LengthStep(n);
    ds := [];
    if n > 0 {
      var rest := LengthForm(n / 256);
      SpellsMore(LengthBytes(n / 256), rest, n % 256);
      ds := [n % 256] + rest;
      assert ds[1..] == rest;
    }
  }

  lemma LengthStep(n: nat)
    ensures n == 0 ==> Spells(LengthBytes(n), [])
    ensures n > 0 ==> LengthBytes(n) == [(n % 256) as bv8] + LengthBytes(n / 256)
  {
  }

  lemma SpellsMore(s: seq<bv8>, ds: seq<nat>, d: nat)
    requires Spells(s, ds) && d < 256
    ensures Spells([d as bv8] + s, [d] + ds)
  {
  }

  /** The sum of nothing is all ones. */
  lemma {:induction false} EmptySum()
    ensures Posix([]) == 0xFFFF_FFFF
  {
    assert [] + LengthBytes(0) == [];
    CrcNothing(0);
  }

  /** A file counts as tagged exactly when the magic number stands before its last four bytes, which hold the sum. */
  lemma {:induction false} TagForm(file: seq<bv8>, sum: bv32)
    requires |file| >= 8
    ensures IsTagged(file) <==> file[|file| - 8..|file| - 4] == [0x23, 0xDE, 0x53, 0xC4]
    ensures var f := SetSum(file, sum, false); f[..|file|] == file && f[|file|..|file| + 4] == [0x23, 0xDE, 0x53, 0xC4]
    ensures SetSum(file, sum, true)[..|file| - 8] == file[..|file| - 8]
    ensures Covered(file, false) == Some(file)
    ensures |file| % 65536 == 0 ==> Covered(file, true) == Some(file)
    ensures 0 < |file| % 65536 < 8 ==> Covered(file, true) == None
    ensures 8 <= |file| % 65536 ==> Covered(file, true) == Some(file[..|file| - 8])
  {
    MagicForm(file[|file| - 8..|file| - 4]);
    MagicBytes();
    hide WordOf, WordBytes;
  }

  lemma MagicBytes()
    ensures WordBytes(MAGIC_NUMBER) == [0x23, 0xDE, 0x53, 0xC4]
  {
    WordBytesOf(MAGIC_NUMBER, 0x23, 0xDE, 0x53, 0xC4);
  }

  lemma MagicForm(s: seq<bv8>)
    requires |s| == 4
    ensures WordOf(s) == MAGIC_NUMBER <==> s == [0x23, 0xDE, 0x53, 0xC4]
  {
    MagicDigits(s[0], s[1], s[2], s[3]);
  }

  lemma MagicDigits(a: bv8, b: bv8, c: bv8, d: bv8)
    ensures (a as bv32) | ((b as bv32) << 8) | ((c as bv32) << 16) | ((d as bv32) << 24) == 0xC453DE23 <==>
      a == 0x23 && b == 0xDE && c == 0x53 && d == 0xC4
  {
  }
}
