/**
  The hash function (common/jansson/lookup3.h) on known keys: the empty one, and a sentence of 30 bytes that takes
  all of its parts.
  */
module Lookup3Values {
  import opened Pieces
  import opened Lookup3

  // A byte as a number, and whether it is odd.
  function Value(x: bv8): (v: nat)
    ensures v < 0x100
  {
    x as nat
  }

  predicate Odd(x: bv8) {
    x & 1 == 1
  }

  function Halved(x: bv8): bv8 {
    x >> 1
  }

  function Either(x: bv8, y: bv8): bv8 {
    x ^ y
  }

  // The word of four bytes, the highest first.
  function Num(a: bv8, b: bv8, c: bv8, d: bv8): Word {
    Four(Value(a), Value(b), Value(c), Value(d))
  }

  function Four(a: nat, b: nat, c: nat, d: nat): nat {
    Push(Push(Push(a, b), c), d)
  }

  function Push(x: nat, a: nat): nat {
    x * 0x100 + a
  }

  lemma Half(x: bv8)
    ensures Value(x) == 2 * Value(Halved(x)) + if Odd(x) then 1 else 0
  {
  }

  lemma HalfEither(x: bv8, y: bv8)
    ensures Halved(Either(x, y)) == Either(Halved(x), Halved(y))
    ensures Odd(Either(x, y)) <==> Odd(x) != Odd(y)
  {
  }

  // What Xor does on a byte is what the machine does.
  lemma {:induction false} XorByte(x: bv8, y: bv8, n: nat)
    requires Value(x) < Power2(n) && Value(y) < Power2(n)
    ensures XorBits(Value(x), Value(y), n) == Value(Either(x, y))
    decreases n
  {
    hide Value, Odd, Halved, Either, XorBits, Power2;
    NoBits(Value(x), Value(y));
    if n > 0 {
      Half(x);
      Half(y);
      Half(Either(x, y));
      HalfEither(x, y);
      XorStep(Value(x), Value(y), Value(Halved(x)), Value(Halved(y)), n);
      XorByte(Halved(x), Halved(y), n - 1);
    } else {
      NoByte(x, y);
    }
  }

  lemma NoBits(x: nat, y: nat)
    ensures Power2(0) == 1 && (x == y == 0 ==> XorBits(x, y, 0) == 0)
  {
  }

  lemma XorStep(x: nat, y: nat, p: nat, q: nat, n: nat)
    requires n > 0 && x < Power2(n) && y < Power2(n) && 2 * p <= x <= 2 * p + 1 && 2 * q <= y <= 2 * q + 1
    ensures p < Power2(n - 1) && q < Power2(n - 1)
    ensures XorBits(x, y, n) == 2 * XorBits(p, q, n - 1) + if x - 2 * p == y - 2 * q then 0 else 1
  {
    assert x / 2 == p && y / 2 == q;
  }

  lemma NoByte(x: bv8, y: bv8)
    requires Value(x) == Value(y) == 0
    ensures Value(Either(x, y)) == 0
  {
  }

  function Shifted(x: nat, k: nat): nat {
    x * Power2(k)
  }

  lemma ShiftedMore(x: nat, k: nat)
    requires k > 0
    ensures Shifted(x, k) == 2 * Shifted(x, k - 1)
  {
  }

  lemma ShiftedNone(x: nat)
    ensures Shifted(x, 0) == x
  {
  }

  lemma {:induction false} XorJoin(x: nat, y: nat, a: nat, b: nat, n: nat, k: nat)
    requires x < Power2(n) && y < Power2(n) && a < Power2(k) && b < Power2(k)
    ensures Shifted(x, k) + a < Power2(n + k) && Shifted(y, k) + b < Power2(n + k)
    ensures XorBits(Shifted(x, k) + a, Shifted(y, k) + b, n + k) == Shifted(XorBits(x, y, n), k) + XorBits(a, b, k)
  {
    hide Shifted;
    if k > 0 {
      XorJoin(x, y, a / 2, b / 2, n, k - 1);
      ShiftedMore(x, k);
      ShiftedMore(y, k);
      ShiftedMore(XorBits(x, y, n), k);
      assert (Shifted(x, k) + a) / 2 == Shifted(x, k - 1) + a / 2 && (Shifted(y, k) + b) / 2 == Shifted(y, k - 1) + b / 2;
    } else {
      ShiftedNone(x);
      ShiftedNone(y);
      ShiftedNone(XorBits(x, y, n));
    }
  }

  lemma Shift8(x: nat)
    ensures Shifted(x, 8) == x * 0x100 && Power2(8) == 0x100
  {
    Powers();
  }

  lemma XorMore(x: nat, y: nat, a: nat, b: nat, n: nat)
    requires x < Power2(n) && y < Power2(n) && a < 0x100 && b < 0x100
    ensures Push(x, a) < Power2(n + 8) && Push(y, b) < Power2(n + 8) && a < Power2(8) && b < Power2(8)
    ensures XorBits(Push(x, a), Push(y, b), n + 8) == Push(XorBits(x, y, n), XorBits(a, b, 8))
  {
    hide XorBits, Power2, Shifted;
    Shift8(x);
    Shift8(y);
    Shift8(XorBits(x, y, n));
    XorJoin(x, y, a, b, n, 8);
  }

  lemma XorFour(a: nat, b: nat, c: nat, d: nat, e: nat, f: nat, g: nat, h: nat)
    requires a < 0x100 && b < 0x100 && c < 0x100 && d < 0x100 && e < 0x100 && f < 0x100 && g < 0x100 && h < 0x100
    ensures a < Power2(8) && b < Power2(8) && c < Power2(8) && d < Power2(8)
    ensures e < Power2(8) && f < Power2(8) && g < Power2(8) && h < Power2(8)
    ensures Four(a, b, c, d) < Power2(32) && Four(e, f, g, h) < Power2(32)
    ensures XorBits(Four(a, b, c, d), Four(e, f, g, h), 32)
            == Four(XorBits(a, e, 8), XorBits(b, f, 8), XorBits(c, g, 8), XorBits(d, h, 8))
  {
    hide XorBits, Power2, Push;
    Shift8(0);
    XorMore(a, e, b, f, 8);
    XorMore(Push(a, b), Push(e, f), c, g, 16);
    XorMore(Push(Push(a, b), c), Push(Push(e, f), g), d, h, 24);
  }

  lemma XorIs(a: bv8, b: bv8, c: bv8, d: bv8, e: bv8, f: bv8, g: bv8, h: bv8)
    ensures Xor(Num(a, b, c, d), Num(e, f, g, h)) == Num(Either(a, e), Either(b, f), Either(c, g), Either(d, h))
  {
    hide XorBits, Power2, Value, Either, Four;
    XorFour(Value(a), Value(b), Value(c), Value(d), Value(e), Value(f), Value(g), Value(h));
    XorByte(a, e, 8);
    XorByte(b, f, 8);
    XorByte(c, g, 8);
    XorByte(d, h, 8);
  }

  lemma Powers()
    ensures Power2(4) == 0x10
    ensures Power2(6) == 0x40
    ensures Power2(7) == 0x80
    ensures Power2(8) == 0x100
    ensures Power2(11) == 0x800
    ensures Power2(13) == 0x2000
    ensures Power2(14) == 0x4000
    ensures Power2(16) == 0x10000
    ensures Power2(18) == 0x40000
    ensures Power2(19) == 0x80000
    ensures Power2(21) == 0x200000
    ensures Power2(24) == 0x1000000
    ensures Power2(25) == 0x2000000
    ensures Power2(26) == 0x4000000
    ensures Power2(28) == 0x10000000
  {
    assert Power2(4) == 0x10;
    assert Power2(8) == 0x100;
    assert Power2(12) == 0x1000;
    assert Power2(16) == 0x1_0000;
    assert Power2(20) == 0x10_0000;
    assert Power2(24) == 0x100_0000;
  }

  // One turn of mix, for numbers that are given: p and q are the powers for the rotation, and the bytes are those
  // of the two words that are combined.
  lemma TurnIs(x: Word, y: Word, k: nat, p: nat, q: nat, a: bv8, b: bv8, c: bv8, d: bv8, e: bv8, f: bv8, g: bv8, h: bv8)
    requires 0 < k < 32 && p == Power2(k) && q == Power2(32 - k)
    requires Minus(x, y) == Num(a, b, c, d) && (y * p + y / q) % TWO_32 == Num(e, f, g, h)
    ensures Turn(x, y, k) == Num(Either(a, e), Either(b, f), Either(c, g), Either(d, h))
  {
    hide Xor, Power2, Num, Either;
    XorIs(a, b, c, d, e, f, g, h);
  }

  // One line of final.
  lemma BlendIs(x: Word, y: Word, k: nat, p: nat, q: nat, a: bv8, b: bv8, c: bv8, d: bv8, e: bv8, f: bv8, g: bv8, h: bv8)
    requires 0 < k < 32 && p == Power2(k) && q == Power2(32 - k) && x == Num(a, b, c, d) && y == Num(e, f, g, h)
    ensures Blend(x, y, k) == Minus(Num(Either(a, e), Either(b, f), Either(c, g), Either(d, h)), (y * p + y / q) % TWO_32)
  {
    hide Xor, Power2, Num, Either;
    XorIs(a, b, c, d, e, f, g, h);
  }

  lemma FirstBlock()
    ensures Mix(State(0x51232e53, 0x4e11322d, 0x3fce247f)) == State(0xf859ad7a, 0x04bc57ae, 0x40dddd7e)
  {
    hide Turn, Power2, XorBits;
    Powers();
    TurnIs(0x51232e53, 0x3fce247f, 4, 0x10, 0x10000000, 0x11, 0x55, 0x09, 0xd4, 0xfc, 0xe2, 0x47, 0xf3);
    assert StepA(State(0x51232e53, 0x4e11322d, 0x3fce247f), 4) == State(0xedb74e27, 0x4e11322d, 0x8ddf56ac);
    TurnIs(0x4e11322d, 0xedb74e27, 6, 0x40, 0x4000000, 0x60, 0x59, 0xe4, 0x06, 0x6d, 0xd3, 0x89, 0xfb);
    assert StepB(State(0xedb74e27, 0x4e11322d, 0x8ddf56ac), 6) == State(0x7b96a4d3, 0x0d8a6dfd, 0x8ddf56ac);
    TurnIs(0x8ddf56ac, 0x0d8a6dfd, 8, 0x100, 0x1000000, 0x80, 0x54, 0xe8, 0xaf, 0x8a, 0x6d, 0xfd, 0x0d);
    assert StepC(State(0x7b96a4d3, 0x0d8a6dfd, 0x8ddf56ac), 8) == State(0x7b96a4d3, 0x892112d0, 0x0a3915a2);
    TurnIs(0x7b96a4d3, 0x0a3915a2, 16, 0x10000, 0x10000, 0x71, 0x5d, 0x8f, 0x31, 0x15, 0xa2, 0x0a, 0x39);
    assert StepA(State(0x7b96a4d3, 0x892112d0, 0x0a3915a2), 16) == State(0x64ff8508, 0x892112d0, 0x935a2872);
    TurnIs(0x892112d0, 0x64ff8508, 19, 0x80000, 0x2000, 0x24, 0x21, 0x8d, 0xc8, 0x28, 0x43, 0x27, 0xfc);
    assert StepB(State(0x64ff8508, 0x892112d0, 0x935a2872), 19) == State(0xf859ad7a, 0x0c62aa34, 0x935a2872);
    TurnIs(0x935a2872, 0x0c62aa34, 4, 0x10, 0x10000000, 0x86, 0xf7, 0x7e, 0x3e, 0xc6, 0x2a, 0xa3, 0x40);
    assert StepC(State(0xf859ad7a, 0x0c62aa34, 0x935a2872), 4) == State(0xf859ad7a, 0x04bc57ae, 0x40dddd7e);
  }

  lemma SecondBlock()
    ensures Mix(State(0x6b7a11e8, 0x7321ce13, 0xa243569e)) == State(0x336aded2, 0x059f2642, 0xbd02ebd5)
  {
    hide Turn, Power2, XorBits;
    Powers();
    TurnIs(0x6b7a11e8, 0xa243569e, 4, 0x10, 0x10000000, 0xc9, 0x36, 0xbb, 0x4a, 0x24, 0x35, 0x69, 0xea);
    assert StepA(State(0x6b7a11e8, 0x7321ce13, 0xa243569e), 4) == State(0xed03d2a0, 0x7321ce13, 0x156524b1);
    TurnIs(0x7321ce13, 0xed03d2a0, 6, 0x40, 0x4000000, 0x86, 0x1d, 0xfb, 0x73, 0x40, 0xf4, 0xa8, 0x3b);
    assert StepB(State(0xed03d2a0, 0x7321ce13, 0x156524b1), 6) == State(0x0268f751, 0xc6e95348, 0x156524b1);
    TurnIs(0x156524b1, 0xc6e95348, 8, 0x100, 0x1000000, 0x4e, 0x7b, 0xd1, 0x69, 0xe9, 0x53, 0x48, 0xc6);
    assert StepC(State(0x0268f751, 0xc6e95348, 0x156524b1), 8) == State(0x0268f751, 0xc9524a99, 0xa72899af);
    TurnIs(0x0268f751, 0xa72899af, 16, 0x10000, 0x10000, 0x5b, 0x40, 0x5d, 0xa2, 0x99, 0xaf, 0xa7, 0x28);
    assert StepA(State(0x0268f751, 0xc9524a99, 0xa72899af), 16) == State(0xc2effa8a, 0xc9524a99, 0x707ae448);
    TurnIs(0xc9524a99, 0xc2effa8a, 19, 0x80000, 0x2000, 0x06, 0x62, 0x50, 0x0f, 0xd4, 0x56, 0x17, 0x7f);
    assert StepB(State(0xc2effa8a, 0xc9524a99, 0x707ae448), 19) == State(0x336aded2, 0xd2344770, 0x707ae448);
    TurnIs(0x707ae448, 0xd2344770, 4, 0x10, 0x10000000, 0x9e, 0x46, 0x9c, 0xd8, 0x23, 0x44, 0x77, 0x0d);
    assert StepC(State(0x336aded2, 0xd2344770, 0x707ae448), 4) == State(0x336aded2, 0x059f2642, 0xbd02ebd5);
  }

  lemma LastBlock()
    ensures Final(State(0x948b5244, 0x059f95a9, 0xbd02ebd5)).c == 0x17770551
  {
    hide Blend, Power2, XorBits;
    Powers();
    BlendIs(0xbd02ebd5, 0x059f95a9, 14, 0x4000, 0x40000, 0xbd, 0x02, 0xeb, 0xd5, 0x05, 0x9f, 0x95, 0xa9);
    assert Blend(0xbd02ebd5, 0x059f95a9, 14) == 0xd3333d15;
    BlendIs(0x948b5244, 0xd3333d15, 11, 0x800, 0x200000, 0x94, 0x8b, 0x52, 0x44, 0xd3, 0x33, 0x3d, 0x15);
    assert Blend(0x948b5244, 0xd3333d15, 11) == 0xadcfc0b8;
    BlendIs(0x059f95a9, 0xadcfc0b8, 25, 0x2000000, 0x80, 0x05, 0x9f, 0x95, 0xa9, 0xad, 0xcf, 0xc0, 0xb8);
    assert Blend(0x059f95a9, 0xadcfc0b8, 25) == 0x36f4b590;
    BlendIs(0xd3333d15, 0x36f4b590, 16, 0x10000, 0x10000, 0xd3, 0x33, 0x3d, 0x15, 0x36, 0xf4, 0xb5, 0x90);
    assert Blend(0xd3333d15, 0x36f4b590, 16) == 0x30375191;
    BlendIs(0xadcfc0b8, 0x30375191, 4, 0x10, 0x10000000, 0xad, 0xcf, 0xc0, 0xb8, 0x30, 0x37, 0x51, 0x91);
    assert Blend(0xadcfc0b8, 0x30375191, 4) == 0x9a837816;
    BlendIs(0x36f4b590, 0x9a837816, 14, 0x4000, 0x40000, 0x36, 0xf4, 0xb5, 0x90, 0x9a, 0x83, 0x78, 0x16);
    assert Blend(0x36f4b590, 0x9a837816, 14) == 0xce7226e6;
    BlendIs(0x30375191, 0xce7226e6, 24, 0x1000000, 0x100, 0x30, 0x37, 0x51, 0x91, 0xce, 0x72, 0x26, 0xe6);
    assert Blend(0x30375191, 0xce7226e6, 24) == 0x17770551;
  }

  // "Four score and seven years ago".
  const SENTENCE: Bytes := [
    0x46, 0x6F, 0x75, 0x72, 0x20, 0x73, 0x63, 0x6F, 0x72, 0x65, 0x20, 0x61, 0x6E, 0x64, 0x20, 0x73,
    0x65, 0x76, 0x65, 0x6E, 0x20, 0x79, 0x65, 0x61, 0x72, 0x73, 0x20, 0x61, 0x67, 0x6F
  ]

  lemma SentenceBlocks()
    ensures |SENTENCE| == 30
    ensures Absorb(State(0xdeadbf0d, 0xdeadbf0d, 0xdeadbf0d), SENTENCE[..12]) == State(0x51232e53, 0x4e11322d, 0x3fce247f)
    ensures Absorb(State(0xf859ad7a, 0x04bc57ae, 0x40dddd7e), SENTENCE[12..][..12]) == State(0x6b7a11e8, 0x7321ce13, 0xa243569e)
    ensures Absorb(State(0x336aded2, 0x059f2642, 0xbd02ebd5), SENTENCE[12..][12..]) == State(0x948b5244, 0x059f95a9, 0xbd02ebd5)
  {
  }

  lemma KnownHashes()
    ensures Hash(SENTENCE, 0) == 0x17770551 && Hash([], 0) == 0xdeadbeef
  {
    hide Mix, Final, Absorb, SENTENCE;
    SentenceBlocks();
    FirstBlock();
    SecondBlock();
    LastBlock();
    var k := SENTENCE;
    assert Start(30, 0) == State(0xdeadbf0d, 0xdeadbf0d, 0xdeadbf0d);
    assert HashFrom(State(0xdeadbf0d, 0xdeadbf0d, 0xdeadbf0d), k) == HashFrom(State(0xf859ad7a, 0x04bc57ae, 0x40dddd7e), k[12..]);
    assert HashFrom(State(0xf859ad7a, 0x04bc57ae, 0x40dddd7e), k[12..]) == HashFrom(State(0x336aded2, 0x059f2642, 0xbd02ebd5), k[12..][12..]);
  }
}
