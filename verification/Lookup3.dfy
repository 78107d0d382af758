/**
  The hash function of the hash table (common/jansson/lookup3.h), on a little-endian machine. It reads
  its key in words, half words or bytes, whichever the address of the key allows.
  */
module Lookup3 {
  import opened Pieces

  const TWO_32: nat := 0x1_0000_0000

  type Word = x: nat | x < TWO_32

  // The internal state.
  datatype State = State(a: Word, b: Word, c: Word)

  function Plus(x: Word, y: Word): Word { (x + y) % TWO_32 }

  function Minus(x: Word, y: Word): Word { (x - y) % TWO_32 }

  // Exclusive or, bit by bit.
  function XorBits(x: nat, y: nat, n: nat): (z: nat)
    requires x < Power2(n) && y < Power2(n)
    ensures z < Power2(n)
  {
    if n == 0 then 0 else 2 * XorBits(x / 2, y / 2, n - 1) + if x % 2 == y % 2 then 0 else 1
  }

  function Power2(n: nat): (p: nat)
    ensures p > 0
  {
    if n == 0 then 1 else 2 * Power2(n - 1)
  }

  lemma Power2Is()
    ensures Power2(32) == TWO_32
  {
    assert Power2(4) == 0x10;
    assert Power2(8) == 0x100;
    assert Power2(12) == 0x1000;
    assert Power2(16) == 0x1_0000;
    assert Power2(20) == 0x10_0000;
    assert Power2(24) == 0x100_0000;
    assert Power2(28) == 0x1000_0000;
  }

  function Xor(x: Word, y: Word): Word {
    Power2Is();
    XorBits(x, y, 32)
  }

  // x << k | x >> (32 - k), which have no bit in common.
  function Rot(x: Word, k: nat): Word
    requires k <= 32
  {
    (x * Power2(k) + x / Power2(32 - k)) % TWO_32
  }

  lemma {:induction false} Power2Parts(k: nat, m: nat)
    ensures Power2(k + m) == Power2(k) * Power2(m)
  {
    if k > 0 {
      Power2Parts(k - 1, m);
    }
  }

  // The upper and the lower part of a word change places.
  lemma TurnedAround(high: nat, low: nat, p: nat, q: nat)
    requires p > 0 && q > 0 && p * q == TWO_32 && high < p && low < q
    ensures high * q + low < TWO_32 && low * p + high < TWO_32
    ensures ((high * q + low) * p + (high * q + low) / q) % TWO_32 == low * p + high
  {
    var x := high * q + low;
    assert (high + 1) * q <= p * q && (low + 1) * p <= q * p;
    assert x / q == high by {
      QuotientIs(high, low, q);
    }
    assert x * p == high * TWO_32 + low * p by {
      assert high * q * p == high * (p * q);
    }
    assert x * p + high == high * TWO_32 + (low * p + high);
  }

  lemma QuotientIs(high: nat, low: nat, q: nat)
    requires low < q
    ensures (high * q + low) / q == high && (high * q + low) % q == low
  {
    var x := high * q + low;
    DividedIs(x, q);
    NotBelow(high, x / q, low, x % q, q);
    NotBelow(x / q, high, x % q, low, q);
  }

  lemma DividedIs(x: nat, q: nat)
    requires q > 0
    ensures x == x / q * q + x % q && x % q < q
  {
  }

  lemma NotBelow(a: nat, b: nat, c: nat, d: nat, q: nat)
    requires a * q + c == b * q + d && c < q && d < q
    ensures a >= b
  {
    if a < b {
      TimesUp(q, a + 1, b);
    }
  }

  lemma TimesUp(q: nat, a: nat, b: nat)
    requires a <= b
    ensures a * q <= b * q
  {
    assert (b - a) * q >= 0;
  }

  // A rotation is undone by the other one.
  lemma RotBack(x: Word, k: nat)
    requires k <= 32
    ensures Rot(Rot(x, k), 32 - k) == x
  {
    hide Power2;
    Power2Is();
    Power2Parts(k, 32 - k);
    var p, q := Power2(k), Power2(32 - k);
    var high, low := x / q, x % q;
    assert x == high * q + low;
    if high >= p {
      TimesUp(q, p, high);
    }
    TurnedAround(high, low, p, q);
    TurnedAround(low, high, q, p);
  }

  // The three kinds of steps of mix, and what undoes them.
  function Turn(x: Word, y: Word, k: nat): Word
    requires k <= 32
  {
    Xor(Minus(x, y), Rot(y, k))
  }

  function Back(x: Word, y: Word, k: nat): Word
    requires k <= 32
  {
    Plus(Xor(x, Rot(y, k)), y)
  }

  lemma TurnBack(x: Word, y: Word, k: nat)
    requires k <= 32
    ensures Back(Turn(x, y, k), y, k) == x && Turn(Back(x, y, k), y, k) == x
  {
    hide Rot, Plus, Minus, Xor;
    var r := Rot(y, k);
    XorBack(Minus(x, y), r);
    XorBack(x, r);
    AddBack(x, y);
    AddBack(Xor(x, r), y);
  }

  lemma {:induction false} XorBitsBack(x: nat, r: nat, n: nat)
    requires x < Power2(n) && r < Power2(n)
    ensures XorBits(XorBits(x, r, n), r, n) == x
  {
    if n > 0 {
      XorBitsBack(x / 2, r / 2, n - 1);
    }
  }

  lemma XorBack(x: Word, r: Word)
    ensures Xor(Xor(x, r), r) == x
  {
    Power2Is();
    XorBitsBack(x, r, 32);
  }

  lemma AddBack(x: Word, y: Word)
    ensures Minus(Plus(x, y), y) == x && Plus(Minus(x, y), y) == x
  {
  }

  // One third of a mix: c is taken off a, a is combined with c rotated, and b is added to c.
  function StepA(s: State, k: nat): State
    requires k <= 32
  {
    State(Turn(s.a, s.c, k), s.b, Plus(s.c, s.b))
  }

  function StepB(s: State, k: nat): State
    requires k <= 32
  {
    State(Plus(s.a, s.c), Turn(s.b, s.a, k), s.c)
  }

  function StepC(s: State, k: nat): State
    requires k <= 32
  {
    State(s.a, Plus(s.b, s.a), Turn(s.c, s.b, k))
  }

  function UnstepA(s: State, k: nat): State
    requires k <= 32
  {
    State(Back(s.a, Minus(s.c, s.b), k), s.b, Minus(s.c, s.b))
  }

  function UnstepB(s: State, k: nat): State
    requires k <= 32
  {
    State(Minus(s.a, s.c), Back(s.b, Minus(s.a, s.c), k), s.c)
  }

  function UnstepC(s: State, k: nat): State
    requires k <= 32
  {
    State(s.a, Minus(s.b, s.a), Back(s.c, Minus(s.b, s.a), k))
  }

  lemma StepsUndone(s: State, k: nat)
    requires k <= 32
    ensures UnstepA(StepA(s, k), k) == s && StepA(UnstepA(s, k), k) == s
    ensures UnstepB(StepB(s, k), k) == s && StepB(UnstepB(s, k), k) == s
    ensures UnstepC(StepC(s, k), k) == s && StepC(UnstepC(s, k), k) == s
  {
    hide Turn, Back, Plus, Minus, Xor;
    TurnBack(s.a, s.c, k);
    TurnBack(s.a, Minus(s.c, s.b), k);
    TurnBack(s.b, s.a, k);
    TurnBack(s.b, Minus(s.a, s.c), k);
    TurnBack(s.c, s.b, k);
    TurnBack(s.c, Minus(s.b, s.a), k);
    AddBack(s.c, s.b);
    AddBack(s.a, s.c);
    AddBack(s.b, s.a);
  }

  function Mix(s: State): State {
    StepC(StepB(StepA(StepC(StepB(StepA(s, 4), 6), 8), 16), 19), 4)
  }

  function Unmix(s: State): State {
    UnstepA(UnstepB(UnstepC(UnstepA(UnstepB(UnstepC(s, 4), 19), 16), 8), 6), 4)
  }

  // mix is reversible.
  lemma MixUndone(s: State)
    ensures Unmix(Mix(s)) == s && Mix(Unmix(s)) == s
  {
    hide StepA, StepB, StepC, UnstepA, UnstepB, UnstepC;
    var s1 := StepA(s, 4);
    var s2 := StepB(s1, 6);
    var s3 := StepC(s2, 8);
    var s4 := StepA(s3, 16);
    var s5 := StepB(s4, 19);
    StepsUndone(s, 4);
    StepsUndone(s1, 6);
    StepsUndone(s2, 8);
    StepsUndone(s3, 16);
    StepsUndone(s4, 19);
    StepsUndone(s5, 4);
    var t1 := UnstepC(s, 4);
    var t2 := UnstepB(t1, 19);
    var t3 := UnstepA(t2, 16);
    var t4 := UnstepC(t3, 8);
    var t5 := UnstepB(t4, 6);
    StepsUndone(t1, 19);
    StepsUndone(t2, 16);
    StepsUndone(t3, 8);
    StepsUndone(t4, 6);
    StepsUndone(t5, 4);
  }

  // final: each word in turn is combined with another one and loses that one rotated.
  function Blend(x: Word, y: Word, k: nat): Word
    requires k <= 32
  {
    Minus(Xor(x, y), Rot(y, k))
  }

  function Final(s: State): State {
    var c1 := Blend(s.c, s.b, 14);
    var a1 := Blend(s.a, c1, 11);
    var b1 := Blend(s.b, a1, 25);
    var c2 := Blend(c1, b1, 16);
    var a2 := Blend(a1, c2, 4);
    var b2 := Blend(b1, a2, 14);
    State(a2, b2, Blend(c2, b2, 24))
  }

  function Unblend(z: Word, y: Word, k: nat): Word
    requires k <= 32
  {
    Xor(Plus(z, Rot(y, k)), y)
  }

  lemma BlendBack(x: Word, y: Word, k: nat)
    requires k <= 32
    ensures Unblend(Blend(x, y, k), y, k) == x && Blend(Unblend(x, y, k), y, k) == x
  {
    hide Rot, Plus, Minus, Xor;
    XorBack(x, y);
    AddBack(Xor(x, y), Rot(y, k));
    AddBack(x, Rot(y, k));
    XorBack(Plus(x, Rot(y, k)), y);
  }

  function Unfinal(s: State): State {
    var c2 := Unblend(s.c, s.b, 24);
    var b1 := Unblend(s.b, s.a, 14);
    var a1 := Unblend(s.a, c2, 4);
    var c1 := Unblend(c2, b1, 16);
    var b := Unblend(b1, a1, 25);
    var a := Unblend(a1, c1, 11);
    State(a, b, Unblend(c1, b, 14))
  }

  // final is reversible.
  lemma FinalUndone(s: State)
    ensures Unfinal(Final(s)) == s && Final(Unfinal(s)) == s
  {
    hide Blend, Unblend;
    var c1 := Blend(s.c, s.b, 14);
    var a1 := Blend(s.a, c1, 11);
    var b1 := Blend(s.b, a1, 25);
    var c2 := Blend(c1, b1, 16);
    var a2 := Blend(a1, c2, 4);
    var b2 := Blend(b1, a2, 14);
    BlendBack(s.c, s.b, 14);
    BlendBack(s.a, c1, 11);
    BlendBack(s.b, a1, 25);
    BlendBack(c1, b1, 16);
    BlendBack(a1, c2, 4);
    BlendBack(b1, a2, 14);
    BlendBack(c2, b2, 24);
    var d2 := Unblend(s.c, s.b, 24);
    var e1 := Unblend(s.b, s.a, 14);
    var f1 := Unblend(s.a, d2, 4);
    var d1 := Unblend(d2, e1, 16);
    var e := Unblend(e1, f1, 25);
    BlendBack(s.c, s.b, 24);
    BlendBack(s.b, s.a, 14);
    BlendBack(s.a, d2, 4);
    BlendBack(d2, e1, 16);
    BlendBack(e1, f1, 25);
    BlendBack(f1, d1, 11);
    BlendBack(d1, e, 14);
  }

  function ByteAt(t: Bytes, i: nat): (b: nat)
    ensures b < 0x100
  {
    if i < |t| then t[i] as nat else 0
  }

  // Four bytes as a number, the lowest first; what is behind the end is zero.
  function Load(t: Bytes, i: nat): Word {
    ByteAt(t, i) + 0x100 * ByteAt(t, i + 1) + 0x1_0000 * ByteAt(t, i + 2) + 0x100_0000 * ByteAt(t, i + 3)
  }

  function Load16(t: Bytes, i: nat): (w: Word)
    ensures w < 0x1_0000
  {
    ByteAt(t, i) + 0x100 * ByteAt(t, i + 1)
  }

  function Absorb(s: State, t: Bytes): State {
    State(Plus(s.a, Load(t, 0)), Plus(s.b, Load(t, 4)), Plus(s.c, Load(t, 8)))
  }

  // The hash of a key, block by block: the last block has at most twelve bytes.
  function HashFrom(s: State, key: Bytes): Word
    decreases |key|
  {
    if |key| > 12 then HashFrom(Mix(Absorb(s, key[..12])), key[12..])
    else if key == [] then s.c
    else Final(Absorb(s, key)).c
  }

  function Start(length: nat, initval: Word): State {
    var x := (0xdeadbeef + length + initval) % TWO_32;
    State(x, x, x)
  }

  function Hash(key: Bytes, initval: Word): Word {
    HashFrom(Start(|key|, initval), key)
  }

  // Adding in parts.
  lemma PlusTwice(a: Word, x: Word, y: Word)
    requires x + y < TWO_32
    ensures Plus(Plus(a, x), y) == Plus(a, x + y)
  {
  }

  lemma NextBlock(s: State, key: Bytes, pos: nat)
    requires pos + 12 < |key|
    ensures HashFrom(s, key[pos..]) == HashFrom(Mix(Absorb(s, key[pos..pos + 12])), key[pos + 12..])
  {
    assert key[pos..][..12] == key[pos..pos + 12] && key[pos..][12..] == key[pos + 12..];
    hide Mix, Absorb;
  }

  // Whole words of the key are what is in memory, and a part of one is the rest masked off.
  lemma InBlock(mem: Bytes, length: nat, pos: nat, i: nat, n: nat)
    requires pos <= length <= |mem| && i <= n && pos + n == length
    ensures var t := mem[..length][pos..];
            && (i + 4 <= n ==> Load(t, i) == Load(mem, pos + i))
            && (i + 3 == n ==> Load(t, i) == Load(mem, pos + i) % 0x100_0000)
            && (i + 2 == n ==> Load(t, i) == Load(mem, pos + i) % 0x1_0000)
            && (i + 1 == n ==> Load(t, i) == Load(mem, pos + i) % 0x100)
            && (i == n ==> Load(t, i) == 0)
  {
    var t := mem[..length][pos..];
    assert forall j :: 0 <= j < n ==> t[j] == mem[pos + j];
  }

  // The path for keys at addresses that are multiples of four. mem is the memory at the key, up to
  // the end of its last word: the masks take off what does not belong to the key.
  method HashWords(mem: Bytes, length: nat, initval: Word) returns (h: Word)
    requires (length + 3) / 4 * 4 <= |mem|
    ensures h == Hash(mem[..length], initval)
  {
    hide Mix, Final, Plus, Load;
    ghost var key := mem[..length];
    var s := Start(length, initval);
    var pos, left := 0, length;
    assert key[0..] == key;
    while left > 12
      invariant 0 <= left && pos + left == length && HashFrom(s, key[pos..]) == Hash(key, initval)
    {
      NextBlock(s, key, pos);
      WholeBlock(mem, length, pos);
      s := State(Plus(s.a, Load(mem, pos)), Plus(s.b, Load(mem, pos + 4)), Plus(s.c, Load(mem, pos + 8)));
      s := Mix(s);
      pos, left := pos + 12, left - 12;
    }
    if left == 0 {
      return s.c;
    }
    LastWords(mem, length, pos, left);
    PlusNothing(s.b);
    PlusNothing(s.c);
    var a, b, c := s.a, s.b, s.c;
    if left == 12 {
      c := Plus(c, Load(mem, pos + 8));
    } else if left == 11 {
      c := Plus(c, Load(mem, pos + 8) % 0x100_0000);
    } else if left == 10 {
      c := Plus(c, Load(mem, pos + 8) % 0x1_0000);
    } else if left == 9 {
      c := Plus(c, Load(mem, pos + 8) % 0x100);
    }
    if left >= 8 {
      b := Plus(b, Load(mem, pos + 4));
    } else if left == 7 {
      b := Plus(b, Load(mem, pos + 4) % 0x100_0000);
    } else if left == 6 {
      b := Plus(b, Load(mem, pos + 4) % 0x1_0000);
    } else if left == 5 {
      b := Plus(b, Load(mem, pos + 4) % 0x100);
    }
    if left >= 4 {
      a := Plus(a, Load(mem, pos));
    } else if left == 3 {
      a := Plus(a, Load(mem, pos) % 0x100_0000);
    } else if left == 2 {
      a := Plus(a, Load(mem, pos) % 0x1_0000);
    } else {
      a := Plus(a, Load(mem, pos) % 0x100);
    }
    h := Final(State(a, b, c)).c;
  }

  lemma PlusNothing(a: Word)
    ensures Plus(a, 0) == a
  {
  }

  lemma WholeBlock(mem: Bytes, length: nat, pos: nat)
    requires pos + 12 <= length <= |mem|
    ensures var t := mem[..length][pos..pos + 12];
            Load(t, 0) == Load(mem, pos) && Load(t, 4) == Load(mem, pos + 4) && Load(t, 8) == Load(mem, pos + 8)
  {
    var t := mem[..length][pos..pos + 12];
    assert forall j :: 0 <= j < 12 ==> t[j] == mem[pos + j];
  }

  // The words of the last block.
  lemma LastWords(mem: Bytes, length: nat, pos: nat, n: nat)
    requires pos + n == length <= |mem| && n <= 12
    ensures var t := mem[..length][pos..];
            && Load(t, 0) == Part(mem, pos, n) && Load(t, 4) == Part(mem, pos + 4, n - 4)
            && Load(t, 8) == Part(mem, pos + 8, n - 8)
  {
    var t := mem[..length][pos..];
    hide Load;
    if n >= 0 {
      InBlock(mem, length, pos, 0, n);
    }
    if n >= 4 {
      InBlock(mem, length, pos, 4, n);
    } else {
      Outside(t, 4);
    }
    if n >= 8 {
      InBlock(mem, length, pos, 8, n);
    } else {
      Outside(t, 8);
    }
  }

  lemma Outside(t: Bytes, i: nat)
    requires |t| <= i
    ensures Load(t, i) == 0
  {
  }

  // Adding four bytes of the key one at a time, each at its place in the word.
  method AddBytes(x: Word, mem: Bytes, i: nat) returns (y: Word)
    requires i + 4 <= |mem|
    ensures y == Plus(x, Load(mem, i))
  {
    hide Plus;
    y := Plus(x, mem[i] as nat);
    y := Plus(y, 0x100 * mem[i + 1] as nat);
    y := Plus(y, 0x1_0000 * mem[i + 2] as nat);
    y := Plus(y, 0x100_0000 * mem[i + 3] as nat);
    PlusFour(x, mem[i] as nat, 0x100 * mem[i + 1] as nat, 0x1_0000 * mem[i + 2] as nat, 0x100_0000 * mem[i + 3] as nat);
  }

  // What of a word is there if n of its bytes are.
  function Part(mem: Bytes, i: nat, n: int): Word {
    if n >= 4 then Load(mem, i) else if n == 3 then Load(mem, i) % 0x100_0000
    else if n == 2 then Load(mem, i) % 0x1_0000 else if n == 1 then Load(mem, i) % 0x100 else 0
  }

  lemma LowPart(high: nat, low: nat)
    ensures low < 0x100_0000 ==> (0x100_0000 * high + low) % 0x100_0000 == low
    ensures low < 0x1_0000 ==> (0x1_0000 * high + low) % 0x1_0000 == low
    ensures low < 0x100 ==> (0x100 * high + low) % 0x100 == low
  {
  }

  lemma PartIs(mem: Bytes, i: nat, n: int)
    ensures var b0, b1, b2, b3 := ByteAt(mem, i), ByteAt(mem, i + 1), ByteAt(mem, i + 2), ByteAt(mem, i + 3);
            Part(mem, i, n) == (if n >= 4 then 0x100_0000 * b3 else 0) + (if n >= 3 then 0x1_0000 * b2 else 0)
                               + (if n >= 2 then 0x100 * b1 else 0) + (if n >= 1 then b0 else 0)
  {
    hide ByteAt;
    var b0, b1, b2, b3 := ByteAt(mem, i), ByteAt(mem, i + 1), ByteAt(mem, i + 2), ByteAt(mem, i + 3);
    if n == 3 {
      LowPart(b3, 0x1_0000 * b2 + 0x100 * b1 + b0);
    } else if n == 2 {
      assert Load(mem, i) == 0x1_0000 * (0x100 * b3 + b2) + (0x100 * b1 + b0);
      LowPart(0x100 * b3 + b2, 0x100 * b1 + b0);
    } else if n == 1 {
      assert Load(mem, i) == 0x100 * (0x1_0000 * b3 + 0x100 * b2 + b1) + b0;
      LowPart(0x1_0000 * b3 + 0x100 * b2 + b1, b0);
    }
  }

  lemma PlusFour(x: Word, p: nat, q: nat, r: nat, t: nat)
    requires p + q + r + t < TWO_32
    ensures Plus(Plus(Plus(Plus(x, p), q), r), t) == Plus(x, p + q + r + t)
  {
    hide Plus;
    PlusTwice(x, p, q);
    PlusTwice(x, p + q, r);
    PlusTwice(x, p + q + r, t);
  }

  // Four of the cases that fall through: n bytes of the word at place i are there.
  method AddTail(x: Word, mem: Bytes, i: nat, n: int) returns (y: Word)
    requires i + n <= |mem|
    ensures y == Plus(x, Part(mem, i, n))
  {
    hide Plus, Load, Part, ByteAt;
    var p := if n >= 4 then 0x100_0000 * ByteAt(mem, i + 3) else 0;
    var q := if n >= 3 then 0x1_0000 * ByteAt(mem, i + 2) else 0;
    var r := if n >= 2 then 0x100 * ByteAt(mem, i + 1) else 0;
    var t := if n >= 1 then ByteAt(mem, i) else 0;
    PartIs(mem, i, n);
    PlusFour(x, p, q, r, t);
    y := AddIf(x, n >= 4, p);
    y := AddIf(y, n >= 3, q);
    y := AddIf(y, n >= 2, r);
    y := AddIf(y, n >= 1, t);
  }

  method AddIf(x: Word, there: bool, d: Word) returns (y: Word)
    requires !there ==> d == 0
    ensures y == Plus(x, d)
  {
    y := x;
    if there {
      y := Plus(y, d);
    }
  }

  // The path for all other keys: byte by byte.
  method HashBytes(mem: Bytes, initval: Word) returns (h: Word)
    ensures h == Hash(mem, initval)
  {
    hide Mix, Final, Plus, Load;
    var s := Start(|mem|, initval);
    var pos, left := 0, |mem|;
    assert mem[0..] == mem && mem[..|mem|] == mem;
    while left > 12
      invariant 0 <= left && pos + left == |mem| && HashFrom(s, mem[pos..]) == Hash(mem, initval)
    {
      NextBlock(s, mem, pos);
      WholeBlock(mem, |mem|, pos);
      var a := AddBytes(s.a, mem, pos);
      var b := AddBytes(s.b, mem, pos + 4);
      var c := AddBytes(s.c, mem, pos + 8);
      s := Mix(State(a, b, c));
      pos, left := pos + 12, left - 12;
    }
    if left == 0 {
      return s.c;
    }
    LastWords(mem, |mem|, pos, left);
    var c := AddTail(s.c, mem, pos + 8, left - 8);
    var b := AddTail(s.b, mem, pos + 4, left - 4);
    var a := AddTail(s.a, mem, pos, left);
    h := Final(State(a, b, c)).c;
  }

  // Two half words make a word.
  function Halves(mem: Bytes, i: nat): (w: Word)
    ensures w == Load(mem, i)
  {
    Load16(mem, i) + 0x1_0000 * Load16(mem, i + 2)
  }

  // The cases of one word in the path for even addresses: n bytes of it are there.
  method AddHalves(x: Word, mem: Bytes, i: nat, n: int) returns (y: Word)
    requires i + n <= |mem|
    ensures y == Plus(x, Part(mem, i, n))
  {
    PartIs(mem, i, n);
    PlusNothing(x);
    hide Plus, Load, Part, ByteAt;
    y := x;
    if n >= 4 {
      y := Plus(y, Halves(mem, i));
    } else if n == 3 {
      y := Plus(y, 0x1_0000 * ByteAt(mem, i + 2));
      y := Plus(y, Load16(mem, i));
      PlusTwice(x, 0x1_0000 * ByteAt(mem, i + 2), Load16(mem, i));
    } else if n == 2 {
      y := Plus(y, Load16(mem, i));
    } else if n == 1 {
      y := Plus(y, ByteAt(mem, i));
    }
  }

  // The path for keys at even addresses.
  method HashHalves(mem: Bytes, initval: Word) returns (h: Word)
    ensures h == Hash(mem, initval)
  {
    hide Mix, Final, Plus, Load;
    var s := Start(|mem|, initval);
    var pos, left := 0, |mem|;
    assert mem[0..] == mem && mem[..|mem|] == mem;
    while left > 12
      invariant 0 <= left && pos + left == |mem| && HashFrom(s, mem[pos..]) == Hash(mem, initval)
    {
      NextBlock(s, mem, pos);
      WholeBlock(mem, |mem|, pos);
      s := State(Plus(s.a, Halves(mem, pos)), Plus(s.b, Halves(mem, pos + 4)), Plus(s.c, Halves(mem, pos + 8)));
      s := Mix(s);
      pos, left := pos + 12, left - 12;
    }
    if left == 0 {
      return s.c;
    }
    LastWords(mem, |mem|, pos, left);
    var c := AddHalves(s.c, mem, pos + 8, left - 8);
    var b := AddHalves(s.b, mem, pos + 4, left - 4);
    var a := AddHalves(s.a, mem, pos, left);
    h := Final(State(a, b, c)).c;
  }
}
