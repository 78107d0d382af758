/**
  Tags and integers as bytes (common/libevent/event_tagging.c). The comment at the top of that file
  describes big-endian nibbles and tags; both are little-endian in the code.
  */
module TagCodes {
  import opened Options
  import opened Pieces

  const TWO_32: nat := 0x1_0000_0000

  // Seven bits a byte, the lowest first; the high bit says that more follow.
  function TagBytes(tag: nat): (s: Bytes)
    ensures s != []
  {
    if tag < 0x80 then [tag as byte] else [(tag % 0x80 + 0x80) as byte] + TagBytes(tag / 0x80)
  }

  // The tag that t begins with, of which i bytes were read before, and the number of its bytes.
  function TagOf(t: Bytes, i: nat): Option<(nat, nat)>
    decreases |t|
  {
    if t == [] || i > 4 || (i == 4 && t[0] % 0x80 > 15) then None
    else if t[0] < 0x80 then Some((t[0] as nat, 1))
    else
      match TagOf(t[1..], i + 1)
      case None => None
      case Some((v, n)) => Some((t[0] as nat - 0x80 + 0x80 * v, n + 1))
  }

  // 2^(7i) for the bytes of a tag.
  function Weight(i: nat): (w: nat)
    requires i <= 5
    ensures w > 0
  {
    if i == 0 then 1 else if i == 1 then 0x80 else if i == 2 then 0x4000 else if i == 3 then 0x20_0000
    else if i == 4 then 0x1000_0000 else 0x8_0000_0000
  }

  // A tag with 7(5 - i) bits is read back.
  lemma {:induction false} TagBack(tag: nat, i: nat, rest: Bytes)
    requires i <= 4 && tag * Weight(i) < TWO_32
    ensures TagOf(TagBytes(tag) + rest, i) == Some((tag, |TagBytes(tag)|)) && |TagBytes(tag)| <= 5 - i
  {
    var t := TagBytes(tag) + rest;
    if tag >= 0x80 {
      assert i < 4;
      TagBack(tag / 0x80, i + 1, rest);
      assert t[1..] == TagBytes(tag / 0x80) + rest;
    }
  }

  // The bytes of one tag: the high bit of every byte but the last is set.
  predicate OneTag(s: Bytes) {
    s != [] && s[|s| - 1] < 0x80 && forall k :: 0 <= k < |s| - 1 ==> s[k] >= 0x80
  }

  // The number with these digits to the base 128, the lowest first.
  function Sevens(s: Bytes): nat {
    if s == [] then 0 else s[0] as nat % 0x80 + 0x80 * Sevens(s[1..])
  }

  lemma OneTagMore(s: Bytes)
    requires s != []
    ensures OneTag(s) <==> if s[0] < 0x80 then |s| == 1 else |s| > 1 && OneTag(s[1..])
  {
    assert forall k :: 0 <= k < |s| - 1 ==> s[1..][k] == s[k + 1];
  }

  // A tag is written with the fewest digits, and in no other way.
  lemma TagBytesIs(tag: nat, s: Bytes)
    ensures s == TagBytes(tag) <==> OneTag(s) && Sevens(s) == tag && (|s| > 1 ==> s[|s| - 1] != 0)
  {
    TagBytesForm(tag);
    if OneTag(s) && Sevens(s) == tag && (|s| > 1 ==> s[|s| - 1] != 0) {
      TagBytesOnly(s);
    }
  }

  lemma {:induction false} TagBytesOnly(s: Bytes)
    requires OneTag(s) && (|s| > 1 ==> s[|s| - 1] != 0)
    ensures TagBytes(Sevens(s)) == s
  {
    OneTagMore(s);
    hide *;
    SevensFirst(s);
    if |s| > 1 {
      var rest := s[1..];
      assert rest[|rest| - 1] == s[|s| - 1];
      SevensPositive(rest);
      TagBytesOnly(rest);
      TagBytesMore(s[0], Sevens(rest));
      assert s == [s[0]] + rest;
    } else {
      TagBytesOne(s[0]);
      assert s == [s[0]];
    }
  }

  lemma TagBytesOne(b: byte)
    requires b < 0x80
    ensures TagBytes(b as nat % 0x80) == [b]
  {
  }

  lemma TagBytesMore(b: byte, more: nat)
    requires b >= 0x80 && more > 0
    ensures TagBytes(b as nat % 0x80 + 0x80 * more) == [b] + TagBytes(more)
  {
  }

  lemma {:induction false} TagBytesForm(tag: nat)
    ensures var s := TagBytes(tag); OneTag(s) && Sevens(s) == tag && (tag > 0 ==> s[|s| - 1] != 0)
    ensures tag == 0 ==> TagBytes(tag) == [0]
  {
    if tag >= 0x80 {
      TagBytesForm(tag / 0x80);
      var s := TagBytes(tag);
      assert s[1..] == TagBytes(tag / 0x80);
      OneTagMore(s);
    }
  }

  // More than one digit makes at least 128.
  lemma {:induction false} SevensPositive(s: Bytes)
    requires OneTag(s) && s[|s| - 1] != 0
    ensures Sevens(s) > 0 && (|s| > 1 ==> Sevens(s) >= 0x80)
  {
    if |s| > 1 {
      OneTagMore(s);
      SevensPositive(s[1..]);
    }
  }

  // The number after one more digit has 32 bits exactly if it had.
  lemma FitsMore(i: nat, b: nat, w: nat)
    requires i < 4 && b < 0x80
    ensures (b + 0x80 * w) * Weight(i) < TWO_32 <==> w * Weight(i + 1) < TWO_32
  {
    if i == 0 {
    } else if i == 1 {
    } else if i == 2 {
    } else {
    }
  }

  lemma {:induction false} TagOfInside(t: Bytes, i: nat)
    ensures match TagOf(t, i) case None => true case Some((v, n)) => 0 < n <= |t|
    decreases |t|
  {
    if t != [] {
      TagOfInside(t[1..], i + 1);
    }
  }

  // A tag in the first n bytes, if its digits are no more than five and make a number of 32 bits; i digits
  // stood before.
  predicate IsTag(t: Bytes, i: nat, v: nat, n: nat)
    requires i <= 5
  {
    0 < n <= |t| && n <= 5 - i && OneTag(t[..n]) && v == Sevens(t[..n]) && v * Weight(i) < TWO_32
  }

  // That is what is read.
  lemma {:induction false} TagOfIs(t: Bytes, i: nat, v: nat, n: nat)
    requires i <= 5
    ensures TagOf(t, i) == Some((v, n)) <==> IsTag(t, i, v, n)
    decreases |t|
  {
    TagOfInside(t, i);
    IsTagInside(t, i, v, n);
    hide *;
    if t != [] {
      TagOfFirst(t, i, v, n);
      if t[0] < 0x80 {
        IsTagLast(t, i, v, n);
      } else if i < 4 && n > 0 {
        TagOfIs(t[1..], i + 1, v / 0x80, n - 1);
        TagOfMore(t, i, v, n);
        IsTagMore(t, i, v, n);
      }
    }
  }

  lemma IsTagInside(t: Bytes, i: nat, v: nat, n: nat)
    requires i <= 5
    ensures IsTag(t, i, v, n) ==> 0 < n <= |t| && n <= 5 - i && (t[0] >= 0x80 ==> n > 1)
  {
    hide Weight, Sevens;
    if IsTag(t, i, v, n) {
      OneTagMore(t[..n]);
    }
  }

  lemma IsTagLast(t: Bytes, i: nat, v: nat, n: nat)
    requires i <= 5 && t != [] && t[0] < 0x80
    ensures IsTag(t, i, v, n) <==> i <= 4 && (i < 4 || t[0] <= 15) && n == 1 && v == t[0] as nat
  {
    hide OneTag, Sevens, Weight;
    if 0 < n <= |t| && i < 5 {
      OneTagMore(t[..n]);
      SevensFirst(t[..n]);
      LastDigit(t[0] as nat, i);
    }
  }

  lemma IsTagMore(t: Bytes, i: nat, v: nat, n: nat)
    requires i < 4 && t != [] && t[0] >= 0x80 && n > 0
    ensures IsTag(t, i, v, n) <==> IsTag(t[1..], i + 1, v / 0x80, n - 1) && v == t[0] as nat - 0x80 + 0x80 * (v / 0x80)
  {
    hide OneTag, Sevens, Weight;
    FitsMore(i, t[0] as nat - 0x80, v / 0x80);
    if n <= |t| {
      assert t[..n][1..] == t[1..][..n - 1];
      OneTagMore(t[..n]);
      SevensFirst(t[..n]);
    }
  }

  lemma TagOfFirst(t: Bytes, i: nat, v: nat, n: nat)
    ensures i > 4 ==> TagOf(t, i) == None
    ensures t != [] && t[0] < 0x80 ==>
              (TagOf(t, i) == Some((v, n)) <==> i <= 4 && (i < 4 || t[0] <= 15) && n == 1 && v == t[0] as nat)
    ensures t != [] && t[0] >= 0x80 && i == 4 ==> TagOf(t, i) == None
  {
  }

  lemma TagOfMore(t: Bytes, i: nat, v: nat, n: nat)
    requires t != [] && i < 4 && t[0] >= 0x80 && n > 0
    ensures TagOf(t, i) == Some((v, n)) <==>
              TagOf(t[1..], i + 1) == Some((v / 0x80, n - 1)) && v == t[0] as nat - 0x80 + 0x80 * (v / 0x80)
  {
  }

  lemma LastDigit(b: nat, i: nat)
    requires i < 5 && b < 0x80
    ensures b * Weight(i) < TWO_32 <==> i < 4 || b <= 15
  {
    if i == 0 {
    } else if i == 1 {
    } else if i == 2 {
    } else if i == 3 {
    } else {
    }
  }

  lemma SevensFirst(s: Bytes)
    requires s != []
    ensures Sevens(s) == s[0] as nat % 0x80 + 0x80 * Sevens(s[1..])
    ensures |s| == 1 ==> Sevens(s) == s[0] as nat % 0x80
  {
  }

  // The loop of evtag_encode_tag.
  method EncodeTag(tag0: nat) returns (data: Bytes)
    requires tag0 < TWO_32
    ensures data == TagBytes(tag0)
  {
    var tag := tag0;
    data := [];
    while true
      invariant data + TagBytes(tag) == TagBytes(tag0)
      decreases tag
    {
      ghost var was := data;
      var lower := tag % 0x80;
      var more := tag / 0x80;
      if more == 0 {
        data := data + [lower as byte];
        break;
      }
      data := data + [(lower + 0x80) as byte];
      assert was + ([(lower + 0x80) as byte] + TagBytes(more)) == data + TagBytes(more);
      tag := more;
    }
  }

  lemma WeightStep(i: nat, x: nat, v: nat)
    requires i <= 4
    ensures Weight(i) * (x + 0x80 * v) == Weight(i) * x + Weight(i + 1) * v
  {
    if i == 0 {
    } else if i == 1 {
    } else if i == 2 {
    } else if i == 3 {
    } else {
    }
  }

  // What is read of a tag, with the number of its first i bytes.
  function Joined(number: nat, i: nat, o: Option<(nat, nat)>): Option<(nat, nat)>
    requires i <= 5
  {
    match o
    case None => None
    case Some((v, n)) => Some((number + Weight(i) * v, i + n))
  }

  lemma JoinedStep(number: nat, i: nat, t: Bytes)
    requires i <= 4 && t != [] && !(i == 4 && t[0] % 0x80 > 15)
    ensures var b := t[0] as nat;
            Joined(number, i, TagOf(t, i)) ==
              if b < 0x80 then Some((number + Weight(i) * b, i + 1))
              else Joined(number + Weight(i) * (b - 0x80), i + 1, TagOf(t[1..], i + 1))
  {
    var o := TagOf(t[1..], i + 1);
    hide Weight;
    if t[0] >= 0x80 && o.Some? {
      WeightStep(i, t[0] as nat - 0x80, o.value.0);
    }
  }

  // The number of bytes that decode_tag_internal reads of a buffer with the bytes t, i of them before.
  function ReadOf(t: Bytes, i: nat): nat
    decreases |t|
  {
    if t == [] then 0
    else if i > 4 || (i == 4 && t[0] % 0x80 > 15) || t[0] < 0x80 then 1
    else 1 + ReadOf(t[1..], i + 1)
  }

  // Five bytes are pulled up. A sixth one is read behind them exactly if there is one and the five say
  // that more follow without being too big.
  lemma SixthByte(t: Bytes)
    ensures ReadOf(t, 0) <= 6
    ensures ReadOf(t, 0) > 5 <==> |t| > 5 && (forall k :: 0 <= k < 5 ==> t[k] >= 0x80) && t[4] < 0x90
  {
    ReadRest(t, 0);
    if |t| > 5 && (forall k :: 0 <= k < 5 ==> t[k] >= 0x80) && t[4] < 0x90 {
      ReadFive(t);
    }
  }

  // The bytes before the last one that is read say that more follow.
  lemma {:induction false} ReadRest(t: Bytes, i: nat)
    requires i <= 5
    ensures i + ReadOf(t, i) <= 6 && ReadOf(t, i) <= |t|
    ensures forall k :: 0 <= k < ReadOf(t, i) - 1 ==> t[k] >= 0x80
    ensures forall k :: 0 <= k < ReadOf(t, i) - 1 && i + k == 4 ==> t[k] < 0x90
    decreases |t|
  {
    if t != [] && i <= 4 && !(i == 4 && t[0] % 0x80 > 15) && t[0] >= 0x80 {
      ReadRest(t[1..], i + 1);
      assert forall k :: 0 < k < |t| ==> t[k] == t[1..][k - 1];
    }
  }

  lemma ReadFive(t: Bytes)
    requires |t| > 5 && (forall k :: 0 <= k < 5 ==> t[k] >= 0x80) && t[4] < 0x90
    ensures ReadOf(t, 0) == 6
  {
    var t1, t2, t3, t4, t5 := t[1..], t[2..], t[3..], t[4..], t[5..];
    assert t1[1..] == t2 && t2[1..] == t3 && t3[1..] == t4 && t4[1..] == t5;
    assert t1[0] == t[1] && t2[0] == t[2] && t3[0] == t[3] && t4[0] == t[4];
    assert ReadOf(t5, 5) == 1;
    hide ReadOf;
    ReadMore(t4, 4);
    ReadMore(t3, 3);
    ReadMore(t2, 2);
    ReadMore(t1, 1);
    ReadMore(t, 0);
  }

  // Such a buffer.
  lemma SixthByteIsRead()
    ensures ReadOf([0x80, 0x80, 0x80, 0x80, 0x80, 0], 0) == 6
  {
    ReadFive([0x80, 0x80, 0x80, 0x80, 0x80, 0]);
  }

  lemma ReadMore(t: Bytes, i: nat)
    requires t != [] && i <= 4 && !(i == 4 && t[0] % 0x80 > 15) && t[0] >= 0x80
    ensures ReadOf(t, i) == 1 + ReadOf(t[1..], i + 1)
  {
  }

  // The loop of decode_tag_internal, with the bytes of the buffer that are pulled up. The byte behind
  // them may be any.
  method TagFrom(data: Bytes, len: nat, ghost t: Bytes) returns (count: nat, number: nat, ghost read: nat)
    requires len == |t| && data == t[..if len < 5 then len else 5]
    ensures match TagOf(data, 0)
            case None => count == 0
            case Some((v, n)) => count == n && number == v
    ensures read == ReadOf(t, 0)
  {
    hide Weight, TagOf, ReadOf;
    count, number, read := 0, 0, 0;
    assert data[0..] == data && t[0..] == t;
    JoinedNothing(TagOf(data, 0));
    while count < len
      invariant count <= |data| && (count == 5 || count <= len) && read == count
      invariant TagOf(data, 0) == Joined(number, count, TagOf(data[count..], count))
      invariant ReadOf(t, 0) == read + ReadOf(t[count..], count)
      decreases len - count
    {
      var lower: nat := if count < |data| then data[count] as nat else 0;
      if count >= |data| {
        lower := *;
      }
      read := read + 1;
      if count > 4 {
        NothingLeft(data[count..], count);
        ReadLast(t[count..], count);
        return 0, 0, read;
      }
      if count == 4 && lower % 0x80 > 15 {
        TooBig(data[count..]);
        ReadLast(t[count..], count);
        return 0, 0, read;
      }
      JoinedStep(number, count, data[count..]);
      assert data[count..][1..] == data[count + 1..] && t[count..][1..] == t[count + 1..];
      if lower < 0x80 {
        ReadLast(t[count..], count);
      } else {
        ReadMore(t[count..], count);
      }
      number := number + Weight(count) * (lower % 0x80);
      count := count + 1;
      if lower < 0x80 {
        return;
      }
    }
    NothingLeft(data[count..], count);
    ReadNothing(t[count..], count);
    count := 0;
  }

  lemma ReadLast(t: Bytes, i: nat)
    requires t != [] && (i > 4 || (i == 4 && t[0] % 0x80 > 15) || t[0] < 0x80)
    ensures ReadOf(t, i) == 1
  {
  }

  lemma ReadNothing(t: Bytes, i: nat)
    requires t == []
    ensures ReadOf(t, i) == 0
  {
  }

  lemma JoinedNothing(o: Option<(nat, nat)>)
    ensures Joined(0, 0, o) == o
  {
  }

  lemma TooBig(t: Bytes)
    requires t != [] && t[0] % 0x80 > 15
    ensures TagOf(t, 4) == None
  {
  }

  lemma NothingLeft(t: Bytes, i: nat)
    requires t == []
    ensures TagOf(t, i) == None
  {
  }

  // The nibble at place i, from 1 on: first the lower half of byte 0, then both halves of the others,
  // the upper one first.
  function Nibble(data: Bytes, i: nat): (d: nat)
    requires 0 < i && i / 2 < |data|
    ensures d < 0x10
  {
    if i % 2 == 1 then data[i / 2] as nat % 0x10 else data[i / 2] as nat / 0x10
  }

  // The loop of DECODE_INT_INTERNAL from nibble k down, with what is read already.
  function Folded(data: Bytes, k: nat, number: nat): nat
    requires k / 2 < |data|
    decreases k
  {
    if k == 0 then number else Folded(data, k - 1, number * 0x10 + Nibble(data, k))
  }

  // The integer that t begins with and the number of its bytes.
  function IntOf(t: Bytes, maxNibbles: nat): Option<(nat, nat)> {
    if t == [] then None
    else
      var nibbles := t[0] as nat / 0x10 + 1;
      var n := nibbles / 2 + 1;
      if nibbles > maxNibbles || n > |t| then None else Some((Folded(t, nibbles, 0), n))
  }

  // Some integers as bytes.
  lemma KnownInts(one: Bytes, two: Bytes, five: Bytes)
    requires one == [1] && two == [0x20, 0xfa] && five == [0x7f, 0xee, 0xbd, 0xae, 0xd0]
    ensures IntOf(one, 8) == Some((1, 1)) && IntOf(two, 8) == Some((0xaf0, 2)) && IntOf(five, 8) == Some((0xdead_beef, 5))
  {
    hide Folded;
    FoldedNext(one, 1, 0, 1);
    FoldedNext(two, 3, 0, 0xa);
    FoldedNext(two, 2, 0xa, 0xaf);
    FoldedNext(two, 1, 0xaf, 0xaf0);
    KnownBeef(five);
  }

  lemma KnownBeef(data: Bytes)
    requires data == [0x7f, 0xee, 0xbd, 0xae, 0xd0]
    ensures Folded(data, 8, 0) == 0xdead_beef
  {
    hide Folded;
    FoldedNext(data, 8, 0, 0xd);
    FoldedNext(data, 7, 0xd, 0xde);
    FoldedNext(data, 6, 0xde, 0xdea);
    FoldedNext(data, 5, 0xdea, 0xdead);
    FoldedNext(data, 4, 0xdead, 0xdeadb);
    FoldedNext(data, 3, 0xdeadb, 0xdeadbe);
    FoldedNext(data, 2, 0xdeadbe, 0xdead_bee);
    FoldedNext(data, 1, 0xdead_bee, 0xdead_beef);
  }

  lemma FoldedNext(data: Bytes, k: nat, number: nat, next: nat)
    requires 0 < k && k / 2 < |data| && next == number * 0x10 + Nibble(data, k)
    ensures Folded(data, k, number) == Folded(data, k - 1, next) && Folded(data, 0, next) == next
  {
  }

  lemma {:induction false} FoldedSame(data: Bytes, other: Bytes, k: nat, number: nat)
    requires k / 2 < |data| && k / 2 < |other|
    requires forall i :: 0 < i <= k ==> Nibble(data, i) == Nibble(other, i)
    ensures Folded(data, k, number) == Folded(other, k, number)
    decreases k
  {
    hide Nibble;
    if k > 0 {
      FoldedSame(data, other, k - 1, number * 0x10 + Nibble(data, k));
    }
  }

  lemma Power16Is()
    ensures Power16(8) == TWO_32
  {
    assert Power16(2) == 0x100;
    assert Power16(4) == 0x1_0000;
    assert Power16(6) == 0x100_0000;
  }

  // A byte with one half replaced.
  function LowerHalf(b: byte, d: nat): (c: byte)
    requires d < 0x10
    ensures c as nat % 0x10 == d && c as nat / 0x10 == b as nat / 0x10
  {
    (b as nat / 0x10 * 0x10 + d) as byte
  }

  function UpperHalf(b: byte, d: nat): (c: byte)
    requires d < 0x10
    ensures c as nat / 0x10 == d && c as nat % 0x10 == b as nat % 0x10
  {
    (d * 0x10 + b as nat % 0x10) as byte
  }

  // As many nibbles as are read fit.
  lemma {:induction false} FoldedBound(data: Bytes, k: nat, number: nat, m: nat)
    requires k / 2 < |data| && number < Power16(m)
    ensures Folded(data, k, number) < Power16(m + k)
    decreases k
  {
    hide Nibble;
    if k > 0 {
      FoldedBound(data, k - 1, number * 0x10 + Nibble(data, k), m + 1);
    }
  }

  lemma {:induction false} Power16Grows(m: nat, n: nat)
    requires m <= n
    ensures Power16(m) <= Power16(n)
  {
    if m < n {
      Power16Grows(m, n - 1);
    }
  }

  lemma NoNibbles()
    ensures Power16(0) == 1
  {
  }

  lemma IntBound(t: Bytes, maxNibbles: nat)
    ensures IntOf(t, maxNibbles).Some? ==> IntOf(t, maxNibbles).value.0 < Power16(maxNibbles)
  {
    hide Folded, Power16;
    if IntOf(t, maxNibbles).Some? {
      NoNibbles();
      var k := t[0] as nat / 0x10 + 1;
      FoldedBound(t, k, 0, 0);
      Power16Grows(k, maxNibbles);
    }
  }

  // The number of nibbles of a number.
  function Nibbles(n: nat): (k: nat)
    ensures n > 0 ==> k > 0
  {
    if n == 0 then 0 else 1 + Nibbles(n / 0x10)
  }

  lemma {:induction false} NibblesBound(n: nat, k: nat)
    requires k <= 16 && n < Power16(k)
    ensures Nibbles(n) <= k
  {
    if n > 0 {
      NibblesBound(n / 0x10, k - 1);
    }
  }

  function Power16(k: nat): (p: nat)
    ensures p > 0
  {
    if k == 0 then 1 else 0x10 * Power16(k - 1)
  }

  lemma OneNibble(was: Bytes, data: Bytes, off: nat, d: nat)
    requires 0 < off && off / 2 < |was| && d < 0x10
    requires data == was[off / 2 := if off % 2 == 1 then LowerHalf(was[off / 2], d) else UpperHalf(was[off / 2], d)]
    ensures Nibble(data, off) == d
    ensures forall i :: 0 < i && i / 2 < |was| && i != off ==> Nibble(data, i) == Nibble(was, i)
  {
    forall i | 0 < i && i / 2 < |was| && i != off
      ensures Nibble(data, i) == Nibble(was, i)
    {
      if i / 2 == off / 2 {
        assert i % 2 != off % 2;
      }
    }
  }

  lemma HeaderOnly(was: Bytes, data: Bytes, d: nat)
    requires was != [] && d < 0x10 && data == was[0 := UpperHalf(was[0], d)]
    ensures data[0] as nat / 0x10 == d
    ensures forall i :: 0 < i && i / 2 < |was| ==> Nibble(data, i) == Nibble(was, i)
  {
    forall i | 0 < i && i / 2 < |was|
      ensures Nibble(data, i) == Nibble(was, i)
    {
      if i / 2 == 0 {
        assert i == 1;
      }
    }
  }

  // Bytes that are read as a number, whatever follows, if that many nibbles are allowed.
  ghost predicate Codes(data: Bytes, number: nat, nibbles: nat) {
    forall rest, max :: nibbles <= max ==> IntOf(data + rest, max) == Some((number, |data|))
  }

  // What the loop has written is read as the number.
  lemma ReadsAs(data: Bytes, off: nat, nibbles: nat, number: nat, max0: nat)
    requires 1 <= off <= max0 + 1 && (off - 1) / 2 < |data| && Folded(data, off - 1, 0) == number
    requires nibbles == (if off > 2 then off - 2 else 0) && data[0] as nat / 0x10 == nibbles
    requires off == 1 ==> Nibble(data, 1) == 0
    requires (off + 1) / 2 <= |data| && max0 >= 1
    ensures Codes(data[..(off + 1) / 2], number, max0)
  {
    var head := data[..(off + 1) / 2];
    forall rest, max | max0 <= max
      ensures IntOf(head + rest, max) == Some((number, |head|))
    {
      var t := head + rest;
      assert t[0] == data[0] && nibbles + 1 <= max && (nibbles + 1) / 2 + 1 == (off + 1) / 2;
      forall i | 0 < i <= nibbles + 1
        ensures Nibble(t, i) == Nibble(data, i)
      {
        assert t[i / 2] == data[i / 2];
      }
      FoldedSame(t, data, nibbles + 1, 0);
      hide Nibble;
      if off == 1 {
        assert Folded(data, 1, 0) == Folded(data, 0, 0 * 0x10 + Nibble(data, 1));
      }
    }
  }

  // No nibble is written from place off on.
  ghost predicate Blank(data: Bytes, off: nat) {
    forall i :: 0 < i && off <= i && i / 2 < |data| ==> Nibble(data, i) == 0
  }

  // ENCODE_INT_INTERNAL for integers of size bytes: no more nibbles than the number has, and what
  // is read of them, whatever follows, is the number.
  method EncodeInt(number0: nat, size: nat) returns (data: Bytes)
    requires (size == 4 || size == 8) && number0 < Power16(2 * size)
    ensures var k := if number0 == 0 then 1 else Nibbles(number0);
            |data| == k / 2 + 1 && data[0] as nat / 0x10 == k - 1 && Blank(data, k + 1)
    ensures Codes(data, number0, 2 * size)
  {
    NibblesBound(number0, 2 * size);
    hide Power16, UpperHalf, Nibble, Folded, Codes, Blank;
    var number, off, nibbles := number0, 1, 0;
    data := seq(size + 1, _ => 0);
    NothingWritten(data, number0);
    while number > 0
      invariant 0 <= number && 1 <= off && off - 1 + Nibbles(number) == Nibbles(number0) <= 2 * size
      invariant |data| == size + 1 && Folded(data, off - 1, number) == number0
      invariant off == 1 ==> Nibble(data, 1) == 0
      invariant Blank(data, off)
      decreases number
    {
      data := PutNibble(data, off, number);
      number, off := number / 0x10, off + 1;
    }
    if off > 2 {
      nibbles := off - 2;
    }
    ghost var was := data;
    data := data[0 := UpperHalf(data[0], nibbles)];
    HeaderOnly(was, data, nibbles);
    BlankPrefix(data, off);
    FoldedSame(was, data, off - 1, 0);
    ReadsAs(data, off, nibbles, number0, 2 * size);
    data := data[..(off + 1) / 2];
  }

  lemma BlankPrefix(data: Bytes, off: nat)
    requires Blank(data, off) && (off + 1) / 2 <= |data|
    ensures Blank(data[..(off + 1) / 2], off)
    ensures off == 1 ==> Blank(data[..1], 2)
  {
    var head := data[..(off + 1) / 2];
    forall i | 0 < i && off <= i && i / 2 < |head|
      ensures Nibble(head, i) == 0
    {
      assert Nibble(data, i) == 0 && head[i / 2] == data[i / 2];
    }
  }

  lemma NothingWritten(data: Bytes, number: nat)
    requires data != [] && data[0] == 0
    ensures Folded(data, 0, number) == number && Nibble(data, 1) == 0
    ensures (forall i :: 0 <= i < |data| ==> data[i] == 0) ==> Blank(data, 1)
  {
  }

  // The lowest nibble of the number goes to place off.
  method PutNibble(data: Bytes, off: nat, number: nat) returns (data': Bytes)
    requires 0 < off && off / 2 < |data|
    ensures |data'| == |data| && Folded(data', off, number / 0x10) == Folded(data, off - 1, number)
    ensures Blank(data, off) ==> Blank(data', off + 1)
  {
    hide LowerHalf, UpperHalf, Nibble;
    if off % 2 == 1 {
      data' := data[off / 2 := LowerHalf(data[off / 2], number % 0x10)];
    } else {
      data' := data[off / 2 := UpperHalf(data[off / 2], number % 0x10)];
    }
    OneNibble(data, data', off, number % 0x10);
    FoldedSame(data, data', off - 1, number);
  }

  // DECODE_INT_INTERNAL on the bytes of an integer.
  method DecodeInt(data: Bytes, maxNibbles: nat) returns (len: nat, number: nat)
    ensures match IntOf(data, maxNibbles)
            case None => len == 0
            case Some((v, n)) => len == n && number == v
  {
    len, number := 0, 0;
    if data == [] {
      return;
    }
    var nibbles := data[0] as nat / 0x10 + 1;
    if nibbles > maxNibbles || nibbles / 2 + 1 > |data| {
      return;
    }
    len := nibbles / 2 + 1;
    hide Nibble;
    while nibbles > 0
      invariant 0 <= nibbles && nibbles / 2 < |data| && IntOf(data, maxNibbles) == Some((Folded(data, nibbles, number), len))
    {
      number := number * 0x10 + Nibble(data, nibbles);
      nibbles := nibbles - 1;
    }
  }
}
