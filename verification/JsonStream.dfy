/**
  The input of the JSON parser, byte by byte (common/jansson/load.c). It holds no zero byte, as the
  input of json_loads ends at the first one.
  */
module JsonStream {
  import opened Pieces
  import opened Utf

  const EOF: int := -1
  const ERROR: int := -2

  datatype StreamState = StateOk | StateEof | StateError

  ghost predicate HasCharacter(s: Bytes, i: nat)
    requires i <= |s|
  {
    exists c :: CharacterAt(s, i, c)
  }

  // The place where the valid characters from i on end.
  ghost function Good(s: Bytes, i: nat): (n: nat)
    requires i <= |s|
    ensures i <= n <= |s|
    decreases |s| - i
  {
    if i < |s| && 0 < CheckFirst(s[i]) <= |s| - i && HasCharacter(s, i) then Good(s, i + CheckFirst(s[i])) else i
  }

  // The bytes that the lexer gets: all up to the first one that cannot be decoded.
  ghost function Delivered(s: Bytes): (d: Bytes)
    ensures d <= s
  {
    s[..Good(s, 0)]
  }

  // What the lexer gets at a place.
  ghost function Peek(s: Bytes, p: nat): int {
    if p < |Delivered(s)| then s[p] as int else if Delivered(s) == s then EOF else ERROR
  }

  lemma GoodStep(s: Bytes, i: nat)
    requires i < |s|
    ensures if HasCharacter(s, i) then 0 < CheckFirst(s[i]) <= |s| - i && Good(s, i) == Good(s, i + CheckFirst(s[i]))
            else Good(s, i) == i
  {
    if HasCharacter(s, i) {
      var c :| CharacterAt(s, i, c);
      AtCharacter(s, i, c);
    }
  }

  // stream_t.
  class Stream {
    const input: Bytes
    // How many bytes were taken from the input; the last ones are in the buffer.
    var at: nat
    var buffer: Bytes
    var bufferPos: nat
    var state: StreamState

    // The number of bytes the lexer has got.
    ghost function Position(): int
      reads this
    {
      at - (|buffer| - bufferPos)
    }

    ghost predicate Valid()
      reads this
    {
      && 0 !in input
      && bufferPos <= |buffer| <= at <= |input| && buffer == input[at - |buffer|..at]
      && Good(input, 0) == Good(input, at)
      && (state != StateOk ==> bufferPos == |buffer|)
      && (state == StateEof ==> at == |input|)
      && (state == StateError ==> Good(input, at) == at < |input|)
    }

    lemma Inside()
      requires Valid()
      ensures 0 <= Position() <= |Delivered(input)|
    {
      hide Good;
    }

    // What the lexer has still to get.
    ghost function Ahead(): Bytes
      requires Valid()
      reads this
    {
      Inside();
      Delivered(input)[Position()..]
    }

    constructor (input: Bytes)
      requires 0 !in input
      ensures Valid() && this.input == input && Position() == 0 && Ahead() == Delivered(input)
    {
      this.input, at, buffer, bufferPos, state := input, 0, [], 0, StateOk;
      new;
      hide Good, Delivered;
      assert Delivered(input)[0..] == Delivered(input);
    }

    // stream_get. (After an error nothing is read any more, so what was taken for it is left out.)
    method Get() returns (c: int)
      requires Valid()
      modifies this
      ensures Valid() && c == Peek(input, old(Position()))
      ensures Position() == old(Position()) + if c >= 0 then 1 else 0
      ensures c >= 0 ==> bufferPos > 0 && state == StateOk && 0 < Position() <= |input| && c == input[Position() - 1] as int
      ensures c >= 0 || c == EOF || c == ERROR
      ensures if old(Ahead()) == [] then c == (if Delivered(input) == input then EOF else ERROR) && Ahead() == []
              else c == old(Ahead())[0] as int && Ahead() == old(Ahead())[1..]
    {
      hide Good;
      Inside();
      if state == StateEof {
        return EOF;
      }
      if state == StateError {
        return ERROR;
      }
      if bufferPos == |buffer| {
        if at == |input| {
          state := StateEof;
          return EOF;
        }
        var ok := Fill();
        if !ok {
          state := StateError;
          return ERROR;
        }
      }
      c := buffer[bufferPos] as int;
      bufferPos := bufferPos + 1;
    }

    // The part of stream_get that takes the next character from the input.
    method Fill() returns (ok: bool)
      requires Valid() && state == StateOk && bufferPos == |buffer| && at < |input|
      modifies this
      ensures Valid() && state == StateOk && Position() == old(Position())
      ensures if ok then bufferPos < |buffer| else Good(input, at) == at < |input| && bufferPos == |buffer|
    {
      hide Good, Scalar, Encode;
      GoodStep(input, at);
      var u := input[at];
      var count := CheckFirst(u);
      if u >= 0x80 {
        if count == 0 {
          NoCharacter(input, at);
          return false;
        }
        if count > |input| - at {
          NoCharacter(input, at);
          return false;
        }
        var cp := CheckFull(input[at..at + count]);
        if cp == -1 {
          NoCharacter(input, at);
          return false;
        }
        assert CharacterAt(input, at, cp);
      } else {
        OneByte(u);
        assert CharacterAt(input, at, u as int);
      }
      buffer, bufferPos, at := input[at..at + count], 0, at + count;
      ok := true;
    }

    // stream_unget of what was got last.
    method Unget(c: int)
      requires Valid() && (c >= 0 ==> bufferPos > 0 && state == StateOk && Position() > 0)
      modifies this`bufferPos
      requires c >= 0 ==> c == input[Position() - 1] as int
      ensures Valid() && Position() == old(Position()) - if c >= 0 then 1 else 0
      ensures Ahead() == if c >= 0 then [c as byte] + old(Ahead()) else old(Ahead())
    {
      Inside();
      hide Good;
      if c == EOF || c == ERROR || c < 0 {
        return;
      }
      bufferPos := bufferPos - 1;
    }
  }

  // Valid UTF-8 is delivered as a whole.
  lemma ValidDelivered(s: Bytes)
    requires Utf.Valid(s)
    ensures Delivered(s) == s
  {
    var cps: seq<int> :| AllScalar(cps) && EncodeAll(cps) == s;
    assert s[..0] == [] == EncodeAll([]);
    GoodAll(s, cps, []);
  }

  lemma {:induction false} GoodAll(s: Bytes, cps: seq<int>, done: seq<int>)
    requires AllScalar(cps) && AllScalar(done) && EncodeAll(cps) == s && EncodeAll(done) <= s
    ensures Good(s, |EncodeAll(done)|) == |s|
    decreases |s| - |EncodeAll(done)|
  {
    hide EncodeAll, Encode;
    var i := |EncodeAll(done)|;
    if i < |s| {
      OneMoreCharacter(s, cps, done);
      var c := cps[|done|];
      AtCharacter(s, i, c);
      EncodeAllMore(done, c);
      var n := CheckFirst(s[i]);
      assert s[..i + n] == s[..i] + s[i..i + n];
      GoodAll(s, cps, done + [c]);
    }
  }
}
