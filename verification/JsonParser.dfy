/**
  The JSON parser (common/jansson/load.c).
  */
module JsonParser {
  import opened Pieces
  import opened JsonStream
  import opened JsonTokens
  import opened JsonLexer
  import opened JsonValues
  import opened JsonGrammar
  import R = JsonRoundTrip
  import V = JsonValidity
  import L = JsonLoading
  import T = JsonTexts
  import Utf

  // What a function of the parser returns: a value, or NULL for an error. MetReal is where the
  // model ends.
  datatype Result = Made(value: Json) | Error | MetReal

  // What the lexer has still to get behind its token.
  ghost function Rest(lex: Lexer): Bytes
    requires lex.Valid()
    reads lex, lex.stream
  {
    if Proper(lex.token) then lex.Ahead() else []
  }

  function ResultOf(o: Outcome): Result {
    match o
    case Parsed(v, u) => Made(v)
    case Refused => Error
    case Beyond => MetReal
  }

  // The parser has done what the grammar says.
  ghost predicate Obeys(lex: Lexer, r: Result, depth: nat, o: Outcome)
    requires lex.Valid()
    reads lex, lex.stream
  {
    r == ResultOf(o) && (o.Parsed? ==> lex.Ahead() == o.rest && lex.depth == depth)
  }

  method ScanNext(lex: Lexer)
    requires lex.Valid()
    modifies lex`saved, lex`token, lex.stream
    ensures lex.Valid() && (lex.token, Rest(lex)) == Next(old(lex.Ahead()), lex.Clean())
  {
    hide TokenOf, Proper, Stream.Valid, Stream.Ahead, Delivered;
    lex.Scan();
  }

  // memchr for a zero byte.
  predicate HoldsZero(s: Bytes) {
    0 in s
  }

  // parse_value.
  method ParseValue(lex: Lexer, flags: Flags) returns (r: Result)
    requires lex.Valid()
    modifies lex, lex.stream
    ensures lex.Valid()
    ensures Obeys(lex, r, old(lex.depth), ValueOf(old(lex.token), old(Rest(lex)), lex.Clean(), flags, old(lex.depth)))
    decreases Left(lex.token, Rest(lex)), 0
  {
    hide ObjectOf, ArrayOf, Stream.Valid, Stream.Ahead, Delivered;
    lex.depth := lex.depth + 1;
    if lex.depth > flags.maxDepth {
      return Error;
    }
    match lex.token {
      case TokenString(val) =>
        if !flags.allowNul {
          if HoldsZero(val) {
            return Error;
          }
        }
        r := Made(JString(val));
      case TokenInteger(integer) => r := Made(JInteger(integer));
      case TokenReal => r := MetReal;
      case TokenTrue => r := Made(JTrue);
      case TokenFalse => r := Made(JFalse);
      case TokenNull => r := Made(JNull);
      case TokenPunct(c) =>
        if c == OPEN_OBJECT {
          r := ParseObject(lex, flags);
        } else if c == OPEN_ARRAY {
          r := ParseArray(lex, flags);
        } else {
          return Error;
        }
      case TokenInvalid => return Error;
      case TokenEof => return Error;
    }
    if !r.Made? {
      return r;
    }
    lex.depth := lex.depth - 1;
  }

  // parse_array.
  method ParseArray(lex: Lexer, flags: Flags) returns (r: Result)
    requires lex.Valid()
    modifies lex, lex.stream
    ensures lex.Valid()
    ensures Obeys(lex, r, old(lex.depth), ArrayOf(old(lex.Ahead()), lex.Clean(), flags, old(lex.depth)))
    decreases |lex.Ahead()|, 2
  {
    hide ValueOf, ElementsOf, Next, Stream.Valid, Stream.Ahead, Delivered;
    var elems: seq<Json> := [];
    ghost var d := lex.depth;
    ScanNext(lex);
    if lex.token == TokenPunct(CLOSE_ARRAY) {
      return Made(JArray([]));
    }
    ghost var all := ElementsOf(lex.token, Rest(lex), lex.Clean(), flags, d, []);
    while !lex.token.TokenEof?
      invariant lex.Valid() && lex.depth == d && Left(lex.token, Rest(lex)) <= old(|lex.Ahead()|)
      invariant all == ElementsOf(lex.token, Rest(lex), lex.Clean(), flags, d, elems)
      decreases Left(lex.token, Rest(lex))
    {
      ElementsStep(lex.token, Rest(lex), lex.Clean(), flags, d, elems);
      var elem := ParseValue(lex, flags);
      if !elem.Made? {
        return elem;
      }
      elems := elems + [elem.value];
      ScanNext(lex);
      if lex.token != TokenPunct(COMMA) {
        if lex.token != TokenPunct(CLOSE_ARRAY) {
          return Error;
        }
        return Made(JArray(elems));
      }
      ScanNext(lex);
    }
    ElementsEnd(lex.token, Rest(lex), lex.Clean(), flags, d, elems);
    return Error;
  }

  lemma ElementsStep(tok: Token, t: Bytes, clean: bool, flags: Flags, depth: nat, elems: seq<Json>)
    requires !tok.TokenEof?
    ensures ElementsOf(tok, t, clean, flags, depth, elems) ==
            var o := ValueOf(tok, t, clean, flags, depth);
            if !o.Parsed? then o
            else
              var (tok1, t1) := Next(o.rest, clean);
              if tok1 == TokenPunct(COMMA) then
                var (tok2, t2) := Next(t1, clean);
                ElementsOf(tok2, t2, clean, flags, depth, elems + [o.value])
              else if tok1 == TokenPunct(CLOSE_ARRAY) then Parsed(JArray(elems + [o.value]), t1)
              else Refused
  {
    hide ValueOf, Next;
  }

  lemma ElementsEnd(tok: Token, t: Bytes, clean: bool, flags: Flags, depth: nat, elems: seq<Json>)
    requires tok.TokenEof?
    ensures ElementsOf(tok, t, clean, flags, depth, elems) == Refused
  {
  }

  // parse_object.
  method ParseObject(lex: Lexer, flags: Flags) returns (r: Result)
    requires lex.Valid()
    modifies lex, lex.stream
    ensures lex.Valid()
    ensures Obeys(lex, r, old(lex.depth), ObjectOf(old(lex.Ahead()), lex.Clean(), flags, old(lex.depth)))
    decreases |lex.Ahead()|, 2
  {
    hide ValueOf, MembersOf, Next, Put, Stream.Valid, Stream.Ahead, Delivered;
    var members: seq<Member> := [];
    ghost var d := lex.depth;
    ScanNext(lex);
    if lex.token == TokenPunct(CLOSE_OBJECT) {
      return Made(JObject([]));
    }
    ghost var all := MembersOf(lex.token, Rest(lex), lex.Clean(), flags, d, []);
    while true
      invariant lex.Valid() && lex.depth == d && Left(lex.token, Rest(lex)) <= old(|lex.Ahead()|)
      invariant all == MembersOf(lex.token, Rest(lex), lex.Clean(), flags, d, members)
      decreases Left(lex.token, Rest(lex))
    {
      MembersStep(lex.token, Rest(lex), lex.Clean(), flags, d, members);
      if !lex.token.TokenString? {
        return Error;
      }
      var key := lex.token.val;
      if HoldsZero(key) {
        return Error;
      }
      if flags.rejectDuplicates {
        if HasKey(members, key) {
          return Error;
        }
      }
      ScanNext(lex);
      if lex.token != TokenPunct(COLON) {
        return Error;
      }
      ScanNext(lex);
      var value := ParseValue(lex, flags);
      if !value.Made? {
        return value;
      }
      members := Put(members, key, value.value);
      ScanNext(lex);
      if lex.token != TokenPunct(COMMA) {
        break;
      }
      ScanNext(lex);
    }
    if lex.token != TokenPunct(CLOSE_OBJECT) {
      return Error;
    }
    return Made(JObject(members));
  }

  lemma MembersStep(tok: Token, t: Bytes, clean: bool, flags: Flags, depth: nat, members: seq<Member>)
    ensures MembersOf(tok, t, clean, flags, depth, members) ==
            if !tok.TokenString? || 0 in tok.val || (flags.rejectDuplicates && HasKey(members, tok.val)) then Refused
            else
              var (tok1, t1) := Next(t, clean);
              if tok1 != TokenPunct(COLON) then Refused
              else
                var (tok2, t2) := Next(t1, clean);
                var o := ValueOf(tok2, t2, clean, flags, depth);
                if !o.Parsed? then o
                else
                  var (tok3, t3) := Next(o.rest, clean);
                  var members' := Put(members, tok.val, o.value);
                  if tok3 == TokenPunct(COMMA) then
                    var (tok4, t4) := Next(t3, clean);
                    MembersOf(tok4, t4, clean, flags, depth, members')
                  else if tok3 == TokenPunct(CLOSE_OBJECT) then Parsed(JObject(members'), t3)
                  else Refused
  {
    hide ValueOf, Next, Put;
  }

  // parse_json.
  method ParseJson(lex: Lexer, flags: Flags) returns (r: Result)
    requires lex.Valid()
    modifies lex, lex.stream
    ensures r == ResultOf(DocumentOf(old(lex.Ahead()), lex.Clean(), flags))
  {
    hide ValueOf, Next, Stream.Valid, Stream.Ahead, Delivered;
    lex.depth := 0;
    ScanNext(lex);
    if !flags.decodeAny {
      if lex.token != TokenPunct(OPEN_ARRAY) && lex.token != TokenPunct(OPEN_OBJECT) {
        return Error;
      }
    }
    r := ParseValue(lex, flags);
    if !r.Made? {
      return;
    }
    if !flags.disableEofCheck {
      ScanNext(lex);
      if !lex.token.TokenEof? {
        return Error;
      }
    }
  }

  // json_loads makes a value of the input if and only if the input is a text of that value, as the flags want it.
  // On a printed text it gives the value that was printed, exactly if it is one that the flags of the parser
  // allow.
  method Loads(input: Bytes, flags: Flags) returns (r: Result)
    requires 0 !in input
    ensures r == ResultOf(DocumentOf(Delivered(input), Delivered(input) == input, flags))
    ensures forall v: Json, f: Format :: Printable(v) && R.Sound(v) && input == Text(v, f, 0) ==>
              r == if R.Acceptable(v, flags, 0) && (flags.decodeAny || v.JArray? || v.JObject?) then Made(v) else Error
    ensures r.Made? ==> Printable(r.value) && KeysValid(r.value)
    ensures forall v: Json :: T.IsText(input, v, flags) <==> r == Made(v)
  {
    hide T.IsText, KeysValid, Utf.Valid, DocumentOf, Text, Printable, R.Sound, R.Acceptable, Delivered, Stream.Valid;
    var lex := new Lexer(input);
    r := ParseJson(lex, flags);
    V.DeliveredValid(input);
    V.DocumentValid(Delivered(input), Delivered(input) == input, flags);
    forall v: Json, f: Format | Printable(v) && R.Sound(v) && input == Text(v, f, 0)
      ensures r == if R.Acceptable(v, flags, 0) && (flags.decodeAny || v.JArray? || v.JObject?) then Made(v) else Error
    {
      R.DocumentBack(v, f, flags);
      R.TextLoadable(v, f, 0);
      ValidDelivered(input);
    }
    forall v: Json
      ensures T.IsText(input, v, flags) <==> r == Made(v)
    {
      L.ParsedIffText(input, v, flags);
    }
  }
}
