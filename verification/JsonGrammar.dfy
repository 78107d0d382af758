/**
  What the JSON parser accepts, as functions on its input (common/jansson/load.c).
  */
module JsonGrammar {
  import opened Pieces
  import opened JsonTokens
  import opened JsonValues

  // The decoding flags, and JSON_PARSER_MAX_DEPTH.
  datatype Flags = Flags(rejectDuplicates: bool, disableEofCheck: bool, decodeAny: bool, allowNul: bool, maxDepth: nat)

  // Beyond: the input holds a real, where the model ends.
  datatype Outcome = Parsed(value: Json, rest: Bytes) | Refused | Beyond

  // The next token and what is behind it.
  function Next(t: Bytes, clean: bool): (r: (Token, Bytes))
    ensures Proper(r.0) ==> |r.1| < |t|
    ensures !Proper(r.0) ==> r.1 == []
  {
    var (tok, n) := TokenOf(t, clean);
    TokenInside(t, clean);
    (tok, if Proper(tok) then t[n..] else [])
  }

  function Left(tok: Token, t: Bytes): nat {
    |t| + if Proper(tok) then 1 else 0
  }

  predicate HasKey(ms: seq<Member>, key: Bytes) {
    exists i :: 0 <= i < |ms| && ms[i].key == key
  }

  // json_object_set: a key that is there keeps its place.
  function Put(ms: seq<Member>, key: Bytes, value: Json): seq<Member> {
    if ms == [] then [Member(key, value)]
    else if ms[0].key == key then [Member(key, value)] + ms[1..]
    else [ms[0]] + Put(ms[1..], key, value)
  }

  // parse_value from a token on, at a depth; t is behind the token.
  function ValueOf(tok: Token, t: Bytes, clean: bool, flags: Flags, depth: nat): (r: Outcome)
    ensures r.Parsed? ==> |r.rest| <= |t|
    decreases Left(tok, t), 0
  {
    if depth + 1 > flags.maxDepth then Refused
    else
      match tok
      case TokenString(val) => if !flags.allowNul && 0 in val then Refused else Parsed(JString(val), t)
      case TokenInteger(integer) => Parsed(JInteger(integer), t)
      case TokenReal => Beyond
      case TokenTrue => Parsed(JTrue, t)
      case TokenFalse => Parsed(JFalse, t)
      case TokenNull => Parsed(JNull, t)
      case TokenPunct(c) =>
        if c == OPEN_OBJECT then ObjectOf(t, clean, flags, depth + 1)
        else if c == OPEN_ARRAY then ArrayOf(t, clean, flags, depth + 1)
        else Refused
      case TokenInvalid => Refused
      case TokenEof => Refused
  }

  // parse_array and parse_object, behind the opening bracket.
  function ArrayOf(t: Bytes, clean: bool, flags: Flags, depth: nat): (r: Outcome)
    ensures r.Parsed? ==> |r.rest| <= |t|
    decreases |t|, 2
  {
    var (tok, u) := Next(t, clean);
    if tok == TokenPunct(CLOSE_ARRAY) then Parsed(JArray([]), u) else ElementsOf(tok, u, clean, flags, depth, [])
  }

  function ObjectOf(t: Bytes, clean: bool, flags: Flags, depth: nat): (r: Outcome)
    ensures r.Parsed? ==> |r.rest| <= |t|
    decreases |t|, 2
  {
    var (tok, u) := Next(t, clean);
    if tok == TokenPunct(CLOSE_OBJECT) then Parsed(JObject([]), u) else MembersOf(tok, u, clean, flags, depth, [])
  }

  // The loop of parse_array from a token on, with the elements that it has already.
  function ElementsOf(tok: Token, t: Bytes, clean: bool, flags: Flags, depth: nat, elems: seq<Json>): (r: Outcome)
    ensures r.Parsed? ==> |r.rest| <= |t|
    decreases Left(tok, t), 1
  {
    if tok.TokenEof? then Refused
    else
      var o := ValueOf(tok, t, clean, flags, depth);
      if !o.Parsed? then o
      else
        var (tok1, t1) := Next(o.rest, clean);
        if tok1 == TokenPunct(COMMA) then
          var (tok2, t2) := Next(t1, clean);
          ElementsOf(tok2, t2, clean, flags, depth, elems + [o.value])
        else if tok1 == TokenPunct(CLOSE_ARRAY) then Parsed(JArray(elems + [o.value]), t1)
        else Refused
  }

  // The loop of parse_object.
  function MembersOf(tok: Token, t: Bytes, clean: bool, flags: Flags, depth: nat, members: seq<Member>): (r: Outcome)
    ensures r.Parsed? ==> |r.rest| <= |t|
    decreases Left(tok, t), 1
  {
    if !tok.TokenString? || 0 in tok.val || (flags.rejectDuplicates && HasKey(members, tok.val)) then Refused
    else
      var (tok1, t1) := Next(t, clean);
      if tok1 != TokenPunct(COLON) then Refused
      else
        var (tok2, t2) := Next(t1, clean);
        var o := ValueOf(tok2, t2, clean, flags, depth);
        if !o.Parsed? then o
        else
          var (tok3, t3) := Next(o.rest, clean);
          var members' := Put(members, tok.val, o.value);
          if tok3 == TokenPunct(COMMA) then
            var (tok4, t4) := Next(t3, clean);
            MembersOf(tok4, t4, clean, flags, depth, members')
          else if tok3 == TokenPunct(CLOSE_OBJECT) then Parsed(JObject(members'), t3)
          else Refused
  }

  // parse_json.
  function DocumentOf(t: Bytes, clean: bool, flags: Flags): Outcome {
    var (tok, u) := Next(t, clean);
    if !flags.decodeAny && tok != TokenPunct(OPEN_ARRAY) && tok != TokenPunct(OPEN_OBJECT) then Refused
    else
      var o := ValueOf(tok, u, clean, flags, 0);
      if o.Parsed? && !flags.disableEofCheck && !Next(o.rest, clean).0.TokenEof? then Refused else o
  }
}
