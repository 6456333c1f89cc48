/**
 The mount helper's cursor parser and its escaper, as the loops they are, and
 the round trip between the two.
 */
module JsonParser {
  import opened Wrappers
  import opened Utf8
  import opened MiniJson

  /** Advances `i` over `src`; a rejected input leaves it anywhere in range. */
  class Parser {
    const src: Bytes
    var i: nat

    constructor (s: Bytes)
      ensures src == s && Valid() && Rest() == s
    {
      src := s;
      i := 0;
    }

    ghost predicate Valid()
      reads this
    {
      i <= |src|
    }

    ghost function Rest(): Bytes
      requires Valid()
      reads this
    {
      src[i..]
    }

    method SkipWs()
      requires Valid()
      modifies this
      ensures Valid() && Rest() == SkipSpace(old(Rest())) == SkipSpace(Rest())
      ensures forall c: byte :: Token(c, Rest()) == Token(c, old(Rest()))
    {
      while i < |src| && IsSpace(src[i])
        invariant Valid()
        invariant SkipSpace(Rest()) == SkipSpace(old(Rest()))
      {
        assert Rest()[1..] == src[i + 1..];
        i := i + 1;
      }
    }

    method Expect(c: byte) returns (ok: bool)
      requires Valid()
      modifies this
      ensures Valid()
      ensures ok == Token(c, old(Rest())).Some?
      ensures ok ==> Rest() == Token(c, old(Rest())).value
    {
      SkipWs();
      if i < |src| && src[i] == c {
        assert Rest()[1..] == src[i + 1..];
        i := i + 1;
        return true;
      }
      return false;
    }

    method Peek() returns (b: Option<byte>)
      requires Valid()
      modifies this
      ensures Valid() && Rest() == SkipSpace(old(Rest())) == SkipSpace(Rest())
      ensures b == if Rest() == [] then None else Some(Rest()[0])
      ensures forall c: byte :: Token(c, old(Rest())) == if b == Some(c) then Some(Rest()[1..]) else None
    {
      SkipWs();
      b := if i < |src| then Some(src[i]) else None;
    }

    /** Consumes the comma or the closing byte that follows an element; `true` for the comma. */
    method Separator(close: byte) returns (r: Result<bool>)
      requires Valid() && close != COMMA
      modifies this
      ensures Valid()
      ensures var comma, end := Token(COMMA, old(Rest())), Token(close, old(Rest()));
              if comma.Some? then r == Ok(true) && Rest() == comma.value
              else if end.Some? then r == Ok(false) && Rest() == end.value
              else r == Err
    {
      hide SkipSpace, Token;
      SkipWs();
      var c := Peek();
      assert i < |src| ==> Rest()[1..] == src[i + 1..];
      if c == Some(COMMA) {
        i := i + 1;
        return Ok(true);
      } else if c == Some(close) {
        i := i + 1;
        return Ok(false);
      }
      return Err;
    }

    /** Reads a string literal. */
    method ParseString() returns (r: Result<string>)
      requires Valid()
      modifies this
      ensures Valid()
      ensures Agrees(r, ParseLiteral(old(Rest())), Rest())
    {
      hide ParseBody, HexValue, CharOf, SkipSpace;
      var open := Expect(QUOTE);
      if !open {
        return Err;
      }
      var out := "";
      ghost var body := Rest();
      OntoNothing(ParseBody(body));
      while i < |src|
        invariant Valid()
        invariant ParseBody(body) == Onto(out, ParseBody(Rest()))
        decreases |src| - i
      {
        var b := src[i];
        ghost var s := Rest();
        BodyStep(out, s);
        i := i + 1;
        assert Rest() == s[1..];
        if b == QUOTE {
          return Ok(out);
        } else if b == BACKSLASH {
          if i >= |src| {
            return Err;
          }
          var esc := src[i];
          i := i + 1;
          assert Rest() == s[2..];
          if esc == LOWER_U {
            if i + 4 > |src| {
              return Err;
            }
            var digits := src[i..i + 4];
            assert digits == s[2..6];
            var cp := HexValue(digits);
            if cp.None? {
              return Err;
            }
            i := i + 4;
            assert Rest() == s[6..];
            var c := CharOf(cp.value);
            if c.None? {
              return Err;
            }
            out := out + [c.value];
          } else {
            var c := ShortEscape(esc);
            if c.None? {
              return Err;
            }
            out := out + [c.value];
          }
        } else {
          out := out + [b as char];
        }
      }
      BodyStep(out, Rest());
      return Err;
    }

    method ParseStringArray() returns (r: Result<seq<string>>)
      requires Valid()
      modifies this
      ensures Valid()
      ensures Agrees(r, ParseArray(old(Rest())), Rest())
    {
      hide ParseItems, ParseLiteral, SkipSpace, Token;
      var open := Expect(LBRACKET);
      if !open {
        return Err;
      }
      ghost var start := Rest();
      var out := [];
      SkipWs();
      var c := Peek();
      SkipSpaceTwice(start);
      if c == Some(RBRACKET) {
        assert Rest()[1..] == src[i + 1..];
        i := i + 1;
        return Ok(out);
      }
      SpaceBeforeItems(start);
      OntoNothing(ParseItems(Rest()));
      assert ParseArray(old(Rest())) == Onto(out, ParseItems(Rest()));
      hide ParseArray;
      while true
        invariant Valid()
        invariant ParseArray(old(Rest())) == Onto(out, ParseItems(Rest()))
        decreases |src| - i
      {
        ItemsStep(out, Rest());
        SpaceBeforeLiteral(Rest());
        SkipWs();
        var x := ParseString();
        if x.Err? {
          return Err;
        }
        var comma := Separator(RBRACKET);
        if comma.Err? {
          return Err;
        }
        out := out + [x.value];
        if !comma.value {
          return Ok(out);
        }
      }
    }

    method ParseAnyValue() returns (r: Result<Value>)
      requires Valid()
      modifies this
      ensures Valid()
      ensures Agrees(r, ParseValue(old(Rest())), Rest())
    {
      SkipWs();
      SkipSpaceTwice(old(Rest()));
      var c := Peek();
      if c == Some(QUOTE) {
        var x := ParseString();
        return match x case Ok(s) => Ok(Str(s)) case Err => Err;
      } else if c == Some(LBRACKET) {
        var xs := ParseStringArray();
        return match xs case Ok(a) => Ok(StrArray(a)) case Err => Err;
      } else if c == Some(LOWER_N) {
        if i + 4 <= |src| {
          assert Rest()[..4] == src[i..i + 4] && Rest()[4..] == src[i + 4..];
          if src[i..i + 4] == NULL_LITERAL {
            i := i + 4;
            return Ok(Str(""));
          }
        }
        return Err;
      } else {
        return Err;
      }
    }

    /** One round of the object loop up to its separator: key, colon and value. */
    method ParseMember() returns (r: Result<(string, Value)>)
      requires Valid()
      modifies this
      ensures Valid()
      ensures Agrees(r, ParseField(old(Rest())), Rest())
    {
      hide ParseLiteral, ParseValue, SkipSpace, Token;
      ghost var s := Rest();
      SkipWs();
      SpaceBeforeLiteral(s);
      var key := ParseString();
      if key.Err? {
        return Err;
      }
      var colon := Expect(COLON);
      if !colon {
        return Err;
      }
      var value := ParseAnyValue();
      if value.Err? {
        return Err;
      }
      return Ok((key.value, value.value));
    }

    method ParseObj() returns (r: Result<Fields>)
      requires Valid()
      modifies this
      ensures Valid()
      ensures Agrees(r, ParseObject(old(Rest())), Rest())
    {
      hide ParseMembers, ParseField, ParseLiteral, ParseValue, SkipSpace, Token;
      var open := Expect(LBRACE);
      if !open {
        return Err;
      }
      ghost var start := Rest();
      var fields: Fields := [];
      SkipWs();
      var c := Peek();
      SkipSpaceTwice(start);
      if c == Some(RBRACE) {
        assert Rest()[1..] == src[i + 1..];
        i := i + 1;
        return Ok(fields);
      }
      SpaceBeforeMembers(start);
      OntoNothing(ParseMembers(Rest()));
      assert ParseObject(old(Rest())) == Onto(fields, ParseMembers(Rest()));
      hide ParseObject;
      while true
        invariant Valid()
        invariant ParseObject(old(Rest())) == Onto(fields, ParseMembers(Rest()))
        decreases |src| - i
      {
        MembersStep(fields, Rest());
        var field := ParseMember();
        if field.Err? {
          return Err;
        }
        var comma := Separator(RBRACE);
        if comma.Err? {
          return Err;
        }
        fields := fields + [field.value];
        if !comma.value {
          return Ok(fields);
        }
      }
    }
  }

  /** The result of a method on the cursor is the one of the parser on suffixes. */
  ghost predicate Agrees<T>(r: Result<T>, p: Parsed<T>, rest: Bytes) {
    match p
    case None => r.Err?
    case Some((v, t)) => r == Ok(v) && rest == t
  }

  /** The document parser: `Ok` with the fields exactly on the grammar's documents. */
  method Parse(s: Bytes) returns (r: Result<Fields>)
    ensures forall fields :: r == Ok(fields) <==> Derives(s, fields)
  {
    hide Derives, ParseObject, SkipSpace;
    DocumentAfterSpace(s);
    var p := new Parser(s);
    p.SkipWs();
    r := p.ParseObj();
    if r.Ok? {
      p.SkipWs();
      if p.i != |s| {
        r := Err;
      }
    }
    assert r == match ParseDocument(s) case None => Err case Some(fields) => Ok(fields);
    hide ParseDocument;
    GrammarDecided(s);
  }

  lemma {:induction false} GrammarDecided(s: Bytes)
    ensures forall fields :: ParseDocument(s) == Some(fields) <==> Derives(s, fields)
  {
    forall fields
      ensures ParseDocument(s) == Some(fields) <==> Derives(s, fields)
    {
      ParserIffGrammar(s, fields);
    }
  }

  lemma {:induction false} DocumentAfterSpace(s: Bytes)
    ensures ParseObject(SkipSpace(s)) == ParseObject(s)
  {
    SkipSpaceTwice(s);
  }

  // ---------------------------------------------------------- loop accounting

  ghost function Onto<T>(out: seq<T>, r: Parsed<seq<T>>): Parsed<seq<T>> {
    match r
    case None => None
    case Some((xs, rest)) => Some((out + xs, rest))
  }

  lemma {:induction false} OntoNothing<T>(r: Parsed<seq<T>>)
    ensures Onto([], r) == r
  {
    match r
    case None =>
    case Some((xs, _)) => assert [] + xs == xs;
  }

  /** What the front of a literal's body amounts to. */
  lemma {:induction false} BodyStep(out: string, s: Bytes)
    ensures Onto(out, ParseBody(s)) ==
            if s == [] then None
            else if s[0] == QUOTE then Some((out, s[1..]))
            else if NextPiece(s) == None then None
            else
              var (p, t) := NextPiece(s).value;
              Onto(out + [p.Meaning()], ParseBody(t))
  {
    if s != [] {
      if s[0] == QUOTE {
        assert out + "" == out;
      } else if NextPiece(s).Some? {
        var (p, t) := NextPiece(s).value;
        OntoAssoc(out, p.Meaning(), ParseBody(t));
      }
    }
  }

  lemma {:induction false} SkipSpaceTwice(s: Bytes)
    ensures SkipSpace(SkipSpace(s)) == SkipSpace(s)
  {
    var t := SkipSpace(s);
    assert t == [] || !IsSpace(t[0]);
  }

  lemma {:induction false} SpaceBeforeLiteral(s: Bytes)
    ensures ParseLiteral(SkipSpace(s)) == ParseLiteral(s)
  {
    SkipSpaceTwice(s);
  }

  lemma {:induction false} SpaceBeforeItems(s: Bytes)
    ensures ParseItems(SkipSpace(s)) == ParseItems(s)
  {
    SpaceBeforeLiteral(s);
  }

  lemma {:induction false} SpaceBeforeMembers(s: Bytes)
    ensures ParseMembers(SkipSpace(s)) == ParseMembers(s)
  {
    SpaceBeforeLiteral(s);
  }

  /** What an element followed by `,`, by `]` or by anything else amounts to. */
  lemma {:induction false} ItemsStep(out: seq<string>, s: Bytes)
    ensures match ParseLiteral(s)
            case None => ParseItems(s) == None
            case Some((x, t)) =>
              Onto(out, ParseItems(s)) ==
              if Token(COMMA, t).Some? then Onto(out + [x], ParseItems(Token(COMMA, t).value))
              else if Token(RBRACKET, t).Some? then Some((out + [x], Token(RBRACKET, t).value))
              else None
  {
    match ParseLiteral(s)
    case None =>
    case Some((x, t)) =>
      if Token(COMMA, t).Some? {
        OntoAssoc(out, x, ParseItems(Token(COMMA, t).value));
      }
  }

  /** The same for the members of an object. */
  lemma {:induction false} MembersStep(out: Fields, s: Bytes)
    ensures match ParseField(s)
            case None => ParseMembers(s) == None
            case Some((f, t)) =>
              Onto(out, ParseMembers(s)) ==
              if Token(COMMA, t).Some? then Onto(out + [f], ParseMembers(Token(COMMA, t).value))
              else if Token(RBRACE, t).Some? then Some((out + [f], Token(RBRACE, t).value))
              else None
  {
    match ParseField(s)
    case None =>
    case Some((f, t)) =>
      if Token(COMMA, t).Some? {
        OntoAssoc(out, f, ParseMembers(Token(COMMA, t).value));
      }
  }

  lemma {:induction false} OntoAssoc<T>(out: seq<T>, x: T, r: Parsed<seq<T>>)
    ensures Onto(out, Onto([x], r)) == Onto(out + [x], r)
  {
    match r
    case None =>
    case Some((xs, _)) =>
      assert out + ([x] + xs) == out + [x] + xs;
  }
}
