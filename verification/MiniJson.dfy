/**
 The mount helper's dependency-free JSON reader and string escaper.

 Three views of the same language are given: concrete syntax trees with the
 text they spell (the grammar), a parser on byte suffixes, and the imperative
 parser with its mutable cursor. The shape follows sections 2, 4, 5 and 7 of
 RFC 8259; the leaves follow the code: control bytes may stand raw, a byte of
 0x80 or more is one character, an escaped surrogate is rejected, and the four
 characters after `\u` may start with `+`.
 */
module MiniJson {
  import opened Wrappers
  import opened Utf8

  datatype Value = Str(text: string) | StrArray(items: seq<string>)

  type Fields = seq<(string, Value)>

  type Bytes = seq<byte>

  /** What a parse step leaves: a value and the unread input, or a rejection. */
  type Parsed<T> = Option<(T, Bytes)>

  const QUOTE: byte := 0x22
  const BACKSLASH: byte := 0x5C
  const COMMA: byte := 0x2C
  const COLON: byte := 0x3A
  const LBRACE: byte := 0x7B
  const RBRACE: byte := 0x7D
  const LBRACKET: byte := 0x5B
  const RBRACKET: byte := 0x5D
  const LOWER_N: byte := 0x6E
  const LOWER_U: byte := 0x75
  const NULL_LITERAL: Bytes := [0x6E, 0x75, 0x6C, 0x6C]

  predicate IsSpace(b: byte) {
    b == 0x20 || b == 0x09 || b == 0x0A || b == 0x0D
  }

  ghost predicate Blank(bs: Bytes) {
    forall b <- bs :: IsSpace(b)
  }

  // ------------------------------------------------------------------- leaves

  /** What a one-character escape stands for. */
  function ShortEscape(e: byte): Option<char> {
    if e == QUOTE then Some('"')
    else if e == BACKSLASH then Some('\\')
    else if e == 0x2F then Some('/')
    else if e == 0x6E then Some('\n')
    else if e == 0x72 then Some('\r')
    else if e == 0x74 then Some('\t')
    else if e == 0x62 then Some('\U{08}')
    else if e == 0x66 then Some('\U{0C}')
    else None
  }

  function HexDigit(b: byte): (r: Option<nat>)
    ensures r.Some? ==> r.value < 16
  {
    if 0x30 <= b <= 0x39 then Some(b - 0x30)
    else if 0x41 <= b <= 0x46 then Some(b - 0x41 + 10)
    else if 0x61 <= b <= 0x66 then Some(b - 0x61 + 10)
    else None
  }

  /** `u32::from_str_radix(_, 16)` on four bytes: a leading `+` is let through. */
  function HexValue(d: Bytes): (r: Option<nat>)
    requires |d| == 4
    ensures r.Some? ==> r.value < 0x1_0000
  {
    var h0 := if d[0] == 0x2B then Some(0) else HexDigit(d[0]);
    var h1, h2, h3 := HexDigit(d[1]), HexDigit(d[2]), HexDigit(d[3]);
    if h0.Some? && h1.Some? && h2.Some? && h3.Some? then
      Some(((h0.value * 16 + h1.value) * 16 + h2.value) * 16 + h3.value)
    else None
  }

  /**
   Four bytes read as `n` exactly when they are its hexadecimal digits, most
   significant first; a leading `+` stands for a zero.
   */
  lemma {:induction false} HexValueIff(d: Bytes, n: nat)
    requires |d| == 4
    ensures HexValue(d) == Some(n) <==>
            && n < 0x1_0000
            && (HexDigit(d[0]) == Some(n / 0x1000) || (d[0] == 0x2B && n < 0x1000))
            && HexDigit(d[1]) == Some(n / 0x100 % 0x10)
            && HexDigit(d[2]) == Some(n / 0x10 % 0x10)
            && HexDigit(d[3]) == Some(n % 0x10)
  {
    var h0 := if d[0] == 0x2B then Some(0) else HexDigit(d[0]);
    var h1, h2, h3 := HexDigit(d[1]), HexDigit(d[2]), HexDigit(d[3]);
    assert HexDigit(0x2B) == None;
    if h0.Some? && h1.Some? && h2.Some? && h3.Some? {
      hide HexDigit;
      DigitsIff(h0.value, h1.value, h2.value, h3.value, n);
    }
  }

  /** Four hexadecimal digits determine a number and are determined by it. */
  lemma {:induction false} DigitsIff(a: nat, b: nat, c: nat, e: nat, n: nat)
    requires a < 16 && b < 16 && c < 16 && e < 16
    ensures n == ((a * 16 + b) * 16 + c) * 16 + e <==>
            n < 0x1_0000 && a == n / 0x1000 && b == n / 0x100 % 0x10 && c == n / 0x10 % 0x10 && e == n % 0x10
  {
    var x, y := n / 0x10, n / 0x100;
    assert x / 0x10 == y && y / 0x10 == n / 0x1000;
  }

  // The leaves in plain terms; every byte here is below 0x80, so it is its own character.

  /** Whitespace is space, tab, line feed and carriage return. */
  lemma SpaceIff(b: byte)
    ensures IsSpace(b) <==> b as char in " \t\n\r"
  {
  }

  const ESCAPES := "\"\\/bfnrt"
  const ESCAPED := "\"\\/\U{08}\U{0C}\n\r\t"

  /** The eight one-character escapes of section 7 of RFC 8259, and no other. */
  lemma ShortEscapeIff(e: byte, c: char)
    ensures |ESCAPES| == |ESCAPED|
    ensures ShortEscape(e) == Some(c) <==>
            exists i :: 0 <= i < |ESCAPES| && ESCAPES[i] as int == e && ESCAPED[i] == c
  {
    assert ShortEscape(e) == Some(c) ==>
        exists i :: 0 <= i < |ESCAPES| && ESCAPES[i] as int == e && ESCAPED[i] == c by {
      assert ESCAPES[0] == '"' && ESCAPES[1] == '\\' && ESCAPES[2] == '/' && ESCAPES[3] == 'b';
      assert ESCAPES[4] == 'f' && ESCAPES[5] == 'n' && ESCAPES[6] == 'r' && ESCAPES[7] == 't';
    }
  }

  /** Hexadecimal digits in either case. */
  lemma HexDigitIff(b: byte, n: nat)
    ensures HexDigit(b) == Some(n) <==>
            n < 16 && b as char in ["0123456789abcdef"[n], "0123456789ABCDEF"[n]]
  {
  }

  /** `char::from_u32` on a 16-bit value: surrogates are not characters. */
  function CharOf(n: nat): Option<char>
    requires n < 0x1_0000
  {
    if 0xD800 <= n < 0xE000 then None else Some(n as char)
  }

  /** A value is the character with that number unless it is a surrogate. */
  lemma CharOfIff(n: nat, c: char)
    requires n < 0x1_0000
    ensures CharOf(n) == Some(c) <==> c as int == n
    ensures CharOf(n) == None <==> 55296 <= n <= 57343
  {
  }

  function HexChar(d: Bytes): Option<char>
    requires |d| == 4
  {
    match HexValue(d)
    case None => None
    case Some(n) => CharOf(n)
  }

  // ------------------------------------------------------------------ grammar

  /** One character of a string literal as it is spelled. */
  datatype Piece = Raw(b: byte) | Short(e: byte) | Hex(digits: Bytes)
  {
    ghost predicate Valid() {
      match this
      case Raw(b) => b != QUOTE && b != BACKSLASH
      case Short(e) => ShortEscape(e).Some?
      case Hex(d) => |d| == 4 && HexChar(d).Some?
    }

    function Meaning(): char
      requires Valid()
    {
      match this
      case Raw(b) => b as char
      case Short(e) => ShortEscape(e).value
      case Hex(d) => HexChar(d).value
    }
  }

  type Literal = seq<Piece>

  ghost predicate ValidLiteral(ps: Literal) {
    forall p <- ps :: p.Valid()
  }

  ghost function LiteralMeaning(ps: Literal): (s: string)
    requires ValidLiteral(ps)
    ensures |s| == |ps|
  {
    seq(|ps|, i requires 0 <= i < |ps| => ps[i].Meaning())
  }

  /** An array element with the whitespace around it. */
  datatype Item = Item(before: Bytes, text: Literal, after: Bytes)
  {
    ghost predicate Valid() {
      Blank(before) && ValidLiteral(text) && Blank(after)
    }
  }

  ghost predicate ValidItems(items: seq<Item>) {
    forall i :: 0 <= i < |items| ==> items[i].Valid()
  }

  datatype ValueTree =
    | TextTree(text: Literal)
    | NullTree
    | EmptyArray(inner: Bytes)
    | Items(items: seq<Item>)
  {
    ghost predicate Valid() {
      match this
      case TextTree(ps) => ValidLiteral(ps)
      case NullTree => true
      case EmptyArray(ws) => Blank(ws)
      case Items(items) => items != [] && ValidItems(items)
    }

    ghost function Meaning(): Value
      requires Valid()
    {
      match this
      case TextTree(ps) => Str(LiteralMeaning(ps))
      case NullTree => Str("")
      case EmptyArray(_) => StrArray([])
      case Items(items) => StrArray(ItemsMeaning(items))
    }
  }

  ghost function ItemsMeaning(items: seq<Item>): seq<string>
    requires ValidItems(items)
  {
    if items == [] then [] else [LiteralMeaning(items[0].text)] + ItemsMeaning(items[1..])
  }

  /** An object member with the whitespace around its four tokens. */
  datatype Member =
    Member(before: Bytes, key: Literal, afterKey: Bytes, beforeValue: Bytes, value: ValueTree, after: Bytes)
  {
    ghost predicate Valid() {
      && Blank(before) && ValidLiteral(key) && Blank(afterKey)
      && Blank(beforeValue) && value.Valid() && Blank(after)
    }
  }

  ghost predicate ValidMembers(ms: seq<Member>) {
    forall i :: 0 <= i < |ms| ==> ms[i].Valid()
  }

  datatype ObjectTree = EmptyObject(inner: Bytes) | Members(members: seq<Member>)
  {
    ghost predicate Valid() {
      match this
      case EmptyObject(ws) => Blank(ws)
      case Members(ms) => ms != [] && ValidMembers(ms)
    }

    ghost function Meaning(): Fields
      requires Valid()
    {
      match this
      case EmptyObject(_) => []
      case Members(ms) => MembersMeaning(ms)
    }
  }

  ghost function MembersMeaning(ms: seq<Member>): Fields
    requires ValidMembers(ms)
  {
    if ms == [] then []
    else [(LiteralMeaning(ms[0].key), ms[0].value.Meaning())] + MembersMeaning(ms[1..])
  }

  datatype Document = Document(before: Bytes, root: ObjectTree, after: Bytes)
  {
    ghost predicate Valid() {
      Blank(before) && root.Valid() && Blank(after)
    }
  }

  // Each `Spell` function gives the bytes of a tree followed by `rest`.

  function SpellPiece(p: Piece, rest: Bytes): Bytes {
    match p
    case Raw(b) => [b] + rest
    case Short(e) => [BACKSLASH, e] + rest
    case Hex(d) => [BACKSLASH, LOWER_U] + (d + rest)
  }

  function SpellPieces(ps: Literal, rest: Bytes): Bytes {
    if ps == [] then rest else SpellPiece(ps[0], SpellPieces(ps[1..], rest))
  }

  function SpellLiteral(ps: Literal, rest: Bytes): Bytes {
    [QUOTE] + SpellPieces(ps, [QUOTE] + rest)
  }

  function SpellItems(items: seq<Item>, rest: Bytes): Bytes
    requires items != []
  {
    var tail := if |items| == 1 then [RBRACKET] + rest else [COMMA] + SpellItems(items[1..], rest);
    items[0].before + SpellLiteral(items[0].text, items[0].after + tail)
  }

  function SpellValue(v: ValueTree, rest: Bytes): Bytes
    requires v.Items? ==> v.items != []
  {
    match v
    case TextTree(ps) => SpellLiteral(ps, rest)
    case NullTree => NULL_LITERAL + rest
    case EmptyArray(ws) => [LBRACKET] + (ws + ([RBRACKET] + rest))
    case Items(items) => [LBRACKET] + SpellItems(items, rest)
  }

  ghost function SpellMembers(ms: seq<Member>, rest: Bytes): Bytes
    requires ms != [] && ValidMembers(ms)
  {
    var m := ms[0];
    var tail := if |ms| == 1 then [RBRACE] + rest else [COMMA] + SpellMembers(ms[1..], rest);
    m.before + SpellLiteral(m.key, m.afterKey + ([COLON] + (m.beforeValue + SpellValue(m.value, m.after + tail))))
  }

  ghost function SpellObject(o: ObjectTree, rest: Bytes): Bytes
    requires o.Valid()
  {
    [LBRACE] + match o
               case EmptyObject(ws) => ws + ([RBRACE] + rest)
               case Members(ms) => SpellMembers(ms, rest)
  }

  ghost function SpellDocument(d: Document): Bytes
    requires d.Valid()
  {
    d.before + SpellObject(d.root, d.after)
  }

  /** The input is a document of the grammar with these fields. */
  ghost predicate Derives(input: Bytes, fields: Fields) {
    exists d: Document :: d.Valid() && SpellDocument(d) == input && d.root.Meaning() == fields
  }

  // ------------------------------------------------------- parser on suffixes

  function SkipSpace(s: Bytes): (rest: Bytes)
    ensures |rest| <= |s|
    ensures rest == [] || !IsSpace(rest[0])
  {
    if s != [] && IsSpace(s[0]) then SkipSpace(s[1..]) else s
  }

  function Token(c: byte, s: Bytes): (r: Option<Bytes>)
    ensures r.Some? ==> |r.value| < |s|
  {
    var t := SkipSpace(s);
    if t != [] && t[0] == c then Some(t[1..]) else None
  }

  /** The piece at the front of a literal that has not ended yet. */
  function NextPiece(s: Bytes): (r: Parsed<Piece>)
    requires s != [] && s[0] != QUOTE
    ensures r.Some? ==> r.value.0.Valid() && SpellPiece(r.value.0, r.value.1) == s && |r.value.1| < |s|
  {
    if s[0] != BACKSLASH then Some((Raw(s[0]), s[1..]))
    else if |s| < 2 then None
    else if s[1] == LOWER_U then
      if |s| < 6 || HexChar(s[2..6]).None? then None else Some((Hex(s[2..6]), s[6..]))
    else if ShortEscape(s[1]).None? then None
    else Some((Short(s[1]), s[2..]))
  }

  function ParseBody(s: Bytes): (r: Parsed<string>)
    ensures r.Some? ==> |r.value.1| < |s|
    decreases |s|
  {
    if s == [] then None
    else if s[0] == QUOTE then Some(("", s[1..]))
    else
      match NextPiece(s)
      case None => None
      case Some((p, t)) => Prepend(p.Meaning(), ParseBody(t))
  }

  function Prepend(c: char, r: Parsed<string>): Parsed<string> {
    match r
    case None => None
    case Some((s, rest)) => Some(([c] + s, rest))
  }

  function ParseLiteral(s: Bytes): (r: Parsed<string>)
    ensures r.Some? ==> |r.value.1| < |s|
  {
    match Token(QUOTE, s)
    case None => None
    case Some(t) => ParseBody(t)
  }

  function ParseItems(s: Bytes): (r: Parsed<seq<string>>)
    ensures r.Some? ==> |r.value.1| < |s|
    decreases |s|
  {
    match ParseLiteral(s)
    case None => None
    case Some((x, t)) =>
      match Token(COMMA, t)
      case Some(u) =>
        (match ParseItems(u)
         case None => None
         case Some((xs, rest)) => Some(([x] + xs, rest)))
      case None =>
        match Token(RBRACKET, t)
        case None => None
        case Some(rest) => Some(([x], rest))
  }

  function ParseArray(s: Bytes): (r: Parsed<seq<string>>)
    ensures r.Some? ==> |r.value.1| < |s|
  {
    match Token(LBRACKET, s)
    case None => None
    case Some(t) =>
      match Token(RBRACKET, t)
      case Some(rest) => Some(([], rest))
      case None => ParseItems(t)
  }

  function ParseValue(s: Bytes): (r: Parsed<Value>)
    ensures r.Some? ==> |r.value.1| < |s|
  {
    var t := SkipSpace(s);
    if t == [] then None
    else if t[0] == QUOTE then
      match ParseLiteral(t)
      case None => None
      case Some((x, rest)) => Some((Str(x), rest))
    else if t[0] == LBRACKET then
      match ParseArray(t)
      case None => None
      case Some((xs, rest)) => Some((StrArray(xs), rest))
    else if NULL_LITERAL <= t then Some((Str(""), t[4..]))
    else None
  }

  function ParseMembers(s: Bytes): (r: Parsed<Fields>)
    ensures r.Some? ==> |r.value.1| < |s|
    decreases |s|
  {
    match ParseField(s)
    case None => None
    case Some((f, t)) =>
      match Token(COMMA, t)
      case Some(u) =>
        (match ParseMembers(u)
         case None => None
         case Some((fs, rest)) => Some(([f] + fs, rest)))
      case None =>
        match Token(RBRACE, t)
        case None => None
        case Some(rest) => Some(([f], rest))
  }

  function ParseField(s: Bytes): (r: Parsed<(string, Value)>)
    ensures r.Some? ==> |r.value.1| < |s|
  {
    match ParseLiteral(s)
    case None => None
    case Some((k, t)) =>
      match Token(COLON, t)
      case None => None
      case Some(u) =>
        match ParseValue(u)
        case None => None
        case Some((v, rest)) => Some(((k, v), rest))
  }

  function ParseObject(s: Bytes): (r: Parsed<Fields>)
    ensures r.Some? ==> |r.value.1| < |s|
  {
    match Token(LBRACE, s)
    case None => None
    case Some(t) =>
      match Token(RBRACE, t)
      case Some(rest) => Some(([], rest))
      case None => ParseMembers(t)
  }

  function ParseDocument(s: Bytes): Option<Fields> {
    match ParseObject(s)
    case None => None
    case Some((fields, rest)) => if SkipSpace(rest) == [] then Some(fields) else None
  }

  // ------------------------------------------------------------- completeness

  lemma {:induction false} SkipSpaceOver(ws: Bytes, rest: Bytes)
    requires Blank(ws)
    ensures SkipSpace(ws + rest) == SkipSpace(rest)
  {
    if ws == [] {
      assert ws + rest == rest;
    } else {
      assert (ws + rest)[1..] == ws[1..] + rest;
      assert ws[0] in ws;
      SkipSpaceOver(ws[1..], rest);
    }
  }

  /** A token is found behind any whitespace, and no other token is. */
  lemma {:induction false} TokenOver(c: byte, ws: Bytes, d: byte, rest: Bytes)
    requires Blank(ws) && !IsSpace(d)
    ensures Token(c, ws + ([d] + rest)) == if c == d then Some(rest) else None
  {
    SkipSpaceOver(ws, [d] + rest);
    assert ([d] + rest)[1..] == rest;
  }

  lemma {:induction false} BodyComplete(ps: Literal, rest: Bytes)
    requires ValidLiteral(ps)
    ensures ParseBody(SpellPieces(ps, [QUOTE] + rest)) == Some((LiteralMeaning(ps), rest))
  {
    if ps == [] {
      assert ([QUOTE] + rest)[1..] == rest;
    } else {
      var t := SpellPieces(ps[1..], [QUOTE] + rest);
      var s := SpellPiece(ps[0], t);
      assert ps[0] in ps;
      NextPieceComplete(ps[0], t);
      BodyComplete(ps[1..], rest);
      assert LiteralMeaning(ps) == [ps[0].Meaning()] + LiteralMeaning(ps[1..]);
    }
  }

  lemma {:induction false} NextPieceComplete(p: Piece, rest: Bytes)
    requires p.Valid()
    ensures var s := SpellPiece(p, rest); s[0] != QUOTE && NextPiece(s) == Some((p, rest))
  {
    var s := SpellPiece(p, rest);
    match p
    case Raw(b) =>
      assert s[1..] == rest;
    case Short(e) =>
      assert s[2..] == rest;
    case Hex(d) =>
      assert s[2..6] == d && s[6..] == rest;
  }

  lemma {:induction false} LiteralComplete(ws: Bytes, ps: Literal, rest: Bytes)
    requires Blank(ws) && ValidLiteral(ps)
    ensures ParseLiteral(ws + SpellLiteral(ps, rest)) == Some((LiteralMeaning(ps), rest))
  {
    TokenOver(QUOTE, ws, QUOTE, SpellPieces(ps, [QUOTE] + rest));
    BodyComplete(ps, rest);
  }

  lemma {:induction false} ItemsComplete(items: seq<Item>, rest: Bytes)
    requires items != [] && ValidItems(items)
    ensures ParseItems(SpellItems(items, rest)) == Some((ItemsMeaning(items), rest))
  {
    var x := items[0];
    var tail := if |items| == 1 then [RBRACKET] + rest else [COMMA] + SpellItems(items[1..], rest);
    LiteralComplete(x.before, x.text, x.after + tail);
    if |items| == 1 {
      assert ItemsMeaning(items) == [LiteralMeaning(x.text)];
      TokenOver(COMMA, x.after, RBRACKET, rest);
      TokenOver(RBRACKET, x.after, RBRACKET, rest);
    } else {
      TokenOver(COMMA, x.after, COMMA, SpellItems(items[1..], rest));
      ItemsComplete(items[1..], rest);
    }
  }

  lemma {:induction false} ValueComplete(ws: Bytes, v: ValueTree, rest: Bytes)
    requires Blank(ws) && v.Valid()
    ensures ParseValue(ws + SpellValue(v, rest)) == Some((v.Meaning(), rest))
  {
    var t := SpellValue(v, rest);
    SkipSpaceOver(ws, t);
    assert SkipSpace(t) == t;
    match v
    case TextTree(ps) =>
      LiteralComplete([], ps, rest);
      assert [] + t == t;
    case NullTree =>
      assert t[4..] == rest;
    case EmptyArray(inner) =>
      TokenOver(LBRACKET, [], LBRACKET, inner + ([RBRACKET] + rest));
      assert [] + t == t;
      TokenOver(RBRACKET, inner, RBRACKET, rest);
    case Items(items) =>
      TokenOver(LBRACKET, [], LBRACKET, SpellItems(items, rest));
      assert [] + t == t;
      ItemsComplete(items, rest);
      LiteralIsNoToken(RBRACKET, items[0].before, items[0].text,
                       items[0].after
                       + if |items| == 1 then [RBRACKET] + rest else [COMMA] + SpellItems(items[1..], rest));
  }

  lemma {:induction false} LiteralIsNoToken(c: byte, ws: Bytes, ps: Literal, rest: Bytes)
    requires Blank(ws) && c != QUOTE
    ensures Token(c, ws + SpellLiteral(ps, rest)) == None
  {
    TokenOver(c, ws, QUOTE, SpellPieces(ps, [QUOTE] + rest));
  }

  lemma {:induction false} FieldComplete(m: Member, tail: Bytes)
    requires m.Valid()
    ensures var v := SpellValue(m.value, m.after + tail);
            ParseField(m.before + SpellLiteral(m.key, m.afterKey + ([COLON] + (m.beforeValue + v))))
            == Some(((LiteralMeaning(m.key), m.value.Meaning()), m.after + tail))
  {
    var v := SpellValue(m.value, m.after + tail);
    LiteralComplete(m.before, m.key, m.afterKey + ([COLON] + (m.beforeValue + v)));
    TokenOver(COLON, m.afterKey, COLON, m.beforeValue + v);
    ValueComplete(m.beforeValue, m.value, m.after + tail);
  }

  lemma {:induction false} MembersComplete(ms: seq<Member>, rest: Bytes)
    requires ms != [] && ValidMembers(ms)
    ensures ParseMembers(SpellMembers(ms, rest)) == Some((MembersMeaning(ms), rest))
  {
    var m := ms[0];
    var tail := if |ms| == 1 then [RBRACE] + rest else [COMMA] + SpellMembers(ms[1..], rest);
    FieldComplete(m, tail);
    if |ms| == 1 {
      assert MembersMeaning(ms) == [(LiteralMeaning(m.key), m.value.Meaning())];
      TokenOver(COMMA, m.after, RBRACE, rest);
      TokenOver(RBRACE, m.after, RBRACE, rest);
    } else {
      TokenOver(COMMA, m.after, COMMA, SpellMembers(ms[1..], rest));
      MembersComplete(ms[1..], rest);
    }
  }

  /** An object is read up to its closing brace, whatever stands behind it. */
  lemma {:induction false} ObjectComplete(before: Bytes, root: ObjectTree, rest: Bytes)
    requires Blank(before) && root.Valid()
    ensures ParseObject(before + SpellObject(root, rest)) == Some((root.Meaning(), rest))
  {
    match root
    case EmptyObject(ws) =>
      TokenOver(LBRACE, before, LBRACE, ws + ([RBRACE] + rest));
      TokenOver(RBRACE, ws, RBRACE, rest);
    case Members(ms) =>
      TokenOver(LBRACE, before, LBRACE, SpellMembers(ms, rest));
      MembersComplete(ms, rest);
      var m := ms[0];
      var tail := if |ms| == 1 then [RBRACE] + rest else [COMMA] + SpellMembers(ms[1..], rest);
      LiteralIsNoToken(RBRACE, m.before, m.key,
                       m.afterKey + ([COLON] + (m.beforeValue + SpellValue(m.value, m.after + tail))));
  }

  /** Every document of the grammar is read back as its fields. */
  lemma {:induction false} DocumentComplete(d: Document)
    requires d.Valid()
    ensures ParseDocument(SpellDocument(d)) == Some(d.root.Meaning())
  {
    ObjectComplete(d.before, d.root, d.after);
    EndComplete(d.after);
  }

  lemma {:induction false} EndComplete(ws: Bytes)
    requires Blank(ws)
    ensures SkipSpace(ws) == []
  {
    SkipSpaceOver(ws, []);
    assert ws + [] == ws;
  }

  // ---------------------------------------------------------------- soundness

  lemma {:induction false} SpaceSound(s: Bytes) returns (ws: Bytes)
    ensures Blank(ws) && s == ws + SkipSpace(s)
  {
    hide IsSpace;
    if s != [] && IsSpace(s[0]) {
      var t := SpaceSound(s[1..]);
      ws := [s[0]] + t;
      assert s == [s[0]] + s[1..] == [s[0]] + (t + SkipSpace(s));
    } else {
      ws := [];
    }
  }

  lemma {:induction false} TokenSound(c: byte, s: Bytes) returns (ws: Bytes)
    requires Token(c, s).Some?
    ensures Blank(ws) && s == ws + ([c] + Token(c, s).value)
  {
    ws := SpaceSound(s);
    assert SkipSpace(s) == [c] + Token(c, s).value;
  }

  lemma {:induction false} BodySound(s: Bytes) returns (ps: Literal)
    requires ParseBody(s).Some?
    ensures ValidLiteral(ps) && LiteralMeaning(ps) == ParseBody(s).value.0
    ensures s == SpellPieces(ps, [QUOTE] + ParseBody(s).value.1)
    decreases |s|
  {
    if s[0] == QUOTE {
      ps := [];
      assert s == [QUOTE] + s[1..];
    } else {
      var (p, t) := NextPiece(s).value;
      var qs := BodySound(t);
      ps := [p] + qs;
      assert ps[1..] == qs;
      assert LiteralMeaning(ps) == [p.Meaning()] + LiteralMeaning(qs);
    }
  }

  lemma {:induction false} LiteralSound(s: Bytes) returns (ws: Bytes, ps: Literal)
    requires ParseLiteral(s).Some?
    ensures Blank(ws) && ValidLiteral(ps) && LiteralMeaning(ps) == ParseLiteral(s).value.0
    ensures s == ws + SpellLiteral(ps, ParseLiteral(s).value.1)
  {
    ws := TokenSound(QUOTE, s);
    ps := BodySound(Token(QUOTE, s).value);
  }

  lemma {:induction false} ItemsSound(s: Bytes) returns (items: seq<Item>)
    requires ParseItems(s).Some?
    ensures items != [] && ValidItems(items)
    ensures ItemsMeaning(items) == ParseItems(s).value.0
    ensures s == SpellItems(items, ParseItems(s).value.1)
    decreases |s|
  {
    var ws, ps := LiteralSound(s);
    var t := ParseLiteral(s).value.1;
    if Token(COMMA, t).Some? {
      var after := TokenSound(COMMA, t);
      var more := ItemsSound(Token(COMMA, t).value);
      items := [Item(ws, ps, after)] + more;
      assert items[1..] == more;
    } else {
      var after := TokenSound(RBRACKET, t);
      items := [Item(ws, ps, after)];
    }
  }

  lemma {:induction false} ValueSound(s: Bytes) returns (ws: Bytes, v: ValueTree)
    requires ParseValue(s).Some?
    ensures Blank(ws) && v.Valid() && v.Meaning() == ParseValue(s).value.0
    ensures s == ws + SpellValue(v, ParseValue(s).value.1)
  {
    ws := SpaceSound(s);
    var t := SkipSpace(s);
    if t[0] == QUOTE {
      var none, ps := LiteralSound(t);
      FrontIsNotBlank(t, none, SpellLiteral(ps, ParseLiteral(t).value.1));
      v := TextTree(ps);
    } else if t[0] == LBRACKET {
      var none := TokenSound(LBRACKET, t);
      var u := Token(LBRACKET, t).value;
      FrontIsNotBlank(t, none, [LBRACKET] + u);
      if Token(RBRACKET, u).Some? {
        var inner := TokenSound(RBRACKET, u);
        v := EmptyArray(inner);
      } else {
        var items := ItemsSound(u);
        v := Items(items);
      }
    } else {
      v := NullTree;
      assert t == NULL_LITERAL + t[4..];
    }
  }

  lemma {:induction false} FrontIsNotBlank(t: Bytes, ws: Bytes, rest: Bytes)
    requires t != [] && !IsSpace(t[0]) && Blank(ws) && t == ws + rest
    ensures t == rest
  {
    SkipSpaceOver(ws, rest);
  }

  lemma {:induction false} MembersSound(s: Bytes) returns (ms: seq<Member>)
    requires ParseMembers(s).Some?
    ensures ms != [] && ValidMembers(ms)
    ensures MembersMeaning(ms) == ParseMembers(s).value.0
    ensures s == SpellMembers(ms, ParseMembers(s).value.1)
    decreases |s|
  {
    var before, key := LiteralSound(s);
    var t := ParseLiteral(s).value.1;
    var afterKey := TokenSound(COLON, t);
    var beforeValue, value := ValueSound(Token(COLON, t).value);
    var u := ParseField(s).value.1;
    if Token(COMMA, u).Some? {
      var after := TokenSound(COMMA, u);
      var more := MembersSound(Token(COMMA, u).value);
      ms := [Member(before, key, afterKey, beforeValue, value, after)] + more;
      assert ms[1..] == more;
    } else {
      var after := TokenSound(RBRACE, u);
      ms := [Member(before, key, afterKey, beforeValue, value, after)];
    }
  }

  /** Everything the parser accepts is a document of the grammar. */
  lemma {:induction false} DocumentSound(s: Bytes) returns (d: Document)
    requires ParseDocument(s).Some?
    ensures d.Valid() && SpellDocument(d) == s && d.root.Meaning() == ParseDocument(s).value
  {
    var before := TokenSound(LBRACE, s);
    var t := Token(LBRACE, s).value;
    var rest := ParseObject(s).value.1;
    var after := SpaceSound(rest);
    assert after + [] == after;
    if Token(RBRACE, t).Some? {
      var inner := TokenSound(RBRACE, t);
      d := Document(before, EmptyObject(inner), after);
    } else {
      var ms := MembersSound(t);
      d := Document(before, Members(ms), after);
    }
  }

  /** The parser decides the grammar and computes its meaning. */
  lemma {:induction false} ParserIffGrammar(s: Bytes, fields: Fields)
    ensures ParseDocument(s) == Some(fields) <==> Derives(s, fields)
  {
    if ParseDocument(s) == Some(fields) {
      var d := DocumentSound(s);
    }
    if Derives(s, fields) {
      var d: Document :| d.Valid() && SpellDocument(d) == s && d.root.Meaning() == fields;
      DocumentComplete(d);
    }
  }

  // -------------------------------------------------------------- what is refused

  ghost predicate Accepted(input: Bytes) {
    exists fields :: Derives(input, fields)
  }

  lemma AcceptedIff(input: Bytes)
    ensures Accepted(input) <==> ParseDocument(input).Some?
  {
    forall fields
      ensures ParseDocument(input) == Some(fields) <==> Derives(input, fields)
    {
      ParserIffGrammar(input, fields);
    }
    if ParseDocument(input).Some? {
      assert Derives(input, ParseDocument(input).value);
    }
  }

  /** Behind the object nothing but whitespace may follow. */
  lemma {:induction false} NothingBehindObject(before: Bytes, root: ObjectTree, rest: Bytes)
    requires Blank(before) && root.Valid()
    ensures Accepted(before + SpellObject(root, rest)) <==> Blank(rest)
  {
    hide Accepted, ParseObject;
    ObjectComplete(before, root, rest);
    AcceptedIff(before + SpellObject(root, rest));
    var ws := SpaceSound(rest);
    if SkipSpace(rest) == [] {
      assert ws + [] == ws;
    }
    if Blank(rest) {
      EndComplete(rest);
    }
  }

  /** A comma behind the last member is refused. */
  lemma {:induction false} TrailingCommaRefused(before: Bytes, m: Member, ws: Bytes, rest: Bytes)
    requires Blank(before) && m.Valid() && Blank(ws)
    ensures var v := SpellValue(m.value, m.after + ([COMMA] + (ws + ([RBRACE] + rest))));
            !Accepted(before + ([LBRACE] +
              (m.before + SpellLiteral(m.key, m.afterKey + ([COLON] + (m.beforeValue + v))))))
  {
    var tail := [COMMA] + (ws + ([RBRACE] + rest));
    var v := SpellValue(m.value, m.after + tail);
    var inner := m.before + SpellLiteral(m.key, m.afterKey + ([COLON] + (m.beforeValue + v)));
    hide Accepted, SpellValue, SpellLiteral;
    FieldComplete(m, tail);
    LiteralIsNoToken(RBRACE, m.before, m.key, m.afterKey + ([COLON] + (m.beforeValue + v)));
    TokenOver(LBRACE, before, LBRACE, inner);
    TokenOver(COMMA, m.after, COMMA, ws + ([RBRACE] + rest));
    TokenOver(QUOTE, ws, RBRACE, rest);
    AcceptedIff(before + ([LBRACE] + inner));
    hide ParseField, Token;
    assert ParseMembers(ws + ([RBRACE] + rest)) == None by {
      assert ParseField(ws + ([RBRACE] + rest)) == None by {
        NoKey(ws + ([RBRACE] + rest));
      }
    }
  }

  lemma NoKey(s: Bytes)
    requires Token(QUOTE, s) == None
    ensures ParseField(s) == None
  {
  }
}
