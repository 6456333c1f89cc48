/** The mount helper's string escaper and its round trip through the parser. */
module JsonEscape {
  import opened Wrappers
  import opened Utf8
  import opened MiniJson
  import opened Sequences

  function LowerHex(n: nat): char
    requires n < 16
  {
    "0123456789abcdef"[n]
  }

  /** `{:04x}` of a value below 0x20. */
  function ControlDigits(n: nat): string
    requires n < 0x20
  {
    ['0', '0', LowerHex(n / 16), LowerHex(n % 16)]
  }

  function EscapeChar(c: char): string {
    if c == '"' then "\\\""
    else if c == '\\' then "\\\\"
    else if c == '\n' then "\\n"
    else if c == '\r' then "\\r"
    else if c == '\t' then "\\t"
    else if c < ' ' then "\\u" + ControlDigits(c as int)
    else [c]
  }

  /** Five characters have short escapes, other control characters six-character ones, and all others none. */
  lemma EscapeForms(c: char)
    ensures EscapeChar(c) ==
            if c == '"' then ['\\', '"']
            else if c == '\\' then ['\\', '\\']
            else if c as int == 10 then ['\\', 'n']
            else if c as int == 13 then ['\\', 'r']
            else if c as int == 9 then ['\\', 't']
            else if c as int >= 32 then [c]
            else ['\\', 'u', '0', '0', if c as int < 16 then '0' else '1', "0123456789abcdef"[c as int % 16]]
  {
  }

  function Escape(s: string): string {
    if s == "" then "" else EscapeChar(s[0]) + Escape(s[1..])
  }

  /** `serde_escape`: pushes the escape of each character onto a buffer. */
  method SerdeEscape(s: string) returns (out: string)
    ensures out == Escape(s)
  {
    out := "";
    for i := 0 to |s|
      invariant out + Escape(s[i..]) == Escape(s)
    {
      var c := s[i];
      var piece;
      if c == '"' {
        piece := "\\\"";
      } else if c == '\\' {
        piece := "\\\\";
      } else if c == '\n' {
        piece := "\\n";
      } else if c == '\r' {
        piece := "\\r";
      } else if c == '\t' {
        piece := "\\t";
      } else if c < ' ' {
        piece := "\\u" + ControlDigits(c as int);
      } else {
        piece := [c];
      }
      EscapeFront(s, i);
      ConcatAssociative(out, piece, Escape(s[i + 1..]));
      out := out + piece;
    }
    assert s[|s|..] == "";
  }

  lemma EscapeFront(s: string, i: nat)
    requires i < |s|
    ensures Escape(s[i..]) == EscapeChar(s[i]) + Escape(s[i + 1..])
  {
    assert s[i..][1..] == s[i + 1..];
  }

  // --------------------------------------------------------------- round trip

  /** Bytes read one at a time as characters, which is how the parser reads them. */
  function Latin1(bs: Bytes): (s: string)
    ensures |s| == |bs|
  {
    seq(|bs|, i requires 0 <= i < |bs| => bs[i] as char)
  }

  function RawPieces(bs: Bytes): (ps: Literal)
    ensures |ps| == |bs|
  {
    seq(|bs|, i requires 0 <= i < |bs| => Raw(bs[i]))
  }

  /** The literal that the escape of a character spells. */
  function EscapePieces(c: char): Literal {
    if c == '"' then [Short(QUOTE)]
    else if c == '\\' then [Short(BACKSLASH)]
    else if c == '\n' then [Short(0x6E)]
    else if c == '\r' then [Short(0x72)]
    else if c == '\t' then [Short(0x74)]
    else if c < ' ' then [Hex(Encode(ControlDigits(c as int)))]
    else RawPieces(EncodeChar(c))
  }

  lemma {:induction false} SpellRaw(bs: Bytes, rest: Bytes)
    ensures SpellPieces(RawPieces(bs), rest) == bs + rest
  {
    if bs == [] {
      assert bs + rest == rest;
    } else {
      SpellRaw(bs[1..], rest);
      assert RawPieces(bs)[1..] == RawPieces(bs[1..]);
      assert bs + rest == [bs[0]] + (bs[1..] + rest);
    }
  }

  /** Any bytes but quote and backslash, control bytes too, may stand raw and are read one by one. */
  lemma {:induction false} RawBytesAreRead(bs: Bytes, rest: Bytes)
    requires forall b <- bs :: b != '"' as int && b != '\\' as int
    ensures ParseLiteral([QUOTE] + (bs + ([QUOTE] + rest))) == Some((Latin1(bs), rest))
  {
    var ps := RawPieces(bs);
    SpellRaw(bs, [QUOTE] + rest);
    forall i | 0 <= i < |ps|
      ensures ps[i].Valid()
    {
      assert bs[i] in bs;
    }
    LiteralComplete([], ps, rest);
    assert LiteralMeaning(ps) == Latin1(bs);
    assert [] + SpellLiteral(ps, rest) == [QUOTE] + (bs + ([QUOTE] + rest));
  }

  /** A character beyond ASCII is spelled with bytes of 0x80 or more only. */
  lemma {:induction false} WideBytes(c: char)
    requires c >= '\U{80}'
    ensures forall b <- EncodeChar(c) :: b >= 0x80
  {
  }

  lemma LowerHexRead(n: nat)
    requires n < 16
    ensures LowerHex(n) < '\U{80}' && HexDigit(LowerHex(n) as int) == Some(n)
  {
  }

  lemma {:induction false} ControlHex(n: nat)
    requires n < 0x20
    ensures |Encode(ControlDigits(n))| == 4
    ensures HexChar(Encode(ControlDigits(n))) == Some(n as char)
  {
    hide EncodeChar, LowerHex;
    var d := ControlDigits(n);
    LowerHexRead(n / 16);
    LowerHexRead(n % 16);
    AsciiEncoding(d);
    assert Encode(d) == [0x30, 0x30, d[2] as int, d[3] as int];
  }

  lemma {:induction false} AsciiEncoding(s: string)
    requires IsAscii(s)
    ensures |Encode(s)| == |s|
    ensures forall i :: 0 <= i < |s| ==> Encode(s)[i] == s[i] as int
  {
    if s != "" {
      AsciiEncoding(s[1..]);
    }
  }

  lemma {:induction false} ShortSpelled(c: char, rest: Bytes)
    requires |EscapeChar(c)| == 2
    ensures ValidLiteral(EscapePieces(c))
    ensures SpellPieces(EscapePieces(c), rest) == Encode(EscapeChar(c)) + rest
    ensures LiteralMeaning(EscapePieces(c)) == Latin1(EncodeChar(c))
  {
    var e := EscapeChar(c)[1];
    AsciiEncoding(EscapeChar(c));
    assert Encode(EscapeChar(c)) == [BACKSLASH, e as int];
    assert EscapePieces(c)[1..] == [];
  }

  lemma ControlBytes(c: char)
    requires c < ' '
    ensures Latin1(EncodeChar(c)) == [c]
  {
  }

  /** What a single hexadecimal escape spells and means. */
  lemma {:induction false} HexSpelled(d: Bytes, c: char, rest: Bytes)
    requires |d| == 4 && HexChar(d) == Some(c)
    ensures ValidLiteral([Hex(d)]) && LiteralMeaning([Hex(d)]) == [c]
    ensures SpellPieces([Hex(d)], rest) == [BACKSLASH, LOWER_U] + d + rest
  {
    hide HexChar;
    assert [Hex(d)][1..] == [];
    ConcatAssociative([BACKSLASH, LOWER_U], d, rest);
  }

  lemma {:induction false} ControlEncoded(c: char)
    requires |EscapeChar(c)| == 6
    ensures c < ' ' && EscapePieces(c) == [Hex(Encode(ControlDigits(c as int)))]
    ensures Encode(EscapeChar(c)) == [BACKSLASH, LOWER_U] + Encode(ControlDigits(c as int))
  {
    hide EncodeChar, ControlDigits;
    EncodeAppend("\\u", ControlDigits(c as int));
    AsciiEncoding("\\u");
    assert Encode("\\u") == [BACKSLASH, LOWER_U];
  }

  lemma {:induction false} ControlSpelled(c: char, rest: Bytes)
    requires |EscapeChar(c)| == 6
    ensures ValidLiteral(EscapePieces(c))
    ensures SpellPieces(EscapePieces(c), rest) == Encode(EscapeChar(c)) + rest
    ensures LiteralMeaning(EscapePieces(c)) == Latin1(EncodeChar(c))
  {
    hide EscapeChar, EscapePieces, ControlDigits, EncodeChar, HexChar, Encode;
    hide SpellPieces, ValidLiteral, LiteralMeaning, Latin1;
    ControlEncoded(c);
    ControlBytes(c);
    ControlHex(c as int);
    HexSpelled(Encode(ControlDigits(c as int)), c, rest);
  }

  lemma {:induction false} RawSpelled(c: char, rest: Bytes)
    requires |EscapeChar(c)| == 1
    ensures ValidLiteral(EscapePieces(c))
    ensures SpellPieces(EscapePieces(c), rest) == Encode(EscapeChar(c)) + rest
    ensures LiteralMeaning(EscapePieces(c)) == Latin1(EncodeChar(c))
  {
    var ps := EscapePieces(c);
    SpellRaw(EncodeChar(c), rest);
    assert Encode([c]) == EncodeChar(c);
    if c >= '\U{80}' {
      WideBytes(c);
    }
    forall p | p in ps
      ensures p.Valid()
    {
      var i :| 0 <= i < |ps| && ps[i] == p;
      assert EncodeChar(c)[i] in EncodeChar(c);
    }
  }

  /** The escape of one character spells a literal that means its UTF-8 bytes. */
  lemma {:induction false} EscapeCharSpelled(c: char, rest: Bytes)
    ensures ValidLiteral(EscapePieces(c))
    ensures SpellPieces(EscapePieces(c), rest) == Encode(EscapeChar(c)) + rest
    ensures LiteralMeaning(EscapePieces(c)) == Latin1(EncodeChar(c))
  {
    if |EscapeChar(c)| == 2 {
      ShortSpelled(c, rest);
    } else if |EscapeChar(c)| == 6 {
      ControlSpelled(c, rest);
    } else {
      RawSpelled(c, rest);
    }
  }

  lemma {:induction false} SpellAppend(ps: Literal, qs: Literal, rest: Bytes)
    ensures SpellPieces(ps + qs, rest) == SpellPieces(ps, SpellPieces(qs, rest))
  {
    if ps == [] {
      assert ps + qs == qs;
    } else {
      SpellAppend(ps[1..], qs, rest);
      assert (ps + qs)[1..] == ps[1..] + qs;
    }
  }

  lemma MeaningAppend(ps: Literal, qs: Literal)
    requires ValidLiteral(ps) && ValidLiteral(qs)
    ensures ValidLiteral(ps + qs)
    ensures LiteralMeaning(ps + qs) == LiteralMeaning(ps) + LiteralMeaning(qs)
  {
  }

  lemma Latin1Append(a: Bytes, b: Bytes)
    ensures Latin1(a + b) == Latin1(a) + Latin1(b)
  {
  }

  /** The literal that the escape of a text spells. */
  function EscapeLiteral(s: string): Literal {
    if s == "" then [] else EscapePieces(s[0]) + EscapeLiteral(s[1..])
  }

  lemma {:induction false} EscapeSpelled(s: string, rest: Bytes)
    ensures ValidLiteral(EscapeLiteral(s))
    ensures SpellPieces(EscapeLiteral(s), rest) == Encode(Escape(s)) + rest
    ensures LiteralMeaning(EscapeLiteral(s)) == Latin1(Encode(s))
  {
    if s == "" {
      assert [] + rest == rest;
    } else {
      EscapeSpelled(s[1..], rest);
      hide EscapePieces, EscapeChar, EncodeChar;
      var front, qs := EscapePieces(s[0]), EscapeLiteral(s[1..]);
      EscapeCharSpelled(s[0], SpellPieces(qs, rest));
      SpellAppend(front, qs, rest);
      EncodeAppend(EscapeChar(s[0]), Escape(s[1..]));
      ConcatAssociative(Encode(EscapeChar(s[0])), Encode(Escape(s[1..])), rest);
      MeaningAppend(front, qs);
      Latin1Append(EncodeChar(s[0]), Encode(s[1..]));
    }
  }

  /** An escaped text as it stands between quotes, followed by anything. */
  function Quoted(s: string, rest: Bytes): Bytes {
    [QUOTE] + (Encode(Escape(s)) + ([QUOTE] + rest))
  }

  /** The parser reads an escaped text as the text's UTF-8 bytes and stops behind the quote. */
  lemma {:induction false} ReadEscaped(s: string, rest: Bytes)
    ensures ParseLiteral(Quoted(s, rest)) == Some((Latin1(Encode(s)), rest))
  {
    EscapeSpelled(s, [QUOTE] + rest);
    LiteralComplete([], EscapeLiteral(s), rest);
    assert [] + SpellLiteral(EscapeLiteral(s), rest) == Quoted(s, rest);
  }

  lemma {:induction false} AsciiLatin1(s: string)
    requires IsAscii(s)
    ensures Latin1(Encode(s)) == s
  {
    AsciiEncoding(s);
  }

  /** Escaping and parsing give the text back exactly when it is ASCII. */
  lemma {:induction false} RoundTripIffAscii(s: string, rest: Bytes)
    ensures ParseLiteral(Quoted(s, rest)) == Some((s, rest)) <==> IsAscii(s)
  {
    ReadEscaped(s, rest);
    EncodeLength(s);
    if IsAscii(s) {
      AsciiEncoding(s);
      assert Latin1(Encode(s)) == s;
    }
  }

  /** One character beyond ASCII is read back as two. */
  lemma {:induction false} RoundTripCanFail(rest: Bytes)
    ensures ParseLiteral(Quoted("\U{E9}", rest)) == Some(("\U{C3}\U{A9}", rest))
  {
    ReadEscaped("\U{E9}", rest);
    assert "\U{E9}"[1..] == "" && Encode("\U{E9}") == EncodeChar('\U{E9}') + [] == [0xC3, 0xA9];
    assert Latin1([0xC3, 0xA9]) == "\U{C3}\U{A9}";
  }

  /** The escape of any text holds no control character. */
  lemma {:induction false} EscapeHasNoControl(s: string)
    ensures forall c <- Escape(s) :: c >= ' '
  {
    if s != "" {
      EscapeHasNoControl(s[1..]);
      assert forall c <- EscapeChar(s[0]) :: c >= ' ';
    }
  }

  /** Different texts, ASCII or not, have different escapes. */
  lemma {:induction false} EscapeInjective(s: string, t: string)
    requires Escape(s) == Escape(t)
    ensures s == t
  {
    ReadEscaped(s, []);
    ReadEscaped(t, []);
    var b, d := Encode(s), Encode(t);
    assert Latin1(b) == Latin1(d);
    forall i | 0 <= i < |b|
      ensures b[i] == d[i]
    {
      assert Latin1(b)[i] == b[i] as char && Latin1(d)[i] == d[i] as char;
    }
    assert b == d;
    EncodeInjective(s, t);
  }
}
