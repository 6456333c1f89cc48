/**
 A printer of JSON objects that uses the mount helper's escaper, as its callers
 do, and the round trip of whole objects through the parser's grammar.
 */
module JsonPrinter {
  import opened Utf8
  import opened Sequences
  import opened MiniJson
  import opened JsonEscape

  function PrintText(t: string): string {
    "\"" + Escape(t) + "\""
  }

  function PrintItems(xs: seq<string>): string
    requires xs != []
  {
    PrintText(xs[0]) + if |xs| == 1 then "]" else "," + PrintItems(xs[1..])
  }

  function PrintValue(v: Value): string {
    match v
    case Str(t) => PrintText(t)
    case StrArray(xs) => if xs == [] then "[]" else "[" + PrintItems(xs)
  }

  function PrintMembers(fields: Fields): string
    requires fields != []
  {
    PrintText(fields[0].0) + ":" + PrintValue(fields[0].1)
    + if |fields| == 1 then "}" else "," + PrintMembers(fields[1..])
  }

  function Print(fields: Fields): string {
    if fields == [] then "{}" else "{" + PrintMembers(fields)
  }

  predicate AsciiValue(v: Value) {
    match v
    case Str(t) => IsAscii(t)
    case StrArray(xs) => forall i :: 0 <= i < |xs| ==> IsAscii(xs[i])
  }

  predicate AsciiFields(fields: Fields) {
    forall i :: 0 <= i < |fields| ==> IsAscii(fields[i].0) && AsciiValue(fields[i].1)
  }

  // ------------------------------------------------------------ the printed tree

  function ItemsOf(xs: seq<string>): seq<Item> {
    if xs == [] then [] else [Item([], EscapeLiteral(xs[0]), [])] + ItemsOf(xs[1..])
  }

  function ValueOf(v: Value): ValueTree {
    match v
    case Str(t) => TextTree(EscapeLiteral(t))
    case StrArray(xs) => if xs == [] then EmptyArray([]) else Items(ItemsOf(xs))
  }

  function MembersOf(fields: Fields): seq<Member> {
    if fields == [] then []
    else [Member([], EscapeLiteral(fields[0].0), [], [], ValueOf(fields[0].1), [])] + MembersOf(fields[1..])
  }

  function DocumentOf(fields: Fields): Document {
    Document([], if fields == [] then EmptyObject([]) else Members(MembersOf(fields)), [])
  }

  // ------------------------------------------------------------ what it spells

  lemma EncodePunctuation()
    ensures Encode("\"") == [QUOTE] && Encode(",") == [COMMA] && Encode(":") == [COLON]
    ensures Encode("{") == [LBRACE] && Encode("}") == [RBRACE]
    ensures Encode("[") == [LBRACKET] && Encode("]") == [RBRACKET] && Encode("null") == NULL_LITERAL
  {
    AsciiEncoding("\"");
    AsciiEncoding(",");
    AsciiEncoding(":");
    AsciiEncoding("{");
    AsciiEncoding("}");
    AsciiEncoding("[");
    AsciiEncoding("]");
    AsciiEncoding("null");
  }

  /** The bytes of joined texts, one behind the other. */
  lemma EncodeOnto(s: string, t: string, rest: Bytes)
    ensures Encode(s + t) + rest == Encode(s) + (Encode(t) + rest)
  {
    EncodeAppend(s, t);
    ConcatAssociative(Encode(s), Encode(t), rest);
  }

  lemma {:induction false} TextSpelled(t: string, rest: Bytes)
    ensures ValidLiteral(EscapeLiteral(t))
    ensures SpellLiteral(EscapeLiteral(t), rest) == Encode(PrintText(t)) + rest
    ensures IsAscii(t) ==> LiteralMeaning(EscapeLiteral(t)) == t
  {
    hide Encode, Escape, SpellPieces, LiteralMeaning, ValidLiteral, IsAscii;
    EncodePunctuation();
    EscapeSpelled(t, [QUOTE] + rest);
    EncodeOnto("\"" + Escape(t), "\"", rest);
    EncodeOnto("\"", Escape(t), [QUOTE] + rest);
    if IsAscii(t) {
      AsciiLatin1(t);
    }
  }

  lemma {:induction false} ItemsSpelled(xs: seq<string>, rest: Bytes)
    requires xs != []
    ensures |ItemsOf(xs)| == |xs| && ValidItems(ItemsOf(xs))
    ensures SpellItems(ItemsOf(xs), rest) == Encode(PrintItems(xs)) + rest
    ensures (forall i :: 0 <= i < |xs| ==> IsAscii(xs[i])) ==> ItemsMeaning(ItemsOf(xs)) == xs
  {
    hide Encode, EscapeLiteral, SpellLiteral, LiteralMeaning, ValidLiteral, PrintText, IsAscii;
    EncodePunctuation();
    var items := ItemsOf(xs);
    var tail := if |xs| == 1 then "]" else "," + PrintItems(xs[1..]);
    assert items[1..] == ItemsOf(xs[1..]);
    if |xs| > 1 {
      ItemsSpelled(xs[1..], rest);
      EncodeOnto(",", PrintItems(xs[1..]), rest);
    }
    TextSpelled(xs[0], Encode(tail) + rest);
    EncodeOnto(PrintText(xs[0]), tail, rest);
    assert [] + (Encode(tail) + rest) == Encode(tail) + rest;
    assert [] + SpellLiteral(EscapeLiteral(xs[0]), Encode(tail) + rest) ==
           SpellLiteral(EscapeLiteral(xs[0]), Encode(tail) + rest);
    assert xs == [xs[0]] + xs[1..];
  }

  lemma {:induction false} ValueSpelled(v: Value, rest: Bytes)
    ensures ValueOf(v).Valid() && SpellValue(ValueOf(v), rest) == Encode(PrintValue(v)) + rest
    ensures AsciiValue(v) ==> ValueOf(v).Meaning() == v
  {
    hide Encode, EscapeLiteral, SpellLiteral, LiteralMeaning, ValidLiteral, PrintText, IsAscii;
    hide SpellItems, ItemsMeaning;
    EncodePunctuation();
    match v
    case Str(t) => TextSpelled(t, rest);
    case StrArray(xs) =>
      if xs == [] {
        EncodeOnto("[", "]", rest);
        assert "[" + "]" == "[]" && [] + ([RBRACKET] + rest) == [RBRACKET] + rest;
      } else {
        ItemsSpelled(xs, rest);
        EncodeOnto("[", PrintItems(xs), rest);
      }
  }

  /** One printed member and what follows it. */
  lemma {:induction false} MemberSpelled(key: string, v: Value, tail: string, rest: Bytes)
    ensures SpellLiteral(EscapeLiteral(key), [COLON] + SpellValue(ValueOf(v), Encode(tail) + rest)) ==
            Encode(PrintText(key) + ":" + PrintValue(v) + tail) + rest
  {
    hide Encode, EscapeLiteral, SpellLiteral, SpellValue, PrintText, PrintValue, ValueOf;
    EncodePunctuation();
    var end := Encode(tail) + rest;
    ValueSpelled(v, end);
    EncodeOnto(":", PrintValue(v), end);
    TextSpelled(key, Encode(":" + PrintValue(v)) + end);
    EncodeOnto(PrintText(key), ":" + PrintValue(v), end);
    EncodeOnto(PrintText(key) + (":" + PrintValue(v)), tail, rest);
    ConcatAssociative(PrintText(key), ":", PrintValue(v));
  }

  lemma {:induction false} MembersSpelled(fields: Fields, rest: Bytes)
    requires fields != []
    ensures |MembersOf(fields)| == |fields| && ValidMembers(MembersOf(fields))
    ensures SpellMembers(MembersOf(fields), rest) == Encode(PrintMembers(fields)) + rest
    ensures AsciiFields(fields) ==> MembersMeaning(MembersOf(fields)) == fields
  {
    hide Encode, EscapeLiteral, SpellLiteral, SpellValue, LiteralMeaning, ValidLiteral, PrintText, PrintValue, ValueOf;
    hide IsAscii, AsciiValue;
    EncodePunctuation();
    var ms, key, v := MembersOf(fields), fields[0].0, fields[0].1;
    var tail := if |fields| == 1 then "}" else "," + PrintMembers(fields[1..]);
    assert ms[1..] == MembersOf(fields[1..]);
    if |fields| > 1 {
      MembersSpelled(fields[1..], rest);
      EncodeOnto(",", PrintMembers(fields[1..]), rest);
    }
    var end := Encode(tail) + rest;
    TextSpelled(key, []);
    ValueSpelled(v, end);
    MemberSpelled(key, v, tail, rest);
    EmptyInFront(SpellValue(ValueOf(v), end));
    EmptyInFront(end);
    EmptyInFront([COLON] + SpellValue(ValueOf(v), end));
    EmptyInFront(SpellLiteral(EscapeLiteral(key), [COLON] + SpellValue(ValueOf(v), end)));
    assert fields == [fields[0]] + fields[1..];
  }

  lemma EmptyInFront(bs: Bytes)
    ensures [] + bs == bs
  {
  }

  /** The bytes of a printed object are a document that means its fields: printing and parsing round-trip. */
  lemma {:induction false} PrintedIsDerived(fields: Fields)
    requires AsciiFields(fields)
    ensures Derives(Encode(Print(fields)), fields)
  {
    hide Encode, EscapeLiteral, SpellMembers, MembersMeaning, ValidMembers, MembersOf;
    EncodePunctuation();
    var d := DocumentOf(fields);
    if fields == [] {
      EncodeOnto("{", "}", []);
      assert "{" + "}" == "{}" && Encode("{}") + [] == Encode("{}");
    } else {
      MembersSpelled(fields, []);
      EncodeOnto("{", PrintMembers(fields), []);
      assert Encode(Print(fields)) + [] == Encode(Print(fields));
    }
    EmptyInFront(SpellObject(d.root, []));
    assert d.Valid() && SpellDocument(d) == Encode(Print(fields)) && d.root.Meaning() == fields;
  }

  /** A member may be `null`, which counts as the empty text. */
  lemma {:induction false} NullIsEmptyText(key: string)
    requires IsAscii(key)
    ensures Derives(Encode("{" + (PrintText(key) + (":" + ("null" + "}")))), [(key, Str(""))])
  {
    hide Encode, EscapeLiteral, LiteralMeaning, ValidLiteral, PrintText, IsAscii, SpellLiteral;
    EncodePunctuation();
    var m := Member([], EscapeLiteral(key), [], [], NullTree, []);
    var d := Document([], Members([m]), []);
    var value := NULL_LITERAL + [RBRACE];
    TextSpelled(key, [COLON] + value);
    EncodeAppend("null", "}");
    EncodeAppend(":", "null" + "}");
    EncodeAppend(PrintText(key), ":" + ("null" + "}"));
    EncodeAppend("{", PrintText(key) + (":" + ("null" + "}")));
    assert [m][1..] == [];
    EmptyInFront([RBRACE]);
    EmptyInFront(value);
    EmptyInFront([COLON] + value);
    EmptyInFront(SpellLiteral(EscapeLiteral(key), [COLON] + value));
    EmptyInFront(SpellObject(d.root, []));
    assert [RBRACE] + [] == [RBRACE];
    assert ValidMembers([m]) && MembersMeaning([m]) == [(key, Str(""))] + MembersMeaning([m][1..]);
    assert d.Valid() && d.root.Meaning() == [(key, Str(""))];
    assert SpellDocument(d) == [LBRACE] + SpellLiteral(EscapeLiteral(key), [COLON] + value);
  }
}
