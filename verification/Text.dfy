/**
 The parts of Rust's `str` that the modelled code relies on: `lines`, `trim`,
 `split_whitespace` and `split`, over sequences of Unicode scalar values.
 */
module Text {
  import opened Sequences

  // ---------------------------------------------------------------- searching

  /** Index of the first occurrence of `c`, or the length when there is none. */
  function IndexOf(s: string, c: char): (i: nat)
    ensures i <= |s|
    ensures c !in s[..i]
    ensures i < |s| ==> s[i] == c
  {
    if s == "" || s[0] == c then 0 else 1 + IndexOf(s[1..], c)
  }

  lemma {:induction false} IndexOfFirst(a: string, c: char, b: string)
    requires c !in a
    ensures IndexOf(a + [c] + b, c) == |a|
  {
    var s := a + [c] + b;
    var i := IndexOf(s, c);
    assert s[|a|] == c;
    assert forall j :: 0 <= j < |a| ==> s[j] == a[j] && s[j] in a;
    assert forall j :: 0 <= j < i ==> s[j] in s[..i];
  }

  lemma {:induction false} IndexOfAbsent(a: string, c: char)
    requires c !in a
    ensures IndexOf(a, c) == |a|
  {
    assert forall j :: 0 <= j < |a| ==> a[j] != c;
  }

  // -------------------------------------------------------------------- lines

  /** A line terminator is `\n` or `\r\n`: one carriage return goes with it. */
  function StripCr(line: string): string {
    if line != "" && line[|line| - 1] == '\r' then line[..|line| - 1] else line
  }

  /** `str::lines`. A last line without `\n` is kept as it stands. */
  function Lines(s: string): seq<string>
    decreases |s|
  {
    if s == "" then []
    else
      var i := IndexOf(s, '\n');
      if i == |s| then [s] else [StripCr(s[..i])] + Lines(s[i + 1..])
  }

  predicate OneLine(l: string) {
    '\n' !in l
  }

  predicate AllOneLine(ls: seq<string>) {
    forall i :: 0 <= i < |ls| ==> OneLine(ls[i])
  }

  lemma {:induction false} LinesAreOneLine(s: string)
    ensures AllOneLine(Lines(s))
    decreases |s|
  {
    if s != "" {
      var i := IndexOf(s, '\n');
      if i < |s| {
        PrefixIsOneLine(s, i);
        LinesAreOneLine(s[i + 1..]);
      } else {
        assert s[..i] == s;
      }
    }
  }

  lemma PrefixIsOneLine(s: string, i: nat)
    requires i <= |s| && OneLine(s[..i])
    ensures OneLine(StripCr(s[..i]))
  {
    assert forall c <- StripCr(s[..i]) :: c in s[..i];
  }

  /** The text that writing every line followed by `\n` produces. */
  function Unlines(ls: seq<string>): string {
    if ls == [] then "" else ls[0] + "\n" + Unlines(ls[1..])
  }

  function StripCrAll(ls: seq<string>): (r: seq<string>)
    ensures |r| == |ls| && forall i :: 0 <= i < |r| ==> r[i] == StripCr(ls[i])
  {
    if ls == [] then [] else [StripCr(ls[0])] + StripCrAll(ls[1..])
  }

  predicate CrFree(ls: seq<string>) {
    forall l <- ls :: StripCr(l) == l
  }

  /** Text that ends at a line boundary, so that appending starts a new line. */
  predicate Terminated(s: string) {
    s == "" || s[|s| - 1] == '\n'
  }

  lemma {:induction false} UnlinesAppend(a: seq<string>, b: seq<string>)
    ensures Unlines(a + b) == Unlines(a) + Unlines(b)
  {
    if a == [] {
      assert a + b == b;
    } else {
      UnlinesAppend(a[1..], b);
      assert (a + b)[1..] == a[1..] + b;
      ConcatAssociative(a[0] + "\n", Unlines(a[1..]), Unlines(b));
    }
  }

  lemma {:induction false} UnlinesTerminated(ls: seq<string>)
    ensures Terminated(Unlines(ls))
  {
    if ls != [] {
      UnlinesTerminated(ls[1..]);
    }
  }

  lemma NoLineText()
    ensures Lines("") == []
  {
  }

  /** One written line is read back as one line. */
  lemma {:induction false} LinesStep(l: string, rest: string)
    requires OneLine(l)
    ensures Lines(l + ['\n'] + rest) == [StripCr(l)] + Lines(rest)
  {
    var t := l + ['\n'] + rest;
    IndexOfFirst(l, '\n', rest);
    assert t[..|l|] == l;
    assert t[|l| + 1..] == rest;
  }

  /** Reading starts afresh after terminated text. */
  lemma {:induction false} LinesAppend(a: string, b: string)
    requires Terminated(a)
    ensures Lines(a + b) == Lines(a) + Lines(b)
    decreases |a|
  {
    if a == "" {
      assert a + b == b;
    } else {
      var l, rest := FirstLine(a);
      LinesStep(l, rest);
      LinesStep(l, rest + b);
      LinesAppend(rest, b);
      hide Lines;
      ConcatAssociative(l + ['\n'], rest, b);
      ConcatAssociative([StripCr(l)], Lines(rest), Lines(b));
    }
  }

  lemma FirstLine(a: string) returns (l: string, rest: string)
    requires a != "" && Terminated(a)
    ensures a == l + ['\n'] + rest && OneLine(l)
    ensures Terminated(rest)
  {
    assert a[|a| - 1] in a;
    var i := IndexOf(a, '\n');
    assert a[..|a|] == a;
    l, rest := a[..i], a[i + 1..];
    assert rest != "" ==> rest[|rest| - 1] == a[|a| - 1];
  }

  /** Writing lines and reading them back loses one trailing carriage return per line. */
  lemma {:induction false} LinesOfUnlines(ls: seq<string>)
    requires AllOneLine(ls)
    ensures Lines(Unlines(ls)) == StripCrAll(ls)
  {
    if ls != [] {
      hide Lines;
      LinesStep(ls[0], Unlines(ls[1..]));
      LinesOfUnlines(ls[1..]);
    }
  }

  /** Exactly when a rewrite of a text preserves its lines. */
  lemma {:induction false} RewriteKeepsLines(ls: seq<string>)
    requires AllOneLine(ls)
    ensures Lines(Unlines(ls)) == ls <==> CrFree(ls)
  {
    LinesOfUnlines(ls);
    if StripCrAll(ls) == ls {
      forall l | l in ls
        ensures StripCr(l) == l
      {
        var i :| 0 <= i < |ls| && ls[i] == l;
        assert StripCrAll(ls)[i] == ls[i];
      }
    }
  }

  // --------------------------------------------------------------------- trim

  /** The Unicode `White_Space` property, as `char::is_whitespace` tests it. */
  predicate IsWhitespace(c: char) {
    || '\U{09}' <= c <= '\U{0D}'
    || c == ' '
    || c == '\U{85}'
    || c == '\U{A0}'
    || c == '\U{1680}'
    || '\U{2000}' <= c <= '\U{200A}'
    || c == '\U{2028}'
    || c == '\U{2029}'
    || c == '\U{202F}'
    || c == '\U{205F}'
    || c == '\U{3000}'
  }

  function TrimStart(s: string): (t: string)
    ensures |t| <= |s|
    ensures t == "" || !IsWhitespace(t[0])
    ensures forall c <- t :: c in s
  {
    if s != "" && IsWhitespace(s[0]) then TrimStart(s[1..]) else s
  }

  function TrimEnd(s: string): (t: string)
    ensures |t| <= |s| && t == s[..|t|]
    ensures t == "" || !IsWhitespace(t[|t| - 1])
  {
    if s != "" && IsWhitespace(s[|s| - 1]) then TrimEnd(s[..|s| - 1]) else s
  }

  function Trim(s: string): string {
    TrimEnd(TrimStart(s))
  }

  /** A line terminator's carriage return is whitespace, so `trim` hides its loss. */
  lemma {:induction false} TrimIgnoresCr(s: string)
    ensures Trim(StripCr(s)) == Trim(s)
  {
    if StripCr(s) != s {
      TrimStartDropsLast(s);
    }
  }

  lemma {:induction false} TrimStartDropsLast(s: string)
    requires s != "" && IsWhitespace(s[|s| - 1])
    ensures TrimEnd(TrimStart(s[..|s| - 1])) == TrimEnd(TrimStart(s))
  {
    var u := s[..|s| - 1];
    if IsWhitespace(s[0]) {
      if |s| > 1 {
        assert u[1..] == s[1..][..|s| - 2];
        TrimStartDropsLast(s[1..]);
      }
    } else {
      assert TrimStart(s) == s;
      assert TrimStart(u) == u;
    }
  }

  /** The Unicode characters with the White_Space property. */
  lemma WhitespaceIff(c: char)
    ensures IsWhitespace(c) <==>
            c as int in {0x09, 0x0A, 0x0B, 0x0C, 0x0D, 0x20, 0x85, 0xA0, 0x1680,
                         0x2000, 0x2001, 0x2002, 0x2003, 0x2004, 0x2005, 0x2006, 0x2007, 0x2008, 0x2009, 0x200A,
                         0x2028, 0x2029, 0x202F, 0x205F, 0x3000}
  {
  }

  predicate AllWhitespace(s: string) {
    forall i :: 0 <= i < |s| ==> IsWhitespace(s[i])
  }

  predicate Trimmed(s: string) {
    s == "" || (!IsWhitespace(s[0]) && !IsWhitespace(s[|s| - 1]))
  }

  lemma {:induction false} TrimStartOver(indent: string, s: string)
    requires AllWhitespace(indent)
    ensures TrimStart(indent + s) == TrimStart(s)
  {
    hide IsWhitespace;
    if indent == "" {
      assert indent + s == s;
    } else {
      assert (indent + s)[1..] == indent[1..] + s;
      TrimStartOver(indent[1..], s);
    }
  }

  lemma {:induction false} TrimEndOver(s: string, tail: string)
    requires AllWhitespace(tail)
    ensures TrimEnd(s + tail) == TrimEnd(s)
  {
    hide IsWhitespace;
    if tail == "" {
      assert s + tail == s;
    } else {
      assert (s + tail)[..|s + tail| - 1] == s + tail[..|tail| - 1];
      TrimEndOver(s, tail[..|tail| - 1]);
    }
  }

  /** Trimming takes the whitespace at both ends and nothing else. */
  lemma {:induction false} TrimOver(indent: string, s: string, tail: string)
    requires AllWhitespace(indent) && Trimmed(s) && AllWhitespace(tail)
    ensures Trim(indent + s + tail) == s
  {
    hide IsWhitespace;
    assert indent + s + tail == indent + (s + tail);
    TrimStartOver(indent, s + tail);
    if s == "" {
      assert s + tail == tail + "";
      TrimStartOver(tail, "");
    } else {
      assert TrimStart(s + tail) == s + tail;
      TrimEndOver(s, tail);
    }
  }

  // ---------------------------------------------------------------- splitting

  function WordEnd(s: string): (i: nat)
    ensures i <= |s|
    ensures forall j :: 0 <= j < i ==> !IsWhitespace(s[j])
    ensures i < |s| ==> IsWhitespace(s[i])
  {
    if s == "" || IsWhitespace(s[0]) then 0 else 1 + WordEnd(s[1..])
  }

  /** `str::split_whitespace`. */
  function Words(s: string): (ws: seq<string>)
    ensures forall w <- ws :: w != ""
    decreases |s|
  {
    var t := TrimStart(s);
    if t == "" then []
    else
      var i := WordEnd(t);
      [t[..i]] + Words(t[i..])
  }

  predicate IsWord(s: string) {
    s != "" && forall c <- s :: !IsWhitespace(c)
  }

  /** A word, a space and the rest split into the word and the rest's words. */
  lemma {:induction false} WordsStep(w: string, rest: string)
    requires IsWord(w)
    ensures Words(w + " " + rest) == [w] + Words(rest)
  {
    var s := w + " " + rest;
    assert TrimStart(s) == s;
    WordEndOfWord(w, " " + rest);
    assert s == w + (" " + rest);
    assert s[..|w|] == w && s[|w|..] == " " + rest;
    assert TrimStart(" " + rest) == TrimStart(rest) by {
      assert (" " + rest)[1..] == rest;
    }
  }

  /** Whitespace in front of the words, and of any kind between them, is skipped. */
  lemma {:induction false} WordsOver(indent: string, w: string, rest: string)
    requires AllWhitespace(indent) && IsWord(w) && (rest == "" || IsWhitespace(rest[0]))
    ensures Words(indent + w + rest) == [w] + Words(rest)
  {
    var s := w + rest;
    assert forall i :: 0 <= i < |w| ==> w[i] in w;
    assert indent + w + rest == indent + s;
    TrimStartOver(indent, s);
    assert TrimStart(s) == s;
    WordEndOfWord(w, rest);
    assert s[..|w|] == w && s[|w|..] == rest;
  }

  lemma {:induction false} WordsAreWords(s: string)
    ensures forall i :: 0 <= i < |Words(s)| ==> IsWord(Words(s)[i])
    decreases |s|
  {
    var t := TrimStart(s);
    if t != "" {
      var i := WordEnd(t);
      assert forall j :: 0 <= j < i ==> t[..i][j] == t[j];
      WordsAreWords(t[i..]);
    }
  }

  lemma {:induction false} WordsOfWord(w: string)
    requires IsWord(w)
    ensures Words(w) == [w]
  {
    WordEndOfWord(w, "");
    assert w + "" == w;
    assert w[|w|..] == "";
    assert Words(w) == [w] + Words("");
  }

  lemma {:induction false} WordEndOfWord(w: string, rest: string)
    requires forall c <- w :: !IsWhitespace(c)
    requires rest == "" || IsWhitespace(rest[0])
    ensures WordEnd(w + rest) == |w|
  {
    var s := w + rest;
    assert forall j :: 0 <= j < |w| ==> s[j] == w[j] && s[j] in w;
    assert rest != "" ==> s[|w|] == rest[0];
  }

  /** `str::split` on one character: always at least one, possibly empty, piece. */
  function SplitOn(s: string, c: char): (parts: seq<string>)
    ensures |parts| >= 1
    decreases |s|
  {
    var i := IndexOf(s, c);
    if i == |s| then [s] else [s[..i]] + SplitOn(s[i + 1..], c)
  }

  /** `[String]::join` with a one-character separator. */
  function Join(parts: seq<string>, c: char): string {
    if parts == [] then ""
    else if |parts| == 1 then parts[0]
    else parts[0] + [c] + Join(parts[1..], c)
  }

  /** Splitting undoes joining exactly when no piece holds the separator. */
  lemma {:induction false} SplitJoin(parts: seq<string>, c: char)
    requires parts != []
    ensures SplitOn(Join(parts, c), c) == parts <==> forall p <- parts :: c !in p
  {
    if forall p <- parts :: c !in p {
      SplitJoinRoundTrip(parts, c);
    } else if SplitOn(Join(parts, c), c) == parts {
      PiecesLackSeparator(Join(parts, c), c);
      assert false;
    }
  }

  lemma {:induction false} JoinOfSplit(s: string, c: char)
    ensures Join(SplitOn(s, c), c) == s
    decreases |s|
  {
    var i := IndexOf(s, c);
    if i < |s| {
      var rest := SplitOn(s[i + 1..], c);
      JoinOfSplit(s[i + 1..], c);
      JoinStep(s[..i], rest, c);
      hide SplitOn, Join, IndexOf;
      assert s == s[..i] + [s[i]] + s[i + 1..];
    }
  }

  lemma JoinStep(part: string, rest: seq<string>, c: char)
    requires rest != []
    ensures Join([part] + rest, c) == part + [c] + Join(rest, c)
  {
    assert ([part] + rest)[1..] == rest;
  }

  lemma {:induction false} SplitJoinRoundTrip(parts: seq<string>, c: char)
    requires parts != []
    requires forall p <- parts :: c !in p
    ensures SplitOn(Join(parts, c), c) == parts
  {
    var p := parts[0];
    if |parts| == 1 {
      IndexOfAbsent(p, c);
    } else {
      var rest := Join(parts[1..], c);
      IndexOfFirst(p, c, rest);
      var s := p + [c] + rest;
      assert s[..|p|] == p && s[|p| + 1..] == rest;
      SplitJoinRoundTrip(parts[1..], c);
    }
  }

  lemma {:induction false} PiecesLackSeparator(s: string, c: char)
    ensures forall p <- SplitOn(s, c) :: c !in p
    decreases |s|
  {
    var i := IndexOf(s, c);
    if i < |s| {
      PiecesLackSeparator(s[i + 1..], c);
    } else {
      assert s[..i] == s;
    }
  }

  /** A text without a character has no piece with it. */
  lemma {:induction false} PiecesFromText(s: string, c: char, absent: char)
    requires absent !in s
    ensures forall i :: 0 <= i < |SplitOn(s, c)| ==> absent !in SplitOn(s, c)[i]
    decreases |s|
  {
    var i := IndexOf(s, c);
    if i < |s| {
      PiecesFromText(s[i + 1..], c, absent);
    }
  }
}
