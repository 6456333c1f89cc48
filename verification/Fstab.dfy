/**
 The fstab line editor: replaces or removes one marker-delimited block, and
 over whole runs keeps an ordered map from slugs to lines behind the operator's
 own lines.
 */
module Fstab {
  import opened Wrappers
  import opened Sequences
  import opened Text

  const MARKER_BEGIN := "# BEGIN vaultproxy:"
  const MARKER_END := "# END vaultproxy:"

  function Begin(slug: string): string {
    MARKER_BEGIN + slug
  }

  function End(slug: string): string {
    MARKER_END + slug
  }

  // ------------------------------------------------------------------- blocks

  ghost predicate IsBegin(l: string, slug: string) {
    Trim(l) == Begin(slug)
  }

  ghost predicate IsEnd(l: string, slug: string) {
    Trim(l) == End(slug)
  }

  /** A begin marker stands before line `i`, with no end marker in between. */
  ghost predicate OpenBefore(ls: seq<string>, slug: string, i: nat)
    requires i <= |ls|
  {
    exists j :: 0 <= j < i && IsBegin(ls[j], slug) && NoEndBetween(ls, slug, j, i)
  }

  ghost predicate NoEndBetween(ls: seq<string>, slug: string, j: nat, i: nat)
    requires i <= |ls|
  {
    forall k :: j < k < i ==> !IsEnd(ls[k], slug)
  }

  /** Line `i` is a begin marker of the slug or lies in a block that one opens. */
  ghost predicate InBlock(ls: seq<string>, slug: string, i: nat)
    requires i < |ls|
  {
    IsBegin(ls[i], slug) || OpenBefore(ls, slug, i)
  }

  /** The first `n` lines without those in the slug's blocks, in order. */
  ghost function OutsideUpTo(ls: seq<string>, slug: string, n: nat): seq<string>
    requires n <= |ls|
  {
    if n == 0 then []
    else OutsideUpTo(ls, slug, n - 1) + if InBlock(ls, slug, n - 1) then [] else [ls[n - 1]]
  }

  ghost function Outside(ls: seq<string>, slug: string): seq<string> {
    OutsideUpTo(ls, slug, |ls|)
  }

  ghost predicate Unterminated(ls: seq<string>, slug: string) {
    OpenBefore(ls, slug, |ls|)
  }

  lemma {:induction false} OpenStep(ls: seq<string>, slug: string, i: nat)
    requires i < |ls|
    ensures OpenBefore(ls, slug, i + 1) <==>
            IsBegin(ls[i], slug) || (OpenBefore(ls, slug, i) && !IsEnd(ls[i], slug))
  {
    hide IsBegin, IsEnd;
    if IsBegin(ls[i], slug) {
      assert NoEndBetween(ls, slug, i, i + 1);
    } else if OpenBefore(ls, slug, i) && !IsEnd(ls[i], slug) {
      var j :| 0 <= j < i && IsBegin(ls[j], slug) && NoEndBetween(ls, slug, j, i);
      assert NoEndBetween(ls, slug, j, i + 1);
    }
    if OpenBefore(ls, slug, i + 1) && !IsBegin(ls[i], slug) {
      var j :| 0 <= j < i + 1 && IsBegin(ls[j], slug) && NoEndBetween(ls, slug, j, i + 1);
      assert NoEndBetween(ls, slug, j, i);
    }
  }

  // -------------------------------------------------------------- mount points

  /** The second field of a line, as the editor reads it. */
  function SecondField(l: string): Option<string> {
    var ws := Words(l);
    if |ws| >= 2 then Some(ws[1]) else None
  }

  /** Neither blank nor a comment. */
  predicate Active(l: string) {
    Trim(l) != "" && Trim(l)[0] != '#'
  }

  /** An active line that already uses the mount point. */
  predicate Claims(l: string, mp: string) {
    Active(l) && SecondField(Trim(l)) == Some(mp)
  }

  predicate Shadowed(ls: seq<string>, mp: string) {
    exists i :: 0 <= i < |ls| && Claims(ls[i], mp)
  }

  function MountPointOf(line: string): string {
    SecondField(line).GetOr("")
  }

  predicate IsBlank(s: string) {
    forall i :: 0 <= i < |s| ==> s[i] == ' ' || s[i] == '\t'
  }

  /** An operator's line of two or more words, spaced as it may be, claims its second word. */
  lemma {:induction false} LineClaimsSecondWord(indent: string, first: string, gap: string, second: string,
                                                rest: string, mp: string)
    requires IsBlank(indent) && IsBlank(gap) && gap != ""
    requires IsWord(first) && first[0] != '#' && IsWord(second)
    requires rest == "" || IsWhitespace(rest[0])
    ensures Claims(indent + (first + (gap + second + rest)), mp) <==> mp == second
  {
    hide IsWhitespace, Words, Trim;
    BlankIsWhitespace(indent);
    BlankIsWhitespace(gap);
    var n := RestEnd(rest);
    var end := rest[..n];
    var inner := first + (gap + second + end);
    assert first[0] in first && second[|second| - 1] in second;
    assert inner[0] == first[0] && inner[|inner| - 1] == if n > 0 then rest[n - 1] else second[|second| - 1];
    assert indent + (first + (gap + second + rest)) == indent + inner + rest[n..] by {
      assert rest == end + rest[n..];
    }
    TrimOver(indent, inner, rest[n..]);
    WordsOver("", first, gap + second + end);
    assert "" + first + (gap + second + end) == inner;
    assert (gap + second + end)[0] == gap[0];
    WordsOver(gap, second, end);
  }

  lemma BlankIsWhitespace(s: string)
    requires IsBlank(s)
    ensures AllWhitespace(s)
  {
  }

  /** Where the whitespace at the end of a text begins. */
  lemma {:induction false} RestEnd(rest: string) returns (n: nat)
    ensures n <= |rest| && AllWhitespace(rest[n..]) && (n > 0 ==> !IsWhitespace(rest[n - 1]))
  {
    n := |rest|;
    if rest != "" && IsWhitespace(rest[n - 1]) {
      n := RestEnd(rest[..n - 1]);
    }
  }

  /** A line of one word or none claims nothing. */
  lemma {:induction false} ShortLineClaimsNothing(indent: string, word: string, tail: string, mp: string)
    requires IsBlank(indent) && (IsWord(word) || word == "") && AllWhitespace(tail)
    ensures !Claims(indent + word + tail, mp)
  {
    hide IsWhitespace, Words, Trim;
    BlankIsWhitespace(indent);
    assert word != "" ==> word[0] in word && word[|word| - 1] in word;
    TrimOver(indent, word, tail);
    if word != "" {
      WordsOfWord(word);
    }
  }

  /** A comment claims nothing. */
  lemma {:induction false} CommentClaimsNothing(indent: string, rest: string, mp: string)
    requires IsBlank(indent)
    ensures !Claims(indent + ("#" + rest), mp)
  {
    hide Words, Trim;
    BlankIsWhitespace(indent);
    var n := RestEnd(rest);
    var inner := "#" + rest[..n];
    assert indent + ("#" + rest) == indent + inner + rest[n..];
    assert inner[0] == '#' && inner[|inner| - 1] == if n > 0 then rest[n - 1] else '#';
    TrimOver(indent, inner, rest[n..]);
  }

  // -------------------------------------------------------------- the rewrite

  function BlockLines(slug: string, line: string): seq<string> {
    [Begin(slug), line, End(slug)]
  }

  function NewBlock(slug: string, line: Option<string>): seq<string> {
    match line case None => [] case Some(l) => BlockLines(slug, l)
  }

  /** Why `write_fstab_block` refuses: an open block, or a mount point in use. */
  ghost predicate Refused(text: string, slug: string, line: Option<string>) {
    || Unterminated(Lines(text), slug)
    || (line.Some? && Shadowed(Lines(Unlines(Outside(Lines(text), slug))), MountPointOf(line.value)))
  }

  /** The text after a rewrite that is not refused. */
  ghost function Rewritten(text: string, slug: string, line: Option<string>): string {
    Unlines(Outside(Lines(text), slug) + NewBlock(slug, line))
  }

  /** The file; `None` before it exists. */
  class FstabFile {
    var content: Option<string>

    constructor (initial: Option<string>)
      ensures content == initial
    {
      content := initial;
    }

    /** Replaces the slug's block with one holding `line`, or removes it. */
    method WriteFstabBlock(slug: string, line: Option<string>) returns (ok: bool)
      modifies this
      ensures ok == !Refused(old(content).GetOr(""), slug, line)
      ensures content == if ok then Some(Rewritten(old(content).GetOr(""), slug, line)) else old(content)
    {
      hide Trim, Lines, Unlines, OpenBefore, OutsideUpTo, Words, SecondField, Shadowed, Claims;
      var begin, end := Begin(slug), End(slug);
      var original := content.GetOr("");
      var ls := Lines(original);
      var out := "";
      var inBlock := false;
      NothingRead(ls, slug);
      for i := 0 to |ls|
        invariant content == old(content)
        invariant inBlock == OpenBefore(ls, slug, i)
        invariant out == Unlines(OutsideUpTo(ls, slug, i))
      {
        var raw := ls[i];
        var trimmed := Trim(raw);
        OpenStep(ls, slug, i);
        OutsideStep(ls, slug, i);
        if trimmed == begin {
          inBlock := true;
          continue;
        }
        if inBlock {
          if trimmed == end {
            inBlock := false;
          }
          continue;
        }
        out := out + raw;
        out := out + "\n";
      }
      if inBlock {
        return false;
      }
      if line.Some? {
        var mp := MountPointOf(line.value);
        var kept := Lines(out);
        NothingShadows(mp);
        for i := 0 to |kept|
          invariant content == old(content)
          invariant !Shadowed(kept[..i], mp)
        {
          var t := Trim(kept[i]);
          ShadowStep(kept, mp, i);
          if t == "" || t[0] == '#' {
            continue;
          }
          var existing := SecondField(t);
          if existing.Some? && existing.value == mp {
            return false;
          }
        }
        assert kept[..|kept|] == kept;
      }
      ghost var kept := Outside(ls, slug);
      UnlinesTerminated(kept);
      AppendBlock(kept, slug, line);
      if line.Some? {
        if out != "" && out[|out| - 1] != '\n' {
          out := out + "\n";
        }
        out := out + begin;
        out := out + "\n";
        out := out + line.value;
        out := out + "\n";
        out := out + end;
        out := out + "\n";
      }
      content := Some(out);
      return true;
    }
  }

  lemma NothingRead(ls: seq<string>, slug: string)
    ensures !OpenBefore(ls, slug, 0)
    ensures Unlines(OutsideUpTo(ls, slug, 0)) == ""
  {
  }

  lemma {:induction false} OutsideStep(ls: seq<string>, slug: string, i: nat)
    requires i < |ls|
    ensures Unlines(OutsideUpTo(ls, slug, i + 1)) ==
            if InBlock(ls, slug, i) then Unlines(OutsideUpTo(ls, slug, i))
            else Unlines(OutsideUpTo(ls, slug, i)) + ls[i] + "\n"
  {
    hide InBlock;
    var before := OutsideUpTo(ls, slug, i);
    UnlinesAppend(before, [ls[i]]);
    assert Unlines([ls[i]]) == ls[i] + "\n" by {
      assert ls[i] + "\n" + "" == ls[i] + "\n";
    }
    ConcatAssociative(Unlines(before), ls[i], "\n");
    assert before + [] == before;
  }

  lemma NothingShadows(mp: string)
    ensures forall ls: seq<string> :: !Shadowed(ls[..0], mp)
  {
  }

  /** One more line shadows the mount point, and so does the list, when it claims it. */
  lemma {:induction false} ShadowStep(ls: seq<string>, mp: string, i: nat)
    requires i < |ls|
    ensures Shadowed(ls[..i + 1], mp) <==> Shadowed(ls[..i], mp) || Claims(ls[i], mp)
    ensures Claims(ls[i], mp) ==> Shadowed(ls, mp)
    ensures Claims(ls[i], mp) <==> && Trim(ls[i]) != "" && Trim(ls[i])[0] != '#'
                                   && SecondField(Trim(ls[i])) == Some(mp)
  {
    hide Trim, SecondField;
    if Shadowed(ls[..i + 1], mp) && !Claims(ls[i], mp) {
      var k :| 0 <= k < i + 1 && Claims(ls[..i + 1][k], mp);
      assert ls[..i][k] == ls[k];
    }
    if Shadowed(ls[..i], mp) {
      var k :| 0 <= k < i && Claims(ls[..i][k], mp);
      assert ls[..i + 1][k] == ls[k];
    }
    assert ls[..i + 1][i] == ls[i];
  }

  lemma {:induction false} AppendBlock(kept: seq<string>, slug: string, line: Option<string>)
    ensures Unlines(kept + NewBlock(slug, line)) ==
            match line
            case None => Unlines(kept)
            case Some(l) => Unlines(kept) + Begin(slug) + "\n" + l + "\n" + End(slug) + "\n"
  {
    hide Begin, End;
    if line.Some? {
      var l := line.value;
      UnlinesAppend(kept, BlockLines(slug, l));
      BlockText(slug, l);
      PushBlock(Unlines(kept), Begin(slug), l, End(slug));
    } else {
      assert kept + [] == kept;
    }
  }

  lemma PushBlock(out: string, b: string, l: string, e: string)
    ensures out + (b + "\n" + (l + "\n") + (e + "\n")) == out + b + "\n" + l + "\n" + e + "\n"
  {
  }

  lemma BlockText(slug: string, line: string)
    ensures Unlines(BlockLines(slug, line)) == Begin(slug) + "\n" + (line + "\n") + (End(slug) + "\n")
  {
    hide Begin, End;
    var b := BlockLines(slug, line);
    assert b[1..] == [line, End(slug)];
    assert b[1..][1..] == [End(slug)];
    assert Unlines([End(slug)]) == End(slug) + "\n" + "" == End(slug) + "\n";
    assert Unlines(b[1..]) == line + "\n" + (End(slug) + "\n");
    ConcatAssociative(Begin(slug) + "\n", line + "\n", End(slug) + "\n");
  }
}
