/** Removal of `<think>` reasoning blocks from a vision model's reply. */
module ThinkBlocks {
  import opened Wrappers
  import opened Sequences

  const OPEN := "<think>"
  const CLOSE := "</think>"

  /** The pattern stands in the text at this place. */
  predicate At(s: string, pat: string, i: nat) {
    i + |pat| <= |s| && forall k :: 0 <= k < |pat| ==> s[i + k] == pat[k]
  }

  predicate Contains(s: string, pat: string) {
    exists i :: 0 <= i <= |s| && At(s, pat, i)
  }

  /** `str::find` from a place on. */
  function FindFrom(s: string, pat: string, from: nat): (r: Option<nat>)
    requires from <= |s|
    ensures r.Some? ==> from <= r.value <= |s| && At(s, pat, r.value)
    ensures r.Some? ==> forall i :: from <= i < r.value ==> !At(s, pat, i)
    ensures r.None? ==> forall i :: from <= i <= |s| ==> !At(s, pat, i)
    decreases |s| - from
  {
    if At(s, pat, from) then Some(from)
    else if from == |s| then None
    else FindFrom(s, pat, from + 1)
  }

  /** The first block: where it starts and, if it is closed, where it stops. */
  function FirstBlock(s: string): (r: Option<(nat, Option<nat>)>)
    ensures r.Some? ==> r.value.0 < |s|
    ensures r.Some? && r.value.1.Some? ==> r.value.0 < r.value.1.value <= |s|
  {
    match FindFrom(s, OPEN, 0)
    case None => None
    case Some(start) =>
      match FindFrom(s, CLOSE, start)
      case None => Some((start, None))
      case Some(end) => Some((start, Some(end + |CLOSE|)))
  }

  /** The text without its blocks, leftmost block first. */
  function Strip(s: string): string
    decreases |s|
  {
    match FirstBlock(s)
    case None => s
    case Some((start, None)) => s[..start]
    case Some((start, Some(stop))) => s[..start] + Strip(s[stop..])
  }

  method StripThinkBlocks(text: string) returns (out: string)
    ensures out == Strip(text)
  {
    hide At;
    out := "";
    var rest := text;
    assert "" + Strip(text) == Strip(text);
    while true
      invariant out + Strip(rest) == Strip(text)
      decreases |rest|
    {
      var start := FindFrom(rest, OPEN, 0);
      if start.None? {
        break;
      }
      var kept := rest[..start.value];
      var end := FindFrom(rest, CLOSE, start.value);
      if end.None? {
        out := out + kept;
        return;
      }
      assert FirstBlock(rest) == Some((start.value, Some(end.value + |CLOSE|)));
      var next := rest[end.value + |CLOSE|..];
      ConcatAssociative(out, kept, Strip(next));
      out := out + kept;
      rest := next;
    }
    out := out + rest;
  }

  // ----------------------------------------------------------------------- laws

  lemma TagShape(tag: string)
    requires tag == OPEN || tag == CLOSE
    ensures |tag| >= 7 && tag[0] == '<' && forall k :: 0 < k < |tag| ==> tag[k] != '<'
    ensures OPEN[1] != CLOSE[1]
  {
  }

  /** Behind text without it, a tag's first occurrence is right there: `<` stands at its front only. */
  lemma {:induction false} TagBehind(a: string, tag: string, c: string, from: nat)
    requires tag == OPEN || tag == CLOSE
    requires from <= |a| && forall i :: from <= i <= |a| ==> !At(a, tag, i)
    ensures FindFrom(a + (tag + c), tag, from) == Some(|a|)
  {
    hide FindFrom, OPEN, CLOSE;
    var s := a + (tag + c);
    assert At(s, tag, |a|);
    forall i | from <= i < |a|
      ensures !At(s, tag, i)
    {
      NotEarlier(a, tag, c, i);
    }
    hide At;
  }

  lemma {:induction false} NotEarlier(a: string, tag: string, c: string, i: nat)
    requires tag == OPEN || tag == CLOSE
    requires i < |a| && !At(a, tag, i)
    ensures !At(a + (tag + c), tag, i)
  {
    TagShape(tag);
    hide OPEN, CLOSE;
    var s := a + (tag + c);
    assert s[|a|] == '<';
    if i + |tag| <= |a| {
      var k := Mismatch(a, tag, i);
      assert s[i + k] == a[i + k];
    } else {
      assert s[i + (|a| - i)] != tag[|a| - i];
    }
  }

  lemma Mismatch(a: string, pat: string, i: nat) returns (k: nat)
    requires i + |pat| <= |a| && !At(a, pat, i)
    ensures k < |pat| && a[i + k] != pat[k]
  {
    k :| 0 <= k < |pat| && a[i + k] != pat[k];
  }

  /** A closing tag does not begin inside an opening one. */
  lemma {:induction false} OpenThenText(b: string)
    requires !Contains(b, CLOSE)
    ensures forall i :: 0 <= i <= |OPEN + b| ==> !At(OPEN + b, CLOSE, i)
  {
    TagShape(OPEN);
    TagShape(CLOSE);
    hide OPEN, CLOSE;
    var s := OPEN + b;
    forall i | 0 <= i <= |s|
      ensures !At(s, CLOSE, i)
    {
      if i + |CLOSE| <= |s| {
        if i == 0 {
          assert s[0 + 1] != CLOSE[1];
        } else if i < |OPEN| {
          assert s[i + 0] != CLOSE[0];
        } else {
          assert !At(b, CLOSE, i - |OPEN|);
          var k := Mismatch(b, CLOSE, i - |OPEN|);
          assert s[i + k] == b[i - |OPEN| + k];
        }
      }
    }
  }

  lemma {:induction false} NotAtBehind(a: string, b: string, tag: string)
    requires forall i :: 0 <= i <= |b| ==> !At(b, tag, i)
    ensures forall i :: |a| <= i <= |a + b| ==> !At(a + b, tag, i)
  {
    forall i | |a| <= i <= |a + b|
      ensures !At(a + b, tag, i)
    {
      assert !At(b, tag, i - |a|);
      if i + |tag| <= |a + b| {
        var k := Mismatch(b, tag, i - |a|);
        assert (a + b)[i + k] == b[i - |a| + k];
      }
    }
  }

  lemma ClosingTag(a: string, b: string, c: string)
    requires !Contains(b, CLOSE)
    ensures FindFrom(a + (OPEN + b) + (CLOSE + c), CLOSE, |a|) == Some(|a + (OPEN + b)|)
  {
    hide FindFrom, At, OPEN, CLOSE, Contains;
    OpenThenText(b);
    NotAtBehind(a, OPEN + b, CLOSE);
    TagBehind(a + (OPEN + b), CLOSE, c, |a|);
  }

  lemma Regroup(a: string, o: string, b: string, c: string)
    ensures a + (o + (b + c)) == a + (o + b) + c
  {
    ConcatAssociative(o, b, c);
    ConcatAssociative(a, o + b, c);
  }

  /** Where the first block of `a <think> b </think> c` lies. */
  lemma {:induction false} ClosedBlock(a: string, b: string, c: string)
    requires !Contains(a, OPEN) && !Contains(b, CLOSE)
    ensures FirstBlock(a + (OPEN + (b + (CLOSE + c)))) == Some((|a|, Some(|a + (OPEN + b)| + |CLOSE|)))
  {
    hide FirstBlock, FindFrom, At, OPEN, CLOSE, Contains;
    var s, end := a + (OPEN + (b + (CLOSE + c))), |a + (OPEN + b)|;
    assert FindFrom(s, OPEN, 0) == Some(|a|) by {
      NotContained(a, OPEN);
      TagBehind(a, OPEN, b + (CLOSE + c), 0);
    }
    assert FindFrom(s, CLOSE, |a|) == Some(end) by {
      Regroup(a, OPEN, b, CLOSE + c);
      ClosingTag(a, b, c);
    }
    FirstBlockOf(s, |a|, Some(end));
  }

  /** The same for `a <think> b` without a closing tag. */
  lemma {:induction false} OpenBlock(a: string, b: string)
    requires !Contains(a, OPEN) && !Contains(b, CLOSE)
    ensures FirstBlock(a + (OPEN + b)) == Some((|a|, None))
  {
    hide FirstBlock, FindFrom, At, OPEN, CLOSE, Contains;
    OpenThenText(b);
    NotContained(a, OPEN);
    TagBehind(a, OPEN, b, 0);
    NotAtBehind(a, OPEN + b, CLOSE);
    FirstBlockOf(a + (OPEN + b), |a|, None);
  }

  lemma NotContained(s: string, tag: string)
    requires !Contains(s, tag)
    ensures forall i :: 0 <= i <= |s| ==> !At(s, tag, i)
  {
  }

  lemma FirstBlockOf(s: string, start: nat, end: Option<nat>)
    requires FindFrom(s, OPEN, 0) == Some(start) && start <= |s| && FindFrom(s, CLOSE, start) == end
    ensures FirstBlock(s) == Some((start, match end case None => None case Some(e) => Some(e + |CLOSE|)))
  {
  }

  /** A block goes, what precedes it stays, and what follows is stripped in turn. */
  lemma {:induction false} StripBlock(a: string, b: string, c: string)
    requires !Contains(a, "<think>") && !Contains(b, "</think>")
    ensures Strip(a + ("<think>" + (b + ("</think>" + c)))) == a + Strip(c)
  {
    assert OPEN == "<think>" && CLOSE == "</think>";
    var s := a + (OPEN + (b + (CLOSE + c)));
    TagShape(CLOSE);
    ClosedBlock(a, b, c);
    hide OPEN, CLOSE, FirstBlock, Contains;
    SplitConcat(a, OPEN + (b + (CLOSE + c)));
    ConcatAssociative(b, CLOSE, c);
    ConcatAssociative(OPEN, b + CLOSE, c);
    ConcatAssociative(a, OPEN + (b + CLOSE), c);
    SplitConcat(a + (OPEN + (b + CLOSE)), c);
  }

  /** An unterminated block drops the rest. */
  lemma {:induction false} StripUnterminated(a: string, b: string)
    requires !Contains(a, "<think>") && !Contains(b, "</think>")
    ensures Strip(a + ("<think>" + b)) == a
  {
    assert OPEN == "<think>" && CLOSE == "</think>";
    OpenBlock(a, b);
    hide OPEN, CLOSE, FirstBlock, Contains;
    SplitConcat(a, OPEN + b);
  }

  /** Text without the opening tag is left alone, and only such text is. */
  lemma {:induction false} StripFixedIff(s: string)
    ensures Strip(s) == s <==> !Contains(s, "<think>")
    ensures |Strip(s)| <= |s|
    decreases |s|
  {
    FirstBlockIff(s);
    hide FirstBlock, Contains;
    match FirstBlock(s)
    case None =>
    case Some((_, None)) =>
    case Some((_, Some(stop))) => StripFixedIff(s[stop..]);
  }

  lemma FirstBlockIff(s: string)
    ensures FirstBlock(s).None? <==> !Contains(s, OPEN)
  {
  }

  /** A stretch of the text and whether it stays. */
  datatype Segment = Keep(text: string) | Drop(text: string)

  function Segments(s: string): seq<Segment>
    decreases |s|
  {
    match FirstBlock(s)
    case None => [Keep(s)]
    case Some((start, None)) => [Keep(s[..start]), Drop(s[start..])]
    case Some((start, Some(stop))) => [Keep(s[..start]), Drop(s[start..stop])] + Segments(s[stop..])
  }

  function AllText(segs: seq<Segment>): string {
    if segs == [] then "" else segs[0].text + AllText(segs[1..])
  }

  function KeptText(segs: seq<Segment>): string {
    if segs == [] then "" else (if segs[0].Keep? then segs[0].text else "") + KeptText(segs[1..])
  }

  function DroppedLength(segs: seq<Segment>): nat {
    if segs == [] then 0 else (if segs[0].Drop? then |segs[0].text| else 0) + DroppedLength(segs[1..])
  }

  /** The output is the kept stretches of a division of the input; no character is lost or added. */
  lemma {:induction false} StripDivides(s: string)
    ensures AllText(Segments(s)) == s
    ensures KeptText(Segments(s)) == Strip(s)
    ensures |Strip(s)| + DroppedLength(Segments(s)) == |s|
    decreases |s|
  {
    hide FirstBlock;
    match FirstBlock(s)
    case None =>
      OneSegment(Keep(s));
    case Some((start, None)) =>
      TwoSegments(s[..start], s[start..], []);
      assert s == s[..start] + (s[start..] + "") && s[..start] + "" == s[..start];
      assert [Keep(s[..start]), Drop(s[start..])] + [] == [Keep(s[..start]), Drop(s[start..])];
    case Some((start, Some(stop))) =>
      StripDivides(s[stop..]);
      TwoSegments(s[..start], s[start..stop], Segments(s[stop..]));
      hide Strip, Segments, AllText, KeptText, DroppedLength;
      assert s == s[..start] + (s[start..stop] + s[stop..]);
  }

  lemma OneSegment(seg: Segment)
    ensures AllText([seg]) == seg.text
    ensures KeptText([seg]) == if seg.Keep? then seg.text else ""
    ensures DroppedLength([seg]) == if seg.Drop? then |seg.text| else 0
  {
    assert [seg][1..] == [];
    assert seg.text + "" == seg.text;
  }

  lemma TwoSegments(keep: string, drop: string, segs: seq<Segment>)
    ensures AllText([Keep(keep), Drop(drop)] + segs) == keep + (drop + AllText(segs))
    ensures KeptText([Keep(keep), Drop(drop)] + segs) == keep + KeptText(segs)
    ensures DroppedLength([Keep(keep), Drop(drop)] + segs) == |drop| + DroppedLength(segs)
  {
    var all := [Keep(keep), Drop(drop)] + segs;
    assert all[1..] == [Drop(drop)] + segs;
    assert all[1..][1..] == segs;
    assert "" + KeptText(segs) == KeptText(segs);
  }

  /** Stripping twice can remove more: for every cut of the tag, removing a block splices it together. */
  lemma {:induction false} NotIdempotent(a: string, b: string)
    requires a + b == OPEN && a != "" && b != ""
    ensures var s := a + (OPEN + ([] + (CLOSE + b)));
            Strip(s) == OPEN && Strip(Strip(s)) == ""
  {
    NoTagInside(a);
    NoTagInside(b);
    NoTagInside([]);
    StripFixedIff(b);
    StripBlock(a, [], b);
    LoneTag();
  }

  lemma LoneTag()
    ensures Strip(OPEN) == ""
  {
    NoTagInside([]);
    StripUnterminated([], []);
    assert [] + (OPEN + []) == OPEN;
  }

  /**
   A kept stretch of the division ends in a proper front of the opening tag, and
   what is kept behind it goes on with the rest of the tag.
   */
  predicate SplicesTag(segs: seq<Segment>) {
    exists i, n :: 0 <= i < |segs| && 0 < n < |OPEN| && SplicedAt(segs, i, n)
  }

  predicate SplicedAt(segs: seq<Segment>, i: nat, n: nat)
    requires i < |segs| && n < |OPEN|
  {
    segs[i].Keep? && Straddles(segs[i].text, KeptText(segs[i + 1..]), n)
  }

  /** The first `n` characters of the opening tag end the one text, and the others begin the other. */
  predicate Straddles(a: string, b: string, n: nat)
    requires n < |OPEN|
  {
    n <= |a| && a[|a| - n..] == OPEN[..n] && OPEN[n..] <= b
  }

  ghost predicate SpliceOf(a: string, b: string) {
    exists n :: 0 < n < |OPEN| && Straddles(a, b, n)
  }

  lemma AtIsSlice(s: string, pat: string, i: nat)
    ensures At(s, pat, i) <==> i + |pat| <= |s| && s[i..i + |pat|] == pat
  {
    if i + |pat| <= |s| {
      var slice := s[i..i + |pat|];
      assert forall k :: 0 <= k < |pat| ==> slice[k] == s[i + k];
    }
  }

  /** A tag in joined texts lies in one of them or straddles the joint. */
  lemma {:induction false} ContainsConcat(a: string, b: string)
    ensures Contains(a + b, OPEN) <==> Contains(a, OPEN) || Contains(b, OPEN) || SpliceOf(a, b)
  {
    hide At, OPEN;
    if Contains(a + b, OPEN) {
      var i :| 0 <= i <= |a + b| && At(a + b, OPEN, i);
      AtIsSlice(a + b, OPEN, i);
      TagAcross(a, b, i);
    }
    if SpliceOf(a, b) {
      SpliceIsTag(a, b);
    }
    TagStays(a, b);
  }

  lemma {:induction false} TagStays(a: string, b: string)
    ensures Contains(a, OPEN) || Contains(b, OPEN) ==> Contains(a + b, OPEN)
  {
    hide OPEN;
    if Contains(a, OPEN) {
      var i :| 0 <= i <= |a| && At(a, OPEN, i);
      assert At(a + b, OPEN, i);
    } else if Contains(b, OPEN) {
      var i :| 0 <= i <= |b| && At(b, OPEN, i);
      assert At(a + b, OPEN, |a| + i);
    }
  }

  lemma {:induction false} SpliceIsTag(a: string, b: string)
    requires SpliceOf(a, b)
    ensures Contains(a + b, OPEN)
  {
    hide At, OPEN;
    var n :| 0 < n < |OPEN| && Straddles(a, b, n);
    var i := |a| - n;
    assert (a + b)[i..i + |OPEN|] == a[i..] + b[..|OPEN| - n] == OPEN[..n] + OPEN[n..];
    AtIsSlice(a + b, OPEN, i);
  }

  lemma {:induction false} TagAcross(a: string, b: string, i: nat)
    requires i + |OPEN| <= |a + b| && (a + b)[i..i + |OPEN|] == OPEN
    ensures Contains(a, OPEN) || Contains(b, OPEN) || SpliceOf(a, b)
  {
    hide At, OPEN;
    var s := a + b;
    if i + |OPEN| <= |a| {
      assert a[i..i + |OPEN|] == s[i..i + |OPEN|];
      AtIsSlice(a, OPEN, i);
    } else if i >= |a| {
      assert b[i - |a|..i - |a| + |OPEN|] == s[i..i + |OPEN|];
      AtIsSlice(b, OPEN, i - |a|);
    } else {
      var n := |a| - i;
      var tag := s[i..i + |OPEN|];
      assert tag[..n] == s[i..|a|] && s[i..|a|] == a[i..];
      assert tag[n..] == s[|a|..i + |OPEN|] && s[|a|..i + |OPEN|] == b[..|OPEN| - n];
      assert Straddles(a, b, n);
    }
  }

  /** Kept text holds a tag exactly when the division splices one, as no kept stretch holds one itself. */
  lemma {:induction false} KeptHoldsTagIff(segs: seq<Segment>)
    requires forall i :: 0 <= i < |segs| && segs[i].Keep? ==> !Contains(segs[i].text, OPEN)
    ensures Contains(KeptText(segs), OPEN) <==> SplicesTag(segs)
  {
    hide Contains, Straddles, OPEN;
    if segs == [] {
      NoTagInside("");
    } else {
      var rest := segs[1..];
      KeptHoldsTagIff(rest);
      SplicesTail(segs);
      if segs[0].Keep? {
        ContainsConcat(segs[0].text, KeptText(rest));
        assert forall n :: 0 < n < |OPEN| ==>
                 (SplicedAt(segs, 0, n) <==> Straddles(segs[0].text, KeptText(rest), n));
      } else {
        assert "" + KeptText(rest) == KeptText(rest);
      }
    }
  }

  lemma {:induction false} SplicesTail(segs: seq<Segment>)
    requires segs != []
    ensures SplicesTag(segs) <==> SplicesTag(segs[1..]) || exists n :: 0 < n < |OPEN| && SplicedAt(segs, 0, n)
  {
    hide Straddles, OPEN, KeptText;
    var rest := segs[1..];
    forall i, n | 0 <= i < |rest| && 0 < n < |OPEN|
      ensures SplicedAt(rest, i, n) <==> SplicedAt(segs, i + 1, n)
    {
      assert rest[i + 1..] == segs[i + 2..];
    }
    if SplicesTag(segs) {
      var i, n :| 0 <= i < |segs| && 0 < n < |OPEN| && SplicedAt(segs, i, n);
      if i > 0 {
        assert SplicedAt(rest, i - 1, n);
      }
    }
    if SplicesTag(rest) {
      var i, n :| 0 <= i < |rest| && 0 < n < |OPEN| && SplicedAt(rest, i, n);
      assert SplicedAt(segs, i + 1, n);
    }
  }

  lemma {:induction false} KeptStretchesLackTag(s: string)
    ensures forall i :: 0 <= i < |Segments(s)| && Segments(s)[i].Keep? ==> !Contains(Segments(s)[i].text, OPEN)
    decreases |s|
  {
    FirstBlockIff(s);
    match FirstBlock(s)
    case None =>
    case Some((start, stop)) =>
      FrontLacksTag(s, start);
      if stop.Some? {
        KeptStretchesLackTag(s[stop.value..]);
      }
  }

  lemma {:induction false} FrontLacksTag(s: string, start: nat)
    requires FindFrom(s, OPEN, 0) == Some(start)
    ensures !Contains(s[..start], OPEN)
  {
    TagShape(OPEN);
    hide OPEN, FindFrom;
    forall i | 0 <= i <= start
      ensures !At(s[..start], OPEN, i)
    {
      AtIsSlice(s, OPEN, i);
      AtIsSlice(s[..start], OPEN, i);
      if i + |OPEN| <= start {
        assert s[..start][i..i + |OPEN|] == s[i..i + |OPEN|];
      }
    }
  }

  /**
   A second pass changes nothing exactly when the division of the text splices
   no opening tag together.
   */
  lemma {:induction false} SecondPassIff(s: string)
    ensures Strip(Strip(s)) == Strip(s) <==> !SplicesTag(Segments(s))
  {
    StripFixedIff(Strip(s));
    StripDivides(s);
    KeptStretchesLackTag(s);
    KeptHoldsTagIff(Segments(s));
  }

  lemma NoTagInside(s: string)
    requires |s| < 7
    ensures !Contains(s, OPEN) && !Contains(s, CLOSE)
  {
    TagShape(OPEN);
    TagShape(CLOSE);
  }
}
