/**
 Whole runs of the fstab editor. A file that starts without vaultproxy markers
 always reads as the operator's lines followed by one block per installed slug,
 in the order of the last write: it refines an ordered map in which a write
 deletes the slug and appends it anew.
 */
module FstabRuns {
  import opened Wrappers
  import opened Sequences
  import opened Text
  import opened MountValidators
  import opened MountRequest
  import opened Fstab

  datatype Command = Install(slug: string, line: string) | Uninstall(slug: string)
  {
    predicate Valid() {
      ValidSlug(slug) && (Install? ==> PlainLine(line))
    }

    function Line(): Option<string> {
      if Install? then Some(line) else None
    }
  }

  // -------------------------------------------------------------------- files

  ghost function Apply(text: string, cmd: Command): string {
    if Refused(text, cmd.slug, cmd.Line()) then text else Rewritten(text, cmd.slug, cmd.Line())
  }

  ghost function Run(text: string, cmds: seq<Command>): string
    decreases |cmds|
  {
    if cmds == [] then text else Run(Apply(text, cmds[0]), cmds[1..])
  }

  // ------------------------------------------------------------------- tables

  datatype Block = Block(slug: string, line: string)

  /** The operator's lines and the installed blocks, least recently written first. */
  datatype Table = Table(operator: seq<string>, blocks: seq<Block>)

  function Delete(blocks: seq<Block>, slug: string): (r: seq<Block>)
    ensures forall b <- r :: b in blocks && b.slug != slug
  {
    if blocks == [] then []
    else (if blocks[0].slug == slug then [] else [blocks[0]]) + Delete(blocks[1..], slug)
  }

  function Put(blocks: seq<Block>, slug: string, line: string): seq<Block> {
    Delete(blocks, slug) + [Block(slug, line)]
  }

  /** Another active line already uses the mount point of the line to install. */
  ghost predicate Occupied(t: Table, slug: string, mp: string) {
    Shadowed(t.operator, mp) || ClaimedByOther(t.blocks, slug, mp)
  }

  ghost predicate ClaimedByOther(blocks: seq<Block>, slug: string, mp: string) {
    exists i :: 0 <= i < |blocks| && blocks[i].slug != slug && Claims(blocks[i].line, mp)
  }

  ghost predicate TableRefuses(t: Table, cmd: Command) {
    cmd.Install? && Occupied(t, cmd.slug, MountPointOf(cmd.line))
  }

  ghost function TableStep(t: Table, cmd: Command): Table {
    if TableRefuses(t, cmd) then t
    else
      Table(StripCrAll(t.operator),
            match cmd
            case Install(slug, line) => Put(t.blocks, slug, line)
            case Uninstall(slug) => Delete(t.blocks, slug))
  }

  ghost function RunTable(t: Table, cmds: seq<Command>): Table
    decreases |cmds|
  {
    if cmds == [] then t else RunTable(TableStep(t, cmds[0]), cmds[1..])
  }

  function Rendered(blocks: seq<Block>): seq<string> {
    if blocks == [] then [] else BlockLines(blocks[0].slug, blocks[0].line) + Rendered(blocks[1..])
  }

  function TableLines(t: Table): seq<string> {
    t.operator + Rendered(t.blocks)
  }

  /** No line's trimmed text is a begin marker; stray end markers are harmless. */
  predicate MarkerFree(ls: seq<string>) {
    forall i :: 0 <= i < |ls| ==> !("# BEGIN vaultproxy:" <= Trim(ls[i]))
  }

  predicate ValidBlocks(blocks: seq<Block>) {
    forall i :: 0 <= i < |blocks| ==> ValidSlug(blocks[i].slug) && PlainLine(blocks[i].line)
  }

  ghost predicate WellFormed(t: Table) {
    MarkerFree(t.operator) && AllOneLine(t.operator) && ValidBlocks(t.blocks)
  }

  // ------------------------------------------------------------------ markers

  lemma {:induction false} TrimOfTrimmed(l: string)
    requires l != "" && !IsWhitespace(l[0]) && !IsWhitespace(l[|l| - 1])
    ensures Trim(l) == l
  {
  }

  lemma {:induction false} MarkersTrimmed(slug: string)
    requires ValidSlug(slug)
    ensures Trim(Begin(slug)) == Begin(slug) && Trim(End(slug)) == End(slug)
  {
    hide Trim;
    var b, e := Begin(slug), End(slug);
    var last := slug[|slug| - 1];
    assert IsSlugChar(last);
    assert b[|b| - 1] == last && e[|e| - 1] == last;
    TrimOfTrimmed(b);
    TrimOfTrimmed(e);
  }

  lemma {:induction false} MarkerLines(slug: string, other: string)
    requires ValidSlug(slug)
    ensures Trim(Begin(slug)) == Begin(slug) && Trim(End(slug)) == End(slug)
    ensures IsBegin(Begin(slug), other) <==> slug == other
    ensures IsEnd(End(slug), other) <==> slug == other
    ensures !IsBegin(End(slug), other) && !IsEnd(Begin(slug), other)
  {
    hide Trim, ValidSlug, MARKER_BEGIN, MARKER_END;
    MarkersTrimmed(slug);
    PrefixCancels(MARKER_BEGIN, slug, other);
    PrefixCancels(MARKER_END, slug, other);
    MarkersDiffer(slug, other);
    MarkersDiffer(other, slug);
  }

  lemma PrefixCancels(p: string, a: string, b: string)
    ensures p + a == p + b <==> a == b
  {
    assert (p + a)[|p|..] == a && (p + b)[|p|..] == b;
  }

  lemma MarkersDiffer(a: string, b: string)
    ensures Begin(a) != End(b)
  {
    assert Begin(a)[2] == 'B' && End(b)[2] == 'E';
  }

  lemma {:induction false} PlainIsNoMarker(l: string, slug: string)
    requires PlainLine(l)
    ensures !IsBegin(l, slug) && !IsEnd(l, slug)
  {
    TrimOfTrimmed(l);
    assert Begin(slug)[0] == '#' == End(slug)[0];
  }

  // ------------------------------------------------- the editor on lines joined

  lemma {:induction false} OpenInFront(a: seq<string>, b: seq<string>, slug: string, n: nat)
    requires n <= |a|
    ensures OpenBefore(a + b, slug, n) <==> OpenBefore(a, slug, n)
    ensures OutsideUpTo(a + b, slug, n) == OutsideUpTo(a, slug, n)
  {
    hide IsBegin, IsEnd;
    if n > 0 {
      OpenInFront(a, b, slug, n - 1);
      OpenStep(a, slug, n - 1);
      OpenStep(a + b, slug, n - 1);
    }
  }

  lemma {:induction false} OpenBehind(a: seq<string>, b: seq<string>, slug: string, n: nat)
    requires n <= |b| && !OpenBefore(a, slug, |a|)
    ensures OpenBefore(a + b, slug, |a| + n) <==> OpenBefore(b, slug, n)
    ensures OutsideUpTo(a + b, slug, |a| + n) == Outside(a, slug) + OutsideUpTo(b, slug, n)
  {
    hide IsBegin, IsEnd, OpenBefore;
    if n == 0 {
      OpenInFront(a, b, slug, |a|);
      NothingRead(b, slug);
      assert Outside(a, slug) + [] == Outside(a, slug);
    } else {
      OpenBehind(a, b, slug, n - 1);
      OpenStep(b, slug, n - 1);
      OpenStep(a + b, slug, |a| + n - 1);
      ConcatAssociative(Outside(a, slug), OutsideUpTo(b, slug, n - 1),
                        if InBlock(b, slug, n - 1) then [] else [b[n - 1]]);
    }
  }

  /** Behind lines that leave no block open, the editor starts afresh. */
  lemma {:induction false} OutsideConcat(a: seq<string>, b: seq<string>, slug: string)
    requires !Unterminated(a, slug)
    ensures Unterminated(a + b, slug) <==> Unterminated(b, slug)
    ensures Outside(a + b, slug) == Outside(a, slug) + Outside(b, slug)
  {
    OpenBehind(a, b, slug, |b|);
  }

  lemma {:induction false} OutsideUnmarked(ls: seq<string>, slug: string, n: nat)
    requires n <= |ls| && forall i :: 0 <= i < |ls| ==> !IsBegin(ls[i], slug)
    ensures !OpenBefore(ls, slug, n) && OutsideUpTo(ls, slug, n) == ls[..n]
  {
    hide IsBegin;
    if n > 0 {
      OutsideUnmarked(ls, slug, n - 1);
      assert ls[..n] == ls[..n - 1] + [ls[n - 1]];
    }
  }

  lemma {:induction false} MarkerFreeUnmarked(ls: seq<string>, slug: string)
    requires MarkerFree(ls)
    ensures !Unterminated(ls, slug) && Outside(ls, slug) == ls
  {
    forall i | 0 <= i < |ls|
      ensures !IsBegin(ls[i], slug)
    {
      assert MARKER_BEGIN <= Begin(slug);
    }
    OutsideUnmarked(ls, slug, |ls|);
    assert ls[..|ls|] == ls;
  }

  lemma {:induction false} OutsideOwnBlock(slug: string, line: string)
    requires ValidSlug(slug) && PlainLine(line)
    ensures !Unterminated(BlockLines(slug, line), slug) && Outside(BlockLines(slug, line), slug) == []
  {
    hide IsBegin, IsEnd, OpenBefore, ValidSlug, PlainLine, Begin, End;
    var ls := BlockLines(slug, line);
    MarkerLines(slug, slug);
    PlainIsNoMarker(line, slug);
    NothingRead(ls, slug);
    OpenStep(ls, slug, 0);
    OpenStep(ls, slug, 1);
    OpenStep(ls, slug, 2);
    assert OutsideUpTo(ls, slug, 0) == [];
    assert OutsideUpTo(ls, slug, 1) == [] + [];
    assert OutsideUpTo(ls, slug, 2) == [] + [];
  }

  lemma {:induction false} OutsideOtherBlock(owner: string, line: string, slug: string)
    requires ValidSlug(owner) && PlainLine(line) && owner != slug
    ensures !Unterminated(BlockLines(owner, line), slug)
    ensures Outside(BlockLines(owner, line), slug) == BlockLines(owner, line)
  {
    hide ValidSlug, PlainLine, IsBegin, IsEnd, Begin, End;
    var ls := BlockLines(owner, line);
    MarkerLines(owner, slug);
    PlainIsNoMarker(line, slug);
    OutsideUnmarked(ls, slug, 3);
    assert ls[..3] == ls;
  }

  lemma {:induction false} OutsideRendered(blocks: seq<Block>, slug: string)
    requires ValidBlocks(blocks)
    ensures !Unterminated(Rendered(blocks), slug)
    ensures Outside(Rendered(blocks), slug) == Rendered(Delete(blocks, slug))
  {
    hide ValidSlug, PlainLine, Outside, Unterminated, BlockLines;
    if blocks == [] {
      NothingOutside(slug);
    } else {
      var b, rest := blocks[0], Rendered(blocks[1..]);
      OutsideRendered(blocks[1..], slug);
      if b.slug == slug {
        OutsideOwnBlock(slug, b.line);
        assert [] + Delete(blocks[1..], slug) == Delete(blocks[1..], slug);
        assert [] + Rendered(Delete(blocks[1..], slug)) == Rendered(Delete(blocks[1..], slug));
      } else {
        OutsideOtherBlock(b.slug, b.line, slug);
        assert Delete(blocks, slug)[1..] == Delete(blocks[1..], slug);
      }
      OutsideConcat(BlockLines(b.slug, b.line), rest, slug);
    }
  }

  lemma NothingOutside(slug: string)
    ensures !Unterminated([], slug) && Outside([], slug) == []
  {
  }

  /** Deleting from the table is what the editor's scan does to the lines. */
  lemma {:induction false} OutsideTable(t: Table, slug: string)
    requires WellFormed(t)
    ensures !Unterminated(TableLines(t), slug)
    ensures Outside(TableLines(t), slug) == t.operator + Rendered(Delete(t.blocks, slug))
  {
    hide Outside, Unterminated, ValidBlocks, MarkerFree, AllOneLine;
    MarkerFreeUnmarked(t.operator, slug);
    OutsideRendered(t.blocks, slug);
    OutsideConcat(t.operator, Rendered(t.blocks), slug);
  }

  // ------------------------------------------------------------ reading it back

  lemma {:induction false} StripCrConcat(a: seq<string>, b: seq<string>)
    ensures StripCrAll(a + b) == StripCrAll(a) + StripCrAll(b)
  {
    if a == [] {
      assert a + b == b;
    } else {
      StripCrConcat(a[1..], b);
      TailOfConcat(a, b);
      ConcatAssociative([StripCr(a[0])], StripCrAll(a[1..]), StripCrAll(b));
    }
  }

  lemma {:induction false} BlockReadsBack(slug: string, line: string)
    requires ValidSlug(slug) && PlainLine(line)
    ensures StripCrAll(BlockLines(slug, line)) == BlockLines(slug, line) && AllOneLine(BlockLines(slug, line))
  {
    var ls := BlockLines(slug, line);
    assert IsSlugChar(slug[|slug| - 1]);
    assert Begin(slug)[|Begin(slug)| - 1] == slug[|slug| - 1] == End(slug)[|End(slug)| - 1];
    SlugOneLine(slug);
    assert forall i :: 0 <= i < 3 ==> StripCrAll(ls)[i] == ls[i];
  }

  lemma SlugOneLine(slug: string)
    requires ValidSlug(slug)
    ensures OneLine(Begin(slug)) && OneLine(End(slug))
  {
    CharsWithoutBreak(slug, IsSlugChar);
    assert OneLine(MARKER_BEGIN) && OneLine(MARKER_END);
  }

  lemma {:induction false} RenderedReadsBack(blocks: seq<Block>)
    requires ValidBlocks(blocks)
    ensures StripCrAll(Rendered(blocks)) == Rendered(blocks) && AllOneLine(Rendered(blocks))
  {
    hide ValidSlug, PlainLine, BlockLines, OneLine;
    if blocks != [] {
      var b, rest := blocks[0], Rendered(blocks[1..]);
      BlockReadsBack(b.slug, b.line);
      RenderedReadsBack(blocks[1..]);
      StripCrConcat(BlockLines(b.slug, b.line), rest);
    }
  }

  /** Written and read back, a table's blocks are intact and its operator lines lose a carriage return. */
  lemma {:induction false} TableReadsBack(operator: seq<string>, blocks: seq<Block>)
    requires AllOneLine(operator) && ValidBlocks(blocks)
    ensures Lines(Unlines(operator + Rendered(blocks))) == TableLines(Table(StripCrAll(operator), blocks))
  {
    hide Lines, Unlines, ValidBlocks, OneLine;
    RenderedReadsBack(blocks);
    LinesOfUnlines(operator + Rendered(blocks));
    StripCrConcat(operator, Rendered(blocks));
  }

  lemma {:induction false} RenderedPut(blocks: seq<Block>, slug: string, line: string)
    ensures Rendered(blocks + [Block(slug, line)]) == Rendered(blocks) + BlockLines(slug, line)
  {
    hide BlockLines;
    if blocks == [] {
      var one := [Block(slug, line)];
      assert [] + one == one && one[1..] == [];
      assert BlockLines(slug, line) + [] == BlockLines(slug, line) == [] + BlockLines(slug, line);
    } else {
      RenderedPut(blocks[1..], slug, line);
      assert (blocks + [Block(slug, line)])[1..] == blocks[1..] + [Block(slug, line)];
      ConcatAssociative(BlockLines(blocks[0].slug, blocks[0].line), Rendered(blocks[1..]), BlockLines(slug, line));
    }
  }

  // ---------------------------------------------------------------- shadowing

  lemma {:induction false} ShadowedConcat(a: seq<string>, b: seq<string>, mp: string)
    ensures Shadowed(a + b, mp) <==> Shadowed(a, mp) || Shadowed(b, mp)
  {
    hide Claims;
    if Shadowed(a, mp) {
      var i :| 0 <= i < |a| && Claims(a[i], mp);
      assert (a + b)[i] == a[i];
    }
    if Shadowed(b, mp) {
      var i :| 0 <= i < |b| && Claims(b[i], mp);
      assert (a + b)[|a| + i] == b[i];
    }
    if Shadowed(a + b, mp) {
      var i :| 0 <= i < |a + b| && Claims((a + b)[i], mp);
      assert (a + b)[i] == if i < |a| then a[i] else b[i - |a|];
    }
  }

  lemma {:induction false} ShadowedIgnoresCr(ls: seq<string>, mp: string)
    ensures Shadowed(StripCrAll(ls), mp) <==> Shadowed(ls, mp)
  {
    forall i | 0 <= i < |ls|
      ensures Claims(StripCrAll(ls)[i], mp) <==> Claims(ls[i], mp)
    {
      TrimIgnoresCr(ls[i]);
    }
  }

  /** Of a block's lines only the middle one can claim a mount point. */
  lemma {:induction false} ShadowedBlock(slug: string, line: string, mp: string)
    requires ValidSlug(slug)
    ensures Shadowed(BlockLines(slug, line), mp) <==> Claims(line, mp)
  {
    hide SecondField, ValidSlug, Begin, End;
    var ls := BlockLines(slug, line);
    MarkersInactive(slug);
    assert ls[1] == line;
  }

  lemma MarkersInactive(slug: string)
    requires ValidSlug(slug)
    ensures !Active(Begin(slug)) && !Active(End(slug))
  {
    MarkerLines(slug, slug);
    assert Begin(slug)[0] == '#' == End(slug)[0];
  }

  lemma {:induction false} ShadowedRendered(blocks: seq<Block>, slug: string, mp: string)
    requires ValidBlocks(blocks)
    ensures Shadowed(Rendered(Delete(blocks, slug)), mp) <==>
            ClaimedByOther(blocks, slug, mp)
  {
    hide Claims, PlainLine, ValidSlug, BlockLines, Shadowed;
    if blocks == [] {
      NothingShadowed(mp);
    } else {
      var b, rest := blocks[0], Delete(blocks[1..], slug);
      ShadowedRendered(blocks[1..], slug, mp);
      ClaimedStep(blocks, slug, mp);
      hide ClaimedByOther;
      if b.slug == slug {
        assert [] + rest == rest;
      } else {
        assert Delete(blocks, slug)[1..] == rest;
        ShadowedBlock(b.slug, b.line, mp);
        ShadowedConcat(BlockLines(b.slug, b.line), Rendered(rest), mp);
      }
    }
  }

  lemma ClaimedStep(blocks: seq<Block>, slug: string, mp: string)
    requires blocks != []
    ensures ClaimedByOther(blocks, slug, mp) <==>
            (blocks[0].slug != slug && Claims(blocks[0].line, mp)) || ClaimedByOther(blocks[1..], slug, mp)
  {
    hide Claims;
    assert blocks == [blocks[0]] + blocks[1..];
  }

  lemma NothingShadowed(mp: string)
    ensures !Shadowed([], mp)
  {
  }

  /** The editor refuses exactly when the table says the mount point is taken. */
  lemma {:induction false} RefusalAgrees(text: string, t: Table, cmd: Command)
    requires Lines(text) == TableLines(t) && WellFormed(t) && cmd.Valid()
    ensures Refused(text, cmd.slug, cmd.Line()) <==> TableRefuses(t, cmd)
  {
    hide Lines, Unlines, Outside, Unterminated, Shadowed, ValidBlocks, OneLine, MarkerFree;
    OutsideTable(t, cmd.slug);
    if cmd.Install? {
      var mp := MountPointOf(cmd.line);
      var left := Delete(t.blocks, cmd.slug);
      DeleteKeepsValid(t.blocks, cmd.slug);
      TableReadsBack(t.operator, left);
      ShadowedConcat(StripCrAll(t.operator), Rendered(left), mp);
      ShadowedIgnoresCr(t.operator, mp);
      ShadowedRendered(t.blocks, cmd.slug, mp);
    }
  }

  lemma {:induction false} DeleteKeepsValid(blocks: seq<Block>, slug: string)
    requires ValidBlocks(blocks)
    ensures ValidBlocks(Delete(blocks, slug))
  {
    var d := Delete(blocks, slug);
    forall i | 0 <= i < |d|
      ensures ValidSlug(d[i].slug) && PlainLine(d[i].line)
    {
      assert d[i] in blocks;
      var j :| 0 <= j < |blocks| && blocks[j] == d[i];
    }
  }

  lemma {:induction false} StripCrKeepsMarkerFree(ls: seq<string>)
    requires MarkerFree(ls) && AllOneLine(ls)
    ensures MarkerFree(StripCrAll(ls)) && AllOneLine(StripCrAll(ls))
  {
    forall i | 0 <= i < |ls|
      ensures !(MARKER_BEGIN <= Trim(StripCrAll(ls)[i])) && OneLine(StripCrAll(ls)[i])
    {
      TrimIgnoresCr(ls[i]);
      assert OneLine(ls[i]);
    }
  }

  // --------------------------------------------------------------- refinement

  /** One command on the file is one step of the table. */
  lemma {:induction false} StepRefines(text: string, t: Table, cmd: Command)
    requires Lines(text) == TableLines(t) && WellFormed(t) && cmd.Valid()
    ensures Lines(Apply(text, cmd)) == TableLines(TableStep(t, cmd))
    ensures WellFormed(TableStep(t, cmd))
  {
    hide Lines, Unlines, Outside, Refused, TableRefuses, BlockLines;
    hide MarkerFree, OneLine, AllOneLine, ValidSlug, PlainLine;
    RefusalAgrees(text, t, cmd);
    if !TableRefuses(t, cmd) {
      var left := Delete(t.blocks, cmd.slug);
      OutsideTable(t, cmd.slug);
      DeleteKeepsValid(t.blocks, cmd.slug);
      StripCrKeepsMarkerFree(t.operator);
      match cmd
      case Uninstall(_) =>
        assert t.operator + Rendered(left) + [] == t.operator + Rendered(left);
        TableReadsBack(t.operator, left);
      case Install(slug, line) =>
        var blocks := left + [Block(slug, line)];
        RenderedPut(left, slug, line);
        ConcatAssociative(t.operator, Rendered(left), BlockLines(slug, line));
        TableReadsBack(t.operator, blocks);
    }
  }

  /**
   Every run of commands on a file without begin markers keeps the file equal
   to the table: operator lines first, then the blocks by last write.
   */
  lemma {:induction false} RunRefines(text: string, t: Table, cmds: seq<Command>)
    requires Lines(text) == TableLines(t) && WellFormed(t)
    requires forall i :: 0 <= i < |cmds| ==> cmds[i].Valid()
    ensures Lines(Run(text, cmds)) == TableLines(RunTable(t, cmds))
    ensures WellFormed(RunTable(t, cmds))
    decreases |cmds|
  {
    hide Lines, TableLines, WellFormed, Apply, TableStep;
    if cmds != [] {
      StepRefines(text, t, cmds[0]);
      RunRefines(Apply(text, cmds[0]), TableStep(t, cmds[0]), cmds[1..]);
    }
  }

  /** The table that a file without begin markers starts from. */
  function StartTable(text: string): Table {
    Table(Lines(text), [])
  }

  /** Three lines for each block, in order: begin marker, line, end marker. */
  ghost predicate RendersBlocks(ls: seq<string>, blocks: seq<Block>) {
    && |ls| == 3 * |blocks|
    && forall k :: 0 <= k < |blocks| ==>
         && ls[3 * k] == "# BEGIN vaultproxy:" + blocks[k].slug
         && ls[3 * k + 1] == blocks[k].line
         && ls[3 * k + 2] == "# END vaultproxy:" + blocks[k].slug
  }

  lemma {:induction false} RenderedAre(blocks: seq<Block>)
    ensures RendersBlocks(Rendered(blocks), blocks)
  {
    if blocks != [] {
      RenderedAre(blocks[1..]);
      var front, rest := BlockLines(blocks[0].slug, blocks[0].line), Rendered(blocks[1..]);
      hide Begin, End;
      forall k | 0 <= k < |blocks|
        ensures k > 0 ==> (front + rest)[3 * k] == rest[3 * (k - 1)]
        ensures k > 0 ==> (front + rest)[3 * k + 1] == rest[3 * (k - 1) + 1]
        ensures k > 0 ==> (front + rest)[3 * k + 2] == rest[3 * (k - 1) + 2]
        ensures k > 0 ==> blocks[k] == blocks[1..][k - 1]
      {
      }
    }
  }

  /** The whole-run law from the start: any marker-free file, any valid commands. */
  lemma {:induction false} FileIsOrderedMap(text: string, cmds: seq<Command>)
    requires MarkerFree(Lines(text))
    requires forall i :: 0 <= i < |cmds| ==> cmds[i].Valid()
    ensures var t := RunTable(StartTable(text), cmds);
            Lines(Run(text, cmds)) == t.operator + Rendered(t.blocks) && RendersBlocks(Rendered(t.blocks), t.blocks)
    ensures DistinctSlugs(RunTable(StartTable(text), cmds).blocks)
    ensures NoMountPointTwice(RunTable(StartTable(text), cmds))
  {
    var t := StartTable(text);
    LinesAreOneLine(text);
    assert t.operator + [] == t.operator;
    RunRefines(text, t, cmds);
    RunKeepsUnique(t, cmds);
    RenderedAre(RunTable(t, cmds).blocks);
  }

  /**
   A validated mount request installs a line for its own mount point, and the
   install is a valid command exactly when the credentials directory is on one line.
   */
  lemma {:induction false} MountIsCommand(req: Request)
    requires req.action == "mount" && Validated(req)
    ensures Install(req.slug, BuildFstabLine(req)).Valid() <==> OneLine(req.credsDir)
    ensures MountPointOf(BuildFstabLine(req)) == req.mountPoint
  {
    hide Words, ValidSlug, ValidCredsDir, ValidAbsPath, ByteLen, PlainLine;
    BuiltLineIsPlainIff(req);
    ShareIsWord(req.share);
    PathIsWord(req.share);
    PathIsWord(req.mountPoint);
    var tail := "cifs" + " " + (Join(MountOptions(req), ',') + " " + "0 0");
    WordsStep(req.share, req.mountPoint + " " + tail);
    WordsStep(req.mountPoint, tail);
  }

  // --------------------------------------------------------- operator's lines

  /** Some command of the run is accepted. */
  ghost predicate SomeAccepted(t: Table, cmds: seq<Command>)
    decreases |cmds|
  {
    cmds != [] && (!TableRefuses(t, cmds[0]) || SomeAccepted(t, cmds[1..]))
  }

  lemma {:induction false} OperatorShrinks(t: Table, cmds: seq<Command>)
    ensures var ops := RunTable(t, cmds).operator;
            |ops| == |t.operator|
            && forall i :: 0 <= i < |ops| ==> |ops[i]| <= |t.operator[i]|
    ensures SomeAccepted(t, cmds) ==>
              var ops := RunTable(t, cmds).operator;
              forall i :: 0 <= i < |ops| ==> |ops[i]| <= |StripCr(t.operator[i])|
    ensures !SomeAccepted(t, cmds) ==> RunTable(t, cmds) == t
    decreases |cmds|
  {
    hide TableRefuses, StripCr, CrFree;
    if cmds != [] {
      StripCrShrinks(t.operator);
      OperatorShrinks(TableStep(t, cmds[0]), cmds[1..]);
    }
  }

  lemma StripCrShrinks(ls: seq<string>)
    ensures forall i :: 0 <= i < |ls| ==> |StripCr(ls[i])| <= |ls[i]|
  {
  }

  lemma {:induction false} CrFreeOperatorStays(t: Table, cmds: seq<Command>)
    requires CrFree(t.operator)
    ensures RunTable(t, cmds).operator == t.operator
    decreases |cmds|
  {
    hide TableStep, CrFree;
    if cmds != [] {
      CrFreeStays(t, cmds[0]);
      CrFreeOperatorStays(TableStep(t, cmds[0]), cmds[1..]);
    }
  }

  /**
   The operator's lines survive a run unchanged exactly when no line ends in a
   carriage return of its own, or every command was refused.
   */
  lemma {:induction false} OperatorLinesKeptIff(t: Table, cmds: seq<Command>)
    ensures RunTable(t, cmds).operator == t.operator <==> CrFree(t.operator) || !SomeAccepted(t, cmds)
  {
    OperatorShrinks(t, cmds);
    if CrFree(t.operator) {
      CrFreeOperatorStays(t, cmds);
    }
    if RunTable(t, cmds).operator == t.operator && SomeAccepted(t, cmds) {
      forall l | l in t.operator
        ensures StripCr(l) == l
      {
        var i :| 0 <= i < |t.operator| && t.operator[i] == l;
        assert |RunTable(t, cmds).operator[i]| <= |StripCr(t.operator[i])|;
      }
    }
  }

  lemma CrLine()
    ensures Lines("x\r\r\n") == ["x\r"] && StripCrAll(["x\r"]) == ["x"]
  {
    NoLineText();
    hide Lines;
    LinesStep("x\r\r", "");
    assert "x\r\r" + ['\n'] + "" == "x\r\r\n";
    assert "x\r\r"[..2] == "x\r" && "x\r"[..1] == "x";
    hide StripCrAll;
    assert StripCrAll(["x\r"])[0] == "x";
  }

  lemma CrLineIsNoMarker()
    ensures MarkerFree(["x\r"])
  {
    TrimIgnoresCr("x\r");
    TrimOfTrimmed("x");
    assert "x\r"[..1] == "x" && MARKER_BEGIN[0] == '#';
  }

  /** A file whose one line loses a carriage return by an accepted command. */
  lemma {:induction false} OperatorLineCanChange()
    ensures Lines("x\r\r\n") == ["x\r"]
    ensures Lines(Run("x\r\r\n", [Uninstall("a")])) == ["x"]
  {
    hide Lines, Trim, StripCrAll;
    var text, cmd := "x\r\r\n", Uninstall("a");
    var t := Table(["x\r"], []);
    CrLine();
    CrLineIsNoMarker();
    LinesAreOneLine(text);
    assert t.operator + [] == t.operator;
    TwoCommands(t, cmd, cmd);
    RunRefines(text, t, [cmd]);
    assert TableLines(TableStep(t, cmd)) == ["x"] + [];
  }

  // -------------------------------------------------------------- the map laws

  ghost predicate DistinctSlugs(blocks: seq<Block>) {
    forall i, j :: 0 <= i < j < |blocks| ==> blocks[i].slug != blocks[j].slug
  }

  /** No managed line's mount point is the second field of another active line. */
  ghost predicate NoMountPointTwice(t: Table) {
    && (forall i :: 0 <= i < |t.blocks| ==> !Shadowed(t.operator, MountPointOf(t.blocks[i].line)))
    && (forall i, j :: 0 <= i < |t.blocks| && 0 <= j < |t.blocks| && i != j ==>
          !Claims(t.blocks[j].line, MountPointOf(t.blocks[i].line)))
  }

  lemma {:induction false} DeleteKeepsDistinct(blocks: seq<Block>, slug: string)
    requires DistinctSlugs(blocks)
    ensures DistinctSlugs(Delete(blocks, slug))
  {
    if blocks != [] {
      DeleteKeepsDistinct(blocks[1..], slug);
      var d := Delete(blocks, slug);
      var rest := Delete(blocks[1..], slug);
      if blocks[0].slug != slug {
        forall j | 0 < j < |d|
          ensures d[0].slug != d[j].slug
        {
          assert d[j] == rest[j - 1] && rest[j - 1] in blocks[1..];
          var k :| 0 <= k < |blocks[1..]| && blocks[1..][k] == rest[j - 1];
          assert blocks[k + 1] == rest[j - 1];
        }
      } else {
        assert d == rest;
      }
    }
  }

  lemma {:induction false} DeleteKeepsUnique(t: Table, slug: string)
    requires DistinctSlugs(t.blocks) && NoMountPointTwice(t)
    ensures NoMountPointTwice(t.(blocks := Delete(t.blocks, slug)))
  {
    hide Claims, Shadowed, MountPointOf;
    var d := Delete(t.blocks, slug);
    DeleteKeepsDistinct(t.blocks, slug);
    forall i | 0 <= i < |d|
      ensures !Shadowed(t.operator, MountPointOf(d[i].line))
    {
      var a := IndexIn(t.blocks, d[i]);
    }
    forall i, j | 0 <= i < |d| && 0 <= j < |d| && i != j
      ensures !Claims(d[j].line, MountPointOf(d[i].line))
    {
      var a, b := IndexIn(t.blocks, d[i]), IndexIn(t.blocks, d[j]);
      assert d[i].slug != d[j].slug;
    }
  }

  ghost function IndexIn(blocks: seq<Block>, b: Block): (i: nat)
    requires b in blocks
    ensures i < |blocks| && blocks[i] == b
  {
    var i :| 0 <= i < |blocks| && blocks[i] == b;
    i
  }

  /** Between trimmed lines, claiming each other's mount point is symmetric. */
  lemma {:induction false} ClaimsSymmetric(l: string, m: string)
    requires PlainLine(l) && PlainLine(m)
    requires Claims(l, MountPointOf(m))
    ensures Claims(m, MountPointOf(l))
  {
    TrimOfTrimmed(l);
    TrimOfTrimmed(m);
    assert Words(l)[1] in Words(l);
  }

  lemma {:induction false} StepKeepsUnique(t: Table, cmd: Command)
    requires WellFormed(t) && cmd.Valid() && DistinctSlugs(t.blocks) && NoMountPointTwice(t)
    ensures DistinctSlugs(TableStep(t, cmd).blocks) && NoMountPointTwice(TableStep(t, cmd))
  {
    hide Claims, Shadowed, MountPointOf, ValidSlug, PlainLine, MarkerFree, AllOneLine;
    if !TableRefuses(t, cmd) {
      var left := Delete(t.blocks, cmd.slug);
      var u := TableStep(t, cmd);
      DeleteKeepsDistinct(t.blocks, cmd.slug);
      DeleteKeepsUnique(t, cmd.slug);
      assert forall i :: 0 <= i < |left| ==> left[i] in left;
      forall i | 0 <= i < |u.blocks|
        ensures !Shadowed(u.operator, MountPointOf(u.blocks[i].line))
      {
        ShadowedIgnoresCr(t.operator, MountPointOf(u.blocks[i].line));
        assert i < |left| ==> u.blocks[i] == left[i];
      }
      if cmd.Install? {
        forall i | 0 <= i < |left|
          ensures !Claims(left[i].line, MountPointOf(cmd.line))
          ensures !Claims(cmd.line, MountPointOf(left[i].line))
        {
          var k := IndexIn(t.blocks, left[i]);
          assert PlainLine(t.blocks[k].line);
          if Claims(cmd.line, MountPointOf(left[i].line)) {
            ClaimsSymmetric(cmd.line, left[i].line);
          }
        }
      }
    }
  }

  lemma {:induction false} RunKeepsUnique(t: Table, cmds: seq<Command>)
    requires WellFormed(t) && DistinctSlugs(t.blocks) && NoMountPointTwice(t)
    requires forall i :: 0 <= i < |cmds| ==> cmds[i].Valid()
    ensures DistinctSlugs(RunTable(t, cmds).blocks) && NoMountPointTwice(RunTable(t, cmds))
    decreases |cmds|
  {
    hide DistinctSlugs, NoMountPointTwice, WellFormed, TableStep;
    if cmds != [] {
      StepKeepsUnique(t, cmds[0]);
      StepKeepsWellFormed(t, cmds[0]);
      RunKeepsUnique(TableStep(t, cmds[0]), cmds[1..]);
    }
  }

  lemma {:induction false} StepKeepsWellFormed(t: Table, cmd: Command)
    requires WellFormed(t) && cmd.Valid()
    ensures WellFormed(TableStep(t, cmd))
  {
    hide ValidSlug, PlainLine, MarkerFree, AllOneLine, TableRefuses;
    StripCrKeepsMarkerFree(t.operator);
    DeleteKeepsValid(t.blocks, cmd.slug);
  }

  lemma {:induction false} DeleteTwice(blocks: seq<Block>, a: string, b: string)
    ensures Delete(Delete(blocks, a), b) == Delete(Delete(blocks, b), a)
    ensures Delete(Delete(blocks, a), a) == Delete(blocks, a)
  {
    if blocks != [] {
      DeleteTwice(blocks[1..], a, b);
      var h, rest := blocks[0], blocks[1..];
      DeleteConcat([h], rest, a);
      DeleteConcat([h], rest, b);
      DeleteConcat(Delete([h], a), Delete(rest, a), b);
      DeleteConcat(Delete([h], b), Delete(rest, b), a);
      DeleteConcat(Delete([h], a), Delete(rest, a), a);
      assert blocks == [h] + rest;
      assert Delete([h], a) == (if h.slug == a then [] else [h]) + Delete([h][1..], a);
    }
  }

  lemma {:induction false} DeleteConcat(x: seq<Block>, y: seq<Block>, slug: string)
    ensures Delete(x + y, slug) == Delete(x, slug) + Delete(y, slug)
  {
    if x == [] {
      assert x + y == y;
      assert [] + Delete(y, slug) == Delete(y, slug);
    } else {
      DeleteConcat(x[1..], y, slug);
      TailOfConcat(x, y);
      ConcatAssociative(if x[0].slug == slug then [] else [x[0]], Delete(x[1..], slug), Delete(y, slug));
    }
  }

  lemma {:induction false} DeleteAbsent(blocks: seq<Block>, slug: string)
    requires forall i :: 0 <= i < |blocks| ==> blocks[i].slug != slug
    ensures Delete(blocks, slug) == blocks
  {
    if blocks != [] {
      DeleteAbsent(blocks[1..], slug);
      assert blocks == [blocks[0]] + blocks[1..];
    }
  }

  lemma {:induction false} DeletePut(blocks: seq<Block>, slug: string, line: string)
    ensures Delete(Put(blocks, slug, line), slug) == Delete(blocks, slug)
  {
    DeleteConcat(Delete(blocks, slug), [Block(slug, line)], slug);
    DeleteTwice(blocks, slug, slug);
    assert [Block(slug, line)][1..] == [];
    assert Delete(blocks, slug) + [] == Delete(blocks, slug);
  }

  /** What a command did to its slug has no say in whether a later command for the slug is refused. */
  lemma {:induction false} OwnWriteNeverRefuses(t: Table, cmd: Command, slug: string, mp: string)
    requires cmd.slug == slug
    ensures Occupied(TableStep(t, cmd), slug, mp) <==> Occupied(t, slug, mp)
  {
    hide Claims, Shadowed, TableRefuses, ClaimedByOther;
    if !TableRefuses(t, cmd) {
      var u := TableStep(t, cmd);
      ShadowedIgnoresCr(t.operator, mp);
      OthersClaim(t.blocks, slug, mp);
      OthersClaim(u.blocks, slug, mp);
      if cmd.Install? {
        DeletePut(t.blocks, slug, cmd.line);
      } else {
        DeleteTwice(t.blocks, slug, slug);
      }
    }
  }

  /** The other slugs' claims are those of the blocks left by deleting the slug. */
  lemma {:induction false} OthersClaim(blocks: seq<Block>, slug: string, mp: string)
    ensures ClaimedByOther(blocks, slug, mp) <==> exists b :: b in Delete(blocks, slug) && Claims(b.line, mp)
  {
    hide Claims;
    if blocks != [] {
      OthersClaim(blocks[1..], slug, mp);
      ClaimedStep(blocks, slug, mp);
      hide ClaimedByOther;
    }
  }

  lemma TwoCommands(t: Table, c: Command, d: Command)
    ensures RunTable(t, [c]) == TableStep(t, c)
    ensures RunTable(t, [c, d]) == TableStep(TableStep(t, c), d)
  {
    hide TableStep;
    assert [c][1..] == [] && [c, d][1..] == [d] && [d][1..] == [];
    assert RunTable(TableStep(t, c), [d]) == TableStep(TableStep(t, c), d);
  }

  lemma {:induction false} CrFreeStays(t: Table, cmd: Command)
    requires CrFree(t.operator)
    ensures TableStep(t, cmd).operator == t.operator
  {
    hide TableRefuses;
    forall i | 0 <= i < |t.operator|
      ensures StripCr(t.operator[i]) == t.operator[i]
    {
      assert t.operator[i] in t.operator;
    }
    assert StripCrAll(t.operator) == t.operator;
  }

  /**
   A second install of a slug replaces the first, or is refused and leaves it:
   it is refused whether or not the first happened. Writing is thus idempotent.
   Operator lines agree unless one ends in a carriage return.
   */
  lemma {:induction false} LastWriteWins(t: Table, slug: string, first: string, second: string)
    ensures var c, d := Install(slug, first), Install(slug, second);
            && (TableRefuses(TableStep(t, c), d) <==> TableRefuses(t, d))
            && (TableRefuses(t, d) ==> RunTable(t, [c, d]) == RunTable(t, [c]))
            && (!TableRefuses(t, d) ==> RunTable(t, [c, d]).blocks == RunTable(t, [d]).blocks)
            && (!TableRefuses(t, d) && CrFree(t.operator) ==> RunTable(t, [c, d]) == RunTable(t, [d]))
  {
    var c, d := Install(slug, first), Install(slug, second);
    hide Occupied, Claims, MountPointOf;
    TwoCommands(t, c, d);
    TwoCommands(t, d, d);
    OwnWriteNeverRefuses(t, c, slug, MountPointOf(second));
    DeletePut(t.blocks, slug, first);
    if CrFree(t.operator) {
      CrFreeStays(t, c);
      CrFreeStays(t, d);
    }
  }

  /** Installing a slug that was not there and removing it again, refused or not, restores the table. */
  lemma {:induction false} RemoveUndoesInstall(t: Table, slug: string, line: string)
    requires forall i :: 0 <= i < |t.blocks| ==> t.blocks[i].slug != slug
    ensures var u := RunTable(t, [Install(slug, line), Uninstall(slug)]);
            && u.blocks == t.blocks
            && (CrFree(t.operator) ==> u == t)
  {
    var c, d := Install(slug, line), Uninstall(slug);
    hide Occupied;
    TwoCommands(t, c, d);
    DeletePut(t.blocks, slug, line);
    DeleteAbsent(t.blocks, slug);
    if CrFree(t.operator) {
      CrFreeStays(t, c);
      CrFreeStays(TableStep(t, c), d);
    }
  }

  /** The blocks of one slug. */
  function Only(blocks: seq<Block>, slug: string): seq<Block> {
    if blocks == [] then []
    else (if blocks[0].slug == slug then [blocks[0]] else []) + Only(blocks[1..], slug)
  }

  lemma {:induction false} OnlyConcat(x: seq<Block>, y: seq<Block>, slug: string)
    ensures Only(x + y, slug) == Only(x, slug) + Only(y, slug)
  {
    if x == [] {
      assert x + y == y;
      assert [] + Only(y, slug) == Only(y, slug);
    } else {
      OnlyConcat(x[1..], y, slug);
      TailOfConcat(x, y);
      ConcatAssociative(if x[0].slug == slug then [x[0]] else [], Only(x[1..], slug), Only(y, slug));
    }
  }

  lemma {:induction false} OnlyDelete(blocks: seq<Block>, slug: string, other: string)
    ensures Only(Delete(blocks, other), slug) == if slug == other then [] else Only(blocks, slug)
  {
    if blocks != [] {
      OnlyDelete(blocks[1..], slug, other);
      var front := if blocks[0].slug == other then [] else [blocks[0]];
      OnlyConcat(front, Delete(blocks[1..], other), slug);
      assert front != [] ==> front[1..] == [];
    }
  }

  lemma {:induction false} OnlyStep(t: Table, cmd: Command, slug: string)
    ensures Only(TableStep(t, cmd).blocks, slug) ==
            if cmd.slug != slug || TableRefuses(t, cmd) then Only(t.blocks, slug)
            else if cmd.Install? then [Block(slug, cmd.line)]
            else []
  {
    hide TableRefuses;
    OnlyDelete(t.blocks, slug, cmd.slug);
    if cmd.Install? {
      var b := Block(cmd.slug, cmd.line);
      OnlyConcat(Delete(t.blocks, cmd.slug), [b], slug);
      assert [b][1..] == [];
    }
  }

  /**
   A run that does not name a slug leaves its block alone, and a run for one slug
   only leaves all the others' blocks and their order alone.
   */
  lemma {:induction false} OthersUnaffected(t: Table, cmds: seq<Command>, slug: string)
    ensures (forall i :: 0 <= i < |cmds| ==> cmds[i].slug != slug) ==>
              Only(RunTable(t, cmds).blocks, slug) == Only(t.blocks, slug)
    ensures (forall i :: 0 <= i < |cmds| ==> cmds[i].slug == slug) ==>
              Delete(RunTable(t, cmds).blocks, slug) == Delete(t.blocks, slug)
    decreases |cmds|
  {
    hide TableRefuses, Only, Delete;
    if cmds != [] {
      var cmd := cmds[0];
      OthersUnaffected(TableStep(t, cmd), cmds[1..], slug);
      OnlyStep(t, cmd, slug);
      DeleteTwice(t.blocks, slug, slug);
      if cmd.Install? {
        DeletePut(t.blocks, cmd.slug, cmd.line);
      }
    }
  }

  /** The line that the run's last accepted command for the slug leaves, from what was there before. */
  ghost function LastWrite(t: Table, cmds: seq<Command>, slug: string): seq<Block>
    decreases |cmds|
  {
    if cmds == [] then Only(t.blocks, slug)
    else
      var init, cmd := cmds[..|cmds| - 1], cmds[|cmds| - 1];
      if cmd.slug != slug || TableRefuses(RunTable(t, init), cmd) then LastWrite(t, init, slug)
      else if cmd.Install? then [Block(slug, cmd.line)]
      else []
  }

  /** After any run, a slug's block is what the last accepted command for it left. */
  lemma {:induction false} BlockIsLastWrite(t: Table, cmds: seq<Command>, slug: string)
    ensures Only(RunTable(t, cmds).blocks, slug) == LastWrite(t, cmds, slug)
    decreases |cmds|
  {
    hide TableRefuses, TableStep, Only;
    if cmds != [] {
      var init, cmd := cmds[..|cmds| - 1], cmds[|cmds| - 1];
      BlockIsLastWrite(t, init, slug);
      RunTableLast(t, init, cmd);
      assert init + [cmd] == cmds;
      OnlyStep(RunTable(t, init), cmd, slug);
    }
  }

  lemma {:induction false} RunTableLast(t: Table, cmds: seq<Command>, cmd: Command)
    ensures RunTable(t, cmds + [cmd]) == TableStep(RunTable(t, cmds), cmd)
    decreases |cmds|
  {
    hide TableStep;
    if cmds == [] {
      assert cmds + [cmd] == [cmd] && [cmd][1..] == [];
    } else {
      RunTableLast(TableStep(t, cmds[0]), cmds[1..], cmd);
      TailOfConcat(cmds, [cmd]);
    }
  }

  /**
   On an arbitrary file, a rewrite that is not refused keeps the lines outside
   the slug's block in order, up to the carriage returns that reading drops.
   */
  lemma {:induction false} RewriteKeepsOutside(text: string, slug: string, line: Option<string>)
    requires ValidSlug(slug) && (line.Some? ==> PlainLine(line.value))
    ensures Lines(Rewritten(text, slug, line)) == StripCrAll(Outside(Lines(text), slug)) + NewBlock(slug, line)
  {
    hide ValidSlug, PlainLine, Lines, Unlines, OutsideUpTo, BlockLines, OneLine;
    var kept := Outside(Lines(text), slug);
    LinesAreOneLine(text);
    OutsideOneLine(Lines(text), slug, |Lines(text)|);
    if line.Some? {
      BlockReadsBack(slug, line.value);
    }
    LinesOfUnlines(kept + NewBlock(slug, line));
    StripCrConcat(kept, NewBlock(slug, line));
  }

  // ------------------------------------------- refusal and rewrite, line by line

  /** The line is a begin marker of the slug, or one stands before it with no end marker in between. */
  ghost predicate Covered(ls: seq<string>, slug: string, i: nat) {
    exists j :: 0 <= j <= i < |ls| && Trim(ls[j]) == "# BEGIN vaultproxy:" + slug
                && forall k :: j < k < i ==> Trim(ls[k]) != "# END vaultproxy:" + slug
  }

  /** A begin marker of the slug that no end marker follows. */
  ghost predicate LeftOpen(ls: seq<string>, slug: string) {
    exists j :: 0 <= j < |ls| && Trim(ls[j]) == "# BEGIN vaultproxy:" + slug
                && forall k :: j < k < |ls| ==> Trim(ls[k]) != "# END vaultproxy:" + slug
  }

  lemma {:induction false} CoveredIff(ls: seq<string>, slug: string, i: nat)
    requires i < |ls|
    ensures Covered(ls, slug, i) <==> InBlock(ls, slug, i)
  {
    hide Trim;
    if InBlock(ls, slug, i) && !IsBegin(ls[i], slug) {
      var j :| 0 <= j < i && IsBegin(ls[j], slug) && NoEndBetween(ls, slug, j, i);
      assert forall k :: j < k < i ==> !IsEnd(ls[k], slug);
    }
    if Covered(ls, slug, i) {
      var j :| 0 <= j <= i < |ls| && Trim(ls[j]) == "# BEGIN vaultproxy:" + slug
               && forall k :: j < k < i ==> Trim(ls[k]) != "# END vaultproxy:" + slug;
      assert IsBegin(ls[j], slug);
      assert j < i ==> NoEndBetween(ls, slug, j, i);
    }
  }

  lemma {:induction false} LeftOpenIff(ls: seq<string>, slug: string)
    ensures LeftOpen(ls, slug) <==> Unterminated(ls, slug)
  {
    hide Trim;
    if LeftOpen(ls, slug) {
      var j :| 0 <= j < |ls| && Trim(ls[j]) == "# BEGIN vaultproxy:" + slug
               && forall k :: j < k < |ls| ==> Trim(ls[k]) != "# END vaultproxy:" + slug;
      assert IsBegin(ls[j], slug) && NoEndBetween(ls, slug, j, |ls|);
    }
    if Unterminated(ls, slug) {
      var j :| 0 <= j < |ls| && IsBegin(ls[j], slug) && NoEndBetween(ls, slug, j, |ls|);
      assert forall k :: j < k < |ls| ==> !IsEnd(ls[k], slug);
    }
  }

  /** The kept lines are those that are not covered, in order. */
  ghost predicate KeptAt(ls: seq<string>, slug: string, n: nat, kept: seq<string>, places: seq<nat>)
    requires n <= |ls|
  {
    && |kept| == |places|
    && (forall a, b :: 0 <= a < b < |places| ==> places[a] < places[b])
    && (forall i: nat :: i in places <==> i < n && !Covered(ls, slug, i))
    && (forall k :: 0 <= k < |places| ==> places[k] < n && kept[k] == ls[places[k]])
  }

  lemma {:induction false} OutsideUpToIs(ls: seq<string>, slug: string, n: nat) returns (places: seq<nat>)
    requires n <= |ls|
    ensures KeptAt(ls, slug, n, OutsideUpTo(ls, slug, n), places)
  {
    hide Covered, InBlock;
    if n == 0 {
      places := [];
    } else {
      places := OutsideUpToIs(ls, slug, n - 1);
      CoveredIff(ls, slug, n - 1);
      if !InBlock(ls, slug, n - 1) {
        places := places + [n - 1];
      } else {
        assert OutsideUpTo(ls, slug, n - 1) + [] == OutsideUpTo(ls, slug, n - 1);
      }
    }
  }

  /**
   The editor refuses exactly when a block of the slug is left open, or when a
   line that is in none of its blocks claims the mount point of the new line.
   */
  lemma {:induction false} RefusedIff(text: string, slug: string, line: Option<string>)
    ensures var ls := Lines(text);
            Refused(text, slug, line) <==>
            || LeftOpen(ls, slug)
            || (line.Some? && exists i :: 0 <= i < |ls| && !Covered(ls, slug, i)
                                          && Claims(ls[i], MountPointOf(line.value)))
  {
    hide Lines, Unlines, Covered, Claims, MountPointOf, LeftOpen, Unterminated, OutsideUpTo;
    var ls := Lines(text);
    LeftOpenIff(ls, slug);
    if line.Some? {
      var mp := MountPointOf(line.value);
      var kept := Outside(ls, slug);
      var places := OutsideUpToIs(ls, slug, |ls|);
      LinesAreOneLine(text);
      OutsideOneLine(ls, slug, |ls|);
      LinesOfUnlines(kept);
      ShadowedIgnoresCr(kept, mp);
      if Shadowed(kept, mp) {
        var k :| 0 <= k < |kept| && Claims(kept[k], mp);
        assert places[k] in places;
      }
      if i :| 0 <= i < |ls| && !Covered(ls, slug, i) && Claims(ls[i], mp) {
        var k :| 0 <= k < |places| && places[k] == i;
        assert Claims(kept[k], mp);
      }
    }
  }

  /** What an accepted rewrite leaves: the lines that were not covered, then the block. */
  lemma {:induction false} RewrittenIs(text: string, slug: string, line: Option<string>) returns (places: seq<nat>)
    requires ValidSlug(slug) && (line.Some? ==> PlainLine(line.value))
    ensures KeptAt(Lines(text), slug, |Lines(text)|, Outside(Lines(text), slug), places)
    ensures Lines(Rewritten(text, slug, line)) ==
            StripCrAll(Outside(Lines(text), slug)) +
            match line
            case None => []
            case Some(l) => ["# BEGIN vaultproxy:" + slug, l, "# END vaultproxy:" + slug]
  {
    hide Lines, Rewritten, Outside, ValidSlug, PlainLine, KeptAt;
    RewriteKeepsOutside(text, slug, line);
    places := OutsideUpToIs(Lines(text), slug, |Lines(text)|);
    OutsideIsAll(Lines(text), slug);
  }

  lemma OutsideIsAll(ls: seq<string>, slug: string)
    ensures Outside(ls, slug) == OutsideUpTo(ls, slug, |ls|)
  {
  }

  lemma {:induction false} OutsideOneLine(ls: seq<string>, slug: string, n: nat)
    requires AllOneLine(ls) && n <= |ls|
    ensures AllOneLine(OutsideUpTo(ls, slug, n))
  {
    hide OneLine, InBlock;
    if n > 0 {
      OutsideOneLine(ls, slug, n - 1);
    }
  }
}
