/**
 The append-only access log whose lines carry a chained HMAC.

 Serialisation and HMAC are parameters: a `Codec` bundles the keyed tag
 function with the JSON functions. Nothing is assumed of the tag function but
 its 64 lower-case hexadecimal digits; in particular it need not be injective.
 */
module AccessLog {
  import opened Wrappers
  import opened Sequences
  import opened Text

  datatype Event = Event(
    ts: int,
    action: string,
    item: Option<string>,
    fields: seq<string>,
    peerPid: Option<nat>,
    peerUid: Option<nat>,
    peerCmdline: Option<string>,
    outcome: string)

  /** A line as stored: an event with the previous line's tag and its own. */
  datatype Stored = Stored(event: Event, prev: string, tag: string)

  predicate IsHex(c: char) {
    '0' <= c <= '9' || 'a' <= c <= 'f'
  }

  predicate IsTag(t: string) {
    |t| == 64 && forall i :: 0 <= i < |t| ==> IsHex(t[i])
  }

  type Tag = t: string | IsTag(t)
    witness seq(64, _ => '0')

  datatype Codec = Codec(
    mac: string -> Tag,
    body: Event -> string,
    line: Stored -> string,
    parse: string -> Option<Stored>)

  /**
   What the JSON functions owe the log: bodies tell events apart, and a written
   line is one non-blank line that parses back.
   */
  ghost predicate Faithful(c: Codec) {
    && BodiesTell(c)
    && (forall s :: c.parse(c.line(s)) == Some(s))
    && (forall s :: OneLine(c.line(s)) && StripCr(c.line(s)) == c.line(s) && Trim(c.line(s)) != "")
  }

  /** An event's body is an object and determines the event. */
  ghost predicate BodiesTell(c: Codec) {
    && (forall e :: c.body(e) != "" && c.body(e)[0] == '{')
    && (forall e, f :: c.body(e) == c.body(f) ==> e == f)
  }

  // ------------------------------------------------------------------ entries

  /** The stored events of the non-blank lines, unless one does not parse. */
  function Entries(c: Codec, ls: seq<string>): Option<seq<Stored>> {
    if ls == [] then Some([])
    else
      match Entries(c, ls[..|ls| - 1])
      case None => None
      case Some(es) =>
        var last := ls[|ls| - 1];
        if Trim(last) == "" then Some(es)
        else
          match c.parse(last)
          case None => None
          case Some(s) => Some(es + [s])
  }

  function Head(es: seq<Stored>): string {
    if es == [] then "" else es[|es| - 1].tag
  }

  /** What a tag is computed over: the previous tag and the event's body. */
  function MacInput(c: Codec, s: Stored): string {
    s.prev + c.body(s.event)
  }

  /** Every entry names the tag before it and carries the tag of its own input. */
  predicate ChainOk(c: Codec, es: seq<Stored>) {
    forall k :: 0 <= k < |es| ==> es[k].prev == Head(es[..k]) && es[k].tag == c.mac(MacInput(c, es[k]))
  }

  predicate Verified(c: Codec, text: string) {
    Entries(c, Lines(text)).Some? && ChainOk(c, Entries(c, Lines(text)).value)
  }

  function Events(es: seq<Stored>): (evs: seq<Event>)
    ensures |evs| == |es|
  {
    seq(|es|, i requires 0 <= i < |es| => es[i].event)
  }

  lemma {:induction false} EntriesPrefix(c: Codec, ls: seq<string>, i: nat)
    requires i <= |ls| && Entries(c, ls).Some?
    ensures Entries(c, ls[..i]).Some? && Entries(c, ls[..i]).value <= Entries(c, ls).value
  {
    if i == |ls| {
      assert ls[..i] == ls;
    } else {
      var init := ls[..|ls| - 1];
      EntriesPrefix(c, init, i);
      assert init[..i] == ls[..i];
    }
  }

  lemma {:induction false} EntriesStep(c: Codec, ls: seq<string>, i: nat)
    requires i < |ls|
    ensures Entries(c, ls[..i + 1]) ==
            match Entries(c, ls[..i])
            case None => None
            case Some(es) =>
              if Trim(ls[i]) == "" then Some(es)
              else match c.parse(ls[i]) case None => None case Some(s) => Some(es + [s])
  {
    assert ls[..i + 1][..i] == ls[..i];
  }

  lemma {:induction false} ChainStep(c: Codec, es: seq<Stored>, s: Stored)
    ensures ChainOk(c, es + [s]) <==>
            ChainOk(c, es) && s.prev == Head(es) && s.tag == c.mac(MacInput(c, s))
  {
    var all := es + [s];
    assert all[..|es|] == es;
    forall k | 0 <= k < |es|
      ensures all[k] == es[k] && all[..k] == es[..k]
    {
    }
    assert all[|es|] == s;
  }

  lemma {:induction false} ChainPrefix(c: Codec, es: seq<Stored>, fs: seq<Stored>)
    requires es <= fs && ChainOk(c, fs)
    ensures ChainOk(c, es)
  {
    assert forall k :: 0 <= k < |es| ==> es[k] == fs[k] && es[..k] == fs[..k];
  }

  /** Each non-blank line's place, in order, and what it parses to. */
  ghost predicate ReadAt(c: Codec, ls: seq<string>, es: seq<Stored>, places: seq<nat>) {
    && |es| == |places|
    && (forall a, b :: 0 <= a < b < |places| ==> places[a] < places[b])
    && (forall i: nat :: i in places <==> i < |ls| && Trim(ls[i]) != "")
    && (forall k :: 0 <= k < |places| ==> places[k] < |ls| && c.parse(ls[places[k]]) == Some(es[k]))
  }

  /** The entries are what the non-blank lines parse to; there are none exactly when one does not parse. */
  lemma {:induction false} EntriesAre(c: Codec, ls: seq<string>) returns (places: seq<nat>)
    ensures Entries(c, ls) == None <==> exists i :: 0 <= i < |ls| && Trim(ls[i]) != "" && c.parse(ls[i]) == None
    ensures Entries(c, ls).Some? ==> ReadAt(c, ls, Entries(c, ls).value, places)
  {
    hide Trim;
    places := [];
    if ls != [] {
      var n := |ls| - 1;
      var init := ls[..n];
      places := EntriesAre(c, init);
      assert forall i :: 0 <= i < n ==> init[i] == ls[i];
      if Trim(ls[n]) != "" {
        places := places + [n];
      }
    }
  }

  /** The non-blank lines parse to entries that form a chain. */
  ghost predicate ReadsAsChain(c: Codec, ls: seq<string>) {
    exists es, places :: ReadAt(c, ls, es, places) && Chains(c, es)
  }

  /** A log verifies exactly when every non-blank line parses and continues the chain before it. */
  lemma {:induction false} VerifiedIff(c: Codec, text: string)
    ensures Verified(c, text) <==> ReadsAsChain(c, Lines(text))
  {
    hide Lines, ReadAt, ChainOk, Chains, Entries;
    var ls := Lines(text);
    var places := EntriesAre(c, ls);
    if Verified(c, text) {
      ChainsIff(c, Entries(c, ls).value);
      assert ReadAt(c, ls, Entries(c, ls).value, places);
    }
    if ReadsAsChain(c, ls) {
      var es, ps :| ReadAt(c, ls, es, ps) && Chains(c, es);
      ReadOnce(c, ls, es, ps);
      ChainsIff(c, es);
    }
  }

  /** The first entry names no tag, each other one the tag before it, and each carries the tag of its own input. */
  ghost predicate Chains(c: Codec, es: seq<Stored>) {
    forall k :: 0 <= k < |es| ==>
      && es[k].prev == (if k == 0 then "" else es[k - 1].tag)
      && es[k].tag == c.mac(es[k].prev + c.body(es[k].event))
  }

  lemma {:induction false} ChainsIff(c: Codec, es: seq<Stored>)
    ensures ChainOk(c, es) <==> Chains(c, es)
  {
    forall k | 0 <= k < |es|
      ensures Head(es[..k]) == if k == 0 then "" else es[k - 1].tag
    {
    }
    hide Head;
  }

  lemma NoElements<T>(s: seq<T>)
    requires forall x :: x !in s
    ensures s == []
  {
    assert forall x :: x in multiset(s) <==> x in s;
    assert multiset(s) == multiset{};
    assert |multiset(s)| == |s|;
  }

  /** There is only one way to read the lines. */
  lemma {:induction false} ReadOnce(c: Codec, ls: seq<string>, es: seq<Stored>, places: seq<nat>)
    requires ReadAt(c, ls, es, places)
    ensures Entries(c, ls) == Some(es)
  {
    hide Trim;
    if ls == [] {
      NoElements(places);
    } else {
      var n := |ls| - 1;
      var init := ls[..n];
      assert forall k :: 0 <= k < |places| ==> places[k] in places;
      if Trim(ls[n]) == "" {
        assert ReadAt(c, init, es, places);
        ReadOnce(c, init, es, places);
      } else {
        var last := |places| - 1;
        assert n in places;
        var k :| 0 <= k < |places| && places[k] == n;
        assert places[last] <= n;
        assert ReadAt(c, init, es[..last], places[..last]);
        ReadOnce(c, init, es[..last], places[..last]);
        assert es == es[..last] + [es[last]];
      }
    }
  }

  // ------------------------------------------------------------- reading loops

  /** `AccessLog::verify` on the text of the log. */
  method Verify(c: Codec, text: string) returns (ok: bool)
    ensures ok == Verified(c, text)
  {
    hide Trim, Lines, ChainOk;
    var ls := Lines(text);
    var prev := "";
    ghost var es: seq<Stored> := [];
    EmptyChain(c);
    for i := 0 to |ls|
      invariant Entries(c, ls[..i]) == Some(es) && ChainOk(c, es)
      invariant prev == Head(es)
    {
      var line := ls[i];
      EntriesStep(c, ls, i);
      FailureSpreads(c, ls, i + 1);
      if Trim(line) == "" {
        continue;
      }
      var stored := c.parse(line);
      if stored.None? {
        return false;
      }
      ChainStep(c, es, stored.value);
      if stored.value.prev != prev {
        return false;
      }
      var want := c.mac(stored.value.prev + c.body(stored.value.event));
      if want != stored.value.tag {
        return false;
      }
      es := es + [stored.value];
      prev := stored.value.tag;
    }
    assert ls[..|ls|] == ls;
    return true;
  }

  /** A prefix that is not a verified log makes the whole log unverified. */
  lemma {:induction false} FailureSpreads(c: Codec, ls: seq<string>, i: nat)
    requires i <= |ls|
    ensures Entries(c, ls[..i]) == None || !ChainOk(c, Entries(c, ls[..i]).value) ==>
              Entries(c, ls) == None || !ChainOk(c, Entries(c, ls).value)
  {
    if Entries(c, ls).Some? && ChainOk(c, Entries(c, ls).value) {
      EntriesPrefix(c, ls, i);
      ChainPrefix(c, Entries(c, ls[..i]).value, Entries(c, ls).value);
    }
  }

  lemma EmptyChain(c: Codec)
    ensures ChainOk(c, [])
  {
  }

  /** `compute_last_hmac`: the last stored tag, without looking at the chain. */
  method ComputeLastHmac(c: Codec, text: Option<string>) returns (r: Result<string>)
    ensures r == LastHmac(c, text.GetOr(""))
  {
    hide Trim, Lines;
    NoLineText();
    if text.None? {
      return Ok("");
    }
    var ls := Lines(text.value);
    var last := "";
    for i := 0 to |ls|
      invariant Entries(c, ls[..i]).Some? && last == Head(Entries(c, ls[..i]).value)
    {
      var line := ls[i];
      EntriesStep(c, ls, i);
      ParseFailureSpreads(c, ls, i + 1);
      if Trim(line) == "" {
        continue;
      }
      var stored := c.parse(line);
      if stored.None? {
        return Err;
      }
      last := stored.value.tag;
    }
    assert ls[..|ls|] == ls;
    return Ok(last);
  }

  lemma {:induction false} ParseFailureSpreads(c: Codec, ls: seq<string>, i: nat)
    requires i <= |ls|
    ensures Entries(c, ls[..i]) == None ==> Entries(c, ls) == None
  {
    if Entries(c, ls).Some? {
      EntriesPrefix(c, ls, i);
    }
  }

  function LastHmac(c: Codec, text: string): Result<string> {
    match Entries(c, Lines(text))
    case None => Err
    case Some(es) => Ok(Head(es))
  }

  // ------------------------------------------------------------------- writing

  /** The log file; it outlives the objects that write to it. */
  class LogFile {
    var text: Option<string>

    constructor (initial: Option<string>)
      ensures text == initial
    {
      text := initial;
    }
  }

  /** The stored form of an event that follows the tag `prev`. */
  function Chained(c: Codec, prev: string, ev: Event): Stored {
    Stored(ev, prev, c.mac(prev + c.body(ev)))
  }

  class AccessLog {
    const codec: Codec
    const file: LogFile
    var lastHmac: string

    constructor (c: Codec, f: LogFile, last: string)
      ensures codec == c && file == f && lastHmac == last
    {
      codec := c;
      file := f;
      lastHmac := last;
    }

    /** The state that the next `record` starts from. */
    ghost function State(): LogState
      reads this, file
    {
      LogState(file.text.GetOr(""), lastHmac)
    }

    /** Appends one event; `lands` says whether the write reached the file. */
    method Record(ev: Event, lands: bool) returns (ok: bool)
      modifies this, file
      ensures ok == lands
      ensures State() == Step(codec, old(State()), Append(ev, lands))
    {
      var prev := lastHmac;
      var body := codec.body(ev);
      var tag := codec.mac(prev + body);
      var stored := Stored(ev, prev, tag);
      var line := codec.line(stored);
      if !lands {
        return false;
      }
      file.text := Some(file.text.GetOr("") + (line + "\n"));
      lastHmac := tag;
      return true;
    }
  }

  /** `AccessLog::open`: resumes the chain from the file, which it creates if absent. */
  method Open(c: Codec, f: LogFile) returns (r: Result<AccessLog>)
    modifies f
    ensures r.Err? <==> LastHmac(c, old(f.text).GetOr("")) == Err
    ensures r.Err? ==> f.text == old(f.text)
    ensures r.Ok? ==> && fresh(r.value) && r.value.codec == c && r.value.file == f
                      && f.text == Some(old(f.text).GetOr(""))
                      && forall head :: r.value.State() == Step(c, LogState(old(f.text).GetOr(""), head), Reopen)
  {
    var last := ComputeLastHmac(c, f.text);
    if last.Err? {
      return Err;
    }
    f.text := Some(f.text.GetOr(""));
    var log := new AccessLog(c, f, last.value);
    return Ok(log);
  }

  // ---------------------------------------------------------------- whole runs

  /** The text in the file and the tag held in memory. */
  datatype LogState = LogState(text: string, head: string)

  datatype LogOp = Append(event: Event, lands: bool) | Reopen

  function Step(c: Codec, st: LogState, op: LogOp): LogState {
    match op
    case Append(ev, lands) =>
      if lands then LogState(st.text + (c.line(Chained(c, st.head, ev)) + "\n"), Chained(c, st.head, ev).tag) else st
    case Reopen =>
      match LastHmac(c, st.text)
      case Err => st
      case Ok(head) => LogState(st.text, head)
  }

  function RunLog(c: Codec, st: LogState, ops: seq<LogOp>): LogState
    decreases |ops|
  {
    if ops == [] then st else RunLog(c, Step(c, st, ops[0]), ops[1..])
  }

  function Landed(ops: seq<LogOp>): seq<Event> {
    if ops == [] then []
    else (if ops[0].Append? && ops[0].lands then [ops[0].event] else []) + Landed(ops[1..])
  }

  /** The file verifies and the head in memory is the last tag in it. */
  ghost predicate Consistent(c: Codec, st: LogState) {
    Terminated(st.text) && Verified(c, st.text) && LastHmac(c, st.text) == Ok(st.head)
  }

  ghost function LoggedEvents(c: Codec, text: string): seq<Event>
    requires Entries(c, Lines(text)).Some?
  {
    Events(Entries(c, Lines(text)).value)
  }

  /** A landed write adds one line, hence one entry. */
  lemma {:induction false} AppendAddsEntry(c: Codec, text: string, s: Stored)
    requires Faithful(c) && Terminated(text) && Entries(c, Lines(text)).Some?
    ensures Terminated(text + (c.line(s) + "\n"))
    ensures Entries(c, Lines(text + (c.line(s) + "\n"))) == Some(Entries(c, Lines(text)).value + [s])
  {
    hide Lines, Trim;
    var l := c.line(s);
    LinesAppend(text, l + "\n");
    LinesStep(l, "");
    assert l + ['\n'] + "" == l + "\n";
    NoLineText();
    var ls := Lines(text);
    var grown := ls + [l];
    assert Lines(text + (l + "\n")) == grown;
    assert grown[..|grown| - 1] == ls;
  }

  lemma {:induction false} StepKeepsConsistent(c: Codec, st: LogState, op: LogOp)
    requires Faithful(c) && Consistent(c, st)
    ensures Consistent(c, Step(c, st, op))
    ensures LoggedEvents(c, Step(c, st, op).text) == LoggedEvents(c, st.text) + Landed([op])
  {
    hide Lines, Trim, Terminated, ChainOk, Faithful;
    assert [op][1..] == [];
    assert Landed([op]) == if op.Append? && op.lands then [op.event] else [];
    if op.Append? && op.lands {
      var s := Chained(c, st.head, op.event);
      var es := Entries(c, Lines(st.text)).value;
      AppendAddsEntry(c, st.text, s);
      ChainStep(c, es, s);
      assert Events(es + [s]) == Events(es) + [op.event];
    } else {
      assert LoggedEvents(c, st.text) + [] == LoggedEvents(c, st.text);
    }
  }

  /**
   Any sequence of writes, which land or leave nothing, and of reopenings keeps
   the log verifiable and the head right, and the log holds exactly the events
   that landed, in order.
   */
  lemma {:induction false} RunKeepsConsistent(c: Codec, st: LogState, ops: seq<LogOp>)
    requires Faithful(c) && Consistent(c, st)
    ensures Consistent(c, RunLog(c, st, ops))
    ensures LoggedEvents(c, RunLog(c, st, ops).text) == LoggedEvents(c, st.text) + Landed(ops)
    decreases |ops|
  {
    hide Consistent, Step, Lines, Faithful, Entries, LoggedEvents, Landed;
    ConsistentReads(c, st);
    LandedStep(ops);
    if ops == [] {
      assert LoggedEvents(c, st.text) + [] == LoggedEvents(c, st.text);
    } else {
      var next := Step(c, st, ops[0]);
      StepKeepsConsistent(c, st, ops[0]);
      RunKeepsConsistent(c, next, ops[1..]);
      ConsistentReads(c, next);
      ConsistentReads(c, RunLog(c, next, ops[1..]));
      ConcatAssociative(LoggedEvents(c, st.text), Landed([ops[0]]), Landed(ops[1..]));
    }
  }

  lemma LandedStep(ops: seq<LogOp>)
    ensures Landed(ops) == if ops == [] then [] else Landed([ops[0]]) + Landed(ops[1..])
  {
    if ops != [] {
      assert [ops[0]][1..] == [];
      assert Landed([ops[0]]) == if ops[0].Append? && ops[0].lands then [ops[0].event] else [];
    }
  }

  lemma ConsistentReads(c: Codec, st: LogState)
    ensures Consistent(c, st) ==> Entries(c, Lines(st.text)).Some?
  {
  }

  /** A log started from nothing: what is logged is what landed. */
  lemma {:induction false} FreshLogHoldsLanded(c: Codec, ops: seq<LogOp>)
    requires Faithful(c)
    ensures var st := RunLog(c, LogState("", ""), ops);
            Consistent(c, st) && LoggedEvents(c, st.text) == Landed(ops)
  {
    var start := LogState("", "");
    assert Consistent(c, start);
    RunKeepsConsistent(c, start, ops);
    assert LoggedEvents(c, "") == [];
    assert [] + Landed(ops) == Landed(ops);
  }

  // ------------------------------------------------------------ tamper evidence

  /** The head of a chain is empty or a tag. */
  lemma HeadShape(c: Codec, es: seq<Stored>)
    requires ChainOk(c, es)
    ensures es == [] ==> Head(es) == ""
    ensures es != [] ==> IsTag(Head(es))
  {
  }

  /** Previous tag and body can be told apart in what a tag is computed over. */
  lemma {:induction false} InputSplitsUniquely(c: Codec, s: Stored, t: Stored)
    requires BodiesTell(c)
    requires (s.prev == "" || IsTag(s.prev)) && (t.prev == "" || IsTag(t.prev))
    requires MacInput(c, s) == MacInput(c, t)
    ensures s.prev == t.prev && s.event == t.event
  {
    var m := MacInput(c, s);
    assert m[|s.prev|] == '{' && m[|t.prev|] == '{';
    assert |s.prev| == |t.prev| by {
      assert |s.prev| > 0 ==> m[0] == s.prev[0] && IsHex(m[0]);
      assert |t.prev| > 0 ==> m[0] == t.prev[0] && IsHex(m[0]);
    }
    assert m[..|s.prev|] == s.prev && m[..|t.prev|] == t.prev;
    assert m[|s.prev|..] == c.body(s.event) && m[|t.prev|..] == c.body(t.event);
  }

  /** Two different tag inputs, one of each log and equally far from its end, searched from the end. */
  function FindCollision(c: Codec, es: seq<Stored>, fs: seq<Stored>): (r: Option<(string, string)>)
    ensures r.Some? ==> r.value.0 != r.value.1 && InputsOf(c, es, fs, r.value)
  {
    if es == [] || fs == [] then None
    else
      var s, t := es[|es| - 1], fs[|fs| - 1];
      if MacInput(c, s) != MacInput(c, t) then
        assert s in es && t in fs;
        Some((MacInput(c, s), MacInput(c, t)))
      else
        var es', fs' := es[..|es| - 1], fs[..|fs| - 1];
        assert (forall e <- es' :: e in es) && (forall f <- fs' :: f in fs);
        FindCollision(c, es', fs')
  }

  /** The first is what an entry of the one log is tagged over, the second what one of the other is. */
  ghost predicate InputsOf(c: Codec, es: seq<Stored>, fs: seq<Stored>, p: (string, string)) {
    (exists s :: s in es && MacInput(c, s) == p.0) && (exists t :: t in fs && MacInput(c, t) == p.1)
  }

  /**
   Two chains that verify under one key and end in the same tag hold the same
   events in the same order, or `FindCollision` returns two different inputs
   with equal tags. The chains may have different lengths.
   */
  lemma {:induction false} SameHeadSameEvents(c: Codec, es: seq<Stored>, fs: seq<Stored>)
    requires BodiesTell(c) && ChainOk(c, es) && ChainOk(c, fs) && Head(es) == Head(fs)
    ensures match FindCollision(c, es, fs)
            case None => Events(es) == Events(fs)
            case Some((m, n)) => m != n && c.mac(m) == c.mac(n) && InputsOf(c, es, fs, (m, n))
  {
    hide BodiesTell, IsTag, Events;
    HeadShape(c, es);
    HeadShape(c, fs);
    if es == [] || fs == [] {
      TagIsNotEmpty(Head(es));
      TagIsNotEmpty(Head(fs));
    } else {
      var e0, f0 := es[..|es| - 1], fs[..|fs| - 1];
      var s, t := es[|es| - 1], fs[|fs| - 1];
      ChainPrefix(c, e0, es);
      ChainPrefix(c, f0, fs);
      HeadShape(c, e0);
      HeadShape(c, f0);
      assert s.prev == Head(e0) && t.prev == Head(f0);
      if MacInput(c, s) == MacInput(c, t) {
        InputSplitsUniquely(c, s, t);
        SameHeadSameEvents(c, e0, f0);
        EventsOfLast(es);
        EventsOfLast(fs);
      }
    }
  }

  lemma TagIsNotEmpty(t: string)
    ensures IsTag(t) ==> t != ""
  {
  }

  lemma EventsOfLast(es: seq<Stored>)
    requires es != []
    ensures Events(es) == Events(es[..|es| - 1]) + [es[|es| - 1].event]
  {
  }

  /** The same for two log texts that `verify` accepts: one list of events, or a collision found in them. */
  lemma {:induction false} VerifiedLogsAgree(c: Codec, a: string, b: string)
    requires BodiesTell(c) && Verified(c, a) && Verified(c, b)
    requires LastHmac(c, a) == LastHmac(c, b)
    ensures var es, fs := Entries(c, Lines(a)).value, Entries(c, Lines(b)).value;
            match FindCollision(c, es, fs)
            case None => LoggedEvents(c, a) == LoggedEvents(c, b)
            case Some((m, n)) => m != n && c.mac(m) == c.mac(n) && InputsOf(c, es, fs, (m, n))
  {
    hide BodiesTell, Entries, ChainOk, Lines, FindCollision;
    var es, fs := Entries(c, Lines(a)).value, Entries(c, Lines(b)).value;
    SameHeadSameEvents(c, es, fs);
  }

  /** An entry whose event was altered in place verifies only on a tag collision. */
  lemma {:induction false} AlteredEventNeedsCollision(c: Codec, es: seq<Stored>, k: nat, forged: Event)
    requires BodiesTell(c) && ChainOk(c, es) && k < |es| && forged != es[k].event
    requires ChainOk(c, es[k := es[k].(event := forged)])
    ensures var collision := FindCollision(c, es, es[k := es[k].(event := forged)]);
            collision.Some? && collision.value.0 != collision.value.1
            && c.mac(collision.value.0) == c.mac(collision.value.1)
  {
    hide BodiesTell, ChainOk, FindCollision;
    var fs := es[k := es[k].(event := forged)];
    SameHeadSameEvents(c, es, fs);
    assert Events(es)[k] != Events(fs)[k];
  }
}
