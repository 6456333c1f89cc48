/**
 The mount helper's request: its fields in the parsed JSON object, the fstab
 line built from an accepted one, and the credentials file beside it.
 */
module MountRequest {
  import opened Wrappers
  import opened Text
  import opened MountValidators
  import Utf8
  import MiniJson
  import JsonParser
  import JsonPrinter

  const DEFAULT_CREDS_DIR := "/etc/samba"
  const DEFAULT_FSTAB := "/etc/fstab"
  const DEFAULT_MOUNT_ROOT := "/mnt"

  // ------------------------------------------------------------------ parsing

  /** The first member with this key that holds a string; arrays are passed over. */
  function FindText(fields: MiniJson.Fields, key: string): Option<string> {
    if fields == [] then None
    else if fields[0].0 == key && fields[0].1.Str? then Some(fields[0].1.text)
    else FindText(fields[1..], key)
  }

  function FindArray(fields: MiniJson.Fields, key: string): Option<seq<string>> {
    if fields == [] then None
    else if fields[0].0 == key && fields[0].1.StrArray? then Some(fields[0].1.items)
    else FindArray(fields[1..], key)
  }

  function RequestOf(fields: MiniJson.Fields): Option<Request> {
    var action, slug := FindText(fields, "action"), FindText(fields, "slug");
    if action.None? || slug.None? then None
    else
      var req := Request(
                   action.value,
                   slug.value,
                   FindText(fields, "share").GetOr(""),
                   FindText(fields, "mount_point").GetOr(""),
                   FindText(fields, "username").GetOr(""),
                   FindText(fields, "password").GetOr(""),
                   FindArray(fields, "fs_options").GetOr([]),
                   FindText(fields, "creds_dir").GetOr(DEFAULT_CREDS_DIR),
                   FindText(fields, "fstab_path").GetOr(DEFAULT_FSTAB),
                   FindText(fields, "allowed_mount_root").GetOr(DEFAULT_MOUNT_ROOT));
      if Validated(req) then Some(req) else None
  }

  // What reading the fields amounts to, in plain terms.

  /** The first member with this key whose value is of the value's kind, text or array, holds the value. */
  ghost predicate First(fields: MiniJson.Fields, key: string, v: MiniJson.Value) {
    exists i :: 0 <= i < |fields| && fields[i] == (key, v) && Lacks(fields[..i], key, v.Str?)
  }

  ghost predicate Lacks(fields: MiniJson.Fields, key: string, text: bool) {
    forall j :: 0 <= j < |fields| ==> fields[j].0 != key || fields[j].1.Str? != text
  }

  ghost predicate TextOr(fields: MiniJson.Fields, key: string, default: string, v: string) {
    First(fields, key, MiniJson.Str(v)) || (Lacks(fields, key, true) && v == default)
  }

  /** The request's parts are the members of these names; most have a default. */
  ghost predicate Reads(fields: MiniJson.Fields, req: Request) {
    && First(fields, "action", MiniJson.Str(req.action))
    && First(fields, "slug", MiniJson.Str(req.slug))
    && TextOr(fields, "share", "", req.share)
    && TextOr(fields, "mount_point", "", req.mountPoint)
    && TextOr(fields, "username", "", req.username)
    && TextOr(fields, "password", "", req.password)
    && (|| First(fields, "fs_options", MiniJson.StrArray(req.fsOptions))
        || (Lacks(fields, "fs_options", false) && req.fsOptions == []))
    && TextOr(fields, "creds_dir", "/etc/samba", req.credsDir)
    && TextOr(fields, "fstab_path", "/etc/fstab", req.fstabPath)
    && TextOr(fields, "allowed_mount_root", "/mnt", req.allowedMountRoot)
  }

  lemma {:induction false} FirstStep(fields: MiniJson.Fields, key: string, v: MiniJson.Value)
    requires fields != []
    ensures First(fields, key, v) <==>
            if fields[0].0 == key && fields[0].1.Str? == v.Str? then fields[0].1 == v
            else First(fields[1..], key, v)
  {
    var rest := fields[1..];
    if First(fields, key, v) {
      var i :| 0 <= i < |fields| && fields[i] == (key, v) && Lacks(fields[..i], key, v.Str?);
      if i > 0 {
        assert fields[..i][0] == fields[0] && fields[..i][1..] == rest[..i - 1] && rest[i - 1] == fields[i];
      }
    }
    if fields[0] == (key, v) {
      assert Lacks(fields[..0], key, v.Str?);
    } else if First(rest, key, v) && !(fields[0].0 == key && fields[0].1.Str? == v.Str?) {
      var i :| 0 <= i < |rest| && rest[i] == (key, v) && Lacks(rest[..i], key, v.Str?);
      assert fields[..i + 1] == [fields[0]] + rest[..i] && fields[i + 1] == rest[i];
    }
  }

  lemma LacksStep(fields: MiniJson.Fields, key: string, text: bool)
    requires fields != []
    ensures Lacks(fields, key, text) <==>
            !(fields[0].0 == key && fields[0].1.Str? == text) && Lacks(fields[1..], key, text)
  {
    assert fields == [fields[0]] + fields[1..];
  }

  lemma {:induction false} FindTextIs(fields: MiniJson.Fields, key: string, v: string)
    ensures FindText(fields, key).None? <==> Lacks(fields, key, true)
    ensures FindText(fields, key) == Some(v) <==> First(fields, key, MiniJson.Str(v))
  {
    if fields != [] {
      FirstStep(fields, key, MiniJson.Str(v));
      LacksStep(fields, key, true);
      hide First, Lacks;
      FindTextIs(fields[1..], key, v);
    }
  }

  lemma {:induction false} FindArrayIs(fields: MiniJson.Fields, key: string, v: seq<string>)
    ensures FindArray(fields, key).None? <==> Lacks(fields, key, false)
    ensures FindArray(fields, key) == Some(v) <==> First(fields, key, MiniJson.StrArray(v))
  {
    if fields != [] {
      FirstStep(fields, key, MiniJson.StrArray(v));
      LacksStep(fields, key, false);
      hide First, Lacks;
      FindArrayIs(fields[1..], key, v);
    }
  }

  lemma {:induction false} TextOrIs(fields: MiniJson.Fields, key: string, default: string, v: string)
    ensures FindText(fields, key).GetOr(default) == v <==> TextOr(fields, key, default, v)
  {
    hide FindText, First, Lacks;
    FindTextIs(fields, key, v);
  }

  /** A request is read from the fields exactly when its parts are there and obey the rules. */
  lemma {:induction false} RequestOfIff(fields: MiniJson.Fields, req: Request)
    ensures RequestOf(fields) == Some(req) <==> Reads(fields, req) && Acceptable(req)
  {
    hide FindText, FindArray, First, Lacks, TextOr, Validated, Acceptable;
    FindTextIs(fields, "action", req.action);
    FindTextIs(fields, "slug", req.slug);
    FindArrayIs(fields, "fs_options", req.fsOptions);
    TextOrIs(fields, "share", "", req.share);
    TextOrIs(fields, "mount_point", "", req.mountPoint);
    TextOrIs(fields, "username", "", req.username);
    TextOrIs(fields, "password", "", req.password);
    TextOrIs(fields, "creds_dir", "/etc/samba", req.credsDir);
    TextOrIs(fields, "fstab_path", "/etc/fstab", req.fstabPath);
    TextOrIs(fields, "allowed_mount_root", "/mnt", req.allowedMountRoot);
    ValidatedIff(req);
  }

  /**
   The request in a byte buffer: accepted exactly when the bytes are UTF-8 and a
   JSON document whose members hold a request that obeys the rules.
   */
  method ParseRequest(buf: MiniJson.Bytes) returns (r: Result<Request>)
    ensures forall req :: r == Ok(req) <==>
                          && Utf8.Decode(buf).Some?
                          && exists fields :: MiniJson.Derives(buf, fields) && Reads(fields, req) && Acceptable(req)
  {
    hide MiniJson.Derives, RequestOf, Reads, Acceptable;
    if Utf8.Decode(buf).None? {
      return Err;
    }
    var parsed := JsonParser.Parse(buf);
    if parsed.Err? {
      NothingDerived(buf, parsed);
      return Err;
    }
    assert MiniJson.Derives(buf, parsed.value);
    forall fields | MiniJson.Derives(buf, fields)
      ensures fields == parsed.value
    {
      assert parsed == Ok(fields);
    }
    forall req
      ensures RequestOf(parsed.value) == Some(req) <==> Reads(parsed.value, req) && Acceptable(req)
    {
      RequestOfIff(parsed.value, req);
    }
    r := match RequestOf(parsed.value) case None => Err case Some(req) => Ok(req);
  }

  lemma NothingDerived(buf: MiniJson.Bytes, parsed: Result<MiniJson.Fields>)
    requires parsed.Err? && forall fields :: parsed == Ok(fields) <==> MiniJson.Derives(buf, fields)
    ensures forall fields :: !MiniJson.Derives(buf, fields)
  {
    hide MiniJson.Derives;
    forall fields
      ensures !MiniJson.Derives(buf, fields)
    {
      assert parsed == Ok(fields) <==> MiniJson.Derives(buf, fields);
    }
  }

  /** The members of a JSON object that spells the request out. */
  function FieldsOf(req: Request): MiniJson.Fields {
    [("action", MiniJson.Str(req.action)),
     ("slug", MiniJson.Str(req.slug)),
     ("share", MiniJson.Str(req.share)),
     ("mount_point", MiniJson.Str(req.mountPoint)),
     ("username", MiniJson.Str(req.username)),
     ("password", MiniJson.Str(req.password)),
     ("fs_options", MiniJson.StrArray(req.fsOptions)),
     ("creds_dir", MiniJson.Str(req.credsDir)),
     ("fstab_path", MiniJson.Str(req.fstabPath)),
     ("allowed_mount_root", MiniJson.Str(req.allowedMountRoot))]
  }

  lemma {:induction false} FindTextAt(fields: MiniJson.Fields, i: nat)
    requires i < |fields| && fields[i].1.Str?
    requires forall j :: 0 <= j < i ==> fields[j].0 != fields[i].0
    ensures FindText(fields, fields[i].0) == Some(fields[i].1.text)
  {
    if i > 0 {
      FindTextAt(fields[1..], i - 1);
    }
  }

  lemma {:induction false} FindArrayAt(fields: MiniJson.Fields, i: nat)
    requires i < |fields| && fields[i].1.StrArray?
    requires forall j :: 0 <= j < i ==> fields[j].0 != fields[i].0
    ensures FindArray(fields, fields[i].0) == Some(fields[i].1.items)
  {
    if i > 0 {
      FindArrayAt(fields[1..], i - 1);
    }
  }

  lemma FieldKeysDiffer(req: Request)
    ensures forall i, j :: 0 <= j < i < 10 ==> FieldsOf(req)[j].0 != FieldsOf(req)[i].0
  {
  }

  /** Every valid request is read back from its own fields, each from its own key. */
  lemma {:induction false} RequestRoundTrip(req: Request)
    requires Validated(req)
    ensures RequestOf(FieldsOf(req)) == Some(req)
  {
    hide Validated, FindText, FindArray;
    var fields := FieldsOf(req);
    FieldKeysDiffer(req);
    FindTextAt(fields, 0);
    FindTextAt(fields, 1);
    FindTextAt(fields, 2);
    FindTextAt(fields, 3);
    FindTextAt(fields, 4);
    FindTextAt(fields, 5);
    FindArrayAt(fields, 6);
    FindTextAt(fields, 7);
    FindTextAt(fields, 8);
    FindTextAt(fields, 9);
  }

  predicate AsciiRequest(req: Request) {
    JsonPrinter.AsciiFields(FieldsOf(req))
  }

  /**
   A request that obeys the rules, printed as JSON, is one that `ParseRequest`
   accepts, and as itself.
   */
  lemma {:induction false} PrintedRequestIsRead(req: Request)
    requires Acceptable(req) && AsciiRequest(req)
    ensures var buf := Utf8.Encode(JsonPrinter.Print(FieldsOf(req)));
            && Utf8.Decode(buf).Some?
            && MiniJson.Derives(buf, FieldsOf(req)) && Reads(FieldsOf(req), req)
  {
    hide Acceptable, Validated, Reads, RequestOf, FieldsOf, MiniJson.Derives, Utf8.Encode, Utf8.Decode;
    var text := JsonPrinter.Print(FieldsOf(req));
    ValidatedIff(req);
    RequestRoundTrip(req);
    RequestOfIff(FieldsOf(req), req);
    JsonPrinter.PrintedIsDerived(FieldsOf(req));
    Utf8.DecodeIffEncode(Utf8.Encode(text), text);
  }

  // --------------------------------------------------------------- fstab line

  function CredsPath(dir: string, slug: string): string {
    dir + "/vaultproxy-" + slug + ".credentials"
  }

  function MountOptions(req: Request): seq<string> {
    ["credentials=" + CredsPath(req.credsDir, req.slug)] + req.fsOptions
  }

  function BuildFstabLine(req: Request): string {
    req.share + " " + (req.mountPoint + " " + ("cifs" + " " + (Join(MountOptions(req), ',') + " " + "0 0")))
  }

  /** No character of the directory separates fstab fields or mount options. */
  predicate SeparatorFree(dir: string) {
    forall i :: 0 <= i < |dir| ==> !IsWhitespace(dir[i]) && dir[i] != ','
  }

  /**
   Split on whitespace, the line is share, mount point, type, options and two
   zeros; split on commas, the options are the credentials file and all the
   caller's, in order.
   */
  ghost predicate SplitsBack(req: Request) {
    var ws := Words(BuildFstabLine(req));
    && |ws| == 6 && ws[0] == req.share && ws[1] == req.mountPoint && ws[2] == "cifs" && ws[4] == ws[5] == "0"
    && SplitOn(ws[3], ',') ==
       ["credentials=" + (req.credsDir + "/vaultproxy-" + req.slug + ".credentials")] + req.fsOptions
  }

  /** Exactly one option, the first, has the key `credentials`. */
  ghost predicate OneCredentialsOption(req: Request) {
    var opts := MountOptions(req);
    forall i :: 0 <= i < |opts| ==> (OptionKey(opts[i]) == "credentials" <==> i == 0)
  }

  lemma {:induction false} PathIsWord(s: string)
    requires s != "" && AllChars(s, IsPathChar)
    ensures IsWord(s)
  {
    forall c | c in s
      ensures !IsWhitespace(c)
    {
      var i :| 0 <= i < |s| && s[i] == c;
    }
  }

  lemma {:induction false} ShareIsWord(s: string)
    requires ValidShare(s)
    ensures AllChars(s, IsPathChar) && s != ""
  {
    var rest := s[2..];
    var slash := IndexOf(rest, '/');
    forall i | 0 <= i < |s|
      ensures IsPathChar(s[i])
    {
      if 2 <= i < 2 + slash {
        assert s[i] == rest[..slash][i - 2];
      } else if i > 2 + slash {
        assert s[i] == rest[slash + 1..][i - 2 - slash - 1];
      }
    }
  }

  /** Without whitespace in the options, the line has exactly its six fields. */
  lemma {:induction false} LineFields(share: string, mp: string, opts: string)
    requires IsWord(share) && IsWord(mp) && IsWord(opts)
    ensures Words(share + " " + (mp + " " + ("cifs" + " " + (opts + " " + "0 0")))) ==
            [share, mp, "cifs", opts, "0", "0"]
  {
    hide Words;
    var tail := opts + " " + "0 0";
    WordsStep(share, mp + " " + ("cifs" + " " + tail));
    WordsStep(mp, "cifs" + " " + tail);
    WordsStep("cifs", tail);
    WordsStep(opts, "0 0");
    assert "0 0" == "0" + " " + "0";
    WordsStep("0", "0");
    WordsOfWord("0");
  }

  /** A joined list is free of a property's characters exactly when its pieces and separator are. */
  lemma {:induction false} JoinChars(parts: seq<string>, sep: char)
    requires !IsWhitespace(sep)
    ensures (forall c <- Join(parts, sep) :: !IsWhitespace(c))
       <==> (forall i :: 0 <= i < |parts| ==> forall c <- parts[i] :: !IsWhitespace(c))
  {
    if |parts| > 1 {
      JoinChars(parts[1..], sep);
      var whole, rest := Join(parts, sep), Join(parts[1..], sep);
      assert forall c :: c in whole <==> c in parts[0] || c == sep || c in rest;
      assert parts == [parts[0]] + parts[1..];
    }
  }

  lemma {:induction false} OptionsChars(req: Request)
    requires ValidSlug(req.slug) && ValidFsOptions(req.fsOptions)
    ensures SeparatorFree(req.credsDir)
       <==> && IsWord(Join(MountOptions(req), ','))
            && forall p <- MountOptions(req) :: ',' !in p
  {
    var opts := MountOptions(req);
    JoinChars(opts, ',');
    var first := opts[0];
    CredsOptionChars(req);
    forall i | 1 <= i < |opts|
      ensures ',' !in opts[i] && forall c <- opts[i] :: !IsWhitespace(c)
    {
      var o := req.fsOptions[i - 1];
      assert opts[i] == o && ValidFsOption(o);
      OptionIsWord(o);
    }
    assert forall p <- opts :: exists i :: 0 <= i < |opts| && opts[i] == p;
    assert first in opts;
    assert |Join(opts, ',')| >= |first|;
  }

  lemma {:induction false} OptionIsWord(o: string)
    requires AllChars(o, IsOptionChar)
    ensures forall c <- o :: !IsWhitespace(c)
  {
    forall c | c in o
      ensures !IsWhitespace(c)
    {
      var i :| 0 <= i < |o| && o[i] == c;
    }
  }

  lemma SeparatorFreeConcat(s: string, t: string)
    ensures SeparatorFree(s + t) <==> SeparatorFree(s) && SeparatorFree(t)
  {
    hide IsWhitespace;
    assert forall i :: 0 <= i < |s| ==> s[i] == (s + t)[i];
    assert forall i :: 0 <= i < |t| ==> t[i] == (s + t)[|s| + i];
  }

  lemma SlugIsSeparatorFree(slug: string)
    requires ValidSlug(slug)
    ensures SeparatorFree(slug)
  {
    assert forall i :: 0 <= i < |slug| ==> IsSlugChar(slug[i]);
  }

  lemma OptionFixedPartsAreSeparatorFree()
    ensures SeparatorFree("credentials=") && SeparatorFree("/vaultproxy-") && SeparatorFree(".credentials")
  {
  }

  lemma SeparatorFreeMembers(s: string)
    ensures SeparatorFree(s) <==> ',' !in s && forall c <- s :: !IsWhitespace(c)
  {
    hide IsWhitespace;
    assert forall i :: 0 <= i < |s| ==> s[i] in s;
  }

  lemma {:induction false} CredsOptionChars(req: Request)
    requires ValidSlug(req.slug)
    ensures var o := MountOptions(req)[0];
            SeparatorFree(req.credsDir) <==> ',' !in o && forall c <- o :: !IsWhitespace(c)
  {
    hide SeparatorFree, IsWhitespace, ValidSlug;
    var dir, mid, slug := req.credsDir, "/vaultproxy-", req.slug;
    SlugIsSeparatorFree(slug);
    OptionFixedPartsAreSeparatorFree();
    SeparatorFreeConcat(dir, mid);
    SeparatorFreeConcat(dir + mid, slug);
    SeparatorFreeConcat(dir + mid + slug, ".credentials");
    SeparatorFreeConcat("credentials=", CredsPath(dir, slug));
    SeparatorFreeMembers(MountOptions(req)[0]);
  }

  lemma {:induction false} CredentialsKey(path: string)
    ensures OptionKey("credentials=" + path) == "credentials"
  {
    IndexOfFirst("credentials", '=', path);
    var o := "credentials" + ['='] + path;
    assert o == "credentials=" + path;
    assert o[..11] == "credentials";
  }

  /**
   The fstab line of a validated mount request splits back into share, mount
   point, type, options and zeros exactly when the credentials directory holds
   no whitespace and no comma. The validator does not ensure this below
   `/etc/samba/`.
   */
  lemma {:induction false} LineSplitsBackIff(req: Request)
    requires req.action == "mount" && Validated(req)
    ensures SplitsBack(req) <==> SeparatorFree(req.credsDir)
    ensures OneCredentialsOption(req)
  {
    hide Words, SplitOn, Join, ByteLen, ValidCredsDir, ValidAbsPath;
    var opts := Join(MountOptions(req), ',');
    OptionsChars(req);
    SplitJoin(MountOptions(req), ',');
    ShareIsWord(req.share);
    PathIsWord(req.share);
    PathIsWord(req.mountPoint);
    if SeparatorFree(req.credsDir) {
      LineFields(req.share, req.mountPoint, opts);
    }
    if SplitsBack(req) {
      WordsAreWords(BuildFstabLine(req));
      JoinOfSplit(Words(BuildFstabLine(req))[3], ',');
    }
    CredentialsKey(CredsPath(req.credsDir, req.slug));
    forall i | 1 <= i < |MountOptions(req)|
      ensures OptionKey(MountOptions(req)[i]) != "credentials"
    {
      assert ValidFsOption(req.fsOptions[i - 1]);
    }
  }

  /** Requests whose lines read alike mount the same share in the same place with the same options. */
  lemma {:induction false} LineDetermines(req: Request, other: Request)
    requires req.action == other.action == "mount" && Validated(req) && Validated(other)
    requires SeparatorFree(req.credsDir) && SeparatorFree(other.credsDir)
    requires BuildFstabLine(req) == BuildFstabLine(other)
    ensures req.share == other.share && req.mountPoint == other.mountPoint && req.fsOptions == other.fsOptions
    ensures CredsPath(req.credsDir, req.slug) == CredsPath(other.credsDir, other.slug)
  {
    hide Validated, SeparatorFree, BuildFstabLine;
    LineSplitsBackIff(req);
    LineSplitsBackIff(other);
    var opts := SplitOn(Words(BuildFstabLine(req))[3], ',');
    assert opts[1..] == req.fsOptions == other.fsOptions;
    var front := "credentials=";
    assert opts[0] == front + CredsPath(req.credsDir, req.slug) == front + CredsPath(other.credsDir, other.slug);
    assert opts[0][|front|..] == CredsPath(req.credsDir, req.slug) == CredsPath(other.credsDir, other.slug);
  }

  /** What is written to the credentials file. */
  function CredsBody(req: Request): string {
    "username=" + req.username + ("\n" + ("password=" + req.password + "\n"))
  }

  /** The file of a validated request reads back as two lines, so a password cannot add a third. */
  lemma {:induction false} CredsBodyReadsBack(req: Request)
    requires req.action == "mount" && Validated(req)
    ensures Lines(CredsBody(req)) == ["username=" + req.username, "password=" + req.password]
  {
    hide Lines, ValidCredsDir, ValidAbsPath, ValidShare, ValidMountPoint, ByteLen;
    var user, password := "username=" + req.username, "password=" + req.password;
    CharsWithoutBreak(req.username, IsUserChar);
    assert OneLine(user) && OneLine(password);
    LinesStep(user, password + "\n");
    LinesStep(password, "");
    assert user + ['\n'] + (password + "\n") == CredsBody(req);
    assert password + ['\n'] + "" == password + "\n";
    NoLineText();
  }

  lemma NamedDirsAreSeparatorFree(dir: string)
    requires dir == "/etc/samba" || dir == "/run/vaultproxy/smb"
    ensures SeparatorFree(dir)
  {
  }

  /** The two directories the validator names outright always give a splittable line. */
  lemma {:induction false} NamedDirsSplitBack(req: Request)
    requires req.action == "mount" && Validated(req)
    requires req.credsDir == "/etc/samba" || req.credsDir == "/run/vaultproxy/smb"
    ensures SplitsBack(req)
  {
    hide Validated, SplitsBack, SeparatorFree;
    LineSplitsBackIff(req);
    NamedDirsAreSeparatorFree(req.credsDir);
  }

  lemma CommaDirIsValid()
    ensures ValidCredsDir("/etc/samba/a,b") && !SeparatorFree("/etc/samba/a,b")
  {
    hide SplitOn;
    var dir := "/etc/samba/a,b";
    PiecesFromText(dir, '/', '.');
    assert ".."[0] == '.';
    assert dir[12] == ',';
  }

  /** A validated directory whose line does not split back, for every request. */
  lemma {:induction false} SplitBackCanFail(req: Request)
    requires req.action == "mount" && Validated(req)
    ensures var bad := req.(credsDir := "/etc/samba/a,b"); Validated(bad) && !SplitsBack(bad)
  {
    hide ValidCredsDir, SplitsBack, SeparatorFree, ValidShare, ValidMountPoint, ValidAbsPath, ValidSlug;
    CommaDirIsValid();
    LineSplitsBackIff(req.(credsDir := "/etc/samba/a,b"));
  }

  // --------------------------------------------------------------- plain line

  /** A single trimmed line that is not a comment, so never a block marker. */
  predicate PlainLine(l: string) {
    && l != "" && OneLine(l)
    && !IsWhitespace(l[0]) && !IsWhitespace(l[|l| - 1])
    && l[0] != '#'
  }

  /** The built line is a plain line exactly when the credentials directory is on one line. */
  lemma {:induction false} BuiltLineIsPlainIff(req: Request)
    requires req.action == "mount" && Validated(req)
    ensures PlainLine(BuildFstabLine(req)) <==> OneLine(req.credsDir)
  {
    hide Validated, BuildFstabLine, OneLine;
    BuiltLineEnds(req);
    BuiltLineBreaks(req);
  }

  /** The line begins with the share and ends with a zero. */
  lemma BuiltLineEnds(req: Request)
    requires req.action == "mount" && Validated(req)
    ensures var l := BuildFstabLine(req);
            && l != "" && !IsWhitespace(l[0]) && l[0] != '#'
            && !IsWhitespace(l[|l| - 1])
  {
    hide Join, MountOptions, ByteLen, ValidCredsDir, ValidAbsPath, ValidFsOptions;
    var l := BuildFstabLine(req);
    ShareIsWord(req.share);
    assert l[0] == req.share[0] && IsPathChar(req.share[0]);
    assert l[|l| - 1] == '0';
  }

  lemma BreakDirIsValid()
    ensures ValidCredsDir("/etc/samba/a\nb") && !OneLine("/etc/samba/a\nb")
  {
    hide SplitOn;
    var dir := "/etc/samba/a\nb";
    PiecesFromText(dir, '/', '.');
    assert ".."[0] == '.';
    assert dir[12] == '\n';
  }

  /** A validated directory whose line is no single line, for every request. */
  lemma {:induction false} PlainLineCanFail(req: Request)
    requires req.action == "mount" && Validated(req)
    ensures var bad := req.(credsDir := "/etc/samba/a\nb"); Validated(bad) && !PlainLine(BuildFstabLine(bad))
  {
    hide ValidCredsDir, PlainLine, OneLine, ValidShare, ValidMountPoint, ValidAbsPath, ValidSlug;
    BreakDirIsValid();
    BuiltLineIsPlainIff(req.(credsDir := "/etc/samba/a\nb"));
  }

  lemma {:induction false} BuiltLineBreaks(req: Request)
    requires req.action == "mount" && Validated(req)
    ensures OneLine(BuildFstabLine(req)) <==> OneLine(req.credsDir)
  {
    hide ByteLen, ValidCredsDir, ValidAbsPath, SplitOn;
    var opts := MountOptions(req);
    ShareIsWord(req.share);
    CharsWithoutBreak(req.share, IsPathChar);
    CharsWithoutBreak(req.mountPoint, IsPathChar);
    CharsWithoutBreak(req.slug, IsSlugChar);
    forall i | 1 <= i < |opts|
      ensures OneLine(opts[i])
    {
      assert ValidFsOption(req.fsOptions[i - 1]);
      CharsWithoutBreak(opts[i], IsOptionChar);
    }
    assert OneLine(opts[0]) <==> OneLine(req.credsDir);
    JoinOneLine(opts, ',');
  }

  lemma {:induction false} CharsWithoutBreak(s: string, p: char -> bool)
    requires AllChars(s, p) && !p('\n')
    ensures OneLine(s)
  {
  }

  lemma {:induction false} JoinOneLine(parts: seq<string>, sep: char)
    requires sep != '\n'
    ensures OneLine(Join(parts, sep)) <==> AllOneLine(parts)
  {
    if |parts| > 1 {
      JoinOneLine(parts[1..], sep);
      assert parts == [parts[0]] + parts[1..];
    }
  }
}
