/**
 The validators that guard a mount request, and the rules they enforce in plain
 terms: which characters, how long, and below which directory.
 */
module MountValidators {
  import opened Text
  import Utf8

  datatype Request = Request(
    action: string,
    slug: string,
    share: string,
    mountPoint: string,
    username: string,
    password: string,
    fsOptions: seq<string>,
    credsDir: string,
    fstabPath: string,
    allowedMountRoot: string)

  // --------------------------------------------------------------- validators

  /** Byte length, which is what every length limit counts. */
  function ByteLen(s: string): nat {
    |Utf8.Encode(s)|
  }

  predicate IsAlnum(c: char) {
    'A' <= c <= 'Z' || 'a' <= c <= 'z' || '0' <= c <= '9'
  }

  predicate IsSlugChar(c: char) {
    'a' <= c <= 'z' || '0' <= c <= '9' || c == '-'
  }

  predicate IsHostChar(c: char) {
    IsAlnum(c) || c == '.' || c == '-' || c == '_'
  }

  predicate IsPathChar(c: char) {
    IsHostChar(c) || c == '/'
  }

  predicate IsUserChar(c: char) {
    IsHostChar(c) || c == '@'
  }

  predicate IsOptionChar(c: char) {
    IsPathChar(c) || c == '=' || c == ':'
  }

  predicate AllChars(s: string, p: char -> bool) {
    forall i :: 0 <= i < |s| ==> p(s[i])
  }

  predicate ValidSlug(s: string) {
    && 1 <= ByteLen(s) <= 32
    && AllChars(s, IsSlugChar)
    && s != "" && s[0] != '-' && s[|s| - 1] != '-'
  }

  predicate Contains(s: string, part: string) {
    part <= s || (s != "" && Contains(s[1..], part))
  }

  /** `//host/path`, cut at the first slash behind the two leading ones. */
  predicate ValidShare(s: string) {
    && "//" <= s
    && ValidHostAndPath(s[2..], IndexOf(s[2..], '/'))
    && ByteLen(s) <= 256
  }

  predicate ValidHostAndPath(rest: string, slash: nat) {
    && 0 < slash && slash + 1 < |rest|
    && AllChars(rest[..slash], IsHostChar)
    && AllChars(rest[slash + 1..], IsPathChar)
    && !Contains(rest[slash + 1..], "..")
  }

  /** Absolute, and no component between slashes is `..`. */
  predicate ValidAbsPath(s: string) {
    "/" <= s && ".." !in SplitOn(s, '/')
  }

  predicate ValidCredsDir(s: string) {
    ValidAbsPath(s) && (s == "/etc/samba" || "/etc/samba/" <= s || s == "/run/vaultproxy/smb")
  }

  function TrimEndSlashes(s: string): string {
    if s != "" && s[|s| - 1] == '/' then TrimEndSlashes(s[..|s| - 1]) else s
  }

  predicate ValidMountPoint(mp: string, allowedRoot: string) {
    && ValidAbsPath(mp)
    && mp != TrimEndSlashes(allowedRoot)
    && TrimEndSlashes(allowedRoot) + "/" <= mp
    && ByteLen(mp) <= 256
    && AllChars(mp, IsPathChar)
  }

  predicate ValidUsername(s: string) {
    1 <= ByteLen(s) <= 64 && AllChars(s, IsUserChar)
  }

  predicate ValidPassword(p: string) {
    1 <= ByteLen(p) <= 512 && AllChars(p, c => c != '\n' && c != '\r' && c != '\0')
  }

  function OptionKey(o: string): string {
    SplitOn(o, '=')[0]
  }

  const RESERVED_OPTIONS: set<string> := {"credentials", "username", "password", "pass", "user"}

  predicate ValidFsOption(o: string) {
    && 1 <= ByteLen(o) <= 128
    && AllChars(o, IsOptionChar)
    && OptionKey(o) !in RESERVED_OPTIONS
    && ',' !in o && ' ' !in o
  }

  predicate ValidFsOptions(opts: seq<string>) {
    |opts| <= 32 && forall i :: 0 <= i < |opts| ==> ValidFsOption(opts[i])
  }

  /** What `parse_request` demands of a request before handing it on. */
  predicate Validated(req: Request) {
    && ValidSlug(req.slug)
    && ValidCredsDir(req.credsDir)
    && ValidAbsPath(req.fstabPath)
    && ValidAbsPath(req.allowedMountRoot)
    && (req.action == "mount" ==>
          && ValidShare(req.share)
          && ValidMountPoint(req.mountPoint, req.allowedMountRoot)
          && ValidUsername(req.username)
          && ValidPassword(req.password)
          && ValidFsOptions(req.fsOptions))
    && (req.action == "unmount" ==> ValidMountPoint(req.mountPoint, req.allowedMountRoot))
  }

  // ------------------------------------------------- the rules in plain terms

  const LOWER := "abcdefghijklmnopqrstuvwxyz"
  const UPPER := "ABCDEFGHIJKLMNOPQRSTUVWXYZ"
  const DIGITS := "0123456789"

  ghost predicate Among(s: string, chars: string) {
    forall c <- s :: c in chars
  }

  /** A path component `..` begins at this place. */
  predicate ParentAt(s: string, i: nat) {
    && i + 2 <= |s| && s[i] == '.' && s[i + 1] == '.'
    && (i == 0 || s[i - 1] == '/') && (i + 2 == |s| || s[i + 2] == '/')
  }

  ghost predicate HasParent(s: string) {
    exists i: nat :: ParentAt(s, i)
  }

  ghost predicate TwoDots(s: string) {
    exists i :: 0 <= i < |s| - 1 && s[i] == '.' == s[i + 1]
  }

  ghost predicate Absolute(s: string) {
    s != "" && s[0] == '/' && !HasParent(s)
  }

  function Slashes(n: nat): string {
    seq(n, _ => '/')
  }

  /** The path is the root, cut of its trailing slashes, followed by a slash and more text. */
  ghost predicate BelowRoot(mp: string, root: string) {
    exists r, n, t :: root == r + Slashes(n) && !EndsInSlash(r) && mp == r + "/" + t
  }

  predicate EndsInSlash(s: string) {
    s != "" && s[|s| - 1] == '/'
  }

  ghost predicate SlugRule(s: string) {
    1 <= |s| <= 32 && Among(s, LOWER + DIGITS + "-") && s[0] != '-' && s[|s| - 1] != '-'
  }

  ghost predicate ShareRule(s: string) {
    && |s| <= 256
    && exists host, path :: s == "//" + (host + "/" + path) && HostRule(host) && PathRule(path)
  }

  ghost predicate HostRule(host: string) {
    host != "" && Among(host, UPPER + LOWER + DIGITS + ".-_")
  }

  ghost predicate PathRule(path: string) {
    path != "" && Among(path, UPPER + LOWER + DIGITS + ".-_/") && !TwoDots(path)
  }

  ghost predicate CredsDirRule(s: string) {
    && Absolute(s)
    && (s == "/etc/samba" || s == "/run/vaultproxy/smb" || exists t :: s == "/etc/samba/" + t)
  }

  ghost predicate MountPointRule(mp: string, root: string) {
    BelowRoot(mp, root) && Absolute(mp) && |mp| <= 256 && Among(mp, UPPER + LOWER + DIGITS + ".-_/")
  }

  ghost predicate UsernameRule(s: string) {
    1 <= |s| <= 64 && Among(s, UPPER + LOWER + DIGITS + ".-_@")
  }

  ghost predicate PasswordRule(s: string) {
    1 <= |Utf8.Encode(s)| <= 512 && '\n' !in s && '\r' !in s && '\0' !in s
  }

  ghost predicate FsOptionRule(o: string) {
    && 1 <= |o| <= 128 && Among(o, UPPER + LOWER + DIGITS + ".-_=:/")
    && !Sets(o, "credentials") && !Sets(o, "username") && !Sets(o, "password") && !Sets(o, "pass") && !Sets(o, "user")
  }

  /** The option is this key, alone or with a value. */
  predicate Sets(o: string, key: string) {
    o == key || key + "=" <= o
  }

  /** What an accepted request is, action by action. */
  ghost predicate Acceptable(req: Request) {
    && SlugRule(req.slug) && CredsDirRule(req.credsDir)
    && Absolute(req.fstabPath) && Absolute(req.allowedMountRoot)
    && (req.action == "mount" || req.action == "unmount" ==> MountPointRule(req.mountPoint, req.allowedMountRoot))
    && (req.action == "mount" ==>
          && ShareRule(req.share) && UsernameRule(req.username) && PasswordRule(req.password)
          && |req.fsOptions| <= 32
          && forall i :: 0 <= i < |req.fsOptions| ==> FsOptionRule(req.fsOptions[i]))
  }

  // ------------------------------------------------------------ why they agree

  lemma AlphabetIff(c: char)
    ensures c in LOWER <==> 'a' <= c <= 'z'
    ensures c in UPPER <==> 'A' <= c <= 'Z'
    ensures c in DIGITS <==> '0' <= c <= '9'
  {
  }

  lemma SlugCharIff(c: char)
    ensures IsSlugChar(c) <==> c in LOWER + DIGITS + "-"
    ensures IsSlugChar(c) ==> c < '\U{80}'
  {
    hide LOWER, UPPER, DIGITS;
    AlphabetIff(c);
  }

  lemma HostCharIff(c: char)
    ensures IsHostChar(c) <==> c in UPPER + LOWER + DIGITS + ".-_"
    ensures IsHostChar(c) ==> c < '\U{80}'
  {
    hide LOWER, UPPER, DIGITS;
    AlphabetIff(c);
  }

  lemma PathCharIff(c: char)
    ensures IsPathChar(c) <==> c in UPPER + LOWER + DIGITS + ".-_/"
    ensures IsPathChar(c) ==> c < '\U{80}'
  {
    hide LOWER, UPPER, DIGITS;
    AlphabetIff(c);
  }

  lemma UserCharIff(c: char)
    ensures IsUserChar(c) <==> c in UPPER + LOWER + DIGITS + ".-_@"
    ensures IsUserChar(c) ==> c < '\U{80}'
  {
    hide LOWER, UPPER, DIGITS;
    AlphabetIff(c);
  }

  lemma OptionCharIff(c: char)
    ensures IsOptionChar(c) <==> c in UPPER + LOWER + DIGITS + ".-_=:/"
    ensures IsOptionChar(c) ==> c < '\U{80}'
  {
    hide LOWER, UPPER, DIGITS;
    AlphabetIff(c);
  }

  /** A test on characters as membership; ASCII text is as long as its bytes. */
  lemma {:induction false} CharsIff(s: string, p: char -> bool, chars: string)
    requires forall c :: (p(c) <==> c in chars) && (p(c) ==> c < '\U{80}')
    ensures AllChars(s, p) <==> Among(s, chars)
    ensures AllChars(s, p) ==> ByteLen(s) == |s|
  {
    assert forall i :: 0 <= i < |s| ==> s[i] in s;
    Utf8.EncodeLength(s);
  }

  lemma SlugCharsIff(s: string)
    ensures AllChars(s, IsSlugChar) <==> Among(s, LOWER + DIGITS + "-")
    ensures AllChars(s, IsSlugChar) ==> ByteLen(s) == |s|
  {
    hide IsSlugChar, LOWER, UPPER, DIGITS;
    forall c {
      SlugCharIff(c);
    }
    CharsIff(s, IsSlugChar, LOWER + DIGITS + "-");
  }

  lemma HostCharsIff(s: string)
    ensures AllChars(s, IsHostChar) <==> Among(s, UPPER + LOWER + DIGITS + ".-_")
    ensures AllChars(s, IsHostChar) ==> ByteLen(s) == |s|
  {
    hide IsHostChar, LOWER, UPPER, DIGITS;
    forall c {
      HostCharIff(c);
    }
    CharsIff(s, IsHostChar, UPPER + LOWER + DIGITS + ".-_");
  }

  lemma PathCharsIff(s: string)
    ensures AllChars(s, IsPathChar) <==> Among(s, UPPER + LOWER + DIGITS + ".-_/")
    ensures AllChars(s, IsPathChar) ==> ByteLen(s) == |s|
  {
    hide IsPathChar, LOWER, UPPER, DIGITS;
    forall c {
      PathCharIff(c);
    }
    CharsIff(s, IsPathChar, UPPER + LOWER + DIGITS + ".-_/");
  }

  lemma UserCharsIff(s: string)
    ensures AllChars(s, IsUserChar) <==> Among(s, UPPER + LOWER + DIGITS + ".-_@")
    ensures AllChars(s, IsUserChar) ==> ByteLen(s) == |s|
  {
    hide IsUserChar, LOWER, UPPER, DIGITS;
    forall c {
      UserCharIff(c);
    }
    CharsIff(s, IsUserChar, UPPER + LOWER + DIGITS + ".-_@");
  }

  lemma OptionCharsIff(s: string)
    ensures AllChars(s, IsOptionChar) <==> Among(s, UPPER + LOWER + DIGITS + ".-_=:/")
    ensures AllChars(s, IsOptionChar) ==> ByteLen(s) == |s|
  {
    hide IsOptionChar, LOWER, UPPER, DIGITS;
    forall c {
      OptionCharIff(c);
    }
    CharsIff(s, IsOptionChar, UPPER + LOWER + DIGITS + ".-_=:/");
  }

  lemma {:induction false} SlugIff(s: string)
    ensures ValidSlug(s) <==> SlugRule(s)
  {
    hide IsSlugChar, LOWER, DIGITS;
    SlugCharsIff(s);
  }

  lemma {:induction false} UsernameIff(s: string)
    ensures ValidUsername(s) <==> UsernameRule(s)
  {
    hide IsUserChar, UPPER, LOWER, DIGITS;
    UserCharsIff(s);
    Utf8.EncodeLength("");
    assert ByteLen("") == 0;
  }

  lemma {:induction false} PasswordIff(p: string)
    ensures ValidPassword(p) <==> PasswordRule(p)
  {
    assert forall i :: 0 <= i < |p| ==> p[i] in p;
  }

  // paths

  /** Behind a slash, components begin where they begin in the rest. */
  lemma ParentBehind(s: string, k: nat, j: nat)
    requires k < |s| && s[k] == '/'
    ensures ParentAt(s, k + 1 + j) <==> ParentAt(s[k + 1..], j)
  {
    var rest := s[k + 1..];
    assert j < |rest| ==> rest[j] == s[k + 1 + j];
    assert j + 1 < |rest| ==> rest[j + 1] == s[k + 1 + j + 1];
    assert j + 2 < |rest| ==> rest[j + 2] == s[k + 1 + j + 2];
    assert j > 0 && j - 1 < |rest| ==> rest[j - 1] == s[k + j];
  }

  /** Up to the first slash only the first component can be `..`. */
  lemma ParentInFront(s: string, i: nat)
    requires i <= IndexOf(s, '/') < |s|
    ensures ParentAt(s, i) <==> i == 0 && s[..IndexOf(s, '/')] == ".."
  {
    var k := IndexOf(s, '/');
    var front := s[..k];
    assert forall j :: 0 <= j < k ==> s[j] == front[j] && front[j] in front;
  }

  /** The components between slashes include `..` exactly when one begins somewhere. */
  lemma {:induction false} SplitHasParent(s: string)
    ensures ".." in SplitOn(s, '/') <==> HasParent(s)
    decreases |s|
  {
    var k := IndexOf(s, '/');
    if k == |s| {
      assert s[..k] == s;
      NoSlashParent(s);
    } else {
      var rest := s[k + 1..];
      SplitHasParent(rest);
      HasParentStep(s);
      hide HasParent, ParentAt;
      assert SplitOn(s, '/') == [s[..k]] + SplitOn(rest, '/');
    }
  }

  lemma {:induction false} HasParentStep(s: string)
    requires IndexOf(s, '/') < |s|
    ensures var k := IndexOf(s, '/'); HasParent(s) <==> s[..k] == ".." || HasParent(s[k + 1..])
  {
    hide ParentAt;
    var k := IndexOf(s, '/');
    ParentInFront(s, 0);
    if HasParent(s[k + 1..]) {
      var j: nat :| ParentAt(s[k + 1..], j);
      ParentBehind(s, k, j);
      assert ParentAt(s, k + 1 + j);
    }
    if HasParent(s) {
      var i: nat :| ParentAt(s, i);
      if i <= k {
        ParentInFront(s, i);
      } else {
        ParentBehind(s, k, i - k - 1);
        assert ParentAt(s[k + 1..], i - k - 1);
      }
    }
  }

  lemma NoSlashParent(s: string)
    requires '/' !in s
    ensures HasParent(s) <==> s == ".."
    ensures SplitOn(s, '/') == [s]
  {
    IndexOfAbsent(s, '/');
    assert forall i :: 0 <= i < |s| ==> s[i] in s;
    assert s == ".." ==> ParentAt(s, 0);
  }

  lemma {:induction false} AbsPathIff(s: string)
    ensures ValidAbsPath(s) <==> Absolute(s)
  {
    SplitHasParent(s);
    hide SplitOn, HasParent;
    assert "/" <= s <==> s != "" && s[0] == '/';
  }

  lemma {:induction false} PrefixIff(prefix: string, s: string)
    ensures prefix <= s <==> exists t :: s == prefix + t
  {
    if prefix <= s {
      assert s == prefix + s[|prefix|..];
    }
  }

  lemma {:induction false} CredsDirIff(s: string)
    ensures ValidCredsDir(s) <==> CredsDirRule(s)
  {
    AbsPathIff(s);
    PrefixIff("/etc/samba/", s);
    hide ValidAbsPath, Absolute;
  }

  /** Cutting trailing slashes leaves the one text that gives the root back with slashes added. */
  lemma {:induction false} TrimEndIs(root: string, r: string, n: nat)
    requires root == r + Slashes(n) && !EndsInSlash(r)
    ensures TrimEndSlashes(root) == r
  {
    if n == 0 {
      assert root == r;
    } else {
      assert root[|root| - 1] == '/' && root[..|root| - 1] == r + Slashes(n - 1);
      TrimEndIs(root[..|root| - 1], r, n - 1);
    }
  }

  lemma {:induction false} TrimEndCut(root: string) returns (n: nat)
    ensures root == TrimEndSlashes(root) + Slashes(n) && !EndsInSlash(TrimEndSlashes(root))
  {
    if EndsInSlash(root) {
      var m := TrimEndCut(root[..|root| - 1]);
      n := m + 1;
      assert Slashes(n) == Slashes(m) + "/";
      assert root == root[..|root| - 1] + "/";
    } else {
      n := 0;
      assert root == root + Slashes(0);
    }
  }

  lemma {:induction false} BelowRootIff(mp: string, root: string)
    ensures TrimEndSlashes(root) + "/" <= mp <==> BelowRoot(mp, root)
  {
    var n := TrimEndCut(root);
    var r := TrimEndSlashes(root);
    PrefixIff(r + "/", mp);
    if BelowRoot(mp, root) {
      var r', m, t :| root == r' + Slashes(m) && !EndsInSlash(r') && mp == r' + "/" + t;
      TrimEndIs(root, r', m);
    }
    if r + "/" <= mp {
      var t :| mp == r + "/" + t;
    }
  }

  lemma {:induction false} MountPointIff(mp: string, root: string)
    ensures ValidMountPoint(mp, root) <==> MountPointRule(mp, root)
  {
    hide TrimEndSlashes, BelowRoot, ValidAbsPath, Absolute, IsPathChar, UPPER, LOWER, DIGITS;
    AbsPathIff(mp);
    BelowRootIff(mp, root);
    PathCharsIff(mp);
  }

  // shares

  lemma {:induction false} ContainsIff(s: string)
    ensures Contains(s, "..") <==> TwoDots(s)
  {
    if s != "" {
      ContainsIff(s[1..]);
      assert ".." <= s <==> |s| >= 2 && s[0] == '.' == s[1];
      forall i | 0 <= i < |s| - 1 && s[i] == '.' == s[i + 1]
        ensures ".." <= s || TwoDots(s[1..])
      {
        if i > 0 {
          assert s[1..][i - 1] == '.' == s[1..][i];
        }
      }
      if TwoDots(s[1..]) {
        var i :| 0 <= i < |s[1..]| - 1 && s[1..][i] == '.' == s[1..][i + 1];
        assert s[i + 1] == '.' == s[i + 2];
      }
    }
  }

  /** Host and path are what stands before and behind the first slash. */
  lemma {:induction false} ShareSplits(host: string, path: string)
    requires AllChars(host, IsHostChar)
    ensures var rest := host + "/" + path;
            IndexOf(rest, '/') == |host| && rest[..|host|] == host && rest[|host| + 1..] == path
  {
    assert forall c <- host :: exists i :: 0 <= i < |host| && host[i] == c;
    assert host + "/" + path == host + ['/'] + path;
    IndexOfFirst(host, '/', path);
  }

  lemma {:induction false} PartsIff(host: string, path: string)
    ensures HostRule(host) && PathRule(path) <==>
            && host != "" && AllChars(host, IsHostChar)
            && path != "" && AllChars(path, IsPathChar) && !Contains(path, "..")
    ensures HostRule(host) && PathRule(path) ==> ByteLen("//" + (host + "/" + path)) == |"//" + (host + "/" + path)|
  {
    hide UPPER, LOWER, DIGITS, TwoDots, Contains;
    HostCharsIff(host);
    PathCharsIff(path);
    ContainsIff(path);
    var s := "//" + (host + "/" + path);
    PathCharsIff(s);
    hide Among;
    assert AllChars(host, IsHostChar) && AllChars(path, IsPathChar) ==> AllChars(s, IsPathChar);
  }

  lemma {:induction false} ShareIff(s: string)
    ensures ValidShare(s) <==> ShareRule(s)
  {
    hide AllChars, HostRule, PathRule, Contains, IndexOf;
    if "//" <= s {
      var rest := s[2..];
      var k := IndexOf(rest, '/');
      assert s == "//" + rest;
      if k < |rest| {
        assert rest == rest[..k] + "/" + rest[k + 1..];
        PartsIff(rest[..k], rest[k + 1..]);
      }
    }
    if ShareRule(s) {
      var host, path :| s == "//" + (host + "/" + path) && HostRule(host) && PathRule(path);
      PartsIff(host, path);
      ShareSplits(host, path);
      assert "//" <= s && s[2..] == host + "/" + path;
    }
  }

  // options

  /** The text in front of the first `=` is a key without one exactly when the option sets the key. */
  lemma {:induction false} OptionKeyIff(o: string, key: string)
    requires '=' !in key
    ensures OptionKey(o) == key <==> Sets(o, key)
  {
    var i := IndexOf(o, '=');
    if o == key {
      IndexOfAbsent(o, '=');
    } else if key + "=" <= o {
      var rest := o[|key| + 1..];
      assert o == key + ['='] + rest;
      IndexOfFirst(key, '=', rest);
    }
  }

  lemma {:induction false} FsOptionIff(o: string)
    ensures ValidFsOption(o) <==> FsOptionRule(o)
  {
    hide IsOptionChar, UPPER, LOWER, DIGITS, OptionKey, Sets;
    OptionCharsIff(o);
    OptionCharIff(',');
    OptionCharIff(' ');
    NoSeparators(o);
    OptionKeyIff(o, "credentials");
    OptionKeyIff(o, "username");
    OptionKeyIff(o, "password");
    OptionKeyIff(o, "pass");
    OptionKeyIff(o, "user");
    assert ByteLen("") == 0;
  }

  lemma NoSeparators(o: string)
    ensures AllChars(o, IsOptionChar) ==> ',' !in o && ' ' !in o
  {
  }

  /** The validators accept a request exactly when it obeys the rules. */
  lemma {:induction false} ValidatedIff(req: Request)
    ensures Validated(req) <==> Acceptable(req)
  {
    hide ValidSlug, ValidCredsDir, ValidAbsPath, ValidMountPoint, ValidShare, ValidUsername, ValidPassword;
    hide ValidFsOption, FsOptionRule, SlugRule, CredsDirRule, Absolute, MountPointRule, ShareRule;
    hide UsernameRule, PasswordRule;
    SlugIff(req.slug);
    CredsDirIff(req.credsDir);
    AbsPathIff(req.fstabPath);
    AbsPathIff(req.allowedMountRoot);
    MountPointIff(req.mountPoint, req.allowedMountRoot);
    ShareIff(req.share);
    UsernameIff(req.username);
    PasswordIff(req.password);
    forall i | 0 <= i < |req.fsOptions|
      ensures ValidFsOption(req.fsOptions[i]) <==> FsOptionRule(req.fsOptions[i])
    {
      FsOptionIff(req.fsOptions[i]);
    }
  }
}
