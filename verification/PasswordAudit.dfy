/**
 The in-process password health audit: strength counts and reuse groups found
 through password fingerprints. Decryption and fingerprint are parameters.
 */
module PasswordAudit {
  import opened Wrappers
  import opened Sequences
  import Utf8

  type Password = seq<Utf8.byte>

  datatype MaskedItem = MaskedItem(name: string, username: Option<string>, itemType: string)

  datatype Strength = Weak | Fair | Strong

  datatype AuditItem =
    AuditItem(name: string, username: Option<string>, itemType: string, strength: Strength, reason: string)

  /** The vault's decryption by item name and the run's keyed fingerprint. */
  datatype Vault = Vault(decrypt: string -> Option<Password>, fingerprint: Password -> string)

  const WEAK_THRESHOLD := 8
  const REUSE_NAME_DISPLAY_LIMIT := 5

  // ------------------------------------------------------------------ strength

  /** Characters if the bytes are UTF-8, otherwise bytes. */
  function CharCount(pw: Password): nat {
    match Utf8.Decode(pw)
    case Some(s) => |s|
    case None => |pw|
  }

  predicate IsLower(b: Utf8.byte) { 0x61 <= b <= 0x7A }
  predicate IsUpper(b: Utf8.byte) { 0x41 <= b <= 0x5A }
  predicate IsDigit(b: Utf8.byte) { 0x30 <= b <= 0x39 }
  predicate IsSymbol(b: Utf8.byte) {
    0x21 <= b <= 0x2F || 0x3A <= b <= 0x40 || 0x5B <= b <= 0x60 || 0x7B <= b <= 0x7E
  }

  function ClassCount(pw: Password): nat {
    (if exists b <- pw :: IsLower(b) then 1 else 0) + (if exists b <- pw :: IsUpper(b) then 1 else 0)
    + (if exists b <- pw :: IsDigit(b) then 1 else 0) + (if exists b <- pw :: IsSymbol(b) then 1 else 0)
  }

  const WEAK_REASON := "fewer than 8 characters — increase length to at least 8"
  const MIDDLE_REASON := "8–15 characters — increase to 16+ with mixed character classes for strong rating"
  const PLAIN_REASON :=
    "16+ characters but fewer than 3 character classes — add uppercase, digits, or symbols"
  const STRONG_REASON := "16+ characters with 3 or more character classes (lower, upper, digit, symbol)"

  function PasswordStrength(pw: Password): (Strength, string) {
    if CharCount(pw) < WEAK_THRESHOLD then (Weak, WEAK_REASON)
    else if CharCount(pw) >= 16 then
      if ClassCount(pw) >= 3 then (Strong, STRONG_REASON) else (Fair, PLAIN_REASON)
    else (Fair, MIDDLE_REASON)
  }

  /** The password is this many characters long: of the text it spells, or bytes if it spells none. */
  ghost predicate Measures(pw: Password, n: nat) {
    || (exists text: string :: pw == Utf8.Encode(text) && |text| == n)
    || ((forall text: string :: pw != Utf8.Encode(text)) && |pw| == n)
  }

  /** No byte of the password lies in one of these ranges. */
  ghost predicate Lacks(pw: Password, ranges: seq<(int, int)>) {
    forall b <- pw, r <- ranges :: !(r.0 <= b <= r.1)
  }

  const LOWERCASE := [(97, 122)]
  const UPPERCASE := [(65, 90)]
  const DIGIT := [(48, 57)]
  const PUNCTUATION := [(33, 47), (58, 64), (91, 96), (123, 126)]

  /** Two of the four classes are both absent. */
  ghost predicate LacksTwo(pw: Password) {
    || (Lacks(pw, LOWERCASE) && Lacks(pw, UPPERCASE))
    || (Lacks(pw, LOWERCASE) && Lacks(pw, DIGIT))
    || (Lacks(pw, LOWERCASE) && Lacks(pw, PUNCTUATION))
    || (Lacks(pw, UPPERCASE) && Lacks(pw, DIGIT))
    || (Lacks(pw, UPPERCASE) && Lacks(pw, PUNCTUATION))
    || (Lacks(pw, DIGIT) && Lacks(pw, PUNCTUATION))
  }

  ghost predicate StrongRule(pw: Password) {
    (exists n: nat :: Measures(pw, n) && n >= 16) && !LacksTwo(pw)
  }

  ghost predicate WeakRule(pw: Password) {
    exists n: nat :: Measures(pw, n) && n < 8
  }

  ghost predicate FairRule(pw: Password) {
    !WeakRule(pw) && !StrongRule(pw)
  }

  lemma {:induction false} CharCountMeasures(pw: Password)
    ensures forall n: nat :: Measures(pw, n) <==> n == CharCount(pw)
  {
    if text: string :| pw == Utf8.Encode(text) {
      Utf8.DecodeIffEncode(pw, text);
      forall other: string | pw == Utf8.Encode(other)
        ensures other == text
      {
        Utf8.EncodeInjective(text, other);
      }
    } else if Utf8.Decode(pw).Some? {
      Utf8.DecodeIffEncode(pw, Utf8.Decode(pw).value);
      assert false;
    }
  }

  lemma ClassesLacked(pw: Password)
    ensures (exists b <- pw :: IsLower(b)) <==> !Lacks(pw, LOWERCASE)
    ensures (exists b <- pw :: IsUpper(b)) <==> !Lacks(pw, UPPERCASE)
    ensures (exists b <- pw :: IsDigit(b)) <==> !Lacks(pw, DIGIT)
    ensures (exists b <- pw :: IsSymbol(b)) <==> !Lacks(pw, PUNCTUATION)
  {
    forall b: Utf8.byte
      ensures IsSymbol(b) <==> exists r <- PUNCTUATION :: r.0 <= b <= r.1
    {
      assert PUNCTUATION[0] in PUNCTUATION && PUNCTUATION[1] in PUNCTUATION;
      assert PUNCTUATION[2] in PUNCTUATION && PUNCTUATION[3] in PUNCTUATION;
    }
    assert LOWERCASE[0] in LOWERCASE && UPPERCASE[0] in UPPERCASE && DIGIT[0] in DIGIT;
  }

  lemma {:induction false} ClassCountIff(pw: Password)
    ensures ClassCount(pw) >= 3 <==> !LacksTwo(pw)
  {
    ClassesLacked(pw);
    hide Lacks, IsLower, IsUpper, IsDigit, IsSymbol, LOWERCASE, UPPERCASE, DIGIT, PUNCTUATION;
  }

  /** The three ratings in plain terms. */
  lemma {:induction false} StrengthIff(pw: Password)
    ensures PasswordStrength(pw).0.Weak? <==> WeakRule(pw)
    ensures PasswordStrength(pw).0.Fair? <==> FairRule(pw)
    ensures PasswordStrength(pw).0.Strong? <==> StrongRule(pw)
  {
    CharCountMeasures(pw);
    ClassCountIff(pw);
    hide CharCount, Measures, ClassCount, LacksTwo;
    hide WEAK_REASON, MIDDLE_REASON, PLAIN_REASON, STRONG_REASON;
    assert Measures(pw, CharCount(pw));
  }

  /** Non-ASCII text is measured in characters: fewer than eight is weak however many bytes. */
  lemma {:induction false} WeakCountsCharacters(text: string)
    ensures PasswordStrength(Utf8.Encode(text)).0.Weak? <==> |text| < 8
  {
    Utf8.DecodeIffEncode(Utf8.Encode(text), text);
  }

  // ------------------------------------------------------------- specification

  function Score(item: MaskedItem, pw: Password): AuditItem {
    var (strength, reason) := PasswordStrength(pw);
    AuditItem(item.name, item.username, item.itemType, strength, reason)
  }

  /** The item scored, if it decrypts to a password that satisfies the test. */
  function Pick(v: Vault, item: MaskedItem, test: Password -> bool): seq<AuditItem> {
    match v.decrypt(item.name)
    case None => []
    case Some(pw) => if test(pw) then [Score(item, pw)] else []
  }

  /** The scored decryptable items that satisfy a test on their password, in order. */
  function Select(v: Vault, items: seq<MaskedItem>, test: Password -> bool): seq<AuditItem> {
    if items == [] then []
    else Select(v, items[..|items| - 1], test) + Pick(v, items[|items| - 1], test)
  }

  function Decryptable(v: Vault, items: seq<MaskedItem>): seq<AuditItem> {
    Select(v, items, _ => true)
  }

  function OfStrength(v: Vault, items: seq<MaskedItem>, s: Strength): seq<AuditItem> {
    Select(v, items, pw => PasswordStrength(pw).0 == s)
  }

  function WithDigest(v: Vault, items: seq<MaskedItem>, digest: string): seq<AuditItem> {
    Select(v, items, pw => v.fingerprint(pw) == digest)
  }

  /** The items that decrypt to one password. */
  function WithPassword(v: Vault, items: seq<MaskedItem>, password: Password): seq<AuditItem> {
    Select(v, items, pw => pw == password)
  }

  lemma {:induction false} SelectStep(v: Vault, items: seq<MaskedItem>, i: nat, test: Password -> bool)
    requires i < |items|
    ensures Select(v, items[..i + 1], test) ==
            Select(v, items[..i], test) + Pick(v, items[i], test)
  {
    assert items[..i + 1][..i] == items[..i];
  }

  /** Tests that agree on the passwords that occur select the same items. */
  lemma {:induction false} SelectAgrees(v: Vault, items: seq<MaskedItem>, p: Password -> bool, q: Password -> bool)
    requires forall i :: 0 <= i < |items| && v.decrypt(items[i].name).Some? ==>
               p(v.decrypt(items[i].name).value) == q(v.decrypt(items[i].name).value)
    ensures Select(v, items, p) == Select(v, items, q)
  {
    if items != [] {
      var init := items[..|items| - 1];
      assert forall i :: 0 <= i < |init| ==> init[i] == items[i];
      SelectAgrees(v, init, p, q);
    }
  }

  /** What a selection holds. */
  lemma {:induction false} SelectHolds(v: Vault, items: seq<MaskedItem>, test: Password -> bool)
    ensures forall a <- Select(v, items, test) :: v.decrypt(a.name).Some? && test(v.decrypt(a.name).value)
  {
    if items != [] {
      SelectHolds(v, items[..|items| - 1], test);
    }
  }

  lemma {:induction false} SelectHas(v: Vault, items: seq<MaskedItem>, test: Password -> bool, i: nat)
    requires i < |items| && v.decrypt(items[i].name).Some? && test(v.decrypt(items[i].name).value)
    ensures Score(items[i], v.decrypt(items[i].name).value) in Select(v, items, test)
  {
    if i < |items| - 1 {
      SelectHas(v, items[..|items| - 1], test, i);
    }
  }

  /** The items, by place, that decrypt to a password with a property. */
  ghost function Places(v: Vault, items: seq<MaskedItem>, test: Password -> bool): set<nat> {
    set i: nat | i < |items| && v.decrypt(items[i].name).Some? && test(v.decrypt(items[i].name).value)
  }

  ghost predicate Increasing(places: seq<nat>) {
    forall a, b :: 0 <= a < b < |places| ==> places[a] < places[b]
  }

  /** A selection is the scored items at these places, in list order, each once. */
  ghost predicate SelectedAt(v: Vault, items: seq<MaskedItem>, test: Password -> bool, sel: seq<AuditItem>,
                             places: seq<nat>) {
    && |sel| == |places| && Increasing(places)
    && (forall i: nat :: i in places <==> i in Places(v, items, test))
    && (forall k :: 0 <= k < |places| ==>
          && places[k] < |items| && v.decrypt(items[places[k]].name).Some?
          && ScoreOf(items[places[k]], v.decrypt(items[places[k]].name).value, sel[k]))
  }

  /** The item's own data and its password's strength. */
  predicate ScoreOf(item: MaskedItem, pw: Password, a: AuditItem) {
    && a.name == item.name && a.username == item.username && a.itemType == item.itemType
    && (a.strength, a.reason) == PasswordStrength(pw)
  }

  ghost predicate Selection(v: Vault, items: seq<MaskedItem>, test: Password -> bool, sel: seq<AuditItem>) {
    exists places :: SelectedAt(v, items, test, sel, places)
  }

  predicate Picked(v: Vault, item: MaskedItem, test: Password -> bool) {
    v.decrypt(item.name).Some? && test(v.decrypt(item.name).value)
  }

  lemma {:induction false} PlacesStep(v: Vault, items: seq<MaskedItem>, last: MaskedItem, test: Password -> bool)
    ensures Places(v, items + [last], test) ==
            Places(v, items, test) + if Picked(v, last, test) then {|items|} else {}
  {
    var all := items + [last];
    assert forall i :: 0 <= i < |items| ==> all[i] == items[i];
  }

  lemma {:induction false} SelectedStep(v: Vault, items: seq<MaskedItem>, last: MaskedItem, test: Password -> bool,
                                        sel: seq<AuditItem>, places: seq<nat>)
    requires SelectedAt(v, items, test, sel, places)
    ensures !Picked(v, last, test) ==> SelectedAt(v, items + [last], test, sel, places)
    ensures Picked(v, last, test) ==>
              SelectedAt(v, items + [last], test, sel + [Score(last, v.decrypt(last.name).value)], places + [|items|])
  {
    hide Places, PasswordStrength;
    PlacesStep(v, items, last, test);
    PlacesInRange(v, items, test);
    var all := items + [last];
    assert forall k :: 0 <= k < |places| ==> places[k] in places && all[places[k]] == items[places[k]];
  }

  lemma PlacesInRange(v: Vault, items: seq<MaskedItem>, test: Password -> bool)
    ensures forall i <- Places(v, items, test) :: i < |items|
  {
  }

  /** A selection is that in list order, and as large as the set of its places. */
  lemma {:induction false} SelectIs(v: Vault, items: seq<MaskedItem>, test: Password -> bool)
    ensures Selection(v, items, test, Select(v, items, test))
    ensures |Select(v, items, test)| == |Places(v, items, test)|
  {
    hide SelectedAt, Places, Score, Picked;
    if items == [] {
      NothingSelected(v, test);
    } else {
      var init, last := items[..|items| - 1], items[|items| - 1];
      SelectIs(v, init, test);
      assert items == init + [last];
      var places :| SelectedAt(v, init, test, Select(v, init, test), places);
      SelectedStep(v, init, last, test, Select(v, init, test), places);
      PlacesStep(v, init, last, test);
      PlacesInRange(v, init, test);
      PickIs(v, last, test);
      hide Pick;
      assert Select(v, init, test) + [] == Select(v, init, test);
    }
  }

  lemma PickIs(v: Vault, item: MaskedItem, test: Password -> bool)
    ensures Pick(v, item, test) == if Picked(v, item, test) then [Score(item, v.decrypt(item.name).value)] else []
  {
  }

  lemma NothingSelected(v: Vault, test: Password -> bool)
    ensures SelectedAt(v, [], test, [], []) && Places(v, [], test) == {}
  {
  }

  // ------------------------------------------------------------ partition laws

  /** Weak, fair and strong items partition the decryptable ones. */
  lemma {:induction false} StrengthsPartition(v: Vault, items: seq<MaskedItem>)
    ensures multiset(OfStrength(v, items, Weak)) + multiset(OfStrength(v, items, Fair))
            + multiset(OfStrength(v, items, Strong))
            == multiset(Decryptable(v, items))
  {
    hide PasswordStrength, Pick;
    if items != [] {
      var init, last := items[..|items| - 1], items[|items| - 1];
      StrengthsPartition(v, init);
      StrengthOfOne(v, last);
      MergeParts(OfStrength(v, init, Weak), OfStrength(v, init, Fair), OfStrength(v, init, Strong),
                 Decryptable(v, init),
                 Pick(v, last, pw => PasswordStrength(pw).0 == Weak),
                 Pick(v, last, pw => PasswordStrength(pw).0 == Fair),
                 Pick(v, last, pw => PasswordStrength(pw).0 == Strong),
                 Pick(v, last, _ => true));
    }
  }

  lemma StrengthOfOne(v: Vault, item: MaskedItem)
    ensures multiset(Pick(v, item, pw => PasswordStrength(pw).0 == Weak))
            + multiset(Pick(v, item, pw => PasswordStrength(pw).0 == Fair))
            + multiset(Pick(v, item, pw => PasswordStrength(pw).0 == Strong))
            == multiset(Pick(v, item, _ => true))
  {
    hide PasswordStrength;
  }

  lemma MergeParts<T>(a: seq<T>, b: seq<T>, c: seq<T>, whole: seq<T>,
                      a': seq<T>, b': seq<T>, c': seq<T>, whole': seq<T>)
    requires multiset(a) + multiset(b) + multiset(c) == multiset(whole)
    requires multiset(a') + multiset(b') + multiset(c') == multiset(whole')
    ensures multiset(a + a') + multiset(b + b') + multiset(c + c') == multiset(whole + whole')
  {
  }

  /** The three counts add up to the number of decryptable items. */
  lemma {:induction false} StrengthsAddUp(v: Vault, items: seq<MaskedItem>)
    ensures |OfStrength(v, items, Weak)| + |OfStrength(v, items, Fair)| + |OfStrength(v, items, Strong)|
            == |Decryptable(v, items)|
  {
    hide PasswordStrength, Select;
    StrengthsPartition(v, items);
    var w, f, s := OfStrength(v, items, Weak), OfStrength(v, items, Fair), OfStrength(v, items, Strong);
    assert |multiset(w) + multiset(f) + multiset(s)| == |w| + |f| + |s|;
  }

  function Passwords(v: Vault, items: seq<MaskedItem>): (ps: seq<Password>) {
    if items == [] then []
    else
      Passwords(v, items[..|items| - 1])
      + match v.decrypt(items[|items| - 1].name) case None => [] case Some(pw) => [pw]
  }

  lemma {:induction false} PasswordsHas(v: Vault, items: seq<MaskedItem>, i: nat)
    requires i < |items| && v.decrypt(items[i].name).Some?
    ensures v.decrypt(items[i].name).value in Passwords(v, items)
  {
    if i < |items| - 1 {
      PasswordsHas(v, items[..|items| - 1], i);
    }
  }

  /** The first password with the same fingerprint as `p` but different from it. */
  function Clash(v: Vault, p: Password, ps: seq<Password>): (r: Option<Password>)
    ensures r.Some? ==> r.value in ps && r.value != p && v.fingerprint(r.value) == v.fingerprint(p)
    ensures r.None? ==> forall q <- ps :: v.fingerprint(q) == v.fingerprint(p) ==> q == p
  {
    if ps == [] then None
    else if ps[0] != p && v.fingerprint(ps[0]) == v.fingerprint(p) then Some(ps[0])
    else
      assert ps == [ps[0]] + ps[1..];
      Clash(v, p, ps[1..])
  }

  /** Two different passwords of the list with one fingerprint, if there are any. */
  function FindCollision(v: Vault, ps: seq<Password>): (r: Option<(Password, Password)>)
    ensures r.Some? ==> r.value.0 in ps && r.value.1 in ps
    ensures r.Some? ==> r.value.0 != r.value.1 && v.fingerprint(r.value.0) == v.fingerprint(r.value.1)
    ensures r.None? ==> forall p <- ps, q <- ps :: v.fingerprint(p) == v.fingerprint(q) ==> p == q
  {
    if ps == [] then None
    else
      match Clash(v, ps[0], ps)
      case Some(q) => Some((ps[0], q))
      case None =>
        assert ps == [ps[0]] + ps[1..];
        FindCollision(v, ps[1..])
  }

  /** Without a collision, the items with a password's digest are those with the password. */
  lemma {:induction false} DigestIsPassword(v: Vault, items: seq<MaskedItem>, p: Password)
    requires FindCollision(v, Passwords(v, items)).None? && p in Passwords(v, items)
    ensures WithDigest(v, items, v.fingerprint(p)) == WithPassword(v, items, p)
  {
    hide FindCollision;
    forall i | 0 <= i < |items| && v.decrypt(items[i].name).Some?
      ensures v.decrypt(items[i].name).value in Passwords(v, items)
    {
      PasswordsHas(v, items, i);
    }
    SelectAgrees(v, items, pw => v.fingerprint(pw) == v.fingerprint(p), pw => pw == p);
  }

  // ------------------------------------------------------------- reuse reasons

  function Decimal(n: nat): string {
    if n < 10 then ["0123456789"[n]] else Decimal(n / 10) + ["0123456789"[n % 10]]
  }

  function JoinNames(names: seq<string>): string {
    if names == [] then "" else if |names| == 1 then names[0] else names[0] + ", " + JoinNames(names[1..])
  }

  function ReuseReason(others: seq<string>): string {
    "password shared with " + Decimal(|others|) + " other " + (if |others| == 1 then "item" else "items") + ": "
    + if |others| <= REUSE_NAME_DISPLAY_LIMIT then JoinNames(others)
      else
        JoinNames(others[..REUSE_NAME_DISPLAY_LIMIT])
        + ", ... and " + Decimal(|others| - REUSE_NAME_DISPLAY_LIMIT) + " more"
  }

  function Names(group: seq<AuditItem>): (names: seq<string>)
    ensures |names| == |group| && forall i :: 0 <= i < |group| ==> names[i] == group[i].name
  {
    if group == [] then [] else [group[0].name] + Names(group[1..])
  }

  /** The other members' names, in group order. */
  function OtherNames(group: seq<AuditItem>, i: nat): seq<string>
    requires i < |group|
  {
    Names(group[..i]) + Names(group[i + 1..])
  }

  /** Only the reasons changed, each to one that lists the other members. */
  ghost predicate Rewritten(group: seq<AuditItem>, result: seq<AuditItem>) {
    && |result| == |group|
    && forall i :: 0 <= i < |group| ==> result[i] == group[i].(reason := ReuseReason(OtherNames(group, i)))
  }

  /** The digits spell the number, without leading zeros. */
  ghost predicate Numeral(digits: string, n: nat) {
    && digits != "" && (forall c <- digits :: '0' <= c <= '9') && ValueOf(digits) == n
    && (|digits| > 1 ==> digits[0] != '0')
  }

  ghost function ValueOf(digits: string): int {
    if digits == "" then 0
    else ValueOf(digits[..|digits| - 1]) * 10 + (digits[|digits| - 1] as int - '0' as int)
  }

  /** The names one behind the other, each but the first after a comma and a space. */
  ghost function Listed(names: seq<string>): string {
    if |names| <= 1 then if names == [] then "" else names[0]
    else Listed(names[..|names| - 1]) + ", " + names[|names| - 1]
  }

  /** How many others there are, the first five of them by name, and how many more if there are more. */
  ghost predicate NamesOthers(reason: string, others: seq<string>) {
    exists count, tail ::
      && reason == "password shared with " + count + " other " + (if |others| == 1 then "item" else "items") + ": " +
                   (Listed(if |others| <= 5 then others else others[..5]) + tail)
      && Numeral(count, |others|)
      && Tail(tail, others)
  }

  ghost predicate Tail(tail: string, others: seq<string>) {
    if |others| <= 5 then tail == ""
    else exists more :: tail == ", ... and " + more + " more" && Numeral(more, |others| - 5)
  }

  lemma {:induction false} DecimalIs(n: nat)
    ensures Numeral(Decimal(n), n)
    ensures n > 0 ==> Decimal(n)[0] != '0'
  {
    if n < 10 {
      assert "0123456789"[n] as int == '0' as int + n;
    } else {
      DecimalIs(n / 10);
      var d := Decimal(n);
      assert d[..|d| - 1] == Decimal(n / 10);
      assert "0123456789"[n % 10] as int == '0' as int + n % 10;
    }
  }

  lemma {:induction false} JoinNamesLast(names: seq<string>, last: string)
    requires names != []
    ensures JoinNames(names + [last]) == JoinNames(names) + ", " + last
  {
    if |names| == 1 {
      assert (names + [last])[1..] == [last];
    } else {
      JoinNamesLast(names[1..], last);
      assert (names + [last])[1..] == names[1..] + [last];
    }
  }

  lemma {:induction false} JoinNamesIs(names: seq<string>)
    ensures JoinNames(names) == Listed(names)
  {
    if |names| > 1 {
      var init := names[..|names| - 1];
      JoinNamesIs(init);
      JoinNamesLast(init, names[|names| - 1]);
      assert names == init + [names[|names| - 1]];
    }
  }

  /** The reason in plain terms. */
  lemma {:induction false} ReasonNamesOthers(others: seq<string>)
    ensures NamesOthers(ReuseReason(others), others)
  {
    hide Numeral, Decimal, JoinNames, Listed;
    DecimalIs(|others|);
    var n := |others|;
    if n <= 5 {
      JoinNamesIs(others);
      assert Tail("", others);
      assert Listed(others) + "" == Listed(others);
    } else {
      JoinNamesIs(others[..5]);
      DecimalIs(n - 5);
      var tail := ", ... and " + Decimal(n - 5) + " more";
      assert Tail(tail, others);
      ReasonParts(Listed(others[..5]), Decimal(n - 5));
    }
  }

  lemma ReasonParts(list: string, more: string)
    ensures list + ", ... and " + more + " more" == list + (", ... and " + more + " more")
  {
  }

  /** The others are all members but the item itself, in group order. */
  lemma {:induction false} OthersAre(group: seq<AuditItem>, i: nat)
    requires i < |group|
    ensures |OtherNames(group, i)| == |group| - 1
    ensures forall k :: 0 <= k < |group| - 1 ==> OtherNames(group, i)[k] == group[if k < i then k else k + 1].name
  {
  }

  lemma EmptyNames()
    ensures Names([]) == []
  {
  }

  lemma NamesStep(group: seq<AuditItem>, lo: nat, j: nat)
    requires lo <= j < |group|
    ensures Names(group[lo..j + 1]) == Names(group[lo..j]) + [group[j].name]
  {
  }

  /** The names of all members but the `i`-th, as the inner loop collects them. */
  method CollectOthers(group: seq<AuditItem>, i: nat) returns (others: seq<string>)
    requires i < |group|
    ensures others == OtherNames(group, i)
  {
    hide Names;
    others := [];
    EmptyNames();
    for j := 0 to |group|
      invariant others == if j <= i then Names(group[..j]) else Names(group[..i]) + Names(group[i + 1..j])
    {
      if j != i {
        others := others + [group[j].name];
        if j < i {
          NamesStep(group, 0, j);
        } else {
          NamesStep(group, i + 1, j);
          ConcatAssociative(Names(group[..i]), Names(group[i + 1..j]), [group[j].name]);
        }
      } else {
        assert Names(group[..i]) + [] == Names(group[..i]);
      }
    }
    assert group[i + 1..|group|] == group[i + 1..];
  }

  /** Overwrites the reasons one member after the other, reading the names as it goes. */
  method RewriteReasons(group: seq<AuditItem>) returns (result: seq<AuditItem>)
    ensures Rewritten(group, result)
    ensures forall i :: 0 <= i < |group| ==> NamesOthers(result[i].reason, OtherNames(group, i))
  {
    hide ReuseReason, NamesOthers;
    result := group;
    for i := 0 to |group|
      invariant |result| == |group|
      invariant forall k :: 0 <= k < |group| ==>
                  result[k] == if k < i then group[k].(reason := ReuseReason(OtherNames(group, k))) else group[k]
    {
      var others := CollectOthers(result, i);
      assert Names(result[..i]) == Names(group[..i]);
      assert Names(result[i + 1..]) == Names(group[i + 1..]);
      result := result[i := result[i].(reason := ReuseReason(others))];
    }
    forall i | 0 <= i < |group|
      ensures NamesOthers(result[i].reason, OtherNames(group, i))
    {
      ReasonNamesOthers(OtherNames(group, i));
    }
  }

  // ------------------------------------------------------------------ the audit

  datatype AuditResult = AuditResult(
    totalItems: nat,
    weakPasswords: seq<AuditItem>,
    reusedPasswords: seq<seq<AuditItem>>,
    fairPasswordsCount: nat)

  /** The digests of the groups with more than one item, each once, in report order. */
  ghost predicate ReportedDigests(v: Vault, items: seq<MaskedItem>, digests: seq<string>, groups: seq<seq<AuditItem>>) {
    && |digests| == |groups|
    && (forall i, j :: 0 <= i < j < |digests| ==> digests[i] != digests[j])
    && (forall i :: 0 <= i < |digests| ==>
          |WithDigest(v, items, digests[i])| > 1 && Rewritten(WithDigest(v, items, digests[i]), groups[i]))
    && (forall d :: |WithDigest(v, items, d)| > 1 ==> d in digests)
  }

  lemma {:induction false} PlacesAgree(v: Vault, items: seq<MaskedItem>, p: Password -> bool, q: Password -> bool)
    requires forall pw: Password :: p(pw) == q(pw)
    ensures Places(v, items, p) == Places(v, items, q)
  {
  }

  /** The weak and the fair items in plain terms. */
  lemma {:induction false} RatedPlaces(v: Vault, items: seq<MaskedItem>)
    ensures Selection(v, items, pw => WeakRule(pw), OfStrength(v, items, Weak))
    ensures |OfStrength(v, items, Fair)| == |Places(v, items, pw => FairRule(pw))|
  {
    hide PasswordStrength, Select, WeakRule, FairRule, StrongRule, Places;
    forall pw: Password
      ensures PasswordStrength(pw).0 == Weak <==> WeakRule(pw)
      ensures PasswordStrength(pw).0 == Fair <==> FairRule(pw)
    {
      StrengthIff(pw);
    }
    SelectIs(v, items, pw => PasswordStrength(pw).0 == Weak);
    SelectIs(v, items, pw => PasswordStrength(pw).0 == Fair);
    PlacesAgree(v, items, pw => PasswordStrength(pw).0 == Weak, pw => WeakRule(pw));
    PlacesAgree(v, items, pw => PasswordStrength(pw).0 == Fair, pw => FairRule(pw));
    var places :| SelectedAt(v, items, pw => PasswordStrength(pw).0 == Weak, OfStrength(v, items, Weak), places);
    assert SelectedAt(v, items, pw => WeakRule(pw), OfStrength(v, items, Weak), places);
  }

  method RunAudit(v: Vault, items: seq<MaskedItem>) returns (r: AuditResult, ghost digests: seq<string>)
    ensures r.totalItems == |items|
    ensures r.weakPasswords == OfStrength(v, items, Weak)
    ensures Selection(v, items, pw => WeakRule(pw), r.weakPasswords)
    ensures r.fairPasswordsCount == |Places(v, items, pw => FairRule(pw))|
    ensures ReportedDigests(v, items, digests, r.reusedPasswords)
  {
    hide PasswordStrength, Rewritten;
    var weak: seq<AuditItem> := [];
    var fairCount: nat := 0;
    var reuse: map<string, seq<AuditItem>> := map[];
    for i := 0 to |items|
      invariant weak == OfStrength(v, items[..i], Weak)
      invariant fairCount == |OfStrength(v, items[..i], Fair)|
      invariant Grouped(v, items[..i], reuse)
    {
      var masked := items[i];
      SelectStep(v, items, i, pw => PasswordStrength(pw).0 == Weak);
      SelectStep(v, items, i, pw => PasswordStrength(pw).0 == Fair);
      GroupedStep(v, items, i, reuse);
      var pw := v.decrypt(masked.name);
      if pw.None? {
        continue;
      }
      var item := Score(masked, pw.value);
      if item.strength == Weak {
        weak := weak + [item];
      } else if item.strength == Fair {
        fairCount := fairCount + 1;
      }
      var digest := v.fingerprint(pw.value);
      reuse := reuse[digest := (if digest in reuse then reuse[digest] else []) + [item]];
    }
    assert items[..|items|] == items;
    RatedPlaces(v, items);
    var groups;
    groups, digests := CollectReused(v, items, reuse);
    r := AuditResult(|items|, weak, groups, fairCount);
  }

  /** The map holds exactly the nonempty digest classes. */
  ghost predicate Grouped(v: Vault, items: seq<MaskedItem>, reuse: map<string, seq<AuditItem>>) {
    && (forall d :: d in reuse ==> reuse[d] == WithDigest(v, items, d) && reuse[d] != [])
    && (forall d :: d !in reuse ==> WithDigest(v, items, d) == [])
  }

  lemma {:induction false} GroupedStep(v: Vault, items: seq<MaskedItem>, i: nat, reuse: map<string, seq<AuditItem>>)
    requires i < |items| && Grouped(v, items[..i], reuse)
    ensures v.decrypt(items[i].name).None? ==> Grouped(v, items[..i + 1], reuse)
    ensures v.decrypt(items[i].name).Some? ==>
              var pw := v.decrypt(items[i].name).value;
              var d := v.fingerprint(pw);
              Grouped(v, items[..i + 1], reuse[d := (if d in reuse then reuse[d] else []) + [Score(items[i], pw)]])
  {
    hide Select, PasswordStrength;
    forall d
      ensures WithDigest(v, items[..i + 1], d) ==
              WithDigest(v, items[..i], d) + Pick(v, items[i], pw => v.fingerprint(pw) == d)
    {
      SelectStep(v, items, i, pw => v.fingerprint(pw) == d);
    }
  }

  /** Walks the map's values in arbitrary order and keeps the groups of two or more. */
  method CollectReused(v: Vault, items: seq<MaskedItem>, reuse: map<string, seq<AuditItem>>)
    returns (groups: seq<seq<AuditItem>>, ghost digests: seq<string>)
    requires Grouped(v, items, reuse)
    ensures ReportedDigests(v, items, digests, groups)
  {
    hide Select, Rewritten;
    groups, digests := [], [];
    var left := reuse.Keys;
    while left != {}
      invariant left <= reuse.Keys
      invariant |digests| == |groups|
      invariant forall i :: 0 <= i < |digests| ==> digests[i] in reuse && digests[i] !in left
      invariant forall i, j :: 0 <= i < j < |digests| ==> digests[i] != digests[j]
      invariant forall i :: 0 <= i < |digests| ==> |reuse[digests[i]]| > 1 && Rewritten(reuse[digests[i]], groups[i])
      invariant forall d :: d in reuse && d !in left && |reuse[d]| > 1 ==> d in digests
      decreases |left|
    {
      var d :| d in left;
      left := left - {d};
      if |reuse[d]| > 1 {
        var group := RewriteReasons(reuse[d]);
        groups := groups + [group];
        digests := digests + [d];
      }
    }
  }

  /**
   The report's groups are exactly the classes of two or more items with one
   password, each class once, or a fingerprint collision between two of the
   audited passwords is exhibited.
   */
  lemma {:induction false} GroupsAreClasses(v: Vault, items: seq<MaskedItem>, digests: seq<string>,
                                            groups: seq<seq<AuditItem>>)
    requires ReportedDigests(v, items, digests, groups)
    ensures match FindCollision(v, Passwords(v, items))
            case Some((p, q)) =>
              && p in Passwords(v, items) && q in Passwords(v, items)
              && p != q && v.fingerprint(p) == v.fingerprint(q)
            case None =>
              && (forall i :: 0 <= i < |groups| ==>
                    Explained(v, items, groups[i]))
              && (forall p <- Passwords(v, items) :: |WithPassword(v, items, p)| > 1 ==>
                    ReportedOnce(v, items, p, groups))
  {
    hide FindCollision, Rewritten, Select;
    if FindCollision(v, Passwords(v, items)).None? {
      forall i | 0 <= i < |groups|
        ensures Explained(v, items, groups[i])
      {
        var p := PasswordBehind(v, items, digests[i]);
        DigestIsPassword(v, items, p);
        assert IsClassOf(v, items, p, groups[i]);
      }
      forall p | p in Passwords(v, items) && |WithPassword(v, items, p)| > 1
        ensures ReportedOnce(v, items, p, groups)
      {
        ClassReportedOnce(v, items, p, digests, groups);
      }
    }
  }

  /** The group is the class of two or more items with this password, with rewritten reasons. */
  ghost predicate IsClassOf(v: Vault, items: seq<MaskedItem>, p: Password, group: seq<AuditItem>) {
    |WithPassword(v, items, p)| > 1 && Rewritten(WithPassword(v, items, p), group)
  }

  /** The group is the class of one of the audited passwords. */
  ghost predicate Explained(v: Vault, items: seq<MaskedItem>, group: seq<AuditItem>) {
    exists p :: p in Passwords(v, items) && IsClassOf(v, items, p, group)
  }

  ghost predicate ReportedOnce(v: Vault, items: seq<MaskedItem>, p: Password, groups: seq<seq<AuditItem>>) {
    exists i :: 0 <= i < |groups| && IsClassOf(v, items, p, groups[i])
                && forall j :: 0 <= j < |groups| && j != i ==> !IsClassOf(v, items, p, groups[j])
  }

  lemma {:induction false} ClassReportedOnce(v: Vault, items: seq<MaskedItem>, p: Password,
                                             digests: seq<string>, groups: seq<seq<AuditItem>>)
    requires ReportedDigests(v, items, digests, groups)
    requires FindCollision(v, Passwords(v, items)).None? && p in Passwords(v, items) && |WithPassword(v, items, p)| > 1
    ensures ReportedOnce(v, items, p, groups)
  {
    hide FindCollision, Select;
    DigestIsPassword(v, items, p);
    var i :| 0 <= i < |digests| && digests[i] == v.fingerprint(p);
    assert IsClassOf(v, items, p, groups[i]);
    forall j | 0 <= j < |groups| && j != i
      ensures !IsClassOf(v, items, p, groups[j])
    {
      if IsClassOf(v, items, p, groups[j]) {
        MemberDigest(v, items, digests[j], p, groups[j]);
        assert false;
      }
    }
  }

  /** A group belongs to one digest: its first member's password has it. */
  lemma {:induction false} MemberDigest(v: Vault, items: seq<MaskedItem>, digest: string, p: Password,
                                        group: seq<AuditItem>)
    requires WithDigest(v, items, digest) != [] && Rewritten(WithDigest(v, items, digest), group)
    requires Rewritten(WithPassword(v, items, p), group)
    ensures digest == v.fingerprint(p)
  {
    hide Select;
    var a, b := WithDigest(v, items, digest)[0], WithPassword(v, items, p)[0];
    assert a.name == group[0].name == b.name;
    SelectHolds(v, items, pw => v.fingerprint(pw) == digest);
    SelectHolds(v, items, pw => pw == p);
  }

  lemma {:induction false} PasswordBehind(v: Vault, items: seq<MaskedItem>, digest: string) returns (p: Password)
    requires WithDigest(v, items, digest) != []
    ensures p in Passwords(v, items) && v.fingerprint(p) == digest
  {
    var i := ItemBehind(v, items, pw => v.fingerprint(pw) == digest);
    PasswordsHas(v, items, i);
    p := v.decrypt(items[i].name).value;
  }

  lemma {:induction false} ItemBehind(v: Vault, items: seq<MaskedItem>, test: Password -> bool) returns (i: nat)
    requires Select(v, items, test) != []
    ensures i < |items| && v.decrypt(items[i].name).Some? && test(v.decrypt(items[i].name).value)
  {
    i := |items| - 1;
    if v.decrypt(items[i].name).None? || !test(v.decrypt(items[i].name).value) {
      i := ItemBehind(v, items[..|items| - 1], test);
    }
  }

  /** Every decryptable item is in its digest's class, and no other class has an item of its name. */
  lemma {:induction false} OneClassPerItem(v: Vault, items: seq<MaskedItem>, i: nat)
    requires i < |items| && v.decrypt(items[i].name).Some?
    ensures var pw := v.decrypt(items[i].name).value;
            && Score(items[i], pw) in WithDigest(v, items, v.fingerprint(pw))
            && forall d, a :: a in WithDigest(v, items, d) && a.name == items[i].name ==> d == v.fingerprint(pw)
  {
    hide Select;
    var pw := v.decrypt(items[i].name).value;
    SelectHas(v, items, q => v.fingerprint(q) == v.fingerprint(pw), i);
    forall d, a | a in WithDigest(v, items, d) && a.name == items[i].name
      ensures d == v.fingerprint(pw)
    {
      SelectHolds(v, items, q => v.fingerprint(q) == d);
    }
  }
}
