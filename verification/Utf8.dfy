/**
 UTF-8 (section 3 of RFC 3629) and the boundary-safe truncation used for push
 notifications. A Dafny `char` is a Unicode scalar value, as a Rust `char` is.
 */
module Utf8 {
  import opened Wrappers

  type byte = b: int | 0 <= b < 256

  predicate IsContinuation(b: byte) {
    0x80 <= b < 0xC0
  }

  // ----------------------------------------------------------------- encoding

  function EncodeChar(c: char): (bs: seq<byte>)
    ensures 1 <= |bs| <= 4
    ensures !IsContinuation(bs[0])
    ensures forall i :: 1 <= i < |bs| ==> IsContinuation(bs[i])
  {
    var n := c as int;
    if n < 0x80 then [n]
    else if n < 0x800 then [0xC0 + n / 64, 0x80 + n % 64]
    else if n < 0x1_0000 then [0xE0 + n / 64 / 64, 0x80 + n / 64 % 64, 0x80 + n % 64]
    else [0xF0 + n / 64 / 64 / 64, 0x80 + n / 64 / 64 % 64, 0x80 + n / 64 % 64, 0x80 + n % 64]
  }

  function Encode(s: string): seq<byte> {
    if s == "" then [] else EncodeChar(s[0]) + Encode(s[1..])
  }

  predicate IsAscii(s: string) {
    forall i :: 0 <= i < |s| ==> s[i] < '\U{80}'
  }

  lemma {:induction false} EncodeAppend(s: string, t: string)
    ensures Encode(s + t) == Encode(s) + Encode(t)
  {
    if s == "" {
      assert s + t == t;
    } else {
      EncodeAppend(s[1..], t);
      assert (s + t)[1..] == s[1..] + t;
    }
  }

  /** Encoding never shrinks a text, and keeps its length only when it is ASCII. */
  lemma {:induction false} EncodeLength(s: string)
    ensures |Encode(s)| >= |s|
    ensures |Encode(s)| == |s| <==> IsAscii(s)
  {
    if s != "" {
      EncodeLength(s[1..]);
      assert |EncodeChar(s[0])| == 1 <==> s[0] < '\U{80}';
      assert s == [s[0]] + s[1..];
      assert IsAscii(s[1..]) <==> forall i :: 1 <= i < |s| ==> s[i] < '\U{80}';
    }
  }

  /** The bits of a character are those behind the lead byte's mark, then six of each byte that follows. */
  function Payload(bs: seq<byte>, mark: int): int {
    if bs == [] then 0
    else if |bs| == 1 then bs[0] - mark
    else
      var last: int := bs[|bs| - 1];
      Payload(bs[..|bs| - 1], mark) * 64 + (last - 128)
  }

  /** The table of section 3 of RFC 3629: ranges, lengths, lead bytes, and the bits in order. */
  lemma {:induction false} EncodedPerTable(c: char)
    ensures var n, bs := c as int, EncodeChar(c);
            && (n <= 0x7F ==> |bs| == 1 && bs[0] <= 0x7F && Payload(bs, 0) == n)
            && (0x80 <= n <= 0x7FF ==> |bs| == 2 && 0xC0 <= bs[0] <= 0xDF && Payload(bs, 0xC0) == n)
            && (0x800 <= n <= 0xFFFF ==> |bs| == 3 && 0xE0 <= bs[0] <= 0xEF && Payload(bs, 0xE0) == n)
            && (0x1_0000 <= n ==> |bs| == 4 && 0xF0 <= bs[0] <= 0xF7 && Payload(bs, 0xF0) == n)
    ensures forall i :: 1 <= i < |EncodeChar(c)| ==> 0x80 <= EncodeChar(c)[i] <= 0xBF
  {
    var n, bs := c as int, EncodeChar(c);
    if 0x80 <= n <= 0x7FF {
      assert bs[..1] == [bs[0]];
    } else if 0x800 <= n <= 0xFFFF {
      assert bs[..2][..1] == [bs[0]];
      assert Payload(bs[..2], 0xE0) == n / 64;
    } else if 0x1_0000 <= n {
      assert bs[..3][..2] == bs[..2] && bs[..2][..1] == [bs[0]];
      assert Payload(bs[..2], 0xF0) == n / 64 / 64;
      assert Payload(bs[..3], 0xF0) == n / 64;
    }
  }

  // ----------------------------------------------------------------- decoding

  /** Appends the six payload bits of a continuation byte. */
  function AddBits(n: nat, b: byte): nat
    requires IsContinuation(b)
  {
    var payload: int := b;
    n * 64 + (payload - 0x80)
  }

  /** The scalar value at the front, with the number of bytes that spell it. */
  function DecodeLead(bs: seq<byte>): (r: Option<(char, nat)>)
    ensures r.Some? ==> 1 <= r.value.1 <= |bs|
  {
    if bs == [] then None
    else
      var b: int := bs[0];
      if b < 0x80 then Some((b as char, 1))
      else if 0xC2 <= b < 0xE0 && |bs| >= 2 && IsContinuation(bs[1]) then
        var n := AddBits(b - 0xC0, bs[1]);
        Some((n as char, 2))
      else if 0xE0 <= b < 0xF0 && |bs| >= 3 && IsContinuation(bs[1]) && IsContinuation(bs[2]) then
        var n := AddBits(AddBits(b - 0xE0, bs[1]), bs[2]);
        if n < 0x800 || 0xD800 <= n < 0xE000 then None else Some((n as char, 3))
      else if 0xF0 <= b < 0xF5 && |bs| >= 4
              && IsContinuation(bs[1]) && IsContinuation(bs[2]) && IsContinuation(bs[3]) then
        var n := AddBits(AddBits(AddBits(b - 0xF0, bs[1]), bs[2]), bs[3]);
        if n < 0x1_0000 || n > 0x10_FFFF then None else Some((n as char, 4))
      else None
  }

  /** `str::from_utf8`: the text that the bytes spell, if they spell one. */
  function Decode(bs: seq<byte>): Option<string>
    decreases |bs|
  {
    if bs == [] then Some("")
    else
      match DecodeLead(bs)
      case None => None
      case Some((c, k)) =>
        match Decode(bs[k..])
        case None => None
        case Some(rest) => Some([c] + rest)
  }

  lemma {:induction false} DecodeLeadOfEncode(c: char, rest: seq<byte>)
    ensures DecodeLead(EncodeChar(c) + rest) == Some((c, |EncodeChar(c)|))
  {
    var n := c as int;
    var bs := EncodeChar(c) + rest;
    var k := |EncodeChar(c)|;
    assert forall i :: 0 <= i < k ==> bs[i] == EncodeChar(c)[i];
    if 0x800 <= n < 0x1_0000 {
      assert AddBits(n / 64 / 64, bs[1]) == n / 64;
    } else if 0x1_0000 <= n {
      assert AddBits(n / 64 / 64 / 64, bs[1]) == n / 64 / 64;
      assert AddBits(n / 64 / 64, bs[2]) == n / 64;
    }
  }

  lemma {:induction false} EncodeOfDecodeLead(bs: seq<byte>)
    requires DecodeLead(bs).Some?
    ensures bs[..DecodeLead(bs).value.1] == EncodeChar(DecodeLead(bs).value.0)
  {
    var n := DecodeLead(bs).value.0 as int;
    var k := DecodeLead(bs).value.1;
    var b: int := bs[0];
    if k == 2 {
      assert n / 64 == b - 0xC0 && n % 64 == bs[1] - 0x80;
    } else if k == 3 {
      assert n / 64 == AddBits(b - 0xE0, bs[1]) && n % 64 == bs[2] - 0x80;
    } else if k == 4 {
      assert n / 64 == AddBits(AddBits(b - 0xF0, bs[1]), bs[2]) && n % 64 == bs[3] - 0x80;
      assert n / 64 / 64 == AddBits(b - 0xF0, bs[1]) && n / 64 % 64 == bs[2] - 0x80;
    }
    assert |EncodeChar(n as char)| == k;
  }

  /** Decoding accepts exactly the encodings, and inverts them. */
  lemma {:induction false} DecodeIffEncode(bs: seq<byte>, s: string)
    ensures Decode(bs) == Some(s) <==> bs == Encode(s)
    decreases |bs|
  {
    if bs == [] {
      if s != "" {
        assert |Encode(s)| >= 1;
      }
    } else {
      if s != "" && bs == Encode(s) {
        var rest := Encode(s[1..]);
        DecodeLeadOfEncode(s[0], rest);
        assert bs[|EncodeChar(s[0])|..] == rest;
        DecodeIffEncode(rest, s[1..]);
        assert [s[0]] + s[1..] == s;
      }
      if Decode(bs) == Some(s) {
        EncodeOfDecodeLead(bs);
        var (c, k) := DecodeLead(bs).value;
        assert s[0] == c && s[1..] == Decode(bs[k..]).value;
        DecodeIffEncode(bs[k..], s[1..]);
        assert bs == bs[..k] + bs[k..];
      }
    }
  }

  /** Different texts never share an encoding. */
  lemma {:induction false} EncodeInjective(s: string, t: string)
    requires Encode(s) == Encode(t)
    ensures s == t
  {
    DecodeIffEncode(Encode(s), s);
    DecodeIffEncode(Encode(s), t);
  }

  // --------------------------------------------------------------- truncation

  /** `str::is_char_boundary`. */
  predicate IsCharBoundary(bs: seq<byte>, i: nat) {
    i == 0 || i == |bs| || (i < |bs| && !IsContinuation(bs[i]))
  }

  /** How many whole characters of `s` fit into `budget` bytes. */
  function FittingPrefix(s: string, budget: nat): (k: nat)
    ensures k <= |s|
  {
    if s == "" || |EncodeChar(s[0])| > budget then 0
    else 1 + FittingPrefix(s[1..], budget - |EncodeChar(s[0])|)
  }

  /** That count is the largest one whose encoding fits. */
  lemma {:induction false} FittingPrefixIsLongest(s: string, budget: nat, k: nat)
    requires k <= |s|
    ensures |Encode(s[..k])| <= budget <==> k <= FittingPrefix(s, budget)
  {
    if k > 0 {
      var head := |EncodeChar(s[0])|;
      assert s[..k][1..] == s[1..][..k - 1];
      assert |Encode(s[..k])| == head + |Encode(s[1..][..k - 1])|;
      if head <= budget {
        FittingPrefixIsLongest(s[1..], budget - head, k - 1);
      }
    }
  }

  /** Behind one encoded character, boundaries are those of what follows. */
  lemma BoundaryBehind(head: seq<byte>, s: string, i: nat)
    requires head != [] && |head| <= i <= |head + Encode(s)|
    ensures IsCharBoundary(head + Encode(s), i) <==> IsCharBoundary(Encode(s), i - |head|)
  {
    var rest := Encode(s);
    assert rest != [] ==> !IsContinuation(rest[0]);
    assert i < |head + rest| ==> (head + rest)[i] == rest[i - |head|];
  }

  /** The last boundary at or below the budget is where the longest fitting prefix ends. */
  lemma {:induction false} BoundaryEndsPrefix(s: string, budget: nat, end: nat)
    requires budget < |Encode(s)| && end <= budget
    requires IsCharBoundary(Encode(s), end)
    requires forall i :: end < i <= budget ==> !IsCharBoundary(Encode(s), i)
    ensures Encode(s)[..end] == Encode(s[..FittingPrefix(s, budget)])
    ensures budget - end <= 3
  {
    hide EncodeChar;
    var head := EncodeChar(s[0]);
    var rest := Encode(s[1..]);
    var bs := Encode(s);
    assert bs == head + rest;
    if budget < |head| {
      assert end == 0 by {
        assert forall i :: 0 < i <= budget ==> bs[i] == head[i];
      }
      assert Encode(s[..0]) == [];
    } else {
      BoundaryBehind(head, s[1..], |head|);
      assert end >= |head|;
      BoundaryBehind(head, s[1..], end);
      forall j | end - |head| < j <= budget - |head|
        ensures !IsCharBoundary(rest, j)
      {
        assert !IsCharBoundary(bs, j + |head|);
        BoundaryBehind(head, s[1..], j + |head|);
      }
      BoundaryEndsPrefix(s[1..], budget - |head|, end - |head|);
      var k := FittingPrefix(s[1..], budget - |head|);
      assert s[..k + 1][1..] == s[1..][..k];
      assert bs[..end] == head + rest[..end - |head|];
    }
  }

  /** Cuts `bs`, the encoding of `text`, to at most `maxBytes` bytes. */
  method TruncateUtf8(bs: seq<byte>, maxBytes: nat, ghost text: string) returns (r: seq<byte>)
    requires bs == Encode(text)
    ensures |bs| <= maxBytes ==> r == bs
    ensures |bs| > maxBytes ==> maxBytes - 3 <= |r| <= maxBytes
    ensures r == Encode(text[..FittingPrefix(text, maxBytes)])
  {
    if |bs| <= maxBytes {
      assert text[..|text|] == text;
      FittingPrefixIsLongest(text, maxBytes, |text|);
      return bs;
    }
    var end := maxBytes;
    while end > 0 && !IsCharBoundary(bs, end)
      invariant 0 <= end <= maxBytes
      invariant forall i :: end < i <= maxBytes ==> !IsCharBoundary(bs, i)
    {
      end := end - 1;
    }
    BoundaryEndsPrefix(text, maxBytes, end);
    r := bs[..end];
  }
}
