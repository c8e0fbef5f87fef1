/** UTF-8 as section 4 of RFC 3629 defines it: a lead byte that gives the length, then continuation
    bytes, with no overlong form, no surrogate and nothing above U+10FFFF. */
module Utf8 {
  import opened Bytes

  /** `utf8_char_end`: the length that a lead byte announces. */
  function CharLen(lead: byte): (len: nat)
    ensures 1 <= len <= 4
  {
    if lead < 0xC0 then 1 else if lead < 0xE0 then 2 else if lead < 0xF0 then 3 else 4
  }

  predicate Continuation(b: byte) {
    0x80 <= b < 0xC0
  }

  /** The lead bytes that occur: C0, C1 and F5 and above would be overlong or out of range. */
  predicate Lead(b: byte) {
    b < 0x80 || 0xC2 <= b < 0xF5
  }

  /** The four leads that narrow their second byte: E0 and F0 against overlong forms, ED against
      surrogates, F4 against code points that are too large. */
  predicate SecondFits(lead: byte, second: byte) {
    && (lead == 0xE0 ==> 0xA0 <= second)
    && (lead == 0xED ==> second < 0xA0)
    && (lead == 0xF0 ==> 0x90 <= second)
    && (lead == 0xF4 ==> second < 0x90)
  }

  /** One code point. */
  predicate IsChar(c: seq<byte>) {
    && c != []
    && Lead(c[0])
    && |c| == CharLen(c[0])
    && (|c| > 1 ==> SecondFits(c[0], c[1]))
    && forall i :: 1 <= i < |c| ==> Continuation(c[i])
  }

  /** The code points that UTF-8 encodes: all but the surrogates. */
  predicate Scalar(p: nat) {
    p < 0xD800 || 0xE000 <= p < 0x11_0000
  }

  function Encode(p: nat): seq<byte>
    requires Scalar(p)
  {
    if p < 0x80 then [p]
    else if p < 0x800 then [0xC0 + p / 64, 0x80 + p % 64]
    else if p < 0x1_0000 then [0xE0 + p / 4096, 0x80 + p / 64 % 64, 0x80 + p % 64]
    else [0xF0 + p / 262_144, 0x80 + p / 4096 % 64, 0x80 + p / 64 % 64, 0x80 + p % 64]
  }

  /** The encoding of a code point is one. */
  lemma EncodedIsChar(p: nat)
    requires Scalar(p)
    ensures IsChar(Encode(p))
  {
    var second := p / 4096 % 64;
    assert p / 4096 == 64 * (p / 262_144) + second;
    assert p / 64 == 64 * (p / 4096) + p / 64 % 64;
  }

  lemma Pack2(a: nat, b: nat)
    requires 2 <= a < 32 && b < 64
    ensures Scalar(64 * a + b) && Encode(64 * a + b) == [0xC0 + a, 0x80 + b]
  {
  }

  lemma Pack3(a: nat, b: nat, c: nat)
    requires a < 16 && b < 64 && c < 64
    requires (a == 0 ==> b >= 32) && (a == 13 ==> b < 32)
    ensures var p := 4096 * a + 64 * b + c; Scalar(p) && Encode(p) == [0xE0 + a, 0x80 + b, 0x80 + c]
  {
    var p := 4096 * a + 64 * b + c;
    assert p / 4096 == a && p / 64 == 64 * a + b;
  }

  lemma Pack4(a: nat, b: nat, c: nat, d: nat)
    requires a < 5 && b < 64 && c < 64 && d < 64
    requires (a == 0 ==> b >= 16) && (a == 4 ==> b < 16)
    ensures var p := 262_144 * a + 4096 * b + 64 * c + d;
      Scalar(p) && Encode(p) == [0xF0 + a, 0x80 + b, 0x80 + c, 0x80 + d]
  {
    var p := 262_144 * a + 4096 * b + 64 * c + d;
    assert p / 262_144 == a && p / 4096 == 64 * a + b && p / 64 == 4096 * a + 64 * b + c;
  }

  /** And nothing else is: every one is the encoding of a code point. */
  lemma CharIsEncoded(c: seq<byte>) returns (p: nat)
    requires IsChar(c)
    ensures Scalar(p) && Encode(p) == c
  {
    var tail := seq(|c| - 1, i requires 0 <= i < |c| - 1 => c[i + 1] as int - 0x80);
    forall i | 0 <= i < |tail| ensures 0 <= tail[i] < 64 {
      assert Continuation(c[i + 1]);
    }
    if |c| == 1 {
      p := c[0];
    } else if |c| == 2 {
      Pack2(c[0] - 0xC0, tail[0]);
      p := 64 * (c[0] as int - 0xC0) + tail[0];
    } else if |c| == 3 {
      Pack3(c[0] - 0xE0, tail[0], tail[1]);
      p := 4096 * (c[0] as int - 0xE0) + 64 * tail[0] + tail[1];
    } else {
      Pack4(c[0] - 0xF0, tail[0], tail[1], tail[2]);
      p := 262_144 * (c[0] as int - 0xF0) + 4096 * tail[0] + 64 * tail[1] + tail[2];
    }
  }

  predicate Valid(s: seq<byte>) {
    s == [] ||
    (CharLen(s[0]) <= |s| && IsChar(s[..CharLen(s[0])]) && Valid(s[CharLen(s[0])..]))
  }

  /** `str::is_char_boundary`. */
  predicate IsBoundary(s: seq<byte>, i: nat)
    requires i <= |s|
  {
    i == 0 || i == |s| || !Continuation(s[i])
  }

  lemma SplitHead(s: seq<byte>, len: nat, i: nat)
    requires len <= i <= |s|
    ensures s[len..][i - len..] == s[i..]
    ensures s[len..][..i - len] == s[len..i]
    ensures s[..i][..len] == s[..len] && s[..i][len..] == s[len..i]
  {
  }

  lemma HeadContinues(s: seq<byte>)
    requires Valid(s) && s != []
    ensures CharLen(s[0]) <= |s| && !Continuation(s[0])
    ensures forall i :: 1 <= i < CharLen(s[0]) ==> Continuation(s[i])
  {
    var head := s[..CharLen(s[0])];
    assert forall i :: 0 <= i < |head| ==> s[i] == head[i];
  }

  lemma {:induction false} ValidSplit(s: seq<byte>, i: nat)
    requires Valid(s) && i <= |s| && IsBoundary(s, i)
    ensures Valid(s[..i]) && Valid(s[i..])
    decreases |s|
  {
    if i == 0 {
      TakeAll(s);
    } else {
      var len := CharLen(s[0]);
      HeadContinues(s);
      SplitHead(s, len, i);
      ValidSplit(s[len..], i - len);
    }
  }

  /** A byte below 0x80 is a code point of its own, so a boundary follows it. */
  lemma {:induction false} AfterAscii(s: seq<byte>, i: nat)
    requires Valid(s) && 0 < i <= |s| && s[i - 1] < 0x80
    ensures IsBoundary(s, i)
    decreases |s|
  {
    var len := CharLen(s[0]);
    HeadContinues(s);
    if i <= len {
      assert i == 1;
      NextStartsChar(s);
    } else {
      AfterAscii(s[len..], i - len);
    }
  }

  lemma NextStartsChar(s: seq<byte>)
    requires Valid(s) && s != []
    ensures IsBoundary(s, CharLen(s[0]))
  {
    var rest := s[CharLen(s[0])..];
    if rest != [] {
      HeadContinues(rest);
    }
  }

  lemma ValidChar(c: seq<byte>, rest: seq<byte>)
    requires IsChar(c)
    ensures Valid(c + rest) <==> Valid(rest)
  {
    assert (c + rest)[..|c|] == c;
    assert (c + rest)[|c|..] == rest;
  }

  /** What follows a valid prefix of a valid string is valid. */
  lemma {:induction false} ValidCancel(a: seq<byte>, b: seq<byte>)
    requires Valid(a) && Valid(a + b)
    ensures Valid(b)
    decreases |a|
  {
    if a == [] {
      assert a + b == b;
    } else {
      var len := CharLen(a[0]);
      SplitHead(a, len, |a|);
      ConcatAssoc(a[..len], a[len..], b);
      TakeDrop(a, len);
      ValidChar(a[..len], a[len..] + b);
      ValidCancel(a[len..], b);
    }
  }
}
