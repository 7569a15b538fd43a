/**
 The check VerifyUtf8String of the strings in include/proto/CameraInfoFile.pb.cc, against the definition of UTF-8 in
 section 3 of RFC 3629: a text is the encoding of a sequence of Unicode scalar values.
 */
module Utf8 {
  import opened Common

  /** Well-formed UTF-8 (section 4 of RFC 3629). */
  predicate ValidUtf8(s: seq<byte>) {
    if s == [] then true
    else if s[0] < 0x80 then ValidUtf8(s[1..])
    else if 0xC2 <= s[0] <= 0xDF then Tail(s, 1) && ValidUtf8(s[2..])
    else if s[0] == 0xE0 then Tail(s, 2) && s[1] >= 0xA0 && ValidUtf8(s[3..])
    else if s[0] == 0xED then Tail(s, 2) && s[1] < 0xA0 && ValidUtf8(s[3..])
    else if 0xE1 <= s[0] <= 0xEF then Tail(s, 2) && ValidUtf8(s[3..])
    else if s[0] == 0xF0 then Tail(s, 3) && s[1] >= 0x90 && ValidUtf8(s[4..])
    else if 0xF1 <= s[0] <= 0xF3 then Tail(s, 3) && ValidUtf8(s[4..])
    else if s[0] == 0xF4 then Tail(s, 3) && s[1] < 0x90 && ValidUtf8(s[4..])
    else false
  }

  predicate Tail(s: seq<byte>, n: nat) {
    |s| > n && forall i | 1 <= i <= n :: 0x80 <= s[i] < 0xC0
  }

  // ---------------------------------------------------------------- the definition

  /** A code point that is not a surrogate. */
  predicate IsScalar(c: int) {
    0 <= c <= 0x10FFFF && !(0xD800 <= c <= 0xDFFF)
  }

  /** One to four bytes: a lead byte with the length in its top bits, and six bits in each of the others. */
  function EncodeScalar(c: int): (s: seq<byte>)
    requires IsScalar(c)
    ensures 1 <= |s| <= 4
  {
    if c < 0x80 then [c]
    else if c < 0x800 then [0xC0 + c / 64, 0x80 + c % 64]
    else if c < 0x1_0000 then [0xE0 + c / 4096, 0x80 + c / 64 % 64, 0x80 + c % 64]
    else [0xF0 + c / 0x4_0000, 0x80 + c / 4096 % 64, 0x80 + c / 64 % 64, 0x80 + c % 64]
  }

  predicate AllScalar(cs: seq<int>) {
    forall i | 0 <= i < |cs| :: IsScalar(cs[i])
  }

  function EncodeText(cs: seq<int>): seq<byte>
    requires AllScalar(cs)
  {
    if cs == [] then [] else EncodeScalar(cs[0]) + EncodeText(cs[1..])
  }

  ghost predicate IsText(s: seq<byte>) {
    exists cs :: AllScalar(cs) && EncodeText(cs) == s
  }

  // ---------------------------------------------------------------- it accepts just the texts

  lemma AcceptsEncoded(c: int, rest: seq<byte>)
    requires IsScalar(c)
    ensures ValidUtf8(EncodeScalar(c) + rest) <==> ValidUtf8(rest)
  {
    var s := EncodeScalar(c) + rest;
    assert s[|EncodeScalar(c)|..] == rest;
    if c < 0x80 {
    } else if c < 0x800 {
      AcceptsTwo(s, c);
    } else if c < 0x1_0000 {
      AcceptsThree(s, c);
    } else {
      AcceptsFour(s, c);
    }
  }

  lemma AcceptsTwo(s: seq<byte>, c: int)
    requires 0x80 <= c < 0x800 && |s| >= 2 && s[0] == 0xC0 + c / 64 && s[1] == 0x80 + c % 64
    ensures ValidUtf8(s) <==> ValidUtf8(s[2..])
  {
    assert 2 <= c / 64 < 32;
  }

  lemma AcceptsThree(s: seq<byte>, c: int)
    requires IsScalar(c) && 0x800 <= c < 0x1_0000 && |s| >= 3
    requires s[0] == 0xE0 + c / 4096 && s[1] == 0x80 + c / 64 % 64 && s[2] == 0x80 + c % 64
    ensures ValidUtf8(s) <==> ValidUtf8(s[3..])
  {
    assert Tail(s, 2);
    assert c / 4096 == 0 ==> c / 64 % 64 >= 32;
    assert c / 4096 == 13 ==> c / 64 % 64 < 32;
  }

  lemma AcceptsFour(s: seq<byte>, c: int)
    requires 0x1_0000 <= c <= 0x10FFFF && |s| >= 4 && s[0] == 0xF0 + c / 0x4_0000
    requires s[1] == 0x80 + c / 4096 % 64 && s[2] == 0x80 + c / 64 % 64 && s[3] == 0x80 + c % 64
    ensures ValidUtf8(s) <==> ValidUtf8(s[4..])
  {
    assert Tail(s, 3);
    assert c / 0x4_0000 == 0 ==> c / 4096 % 64 >= 16;
    assert c / 0x4_0000 == 4 ==> c / 4096 % 64 < 16;
  }

  lemma {:induction false} AcceptsText(cs: seq<int>)
    requires AllScalar(cs)
    ensures ValidUtf8(EncodeText(cs))
  {
    if cs != [] {
      AcceptsText(cs[1..]);
      AcceptsEncoded(cs[0], EncodeText(cs[1..]));
    }
  }

  /** The bits before, and the six of a continuation byte. */
  function Joined(bits: int, tail: int): int {
    bits * 64 + (tail - 0x80)
  }

  lemma JoinedParts(bits: int, tail: int)
    requires bits >= 0 && 0x80 <= tail < 0xC0
    ensures Joined(bits, tail) / 64 == bits && Joined(bits, tail) % 64 == tail - 0x80
  {
  }

  lemma DecodesTwo(a: int, b: int)
    requires 0xC2 <= a <= 0xDF && 0x80 <= b < 0xC0
    ensures var c := Joined(a - 0xC0, b); IsScalar(c) && EncodeScalar(c) == [a, b]
  {
    JoinedParts(a - 0xC0, b);
  }

  lemma DecodesThree(a: int, b: int, d: int)
    requires 0xE0 <= a <= 0xEF && 0x80 <= b < 0xC0 && 0x80 <= d < 0xC0
    requires (a == 0xE0 ==> b >= 0xA0) && (a == 0xED ==> b < 0xA0)
    ensures var c := Joined(Joined(a - 0xE0, b), d); IsScalar(c) && EncodeScalar(c) == [a, b, d]
  {
    var high := Joined(a - 0xE0, b);
    var c := Joined(high, d);
    JoinedParts(a - 0xE0, b);
    JoinedParts(high, d);
    assert c / 4096 == c / 64 / 64;
  }

  lemma DecodesFour(a: int, b: int, d: int, e: int)
    requires 0xF0 <= a <= 0xF4 && 0x80 <= b < 0xC0 && 0x80 <= d < 0xC0 && 0x80 <= e < 0xC0
    requires (a == 0xF0 ==> b >= 0x90) && (a == 0xF4 ==> b < 0x90)
    ensures var c := Joined(Joined(Joined(a - 0xF0, b), d), e); IsScalar(c) && EncodeScalar(c) == [a, b, d, e]
  {
    var high := Joined(a - 0xF0, b);
    var middle := Joined(high, d);
    var c := Joined(middle, e);
    JoinedParts(a - 0xF0, b);
    JoinedParts(high, d);
    JoinedParts(middle, e);
    assert c / 4096 == c / 64 / 64 && c / 0x4_0000 == c / 64 / 64 / 64;
  }

  /** The first character of an accepted text. */
  lemma DecodesFirst(s: seq<byte>) returns (c: int)
    requires ValidUtf8(s) && s != []
    ensures IsScalar(c) && |EncodeScalar(c)| <= |s| && EncodeScalar(c) == s[..|EncodeScalar(c)|]
    ensures ValidUtf8(s[|EncodeScalar(c)|..])
  {
    var lead: int := s[0];
    if lead < 0x80 {
      c := lead;
    } else if lead < 0xE0 {
      DecodesTwo(lead, s[1]);
      c := Joined(lead - 0xC0, s[1]);
    } else if lead < 0xF0 {
      DecodesThree(lead, s[1], s[2]);
      c := Joined(Joined(lead - 0xE0, s[1]), s[2]);
    } else {
      DecodesFour(lead, s[1], s[2], s[3]);
      c := Joined(Joined(Joined(lead - 0xF0, s[1]), s[2]), s[3]);
    }
  }

  lemma EncodeCons(c: int, cs: seq<int>)
    requires IsScalar(c) && AllScalar(cs)
    ensures AllScalar([c] + cs) && EncodeText([c] + cs) == EncodeScalar(c) + EncodeText(cs)
  {
    assert ([c] + cs)[1..] == cs;
  }

  lemma {:induction false} DecodesAll(s: seq<byte>) returns (cs: seq<int>)
    requires ValidUtf8(s)
    ensures AllScalar(cs) && EncodeText(cs) == s
  {
    cs := [];
    if s != [] {
      var c := DecodesFirst(s);
      var rest := DecodesAll(s[|EncodeScalar(c)|..]);
      EncodeCons(c, rest);
      cs := [c] + rest;
      assert s == s[..|EncodeScalar(c)|] + s[|EncodeScalar(c)|..];
    }
  }

  /** The check accepts a byte sequence if and only if it encodes some sequence of Unicode scalar values. */
  lemma AcceptsJustTexts(s: seq<byte>)
    ensures ValidUtf8(s) <==> IsText(s)
  {
    if ValidUtf8(s) {
      var cs := DecodesAll(s);
    }
    if IsText(s) {
      var cs :| AllScalar(cs) && EncodeText(cs) == s;
      AcceptsText(cs);
    }
  }
}
