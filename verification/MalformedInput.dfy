/** What the parsers of StreamCodec.dfy and CameraCodec.dfy make of input that no serializer writes. */
module MalformedInput {
  import opened Common
  import opened CameraCodec
  import opened StreamCodec
  import opened Wire

  /** No byte of the first ten ends the number. */
  ghost predicate Endless(s: seq<byte>) {
    forall i | 0 <= i < |s| && i < 10 :: s[i] >= 128
  }

  lemma {:induction false} EndlessNumber(s: seq<byte>, budget: nat)
    requires forall i | 0 <= i < |s| && i < budget :: s[i] >= 128
    ensures DecodeVarint(s, budget) == Bad
    decreases budget
  {
    if budget > 0 && s != [] {
      assert s[0] >= 128;
      forall i | 0 <= i < |s| - 1 && i < budget - 1
        ensures s[1..][i] >= 128
      {
        assert s[i + 1] >= 128;
      }
      EndlessNumber(s[1..], budget - 1);
    }
  }

  /** A length that is not there, or negative as an int, is refused. */
  lemma LengthRefused(n: nat, rest: seq<byte>, depth: nat)
    requires |rest| < n || n >= 0x8000_0000
    ensures n < 0x1_0000_0000 ==> ReadBytes(EncodeVarint(n) + rest) == Bad
    ensures n < 0x1_0000_0000_0000_0000 ==> ReadStream(EncodeVarint(n) + rest, depth) == Bad
  {
    if n < 0x1_0000_0000 {
      ReadEncodedSmall(n, rest);
    }
    if n < 0x1_0000_0000_0000_0000 {
      NestedLengthRefused(n, rest, depth);
    }
  }

  lemma NestedLengthRefused(n: nat, rest: seq<byte>, depth: nat)
    requires (|rest| < n || n >= 0x8000_0000) && n < 0x1_0000_0000_0000_0000
    ensures ReadStream(EncodeVarint(n) + rest, depth) == Bad
  {
    ReadEncoded(n, rest);
  }

  /** A nested message is accepted exactly when parsing it ends where its length says, one level deeper. */
  lemma NestedMustFit(body: seq<byte>, rest: seq<byte>, depth: nat)
    requires |body| < 0x8000_0000
    ensures ReadStream(EncodeBytes(body) + rest, depth)
         == if depth == 0 then Bad
            else
              match ParseStream(body, NO_STREAM, depth - 1)
              case Failed => Bad
              case Parsed(x, atEnd) => if atEnd then Got(x, rest) else Bad
  {
    Regroup(EncodeVarint(|body|), body, rest);
    ReadEncoded(|body|, body + rest);
    SplitAt(body, rest);
  }

  /** Parsing stops without an error at the end, at a zero byte, and where no number can be read. */
  lemma StopsWithoutError(s: seq<byte>, m: StreamInfo, c: Camera, depth: nat)
    requires s == [] || s[0] == 0 || Endless(s)
    ensures ParseStream(s, m, depth) == Parsed(m, s == [])
    ensures ParseCamera(s, c, depth) == Parsed(c, s == [])
  {
    if s != [] && s[0] != 0 {
      EndlessNumber(s, 10);
    }
  }

  /** The field number 0, the wire types 6 and 7, and the end of a group that was not begun. */
  predicate IsNoField(tag: nat) {
    0 < tag < 8 || tag % 8 == 4 || tag % 8 == 6 || tag % 8 == 7
  }

  lemma SkipRefuses(tag: nat, s: seq<byte>, depth: nat)
    requires IsNoField(tag)
    ensures SkipField(tag, s, depth) == Bad
  {
  }

  lemma StreamFieldRefused(tag: nat, s: seq<byte>, depth: nat)
    requires IsNoField(tag)
    ensures ReadStreamField(tag, s, depth) == Bad
  {
    SkipRefuses(tag, s, depth);
    assert tag !in {10, 18, 24, 34, 42, 48, 56, 64, 72};
  }

  lemma CameraFieldRefused(tag: nat, s: seq<byte>, depth: nat)
    requires IsNoField(tag)
    ensures ReadCameraField(tag, s, depth) == Bad
  {
    SkipRefuses(tag, s, depth);
    assert tag !in {10, 18, 26};
  }

  lemma NoFieldFails(tag: nat, rest: seq<byte>, m: StreamInfo, c: Camera, depth: nat)
    requires 0 < tag < 0x1_0000_0000 && IsNoField(tag)
    ensures ParseStream(EncodeVarint(tag) + rest, m, depth) == Failed
    ensures ParseCamera(EncodeVarint(tag) + rest, c, depth) == Failed
  {
    ReadEncodedTag(tag, rest);
    StreamFieldRefused(tag, rest, depth);
    CameraFieldRefused(tag, rest, depth);
    ParseStreamOnce(EncodeVarint(tag) + rest, rest, m, depth);
    ParseCameraOnce(EncodeVarint(tag) + rest, rest, c, depth);
  }

  /** A group that is nested deeper than the budget, or ends with the tag of another group, is refused. */
  lemma GroupRefused(n: nat, other: nat, rest: seq<byte>, depth: nat)
    requires 0 < n < 0x2000_0000 && 0 < other < 0x2000_0000 && other != n
    ensures SkipField(8 * n + 3, rest, 0) == Bad
    ensures SkipField(8 * n + 3, EncodeVarint(8 * other + 4) + rest, depth) == Bad
  {
    ReadEncodedTag(EndTag(other), rest);
  }
}
