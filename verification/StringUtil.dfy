/**
 String rewriting of include/common/Util.cpp: leftmost split and in-place replacement.

 The narrow and wide overloads of the program have the same body, so the model is generic in the
 character type. A separator or pattern must be non-empty: the program loops forever on an empty one.
 */
module StringUtil {
  import opened Common

  ghost predicate OccursAt<T>(s: seq<T>, p: seq<T>, i: int) {
    0 <= i <= |s| - |p| && s[i..i + |p|] == p
  }

  ghost predicate Contains<T>(s: seq<T>, p: seq<T>) {
    exists i :: OccursAt(s, p, i)
  }

  /** Position of the first occurrence of `p`, or -1 (the program's `npos`). */
  function IndexOf<T(==)>(s: seq<T>, p: seq<T>): (r: int)
    ensures r == -1 || (0 <= r <= |s| - |p| && s[r..r + |p|] == p)
  {
    if |s| < |p| then -1
    else if s[..|p|] == p then 0
    else if s == [] then -1
    else
      var r := IndexOf(s[1..], p);
      assert r != -1 ==> s[1..][r..r + |p|] == s[r + 1..r + 1 + |p|];
      if r == -1 then -1 else r + 1
  }

  lemma OccursShift<T>(s: seq<T>, p: seq<T>, i: int)
    requires s != [] && 0 < i
    ensures OccursAt(s, p, i) <==> OccursAt(s[1..], p, i - 1)
  {
    if i <= |s| - |p| {
      assert s[1..][i - 1..i - 1 + |p|] == s[i..i + |p|];
    }
  }

  lemma {:induction false} NotAfter<T>(s: seq<T>, p: seq<T>, i: int)
    requires OccursAt(s, p, i)
    ensures 0 <= IndexOf(s, p) <= i
  {
    if s[..|p|] != p {
      OccursShift(s, p, i);
      NotAfter(s[1..], p, i - 1);
    }
  }

  /** No occurrence lies before the reported one, and none exists when none is reported. */
  lemma IndexOfIsLeftmost<T>(s: seq<T>, p: seq<T>)
    ensures IndexOf(s, p) == -1 <==> !Contains(s, p)
    ensures IndexOf(s, p) != -1 ==> OccursAt(s, p, IndexOf(s, p))
    ensures forall i :: OccursAt(s, p, i) ==> IndexOf(s, p) <= i
  {
    if IndexOf(s, p) != -1 {
      assert OccursAt(s, p, IndexOf(s, p));
    }
    forall i | OccursAt(s, p, i)
      ensures 0 <= IndexOf(s, p) <= i
    {
      NotAfter(s, p, i);
    }
  }

  /** The pieces of `s` between the leftmost non-overlapping occurrences of `p`. */
  function Split<T(==)>(s: seq<T>, p: seq<T>): (pieces: seq<seq<T>>)
    requires p != []
    ensures pieces != []
    decreases |s|
  {
    var i := IndexOf(s, p);
    if i == -1 then [s] else [s[..i]] + Split(s[i + |p|..], p)
  }

  function Join<T>(pieces: seq<seq<T>>, r: seq<T>): seq<T>
    requires pieces != []
  {
    if |pieces| == 1 then pieces[0] else pieces[0] + r + Join(pieces[1..], r)
  }

  lemma JoinCons<T>(first: seq<T>, rest: seq<seq<T>>, r: seq<T>)
    requires rest != []
    ensures Join([first] + rest, r) == first + r + Join(rest, r)
  {
    assert ([first] + rest)[1..] == rest;
  }

  /** The first occurrence from offset `from` on is at `pos`, or there is none and `pos` is -1. */
  ghost predicate IsFirst<T>(s: seq<T>, p: seq<T>, from: nat, pos: int) {
    && (pos == -1 || (from <= pos && OccursAt(s, p, pos)))
    && forall i :: from <= i && OccursAt(s, p, i) ==> pos != -1 && pos <= i
  }

  /** `std::basic_string::find(p, from)`. */
  method FindFrom<T(==)>(s: seq<T>, p: seq<T>, from: nat) returns (pos: int)
    ensures IsFirst(s, p, from, pos)
  {
    pos := from;
    while pos + |p| <= |s|
      invariant from <= pos
      invariant forall i :: from <= i && OccursAt(s, p, i) ==> pos <= i
    {
      if s[pos..pos + |p|] == p {
        return;
      }
      pos := pos + 1;
    }
    pos := -1;
  }

  lemma OccursInRest<T>(s: seq<T>, p: seq<T>, from: nat, i: nat)
    requires from <= |s|
    ensures OccursAt(s[from..], p, i) <==> OccursAt(s, p, from + i)
  {
    if i <= |s| - from - |p| {
      assert s[from..][i..i + |p|] == s[from + i..from + i + |p|];
    }
  }

  lemma FirstIsIndexOf<T>(s: seq<T>, p: seq<T>, from: nat, pos: int)
    requires p != [] && from <= |s| && IsFirst(s, p, from, pos)
    ensures IndexOf(s[from..], p) == if pos == -1 then -1 else pos - from
  {
    var r := IndexOf(s[from..], p);
    IndexOfIsLeftmost(s[from..], p);
    if r != -1 {
      OccursInRest(s, p, from, r);
    }
    if pos != -1 {
      OccursInRest(s, p, from, pos - from);
    }
  }

  /** The empty text is found where the search starts: the split loop never gets past it. */
  lemma EmptyIsFoundAtOnce<T>(s: seq<T>, from: nat, pos: int)
    requires from <= |s|
    ensures IsFirst(s, [], from, pos) <==> pos == from
  {
    assert OccursAt(s, [], from);
  }

  /** Text and offset after n turns of the replacement loop on an empty pattern. */
  function EmptyPatternTurns<T>(s: seq<T>, r: seq<T>, n: nat): (state: (seq<T>, nat))
    ensures state.1 <= |state.0|
  {
    if n == 0 then (s, 0)
    else
      var before := EmptyPatternTurns(s, r, n - 1);
      (before.0[..before.1] + r + before.0[before.1..], before.1 + |r|)
  }

  /** After any number of turns there is another one: nothing of the text has been passed. */
  lemma EmptyPatternNeverEnds<T>(s: seq<T>, r: seq<T>, n: nat, pos: int)
    requires IsFirst(EmptyPatternTurns(s, r, n).0, [], EmptyPatternTurns(s, r, n).1, pos)
    ensures pos == EmptyPatternTurns(s, r, n).1
    ensures EmptyPatternTurns(s, r, n).0[pos..] == s
  {
    EmptyIsFoundAtOnce(EmptyPatternTurns(s, r, n).0, EmptyPatternTurns(s, r, n).1, pos);
    NothingPassed(s, r, n);
  }

  lemma {:induction false} NothingPassed<T>(s: seq<T>, r: seq<T>, n: nat)
    ensures EmptyPatternTurns(s, r, n).0[EmptyPatternTurns(s, r, n).1..] == s
  {
    if n > 0 {
      NothingPassed(s, r, n - 1);
    }
  }

  /** One step of the leftmost scan over the unscanned `s`, which starts with the piece `x` and a separator. */
  lemma SplitStep<T>(s: seq<T>, p: seq<T>, r: seq<T>, x: seq<T>, rest: seq<T>)
    requires p != [] && IndexOf(s, p) != -1
    requires x == s[..IndexOf(s, p)] && rest == s[IndexOf(s, p) + |p|..]
    ensures Split(s, p) == [x] + Split(rest, p)
    ensures Join(Split(s, p), r) == x + r + Join(Split(rest, p), r)
  {
    JoinCons(x, Split(rest, p), r);
  }

  ghost predicate Pieces<T>(done: seq<seq<T>>, rest: seq<T>, p: seq<T>, target: seq<seq<T>>)
    requires p != []
  {
    done + Split(rest, p) == target
  }

  lemma PiecesStep<T>(done: seq<seq<T>>, s: seq<T>, p: seq<T>, target: seq<seq<T>>, x: seq<T>, rest: seq<T>)
    requires p != [] && IndexOf(s, p) != -1
    requires x == s[..IndexOf(s, p)] && rest == s[IndexOf(s, p) + |p|..]
    requires Pieces(done, s, p, target)
    ensures Pieces(done + [x], rest, p, target)
  {
    SplitStep(s, p, [], x, rest);
    Regroup(done, [x], Split(rest, p));
  }

  /** What replacing makes of a text whose first part, up to `offset`, is final. */
  ghost function Outcome<T>(s: seq<T>, offset: nat, p: seq<T>, r: seq<T>): seq<T>
    requires p != [] && offset <= |s|
  {
    s[..offset] + Join(Split(s[offset..], p), r)
  }

  lemma OutcomeAtEnds<T>(s: seq<T>, offset: nat, p: seq<T>, r: seq<T>)
    requires p != [] && offset <= |s|
    ensures Outcome(s, 0, p, r) == Join(Split(s, p), r)
    ensures IsFirst(s, p, offset, -1) ==> Outcome(s, offset, p, r) == s
  {
    if IsFirst(s, p, offset, -1) {
      FirstIsIndexOf(s, p, offset, -1);
    }
    assert s[..0] == [] && s[0..] == s && s == s[..offset] + s[offset..];
  }

  lemma OutcomeOfParts<T>(done: seq<T>, rest: seq<T>, p: seq<T>, r: seq<T>)
    requires p != []
    ensures Outcome(done + rest, |done|, p, r) == done + Join(Split(rest, p), r)
  {
    assert (done + rest)[..|done|] == done && (done + rest)[|done|..] == rest;
  }

  lemma ReplacedParts<T>(done: seq<T>, x: seq<T>, r: seq<T>, joined: seq<T>)
    ensures done + (x + r + joined) == (done + x + r) + joined
  {
  }

  lemma ReplaceStep<T>(s: seq<T>, offset: nat, pos: nat, p: seq<T>, r: seq<T>)
    requires p != [] && offset <= |s| && IsFirst(s, p, offset, pos)
    ensures offset <= pos && pos + |p| <= |s|
    ensures Outcome(s[..pos] + r + s[pos + |p|..], pos + |r|, p, r) == Outcome(s, offset, p, r)
  {
    var x, tail := s[offset..pos], s[pos + |p|..];
    FirstIsIndexOf(s, p, offset, pos);
    SubSlice(s, offset, pos - offset, |p|);
    SplitStep(s[offset..], p, r, x, tail);
    assert s[..pos] == s[..offset] + x;
    ReplacedParts(s[..offset], x, r, Join(Split(tail, p), r));
    OutcomeOfParts(s[..pos] + r, tail, p, r);
  }

  /** One replacement, at the leftmost occurrence in the text that is not final. */
  method ReplaceNext<T>(s: seq<T>, offset: nat, pos: nat, p: seq<T>, r: seq<T>, ghost target: seq<T>)
    returns (t: seq<T>, next: nat)
    requires p != [] && offset <= |s| && IsFirst(s, p, offset, pos)
    requires Outcome(s, offset, p, r) == target
    ensures next <= |t| && |t| - next < |s| - offset
    ensures Outcome(t, next, p, r) == target
  {
    ReplaceStep(s, offset, pos, p, r);
    t := s[..pos] + r + s[pos + |p|..];
    next := pos + |r|;
  }

  /**
   In-place replacement: the text already scanned is final, and the scan resumes after the replacement,
   so an occurrence created by the replacement itself is never replaced again.
   */
  method ReplaceAll<T(==)>(message: seq<T>, pattern: seq<T>, replace: seq<T>) returns (result: seq<T>)
    requires pattern != []
    ensures result == Join(Split(message, pattern), replace)
  {
    result := message;
    var offset: nat := 0;
    ghost var target := Join(Split(message, pattern), replace);
    OutcomeAtEnds(message, 0, pattern, replace);
    var pos := FindFrom(result, pattern, offset);
    while pos != -1
      invariant offset <= |result| && IsFirst(result, pattern, offset, pos)
      invariant Outcome(result, offset, pattern, replace) == target
      decreases |result| - offset
    {
      result, offset := ReplaceNext(result, offset, pos, pattern, replace, target);
      pos := FindFrom(result, pattern, offset);
    }
    OutcomeAtEnds(result, offset, pattern, replace);
  }

  lemma SubSlice<T>(s: seq<T>, from: nat, i: nat, n: nat)
    requires from + i + n <= |s|
    ensures s[from..][..i] == s[from..from + i]
    ensures s[from..][i + n..] == s[from + i + n..]
  {
  }

  lemma PieceFound<T>(s: seq<T>, p: seq<T>, from: nat, pos: nat, done: seq<seq<T>>, target: seq<seq<T>>)
    requires p != [] && from <= |s| && IsFirst(s, p, from, pos)
    requires Pieces(done, s[from..], p, target)
    ensures from <= pos <= pos + |p| <= |s|
    ensures Pieces(done + [s[from..pos]], s[pos + |p|..], p, target)
  {
    FirstIsIndexOf(s, p, from, pos);
    SubSlice(s, from, pos - from, |p|);
    PiecesStep(done, s[from..], p, target, s[from..pos], s[pos + |p|..]);
  }

  /** The separator-string overload; the pieces are appended to the caller's vector. */
  method SplitString<T(==)>(str: seq<T>, separator: seq<T>, split0: seq<seq<T>>) returns (split: seq<seq<T>>)
    requires separator != []
    ensures split == split0 + Split(str, separator)
  {
    split := split0;
    var prev := 0;
    assert str[0..] == str;
    var pos := FindFrom(str, separator, 0);
    ghost var target := split0 + Split(str, separator);
    ghost var rest := str;
    while pos != -1
      invariant prev <= |str| && rest == str[prev..]
      invariant IsFirst(str, separator, prev, pos)
      invariant Pieces(split, rest, separator, target)
      decreases |rest|
    {
      PieceFound(str, separator, prev, pos, split, target);
      split := split + [str[prev..pos]];
      prev := pos + |separator|;
      rest := str[prev..];
      pos := FindFrom(str, separator, prev);
    }
    FirstIsIndexOf(str, separator, prev, pos);
    split := split + [str[prev..]];
  }

  /** The single-delimiter overload, a `getline` loop: it yields no piece after a final delimiter. */
  method SplitDelimiter<T(==)>(str: seq<T>, delimiter: T, split0: seq<seq<T>>) returns (split: seq<seq<T>>)
    ensures var pieces := Split(str, [delimiter]);
            split == split0 + if str == [] || str[|str| - 1] == delimiter then pieces[..|pieces| - 1] else pieces
  {
    split := split0;
    var from := 0;
    ghost var target := split0 + Split(str, [delimiter]);
    ghost var rest := str;
    while from < |str|
      invariant from <= |str| && rest == str[from..]
      invariant Pieces(split, rest, [delimiter], target) || (rest == [] && split == target && split[|split| - 1] != [])
    {
      var pos := FindFrom(str, [delimiter], from);
      if pos == -1 {
        FirstIsIndexOf(str, [delimiter], from, pos);
        split := split + [str[from..]];
        from := |str|;
      } else {
        PieceFound(str, [delimiter], from, pos, split, target);
        split := split + [str[from..pos]];
        from := pos + 1;
      }
      rest := str[from..];
    }
    EmptyRest(split0, split, Split(str, [delimiter]), delimiter);
    LastPieceEmpty(str, delimiter);
  }

  /** The last piece is empty for an empty text and behind a final delimiter only. */
  lemma {:induction false} LastPieceEmpty<T>(s: seq<T>, delimiter: T)
    ensures var pieces := Split(s, [delimiter]);
            pieces[|pieces| - 1] == [] <==> s == [] || s[|s| - 1] == delimiter
    decreases |s|
  {
    var i := IndexOf(s, [delimiter]);
    NoneOf(s, delimiter);
    if i != -1 {
      SplitStep(s, [delimiter], [], s[..i], s[i + 1..]);
      LastPieceEmpty(s[i + 1..], delimiter);
      LastOfRest(s[..i], Split(s[i + 1..], [delimiter]));
      assert s[i..i + 1][0] == s[i];
    }
  }

  lemma LastOfRest<T>(first: seq<T>, rest: seq<seq<T>>)
    requires rest != []
    ensures ([first] + rest)[|[first] + rest| - 1] == rest[|rest| - 1]
  {
  }

  lemma NoneOf<T>(s: seq<T>, c: T)
    ensures IndexOf(s, [c]) == -1 <==> c !in s
  {
    IndexOfIsLeftmost(s, [c]);
    var r := IndexOf(s, [c]);
    if r != -1 {
      assert s[r..r + 1][0] == s[r];
    }
    if c in s {
      var i :| 0 <= i < |s| && s[i] == c;
      assert s[i..i + 1] == [c];
      assert OccursAt(s, [c], i);
    }
  }

  /** When nothing is left to scan: the pieces are complete, or only an empty last one is missing. */
  lemma EmptyRest<T>(split0: seq<seq<T>>, split: seq<seq<T>>, pieces: seq<seq<T>>, delimiter: T)
    requires pieces != []
    requires Pieces(split, [], [delimiter], split0 + pieces) || (split == split0 + pieces && split[|split| - 1] != [])
    ensures split == split0 + DropEmptyLast(pieces)
  {
    if Pieces(split, [], [delimiter], split0 + pieces) {
      assert Split([], [delimiter]) == [[]];
      assert (split0 + pieces)[|split0 + pieces| - 1] == pieces[|pieces| - 1] == [];
      assert split == (split0 + pieces)[..|split0 + pieces| - 1] == split0 + pieces[..|pieces| - 1];
    }
  }

  ghost function DropEmptyLast<T>(pieces: seq<seq<T>>): seq<seq<T>>
    requires pieces != []
  {
    if pieces[|pieces| - 1] == [] then pieces[..|pieces| - 1] else pieces
  }

  lemma AroundOccurrence<T>(s: seq<T>, p: seq<T>, i: int)
    requires OccursAt(s, p, i)
    ensures s[..i] + p + s[i + |p|..] == s
  {
    assert s == s[..i] + s[i..i + |p|] + s[i + |p|..];
  }

  /** Splitting then joining with the same separator gives the text back. */
  lemma {:induction false} JoinAfterSplit<T>(s: seq<T>, p: seq<T>)
    requires p != []
    ensures Join(Split(s, p), p) == s
    decreases |s|
  {
    var i := IndexOf(s, p);
    if i != -1 {
      var x, rest := s[..i], s[i + |p|..];
      SplitStep(s, p, p, x, rest);
      JoinAfterSplit(rest, p);
      AroundOccurrence(s, p, i);
    }
  }

  /**
   The text is cut at its first separator, then what follows it in the same way; the whole text is the one piece
   exactly when there is none.
   */
  lemma SplitIsLeftmost<T>(s: seq<T>, p: seq<T>, i: int)
    requires p != [] && IsFirst(s, p, 0, i)
    ensures Split(s, p) == if i == -1 then [s] else [s[..i]] + Split(s[i + |p|..], p)
  {
    FirstOfAll(s, p, i);
    if i != -1 {
      SplitStep(s, p, [], s[..i], s[i + |p|..]);
    }
  }

  lemma FirstOfAll<T>(s: seq<T>, p: seq<T>, i: int)
    requires p != [] && IsFirst(s, p, 0, i)
    ensures IndexOf(s, p) == i
  {
    assert s[0..] == s;
    FirstIsIndexOf(s, p, 0, i);
  }

  /** No piece still contains the separator. */
  lemma {:induction false} PiecesFreeOfSeparator<T>(s: seq<T>, p: seq<T>)
    requires p != []
    ensures forall piece | piece in Split(s, p) :: !Contains(piece, p)
    decreases |s|
  {
    var i := IndexOf(s, p);
    IndexOfIsLeftmost(s, p);
    if i != -1 {
      PiecesFreeOfSeparator(s[i + |p|..], p);
      NotBefore(s, p, i);
    }
  }

  lemma NotBefore<T>(s: seq<T>, p: seq<T>, i: int)
    requires p != [] && 0 <= i <= |s| && i == IndexOf(s, p)
    ensures !Contains(s[..i], p)
  {
    forall j | OccursAt(s[..i], p, j)
      ensures false
    {
      assert s[j..j + |p|] == s[..i][j..j + |p|];
      NotAfter(s, p, j);
    }
  }

  /** No proper non-empty suffix of `p` is also a prefix of `p`. */
  ghost predicate Unbordered<T>(p: seq<T>) {
    p != [] && forall k :: 0 < k < |p| ==> p[k..] != p[..|p| - k]
  }

  /** With `p` unbordered and absent from `x`, it does not occur in `x + p + y` before its own place. */
  lemma NoEarlierOccurrence<T>(x: seq<T>, p: seq<T>, y: seq<T>, i: int)
    requires Unbordered(p) && !Contains(x, p) && 0 <= i < |x|
    ensures !OccursAt(x + p + y, p, i)
  {
    var s := x + p + y;
    if i + |p| <= |x| {
      assert s[i..i + |p|] == x[i..i + |p|];
      assert !OccursAt(x, p, i);
    } else if i + |p| <= |s| {
      var k := |x| - i;
      assert s[i..i + |p|][k..] == p[..|p| - k];
    }
  }

  lemma LeftmostAfterPiece<T>(x: seq<T>, p: seq<T>, y: seq<T>)
    requires Unbordered(p) && !Contains(x, p)
    ensures IndexOf(x + p + y, p) == |x|
  {
    var s := x + p + y;
    assert s[|x|..|x| + |p|] == p;
    assert OccursAt(s, p, |x|);
    IndexOfIsLeftmost(s, p);
    if 0 <= IndexOf(s, p) < |x| {
      NoEarlierOccurrence(x, p, y, IndexOf(s, p));
    }
  }

  /**
   Joining is undone by splitting exactly when no piece contains the separator, for a separator
   without a border.
   */
  lemma {:induction false} SplitAfterJoin<T>(pieces: seq<seq<T>>, p: seq<T>)
    requires pieces != [] && Unbordered(p)
    ensures Split(Join(pieces, p), p) == pieces <==> forall piece | piece in pieces :: !Contains(piece, p)
  {
    PiecesFreeOfSeparator(Join(pieces, p), p);
    if forall piece | piece in pieces :: !Contains(piece, p) {
      SplitJoined(pieces, p);
    }
  }

  lemma {:induction false} SplitJoined<T>(pieces: seq<seq<T>>, p: seq<T>)
    requires pieces != [] && Unbordered(p)
    requires forall piece | piece in pieces :: !Contains(piece, p)
    ensures Split(Join(pieces, p), p) == pieces
  {
    if |pieces| == 1 {
      IndexOfIsLeftmost(pieces[0], p);
    } else {
      var rest := Join(pieces[1..], p);
      var s := pieces[0] + p + rest;
      LeftmostAfterPiece(pieces[0], p, rest);
      assert s[..|pieces[0]|] == pieces[0];
      assert s[|pieces[0]| + |p|..] == rest;
      SplitJoined(pieces[1..], p);
      assert pieces == [pieces[0]] + pieces[1..];
    }
  }
}
