/**
 The copy-name generator of include/common/FileOperations.cpp: a destination that exists already is renamed
 until an unused name is found. Integers are unbounded and path-length limits are left out.
 */
module CopyName {
  import opened Common
  import opened Decimal
  import opened StringUtil

  // ---------------------------------------------------------------- CString and _tsplitpath

  function Drop(s: string, n: nat): string {
    if |s| <= n then "" else s[n..]
  }

  /** CString::Mid: a negative count is none, and the end is the end. */
  function Mid(s: string, first: nat, count: int): string {
    var rest := Drop(s, first);
    if count <= 0 then "" else if |rest| <= count then rest else rest[..count]
  }

  function LastOf(s: string, cs: set<char>): (r: int)
    ensures -1 <= r < |s| && (r >= 0 ==> s[r] in cs)
    ensures forall i | r < i < |s| :: s[i] !in cs
  {
    if s == "" then -1 else if s[|s| - 1] in cs then |s| - 1 else LastOf(s[..|s| - 1], cs)
  }

  /** The parts of a path; the program only ever puts drive and directory together, so they are one here. */
  datatype Path = Path(folder: string, name: string, ext: string)

  const SLASHES := {'/', '\\'}

  function DriveLength(s: string): nat {
    if |s| >= 2 && s[1] == ':' then 2 else 0
  }

  function FolderLength(s: string): (n: nat)
    ensures n <= |s|
  {
    var slash := LastOf(s, SLASHES);
    if slash + 1 < DriveLength(s) then DriveLength(s) else slash + 1
  }

  function SplitPath(s: string): Path {
    var n := FolderLength(s);
    var (name, ext) := SplitName(s[n..]);
    Path(s[..n], name, ext)
  }

  function JoinPath(p: Path): string {
    p.folder + p.name + p.ext
  }

  // ---------------------------------------------------------------- one renaming

  /** What becomes of the name; the extension and the folder stay. */
  function ChangeName(name: string): string {
    if IndexOf(name, "Copy ") == -1 then "Copy of " + name
    else if IndexOf(name, "(") == -1 then "Copy (1) of " + Drop(name, 8)
    else if IndexOf(name, ")") == -1 then "Copy of "
    else CountedUp(name, IndexOf(name, "("), IndexOf(name, ")"))
  }

  /** The number between the parentheses plus one, and the text from five characters past the second. */
  function CountedUp(name: string, open: nat, close: nat): string {
    Numbered(Atoi(Mid(name, open + 1, close - open - 1)) + 1, Drop(name, close + 5))
  }

  function Numbered(k: int, t: string): string {
    "Copy (" + ToString(k) + ") of " + t
  }

  function ChangeFileName(fileName: string): string {
    var p := SplitPath(fileName);
    JoinPath(p.(name := ChangeName(p.name)))
  }

  // ---------------------------------------------------------------- splitting what was joined

  ghost predicate Stable(p: Path) {
    && (forall c | c in p.name :: c !in SLASHES)
    && (forall c | c in p.ext :: c !in SLASHES)
    && (p.ext == "" ==> '.' !in p.name)
    && (p.ext != "" ==> p.ext[0] == '.' && '.' !in p.ext[1..])
    && FolderLength(p.folder) == |p.folder|
  }

  /** The name and the extension of what follows the folder. */
  function SplitName(tail: string): (string, string) {
    var dot := LastOf(tail, {'.'});
    if dot == -1 then (tail, "") else (tail[..dot], tail[dot..])
  }

  lemma SplitNameParts(tail: string)
    ensures var (name, ext) := SplitName(tail);
            name + ext == tail && (ext == "" ==> '.' !in name) && (ext != "" ==> ext[0] == '.' && '.' !in ext[1..])
  {
  }

  lemma SplitIsStable(s: string)
    ensures Stable(SplitPath(s)) && JoinPath(SplitPath(s)) == s
  {
    var n := FolderLength(s);
    var tail := s[n..];
    FolderOfFolder(s);
    SplitNameParts(tail);
    NoSlashInTail(s);
    var (name, ext) := SplitName(tail);
    assert forall c | c in name + ext :: c in tail;
    assert s == s[..n] + tail;
    Regroup(s[..n], name, ext);
  }

  lemma NoSlashInTail(s: string)
    ensures forall c | c in s[FolderLength(s)..] :: c !in SLASHES
  {
    var n := FolderLength(s);
    assert forall i | 0 <= i < |s| - n :: s[n..][i] == s[n + i];
  }

  lemma FolderOfFolder(s: string)
    ensures FolderLength(s[..FolderLength(s)]) == FolderLength(s)
  {
    LastOfIs(s[..FolderLength(s)], SLASHES, LastOf(s, SLASHES));
  }

  lemma LastOfIs(s: string, cs: set<char>, r: int)
    requires -1 <= r < |s| && (r >= 0 ==> s[r] in cs) && forall i | r < i < |s| :: s[i] !in cs
    ensures LastOf(s, cs) == r
  {
  }

  /** With the same folder and extension, a new name that brings no separator of its own is split off again. */
  lemma SplitAfterRename(p: Path, name: string)
    requires Stable(p) && |name| >= 2 && name[0] != ':' && name[1] != ':'
    requires Stable(p.(name := name))
    ensures SplitPath(JoinPath(p.(name := name))) == p.(name := name)
  {
    var tail := name + p.ext;
    assert p.folder + name + p.ext == p.folder + tail;
    assert forall c | c in tail :: c !in SLASHES;
    assert tail[0] == name[0] && tail[1] == name[1];
    FolderOfJoin(p.folder, tail);
    SplitNameBack(name, p.ext);
  }

  lemma FolderOfJoin(folder: string, tail: string)
    requires FolderLength(folder) == |folder| && |tail| >= 2 && tail[0] != ':' && tail[1] != ':'
    requires forall c | c in tail :: c !in SLASHES
    ensures FolderLength(folder + tail) == |folder|
    ensures (folder + tail)[|folder|..] == tail && (folder + tail)[..|folder|] == folder
  {
    var s := folder + tail;
    assert forall i | |folder| <= i < |s| :: s[i] == tail[i - |folder|] && s[i] in tail;
    LastOfIs(s, SLASHES, LastOf(folder, SLASHES));
    assert DriveLength(s) == DriveLength(folder);
  }

  lemma SplitNameBack(name: string, ext: string)
    requires (ext == "" ==> '.' !in name) && (ext != "" ==> ext[0] == '.' && '.' !in ext[1..])
    ensures SplitName(name + ext) == (name, ext)
  {
    var tail := name + ext;
    if ext == "" {
      assert tail == name;
      LastOfIs(tail, {'.'}, -1);
    } else {
      assert forall i | |name| < i < |tail| :: tail[i] == ext[1..][i - |name| - 1] && tail[i] in ext[1..];
      LastOfIs(tail, {'.'}, |name|);
      assert tail[..|name|] == name && tail[|name|..] == ext;
    }
  }

  // ---------------------------------------------------------------- numbered names

  lemma FirstAfter(before: string, c: char, after: string)
    requires c !in before
    ensures IndexOf(before + [c] + after, [c]) == |before|
  {
    var s, i := before + [c] + after, |before|;
    assert s[i..i + 1] == [c];
    assert OccursAt(s, [c], i);
    IndexOfIsLeftmost(s, [c]);
    var r := IndexOf(s, [c]);
    assert s[r..r + 1][0] == s[r] == c;
    assert forall j | 0 <= j < i :: s[j] == before[j];
  }

  lemma StartsWithCopy(s: string)
    requires |s| >= 5 && s[..5] == "Copy "
    ensures IndexOf(s, "Copy ") == 0
  {
  }

  lemma NumberText(k: int)
    ensures forall c | c in ToString(k) :: IsDigit(c) || c == '-'
  {
  }

  lemma OpenAt(text: string, t: string)
    ensures IndexOf("Copy (" + text + ") of " + t, "(") == 5
  {
    assert "Copy (" + text + ") of " + t == "Copy " + ['('] + (text + ") of " + t);
    FirstAfter("Copy ", '(', text + ") of " + t);
  }

  lemma CloseAt(text: string, t: string)
    requires ')' !in text
    ensures IndexOf("Copy (" + text + ") of " + t, ")") == 6 + |text|
  {
    assert "Copy (" + text + ") of " + t == ("Copy (" + text) + [')'] + (" of " + t);
    FirstAfter("Copy (" + text, ')', " of " + t);
  }

  lemma Between(before: string, text: string, middle: string, t: string)
    ensures var s := before + text + middle + t;
            Mid(s, |before|, |text|) == text && Drop(s, |before| + |text| + |middle|) == t
  {
    var s := before + text + middle + t;
    assert s == before + (text + (middle + t)) && s == (before + text + middle) + t;
    assert s[|before|..] == text + (middle + t);
  }

  lemma BeginsWithCopy(s: string, rest: string)
    requires s == "Copy " + rest
    ensures IndexOf(s, "Copy ") == 0
  {
    assert s[..5] == "Copy ";
  }

  /** Where the parentheses of a numbered name are, and what stands between and behind them. */
  lemma NumberedParts(k: int, t: string)
    ensures var s, close := Numbered(k, t), 6 + |ToString(k)|;
            && IndexOf(s, "Copy ") == 0 && IndexOf(s, "(") == 5 && IndexOf(s, ")") == close
            && Mid(s, 6, close - 6) == ToString(k) && Drop(s, close + 5) == t
  {
    var text := ToString(k);
    NumberText(k);
    OpenAt(text, t);
    CloseAt(text, t);
    NumberedBegins(k, t);
    Between("Copy (", text, ") of ", t);
  }

  lemma NumberedBegins(k: int, t: string)
    ensures IndexOf(Numbered(k, t), "Copy ") == 0
  {
    var rest := "(" + ToString(k) + ") of " + t;
    assert Numbered(k, t) == "Copy " + rest;
    BeginsWithCopy(Numbered(k, t), rest);
  }

  /** The next name after number k is number k + 1 of the same text. */
  lemma NumbersCountUp(k: int, t: string)
    ensures ChangeName(Numbered(k, t)) == Numbered(k + 1, t)
  {
    NumberedParts(k, t);
    AtoiAfterToString(k);
  }

  lemma NumberedInjective(k: int, t: string, j: int, u: string)
    requires Numbered(k, t) == Numbered(j, u)
    ensures k == j && t == u
  {
    NumberedParts(k, t);
    NumberedParts(j, u);
    AtoiAfterToString(k);
    AtoiAfterToString(j);
  }

  ghost predicate IsNumbered(name: string) {
    exists k, t :: name == Numbered(k, t)
  }

  lemma NumberOne(t: string)
    ensures "Copy (1) of " + t == Numbered(1, t)
  {
    assert ToString(1) == "1";
    assert "Copy (" + "1" + ") of " == "Copy (1) of ";
  }

  /** A name with "Copy " in it becomes a numbered one, except where an opening parenthesis is never closed. */
  lemma CopyBecomesNumbered(name: string)
    requires IndexOf(name, "Copy ") != -1
    ensures ChangeName(name) == "Copy of " || IsNumbered(ChangeName(name))
  {
    if IndexOf(name, "(") == -1 {
      NumberOne(Drop(name, 8));
    }
  }

  /** Every name is numbered after three steps. */
  lemma ThreeSteps(name: string)
    ensures IsNumbered(ChangeName(ChangeName(ChangeName(name))))
  {
    var n1 := ChangeName(name);
    var n2 := ChangeName(n1);
    CopyFirst(name);
    CopyBecomesNumbered(n1);
    if n2 == "Copy of " {
      StartsWithCopy(n2);
      NoneOf(n2, '(');
      CopyBecomesNumbered(n2);
    } else {
      var k, t :| n2 == Numbered(k, t);
      NumbersCountUp(k, t);
    }
  }

  /** After one step every name begins with "Copy ". */
  lemma CopyFirst(name: string)
    ensures IndexOf(ChangeName(name), "Copy ") == 0 && |ChangeName(name)| >= 5 && ChangeName(name)[..5] == "Copy "
  {
    ChangedBegins(name);
    StartsWithCopy(ChangeName(name));
  }

  lemma ChangedBegins(name: string)
    ensures |ChangeName(name)| >= 5 && ChangeName(name)[..5] == "Copy "
  {
    if IndexOf(name, "Copy ") == -1 {
      FirstFive("Copy of ", name);
    } else if IndexOf(name, "(") == -1 {
      FirstFive("Copy (1) of ", Drop(name, 8));
    } else if IndexOf(name, ")") != -1 {
      NumberedFirstFive(name, IndexOf(name, "("), IndexOf(name, ")"));
    }
  }

  lemma FirstFive(text: string, rest: string)
    requires |text| >= 5 && text[..5] == "Copy "
    ensures (text + rest)[..5] == "Copy "
  {
    assert (text + rest)[..5] == text[..5];
  }

  lemma NumberedFirstFive(name: string, open: nat, close: nat)
    ensures |CountedUp(name, open, close)| >= 5 && CountedUp(name, open, close)[..5] == "Copy "
  {
    var k := Atoi(Mid(name, open + 1, close - open - 1)) + 1;
    FirstFive("Copy (", ToString(k));
    FirstFive("Copy (" + ToString(k), ") of ");
    FirstFive("Copy (" + ToString(k) + ") of ", Drop(name, close + 5));
  }

  /**
   For a name without "Copy " the second rename keeps the original name, as copy number 1, exactly when
   that name has no opening parenthesis.
   */
  lemma OriginalNameKept(name: string)
    requires IndexOf(name, "Copy ") == -1
    ensures ChangeName(ChangeName(name)) == Numbered(1, name) <==> '(' !in name
  {
    if '(' in name {
      TextIsLost(name);
    } else {
      TextIsKept(name);
    }
  }

  lemma TextIsKept(name: string)
    requires '(' !in name
    ensures ChangeName("Copy of " + name) == Numbered(1, name)
  {
    var n1 := "Copy of " + name;
    BeginsWithCopy(n1, "of " + name);
    InCopyOf(name, '(');
    assert Drop(n1, 8) == name;
    NumberOne(name);
  }

  /** What is behind the first closing parenthesis is shorter than the original name. */
  lemma TextIsLost(name: string)
    requires '(' in name
    ensures ChangeName("Copy of " + name) != Numbered(1, name)
  {
    var n1 := "Copy of " + name;
    BeginsWithCopy(n1, "of " + name);
    InCopyOf(name, '(');
    if IndexOf(n1, ")") != -1 {
      CountedUpIsShorter(name, IndexOf(n1, "("), IndexOf(n1, ")"));
    } else {
      assert |Numbered(1, name)| > |"Copy of "|;
    }
  }

  lemma CountedUpIsShorter(name: string, open: nat, close: nat)
    requires close < |"Copy of " + name| && ("Copy of " + name)[close..close + 1] == ")"
    ensures CountedUp("Copy of " + name, open, close) != Numbered(1, name)
  {
    var n1 := "Copy of " + name;
    assert n1[close..close + 1][0] == ')';
    assert close >= 8;
    var k, t := Atoi(Mid(n1, open + 1, close - open - 1)) + 1, Drop(n1, close + 5);
    assert |t| < |name|;
    if Numbered(k, t) == Numbered(1, name) {
      NumberedInjective(k, t, 1, name);
    }
  }

  /** With an opening parenthesis that is never closed nothing of the name is left. */
  lemma UnclosedNameIsLost(name: string)
    requires IndexOf(name, "Copy ") == -1 && '(' in name && ')' !in name
    ensures ChangeName(ChangeName(name)) == "Copy of "
  {
    var n1 := "Copy of " + name;
    BeginsWithCopy(n1, "of " + name);
    InCopyOf(name, '(');
    InCopyOf(name, ')');
  }

  lemma InCopyOf(name: string, c: char)
    requires c !in "Copy of "
    ensures IndexOf("Copy of " + name, [c]) == -1 <==> c !in name
  {
    NoneOf("Copy of " + name, c);
  }

  lemma CopyHasC(name: string)
    ensures IndexOf(name, "Copy ") == -1 || 'C' in name
  {
    var i := IndexOf(name, "Copy ");
    if i != -1 {
      assert name[i..i + 5][0] == name[i];
    }
  }

  /** A case: the second copy of "a(b" has lost the name. */
  lemma OpenParenthesisLosesName()
    ensures ChangeName(ChangeName("a(b")) == "Copy of "
  {
    var name := "a(b";
    CopyHasC(name);
    assert name[1] == '(';
    UnclosedNameIsLost(name);
  }

  // ---------------------------------------------------------------- the renaming loop

  ghost predicate Harmless(name: string, from: string) {
    forall c | c in name :: c in from || (c !in SLASHES && c != '.')
  }

  lemma HarmlessParts(a: string, b: string, from: string)
    requires Harmless(a, from) && Harmless(b, from)
    ensures Harmless(a + b, from)
  {
  }

  lemma NumberedHarmless(k: int, t: string, from: string)
    requires Harmless(t, from)
    ensures Harmless(Numbered(k, t), from)
  {
    NumberText(k);
    HarmlessParts("Copy (", ToString(k), from);
    HarmlessParts("Copy (" + ToString(k), ") of ", from);
    HarmlessParts("Copy (" + ToString(k) + ") of ", t, from);
  }

  lemma DropHarmless(s: string, n: nat)
    ensures Harmless(Drop(s, n), s)
  {
  }

  /** Renaming brings in neither a separator nor a dot. */
  lemma ChangeIsHarmless(name: string)
    ensures Harmless(ChangeName(name), name)
  {
    if IndexOf(name, "Copy ") == -1 {
      HarmlessParts("Copy of ", name, name);
    } else if IndexOf(name, "(") == -1 {
      DropHarmless(name, 8);
      HarmlessParts("Copy (1) of ", Drop(name, 8), name);
    } else if IndexOf(name, ")") != -1 {
      CountedUpHarmless(name, IndexOf(name, "("), IndexOf(name, ")"));
    }
  }

  lemma CountedUpHarmless(name: string, open: nat, close: nat)
    ensures Harmless(CountedUp(name, open, close), name)
  {
    DropHarmless(name, close + 5);
    NumberedHarmless(Atoi(Mid(name, open + 1, close - open - 1)) + 1, Drop(name, close + 5), name);
  }

  lemma RenameInPlace(p: Path)
    requires Stable(p)
    ensures SplitPath(JoinPath(p.(name := ChangeName(p.name)))) == p.(name := ChangeName(p.name))
    ensures Stable(p.(name := ChangeName(p.name)))
  {
    ChangeIsHarmless(p.name);
    CopyFirst(p.name);
    assert ChangeName(p.name)[..5][0] == 'C' && ChangeName(p.name)[..5][1] == 'o';
    SplitAfterRename(p, ChangeName(p.name));
  }

  /**
   What a path is split into: the name and the extension, from the last dot on, hold no separator, and the folder is
   what stands up to the last separator or behind the colon of a drive.
   */
  lemma PathParts(s: string)
    ensures var p := SplitPath(s);
            && p.folder + p.name + p.ext == s
            && (forall c | c in p.name + p.ext :: c != '/' && c != '\\')
            && (if p.ext == "" then '.' !in p.name else p.ext[0] == '.' && '.' !in p.ext[1..])
            && (p.folder == "" || p.folder[|p.folder| - 1] in {'/', '\\'} || (|p.folder| == 2 && s[1] == ':'))
            && (|s| >= 2 && s[1] == ':' ==> |p.folder| >= 2)
  {
    SplitIsStable(s);
    FolderForm(s);
    NoSlashes(SplitPath(s).name, SplitPath(s).ext);
  }

  lemma FolderForm(s: string)
    ensures var n := FolderLength(s);
            && (n == 0 || s[n - 1] in {'/', '\\'} || (n == 2 && s[1] == ':'))
            && (|s| >= 2 && s[1] == ':' ==> n >= 2)
  {
  }

  lemma NoSlashes(a: string, b: string)
    requires (forall c | c in a :: c !in SLASHES) && (forall c | c in b :: c !in SLASHES)
    ensures forall c | c in a + b :: c != '/' && c != '\\'
  {
  }

  /** The first copy of a file whose name has no "Copy " in it is called "Copy of " and that name. */
  lemma FirstCopy(s: string)
    requires !Contains(SplitPath(s).name, "Copy ")
    ensures var p := SplitPath(s); ChangeFileName(s) == p.folder + ("Copy of " + p.name) + p.ext
  {
    IndexOfIsLeftmost(SplitPath(s).name, "Copy ");
  }

  function Renamed(p: Path): Path {
    p.(name := ChangeName(p.name))
  }

  lemma ChangeKeepsFolder(fileName: string)
    ensures SplitPath(ChangeFileName(fileName)) == Renamed(SplitPath(fileName))
  {
    SplitIsStable(fileName);
    RenameInPlace(SplitPath(fileName));
  }

  // Repeated application of a function, and the first result outside a finite set.

  function Iterate<T>(f: T -> T, x: T, n: nat): T {
    if n == 0 then x else f(Iterate(f, x, n - 1))
  }

  lemma {:induction false} IterateProject<T(!new), U>(f: T -> T, x: T, project: T -> U, g: U -> U, n: nat)
    requires forall y :: project(f(y)) == g(project(y))
    ensures project(Iterate(f, x, n)) == Iterate(g, project(x), n)
  {
    if n > 0 {
      IterateProject(f, x, project, g, n - 1);
    }
  }

  lemma {:induction false} IterateAdd<T>(f: T -> T, x: T, m: nat, n: nat)
    ensures Iterate(f, x, m + n) == Iterate(f, Iterate(f, x, m), n)
  {
    if n > 0 {
      IterateAdd(f, x, m, n - 1);
    }
  }

  lemma {:induction false} IterateCounts<T>(f: T -> T, form: int -> T, k: int, n: nat)
    requires forall j :: f(form(j)) == form(j + 1)
    ensures Iterate(f, form(k), n) == form(k + n)
  {
    if n > 0 {
      IterateCounts(f, form, k, n - 1);
      assert f(form(k + n - 1)) == form(k + n - 1 + 1);
    }
  }

  /** When the projections of the results reach a counting form, they go on counting. */
  lemma IterateThrough<T(!new), U>(f: T -> T, x: T, project: T -> U, g: U -> U, form: int -> U,
                                   from: nat, k: int, i: nat)
    requires forall y :: project(f(y)) == g(project(y))
    requires forall j :: g(form(j)) == form(j + 1)
    requires Iterate(g, project(x), from) == form(k) && from <= i
    ensures project(Iterate(f, x, i)) == form(k + (i - from))
  {
    IterateProject(f, x, project, g, i);
    IterateAdd(g, project(x), from, i - from);
    IterateCounts(g, form, k, i - from);
  }

  /** The i-th result projects to the form of k + (i - from). */
  ghost predicate CountsFrom<T, U>(f: T -> T, x: T, project: T -> U, form: int -> U, from: nat, k: int) {
    forall i | from <= i :: project(Iterate(f, x, i)) == form(k + (i - from))
  }

  ghost predicate DistinctFrom<T>(f: T -> T, x: T, from: nat) {
    forall i, j | from <= i < j :: Iterate(f, x, i) != Iterate(f, x, j)
  }

  lemma IterateDistinct<T(!new), U>(f: T -> T, x: T, project: T -> U, g: U -> U, form: int -> U, from: nat, k: int)
    requires forall y :: project(f(y)) == g(project(y))
    requires forall j :: g(form(j)) == form(j + 1)
    requires forall i, j | i != j :: form(i) != form(j)
    requires Iterate(g, project(x), from) == form(k)
    ensures CountsFrom(f, x, project, form, from, k) && DistinctFrom(f, x, from)
  {
    forall i | from <= i
      ensures project(Iterate(f, x, i)) == form(k + (i - from))
    {
      IterateThrough(f, x, project, g, form, from, k, i);
    }
    forall i, j | from <= i < j
      ensures Iterate(f, x, i) != Iterate(f, x, j)
    {
      assert form(k + (i - from)) != form(k + (j - from));
    }
  }

  ghost predicate AllEarlier<T>(f: T -> T, x: T, seen: set<T>, from: nat, n: nat) {
    forall s | s in seen :: Earlier(f, x, s, from, n)
  }

  ghost predicate Earlier<T>(f: T -> T, x: T, s: T, from: nat, n: nat) {
    exists i :: from <= i < n && s == Iterate(f, x, i)
  }

  /** One more result inside `existing` leaves fewer that can come. */
  lemma OneMoreSeen<T>(f: T -> T, x: T, existing: set<T>, seen: set<T>, from: nat, n: nat) returns (next: set<T>)
    requires DistinctFrom(f, x, from)
    requires AllEarlier(f, x, seen, from, n) && Iterate(f, x, n) in existing && (n < from ==> seen == {})
    ensures AllEarlier(f, x, next, from, n + 1) && (n + 1 < from ==> next == {})
    ensures if n < from then next == seen else |existing - next| < |existing - seen|
  {
    next := seen;
    if from <= n {
      var y := Iterate(f, x, n);
      next := seen + {y};
      assert Earlier(f, x, y, from, n + 1);
      forall s | s in seen
        ensures s != y && Earlier(f, x, s, from, n + 1)
      {
        assert Earlier(f, x, s, from, n);
      }
      assert existing - next == (existing - seen) - {y};
    }
  }

  /** Apply `f` while the result is in a finite set: this ends when from some point on no result comes twice. */
  method FirstOutside<T(==)>(f: T -> T, x: T, existing: set<T>, ghost from: nat) returns (y: T, ghost n: nat)
    requires DistinctFrom(f, x, from)
    ensures y !in existing && y == Iterate(f, x, n)
    ensures forall i: nat | i < n :: Iterate(f, x, i) in existing
  {
    y, n := x, 0;
    ghost var seen: set<T> := {};
    while y in existing
      invariant y == Iterate(f, x, n)
      invariant AllEarlier(f, x, seen, from, n) && (n < from ==> seen == {})
      invariant forall i: nat | i < n :: Iterate(f, x, i) in existing
      decreases if n < from then from - n else 0, |existing - seen|
    {
      seen := OneMoreSeen(f, x, existing, seen, from, n);
      y := f(y);
      n := n + 1;
    }
  }

  lemma RenamesKeepFolder()
    ensures forall y :: SplitPath(ChangeFileName(y)) == Renamed(SplitPath(y))
  {
    forall y
      ensures SplitPath(ChangeFileName(y)) == Renamed(SplitPath(y))
    {
      ChangeKeepsFolder(y);
    }
  }

  /** Folder and extension never change, and the n-th name is the n-th rename of the first one. */
  lemma FolderAndExtensionStay(fileName: string, n: nat)
    ensures SplitPath(Iterate(ChangeFileName, fileName, n)) == Iterate(Renamed, SplitPath(fileName), n)
  {
    RenamesKeepFolder();
    IterateProject(ChangeFileName, fileName, SplitPath, Renamed, n);
  }

  function NumberedPath(p: Path, k: int, t: string): Path {
    p.(name := Numbered(k, t))
  }

  lemma ThirdIsNumbered(p: Path) returns (k: int, t: string)
    ensures Iterate(Renamed, p, 3) == NumberedPath(p, k, t)
  {
    ThreeSteps(p.name);
    k, t :| ChangeName(ChangeName(ChangeName(p.name))) == Numbered(k, t);
    assert Iterate(Renamed, p, 3) == Renamed(Renamed(Renamed(p)));
  }

  lemma RenamedCounts(p: Path, k: int, t: string)
    ensures Renamed(NumberedPath(p, k, t)) == NumberedPath(p, k + 1, t)
  {
    NumbersCountUp(k, t);
  }

  /** Number j of the text t, in the folder and with the extension of p. */
  function NumberedForm(p: Path, t: string): int -> Path {
    (j: int) => NumberedPath(p, j, t)
  }

  lemma FormCountsUp(p: Path, t: string)
    ensures forall j :: Renamed(NumberedForm(p, t)(j)) == NumberedForm(p, t)(j + 1)
    ensures forall i, j | i != j :: NumberedForm(p, t)(i) != NumberedForm(p, t)(j)
  {
    forall j
      ensures Renamed(NumberedForm(p, t)(j)) == NumberedForm(p, t)(j + 1)
    {
      RenamedCounts(p, j, t);
    }
    forall i, j | i != j
      ensures NumberedForm(p, t)(i) != NumberedForm(p, t)(j)
    {
      DifferentNumbers(p, i, j, t);
    }
  }

  /**
   From the third rename on: numbers that count up, behind a fixed text, in the same folder, with the same
   extension.
   */
  lemma NumberedFromThree(fileName: string) returns (k: int, t: string)
    ensures CountsFrom(ChangeFileName, fileName, SplitPath, NumberedForm(SplitPath(fileName), t), 3, k)
    ensures DistinctFrom(ChangeFileName, fileName, 3)
  {
    k, t := ThirdIsNumbered(SplitPath(fileName));
    RenamesKeepFolder();
    FormCountsUp(SplitPath(fileName), t);
    IterateDistinct(ChangeFileName, fileName, SplitPath, Renamed, NumberedForm(SplitPath(fileName), t), 3, k);
  }

  lemma DifferentNumbers(p: Path, i: int, j: int, t: string)
    requires i != j
    ensures NumberedPath(p, i, t) != NumberedPath(p, j, t)
  {
    if Numbered(i, t) == Numbered(j, t) {
      NumberedInjective(i, t, j, t);
    }
  }

  /** The loop of DoFileCopy when it must not overwrite: it ends, on the first name that no file has. */
  method UnusedName(destFile: string, existing: set<string>) returns (fileName: string, ghost n: nat)
    ensures fileName !in existing && fileName == Iterate(ChangeFileName, destFile, n)
    ensures forall i: nat | i < n :: Iterate(ChangeFileName, destFile, i) in existing
  {
    ghost var k, t := NumberedFromThree(destFile);
    fileName, n := FirstOutside(ChangeFileName, destFile, existing, 3);
  }
}
