/** How ci_select_smokes.py normalises a list of changed paths. */
module PathCleaning {
  import opened Text

  function Slashed(s: string): string {
    seq(|s|, i requires 0 <= i < |s| => if s[i] == '\\' then '/' else s[i])
  }

  predicate StartsWith(s: string, prefix: string) {
    |prefix| <= |s| && s[..|prefix|] == prefix
  }

  function DropDots(s: string): string {
    if StartsWith(s, "./") then DropDots(s[2..]) else s
  }

  function CleanPath(raw: string): string {
    DropDots(Slashed(Strip(raw)))
  }

  /** The non-empty cleaned paths, in order, repetitions included. */
  function Cleaned(paths: seq<string>): seq<string> {
    if paths == [] then []
    else
      var path := CleanPath(paths[|paths| - 1]);
      Cleaned(paths[..|paths| - 1]) + if path != [] then [path] else []
  }

  // ---------------------------------------------------------------- sorted(set(...))

  predicate Less(a: string, b: string) {
    b != [] && (a == [] || a[0] < b[0] || (a[0] == b[0] && Less(a[1..], b[1..])))
  }

  lemma {:induction false} LessTransitive(a: string, b: string, c: string)
    requires Less(a, b) && Less(b, c)
    ensures Less(a, c)
  {
    if a != [] && a[0] == b[0] == c[0] {
      LessTransitive(a[1..], b[1..], c[1..]);
    }
  }

  lemma {:induction false} LessTotal(a: string, b: string)
    ensures a == b || Less(a, b) || Less(b, a)
    ensures !(Less(a, b) && Less(b, a)) && !Less(a, a)
  {
    if a != [] && b != [] && a[0] == b[0] {
      LessTotal(a[1..], b[1..]);
      assert a == [a[0]] + a[1..] && b == [b[0]] + b[1..];
    }
    if a != [] {
      LessTotal(a[1..], a[1..]);
    }
  }

  function Insert(s: seq<string>, x: string): seq<string> {
    if s == [] then [x]
    else if x == s[0] then s
    else if Less(x, s[0]) then [x] + s
    else [s[0]] + Insert(s[1..], x)
  }

  function SortedSet(xs: seq<string>): seq<string> {
    if xs == [] then [] else Insert(SortedSet(xs[..|xs| - 1]), xs[|xs| - 1])
  }

  ghost predicate Sorted(s: seq<string>) {
    forall i, j :: 0 <= i < j < |s| ==> Less(s[i], s[j])
  }

  function Elements(s: seq<string>): set<string> {
    set x | x in s
  }

  lemma ElementsCons(x: string, s: seq<string>)
    ensures Elements([x] + s) == {x} + Elements(s)
  {
    forall y | y in {x} + Elements(s) ensures y in [x] + s {
      if y == x { assert ([x] + s)[0] == x; }
    }
  }

  lemma EmptyIffNoElements(s: seq<string>)
    ensures s == [] <==> Elements(s) == {}
  {
    if s != [] {
      assert s[0] in Elements(s);
    }
  }

  lemma SortedCons(x: string, s: seq<string>)
    requires Sorted(s) && forall y :: y in Elements(s) ==> Less(x, y)
    ensures Sorted([x] + s)
  {
    hide Less;
    forall i, j | 0 <= i < j < |[x] + s| ensures Less(([x] + s)[i], ([x] + s)[j]) {
      assert s[j - 1] in Elements(s);
    }
  }

  lemma SortedRest(s: seq<string>)
    requires Sorted(s) && s != []
    ensures Sorted(s[1..]) && s == [s[0]] + s[1..] && forall y :: y in Elements(s[1..]) ==> Less(s[0], y)
  {
    hide Less;
    forall y | y in Elements(s[1..]) ensures Less(s[0], y) {
      var j :| 0 <= j < |s[1..]| && s[1..][j] == y;
      assert s[j + 1] == y;
    }
  }

  lemma {:induction false} InsertSorted(s: seq<string>, x: string)
    requires Sorted(s)
    ensures Sorted(Insert(s, x)) && Elements(Insert(s, x)) == Elements(s) + {x}
  {
    hide Less, Sorted, Elements;
    if s == [] {
      NothingSorted();
      SortedCons(x, s);
      ElementsCons(x, s);
      assert [x] + s == [x];
    } else {
      SortedRest(s);
      ElementsCons(s[0], s[1..]);
      LessTotal(x, s[0]);
      if x != s[0] && Less(x, s[0]) {
        forall y | y in Elements(s) ensures Less(x, y) {
          if y != s[0] { LessTransitive(x, s[0], y); }
        }
        SortedCons(x, s);
        ElementsCons(x, s);
      } else if x != s[0] {
        InsertSorted(s[1..], x);
        SortedCons(s[0], Insert(s[1..], x));
        ElementsCons(s[0], Insert(s[1..], x));
      }
    }
  }

  lemma NothingSorted()
    ensures Sorted([]) && Elements([]) == {}
  {
  }

  lemma {:induction false} SortedSetSorted(xs: seq<string>)
    ensures Sorted(SortedSet(xs)) && Elements(SortedSet(xs)) == Elements(xs)
  {
    if xs != [] {
      var n := |xs| - 1;
      SortedSetSorted(xs[..n]);
      InsertSorted(SortedSet(xs[..n]), xs[n]);
      assert xs == xs[..n] + [xs[n]];
    }
  }

  /** A set has one sorted listing. */
  lemma {:induction false} SortedUnique(s: seq<string>, t: seq<string>)
    requires Sorted(s) && Sorted(t) && Elements(s) == Elements(t)
    ensures s == t
  {
    EmptyIffNoElements(s);
    EmptyIffNoElements(t);
    if s != [] {
      FirstIsLeast(s, t);
      RestElements(s);
      RestElements(t);
      SortedUnique(s[1..], t[1..]);
      assert s == [s[0]] + s[1..] && t == [t[0]] + t[1..];
    }
  }

  lemma FirstIsLeast(s: seq<string>, t: seq<string>)
    requires Sorted(s) && Sorted(t) && Elements(s) == Elements(t) && s != [] && t != []
    ensures s[0] == t[0]
  {
    assert s[0] in Elements(t) && t[0] in Elements(s);
    var i :| 0 <= i < |t| && t[i] == s[0];
    var j :| 0 <= j < |s| && s[j] == t[0];
    LessTotal(s[0], t[0]);
  }

  lemma RestElements(s: seq<string>)
    requires Sorted(s) && s != []
    ensures Elements(s[1..]) == Elements(s) - {s[0]} && Sorted(s[1..])
  {
    assert s == [s[0]] + s[1..];
    forall x | x in s[1..] ensures x != s[0] {
      LessTotal(s[0], x);
    }
  }

  /** `_clean_paths`. */
  method CleanPaths(paths: seq<string>) returns (changed: seq<string>)
    ensures changed == SortedSet(Cleaned(paths))
  {
    var cleaned := [];
    for i := 0 to |paths|
      invariant cleaned == Cleaned(paths[..i])
    {
      var path := Slashed(StripLeft(StripRight(paths[i])));
      while StartsWith(path, "./")
        invariant DropDots(path) == CleanPath(paths[i])
        decreases |path|
      {
        path := path[2..];
      }
      assert paths[..i + 1][..i] == paths[..i];
      if path != [] {
        cleaned := cleaned + [path];
      }
    }
    assert paths[..|paths|] == paths;
    changed := SortedSet(cleaned);
  }

  // ---------------------------------------------------------------- properties

  lemma {:induction false} CleanedAppend(xs: seq<string>, ys: seq<string>)
    ensures Cleaned(xs + ys) == Cleaned(xs) + Cleaned(ys)
  {
    if ys == [] {
      assert xs + ys == xs;
    } else {
      var n := |ys| - 1;
      CleanedAppend(xs, ys[..n]);
      assert (xs + ys)[..|xs + ys| - 1] == xs + ys[..n];
    }
  }

  /** The changed files depend only on the set of cleaned paths, not on order or repetition. */
  lemma OrderAndDuplicatesIrrelevant(xs: seq<string>, ys: seq<string>)
    ensures SortedSet(Cleaned(xs)) == SortedSet(Cleaned(ys)) <==> Elements(Cleaned(xs)) == Elements(Cleaned(ys))
  {
    SortedSetSorted(Cleaned(xs));
    SortedSetSorted(Cleaned(ys));
    if Elements(Cleaned(xs)) == Elements(Cleaned(ys)) {
      SortedUnique(SortedSet(Cleaned(xs)), SortedSet(Cleaned(ys)));
    }
  }

  lemma {:induction false} StripRightKeepsPrefix(s: string)
    ensures StripRight("./" + s) == "./" + StripRight(s)
    ensures |StripRight(s)| <= |s| && StripRight(s) == s[..|StripRight(s)|]
    ensures StripRight(s) == [] <==> forall i :: 0 <= i < |s| ==> IsSpace(s[i])
  {
    if s == [] {
      assert "./" + s == "./";
    } else {
      var n := |s| - 1;
      assert ("./" + s)[..|"./" + s| - 1] == "./" + s[..n];
      if IsSpace(s[n]) {
        StripRightKeepsPrefix(s[..n]);
      }
    }
  }

  lemma {:induction false} DropDotsShorter(s: string)
    ensures |DropDots(s)| <= |s|
  {
    if StartsWith(s, "./") {
      DropDotsShorter(s[2..]);
    }
  }

  lemma SlashedDotSlash(s: string)
    ensures DropDots(Slashed("./" + s)) == DropDots(Slashed(s))
  {
    assert Slashed("./" + s) == "./" + Slashed(s);
    assert ("./" + Slashed(s))[2..] == Slashed(s);
  }

  /** A `./` in front changes nothing exactly when the path does not start with white space, or
      is nothing but white space: stripping happens before the prefix is dropped, never after. */
  lemma DotSlashIrrelevantIff(p: string)
    ensures CleanPath("./" + p) == CleanPath(p)
       <==> (p == [] || !IsSpace(p[0]) || forall i :: 0 <= i < |p| ==> IsSpace(p[i]))
  {
    var q := StripRight(p);
    StripRightKeepsPrefix(p);
    assert StripLeft("./" + q) == "./" + q;
    SlashedDotSlash(q);
    if q != [] && IsSpace(p[0]) {
      StripLeftShape(q[1..]);
      DropDotsShorter(Slashed(StripLeft(q)));
      assert Slashed(q)[0] == q[0] == p[0];
    }
  }

  lemma {:induction false} DropDotsShape(s: string)
    ensures !StartsWith(DropDots(s), "./") && |DropDots(s)| <= |s| && DropDots(s) == s[|s| - |DropDots(s)|..]
  {
    if StartsWith(s, "./") {
      DropDotsShape(s[2..]);
    }
  }

  lemma {:induction false} StripLeftDone(s: string)
    ensures StripLeft(s) == [] || !IsSpace(StripLeft(s)[0])
    ensures |StripLeft(s)| <= |s| && StripLeft(s) == s[|s| - |StripLeft(s)|..]
  {
    if s != [] && IsSpace(s[0]) {
      StripLeftDone(s[1..]);
    }
  }

  lemma {:induction false} StripRightDone(s: string)
    ensures StripRight(s) == [] || !IsSpace(StripRight(s)[|StripRight(s)| - 1])
  {
    if s != [] && IsSpace(s[|s| - 1]) {
      StripRightDone(s[..|s| - 1]);
    }
  }

  lemma StripDone(s: string)
    ensures Strip(s) == [] || (!IsSpace(Strip(s)[0]) && !IsSpace(Strip(s)[|Strip(s)| - 1]))
  {
    var q := StripRight(s);
    StripRightDone(s);
    StripLeftDone(q);
  }

  /** A clean path has only forward slashes, does not start with `./` and does not end with white space. */
  predicate Clean(path: string) {
    && path != [] && !StartsWith(path, "./") && (forall i :: 0 <= i < |path| ==> path[i] != '\\')
    && !IsSpace(path[|path| - 1])
  }

  lemma CleanPathIsClean(raw: string)
    ensures CleanPath(raw) == [] || Clean(CleanPath(raw))
  {
    StripDone(raw);
    DropDotsShape(Slashed(Strip(raw)));
  }

  /** Everything that gets through is clean, and what was clean, and did not start with white space, gets
      through as it is. */
  lemma {:induction false} OnlyCleanPaths(paths: seq<string>)
    ensures forall path :: path in Cleaned(paths) ==> Clean(path)
    ensures forall path :: path in paths && Clean(path) && !IsSpace(path[0]) ==> path in Cleaned(paths)
  {
    hide Clean;
    if paths != [] {
      var n := |paths| - 1;
      OnlyCleanPaths(paths[..n]);
      CleanPathIsClean(paths[n]);
      CleanUnchanged(paths[n]);
      assert paths == paths[..n] + [paths[n]];
    }
  }

  lemma CleanUnchanged(path: string)
    ensures Clean(path) ==> path != [] && (!IsSpace(path[0]) ==> CleanPath(path) == path)
  {
    StripUnchangedIff(path);
    if Clean(path) {
      assert Slashed(path) == path;
    }
  }
}
