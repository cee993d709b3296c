/** The deadband sign-change count of geometry_quality.py. */
module SignChanges {
  import opened Numeric

  function Sign(value: real, deadband: real): int {
    if value > deadband then 1 else if value < -deadband then -1 else 0
  }

  /** The signs outside the deadband, in order. */
  function Signs(values: seq<real>, deadband: real): seq<int> {
    if values == [] then []
    else
      var s := Sign(values[0], deadband);
      (if s != 0 then [s] else []) + Signs(values[1..], deadband)
  }

  function Alternations(signs: seq<int>): nat {
    if |signs| < 2 then 0
    else (if signs[0] != signs[1] then 1 else 0) + Alternations(signs[1..])
  }

  function Count(values: seq<real>, deadband: real): nat {
    Alternations(Signs(values, deadband))
  }

  // ---------------------------------------------------------------- deleting elements

  ghost predicate Subsequence(a: seq<int>, b: seq<int>)
    decreases |b|
  {
    || a == []
    || (b != [] && a[0] == b[0] && Subsequence(a[1..], b[1..]))
    || (b != [] && Subsequence(a, b[1..]))
  }

  /** Deleting elements never adds alternations. */
  lemma {:induction false} DeletionNeverAdds(a: seq<int>, b: seq<int>)
    requires Subsequence(a, b)
    ensures Alternations(a) + (if a != [] && a[0] != b[0] then 1 else 0) <= Alternations(b)
    decreases |b|
  {
    if a != [] {
      if a[0] == b[0] && Subsequence(a[1..], b[1..]) {
        DeletionNeverAdds(a[1..], b[1..]);
      } else {
        DeletionNeverAdds(a, b[1..]);
      }
    }
  }

  lemma SubsequenceSkip(a: seq<int>, b: seq<int>, x: int)
    requires Subsequence(a, b)
    ensures Subsequence(a, [x] + b)
  {
    assert ([x] + b)[1..] == b;
  }

  lemma SubsequenceKeep(a: seq<int>, b: seq<int>, x: int)
    requires Subsequence(a, b)
    ensures Subsequence([x] + a, [x] + b)
  {
    assert ([x] + a)[1..] == a && ([x] + b)[1..] == b;
  }

  /** A deadband that covers another in magnitude keeps a subsequence of its signs. */
  lemma {:induction false} WiderKeepsLess(values: seq<real>, narrow: real, wide: real)
    requires Abs(narrow) <= wide
    ensures Subsequence(Signs(values, wide), Signs(values, narrow))
  {
    if values != [] {
      WiderKeepsLess(values[1..], narrow, wide);
      var a, b := Signs(values[1..], wide), Signs(values[1..], narrow);
      var s := Sign(values[0], narrow);
      assert [] + a == a && [] + b == b;
      if Sign(values[0], wide) != 0 {
        SubsequenceKeep(a, b, s);
      } else if s != 0 {
        SubsequenceSkip(a, b, s);
      }
    }
  }

  /** No list of values crosses more often under `wide` than under `narrow`. */
  ghost predicate NeverMore(narrow: real, wide: real) {
    forall values :: Count(values, wide) <= Count(values, narrow)
  }

  lemma PairCount(x: real, y: real, deadband: real)
    ensures Count([x, y], deadband) ==
              if Sign(x, deadband) != 0 && Sign(y, deadband) != 0 && Sign(x, deadband) != Sign(y, deadband) then 1
              else 0
  {
    var s, t := Sign(x, deadband), Sign(y, deadband);
    assert [x, y][1..] == [y] && [y][1..] == [];
    assert Signs([y], deadband) == if t != 0 then [t] else [];
    assert Signs([x, y], deadband) == (if s != 0 then [s] else []) + (if t != 0 then [t] else []);
    assert [s] + [t] == [s, t] && [s, t][1..] == [t] && [s] + [] == [s] && [] + [t] == [t];
    assert Alternations([s, t]) == if s != t then 1 else 0;
  }

  /** Two values that cross under `wide` only. */
  lemma CrossesOnlyWide(narrow: real, wide: real) returns (x: real, y: real)
    requires narrow != wide && wide < Abs(narrow)
    ensures Count([x, y], wide) == 1 && Count([x, y], narrow) == 0
  {
    if wide < 0.0 {
      x, y := wide, if wide < narrow < 0.0 then narrow else 0.0;
    } else if narrow < 0.0 {
      x, y := (narrow - wide) / 2.0, wide + 1.0;
    } else {
      x, y := narrow, -narrow;
    }
    PairCount(x, y, wide);
    PairCount(x, y, narrow);
  }

  /** Widening never adds a sign change exactly when the wider deadband is at least the narrower
      one in magnitude; in particular for 0 <= narrow <= wide. */
  lemma NeverMoreIff(narrow: real, wide: real)
    ensures NeverMore(narrow, wide) <==> narrow == wide || Abs(narrow) <= wide
  {
    if Abs(narrow) <= wide {
      forall values ensures Count(values, wide) <= Count(values, narrow) {
        WiderKeepsLess(values, narrow, wide);
        DeletionNeverAdds(Signs(values, wide), Signs(values, narrow));
      }
    } else if narrow != wide {
      var x, y := CrossesOnlyWide(narrow, wide);
    }
  }

  // ---------------------------------------------------------------- mirroring

  function Negated(values: seq<real>): seq<real> {
    seq(|values|, i requires 0 <= i < |values| => -values[i])
  }

  function Opposite(signs: seq<int>): seq<int> {
    seq(|signs|, i requires 0 <= i < |signs| => -signs[i])
  }

  lemma {:induction false} SignsMirror(values: seq<real>, deadband: real)
    requires deadband >= 0.0
    ensures Signs(Negated(values), deadband) == Opposite(Signs(values, deadband))
  {
    if values != [] {
      SignsMirror(values[1..], deadband);
      assert Negated(values)[1..] == Negated(values[1..]);
    }
  }

  lemma {:induction false} AlternationsMirror(signs: seq<int>)
    ensures Alternations(Opposite(signs)) == Alternations(signs)
  {
    if |signs| >= 2 {
      AlternationsMirror(signs[1..]);
      assert Opposite(signs)[1..] == Opposite(signs[1..]);
    }
  }

  /** Left and right count alike exactly when the deadband is not negative. */
  lemma MirrorInvariantIff(deadband: real)
    ensures (forall values :: Count(Negated(values), deadband) == Count(values, deadband)) <==> deadband >= 0.0
  {
    if deadband >= 0.0 {
      forall values ensures Count(Negated(values), deadband) == Count(values, deadband) {
        SignsMirror(values, deadband);
        AlternationsMirror(Signs(values, deadband));
      }
    } else {
      PairCount(deadband, 0.0, deadband);
      PairCount(-deadband, 0.0, deadband);
      assert Negated([deadband, 0.0]) == [-deadband, 0.0];
      assert Count(Negated([deadband, 0.0]), deadband) != Count([deadband, 0.0], deadband);
    }
  }
}
