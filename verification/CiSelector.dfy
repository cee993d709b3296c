/** The change-aware smoke selection of ci_select_smokes.py. */
module CiSelector {
  import opened Numeric
  import opened PathCleaning

  const CONTEXTS := {"pr", "full", "main"}

  const FULL_PREFIXES := [".github/workflows/", "tools/", "src/salus_interfaces/", "src/salus_bringup/",
                          "src/salus_description/", "src/salus_simulation/", "src/salus_hardware/"]

  const FULL_FILES := {"Dockerfile", "Dockerfile.real", "compose.yaml", "dependencies.repos", "entrypoint.sh",
                       "docs/package-map.yaml"}

  const FAST_ONLY_PREFIXES := ["docs/"]

  const FAST_ONLY_FILES := {".editorconfig", ".gitignore", "AGENTS.md", "LICENSE", "README.md"}

  datatype Package = Package(prefix: string, smokes: set<string>)

  const PACKAGE_SMOKES := [
    Package("src/salus_control/", {"control", "motion", "safety", "integration"}),
    Package("src/salus_localization/", {"localization", "localization_canonical", "sensor_selection", "integration",
                                        "navigation", "navigation_canonical"}),
    Package("src/salus_navigation/", {"safety", "integration", "navigation", "navigation_canonical",
                                      "navigation_no_obstacles", "zones", "routes", "patrol_battery", "snapshot"}),
    Package("src/salus_navigation_bt/", {"integration", "navigation", "navigation_canonical",
                                         "navigation_no_obstacles", "zones", "routes", "patrol_battery", "snapshot"}),
    Package("src/salus_perception/", {"lidar", "integration", "navigation", "navigation_canonical"}),
    Package("src/salus_web/", {"integration"}),
    Package("src/salus_evaluation/", {})]

  predicate AnyPrefix(path: string, prefixes: seq<string>) {
    exists i :: 0 <= i < |prefixes| && StartsWith(path, prefixes[i])
  }

  /** The first package that owns the path, counting from `k`. */
  function Owner(path: string, k: nat): (r: nat)
    requires k <= |PACKAGE_SMOKES|
    ensures k <= r <= |PACKAGE_SMOKES|
    decreases |PACKAGE_SMOKES| - k
  {
    if k == |PACKAGE_SMOKES| || StartsWith(path, PACKAGE_SMOKES[k].prefix) then k else Owner(path, k + 1)
  }

  /** What one path asks for. */
  datatype Verdict = Structural | FastOnly | Owned(package: nat) | Unknown {
    predicate Escalates() {
      Structural? || Unknown?
    }
  }

  function VerdictOf(path: string): (v: Verdict)
    ensures v.Owned? ==> v.package < |PACKAGE_SMOKES|
  {
    if path in FULL_FILES || AnyPrefix(path, FULL_PREFIXES) then Structural
    else if path in FAST_ONLY_FILES || AnyPrefix(path, FAST_ONLY_PREFIXES) then FastOnly
    else
      var k := Owner(path, 0);
      if k < |PACKAGE_SMOKES| then Owned(k) else Unknown
  }

  function SmokesOf(v: Verdict): set<string>
    requires v.Owned? ==> v.package < |PACKAGE_SMOKES|
  {
    if v.Owned? then PACKAGE_SMOKES[v.package].smokes else {}
  }

  function SmokesFor(path: string): set<string> {
    SmokesOf(VerdictOf(path))
  }

  datatype Kind = Full | Targeted(owners: set<nat>) | FastGateOnly

  datatype Selection = Selection(kind: Kind, fullCi: bool, smokes: set<string>, changed: seq<string>)

  function SmokesOfAll(paths: seq<string>): set<string> {
    if paths == [] then {} else SmokesOfAll(paths[..|paths| - 1]) + SmokesFor(paths[|paths| - 1])
  }

  /** The packages any changed path lies in, as a TARGETED selection names them. */
  function Owners(changed: seq<string>): set<nat> {
    set k: nat |
      && k < |PACKAGE_SMOKES|
      && exists i :: 0 <= i < |changed| && StartsWith(changed[i], PACKAGE_SMOKES[k].prefix)
  }

  ghost predicate Escalated(paths: seq<string>) {
    paths == [] || exists i :: 0 <= i < |paths| && VerdictOf(paths[i]).Escalates()
  }

  /** What `classify` selects for cleaned paths: the whole universe if there are none or any of them
      escalates, and otherwise what their packages own, within the universe. */
  ghost function Select(universe: set<string>, changed: seq<string>, forced: bool): Selection {
    if forced || Escalated(changed) then Selection(Full, true, universe, changed)
    else
      var smokes := SmokesOfAll(changed) * universe;
      Selection(if smokes != {} then Targeted(Owners(changed)) else FastGateOnly, false, smokes, changed)
  }

  /** `None` is the `ValueError` for an unsupported context. */
  method Classify(registry: map<string, set<string>>, context: string, paths: seq<string>, forced: bool)
    returns (result: Option<Selection>)
    requires CONTEXTS <= registry.Keys
    ensures result == if context in CONTEXTS then Some(Select(registry[context], SortedSet(Cleaned(paths)), forced))
                      else None
  {
    if context !in CONTEXTS {
      return None;
    }
    var changed := CleanPaths(paths);
    var universe := registry[context];
    if forced || |changed| == 0 {
      return Some(Selection(Full, true, universe, changed));
    }
    var full, selected, unknown := ScanPaths(changed);
    hide VerdictOf, SmokesOfAll, Owners;
    if full || unknown != [] {
      return Some(Selection(Full, true, universe, changed));
    }
    selected := selected * universe;
    var kind := if selected != {} then Targeted(Owners(changed)) else FastGateOnly;
    return Some(Selection(kind, false, selected, changed));
  }

  // The loop over the changed paths; `full` is its early return.
  method ScanPaths(changed: seq<string>) returns (full: bool, selected: set<string>, unknown: seq<string>)
    ensures full || unknown != [] <==> exists i :: 0 <= i < |changed| && VerdictOf(changed[i]).Escalates()
    ensures !full ==> selected == SmokesOfAll(changed)
  {
    hide VerdictOf, SmokesOf;
    selected, unknown := {}, [];
    for i := 0 to |changed|
      invariant selected == SmokesOfAll(changed[..i])
      invariant forall j :: 0 <= j < i ==> !VerdictOf(changed[j]).Structural?
      invariant unknown != [] <==> exists j :: 0 <= j < i && VerdictOf(changed[j]).Unknown?
    {
      assert changed[..i + 1][..i] == changed[..i];
      var v := Judge(changed[i]);
      if v.Structural? {
        return true, {}, unknown;
      }
      selected := selected + SmokesOf(v);
      if v.Unknown? {
        unknown := unknown + [changed[i]];
      }
    }
    assert changed[..|changed|] == changed;
    full := false;
  }

  method Judge(path: string) returns (v: Verdict)
    ensures v == VerdictOf(path)
  {
    if path in FULL_FILES || AnyPrefix(path, FULL_PREFIXES) {
      return Structural;
    }
    if path in FAST_ONLY_FILES || AnyPrefix(path, FAST_ONLY_PREFIXES) {
      return FastOnly;
    }
    var owner := MatchPackage(path);
    return if owner < |PACKAGE_SMOKES| then Owned(owner) else Unknown;
  }

  method MatchPackage(path: string) returns (k: nat)
    ensures k == Owner(path, 0)
  {
    k := 0;
    while k < |PACKAGE_SMOKES| && !StartsWith(path, PACKAGE_SMOKES[k].prefix)
      invariant k <= |PACKAGE_SMOKES| && Owner(path, k) == Owner(path, 0)
    {
      k := k + 1;
    }
  }

  // ---------------------------------------------------------------- properties

  lemma {:induction false} SmokesAreUnion(paths: seq<string>, smoke: string)
    ensures smoke in SmokesOfAll(paths) <==> exists p :: p in Elements(paths) && smoke in SmokesFor(p)
  {
    if paths != [] {
      var n := |paths| - 1;
      SmokesAreUnion(paths[..n], smoke);
      assert forall p :: p in Elements(paths) <==> p in Elements(paths[..n]) || p == paths[n];
    }
  }

  lemma EscalatedByElements(paths: seq<string>)
    ensures Escalated(paths) <==> Elements(paths) == {} || exists p :: p in Elements(paths) && VerdictOf(p).Escalates()
  {
    hide VerdictOf;
    EmptyIffNoElements(paths);
    if i :| 0 <= i < |paths| && VerdictOf(paths[i]).Escalates() {
      assert paths[i] in Elements(paths);
    }
    if p :| p in Elements(paths) && VerdictOf(p).Escalates() {
      var i :| 0 <= i < |paths| && paths[i] == p;
    }
  }

  lemma ElementsAppend(xs: seq<string>, ys: seq<string>)
    ensures Elements(xs + ys) == Elements(xs) + Elements(ys)
  {
  }

  function Changed(paths: seq<string>): seq<string> {
    SortedSet(Cleaned(paths))
  }

  lemma ChangedUnion(xs: seq<string>, ys: seq<string>)
    ensures Elements(Changed(xs + ys)) == Elements(Changed(xs)) + Elements(Changed(ys))
  {
    CleanedAppend(xs, ys);
    SortedSetSorted(Cleaned(xs));
    SortedSetSorted(Cleaned(ys));
    SortedSetSorted(Cleaned(xs + ys));
    ElementsAppend(Cleaned(xs), Cleaned(ys));
  }

  /** Selection is a join homomorphism on lists that are not empty after cleaning: the smokes of
      the union are the union of the smokes, and FULL absorbs. */
  lemma SelectionJoins(universe: set<string>, xs: seq<string>, ys: seq<string>)
    requires Changed(xs) != [] && Changed(ys) != []
    ensures var x, y, both := Select(universe, Changed(xs), false), Select(universe, Changed(ys), false),
                              Select(universe, Changed(xs + ys), false);
            && both.smokes == x.smokes + y.smokes
            && both.fullCi == (x.fullCi || y.fullCi)
            && (both.fullCi ==> both.smokes == universe)
  {
    var x, y, both := Changed(xs), Changed(ys), Changed(xs + ys);
    hide Changed, VerdictOf, SmokesFor, SmokesOfAll, Escalated, Elements;
    ChangedUnion(xs, ys);
    EmptyIffNoElements(x);
    EmptyIffNoElements(y);
    EscalatedByElements(x);
    EscalatedByElements(y);
    EscalatedByElements(both);
    forall smoke ensures smoke in SmokesOfAll(both) <==> smoke in SmokesOfAll(x) || smoke in SmokesOfAll(y) {
      SmokesAreUnion(x, smoke);
      SmokesAreUnion(y, smoke);
      SmokesAreUnion(both, smoke);
    }
  }

  /** The whole selection, not only its smokes, depends only on the set of cleaned paths. */
  lemma SelectionOfASet(universe: set<string>, xs: seq<string>, ys: seq<string>, forced: bool)
    requires Elements(Cleaned(xs)) == Elements(Cleaned(ys))
    ensures Select(universe, Changed(xs), forced) == Select(universe, Changed(ys), forced)
  {
    OrderAndDuplicatesIrrelevant(xs, ys);
  }

  /** Adding nothing usable changes nothing. */
  lemma NothingAdded(universe: set<string>, xs: seq<string>, ys: seq<string>)
    requires Changed(ys) == []
    ensures Select(universe, Changed(xs + ys), false) == Select(universe, Changed(xs), false)
    ensures Select(universe, Changed(ys + xs), false) == Select(universe, Changed(xs), false)
  {
    hide Select;
    SortedSetSorted(Cleaned(ys));
    EmptyIffNoElements(Changed(ys));
    CleanedAppend(xs, ys);
    CleanedAppend(ys, xs);
    ElementsAppend(Cleaned(xs), Cleaned(ys));
    ElementsAppend(Cleaned(ys), Cleaned(xs));
    SelectionOfASet(universe, xs + ys, xs, false);
    SelectionOfASet(universe, ys + xs, xs, false);
  }

  /** These paths select everything by themselves: one escalates, or their packages own it all. */
  ghost predicate SelectsAll(universe: set<string>, changed: seq<string>) {
    Escalated(changed) || universe <= SmokesOfAll(changed)
  }

  /** Without any usable path the selection falls back to everything, so there, and only there, a
      first change can narrow it: the smokes of the union are the union of the smokes exactly when
      both lists have a usable path, or neither has, or the one that has selects everything by
      itself. */
  lemma SmokesJoinIff(universe: set<string>, xs: seq<string>, ys: seq<string>)
    ensures var x, y, both := Select(universe, Changed(xs), false), Select(universe, Changed(ys), false),
                              Select(universe, Changed(xs + ys), false);
            both.smokes == x.smokes + y.smokes
            <==> || (Changed(xs) != [] && Changed(ys) != [])
                 || (SelectsAll(universe, Changed(xs)) && SelectsAll(universe, Changed(ys)))
  {
    hide Changed, SmokesOfAll, Owners, VerdictOf;
    NothingSelectsAll(universe);
    if Changed(ys) == [] {
      NothingAdded(universe, xs, ys);
    } else if Changed(xs) == [] {
      NothingAdded(universe, ys, xs);
    } else {
      SelectionJoins(universe, xs, ys);
    }
  }

  lemma NothingSelectsAll(universe: set<string>)
    ensures Select(universe, [], false) == Selection(Full, true, universe, [])
  {
  }

  /** So a further changed file never drops a smoke, nor leaves full CI. */
  lemma MoreChangesMoreSmokes(universe: set<string>, xs: seq<string>, ys: seq<string>)
    requires Changed(xs) != []
    ensures var x, both := Select(universe, Changed(xs), false), Select(universe, Changed(xs + ys), false);
            x.smokes <= both.smokes && (x.fullCi ==> both.fullCi)
  {
    if Changed(ys) == [] {
      NothingAdded(universe, xs, ys);
    } else {
      SelectionJoins(universe, xs, ys);
    }
  }

  lemma PrefixLetters()
    ensures |PACKAGE_SMOKES| == 7
    ensures forall k :: 0 <= k < 7 ==> |PACKAGE_SMOKES[k].prefix| > 10 && PACKAGE_SMOKES[k].prefix[0] == 's'
    ensures PACKAGE_SMOKES[0].prefix[10] == 'c' && PACKAGE_SMOKES[1].prefix[10] == 'l'
    ensures PACKAGE_SMOKES[2].prefix[10] == 'n' && PACKAGE_SMOKES[3].prefix[10] == 'n'
    ensures PACKAGE_SMOKES[4].prefix[10] == 'p' && PACKAGE_SMOKES[5].prefix[10]
         == 'w' && PACKAGE_SMOKES[6].prefix[10] == 'e'
    ensures |PACKAGE_SMOKES[2].prefix| > 20 && PACKAGE_SMOKES[2].prefix[20] == '/'
    ensures |PACKAGE_SMOKES[3].prefix| > 20 && PACKAGE_SMOKES[3].prefix[20] == '_'
  {
  }

  lemma SharesLetters(path: string, prefix: string, i: nat)
    requires StartsWith(path, prefix) && i < |prefix|
    ensures i < |path| && path[i] == prefix[i]
  {
    assert path[..|prefix|][i] == prefix[i];
  }

  lemma NoSharedPath(path: string, j: nat, k: nat)
    requires j < |PACKAGE_SMOKES| && k < |PACKAGE_SMOKES| && j != k
    requires StartsWith(path, PACKAGE_SMOKES[j].prefix)
    ensures !StartsWith(path, PACKAGE_SMOKES[k].prefix)
  {
    PrefixLetters();
    hide StartsWith;
    if StartsWith(path, PACKAGE_SMOKES[k].prefix) {
      SharesLetters(path, PACKAGE_SMOKES[j].prefix, 10);
      SharesLetters(path, PACKAGE_SMOKES[k].prefix, 10);
      if j + k == 5 && (j == 2 || k == 2) {
        SharesLetters(path, PACKAGE_SMOKES[j].prefix, 20);
        SharesLetters(path, PACKAGE_SMOKES[k].prefix, 20);
      }
    }
  }

  lemma OwnerIs(path: string, j: nat, k: nat)
    requires j <= k < |PACKAGE_SMOKES| && StartsWith(path, PACKAGE_SMOKES[k].prefix)
    ensures Owner(path, j) == k
    decreases k - j
  {
    hide StartsWith;
    if j < k {
      NoSharedPath(path, k, j);
      OwnerIs(path, j + 1, k);
    }
  }

  lemma FullPrefixLetters()
    ensures forall i :: 0 <= i < |FULL_PREFIXES| ==>
              |FULL_PREFIXES[i]| > 0 && (FULL_PREFIXES[i][0] == 's' ==>
                |FULL_PREFIXES[i]| > 10 && FULL_PREFIXES[i][10] in {'i', 'b', 'd', 's', 'h'})
  {
  }

  lemma OtherLetters()
    ensures forall f :: f in FULL_FILES ==> |f| > 0 && f[0] != 's'
    ensures forall f :: f in FAST_ONLY_FILES ==> |f| > 0 && f[0] != 's'
    ensures |FAST_ONLY_PREFIXES| == 1 && |FAST_ONLY_PREFIXES[0]| > 0 && FAST_ONLY_PREFIXES[0][0] == 'd'
  {
  }

  /** The first and the eleventh letter of any path in a package. */
  lemma PackageLetters(path: string, k: nat)
    requires k < |PACKAGE_SMOKES| && StartsWith(path, PACKAGE_SMOKES[k].prefix)
    ensures |path| > 10 && path[0] == 's' && path[10] in {'c', 'l', 'n', 'p', 'w', 'e'}
  {
    PrefixLetters();
    hide StartsWith;
    SharesLetters(path, PACKAGE_SMOKES[k].prefix, 0);
    SharesLetters(path, PACKAGE_SMOKES[k].prefix, 10);
  }

  lemma NotUnderFullPrefix(path: string)
    requires |path| > 10 && path[0] == 's' && path[10] in {'c', 'l', 'n', 'p', 'w', 'e'}
    ensures !AnyPrefix(path, FULL_PREFIXES)
  {
    FullPrefixLetters();
    hide StartsWith;
    if i :| 0 <= i < |FULL_PREFIXES| && StartsWith(path, FULL_PREFIXES[i]) {
      SharesLetters(path, FULL_PREFIXES[i], 0);
      SharesLetters(path, FULL_PREFIXES[i], 10);
    }
  }

  lemma NotFastOnly(path: string)
    requires |path| > 0 && path[0] == 's'
    ensures path !in FULL_FILES && path !in FAST_ONLY_FILES && !AnyPrefix(path, FAST_ONLY_PREFIXES)
  {
    OtherLetters();
    hide StartsWith;
    if i :| 0 <= i < |FAST_ONLY_PREFIXES| && StartsWith(path, FAST_ONLY_PREFIXES[i]) {
      SharesLetters(path, FAST_ONLY_PREFIXES[i], 0);
    }
  }

  /** The tables do not overlap: a path in a package belongs to that one package, is neither
      structural nor fast-only, and selects exactly the package's smokes, so neither the order of
      the tables nor that of the packages matters. */
  lemma PackageOwnsItsPaths(path: string, k: nat)
    requires k < |PACKAGE_SMOKES| && StartsWith(path, PACKAGE_SMOKES[k].prefix)
    ensures VerdictOf(path) == Owned(k) && SmokesFor(path) == PACKAGE_SMOKES[k].smokes
  {
    hide StartsWith, AnyPrefix, Owner;
    PackageLetters(path, k);
    NotUnderFullPrefix(path);
    NotFastOnly(path);
    OwnerIs(path, 0, k);
  }

  /** The file tables, spelled out. */
  predicate StructuralPath(path: string) {
    path in FULL_FILES || exists i :: 0 <= i < |FULL_PREFIXES| && StartsWith(path, FULL_PREFIXES[i])
  }

  predicate FastPath(path: string) {
    path in FAST_ONLY_FILES || exists i :: 0 <= i < |FAST_ONLY_PREFIXES| && StartsWith(path, FAST_ONLY_PREFIXES[i])
  }

  predicate InPackage(path: string, k: nat) {
    k < |PACKAGE_SMOKES| && StartsWith(path, PACKAGE_SMOKES[k].prefix)
  }

  /** A package that the path lies in has this smoke. */
  ghost predicate Owns(path: string, smoke: string) {
    exists k: nat :: InPackage(path, k) && smoke in PACKAGE_SMOKES[k].smokes
  }

  predicate InNoTable(path: string) {
    !StructuralPath(path) && !FastPath(path) && forall k: nat :: k < |PACKAGE_SMOKES| ==> !InPackage(path, k)
  }

  lemma VerdictMeans(path: string)
    ensures VerdictOf(path).Escalates() <==> StructuralPath(path) || InNoTable(path)
    ensures forall smoke :: smoke in SmokesFor(path) <==> Owns(path, smoke)
  {
    hide StartsWith;
    if k: nat :| InPackage(path, k) {
      PackageOwnsItsPaths(path, k);
      forall j: nat | InPackage(path, j) ensures j == k {
        if j != k {
          NoSharedPath(path, j, k);
        }
      }
      hide VerdictOf;
      assert !StructuralPath(path) by {
        PackageLetters(path, k);
        NotUnderFullPrefix(path);
        NotFastOnly(path);
      }
    } else {
      NoOwner(path, 0);
    }
  }

  lemma NoOwner(path: string, k: nat)
    requires k <= |PACKAGE_SMOKES| && forall j: nat :: !InPackage(path, j)
    ensures Owner(path, k) == |PACKAGE_SMOKES|
    decreases |PACKAGE_SMOKES| - k
  {
    hide StartsWith;
    if k < |PACKAGE_SMOKES| {
      assert !InPackage(path, k);
      NoOwner(path, k + 1);
    }
  }

  /** When the selection is everything, and what it is otherwise, in terms of the tables alone: full CI,
      with the whole universe, exactly when forced, or without a usable path, or when some path is
      structural or in no table; otherwise exactly the smokes, within the universe, of the packages that
      some changed path lies in, as a targeted selection of those packages if there are any. */
  lemma SelectMeans(universe: set<string>, changed: seq<string>, forced: bool)
    ensures var s := Select(universe, changed, forced);
            && s.changed == changed
            && (s.fullCi <==>
                || forced || changed == []
                || exists i :: 0 <= i < |changed| && (StructuralPath(changed[i]) || InNoTable(changed[i])))
            && (s.fullCi <==> s.kind.Full?) && (s.fullCi ==> s.smokes == universe)
            && (!s.fullCi ==> forall smoke :: smoke in s.smokes <==>
                  smoke in universe && exists i :: 0 <= i < |changed| && Owns(changed[i], smoke))
            && (!s.fullCi && s.smokes == {} ==> s.kind == FastGateOnly)
            && (!s.fullCi && s.smokes != {} ==>
                  s.kind.Targeted? && forall k: nat :: k in s.kind.owners <==>
                    exists i :: 0 <= i < |changed| && InPackage(changed[i], k))
  {
    hide VerdictOf, SmokesFor, StructuralPath, InNoTable, StartsWith;
    forall i | 0 <= i < |changed|
      ensures VerdictOf(changed[i]).Escalates() <==> StructuralPath(changed[i]) || InNoTable(changed[i])
    {
      VerdictMeans(changed[i]);
    }
    var s := Select(universe, changed, forced);
    if !s.fullCi {
      forall smoke
        ensures smoke in SmokesOfAll(changed) <==> exists i :: 0 <= i < |changed| && Owns(changed[i], smoke)
      {
        SmokesByPackage(changed, smoke);
      }
    }
  }

  lemma {:induction false} SmokesByPackage(changed: seq<string>, smoke: string)
    ensures smoke in SmokesOfAll(changed) <==> exists i :: 0 <= i < |changed| && Owns(changed[i], smoke)
  {
    hide SmokesFor, Owns, StructuralPath, InNoTable, VerdictOf;
    if changed != [] {
      var n := |changed| - 1;
      SmokesByPackage(changed[..n], smoke);
      VerdictMeans(changed[n]);
      assert forall i :: 0 <= i < n ==> changed[..n][i] == changed[i];
    }
  }
}
