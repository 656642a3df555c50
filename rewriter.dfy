/** copy_gyp and its helpers (bru.py:145-294): the library's gyp file of a
    module is checked against the resolved versions, its source globs are
    expanded, the common include is injected, and the result is written to
    bru_modules/<module>/<module>.gyp next to a bru-version.json side-car. */
module Rewriter {
  import opened Wrappers
  import opened Dicts
  import opened Errors
  import opened Manifests
  import opened Sorting

  const ModulesRoot := "bru_modules"
  const CommonGypi := "../../bru_common.gypi"

  // ---------------------------------------------------------------------
  // The cross-module reference regex `^../([^/]+)/([^/]+)\.gyp:(.+)`,
  // matched with re.match: anchored at the start, not at the end. The two
  // leading dots are unescaped and match any character except a newline.
  // ---------------------------------------------------------------------

  /** No '/' in s[lo..hi]: what a run of `[^/]` consumes. */
  predicate NoSlash(s: string, lo: int, hi: int)
    requires 0 <= lo <= hi <= |s|
  {
    forall t :: lo <= t < hi ==> s[t] != '/'
  }

  /** `\.gyp:(.+)` matches `s` from index `k` on. */
  predicate TailAt(s: string, k: int) {
    0 <= k && k + 5 < |s| && s[k..k + 5] == ".gyp:" && s[k + 5] != '\n'
  }

  /** The regex matches `s` with group 1 = s[3..j] and group 2 = s[j+1..k]. */
  predicate MatchAt(s: string, j: int, k: int) {
    && 3 < j && j + 1 < k && k + 5 < |s|
    && s[0] != '\n' && s[1] != '\n' && s[2] == '/'
    && NoSlash(s, 3, j) && s[j] == '/'
    && NoSlash(s, j + 1, k)
    && TailAt(s, k)
  }

  /** `re.match(bru_regex, s)` succeeds with `m` as group 1. */
  ghost predicate ReferencesModule(s: string, m: string) {
    exists j, k :: MatchAt(s, j, k) && m == s[3..j]
  }

  /** The first index at or after `i` holding '/', or |s|. */
  function SlashFrom(s: string, i: nat): (j: nat)
    requires i <= |s|
    ensures i <= j <= |s| && NoSlash(s, i, j) && (j < |s| ==> s[j] == '/')
    decreases |s| - i
  {
    if i == |s| || s[i] == '/' then i else SlashFrom(s, i + 1)
  }

  /** Some index in [lo, hi] starts a `\.gyp:(.+)` tail. */
  function TailIn(s: string, lo: nat, hi: nat): (b: bool)
    ensures b <==> exists k :: lo <= k <= hi && TailAt(s, k)
    decreases hi + 1 - lo
  {
    if lo > hi then false else TailAt(s, lo) || TailIn(s, lo + 1, hi)
  }

  /** Group 1 of the regex, if it matches. */
  function CrossModuleRef(s: string): Option<string> {
    if |s| < 4 || s[0] == '\n' || s[1] == '\n' || s[2] != '/' then None
    else
      var j := SlashFrom(s, 3);
      if j == 3 || j == |s| then None
      else if TailIn(s, j + 2, SlashFrom(s, j + 1)) then Some(s[3..j])
      else None
  }

  lemma FirstSlash(s: string, i: nat, j: nat)
    requires i <= j < |s| && NoSlash(s, i, j) && s[j] == '/'
    ensures SlashFrom(s, i) == j
  {
  }

  /** The matcher agrees with the regex: it returns exactly group 1. */
  lemma CrossModuleRefSpec(s: string)
    ensures forall m :: CrossModuleRef(s) == Some(m) <==> ReferencesModule(s, m)
  {
    forall m ensures CrossModuleRef(s) == Some(m) <==> ReferencesModule(s, m) {
      if ReferencesModule(s, m) {
        var j, k :| MatchAt(s, j, k) && m == s[3..j];
        FirstSlash(s, 3, j);
        var j2 := SlashFrom(s, j + 1);
        assert k <= j2;
        assert TailIn(s, j + 2, j2);
      }
      if CrossModuleRef(s) == Some(m) {
        var j := SlashFrom(s, 3);
        var j2 := SlashFrom(s, j + 1);
        var k :| j + 2 <= k <= j2 && TailAt(s, k);
        assert MatchAt(s, j, k);
      }
    }
  }

  // ---------------------------------------------------------------------
  // verify_resolved_dependencies and map_dependency
  // ---------------------------------------------------------------------

  /** map_dependency: a local dependency is kept, a cross-module one yields
      the resolved version of its module, and an unresolved module is an
      error naming it, the requesting module and version, and the target. */
  function MapDependency(dep: string, resolved: map<string, string>, owner: string, version: string,
                         targetName: string): (r: Result<string, Error>)
    ensures (forall m :: !ReferencesModule(dep, m)) ==> r == Success(dep)
    ensures forall m :: ReferencesModule(dep, m) ==>
      r == if m in resolved then Success(resolved[m])
           else Failure(UnresolvedReference(m, owner, version, targetName))
  {
    CrossModuleRefSpec(dep);
    match CrossModuleRef(dep)
    case None => Success(dep)
    case Some(m) =>
      if m in resolved then Success(resolved[m])
      else Failure(UnresolvedReference(m, owner, version, targetName))
  }

  /** map_dependency with the formula and target it was called for. */
  type Mapper = string -> Result<string, Error>

  function DependencyMapper(resolved: map<string, string>, owner: string, version: string, targetName: string)
    : Mapper
  {
    (dep: string) => MapDependency(dep, resolved, owner, version, targetName)
  }

  /** The `i`th dependency is the first that fails to map, with `e`. */
  predicate FirstUnmapped(deps: seq<string>, f: Mapper, i: int, e: Error) {
    0 <= i < |deps| && f(deps[i]) == Failure(e) && forall j :: 0 <= j < i ==> f(deps[j]).Success?
  }

  /** `list(map(f, deps))`: all mapped, or the first failure. */
  function MapDependencies(deps: seq<string>, f: Mapper): (r: Result<seq<string>, Error>)
    ensures r.Success? ==> |r.value| == |deps| && forall i :: 0 <= i < |deps| ==> f(deps[i]) == Success(r.value[i])
    ensures r.Failure? ==> exists i :: FirstUnmapped(deps, f, i, r.error)
    decreases |deps|
  {
    if deps == [] then Success([])
    else
      match f(deps[0])
      case Failure(e) =>
        assert FirstUnmapped(deps, f, 0, e);
        Failure(e)
      case Success(d) =>
        match MapDependencies(deps[1..], f)
        case Failure(e) =>
          ghost var i :| FirstUnmapped(deps[1..], f, i, e);
          assert forall j :: 1 <= j <= i + 1 ==> deps[j] == deps[1..][j - 1];
          assert FirstUnmapped(deps, f, i + 1, e);
          Failure(e)
        case Success(ds) =>
          assert forall j :: 1 <= j < |deps| ==> deps[j] == deps[1..][j - 1];
          Success([d] + ds)
  }

  /** verify_resolved_dependencies: reads the formula's 'module' and
      'version' and the target's 'target_name', then maps every dependency. */
  function VerifyResolvedDependencies(formula: Formula, target: Target, resolved: map<string, string>)
    : Result<seq<string>, Error>
  {
    if formula.name.None? then Failure(MissingKey("module"))
    else if formula.version.None? then Failure(MissingKey("version"))
    else if target.name.None? then Failure(MissingKey("target_name"))
    else if target.dependencies.None? then Failure(MissingKey("dependencies"))
    else
      var f := DependencyMapper(resolved, formula.name.value, formula.version.value, target.name.value);
      MapDependencies(target.dependencies.value, f)
  }

  /** The check passes exactly when every cross-module reference of the
      target names a resolved module. */
  lemma VerifySucceedsIffResolved(formula: Formula, target: Target, resolved: map<string, string>)
    requires formula.name.Some? && formula.version.Some? && target.name.Some? && target.dependencies.Some?
    ensures VerifyResolvedDependencies(formula, target, resolved).Success? <==>
      forall i, m :: 0 <= i < |target.dependencies.value| && ReferencesModule(target.dependencies.value[i], m) ==> m in resolved
  {
    var deps := target.dependencies.value;
    var owner, version, name := formula.name.value, formula.version.value, target.name.value;
    var f := DependencyMapper(resolved, owner, version, name);
    var r := MapDependencies(deps, f);
    if r.Failure? {
      var i :| FirstUnmapped(deps, f, i, r.error);
      CrossModuleRefSpec(deps[i]);
      var m :| ReferencesModule(deps[i], m);
      assert m !in resolved;
    } else {
      forall i, m | 0 <= i < |deps| && ReferencesModule(deps[i], m) ensures m in resolved {
        assert MapDependency(deps[i], resolved, owner, version, name).Success?;
      }
    }
  }

  // ---------------------------------------------------------------------
  // compute_sources
  // ---------------------------------------------------------------------

  /** glob.glob of a pattern inside bru_modules/<module>, with each match made
      relative to that directory again. */
  type Listing = string -> seq<string>

  /** is_glob_expr. */
  predicate IsGlob(source: string) {
    '*' in source
  }

  predicate IsAnt(source: string) {
    |source| >= 4 && source[..4] == "ant:"
  }

  /** The error a single entry raises: an Ant-style expression, or a glob
      with no match. */
  function SourceError(source: string, listing: Listing): Option<Error> {
    if IsAnt(source) then Some(AntGlob(source))
    else if IsGlob(source) && |listing(source)| == 0 then Some(EmptyGlob(source))
    else None
  }

  /** What one entry contributes to the result. */
  function ExpandOne(source: string, listing: Listing): seq<string> {
    if IsGlob(source) then listing(source) else [source]
  }

  /** The unsorted result list after all of `sources`. */
  function Expanded(sources: seq<string>, listing: Listing): seq<string>
    decreases |sources|
  {
    if sources == [] then []
    else Expanded(sources[..|sources| - 1], listing) + ExpandOne(sources[|sources| - 1], listing)
  }

  /** The error raised by the earliest failing entry, if any. */
  function FirstSourceError(sources: seq<string>, listing: Listing): Option<Error>
    decreases |sources|
  {
    if sources == [] then None
    else
      var e := FirstSourceError(sources[..|sources| - 1], listing);
      if e.Some? then e else SourceError(sources[|sources| - 1], listing)
  }

  /** compute_sources as a function of its inputs. */
  function ExpandSources(sources: seq<string>, listing: Listing): Result<seq<string>, Error> {
    match FirstSourceError(sources, listing)
    case Some(e) => Failure(e)
    case None => Success(Sort(Expanded(sources, listing)))
  }

  /** compute_sources (bru.py:187-210). */
  method ComputeSources(sources: seq<string>, listing: Listing) returns (r: Result<seq<string>, Error>)
    ensures r == ExpandSources(sources, listing)
  {
    var result: seq<string> := [];
    var i := 0;
    while i < |sources|
      invariant 0 <= i <= |sources|
      invariant FirstSourceError(sources[..i], listing).None?
      invariant result == Expanded(sources[..i], listing)
    {
      var source := sources[i];
      assert sources[..i + 1][..i] == sources[..i];
      if |source| >= 4 && source[..4] == "ant:" {
        assert FirstSourceError(sources[..i + 1], listing) == Some(AntGlob(source));
        PrefixErrorStays(sources, i + 1, listing);
        return Failure(AntGlob(source));
      }
      if '*' in source {
        var matching := listing(source);
        if |matching| == 0 {
          assert FirstSourceError(sources[..i + 1], listing) == Some(EmptyGlob(source));
          PrefixErrorStays(sources, i + 1, listing);
          return Failure(EmptyGlob(source));
        }
        result := result + matching;
      } else {
        result := result + [source];
      }
      i := i + 1;
    }
    assert sources[..i] == sources;
    r := Success(Sort(result));
  }

  /** Once a prefix has failed, the whole list fails with the same error. */
  lemma {:induction false} PrefixErrorStays(sources: seq<string>, n: nat, listing: Listing)
    requires n <= |sources| && FirstSourceError(sources[..n], listing).Some?
    ensures FirstSourceError(sources, listing) == FirstSourceError(sources[..n], listing)
    decreases |sources| - n
  {
    if n < |sources| {
      assert sources[..n + 1][..n] == sources[..n];
      PrefixErrorStays(sources, n + 1, listing);
    } else {
      assert sources[..n] == sources;
    }
  }

  /** The entries that are not globs, in order. */
  function PlainEntries(sources: seq<string>): seq<string>
    decreases |sources|
  {
    if sources == [] then []
    else
      var last := sources[|sources| - 1];
      PlainEntries(sources[..|sources| - 1]) + (if IsGlob(last) then [] else [last])
  }

  /** The matches of every glob entry, in order. */
  function GlobMatches(sources: seq<string>, listing: Listing): seq<string>
    decreases |sources|
  {
    if sources == [] then []
    else
      var last := sources[|sources| - 1];
      GlobMatches(sources[..|sources| - 1], listing) + (if IsGlob(last) then listing(last) else [])
  }

  lemma {:induction false} ExpandedSplit(sources: seq<string>, listing: Listing)
    ensures multiset(Expanded(sources, listing)) == multiset(PlainEntries(sources)) + multiset(GlobMatches(sources, listing))
    decreases |sources|
  {
    if sources != [] {
      ExpandedSplit(sources[..|sources| - 1], listing);
    }
  }

  /** The earliest failing entry decides the error; no failing entry, no error. */
  lemma {:induction false} FirstSourceErrorSpec(sources: seq<string>, listing: Listing)
    ensures FirstSourceError(sources, listing).None? <==>
      forall i :: 0 <= i < |sources| ==> SourceError(sources[i], listing).None?
    ensures FirstSourceError(sources, listing).Some? ==>
      exists i :: 0 <= i < |sources| && SourceError(sources[i], listing) == FirstSourceError(sources, listing) &&
                  forall j :: 0 <= j < i ==> SourceError(sources[j], listing).None?
    decreases |sources|
  {
    if sources != [] {
      var p := sources[..|sources| - 1];
      FirstSourceErrorSpec(p, listing);
      assert forall j :: 0 <= j < |p| ==> sources[j] == p[j];
      if FirstSourceError(p, listing).Some? {
        var i :| 0 <= i < |p| && SourceError(p[i], listing) == FirstSourceError(p, listing) &&
                 forall j :: 0 <= j < i ==> SourceError(p[j], listing).None?;
        assert SourceError(sources[i], listing) == FirstSourceError(sources, listing);
      }
    }
  }

  /** compute_sources yields a sorted permutation of the plain entries and all
      glob matches, or raises for the earliest Ant-style or matchless entry. */
  lemma ExpandSourcesSpec(sources: seq<string>, listing: Listing)
    ensures ExpandSources(sources, listing).Success? <==>
      forall i :: 0 <= i < |sources| ==> !IsAnt(sources[i]) && !(IsGlob(sources[i]) && |listing(sources[i])| == 0)
    ensures ExpandSources(sources, listing).Success? ==>
      var r := ExpandSources(sources, listing).value;
      Sorted(r) && multiset(r) == multiset(PlainEntries(sources)) + multiset(GlobMatches(sources, listing))
    ensures ExpandSources(sources, listing).Failure? ==>
      exists i :: 0 <= i < |sources| && SourceError(sources[i], listing) == Some(ExpandSources(sources, listing).error) &&
                  forall j :: 0 <= j < i ==> SourceError(sources[j], listing).None?
  {
    FirstSourceErrorSpec(sources, listing);
    ExpandedSplit(sources, listing);
  }

  /** With no glob matching a '*' path, no wildcard survives: the source list
      compute_sources returns, and gyp sees, holds only file names. */
  lemma {:induction false} ExpandedHasNoWildcards(sources: seq<string>, listing: Listing)
    requires forall i :: 0 <= i < |sources| && IsGlob(sources[i]) ==> forall x :: x in listing(sources[i]) ==> !IsGlob(x)
    ensures forall x :: x in Expanded(sources, listing) ==> !IsGlob(x)
    ensures ExpandSources(sources, listing).Success? ==> forall x :: x in ExpandSources(sources, listing).value ==> !IsGlob(x)
    decreases |sources|
  {
    if sources != [] {
      var p := sources[..|sources| - 1];
      assert forall i :: 0 <= i < |p| ==> p[i] == sources[i];
      ExpandedHasNoWildcards(p, listing);
    }
    if ExpandSources(sources, listing).Success? {
      var r := ExpandSources(sources, listing).value;
      assert multiset(r) == multiset(Expanded(sources, listing));
      forall x | x in r ensures !IsGlob(x) {
        assert x in multiset(r);
      }
    }
  }

  // ---------------------------------------------------------------------
  // copy_gyp
  // ---------------------------------------------------------------------

  /** `target[prop] = compute_sources(formula, target[prop])` when present. */
  function ExpandProperty(sources: Option<seq<string>>, listing: Listing): Result<Option<seq<string>>, Error> {
    match sources
    case None => Success(None)
    case Some(ss) =>
      match ExpandSources(ss, listing)
      case Failure(e) => Failure(e)
      case Success(r) => Success(Some(r))
  }

  /** One iteration of copy_gyp's loop: check the dependencies (the mapped
      list is discarded), then expand 'sources' and 'sources!'. */
  function RewriteTarget(formula: Formula, t: Target, resolved: map<string, string>, listing: Listing)
    : Result<Target, Error>
  {
    var checked := if t.dependencies.Some? then VerifyResolvedDependencies(formula, t, resolved) else Success([]);
    if checked.Failure? then Failure(checked.error)
    else
      match ExpandProperty(t.sources, listing)
      case Failure(e) => Failure(e)
      case Success(src) =>
        match ExpandProperty(t.excludedSources, listing)
        case Failure(e) => Failure(e)
        case Success(excl) => Success(t.(sources := src, excludedSources := excl))
  }

  /** The loop over all targets: every target rewritten, or the first failure. */
  function RewriteTargets(formula: Formula, ts: seq<Target>, resolved: map<string, string>, listing: Listing)
    : Result<seq<Target>, Error>
    decreases |ts|
  {
    if ts == [] then Success([])
    else
      match RewriteTargets(formula, ts[..|ts| - 1], resolved, listing)
      case Failure(e) => Failure(e)
      case Success(done) =>
        match RewriteTarget(formula, ts[|ts| - 1], resolved, listing)
        case Failure(e) => Failure(e)
        case Success(t) => Success(done + [t])
  }

  /** The manifest with 'includes' = ['../../bru_common.gypi'] put first when it has none. */
  function IncludesInjected(gyp: Document): Document {
    if "includes" in Keys(gyp) then gyp else [("includes", Texts([CommonGypi]))] + gyp
  }

  /** bru.py:281-288: a new OrderedDict starting with 'includes', then every
      key of the manifest copied in order. */
  method InjectIncludes(gyp: Document) returns (r: Document)
    requires UniqueKeys(gyp)
    ensures r == IncludesInjected(gyp)
  {
    if "includes" in Keys(gyp) {
      return gyp;
    }
    r := [("includes", Texts([CommonGypi]))];
    var i := 0;
    while i < |gyp|
      invariant 0 <= i <= |gyp|
      invariant r == [("includes", Texts([CommonGypi]))] + gyp[..i]
    {
      CopyStep(gyp, i);
      r := Put(r, gyp[i].0, gyp[i].1);
      i := i + 1;
    }
    assert gyp[..i] == gyp;
  }

  /** The next key copied is not yet in the new dictionary. */
  lemma FreshKey(gyp: Document, i: nat)
    requires UniqueKeys(gyp) && "includes" !in Keys(gyp) && i < |gyp|
    ensures gyp[i].0 !in Keys([("includes", Texts([CommonGypi]))] + gyp[..i])
  {
    var r := [("includes", Texts([CommonGypi]))] + gyp[..i];
    assert Keys(gyp)[i] == gyp[i].0;
    forall j | 0 <= j < |r| ensures Keys(r)[j] != gyp[i].0 {
      if j > 0 {
        assert r[j] == gyp[j - 1];
      }
    }
  }

  /** Copying the next pair appends it. */
  lemma CopyStep(gyp: Document, i: nat)
    requires UniqueKeys(gyp) && "includes" !in Keys(gyp) && i < |gyp|
    ensures Put([("includes", Texts([CommonGypi]))] + gyp[..i], gyp[i].0, gyp[i].1) ==
      [("includes", Texts([CommonGypi]))] + gyp[..i + 1]
  {
    FreshKey(gyp, i);
    PutNew([("includes", Texts([CommonGypi]))] + gyp[..i], gyp[i].0, gyp[i].1);
    assert gyp[..i + 1] == gyp[..i] + [gyp[i]];
  }

  /** Injection puts 'includes' first, keeps every other key and value, and
      keeps the manifest a dictionary. */
  lemma IncludesInjectedSpec(gyp: Document)
    ensures Keys(IncludesInjected(gyp)) == if "includes" in Keys(gyp) then Keys(gyp) else ["includes"] + Keys(gyp)
    ensures Get(IncludesInjected(gyp), "includes") ==
      if "includes" in Keys(gyp) then Get(gyp, "includes") else Some(Texts([CommonGypi]))
    ensures forall k :: k != "includes" ==> Get(IncludesInjected(gyp), k) == Get(gyp, k)
    ensures UniqueKeys(gyp) ==> UniqueKeys(IncludesInjected(gyp))
  {
    if "includes" !in Keys(gyp) {
      var r := IncludesInjected(gyp);
      assert Keys(r) == ["includes"] + Keys(gyp);
      forall k ensures Get(r, k) == if k == "includes" then Some(Texts([CommonGypi])) else Get(gyp, k) {
        GetCons("includes", Texts([CommonGypi]), gyp, k);
      }
      if UniqueKeys(gyp) {
        forall i, j | 0 <= i < j < |r| ensures r[i].0 != r[j].0 {
          if i == 0 {
            assert Keys(gyp)[j - 1] == gyp[j - 1].0;
          }
        }
      }
    }
  }

  /** What copy_gyp saves: the module's gyp file and its version side-car. */
  datatype Written = Written(gypPath: string, gyp: Document, versionPath: string, versionFile: Document)

  function GypPath(name: string): string {
    Join(Join(ModulesRoot, name), name + ".gyp")
  }

  function VersionPath(name: string): string {
    Join(Join(ModulesRoot, name), "bru-version.json")
  }

  /** copy_gyp as a function of the formula, the library's gyp file, the
      resolved versions and the file listing. */
  function CopyGypSpec(formula: Formula, template: Document, resolved: map<string, string>, listing: Listing)
    : Result<Written, Error>
  {
    if formula.name.None? then Failure(MissingKey("module"))
    else if formula.name.value !in resolved then Failure(ModuleNotResolved(formula.name.value))
    else
      var m := formula.name.value;
      match TargetsOf(template)
      case Failure(e) => Failure(e)
      case Success(ts) =>
        match RewriteTargets(formula, ts, resolved, listing)
        case Failure(e) => Failure(e)
        case Success(ts') =>
          Success(Written(GypPath(m), IncludesInjected(Put(template, "targets", Targets(ts'))),
                          VersionPath(m), [("version", Text(resolved[m]))]))
  }

  /** The body of copy_gyp's loop over one target, updating it in place. */
  method RewriteOne(formula: Formula, target: Target, resolved: map<string, string>, listing: Listing)
    returns (r: Result<Target, Error>)
    ensures r == RewriteTarget(formula, target, resolved, listing)
  {
    var t := target;
    if t.dependencies.Some? {
      var checked := VerifyResolvedDependencies(formula, t, resolved);
      if checked.Failure? {
        return Failure(checked.error);
      }
    }
    if t.sources.Some? {
      var s := ComputeSources(t.sources.value, listing);
      if s.Failure? {
        return Failure(s.error);
      }
      t := t.(sources := Some(s.value));
    }
    if t.excludedSources.Some? {
      var s := ComputeSources(t.excludedSources.value, listing);
      if s.Failure? {
        return Failure(s.error);
      }
      t := t.(excludedSources := Some(s.value));
    }
    return Success(t);
  }

  /** copy_gyp (bru.py:212-294). */
  method CopyGyp(formula: Formula, template: Document, resolved: map<string, string>, listing: Listing)
    returns (r: Result<Written, Error>)
    requires UniqueKeys(template)
    ensures r == CopyGypSpec(formula, template, resolved, listing)
  {
    if formula.name.None? {
      return Failure(MissingKey("module"));
    }
    var m := formula.name.value;
    if m !in resolved {
      return Failure(ModuleNotResolved(m));
    }
    var version := resolved[m];
    var found := TargetsOf(template);
    if found.Failure? {
      return Failure(found.error);
    }
    var original := found.value;
    var targets := original;
    var i := 0;
    while i < |targets|
      invariant 0 <= i <= |targets| == |original|
      invariant targets[i..] == original[i..]
      invariant RewriteTargets(formula, original[..i], resolved, listing) == Success(targets[..i])
    {
      assert original[..i + 1][..i] == original[..i];
      var t := RewriteOne(formula, targets[i], resolved, listing);
      if t.Failure? {
        RewriteErrorStays(formula, original, i + 1, resolved, listing);
        return Failure(t.error);
      }
      targets := targets[i := t.value];
      assert targets[..i + 1] == targets[..i] + [t.value];
      i := i + 1;
    }
    assert original[..i] == original;
    assert targets[..i] == targets;
    PutKeepsUniqueKeys(template, "targets", Targets(targets));
    var gyp := InjectIncludes(Put(template, "targets", Targets(targets)));
    r := Success(Written(GypPath(m), gyp, VersionPath(m), [("version", Text(version))]));
  }

  /** Once a prefix of the targets fails, the whole loop fails with that error. */
  lemma {:induction false} RewriteErrorStays(formula: Formula, ts: seq<Target>, n: nat,
                                             resolved: map<string, string>, listing: Listing)
    requires n <= |ts| && RewriteTargets(formula, ts[..n], resolved, listing).Failure?
    ensures RewriteTargets(formula, ts, resolved, listing) == RewriteTargets(formula, ts[..n], resolved, listing)
    decreases |ts| - n
  {
    if n < |ts| {
      assert ts[..n + 1][..n] == ts[..n];
      RewriteErrorStays(formula, ts, n + 1, resolved, listing);
    } else {
      assert ts[..n] == ts;
    }
  }

  /** A rewritten target keeps its name, dependencies, test and every property
      bru.py does not read untouched (the dependency check only validates), every cross-module reference in
      it names a resolved module, and both source lists are sorted
      permutations of their plain entries and glob matches. */
  lemma RewriteTargetSpec(formula: Formula, t: Target, resolved: map<string, string>, listing: Listing)
    requires RewriteTarget(formula, t, resolved, listing).Success?
    ensures
      var t' := RewriteTarget(formula, t, resolved, listing).value;
      && t'.name == t.name && t'.dependencies == t.dependencies && t'.test == t.test && t'.extra == t.extra
      && (t.dependencies.Some? ==>
            forall i, m :: 0 <= i < |t.dependencies.value| && ReferencesModule(t.dependencies.value[i], m) ==> m in resolved)
      && (t'.sources.Some? <==> t.sources.Some?)
      && (t.sources.Some? ==>
            Sorted(t'.sources.value) &&
            multiset(t'.sources.value) == multiset(PlainEntries(t.sources.value)) + multiset(GlobMatches(t.sources.value, listing)))
      && (t'.excludedSources.Some? <==> t.excludedSources.Some?)
      && (t.excludedSources.Some? ==>
            Sorted(t'.excludedSources.value) &&
            multiset(t'.excludedSources.value) ==
              multiset(PlainEntries(t.excludedSources.value)) + multiset(GlobMatches(t.excludedSources.value, listing)))
  {
    if t.dependencies.Some? {
      VerifySucceedsIffResolved(formula, t, resolved);
    }
    if t.sources.Some? {
      ExpandSourcesSpec(t.sources.value, listing);
    }
    if t.excludedSources.Some? {
      ExpandSourcesSpec(t.excludedSources.value, listing);
    }
  }

  /** The loop rewrites every target in place, and fails exactly when one of them fails. */
  lemma {:induction false} RewriteTargetsSpec(formula: Formula, ts: seq<Target>, resolved: map<string, string>, listing: Listing)
    ensures RewriteTargets(formula, ts, resolved, listing).Success? <==>
      forall i :: 0 <= i < |ts| ==> RewriteTarget(formula, ts[i], resolved, listing).Success?
    ensures RewriteTargets(formula, ts, resolved, listing).Success? ==>
      var ts' := RewriteTargets(formula, ts, resolved, listing).value;
      |ts'| == |ts| && forall i :: 0 <= i < |ts| ==> RewriteTarget(formula, ts[i], resolved, listing) == Success(ts'[i])
    decreases |ts|
  {
    if ts != [] {
      var p := ts[..|ts| - 1];
      RewriteTargetsSpec(formula, p, resolved, listing);
      assert forall i :: 0 <= i < |p| ==> p[i] == ts[i];
    }
  }

  /** What copy_gyp writes: the module's gyp file at bru_modules/<m>/<m>.gyp
      with 'includes' first when the library's file had none, its other keys
      and values in their order, the targets rewritten one for one, and a
      side-car holding only the resolved version. */
  lemma CopyGypSpecWrites(formula: Formula, template: Document, resolved: map<string, string>, listing: Listing)
    requires UniqueKeys(template)
    requires CopyGypSpec(formula, template, resolved, listing).Success?
    ensures
      var w := CopyGypSpec(formula, template, resolved, listing).value;
      var m := formula.name.value;
      && m in resolved
      && w.gypPath == GypPath(m) && w.versionPath == VersionPath(m)
      && Keys(w.versionFile) == ["version"] && Get(w.versionFile, "version") == Some(Text(resolved[m]))
      && Keys(w.gyp) == (if "includes" in Keys(template) then Keys(template) else ["includes"] + Keys(template))
      && Get(w.gyp, "includes") == (if "includes" in Keys(template) then Get(template, "includes") else Some(Texts([CommonGypi])))
      && (forall k :: k != "includes" && k != "targets" ==> Get(w.gyp, k) == Get(template, k))
      && UniqueKeys(w.gyp)
      && TargetsOf(template).Success?
      && RewriteTargets(formula, TargetsOf(template).value, resolved, listing).Success?
      && Get(w.gyp, "targets") == Some(Targets(RewriteTargets(formula, TargetsOf(template).value, resolved, listing).value))
  {
    var ts' := RewriteTargets(formula, TargetsOf(template).value, resolved, listing).value;
    var gyp := Put(template, "targets", Targets(ts'));
    assert "targets" in Keys(template);
    PutKeepsUniqueKeys(template, "targets", Targets(ts'));
    IncludesInjectedSpec(gyp);
    forall k ensures Get(gyp, k) == if k == "targets" then Some(Targets(ts')) else Get(template, k) {
      GetPut(template, "targets", Targets(ts'), k);
    }
  }
}
