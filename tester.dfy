/** `bru test`: finding the test targets of the installed modules, locating
    their executables, running them and summarising the outcome. The file
    system is a set of existing paths, a process run is an oracle from the
    invocation to its exit code and elapsed time. */
module Tester {
  import opened Wrappers
  import opened Dicts
  import opened Errors
  import opened Manifests

  /** The directory the modules are installed under, relative to the project. */
  const ModulesDir := "bru_modules"

  // ---------------------------------------------------------------- get_test_targets

  /** The targets that carry a 'test' property, in their original order. */
  function WithTests(ts: seq<Target>): (r: seq<Target>)
    ensures |r| <= |ts|
    decreases |ts|
  {
    if ts == [] then []
    else WithTests(ts[..|ts| - 1]) + (if ts[|ts| - 1].test.Some? then [ts[|ts| - 1]] else [])
  }

  /** Exactly the targets with a 'test' property are kept. */
  lemma {:induction false} WithTestsMembers(ts: seq<Target>)
    ensures forall t :: t in WithTests(ts) <==> t in ts && t.test.Some?
    decreases |ts|
  {
    if ts != [] {
      WithTestsMembers(ts[..|ts| - 1]);
      assert ts == ts[..|ts| - 1] + [ts[|ts| - 1]];
    }
  }

  /** The filter works piecewise, so it keeps the relative order of the targets. */
  lemma {:induction false} WithTestsAppend(a: seq<Target>, b: seq<Target>)
    ensures WithTests(a + b) == WithTests(a) + WithTests(b)
    decreases |b|
  {
    if b == [] {
      assert a + b == a;
    } else {
      var b' := b[..|b| - 1];
      assert (a + b)[..|a + b| - 1] == a + b';
      assert (a + b)[|a + b| - 1] == b[|b| - 1];
      WithTestsAppend(a, b');
    }
  }

  /** get_test_targets: `gyp['targets']` filtered to the targets with a 'test'. */
  function TestTargets(gyp: Document): Result<seq<Target>, Error> {
    match TargetsOf(gyp)
    case Failure(e) => Failure(e)
    case Success(ts) => Success(WithTests(ts))
  }

  /** get_test_targets fails exactly when the gyp file has no usable 'targets',
      and otherwise yields exactly the targets with a 'test' property. */
  lemma TestTargetsSpec(gyp: Document)
    ensures TargetsOf(gyp).Failure? ==> TestTargets(gyp) == Failure(TargetsOf(gyp).error)
    ensures TargetsOf(gyp).Success? ==>
      TestTargets(gyp).Success? &&
      forall t :: t in TestTargets(gyp).value <==> t in TargetsOf(gyp).value && t.test.Some?
  {
    if TargetsOf(gyp).Success? {
      WithTestsMembers(TargetsOf(gyp).value);
    }
  }

  // ---------------------------------------------------------------- locate_executable

  /** Where one build configuration puts an executable: the make layout under
      out/, then the msvs layout, each without and with '.exe'. */
  function ConfigCandidates(config: string, name: string): seq<string> {
    [Join(Join("out", config), name),
     Join(Join("out", config), name + ".exe"),
     Join(config, name),
     Join(config, name + ".exe")]
  }

  /** The candidate paths in the order they are probed: Release before Debug. */
  function Candidates(name: string): seq<string> {
    ConfigCandidates("Release", name) + ConfigCandidates("Debug", name)
  }

  /** The first of `cs` that exists. */
  function FirstExisting(cs: seq<string>, existing: set<string>): Option<string>
    decreases |cs|
  {
    if cs == [] then None
    else if cs[0] in existing then Some(cs[0])
    else FirstExisting(cs[1..], existing)
  }

  /** The `i`th candidate exists and none before it does. */
  predicate FirstAt(cs: seq<string>, existing: set<string>, i: int) {
    0 <= i < |cs| && cs[i] in existing && forall j :: 0 <= j < i ==> cs[j] !in existing
  }

  /** The search finds nothing exactly when no candidate exists, and otherwise
      the earliest candidate that does. */
  lemma {:induction false} FirstExistingSpec(cs: seq<string>, existing: set<string>)
    ensures FirstExisting(cs, existing).None? <==> forall i :: 0 <= i < |cs| ==> cs[i] !in existing
    ensures FirstExisting(cs, existing).Some? ==>
      exists i :: FirstAt(cs, existing, i) && cs[i] == FirstExisting(cs, existing).value
    decreases |cs|
  {
    if cs != [] {
      if cs[0] in existing {
        assert FirstAt(cs, existing, 0);
      } else {
        FirstExistingSpec(cs[1..], existing);
        assert forall i :: 0 < i < |cs| ==> cs[i] == cs[1..][i - 1];
        if FirstExisting(cs[1..], existing).Some? {
          var i :| FirstAt(cs[1..], existing, i) && cs[1..][i] == FirstExisting(cs[1..], existing).value;
          assert FirstAt(cs, existing, i + 1);
        }
      }
    }
  }

  /** locate_executable: the first candidate path that exists, None when none does. */
  function LocateExecutable(name: string, existing: set<string>): Option<string> {
    FirstExisting(Candidates(name), existing)
  }

  /** locate_executable finds nothing exactly when no candidate path exists,
      and otherwise the earliest existing candidate. */
  lemma LocateExecutableSpec(name: string, existing: set<string>)
    ensures LocateExecutable(name, existing).None? <==> forall c :: c in Candidates(name) ==> c !in existing
    ensures LocateExecutable(name, existing).Some? ==>
      exists i :: FirstAt(Candidates(name), existing, i) && Candidates(name)[i] == LocateExecutable(name, existing).value
  {
    FirstExistingSpec(Candidates(name), existing);
  }

  /** A Release build is found whenever one exists, even if a Debug build exists too. */
  lemma LocatePrefersRelease(name: string, existing: set<string>)
    requires exists c :: c in ConfigCandidates("Release", name) && c in existing
    ensures LocateExecutable(name, existing).Some?
    ensures LocateExecutable(name, existing).value in ConfigCandidates("Release", name)
  {
    var c :| c in ConfigCandidates("Release", name) && c in existing;
    var k :| 0 <= k < 4 && ConfigCandidates("Release", name)[k] == c;
    assert Candidates(name)[k] == c;
    LocateExecutableSpec(name, existing);
    var r := LocateExecutable(name, existing);
    var i :| FirstAt(Candidates(name), existing, i) && Candidates(name)[i] == r.value;
    assert i <= k;
  }

  // ---------------------------------------------------------------- exec_test

  /** TestResult: fail, success, and notrun (no executable was found). */
  datatype TestResult = Failed | Passed | NotRun

  /** CompletedTestRun with its module filled in; the duration is -1 when the test did not run. */
  datatype TestRun = TestRun(owner: string, targetName: string, result: TestResult, durationMs: int)

  /** The child process exec_test starts: its argv, working directory and stdin text. */
  datatype Invocation = Invocation(argv: seq<string>, cwd: string, stdin: Option<string>)

  /** What a finished child process reports: its exit code and the milliseconds it took. */
  datatype Exit = Exit(code: int, elapsedMs: nat)

  /** Running a process to completion. */
  type Process = Invocation -> Exit

  /** The invocation of a located test executable: absolute executable path
      followed by 'args' (default none), in the gyp directory joined with 'cwd'
      (default './'), fed 'stdin' when given. */
  function TestInvocation(workDir: string, gypdir: string, exe: string, test: TestSpec): (inv: Invocation)
    ensures |inv.argv| == 1 + |test.args.GetOr([])| && inv.argv[0] == Join(workDir, exe)
    ensures inv.argv[1..] == test.args.GetOr([]) && inv.stdin == test.stdin
    ensures inv.cwd == Join(gypdir, test.cwd.GetOr("./"))
  {
    Invocation([Join(workDir, exe)] + test.args.GetOr([]), Join(gypdir, test.cwd.GetOr("./")), test.stdin)
  }

  /** exec_test for a target of `module` in `gypdir`; `workDir` is the directory
      bru runs in, against which the executable's path is made absolute. */
  function ExecTest(owner: string, gypdir: string, target: Target, existing: set<string>,
                    workDir: string, process: Process): Result<TestRun, Error>
  {
    match target.name
    case None => Failure(MissingKey("target_name"))
    case Some(name) =>
      match LocateExecutable(name, existing)
      case None => Success(TestRun(owner, name, NotRun, -1))
      case Some(exe) =>
        match target.test
        case None => Failure(MissingKey("test"))
        case Some(test) =>
          var exit := process(TestInvocation(workDir, gypdir, exe, test));
          Success(TestRun(owner, name, if exit.code == 0 then Passed else Failed, exit.elapsedMs))
  }

  /** exec_test classifies a run: a target without 'target_name' raises; no
      executable means notrun with duration -1; otherwise the test runs with its
      invocation and succeeds exactly when the exit code is 0. */
  lemma ExecTestSpec(owner: string, gypdir: string, target: Target, existing: set<string>,
                     workDir: string, process: Process)
    ensures var r := ExecTest(owner, gypdir, target, existing, workDir, process);
      && (target.name.None? <==> r == Failure(MissingKey("target_name")))
      && (r == Failure(MissingKey("test")) <==>
            target.name.Some? && LocateExecutable(target.name.value, existing).Some? && target.test.None?)
      && (r.Success? ==> r.value.owner == owner && Some(r.value.targetName) == target.name)
      && (r.Success? ==> (r.value.result == NotRun <==> LocateExecutable(target.name.value, existing).None?))
      && (r.Success? && r.value.result == NotRun ==> r.value.durationMs == -1)
      && (r.Success? && r.value.result != NotRun ==>
            var inv := TestInvocation(workDir, gypdir, LocateExecutable(target.name.value, existing).value,
                                      target.test.value);
            r.value.durationMs == process(inv).elapsedMs && (r.value.result == Passed <==> process(inv).code == 0))
  {
  }

  // ---------------------------------------------------------------- collect_tests

  /** One yielded triple: the module, the directory of its gyp file, a test target. */
  datatype Item = Item(owner: string, gypdir: string, target: Target)

  /** What the generator yields before it stops, and the exception it stops with, if any. */
  datatype Collection = Collection(items: seq<Item>, error: Option<Error>)

  function GypDir(m: string): string {
    Join(ModulesDir, m)
  }

  function GypFile(m: string): string {
    Join(GypDir(m), m + ".gyp")
  }

  /** The test targets of one module's gyp file; `manifests` holds the gyp files present. */
  function ModuleTests(m: string, manifests: map<string, Document>): Result<seq<Target>, Error> {
    if GypFile(m) in manifests then TestTargets(manifests[GypFile(m)])
    else Failure(MissingManifest(GypFile(m)))
  }

  function ItemsOf(m: string, ts: seq<Target>): (r: seq<Item>)
    ensures |r| == |ts| && forall i :: 0 <= i < |ts| ==> r[i] == Item(m, GypDir(m), ts[i])
  {
    seq(|ts|, i requires 0 <= i < |ts| => Item(m, GypDir(m), ts[i]))
  }

  /** The test targets of each module's gyp file, as collect_tests loads them. */
  type Loader = string -> Result<seq<Target>, Error>

  function GypLoader(manifests: map<string, Document>): Loader {
    m => ModuleTests(m, manifests)
  }

  /** Everything the gyp loader yields is a target with a 'test' property. */
  lemma GypLoaderYieldsTests(manifests: map<string, Document>, m: string)
    ensures GypLoader(manifests)(m).Success? ==>
      forall t :: t in GypLoader(manifests)(m).value ==> t.test.Some?
  {
    if GypFile(m) in manifests {
      TestTargetsSpec(manifests[GypFile(m)]);
    }
  }

  /** collect_tests: the test targets module by module, up to the first module
      whose gyp file is missing or has no 'targets'. */
  function CollectTests(ms: seq<string>, load: Loader): Collection
    decreases |ms|
  {
    if ms == [] then Collection([], None)
    else
      var c := CollectTests(ms[..|ms| - 1], load);
      if c.error.Some? then c
      else
        match load(ms[|ms| - 1])
        case Failure(e) => Collection(c.items, Some(e))
        case Success(ts) => Collection(c.items + ItemsOf(ms[|ms| - 1], ts), None)
  }

  predicate HasModule(items: seq<Item>, m: string) {
    exists i :: 0 <= i < |items| && items[i].owner == m
  }

  /** An item of a requested module: in that module's directory, with a 'test' property. */
  predicate Requested(it: Item, ms: seq<string>, load: Loader) {
    it.owner in ms && it.gypdir == GypDir(it.owner) && load(it.owner).Success? && it.target in load(it.owner).value
  }

  /** Every yielded item is a test target of a requested module, sitting in that
      module's directory. */
  lemma {:induction false} CollectItems(ms: seq<string>, load: Loader)
    ensures forall it :: it in CollectTests(ms, load).items ==> Requested(it, ms, load)
    decreases |ms|
  {
    if ms != [] {
      var p := ms[..|ms| - 1];
      var m := ms[|ms| - 1];
      CollectItems(p, load);
      var c0 := CollectTests(p, load);
      assert forall x :: x in p ==> x in ms;
      if c0.error.None? && load(m).Success? {
        var ts := load(m).value;
        var items := ItemsOf(m, ts);
        assert CollectTests(ms, load).items == c0.items + items;
        forall it | it in items ensures Requested(it, ms, load) {
          var i :| 0 <= i < |items| && items[i] == it;
          assert it == Item(m, GypDir(m), ts[i]);
        }
      }
    }
  }

  /** Conversely, when the generator runs to the end it yields every test
      target of every requested module, with that module's directory. */
  lemma {:induction false} CollectComplete(ms: seq<string>, load: Loader, m: string, t: Target)
    requires CollectTests(ms, load).error.None?
    requires m in ms && load(m).Success? && t in load(m).value
    ensures Item(m, GypDir(m), t) in CollectTests(ms, load).items
    decreases |ms|
  {
    var p := ms[..|ms| - 1];
    var last := ms[|ms| - 1];
    var c0 := CollectTests(p, load);
    assert c0.error.None? && load(last).Success?;
    assert CollectTests(ms, load).items == c0.items + ItemsOf(last, load(last).value);
    if m == last {
      var i :| 0 <= i < |load(m).value| && load(m).value[i] == t;
      assert ItemsOf(m, load(m).value)[i] == Item(m, GypDir(m), t);
    } else {
      assert m in p by {
        var j :| 0 <= j < |ms| && ms[j] == m;
        assert j < |p| && p[j] == m;
      }
      CollectComplete(p, load, m, t);
    }
  }

  /** Every requested gyp file loads and has 'targets'. */
  predicate AllLoad(ms: seq<string>, load: Loader) {
    forall j :: 0 <= j < |ms| ==> load(ms[j]).Success?
  }

  /** The `j`th requested gyp file is the first that fails to load, with `e`. */
  predicate FirstFailure(ms: seq<string>, load: Loader, j: int, e: Error) {
    0 <= j < |ms| && load(ms[j]) == Failure(e) &&
    forall k :: 0 <= k < j ==> load(ms[k]).Success?
  }

  /** The generator runs to the end exactly when every requested gyp file loads,
      and otherwise stops with the exception of the first one that does not. */
  lemma {:induction false} CollectLoaded(ms: seq<string>, load: Loader)
    ensures CollectTests(ms, load).error.None? <==> AllLoad(ms, load)
    ensures CollectTests(ms, load).error.Some? ==>
      exists j :: FirstFailure(ms, load, j, CollectTests(ms, load).error.value)
    decreases |ms|
  {
    if ms != [] {
      var p := ms[..|ms| - 1];
      var m := ms[|ms| - 1];
      CollectLoaded(p, load);
      var c0 := CollectTests(p, load);
      if c0.error.Some? {
        var j :| FirstFailure(p, load, j, c0.error.value);
        assert ms[j] == p[j];
        assert FirstFailure(ms, load, j, c0.error.value);
      } else {
        assert forall k :: 0 <= k < |p| ==> ms[k] == p[k];
        assert ms[|p|] == m;
        if load(m).Failure? {
          assert FirstFailure(ms, load, |p|, load(m).error);
        }
      }
    }
  }

  /** When the generator runs to the end, a module yields an item exactly when it
      is requested and its gyp file has a test target. */
  lemma {:induction false} CollectModules(ms: seq<string>, load: Loader)
    requires CollectTests(ms, load).error.None?
    ensures var c := CollectTests(ms, load);
      forall m :: HasModule(c.items, m) <==> m in ms && load(m) != Success([])
    decreases |ms|
  {
    if ms != [] {
      var p := ms[..|ms| - 1];
      var m := ms[|ms| - 1];
      var c0 := CollectTests(p, load);
      assert c0.error.None?;
      CollectModules(p, load);
      var ts := load(m).value;
      var c := CollectTests(ms, load);
      var items := ItemsOf(m, ts);
      assert c.items == c0.items + items;
      assert ms == p + [m];
      forall x
        ensures HasModule(c.items, x) <==> x in ms && load(x) != Success([])
      {
        if HasModule(c.items, x) {
          var i :| 0 <= i < |c.items| && c.items[i].owner == x;
          if i < |c0.items| {
            assert c0.items[i].owner == x;
          } else {
            assert x == m && ts != [];
          }
        }
        if x in ms && load(x) != Success([]) {
          if x == m {
            assert c.items[|c0.items|] == items[0];
          } else {
            assert x in p;
            var i :| 0 <= i < |c0.items| && c0.items[i].owner == x;
            assert c.items[i] == c0.items[i];
          }
        }
      }
    }
  }

  // ---------------------------------------------------------------- did_all_builds_complete

  /** did_all_builds_complete over what the generator yields: false at the first
      target without an executable, and the generator's exception only when every
      yielded target had one. */
  function BuiltFrom(items: seq<Item>, error: Option<Error>, existing: set<string>): (r: Result<bool, Error>)
    ensures r == Success(true) <==>
      error.None? &&
      forall i :: 0 <= i < |items| ==>
        items[i].target.name.Some? && LocateExecutable(items[i].target.name.value, existing).Some?
    ensures r.Failure? ==> r.error == MissingKey("target_name") || error == Some(r.error)
    decreases |items|
  {
    if items == [] then
      if error.Some? then Failure(error.value) else Success(true)
    else
      match items[0].target.name
      case None => Failure(MissingKey("target_name"))
      case Some(name) =>
        if LocateExecutable(name, existing).None? then Success(false)
        else
          var r := BuiltFrom(items[1..], error, existing);
          assert forall i :: 0 < i < |items| ==> items[i] == items[1..][i - 1];
          r
  }

  function AllBuilt(c: Collection, existing: set<string>): Result<bool, Error> {
    BuiltFrom(c.items, c.error, existing)
  }

  // ---------------------------------------------------------------- the run loop of cmd_test

  /** The test runs so far, and the exception that stopped them, if any. */
  datatype Progress = Progress(runs: seq<TestRun>, error: Option<Error>)

  /** Running one yielded test. */
  type Executor = Item -> Result<TestRun, Error>

  /** exec_test against the given paths, working directory and processes. */
  function TestExecutor(existing: set<string>, workDir: string, process: Process): Executor {
    (it: Item) => ExecTest(it.owner, it.gypdir, it.target, existing, workDir, process)
  }

  /** exec_test over the yielded items in order, stopping at the first exception. */
  function ExecAll(items: seq<Item>, exec: Executor): Progress
    decreases |items|
  {
    if items == [] then Progress([], None)
    else
      var p := ExecAll(items[..|items| - 1], exec);
      var it := items[|items| - 1];
      if p.error.Some? then p
      else
        match exec(it)
        case Failure(e) => Progress(p.runs, Some(e))
        case Success(t) => Progress(p.runs + [t], None)
  }

  /** Once a run raises, later items change nothing. */
  lemma {:induction false} ExecAllErrorStays(items: seq<Item>, n: nat, exec: Executor)
    requires n <= |items| && ExecAll(items[..n], exec).error.Some?
    ensures ExecAll(items, exec) == ExecAll(items[..n], exec)
    decreases |items| - n
  {
    if n < |items| {
      assert items[..n + 1][..n] == items[..n];
      ExecAllErrorStays(items, n + 1, exec);
    } else {
      assert items[..n] == items;
    }
  }

  /** Without an exception there is one run per item, each being exec_test of that item. */
  lemma {:induction false} ExecAllSpec(items: seq<Item>, exec: Executor)
    ensures var p := ExecAll(items, exec);
      p.error.None? ==>
        |p.runs| == |items| &&
        forall i :: 0 <= i < |items| ==>
          exec(items[i]) == Success(p.runs[i])
    decreases |items|
  {
    if items != [] {
      ExecAllSpec(items[..|items| - 1], exec);
    }
  }

  // ---------------------------------------------------------------- module2test_count

  /** `dict((module, 0) for module in testables)`. */
  function ZeroCounts(ms: seq<string>): Dict<nat>
    decreases |ms|
  {
    if ms == [] then [] else Put(ZeroCounts(ms[..|ms| - 1]), ms[|ms| - 1], 0)
  }

  /** Every requested module starts at zero and nothing else is counted. */
  lemma {:induction false} ZeroCountsSpec(ms: seq<string>)
    ensures UniqueKeys(ZeroCounts(ms))
    ensures forall m :: Get(ZeroCounts(ms), m) == if m in ms then Some(0) else None
    decreases |ms|
  {
    if ms != [] {
      var p := ms[..|ms| - 1];
      ZeroCountsSpec(p);
      PutKeepsUniqueKeys(ZeroCounts(p), ms[|ms| - 1], 0);
      assert ms == p + [ms[|ms| - 1]];
      forall m ensures Get(ZeroCounts(ms), m) == if m in ms then Some(0) else None {
        GetPut(ZeroCounts(p), ms[|ms| - 1], 0, m);
      }
    }
  }

  /** `module2test_count[module] += 1` for each item. */
  function Tally(count: Dict<nat>, items: seq<Item>): Dict<nat>
    decreases |items|
  {
    if items == [] then count
    else
      var t := Tally(count, items[..|items| - 1]);
      var m := items[|items| - 1].owner;
      Put(t, m, Get(t, m).GetOr(0) + 1)
  }

  lemma HasModuleSnoc(items: seq<Item>, m: string)
    requires items != []
    ensures HasModule(items, m) <==> HasModule(items[..|items| - 1], m) || items[|items| - 1].owner == m
  {
    var p := items[..|items| - 1];
    if HasModule(p, m) {
      var i :| 0 <= i < |p| && p[i].owner == m;
      assert items[i] == p[i];
    }
    if HasModule(items, m) && items[|items| - 1].owner != m {
      var i :| 0 <= i < |items| && items[i].owner == m;
      assert p[i] == items[i];
    }
  }

  /** A module's count stays zero exactly when it started at zero and no item belongs to it. */
  lemma {:induction false} TallyZero(count: Dict<nat>, items: seq<Item>, m: string)
    ensures Get(Tally(count, items), m) == Some(0) <==> Get(count, m) == Some(0) && !HasModule(items, m)
    decreases |items|
  {
    if items != [] {
      var p := items[..|items| - 1];
      var it := items[|items| - 1];
      TallyZero(count, p, m);
      CountOne(Tally(count, p), it.owner, Get(Tally(count, p), it.owner).GetOr(0) + 1, m);
      HasModuleSnoc(items, m);
    }
  }

  /** One increment leaves a zero count zero unless it is that module's. */
  lemma CountOne(t: Dict<nat>, owner: string, n: nat, m: string)
    requires n > 0
    ensures Get(Put(t, owner, n), m) == Some(0) <==> Get(t, m) == Some(0) && owner != m
  {
    GetPut(t, owner, n, m);
  }

  /** Counting keeps the dictionary a dictionary. */
  lemma {:induction false} TallyUnique(count: Dict<nat>, items: seq<Item>)
    requires UniqueKeys(count)
    ensures UniqueKeys(Tally(count, items))
    decreases |items|
  {
    if items != [] {
      var p := items[..|items| - 1];
      var it := items[|items| - 1];
      TallyUnique(count, p);
      var t := Tally(count, p);
      PutKeepsUniqueKeys(t, it.owner, Get(t, it.owner).GetOr(0) + 1);
    }
  }

  /** The modules whose count is zero, in the dictionary's order. */
  function Zeroes(count: Dict<nat>): seq<string>
    decreases |count|
  {
    if count == [] then []
    else (if count[0].1 == 0 then [count[0].0] else []) + Zeroes(count[1..])
  }

  lemma {:induction false} ZeroesAreKeys(count: Dict<nat>)
    ensures forall k :: k in Zeroes(count) ==> k in Keys(count)
    decreases |count|
  {
    if count != [] {
      ZeroesAreKeys(count[1..]);
      assert Keys(count) == [count[0].0] + Keys(count[1..]);
    }
  }

  /** A key is listed exactly when it maps to zero. */
  lemma {:induction false} ZeroesSpec(count: Dict<nat>)
    requires UniqueKeys(count)
    ensures forall k :: k in Zeroes(count) <==> Get(count, k) == Some(0)
    decreases |count|
  {
    if count != [] {
      var rest := count[1..];
      assert UniqueKeys(rest) by {
        forall i, j | 0 <= i < j < |rest| ensures rest[i].0 != rest[j].0 {
          assert rest[i] == count[i + 1] && rest[j] == count[j + 1];
        }
      }
      ZeroesSpec(rest);
      ZeroesAreKeys(rest);
      assert count == [count[0]] + rest;
      forall k ensures k in Zeroes(count) <==> Get(count, k) == Some(0) {
        GetCons(count[0].0, count[0].1, rest, k);
      }
    }
  }

  /** `modules_without_tests`: when collect_tests runs to the end, a module is
      listed exactly when it is requested and its gyp file has no test target. */
  lemma ModulesWithoutTests(ms: seq<string>, load: Loader)
    requires CollectTests(ms, load).error.None?
    ensures forall m ::
      m in Zeroes(Tally(ZeroCounts(ms), CollectTests(ms, load).items)) <==>
        m in ms && load(m) == Success([])
  {
    var c := CollectTests(ms, load);
    ZeroCountsSpec(ms);
    TallyUnique(ZeroCounts(ms), c.items);
    forall m {
      TallyZero(ZeroCounts(ms), c.items, m);
    }
    ZeroesSpec(Tally(ZeroCounts(ms), c.items));
    CollectModules(ms, load);
  }

  // ---------------------------------------------------------------- testgroups

  /** The runs with result `res`, in order: the group of the partition. */
  function Partition(runs: seq<TestRun>, res: TestResult): seq<TestRun>
    decreases |runs|
  {
    if runs == [] then []
    else Partition(runs[..|runs| - 1], res) + (if runs[|runs| - 1].result == res then [runs[|runs| - 1]] else [])
  }

  /** A group holds exactly the runs with its result. */
  lemma {:induction false} PartitionMembers(runs: seq<TestRun>, res: TestResult)
    ensures forall t :: t in Partition(runs, res) <==> t in runs && t.result == res
    decreases |runs|
  {
    if runs != [] {
      PartitionMembers(runs[..|runs| - 1], res);
      assert runs == runs[..|runs| - 1] + [runs[|runs| - 1]];
    }
  }

  /** The three groups share out all runs. */
  lemma {:induction false} PartitionSizes(runs: seq<TestRun>)
    ensures |Partition(runs, Passed)| + |Partition(runs, NotRun)| + |Partition(runs, Failed)| == |runs|
    decreases |runs|
  {
    if runs != [] {
      PartitionSizes(runs[..|runs| - 1]);
    }
  }

  /** The longest suffix of `runs` whose members all have result `res`. */
  function TrailingBlock(runs: seq<TestRun>, res: TestResult): seq<TestRun>
    decreases |runs|
  {
    if runs == [] || runs[|runs| - 1].result != res then []
    else TrailingBlock(runs[..|runs| - 1], res) + [runs[|runs| - 1]]
  }

  /** testgroups[res] as written: itertools.groupby over the unsorted runs
      keeps, for each result, only the last consecutive block that has it. */
  function LastGroup(runs: seq<TestRun>, res: TestResult): seq<TestRun>
    decreases |runs|
  {
    if runs == [] then []
    else if runs[|runs| - 1].result == res then TrailingBlock(runs, res)
    else LastGroup(runs[..|runs| - 1], res)
  }

  lemma {:induction false} TrailingBlockAtMost(runs: seq<TestRun>, res: TestResult)
    ensures |TrailingBlock(runs, res)| <= |Partition(runs, res)|
    decreases |runs|
  {
    if runs != [] && runs[|runs| - 1].result == res {
      TrailingBlockAtMost(runs[..|runs| - 1], res);
    }
  }

  /** As written the groups never over-count, and a group is empty exactly when
      the corrected one is, so whether cmd_test raises is unaffected. */
  lemma {:induction false} LastGroupAtMost(runs: seq<TestRun>, res: TestResult)
    ensures |LastGroup(runs, res)| <= |Partition(runs, res)|
    ensures |LastGroup(runs, res)| == 0 <==> |Partition(runs, res)| == 0
    decreases |runs|
  {
    if runs != [] {
      if runs[|runs| - 1].result == res {
        TrailingBlockAtMost(runs, res);
        assert TrailingBlock(runs, res) != [];
      } else {
        LastGroupAtMost(runs[..|runs| - 1], res);
      }
    }
  }

  /** Runs that fail, pass and fail again: as written only the second failure
      is counted, the partition counts both. */
  lemma GroupByDropsEarlierBlocks(a: TestRun, b: TestRun, c: TestRun)
    requires a.result == Failed && b.result == Passed && c.result == Failed
    ensures |LastGroup([a, b, c], Failed)| == 1
    ensures |Partition([a, b, c], Failed)| == 2
  {
    assert [a, b, c][..2] == [a, b];
    assert [a, b][..1] == [a];
    assert [a][..0] == [];
    assert Partition([a], Failed) == [a];
    assert Partition([a, b], Failed) == [a];
    assert Partition([a, b, c], Failed) == [a, c];
    assert TrailingBlock([a, b], Failed) == [];
    assert TrailingBlock([a, b, c], Failed) == [c];
  }

  // ---------------------------------------------------------------- cmd_test

  /** The modules to test: those named, or every installed module when none is. */
  function Testables(testables: seq<string>, discovered: seq<string>): seq<string> {
    if testables == [] then discovered else testables
  }

  /** The paths the tests run against: as they are when every build completed,
      otherwise as the implicit `bru make` leaves them (None: it raised). */
  function RunPaths(c: Collection, existing: set<string>, remade: Option<set<string>>): Result<set<string>, Error> {
    match AllBuilt(c, existing)
    case Failure(e) => Failure(e)
    case Success(built) =>
      if built then Success(existing)
      else if remade.Some? then Success(remade.value)
      else Failure(MakeFailed)
  }

  /** The summary's verdict: raise with the failed and missing counts, or succeed
      with the number of successful tests. */
  function Verdict(runs: seq<TestRun>): Result<nat, Error> {
    var missing := |Partition(runs, NotRun)|;
    var failed := |Partition(runs, Failed)|;
    if missing > 0 || failed > 0 then Failure(TestsFailed(failed, missing))
    else Success(|Partition(runs, Passed)|)
  }

  /** cmd_test raises exactly when some run failed or did not run, and otherwise
      every run succeeded. */
  lemma VerdictSpec(runs: seq<TestRun>)
    ensures Verdict(runs).Failure? <==> exists i :: 0 <= i < |runs| && runs[i].result != Passed
    ensures Verdict(runs).Success? ==> Verdict(runs).value == |runs|
  {
    PartitionSizes(runs);
    PartitionMembers(runs, NotRun);
    PartitionMembers(runs, Failed);
    if exists i :: 0 <= i < |runs| && runs[i].result != Passed {
      var i :| 0 <= i < |runs| && runs[i].result != Passed;
      assert runs[i] in Partition(runs, runs[i].result);
    }
    if Verdict(runs).Failure? {
      var res := if |Partition(runs, NotRun)| > 0 then NotRun else Failed;
      var t := Partition(runs, res)[0];
      assert t in Partition(runs, res) && t in runs;
      var i :| 0 <= i < |runs| && runs[i] == t;
    }
  }

  /** What cmd_test produces: its outcome, the runs performed and the modules without tests. */
  datatype Report = Report(result: Result<nat, Error>, runs: seq<TestRun>, withoutTests: seq<string>)

  /** The summary once every run completed: the verdict, the runs and the
      modules whose count stayed zero. */
  function Summary(ms: seq<string>, items: seq<Item>, runs: seq<TestRun>): Report {
    Report(Verdict(runs), runs, Zeroes(Tally(ZeroCounts(ms), items)))
  }

  /** cmd_test from the requested modules, the installed ones, the gyp files,
      the existing paths, the outcome of a rebuild, the working directory and
      the process oracle. */
  function TestCommand(testables: seq<string>, discovered: seq<string>, manifests: map<string, Document>,
                       existing: set<string>, remade: Option<set<string>>, workDir: string,
                       process: Process): Report
  {
    var ms := Testables(testables, discovered);
    var c := CollectTests(ms, GypLoader(manifests));
    match RunPaths(c, existing, remade)
    case Failure(e) => Report(Failure(e), [], [])
    case Success(paths) =>
      var p := ExecAll(c.items, TestExecutor(paths, workDir, process));
      if p.error.Some? then Report(Failure(p.error.value), p.runs, [])
      else if c.error.Some? then Report(Failure(c.error.value), p.runs, [])
      else Summary(ms, c.items, p.runs)
  }

  /** When every gyp file loads and every run completes against `paths`, the
      summary reports one run per collected test, each classified by exec_test;
      the modules without tests are exactly the requested modules whose gyp file
      has no test target; and cmd_test raises exactly when some run failed or
      did not run. */
  lemma SummarySpec(ms: seq<string>, load: Loader, exec: Executor)
    requires CollectTests(ms, load).error.None?
    requires ExecAll(CollectTests(ms, load).items, exec).error.None?
    ensures var items := CollectTests(ms, load).items;
      var rep := Summary(ms, items, ExecAll(items, exec).runs);
      |rep.runs| == |items| &&
      (forall i :: 0 <= i < |items| ==> exec(items[i]) == Success(rep.runs[i])) &&
      (forall m :: m in rep.withoutTests <==> m in ms && load(m) == Success([])) &&
      (rep.result.Failure? <==> exists i :: 0 <= i < |rep.runs| && rep.runs[i].result != Passed) &&
      (rep.result.Success? ==> rep.result.value == |rep.runs|)
  {
    var items := CollectTests(ms, load).items;
    ExecAllSpec(items, exec);
    ModulesWithoutTests(ms, load);
    VerdictSpec(ExecAll(items, exec).runs);
  }

  /** The loop building `module2test_count` with every module at zero. */
  method InitialCounts(ms: seq<string>) returns (count: Dict<nat>)
    ensures count == ZeroCounts(ms)
  {
    count := [];
    var k := 0;
    while k < |ms|
      invariant k <= |ms|
      invariant count == ZeroCounts(ms[..k])
    {
      assert ms[..k + 1][..k] == ms[..k];
      count := Put(count, ms[k], 0);
      k := k + 1;
    }
    assert ms[..k] == ms;
  }

  /** One more item for the run loop. */
  lemma ExecAllNext(items: seq<Item>, i: nat, exec: Executor)
    requires i < |items|
    ensures var p := ExecAll(items[..i], exec);
      ExecAll(items[..i + 1], exec) ==
        if p.error.Some? then p
        else match exec(items[i])
          case Failure(e) => Progress(p.runs, Some(e))
          case Success(t) => Progress(p.runs + [t], None)
  {
    assert items[..i + 1][..i] == items[..i];
  }

  /** One more item for the count. */
  lemma TallyNext(count: Dict<nat>, items: seq<Item>, i: nat)
    requires i < |items|
    ensures var t := Tally(count, items[..i]);
      Tally(count, items[..i + 1]) == Put(t, items[i].owner, Get(t, items[i].owner).GetOr(0) + 1)
  {
    assert items[..i + 1][..i] == items[..i];
  }

  /** The loop running each collected test and counting it against its module. */
  method RunTests(items: seq<Item>, exec: Executor, count0: Dict<nat>)
    returns (runs: seq<TestRun>, error: Option<Error>, count: Dict<nat>)
    ensures Progress(runs, error) == ExecAll(items, exec)
    ensures error.None? ==> count == Tally(count0, items)
  {
    runs, error, count := [], None, count0;
    var i := 0;
    while i < |items|
      invariant i <= |items|
      invariant ExecAll(items[..i], exec) == Progress(runs, None)
      invariant count == Tally(count0, items[..i])
    {
      var it := items[i];
      ExecAllNext(items, i, exec);
      TallyNext(count0, items, i);
      var run := exec(it);
      if run.Failure? {
        ExecAllErrorStays(items, i + 1, exec);
        error := Some(run.error);
        return;
      }
      runs := runs + [run.value];
      var n := Get(count, it.owner).GetOr(0);
      count := Put(count, it.owner, n + 1);
      i := i + 1;
    }
    assert items[..i] == items;
  }

  /** `modules_without_tests`: the modules whose count stayed zero. */
  method ModulesWithZero(count: Dict<nat>) returns (zs: seq<string>)
    ensures zs == Zeroes(count)
  {
    zs := [];
    var j := 0;
    while j < |count|
      invariant j <= |count|
      invariant zs + Zeroes(count[j..]) == Zeroes(count)
    {
      assert count[j..][1..] == count[j + 1..];
      if count[j].1 == 0 {
        zs := zs + [count[j].0];
      }
      j := j + 1;
    }
  }

  /** `testgroups`: the runs partitioned by result. */
  method GroupRuns(runs: seq<TestRun>) returns (passed: seq<TestRun>, missing: seq<TestRun>, failed: seq<TestRun>)
    ensures passed == Partition(runs, Passed)
    ensures missing == Partition(runs, NotRun)
    ensures failed == Partition(runs, Failed)
  {
    passed, missing, failed := [], [], [];
    var g := 0;
    while g < |runs|
      invariant g <= |runs|
      invariant passed == Partition(runs[..g], Passed)
      invariant missing == Partition(runs[..g], NotRun)
      invariant failed == Partition(runs[..g], Failed)
    {
      assert runs[..g + 1][..g] == runs[..g];
      match runs[g].result {
        case Passed => passed := passed + [runs[g]];
        case NotRun => missing := missing + [runs[g]];
        case Failed => failed := failed + [runs[g]];
      }
      g := g + 1;
    }
    assert runs[..g] == runs;
  }

  /** cmd_test: run every collected test and summarise, building first when an
      executable is missing. */
  method CmdTest(testables: seq<string>, discovered: seq<string>, manifests: map<string, Document>,
                 existing: set<string>, remade: Option<set<string>>, workDir: string,
                 process: Process)
    returns (r: Result<nat, Error>, runs: seq<TestRun>, withoutTests: seq<string>)
    ensures Report(r, runs, withoutTests) == TestCommand(testables, discovered, manifests, existing, remade, workDir, process)
  {
    var ms := testables;
    if |ms| == 0 {
      ms := discovered;
    }
    var c := CollectTests(ms, GypLoader(manifests));
    var built := AllBuilt(c, existing);
    var paths: set<string>;
    if built.Failure? {
      return Failure(built.error), [], [];
    } else if built.value {
      paths := existing;
    } else if remade.Some? {
      paths := remade.value;
    } else {
      return Failure(MakeFailed), [], [];
    }
    var count := InitialCounts(ms);
    var error;
    runs, error, count := RunTests(c.items, TestExecutor(paths, workDir, process), count);
    if error.Some? {
      return Failure(error.value), runs, [];
    }
    if c.error.Some? {
      return Failure(c.error.value), runs, [];
    }
    withoutTests := ModulesWithZero(count);
    var passed, missing, failed := GroupRuns(runs);
    if |missing| > 0 || |failed| > 0 {
      r := Failure(TestsFailed(|failed|, |missing|));
    } else {
      r := Success(|passed|);
    }
  }
}
