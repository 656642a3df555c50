/** Fetching a module's sources and running its make_command
    (bru.py:59-143): unpack_dependency picks a fetch by the locator's scheme,
    unpack_module fetches every locator of a formula, and get_dependency
    builds the module once, remembered by a make_command.done marker. */
module Acquirer {
  import opened Wrappers
  import opened Dicts
  import opened Errors
  import opened Manifests

  const ModulesRoot := "./bru_modules"
  const VcsSchemes := ["svn+http", "svn+https", "git+http", "git+https"]
  const DownloadSchemes := ["http", "https", "ftp"]

  /** The three ways a locator is brought into a module directory. */
  datatype Fetch =
    | Clone(url: string, moduleDir: string)                           // brulib.clone.atomic_clone_repo
    | UntarFromLibrary(tarball: string, moduleDir: string)            // brulib.untar.untar_once
    | DownloadAndUntar(url: string, tarDir: string, moduleDir: string) // brulib.untar.wget_and_untar_once

  /** `os.path.join(a, b, c)`. */
  function Join3(a: string, b: string, c: string): string {
    Join(Join(a, b), c)
  }

  /** Where a fetch unpacks to. */
  function Destination(f: Fetch): string {
    match f
    case Clone(_, d) => d
    case UntarFromLibrary(_, d) => d
    case DownloadAndUntar(_, _, d) => d
  }

  /** unpack_dependency. `libraryModuleDir` is the library's directory of the
      module, `home` the user's home directory. */
  function UnpackDependency(root: string, name: string, version: string, loc: Locator,
                            libraryModuleDir: string, home: string): (r: Result<Fetch, Error>)
    ensures r.Success? ==> Destination(r.value) == Join3(root, name, version)
    ensures r.Success? && r.value.Clone? <==> loc.scheme in VcsSchemes
    ensures r.Success? && r.value.UntarFromLibrary? <==> loc.scheme == "file" && |loc.netloc| > 0
    ensures r.Success? && r.value.DownloadAndUntar? <==> loc.scheme in DownloadSchemes
    ensures r == Failure(EmptyFilePath(loc.url)) <==> loc.scheme == "file" && loc.netloc == []
    ensures r == Failure(UnsupportedScheme(loc.url)) <==>
      loc.scheme !in VcsSchemes && loc.scheme != "file" && loc.scheme !in DownloadSchemes
  {
    var moduleDir := Join3(root, name, version);
    if loc.scheme in VcsSchemes then Success(Clone(loc.url, moduleDir))
    else if loc.scheme == "file" then
      if |loc.netloc| > 0 then Success(UntarFromLibrary(Join(libraryModuleDir, loc.netloc), moduleDir))
      else Failure(EmptyFilePath(loc.url))
    else if loc.scheme in DownloadSchemes then
      Success(DownloadAndUntar(loc.url, Join3(Join3(home, ".bru", "downloads"), name, version), moduleDir))
    else Failure(UnsupportedScheme(loc.url))
  }

  /** 'url' as a list: a single string becomes a one-element list. */
  function Locators(urls: Urls): (ls: seq<Locator>)
    ensures urls.OneUrl? ==> ls == [urls.url]
    ensures urls.UrlList? ==> ls == urls.urls
  {
    match urls
    case OneUrl(l) => [l]
    case UrlList(ls) => ls
  }

  /** The fetches unpack_module performs for `locs` in order, up to and
      excluding the first locator that fails, and that failure. */
  datatype Plan = Plan(fetches: seq<Fetch>, failure: Option<Error>)

  /** unpack_dependency for one module version, as a function of the locator. */
  type Unpacker = Locator -> Result<Fetch, Error>

  function ModuleUnpacker(name: string, version: string, libraryModuleDir: string, home: string): Unpacker {
    (loc: Locator) => UnpackDependency(ModulesRoot, name, version, loc, libraryModuleDir, home)
  }

  function PlanFetches(locs: seq<Locator>, unpack: Unpacker): Plan
    decreases |locs|
  {
    if locs == [] then Plan([], None)
    else
      match unpack(locs[0])
      case Failure(e) => Plan([], Some(e))
      case Success(f) =>
        var rest := PlanFetches(locs[1..], unpack);
        Plan([f] + rest.fetches, rest.failure)
  }

  /** One more locator of the plan. */
  lemma PlanStep(locs: seq<Locator>, i: nat, unpack: Unpacker)
    requires i < |locs|
    ensures
      var q := PlanFetches(locs[i..], unpack);
      var q' := PlanFetches(locs[i + 1..], unpack);
      match unpack(locs[i])
      case Failure(e) => q == Plan([], Some(e))
      case Success(f) => q == Plan([f] + q'.fetches, q'.failure)
  {
    assert locs[i..][0] == locs[i];
    assert locs[i..][1..] == locs[i + 1..];
  }

  /** The plan performs one fetch per locator, in order, until the first
      locator that fails; it fails exactly when some locator does. */
  lemma {:induction false} PlanFetchesSpec(locs: seq<Locator>, unpack: Unpacker)
    ensures
      var p := PlanFetches(locs, unpack);
      && |p.fetches| <= |locs|
      && (forall i :: 0 <= i < |p.fetches| ==> unpack(locs[i]) == Success(p.fetches[i]))
      && (p.failure.None? ==> |p.fetches| == |locs|)
      && (p.failure.Some? ==> |p.fetches| < |locs| && unpack(locs[|p.fetches|]) == Failure(p.failure.value))
    decreases |locs|
  {
    if locs != [] {
      PlanFetchesSpec(locs[1..], unpack);
    }
  }

  /** Every fetch of a formula unpacks into ./bru_modules/<module>/<version>. */
  lemma PlanDestinations(name: string, version: string, locs: seq<Locator>, libraryModuleDir: string, home: string)
    ensures forall f :: f in PlanFetches(locs, ModuleUnpacker(name, version, libraryModuleDir, home)).fetches ==>
      Destination(f) == Join3(ModulesRoot, name, version)
  {
    PlanFetchesSpec(locs, ModuleUnpacker(name, version, libraryModuleDir, home));
  }

  /** What unpack_module fetches and returns. */
  datatype Unpacked = Unpacked(fetches: seq<Fetch>, result: Result<string, Error>)

  function UnpackModuleSpec(formula: Formula, libraryModuleDir: string, home: string): Unpacked {
    if formula.name.None? || formula.version.None? then Unpacked([], Failure(MissingModuleOrVersion))
    else if formula.url.None? then Unpacked([], Failure(MissingKey("url")))
    else
      var unpack := ModuleUnpacker(formula.name.value, formula.version.value, libraryModuleDir, home);
      var p := PlanFetches(Locators(formula.url.value), unpack);
      Unpacked(p.fetches,
               if p.failure.Some? then Failure(p.failure.value)
               else Success(Join3(ModulesRoot, formula.name.value, formula.name.value)))
  }

  /** The outcome of get_dependency's make_command step. */
  datatype MakeOutcome = MakeOutcome(result: Result<bool, Error>, paths: set<string>, ran: seq<Command>)

  /** A shell command and the directory it runs in. */
  datatype Command = Command(line: string, dir: string)

  /** os.system: the exit status a command returns. */
  type Runner = Command -> int

  function MarkerPath(moduleDir: string): string {
    Join(moduleDir, "make_command.done")
  }

  /** The make_command step as intended: skip when the marker exists, fail
      without running anything when the platform has no command, run the
      command, fail on a nonzero status, and write the marker after a zero
      one. The Boolean says whether a build ran. */
  function MakeStep(paths: set<string>, commands: Dict<string>, moduleDir: string, system: string, run: Runner)
    : MakeOutcome
  {
    if MarkerPath(moduleDir) in paths then MakeOutcome(Success(false), paths, [])
    else
      match Get(commands, system)
      case None => MakeOutcome(Failure(UnsupportedPlatform(system)), paths, [])
      case Some(line) =>
        var c := Command(line, moduleDir);
        if run(c) != 0 then MakeOutcome(Failure(BuildFailed(run(c))), paths, [c])
        else MakeOutcome(Success(true), paths + {MarkerPath(moduleDir)}, [c])
  }

  /** The step as bru.py:143 has it: `touch` is not defined, so a successful
      build raises NameError and no marker is ever written. */
  function MakeStepAsWritten(paths: set<string>, commands: Dict<string>, moduleDir: string, system: string, run: Runner)
    : MakeOutcome
  {
    if MarkerPath(moduleDir) in paths then MakeOutcome(Success(false), paths, [])
    else
      match Get(commands, system)
      case None => MakeOutcome(Failure(UnsupportedPlatform(system)), paths, [])
      case Some(line) =>
        var c := Command(line, moduleDir);
        if run(c) != 0 then MakeOutcome(Failure(BuildFailed(run(c))), paths, [c])
        else MakeOutcome(Failure(UndefinedTouch), paths, [c])
  }

  /** The intended step builds at most once: with the marker present nothing
      runs, the marker appears only after a command exited with status zero, nothing else on disk changes, and once
      the step succeeded a second one runs nothing. */
  lemma MakeStepSpec(paths: set<string>, commands: Dict<string>, moduleDir: string, system: string, run: Runner)
    ensures
      var o := MakeStep(paths, commands, moduleDir, system, run);
      && |o.ran| <= 1
      && (MarkerPath(moduleDir) in paths ==> o == MakeOutcome(Success(false), paths, []))
      && o.paths - paths <= {MarkerPath(moduleDir)} && paths <= o.paths
      && (MarkerPath(moduleDir) in o.paths - paths <==>
            o.ran != [] && run(o.ran[0]) == 0)
      && (o.ran != [] ==> Get(commands, system) == Some(o.ran[0].line) && o.ran[0].dir == moduleDir)
      && (o.result.Success? <==> MarkerPath(moduleDir) in o.paths)
      && (Get(commands, system).None? && MarkerPath(moduleDir) !in paths ==>
            o.result == Failure(UnsupportedPlatform(system)) && o.ran == [])
      && (MarkerPath(moduleDir) !in paths && Get(commands, system).Some? ==>
            && o.ran == [Command(Get(commands, system).value, moduleDir)]
            && (run(o.ran[0]) != 0 ==> o.result == Failure(BuildFailed(run(o.ran[0]))))
            && (run(o.ran[0]) == 0 ==> o.result == Success(true)))
  {
  }

  lemma {:induction false} MakeStepIdempotent(paths: set<string>, commands: Dict<string>, moduleDir: string,
                                              system: string, run: Runner)
    requires MakeStep(paths, commands, moduleDir, system, run).result.Success?
    ensures
      var o := MakeStep(paths, commands, moduleDir, system, run);
      MakeStep(o.paths, commands, moduleDir, system, run) == MakeOutcome(Success(false), o.paths, [])
  {
    MakeStepSpec(paths, commands, moduleDir, system, run);
  }

  /** As written, a build that succeeds is reported as an error and leaves no
      marker, so the next install builds the module again: with commands
      {"Linux": "make"}, a successful `make` is run twice in two steps. */
  lemma AsWrittenRebuilds(paths: set<string>, moduleDir: string, run: Runner)
    requires MarkerPath(moduleDir) !in paths
    requires run(Command("make", moduleDir)) == 0
    ensures
      var o := MakeStepAsWritten(paths, [("Linux", "make")], moduleDir, "Linux", run);
      && o.result == Failure(UndefinedTouch)
      && o.ran == [Command("make", moduleDir)]
      && MakeStepAsWritten(o.paths, [("Linux", "make")], moduleDir, "Linux", run).ran == [Command("make", moduleDir)]
      && MakeStep(paths, [("Linux", "make")], moduleDir, "Linux", run).result == Success(true)
  {
  }

  /** The working directory's file system as far as bru reads and writes it,
      with a log of the fetches and builds performed. */
  class WorkingTree {
    var paths: set<string>
    var fetched: seq<Fetch>
    var ran: seq<Command>

    constructor(existing: set<string>)
      ensures paths == existing && fetched == [] && ran == []
    {
      paths := existing;
      fetched := [];
      ran := [];
    }

    /** The loop of unpack_module: unpack each locator in turn, stopping at
        the first one that fails. */
    method FetchAll(locs: seq<Locator>, unpack: Unpacker) returns (failure: Option<Error>)
      modifies this
      ensures paths == old(paths) && ran == old(ran)
      ensures failure == PlanFetches(locs, unpack).failure
      ensures fetched == old(fetched) + PlanFetches(locs, unpack).fetches
    {
      ghost var plan := PlanFetches(locs, unpack);
      ghost var rest := plan;
      assert locs[0..] == locs;
      var i := 0;
      while i < |locs|
        invariant 0 <= i <= |locs|
        invariant paths == old(paths) && ran == old(ran)
        invariant rest == PlanFetches(locs[i..], unpack)
        invariant fetched + rest.fetches == old(fetched) + plan.fetches && rest.failure == plan.failure
      {
        var f := unpack(locs[i]);
        PlanStep(locs, i, unpack);
        if f.Failure? {
          return Some(f.error);
        }
        fetched := fetched + [f.value];
        rest := PlanFetches(locs[i + 1..], unpack);
        i := i + 1;
      }
      assert locs[i..] == [];
      return None;
    }

    /** unpack_module (bru.py:99-115). Returns ./bru_modules/<module>/<module>. */
    method UnpackModule(formula: Formula, libraryModuleDir: string, home: string) returns (r: Result<string, Error>)
      modifies this
      ensures paths == old(paths) && ran == old(ran)
      ensures r == UnpackModuleSpec(formula, libraryModuleDir, home).result
      ensures fetched == old(fetched) + UnpackModuleSpec(formula, libraryModuleDir, home).fetches
    {
      if formula.name.None? || formula.version.None? {
        return Failure(MissingModuleOrVersion);
      }
      var name, version := formula.name.value, formula.version.value;
      if formula.url.None? {
        return Failure(MissingKey("url"));
      }
      var failure := FetchAll(Locators(formula.url.value), ModuleUnpacker(name, version, libraryModuleDir, home));
      if failure.Some? {
        return Failure(failure.value);
      }
      return Success(Join3(ModulesRoot, name, name));
    }

    /** The make_command step of get_dependency (bru.py:128-143), with the
        marker written as intended. */
    method RunMakeCommand(commands: Dict<string>, moduleDir: string, system: string, run: Runner)
      returns (r: Result<bool, Error>)
      modifies this
      ensures
        var o := MakeStep(old(paths), commands, moduleDir, system, run);
        r == o.result && paths == o.paths && ran == old(ran) + o.ran && fetched == old(fetched)
    {
      var marker := Join(moduleDir, "make_command.done");
      if marker in paths {
        return Success(false);
      }
      var line := Get(commands, system);
      if line.None? {
        return Failure(UnsupportedPlatform(system));
      }
      var c := Command(line.value, moduleDir);
      var code := run(c);
      ran := ran + [c];
      if code != 0 {
        return Failure(BuildFailed(code));
      }
      paths := paths + {marker};
      return Success(true);
    }

    /** get_dependency (bru.py:117-143): load the formula, unpack it, and build
        it by its make_command when it has one. */
    method GetDependency(catalog: Catalog, name: string, version: string, system: string, run: Runner,
                         libraryModuleDir: string, home: string) returns (r: Result<bool, Error>)
      modifies this
      ensures (name, version) !in catalog ==>
        r == Failure(MissingFormula(name, version)) && paths == old(paths) && ran == old(ran) && fetched == old(fetched)
      ensures (name, version) in catalog ==>
        var formula := catalog[(name, version)];
        var u := UnpackModuleSpec(formula, libraryModuleDir, home);
        && fetched == old(fetched) + u.fetches
        && (u.result.Failure? ==> r == Failure(u.result.error) && paths == old(paths) && ran == old(ran))
        && (u.result.Success? && formula.makeCommand.None? ==>
              r == Success(false) && paths == old(paths) && ran == old(ran))
        && (u.result.Success? && formula.makeCommand.Some? ==>
              var o := MakeStep(old(paths), formula.makeCommand.value, Join3(ModulesRoot, name, version), system, run);
              r == o.result && paths == o.paths && ran == old(ran) + o.ran)
    {
      if (name, version) !in catalog {
        return Failure(MissingFormula(name, version));
      }
      var formula := catalog[(name, version)];
      var unpacked := UnpackModule(formula, libraryModuleDir, home);
      if unpacked.Failure? {
        return Failure(unpacked.error);
      }
      if formula.makeCommand.None? {
        return Success(false);
      }
      r := RunMakeCommand(formula.makeCommand.value, Join3(ModulesRoot, name, version), system, run);
    }
  }
}
