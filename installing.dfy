/** Editing the project's own manifests on `bru install` (bru.py:339-426):
    the single *.bru file of a directory, `module@version` arguments, and
    recording new dependencies in the .bru and the .gyp file. */
module Installing {
  import opened Wrappers
  import opened Dicts
  import opened Errors
  import opened Manifests

  // ---------------------------------------------------------------------
  // get_single_bru_file
  // ---------------------------------------------------------------------

  /** get_single_bru_file, given what `glob.glob("*.bru")` found. */
  function GetSingleBruFile(dir: string, matches: seq<string>): (r: Result<Option<string>, Error>)
    ensures r == Success(None) <==> |matches| == 0
    ensures r.Success? && r.value.Some? <==> |matches| == 1
    ensures r.Success? && r.value.Some? ==> r.value.value == Join(dir, matches[0])
    ensures r.Failure? <==> |matches| > 1
    ensures r.Failure? ==> r.error == MultipleBruFiles(dir, matches)
  {
    if |matches| == 0 then Success(None)
    else if |matches| > 1 then Failure(MultipleBruFiles(dir, matches))
    else Success(Some(Join(dir, matches[0])))
  }

  // ---------------------------------------------------------------------
  // parse_module_at_version
  // ---------------------------------------------------------------------

  /** A module to install, with the version if one was given. */
  datatype Installable = Installable(name: string, version: Option<string>)

  /** How often `c` occurs in `s`. */
  function Count(s: string, c: char): nat {
    multiset(s)[c]
  }

  /** `sep.join(parts)`. */
  function JoinWith(parts: seq<string>, sep: char): string
    decreases |parts|
  {
    if parts == [] then []
    else if |parts| == 1 then parts[0]
    else parts[0] + [sep] + JoinWith(parts[1..], sep)
  }

  /** `s.split(sep)`: the pieces between the separators. */
  function Split(s: string, sep: char): seq<string>
    decreases |s|
  {
    if s == [] then [[]]
    else
      var rest := Split(s[1..], sep);
      if s[0] == sep then [[]] + rest
      else [[s[0]] + rest[0]] + rest[1..]
  }

  /** One more piece than there are separators, none of them holding a
      separator, and joining them gives the string back. */
  lemma {:induction false} SplitSpec(s: string, sep: char)
    ensures |Split(s, sep)| == Count(s, sep) + 1
    ensures forall i :: 0 <= i < |Split(s, sep)| ==> sep !in Split(s, sep)[i]
    ensures JoinWith(Split(s, sep), sep) == s
    decreases |s|
  {
    if s != [] {
      var rest := Split(s[1..], sep);
      SplitSpec(s[1..], sep);
      CountCons(s, sep);
      if s[0] == sep {
        JoinSeparator(rest, sep);
        assert ([[]] + rest)[1..] == rest;
      } else {
        JoinExtendFirst(s[0], rest, sep);
        var parts := [[s[0]] + rest[0]] + rest[1..];
        forall i | 0 <= i < |parts| ensures sep !in parts[i] {
          if i > 0 {
            assert parts[i] == rest[i];
          }
        }
      }
    }
  }

  lemma CountCons(s: string, c: char)
    requires s != []
    ensures Count(s, c) == (if s[0] == c then 1 else 0) + Count(s[1..], c)
  {
    assert s == [s[0]] + s[1..];
    assert multiset(s) == multiset{s[0]} + multiset(s[1..]);
  }

  /** An empty first piece puts a separator in front. */
  lemma JoinSeparator(parts: seq<string>, sep: char)
    requires parts != []
    ensures JoinWith([[]] + parts, sep) == [sep] + JoinWith(parts, sep)
  {
    assert ([[]] + parts)[1..] == parts;
  }

  /** A character added to the first piece goes in front. */
  lemma JoinExtendFirst(c: char, parts: seq<string>, sep: char)
    requires parts != []
    ensures JoinWith([[c] + parts[0]] + parts[1..], sep) == [c] + JoinWith(parts, sep)
  {
    var q := [[c] + parts[0]] + parts[1..];
    assert q[1..] == parts[1..];
    if |parts| > 1 {
      assert JoinWith(q, sep) == [c] + parts[0] + [sep] + JoinWith(parts[1..], sep);
    }
  }

  /** Splitting undoes joining pieces that hold no separator. */
  lemma {:induction false} SplitJoin(parts: seq<string>, sep: char)
    requires |parts| > 0
    requires forall i :: 0 <= i < |parts| ==> sep !in parts[i]
    ensures Split(JoinWith(parts, sep), sep) == parts
    decreases |parts|
  {
    var s := JoinWith(parts, sep);
    var r := Split(s, sep);
    SplitSpec(s, sep);
    JoinCount(parts, sep);
    SplitUnique(r, parts, sep);
  }

  lemma {:induction false} JoinCount(parts: seq<string>, sep: char)
    requires |parts| > 0
    requires forall i :: 0 <= i < |parts| ==> sep !in parts[i]
    ensures Count(JoinWith(parts, sep), sep) == |parts| - 1
    decreases |parts|
  {
    if |parts| > 1 {
      JoinCount(parts[1..], sep);
      assert multiset(JoinWith(parts, sep)) == multiset(parts[0]) + multiset([sep]) + multiset(JoinWith(parts[1..], sep));
      assert multiset(parts[0])[sep] == 0;
    } else {
      assert multiset(parts[0])[sep] == 0;
    }
  }

  /** Two separator-free splittings of the same string are the same. */
  lemma {:induction false} SplitUnique(a: seq<string>, b: seq<string>, sep: char)
    requires |a| > 0 && |b| > 0
    requires forall i :: 0 <= i < |a| ==> sep !in a[i]
    requires forall i :: 0 <= i < |b| ==> sep !in b[i]
    requires JoinWith(a, sep) == JoinWith(b, sep)
    ensures a == b
    decreases |a| + |b|
  {
    if |a| == 1 && |b| == 1 {
    } else if |a| == 1 {
      assert false;
    } else if |b| == 1 {
      assert false;
    } else {
      var s := JoinWith(a, sep);
      FirstPieceIsPrefix(a, sep);
      FirstPieceIsPrefix(b, sep);
      assert a[0] == b[0];
      assert JoinWith(a[1..], sep) == s[|a[0]| + 1..] == JoinWith(b[1..], sep);
      SplitUnique(a[1..], b[1..], sep);
      assert a == [a[0]] + a[1..] && b == [b[0]] + b[1..];
    }
  }

  /** The first piece of a joined list ends at the first separator. */
  lemma FirstPieceIsPrefix(a: seq<string>, sep: char)
    requires |a| > 1
    requires forall i :: 0 <= i < |a| ==> sep !in a[i]
    ensures
      var s := JoinWith(a, sep);
      && |a[0]| < |s| && s[..|a[0]|] == a[0] && s[|a[0]|] == sep
      && (forall k :: 0 <= k < |a[0]| ==> s[k] != sep)
      && s[|a[0]| + 1..] == JoinWith(a[1..], sep)
  {
    var s := JoinWith(a, sep);
    assert s == a[0] + [sep] + JoinWith(a[1..], sep);
    assert forall k :: 0 <= k < |a[0]| ==> s[k] == a[0][k];
  }

  /** parse_module_at_version: 'm' gives (m, None), 'm@v' gives (m, v), and
      more than one '@' is an error. */
  function ParseModuleAtVersion(installable: string): (r: Result<Installable, Error>)
    ensures Count(installable, '@') == 0 ==> r == Success(Installable(installable, None))
    ensures Count(installable, '@') > 1 <==> r == Failure(BadInstallable(installable))
    ensures r.Success? ==> '@' !in r.value.name && (r.value.version.Some? ==> '@' !in r.value.version.value)
  {
    var elems := Split(installable, '@');
    SplitSpec(installable, '@');
    if |elems| == 1 then
      assert JoinWith(elems, '@') == elems[0];
      Success(Installable(elems[0], None))
    else if |elems| == 2 then Success(Installable(elems[0], Some(elems[1])))
    else Failure(BadInstallable(installable))
  }

  /** The argument text of an installable: `module` or `module@version`. */
  function Format(x: Installable): string {
    match x.version
    case None => x.name
    case Some(v) => x.name + "@" + v
  }

  /** Parsing reads back what formatting wrote, for names and versions free of '@'. */
  lemma ParseFormat(x: Installable)
    requires '@' !in x.name && (x.version.Some? ==> '@' !in x.version.value)
    ensures ParseModuleAtVersion(Format(x)) == Success(x)
  {
    match x.version
    case None =>
      SplitJoin([x.name], '@');
    case Some(v) =>
      assert JoinWith([x.name, v], '@') == x.name + "@" + v;
      SplitJoin([x.name, v], '@');
  }

  /** Whatever parses formats back to the same text. */
  lemma FormatParse(s: string)
    requires ParseModuleAtVersion(s).Success?
    ensures Format(ParseModuleAtVersion(s).value) == s
  {
    var elems := Split(s, '@');
    SplitSpec(s, '@');
    if |elems| == 2 {
      assert JoinWith(elems, '@') == elems[0] + "@" + elems[1];
    }
  }

  // ---------------------------------------------------------------------
  // add_dependencies_to_bru
  // ---------------------------------------------------------------------

  /** `deps[m] = version` for each installable in turn. */
  function PutAll(deps: Dict<Option<string>>, xs: seq<Installable>): Dict<Option<string>>
    decreases |xs|
  {
    if xs == [] then deps
    else
      var last := xs[|xs| - 1];
      Put(PutAll(deps, xs[..|xs| - 1]), last.name, last.version)
  }

  /** The version the last installable naming `m` carries, if any names it. */
  function LastVersion(xs: seq<Installable>, m: string): Option<Option<string>>
    decreases |xs|
  {
    if xs == [] then None
    else if xs[|xs| - 1].name == m then Some(xs[|xs| - 1].version)
    else LastVersion(xs[..|xs| - 1], m)
  }

  /** Later installables win, and modules not named keep their entry. */
  lemma {:induction false} PutAllGet(deps: Dict<Option<string>>, xs: seq<Installable>, m: string)
    ensures Get(PutAll(deps, xs), m) == (if LastVersion(xs, m).Some? then LastVersion(xs, m) else Get(deps, m))
    decreases |xs|
  {
    if xs != [] {
      var last := xs[|xs| - 1];
      PutAllGet(deps, xs[..|xs| - 1], m);
      GetPut(PutAll(deps, xs[..|xs| - 1]), last.name, last.version, m);
    }
  }

  /** Existing keys keep their order and position. */
  lemma {:induction false} PutAllPrefix(deps: Dict<Option<string>>, xs: seq<Installable>)
    ensures |PutAll(deps, xs)| >= |deps| && Keys(PutAll(deps, xs))[..|deps|] == Keys(deps)
    decreases |xs|
  {
    if xs != [] {
      PutAllPrefix(deps, xs[..|xs| - 1]);
    }
  }

  /** Every installable's module is a key afterwards... */
  lemma {:induction false} PutAllKeysPresent(deps: Dict<Option<string>>, xs: seq<Installable>)
    ensures forall i :: 0 <= i < |xs| ==> xs[i].name in Keys(PutAll(deps, xs))
    decreases |xs|
  {
    if xs != [] {
      var p := xs[..|xs| - 1];
      var last := xs[|xs| - 1];
      PutAllKeysPresent(deps, p);
      forall i | 0 <= i < |xs| ensures xs[i].name in Keys(PutAll(deps, xs)) {
        GetPut(PutAll(deps, p), last.name, last.version, xs[i].name);
        if i < |p| {
          assert p[i] == xs[i];
        }
      }
    }
  }

  /** ...and nothing else is new. */
  lemma {:induction false} PutAllKeysOnly(deps: Dict<Option<string>>, xs: seq<Installable>)
    ensures forall k :: k in Keys(PutAll(deps, xs)) ==> k in Keys(deps) || exists i :: 0 <= i < |xs| && xs[i].name == k
    decreases |xs|
  {
    if xs != [] {
      var p := xs[..|xs| - 1];
      PutAllKeysOnly(deps, p);
      var d := PutAll(deps, p);
      forall k | k in Keys(PutAll(deps, xs)) ensures k in Keys(deps) || exists i :: 0 <= i < |xs| && xs[i].name == k {
        if k !in Keys(d) {
          assert xs[|xs| - 1].name == k;
        } else if k !in Keys(deps) {
          var i :| 0 <= i < |p| && p[i].name == k;
          assert xs[i].name == k;
        }
      }
    }
  }

  /** The dependencies stay a dictionary. */
  lemma {:induction false} PutAllUnique(deps: Dict<Option<string>>, xs: seq<Installable>)
    requires UniqueKeys(deps)
    ensures UniqueKeys(PutAll(deps, xs))
    decreases |xs|
  {
    if xs != [] {
      PutAllUnique(deps, xs[..|xs| - 1]);
      PutKeepsUniqueKeys(PutAll(deps, xs[..|xs| - 1]), xs[|xs| - 1].name, xs[|xs| - 1].version);
    }
  }

  /** add_dependencies_to_bru (bru.py:395-402) on the loaded .bru document.
      A 'dependencies' value that is not a map is only an error once an
      installable is assigned into it; with none the document is saved as it was. */
  method AddDependenciesToBru(bru: Document, installables: seq<Installable>) returns (r: Result<Document, Error>)
    ensures Get(bru, "dependencies").Some? && !Get(bru, "dependencies").value.Versions? ==>
      r == if installables == [] then Success(bru) else Failure(Malformed("dependencies"))
    ensures Get(bru, "dependencies").None? || Get(bru, "dependencies").value.Versions? ==>
      var before := if Get(bru, "dependencies").None? then [] else Get(bru, "dependencies").value.versions;
      r == Success(Put(bru, "dependencies", Versions(PutAll(before, installables))))
  {
    var found := Get(bru, "dependencies");
    var deps: Dict<Option<string>>;
    if found.None? {
      deps := [];
    } else if found.value.Versions? {
      deps := found.value.versions;
    } else if installables == [] {
      return Success(bru);
    } else {
      return Failure(Malformed("dependencies"));
    }
    deps := PutEach(deps, installables);
    return Success(Put(bru, "dependencies", Versions(deps)));
  }

  /** One more installable recorded. */
  lemma PutAllNext(deps: Dict<Option<string>>, xs: seq<Installable>, i: nat)
    requires i < |xs|
    ensures PutAll(deps, xs[..i + 1]) == Put(PutAll(deps, xs[..i]), xs[i].name, xs[i].version)
  {
    assert xs[..i + 1][..i] == xs[..i];
  }

  /** The loop of add_dependencies_to_bru: `deps[m] = version` for each
      installable in turn. */
  method PutEach(deps0: Dict<Option<string>>, xs: seq<Installable>) returns (deps: Dict<Option<string>>)
    ensures deps == PutAll(deps0, xs)
  {
    deps := deps0;
    var i := 0;
    while i < |xs|
      invariant 0 <= i <= |xs|
      invariant deps == PutAll(deps0, xs[..i])
    {
      PutAllNext(deps0, xs, i);
      deps := Put(deps, xs[i].name, xs[i].version);
      i := i + 1;
    }
    assert xs[..i] == xs;
  }

  // ---------------------------------------------------------------------
  // add_dependencies_to_gyp
  // ---------------------------------------------------------------------

  /** The dependency expression naming all targets of a module's gyp file. */
  function DependencyExpr(m: string): string {
    "bru_modules/" + m + "/" + m + ".gyp:*"
  }

  /** The de-duplicating append of every installable's dependency expression. */
  function AppendMissing(deps: seq<string>, xs: seq<Installable>): seq<string>
    decreases |xs|
  {
    if xs == [] then deps
    else
      var acc := AppendMissing(deps, xs[..|xs| - 1]);
      var e := DependencyExpr(xs[|xs| - 1].name);
      if e in acc then acc else acc + [e]
  }

  predicate NoDuplicates(s: seq<string>) {
    forall i, j :: 0 <= i < j < |s| ==> s[i] != s[j]
  }

  /** The old list stays a prefix, every installable's expression is present,
      nothing else is added, and no expression is added twice. */
  lemma {:induction false} AppendMissingSpec(deps: seq<string>, xs: seq<Installable>)
    ensures |AppendMissing(deps, xs)| >= |deps| && AppendMissing(deps, xs)[..|deps|] == deps
    ensures forall i :: 0 <= i < |xs| ==> DependencyExpr(xs[i].name) in AppendMissing(deps, xs)
    ensures forall e :: e in AppendMissing(deps, xs) ==>
      e in deps || exists i :: 0 <= i < |xs| && DependencyExpr(xs[i].name) == e
    ensures NoDuplicates(deps) ==> NoDuplicates(AppendMissing(deps, xs))
    decreases |xs|
  {
    if xs != [] {
      var p := xs[..|xs| - 1];
      AppendMissingSpec(deps, p);
      var acc := AppendMissing(deps, p);
      assert forall i :: 0 <= i < |p| ==> p[i] == xs[i];
      assert (acc + [DependencyExpr(xs[|xs| - 1].name)])[..|deps|] == acc[..|deps|];
      forall e | e in AppendMissing(deps, xs)
        ensures e in deps || exists i :: 0 <= i < |xs| && DependencyExpr(xs[i].name) == e
      {
        if e !in acc {
          assert DependencyExpr(xs[|xs| - 1].name) == e;
        } else if e !in deps {
          var i :| 0 <= i < |p| && DependencyExpr(p[i].name) == e;
          assert DependencyExpr(xs[i].name) == e;
        }
      }
    }
  }

  /** Adding the same installables again changes nothing. */
  lemma AppendMissingIdempotent(deps: seq<string>, xs: seq<Installable>)
    ensures AppendMissing(AppendMissing(deps, xs), xs) == AppendMissing(deps, xs)
  {
    AppendMissingSpec(deps, xs);
    AppendMissingPresent(AppendMissing(deps, xs), xs);
  }

  lemma {:induction false} AppendMissingPresent(deps: seq<string>, xs: seq<Installable>)
    requires forall i :: 0 <= i < |xs| ==> DependencyExpr(xs[i].name) in deps
    ensures AppendMissing(deps, xs) == deps
    decreases |xs|
  {
    if xs != [] {
      AppendMissingPresent(deps, xs[..|xs| - 1]);
    }
  }

  /** The targets list after `gyp['targets'] = []` when absent. */
  function TargetsOrEmpty(gyp: Document): Result<seq<Target>, Error> {
    match Get(gyp, "targets")
    case None => Success([])
    case Some(v) => if v.Targets? then Success(v.targets) else Failure(Malformed("targets"))
  }

  /** add_dependencies_to_gyp with an empty target list given one empty first
      target, as evidently intended. */
  function GypWithDependencies(gyp: Document, xs: seq<Installable>): Result<Document, Error> {
    match TargetsOrEmpty(gyp)
    case Failure(e) => Failure(e)
    case Success(ts) =>
      var targets := if ts == [] then [EmptyTarget] else ts;
      var first := targets[0];
      var deps := AppendMissing(first.dependencies.GetOr([]), xs);
      Success(Put(gyp, "targets", Targets([first.(dependencies := Some(deps))] + targets[1..])))
  }

  /** add_dependencies_to_gyp as bru.py:414-415 has it: `targets[0] = {}` on
      an empty list raises IndexError. */
  function GypWithDependenciesAsWritten(gyp: Document, xs: seq<Installable>): Result<Document, Error> {
    match TargetsOrEmpty(gyp)
    case Failure(e) => Failure(e)
    case Success(ts) =>
      if ts == [] then Failure(IndexOutOfRange)
      else
        var first := ts[0];
        var deps := AppendMissing(first.dependencies.GetOr([]), xs);
        Success(Put(gyp, "targets", Targets([first.(dependencies := Some(deps))] + ts[1..])))
  }

  /** As written, a gyp file without targets (or without a 'targets' key)
      always fails, even for the one-installable list ['zlib']; the corrected
      version records the dependency in a new first target. */
  lemma AsWrittenFailsWithoutTargets(gyp: Document)
    requires Get(gyp, "targets").None? || Get(gyp, "targets") == Some(Targets([]))
    ensures GypWithDependenciesAsWritten(gyp, [Installable("zlib", None)]) == Failure(IndexOutOfRange)
    ensures GypWithDependencies(gyp, [Installable("zlib", None)]).Success?
    ensures TargetsOf(GypWithDependencies(gyp, [Installable("zlib", None)]).value) ==
      Success([EmptyTarget.(dependencies := Some(["bru_modules/zlib/zlib.gyp:*"]))])
  {
    var first := EmptyTarget.(dependencies := Some(["bru_modules/zlib/zlib.gyp:*"]));
    assert TargetsOrEmpty(gyp) == Success([]);
    assert GypWithDependencies(gyp, [Installable("zlib", None)]) == Success(Put(gyp, "targets", Targets([first]))) by {
      AppendZlib();
      assert [EmptyTarget][1..] == [];
      assert [first] + [EmptyTarget][1..] == [first];
    }
    GetPut(gyp, "targets", Targets([first]), "targets");
  }

  /** Appending zlib's expression to an empty dependency list. */
  lemma AppendZlib()
    ensures AppendMissing([], [Installable("zlib", None)]) == ["bru_modules/zlib/zlib.gyp:*"]
  {
    assert [Installable("zlib", None)][..0] == [];
    assert AppendMissing([], []) == [];
    assert DependencyExpr("zlib") == "bru_modules/zlib/zlib.gyp:*";
  }

  /** Where a gyp file has a target, both versions agree. */
  lemma AsWrittenAgreesWithTargets(gyp: Document, xs: seq<Installable>)
    requires TargetsOrEmpty(gyp).Success? && TargetsOrEmpty(gyp).value != []
    ensures GypWithDependenciesAsWritten(gyp, xs) == GypWithDependencies(gyp, xs)
  {
  }

  /** The edit touches only the first target's dependencies. */
  lemma GypWithDependenciesSpec(gyp: Document, xs: seq<Installable>)
    requires GypWithDependencies(gyp, xs).Success?
    ensures
      var ts := TargetsOrEmpty(gyp).value;
      var out := GypWithDependencies(gyp, xs).value;
      && (forall k :: k != "targets" ==> Get(out, k) == Get(gyp, k))
      && TargetsOf(out).Success?
      && var ts' := TargetsOf(out).value;
      && |ts'| == (if ts == [] then 1 else |ts|)
      && ts'[1..] == (if ts == [] then [] else ts[1..])
      && ts'[0].dependencies.Some?
      && (forall i :: 0 <= i < |xs| ==> DependencyExpr(xs[i].name) in ts'[0].dependencies.value)
      && ts'[0].dependencies == Some(AppendMissing((if ts == [] then EmptyTarget else ts[0]).dependencies.GetOr([]), xs))
      && (ts != [] ==> ts'[0] == ts[0].(dependencies := ts'[0].dependencies))
  {
    var ts := TargetsOrEmpty(gyp).value;
    var targets := if ts == [] then [EmptyTarget] else ts;
    var deps := AppendMissing(targets[0].dependencies.GetOr([]), xs);
    var v := Targets([targets[0].(dependencies := Some(deps))] + targets[1..]);
    AppendMissingSpec(targets[0].dependencies.GetOr([]), xs);
    forall k ensures Get(Put(gyp, "targets", v), k) == if k == "targets" then Some(v) else Get(gyp, k) {
      GetPut(gyp, "targets", v, k);
    }
  }

  /** add_dependencies_to_gyp (bru.py:404-426) on the loaded .gyp document,
      with the empty-targets case corrected. */
  method AddDependenciesToGyp(gyp: Document, installables: seq<Installable>) returns (r: Result<Document, Error>)
    ensures r == GypWithDependencies(gyp, installables)
  {
    var found := TargetsOrEmpty(gyp);
    if found.Failure? {
      return Failure(found.error);
    }
    var targets := found.value;
    if |targets| == 0 {
      targets := [EmptyTarget];
    }
    var first := targets[0];
    var deps := if first.dependencies.Some? then first.dependencies.value else [];
    ghost var before := deps;
    var i := 0;
    while i < |installables|
      invariant 0 <= i <= |installables|
      invariant deps == AppendMissing(before, installables[..i])
    {
      assert installables[..i + 1][..i] == installables[..i];
      var m := installables[i].name;
      var expr := "bru_modules/" + m + "/" + m + ".gyp" + ":*";
      assert expr == DependencyExpr(m);
      if expr !in deps {
        deps := deps + [expr];
      }
      i := i + 1;
    }
    assert installables[..i] == installables;
    targets := targets[0 := first.(dependencies := Some(deps))];
    assert targets == [first.(dependencies := Some(deps))] + targets[1..];
    return Success(Put(gyp, "targets", Targets(targets)));
  }
}
