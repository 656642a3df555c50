/** The freeze-first dependency resolver, resolve_conflicts (bru.py:296-337).

    A FIFO worklist of (module, version, requestor) demands is seeded from the
    project's 'dependencies' with the requestor 'bru.json' and grows while it
    is processed. The first demand seen for a module freezes that module's
    version; only then are the module's own formula dependencies appended. A
    later demand for a different version is reported as a warning. */
module Resolver {
  import opened Wrappers
  import opened Dicts
  import opened Errors
  import opened Manifests

  const RootRequestor := "bru.json"

  /** A worklist entry, and a resolved entry: module, version, requestor. */
  datatype Demand = Demand(name: string, version: string, requestor: string)

  /** The warning 'version conflict for {name} requested by first {winner} and then {loser}'. */
  datatype Conflict = Conflict(name: string, winner: string, loser: string)

  /** The demands a dependency map makes on behalf of `requestor`, in dict order. */
  function Requests(deps: Dict<string>, requestor: string): seq<Demand> {
    seq(|deps|, k requires 0 <= k < |deps| => Demand(deps[k].0, deps[k].1, requestor))
  }

  /** `formula['dependencies'] if 'dependencies' in formula else {}`. */
  function DeclaredDependencies(f: Formula): Dict<string> {
    f.dependencies.GetOr([])
  }

  /** What freezing `e` appends to the worklist. */
  function Children(e: Demand, catalog: Catalog): seq<Demand> {
    if (e.name, e.version) in catalog
    then Requests(DeclaredDependencies(catalog[(e.name, e.version)]), e.name)
    else []
  }

  /** Everything appended to the worklist by freezing the entries of `frozen`, in order. */
  function Expansion(frozen: seq<Demand>, catalog: Catalog): seq<Demand>
    decreases |frozen|
  {
    if frozen == [] then []
    else Expansion(frozen[..|frozen| - 1], catalog) + Children(frozen[|frozen| - 1], catalog)
  }

  /** The earliest demand in `s` for module `m`, if any. */
  function FirstOf(s: seq<Demand>, m: string): Option<Demand>
    decreases |s|
  {
    if s == [] then None
    else
      var r := FirstOf(s[..|s| - 1], m);
      if r.Some? then r
      else if s[|s| - 1].name == m then Some(s[|s| - 1])
      else None
  }

  /** The demands of `s` that are the first for their module, in order: the
      contents of the OrderedDict `recursive_deps` once `s` was processed. */
  function FirstOccurrences(s: seq<Demand>): seq<Demand>
    decreases |s|
  {
    if s == [] then []
    else
      var p := s[..|s| - 1];
      if FirstOf(p, s[|s| - 1].name).Some? then FirstOccurrences(p)
      else FirstOccurrences(p) + [s[|s| - 1]]
  }

  /** The warnings printed while processing `s`: one per demand whose module was
      already frozen at a different version. */
  function Conflicts(s: seq<Demand>): seq<Conflict>
    decreases |s|
  {
    if s == [] then []
    else
      var p := s[..|s| - 1];
      var d := s[|s| - 1];
      var w := FirstOf(p, d.name);
      if w.Some? && w.value.version != d.version
      then Conflicts(p) + [Conflict(d.name, w.value.requestor, d.requestor)]
      else Conflicts(p)
  }

  /** `t` is the worklist of a run that has processed its first `n` demands:
      it holds the seeds and, in order, the dependencies of every module frozen
      so far, and no demand was processed before it had been appended. */
  ghost predicate IsTrace(deps: Dict<string>, catalog: Catalog, t: seq<Demand>, n: nat) {
    && n <= |t|
    && t == Requests(deps, RootRequestor) + Expansion(FirstOccurrences(t[..n]), catalog)
    && InOrder(deps, catalog, t, n)
  }

  /** Each of the first `n` demands of `t` was already in the worklist when its
      turn came: it lies within the seeds and the dependencies of the modules
      frozen before it. */
  ghost predicate InOrder(deps: Dict<string>, catalog: Catalog, t: seq<Demand>, n: nat)
    requires n <= |t|
  {
    n == 0 || (InOrder(deps, catalog, t, n - 1) && n - 1 < |deps| + |Expansion(FirstOccurrences(t[..n - 1]), catalog)|)
  }

  lemma {:induction false} InOrderPrefix(deps: Dict<string>, catalog: Catalog, t: seq<Demand>, t': seq<Demand>, n: nat)
    requires n <= |t| && n <= |t'| && t[..n] == t'[..n]
    requires InOrder(deps, catalog, t, n)
    ensures InOrder(deps, catalog, t', n)
  {
    if n > 0 {
      assert t[..n - 1] == t[..n][..n - 1] == t'[..n][..n - 1] == t'[..n - 1];
      InOrderPrefix(deps, catalog, t, t', n - 1);
    }
  }

  /** What holds after the first `i` demands of `queue` were processed: the
      frozen map, its order, the warnings and the worklist all agree with the
      specification functions. */
  ghost predicate Invariant(deps: Dict<string>, catalog: Catalog, queue: seq<Demand>, i: nat,
                            resolved: map<string, Demand>, order: seq<Demand>, warnings: seq<Conflict>,
                            frozenKeys: set<(string, string)>)
  {
    && i <= |queue|
    && FrozenInvariant(catalog, queue, i, resolved, order, frozenKeys)
    && TraceInvariant(deps, catalog, queue, i, order, warnings)
  }

  /** The frozen map agrees with the earliest demands processed so far. */
  ghost predicate FrozenInvariant(catalog: Catalog, queue: seq<Demand>, i: nat,
                                  resolved: map<string, Demand>, order: seq<Demand>,
                                  frozenKeys: set<(string, string)>)
    requires i <= |queue|
  {
    && frozenKeys <= catalog.Keys
    && (forall key :: key in frozenKeys ==> key.0 in resolved)
    && (forall m :: FirstOf(queue[..i], m) == if m in resolved then Some(resolved[m]) else None)
    && (forall e :: e in order ==> (e.name, e.version) in catalog)
  }

  /** The order, the warnings and the worklist are the specification functions
      of the processed prefix. */
  ghost predicate TraceInvariant(deps: Dict<string>, catalog: Catalog, queue: seq<Demand>, i: nat,
                                 order: seq<Demand>, warnings: seq<Conflict>)
    requires i <= |queue|
  {
    && order == FirstOccurrences(queue[..i])
    && warnings == Conflicts(queue[..i])
    && queue == Requests(deps, RootRequestor) + Expansion(order, catalog)
    && InOrder(deps, catalog, queue, i)
  }

  /** resolve_conflicts. The result lists, in first-resolution order, the first
      demand for every module in the worklist; `warnings` are the printed conflicts.
      The ghost outputs are the final worklist and how much of it was processed.
      A formula missing from the catalog fails the run at the first demand for
      that module; a conflicting demand never does. */
  method ResolveConflicts(dependencies: Dict<string>, catalog: Catalog)
    returns (r: Result<seq<Demand>, Error>, warnings: seq<Conflict>, ghost todo: seq<Demand>, ghost done: nat)
    ensures IsTrace(dependencies, catalog, todo, done)
    ensures forall e :: e in FirstOccurrences(todo[..done]) ==> (e.name, e.version) in catalog
    ensures warnings == Conflicts(todo[..done])
    ensures r.Success? ==> done == |todo| && r.value == FirstOccurrences(todo)
    ensures r.Failure? ==>
      && done < |todo|
      && FirstOf(todo[..done], todo[done].name).None?
      && (todo[done].name, todo[done].version) !in catalog
      && r.error == MissingFormula(todo[done].name, todo[done].version)
  {
    var queue := Requests(dependencies, RootRequestor);
    var resolved: map<string, Demand> := map[];
    var order: seq<Demand> := [];
    warnings := [];
    var i := 0;
    ghost var frozenKeys: set<(string, string)> := {};
    while i < |queue|
      invariant Invariant(dependencies, catalog, queue, i, resolved, order, warnings, frozenKeys)
      decreases |catalog.Keys - frozenKeys|, |queue| - i
    {
      var d := queue[i];
      if d.name in resolved {
        var w := resolved[d.name];
        KnownStep(dependencies, catalog, queue, i, resolved, order, warnings, frozenKeys);
        if d.version != w.version {
          warnings := warnings + [Conflict(d.name, w.requestor, d.requestor)];
        }
        i := i + 1;
      } else {
        var key := (d.name, d.version);
        if key !in catalog {
          r := Failure(MissingFormula(d.name, d.version));
          todo, done := queue, i;
          return;
        }
        var children := Requests(DeclaredDependencies(catalog[key]), d.name);
        FreshFrozen(catalog, queue, children, i, resolved, order, frozenKeys);
        FreshTrace(dependencies, catalog, queue, i, resolved, order, warnings, frozenKeys);
        resolved := resolved[d.name := d];
        order := order + [d];
        queue := queue + children;
        frozenKeys := frozenKeys + {key};
        i := i + 1;
      }
    }
    assert queue[..i] == queue;
    r := Success(order);
    todo, done := queue, i;
  }

  lemma KnownStep(deps: Dict<string>, catalog: Catalog, queue: seq<Demand>, i: nat,
                  resolved: map<string, Demand>, order: seq<Demand>, warnings: seq<Conflict>,
                  frozenKeys: set<(string, string)>)
    requires Invariant(deps, catalog, queue, i, resolved, order, warnings, frozenKeys)
    requires i < |queue| && queue[i].name in resolved
    ensures
      var d := queue[i];
      var w := resolved[d.name];
      Invariant(deps, catalog, queue, i + 1, resolved, order,
                if d.version != w.version then warnings + [Conflict(d.name, w.requestor, d.requestor)] else warnings,
                frozenKeys)
  {
    var pre := queue[..i];
    var d := queue[i];
    TakeOneMore(queue, i);
    forall m ensures FirstOf(pre + [d], m) == if FirstOf(pre, m).Some? then FirstOf(pre, m) else if d.name == m then Some(d) else None {
      FirstOfSnoc(pre, d, m);
    }
    FirstOccurrencesSnoc(pre, d);
    ConflictsSnoc(pre, d);
    assert |Requests(deps, RootRequestor)| == |deps|;
  }

  lemma FreshFrozen(catalog: Catalog, queue: seq<Demand>, extra: seq<Demand>, i: nat,
                    resolved: map<string, Demand>, order: seq<Demand>, frozenKeys: set<(string, string)>)
    requires i < |queue|
    requires FrozenInvariant(catalog, queue, i, resolved, order, frozenKeys)
    requires queue[i].name !in resolved && (queue[i].name, queue[i].version) in catalog
    ensures
      var d := queue[i];
      var key := (d.name, d.version);
      && key !in frozenKeys
      && |catalog.Keys - (frozenKeys + {key})| < |catalog.Keys - frozenKeys|
      && FrozenInvariant(catalog, queue + extra, i + 1, resolved[d.name := d], order + [d], frozenKeys + {key})
  {
    var d := queue[i];
    var key := (d.name, d.version);
    FreshPrefix(queue, extra, i);
    FreshFirstOf(queue[..i], d, resolved);
    FreshKeyShrinks(catalog.Keys, frozenKeys, key);
    FreshOrder(catalog, order, d);
  }

  /** Freezing a key not yet frozen shrinks what is left to freeze. */
  lemma FreshKeyShrinks(keys: set<(string, string)>, frozen: set<(string, string)>, key: (string, string))
    requires key in keys && key !in frozen
    ensures |keys - (frozen + {key})| < |keys - frozen|
  {
    assert keys - (frozen + {key}) == (keys - frozen) - {key};
  }

  lemma FreshOrder(catalog: Catalog, order: seq<Demand>, d: Demand)
    requires forall e :: e in order ==> (e.name, e.version) in catalog
    requires (d.name, d.version) in catalog
    ensures forall e :: e in order + [d] ==> (e.name, e.version) in catalog
  {
  }

  lemma FreshTrace(deps: Dict<string>, catalog: Catalog, queue: seq<Demand>, i: nat,
                   resolved: map<string, Demand>, order: seq<Demand>, warnings: seq<Conflict>,
                   frozenKeys: set<(string, string)>)
    requires Invariant(deps, catalog, queue, i, resolved, order, warnings, frozenKeys)
    requires i < |queue| && queue[i].name !in resolved
    ensures
      var d := queue[i];
      TraceInvariant(deps, catalog, queue + Children(d, catalog), i + 1, order + [d], warnings)
  {
    var d := queue[i];
    var queue' := queue + Children(d, catalog);
    FreshPrefix(queue, Children(d, catalog), i);
    FreshOccurrences(queue[..i], d, order);
    ConflictsSnoc(queue[..i], d);
    FreshQueue(deps, catalog, queue, order, d);
    FreshInOrder(deps, catalog, queue, queue', i, order);
  }

  lemma FreshPrefix(queue: seq<Demand>, extra: seq<Demand>, i: nat)
    requires i < |queue|
    ensures (queue + extra)[..i] == queue[..i]
    ensures (queue + extra)[..i + 1] == queue[..i] + [queue[i]]
  {
    assert (queue + extra)[..i + 1] == queue[..i + 1];
  }

  lemma FreshFirstOf(pre: seq<Demand>, d: Demand, resolved: map<string, Demand>)
    requires forall m :: FirstOf(pre, m) == if m in resolved then Some(resolved[m]) else None
    requires d.name !in resolved
    ensures forall m :: FirstOf(pre + [d], m) == if m in resolved[d.name := d] then Some(resolved[d.name := d][m]) else None
  {
    forall m ensures FirstOf(pre + [d], m) == if m in resolved[d.name := d] then Some(resolved[d.name := d][m]) else None {
      FirstOfSnoc(pre, d, m);
    }
  }

  lemma FreshOccurrences(pre: seq<Demand>, d: Demand, order: seq<Demand>)
    requires order == FirstOccurrences(pre) && FirstOf(pre, d.name).None?
    ensures order + [d] == FirstOccurrences(pre + [d])
  {
    FirstOccurrencesSnoc(pre, d);
  }

  lemma FreshQueue(deps: Dict<string>, catalog: Catalog, queue: seq<Demand>, order: seq<Demand>, d: Demand)
    requires queue == Requests(deps, RootRequestor) + Expansion(order, catalog)
    ensures queue + Children(d, catalog) == Requests(deps, RootRequestor) + Expansion(order + [d], catalog)
  {
    ExpansionSnoc(order, d, catalog);
  }

  lemma FreshInOrder(deps: Dict<string>, catalog: Catalog, queue: seq<Demand>, queue': seq<Demand>, i: nat, order: seq<Demand>)
    requires i < |queue| <= |queue'| && queue'[..i] == queue[..i]
    requires InOrder(deps, catalog, queue, i)
    requires order == FirstOccurrences(queue[..i])
    requires queue == Requests(deps, RootRequestor) + Expansion(order, catalog)
    ensures InOrder(deps, catalog, queue', i + 1)
  {
    assert |Requests(deps, RootRequestor)| == |deps|;
    InOrderPrefix(deps, catalog, queue, queue', i);
  }

  lemma TakeOneMore<T>(s: seq<T>, i: nat)
    requires i < |s|
    ensures s[..i + 1] == s[..i] + [s[i]]
  {
  }

  lemma FirstOfSnoc(p: seq<Demand>, d: Demand, m: string)
    ensures FirstOf(p + [d], m) == if FirstOf(p, m).Some? then FirstOf(p, m) else if d.name == m then Some(d) else None
  {
    assert (p + [d])[..|p|] == p;
  }

  lemma FirstOccurrencesSnoc(p: seq<Demand>, d: Demand)
    ensures FirstOccurrences(p + [d]) == if FirstOf(p, d.name).Some? then FirstOccurrences(p) else FirstOccurrences(p) + [d]
  {
    assert (p + [d])[..|p|] == p;
  }

  lemma ConflictsSnoc(p: seq<Demand>, d: Demand)
    ensures Conflicts(p + [d]) ==
      var w := FirstOf(p, d.name);
      if w.Some? && w.value.version != d.version
      then Conflicts(p) + [Conflict(d.name, w.value.requestor, d.requestor)]
      else Conflicts(p)
  {
    assert (p + [d])[..|p|] == p;
  }

  lemma ExpansionSnoc(f: seq<Demand>, e: Demand, catalog: Catalog)
    ensures Expansion(f + [e], catalog) == Expansion(f, catalog) + Children(e, catalog)
  {
    assert (f + [e])[..|f|] == f;
  }

  /** FirstOf is the earliest demand naming the module. */
  lemma {:induction false} FirstOfIsEarliest(s: seq<Demand>, m: string)
    ensures FirstOf(s, m).None? <==> forall k :: 0 <= k < |s| ==> s[k].name != m
    ensures FirstOf(s, m).Some? ==>
      exists k :: 0 <= k < |s| && s[k] == FirstOf(s, m).value && s[k].name == m &&
                  forall j :: 0 <= j < k ==> s[j].name != m
    decreases |s|
  {
    if s != [] {
      var p := s[..|s| - 1];
      FirstOfIsEarliest(p, m);
      assert forall j :: 0 <= j < |p| ==> s[j] == p[j];
      if FirstOf(p, m).Some? {
        var k :| 0 <= k < |p| && p[k] == FirstOf(p, m).value && p[k].name == m &&
                 forall j :: 0 <= j < k ==> p[j].name != m;
        assert s[k] == p[k];
      }
    }
  }

  /** Looking up a module in a concatenation looks in the first part first. */
  lemma {:induction false} FirstOfAppend(a: seq<Demand>, b: seq<Demand>, m: string)
    ensures FirstOf(a + b, m) == if FirstOf(a, m).Some? then FirstOf(a, m) else FirstOf(b, m)
    decreases |b|
  {
    if b == [] {
      assert a + b == a;
    } else {
      var b' := b[..|b| - 1];
      FirstOfAppend(a, b', m);
      assert (a + b)[..|a + b| - 1] == a + b';
    }
  }

  /** The first demand for module `m` among a dependency map's requests is the
      dict's own value for `m`. */
  lemma {:induction false} FirstOfRequests(deps: Dict<string>, requestor: string, m: string)
    ensures FirstOf(Requests(deps, requestor), m) ==
      if m in Keys(deps) then Some(Demand(m, Get(deps, m).value, requestor)) else None
    decreases |deps|
  {
    if deps != [] {
      var x := Demand(deps[0].0, deps[0].1, requestor);
      assert Requests(deps, requestor) == [x] + Requests(deps[1..], requestor);
      assert Keys(deps) == [deps[0].0] + Keys(deps[1..]);
      FirstOfAppend([x], Requests(deps[1..], requestor), m);
      assert [x][..0] == [];
      FirstOfRequests(deps[1..], requestor, m);
    }
  }

  /** FirstOccurrences holds exactly the earliest demand of each module, and
      names no module twice: it is the OrderedDict `recursive_deps`. */
  lemma {:induction false} FirstOccurrencesSpec(s: seq<Demand>)
    ensures forall e :: e in FirstOccurrences(s) <==> FirstOf(s, e.name) == Some(e)
    ensures forall a, b :: 0 <= a < b < |FirstOccurrences(s)| ==>
      FirstOccurrences(s)[a].name != FirstOccurrences(s)[b].name
    decreases |s|
  {
    if s != [] {
      var p := s[..|s| - 1];
      var d := s[|s| - 1];
      assert s == p + [d];
      FirstOccurrencesSpec(p);
      FirstOccurrencesSnoc(p, d);
      forall m ensures FirstOf(s, m) == if FirstOf(p, m).Some? then FirstOf(p, m) else if d.name == m then Some(d) else None {
        FirstOfSnoc(p, d, m);
      }
      var f := FirstOccurrences(p);
      if FirstOf(p, d.name).None? {
        forall a, b | 0 <= a < b < |f + [d]| ensures (f + [d])[a].name != (f + [d])[b].name {
          if b == |f| {
            assert f[a] in f;
          }
        }
      }
    }
  }

  /** Every module demanded in `s` has its entry in FirstOccurrences(s). */
  lemma FirstOccurrencesCover(s: seq<Demand>, k: nat)
    requires k < |s|
    ensures exists e :: e in FirstOccurrences(s) && e.name == s[k].name
  {
    FirstOfIsEarliest(s, s[k].name);
    FirstOccurrencesSpec(s);
    assert FirstOf(s, s[k].name).value in FirstOccurrences(s);
  }

  /** The demand at `k` draws the warning `c`: its module was frozen at another version. */
  ghost predicate ConflictAt(s: seq<Demand>, k: int, c: Conflict) {
    && 0 <= k < |s|
    && var w := FirstOf(s[..k], s[k].name);
    && w.Some? && w.value.version != s[k].version
    && c == Conflict(s[k].name, w.value.requestor, s[k].requestor)
  }

  /** A warning is printed exactly for each demand that disagrees with the
      version its module was frozen at, naming the first requester and this one. */
  lemma {:induction false} ConflictsSpec(s: seq<Demand>)
    ensures forall c :: c in Conflicts(s) <==> exists k :: ConflictAt(s, k, c)
    decreases |s|
  {
    if s != [] {
      var p := s[..|s| - 1];
      var d := s[|s| - 1];
      ConflictsSpec(p);
      assert s[..|p|] == p;
      forall k, c | 0 <= k < |p| ensures ConflictAt(s, k, c) <==> ConflictAt(p, k, c) {
        assert s[..k] == p[..k];
        assert s[k] == p[k];
      }
      forall c ensures c in Conflicts(s) <==> exists k :: ConflictAt(s, k, c) {
        if c in Conflicts(s) {
          if c in Conflicts(p) {
            var k :| ConflictAt(p, k, c);
            assert ConflictAt(s, k, c);
          } else {
            assert ConflictAt(s, |p|, c);
          }
        }
        if exists k :: ConflictAt(s, k, c) {
          var k :| ConflictAt(s, k, c);
          if k < |p| {
            assert ConflictAt(p, k, c);
          }
        }
      }
    }
  }

  /** The modules pinned in bru.json win: a resolved run freezes each of them at
      the project's own version, with 'bru.json' as requester. */
  lemma RootPinsWin(deps: Dict<string>, catalog: Catalog, t: seq<Demand>, m: string)
    requires IsTrace(deps, catalog, t, |t|)
    requires m in Keys(deps)
    ensures Demand(m, Get(deps, m).value, RootRequestor) in FirstOccurrences(t)
  {
    CompletedTrace(deps, catalog, t);
    FirstOfAppend(Requests(deps, RootRequestor), Expansion(FirstOccurrences(t), catalog), m);
    FirstOfRequests(deps, RootRequestor, m);
    FirstOccurrencesSpec(t);
  }

  /** Freezing an entry puts all its declared dependencies in the worklist. */
  lemma {:induction false} ExpansionContains(f: seq<Demand>, catalog: Catalog, j: nat, x: Demand)
    requires j < |f| && x in Children(f[j], catalog)
    ensures x in Expansion(f, catalog)
    decreases |f|
  {
    var p := f[..|f| - 1];
    if j < |p| {
      assert p[j] == f[j];
      ExpansionContains(p, catalog, j, x);
    }
  }

  /** A completed resolution is closed: every module a resolved formula depends
      on is itself resolved (possibly at another version). */
  lemma ResolutionClosed(deps: Dict<string>, catalog: Catalog, t: seq<Demand>, j: nat, x: Demand)
    requires IsTrace(deps, catalog, t, |t|)
    requires j < |FirstOccurrences(t)| && x in Children(FirstOccurrences(t)[j], catalog)
    ensures exists e :: e in FirstOccurrences(t) && e.name == x.name
  {
    CompletedTrace(deps, catalog, t);
    var f := FirstOccurrences(t);
    ExpansionContains(f, catalog, j, x);
    assert x in Requests(deps, RootRequestor) + Expansion(f, catalog);
    var k :| 0 <= k < |t| && t[k] == x;
    FirstOccurrencesCover(t, k);
  }

  /** A completed trace is the seeds followed by the expansion of what it froze. */
  lemma CompletedTrace(deps: Dict<string>, catalog: Catalog, t: seq<Demand>)
    requires IsTrace(deps, catalog, t, |t|)
    ensures t == Requests(deps, RootRequestor) + Expansion(FirstOccurrences(t), catalog)
  {
    assert t[..|t|] == t;
  }
}
