/** The documents bru.py reads and writes, as typed records. JSON files become
    ordered dictionaries of `Value`s; a gyp target keeps the properties bru.py
    reads or rewrites. Parsing and printing of the files is not modelled. */
module Manifests {
  import opened Wrappers
  import opened Dicts
  import opened Errors

  /** A target's bru-specific 'test' property: 'cwd', 'args' and 'stdin', each optional. */
  datatype TestSpec = TestSpec(cwd: Option<string>, args: Option<seq<string>>, stdin: Option<string>)

  /** A gyp target: 'target_name', 'dependencies', 'sources', 'sources!' and 'test',
      and in `extra`, in their order, the properties bru.py never reads (such as
      'type', 'include_dirs' or 'conditions'), each kept as its JSON text. */
  datatype Target = Target(
    name: Option<string>,
    dependencies: Option<seq<string>>,
    sources: Option<seq<string>>,
    excludedSources: Option<seq<string>>,
    test: Option<TestSpec>,
    extra: Dict<string>)

  /** The target `{}`. */
  const EmptyTarget := Target(None, None, None, None, None, [])

  /** A value stored under a top-level key of a .gyp, .bru or side-car file. */
  datatype Value =
    | Text(text: string)                          // a string, e.g. the side-car's 'version'
    | Texts(items: seq<string>)                   // a list of strings, e.g. 'includes'
    | Targets(targets: seq<Target>)               // a gyp file's 'targets'
    | Versions(versions: Dict<Option<string>>)    // a .bru file's 'dependencies' (null for None)
    | Other(json: string)                         // any value bru.py never reads, e.g. 'variables', as its JSON text

  /** A JSON document: its top-level keys in order. */
  type Document = Dict<Value>

  /** `doc['targets']`. */
  function TargetsOf(doc: Document): Result<seq<Target>, Error> {
    match Get(doc, "targets")
    case None => Failure(MissingKey("targets"))
    case Some(v) => if v.Targets? then Success(v.targets) else Failure(Malformed("targets"))
  }

  /** A source locator together with urllib.parse.urlparse's scheme and netloc of it. */
  datatype Locator = Locator(url: string, scheme: string, netloc: string)

  /** A formula's 'url': a single string or a list. */
  datatype Urls = OneUrl(url: Locator) | UrlList(urls: seq<Locator>)

  /** A catalog formula: 'module', 'version', 'url', 'dependencies' (module to
      version) and 'make_command' (host platform to shell command), each optional. */
  datatype Formula = Formula(
    name: Option<string>,
    version: Option<string>,
    url: Option<Urls>,
    dependencies: Option<Dict<string>>,
    makeCommand: Option<Dict<string>>)

  /** The library's formulas, keyed by (module, version). */
  type Catalog = map<(string, string), Formula>

  /** os.path.join of two components, as posixpath does it. */
  function Join(a: string, b: string): string {
    if |b| > 0 && b[0] == '/' then b
    else if a == [] || a[|a| - 1] == '/' then a + b
    else a + "/" + b
  }
}
