/** The exceptions bru.py raises, one constructor per raise site (or per failing
    lookup that raises KeyError, IndexError or AssertionError). */
module Errors {

  datatype Error =
    /** The catalog has no formula for this module at this version. */
    | MissingFormula(name: string, version: string)
    /** unpack_module: the formula lacks 'module' or 'version'. */
    | MissingModuleOrVersion
    /** A dictionary lookup `d[key]` on an absent key (KeyError). */
    | MissingKey(key: string)
    /** A value of the wrong shape under `key` (the load boundary is not modelled). */
    | Malformed(key: string)
    /** unpack_dependency: the assertion that a `file:` locator names a path. */
    | EmptyFilePath(url: string)
    /** unpack_dependency: 'unsupported scheme in' the locator. */
    | UnsupportedScheme(url: string)
    /** get_dependency: 'no key {} in make_command' for the host platform. */
    | UnsupportedPlatform(system: string)
    /** get_dependency: 'build failed with error code {}'. */
    | BuildFailed(code: int)
    /** get_dependency as written: the name `touch` is not defined (NameError). */
    | UndefinedTouch
    /** map_dependency: the upstream module of a cross-module reference is not resolved. */
    | UnresolvedReference(upstream: string, requester: string, version: string, target: string)
    /** compute_sources: 'Ant-style glob exprs no longer supported'. */
    | AntGlob(source: string)
    /** compute_sources: 'no matches for glob'. */
    | EmptyGlob(source: string)
    /** copy_gyp: the assertion that the module itself is resolved. */
    | ModuleNotResolved(name: string)
    /** get_single_bru_file: 'there are multiple *.bru files'. */
    | MultipleBruFiles(dir: string, matches: seq<string>)
    /** parse_module_at_version: 'expected module@version'. */
    | BadInstallable(text: string)
    /** add_dependencies_to_gyp as written: `targets[0] = {}` on an empty list (IndexError). */
    | IndexOutOfRange
    /** A module manifest that cannot be loaded because the file is absent. */
    | MissingManifest(path: string)
    /** cmd_make, the external build step, raised. */
    | MakeFailed
    /** cmd_test: '{} tests failed and {} tests failed building'. */
    | TestsFailed(failed: nat, missing: nat)
}
