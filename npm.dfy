/**
  The npm side of an audit: the project's package.json and
  package-lock.json, the request body sent to the registry's quick-audit
  endpoint, and the advisories that come back.
 */
module Npm {
  import opened Wrappers

  /** A dependency map: package name to version range. */
  type Deps = map<string, string>

  datatype PackageJson = PackageJson(
    name: string,
    version: string,
    devDependencies: Option<Deps>,
    peerDependencies: Option<Deps>,
    optionalDependencies: Option<Deps>,
    dependencies: Option<Deps>)

  /** The lockfile's `dependencies` tree, passed on untouched (as its JSON text). */
  datatype PackageLock = PackageLock(dependencies: string)

  /** What looking for and parsing a project file gave. */
  datatype FileState<T> = Missing | Malformed | Parsed(contents: T)

  /** `process.version` and `process.env.npm_version`. */
  datatype Env = Env(nodeVersion: string, npmVersion: Option<string>)

  /** The request body; `requirements` is its `requires` field. */
  datatype Request = Request(
    name: string,
    version: string,
    requirements: Deps,
    dependencies: string,
    nodeVersion: string,
    npmVersion: Option<string>)

  datatype Finding = Finding(version: string, paths: Option<seq<string>>)

  /** The advisory's `cvss` object; its score is shown as given. */
  datatype Cvss = Cvss(score: string)

  datatype Advisory = Advisory(
    moduleName: string,
    severity: string,
    cves: Option<seq<string>>,
    cvss: Option<Cvss>,
    findings: Option<seq<Finding>>)

  /**
    The parsed reply: whether it carries a (truthy) `error`, and its
    `advisories` object's values in `Object.entries` order.
   */
  datatype Response = Response(error: bool, advisories: Option<seq<Advisory>>)

  /**
    The registry's quick-audit endpoint: the parsed reply to a posted
    request, or None when the request or the parsing of its reply throws.
   */
  type Server = Request -> Option<Response>

  /** `m || {}` */
  function OrEmpty(m: Option<Deps>): Deps
  {
    match m
    case None => map[]
    case Some(d) => d
  }

  function Lookup(m: Deps, k: string): Option<string>
  {
    if k in m then Some(m[k]) else None
  }

  /** The version of `k` in the last map of `ms` that has it. */
  function Latest(ms: seq<Deps>, k: string): Option<string>
  {
    if ms == [] then None
    else if k in ms[|ms| - 1] then Some(ms[|ms| - 1][k])
    else Latest(ms[..|ms| - 1], k)
  }

  /**
    The `requires` object: the four dependency maps spread in the order
    devDependencies, peerDependencies, optionalDependencies, dependencies,
    so a package in several takes its version from the last of them, and an
    absent map contributes nothing.
   */
  function MergeRequires(pkg: PackageJson): (r: Deps)
    ensures forall k :: Lookup(r, k) == Latest([OrEmpty(pkg.devDependencies), OrEmpty(pkg.peerDependencies),
                                                OrEmpty(pkg.optionalDependencies), OrEmpty(pkg.dependencies)], k)
  {
    var dev, peer, optional, deps :=
      OrEmpty(pkg.devDependencies), OrEmpty(pkg.peerDependencies),
      OrEmpty(pkg.optionalDependencies), OrEmpty(pkg.dependencies);
    var r := dev + peer + optional + deps;
    forall k
      ensures Lookup(r, k) == Latest([dev, peer, optional, deps], k)
    {
      var ms := [dev, peer, optional, deps];
      assert ms[..3] == [dev, peer, optional];
      assert ms[..3][..2] == [dev, peer];
      assert ms[..3][..2][..1] == [dev];
      assert ms[..3][..2][..1][..0] == [];
      LatestLast(ms, k);
      LatestLast(ms[..3], k);
      LatestLast(ms[..3][..2], k);
      LatestLast(ms[..3][..2][..1], k);
    }
    r
  }

  lemma LatestLast(ms: seq<Deps>, k: string)
    requires ms != []
    ensures Latest(ms, k) == if k in ms[|ms| - 1] then Some(ms[|ms| - 1][k]) else Latest(ms[..|ms| - 1], k)
  {
  }

  /** The request body the audit posts. */
  function Payload(pkg: PackageJson, lock: PackageLock, env: Env): Request
  {
    Request(pkg.name, pkg.version, MergeRequires(pkg), lock.dependencies, env.nodeVersion, env.npmVersion)
  }
}
