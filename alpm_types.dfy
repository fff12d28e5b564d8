/** The vocabulary shared by the libalpm wrapper: packages, transaction flags, signature
    levels, the parsed pacman configuration, and the log of everything the wrapper asks of
    the engine or tells its observers. */
module AlpmTypes {
  import opened Wrappers
  import opened Text

  /** A package as the engine hands it out (an opaque pointer in the wrapper, identified here
      by the fields the wrapper reads from it). */
  datatype Package = Package(
    name: string,
    version: string,
    repository: string,
    description: string,
    replaced: seq<string>)

  /** The named bits of `AlpmTransFlag` that the wrapper uses; any other bit is `OtherFlag`.
      A flag word is the set of its bits, so `None` is `{}` and `|` is set union. */
  datatype TransFlag =
    | NoDeps | NoExtract | NoPkgSig | NoCheckSpace | DbOnly | NoScriptlet | NoHooks
    | OtherFlag(bit: nat)

  type TransFlags = set<TransFlag>

  /** The bits a database-only operation implies: no dependency checks, no extraction and no
      signature or disk-space checks, since no package file is needed. */
  const DbOnlyImplied: TransFlags := {NoDeps, NoExtract, NoPkgSig, NoCheckSpace}

  /** Default flags of `InstallPackage`, `UpdateSinglePackage` and `UpdateAll`. */
  const NoScriptletNoHooks: TransFlags := {NoScriptlet, NoHooks}

  /** `flags |= NoDeps | NoExtract | NoPkgSig | NoCheckSpace` when `DbOnly` is set. */
  function NormalizeFlags(flags: TransFlags): (r: TransFlags)
    ensures flags <= r
    ensures DbOnly in flags ==> r == flags + DbOnlyImplied
    ensures DbOnly !in flags ==> r == flags
  {
    if DbOnly in flags then flags + DbOnlyImplied else flags
  }

  /** Normalising twice is normalising once, and only the four implied bits are ever added. */
  lemma NormalizeFlagsIdempotent(flags: TransFlags)
    ensures NormalizeFlags(NormalizeFlags(flags)) == NormalizeFlags(flags)
    ensures NormalizeFlags(flags) - flags <= DbOnlyImplied
    ensures DbOnly in NormalizeFlags(flags) <==> DbOnly in flags
  {
  }

  /** The named bits of `AlpmSigLevel`; a level is the set of its bits, so `None` is `{}`. */
  datatype SigFlag = PackageOptional | DatabaseOptional | UseDefault | OtherSig(bit: nat)

  type SigLevel = set<SigFlag>

  const SigNone: SigLevel := {}
  const SigUseDefault: SigLevel := {UseDefault}

  /** The level `InstallLocalPackage` loads a package file with. */
  const LocalPackageSigLevel: SigLevel := {PackageOptional, DatabaseOptional}

  /** A `[repo]` section of pacman.conf. */
  datatype Repo = Repo(name: string, sigLevel: SigLevel, servers: seq<string>)

  /** What parsing pacman.conf yields (the parser itself is not part of this model). */
  datatype PacmanConf = PacmanConf(
    rootDirectory: string,
    dbPath: string,
    cacheDir: Option<string>,
    gpgDir: Option<string>,
    architecture: string,
    sigLevel: SigLevel,
    localFileSigLevel: SigLevel,
    remoteFileSigLevel: SigLevel,
    repos: seq<Repo>)

  /** `RuntimeInformation.ProcessArchitecture`, as far as the wrapper distinguishes it. */
  datatype Arch = X64 | Arm64 | OtherArch

  /** A sync database registered with the engine. */
  datatype SyncDb = SyncDb(name: string, sigLevel: SigLevel)

  /** The engine's transaction: its flags and its add and remove lists. */
  datatype Transaction = Transaction(flags: TransFlags, add: seq<Package>, remove: seq<Package>)

  /** The callbacks the wrapper installs on a fresh handle. */
  datatype Callback = FetchCallback | EventCallback | QuestionCallback | ProgressCallback

  /** Who a progress report is about: a file the wrapper downloads itself, or a code the engine
      passes to the progress callback. */
  datatype ProgressKind = PackageDownload | EngineProgress(code: int)

  /** An `AlpmProgressEventArgs`. */
  datatype ProgressReport = ProgressReport(
    kind: ProgressKind,
    packageName: Option<string>,
    percent: int,
    howMany: int,
    current: int)

  /** One entry of the wrapper's log: a call into the engine, in the order made, or a
      notification raised to the wrapper's observers. */
  datatype Act =
    // handle lifecycle and configuration
    | OpenHandle(root: string, dbPath: string)
    | ReleaseHandle
    | SetGpgDir(dir: string)
    | SetDefaultSigLevel(level: SigLevel)
    | SetLocalFileSigLevel(level: SigLevel)
    | SetRemoteFileSigLevel(level: SigLevel)
    | AddCacheDir(dir: string)
    | AddArchitecture(arch: string)
    | SetCallback(callback: Callback)
    | RegisterSyncDb(db: string, level: SigLevel)
    | AddServer(db: string, url: string)
    // databases and transactions
    | DbUpdate(force: bool)
    | TransInit(flags: TransFlags)
    | AddPkg(pkg: Package)
    | AddNullPkg
    | RemovePkg(pkg: Package)
    | SyncSysupgrade
    | TransPrepare
    | TransCommit
    | TransRelease
    | PkgLoad(path: string, level: SigLevel)
    | PkgFree(pkg: Package)
    // notifications to observers
    | ReplacesNotice(pkgName: string, repository: string, replaced: seq<string>)
    | OperationNotice(eventCode: int, packageName: Option<string>)
    | QuestionNotice(questionCode: int, text: string)
    | ProgressNotice(report: ProgressReport)

  /** What the engine answers; every native call not listed in `failing` succeeds.
      `local` is the installed-package database, `syncContents` the package cache of each
      sync database by name, `invalid` the databases whose signature check fails,
      `newVersion` what `SyncGetNewVersion` finds for an installed package, `upgrades` what a
      system upgrade adds, and `packageFiles` the package files `PkgLoad` can read. */
  datatype Native = Native(
    openError: int,
    failing: set<Act>,
    local: seq<Package>,
    syncContents: map<string, seq<Package>>,
    invalid: set<string>,
    newVersion: map<Package, Package>,
    upgrades: seq<Package>,
    packageFiles: map<string, Package>)

  /** The package cache of the sync database named `db`. */
  function Contents(native: Native, db: string): seq<Package> {
    if db in native.syncContents then native.syncContents[db] else []
  }

  /** `DbGetPkg`: the package of that name in a package cache, if any. */
  function Lookup(pkgs: seq<Package>, name: string): (r: Option<Package>)
    ensures r.Some? ==> r.value in pkgs && r.value.name == name
    ensures r.None? <==> forall p :: p in pkgs ==> p.name != name
  {
    if pkgs == [] then None
    else if pkgs[0].name == name then Some(pkgs[0])
    else Lookup(pkgs[1..], name)
  }

  /** How often `a` occurs in a log. */
  function Count(log: seq<Act>, a: Act): (n: nat)
    ensures n <= |log|
    ensures n == 0 <==> a !in log
  {
    if log == [] then 0 else Count(log[..|log| - 1], a) + (if log[|log| - 1] == a then 1 else 0)
  }

  lemma {:induction false} CountAppend(x: seq<Act>, y: seq<Act>, a: Act)
    ensures Count(x + y, a) == Count(x, a) + Count(y, a)
    decreases |y|
  {
    if y == [] {
      assert x + y == x;
    } else {
      assert (x + y)[..|x + y| - 1] == x + y[..|y| - 1];
      CountAppend(x, y[..|y| - 1], a);
    }
  }

  /** Regrouping a sequence made in three parts. */
  lemma AppendAssoc<T>(a: seq<T>, b: seq<T>, c: seq<T>)
    ensures a + b + c == a + (b + c)
  {
  }

  /** The first `i + 1` elements are the first `i` and then the `i`-th. */
  lemma TakeSnoc<T>(s: seq<T>, i: nat)
    requires i < |s|
    ensures s[..i + 1] == s[..i] + [s[i]]
  {
  }

  lemma AppendAssoc4<T>(a: seq<T>, b: seq<T>, c: seq<T>, d: seq<T>)
    ensures a + b + c + d == a + (b + c + d)
  {
  }
}
