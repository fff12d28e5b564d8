/** `AlpmManager`, the wrapper around one libalpm handle, as one class: the handle and the
    engine state behind it (its sync databases and its open transaction), the file system
    the download callback writes to, and a log of every call made into the engine and every
    notification raised to observers. The engine's answers are fixed by `native`; what the
    configuration file parses to is `conf`. Each method is proved to make exactly the calls
    the matching function of AlpmSession, AlpmTransactions or AlpmDownloads describes. */
module Alpm {
  import opened Wrappers
  import opened Text
  import opened AlpmTypes
  import opened AlpmEvents
  import opened AlpmSession
  import opened AlpmTransactions
  import opened AlpmDownloads

  /** The native `alpm_question_any_t` a question callback receives: its type, and the
      answer field the callback writes back into. */
  class QuestionSlot {
    const kind: int
    var answer: int

    constructor(kind: int)
      ensures this.kind == kind && answer == 0
    {
      this.kind := kind;
      answer := 0;
    }
  }

  class AlpmManager {
    const native: Native
    const conf: PacmanConf
    const process: Arch
    const env: Env

    /** `_handle`: 0 is `IntPtr.Zero`; `handlesOpened` counts the handles opened so far. */
    var handle: nat
    var handlesOpened: nat
    /** The sync databases registered on the handle, in registration order. */
    var dbs: seq<SyncDb>
    /** The engine's open transaction, if any. */
    var trans: Option<Transaction>
    var files: Files
    var trace: seq<Act>

    /** Between calls no transaction is open; a live handle holds exactly the databases that
        registration yields, and a zero handle none. */
    ghost predicate Valid()
      reads this
    {
      trans.None? && handle <= handlesOpened
      && (handle == 0 ==> dbs == [])
      && (handle != 0 ==> dbs == Registered(native, conf.sigLevel, conf.repos) && native.openError == 0)
    }

    /** The package caches of the databases a live handle holds. */
    ghost function LiveCaches(): seq<seq<Package>> {
      Caches(native, Registered(native, conf.sigLevel, conf.repos))
    }

    /** The calls `if (_handle == IntPtr.Zero) Initialize();` makes. */
    ghost function Startup(wasLive: bool): seq<Act> {
      if wasLive then [] else InitializeCalls(native, conf, process, false)
    }

    /** The files after that same line: `Initialize` removes the lock file if it can. */
    ghost function StartupFiles(wasLive: bool, before: Files): Files {
      if wasLive then before else Delete(env.disk, before, LockPath(conf))
    }

    /** An operation that starts with the lazy initialisation and then makes the calls of
        `run`: when the handle was zero and cannot be opened, the operation throws the open
        error after the calls of `Initialize`; otherwise it ends as `run` does, after the
        calls of the initialisation (if any) and of `run`. */
    ghost predicate Ran(wasLive: bool, before: seq<Act>, filesBefore: Files, run: Run, outcome: Outcome<Error>)
      reads this
    {
      files == StartupFiles(wasLive, filesBefore)
      && if !wasLive && native.openError != 0 then
           trace == before + Startup(wasLive) && outcome == Fail(OpenFailed(native.openError)) && handle == 0
         else
           trace == before + Startup(wasLive) + run.calls && outcome == run.outcome && handle != 0
    }

    constructor(native: Native, conf: PacmanConf, process: Arch, env: Env, files: Files)
      ensures this.native == native && this.conf == conf && this.process == process && this.env == env
      ensures this.files == files && handle == 0 && trace == [] && Valid()
    {
      this.native := native;
      this.conf := conf;
      this.process := process;
      this.env := env;
      this.files := files;
      handle := 0;
      handlesOpened := 0;
      dbs := [];
      trans := None;
      trace := [];
    }

    // -------------------------------------------------------------------------------------
    // Calls into the engine

    /** One call that acts on the transaction, made and logged; `ok` is whether the engine
        accepted it. */
    method Call(a: Act) returns (ok: bool)
      modifies this`trace, this`trans
      ensures ok == Accepts(native, old(trans), a)
      ensures trans == After(native, old(trans), a, ok)
      ensures trace == old(trace) + [a]
    {
      ok := Accepts(native, trans, a);
      trans := After(native, trans, a, ok);
      trace := trace + [a];
    }

    /** The calls `acts` in order, stopping at the first the engine refuses (the source's
        `if (... != 0) throw` after each). */
    method RunCalls(acts: seq<Act>) returns (r: Steps)
      requires forall i :: 0 <= i < |acts| ==> !acts[i].TransRelease?
      modifies this`trace, this`trans
      ensures r == RunSteps(native, old(trans), acts)
      ensures trace == old(trace) + r.calls && trans == r.trans
    {
      var i := 0;
      r := Steps([], None, trans);
      while i < |acts|
        invariant 0 <= i <= |acts|
        invariant r == RunSteps(native, old(trans), acts[..i]) && r.failed.None?
        invariant trace == old(trace) + r.calls && trans == r.trans
      {
        RunStepsNext(native, old(trans), acts, i);
        var ok := Call(acts[i]);
        if !ok {
          r := Steps(r.calls + [acts[i]], Some(acts[i]), trans);
          return;
        }
        r := Steps(r.calls + [acts[i]], None, trans);
        i := i + 1;
      }
      assert acts[..i] == acts;
    }

    /** `TransRelease`, which always ends the transaction. */
    method Release()
      modifies this`trace, this`trans
      ensures trace == old(trace) + [TransRelease] && trans.None?
    {
      trace := trace + [TransRelease];
      trans := None;
    }

    // -------------------------------------------------------------------------------------
    // Session lifecycle

    /** Releases the handle if one is live: the engine drops its databases and transaction. */
    method ReleaseLiveHandle()
      requires Valid()
      modifies this`trace, this`handle, this`dbs, this`trans
      ensures Valid() && handle == 0
      ensures trace == old(trace) + (if old(handle) != 0 then [ReleaseHandle] else [])
    {
      if handle != 0 {
        trace := trace + [ReleaseHandle];
        handle := 0;
        dbs := [];
        trans := None;
      }
    }

    /** `Initialize(root)`: release any live handle, remove a stale lock file if possible,
        open a handle (releasing it again and throwing on an open error), configure it, and
        register every repository with its servers. */
    method Initialize(root: bool) returns (outcome: Outcome<Error>)
      requires Valid()
      modifies this
      ensures Valid()
      ensures trace == old(trace) + (if old(handle) != 0 then [ReleaseHandle] else [])
                       + InitializeCalls(native, conf, process, root)
      ensures files == Delete(env.disk, old(files), LockPath(conf))
      ensures outcome.Fail? <==> native.openError != 0
      ensures outcome.Fail? ==> outcome == Fail(OpenFailed(native.openError)) && handle == 0
      ensures outcome.Pass? ==> handle != 0 && handle != old(handle)
    {
      ReleaseLiveHandle();
      files := Delete(env.disk, files, LockPath(conf));
      outcome := OpenHandle(root);
    }

    /** The part of `Initialize` after the lock file: open a handle, releasing it again and
        throwing on an open error, and otherwise configure it and register the repositories
        under a fresh handle value. */
    method OpenHandle(root: bool) returns (outcome: Outcome<Error>)
      requires Valid() && handle == 0
      modifies this`trace, this`handle, this`handlesOpened, this`dbs
      ensures Valid()
      ensures trace == old(trace) + InitializeCalls(native, conf, process, root)
      ensures outcome.Fail? <==> native.openError != 0
      ensures outcome.Fail? ==> outcome == Fail(OpenFailed(native.openError)) && handle == 0
      ensures outcome.Pass? ==> handle != 0 && handle > old(handlesOpened)
    {
      var open := AlpmTypes.OpenHandle(conf.rootDirectory, conf.dbPath);
      trace := trace + [open];
      ghost var afterOpen := trace;
      if native.openError != 0 {
        trace := trace + [ReleaseHandle];
        AppendAssoc(old(trace), [open], [ReleaseHandle]);
        return Fail(OpenFailed(native.openError));
      }
      handlesOpened := handlesOpened + 1;
      handle := handlesOpened;
      Configure(root);
      ghost var arch := ResolveArch(conf.architecture, process);
      ghost var setup := SetupCalls(conf, arch, root);
      ghost var repos := RepoCalls(native, conf.sigLevel, arch, conf.repos);
      AppendAssoc(afterOpen, setup, repos);
      AppendAssoc(old(trace), [open], setup + repos);
      outcome := Pass;
    }

    /** Configure a freshly opened handle and register the repositories. */
    method Configure(root: bool)
      requires dbs == []
      modifies this`trace, this`dbs
      ensures var arch := ResolveArch(conf.architecture, process);
        trace == old(trace) + SetupCalls(conf, arch, root) + RepoCalls(native, conf.sigLevel, arch, conf.repos)
      ensures dbs == Registered(native, conf.sigLevel, conf.repos)
    {
      var arch := ResolveArch(conf.architecture, process);
      SetLevels(root);
      SetPlatform(arch);
      RegisterRepos(arch);
    }

    /** The GnuPG directory and signature levels `Initialize` sets on a freshly opened
        handle; a failure of any of them is only logged. */
    method SetLevels(root: bool)
      modifies this`trace
      ensures trace == old(trace) + SecurityCalls(conf, root)
    {
      if !IsNullOrEmpty(conf.gpgDir) && root {
        trace := trace + [SetGpgDir(conf.gpgDir.value)];
      }
      if conf.sigLevel != SigNone {
        trace := trace + [SetDefaultSigLevel(conf.sigLevel), SetLocalFileSigLevel(conf.localFileSigLevel)];
      }
      trace := trace + [SetRemoteFileSigLevel(conf.remoteFileSigLevel)];
    }

    /** The cache directory, architectures and callbacks `Initialize` installs next. */
    method SetPlatform(arch: string)
      modifies this`trace
      ensures trace == old(trace) + PlatformCalls(conf, arch)
    {
      if !IsNullOrEmpty(conf.cacheDir) {
        trace := trace + [AddCacheDir(conf.cacheDir.value)];
      }
      if arch != [] {
        trace := trace + [AddArchitecture(arch), AddArchitecture("any")];
      }
      trace := trace + [SetCallback(FetchCallback), SetCallback(EventCallback), SetCallback(QuestionCallback),
                        SetCallback(ProgressCallback)];
    }

    /** The repository loop of `Initialize`. */
    method RegisterRepos(arch: string)
      requires dbs == []
      modifies this`trace, this`dbs
      ensures trace == old(trace) + RepoCalls(native, conf.sigLevel, arch, conf.repos)
      ensures dbs == Registered(native, conf.sigLevel, conf.repos)
    {
      var i := 0;
      while i < |conf.repos|
        invariant 0 <= i <= |conf.repos|
        invariant trace == old(trace) + RepoCalls(native, conf.sigLevel, arch, conf.repos[..i])
        invariant dbs == Registered(native, conf.sigLevel, conf.repos[..i])
      {
        RepoCallsSnoc(native, conf.sigLevel, arch, conf.repos, i);
        ghost var calls := RepoCalls(native, conf.sigLevel, arch, conf.repos[..i]);
        RegisterRepo(arch, conf.repos[i]);
        AppendAssoc(old(trace), calls, RepoActs(native, conf.sigLevel, arch, conf.repos[i]));
        i := i + 1;
      }
      assert conf.repos[..i] == conf.repos;
    }

    /** One repository: register its database with its effective level and, when the engine
        accepts it, keep it and add its servers. */
    method RegisterRepo(arch: string, repo: Repo)
      modifies this`trace, this`dbs
      ensures trace == old(trace) + RepoActs(native, conf.sigLevel, arch, repo)
      ensures dbs == old(dbs) + if Registers(native, conf.sigLevel, repo)
                                then [SyncDb(repo.name, EffectiveSigLevel(repo.sigLevel, conf.sigLevel))] else []
    {
      var level := EffectiveSigLevel(repo.sigLevel, conf.sigLevel);
      trace := trace + [RegisterSyncDb(repo.name, level)];
      if RegisterSyncDb(repo.name, level) !in native.failing {
        dbs := dbs + [SyncDb(repo.name, level)];
        AddServers(repo.name, arch, repo.servers);
        AppendAssoc(old(trace), [RegisterSyncDb(repo.name, level)], ServerCalls(repo.name, arch, repo.servers));
      } else {
        assert [RegisterSyncDb(repo.name, level)] + [] == [RegisterSyncDb(repo.name, level)];
      }
    }

    /** The server loop of `Initialize`, for a registered repository. */
    method AddServers(db: string, arch: string, servers: seq<string>)
      modifies this`trace
      ensures trace == old(trace) + ServerCalls(db, arch, servers)
    {
      var j := 0;
      while j < |servers|
        invariant 0 <= j <= |servers|
        invariant trace == old(trace) + ServerCalls(db, arch, servers[..j])
      {
        ServerCallsSnoc(db, arch, servers, j);
        ghost var calls := ServerCalls(db, arch, servers[..j]);
        AddServerOf(db, arch, servers[j]);
        AppendAssoc(old(trace), calls, ServerActs(db, arch, servers[j]));
        j := j + 1;
      }
      assert servers[..j] == servers;
    }

    /** One server of a registered repository: its architecture suffix, if any, then the
        server itself. */
    method AddServerOf(db: string, arch: string, server: string)
      modifies this`trace
      ensures trace == old(trace) + ServerActs(db, arch, server)
    {
      var suffix := ArchSuffix(server);
      if suffix.Some? {
        trace := trace + [AddArchitecture(arch + suffix.value)];
      }
      trace := trace + [AddServer(db, ResolveServer(server, db, arch))];
    }

    /** `Refresh`: release a live handle, then `Initialize()`; the same calls as
        `Initialize()` on its own. */
    method Refresh() returns (outcome: Outcome<Error>)
      requires Valid()
      modifies this
      ensures Valid()
      ensures trace == old(trace) + (if old(handle) != 0 then [ReleaseHandle] else [])
                       + InitializeCalls(native, conf, process, false)
      ensures files == Delete(env.disk, old(files), LockPath(conf))
      ensures outcome.Fail? <==> native.openError != 0
      ensures outcome.Fail? ==> outcome == Fail(OpenFailed(native.openError)) && handle == 0
      ensures outcome.Pass? ==> handle != 0
    {
      ReleaseLiveHandle();
      outcome := Initialize(false);
    }

    /** `Dispose`: nothing on a zero handle; otherwise release it and zero it. */
    method Dispose()
      requires Valid()
      modifies this`trace, this`handle, this`dbs, this`trans
      ensures Valid() && handle == 0
      ensures trace == old(trace) + (if old(handle) != 0 then [ReleaseHandle] else [])
    {
      ReleaseLiveHandle();
    }

    /** `if (_handle == IntPtr.Zero) Initialize();` */
    method EnsureInitialized() returns (outcome: Outcome<Error>)
      requires Valid()
      modifies this
      ensures Valid()
      ensures trace == old(trace) + Startup(old(handle) != 0)
      ensures files == StartupFiles(old(handle) != 0, old(files))
      ensures outcome.Fail? <==> old(handle) == 0 && native.openError != 0
      ensures outcome.Fail? ==> outcome == Fail(OpenFailed(native.openError)) && handle == 0
      ensures outcome.Pass? ==> handle != 0 && dbs == Registered(native, conf.sigLevel, conf.repos)
    {
      outcome := Pass;
      if handle == 0 {
        outcome := Initialize(false);
      }
    }

    // -------------------------------------------------------------------------------------
    // Looking packages up

    /** The walk over the sync database list in `InstallPackage(s)`: the first database that
        has the name decides. */
    method FindSyncPackage(name: string) returns (p: Option<Package>)
      ensures p == FindInCaches(Caches(native, dbs), name)
    {
      var caches := Caches(native, dbs);
      var i := 0;
      while i < |dbs|
        invariant 0 <= i <= |dbs|
        invariant FindInCaches(caches, name) == FindInCaches(caches[i..], name)
      {
        var found := Lookup(Contents(native, dbs[i].name), name);
        assert caches[i..][1..] == caches[i + 1..];
        if found.Some? {
          return found;
        }
        i := i + 1;
      }
      return None;
    }

    /** The resolution loop of `InstallPackages`: every name looked up in turn, throwing at
        the first that is not found. */
    method ResolveSyncNames(names: seq<string>) returns (r: Result<seq<Package>, string>)
      ensures r == ResolveAll(SyncFinder(Caches(native, dbs)), names)
    {
      ghost var find := SyncFinder(Caches(native, dbs));
      var pkgs := [];
      var i := 0;
      while i < |names|
        invariant 0 <= i <= |names|
        invariant ResolveAll(find, names[..i]) == Ok(pkgs)
      {
        var p := FindSyncPackage(names[i]);
        assert p == find(names[i]);
        ResolveAllSnoc(find, names, i, pkgs);
        if p.None? {
          ResolveAllPrefix(find, names, i + 1);
          return Err(names[i]);
        }
        pkgs := pkgs + [p.value];
        i := i + 1;
      }
      assert names[..i] == names;
      return Ok(pkgs);
    }

    /** The resolution loop of `RemovePackages`, in the local database. */
    method ResolveLocalNames(names: seq<string>) returns (r: Result<seq<Package>, string>)
      ensures r == ResolveAll(LocalFinder(native), names)
    {
      var pkgs := [];
      var i := 0;
      while i < |names|
        invariant 0 <= i <= |names|
        invariant ResolveAll(LocalFinder(native), names[..i]) == Ok(pkgs)
      {
        var p := Lookup(native.local, names[i]);
        assert p == LocalFinder(native)(names[i]);
        ResolveAllSnoc(LocalFinder(native), names, i, pkgs);
        if p.None? {
          ResolveAllPrefix(LocalFinder(native), names, i + 1);
          return Err(names[i]);
        }
        pkgs := pkgs + [p.value];
        i := i + 1;
      }
      assert names[..i] == names;
      return Ok(pkgs);
    }

    // -------------------------------------------------------------------------------------
    // Transactions

    /** `InitializeTransaction` outside the `try`, then the steps inside it and the release in
        the `finally`: the shape of the install and remove variants. */
    method BeginOutsideThenRun(flags: TransFlags, steps: seq<Act>) returns (outcome: Outcome<Error>)
      requires trans.None?
      requires forall i :: 0 <= i < |steps| ==> !steps[i].TransRelease?
      modifies this`trace, this`trans
      ensures trans.None?
      ensures var run := BeginOutside(native, flags, steps);
        trace == old(trace) + run.calls && outcome == run.outcome
    {
      var ok := Call(TransInit(flags));
      if !ok {
        return Fail(StepFailed(InitStep));
      }
      var r := RunCalls(steps);
      Release();
      outcome := StepsOutcome(r);
    }

    method InstallPackage(name: string, flags: TransFlags) returns (outcome: Outcome<Error>)
      requires Valid()
      modifies this
      ensures Valid()
      ensures Ran(old(handle) != 0, old(trace), old(files), InstallPackageRun(native, LiveCaches(), name, flags), outcome)
    {
      outcome := EnsureInitialized();
      if outcome.Fail? {
        return;
      }
      outcome := InstallFound(name, flags);
    }

    /** `InstallPackage` once the handle is live: look the name up, then the transaction. */
    method InstallFound(name: string, flags: TransFlags) returns (outcome: Outcome<Error>)
      requires trans.None?
      modifies this`trace, this`trans
      ensures trans.None?
      ensures var run := InstallPackageRun(native, Caches(native, dbs), name, flags);
        trace == old(trace) + run.calls && outcome == run.outcome
    {
      var p := FindSyncPackage(name);
      if p.None? {
        return Fail(NotFound(name));
      }
      outcome := BeginOutsideThenRun(NormalizeFlags(flags), [AddPkg(p.value)] + PrepareCommit);
    }

    method InstallPackages(names: seq<string>, flags: TransFlags) returns (outcome: Outcome<Error>)
      requires Valid()
      modifies this
      ensures Valid()
      ensures Ran(old(handle) != 0, old(trace), old(files), InstallPackagesRun(native, LiveCaches(), names, flags), outcome)
    {
      outcome := EnsureInitialized();
      if outcome.Fail? {
        return;
      }
      outcome := InstallResolved(names, flags);
    }

    /** `InstallPackages` once the handle is live: resolve, then the transaction. */
    method InstallResolved(names: seq<string>, flags: TransFlags) returns (outcome: Outcome<Error>)
      requires trans.None?
      modifies this`trace, this`trans
      ensures trans.None?
      ensures var run := InstallPackagesRun(native, Caches(native, dbs), names, flags);
        trace == old(trace) + run.calls && outcome == run.outcome
    {
      var resolved := ResolveSyncNames(names);
      if resolved.Err? {
        return Fail(NotFound(resolved.error));
      }
      if resolved.value == [] {
        return Pass;
      }
      AddAllNoRelease(resolved.value);
      outcome := BeginOutsideThenRun(NormalizeFlags(flags), AddAll(resolved.value) + PrepareCommit);
    }

    method RemovePackages(names: seq<string>, flags: TransFlags) returns (outcome: Outcome<Error>)
      requires Valid()
      modifies this
      ensures Valid()
      ensures Ran(old(handle) != 0, old(trace), old(files), RemovePackagesRun(native, names, flags), outcome)
    {
      outcome := EnsureInitialized();
      if outcome.Fail? {
        return;
      }
      outcome := RemoveResolved(names, flags);
    }

    /** `RemovePackages` once the handle is live: resolve, then the transaction. */
    method RemoveResolved(names: seq<string>, flags: TransFlags) returns (outcome: Outcome<Error>)
      requires trans.None?
      modifies this`trace, this`trans
      ensures trans.None?
      ensures var run := RemovePackagesRun(native, names, flags);
        trace == old(trace) + run.calls && outcome == run.outcome
    {
      var resolved := ResolveLocalNames(names);
      if resolved.Err? {
        return Fail(NotFound(resolved.error));
      }
      if resolved.value == [] {
        return Pass;
      }
      RemoveAllNoRelease(resolved.value);
      outcome := BeginOutsideThenRun(NormalizeFlags(flags), RemoveAll(resolved.value) + PrepareCommit);
    }

    method RemovePackage(name: string, flags: TransFlags) returns (outcome: Outcome<Error>)
      requires Valid()
      modifies this
      ensures Valid()
      ensures Ran(old(handle) != 0, old(trace), old(files), RemovePackageRun(native, name, flags), outcome)
    {
      outcome := EnsureInitialized();
      if outcome.Fail? {
        return;
      }
      var p := Lookup(native.local, name);
      if p.None? {
        return Fail(NotFound(name));
      }
      outcome := BeginOutsideThenRun(flags, [RemovePkg(p.value)] + PrepareCommit);
    }

    /** `CheckTransactionReplaces`: a notice for each package of the add list that replaces
        others. */
    method CheckTransactionReplaces()
      modifies this`trace
      ensures trace == old(trace) + ReplacesNotices(AddList(trans))
    {
      var add := AddList(trans);
      var i := 0;
      while i < |add|
        invariant 0 <= i <= |add|
        invariant trace == old(trace) + ReplacesNotices(add[..i])
      {
        var p := add[i];
        assert add[..i + 1][..i] == add[..i];
        if |p.replaced| > 0 {
          trace := trace + [ReplacesNotice(p.name, p.repository, p.replaced)];
        }
        i := i + 1;
      }
      assert add[..i] == add;
    }

    method SyncSystemUpdate(flags: TransFlags) returns (outcome: Outcome<Error>)
      requires Valid()
      modifies this
      ensures Valid()
      ensures Ran(old(handle) != 0, old(trace), old(files), SyncSystemUpdateRun(native, flags), outcome)
    {
      outcome := EnsureInitialized();
      if outcome.Fail? {
        return;
      }
      outcome := SystemUpgrade(flags);
    }

    /** `SyncSystemUpdate` after the lazy initialisation. */
    method SystemUpgrade(flags: TransFlags) returns (outcome: Outcome<Error>)
      requires trans.None?
      modifies this`trace, this`trans
      ensures trans.None?
      ensures var run := SyncSystemUpdateRun(native, flags);
        trace == old(trace) + run.calls && outcome == run.outcome
    {
      trace := trace + [DbUpdate(true)];
      var r1 := RunCalls([TransInit(flags), SyncSysupgrade, TransPrepare]);
      if r1.failed.Some? {
        Release();
        AppendAssoc4(old(trace), [DbUpdate(true)], r1.calls, [TransRelease]);
        return Fail(Wrapped(StepError(r1.failed.value)));
      }
      ghost var c := AlpmTransactions.AnnounceAndCommit(native, r1.trans);
      outcome := AnnounceAndCommit();
      AppendAssoc4(old(trace), [DbUpdate(true)], r1.calls, c.calls);
    }

    /** The replacement notices, commit and release of a prepared system upgrade. */
    method AnnounceAndCommit() returns (outcome: Outcome<Error>)
      modifies this`trace, this`trans
      ensures trans.None?
      ensures var run := AlpmTransactions.AnnounceAndCommit(native, old(trans));
        trace == old(trace) + run.calls && outcome == run.outcome
    {
      CheckTransactionReplaces();
      var r := RunCalls([TransCommit]);
      Release();
      outcome := if r.failed.Some? then Fail(Wrapped(StepError(r.failed.value))) else Pass;
    }

    /** The collection loop of `UpdatePackages`: the newer version of each installed name. */
    method CollectUpgrades(names: seq<string>) returns (pkgs: seq<Package>)
      ensures pkgs == Upgradable(native, names)
    {
      pkgs := [];
      var i := 0;
      while i < |names|
        invariant 0 <= i <= |names|
        invariant pkgs == Upgradable(native, names[..i])
      {
        assert names[..i + 1][..i] == names[..i];
        var installed := Lookup(native.local, names[i]);
        if installed.Some? && installed.value in native.newVersion {
          pkgs := pkgs + [native.newVersion[installed.value]];
        }
        i := i + 1;
      }
      assert names[..i] == names;
    }

    /** The `_ = AddPkg(...)` loop of `UpdatePackages`: every package offered, refusals
        ignored. */
    method AddIgnoringRefusals(pkgs: seq<Package>)
      requires trans.Some?
      modifies this`trace, this`trans
      ensures trace == old(trace) + AddAll(pkgs)
      ensures trans == Some(old(trans).value.(add := old(trans).value.add + Accepted(native, pkgs)))
    {
      ghost var t0 := trans.value;
      var i := 0;
      assert Accepted(native, pkgs[..0]) == [];
      assert t0.add + [] == t0.add;
      while i < |pkgs|
        invariant 0 <= i <= |pkgs|
        invariant trace == old(trace) + AddAll(pkgs[..i])
        invariant trans == Some(t0.(add := t0.add + Accepted(native, pkgs[..i])))
      {
        AcceptedSnoc(native, pkgs, i);
        ghost var accepted := Accepted(native, pkgs[..i]);
        AddOne(pkgs[i]);
        AppendAssoc(old(trace), AddAll(pkgs[..i]), [AddPkg(pkgs[i])]);
        AppendAssoc(t0.add, accepted, if AddPkg(pkgs[i]) in native.failing then [] else [pkgs[i]]);
        i := i + 1;
      }
      assert pkgs[..i] == pkgs;
    }

    /** One `_ = AddPkg(p)` on an open transaction. */
    method AddOne(p: Package)
      requires trans.Some?
      modifies this`trace, this`trans
      ensures trace == old(trace) + [AddPkg(p)]
      ensures trans == Some(old(trans).value.(add := old(trans).value.add
                                              + if AddPkg(p) in native.failing then [] else [p]))
    {
      ghost var t := trans.value;
      var ok := Call(AddPkg(p));
      if !ok {
        assert t.add + [] == t.add;
      }
    }

    method UpdatePackages(names: seq<string>, flags: TransFlags) returns (outcome: Outcome<Error>)
      requires Valid()
      modifies this
      ensures Valid()
      ensures Ran(old(handle) != 0, old(trace), old(files), UpdatePackagesRun(native, names, flags), outcome)
    {
      outcome := EnsureInitialized();
      if outcome.Fail? {
        return;
      }
      outcome := UpgradeNamed(names, flags);
    }

    /** `UpdatePackages` after the lazy initialisation. */
    method UpgradeNamed(names: seq<string>, flags: TransFlags) returns (outcome: Outcome<Error>)
      requires trans.None?
      modifies this`trace, this`trans
      ensures trans.None?
      ensures var run := UpdatePackagesRun(native, names, flags);
        trace == old(trace) + run.calls && outcome == run.outcome
    {
      trace := trace + [DbUpdate(true)];
      var pkgs := CollectUpgrades(names);
      ghost var offer := AlpmTransactions.OfferAll(native, pkgs, flags);
      outcome := OfferAll(pkgs, flags);
      AppendAssoc(old(trace), [DbUpdate(true)], offer.calls);
    }

    /** Begin a transaction and offer it every package of `pkgs`, then finish the update. */
    method OfferAll(pkgs: seq<Package>, flags: TransFlags) returns (outcome: Outcome<Error>)
      requires trans.None?
      modifies this`trace, this`trans
      ensures trans.None?
      ensures var run := AlpmTransactions.OfferAll(native, pkgs, flags);
        trace == old(trace) + run.calls && outcome == run.outcome
    {
      var ok := Call(TransInit(flags));
      if !ok {
        Release();
        AppendAssoc(old(trace), [TransInit(flags)], [TransRelease]);
        return Fail(StepFailed(InitStep));
      }
      ghost var c := AlpmTransactions.CommitUnlessEmpty(native, Some(Transaction(flags, Accepted(native, pkgs), [])));
      outcome := AddAndCommit(pkgs, flags);
      AppendAssoc4(old(trace), [TransInit(flags)], AddAll(pkgs), c.calls);
    }

    /** The adds and the end of the update in a transaction that was just begun. */
    method AddAndCommit(pkgs: seq<Package>, flags: TransFlags) returns (outcome: Outcome<Error>)
      requires trans == Some(Transaction(flags, [], []))
      modifies this`trace, this`trans
      ensures trans.None?
      ensures var run := AlpmTransactions.CommitUnlessEmpty(native, Some(Transaction(flags, Accepted(native, pkgs), [])));
        trace == old(trace) + AddAll(pkgs) + run.calls && outcome == run.outcome
    {
      AddIgnoringRefusals(pkgs);
      assert [] + Accepted(native, pkgs) == Accepted(native, pkgs);
      outcome := CommitUnlessEmpty();
    }

    /** `UpdateSinglePackage` and `UpdateAll` after the lazy initialisation. */
    method MarkAndCommit(flags: TransFlags, mark: Act) returns (outcome: Outcome<Error>)
      requires trans.None? && !mark.TransRelease?
      modifies this`trace, this`trans
      ensures trans.None?
      ensures var run := MarkAndCommitRun(native, flags, mark);
        trace == old(trace) + run.calls && outcome == run.outcome
    {
      trace := trace + [DbUpdate(true)];
      var r1 := RunCalls([TransInit(flags), mark]);
      if r1.failed.Some? {
        Release();
        AppendAssoc4(old(trace), [DbUpdate(true)], r1.calls, [TransRelease]);
        return StepsOutcome(r1);
      }
      ghost var c := AlpmTransactions.CommitUnlessEmpty(native, r1.trans);
      outcome := CommitUnlessEmpty();
      AppendAssoc4(old(trace), [DbUpdate(true)], r1.calls, c.calls);
    }

    /** Release an empty transaction; otherwise prepare and commit it, then release. */
    method CommitUnlessEmpty() returns (outcome: Outcome<Error>)
      modifies this`trace, this`trans
      ensures trans.None?
      ensures var run := AlpmTransactions.CommitUnlessEmpty(native, old(trans));
        trace == old(trace) + run.calls && outcome == run.outcome
    {
      if NothingToDo(trans) {
        Release();
        return Pass;
      }
      var r := RunCalls(PrepareCommit);
      Release();
      outcome := StepsOutcome(r);
    }

    method UpdateSinglePackage(name: string, flags: TransFlags) returns (outcome: Outcome<Error>)
      requires Valid()
      modifies this
      ensures Valid()
      ensures Ran(old(handle) != 0, old(trace), old(files), UpdateSinglePackageRun(native, name, flags), outcome)
    {
      outcome := EnsureInitialized();
      if outcome.Fail? {
        return;
      }
      var installed := Lookup(native.local, name);
      var mark := if installed.Some? then AddPkg(installed.value) else AddNullPkg;
      outcome := MarkAndCommit(flags, mark);
    }

    method UpdateAll(flags: TransFlags) returns (outcome: Outcome<Error>)
      requires Valid()
      modifies this
      ensures Valid()
      ensures Ran(old(handle) != 0, old(trace), old(files), UpdateAllRun(native, flags), outcome)
    {
      outcome := EnsureInitialized();
      if outcome.Fail? {
        return;
      }
      outcome := MarkAndCommit(flags, SyncSysupgrade);
    }

    /** `InstallLocalPackage`, with the package freed once on every path (by the branch that
        refused it, or by the release once the transaction owns it); the `finally` releases and
        refreshes the session, which succeeds since the handle was opened before. */
    method InstallLocalPackage(path: string, flags: TransFlags) returns (outcome: Outcome<Error>)
      requires Valid()
      modifies this
      ensures Valid()
      ensures var refresh := Run([ReleaseHandle] + InitializeCalls(native, conf, process, false), Pass);
        var run := InstallLocalPackageRun(native, path, flags, refresh);
        if old(handle) == 0 && native.openError != 0 then
          trace == old(trace) + Startup(false) && outcome == Fail(OpenFailed(native.openError))
          && files == StartupFiles(false, old(files))
        else
          trace == old(trace) + Startup(old(handle) != 0) + run.calls && outcome == run.outcome
          && files == if LocalInstallReached(native, path, flags) then Delete(env.disk, old(files), LockPath(conf))
                      else StartupFiles(old(handle) != 0, old(files))
    {
      outcome := EnsureInitialized();
      if outcome.Fail? {
        return;
      }
      DeleteTwice(env.disk, old(files), LockPath(conf));
      outcome := InstallLocalThenRefresh(path, flags);
    }

    /** `InstallLocalPackage` on a live handle. */
    method InstallLocalThenRefresh(path: string, flags: TransFlags) returns (outcome: Outcome<Error>)
      requires Valid() && handle != 0
      modifies this
      ensures Valid() && handle != 0
      ensures var refresh := Run([ReleaseHandle] + InitializeCalls(native, conf, process, false), Pass);
        var run := InstallLocalPackageRun(native, path, flags, refresh);
        trace == old(trace) + run.calls && outcome == run.outcome
      ensures files == if LocalInstallReached(native, path, flags) then Delete(env.disk, old(files), LockPath(conf))
                       else old(files)
    {
      ghost var refresh := Run([ReleaseHandle] + InitializeCalls(native, conf, process, false), Pass);
      InstallLocalPackageRefresh(native, path, flags, refresh);
      ghost var bare := InstallLocalPackageRun(native, path, flags, Run([], Pass));
      var reached;
      outcome, reached := LoadAndInstall(path, flags);
      if reached {
        var _ := Refresh();
        ghost var init := InitializeCalls(native, conf, process, false);
        AppendAssoc4(old(trace), bare.calls, [ReleaseHandle], init);
        AppendAssoc(bare.calls, [ReleaseHandle], init);
      }
    }

    /** `InstallLocalPackage` up to its `finally` block's `Refresh`: `reached` tells whether
        the `try` was entered. */
    method LoadAndInstall(path: string, flags: TransFlags) returns (outcome: Outcome<Error>, reached: bool)
      requires trans.None?
      modifies this`trace, this`trans
      ensures trans.None?
      ensures reached == LocalInstallReached(native, path, flags)
      ensures var run := InstallLocalPackageRun(native, path, flags, Run([], Pass));
        trace == old(trace) + run.calls && outcome == run.outcome
    {
      LocalInstallShape(native, path, flags);
      var load := PkgLoad(path, LocalPackageSigLevel);
      var loaded := Call(load);
      if !loaded || path !in native.packageFiles {
        return Fail(LoadFailed(path)), false;
      }
      var p := native.packageFiles[path];
      reached := Accepts(native, None, TransInit(flags));
      ghost var r := RunSteps(native, Some(Transaction(flags, [], [])), [AddPkg(p)] + PrepareCommit);
      outcome := BeginAndInstall(p, flags);
      if reached {
        AppendAssoc(old(trace), [load], [TransInit(flags)] + (r.calls + LocalFrees(r, p) + [TransRelease]));
      } else {
        AppendAssoc(old(trace), [load], [TransInit(flags), PkgFree(p)]);
      }
    }

    /** `InstallLocalPackage` once the package `p` is loaded: begin the transaction (freeing
        `p` and throwing when refused) and run the `try`. */
    method BeginAndInstall(p: Package, flags: TransFlags) returns (outcome: Outcome<Error>)
      requires trans.None?
      modifies this`trace, this`trans
      ensures trans.None?
      ensures !Accepts(native, None, TransInit(flags)) ==>
        trace == old(trace) + [TransInit(flags), PkgFree(p)] && outcome == Fail(StepFailed(InitStep))
      ensures Accepts(native, None, TransInit(flags)) ==>
        var r := RunSteps(native, Some(Transaction(flags, [], [])), [AddPkg(p)] + PrepareCommit);
        trace == old(trace) + ([TransInit(flags)] + (r.calls + LocalFrees(r, p) + [TransRelease]))
        && outcome == if r.failed.Some? then Fail(Wrapped(StepError(r.failed.value))) else Pass
    {
      var ok := Call(TransInit(flags));
      if !ok {
        trace := trace + [PkgFree(p)];
        return Fail(StepFailed(InitStep));
      }
      ghost var r := RunSteps(native, trans, [AddPkg(p)] + PrepareCommit);
      outcome := AddPrepareCommit(p);
      AppendAssoc(old(trace), [TransInit(flags)], r.calls + LocalFrees(r, p) + [TransRelease]);
    }

    /** The `try` of `InstallLocalPackage` and the release of its `finally`: add, prepare and
        commit, and on a refusal rethrow it wrapped, freeing the package only when `AddPkg`
        refused it (otherwise the transaction owns it and the release frees it). */
    method AddPrepareCommit(p: Package) returns (outcome: Outcome<Error>)
      modifies this`trace, this`trans
      ensures trans.None?
      ensures var r := RunSteps(native, old(trans), [AddPkg(p)] + PrepareCommit);
        trace == old(trace) + (r.calls + LocalFrees(r, p) + [TransRelease])
        && outcome == if r.failed.Some? then Fail(Wrapped(StepError(r.failed.value))) else Pass
    {
      var r := RunCalls([AddPkg(p)] + PrepareCommit);
      if r.failed.Some? {
        if r.failed.value == AddPkg(p) {
          trace := trace + [PkgFree(p)];
        } else {
          assert r.calls + LocalFrees(r, p) == r.calls;
        }
        outcome := Fail(Wrapped(StepError(r.failed.value)));
      } else {
        outcome := Pass;
        assert r.calls + LocalFrees(r, p) == r.calls;
      }
      Release();
      AppendAssoc4(old(trace), r.calls, LocalFrees(r, p), [TransRelease]);
    }

    // -------------------------------------------------------------------------------------
    // Queries

    /** `GetForeignPackages`: after the lazy initialisation, the installed packages that no
        sync database has. */
    method GetForeignPackages() returns (r: Result<seq<Package>, Error>)
      requires Valid()
      modifies this
      ensures Valid()
      ensures trace == old(trace) + Startup(old(handle) != 0) && files == StartupFiles(old(handle) != 0, old(files))
      ensures if old(handle) == 0 && native.openError != 0 then r == Err(OpenFailed(native.openError))
              else r == Ok(Foreign(native.local, LiveCaches()))
    {
      var outcome := EnsureInitialized();
      if outcome.Fail? {
        return Err(outcome.error);
      }
      var foreign := ForeignPackages();
      return Ok(foreign);
    }

    /** The outer walk of `GetForeignPackages`, over the local database in order. */
    method ForeignPackages() returns (foreign: seq<Package>)
      ensures foreign == Foreign(native.local, Caches(native, dbs))
    {
      foreign := [];
      var i := 0;
      while i < |native.local|
        invariant 0 <= i <= |native.local|
        invariant foreign == Foreign(native.local[..i], Caches(native, dbs))
      {
        assert native.local[..i + 1][..i] == native.local[..i];
        var found := InSomeSyncDb(native.local[i].name);
        if !found {
          foreign := foreign + [native.local[i]];
        }
        i := i + 1;
      }
      assert native.local[..i] == native.local;
    }

    /** The inner walk of `GetForeignPackages`: whether some sync database has the name. */
    method InSomeSyncDb(name: string) returns (found: bool)
      ensures found == InSomeCache(Caches(native, dbs), name)
    {
      var i := 0;
      while i < |dbs|
        invariant 0 <= i <= |dbs|
        invariant forall j :: 0 <= j < i ==> Lookup(Contents(native, dbs[j].name), name).None?
      {
        if Lookup(Contents(native, dbs[i].name), name).Some? {
          assert Lookup(Caches(native, dbs)[i], name).Some?;
          return true;
        }
        i := i + 1;
      }
      return false;
    }

    /** `GetAvailablePackages`: after the lazy initialisation, the caches of the valid sync
        databases, in order. */
    method GetAvailablePackages() returns (r: Result<seq<Package>, Error>)
      requires Valid()
      modifies this
      ensures Valid()
      ensures trace == old(trace) + Startup(old(handle) != 0) && files == StartupFiles(old(handle) != 0, old(files))
      ensures if old(handle) == 0 && native.openError != 0 then r == Err(OpenFailed(native.openError))
              else r == Ok(Available(native, Registered(native, conf.sigLevel, conf.repos)))
    {
      var outcome := EnsureInitialized();
      if outcome.Fail? {
        return Err(outcome.error);
      }
      var packages := [];
      var i := 0;
      while i < |dbs|
        invariant 0 <= i <= |dbs|
        invariant packages == Available(native, dbs[..i])
      {
        assert dbs[..i + 1][..i] == dbs[..i];
        if dbs[i].name !in native.invalid {
          packages := packages + Contents(native, dbs[i].name);
        }
        i := i + 1;
      }
      assert dbs[..i] == dbs;
      return Ok(packages);
    }

    // -------------------------------------------------------------------------------------
    // Callbacks

    /** `HandleEvent`: ignore a null event, a zero handle, an unreadable or out-of-range
        type; raise a package-operation notice without a name for the start and end of a
        transaction. */
    method HandleEvent(e: EventPtr)
      modifies this`trace
      ensures trace == old(trace) + EventNotices(handle != 0, e)
    {
      if e.NullEvent? || handle == 0 || e.BadEvent? {
        return;
      }
      if e.kind < 1 || e.kind > 37 {
        return;
      }
      var t := DecodeEvent(e.kind).value;
      if t == TransactionStart || t == TransactionDone {
        trace := trace + [OperationNotice(EventCode(t), None)];
      }
    }

    /** `HandleQuestion`: raise the question with its prompt, then write the observer's
        response (`response`, or the default when no observer changed it) back into the
        native question. */
    method HandleQuestion(question: QuestionSlot, response: Option<int>)
      modifies this`trace, question`answer
      ensures trace == old(trace) + [QuestionNotice(question.kind, QuestionText(question.kind))]
      ensures question.answer == QuestionAnswer(response)
    {
      var text := QuestionText(question.kind);
      trace := trace + [QuestionNotice(question.kind, text)];
      question.answer := QuestionAnswer(response);
    }

    /** `HandleProgress`: forward the report; a name that cannot be read is swallowed. */
    method HandleProgress(code: int, namePtr: StrPtr, percent: int, howMany: int, current: int)
      modifies this`trace
      ensures trace == old(trace) + ProgressNotices(code, namePtr, percent, howMany, current)
    {
      if namePtr.BadStr? {
        return;
      }
      var name := if namePtr.Str? then Some(namePtr.s) else None;
      trace := trace + [ProgressNotice(ProgressReport(EngineProgress(code), name, percent, howMany, current))];
    }

    // -------------------------------------------------------------------------------------
    // Downloads

    /** `DownloadFile`: -1 without touching anything when there is no destination;
        otherwise `PerformDownload` into it. */
    method DownloadFile(url: StrPtr, dir: StrPtr) returns (r: int)
      modifies this`files, this`trace
      ensures var dest := Destination(env, conf, url, dir);
        if dest.None? then r == -1 && files == old(files) && trace == old(trace)
        else var d := DownloadSpec(env, old(files), url.s, dest.value);
          r == d.result && files == d.files && trace == old(trace) + d.events
    {
      var dest := DestinationOf(url, dir);
      if dest.None? {
        return -1;
      }
      r := PerformDownload(url.s, dest.value);
    }

    /** The destination choice of `DownloadFile`: none for a missing URL, a missing cache
        directory or an empty path. */
    method DestinationOf(url: StrPtr, dir: StrPtr) returns (dest: Option<string>)
      ensures dest == Destination(env, conf, url, dir)
      ensures dest.Some? ==> url.Str? && url.s != [] && dest.value != []
    {
      if !url.Str? || url.s == [] {
        return None;
      }
      var u := url.s;
      var fileName := UrlFileName(env, u);
      var localpath;
      if dir.Str? && dir.s != [] {
        localpath := Combine(dir.s, fileName);
      } else if EndsWith(u, ".db") || EndsWith(u, ".db.sig") {
        localpath := Combine(Combine(conf.dbPath, "sync"), fileName);
      } else if conf.cacheDir.Some? {
        localpath := Combine(conf.cacheDir.value, fileName);
      } else {
        return None;
      }
      if localpath == [] {
        return None;
      }
      return Some(localpath);
    }

    /** `PerformDownload`: the body goes to the ".part" file and reaches the destination only
        through the rename. */
    method PerformDownload(url: string, localpath: string) returns (r: int)
      modifies this`files, this`trace
      ensures var d := DownloadSpec(env, old(files), url, localpath);
        r == d.result && files == d.files && trace == old(trace) + d.events
    {
      var temp := PartPath(localpath);
      var f := FetchOf(env, url);
      if f.Unreachable? {
        files := Delete(env.disk, files, temp);
        return -1;
      }
      if !f.success {
        return -1;
      }
      if temp in env.disk.unwritable {
        files := Delete(env.disk, files, temp);
        return -1;
      }
      var fileName := GetFileName(localpath);
      var total, lastPercent, failed := ReadBody(f, temp, fileName);
      if failed {
        files := Delete(env.disk, files, temp);
        return -1;
      }
      if lastPercent != 100 {
        trace := trace + [DownloadReport(fileName, 100, f.length.GetOr(total), total)];
      }
      r := ReplaceDestination(url, localpath);
    }

    /** The read loop of `PerformDownload`: the ".part" file is created empty and each chunk
        appended to it, reporting the integer percentage whenever it changes. */
    method ReadBody(f: Fetch, temp: string, fileName: string) returns (total: int, lastPercent: int, failed: bool)
      requires f.Reply?
      modifies this`files, this`trace
      ensures var k := ReadChunks(f);
        var st := ReadAll(fileName, f.length, f.chunks[..k]);
        files == old(files)[temp := Concat(f.chunks[..k])] && trace == old(trace) + st.events
        && total == st.total && lastPercent == st.lastPercent && failed == ReadFails(f)
    {
      files := files[temp := []];
      var i := 0;
      total, lastPercent := 0, -1;
      ghost var st := ReadStart;
      assert trace == old(trace) + st.events;
      while i < |f.chunks| && f.failAt != Some(i) && f.chunks[i] != []
        invariant 0 <= i <= |f.chunks|
        invariant ReadCount(f.chunks, f.failAt, i) == ReadChunks(f)
        invariant files == old(files)[temp := Concat(f.chunks[..i])]
        invariant st == ReadAll(fileName, f.length, f.chunks[..i])
        invariant trace == old(trace) + st.events && total == st.total && lastPercent == st.lastPercent
        decreases |f.chunks| - i
      {
        ReadSnoc(fileName, f.length, f.chunks, i);
        total, lastPercent := WriteChunk(f.chunks[i], temp, fileName, f.length, total, lastPercent, old(trace), st);
        st := ReadStep(fileName, f.length, st, |f.chunks[i]|);
        i := i + 1;
      }
      failed := f.failAt == Some(i);
    }

    /** One iteration of the read loop: the loop's state `st` before, with the calls made
        before the loop in `base`. */
    method WriteChunk(chunk: seq<bv8>, temp: string, fileName: string, length: Option<int>, total: int, lastPercent: int,
                      ghost base: seq<Act>, ghost st: ReadState)
      returns (total': int, lastPercent': int)
      requires temp in files
      requires total == st.total && lastPercent == st.lastPercent && trace == base + st.events
      modifies this`files, this`trace
      ensures var st' := ReadStep(fileName, length, st, |chunk|);
        total' == st'.total && lastPercent' == st'.lastPercent && trace == base + st'.events
      ensures files == old(files)[temp := old(files)[temp] + chunk]
    {
      files := files[temp := files[temp] + chunk];
      total', lastPercent' := total + |chunk|, lastPercent;
      if length.Some? && length.value > 0 {
        var percent := total' * 100 / length.value;
        if percent != lastPercent {
          var report := DownloadReport(fileName, percent, length.value, total');
          assert base + st.events + [report] == base + (st.events + [report]);
          trace := trace + [report];
          lastPercent' := percent;
        }
      }
    }

    /** The end of `PerformDownload` once the body is in the ".part" file. */
    method ReplaceDestination(url: string, localpath: string) returns (r: int)
      requires PartPath(localpath) in files
      modifies this`files
      ensures var d := FinishDownload(env, old(files), url, localpath, []);
        r == d.result && files == d.files
    {
      var temp := PartPath(localpath);
      if !env.replaceNeeded(FileAt(files, localpath), files[temp]) {
        files := Delete(env.disk, files, temp);
        return 0;
      }
      if localpath in env.disk.immovable {
        return -1;
      }
      PathsDistinct(localpath);
      files := MoveOver(files, temp, localpath);
      if IsDatabaseUrl(url) {
        DownloadSignatureFile(SigPath(url), SigPath(localpath));
      }
      return 0;
    }

    /** `DownloadSignatureFile`: failures are swallowed, removing the ".part" file and the
        stale signature; a non-success status removes the stale signature only. */
    method DownloadSignatureFile(sigUrl: string, sigLocal: string)
      modifies this`files
      ensures files == SignatureFiles(env, old(files), sigUrl, sigLocal)
    {
      var temp := PartPath(sigLocal);
      var f := FetchOf(env, sigUrl);
      if f.Unreachable? || (f.success && temp in env.disk.unwritable) {
        files := Delete(env.disk, files, temp);
        files := Delete(env.disk, files, sigLocal);
        return;
      }
      if !f.success {
        files := Delete(env.disk, files, sigLocal);
        return;
      }
      files := files[temp := Concat(f.chunks[..ReadChunks(f)])];
      if ReadFails(f) || sigLocal in env.disk.immovable {
        files := Delete(env.disk, files, temp);
        files := Delete(env.disk, files, sigLocal);
        return;
      }
      PathsDistinct(sigLocal);
      files := MoveOver(files, temp, sigLocal);
    }
  }
}
