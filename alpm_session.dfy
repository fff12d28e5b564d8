/** What `AlpmManager.Initialize` asks of a fresh engine handle: the architecture it resolves,
    the signature levels it sets, the sync databases it registers and the servers it adds to
    them. The manager class makes these calls one at a time; the functions here say which
    calls, in which order, and the lemmas what that sequence guarantees. */
module AlpmSession {
  import opened Wrappers
  import opened Text
  import opened AlpmTypes

  const RepoVariable := "$repo"
  const ArchVariable := "$arch"

  /** `a.Equals(b, StringComparison.OrdinalIgnoreCase)`. */
  predicate EqualsIgnoreCase(a: string, b: string) {
    Upper(a) == Upper(b)
  }

  /** The architecture registered with the engine: the configured one, unless it is "auto"
      in any case, which resolves from the process architecture, with x86_64 as fallback. */
  function ResolveArch(configured: string, process: Arch): (r: string) {
    if EqualsIgnoreCase(configured, "auto") then
      match process
      case X64 => "x86_64"
      case Arm64 => "aarch64"
      case OtherArch => "x86_64"
    else configured
  }

  /** "auto" is always replaced by a concrete architecture, and any other setting is kept. */
  lemma ResolveArchMeaning(configured: string, process: Arch)
    ensures !EqualsIgnoreCase(ResolveArch(configured, process), "auto")
    ensures !EqualsIgnoreCase(configured, "auto") ==> ResolveArch(configured, process) == configured
    ensures EqualsIgnoreCase(configured, "auto") ==>
      ResolveArch(configured, process) == if process == Arm64 then "aarch64" else "x86_64"
    ensures ResolveArch(ResolveArch(configured, process), process) == ResolveArch(configured, process)
  {
    assert Upper("x86_64") == "X86_64";
    assert Upper("aarch64") == "AARCH64";
    assert Upper("auto") == "AUTO";
  }

  /** The level a repository is registered with: its own, unless it is exactly `None` or
      exactly `UseDefault`, which stand for the configuration's default level. */
  function EffectiveSigLevel(repo: SigLevel, default: SigLevel): (r: SigLevel)
    ensures repo == SigNone || repo == SigUseDefault ==> r == default
    ensures repo != SigNone && repo != SigUseDefault ==> r == repo
  {
    if repo == SigNone || repo == SigUseDefault then default else repo
  }

  // ---------------------------------------------------------------------------------------
  // Server URLs

  /** `$arch` at index `i` is followed by at least one character other than '/': where the
      pattern `\$arch([^/]+)` can match. */
  predicate SuffixAt(s: string, i: int) {
    OccursAt(s, ArchVariable, i) && i + |ArchVariable| < |s| && s[i + |ArchVariable|] != '/'
  }

  /** The longest prefix of `t` without '/': what the greedy `[^/]+` captures. */
  function UpToSlash(t: string): (r: string)
    ensures '/' !in r && StartsWith(t, r)
    ensures |r| < |t| ==> t[|r|] == '/'
  {
    var k := IndexOf(t, '/');
    if k < 0 then t else t[..k]
  }

  /** The first index from `i` on where the pattern can match. */
  function FindSuffix(s: string, i: nat): (r: Option<nat>)
    ensures r.Some? ==> i <= r.value && SuffixAt(s, r.value)
    ensures r.Some? ==> forall j :: i <= j < r.value ==> !SuffixAt(s, j)
    ensures r.None? ==> forall j :: i <= j ==> !SuffixAt(s, j)
    decreases |s| - i
  {
    if i + |ArchVariable| >= |s| then None
    else if SuffixAt(s, i) then Some(i)
    else FindSuffix(s, i + 1)
  }

  /** `Regex.Match(server, @"\$arch([^/]+)")`: the text captured by the first match, if any. */
  function ArchSuffix(server: string): Option<string> {
    match FindSuffix(server, 0)
    case None => None
    case Some(i) => Some(UpToSlash(server[i + |ArchVariable|..]))
  }

  /** The capture is non-empty, has no '/', and is taken at the leftmost `$arch` that is
      followed by something other than '/', as far as the next '/'; there is none iff no
      `$arch` is so followed. */
  lemma ArchSuffixMeaning(server: string)
    ensures ArchSuffix(server).None? <==> forall i :: 0 <= i ==> !SuffixAt(server, i)
    ensures ArchSuffix(server).Some? ==> exists i :: (SuffixAt(server, i)
      && (forall j :: 0 <= j < i ==> !SuffixAt(server, j))
      && ArchSuffix(server).value == UpToSlash(server[i + |ArchVariable|..])
      && ArchSuffix(server).value != [] && '/' !in ArchSuffix(server).value)
  {
    var r := FindSuffix(server, 0);
    if r.Some? {
      var i := r.value;
      var t := server[i + |ArchVariable|..];
      assert t[0] != '/';
      assert UpToSlash(t) != [];
    }
  }

  /** The server URL with every `$repo` replaced by the repository name and then every
      `$arch` by the architecture. */
  function ResolveServer(server: string, repoName: string, arch: string): string {
    ReplaceAll(ReplaceAll(server, RepoVariable, repoName), ArchVariable, arch)
  }

  /** A URL without variables is registered unchanged. */
  lemma ResolveServerPlain(server: string, repoName: string, arch: string)
    requires !Contains(server, RepoVariable) && !Contains(server, ArchVariable)
    ensures ResolveServer(server, repoName, arch) == server
  {
    ReplaceAbsent(server, RepoVariable, repoName);
    ReplaceAbsent(server, ArchVariable, arch);
  }

  // ---------------------------------------------------------------------------------------
  // The calls of Initialize

  /** The calls for one server of the repository `db`: the suffixed architecture when the URL
      has one, then the server itself. */
  function ServerActs(db: string, arch: string, server: string): seq<Act> {
    (match ArchSuffix(server)
     case Some(suffix) => [AddArchitecture(arch + suffix)]
     case None => [])
    + [AddServer(db, ResolveServer(server, db, arch))]
  }

  function ServerCalls(db: string, arch: string, servers: seq<string>): seq<Act>
    decreases |servers|
  {
    if servers == [] then []
    else ServerCalls(db, arch, servers[..|servers| - 1]) + ServerActs(db, arch, servers[|servers| - 1])
  }

  /** Whether the engine registers the repository (a null database pointer otherwise). */
  predicate Registers(native: Native, default: SigLevel, repo: Repo) {
    RegisterSyncDb(repo.name, EffectiveSigLevel(repo.sigLevel, default)) !in native.failing
  }

  /** The calls for one repository: its registration, and its servers only when it was
      registered. */
  function RepoActs(native: Native, default: SigLevel, arch: string, repo: Repo): seq<Act> {
    [RegisterSyncDb(repo.name, EffectiveSigLevel(repo.sigLevel, default))]
    + if Registers(native, default, repo) then ServerCalls(repo.name, arch, repo.servers) else []
  }

  function RepoCalls(native: Native, default: SigLevel, arch: string, repos: seq<Repo>): seq<Act>
    decreases |repos|
  {
    if repos == [] then []
    else RepoCalls(native, default, arch, repos[..|repos| - 1]) + RepoActs(native, default, arch, repos[|repos| - 1])
  }

  /** The sync databases the engine holds afterwards, in registration order. */
  function Registered(native: Native, default: SigLevel, repos: seq<Repo>): (r: seq<SyncDb>)
    ensures |r| <= |repos|
    decreases |repos|
  {
    if repos == [] then []
    else
      var repo := repos[|repos| - 1];
      Registered(native, default, repos[..|repos| - 1])
        + if Registers(native, default, repo)
          then [SyncDb(repo.name, EffectiveSigLevel(repo.sigLevel, default))] else []
  }

  lemma ServerCallsSnoc(db: string, arch: string, servers: seq<string>, j: nat)
    requires j < |servers|
    ensures ServerCalls(db, arch, servers[..j + 1]) == ServerCalls(db, arch, servers[..j]) + ServerActs(db, arch, servers[j])
  {
    assert servers[..j + 1][..j] == servers[..j];
  }

  lemma RepoCallsSnoc(native: Native, default: SigLevel, arch: string, repos: seq<Repo>, i: nat)
    requires i < |repos|
    ensures RepoCalls(native, default, arch, repos[..i + 1])
         == RepoCalls(native, default, arch, repos[..i]) + RepoActs(native, default, arch, repos[i])
    ensures Registered(native, default, repos[..i + 1])
         == Registered(native, default, repos[..i])
            + if Registers(native, default, repos[i])
              then [SyncDb(repos[i].name, EffectiveSigLevel(repos[i].sigLevel, default))] else []
  {
    assert repos[..i + 1][..i] == repos[..i];
  }

  /** Each server yields its `AddServer` call with the resolved URL, and an architecture call
      exactly for the URLs with a suffix; nothing else is called. */
  lemma {:induction false} ServerCallsMeaning(db: string, arch: string, servers: seq<string>)
    ensures forall s :: s in servers ==> AddServer(db, ResolveServer(s, db, arch)) in ServerCalls(db, arch, servers)
    ensures forall s :: s in servers && ArchSuffix(s).Some? ==>
      AddArchitecture(arch + ArchSuffix(s).value) in ServerCalls(db, arch, servers)
    ensures forall a :: a in ServerCalls(db, arch, servers) ==>
      (a.AddServer? && a.db == db) || a.AddArchitecture?
    decreases |servers|
  {
    if servers != [] {
      var init := servers[..|servers| - 1];
      ServerCallsMeaning(db, arch, init);
      assert servers == init + [servers[|servers| - 1]];
    }
  }

  /** Every repository is offered for registration, with its effective level, whether or not
      an earlier one failed; the servers of a registered repository are all added; and a
      server is only ever added to a repository that was registered. */
  lemma {:induction false} RepoCallsMeaning(native: Native, default: SigLevel, arch: string, repos: seq<Repo>)
    ensures forall repo :: repo in repos ==>
      RegisterSyncDb(repo.name, EffectiveSigLevel(repo.sigLevel, default)) in RepoCalls(native, default, arch, repos)
    ensures forall repo, s :: repo in repos && Registers(native, default, repo) && s in repo.servers ==>
      AddServer(repo.name, ResolveServer(s, repo.name, arch)) in RepoCalls(native, default, arch, repos)
    ensures forall a :: a in RepoCalls(native, default, arch, repos) && a.AddServer? ==>
      exists repo :: repo in repos && Registers(native, default, repo) && a.db == repo.name
    decreases |repos|
  {
    if repos != [] {
      var init := repos[..|repos| - 1];
      var last := repos[|repos| - 1];
      RepoCallsMeaning(native, default, arch, init);
      ServerCallsMeaning(last.name, arch, last.servers);
      assert repos == init + [last];
    }
  }

  /** The calls on a freshly opened handle before the repositories: the GnuPG directory
      (only when configured and running as root), the default and local-file levels (only
      when the default level is not `None`), the remote-file level, the cache directory
      (when configured), the architecture and "any" (when the resolved one is non-empty), and
      the four callbacks. */
  function SetupCalls(conf: PacmanConf, arch: string, root: bool): seq<Act> {
    SecurityCalls(conf, root) + PlatformCalls(conf, arch)
  }

  function SecurityCalls(conf: PacmanConf, root: bool): seq<Act> {
    (if !IsNullOrEmpty(conf.gpgDir) && root then [SetGpgDir(conf.gpgDir.value)] else [])
    + (if conf.sigLevel != SigNone
       then [SetDefaultSigLevel(conf.sigLevel), SetLocalFileSigLevel(conf.localFileSigLevel)] else [])
    + [SetRemoteFileSigLevel(conf.remoteFileSigLevel)]
  }

  function PlatformCalls(conf: PacmanConf, arch: string): seq<Act> {
    (if !IsNullOrEmpty(conf.cacheDir) then [AddCacheDir(conf.cacheDir.value)] else [])
    + (if arch != [] then [AddArchitecture(arch), AddArchitecture("any")] else [])
    + [SetCallback(FetchCallback), SetCallback(EventCallback), SetCallback(QuestionCallback),
       SetCallback(ProgressCallback)]
  }


  /** Everything `Initialize` asks of the engine once any previous handle is released: open
      the handle, and on an open error release it again; otherwise configure it and register
      the repositories. */
  function InitializeCalls(native: Native, conf: PacmanConf, process: Arch, root: bool): seq<Act> {
    var arch := ResolveArch(conf.architecture, process);
    [OpenHandle(conf.rootDirectory, conf.dbPath)]
    + if native.openError != 0 then [ReleaseHandle]
      else SetupCalls(conf, arch, root) + RepoCalls(native, conf.sigLevel, arch, conf.repos)
  }

  /** The repository calls only register databases, servers and architectures. */
  lemma {:induction false} ServerCallsKinds(db: string, arch: string, servers: seq<string>)
    ensures forall a :: a in ServerCalls(db, arch, servers) ==> a.AddServer? || a.AddArchitecture?
    decreases |servers|
  {
    if servers != [] {
      ServerCallsKinds(db, arch, servers[..|servers| - 1]);
    }
  }

  lemma {:induction false} RepoCallsKinds(native: Native, default: SigLevel, arch: string, repos: seq<Repo>)
    ensures forall a :: a in RepoCalls(native, default, arch, repos) ==>
      a.RegisterSyncDb? || a.AddServer? || a.AddArchitecture?
    decreases |repos|
  {
    if repos != [] {
      RepoCallsKinds(native, default, arch, repos[..|repos| - 1]);
      ServerCallsKinds(repos[|repos| - 1].name, arch, repos[|repos| - 1].servers);
    }
  }

  /** The default and local-file levels are among the calls iff the default is not `None`,
      whatever repository calls follow the setup. */
  lemma LevelsAmong(conf: PacmanConf, arch: string, root: bool, first: Act, rest: seq<Act>)
    requires !first.SetDefaultSigLevel? && !first.SetLocalFileSigLevel?
    requires forall a :: a in rest ==> a.RegisterSyncDb? || a.AddServer? || a.AddArchitecture?
    ensures SetDefaultSigLevel(conf.sigLevel) in [first] + SetupCalls(conf, arch, root) + rest
      <==> conf.sigLevel != SigNone
    ensures SetLocalFileSigLevel(conf.localFileSigLevel) in [first] + SetupCalls(conf, arch, root) + rest
      <==> conf.sigLevel != SigNone
  {
    var sec := SecurityCalls(conf, root);
    var plat := PlatformCalls(conf, arch);
    assert [first] + SetupCalls(conf, arch, root) + rest == [first] + sec + plat + rest;
    assert forall a :: a in plat ==> a.AddCacheDir? || a.AddArchitecture? || a.SetCallback?;
  }

  /** The signature levels: default and local-file set together iff the default is not
      `None`; the remote-file level always; a handle that failed to open is released and
      configured no further. */
  lemma InitializeSetsLevels(native: Native, conf: PacmanConf, process: Arch, root: bool)
    ensures native.openError != 0 ==>
      InitializeCalls(native, conf, process, root) == [OpenHandle(conf.rootDirectory, conf.dbPath), ReleaseHandle]
    ensures native.openError == 0 ==>
      SetRemoteFileSigLevel(conf.remoteFileSigLevel) in InitializeCalls(native, conf, process, root)
    ensures native.openError == 0 ==>
      (SetDefaultSigLevel(conf.sigLevel) in InitializeCalls(native, conf, process, root)
       <==> conf.sigLevel != SigNone)
    ensures native.openError == 0 ==>
      (SetLocalFileSigLevel(conf.localFileSigLevel) in InitializeCalls(native, conf, process, root)
       <==> conf.sigLevel != SigNone)
    ensures native.openError == 0 && root && conf.gpgDir.Some? && conf.gpgDir.value != [] ==>
      SetGpgDir(conf.gpgDir.value) in InitializeCalls(native, conf, process, root)
    ensures !root ==> forall a :: a in SetupCalls(conf, ResolveArch(conf.architecture, process), root) ==> !a.SetGpgDir?
  {
    var arch := ResolveArch(conf.architecture, process);
    var calls := SetupCalls(conf, arch, root);
    if native.openError == 0 {
      var rest := RepoCalls(native, conf.sigLevel, arch, conf.repos);
      RepoCallsKinds(native, conf.sigLevel, arch, conf.repos);
      assert InitializeCalls(native, conf, process, root) == [OpenHandle(conf.rootDirectory, conf.dbPath)] + calls + rest;
      LevelsAmong(conf, arch, root, OpenHandle(conf.rootDirectory, conf.dbPath), rest);
    }
  }

  /** The resolved architecture and "any" are registered iff the resolved one is non-empty,
      which it always is when "auto" was configured. */
  lemma InitializeRegistersArch(native: Native, conf: PacmanConf, process: Arch, root: bool)
    requires native.openError == 0
    ensures var arch := ResolveArch(conf.architecture, process);
      arch != [] ==>
        AddArchitecture(arch) in InitializeCalls(native, conf, process, root)
        && AddArchitecture("any") in InitializeCalls(native, conf, process, root)
    ensures EqualsIgnoreCase(conf.architecture, "auto") ==> ResolveArch(conf.architecture, process) != []
  {
    var arch := ResolveArch(conf.architecture, process);
    var calls := SetupCalls(conf, arch, root);
    var rest := RepoCalls(native, conf.sigLevel, arch, conf.repos);
    assert InitializeCalls(native, conf, process, root) == [OpenHandle(conf.rootDirectory, conf.dbPath)] + calls + rest;
  }

  /** `Path.Combine(DbPath, "db.lck")`: the lock file `Initialize` removes when it can. */
  function LockPath(conf: PacmanConf): string {
    Combine(conf.dbPath, "db.lck")
  }
}
