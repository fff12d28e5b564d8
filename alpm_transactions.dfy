/** The transaction runner of `AlpmManager`: what each operation asks of the engine, in
    order, and how it ends, given the engine's answers. The manager class runs these same
    sequences against its state; the lemmas here are about the sequences themselves. */
module AlpmTransactions {
  import opened Wrappers
  import opened Text
  import opened AlpmTypes

  /** The step of a transaction whose refusal an operation reports. */
  datatype Step = InitStep | AddStep | RemoveStep | SysupgradeStep | PrepareStep | CommitStep

  /** The exceptions the operations throw. `Wrapped` is the "Failed to initialize
      transaction: ..." exception that `SyncSystemUpdate` and `InstallLocalPackage` rethrow. */
  datatype Error =
    | OpenFailed(code: int)
    | NotFound(name: string)
    | LoadFailed(path: string)
    | StepFailed(step: Step)
    | Wrapped(inner: Error)

  /** The calls an operation makes and how it ends. */
  datatype Run = Run(calls: seq<Act>, outcome: Outcome<Error>)

  /** Whether the engine accepts the call `a` while its transaction is `t`: a transaction can
      only be begun when none is active, packages can only be added or removed and a
      transaction prepared or committed while one is, and a null package is never accepted. */
  predicate Accepts(native: Native, t: Option<Transaction>, a: Act) {
    a !in native.failing
    && (a.TransInit? ==> t.None?)
    && (NeedsTransaction(a) ==> t.Some?)
    && !a.AddNullPkg?
  }

  /** The calls that act on an active transaction. */
  predicate NeedsTransaction(a: Act) {
    a.AddPkg? || a.RemovePkg? || a.SyncSysupgrade? || a.TransPrepare? || a.TransCommit?
  }

  /** The transaction after the call `a`, which the engine accepted iff `ok`: releasing ends
      it, beginning starts an empty one, and adding, removing and marking an upgrade extend
      its lists. */
  function After(native: Native, t: Option<Transaction>, a: Act, ok: bool): Option<Transaction> {
    if a.TransRelease? then None
    else if !ok then t
    else if a.TransInit? then Some(Transaction(a.flags, [], []))
    else if t.None? then t
    else if a.AddPkg? then Some(t.value.(add := t.value.add + [a.pkg]))
    else if a.RemovePkg? then Some(t.value.(remove := t.value.remove + [a.pkg]))
    else if a.SyncSysupgrade? then Some(t.value.(add := t.value.add + native.upgrades))
    else t
  }

  /** `TransGetAdd(...) == 0 && TransGetRemove(...) == 0`. */
  predicate NothingToDo(t: Option<Transaction>) {
    t.None? || (t.value.add == [] && t.value.remove == [])
  }

  /** What a run of guarded steps did: the calls made, the one the engine refused (the last
      call made) if any, and the transaction afterwards. */
  datatype Steps = Steps(calls: seq<Act>, failed: Option<Act>, trans: Option<Transaction>)

  /** Makes the calls `acts` in order, stopping after the first one the engine refuses. */
  function RunSteps(native: Native, t: Option<Transaction>, acts: seq<Act>): (r: Steps)
    ensures r.failed.None? ==> r.calls == acts
    ensures r.failed.Some? ==> 0 < |r.calls| <= |acts| && r.failed.value == acts[|r.calls| - 1]
    ensures r.calls == acts[..|r.calls|]
    decreases |acts|
  {
    if acts == [] then Steps([], None, t)
    else if Accepts(native, t, acts[0]) then
      var rest := RunSteps(native, After(native, t, acts[0], true), acts[1..]);
      assert acts == [acts[0]] + acts[1..];
      Steps([acts[0]] + rest.calls, rest.failed, rest.trans)
    else Steps([acts[0]], Some(acts[0]), t)
  }

  /** One step of `RunSteps`: the first call is made; if accepted, the rest follow from the
      state it leaves. */
  lemma RunStepsCons(native: Native, t: Option<Transaction>, a: Act, rest: seq<Act>)
    ensures RunSteps(native, t, [a] + rest)
      == if Accepts(native, t, a) then
           var r := RunSteps(native, After(native, t, a, true), rest);
           Steps([a] + r.calls, r.failed, r.trans)
         else Steps([a], Some(a), t)
  {
    assert ([a] + rest)[0] == a && ([a] + rest)[1..] == rest;
  }

  /** Running `xs` then `ys` is running `xs` and, unless it was refused somewhere, `ys` from
      the state `xs` left. */
  lemma {:induction false} RunStepsAppend(native: Native, t: Option<Transaction>, xs: seq<Act>, ys: seq<Act>)
    ensures var r1 := RunSteps(native, t, xs);
      RunSteps(native, t, xs + ys)
        == if r1.failed.Some? then r1
           else var r2 := RunSteps(native, r1.trans, ys); Steps(r1.calls + r2.calls, r2.failed, r2.trans)
    decreases |xs|
  {
    if xs == [] {
      assert xs + ys == ys;
    } else {
      assert (xs + ys)[0] == xs[0] && (xs + ys)[1..] == xs[1..] + ys;
      if Accepts(native, t, xs[0]) {
        RunStepsAppend(native, After(native, t, xs[0], true), xs[1..], ys);
      }
    }
  }

  /** One more call after steps that were all accepted. */
  lemma RunStepsSnoc(native: Native, t: Option<Transaction>, xs: seq<Act>, a: Act)
    requires RunSteps(native, t, xs).failed.None?
    ensures var r := RunSteps(native, t, xs);
      RunSteps(native, t, xs + [a])
        == if Accepts(native, r.trans, a) then Steps(r.calls + [a], None, After(native, r.trans, a, true))
           else Steps(r.calls + [a], Some(a), r.trans)
  {
    RunStepsAppend(native, t, xs, [a]);
    var r := RunSteps(native, t, xs);
    RunStepsCons(native, r.trans, a, []);
    assert [a] + [] == [a];
  }

  /** Once a prefix of the calls was refused, the rest are never made. */
  lemma RunStepsRefusedPrefix(native: Native, t: Option<Transaction>, xs: seq<Act>, k: nat)
    requires k <= |xs| && RunSteps(native, t, xs[..k]).failed.Some?
    ensures RunSteps(native, t, xs) == RunSteps(native, t, xs[..k])
  {
    RunStepsAppend(native, t, xs[..k], xs[k..]);
    assert xs[..k] + xs[k..] == xs;
  }

  /** The step a loop over `acts` takes at index `i`: an accepted call extends the steps
      run so far, and a refused one ends the whole run. */
  lemma RunStepsNext(native: Native, t: Option<Transaction>, acts: seq<Act>, i: nat)
    requires i < |acts| && RunSteps(native, t, acts[..i]).failed.None?
    ensures var r := RunSteps(native, t, acts[..i]);
      Accepts(native, r.trans, acts[i]) ==>
        RunSteps(native, t, acts[..i + 1]) == Steps(r.calls + [acts[i]], None, After(native, r.trans, acts[i], true))
    ensures var r := RunSteps(native, t, acts[..i]);
      !Accepts(native, r.trans, acts[i]) ==>
        RunSteps(native, t, acts) == Steps(r.calls + [acts[i]], Some(acts[i]), r.trans)
  {
    RunStepsSnoc(native, t, acts[..i], acts[i]);
    TakeSnoc(acts, i);
    var r := RunSteps(native, t, acts[..i]);
    if !Accepts(native, r.trans, acts[i]) {
      RunStepsRefusedPrefix(native, t, acts, i + 1);
    }
  }

  /** Every call before the refused one was accepted, and the refused one really was refused:
      the steps run in order and the first refusal stops them. */
  lemma {:induction false} RunStepsStopsAtFirstRefusal(native: Native, t: Option<Transaction>, acts: seq<Act>)
    ensures var r := RunSteps(native, t, acts);
      r.failed.Some? ==> !Accepts(native, StateBefore(native, t, acts, |r.calls| - 1), r.failed.value)
    ensures var r := RunSteps(native, t, acts);
      forall k :: 0 <= k < |r.calls| && (r.failed.None? || k < |r.calls| - 1) ==>
        Accepts(native, StateBefore(native, t, acts, k), acts[k])
    decreases |acts|
  {
    if acts != [] && Accepts(native, t, acts[0]) {
      var t1 := After(native, t, acts[0], true);
      RunStepsStopsAtFirstRefusal(native, t1, acts[1..]);
      var r := RunSteps(native, t, acts);
      var rest := RunSteps(native, t1, acts[1..]);
      assert r.calls == [acts[0]] + rest.calls && r.failed == rest.failed;
      if r.failed.Some? {
        StateBeforeTail(native, t, acts, |r.calls| - 1);
      }
      forall k | 0 <= k < |r.calls| && (r.failed.None? || k < |r.calls| - 1)
        ensures Accepts(native, StateBefore(native, t, acts, k), acts[k])
      {
        if k > 0 {
          StateBeforeTail(native, t, acts, k);
          assert acts[k] == acts[1..][k - 1];
        }
      }
    }
  }

  /** The transaction just before the `k`-th of `acts`, all earlier ones having been accepted. */
  function StateBefore(native: Native, t: Option<Transaction>, acts: seq<Act>, k: nat): Option<Transaction>
    requires k <= |acts|
    decreases k
  {
    if k == 0 then t else After(native, StateBefore(native, t, acts, k - 1), acts[k - 1], true)
  }

  lemma {:induction false} StateBeforeTail(native: Native, t: Option<Transaction>, acts: seq<Act>, k: nat)
    requires 0 < k <= |acts|
    ensures StateBefore(native, t, acts, k)
         == StateBefore(native, After(native, t, acts[0], true), acts[1..], k - 1)
    decreases k
  {
    if k > 1 {
      StateBeforeTail(native, t, acts, k - 1);
    }
  }

  /** The exception thrown when the engine refuses `a`. */
  function StepError(a: Act): Error {
    match a
    case TransInit(_) => StepFailed(InitStep)
    case AddPkg(_) => StepFailed(AddStep)
    case AddNullPkg => StepFailed(AddStep)
    case RemovePkg(_) => StepFailed(RemoveStep)
    case SyncSysupgrade => StepFailed(SysupgradeStep)
    case TransPrepare => StepFailed(PrepareStep)
    case _ => StepFailed(CommitStep)
  }

  function StepsOutcome(r: Steps): Outcome<Error> {
    if r.failed.Some? then Fail(StepError(r.failed.value)) else Pass
  }

  /** The install and remove variants: `TransInit` outside the `try`, so a refused init throws
      with nothing to release; otherwise the steps run inside `try`/`finally` and the
      transaction is released once, last. */
  function BeginOutside(native: Native, flags: TransFlags, steps: seq<Act>): (run: Run) {
    if !Accepts(native, None, TransInit(flags)) then
      Run([TransInit(flags)], Fail(StepFailed(InitStep)))
    else
      var r := RunSteps(native, Some(Transaction(flags, [], [])), steps);
      Run([TransInit(flags)] + r.calls + [TransRelease], StepsOutcome(r))
  }

  function AddAll(pkgs: seq<Package>): (r: seq<Act>)
    ensures |r| == |pkgs| && forall i :: 0 <= i < |pkgs| ==> r[i] == AddPkg(pkgs[i])
  {
    seq(|pkgs|, i requires 0 <= i < |pkgs| => AddPkg(pkgs[i]))
  }

  function RemoveAll(pkgs: seq<Package>): (r: seq<Act>)
    ensures |r| == |pkgs| && forall i :: 0 <= i < |pkgs| ==> r[i] == RemovePkg(pkgs[i])
  {
    seq(|pkgs|, i requires 0 <= i < |pkgs| => RemovePkg(pkgs[i]))
  }

  /** Adding or removing packages and then preparing and committing never releases. */
  lemma AddAllNoRelease(pkgs: seq<Package>)
    ensures TransRelease !in AddAll(pkgs) + PrepareCommit
  {
    var acts := AddAll(pkgs) + PrepareCommit;
    forall i | 0 <= i < |acts| ensures acts[i] != TransRelease {
      if i < |pkgs| { assert acts[i] == AddPkg(pkgs[i]); }
    }
  }

  lemma RemoveAllNoRelease(pkgs: seq<Package>)
    ensures TransRelease !in RemoveAll(pkgs) + PrepareCommit
  {
    var acts := RemoveAll(pkgs) + PrepareCommit;
    forall i | 0 <= i < |acts| ensures acts[i] != TransRelease {
      if i < |pkgs| { assert acts[i] == RemovePkg(pkgs[i]); }
    }
  }

  const PrepareCommit: seq<Act> := [TransPrepare, TransCommit]

  // ---------------------------------------------------------------------------------------
  // Resolving names

  /** The first sync database (in registration order) that has a package of that name, and
      that package. */
  function FindInCaches(caches: seq<seq<Package>>, name: string): (r: Option<Package>)
    ensures r.Some? ==> r.value.name == name
    ensures r.None? <==> forall i :: 0 <= i < |caches| ==> Lookup(caches[i], name).None?
  {
    if caches == [] then None
    else if Lookup(caches[0], name).Some? then Lookup(caches[0], name)
    else FindInCaches(caches[1..], name)
  }

  /** Name resolution in the sync databases, as `InstallPackages` does it. */
  function SyncFinder(caches: seq<seq<Package>>): string -> Option<Package> {
    n => FindInCaches(caches, n)
  }

  /** Name resolution in the local database, as `RemovePackages` does it. */
  function LocalFinder(native: Native): string -> Option<Package> {
    n => Lookup(native.local, n)
  }

  /** The package found for each name in turn, or the first name not found. */
  function ResolveAll(find: string -> Option<Package>, names: seq<string>): (r: Result<seq<Package>, string>)
    ensures r.Ok? ==> |r.value| == |names|
    decreases |names|
  {
    if names == [] then Ok([])
    else match ResolveAll(find, names[..|names| - 1])
      case Err(n) => Err(n)
      case Ok(pkgs) =>
        match find(names[|names| - 1])
        case None => Err(names[|names| - 1])
        case Some(p) => Ok(pkgs + [p])
  }

  /** Resolution succeeds exactly when every name resolves, and then yields the packages
      found, in order; when it fails, the name reported is the first that does not resolve. */
  lemma {:induction false} ResolveAllMeaning(find: string -> Option<Package>, names: seq<string>)
    ensures ResolveAll(find, names).Ok? <==> forall i :: 0 <= i < |names| ==> find(names[i]).Some?
    ensures ResolveAll(find, names).Ok? ==>
      forall i :: 0 <= i < |names| ==> ResolveAll(find, names).value[i] == find(names[i]).value
    ensures ResolveAll(find, names).Err? ==> exists k :: (0 <= k < |names|
      && ResolveAll(find, names).error == names[k] && find(names[k]).None?
      && forall j :: 0 <= j < k ==> find(names[j]).Some?)
    decreases |names|
  {
    if names != [] {
      var init := names[..|names| - 1];
      ResolveAllMeaning(find, init);
      assert forall i :: 0 <= i < |init| ==> init[i] == names[i];
    }
  }

  /** One more name resolved after the first `i`. */
  lemma ResolveAllSnoc(find: string -> Option<Package>, names: seq<string>, i: nat, pkgs: seq<Package>)
    requires i < |names| && ResolveAll(find, names[..i]) == Ok(pkgs)
    ensures ResolveAll(find, names[..i + 1])
         == if find(names[i]).None? then Err(names[i]) else Ok(pkgs + [find(names[i]).value])
  {
    assert names[..i + 1][..i] == names[..i];
  }

  lemma {:induction false} ResolveAllPrefix(find: string -> Option<Package>, names: seq<string>, k: nat)
    requires k <= |names|
    requires ResolveAll(find, names[..k]).Err?
    ensures ResolveAll(find, names) == ResolveAll(find, names[..k])
    decreases |names| - k
  {
    if k < |names| {
      assert names[..k + 1][..k] == names[..k];
      ResolveAllPrefix(find, names, k + 1);
    } else {
      assert names[..k] == names;
    }
  }

  // ---------------------------------------------------------------------------------------
  // The operations

  /** `InstallPackage`: resolve the name in the sync databases, normalise the flags, then
      init (outside `try`), add, prepare, commit, release. */
  function InstallPackageRun(native: Native, caches: seq<seq<Package>>, name: string, flags: TransFlags): Run {
    match FindInCaches(caches, name)
    case None => Run([], Fail(NotFound(name)))
    case Some(p) => BeginOutside(native, NormalizeFlags(flags), [AddPkg(p)] + PrepareCommit)
  }

  /** `InstallPackages`: resolve every name first; an empty list does nothing. */
  function InstallPackagesRun(native: Native, caches: seq<seq<Package>>, names: seq<string>, flags: TransFlags): Run {
    match ResolveAll(SyncFinder(caches), names)
    case Err(n) => Run([], Fail(NotFound(n)))
    case Ok(pkgs) =>
      if pkgs == [] then Run([], Pass)
      else BeginOutside(native, NormalizeFlags(flags), AddAll(pkgs) + PrepareCommit)
  }

  /** `RemovePackages`: resolve every name in the local database first. */
  function RemovePackagesRun(native: Native, names: seq<string>, flags: TransFlags): Run {
    match ResolveAll(LocalFinder(native), names)
    case Err(n) => Run([], Fail(NotFound(n)))
    case Ok(pkgs) =>
      if pkgs == [] then Run([], Pass)
      else BeginOutside(native, NormalizeFlags(flags), RemoveAll(pkgs) + PrepareCommit)
  }

  /** `RemovePackage`: the flags are passed on as given. */
  function RemovePackageRun(native: Native, name: string, flags: TransFlags): Run {
    match Lookup(native.local, name)
    case None => Run([], Fail(NotFound(name)))
    case Some(p) => BeginOutside(native, flags, [RemovePkg(p)] + PrepareCommit)
  }

  /** `CheckTransactionReplaces`: one notice per package of the add list that replaces
      others, in add-list order. */
  function ReplacesNotices(add: seq<Package>): (r: seq<Act>)
    ensures forall a :: a in r ==> a.ReplacesNotice?
    decreases |add|
  {
    if add == [] then []
    else
      var p := add[|add| - 1];
      ReplacesNotices(add[..|add| - 1])
        + (if |p.replaced| > 0 then [ReplacesNotice(p.name, p.repository, p.replaced)] else [])
  }

  function AddList(t: Option<Transaction>): seq<Package> {
    if t.Some? then t.value.add else []
  }

  /** `SyncSystemUpdate`: refresh the databases, then inside `try`: init, mark the upgrade,
      prepare, announce replacements, commit; any failure is rethrown wrapped; release always. */
  function SyncSystemUpdateRun(native: Native, flags: TransFlags): Run {
    var r1 := RunSteps(native, None, [TransInit(flags), SyncSysupgrade, TransPrepare]);
    if r1.failed.Some? then
      Run([DbUpdate(true)] + r1.calls + [TransRelease], Fail(Wrapped(StepError(r1.failed.value))))
    else
      var c := AnnounceAndCommit(native, r1.trans);
      Run([DbUpdate(true)] + r1.calls + c.calls, c.outcome)
  }

  /** The rest of `SyncSystemUpdate` once the transaction `t` is prepared: the replacement
      notices, the commit (a refusal rethrown wrapped) and the release. */
  function AnnounceAndCommit(native: Native, t: Option<Transaction>): Run {
    var r2 := RunSteps(native, t, [TransCommit]);
    Run(ReplacesNotices(AddList(t)) + r2.calls + [TransRelease],
        if r2.failed.Some? then Fail(Wrapped(StepError(r2.failed.value))) else Pass)
  }

  /** The newer sync versions of the named packages, skipping names that are not installed or
      have no newer version. */
  function Upgradable(native: Native, names: seq<string>): (r: seq<Package>)
    ensures |r| <= |names|
    decreases |names|
  {
    if names == [] then []
    else
      var rest := Upgradable(native, names[..|names| - 1]);
      match Lookup(native.local, names[|names| - 1])
      case None => rest
      case Some(installed) =>
        if installed in native.newVersion then rest + [native.newVersion[installed]] else rest
  }

  /** The packages of `pkgs` whose `AddPkg` the engine accepts. */
  function Accepted(native: Native, pkgs: seq<Package>): (r: seq<Package>)
    ensures forall p :: p in r ==> p in pkgs && AddPkg(p) !in native.failing
    decreases |pkgs|
  {
    if pkgs == [] then []
    else
      var p := pkgs[|pkgs| - 1];
      Accepted(native, pkgs[..|pkgs| - 1]) + (if AddPkg(p) in native.failing then [] else [p])
  }

  /** One more package offered: its `AddPkg` call, and the package itself when accepted. */
  lemma AcceptedSnoc(native: Native, pkgs: seq<Package>, i: nat)
    requires i < |pkgs|
    ensures AddAll(pkgs[..i + 1]) == AddAll(pkgs[..i]) + [AddPkg(pkgs[i])]
    ensures Accepted(native, pkgs[..i + 1])
         == Accepted(native, pkgs[..i]) + if AddPkg(pkgs[i]) in native.failing then [] else [pkgs[i]]
  {
    assert pkgs[..i + 1][..i] == pkgs[..i];
  }

  /** `UpdatePackages`: refresh the databases, then inside `try`: collect the upgradable
      packages, init, add each (ignoring refusals), and prepare and commit unless the
      transaction is empty; release always. */
  function UpdatePackagesRun(native: Native, names: seq<string>, flags: TransFlags): Run {
    var offer := OfferAll(native, Upgradable(native, names), flags);
    Run([DbUpdate(true)] + offer.calls, offer.outcome)
  }

  /** Init, then every package of `pkgs` offered to the transaction, and the end of the
      update; a refused init is rethrown after the release. */
  function OfferAll(native: Native, pkgs: seq<Package>, flags: TransFlags): Run {
    if !Accepts(native, None, TransInit(flags)) then
      Run([TransInit(flags), TransRelease], Fail(StepFailed(InitStep)))
    else
      var c := CommitUnlessEmpty(native, Some(Transaction(flags, Accepted(native, pkgs), [])));
      Run([TransInit(flags)] + AddAll(pkgs) + c.calls, c.outcome)
  }

  /** The end of the update operations once the transaction `t` holds what they marked:
      nothing but the release when it is empty, otherwise prepare and commit (stopping at a
      refusal) and then the release. */
  function CommitUnlessEmpty(native: Native, t: Option<Transaction>): Run {
    if NothingToDo(t) then Run([TransRelease], Pass)
    else
      var r := RunSteps(native, t, PrepareCommit);
      Run(r.calls + [TransRelease], StepsOutcome(r))
  }

  /** `UpdateSinglePackage` and `UpdateAll`: refresh the databases, then inside `try`: init,
      `mark` (adding the installed package, or marking a system upgrade), and prepare and
      commit unless the transaction is empty; release always. */
  function MarkAndCommitRun(native: Native, flags: TransFlags, mark: Act): Run {
    var r1 := RunSteps(native, None, [TransInit(flags), mark]);
    if r1.failed.Some? then
      Run([DbUpdate(true)] + r1.calls + [TransRelease], StepsOutcome(r1))
    else
      var c := CommitUnlessEmpty(native, r1.trans);
      Run([DbUpdate(true)] + r1.calls + c.calls, c.outcome)
  }

  /** `UpdateSinglePackage` adds the package as found in the local database (a null pointer
      when it is not installed). */
  function UpdateSinglePackageRun(native: Native, name: string, flags: TransFlags): Run {
    var mark := match Lookup(native.local, name)
      case Some(p) => AddPkg(p)
      case None => AddNullPkg;
    MarkAndCommitRun(native, flags, mark)
  }

  function UpdateAllRun(native: Native, flags: TransFlags): Run {
    MarkAndCommitRun(native, flags, SyncSysupgrade)
  }

  // ---------------------------------------------------------------------------------------
  // InstallLocalPackage

  /** The `PkgFree` calls made after the guarded steps `r` of `InstallLocalPackage`, as the
      source is written: when `AddPkg` is refused the package is freed in that branch and again
      in the `catch`. */
  function LocalFreesAsWritten(r: Steps, p: Package): seq<Act> {
    if r.failed.None? then []
    else if r.failed.value.AddPkg? then [PkgFree(p), PkgFree(p)]
    else [PkgFree(p)]
  }

  /** The same, corrected: the package is freed only in the branch where `AddPkg` refused it.
      Once `AddPkg` accepted it, libalpm's transaction owns it and `TransRelease` frees it,
      so the `catch` frees nothing. */
  function LocalFrees(r: Steps, p: Package): seq<Act> {
    if r.failed == Some(AddPkg(p)) then [PkgFree(p)] else []
  }

  /** Whether the transaction owns `p` when it is released: the first step, `AddPkg(p)`, was
      accepted (`alpm_add_pkg` hands the loaded package over to the transaction). */
  predicate HandedOver(r: Steps, p: Package) {
    r.failed != Some(AddPkg(p))
  }

  /** `InstallLocalPackage`: load the file, init (outside `try`; freeing the package when
      refused), then add, prepare and commit inside `try`/`catch`/`finally`: a failure makes
      the frees of `LocalFreesAsWritten` (or, corrected, `LocalFrees`) and is rethrown wrapped,
      and the `finally` releases and then runs `refresh` (which may itself throw, replacing any
      pending exception). */
  function InstallLocalPackageWith(native: Native, path: string, flags: TransFlags, refresh: Run, asWritten: bool): Run {
    var load := PkgLoad(path, LocalPackageSigLevel);
    if !Accepts(native, None, load) || path !in native.packageFiles then
      Run([load], Fail(LoadFailed(path)))
    else
      var p := native.packageFiles[path];
      if !Accepts(native, None, TransInit(flags)) then
        Run([load, TransInit(flags), PkgFree(p)], Fail(StepFailed(InitStep)))
      else
        var r := RunSteps(native, Some(Transaction(flags, [], [])), [AddPkg(p)] + PrepareCommit);
        var frees := if asWritten then LocalFreesAsWritten(r, p) else LocalFrees(r, p);
        var body := if r.failed.Some? then Fail(Wrapped(StepError(r.failed.value))) else Pass;
        Run([load, TransInit(flags)] + r.calls + frees + [TransRelease] + refresh.calls,
            if refresh.outcome.Fail? then refresh.outcome else body)
  }

  /** How many times `InstallLocalPackage` frees the loaded package: its own `PkgFree` calls,
      plus the free `TransRelease` performs when the transaction owns the package. */
  function TimesFreed(native: Native, path: string, flags: TransFlags, refresh: Run, asWritten: bool): nat
    requires Accepts(native, None, PkgLoad(path, LocalPackageSigLevel)) && path in native.packageFiles
  {
    var p := native.packageFiles[path];
    var r := RunSteps(native, Some(Transaction(flags, [], [])), [AddPkg(p)] + PrepareCommit);
    Count(InstallLocalPackageWith(native, path, flags, refresh, asWritten).calls, PkgFree(p))
    + if Accepts(native, None, TransInit(flags)) && HandedOver(r, p) then 1 else 0
  }

  function InstallLocalPackageAsWritten(native: Native, path: string, flags: TransFlags, refresh: Run): Run {
    InstallLocalPackageWith(native, path, flags, refresh, true)
  }

  function InstallLocalPackageRun(native: Native, path: string, flags: TransFlags, refresh: Run): Run {
    InstallLocalPackageWith(native, path, flags, refresh, false)
  }

  /** `InstallLocalPackage` without a refresh, once the file is loaded: the load, then what
      `TransInit` and the `try` add. */
  lemma LocalInstallShape(native: Native, path: string, flags: TransFlags)
    ensures !Accepts(native, None, PkgLoad(path, LocalPackageSigLevel)) || path !in native.packageFiles ==>
      InstallLocalPackageRun(native, path, flags, Run([], Pass)) == Run([PkgLoad(path, LocalPackageSigLevel)], Fail(LoadFailed(path)))
    ensures Accepts(native, None, PkgLoad(path, LocalPackageSigLevel)) && path in native.packageFiles ==>
      var run := InstallLocalPackageRun(native, path, flags, Run([], Pass));
      var p := native.packageFiles[path];
      var r := RunSteps(native, Some(Transaction(flags, [], [])), [AddPkg(p)] + PrepareCommit);
      if !Accepts(native, None, TransInit(flags)) then
        run == Run([PkgLoad(path, LocalPackageSigLevel)] + [TransInit(flags), PkgFree(p)], Fail(StepFailed(InitStep)))
      else
        run.calls == [PkgLoad(path, LocalPackageSigLevel)] + ([TransInit(flags)] + (r.calls + LocalFrees(r, p) + [TransRelease]))
        && run.outcome == if r.failed.Some? then Fail(Wrapped(StepError(r.failed.value))) else Pass
  {
    if Accepts(native, None, PkgLoad(path, LocalPackageSigLevel)) && path in native.packageFiles {
      var p := native.packageFiles[path];
      var r := RunSteps(native, Some(Transaction(flags, [], [])), [AddPkg(p)] + PrepareCommit);
      var load := PkgLoad(path, LocalPackageSigLevel);
      assert [load, TransInit(flags)] + r.calls + LocalFrees(r, p) + [TransRelease] + []
          == [load] + ([TransInit(flags)] + (r.calls + LocalFrees(r, p) + [TransRelease]));
    }
  }

  /** Whether `InstallLocalPackage` gets past loading the file and beginning the
      transaction, into the `try` whose `finally` refreshes the session. */
  predicate LocalInstallReached(native: Native, path: string, flags: TransFlags) {
    Accepts(native, None, PkgLoad(path, LocalPackageSigLevel)) && path in native.packageFiles
    && Accepts(native, None, TransInit(flags))
  }

  /** The refresh only runs once the `try` is reached, last, and its failure replaces the
      outcome: the run with a refresh is the run without one followed by the refresh. */
  lemma InstallLocalPackageRefresh(native: Native, path: string, flags: TransFlags, refresh: Run)
    ensures var bare := InstallLocalPackageRun(native, path, flags, Run([], Pass));
      var run := InstallLocalPackageRun(native, path, flags, refresh);
      if LocalInstallReached(native, path, flags) then
        run.calls == bare.calls + refresh.calls
        && run.outcome == if refresh.outcome.Fail? then refresh.outcome else bare.outcome
      else run == bare
  {
    if LocalInstallReached(native, path, flags) {
      var p := native.packageFiles[path];
      var r := RunSteps(native, Some(Transaction(flags, [], [])), [AddPkg(p)] + PrepareCommit);
      var pre := [PkgLoad(path, LocalPackageSigLevel), TransInit(flags)] + r.calls + LocalFrees(r, p) + [TransRelease];
      assert pre + [] == pre;
    }
  }

  // ---------------------------------------------------------------------------------------
  // Queries

  /** Whether some sync database has a package of that name. */
  predicate InSomeCache(caches: seq<seq<Package>>, name: string) {
    exists i :: 0 <= i < |caches| && Lookup(caches[i], name).Some?
  }

  /** `GetForeignPackages`: the installed packages found in no sync database, in order. */
  function Foreign(local: seq<Package>, caches: seq<seq<Package>>): (r: seq<Package>)
    decreases |local|
  {
    if local == [] then []
    else
      var p := local[|local| - 1];
      Foreign(local[..|local| - 1], caches) + (if InSomeCache(caches, p.name) then [] else [p])
  }

  /** `GetAvailablePackages`: the caches of the valid databases, concatenated in order. */
  function Available(native: Native, dbs: seq<SyncDb>): (r: seq<Package>)
    decreases |dbs|
  {
    if dbs == [] then []
    else
      var db := dbs[|dbs| - 1];
      Available(native, dbs[..|dbs| - 1]) + (if db.name in native.invalid then [] else Contents(native, db.name))
  }

  function Caches(native: Native, dbs: seq<SyncDb>): (r: seq<seq<Package>>)
    ensures |r| == |dbs| && forall i :: 0 <= i < |dbs| ==> r[i] == Contents(native, dbs[i].name)
  {
    seq(|dbs|, i requires 0 <= i < |dbs| => Contents(native, dbs[i].name))
  }
}
