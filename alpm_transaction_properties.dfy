/** What the transaction runner guarantees: release discipline, resolution before the
    transaction begins, flag normalisation, step order, replacement notices between prepare
    and commit, the no-op short-circuits, and the one-or-two frees of `InstallLocalPackage`. */
module AlpmTransactionProperties {
  import opened Wrappers
  import opened AlpmTypes
  import opened AlpmTransactions

  /** The last call of a non-empty log. */
  function Last(calls: seq<Act>): Act
    requires calls != []
  {
    calls[|calls| - 1]
  }

  /** A log that holds `TransRelease` exactly once, as its last call. */
  predicate ReleasedOnceLast(calls: seq<Act>) {
    calls != [] && Last(calls) == TransRelease && Count(calls, TransRelease) == 1
  }

  lemma CountSingleton(a: Act, b: Act)
    ensures Count([a], b) == if a == b then 1 else 0
  {
    assert [a][..0] == [];
  }

  /** `pre + [TransRelease]` releases once, last, when `pre` never releases. */
  lemma ReleaseAppended(pre: seq<Act>)
    requires TransRelease !in pre
    ensures ReleasedOnceLast(pre + [TransRelease])
  {
    CountAppend(pre, [TransRelease], TransRelease);
    CountSingleton(TransRelease, TransRelease);
  }

  /** Calls that never release, put before a log that releases once, last, keep it so. */
  lemma PrefixKeepsRelease(pre: seq<Act>, calls: seq<Act>)
    requires TransRelease !in pre && ReleasedOnceLast(calls)
    ensures ReleasedOnceLast(pre + calls)
  {
    CountAppend(pre, calls, TransRelease);
  }

  /** Guarded steps never release: the steps of every operation exclude `TransRelease`. */
  lemma StepsDoNotRelease(native: Native, t: Option<Transaction>, acts: seq<Act>)
    requires TransRelease !in acts
    ensures TransRelease !in RunSteps(native, t, acts).calls
  {
    var r := RunSteps(native, t, acts);
    assert forall a :: a in r.calls ==> a in acts;
  }

  /** The shape of the install and remove variants once the name(s) resolved: a refused
      `TransInit` is the only call and nothing is released; otherwise the calls are `TransInit`,
      a non-empty prefix of the steps, and one final `TransRelease`, and the operation succeeds
      exactly when every step was accepted. */
  lemma BeginOutsideShape(native: Native, flags: TransFlags, steps: seq<Act>)
    requires steps != [] && TransRelease !in steps
    ensures var run := BeginOutside(native, flags, steps);
      !Accepts(native, None, TransInit(flags)) ==>
        run.calls == [TransInit(flags)] && run.outcome == Fail(StepFailed(InitStep))
    ensures var run := BeginOutside(native, flags, steps);
      Accepts(native, None, TransInit(flags)) ==>
        ReleasedOnceLast(run.calls)
        && 3 <= |run.calls| <= |steps| + 2
        && run.calls[0] == TransInit(flags)
        && run.calls[1..|run.calls| - 1] == steps[..|run.calls| - 2]
        && (run.outcome.Pass? <==> (run.calls[1..|run.calls| - 1] == steps
                                   && RunSteps(native, Some(Transaction(flags, [], [])), steps).failed.None?))
        && (run.outcome.Fail? ==> run.outcome == Fail(StepError(steps[|run.calls| - 3])))
  {
    if Accepts(native, None, TransInit(flags)) {
      var r := RunSteps(native, Some(Transaction(flags, [], [])), steps);
      StepsDoNotRelease(native, Some(Transaction(flags, [], [])), steps);
      assert TransRelease != TransInit(flags);
      ReleaseAppended([TransInit(flags)] + r.calls);
      var calls := [TransInit(flags)] + r.calls + [TransRelease];
      assert calls[1..|calls| - 1] == r.calls;
    }
  }

  // ---------------------------------------------------------------------------------------
  // InstallPackage and RemovePackage

  /** `InstallPackage`: an unknown name throws before any call; otherwise the transaction
      begins with the normalised flags, and from then on it is released exactly once, last,
      while a refused `TransInit` throws without release. */
  lemma InstallPackageDiscipline(native: Native, caches: seq<seq<Package>>, name: string, flags: TransFlags)
    ensures var run := InstallPackageRun(native, caches, name, flags);
      FindInCaches(caches, name).None? ==> run == Run([], Fail(NotFound(name)))
    ensures var run := InstallPackageRun(native, caches, name, flags);
      FindInCaches(caches, name).Some? ==>
        run.calls[0] == TransInit(NormalizeFlags(flags))
        && (Accepts(native, None, TransInit(NormalizeFlags(flags))) <==> ReleasedOnceLast(run.calls))
        && (!Accepts(native, None, TransInit(NormalizeFlags(flags))) ==> TransRelease !in run.calls)
  {
    if FindInCaches(caches, name).Some? {
      var p := FindInCaches(caches, name).value;
      BeginOutsideShape(native, NormalizeFlags(flags), [AddPkg(p)] + PrepareCommit);
    }
  }

  /** `InstallPackage` runs add, prepare and commit in that order and stops at the first
      refusal: the calls between `TransInit` and `TransRelease` are a non-empty prefix of the
      three steps, all three were made when it succeeds, and a failure is reported for the
      last step made. */
  lemma InstallPackageStepOrder(native: Native, caches: seq<seq<Package>>, name: string, flags: TransFlags)
    requires FindInCaches(caches, name).Some?
    requires Accepts(native, None, TransInit(NormalizeFlags(flags)))
    ensures var steps := [AddPkg(FindInCaches(caches, name).value)] + PrepareCommit;
      var run := InstallPackageRun(native, caches, name, flags);
      3 <= |run.calls| <= 5
      && run.calls[0] == TransInit(NormalizeFlags(flags)) && Last(run.calls) == TransRelease
      && run.calls[1..|run.calls| - 1] == steps[..|run.calls| - 2]
      && (run.outcome.Pass? ==> |run.calls| == 5)
      && (run.outcome.Fail? ==> run.outcome.error == StepError(steps[|run.calls| - 3]))
  {
    BeginOutsideShape(native, NormalizeFlags(flags), [AddPkg(FindInCaches(caches, name).value)] + PrepareCommit);
  }

  /** `RemovePackage`: an unknown name throws before any call; the flags are passed to
      `TransInit` as given (no normalisation); release discipline as for installs. */
  lemma RemovePackageDiscipline(native: Native, name: string, flags: TransFlags)
    ensures var run := RemovePackageRun(native, name, flags);
      Lookup(native.local, name).None? ==> run == Run([], Fail(NotFound(name)))
    ensures var run := RemovePackageRun(native, name, flags);
      Lookup(native.local, name).Some? ==>
        run.calls[0] == TransInit(flags)
        && (Accepts(native, None, TransInit(flags)) <==> ReleasedOnceLast(run.calls))
        && (!Accepts(native, None, TransInit(flags)) ==> TransRelease !in run.calls)
  {
    if Lookup(native.local, name).Some? {
      var p := Lookup(native.local, name).value;
      BeginOutsideShape(native, flags, [RemovePkg(p)] + PrepareCommit);
    }
  }

  // ---------------------------------------------------------------------------------------
  // InstallPackages and RemovePackages

  /** `InstallPackages` resolves every name before beginning: if some name is in no sync
      database it throws for the first such name and makes no call at all, and an empty list
      makes no call and succeeds. */
  lemma InstallPackagesResolvesFirst(native: Native, caches: seq<seq<Package>>, names: seq<string>, flags: TransFlags)
    ensures var run := InstallPackagesRun(native, caches, names, flags);
      (exists i :: 0 <= i < |names| && FindInCaches(caches, names[i]).None?) ==>
        run.calls == [] && run.outcome.Fail? && run.outcome.error.NotFound?
        && FindInCaches(caches, run.outcome.error.name).None? && run.outcome.error.name in names
    ensures names == [] ==> InstallPackagesRun(native, caches, names, flags) == Run([], Pass)
  {
    ResolveAllMeaning(SyncFinder(caches), names);
    var res := ResolveAll(SyncFinder(caches), names);
    if res.Err? {
      var k :| 0 <= k < |names| && res.error == names[k] && SyncFinder(caches)(names[k]).None?;
    }
  }

  /** Once every name resolves, `InstallPackages` begins with the normalised flags, releases
      exactly once, last, iff the init was accepted, and adds the resolved packages in the
      order named. */
  lemma InstallPackagesDiscipline(native: Native, caches: seq<seq<Package>>, names: seq<string>, flags: TransFlags)
    requires names != [] && forall i :: 0 <= i < |names| ==> FindInCaches(caches, names[i]).Some?
    ensures var run := InstallPackagesRun(native, caches, names, flags);
      var f := NormalizeFlags(flags);
      run.calls != [] && run.calls[0] == TransInit(f)
      && (Accepts(native, None, TransInit(f)) <==> ReleasedOnceLast(run.calls))
      && (!Accepts(native, None, TransInit(f)) ==> TransRelease !in run.calls)
  {
    ResolveAllMeaning(SyncFinder(caches), names);
    var pkgs := ResolveAll(SyncFinder(caches), names).value;
    AddAllNoRelease(pkgs);
    BeginOutsideShape(native, NormalizeFlags(flags), AddAll(pkgs) + PrepareCommit);
  }

  /** A successful `InstallPackages` added the package found for each name, in order. */
  lemma InstallPackagesAddsInOrder(native: Native, caches: seq<seq<Package>>, names: seq<string>, flags: TransFlags)
    requires names != [] && forall i :: 0 <= i < |names| ==> FindInCaches(caches, names[i]).Some?
    requires InstallPackagesRun(native, caches, names, flags).outcome.Pass?
    ensures var run := InstallPackagesRun(native, caches, names, flags);
      |names| < |run.calls|
      && forall i :: 0 <= i < |names| ==> run.calls[1 + i] == AddPkg(FindInCaches(caches, names[i]).value)
  {
    ResolveAllMeaning(SyncFinder(caches), names);
    var pkgs := ResolveAll(SyncFinder(caches), names).value;
    var steps := AddAll(pkgs) + PrepareCommit;
    AddAllNoRelease(pkgs);
    BeginOutsideShape(native, NormalizeFlags(flags), steps);
    var run := InstallPackagesRun(native, caches, names, flags);
    assert run.calls[1..|run.calls| - 1] == steps;
    forall i | 0 <= i < |names|
      ensures run.calls[1 + i] == AddPkg(FindInCaches(caches, names[i]).value)
    {
      assert run.calls[1 + i] == steps[i];
    }
  }

  /** `RemovePackages`: the same resolution over the local database. */
  lemma RemovePackagesResolvesFirst(native: Native, names: seq<string>, flags: TransFlags)
    ensures var run := RemovePackagesRun(native, names, flags);
      (exists i :: 0 <= i < |names| && Lookup(native.local, names[i]).None?) ==>
        run.calls == [] && run.outcome.Fail? && run.outcome.error.NotFound?
        && Lookup(native.local, run.outcome.error.name).None? && run.outcome.error.name in names
    ensures names == [] ==> RemovePackagesRun(native, names, flags) == Run([], Pass)
  {
    ResolveAllMeaning(LocalFinder(native), names);
    var res := ResolveAll(LocalFinder(native), names);
    if res.Err? {
      var k :| 0 <= k < |names| && res.error == names[k] && LocalFinder(native)(names[k]).None?;
    }
  }

  /** `RemovePackages`: the same release discipline, with the flags normalised. */
  lemma RemovePackagesDiscipline(native: Native, names: seq<string>, flags: TransFlags)
    requires names != [] && forall i :: 0 <= i < |names| ==> Lookup(native.local, names[i]).Some?
    ensures var run := RemovePackagesRun(native, names, flags);
      var f := NormalizeFlags(flags);
      run.calls != [] && run.calls[0] == TransInit(f)
      && (Accepts(native, None, TransInit(f)) <==> ReleasedOnceLast(run.calls))
      && (!Accepts(native, None, TransInit(f)) ==> TransRelease !in run.calls)
  {
    ResolveAllMeaning(LocalFinder(native), names);
    var pkgs := ResolveAll(LocalFinder(native), names).value;
    RemoveAllNoRelease(pkgs);
    BeginOutsideShape(native, NormalizeFlags(flags), RemoveAll(pkgs) + PrepareCommit);
  }

  // ---------------------------------------------------------------------------------------
  // The update variants: TransInit inside the try

  /** The first call of a non-empty run of steps is the first step. */
  lemma RunStepsFirst(native: Native, t: Option<Transaction>, acts: seq<Act>)
    requires acts != []
    ensures RunSteps(native, t, acts).calls != [] && RunSteps(native, t, acts).calls[0] == acts[0]
  {
  }

  /** `[DbUpdate(true)] + calls + [TransRelease]` starts with the refresh, then the first of
      `calls`, and releases once, last. */
  lemma RefreshedAndReleased(calls: seq<Act>, first: Act)
    requires calls != [] && calls[0] == first && TransRelease !in calls
    ensures var all := [DbUpdate(true)] + calls + [TransRelease];
      all[0] == DbUpdate(true) && all[1] == first && ReleasedOnceLast(all)
  {
    ReleaseAppended([DbUpdate(true)] + calls);
  }

  /** A refresh, guarded steps starting with `first`, then a tail that releases once, last. */
  lemma RefreshedThen(calls: seq<Act>, first: Act, tail: seq<Act>)
    requires calls != [] && calls[0] == first && TransRelease !in calls && ReleasedOnceLast(tail)
    ensures var all := [DbUpdate(true)] + calls + tail;
      all[0] == DbUpdate(true) && all[1] == first && ReleasedOnceLast(all)
  {
    PrefixKeepsRelease([DbUpdate(true)] + calls, tail);
  }

  /** The notices, the commit and the release after a prepared system upgrade release once,
      last. */
  lemma AnnounceAndCommitReleases(native: Native, t: Option<Transaction>)
    ensures ReleasedOnceLast(AnnounceAndCommit(native, t).calls)
  {
    var notices := ReplacesNotices(AddList(t));
    StepsDoNotRelease(native, t, [TransCommit]);
    assert TransRelease !in notices;
    ReleaseAppended(notices + RunSteps(native, t, [TransCommit]).calls);
  }

  /** `SyncSystemUpdate` always refreshes the databases first and releases exactly once, last,
      even when `TransInit` is refused. */
  lemma SyncSystemUpdateDiscipline(native: Native, flags: TransFlags)
    ensures var run := SyncSystemUpdateRun(native, flags);
      run.calls[0] == DbUpdate(true) && run.calls[1] == TransInit(flags) && ReleasedOnceLast(run.calls)
  {
    var acts := [TransInit(flags), SyncSysupgrade, TransPrepare];
    var r1 := RunSteps(native, None, acts);
    StepsDoNotRelease(native, None, acts);
    RunStepsFirst(native, None, acts);
    if r1.failed.Some? {
      RefreshedAndReleased(r1.calls, TransInit(flags));
    } else {
      AnnounceAndCommitReleases(native, r1.trans);
      RefreshedThen(r1.calls, TransInit(flags), AnnounceAndCommit(native, r1.trans).calls);
    }
  }

  /** Every failure of `SyncSystemUpdate` is rethrown wrapped. */
  lemma SyncSystemUpdateWrapsFailures(native: Native, flags: TransFlags)
    ensures var run := SyncSystemUpdateRun(native, flags);
      run.outcome.Fail? ==> run.outcome.error.Wrapped?
  {
  }

  /** When the upgrade is prepared, the replacement notices come right after `TransPrepare`
      and right before `TransCommit`, and they are the notices for the packages the upgrade
      adds. */
  lemma SyncSystemUpdateNoticesBetweenPrepareAndCommit(native: Native, flags: TransFlags)
    requires RunSteps(native, None, [TransInit(flags), SyncSysupgrade, TransPrepare]).failed.None?
    ensures SyncSystemUpdateRun(native, flags).calls
      == [DbUpdate(true), TransInit(flags), SyncSysupgrade, TransPrepare]
         + ReplacesNotices(native.upgrades) + [TransCommit, TransRelease]
  {
    SysupgradePrepared(native, flags);
    var r1 := RunSteps(native, None, [TransInit(flags), SyncSysupgrade, TransPrepare]);
    var r2 := RunSteps(native, r1.trans, [TransCommit]);
    assert r2.calls == [TransCommit];
  }

  /** Init, the upgrade mark and prepare all accepted leave the transaction adding exactly
      what the upgrade adds. */
  lemma SysupgradePrepared(native: Native, flags: TransFlags)
    requires RunSteps(native, None, [TransInit(flags), SyncSysupgrade, TransPrepare]).failed.None?
    ensures RunSteps(native, None, [TransInit(flags), SyncSysupgrade, TransPrepare]).trans
      == Some(Transaction(flags, native.upgrades, []))
  {
    var acts := [TransInit(flags), SyncSysupgrade, TransPrepare];
    var tail := [SyncSysupgrade, TransPrepare];
    assert acts[1..] == tail && tail[1..] == [TransPrepare] && [TransPrepare][1..] == [];
    var t1 := Some(Transaction(flags, [], []));
    assert After(native, t1, SyncSysupgrade, true) == Some(Transaction(flags, [] + native.upgrades, []));
    assert [] + native.upgrades == native.upgrades;
  }

  /** A notice is raised for a package iff it replaces something, in add-list order. */
  lemma {:induction false} ReplacesNoticesMeaning(add: seq<Package>)
    ensures forall p :: p in add && |p.replaced| > 0 ==>
      ReplacesNotice(p.name, p.repository, p.replaced) in ReplacesNotices(add)
    ensures forall a :: a in ReplacesNotices(add) ==>
      exists p :: p in add && |p.replaced| > 0 && a == ReplacesNotice(p.name, p.repository, p.replaced)
    ensures |ReplacesNotices(add)| <= |add|
    decreases |add|
  {
    if add != [] {
      var init := add[..|add| - 1];
      ReplacesNoticesMeaning(init);
      assert add == init + [add[|add| - 1]];
    }
  }

  /** `UpdatePackages` collects, in order, the newer version of each named package that is
      installed and has one, and silently skips every other name. */
  lemma {:induction false} UpgradableMeaning(native: Native, names: seq<string>)
    ensures forall p :: p in Upgradable(native, names) <==>
      exists i :: 0 <= i < |names| && Lookup(native.local, names[i]).Some?
        && Lookup(native.local, names[i]).value in native.newVersion
        && p == native.newVersion[Lookup(native.local, names[i]).value]
    decreases |names|
  {
    if names != [] {
      var init := names[..|names| - 1];
      UpgradableMeaning(native, init);
      assert forall i :: 0 <= i < |init| ==> init[i] == names[i];
    }
  }

  /** The end of every update operation releases exactly once, last, and an empty
      transaction is only released. */
  lemma CommitUnlessEmptyReleases(native: Native, t: Option<Transaction>)
    ensures ReleasedOnceLast(CommitUnlessEmpty(native, t).calls)
    ensures NothingToDo(t) ==> CommitUnlessEmpty(native, t) == Run([TransRelease], Pass)
  {
    if NothingToDo(t) {
      ReleaseAppended([]);
      assert [] + [TransRelease] == [TransRelease];
    } else {
      StepsDoNotRelease(native, t, PrepareCommit);
      ReleaseAppended(RunSteps(native, t, PrepareCommit).calls);
    }
  }

  /** Offering packages releases exactly once, last, whether or not the engine accepts the
      init. */
  lemma OfferAllReleases(native: Native, pkgs: seq<Package>, flags: TransFlags)
    ensures ReleasedOnceLast(OfferAll(native, pkgs, flags).calls)
  {
    if Accepts(native, None, TransInit(flags)) {
      var t := Some(Transaction(flags, Accepted(native, pkgs), []));
      CommitUnlessEmptyReleases(native, t);
      AddAllNoRelease(pkgs);
      assert TransRelease !in [TransInit(flags)] + AddAll(pkgs);
      PrefixKeepsRelease([TransInit(flags)] + AddAll(pkgs), CommitUnlessEmpty(native, t).calls);
    } else {
      ReleaseAppended([TransInit(flags)]);
    }
  }

  /** `UpdatePackages` releases exactly once, last, on every path. */
  lemma UpdatePackagesDiscipline(native: Native, names: seq<string>, flags: TransFlags)
    ensures ReleasedOnceLast(UpdatePackagesRun(native, names, flags).calls)
  {
    var offer := OfferAll(native, Upgradable(native, names), flags);
    OfferAllReleases(native, Upgradable(native, names), flags);
    PrefixKeepsRelease([DbUpdate(true)], offer.calls);
  }

  /** After an accepted init every package is offered, in order, before anything else. */
  lemma OfferAllAddsAll(native: Native, pkgs: seq<Package>, flags: TransFlags)
    requires Accepts(native, None, TransInit(flags))
    ensures var calls := OfferAll(native, pkgs, flags).calls;
      1 + |pkgs| <= |calls| && calls[..1 + |pkgs|] == [TransInit(flags)] + AddAll(pkgs)
  {
    var c := CommitUnlessEmpty(native, Some(Transaction(flags, Accepted(native, pkgs), [])));
    var pre := [TransInit(flags)] + AddAll(pkgs);
    assert (pre + c.calls)[..1 + |pkgs|] == pre;
  }

  /** `UpdatePackages` offers every collected package to the transaction, whatever the engine
      answers to each. */
  lemma UpdatePackagesAddsAll(native: Native, names: seq<string>, flags: TransFlags)
    requires Accepts(native, None, TransInit(flags))
    ensures var run := UpdatePackagesRun(native, names, flags);
      var pkgs := Upgradable(native, names);
      2 + |pkgs| <= |run.calls| && run.calls[..2 + |pkgs|] == [DbUpdate(true), TransInit(flags)] + AddAll(pkgs)
  {
    var pkgs := Upgradable(native, names);
    var offer := OfferAll(native, pkgs, flags);
    OfferAllAddsAll(native, pkgs, flags);
    assert ([DbUpdate(true)] + offer.calls)[..2 + |pkgs|] == [DbUpdate(true)] + offer.calls[..1 + |pkgs|];
  }

  /** With none of the offered packages accepted, the offer succeeds after the adds with only
      the release. */
  lemma OfferAllNothingToDo(native: Native, pkgs: seq<Package>, flags: TransFlags)
    requires Accepts(native, None, TransInit(flags)) && Accepted(native, pkgs) == []
    ensures OfferAll(native, pkgs, flags) == Run([TransInit(flags)] + AddAll(pkgs) + [TransRelease], Pass)
  {
    CommitUnlessEmptyReleases(native, Some(Transaction(flags, [], [])));
  }

  /** When the engine accepts none of the collected packages, `UpdatePackages` succeeds
      without preparing or committing. */
  lemma UpdatePackagesNothingToDo(native: Native, names: seq<string>, flags: TransFlags)
    requires Accepts(native, None, TransInit(flags)) && Accepted(native, Upgradable(native, names)) == []
    ensures var run := UpdatePackagesRun(native, names, flags);
      run.outcome == Pass && TransPrepare !in run.calls && TransCommit !in run.calls
  {
    var pkgs := Upgradable(native, names);
    OfferAllNothingToDo(native, pkgs, flags);
    var calls := [DbUpdate(true)] + ([TransInit(flags)] + AddAll(pkgs) + [TransRelease]);
    forall i | 0 <= i < |calls| ensures calls[i] != TransPrepare && calls[i] != TransCommit {
      if 2 <= i < 2 + |pkgs| { assert calls[i] == AddPkg(pkgs[i - 2]); }
    }
  }

  /** `UpdateSinglePackage` and `UpdateAll` refresh first and release exactly once, last, on
      every path, a refused `TransInit` included. */
  lemma MarkAndCommitDiscipline(native: Native, flags: TransFlags, mark: Act)
    requires mark != TransRelease
    ensures var run := MarkAndCommitRun(native, flags, mark);
      run.calls[0] == DbUpdate(true) && run.calls[1] == TransInit(flags) && ReleasedOnceLast(run.calls)
  {
    var r1 := RunSteps(native, None, [TransInit(flags), mark]);
    StepsDoNotRelease(native, None, [TransInit(flags), mark]);
    RunStepsFirst(native, None, [TransInit(flags), mark]);
    if r1.failed.Some? {
      RefreshedAndReleased(r1.calls, TransInit(flags));
    } else {
      CommitUnlessEmptyReleases(native, r1.trans);
      RefreshedThen(r1.calls, TransInit(flags), CommitUnlessEmpty(native, r1.trans).calls);
    }
  }

  /** With an empty transaction after the mark, `UpdateSinglePackage` and `UpdateAll` succeed
      without preparing or committing. */
  lemma MarkAndCommitNothingToDo(native: Native, flags: TransFlags, mark: Act)
    requires mark != TransPrepare && mark != TransCommit
    requires var r1 := RunSteps(native, None, [TransInit(flags), mark]);
      r1.failed.None? && NothingToDo(r1.trans)
    ensures var run := MarkAndCommitRun(native, flags, mark);
      run.outcome == Pass && TransPrepare !in run.calls && TransCommit !in run.calls
  {
    var r1 := RunSteps(native, None, [TransInit(flags), mark]);
    assert r1.calls == [TransInit(flags), mark];
  }

  /** `UpdateAll` with an upgrade that adds nothing succeeds without preparing or committing. */
  lemma UpdateAllNothingToDo(native: Native, flags: TransFlags)
    requires Accepts(native, None, TransInit(flags)) && SyncSysupgrade !in native.failing
    requires native.upgrades == []
    ensures var run := UpdateAllRun(native, flags);
      run.outcome == Pass && TransPrepare !in run.calls && TransCommit !in run.calls
  {
    var t1 := Some(Transaction(flags, [], []));
    assert [TransInit(flags), SyncSysupgrade] == [TransInit(flags)] + ([SyncSysupgrade] + []);
    RunStepsCons(native, None, TransInit(flags), [SyncSysupgrade] + []);
    RunStepsCons(native, t1, SyncSysupgrade, []);
    var r1 := RunSteps(native, None, [TransInit(flags), SyncSysupgrade]);
    assert r1.failed.None? && r1.trans == Some(Transaction(flags, [] + native.upgrades, []));
    MarkAndCommitNothingToDo(native, flags, SyncSysupgrade);
  }

  /** `UpdateSinglePackage` for a package that is not installed offers a null pointer, which
      the engine refuses: the add step fails and the transaction is released. */
  lemma UpdateSinglePackageNotInstalled(native: Native, name: string, flags: TransFlags)
    requires Lookup(native.local, name).None? && Accepts(native, None, TransInit(flags))
    ensures UpdateSinglePackageRun(native, name, flags)
      == Run([DbUpdate(true), TransInit(flags), AddNullPkg, TransRelease], Fail(StepFailed(AddStep)))
  {
    var t1 := Some(Transaction(flags, [], []));
    assert [TransInit(flags), AddNullPkg] == [TransInit(flags)] + ([AddNullPkg] + []);
    RunStepsCons(native, None, TransInit(flags), [AddNullPkg] + []);
    RunStepsCons(native, t1, AddNullPkg, []);
  }

  // ---------------------------------------------------------------------------------------
  // InstallLocalPackage

  /** The calls of `InstallLocalPackage` once the file is loaded and `TransInit` accepted. */
  lemma LocalRunCalls(native: Native, path: string, flags: TransFlags, refresh: Run)
    requires Accepts(native, None, PkgLoad(path, LocalPackageSigLevel)) && path in native.packageFiles
    requires Accepts(native, None, TransInit(flags))
    ensures var p := native.packageFiles[path];
      var r := RunSteps(native, Some(Transaction(flags, [], [])), [AddPkg(p)] + PrepareCommit);
      InstallLocalPackageRun(native, path, flags, refresh).calls
        == [PkgLoad(path, LocalPackageSigLevel), TransInit(flags)] + r.calls + LocalFrees(r, p) + [TransRelease] + refresh.calls
  {
  }

  /** Once `TransInit` is accepted, `InstallLocalPackage` releases exactly once and then runs
      the refresh, whatever happens in between. */
  lemma InstallLocalPackageReleasesThenRefreshes(native: Native, path: string, flags: TransFlags, refresh: Run)
    requires Accepts(native, None, PkgLoad(path, LocalPackageSigLevel)) && path in native.packageFiles
    requires Accepts(native, None, TransInit(flags))
    requires TransRelease !in refresh.calls
    ensures var calls := InstallLocalPackageRun(native, path, flags, refresh).calls;
      exists pre :: calls == pre + [TransRelease] + refresh.calls && TransRelease !in pre
  {
    var p := native.packageFiles[path];
    var steps := [AddPkg(p)] + PrepareCommit;
    var r := RunSteps(native, Some(Transaction(flags, [], [])), steps);
    StepsDoNotRelease(native, Some(Transaction(flags, [], [])), steps);
    var pre := [PkgLoad(path, LocalPackageSigLevel), TransInit(flags)] + r.calls + LocalFrees(r, p);
    assert TransRelease !in pre;
    LocalRunCalls(native, path, flags, refresh);
    ReleasedOnceBefore(InstallLocalPackageRun(native, path, flags, refresh).calls, pre, refresh.calls);
  }

  /** A run of calls made of a release-free prefix, one release and then `post`. */
  lemma ReleasedOnceBefore(calls: seq<Act>, pre: seq<Act>, post: seq<Act>)
    requires calls == pre + [TransRelease] + post && TransRelease !in pre
    ensures exists q :: calls == q + [TransRelease] + post && TransRelease !in q
  {
  }

  /** As written, `InstallLocalPackage` frees the loaded package twice on every failing path
      inside the `try`: a refused `AddPkg` frees it in that branch and again in the `catch`,
      and a refused `TransPrepare` or `TransCommit` frees it in the `catch` although the
      transaction owns it and `TransRelease` frees it too. */
  lemma InstallLocalPackageAsWrittenFreesTwice(native: Native, path: string, flags: TransFlags, refresh: Run)
    requires Accepts(native, None, PkgLoad(path, LocalPackageSigLevel)) && path in native.packageFiles
    requires Accepts(native, None, TransInit(flags))
    requires PkgFree(native.packageFiles[path]) !in refresh.calls
    ensures var p := native.packageFiles[path];
      var r := RunSteps(native, Some(Transaction(flags, [], [])), [AddPkg(p)] + PrepareCommit);
      Count(InstallLocalPackageAsWritten(native, path, flags, refresh).calls, PkgFree(p))
        == (if r.failed == Some(AddPkg(p)) then 2 else if r.failed.Some? then 1 else 0)
      && TimesFreed(native, path, flags, refresh, true) == if r.failed.Some? then 2 else 1
  {
    AsWrittenCount(native, path, flags, refresh);
  }

  lemma AsWrittenCount(native: Native, path: string, flags: TransFlags, refresh: Run)
    requires Accepts(native, None, PkgLoad(path, LocalPackageSigLevel)) && path in native.packageFiles
    requires Accepts(native, None, TransInit(flags))
    requires PkgFree(native.packageFiles[path]) !in refresh.calls
    ensures var p := native.packageFiles[path];
      var r := RunSteps(native, Some(Transaction(flags, [], [])), [AddPkg(p)] + PrepareCommit);
      Count(InstallLocalPackageAsWritten(native, path, flags, refresh).calls, PkgFree(p))
        == if r.failed == Some(AddPkg(p)) then 2 else if r.failed.Some? then 1 else 0
  {
    var p := native.packageFiles[path];
    var load := PkgLoad(path, LocalPackageSigLevel);
    var r := RunSteps(native, Some(Transaction(flags, [], [])), [AddPkg(p)] + PrepareCommit);
    assert PkgFree(p) !in r.calls by {
      assert forall a :: a in r.calls ==> a in [AddPkg(p)] + PrepareCommit;
    }
    AsWrittenFrees(r, p);
    CountFrees(p, [load, TransInit(flags)] + r.calls, LocalFreesAsWritten(r, p), refresh.calls);
    AsWrittenRunCalls(native, path, flags, refresh);
  }

  /** The frees the `catch` adds as written, for a refused step of `[AddPkg(p)] + PrepareCommit`. */
  lemma AsWrittenFrees(r: Steps, p: Package)
    requires r.failed.Some? ==> r.failed.value in [AddPkg(p)] + PrepareCommit
    ensures forall i :: 0 <= i < |LocalFreesAsWritten(r, p)| ==> LocalFreesAsWritten(r, p)[i] == PkgFree(p)
    ensures |LocalFreesAsWritten(r, p)| == if r.failed == Some(AddPkg(p)) then 2 else if r.failed.Some? then 1 else 0
  {
  }

  lemma AsWrittenRunCalls(native: Native, path: string, flags: TransFlags, refresh: Run)
    requires Accepts(native, None, PkgLoad(path, LocalPackageSigLevel)) && path in native.packageFiles
    requires Accepts(native, None, TransInit(flags))
    ensures var p := native.packageFiles[path];
      var r := RunSteps(native, Some(Transaction(flags, [], [])), [AddPkg(p)] + PrepareCommit);
      InstallLocalPackageAsWritten(native, path, flags, refresh).calls
        == [PkgLoad(path, LocalPackageSigLevel), TransInit(flags)] + r.calls + LocalFreesAsWritten(r, p) + [TransRelease] + refresh.calls
  {
  }

  lemma CountFrees(p: Package, pre: seq<Act>, frees: seq<Act>, post: seq<Act>)
    requires PkgFree(p) !in pre && PkgFree(p) !in post
    requires forall i :: 0 <= i < |frees| ==> frees[i] == PkgFree(p)
    ensures Count(pre + frees + [TransRelease] + post, PkgFree(p)) == |frees|
  {
    CountAppend(pre + frees + [TransRelease], post, PkgFree(p));
    CountAppend(pre + frees, [TransRelease], PkgFree(p));
    CountAppend(pre, frees, PkgFree(p));
    CountSingleton(TransRelease, PkgFree(p));
    CountAll(frees, PkgFree(p));
  }

  lemma {:induction false} CountAll(xs: seq<Act>, a: Act)
    requires forall i :: 0 <= i < |xs| ==> xs[i] == a
    ensures Count(xs, a) == |xs|
    decreases |xs|
  {
    if xs != [] {
      CountAll(xs[..|xs| - 1], a);
    }
  }

  /** Corrected, the loaded package is freed exactly once on every path, counting the free
      `TransRelease` performs once the transaction owns it: `InstallLocalPackage` itself frees it
      only when `TransInit` or `AddPkg` refused it. */
  lemma InstallLocalPackageFreesOnce(native: Native, path: string, flags: TransFlags, refresh: Run)
    requires Accepts(native, None, PkgLoad(path, LocalPackageSigLevel)) && path in native.packageFiles
    requires PkgFree(native.packageFiles[path]) !in refresh.calls
    ensures TimesFreed(native, path, flags, refresh, false) == 1
  {
    InstallLocalPackageOwnFrees(native, path, flags, refresh);
  }

  /** The frees `InstallLocalPackage` itself makes, corrected: one exactly when `TransInit` or
      `AddPkg` refused the package, none once the transaction owns it. */
  lemma InstallLocalPackageOwnFrees(native: Native, path: string, flags: TransFlags, refresh: Run)
    requires Accepts(native, None, PkgLoad(path, LocalPackageSigLevel)) && path in native.packageFiles
    requires PkgFree(native.packageFiles[path]) !in refresh.calls
    ensures var p := native.packageFiles[path];
      var r := RunSteps(native, Some(Transaction(flags, [], [])), [AddPkg(p)] + PrepareCommit);
      Count(InstallLocalPackageRun(native, path, flags, refresh).calls, PkgFree(p))
        == if !Accepts(native, None, TransInit(flags)) || r.failed == Some(AddPkg(p)) then 1 else 0
  {
    if !Accepts(native, None, TransInit(flags)) {
      FreesOnceInitRefused(native, path, flags, refresh);
    } else {
      FreesOnceInitAccepted(native, path, flags, refresh);
    }
  }

  lemma FreesOnceInitRefused(native: Native, path: string, flags: TransFlags, refresh: Run)
    requires Accepts(native, None, PkgLoad(path, LocalPackageSigLevel)) && path in native.packageFiles
    requires !Accepts(native, None, TransInit(flags))
    ensures Count(InstallLocalPackageRun(native, path, flags, refresh).calls, PkgFree(native.packageFiles[path])) == 1
  {
    var p := native.packageFiles[path];
    var load := PkgLoad(path, LocalPackageSigLevel);
    assert InstallLocalPackageRun(native, path, flags, refresh).calls == [load, TransInit(flags)] + [PkgFree(p)];
    CountAppend([load, TransInit(flags)], [PkgFree(p)], PkgFree(p));
    CountAppend([load], [TransInit(flags)], PkgFree(p));
    CountSingleton(load, PkgFree(p));
    CountSingleton(TransInit(flags), PkgFree(p));
    CountSingleton(PkgFree(p), PkgFree(p));
  }

  lemma FreesOnceInitAccepted(native: Native, path: string, flags: TransFlags, refresh: Run)
    requires Accepts(native, None, PkgLoad(path, LocalPackageSigLevel)) && path in native.packageFiles
    requires PkgFree(native.packageFiles[path]) !in refresh.calls
    requires Accepts(native, None, TransInit(flags))
    ensures var p := native.packageFiles[path];
      var r := RunSteps(native, Some(Transaction(flags, [], [])), [AddPkg(p)] + PrepareCommit);
      Count(InstallLocalPackageRun(native, path, flags, refresh).calls, PkgFree(p))
        == if r.failed == Some(AddPkg(p)) then 1 else 0
  {
    var p := native.packageFiles[path];
    var load := PkgLoad(path, LocalPackageSigLevel);
    var steps := [AddPkg(p)] + PrepareCommit;
    var r := RunSteps(native, Some(Transaction(flags, [], [])), steps);
    assert forall a :: a in r.calls ==> a in steps;
    CountFrees(p, [load, TransInit(flags)] + r.calls, LocalFrees(r, p), refresh.calls);
    LocalRunCalls(native, path, flags, refresh);
  }

  // ---------------------------------------------------------------------------------------
  // Queries

  /** `GetForeignPackages` returns exactly the installed packages found in no sync database,
      keeping their local-database order. */
  lemma {:induction false} ForeignMeaning(local: seq<Package>, caches: seq<seq<Package>>)
    ensures forall p :: p in Foreign(local, caches) <==> p in local && !InSomeCache(caches, p.name)
    ensures |Foreign(local, caches)| <= |local|
    decreases |local|
  {
    if local != [] {
      ForeignMeaning(local[..|local| - 1], caches);
      assert local == local[..|local| - 1] + [local[|local| - 1]];
    }
  }

  /** `GetAvailablePackages` returns exactly the packages of the valid databases, skipping the
      invalid ones. */
  lemma {:induction false} AvailableMeaning(native: Native, dbs: seq<SyncDb>)
    ensures forall p :: p in Available(native, dbs) <==>
      exists i :: 0 <= i < |dbs| && dbs[i].name !in native.invalid && p in Contents(native, dbs[i].name)
    decreases |dbs|
  {
    if dbs != [] {
      var init := dbs[..|dbs| - 1];
      AvailableMeaning(native, init);
      assert forall i :: 0 <= i < |init| ==> init[i] == dbs[i];
    }
  }
}
