/** The AUR package manager: which foreign packages have a newer AUR version, the PKGBUILD
    review gate of an update, the download / build / install pipeline with its per-package
    progress notices, and removal with cache clean-up. The network, `makepkg`, `tar`, the
    file system and the libalpm wrapper are consulted through a fixed `World`. */
module Aur {
  import opened Wrappers
  import opened AlpmTypes
  import VersionComparer

  // ---------------------------------------------------------------------------------------
  // Update detection

  /** The fields of an AUR info record that the manager reads. */
  datatype AurInfo = AurInfo(
    name: string,
    version: string,
    url: Option<string>,
    packageBase: string,
    description: Option<string>)

  /** An `AurUpdateDto`: `version` is the installed version, `newVersion` the AUR one. */
  datatype UpdateEntry = UpdateEntry(
    name: string,
    version: string,
    newVersion: string,
    downloadSize: int,
    url: string,
    packageBase: string,
    description: string)

  /** `FirstOrDefault(x => x.Name == name)`. */
  function FirstNamed(packages: seq<Package>, name: string): (r: Option<Package>)
    ensures r.Some? ==> r.value in packages && r.value.name == name
    ensures r.None? ==> forall p :: p in packages ==> p.name != name
  {
    if packages == [] then None
    else if packages[0].name == name then Some(packages[0])
    else FirstNamed(packages[1..], name)
  }

  /** The entry reported for an AUR record and the installed package of the same name. */
  function EntryOf(installed: Package, pkg: AurInfo): UpdateEntry {
    UpdateEntry(pkg.name, installed.version, pkg.version, 0,
      if pkg.url.Some? then pkg.url.value else "",
      pkg.packageBase,
      if pkg.description.Some? then pkg.description.value else "")
  }

  /** The installed package an AUR record updates, if its version is newer. */
  function Outdated(installed: seq<Package>, pkg: AurInfo): Option<Package> {
    var i := FirstNamed(installed, pkg.name);
    if i.Some? && VersionComparer.Order(Some(pkg.version), Some(i.value.version)) > 0 then i else None
  }

  /** The update list, in the order of the AUR response. */
  function UpdateEntries(installed: seq<Package>, response: seq<AurInfo>): (r: seq<UpdateEntry>)
    ensures |r| <= |response|
    decreases |response|
  {
    if response == [] then []
    else
      var pkg := response[|response| - 1];
      var o := Outdated(installed, pkg);
      UpdateEntries(installed, response[..|response| - 1]) + if o.Some? then [EntryOf(o.value, pkg)] else []
  }

  /** One more AUR record, whose name has the installed match `found` and whose version is
      `newer` than that match's: its entry, if both hold, follows the earlier ones. */
  lemma UpdateEntriesNext(installed: seq<Package>, response: seq<AurInfo>, i: nat, found: Option<Package>, newer: bool)
    requires i < |response| && found == FirstNamed(installed, response[i].name)
    requires found.Some? ==> (newer <==> VersionComparer.Order(Some(response[i].version), Some(found.value.version)) > 0)
    ensures UpdateEntries(installed, response[..i + 1])
         == UpdateEntries(installed, response[..i]) + if found.Some? && newer then [EntryOf(found.value, response[i])] else []
  {
    assert response[..i + 1][..i] == response[..i];
  }

  /** The update list of a concatenated response is the concatenation of the update lists:
      entries keep the order of the AUR response. */
  lemma {:induction false} UpdateEntriesAppend(installed: seq<Package>, a: seq<AurInfo>, b: seq<AurInfo>)
    ensures UpdateEntries(installed, a + b) == UpdateEntries(installed, a) + UpdateEntries(installed, b)
    decreases |b|
  {
    if b == [] {
      assert a + b == a;
    } else {
      var n := |b| - 1;
      var o := Outdated(installed, b[n]);
      var tail := if o.Some? then [EntryOf(o.value, b[n])] else [];
      calc {
        UpdateEntries(installed, a + b);
        { assert (a + b)[..|a + b| - 1] == a + b[..n]; assert (a + b)[|a + b| - 1] == b[n]; }
        UpdateEntries(installed, a + b[..n]) + tail;
        { UpdateEntriesAppend(installed, a, b[..n]); }
        UpdateEntries(installed, a) + UpdateEntries(installed, b[..n]) + tail;
        { AppendAssoc(UpdateEntries(installed, a), UpdateEntries(installed, b[..n]), tail); }
        UpdateEntries(installed, a) + UpdateEntries(installed, b);
      }
    }
  }

  /** An entry is reported exactly for an AUR record whose name an installed foreign package
      carries (the first one decides) and whose version is newer; it carries the installed
      version, the AUR version, and "" for a missing URL or description. */
  lemma {:induction false} UpdateEntriesMeaning(installed: seq<Package>, response: seq<AurInfo>)
    ensures forall e :: e in UpdateEntries(installed, response) <==>
      exists pkg :: pkg in response && Outdated(installed, pkg).Some? && e == EntryOf(Outdated(installed, pkg).value, pkg)
    decreases |response|
  {
    if response != [] {
      var init := response[..|response| - 1];
      UpdateEntriesMeaning(installed, init);
      assert response == init + [response[|response| - 1]];
    }
  }

  /** What an entry says: same-name installed package, strictly newer AUR version. */
  lemma EntryFacts(installed: seq<Package>, pkg: AurInfo)
    requires Outdated(installed, pkg).Some?
    ensures var i := Outdated(installed, pkg).value; var e := EntryOf(i, pkg);
      i in installed && i.name == pkg.name == e.name
      && e.version == i.version && e.newVersion == pkg.version
      && VersionComparer.Order(Some(e.newVersion), Some(e.version)) > 0
      && e.downloadSize == 0
      && (pkg.url.None? ==> e.url == "") && (pkg.description.None? ==> e.description == "")
  {
  }

  // ---------------------------------------------------------------------------------------
  // Progress protocol

  datatype Status = Downloading | Building | Installing | Completed | Failed

  /** `PackageProgressEventArgs`: `index` is the 1-based `CurrentIndex`. */
  datatype Progress = Progress(name: string, index: int, total: int, status: Status, message: Option<string>)

  /** Everything the manager tells its observers or asks of the system, in order. */
  datatype AurAct =
    | Notify(progress: Progress)
    | DiffRequest(name: string, oldPkgbuild: string, newPkgbuild: string)
    | InstallLocal(file: string)
    | RemovePackage(name: string)
    | RemoveCache(name: string)

  /** What the manager meets: the cached and freshly fetched PKGBUILDs (`None` when the file is
      missing or the fetch fails), whether a diff handler is subscribed and what it decides,
      whether the snapshot download and extraction succeed, the `makepkg` exit code, the
      package files found after the build, the message of the exception installing a file
      throws (if any), whether removing a package throws, and whether its cache exists. */
  datatype World = World(
    cachedPkgbuild: string -> Option<string>,
    fetchedPkgbuild: string -> Option<string>,
    diffSubscribed: bool,
    proceed: (string, string, string) -> bool,
    downloads: string -> bool,
    buildExit: string -> int,
    builtFiles: string -> seq<string>,
    installError: string -> Option<string>,
    removeFails: string -> bool,
    cacheExists: string -> bool)

  predicate IsStart(a: AurAct) {
    a.Notify? && a.progress.status == Downloading
  }

  predicate IsEnd(a: AurAct) {
    a.Notify? && (a.progress.status == Completed || a.progress.status == Failed)
  }

  /** A progress notice for the package at 0-based position `i` of `total`. */
  function Note(name: string, i: int, total: int, s: Status, m: Option<string>): AurAct {
    Notify(Progress(name, i + 1, total, s, m))
  }

  /** The notices for the package at 0-based position `i` of `total`. */
  function PackageActs(w: World, name: string, i: int, total: int): (r: seq<AurAct>)
    ensures 2 <= |r| <= 5
  {
    var start := [Note(name, i, total, Downloading, None)];
    if !w.downloads(name) then start + [Note(name, i, total, Failed, Some("Failed to download package"))]
    else
      var built := start + [Note(name, i, total, Building, Some("Building package with makepkg"))];
      if w.buildExit(name) != 0 then built + [Note(name, i, total, Failed, Some("Failed to build package with makepkg"))]
      else if w.builtFiles(name) == [] then built + [Note(name, i, total, Failed, Some("No package file found after build"))]
      else
        var file := w.builtFiles(name)[0];
        var err := w.installError(file);
        built + [Note(name, i, total, Installing, None), InstallLocal(file)]
        + [if err.Some? then Note(name, i, total, Failed, Some("Failed to install package: " + err.value)) else Note(name, i, total, Completed, None)]
  }

  /** A package's notices open with its `Downloading` notice, close with its only terminal
      notice, carry its name, position and total throughout, and complete exactly when the
      download, the build and the install all succeed. */
  lemma PackageProtocol(w: World, name: string, i: int, total: int)
    ensures var r := PackageActs(w, name, i, total);
      r[0] == Note(name, i, total, Downloading, None)
      && IsEnd(r[|r| - 1])
      && (forall k :: 0 < k < |r| ==> !IsStart(r[k]))
      && (forall k :: 0 <= k < |r| - 1 ==> !IsEnd(r[k]))
      && (forall k :: 0 <= k < |r| && r[k].Notify? ==>
            r[k].progress.name == name && r[k].progress.index == i + 1 && r[k].progress.total == total)
      && (r[|r| - 1].progress.status == Completed <==>
            w.downloads(name) && w.buildExit(name) == 0 && w.builtFiles(name) != []
            && w.installError(w.builtFiles(name)[0]).None?)
  {
    var r := PackageActs(w, name, i, total);
    var start := Note(name, i, total, Downloading, None);
    var building := Note(name, i, total, Building, Some("Building package with makepkg"));
    if !w.downloads(name) {
      assert r == [start, Note(name, i, total, Failed, Some("Failed to download package"))];
    } else if w.buildExit(name) != 0 {
      assert r == [start, building, Note(name, i, total, Failed, Some("Failed to build package with makepkg"))];
    } else if w.builtFiles(name) == [] {
      assert r == [start, building, Note(name, i, total, Failed, Some("No package file found after build"))];
    } else {
      var file := w.builtFiles(name)[0];
      var err := w.installError(file);
      var last := if err.Some? then Note(name, i, total, Failed, Some("Failed to install package: " + err.value))
                  else Note(name, i, total, Completed, None);
      assert r == [start, building, Note(name, i, total, Installing, None), InstallLocal(file), last];
    }
  }

  /** A package's notices install only its first built file, once, just before the terminal
      notice and right after `Installing`. */
  lemma PackageInstallsFirstFile(w: World, name: string, i: int, total: int)
    ensures var r := PackageActs(w, name, i, total);
      forall k :: 0 <= k < |r| && r[k].InstallLocal? ==>
        1 <= k == |r| - 2 && w.builtFiles(name) != [] && r[k].file == w.builtFiles(name)[0]
        && r[k - 1] == Note(name, i, total, Installing, None)
  {
    var r := PackageActs(w, name, i, total);
    if w.downloads(name) && w.buildExit(name) == 0 && w.builtFiles(name) != [] {
      var file := w.builtFiles(name)[0];
      var err := w.installError(file);
      var last := if err.Some? then Note(name, i, total, Failed, Some("Failed to install package: " + err.value))
                  else Note(name, i, total, Completed, None);
      assert r == [Note(name, i, total, Downloading, None), Note(name, i, total, Building, Some("Building package with makepkg")),
                   Note(name, i, total, Installing, None), InstallLocal(file), last];
    }
  }

  /** The notices of installing `names` one after the other. */
  function InstallActs(w: World, names: seq<string>, total: int): seq<AurAct>
    decreases |names|
  {
    if names == [] then []
    else InstallActs(w, names[..|names| - 1], total) + PackageActs(w, names[|names| - 1], |names| - 1, total)
  }

  /** The positions carried by the `Downloading` notices (`ends` false) or by the terminal
      notices (`ends` true), in order. */
  function Marks(acts: seq<AurAct>, ends: bool): seq<int>
    decreases |acts|
  {
    if acts == [] then []
    else
      var a := acts[|acts| - 1];
      Marks(acts[..|acts| - 1], ends) + if (if ends then IsEnd(a) else IsStart(a)) then [a.progress.index] else []
  }

  lemma {:induction false} MarksAppend(a: seq<AurAct>, b: seq<AurAct>, ends: bool)
    ensures Marks(a + b, ends) == Marks(a, ends) + Marks(b, ends)
    decreases |b|
  {
    if b == [] {
      assert a + b == a;
    } else {
      var n := |b| - 1;
      var x := b[n];
      var tail := if (if ends then IsEnd(x) else IsStart(x)) then [x.progress.index] else [];
      calc {
        Marks(a + b, ends);
        { assert (a + b)[..|a + b| - 1] == a + b[..n]; assert (a + b)[|a + b| - 1] == x; }
        Marks(a + b[..n], ends) + tail;
        { MarksAppend(a, b[..n], ends); }
        Marks(a, ends) + Marks(b[..n], ends) + tail;
        { AppendAssoc(Marks(a, ends), Marks(b[..n], ends), tail); }
        Marks(a, ends) + Marks(b, ends);
      }
    }
  }

  /** A block with no notice of the kind has no marks. */
  lemma {:induction false} MarksNone(r: seq<AurAct>, ends: bool)
    requires forall k :: 0 <= k < |r| ==> !(if ends then IsEnd(r[k]) else IsStart(r[k]))
    ensures Marks(r, ends) == []
    decreases |r|
  {
    if r != [] {
      MarksNone(r[..|r| - 1], ends);
    }
  }

  /** A block that opens with its only start notice and closes with its only terminal notice,
      both at position `index`, has that one mark of either kind. */
  lemma BlockMarks(r: seq<AurAct>, index: int, ends: bool)
    requires r != [] && IsStart(r[0]) && r[0].progress.index == index
    requires IsEnd(r[|r| - 1]) && r[|r| - 1].progress.index == index
    requires forall k :: 0 < k < |r| ==> !IsStart(r[k])
    requires forall k :: 0 <= k < |r| - 1 ==> !IsEnd(r[k])
    ensures Marks(r, ends) == [index]
  {
    if ends {
      MarksNone(r[..|r| - 1], true);
    } else {
      assert r == [r[0]] + r[1..];
      MarksAppend([r[0]], r[1..], false);
      MarksNone(r[1..], false);
      assert Marks([r[0]], false) == [index] by {
        assert [r[0]][..0] == [];
      }
    }
  }

  lemma PackageMarks(w: World, name: string, i: int, total: int, ends: bool)
    ensures Marks(PackageActs(w, name, i, total), ends) == [i + 1]
  {
    var r := PackageActs(w, name, i, total);
    PackageProtocol(w, name, i, total);
    BlockMarks(r, i + 1, ends);
  }

  /** 1, 2, ..., n. */
  function Numbering(n: nat): (r: seq<int>)
    ensures |r| == n && forall k :: 0 <= k < n ==> r[k] == k + 1
  {
    seq(n, k => k + 1)
  }

  lemma NumberingSnoc(n: nat)
    ensures Numbering(n + 1) == Numbering(n) + [n + 1]
  {
  }

  /** Every package gets exactly one `Downloading` notice and exactly one terminal notice,
      in input order, whatever happens to the others: a failure never stops later packages. */
  lemma {:induction false} InstallMarks(w: World, names: seq<string>, total: int, ends: bool)
    ensures Marks(InstallActs(w, names, total), ends) == Numbering(|names|)
    decreases |names|
  {
    if names != [] {
      var n := |names| - 1;
      var before := InstallActs(w, names[..n], total);
      var last := PackageActs(w, names[n], n, total);
      assert InstallActs(w, names, total) == before + last;
      InstallMarks(w, names[..n], total, ends);
      MarksAppend(before, last, ends);
      PackageMarks(w, names[n], n, total, ends);
      NumberingSnoc(n);
    }
  }

  /** Installing a concatenation installs the first part, then the second at shifted
      positions; in particular a package's notices do not depend on the others' fate. */
  lemma {:induction false} InstallActsSnoc(w: World, names: seq<string>, i: int, total: int)
    requires 0 <= i < |names|
    ensures InstallActs(w, names[..i + 1], total) == InstallActs(w, names[..i], total) + PackageActs(w, names[i], i, total)
  {
    assert names[..i + 1][..i] == names[..i];
  }

  // ---------------------------------------------------------------------------------------
  // Update gate

  /** Whether the diff handler is asked about a package: both PKGBUILDs exist and a handler
      is subscribed. */
  predicate Reviewed(w: World, name: string) {
    w.cachedPkgbuild(name).Some? && w.fetchedPkgbuild(name).Some? && w.diffSubscribed
  }

  /** Whether the handler turned the update down (`ProceedWithUpdate` defaults to true). */
  predicate Vetoed(w: World, name: string) {
    Reviewed(w, name) && !w.proceed(name, w.cachedPkgbuild(name).value, w.fetchedPkgbuild(name).value)
  }

  function ReviewActs(w: World, name: string): seq<AurAct> {
    if Reviewed(w, name) then [DiffRequest(name, w.cachedPkgbuild(name).value, w.fetchedPkgbuild(name).value)] else []
  }

  /** The packages that go on to be installed, in input order. */
  function Kept(w: World, names: seq<string>): (r: seq<string>)
    ensures |r| <= |names|
    decreases |names|
  {
    if names == [] then []
    else
      var n := names[|names| - 1];
      Kept(w, names[..|names| - 1]) + if Vetoed(w, n) then [] else [n]
  }

  /** The diff requests raised, in input order. */
  function Reviews(w: World, names: seq<string>): seq<AurAct>
    decreases |names|
  {
    if names == [] then [] else Reviews(w, names[..|names| - 1]) + ReviewActs(w, names[|names| - 1])
  }

  /** One more package reviewed: its diff request, if any, follows the earlier ones, and it
      is kept unless vetoed. */
  lemma ReviewSnoc(w: World, names: seq<string>, i: nat)
    requires i < |names|
    ensures Reviews(w, names[..i + 1]) == Reviews(w, names[..i]) + ReviewActs(w, names[i])
    ensures Kept(w, names[..i + 1]) == Kept(w, names[..i]) + if Vetoed(w, names[i]) then [] else [names[i]]
  {
    assert names[..i + 1][..i] == names[..i];
  }

  /** `UpdatePackages`: the diff requests, then one install run over the kept packages if
      there are any. */
  function UpdateActs(w: World, names: seq<string>): seq<AurAct> {
    var kept := Kept(w, names);
    Reviews(w, names) + if kept == [] then [] else InstallActs(w, kept, |kept|)
  }

  /** A package is installed by an update exactly when it was asked for and not vetoed, and
      the kept packages form a subsequence of the input: keeping distributes over
      concatenation. */
  lemma {:induction false} KeptMeaning(w: World, names: seq<string>)
    ensures forall n :: n in Kept(w, names) <==> n in names && !Vetoed(w, n)
    decreases |names|
  {
    if names != [] {
      var init := names[..|names| - 1];
      KeptMeaning(w, init);
      assert names == init + [names[|names| - 1]];
    }
  }

  lemma {:induction false} KeptAppend(w: World, a: seq<string>, b: seq<string>)
    ensures Kept(w, a + b) == Kept(w, a) + Kept(w, b)
    decreases |b|
  {
    if b == [] {
      assert a + b == a;
    } else {
      var n := |b| - 1;
      var tail := if Vetoed(w, b[n]) then [] else [b[n]];
      calc {
        Kept(w, a + b);
        { assert (a + b)[..|a + b| - 1] == a + b[..n]; assert (a + b)[|a + b| - 1] == b[n]; }
        Kept(w, a + b[..n]) + tail;
        { KeptAppend(w, a, b[..n]); }
        Kept(w, a) + Kept(w, b[..n]) + tail;
        { AppendAssoc(Kept(w, a), Kept(w, b[..n]), tail); }
        Kept(w, a) + Kept(w, b);
      }
    }
  }

  /** Without a subscribed handler nothing is asked and every package is installed. */
  lemma {:induction false} UnsubscribedKeepsAll(w: World, names: seq<string>)
    requires !w.diffSubscribed
    ensures Kept(w, names) == names && Reviews(w, names) == []
    decreases |names|
  {
    if names != [] {
      UnsubscribedKeepsAll(w, names[..|names| - 1]);
      assert names == names[..|names| - 1] + [names[|names| - 1]];
    }
  }

  // ---------------------------------------------------------------------------------------
  // Removal

  /** Removing one package: the libalpm removal, then the cache clean-up when it succeeded
      and the cache directory exists. */
  function RemoveStep(w: World, name: string): seq<AurAct> {
    [RemovePackage(name)] + if !w.removeFails(name) && w.cacheExists(name) then [RemoveCache(name)] else []
  }

  /** `RemovePackages`: the first removal that throws ends the loop. */
  function RemoveActs(w: World, names: seq<string>): seq<AurAct>
    decreases |names|
  {
    if names == [] then []
    else if w.removeFails(names[0]) then [RemovePackage(names[0])]
    else RemoveStep(w, names[0]) + RemoveActs(w, names[1..])
  }

  predicate NoRemoveFailure(w: World, names: seq<string>) {
    forall k :: 0 <= k < |names| ==> !w.removeFails(names[k])
  }

  lemma {:induction false} RemoveActsAppend(w: World, a: seq<string>, b: seq<string>)
    requires NoRemoveFailure(w, a)
    ensures RemoveActs(w, a + b) == RemoveActs(w, a) + RemoveActs(w, b)
    decreases |a|
  {
    if a == [] {
      assert a + b == b;
    } else {
      assert (a + b)[1..] == a[1..] + b;
      RemoveActsAppend(w, a[1..], b);
      AppendAssoc(RemoveStep(w, a[0]), RemoveActs(w, a[1..]), RemoveActs(w, b));
    }
  }

  /** One more removal that did not throw extends the prefix's actions by its step. */
  lemma {:induction false} RemoveActsSnoc(w: World, names: seq<string>, i: nat)
    requires i < |names| && NoRemoveFailure(w, names[..i]) && !w.removeFails(names[i])
    ensures NoRemoveFailure(w, names[..i + 1])
    ensures RemoveActs(w, names[..i + 1]) == RemoveActs(w, names[..i]) + RemoveStep(w, names[i])
  {
    assert names[..i + 1] == names[..i] + [names[i]];
    RemoveActsAppend(w, names[..i], [names[i]]);
    assert [names[i]][1..] == [];
    assert RemoveActs(w, [names[i]]) == RemoveStep(w, names[i]) + RemoveActs(w, []);
  }

  /** A removal that throws ends the actions after the prefix before it. */
  lemma {:induction false} RemoveActsStop(w: World, names: seq<string>, i: nat)
    requires i < |names| && NoRemoveFailure(w, names[..i]) && w.removeFails(names[i])
    ensures !NoRemoveFailure(w, names)
    ensures RemoveActs(w, names) == RemoveActs(w, names[..i]) + [RemovePackage(names[i])]
  {
    assert names[..i] + names[i..] == names;
    RemoveActsAppend(w, names[..i], names[i..]);
    assert names[i..][0] == names[i];
  }

  /** The packages `RemovePackages` asks libalpm to remove, in order. */
  function Removals(acts: seq<AurAct>): seq<string>
    decreases |acts|
  {
    if acts == [] then []
    else (if acts[0].RemovePackage? then [acts[0].name] else []) + Removals(acts[1..])
  }

  lemma RemovalsStep(w: World, name: string)
    ensures Removals(RemoveStep(w, name)) == [name]
  {
    var step := RemoveStep(w, name);
    if !w.removeFails(name) && w.cacheExists(name) {
      assert step[1..] == [RemoveCache(name)];
      assert Removals(step[1..]) == [] by {
        assert step[1..][1..] == [];
      }
    } else {
      assert step[1..] == [];
    }
  }

  /** When no removal throws, every package is removed, in input order. */
  lemma {:induction false} RemovalsAll(w: World, names: seq<string>)
    requires NoRemoveFailure(w, names)
    ensures Removals(RemoveActs(w, names)) == names
    decreases |names|
  {
    if names != [] {
      assert NoRemoveFailure(w, names[1..]) by {
        forall j | 0 <= j < |names[1..]| ensures !w.removeFails(names[1..][j]) {
          assert names[1..][j] == names[j + 1];
        }
      }
      RemovalsAll(w, names[1..]);
      RemovalsStep(w, names[0]);
      RemovalsAppend(RemoveStep(w, names[0]), RemoveActs(w, names[1..]));
    }
  }

  /** The first removal that throws is the last thing `RemovePackages` does: the packages
      before it and it itself are removed, in input order, and none after it. */
  lemma RemovalsStop(w: World, names: seq<string>, k: int)
    requires 0 <= k < |names| && w.removeFails(names[k]) && NoRemoveFailure(w, names[..k])
    ensures var r := RemoveActs(w, names);
      Removals(r) == names[..k + 1] && r[|r| - 1] == RemovePackage(names[k])
  {
    var pre, post := names[..k], names[k..];
    assert names == pre + post;
    RemoveActsAppend(w, pre, post);
    RemovalsAll(w, pre);
    assert RemoveActs(w, post) == [RemovePackage(names[k])];
    RemovalsAppend(RemoveActs(w, pre), [RemovePackage(names[k])]);
    assert Removals([RemovePackage(names[k])]) == [names[k]] by {
      assert [RemovePackage(names[k])][1..] == [];
    }
    assert names[..k + 1] == pre + [names[k]];
  }

  /** A cache is cleaned only right after its package was removed without throwing, and only
      when the cache directory exists. */
  lemma {:induction false} CleanupFollowsRemoval(w: World, names: seq<string>, k: int)
    requires 0 <= k < |RemoveActs(w, names)| && RemoveActs(w, names)[k].RemoveCache?
    ensures var r := RemoveActs(w, names);
      0 < k && r[k - 1] == RemovePackage(r[k].name) && !w.removeFails(r[k].name) && w.cacheExists(r[k].name)
    decreases |names|
  {
    var step, tail := RemoveStep(w, names[0]), RemoveActs(w, names[1..]);
    if !w.removeFails(names[0]) {
      var r := step + tail;
      assert RemoveActs(w, names) == r;
      if k > |step| {
        var j := k - |step|;
        assert r[k] == tail[j] && r[k - 1] == tail[j - 1];
        CleanupFollowsRemoval(w, names[1..], j);
      } else if k < |step| {
        assert r[k] == step[k] && r[0] == step[0] == RemovePackage(names[0]);
        assert k == 1 && step == [RemovePackage(names[0]), RemoveCache(names[0])];
      }
    }
  }

  lemma {:induction false} RemovalsAppend(a: seq<AurAct>, b: seq<AurAct>)
    ensures Removals(a + b) == Removals(a) + Removals(b)
    decreases |a|
  {
    if a == [] {
      assert a + b == b;
    } else {
      assert (a + b)[1..] == a[1..] + b;
      RemovalsAppend(a[1..], b);
      assert (a + b)[0] == a[0];
      AppendAssoc(if a[0].RemovePackage? then [a[0].name] else [], Removals(a[1..]), Removals(b));
    }
  }

  // ---------------------------------------------------------------------------------------
  // The manager

  class AurPackageManager {
    const world: World
    /** Everything raised or requested so far. */
    var trace: seq<AurAct>

    constructor(world: World)
      ensures this.world == world && trace == []
    {
      this.world := world;
      trace := [];
    }

    /** `GetPackagesNeedingUpdate`, given the installed foreign packages and the AUR info
        response for their names. */
    method GetPackagesNeedingUpdate(installed: seq<Package>, response: seq<AurInfo>) returns (r: seq<UpdateEntry>)
      ensures r == UpdateEntries(installed, response)
    {
      r := [];
      var i := 0;
      while i < |response|
        invariant 0 <= i <= |response|
        invariant r == UpdateEntries(installed, response[..i])
      {
        var pkg := response[i];
        var installedPkg := FirstNamed(installed, pkg.name);
        if installedPkg.Some? {
          var newer := VersionComparer.IsNewer(Some(pkg.version), Some(installedPkg.value.version));
          UpdateEntriesNext(installed, response, i, installedPkg, newer);
          if newer {
            r := r + [EntryOf(installedPkg.value, pkg)];
          }
        } else {
          UpdateEntriesNext(installed, response, i, installedPkg, false);
        }
        i := i + 1;
      }
      assert response[..i] == response;
    }

    /** `UpdatePackages`: review each package, then install the kept ones, if any. */
    method UpdatePackages(names: seq<string>)
      modifies this
      ensures trace == old(trace) + UpdateActs(world, names)
    {
      var toUpdate := [];
      var i := 0;
      while i < |names|
        invariant 0 <= i <= |names|
        invariant toUpdate == Kept(world, names[..i])
        invariant trace == old(trace) + Reviews(world, names[..i])
      {
        var name := names[i];
        ReviewSnoc(world, names, i);
        var oldPkgbuild := world.cachedPkgbuild(name);
        var newPkgbuild := world.fetchedPkgbuild(name);
        var proceed := true;
        if oldPkgbuild.Some? && newPkgbuild.Some? && world.diffSubscribed {
          trace := trace + [DiffRequest(name, oldPkgbuild.value, newPkgbuild.value)];
          proceed := world.proceed(name, oldPkgbuild.value, newPkgbuild.value);
        }
        AppendAssoc(old(trace), Reviews(world, names[..i]), ReviewActs(world, name));
        if proceed {
          toUpdate := toUpdate + [name];
        }
        i := i + 1;
      }
      assert names[..i] == names;
      ghost var reviewed := trace;
      if |toUpdate| > 0 {
        InstallPackages(toUpdate);
        AppendAssoc(old(trace), Reviews(world, names), InstallActs(world, toUpdate, |toUpdate|));
      } else {
        assert trace == reviewed + [];
      }
    }

    /** `InstallPackages`: download, build and install each package in turn. */
    method InstallPackages(names: seq<string>)
      modifies this
      ensures trace == old(trace) + InstallActs(world, names, |names|)
    {
      var total := |names|;
      var i := 0;
      while i < |names|
        invariant 0 <= i <= |names|
        invariant trace == old(trace) + InstallActs(world, names[..i], total)
      {
        InstallActsSnoc(world, names, i, total);
        InstallOne(names[i], i, total);
        AppendAssoc(old(trace), InstallActs(world, names[..i], total), PackageActs(world, names[i], i, total));
        i := i + 1;
      }
      assert names[..i] == names;
    }

    /** One pass of the loop of `InstallPackages`; each failure ends the pass. */
    method InstallOne(name: string, i: int, total: int)
      modifies this
      ensures trace == old(trace) + PackageActs(world, name, i, total)
    {
      trace := trace + [Note(name, i, total, Downloading, None)];
      var success := world.downloads(name);
      if !success {
        trace := trace + [Note(name, i, total, Failed, Some("Failed to download package"))];
        return;
      }
      trace := trace + [Note(name, i, total, Building, Some("Building package with makepkg"))];
      if world.buildExit(name) != 0 {
        trace := trace + [Note(name, i, total, Failed, Some("Failed to build package with makepkg"))];
        return;
      }
      var pkgFiles := world.builtFiles(name);
      if |pkgFiles| == 0 {
        trace := trace + [Note(name, i, total, Failed, Some("No package file found after build"))];
        return;
      }
      trace := trace + [Note(name, i, total, Installing, None), InstallLocal(pkgFiles[0])];
      var err := world.installError(pkgFiles[0]);
      if err.Some? {
        trace := trace + [Note(name, i, total, Failed, Some("Failed to install package: " + err.value))];
        return;
      }
      trace := trace + [Note(name, i, total, Completed, None)];
    }

    /** `RemovePackages`: `ok` is false when a removal threw, which ends the loop. */
    method RemovePackages(names: seq<string>) returns (ok: bool)
      modifies this
      ensures trace == old(trace) + RemoveActs(world, names)
      ensures ok <==> NoRemoveFailure(world, names)
    {
      var i := 0;
      while i < |names|
        invariant 0 <= i <= |names|
        invariant NoRemoveFailure(world, names[..i])
        invariant trace == old(trace) + RemoveActs(world, names[..i])
      {
        var name := names[i];
        ghost var before := trace;
        trace := trace + [RemovePackage(name)];
        if world.removeFails(name) {
          RemoveActsStop(world, names, i);
          return false;
        }
        if world.cacheExists(name) {
          trace := trace + [RemoveCache(name)];
        }
        assert trace == before + RemoveStep(world, name);
        RemoveActsSnoc(world, names, i);
        AppendAssoc(old(trace), RemoveActs(world, names[..i]), RemoveStep(world, name));
        i := i + 1;
      }
      assert names[..i] == names;
      return true;
    }
  }
}
