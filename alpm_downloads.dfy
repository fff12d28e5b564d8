/** The download callback the wrapper installs on the engine: where a file goes, how its body
    reaches the disk through a ".part" file and one overwriting rename, the progress it
    reports, and the companion signature of a database. The file system is a map from path to
    bytes; HTTP is an abstract reply per URL. The manager class performs these steps one at a
    time; the functions here are what those steps amount to, and the lemmas what that
    guarantees. */
module AlpmDownloads {
  import opened Wrappers
  import opened Text
  import opened AlpmTypes
  import opened AlpmEvents

  type Files = map<string, seq<bv8>>

  /** What `HttpClient.GetAsync` yields for a URL: an exception (no reply), or a reply with
      its success flag, its `Content-Length` if any, and the chunks its stream returns; a
      read of the chunk at `failAt` throws, and an empty chunk ends the stream. */
  datatype Fetch =
    | Unreachable
    | Reply(success: bool, length: Option<int>, chunks: seq<seq<bv8>>, failAt: Option<nat>)

  /** Which file operations throw: creating a file for writing at a path, moving a file onto
      a path, and deleting a path. Deleting a path that does not exist does nothing. */
  datatype Disk = Disk(unwritable: set<string>, immovable: set<string>, undeletable: set<string>)

  /** The world a download runs in: the replies per URL, the disk's failures,
      `FileComparison.DoFileReplace` (whether the new body should replace what the
      destination holds, which is not part of this model and so an input), and `Uri`
      parsing (the local path of an absolute URI, none for a relative one). */
  datatype Env = Env(
    web: map<string, Fetch>,
    disk: Disk,
    replaceNeeded: (Option<seq<bv8>>, seq<bv8>) -> bool,
    uriLocalPath: string -> Option<string>)

  function FetchOf(env: Env, url: string): Fetch {
    if url in env.web then env.web[url] else Unreachable
  }

  function FileAt(files: Files, p: string): Option<seq<bv8>> {
    if p in files then Some(files[p]) else None
  }

  /** `File.Delete`, with a failure swallowed. */
  function Delete(disk: Disk, files: Files, p: string): (r: Files)
    ensures p !in disk.undeletable ==> p !in r
    ensures forall q :: q != p ==> FileAt(r, q) == FileAt(files, q)
  {
    if p in disk.undeletable then files else files - {p}
  }

  /** Deleting a path twice is deleting it once. */
  lemma DeleteTwice(disk: Disk, files: Files, p: string)
    ensures Delete(disk, Delete(disk, files, p), p) == Delete(disk, files, p)
  {
  }

  /** `File.Move(src, dst, overwrite: true)`. */
  function MoveOver(files: Files, src: string, dst: string): (r: Files)
    requires src in files && src != dst
    ensures src !in r && FileAt(r, dst) == Some(files[src])
    ensures forall q :: q != src && q != dst ==> FileAt(r, q) == FileAt(files, q)
  {
    (files - {src})[dst := files[src]]
  }

  // ---------------------------------------------------------------------------------------
  // Reading a reply

  /** How many chunks the read loop writes: it stops at the failing read, at an empty chunk
      or at the end of the stream. */
  function ReadCount(chunks: seq<seq<bv8>>, failAt: Option<nat>, i: nat): (k: nat)
    requires i <= |chunks|
    ensures i <= k <= |chunks|
    ensures forall j :: i <= j < k ==> chunks[j] != [] && failAt != Some(j)
    ensures k < |chunks| ==> chunks[k] == [] || failAt == Some(k)
    decreases |chunks| - i
  {
    if i == |chunks| || chunks[i] == [] || failAt == Some(i) then i
    else ReadCount(chunks, failAt, i + 1)
  }

  function ReadChunks(f: Fetch): nat
    requires f.Reply?
  {
    ReadCount(f.chunks, f.failAt, 0)
  }

  /** Whether the read loop ends with an exception. */
  predicate ReadFails(f: Fetch)
    requires f.Reply?
  {
    f.failAt == Some(ReadChunks(f))
  }

  function Concat(chunks: seq<seq<bv8>>): (r: seq<bv8>)
    decreases |chunks|
  {
    if chunks == [] then [] else Concat(chunks[..|chunks| - 1]) + chunks[|chunks| - 1]
  }

  /** The state of the read loop: bytes read so far, the last percentage reported (-1 before
      the first), and the reports raised. */
  datatype ReadState = ReadState(total: int, lastPercent: int, events: seq<Act>)

  const ReadStart := ReadState(0, -1, [])

  function DownloadReport(name: string, percent: int, howMany: int, current: int): Act {
    ProgressNotice(ProgressReport(PackageDownload, Some(name), percent, howMany, current))
  }

  /** One iteration of the read loop, for a chunk of `n` bytes: with a positive known length
      the integer percentage is computed and reported when it differs from the last one. */
  function ReadStep(name: string, length: Option<int>, st: ReadState, n: nat): ReadState {
    var total := st.total + n;
    if length.Some? && length.value > 0 then
      var percent := total * 100 / length.value;
      if percent != st.lastPercent then
        ReadState(total, percent, st.events + [DownloadReport(name, percent, length.value, total)])
      else ReadState(total, st.lastPercent, st.events)
    else ReadState(total, st.lastPercent, st.events)
  }

  function ReadAll(name: string, length: Option<int>, chunks: seq<seq<bv8>>): ReadState
    decreases |chunks|
  {
    if chunks == [] then ReadStart
    else ReadStep(name, length, ReadAll(name, length, chunks[..|chunks| - 1]), |chunks[|chunks| - 1]|)
  }

  /** One more chunk read: its bytes appended to the body, and one more step of the loop. */
  lemma ReadSnoc(name: string, length: Option<int>, chunks: seq<seq<bv8>>, i: nat)
    requires i < |chunks|
    ensures Concat(chunks[..i + 1]) == Concat(chunks[..i]) + chunks[i]
    ensures ReadAll(name, length, chunks[..i + 1]) == ReadStep(name, length, ReadAll(name, length, chunks[..i]), |chunks[i]|)
  {
    assert chunks[..i + 1][..i] == chunks[..i];
  }

  /** The report sent after the loop unless the last one already said 100; its total is the
      length when known and the bytes read otherwise. */
  function FinalReport(name: string, length: Option<int>, st: ReadState): seq<Act> {
    if st.lastPercent != 100 then [DownloadReport(name, 100, length.GetOr(st.total), st.total)] else []
  }

  function PercentOf(a: Act): int {
    if a.ProgressNotice? then a.report.percent else -1
  }

  lemma MulMonotone(d: int, a: int, b: int)
    requires 0 <= d && a <= b
    ensures d * a <= d * b
  {
  }

  lemma DivMonotone(x: int, y: int, d: int)
    requires 0 <= x <= y && 0 < d
    ensures x / d <= y / d
  {
    if x / d > y / d {
      MulMonotone(d, y / d + 1, x / d);
    }
  }

  /** All of a known length is 100 percent. */
  lemma PercentOfWhole(n: int)
    requires 0 < n
    ensures n * 100 / n == 100
  {
    var q := n * 100 / n;
    if q < 100 {
      MulMonotone(n, q + 1, 100);
    } else if q > 100 {
      MulMonotone(n, 101, q);
    }
  }

  /** What the loop's reports look like after any number of steps: all for this file and
      length, with strictly increasing percentages, the last of which is the loop's
      `lastPercent` (the percentage of the bytes read so far); none at all when the length is
      unknown or zero. */
  predicate ReportsWellFormed(name: string, length: Option<int>, st: ReadState) {
    (forall a :: a in st.events ==>
       (a.ProgressNotice? && a.report.kind == PackageDownload
        && a.report.packageName == Some(name) && length.Some? && a.report.howMany == length.value))
    && (forall i, j :: 0 <= i < j < |st.events| ==> PercentOf(st.events[i]) < PercentOf(st.events[j]))
    && (st.events == [] <==> st.lastPercent == -1)
    && (st.events != [] ==>
          (PercentOf(st.events[|st.events| - 1]) == st.lastPercent
           && 0 <= st.lastPercent && length.Some? && length.value > 0
           && st.lastPercent == st.total * 100 / length.value))
    && (length.None? || length.value <= 0 ==> st.events == [])
  }

  /** Appending a percentage above the last one keeps the percentages strictly increasing. */
  lemma IncreasingSnoc(events: seq<Act>, a: Act)
    requires forall i, j :: 0 <= i < j < |events| ==> PercentOf(events[i]) < PercentOf(events[j])
    requires events != [] ==> PercentOf(events[|events| - 1]) < PercentOf(a)
    ensures var e := events + [a];
      forall i, j :: 0 <= i < j < |e| ==> PercentOf(e[i]) < PercentOf(e[j])
  {
    var e := events + [a];
    forall i, j | 0 <= i < j < |e|
      ensures PercentOf(e[i]) < PercentOf(e[j])
    {
      if j == |events| {
        if i < |events| - 1 {
          assert PercentOf(events[i]) < PercentOf(events[|events| - 1]);
        }
      } else {
        assert e[i] == events[i] && e[j] == events[j];
      }
    }
  }

  /** One step of the loop keeps its reports well formed. */
  lemma ReadStepKeeps(name: string, length: Option<int>, st: ReadState, n: nat)
    requires 0 <= st.total && ReportsWellFormed(name, length, st)
    ensures ReportsWellFormed(name, length, ReadStep(name, length, st, n))
  {
    if length.Some? && length.value > 0 && (st.total + n) * 100 / length.value != st.lastPercent {
      ReadStepReports(name, length.value, st, n);
    }
  }

  /** A step whose percentage differs from the last one reports it, above all earlier ones. */
  lemma ReadStepReports(name: string, length: int, st: ReadState, n: nat)
    requires 0 <= st.total && 0 < length && ReportsWellFormed(name, Some(length), st)
    requires (st.total + n) * 100 / length != st.lastPercent
    ensures ReportsWellFormed(name, Some(length), ReadStep(name, Some(length), st, n))
  {
    var percent := (st.total + n) * 100 / length;
    var a := DownloadReport(name, percent, length, st.total + n);
    assert ReadStep(name, Some(length), st, n) == ReadState(st.total + n, percent, st.events + [a]);
    assert 0 <= percent by {
      DivMonotone(0, (st.total + n) * 100, length);
    }
    if st.events != [] {
      DivMonotone(st.total * 100, (st.total + n) * 100, length);
    }
    IncreasingSnoc(st.events, a);
  }

  /** The loop's reports are well formed and the byte count is the sum of the chunk sizes. */
  lemma {:induction false} ReadAllMeaning(name: string, length: Option<int>, chunks: seq<seq<bv8>>)
    ensures var st := ReadAll(name, length, chunks);
      st.total == |Concat(chunks)| && ReportsWellFormed(name, length, st)
    decreases |chunks|
  {
    if chunks != [] {
      var init := chunks[..|chunks| - 1];
      ReadAllMeaning(name, length, init);
      ReadStepKeeps(name, length, ReadAll(name, length, init), |chunks[|chunks| - 1]|);
    }
  }

  /** A download that reads to the end reports 100 last; and when the server's length is the
      number of bytes sent, that 100 is reported exactly once, by the loop. */
  lemma FinalReportIs100(name: string, length: Option<int>, chunks: seq<seq<bv8>>)
    ensures var st := ReadAll(name, length, chunks);
      var all := st.events + FinalReport(name, length, st);
      all != [] && PercentOf(all[|all| - 1]) == 100
    ensures var st := ReadAll(name, length, chunks);
      length.Some? && length.value > 0 && length.value == |Concat(chunks)| ==>
        FinalReport(name, length, st) == [] && st.events != []
    ensures var st := ReadAll(name, length, chunks);
      length.None? || length.value <= 0 ==>
        st.events + FinalReport(name, length, st) == [DownloadReport(name, 100, length.GetOr(st.total), st.total)]
  {
    ReadAllMeaning(name, length, chunks);
    var st := ReadAll(name, length, chunks);
    if length.Some? && length.value > 0 && length.value == |Concat(chunks)| {
      assert chunks != [];
      var init := chunks[..|chunks| - 1];
      ReadAllMeaning(name, length, init);
      PercentOfWhole(length.value);
    }
  }

  // ---------------------------------------------------------------------------------------
  // Where a file goes

  /** The name a downloaded file keeps: what follows the last '/' of the URL's local path, or
      of the URL itself when it does not parse. */
  function UrlFileName(env: Env, u: string): string {
    GetFileName(match env.uriLocalPath(u) case Some(p) => p case None => u)
  }

  /** The directory choice of `DownloadFile` for a file named `fileName`, and none for an empty
      path. */
  function Placement(conf: PacmanConf, u: string, dir: StrPtr, fileName: string): Option<string> {
    var localpath :=
      if dir.Str? && dir.s != [] then Some(Combine(dir.s, fileName))
      else if EndsWith(u, ".db") || EndsWith(u, ".db.sig") then Some(Combine(Combine(conf.dbPath, "sync"), fileName))
      else if conf.cacheDir.Some? then Some(Combine(conf.cacheDir.value, fileName))
      else None;
    if localpath == Some([]) then None else localpath
  }

  /** The destination of `DownloadFile`, or none where it returns -1 without touching the
      disk: no URL (a null, unreadable or empty one), no cache directory to fall back on, or
      an empty path. A directory pointer that cannot be read counts as null. */
  function Destination(env: Env, conf: PacmanConf, url: StrPtr, dir: StrPtr): Option<string> {
    if !url.Str? || url.s == [] then None
    else Placement(conf, url.s, dir, UrlFileName(env, url.s))
  }

  lemma PlacementMeaning(conf: PacmanConf, u: string, dir: StrPtr, fileName: string)
    ensures dir.Str? && dir.s != [] ==> Placement(conf, u, dir, fileName) == Some(Combine(dir.s, fileName))
    ensures !(dir.Str? && dir.s != []) && (EndsWith(u, ".db") || EndsWith(u, ".db.sig")) && conf.dbPath != [] ==>
      Placement(conf, u, dir, fileName) == Some(Combine(Combine(conf.dbPath, "sync"), fileName))
    ensures !(dir.Str? && dir.s != []) && !EndsWith(u, ".db") && !EndsWith(u, ".db.sig") ==>
      (Placement(conf, u, dir, fileName).Some? ==>
         conf.cacheDir.Some? && Placement(conf, u, dir, fileName) == Some(Combine(conf.cacheDir.value, fileName)))
  {
    if !(dir.Str? && dir.s != []) && conf.dbPath != [] {
      assert Combine(conf.dbPath, "sync") != [];
    }
  }

  /** A supplied directory is used as is; without one, database files and their signatures go
      to the `sync` directory under the database path, and everything else to the cache
      directory; the file keeps the name the URL ends with. */
  lemma DestinationMeaning(env: Env, conf: PacmanConf, url: StrPtr, dir: StrPtr)
    ensures !url.Str? || url.s == [] ==> Destination(env, conf, url, dir).None?
    ensures url.Str? && url.s != [] ==>
      var u := url.s;
      var fileName := UrlFileName(env, u);
      (dir.Str? && dir.s != [] ==> Destination(env, conf, url, dir) == Some(Combine(dir.s, fileName)))
      && (!(dir.Str? && dir.s != []) && (EndsWith(u, ".db") || EndsWith(u, ".db.sig")) && conf.dbPath != [] ==>
            Destination(env, conf, url, dir) == Some(Combine(Combine(conf.dbPath, "sync"), fileName)))
      && (!(dir.Str? && dir.s != []) && !EndsWith(u, ".db") && !EndsWith(u, ".db.sig") ==>
            (Destination(env, conf, url, dir).Some? ==>
               (conf.cacheDir.Some?
                && Destination(env, conf, url, dir) == Some(Combine(conf.cacheDir.value, fileName)))))
  {
    if url.Str? && url.s != [] {
      PlacementMeaning(conf, url.s, dir, UrlFileName(env, url.s));
    }
  }

  // ---------------------------------------------------------------------------------------
  // PerformDownload and DownloadSignatureFile

  /** What a download leaves: the return code, the disk, and the progress reports. */
  datatype Download = Download(result: int, files: Files, events: seq<Act>)

  function PartPath(p: string): string { p + ".part" }
  function SigPath(p: string): string { p + ".sig" }

  /** `DownloadSignatureFile`: on a non-success status the stale signature is deleted; on any
      exception the ".part" file and the stale signature are deleted; otherwise the body
      replaces the signature through the ".part" file. */
  function SignatureFiles(env: Env, files: Files, sigUrl: string, sigLocal: string): Files {
    var temp := PartPath(sigLocal);
    var f := FetchOf(env, sigUrl);
    if f.Unreachable? then Delete(env.disk, Delete(env.disk, files, temp), sigLocal)
    else if !f.success then Delete(env.disk, files, sigLocal)
    else if temp in env.disk.unwritable then Delete(env.disk, Delete(env.disk, files, temp), sigLocal)
    else
      var written := files[temp := Concat(f.chunks[..ReadChunks(f)])];
      if ReadFails(f) || sigLocal in env.disk.immovable then
        Delete(env.disk, Delete(env.disk, written, temp), sigLocal)
      else MoveOver(written, temp, sigLocal)
  }

  /** Whether a downloaded URL is a database, whose signature is fetched next. */
  predicate IsDatabaseUrl(url: string) {
    EndsWith(url, ".db") && !EndsWith(url, ".db.sig")
  }

  /** The end of a download once the body was read completely into the ".part" file of
      `written`: that file is deleted when no replacement is needed, otherwise renamed over
      the destination (a failed rename leaves it in place), then the signature of a
      database follows. */
  function FinishDownload(env: Env, written: Files, url: string, localpath: string, events: seq<Act>): Download
    requires PartPath(localpath) in written
  {
    var temp := PartPath(localpath);
    if !env.replaceNeeded(FileAt(written, localpath), written[temp]) then Download(0, Delete(env.disk, written, temp), events)
    else if localpath in env.disk.immovable then Download(-1, written, events)
    else
      var moved := MoveOver(written, temp, localpath);
      if IsDatabaseUrl(url) then Download(0, SignatureFiles(env, moved, SigPath(url), SigPath(localpath)), events)
      else Download(0, moved, events)
  }

  /** `PerformDownload`. */
  function DownloadSpec(env: Env, files: Files, url: string, localpath: string): Download {
    var temp := PartPath(localpath);
    var f := FetchOf(env, url);
    if f.Unreachable? then Download(-1, Delete(env.disk, files, temp), [])
    else if !f.success then Download(-1, files, [])
    else if temp in env.disk.unwritable then Download(-1, Delete(env.disk, files, temp), [])
    else
      var k := ReadChunks(f);
      var body := Concat(f.chunks[..k]);
      var st := ReadAll(GetFileName(localpath), f.length, f.chunks[..k]);
      var written := files[temp := body];
      if ReadFails(f) then Download(-1, Delete(env.disk, written, temp), st.events)
      else FinishDownload(env, written, url, localpath, st.events + FinalReport(GetFileName(localpath), f.length, st))
  }

  /** The paths a download may touch: the destination, its ".part" file, and for a database
      its signature and the signature's ".part" file. */
  predicate Touched(p: string, localpath: string) {
    p == localpath || p == PartPath(localpath) || p == SigPath(localpath) || p == PartPath(SigPath(localpath))
  }

  lemma PathsDistinct(localpath: string)
    ensures PartPath(localpath) != localpath && SigPath(localpath) != localpath
    ensures PartPath(SigPath(localpath)) != SigPath(localpath) && PartPath(localpath) != SigPath(localpath)
  {
    assert |PartPath(localpath)| == |localpath| + 5;
    assert |SigPath(localpath)| == |localpath| + 4;
    assert SigPath(localpath)[|localpath| + 1] == 's';
    assert PartPath(localpath)[|localpath| + 1] == 'p';
  }

  /** Fetching a signature changes no path but the signature and its ".part" file. */
  lemma SignatureTouchesOnlyItsPaths(env: Env, files: Files, sigUrl: string, sigLocal: string, p: string)
    requires p != sigLocal && p != PartPath(sigLocal)
    ensures FileAt(SignatureFiles(env, files, sigUrl, sigLocal), p) == FileAt(files, p)
  {
  }

  /** The end of a download returns 0 or -1, keeps the destination when it returns -1, and
      changes no path but the ones the download may touch. */
  lemma FinishDownloadMeaning(env: Env, written: Files, url: string, localpath: string, events: seq<Act>, p: string)
    requires PartPath(localpath) in written
    ensures var d := FinishDownload(env, written, url, localpath, events);
      d.result in {-1, 0}
      && (d.result == -1 ==> d.files == written)
      && (!Touched(p, localpath) ==> FileAt(d.files, p) == FileAt(written, p))
  {
    PathsDistinct(localpath);
    var temp := PartPath(localpath);
    if env.replaceNeeded(FileAt(written, localpath), written[temp]) && localpath !in env.disk.immovable
       && IsDatabaseUrl(url) && !Touched(p, localpath) {
      SignatureTouchesOnlyItsPaths(env, MoveOver(written, temp, localpath), SigPath(url), SigPath(localpath), p);
    }
  }

  /** `FinishDownloadMeaning` for the files a complete read leaves behind. */
  lemma FinishOf(env: Env, files: Files, url: string, localpath: string, p: string)
    ensures var f := FetchOf(env, url);
      f.Reply? && f.success && PartPath(localpath) !in env.disk.unwritable && !ReadFails(f) ==>
        var k := ReadChunks(f);
        var st := ReadAll(GetFileName(localpath), f.length, f.chunks[..k]);
        var written := files[PartPath(localpath) := Concat(f.chunks[..k])];
        var d := FinishDownload(env, written, url, localpath, st.events + FinalReport(GetFileName(localpath), f.length, st));
        d.result in {-1, 0}
        && (d.result == -1 ==> d.files == written)
        && (!Touched(p, localpath) ==> FileAt(d.files, p) == FileAt(written, p))
  {
    var f := FetchOf(env, url);
    if f.Reply? && f.success && PartPath(localpath) !in env.disk.unwritable && !ReadFails(f) {
      var k := ReadChunks(f);
      var st := ReadAll(GetFileName(localpath), f.length, f.chunks[..k]);
      var written := files[PartPath(localpath) := Concat(f.chunks[..k])];
      FinishDownloadMeaning(env, written, url, localpath, st.events + FinalReport(GetFileName(localpath), f.length, st), p);
    }
  }

  /** A download changes no path but the ones it may touch. */
  lemma DownloadTouchesOnlyItsPaths(env: Env, files: Files, url: string, localpath: string, p: string)
    requires !Touched(p, localpath)
    ensures FileAt(DownloadSpec(env, files, url, localpath).files, p) == FileAt(files, p)
  {
    PathsDistinct(localpath);
    FinishOf(env, files, url, localpath, p);
  }

  /** A failed download (-1) leaves the destination as it was; and a non-success status
      changes nothing at all and reports nothing. */
  lemma DownloadFailureKeepsDestination(env: Env, files: Files, url: string, localpath: string)
    ensures var d := DownloadSpec(env, files, url, localpath);
      d.result == -1 ==> FileAt(d.files, localpath) == FileAt(files, localpath)
    ensures var f := FetchOf(env, url);
      f.Reply? && !f.success ==> DownloadSpec(env, files, url, localpath) == Download(-1, files, [])
    ensures DownloadSpec(env, files, url, localpath).result in {-1, 0}
  {
    PathsDistinct(localpath);
    FinishOf(env, files, url, localpath, localpath);
  }

  /** A download that read the whole body and needed a replacement holds that body at the
      destination afterwards and no ".part" file; when no replacement was needed the
      destination is untouched, the ".part" file is gone when it can be deleted, and no
      signature is fetched. */
  lemma DownloadSuccessContents(env: Env, files: Files, url: string, localpath: string)
    requires var f := FetchOf(env, url);
      f.Reply? && f.success && PartPath(localpath) !in env.disk.unwritable && !ReadFails(f)
    ensures var f := FetchOf(env, url);
      var d := DownloadSpec(env, files, url, localpath);
      var body := Concat(f.chunks[..ReadChunks(f)]);
      (env.replaceNeeded(FileAt(files, localpath), body) && localpath !in env.disk.immovable ==>
         d.result == 0 && FileAt(d.files, localpath) == Some(body) && PartPath(localpath) !in d.files)
      && (!env.replaceNeeded(FileAt(files, localpath), body) ==>
           d.result == 0 && FileAt(d.files, localpath) == FileAt(files, localpath)
           && (PartPath(localpath) !in env.disk.undeletable ==> PartPath(localpath) !in d.files)
           && FileAt(d.files, SigPath(localpath)) == FileAt(files, SigPath(localpath)))
      && (env.replaceNeeded(FileAt(files, localpath), body) && localpath in env.disk.immovable ==>
           d.result == -1 && FileAt(d.files, PartPath(localpath)) == Some(body))
  {
    PathsDistinct(localpath);
    var f := FetchOf(env, url);
    var k := ReadChunks(f);
    var st := ReadAll(GetFileName(localpath), f.length, f.chunks[..k]);
    var written := files[PartPath(localpath) := Concat(f.chunks[..k])];
    assert FileAt(written, localpath) == FileAt(files, localpath);
    assert FileAt(written, SigPath(localpath)) == FileAt(files, SigPath(localpath));
    FinishDownloadContents(env, written, url, localpath, st.events + FinalReport(GetFileName(localpath), f.length, st));
  }

  /** The end of a download with the body in the ".part" file: the body replaces the
      destination when needed and possible; otherwise the destination and the signature are
      untouched, and the ".part" file stays only when it cannot be deleted or moved. */
  lemma FinishDownloadContents(env: Env, written: Files, url: string, localpath: string, events: seq<Act>)
    requires PartPath(localpath) in written
    ensures var temp := PartPath(localpath);
      var d := FinishDownload(env, written, url, localpath, events);
      (env.replaceNeeded(FileAt(written, localpath), written[temp]) && localpath !in env.disk.immovable ==>
         d.result == 0 && FileAt(d.files, localpath) == Some(written[temp]) && temp !in d.files)
      && (!env.replaceNeeded(FileAt(written, localpath), written[temp]) ==>
           d.result == 0 && FileAt(d.files, localpath) == FileAt(written, localpath)
           && (temp !in env.disk.undeletable ==> temp !in d.files)
           && FileAt(d.files, SigPath(localpath)) == FileAt(written, SigPath(localpath)))
      && (env.replaceNeeded(FileAt(written, localpath), written[temp]) && localpath in env.disk.immovable ==>
           d.result == -1 && FileAt(d.files, temp) == Some(written[temp]))
  {
    PathsDistinct(localpath);
    var temp := PartPath(localpath);
    if env.replaceNeeded(FileAt(written, localpath), written[temp]) && localpath !in env.disk.immovable
       && IsDatabaseUrl(url) {
      var moved := MoveOver(written, temp, localpath);
      SignatureTouchesOnlyItsPaths(env, moved, SigPath(url), SigPath(localpath), localpath);
      SignatureTouchesOnlyItsPaths(env, moved, SigPath(url), SigPath(localpath), temp);
    }
  }

  /** A stream or write failure deletes the ".part" file (unless that fails too) and returns
      -1; the reports raised so far stand, and no final 100 is sent. */
  lemma DownloadReadFailureCleansUp(env: Env, files: Files, url: string, localpath: string)
    requires var f := FetchOf(env, url);
      f.Reply? && f.success && PartPath(localpath) !in env.disk.unwritable && ReadFails(f)
    ensures var f := FetchOf(env, url);
      var d := DownloadSpec(env, files, url, localpath);
      d.result == -1
      && (PartPath(localpath) !in env.disk.undeletable ==> PartPath(localpath) !in d.files)
      && d.events == ReadAll(GetFileName(localpath), f.length, f.chunks[..ReadChunks(f)]).events
  {
  }

  /** After a database was renamed into place its signature is fetched: a non-success
      status or a failure removes the stale signature (when it can be deleted), a success
      stores the new one; the download's result stays 0 either way. */
  lemma DatabaseSignatureFollows(env: Env, files: Files, url: string, localpath: string)
    requires IsDatabaseUrl(url)
    requires var f := FetchOf(env, url);
      f.Reply? && f.success && PartPath(localpath) !in env.disk.unwritable && !ReadFails(f)
      && env.replaceNeeded(FileAt(files, localpath), Concat(f.chunks[..ReadChunks(f)]))
      && localpath !in env.disk.immovable
    ensures var d := DownloadSpec(env, files, url, localpath);
      var s := FetchOf(env, SigPath(url));
      var sig := SigPath(localpath);
      d.result == 0
      && (s.Reply? && s.success && PartPath(sig) !in env.disk.unwritable && !ReadFails(s) && sig !in env.disk.immovable ==>
            FileAt(d.files, sig) == Some(Concat(s.chunks[..ReadChunks(s)])) && PartPath(sig) !in d.files)
      && ((!(s.Reply? && s.success && PartPath(sig) !in env.disk.unwritable && !ReadFails(s) && sig !in env.disk.immovable)
           && sig !in env.disk.undeletable) ==> sig !in d.files)
  {
    PathsDistinct(localpath);
  }
}
