/** The hotfix crawler of `src/commands/server/gi.ts`: for every version, build,
    client and manifest it downloads the manifest, reads it line by line, and for
    every asset line decides from the per-version cache whether the asset must be
    checked or fetched, recording what it learns in the cache. */
module Crawler {
  import opened Wrappers
  import opened Strings
  import opened Library
  import opened CrawlerPaths
  import opened CacheIndex
  import Download

  /** A value the crawler compares with a number using `==` or `!=`. */
  datatype JsValue = JsBool(b: bool) | JsNum(n: int)

  /** Loose equality `v == n` with a number: a boolean converts to 1 or 0. */
  predicate LooseEq(v: JsValue, n: int): (b: bool)
    ensures v.JsBool? ==> (b <==> (v.b && n == 1) || (!v.b && n == 0))
  {
    match v
    case JsBool(b) => (if b then 1 else 0) == n
    case JsNum(m) => m == n
  }

  /** Which value reaches the crawler's comparisons after `forceDownload`: the
      boolean the function resolves to, or the status code the comparisons
      (`== 0` for success, `== -1` for not found) were written for. */
  datatype Semantics = AsWritten | Corrected

  /** The value compared with 0 and -1 after a download. As written, success
      compares unequal to 0 and failure equal to it, and nothing equals -1. */
  function DownloadValue(sem: Semantics, r: Download.Run): (v: JsValue)
    ensures sem.AsWritten? ==> (LooseEq(v, 0) <==> !Download.Returned(r)) && !LooseEq(v, -1)
    ensures sem.Corrected? ==> (LooseEq(v, 0) <==> Download.Returned(r))
    ensures sem.Corrected? ==> (LooseEq(v, -1) <==> r.end == Download.NotFound)
  {
    match sem
    case AsWritten => JsBool(Download.Returned(r))
    case Corrected => JsNum(Download.ResultCode(r))
  }

  /** One manifest to process: the `fileFolder` it lives in and its name. */
  datatype Job = Job(folder: string, mapper: string)

  /** An asset named by a manifest line: its URL, its local path and the digest
      the manifest gives for it (`mapperData.md5 || ""`). */
  datatype Asset = Asset(url: string, savePath: string, expected: string)

  /** A download the crawler asks `forceDownload` for. */
  datatype Fetch = Fetch(url: string, path: string)

  /** What the file system and the network answer while one asset line is
      handled: the digest check of the file at the save path, the run of
      `forceDownload(gameFileUrl, gameFileSavePath)` when it is called, and
      whether the body that run wrote has the expected digest. */
  datatype AssetIO = AssetIO(validBefore: bool, run: Download.Run, validAfter: bool)

  /** The digest check after the download (`isValid2`). `forceDownload` unlinks
      the file before its loop, so the path holds the body of the 200 when the
      write succeeded, and otherwise nothing, or the old file when the unlink
      failed; that file already failed the first check. Only a written body can
      pass. */
  predicate CheckAfter(io: AssetIO) {
    Download.Wrote(io.run) && io.validAfter
  }

  /** The paths an asset line leads to. */
  function AssetOf(job: Job, name: string, md5: Option<string>): (a: Asset)
    // `md5 || ""`: a missing digest and an empty one are the same expectation
    ensures a.expected == "" <==> md5.None? || md5.value == ""
    ensures md5.Some? ==> a.expected == md5.value
  {
    var saveFolder := SaveFileFolder(job.folder);
    var ext := ExtFolder(name, saveFolder);
    Asset(AssetUrl(job.folder, ext, name), AssetSavePath(saveFolder, ext, name), md5.GetOr(""))
  }

  /** A manifest line, once parsed. */
  datatype LineKind =
    | Blank          // `if (!line) continue`
    | Unparsable     // `getMd5Data` threw: the exception ends the whole crawl
    | Unnamed        // `if (!mapperData?.remoteName) continue`
    | Catalog        // `svc_catalog` is not an asset
    | AssetLine(asset: Asset)

  /** The first half of the per-line procedure: parse and skip lines that name
      no asset. */
  function Classify(job: Job, line: string, jsonParse: string -> Parsed): (k: LineKind)
    ensures k.Blank? <==> line == ""
    ensures k.Unparsable? <==> line != "" && GetMd5Data(line, jsonParse).Threw?
    ensures k.AssetLine? <==>
              && line != ""
              && GetMd5Data(line, jsonParse).Record?
              && GetMd5Data(line, jsonParse).data.remoteName.Some?
              && GetMd5Data(line, jsonParse).data.remoteName.value !in ["", "svc_catalog"]
    ensures k.AssetLine? ==>
              var d := GetMd5Data(line, jsonParse).data;
              k.asset == AssetOf(job, d.remoteName.value, d.md5)
  {
    if line == "" then Blank
    else match GetMd5Data(line, jsonParse)
      case Threw => Unparsable
      case Record(d) =>
        if d.remoteName.None? || d.remoteName.value == "" then Unnamed
        else if d.remoteName.value == "svc_catalog" then Catalog
        else AssetLine(AssetOf(job, d.remoteName.value, d.md5))
  }

  /** A legacy line `name md5|size …` of an asset names that asset with that
      digest. */
  lemma LegacyAssetLine(job: Job, name: string, md5: string, size: nat, extra: seq<string>,
                        jsonParse: string -> Parsed)
    requires name != "" && name != "svc_catalog" && name[0] != '{'
    requires ' ' !in name && ' ' !in md5 && '|' !in md5
    requires forall e :: e in extra ==> ' ' !in e
    ensures Classify(job, Join([name, md5 + "|" + Digits(size)] + extra, ' '), jsonParse)
         == AssetLine(AssetOf(job, name, Some(md5)))
  {
    var line := Join([name, md5 + "|" + Digits(size)] + extra, ' ');
    LegacyLineRoundTrip(name, md5, size, extra, jsonParse);
    assert line[0] == name[0];
  }

  /** The outcome of one line. */
  datatype Outcome =
    | Skipped            // blank, unnamed or catalog line
    | SkipCached         // `cache[gameFileUrl]` is set
    | SkipSameDigest     // an earlier build recorded the same digest
    | SkipKnownMissing   // an earlier build recorded "not_found"
    | KeptValid          // the local file already has the digest
    | Downloaded         // fetched, and the digest now matches
    | DownloadedInvalid  // fetched, but the digest does not match
    | DownloadFailed     // the download did not succeed
    | MarkedMissing      // the origin answered 404

  /** The result of one line: the crawl aborts, or an outcome with the cache
      after it, the cache snapshots written to disk, and the asset downloads. */
  datatype LineResult =
    | Abort
    | Line(outcome: Outcome, cache: Cache, saves: seq<Cache>, fetches: seq<Fetch>)

  /** The cache entry an asset is matched with across builds: the first key in
      insertion order that normalises to the asset URL's normal form. */
  function Lookup(cache: Cache, url: string): (m: Option<string>)
    ensures m.Some? ==> m.value in cache.entries && Normalize(m.value) == Normalize(url)
    ensures m.None? <==> forall k :: k in cache.entries ==> Normalize(k) != Normalize(url)
    // the asset's own URL is a candidate, so a recorded URL is always matched
    ensures url in cache.entries ==> m.Some?
  {
    Find(cache, Normalize, Normalize(url))
  }

  /** The cross-build match makes the line skip: the matched entry holds the
      expected digest, or "not_found". */
  predicate Reused(cache: Cache, a: Asset): (b: bool)
    ensures b ==> exists k :: k in cache.entries && Normalize(k) == Normalize(a.url)
                              && (cache.entries[k] == a.expected || cache.entries[k] == NotFound)
  {
    var m := Lookup(cache, a.url);
    m.Some? && (cache.entries[m.value] == a.expected || cache.entries[m.value] == NotFound)
  }

  /** The second half of the per-line procedure, for an asset line. */
  function Decide(sem: Semantics, cache: Cache, a: Asset, io: AssetIO): (r: LineResult)
    ensures r.Line? && |r.fetches| <= 1
    // an exact hit skips whatever the recorded value is
    ensures Hit(cache, a.url) ==> r.outcome == SkipCached
    // the asset is downloaded exactly when no entry vouches for it
    ensures |r.fetches| == 1 <==> !Hit(cache, a.url) && !Reused(cache, a) && !io.validBefore
    ensures |r.fetches| == 1 ==> r.fetches[0] == Fetch(a.url, a.savePath)
    // a write records the expected digest after a passing check, or "not_found"
    // after a 404; every write is persisted at once
    ensures r.saves == [] ==> r.cache == cache
    ensures r.saves != [] ==>
              && r.saves == [r.cache]
              && !Hit(cache, a.url)
              && ((r.cache == Set(cache, a.url, a.expected) && (io.validBefore || CheckAfter(io)))
                  || (r.cache == Set(cache, a.url, NotFound) && sem.Corrected?
                      && io.run.end == Download.NotFound))
    // a file that already passes the check is recorded without a request
    ensures !Hit(cache, a.url) && !Reused(cache, a) && io.validBefore ==>
              r.outcome == KeptValid && r.cache == Set(cache, a.url, a.expected) && r.saves == [r.cache]
    // as written, only a file that was already valid is ever recorded
    ensures sem.AsWritten? ==> r.outcome !in {MarkedMissing, Downloaded}
  {
    if Hit(cache, a.url) then Line(SkipCached, cache, [], [])
    else
      var m := Lookup(cache, a.url);
      if m.Some? && cache.entries[m.value] == a.expected then Line(SkipSameDigest, cache, [], [])
      else if m.Some? && cache.entries[m.value] == NotFound then Line(SkipKnownMissing, cache, [], [])
      else if io.validBefore then
        var c := Set(cache, a.url, a.expected);
        Line(KeptValid, c, [c], [])
      else
        var f := [Fetch(a.url, a.savePath)];
        var v := DownloadValue(sem, io.run);
        if LooseEq(v, 0) then
          if CheckAfter(io) then
            var c := Set(cache, a.url, a.expected);
            Line(Downloaded, c, [c], f)
          else Line(DownloadedInvalid, cache, [], f)
        else if LooseEq(v, -1) then
          var c := Set(cache, a.url, NotFound);
          Line(MarkedMissing, c, [c], f)
        else Line(DownloadFailed, cache, [], f)
  }

  /** One manifest line, parsed and decided. */
  function ProcessLine(sem: Semantics, job: Job, line: string, cache: Cache, io: AssetIO,
                       jsonParse: string -> Parsed): (r: LineResult)
    ensures r.Abort? <==> Classify(job, line, jsonParse).Unparsable?
    ensures r.Line? && !Classify(job, line, jsonParse).AssetLine? ==>
              r.outcome == Skipped && r.cache == cache && r.saves == [] && r.fetches == []
    ensures Classify(job, line, jsonParse).AssetLine? ==>
              r == Decide(sem, cache, Classify(job, line, jsonParse).asset, io)
  {
    match Classify(job, line, jsonParse)
    case Unparsable => Abort
    case AssetLine(a) => Decide(sem, cache, a, io)
    case _ => Line(Skipped, cache, [], [])
  }

  /** As written, a download that succeeds and yields a file with the right
      digest is reported as failed and never recorded, so the asset is fetched
      again on every run. */
  lemma SuccessNotRecordedAsWritten(cache: Cache, a: Asset, io: AssetIO)
    requires !Hit(cache, a.url) && !Reused(cache, a) && !io.validBefore
    requires Download.Returned(io.run) && io.validAfter
    ensures Decide(AsWritten, cache, a, io).outcome == DownloadFailed
    ensures Decide(AsWritten, cache, a, io).cache == cache
  {
  }

  /** As written, a 404 is treated as a finished download and the file is
      checked again, which fails: "not_found" is never recorded. */
  lemma NotFoundNotRecordedAsWritten(cache: Cache, a: Asset, io: AssetIO)
    requires !Hit(cache, a.url) && !Reused(cache, a) && !io.validBefore
    requires io.run.end == Download.NotFound
    ensures Decide(AsWritten, cache, a, io).outcome == DownloadedInvalid
    ensures Decide(AsWritten, cache, a, io).cache == cache
  {
  }

  /** As written, no download is ever recorded: whatever the run, an asset that
      had to be fetched leaves the cache as it was. */
  lemma DownloadsNeverRecordedAsWritten(cache: Cache, a: Asset, io: AssetIO)
    requires !Hit(cache, a.url) && !Reused(cache, a) && !io.validBefore
    ensures Decide(AsWritten, cache, a, io).outcome in {DownloadedInvalid, DownloadFailed}
    ensures Decide(AsWritten, cache, a, io).cache == cache
    ensures Decide(AsWritten, cache, a, io).saves == []
  {
    var v := DownloadValue(AsWritten, io.run);
    if Download.Returned(io.run) {
      assert !LooseEq(v, 0) && !LooseEq(v, -1);
    } else {
      assert !CheckAfter(io);
    }
  }

  /** With the status code, a successful download whose digest checks out is
      recorded with the expected digest. */
  lemma SuccessRecordedCorrected(cache: Cache, a: Asset, io: AssetIO)
    requires !Hit(cache, a.url) && !Reused(cache, a) && !io.validBefore
    requires CheckAfter(io)
    ensures Decide(Corrected, cache, a, io).outcome == Downloaded
    ensures Decide(Corrected, cache, a, io).cache.entries == cache.entries[a.url := a.expected]
  {
  }

  /** With the status code, a 404 records "not_found", and a later line naming
      the same asset is skipped without a request. */
  lemma NotFoundRecordedCorrected(cache: Cache, a: Asset, io: AssetIO, io2: AssetIO)
    requires !Hit(cache, a.url) && !Reused(cache, a) && !io.validBefore
    requires io.run.end == Download.NotFound
    ensures Decide(Corrected, cache, a, io).outcome == MarkedMissing
    ensures Decide(Corrected, cache, a, io).cache.entries == cache.entries[a.url := NotFound]
    ensures Decide(Corrected, Decide(Corrected, cache, a, io).cache, a, io2).fetches == []
  {
    var c := Decide(Corrected, cache, a, io).cache;
    assert c.entries[a.url] == NotFound;
    assert Hit(c, a.url);
  }

  /** An asset recorded from one build is not fetched again from another build of
      the same version, client and mode, when the recorded entry is the only one
      with that normal form. */
  lemma ReuseAcrossBuilds(sem: Semantics, cache: Cache, k: Kind, version: string,
                          ch1: Channel, ch2: Channel, client: string, ext: string,
                          name: string, a: Asset, io: AssetIO)
    requires 'o' !in version
    requires |ch1.suffix| > 0 && AllLowerHex(ch1.suffix)
    requires |ch2.suffix| > 0 && AllLowerHex(ch2.suffix)
    requires ext != "" ==>
      !Contains(FileFolder(Mode(k), version, ch1, client) + "/" + ext + "/" + name,
                FileFolder(Mode(k), version, ch1, client) + "//")
    requires ext != "" ==>
      !Contains(FileFolder(Mode(k), version, ch2, client) + "/" + ext + "/" + name,
                FileFolder(Mode(k), version, ch2, client) + "//")
    requires a.url == AssetUrl(FileFolder(Mode(k), version, ch2, client), ext, name)
    requires AssetUrl(FileFolder(Mode(k), version, ch1, client), ext, name) in cache.entries
    requires cache.entries[AssetUrl(FileFolder(Mode(k), version, ch1, client), ext, name)] == a.expected
    requires forall u :: u in cache.entries && Normalize(u) == Normalize(a.url) ==>
               u == AssetUrl(FileFolder(Mode(k), version, ch1, client), ext, name)
    ensures Decide(sem, cache, a, io).outcome in {SkipCached, SkipSameDigest}
    ensures Decide(sem, cache, a, io).cache == cache
    ensures Decide(sem, cache, a, io).fetches == []
  {
    var u1 := AssetUrl(FileFolder(Mode(k), version, ch1, client), ext, name);
    NormalizeAssetUrl(k, version, ch1, client, ext, name);
    NormalizeAssetUrl(k, version, ch2, client, ext, name);
    assert Normalize(u1) == Normalize(a.url);
    ReusedWhenUnique(cache, a, u1);
    ReusedSkips(sem, cache, a, io);
  }

  /** The only entry with the asset's normal form, holding the expected digest,
      vouches for the asset. */
  lemma ReusedWhenUnique(cache: Cache, a: Asset, u: string)
    requires u in cache.entries && cache.entries[u] == a.expected
    requires Normalize(u) == Normalize(a.url)
    requires forall v :: v in cache.entries && Normalize(v) == Normalize(a.url) ==> v == u
    ensures Reused(cache, a)
  {
    FindUnique(cache, Normalize, Normalize(a.url), u);
  }

  /** Only the first cross-build entry counts: when it records another digest,
      the asset is fetched even if a later entry of the same normal form holds
      the expected one. */
  lemma ShadowedEntryFetches(sem: Semantics, cache: Cache, a: Asset, io: AssetIO, first: string, later: string)
    requires !Hit(cache, a.url) && !io.validBefore
    requires Lookup(cache, a.url) == Some(first)
    requires cache.entries[first] != a.expected && cache.entries[first] != NotFound
    requires later in cache.entries && Normalize(later) == Normalize(a.url) && cache.entries[later] == a.expected
    ensures Decide(sem, cache, a, io).fetches == [Fetch(a.url, a.savePath)]
  {
    assert !Reused(cache, a);
  }

  /** An asset some entry vouches for is skipped: nothing is fetched or written. */
  lemma ReusedSkips(sem: Semantics, cache: Cache, a: Asset, io: AssetIO)
    requires Reused(cache, a)
    ensures Decide(sem, cache, a, io).outcome in {SkipCached, SkipSameDigest, SkipKnownMissing}
    ensures Decide(sem, cache, a, io).cache == cache
    ensures Decide(sem, cache, a, io).fetches == []
  {
  }

  /** Progress over a run of lines, manifests or versions: whether the crawl
      aborted, the cache, the snapshots written, the manifests requested and the
      asset downloads. */
  datatype Progress = Progress(aborted: bool, cache: Cache, saves: seq<Cache>,
                               manifests: seq<string>, fetches: seq<Fetch>)

  /** Nothing started from `start` has happened yet. */
  function Idle(start: Cache): (p: Progress)
    ensures !p.aborted && p.cache == start && p.saves == [] && p.manifests == [] && p.fetches == []
  {
    Progress(false, start, [], [], [])
  }

  /** `p` followed by `q`. */
  function Then(p: Progress, q: Progress): Progress {
    Progress(q.aborted, q.cache, p.saves + q.saves, p.manifests + q.manifests, p.fetches + q.fetches)
  }

  /** The cache discipline of the crawler from `start` to `p`: no key is removed
      or moved, a non-empty value is never changed, no snapshot written lost a key
      of `start`, and whenever the cache changed the last snapshot written is the
      final cache. */
  predicate Sound(start: Cache, p: Progress) {
    && Extends(start, p.cache)
    && (forall k :: k in start.entries && start.entries[k] != "" ==> k in p.cache.entries && p.cache.entries[k] == start.entries[k])
    && (forall s :: s in p.saves ==> Extends(start, s))
    && (p.saves == [] ==> p.cache == start)
    && (p.saves != [] ==> Last(p.saves) == p.cache)
  }

  /** The line result as progress. */
  function LineProgress(r: LineResult, aborted: bool): Progress
    requires r.Line?
  {
    Progress(aborted, r.cache, r.saves, [], r.fetches)
  }

  /** The discipline holds for one asset line. */
  lemma DecideSound(sem: Semantics, cache: Cache, a: Asset, io: AssetIO)
    ensures Sound(cache, LineProgress(Decide(sem, cache, a, io), false))
  {
    var r := Decide(sem, cache, a, io);
    if r.saves == [] {
      assert Extends(cache, cache);
    } else {
      WriteSound(cache, a.url, r);
    }
  }

  /** A line that wrote one snapshot, at a key that was not a hit, keeps the
      discipline. */
  lemma WriteSound(cache: Cache, url: string, r: LineResult)
    requires r.Line? && r.saves == [r.cache] && !Hit(cache, url)
    requires exists v :: r.cache == Set(cache, url, v)
    ensures Sound(cache, LineProgress(r, false))
  {
    var p := LineProgress(r, false);
    var v :| r.cache == Set(cache, url, v);
    assert r.cache.entries == cache.entries[url := v];
    assert Last(p.saves) == p.cache;
    forall s | s in p.saves ensures Extends(cache, s) {
      assert s == p.cache;
    }
  }

  /** Progress that neither changed the cache nor wrote it keeps the discipline. */
  lemma UnchangedSound(start: Cache, p: Progress)
    requires p.cache == start && p.saves == []
    ensures Sound(start, p)
  {
    assert start.order[..|start.order|] == start.order;
  }

  /** The discipline composes. */
  lemma SoundThen(a: Cache, p: Progress, q: Progress)
    requires Sound(a, p) && Sound(p.cache, q)
    ensures Sound(a, Then(p, q))
  {
    var r := Then(p, q);
    ExtendsTrans(a, p.cache, q.cache);
    forall s | s in r.saves ensures Extends(a, s) {
      if s !in p.saves {
        assert s in q.saves;
        ExtendsTrans(a, p.cache, s);
      }
    }
    if q.saves != [] {
      assert Last(r.saves) == Last(q.saves);
    }
  }

  /** The lines of one manifest from index `i` on; `io(i)` answers for line `i`.
      An unparsable line ends the crawl. */
  function ProcessLines(sem: Semantics, job: Job, lines: seq<string>, i: nat, cache: Cache,
                        io: nat -> AssetIO, jsonParse: string -> Parsed): (r: Progress)
    ensures Sound(cache, r)
    ensures r.manifests == []
    decreases |lines| - i
  {
    if i >= |lines| then Idle(cache)
    else
      var l := ProcessLine(sem, job, lines[i], cache, io(i), jsonParse);
      if l.Abort? then Progress(true, cache, [], [], [])
      else
        var head := LineProgress(l, false);
        var tail := ProcessLines(sem, job, lines, i + 1, l.cache, io, jsonParse);
        var cl := Classify(job, lines[i], jsonParse);
        assert Sound(cache, head) by {
          if cl.AssetLine? { DecideSound(sem, cache, cl.asset, io(i)); }
        }
        SoundThen(cache, head, tail);
        Then(head, tail)
  }

  /** The crawl aborts exactly when some line from `i` on makes `getMd5Data`
      throw. */
  lemma {:induction false} LinesAbortIff(sem: Semantics, job: Job, lines: seq<string>, i: nat, cache: Cache,
                                         io: nat -> AssetIO, jsonParse: string -> Parsed)
    ensures ProcessLines(sem, job, lines, i, cache, io, jsonParse).aborted <==>
              exists n :: i <= n < |lines| && Classify(job, lines[n], jsonParse).Unparsable?
    decreases |lines| - i
  {
    if i < |lines| {
      var l := ProcessLine(sem, job, lines[i], cache, io(i), jsonParse);
      LinesStep(sem, job, lines, i, cache, io, jsonParse);
      if !l.Abort? {
        LinesAbortIff(sem, job, lines, i + 1, l.cache, io, jsonParse);
        if exists n :: i <= n < |lines| && Classify(job, lines[n], jsonParse).Unparsable? {
          var n :| i <= n < |lines| && Classify(job, lines[n], jsonParse).Unparsable?;
          assert n != i;
        }
      }
    }
  }

  /** One line of a manifest is handled before the ones after it, and an
      unparsable one ends the crawl there. */
  lemma LinesStep(sem: Semantics, job: Job, lines: seq<string>, i: nat, cache: Cache,
                  io: nat -> AssetIO, jsonParse: string -> Parsed)
    requires i < |lines|
    ensures var l := ProcessLine(sem, job, lines[i], cache, io(i), jsonParse);
            ProcessLines(sem, job, lines, i, cache, io, jsonParse).aborted ==
              (l.Abort? || ProcessLines(sem, job, lines, i + 1, l.cache, io, jsonParse).aborted)
  {
  }

  /** Manifests that list no assets. */
  const NonListing: seq<string> :=
    ["script_version", "base_revision", "patch_node_versions", "vulkan_gpu_list_config.txt"]

  /** What the file system and the network answer while one manifest is handled:
      the run of `forceDownload(mapperUrl, saveFilePath)`; whether a file was at
      the path before and survived because `fs.unlink` failed; what
      `fs.readFile` gives for the file at the path, when there is one (`None`
      when reading fails); and the answers for its lines. */
  datatype ManifestIO = ManifestIO(run: Download.Run, keptOld: bool, read: Option<string>,
                                   assets: nat -> AssetIO)

  /** The text read back after the download. The path holds a file only when
      the 200 was written or the old file survived its unlink. */
  function Content(io: ManifestIO): (c: Option<string>)
    ensures c.Some? <==> (Download.Wrote(io.run) || io.keptOld) && io.read.Some?
    ensures c.Some? ==> c == io.read
  {
    if Download.Wrote(io.run) || io.keptOld then io.read else None
  }

  /** Whether the manifest's lines are read: the download compared equal to 0,
      the manifest lists assets, and it could be read back. */
  predicate ReadsLines(sem: Semantics, job: Job, io: ManifestIO) {
    && LooseEq(DownloadValue(sem, io.run), 0)
    && job.mapper !in NonListing
    && Content(io).Some?
  }

  /** One manifest: download it, then read its lines when it lists assets. */
  function ProcessManifest(sem: Semantics, job: Job, cache: Cache, io: ManifestIO,
                           jsonParse: string -> Parsed): (r: Progress)
    ensures Sound(cache, r)
    ensures r.manifests == [MapperUrl(job.folder, job.mapper)]
    ensures !ReadsLines(sem, job, io) ==> !r.aborted && r.cache == cache && r.fetches == []
  {
    var requested := Progress(false, cache, [], [MapperUrl(job.folder, job.mapper)], []);
    UnchangedSound(cache, requested);
    if !ReadsLines(sem, job, io) then requested
    else
      var p := ProcessLines(sem, job, Split(Content(io).value, '\n'), 0, cache, io.assets, jsonParse);
      SoundThen(cache, requested, p);
      Then(requested, p)
  }

  /** A manifest that is read is split on `\n` and its lines are processed in
      order: its outcome, cache, snapshots and fetches are theirs. */
  lemma ManifestLines(sem: Semantics, job: Job, cache: Cache, io: ManifestIO,
                      jsonParse: string -> Parsed)
    requires ReadsLines(sem, job, io)
    ensures var r := ProcessManifest(sem, job, cache, io, jsonParse);
            var p := ProcessLines(sem, job, Split(Content(io).value, '\n'), 0, cache, io.assets, jsonParse);
            r.aborted == p.aborted && r.cache == p.cache && r.saves == p.saves && r.fetches == p.fetches
  {
  }

  /** As written, a manifest that downloads is never read (`isSave0 != 0` holds
      for `true`), so no asset line is ever handled after a fresh download. */
  lemma ManifestSkippedAsWritten(job: Job, cache: Cache, io: ManifestIO, jsonParse: string -> Parsed)
    requires Download.Returned(io.run)
    ensures !ReadsLines(AsWritten, job, io)
    ensures ProcessManifest(AsWritten, job, cache, io, jsonParse).cache == cache
    ensures ProcessManifest(AsWritten, job, cache, io, jsonParse).fetches == []
  {
  }

  /** As written, a listing manifest is read exactly when its download failed
      and an earlier file survived at its path because its unlink failed: the
      lines read are that stale file's. */
  lemma StaleManifestReadAsWritten(job: Job, io: ManifestIO)
    requires job.mapper !in NonListing
    ensures ReadsLines(AsWritten, job, io) <==>
              !Download.Returned(io.run) && io.keptOld && io.read.Some?
  {
  }

  /** As written, when no old file survives its unlink, no manifest is read at
      all: the crawl requests manifests and never touches an asset. */
  lemma NoManifestReadAsWritten(job: Job, cache: Cache, io: ManifestIO, jsonParse: string -> Parsed)
    requires !io.keptOld
    ensures !ReadsLines(AsWritten, job, io)
    ensures ProcessManifest(AsWritten, job, cache, io, jsonParse).cache == cache
    ensures ProcessManifest(AsWritten, job, cache, io, jsonParse).fetches == []
    ensures !ProcessManifest(AsWritten, job, cache, io, jsonParse).aborted
  {
  }

  /** With the status code, a listing manifest is read exactly when its download
      returned true and the file at its path can be read back: the body written,
      or the old file when the write failed and the unlink did too. */
  lemma ManifestReadCorrected(job: Job, io: ManifestIO)
    requires job.mapper !in NonListing
    ensures ReadsLines(Corrected, job, io) <==>
              Download.Returned(io.run) && (Download.Wrote(io.run) || io.keptOld) && io.read.Some?
  {
  }

  /** A build of one version: a `liveType` entry and its `Version`/`Suffix`. */
  datatype Build = Build(kind: Kind, channel: Channel)

  /** Every pairing of a folder with a manifest name, folders outermost. */
  function Pairs(folders: seq<string>, mappers: seq<string>): (r: seq<Job>)
    ensures |r| == |folders| * |mappers|
    ensures forall j :: j in r <==> j.folder in folders && j.mapper in mappers
  {
    if |folders| == 0 then []
    else
      var row := seq(|mappers|, m requires 0 <= m < |mappers| => Job(folders[0], mappers[m]));
      assert forall j :: j in row <==> j.folder == folders[0] && j.mapper in mappers by {
        forall j: Job | j.folder == folders[0] && j.mapper in mappers ensures j in row {
          var m :| 0 <= m < |mappers| && mappers[m] == j.mapper;
          assert row[m] == j;
        }
      }
      row + Pairs(folders[1..], mappers)
  }

  /** The `fileFolder` of each client, in order. */
  function Folders(mode: string, version: string, ch: Channel, clients: seq<string>): (r: seq<string>)
    ensures |r| == |clients|
    ensures forall f :: f in r <==> exists c :: c in clients && f == FileFolder(mode, version, ch, c)
  {
    var r := seq(|clients|, i requires 0 <= i < |clients| => FileFolder(mode, version, ch, clients[i]));
    assert forall f :: f in r <== exists c :: c in clients && f == FileFolder(mode, version, ch, c) by {
      forall f | exists c :: c in clients && f == FileFolder(mode, version, ch, c) ensures f in r {
        var c :| c in clients && f == FileFolder(mode, version, ch, c);
        var i :| 0 <= i < |clients| && clients[i] == c;
        assert r[i] == f;
      }
    }
    r
  }

  /** The manifests of one build: every client of its `paths` entry with every
      manifest name of that entry, clients outermost. */
  function BuildJobs(version: string, b: Build): (r: seq<Job>)
    ensures |r| == |Template(b.kind).clients| * |Template(b.kind).mappers|
    ensures forall j :: j in r <==>
              && j.mapper in Template(b.kind).mappers
              && exists c :: c in Template(b.kind).clients &&
                   j.folder == FileFolder(Mode(b.kind), version, b.channel, c)
  {
    var t := Template(b.kind);
    Pairs(Folders(t.mode, version, b.channel, t.clients), t.mappers)
  }

  /** The manifests of one stage of a version, builds in order. */
  function StageJobs(version: string, builds: seq<Build>): (r: seq<Job>)
    ensures forall j :: j in r <==> exists b :: b in builds && j in BuildJobs(version, b)
  {
    if |builds| == 0 then []
    else
      var r := BuildJobs(version, builds[0]) + StageJobs(version, builds[1..]);
      assert forall j :: j in r <== exists b :: b in builds && j in BuildJobs(version, b) by {
        forall j: Job | exists b :: b in builds && j in BuildJobs(version, b) ensures j in r {
          var b :| b in builds && j in BuildJobs(version, b);
          if b != builds[0] {
            assert b in builds[1..];
          }
        }
      }
      r
  }

  /** The manifests of one version, in the order the loops visit them: stage,
      build, client, manifest. */
  function VersionJobs(version: string, stages: seq<seq<Build>>): (r: seq<Job>)
    ensures forall j :: j in r <==> exists s :: s in stages && j in StageJobs(version, s)
  {
    if |stages| == 0 then []
    else
      var r := StageJobs(version, stages[0]) + VersionJobs(version, stages[1..]);
      assert forall j :: j in r <== exists s :: s in stages && j in StageJobs(version, s) by {
        forall j: Job | exists s :: s in stages && j in StageJobs(version, s) ensures j in r {
          var s :| s in stages && j in StageJobs(version, s);
          if s != stages[0] {
            assert s in stages[1..];
          }
        }
      }
      forall j | j in r ensures exists s :: s in stages && j in StageJobs(version, s) {
        if j !in StageJobs(version, stages[0]) {
          var s :| s in stages[1..] && j in StageJobs(version, s);
          assert s in stages;
        }
      }
      r
  }

  /** The manifest URL of every job, in loop order. */
  function JobUrls(jobs: seq<Job>): (us: seq<string>)
    ensures |us| == |jobs|
  {
    if jobs == [] then [] else [MapperUrl(jobs[0].folder, jobs[0].mapper)] + JobUrls(jobs[1..])
  }

  /** The manifests from index `i` on; `io(n)` answers for manifest `n`. */
  function ProcessJobs(sem: Semantics, jobs: seq<Job>, i: nat, cache: Cache,
                       io: nat -> ManifestIO, jsonParse: string -> Parsed): (r: Progress)
    requires i <= |jobs|
    ensures Sound(cache, r)
    ensures r.manifests <= JobUrls(jobs[i..])
    ensures !r.aborted ==> r.manifests == JobUrls(jobs[i..])
    decreases |jobs| - i
  {
    if i >= |jobs| then UnchangedSound(cache, Idle(cache)); Idle(cache)
    else
      var head := ProcessManifest(sem, jobs[i], cache, io(i), jsonParse);
      if head.aborted then
        ManifestsHead(jobs, i, head.manifests);
        head
      else
        var tail := ProcessJobs(sem, jobs, i + 1, head.cache, io, jsonParse);
        SoundThen(cache, head, tail);
        ManifestsThen(jobs, i, head.manifests, tail.manifests, tail.aborted);
        Then(head, tail)
  }

  /** The manifest of job `i` alone is a prefix of the manifests from `i` on. */
  lemma ManifestsHead(jobs: seq<Job>, i: nat, m: seq<string>)
    requires i < |jobs| && m == [MapperUrl(jobs[i].folder, jobs[i].mapper)]
    ensures m <= JobUrls(jobs[i..])
  {
  }

  /** The manifest of job `i` followed by those of the jobs after it are the
      manifests of the jobs from `i` on, up to where the tail stopped. */
  lemma ManifestsThen(jobs: seq<Job>, i: nat, m: seq<string>, rest: seq<string>, aborted: bool)
    requires i < |jobs| && m == [MapperUrl(jobs[i].folder, jobs[i].mapper)]
    requires rest <= JobUrls(jobs[i + 1..])
    requires !aborted ==> rest == JobUrls(jobs[i + 1..])
    ensures m + rest <= JobUrls(jobs[i..])
    ensures !aborted ==> m + rest == JobUrls(jobs[i..])
  {
    assert jobs[i..][1..] == jobs[i + 1..];
  }

  /** One version of the list, its stages in order. */
  datatype Version = Version(name: string, stages: seq<seq<Build>>)

  /** `CACHE_FILE` of a version. */
  function CacheFile(version: string): string {
    FolderDownload + "/md5/" + version + ".json"
  }

  /** Different versions keep their caches in different files. */
  lemma CacheFileInjective(v1: string, v2: string)
    requires CacheFile(v1) == CacheFile(v2)
    ensures v1 == v2
  {
    var pre := FolderDownload + "/md5/";
    assert CacheFile(v1) == pre + (v1 + ".json");
    assert CacheFile(v2) == pre + (v2 + ".json");
    assert v1 + ".json" == CacheFile(v1)[|pre|..];
    assert v1 == (v1 + ".json")[..|v1|];
    assert v2 == (v2 + ".json")[..|v2|];
  }

  /** One version: load its cache (empty when missing or unreadable) and process
      all of its manifests. */
  function ProcessVersion(sem: Semantics, v: Version, stored: Option<Cache>,
                          io: nat -> ManifestIO, jsonParse: string -> Parsed): (r: Progress)
    ensures Sound(Load(stored), r)
    ensures r.manifests <= JobUrls(VersionJobs(v.name, v.stages))
    ensures !r.aborted ==> r.manifests == JobUrls(VersionJobs(v.name, v.stages))
  {
    var jobs := VersionJobs(v.name, v.stages);
    assert jobs[0..] == jobs;
    ProcessJobs(sem, jobs, 0, Load(stored), io, jsonParse)
  }

  /** A cache snapshot written to a file. */
  datatype Save = Save(file: string, snapshot: Cache)

  /** Every save in `r` went to the cache file of some version from `i` on and
      kept every key that version's cache held when the crawl reached it. */
  predicate FromVersions(r: seq<Save>, versions: seq<Version>, i: nat, stored: string -> Option<Cache>) {
    forall s :: s in r ==>
      (exists n :: i <= n < |versions| &&
         s.file == CacheFile(versions[n].name) &&
         Extends(Load(stored(versions[n].name)), s.snapshot))
  }

  /** The snapshots of one version, each written to `file`. */
  function SavesTo(file: string, snaps: seq<Cache>): (r: seq<Save>)
    ensures |r| == |snaps|
    ensures forall k :: 0 <= k < |r| ==> r[k].file == file && r[k].snapshot == snaps[k]
  {
    seq(|snaps|, k requires 0 <= k < |snaps| => Save(file, snaps[k]))
  }

  /** The snapshots of version `i`, sound from its loaded cache, come from it. */
  lemma HereFromVersion(versions: seq<Version>, i: nat, stored: string -> Option<Cache>, snaps: seq<Cache>)
    requires i < |versions|
    requires forall c :: c in snaps ==> Extends(Load(stored(versions[i].name)), c)
    ensures FromVersions(SavesTo(CacheFile(versions[i].name), snaps), versions, i, stored)
  {
    var here := SavesTo(CacheFile(versions[i].name), snaps);
    forall s | s in here
      ensures i <= i < |versions| && s.file == CacheFile(versions[i].name) && Extends(Load(stored(versions[i].name)), s.snapshot)
    {
      var k :| 0 <= k < |here| && here[k] == s;
      assert snaps[k] in snaps;
    }
  }

  /** Saves of version `i` followed by saves from versions after it. */
  lemma FromVersionsThen(versions: seq<Version>, i: nat, stored: string -> Option<Cache>, here: seq<Save>, rest: seq<Save>)
    requires FromVersions(here, versions, i, stored)
    requires FromVersions(rest, versions, i + 1, stored)
    ensures FromVersions(here + rest, versions, i, stored)
  {
    forall s | s in here + rest
      ensures exists n :: i <= n < |versions| && s.file == CacheFile(versions[n].name) &&
                Extends(Load(stored(versions[n].name)), s.snapshot)
    {
      if s in rest {
        var n :| i + 1 <= n < |versions| && s.file == CacheFile(versions[n].name) &&
                 Extends(Load(stored(versions[n].name)), s.snapshot);
      }
    }
  }

  /** The whole crawl from version `i` on. `stored(v)` is what the cache file of
      version `v` holds when the crawl reaches it, and `io(v, n)` answers for its
      manifest `n`. Every snapshot goes to the cache file of a version it was
      crawled for and keeps every key that file held. */
  function Crawl(sem: Semantics, versions: seq<Version>, i: nat, stored: string -> Option<Cache>,
                 io: (string, nat) -> ManifestIO, jsonParse: string -> Parsed): (r: seq<Save>)
    ensures FromVersions(r, versions, i, stored)
    decreases |versions| - i
  {
    if i >= |versions| then []
    else
      var v := versions[i];
      var p := ProcessVersion(sem, v, stored(v.name), (n: nat) => io(v.name, n), jsonParse);
      HereFromVersion(versions, i, stored, p.saves);
      var here := SavesTo(CacheFile(v.name), p.saves);
      if p.aborted then here
      else
        var rest := Crawl(sem, versions, i + 1, stored, io, jsonParse);
        FromVersionsThen(versions, i, stored, here, rest);
        here + rest
  }
}
