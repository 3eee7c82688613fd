/** The read-through proxy of `src/server/web/router.ts`: a request
    `/data_game/:game/:server/<path>` is mapped to an origin URL, served from the local
    cache when the file is there, and otherwise fetched once (guarded by the
    in-flight set `otwDL`), written to a temporary file and renamed into place;
    every failure redirects the client to the origin. */
module Router {
  import opened Wrappers
  import opened Strings
  import opened Library

  const StarRail: string := "starrails"
  const BlueArchiveData: string := "bluearchive-data"
  const BlueArchiveServerInfo: string := "bluearchive-serverinfo"
  const BlueArchiveNotice: string := "bluearchive-notice"

  /** The origins, each without its trailing slash; the ones with a `-` are
      written around it. */
  const StarRailCnHost: string := "https://autopatchcn.bhsr.com"
  const StarRailHost: string := "https://autopatchos.starrails.com"
  const BlueArchiveDataHost: string := "https://prod" + "-" + "clientpatch.bluearchiveyostar.com"
  const BlueArchiveServerInfoHost: string := "https://yostar" + "-" + "serverinfo.bluearchiveyostar.com"
  const YuukiHost: string := "https://ps.yuuki.me/data_game/genshin"
  const GenshinHost: string := "https://autopatchhk.yuanshen.com"

  /** The fixed notice index, whatever the path. */
  const NoticeUrl: string := "https://prod" + "-" + "noticeindex.bluearchiveyostar.com/prod/index.json"

  /** The origin of a request that is not for the notice index: the `if` chain
      on `game` and `server`, and for every other game on whether the path
      mentions `3.2`. */
  function Host(game: string, server: string, urlOnly: string): (h: string)
    ensures h in {StarRailCnHost, StarRailHost, BlueArchiveDataHost, BlueArchiveServerInfoHost,
                  YuukiHost, GenshinHost}
    ensures h == StarRailCnHost <==> game == StarRail && server == "cn"
    ensures h == StarRailHost <==> game == StarRail && server != "cn"
    ensures game == BlueArchiveData ==> h == BlueArchiveDataHost
    ensures game == BlueArchiveServerInfo ==> h == BlueArchiveServerInfoHost
    ensures game !in [StarRail, BlueArchiveData, BlueArchiveServerInfo] ==>
              (h == YuukiHost <==> Contains(urlOnly, "3.2")) &&
              (h == GenshinHost <==> !Contains(urlOnly, "3.2"))
  {
    if game == StarRail && server == "cn" then StarRailCnHost
    else if game == StarRail then StarRailHost
    else if game == BlueArchiveData then BlueArchiveDataHost
    else if game == BlueArchiveServerInfo then BlueArchiveServerInfoHost
    else if Contains(urlOnly, "3.2") then YuukiHost
    else GenshinHost
  }

  /** `domainDL`. */
  function DomainFor(game: string, server: string, urlOnly: string): (d: string)
    ensures game == BlueArchiveNotice ==> d == NoticeUrl
    ensures game != BlueArchiveNotice ==> d == Host(game, server, urlOnly) + "/" + urlOnly
  {
    if game == BlueArchiveNotice then NoticeUrl
    else Host(game, server, urlOnly) + "/" + urlOnly
  }

  /** The two tokens that put the handler in testing mode. */
  const NoticeToken: string := "bluearchive-notice"
  const ServerInfoToken: string := "bluearchive-serverinfo"

  /** The testing-mode guard on `domainDL`. */
  predicate TestingBlocked(domain: string) {
    Contains(domain, NoticeToken) || Contains(domain, ServerInfoToken)
  }

  /** A pattern with a `-` does not occur in a text without one. */
  lemma NoDashNoMatch(p: string, t: string, m: nat)
    requires '-' !in p && m < |t| && t[m] == '-'
    ensures !Contains(p, t)
  {
    forall i: nat | i <= |p| ensures !OccursAt(p, t, i) {
      OccursAtChar(p, t, i, m);
    }
  }

  /** A pattern whose `-` follows the character `e` does not occur in a text
      whose one `-` follows another character. */
  lemma OneDashNoMatch(a: string, b: string, t: string, m: nat)
    requires '-' !in a && '-' !in b && |a| > 0
    requires 0 < m < |t| && t[m] == '-' && a[|a| - 1] != t[m - 1]
    ensures !Contains(a + "-" + b, t)
  {
    var s := a + "-" + b;
    forall i: nat | i <= |s| ensures !OccursAt(s, t, i) {
      OccursAtChar(s, t, i, m);
      OccursAtChar(s, t, i, m - 1);
      if i + m < |a| {
        assert s[i + m] == a[i + m];
      } else if i + m > |a| && i + m < |s| {
        assert s[i + m] == b[i + m - |a| - 1];
      }
    }
  }

  /** Both tokens have a `-` right after an `e`, and no `/`. */
  lemma TokenShape(t: string)
    requires t in [NoticeToken, ServerInfoToken]
    ensures |t| > 11 && t[11] == '-' && t[10] == 'e' && '/' !in t
  {
  }

  /** Four origins have no `-` at all. */
  lemma PlainHosts()
    ensures '-' !in StarRailCnHost && '-' !in StarRailHost
    ensures '-' !in YuukiHost && '-' !in GenshinHost
  {
  }

  /** The other three put their one `-` after a `d` or an `r`. */
  lemma DataHostDash()
    ensures BlueArchiveDataHost == "https://prod" + "-" + "clientpatch.bluearchiveyostar.com"
    ensures '-' !in "clientpatch.bluearchiveyostar.com" && "https://prod"[11] == 'd'
  {
  }

  lemma ServerInfoHostDash()
    ensures BlueArchiveServerInfoHost == "https://yostar" + "-" + "serverinfo.bluearchiveyostar.com"
    ensures '-' !in "serverinfo.bluearchiveyostar.com" && "https://yostar"[13] == 'r'
  {
  }

  lemma NoticeUrlDash()
    ensures NoticeUrl == "https://prod" + "-" + ("noticeindex.bluearchiveyostar.com" + "/prod/index.json")
    ensures '-' !in "noticeindex.bluearchiveyostar.com" + "/prod/index.json"
  {
    assert '-' !in "noticeindex.bluearchiveyostar.com" && '-' !in "/prod/index.json";
  }

  /** Neither token occurs in any origin. */
  lemma HostsHaveNoToken(h: string, t: string)
    requires h in {StarRailCnHost, StarRailHost, BlueArchiveDataHost, BlueArchiveServerInfoHost,
                   YuukiHost, GenshinHost, NoticeUrl}
    requires |t| > 11 && t[11] == '-' && t[10] == 'e'
    ensures !Contains(h, t)
  {
    PlainHosts();
    if h == BlueArchiveDataHost {
      DataHostDash();
      OneDashNoMatch("https://prod", "clientpatch.bluearchiveyostar.com", t, 11);
    } else if h == BlueArchiveServerInfoHost {
      ServerInfoHostDash();
      OneDashNoMatch("https://yostar", "serverinfo.bluearchiveyostar.com", t, 11);
    } else if h == NoticeUrl {
      NoticeUrlDash();
      OneDashNoMatch("https://prod", "noticeindex.bluearchiveyostar.com" + "/prod/index.json", t, 11);
    } else {
      NoDashNoMatch(h, t, 11);
    }
  }

  /** The guard fires exactly when the game is not the notice index and the
      request path itself contains a token: no origin contains one. */
  lemma TestingModeIff(game: string, server: string, urlOnly: string)
    ensures TestingBlocked(DomainFor(game, server, urlOnly)) <==>
              game != BlueArchiveNotice &&
              (Contains(urlOnly, NoticeToken) || Contains(urlOnly, ServerInfoToken))
  {
    TokenShape(NoticeToken);
    TokenShape(ServerInfoToken);
    HostsHaveNoToken(NoticeUrl, NoticeToken);
    HostsHaveNoToken(NoticeUrl, ServerInfoToken);
    if game != BlueArchiveNotice {
      var h := Host(game, server, urlOnly);
      HostsHaveNoToken(h, NoticeToken);
      HostsHaveNoToken(h, ServerInfoToken);
      ContainsAcrossSlash(h, urlOnly, NoticeToken);
      ContainsAcrossSlash(h, urlOnly, ServerInfoToken);
    }
  }

  /** The notice game ignores the path. */
  lemma NoticeIgnoresPath(server: string, u1: string, u2: string)
    ensures DomainFor(BlueArchiveNotice, server, u1) == DomainFor(BlueArchiveNotice, server, u2)
  {
  }

  /** `baseCachePath`, then `join(baseCachePath, url_only)` and the temporary
      file beside it. */
  function CacheBase(game: string): string {
    "./src/server/web/public/cache/game/" + game
  }

  function CachePath(game: string, urlOnly: string): string {
    CacheBase(game) + "/" + urlOnly
  }

  function TempPath(game: string, urlOnly: string): string {
    CachePath(game, urlOnly) + ".temp"
  }

  /** Different games or paths are cached in different files, as long as the
      game names carry no `/`. */
  lemma CachePathInjective(g1: string, u1: string, g2: string, u2: string)
    requires '/' !in g1 && '/' !in g2
    ensures CachePath(g1, u1) == CachePath(g2, u2) <==> g1 == g2 && u1 == u2
  {
    var b := CacheBase("");
    assert CachePath(g1, u1) == b + (g1 + "/" + u1);
    assert CachePath(g2, u2) == b + (g2 + "/" + u2);
    if CachePath(g1, u1) == CachePath(g2, u2) {
      assert g1 + "/" + u1 == CachePath(g1, u1)[|b|..];
      assert g2 + "/" + u2 == CachePath(g2, u2)[|b|..];
      SlashPairInjective(g1, u1, g2, u2);
    }
  }

  /** `g + "/" + u` determines `g` and `u` when `g` has no `/`. */
  lemma SlashPairInjective(g1: string, u1: string, g2: string, u2: string)
    requires '/' !in g1 && '/' !in g2
    requires g1 + "/" + u1 == g2 + "/" + u2
    ensures g1 == g2 && u1 == u2
  {
    SplitAfterField(g1, '/', u1);
    SplitAfterField(g2, '/', u2);
    assert g1 == Split(g1 + "/" + u1, '/')[0];
    assert g2 == Split(g2 + "/" + u2, '/')[0];
    var s := g1 + "/" + u1;
    assert u1 == s[|g1| + 1..] && u2 == (g2 + "/" + u2)[|g2| + 1..];
  }

  /** The temporary file sits beside the cached file, under the name the cache
      would give the path with `.temp` appended. */
  lemma TempBesideCache(game: string, urlOnly: string)
    ensures TempPath(game, urlOnly) != CachePath(game, urlOnly)
    ensures TempPath(game, urlOnly) == CachePath(game, urlOnly + ".temp")
  {
    assert |TempPath(game, urlOnly)| == |CachePath(game, urlOnly)| + 5;
  }

  /** Node's `basename`: the last `/`-separated segment once trailing slashes
      are dropped. */
  function Basename(p: string): (r: string)
    ensures '/' !in r
    ensures Contains(p, r)
  {
    var parts := Split(TrimAny(p, "/"), '/');
    JoinSplit(TrimAny(p, "/"), '/');
    LastSegmentOccurs(parts);
    TrimmedOccurs(p, "/");
    ContainsTrans(p, TrimAny(p, "/"), Last(parts));
    Last(parts)
  }

  /** The last part occurs in the joined text. */
  lemma LastSegmentOccurs(parts: seq<string>)
    requires |parts| >= 1
    ensures Contains(Join(parts, '/'), Last(parts))
  {
    var j := Join(parts, '/');
    if |parts| == 1 {
      assert OccursAt(j, Last(parts), 0);
    } else {
      var pre := Join(parts[..|parts| - 1], '/');
      JoinSnoc(parts);
      assert OccursAt(j, Last(parts), |pre| + 1);
    }
  }

  /** Joining splits off the last part. */
  lemma {:induction false} JoinSnoc(parts: seq<string>)
    requires |parts| >= 2
    ensures Join(parts, '/') == Join(parts[..|parts| - 1], '/') + "/" + Last(parts)
  {
    if |parts| > 2 {
      JoinSnoc(parts[1..]);
      assert parts[1..][..|parts[1..]| - 1] == parts[..|parts| - 1][1..];
    }
  }

  /** A trimmed text occurs in the original. */
  lemma TrimmedOccurs(s: string, chars: string)
    ensures Contains(s, TrimAny(s, chars))
  {
    var r := TrimAny(s, chars);
    assert exists i: nat, j: nat :: CutOnlyFrom(s, chars, i, j) && r == s[i..j];
    var i: nat, j: nat :| CutOnlyFrom(s, chars, i, j) && r == s[i..j];
    assert OccursAt(s, r, i);
  }

  /** Occurrence is transitive. */
  lemma ContainsTrans(a: string, b: string, c: string)
    requires Contains(a, b) && Contains(b, c)
    ensures Contains(a, c)
  {
    var i: nat :| i <= |a| && OccursAt(a, b, i);
    var k: nat :| k <= |b| && OccursAt(b, c, k);
    forall m | 0 <= m < |c| ensures a[i + k + m] == c[m] {
      assert c[m] == b[k..k + |c|][m] == b[k + m];
      assert b[k + m] == a[i..i + |b|][k + m];
    }
    assert a[i + k..i + k + |c|] == c;
    assert OccursAt(a, c, i + k);
  }

  /** An incoming request: `game`, `server` and the raw remainder of the path. */
  datatype Request = Request(game: string, server: string, rawPath: string)

  /** The answer to the origin request: `axios.get` threw, or answered with a
      status. */
  datatype FetchResult = FetchThrew | FetchStatus(status: int)

  /** What the file system and the network answer for one request. */
  datatype ProxyIO = ProxyIO(fileExists: bool, mkdirOk: bool, tempExists: bool,
                             fetch: FetchResult, writeOk: bool, renameOk: bool)

  /** The response sent. */
  datatype Response =
    | Serve(path: string, fileName: string)
    | Redirect(url: string)
    | ServerError(message: string)

  /** File-system and network actions, in order; each call is listed when it is
      made, whether or not it succeeds. */
  datatype Effect =
    | MakeParentOf(path: string)
    | RemoveTemp(path: string)
    | Get(url: string)
    | WriteTemp(path: string)
    | Rename(from: string, to: string)

  /** The response, the in-flight set after the request, and the actions taken. */
  datatype Outcome = Outcome(response: Response, inFlight: set<string>, effects: seq<Effect>)

  /** How a failing `mkdir` is handled: as written, the exception reaches the
      outer `catch`, which answers 500 and leaves the domain in the in-flight set;
      corrected, it releases the domain and redirects like every other failure of
      the fetch phase. */
  datatype Variant = AsWritten | Corrected

  const GenericError: string := "Error server...."
  const TestingMode: string := "Testing mode"

  /** The fetch phase, once the domain has been added to the set `held`. */
  function Fetch(variant: Variant, domain: string, filePath: string, tempPath: string,
                 served: Response, held: set<string>, io: ProxyIO): (o: Outcome)
    requires served.Serve?
    // the fetch phase starts with the `mkdir` of the cache file's directory
    ensures |o.effects| > 0 && o.effects[0] == MakeParentOf(filePath)
    ensures io.mkdirOk || o.effects == [MakeParentOf(filePath)]
    ensures Get(domain) in o.effects <==> io.mkdirOk
    ensures forall e :: e in o.effects ==> e.Get? ==> e.url == domain
    ensures o.inFlight == held - {domain} || (variant == AsWritten && !io.mkdirOk && o.inFlight == held)
    ensures forall e :: e in o.effects ==> e.WriteTemp? ==> e.path == tempPath
    ensures forall e :: e in o.effects ==> e.Rename? ==> e == Rename(tempPath, filePath)
    // a stale temporary file is removed before the request and the write
    ensures RemoveTemp(tempPath) in o.effects <==> io.mkdirOk && io.tempExists
    ensures forall i, j ::
              (0 <= i < |o.effects| && 0 <= j < |o.effects| && o.effects[i].RemoveTemp? &&
               (o.effects[j].Get? || o.effects[j].WriteTemp?)) ==> i < j
    ensures o.response.Serve? <==> Installs(io)
    ensures o.response.Serve? ==> o.response == served
    // every other exit redirects to the origin, except a failing mkdir as written
    ensures !Installs(io) && (io.mkdirOk || variant == Corrected) ==> o.response == Redirect(domain)
    ensures variant == AsWritten && !io.mkdirOk ==> o.response == ServerError(GenericError)
  {
    if !io.mkdirOk then
      if variant == AsWritten then Outcome(ServerError(GenericError), held, [MakeParentOf(filePath)])
      else Outcome(Redirect(domain), held - {domain}, [MakeParentOf(filePath)])
    else
      var pre := [MakeParentOf(filePath)] + (if io.tempExists then [RemoveTemp(tempPath)] else [])
                 + [Get(domain)];
      if io.fetch.FetchThrew? || io.fetch.status != 200 then
        Outcome(Redirect(domain), held - {domain}, pre)
      else if !io.writeOk then
        Outcome(Redirect(domain), held - {domain}, pre + [WriteTemp(tempPath)])
      else if !io.renameOk then
        Outcome(Redirect(domain), held - {domain}, pre + [WriteTemp(tempPath), Rename(tempPath, filePath)])
      else
        Outcome(served, held - {domain}, pre + [WriteTemp(tempPath), Rename(tempPath, filePath)])
  }

  /** Whether a download for this request succeeds end to end. */
  predicate Installs(io: ProxyIO) {
    io.mkdirOk && io.fetch == FetchStatus(200) && io.writeOk && io.renameOk
  }

  /** The handler for one request, run without interleaving; `decode` is
      `decodeURI` (`None` when it throws). */
  function Handle(variant: Variant, req: Request, decode: string -> Option<string>,
                  inFlight: set<string>, io: ProxyIO): (o: Outcome)
    ensures decode(req.rawPath).None? ==> o == Outcome(ServerError(GenericError), inFlight, [])
    ensures decode(req.rawPath).Some? ==>
      var u := decode(req.rawPath).value;
      var d := DomainFor(req.game, req.server, u);
      && (TestingBlocked(d) ==> o == Outcome(ServerError(TestingMode), inFlight, []))
      // the gate: a request fetches only when the file is missing and no
      // other request holds its domain
      && (Get(d) in o.effects <==> !TestingBlocked(d) && !io.fileExists && d !in inFlight && io.mkdirOk)
      && (forall e :: e in o.effects ==> e.Get? ==> e.url == d)
      // released on every exit, except a failing mkdir as written
      && (o.inFlight == inFlight ||
          (variant == AsWritten && !TestingBlocked(d) && !io.fileExists && d !in inFlight &&
           !io.mkdirOk && o.inFlight == inFlight + {d}))
      // a cached file is served with nothing done and the set unchanged
      && (!TestingBlocked(d) && io.fileExists ==>
            o == Outcome(Serve(CachePath(req.game, u), Basename(u)), inFlight, []))
      // the fetch phase, which starts with the mkdir, runs exactly for a missing
      // file whose domain is free
      && (MakeParentOf(CachePath(req.game, u)) in o.effects <==>
            !TestingBlocked(d) && !io.fileExists && d !in inFlight)
      // data goes only to the temporary file; the final path comes only from rename
      && (forall e :: e in o.effects ==> e.WriteTemp? ==> e.path == TempPath(req.game, u))
      && (forall e :: e in o.effects ==> e.Rename? ==>
            e == Rename(TempPath(req.game, u), CachePath(req.game, u)))
      // the file is served exactly when it was there or was installed
      && (o.response.Serve? <==> !TestingBlocked(d) && (io.fileExists || (d !in inFlight && Installs(io))))
      && (o.response.Serve? ==> o.response == Serve(CachePath(req.game, u), Basename(u)))
      // a domain already in flight is redirected at once
      && (!TestingBlocked(d) && !io.fileExists && d in inFlight ==> o == Outcome(Redirect(d), inFlight, []))
      // a fetch that does not install the file redirects, except a failing mkdir as written
      && (!TestingBlocked(d) && !io.fileExists && d !in inFlight && !Installs(io) ==>
            o.response == (if variant == AsWritten && !io.mkdirOk then ServerError(GenericError)
                           else Redirect(d)))
  {
    match decode(req.rawPath)
    case None => Outcome(ServerError(GenericError), inFlight, [])
    case Some(u) =>
      var d := DomainFor(req.game, req.server, u);
      if TestingBlocked(d) then Outcome(ServerError(TestingMode), inFlight, [])
      else
        var filePath := CachePath(req.game, u);
        var served := Serve(filePath, Basename(u));
        if io.fileExists then Outcome(served, inFlight, [])
        else if d in inFlight then Outcome(Redirect(d), inFlight, [])
        else Fetch(variant, d, filePath, TempPath(req.game, u), served, inFlight + {d}, io)
  }

  /** The cache location does not depend on the server. */
  lemma ServerIrrelevantToCache(variant: Variant, game: string, s1: string, s2: string, raw: string,
                                decode: string -> Option<string>, f1: set<string>, f2: set<string>,
                                io1: ProxyIO, io2: ProxyIO)
    requires Handle(variant, Request(game, s1, raw), decode, f1, io1).response.Serve?
    requires Handle(variant, Request(game, s2, raw), decode, f2, io2).response.Serve?
    ensures Handle(variant, Request(game, s1, raw), decode, f1, io1).response
         == Handle(variant, Request(game, s2, raw), decode, f2, io2).response
  {
  }

  /** As written, a failing `mkdir` keeps the domain in flight for good: every
      later request for it that finds no file is redirected without a fetch. */
  lemma MkdirLeaksAsWritten(req: Request, decode: string -> Option<string>, inFlight: set<string>,
                            io: ProxyIO, io2: ProxyIO)
    requires decode(req.rawPath).Some?
    requires !TestingBlocked(DomainFor(req.game, req.server, decode(req.rawPath).value))
    requires DomainFor(req.game, req.server, decode(req.rawPath).value) !in inFlight
    requires !io.fileExists && !io.mkdirOk && !io2.fileExists
    ensures Handle(AsWritten, req, decode, inFlight, io).response == ServerError(GenericError)
    ensures var after := Handle(AsWritten, req, decode, inFlight, io).inFlight;
            var o2 := Handle(AsWritten, req, decode, after, io2);
            && o2.response == Redirect(DomainFor(req.game, req.server, decode(req.rawPath).value))
            && o2.effects == [] && o2.inFlight == after
  {
  }

  /** Corrected, a failing `mkdir` releases the domain and redirects, so the
      next request for it may fetch. */
  lemma MkdirReleasesCorrected(req: Request, decode: string -> Option<string>, inFlight: set<string>,
                               io: ProxyIO, io2: ProxyIO)
    requires decode(req.rawPath).Some?
    requires !TestingBlocked(DomainFor(req.game, req.server, decode(req.rawPath).value))
    requires DomainFor(req.game, req.server, decode(req.rawPath).value) !in inFlight
    requires !io.fileExists && !io.mkdirOk && !io2.fileExists && io2.mkdirOk
    ensures Handle(Corrected, req, decode, inFlight, io)
         == Outcome(Redirect(DomainFor(req.game, req.server, decode(req.rawPath).value)), inFlight,
                    [MakeParentOf(CachePath(req.game, decode(req.rawPath).value))])
    ensures Get(DomainFor(req.game, req.server, decode(req.rawPath).value))
              in Handle(Corrected, req, decode, inFlight, io2).effects
  {
  }
}
