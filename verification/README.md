# Hotfix server core, modelled in Dafny

This project models the core of the YuukiPS hotfix server. The server has two halves:

- **The crawler** (`src/commands/server/gi.ts`) fills a local mirror of the Genshin Impact
  hotfix origin. For each version label it works through every build, client and manifest:
  - it downloads the manifest with `forceDownload` and reads its lines with `getMd5Data`;
  - it composes each asset's URL and save path;
  - it decides from a per-version cache file whether the asset must be fetched;
  - it records verified digests (and, by intent, `"not_found"`) in that cache.
- **The read-through proxy** (`src/server/web/router.ts`) serves
  `/data_game/:game/:server/<path>`. It picks an origin (`domainDL`) per game, refuses the
  Blue Archive notice and server-info tokens ("Testing mode"), and serves a cached file.
  Otherwise it fetches the file once, guarded by the in-flight set `otwDL`, writes it to a
  temporary file and renames it into place.
- **The string helpers and the retry loop** of `src/util/library.ts` are shared by both.

Modules, one per concern:

| module | file | models |
|---|---|---|
| `Wrappers` | wrappers.dfy | `Option` |
| `Strings` | strings.dfy | the JavaScript string primitives the code relies on (`includes`, `indexOf`, `replace` with a string pattern, `split`/`join` on one character, decimal rendering) |
| `Library` | library.dfy | `removeControlChars`, `trimAny`, `parseInt(_, 10)`, `getMd5Data` |
| `Download` | download.dfy | `forceDownload` and its retry loop |
| `CrawlerPaths` | crawler_paths.dfy | the `paths` and `resolvers` tables, URL/path composition, `extFolder`, `normalizePath` |
| `CacheIndex` | cache_index.dfy | the cache record: insertion-ordered keys, `loadCache`, `cache[url] = v`, `Object.entries(cache).find` |
| `Crawler` | crawler.dfy | the crawl: manifest handling, line skipping, the cache decision and update, the loops over versions, builds, clients and manifests |
| `Router` | router.dfy | `domainDL`, the testing-mode guard, cache paths, and one proxy request run without interleaving |
| `ProxyGate` | proxy_gate.dfy | concurrent proxy requests as event-loop turns over `otwDL` |

Everything the code gets from outside is an input, never computed:

- network answers;
- file existence, `mkdir`, write and rename results;
- MD5 checks;
- manifest file contents;
- `JSON.parse`;
- `decodeURI`.

The crawler and the proxy each take a variant parameter (`Crawler.Semantics`,
`Router.Variant`). `AsWritten` follows the code. `Corrected` is the evidently intended
behaviour of the three findings below. Every property in the table holds for both variants
unless its row names one.

## Model

| member | source | states |
|---|---|---|
| Strings.ReplaceFirst | src/commands/server/gi.ts:205-209 | `replace` with a string pattern rewrites only the leftmost occurrence; a string without the pattern is unchanged |
| Strings.Split | src/util/library.ts:169-171 | `split` on one character yields at least one field, none containing the separator |
| Strings.JoinSplit | src/util/library.ts:169 | joining the fields of a split with the same separator gives back the original line |
| Strings.ContainsAcrossSlash | src/server/web/router.ts:95 | a text without `/` occurs in `p/u` if and only if it occurs in `p` or in `u` |
| Strings.SplitJoin | src/util/library.ts:169-171 | splitting the join of separator-free fields gives back exactly those fields |
| Strings.DigitsValue | src/commands/server/gi.ts:144 | the decimal rendering of a build number `${Version}` reads back as that number |
| Library.RemoveControlChars | src/util/library.ts:33-35 | the result has no character of `[\u0000-\u001F\u007F-\u009F]` |
| Library.RemoveControlCharsKeepsOthers | src/util/library.ts:33-35 | every character outside that class occurs in the result exactly as often as in the input |
| Library.RemoveControlCharsConcat | src/util/library.ts:33-35 | the filter distributes over concatenation, so the surviving characters keep their order |
| Library.RemoveControlCharsSingle | src/util/library.ts:34 | a single character is dropped exactly when it is in the control class |
| Library.RemoveControlCharsIdentity | src/util/library.ts:33-35 | a string is left unchanged if and only if it has no control character |
| Library.RemoveControlCharsIdempotent | src/util/library.ts:33-35 | cleaning twice is cleaning once |
| Library.SkipLeading | src/util/library.ts:41 | the first loop stops at the first character not in `chars`, having passed only characters in `chars` |
| Library.SkipTrailing | src/util/library.ts:42 | the second loop stops after the last character not in `chars` and never passes `start` |
| Library.TrimAny | src/util/library.ts:37-45 | the result is a contiguous slice cut only at characters in `chars`; it neither starts nor ends with one; an input with no such character at either end is returned as is |
| Library.TrimAnyLoop | src/util/library.ts:37-45 | the two `while` loops with their index arithmetic compute `TrimAny` |
| Library.TrimAnyIdempotent | src/util/library.ts:37-45 | trimming a trimmed string changes nothing |
| Library.TrimAnyUnique | src/util/library.ts:37-45 | any slice that cuts only `chars` and has none left at its ends is the result, so the result is the maximal trim |
| Library.ParseInt | src/util/library.ts:176 | `parseInt(_, 10)` yields a number exactly when a digit follows the leading white space and an optional sign |
| Library.ParseIntDigits | src/util/library.ts:176 | a decimal size followed by a non-digit parses back to that size |
| Library.MissingSizeIsNaN | src/util/library.ts:168-176 | a line `name digest` with no `\|` gets exactly that name and digest, a NaN size (`parseInt(undefined)`) and no patch fields, rather than an error |
| Library.GetMd5Data | src/util/library.ts:163-187 | a `{` line is delegated to `JSON.parse`; any other line throws exactly when it has no space; otherwise name, digest and size are set, the line starts with the name, a space and the digest, neither holding a separator; `isPatch` is set (to true) exactly when there are at least two spaces and `localName` exactly when there are at least three |
| Library.LegacyLineFields | src/util/library.ts:168-182 | on a legacy line the digest ends at a `\|`, a space or the end of the line; the size is `parseInt` of the text after that `\|` up to the next space or `\|`, or of `undefined` when there is none; `localName` is the text after the third space, up to the next space |
| Library.LegacyThrows | src/util/library.ts:169-171 | the legacy branch throws (reading `split` of the missing second field) exactly when the line has no space |
| Library.LegacyFields | src/util/library.ts:168-184 | the legacy branch's fields are the text before the first space and the digest after it, free of separators; `isPatch` and `localName` follow the number of spaces |
| Library.SplitCount | src/util/library.ts:169-181 | a line with `k` spaces has `k + 1` fields |
| Library.LegacyLineRoundTrip | src/util/library.ts:168-184 | a line `name digest\|size extra…` built from separator-free fields parses back into those fields: the first extra field sets `isPatch`, the second is `localName`, later ones are ignored |
| Library.ExampleLine | src/util/library.ts:168-177 | `assets/foo.blk abcd1234ef\|2048` parses to that name, digest and size 2048 with no patch fields |
| Download.AttemptLoop | src/util/library.ts:68-111 | at most `maxRetries - attempt` requests, every one of them for `link`; no unlink inside the loop; a write goes only to the destination and only when the loop ends with a saved 200; every pause lasts 5000 ms and follows a request |
| Download.PauseCount | src/util/library.ts:82-109 | the loop pauses once after each of its requests that threw without a 404, and never after a returned status: a non-200 answer is retried at once |
| Download.FirstTerminalDecides | src/util/library.ts:79-105 | when attempt `i` is the first 200 or 404 (returned or thrown), the loop ends there after exactly `i - attempt + 1` requests: not found on a 404, saved on a 200 with the outcome of its `writeFile` recorded |
| Download.AllRetryExhausts | src/util/library.ts:68-114 | when no attempt is a 200 or 404, the loop spends its whole budget and resolves to false |
| Download.SavedIff | src/util/library.ts:79-98 | the loop resolves to true if and only if some attempt within the budget answers 200 and no earlier attempt was a 200 or 404 |
| Download.ForceDownload | src/util/library.ts:47-115 | every request asks for the cleaned link `trimAny(removeControlChars(link))`; an existing destination is unlinked first, at the cleaned path, and nowhere else; requests never exceed the budget; writes go only to the cleaned destination and only on success |
| Download.CleanArg | src/util/library.ts:48-49 | a cleaned argument has no control character and no space at either end |
| Download.CleanArgIdempotent | src/util/library.ts:48-49 | cleaning an already cleaned argument changes nothing |
| Download.AttemptLoopImperative | src/util/library.ts:68-114 | the counter loop with its early returns gives the same boolean and the same number of requests as the recursive model |
| Download.Permanent404 | src/util/library.ts:47-105 | with the default budget of 3, a permanent 404 costs one request and resolves to false |
| Download.PersistentTransient | src/util/library.ts:47-114 | with the default budget of 3, persistent transient failures cost three requests and resolve to false |
| Download.SavedEvenIfWriteFails | src/util/library.ts:89-98 | a 200 whose `writeFile` fails still resolves to true, although the destination does not hold its body |
| Download.NoBudgetNoRequest | src/util/library.ts:68-114 | a budget of zero or less makes no request and resolves to false |
| Download.ResultCode | src/commands/server/gi.ts:251-263 | the status code the crawler's `== 0` / `== -1` tests were written for: 0 exactly after a saved 200, -1 exactly after a 404 |
| CrawlerPaths.Extension | src/commands/server/gi.ts:191 | `split(".").pop()` is the dot-free suffix after the last `.`, or the whole name when there is no `.` |
| CrawlerPaths.Mode | src/commands/server/gi.ts:102-129 | only the resource kind uses `client_game_res`; every mode is a folder that cannot begin inside `mainUrl/` |
| CrawlerPaths.Template | src/commands/server/gi.ts:102-129 | a resource build lists 33 manifests and each client build one, `data_versions`, kept in a `…/General/AssetBundles` folder |
| CrawlerPaths.SaveFilePath | src/commands/server/gi.ts:145-147 | the manifest URL starts with `mainUrl/`, and the manifest is saved at the URL's path below it, rooted at the download folder |
| CrawlerPaths.SaveFolderTest | src/commands/server/gi.ts:200-202 | for a folder name without `/` that the download root does not contain, the `includes` test on `saveFileFolder` answers as the same test on `fileFolder` |
| CrawlerPaths.FirstFolder | src/commands/server/gi.ts:193-199 | the resolver search finds a folder exactly when some entry lists the extension, and the folder it returns lists it |
| CrawlerPaths.ResolverTable | src/commands/server/gi.ts:132 | `pck` gives AudioAssets, `cuepoint` and `usm` give VideoAssets, `blk` gives AssetBundles, any other extension gives none |
| CrawlerPaths.ExtFolder | src/commands/server/gi.ts:191-202 | `extFolder` is the resolver folder of the extension unless the save folder already contains that name, and empty otherwise |
| CrawlerPaths.AssetBundlesNotDoubled | src/commands/server/gi.ts:200-202 | in the `…/AssetBundles` client folders a `.blk` asset gets no extra subfolder |
| CrawlerPaths.AssetUrlShape | src/commands/server/gi.ts:204-209 | the asset URL is `mainUrl/fileFolder/[extFolder/]name`: with an empty `extFolder` the replace collapses the `//`, otherwise it changes nothing |
| CrawlerPaths.SavePathMirrorsUrl | src/commands/server/gi.ts:204-209 | an asset URL starts with `mainUrl/`; with a subfolder its save path is the URL's path below that, rooted at the download folder; without one the save path keeps the `//` the URL collapses |
| CrawlerPaths.OutputMatchAt | src/commands/server/gi.ts:223 | a match of `/output_\d+_[a-f0-9]+\//` at `i` spells `output_`, is at least 10 characters long and runs exactly up to the first `/` after `i` |
| CrawlerPaths.LiteralMatches | src/commands/server/gi.ts:223 | conversely, `output_`, a digit run, `_`, a hexadecimal run and `/` at `i` are a match of exactly that length |
| CrawlerPaths.FirstOutputMatch | src/commands/server/gi.ts:223 | the search for `/output_\d+_[a-f0-9]+\//` returns the leftmost match, or none when no position matches |
| CrawlerPaths.RemoveFirstOutput | src/commands/server/gi.ts:223 | the `replace` never lengthens the string, leaves it unchanged when nothing matches, and removes at least 10 characters otherwise |
| CrawlerPaths.RemoveMatch | src/commands/server/gi.ts:223 | it splices out exactly the leftmost match |
| CrawlerPaths.NormalizeFrom | src/commands/server/gi.ts:220-224 | both `replace` steps only delete, and a URL with neither the origin nor a `_` is its own normal form |
| CrawlerPaths.Normalize | src/commands/server/gi.ts:220-224 | the same for `mainUrl/` |
| CrawlerPaths.NormalizeBuiltUrl | src/commands/server/gi.ts:220-224 | below a `fileFolder`, normalising removes the origin and the build segment and changes nothing else, so every build of a version gives the same normal form |
| CrawlerPaths.SegmentMatches | src/commands/server/gi.ts:223 | the build segment `output_<Version>_<Suffix>/` matches the pattern over its whole length when the suffix is lower-case hexadecimal |
| CrawlerPaths.RemoveOutputSegment | src/commands/server/gi.ts:220-224 | a build segment right after a segment-free stem is the match removed |
| CrawlerPaths.NormalizeAssetUrl | src/commands/server/gi.ts:204-224 | an asset URL built for a version label without `o` normalises to `Mode/version/client/[extFolder/]name`, whatever the build, provided that, with an `extFolder`, the text after `fileFolder` does not contain `fileFolder//` |
| CrawlerPaths.NormalizeMapperUrl | src/commands/server/gi.ts:220-224 | a manifest URL built for a version label without `o` normalises to `Mode/version/client/mapper` |
| CrawlerPaths.ModeQualifies | src/commands/server/gi.ts:102-129 | both modes of the `paths` table, followed by a version label without `o`, contain no `output_` and cannot begin inside `mainUrl/` |
| CrawlerPaths.NormalizeNotIdempotent | src/commands/server/gi.ts:220-224 | `normalizePath` removes only the first `mainUrl/`, so applying it twice can differ from applying it once |
| CrawlerPaths.NormalizeTwice | src/commands/server/gi.ts:222 | a doubled origin keeps one copy after one pass |
| CacheIndex.Empty | src/util/library.ts:149-151 | a fresh cache has no entries and no keys |
| CacheIndex.Load | src/util/library.ts:145-152 | `loadCache` returns the stored record, or an empty one when there is none |
| CacheIndex.Set | src/commands/server/gi.ts:256-270 | `cache[url] = v` updates exactly that key; an existing key keeps its place; a new key goes last; no key is lost |
| CacheIndex.FindFrom | src/commands/server/gi.ts:227-229 | the scan from position `i` returns a key of the cache whose image matches, or none when no key from `i` on matches |
| CacheIndex.FindFromFirst | src/commands/server/gi.ts:227-229 | the key found is the first one from position `i` in insertion order whose image matches |
| CacheIndex.Find | src/commands/server/gi.ts:227-229 | `Object.entries(cache).find` returns a key whose image matches, and returns none if and only if no key matches |
| CacheIndex.FindUnique | src/commands/server/gi.ts:227-229 | when exactly one key matches, the search finds it |
| CacheIndex.FindStable | src/commands/server/gi.ts:227-229 | keys added later never change an entry the search already finds |
| Crawler.DownloadValue | src/commands/server/gi.ts:251-263 | as written, the boolean from `forceDownload` is `== 0` exactly when the download failed and is never `== -1`; corrected, `== 0` means saved and `== -1` means not found |
| Crawler.LooseEq | src/commands/server/gi.ts:251-263 | a boolean compared with `==` is converted to a number: it equals 1 when true, 0 when false, and no other number |
| Crawler.Classify | src/commands/server/gi.ts:184-189 | a line is skipped when it is empty, names no `remoteName` or names `svc_catalog`; it aborts the crawl exactly when `getMd5Data` throws; otherwise it names the asset at `AssetUrl`/`AssetSavePath` with `md5 \|\| ""` as the expected digest |
| Crawler.AssetOf | src/commands/server/gi.ts:204-217 | `md5 \|\| ""`: a missing digest and an empty one give the same empty expectation; any other digest is expected as given |
| Crawler.LegacyAssetLine | src/commands/server/gi.ts:186-217 | a well-formed legacy line names the asset built from its name and digest |
| Crawler.Lookup | src/commands/server/gi.ts:225-229 | the cross-build match is a key of the cache with the asset URL's normal form, none exactly when no key has it, and always found when the URL itself is recorded |
| Crawler.Reused | src/commands/server/gi.ts:230-240 | a line is skipped by the cross-build rule only when some key of the same normal form records the expected digest or `"not_found"` |
| Crawler.Decide | src/commands/server/gi.ts:211-272 | an exact hit with any non-empty value skips; the asset is fetched exactly when neither a hit nor a cross-build entry with the expected digest or `"not_found"` vouches for it and the local file fails its check; a file that passes the check is recorded without a request; any write records the expected digest only after a passing check of a written file, or `"not_found"` only after a 404 (corrected), never at a hit key, and is saved at once; as written no download is ever recorded |
| Crawler.ProcessLine | src/commands/server/gi.ts:185-272 | one line either aborts (exactly when `getMd5Data` throws), is skipped with the cache unchanged, or is decided as its asset |
| Crawler.SuccessNotRecordedAsWritten | src/commands/server/gi.ts:251-262 | as written, a download that succeeds and passes the check is reported as failed and not recorded |
| Crawler.NotFoundNotRecordedAsWritten | src/commands/server/gi.ts:251-266 | as written, a 404 takes the re-check branch, ends as an invalid download, and `"not_found"` is not recorded |
| Crawler.DownloadsNeverRecordedAsWritten | src/commands/server/gi.ts:248-266 | as written, every line that reaches `forceDownload` ends as a failed or invalid download with the cache unchanged and nothing saved |
| Crawler.SuccessRecordedCorrected | src/commands/server/gi.ts:251-257 | corrected, a download whose body was written and passes the check records the expected digest |
| Crawler.NotFoundRecordedCorrected | src/commands/server/gi.ts:261-266 | corrected, a 404 records `"not_found"`, and the same asset line is then skipped with no fetch |
| Crawler.ReusedSkips | src/commands/server/gi.ts:222-240 | when a cross-build entry vouches for the asset, the line is skipped (as cached, same digest or known missing) with the cache unchanged and no fetch |
| Crawler.ReuseAcrossBuilds | src/commands/server/gi.ts:219-244 | an asset recorded with the expected digest from one build of a version is not fetched again from another build of that version, provided that recorded URL is the only key with the asset's normal form, the version label has no `o`, and, with an `extFolder`, the URL does not contain `fileFolder//` after `fileFolder` |
| Crawler.ShadowedEntryFetches | src/commands/server/gi.ts:227-244 | only the first key of the same normal form counts: when it records another digest, the asset is fetched even though a later key records the expected one |
| Crawler.DecideSound | src/commands/server/gi.ts:246-271 | one asset line keeps the cache discipline: no key removed, no non-empty value changed, every write saved |
| Crawler.ProcessLines | src/commands/server/gi.ts:184-273 | a manifest's lines keep the cache discipline and request no manifest |
| Crawler.LinesAbortIff | src/commands/server/gi.ts:184-187 | the crawl aborts exactly when some line makes `getMd5Data` throw |
| Crawler.ProcessManifest | src/commands/server/gi.ts:157-184 | a manifest is always requested and the cache discipline is kept; when it is not read, nothing else happens |
| Crawler.ManifestLines | src/commands/server/gi.ts:176-185 | a manifest that is read is split on `\n` and its lines decide the outcome, cache, snapshots and fetches |
| Crawler.ManifestSkippedAsWritten | src/commands/server/gi.ts:158-162 | as written, a manifest that downloads successfully is never read, and nothing is fetched for it |
| Crawler.StaleManifestReadAsWritten | src/commands/server/gi.ts:158-182 | as written, a listing manifest is read exactly when its download failed and an old file survived the unlink of `forceDownload` and reads |
| Crawler.NoManifestReadAsWritten | src/commands/server/gi.ts:158-182 | as written, when the unlink succeeds (or there was no old file) no manifest is read at all: the cache is unchanged, nothing is fetched and the crawl does not abort |
| Crawler.ManifestReadCorrected | src/commands/server/gi.ts:158-182 | corrected, a listing manifest is read exactly when its download succeeded, the path holds a file (the new body, or an old file whose unlink failed) and it reads |
| Crawler.Content | src/commands/server/gi.ts:175-181 | the manifest text is available only when the body of the 200 was written or the old file survived its unlink, and then it is what `readFile` returned |
| Crawler.Pairs | src/commands/server/gi.ts:142-143 | the nested client/mapper loops visit `\|clients\| * \|mappers\|` manifests, which are exactly the pairs of a client and a mapper |
| Crawler.Folders | src/commands/server/gi.ts:142-144 | one `fileFolder` per client, and exactly those of the listed clients |
| Crawler.BuildJobs | src/commands/server/gi.ts:140-147 | a build visits `\|Clients\| * \|Mappers\|` manifests of its `paths` entry, and exactly the client/mapper pairs of that entry |
| Crawler.StageJobs | src/commands/server/gi.ts:140 | a stage visits exactly the manifests of its builds |
| Crawler.VersionJobs | src/commands/server/gi.ts:139-143 | a version visits exactly the manifests of its stages |
| Crawler.ProcessJobs | src/commands/server/gi.ts:139-277 | the manifests requested are a prefix of the jobs' manifest URLs in loop order, all of them without an abort, and the cache discipline is kept |
| Crawler.CacheFileInjective | src/commands/server/gi.ts:136 | different versions keep their caches in different files |
| Crawler.ProcessVersion | src/commands/server/gi.ts:134-278 | a version starts from its loaded cache (empty when missing) and keeps the discipline; its manifests are requested in loop order, all of them without an abort |
| Crawler.Crawl | src/commands/server/gi.ts:134-278 | every cache snapshot saved is written to the file of one version and extends what that version loaded |
| Router.Host | src/server/web/router.ts:39-93 | the origin is one of the six hosts; starrails with server `cn` gives the CN host, any other server the OS host; the two Blue Archive games get their own hosts; any other game goes to `ps.yuuki.me` if and only if the path contains `3.2`, and to the Genshin origin otherwise |
| Router.DomainFor | src/server/web/router.ts:39-93 | `bluearchive-notice` gets the fixed notice index; every other game gets its origin, `/` and the path |
| Router.HostsHaveNoToken | src/server/web/router.ts:40-95 | no origin and not the notice index contains `bluearchive-notice` or `bluearchive-serverinfo` |
| Router.TestingModeIff | src/server/web/router.ts:85-103 | "Testing mode" is returned if and only if the game is not `bluearchive-notice` and the path itself contains one of the two tokens |
| Router.NoticeIgnoresPath | src/server/web/router.ts:85-86 | the notice domain does not depend on the path |
| Router.Basename | src/server/web/router.ts:190-191 | the served file name has no `/` and occurs in the path |
| Router.CachePathInjective | src/server/web/router.ts:106 | with the cache path taken as plain concatenation, different games (without `/`) or paths give different files; this holds for `path.join` only on paths it leaves unchanged (see "## Left out") |
| Router.TempBesideCache | src/server/web/router.ts:106-107 | the temporary file differs from the cached file, and is the cache path of the request path with `.temp` appended |
| Router.Fetch | src/server/web/router.ts:120-184 | the fetch phase starts with the `mkdir` of the cache file's directory, its only action when that fails; it requests only `domainDL`, and only after `mkdir` succeeds; a stale temp file is removed before the request and the write; data goes only to the temp file; the final path comes only from `rename`; the domain is released on every exit except an as-written `mkdir` failure; the file is served exactly when fetch, write and rename all succeed; every other exit redirects to `domainDL`, except that an as-written `mkdir` failure answers 500 |
| Router.Handle | src/server/web/router.ts:16-198 | a `decodeURI` failure gives "Error server...."; the guard gives "Testing mode" with nothing done; a cached file is served with nothing done and `otwDL` unchanged; a domain already in flight is redirected at once; the fetch phase (starting with `mkdir`) runs exactly when the file is missing and no other request holds the domain, and the origin is requested exactly when that `mkdir` also succeeds; the in-flight set is unchanged on exit except after an as-written `mkdir` failure in the fetch phase; the file is served exactly when it existed or was installed, as `basename(url_only)` from the cache path; a fetch that installs nothing redirects to `domainDL`, except an as-written `mkdir` failure, which answers 500 |
| Router.ServerIrrelevantToCache | src/server/web/router.ts:190-194 | the file served does not depend on `server` |
| Router.MkdirLeaksAsWritten | src/server/web/router.ts:115-197 | as written, a failing `mkdir` answers 500 and leaves the domain in `otwDL`, so every later request for it that finds no file is redirected without a fetch |
| Router.MkdirReleasesCorrected | src/server/web/router.ts:120-152 | corrected, a failing `mkdir` releases the domain and redirects, so the next request may fetch |
| ProxyGate.Next | src/server/web/router.ts:114-184 | one event-loop turn: a waiting request starts fetching exactly when its file is missing and its domain is not in flight; other requests are untouched |
| ProxyGate.Init | src/server/web/router.ts:15 | the empty `otwDL` with every request waiting satisfies the invariant and is exact |
| ProxyGate.NextPreserves | src/server/web/router.ts:115-184 | every turn keeps the invariant: each fetching request holds its domain in the set, and no two fetch the same domain |
| ProxyGate.RunPreserves | src/server/web/router.ts:115-120 | every schedule of turns keeps that invariant |
| ProxyGate.NoDuplicateFetch | src/server/web/router.ts:115-120 | from server start, no interleaving ever has two requests in the fetch phase for the same `domainDL`; this is per origin URL, not per cache file (see `ProxyGate.CrossServerSharedTemp`) |
| ProxyGate.CrossServerSharedTemp | src/server/web/router.ts:106-120 | a starrails request for the CN server and one for another server, for the same path, have different `domainDL`s, so both pass the gate and fetch at once, although both use the same cache and temporary file |
| ProxyGate.NextExact | src/server/web/router.ts:151-184 | corrected, every turn keeps the set exact: a domain is in flight only while some request fetches it |
| ProxyGate.RunExact | src/server/web/router.ts:151-184 | corrected, every schedule keeps the set exact |
| ProxyGate.StaleDomainAsWritten | src/server/web/router.ts:115-197 | as written, after one request fails in `mkdir` its domain stays in the set with no request fetching it, and the next request for it is turned away |
| ProxyGate.HandleIsTwoTurns | src/server/web/router.ts:110-184 | a request running alone is its gate turn followed by its release turn: the set it leaves is `Router.Handle`'s |

## Left out

- Network transport (axios, the HTTPS agent, timeouts, headers, response bodies). Each
  attempt is an abstract outcome: a returned status, or a thrown error with an optional
  status.
- MD5 hashing (`getMD5Hash`, `getMD5HashFile`) is a cryptographic foreign call. It enters as
  the booleans "the file at the save path has the expected digest" before and after the
  download (`Crawler.AssetIO`).
- `JSON.parse` is opaque: the JSON branch of `getMd5Data` and the contents of cache files are
  inputs. `JSON.stringify` and the file writes of `saveCache` are recorded as snapshots, not
  encoded.
- File system calls (`access`, `mkdir`, `unlink`, `readFile`, `writeFile`, `rename`) enter
  as their outcomes. `forceDownload`'s own `mkdir` of the parent directory is left out,
  because its failure is caught and ignored.
- Crawler.Decide: the run of `forceDownload` for an asset is an input (`AssetIO.run`), tied
  to `Download.ForceDownload` only through `Download.Returned`, `Download.Wrote` and
  `Download.ResultCode`. The budget of 3 and the URL cleaning live in the Download module.
- File contents after a download are reduced to two facts: a successful `writeFile` leaves
  the body of the 200 at the path, and a failed one leaves nothing readable there (partial
  writes are not modelled). An old file is present afterwards only when `forceDownload`'s
  unlink failed (`ManifestIO.keptOld`); for an asset, such a file already failed the first
  digest check (a manifest has no digest check).
  Changes to the files by other processes are not modelled.
- Node's `path.join`, `dirname` and `resolve` are plain concatenation, because the model
  does not normalise `..` or repeated slashes. `mkdir`'s target is recorded as
  `MakeParentOf(filePath)`.
- Router.CachePathInjective: proved for the concatenation the model uses. Node's `path.join`
  normalises, so for the program it fails on paths `join` rewrites: `a` and `/a` (from a
  request `…/os//a`) share one file, as do `a//b`, `a/./b` and `a/b`, and `x/../a` and `a`.
  On paths with no leading `/` and no empty, `.` or `..` segment, `join` is concatenation
  and the lemma applies as stated.
- Router.Basename: it states only that the name has no `/` and occurs in the path. Node's
  handling of an empty path and of Windows separators is not modelled.
- `sleep` is modelled only by its duration (`Download.RetryDelayMs`). The timer and
  logging are left out.
- `getLocalIpAddress` reads OS network interfaces, and the express plumbing (`res.send`,
  `setHeader`, `sendFile`, `redirect`) is left out. Responses are tagged values.
- Concurrency is event-loop turns only: `ProxyGate` has one turn for the gate and one for
  leaving the fetch phase. The crawler runs sequentially, as the source awaits every step.
- The version list of `gi.ts` is input data (`Crawler.Version`), as are the commented-out
  entries. The `paths` and `resolvers` tables are constants.
- A `liveType` key outside `res`, `client` and `clientSilence` would throw in the source.
  The model's `Kind` has only those three.
- `forceDownload` with a fractional `maxRetries`, and JavaScript number precision for build
  numbers, are not modelled. Counters and build numbers are unbounded naturals.
- Strings are sequences of Dafny characters. JavaScript's UTF-16 code units, surrogate pairs
  and Unicode normalisation are not modelled.
- Cache keys keep insertion order, as JavaScript does for non-index property names. Every
  key is a URL, never an array index, so the integer-key ordering rule never applies.
- CrawlerPaths.NormalizeAssetUrl: proved for version labels without the letter `o`, such
  as `5.6_live`. A label containing `output_` could be matched instead of the build segment.
  With an `extFolder`, it also needs a `remoteName` that does not contain `fileFolder//`.
  The source accepts any name, and for such a name the `replace` of `fileFolder//` acts
  inside the name, so the normal form differs.
- CrawlerPaths.NormalizeMapperUrl: proved only for version labels without the letter `o`,
  for the same reason.
- Crawler.ReuseAcrossBuilds: it inherits both provisos of `CrawlerPaths.NormalizeAssetUrl`
  (no `o` in the version label, no `fileFolder//` in the name part), besides the
  uniqueness of the recorded key.
- Crawl: its contract says where each snapshot goes and that it extends the cache that
  version loaded. It does not state that an abort stops the crawl at that version, although
  the body does stop there.

## Behaviour worth knowing

The model follows the code in these places, where a reader might expect otherwise:

- `normalizePath` is not idempotent (`CrawlerPaths.NormalizeNotIdempotent`).
- A manifest line on which `getMd5Data` throws (a legacy line without a space) aborts the
  whole crawl, because nothing catches it (`Crawler.LinesAbortIff`).
- The cross-build search stops at the first key with the asset's normal form. A stale
  digest there hides a matching one recorded later (`Crawler.ShadowedEntryFetches`). This
  costs a redundant download, not a wrong record, so it is not listed as a finding.
- `forceDownload` resolves to true after a 200 even when `writeFile` failed
  (`Download.SavedEvenIfWriteFails`).
- A request path ending in `.temp` names the temporary file of the path without that
  suffix (`Router.TempBesideCache`).
- The proxy's in-flight set is keyed on `domainDL`, but the cache file on the game and the
  path. Two starrails requests for the same path through the CN server and another server
  have different origins, so both fetch at once and write and rename the same `.temp` file.
  The two fetches race on one temporary file; what a reader then finds in it is not
  modelled (`ProxyGate.CrossServerSharedTemp`).
- A failing `mkdir` in the proxy answers 500 instead of redirecting (third finding).

## Findings

| source | as written | input that shows it | evidently intended | confidence | as-written member | corrected member |
|---|---|---|---|---|---|---|
| src/commands/server/gi.ts:158-162 | `isSave0 != 0` on the boolean from `forceDownload`: `true != 0` holds and `false != 0` does not | a listing manifest whose download returns true is skipped as "Download failed". When the download fails, `forceDownload` has already unlinked the old file, so the manifest is read only if that unlink failed. Otherwise no manifest is ever read | read the manifest exactly when the download succeeded | high (not executed) | Crawler.ManifestSkippedAsWritten, Crawler.StaleManifestReadAsWritten, Crawler.NoManifestReadAsWritten | Crawler.ManifestReadCorrected |
| src/commands/server/gi.ts:251-266 | `isSave == 0` and `isSave == -1` on the boolean: success takes the "Download failed" branch, failure re-checks the file, and `== -1` never holds | a download that returns true and whose file passes the digest check is not recorded; a 404 never records `"not_found"`; after a failed download the re-checked path holds no new body, so no download is ever recorded | record the digest after a successful, valid download and `"not_found"` after a 404, as the comparisons with 0 and -1 suggest | high (not executed) | Crawler.SuccessNotRecordedAsWritten, Crawler.NotFoundNotRecordedAsWritten, Crawler.DownloadsNeverRecordedAsWritten | Crawler.SuccessRecordedCorrected, Crawler.NotFoundRecordedCorrected |
| src/server/web/router.ts:120-197 | `otwDL.add` happens before an unguarded `await fs.mkdir`; its rejection reaches the outer `catch`, which answers 500 without `otwDL.delete` | one request for a missing file whose `mkdir` fails; every later request for that domain is redirected and the file is never fetched again | release the domain on every exit from the fetch phase, as the other five exits do | medium (not executed) | Router.MkdirLeaksAsWritten, ProxyGate.StaleDomainAsWritten | Router.MkdirReleasesCorrected, ProxyGate.RunExact |
