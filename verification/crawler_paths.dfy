/** Path and URL composition of the crawler in `src/commands/server/gi.ts`:
    the folder of one channel build, the manifest and asset URLs, the
    extension-to-subfolder rule, and `normalizePath`. */
module CrawlerPaths {
  import opened Wrappers
  import opened Strings

  const MainUrl: string := "https://autopatchhk.yuanshen.com"
  const FolderDownload: string := "/home/node/app/src/server/web/public/cache/game/genshin"

  /** `mainUrl + "/"`: the prefix every crawled URL starts with. */
  const Origin: string := MainUrl + "/"

  /** The channel kinds of a build stage (the keys `res`, `clientSilence`, `client`). */
  datatype Kind = Res | ClientSilence | Client

  /** One channel build: `{ Version, Suffix }`. */
  datatype Channel = Channel(version: nat, suffix: string)

  /** One entry of the `paths` table. */
  datatype PathTemplate = PathTemplate(mode: string, clients: seq<string>, mappers: seq<string>)

  /** The `Mode` column of the `paths` table. */
  function Mode(k: Kind): (m: string)
    ensures m == "client_game_res" <==> k.Res?
    ensures FolderShape(Origin, m)
  {
    match k
    case Res => "client_game_res"
    case ClientSilence => "client_design_data"
    case Client => "client_design_data"
  }

  /** The `paths` table. */
  function Template(k: Kind): (t: PathTemplate)
    ensures t.mode == Mode(k)
    // a resource build lists 33 manifests, each client build one
    ensures |t.clients| * |t.mappers| == if k.Res? then 33 else 1
    ensures !k.Res? ==> t.mappers == ["data_versions"]
    // the client builds keep their files in an `AssetBundles` folder
    ensures !k.Res? ==> forall c :: c in t.clients ==> EndsWith(c, "/General/AssetBundles")
  {
    match k
    case Res => PathTemplate(Mode(k),
      ["client/Android", "client/StandaloneWindows64", "client/iOS"],
      ["res_versions_external", "res_versions_medium", "res_versions_streaming",
       "release_res_versions_external", "release_res_versions_medium",
       "release_res_versions_streaming", "AudioAssets/audio_versions",
       "base_revision", "script_version", "patch_node_versions",
       "vulkan_gpu_list_config.txt"])
    case ClientSilence => PathTemplate(Mode(k),
      ["client_silence/General/AssetBundles"], ["data_versions"])
    case Client => PathTemplate(Mode(k),
      ["client/General/AssetBundles"], ["data_versions"])
  }

  /** The `resolvers` table, in its declaration order. */
  const Resolvers: seq<(string, seq<string>)> :=
    [("AudioAssets", ["pck"]), ("VideoAssets", ["cuepoint", "usm"]), ("AssetBundles", ["blk"])]

  /** `fileFolder = Mode/version/output_<Version>_<Suffix>/<client>`. */
  function FileFolder(mode: string, version: string, ch: Channel, client: string): string {
    mode + "/" + version + "/" + OutputSegment(ch) + client
  }

  /** `output_<Version>_<Suffix>/`, the build-specific segment. */
  function OutputSegment(ch: Channel): string {
    "output_" + Digits(ch.version) + "_" + ch.suffix + "/"
  }

  /** `mapperUrl = mainUrl/fileFolder/mapper`. */
  function MapperUrl(folder: string, mapper: string): string {
    Origin + folder + "/" + mapper
  }

  /** `saveFileFolder = folderDownload/fileFolder`. */
  function SaveFileFolder(folder: string): string {
    FolderDownload + "/" + folder
  }

  /** `saveFilePath = saveFileFolder/mapper`: the manifest URL's path below the
      origin, rooted at the download folder. */
  function SaveFilePath(folder: string, mapper: string): (p: string)
    ensures |Origin| <= |MapperUrl(folder, mapper)| && MapperUrl(folder, mapper)[..|Origin|] == Origin
    ensures p == FolderDownload + "/" + MapperUrl(folder, mapper)[|Origin|..]
  {
    var u := MapperUrl(folder, mapper);
    assert u[|Origin|..] == folder + "/" + mapper;
    SaveFileFolder(folder) + "/" + mapper
  }

  /** The `includes` test of `extFolder` on `saveFileFolder` is a test on
      `fileFolder`: a folder name without `/` that the download root does not
      contain occurs in the save folder exactly when it occurs in the file folder. */
  lemma SaveFolderTest(folder: string, f: string)
    requires '/' !in f && !Contains(FolderDownload, f)
    ensures Contains(SaveFileFolder(folder), f) <==> Contains(folder, f)
  {
    ContainsAcrossSlash(FolderDownload, folder, f);
  }

  /** `remoteName.split(".").pop()`: the text after the last `.`, or the whole
      name when it has none. */
  function Extension(name: string): (ext: string)
    ensures '.' !in ext
    ensures |ext| <= |name| && name[|name| - |ext|..] == ext
    ensures '.' in name ==> |ext| < |name| && name[|name| - |ext| - 1] == '.'
    ensures '.' !in name ==> ext == name
  {
    var parts := Split(name, '.');
    JoinSplit(name, '.');
    if |parts| == 1 then
      parts[0]
    else
      JoinLast(parts, '.');
      assert '.' in name by {
        assert name[|Join(parts[..|parts| - 1], '.')|] == '.';
      }
      Last(parts)
  }

  /** A join of several fields ends with a separator and the last field. */
  lemma {:induction false} JoinLast(parts: seq<string>, c: char)
    requires |parts| >= 2
    ensures Join(parts, c) == Join(parts[..|parts| - 1], c) + [c] + Last(parts)
    decreases |parts|
  {
    if |parts| > 2 {
      JoinLast(parts[1..], c);
      assert parts[1..][..|parts| - 2] == parts[..|parts| - 1][1..];
    } else {
      assert parts[..1] == [parts[0]];
    }
  }

  /** The first folder of `table` whose extension list holds `ext` (the
      `for … of Object.entries(resolvers)` loop with its `break`). */
  function FirstFolder(table: seq<(string, seq<string>)>, ext: string): (r: Option<string>)
    ensures r.Some? <==> exists k :: 0 <= k < |table| && ext in table[k].1
    ensures r.Some? ==> exists k :: 0 <= k < |table| && r.value == table[k].0 && ext in table[k].1
                           && forall j :: 0 <= j < k ==> ext !in table[j].1
  {
    if |table| == 0 then None
    else if ext in table[0].1 then
      Some(table[0].0)
    else
      var r := FirstFolder(table[1..], ext);
      assert forall k :: 1 <= k < |table| ==> table[k] == table[1..][k - 1];
      r
  }

  /** The resolver folder for an extension. */
  lemma ResolverTable(ext: string)
    ensures FirstFolder(Resolvers, ext) ==
      if ext == "pck" then Some("AudioAssets")
      else if ext == "cuepoint" || ext == "usm" then Some("VideoAssets")
      else if ext == "blk" then Some("AssetBundles")
      else None
  {
    var r := FirstFolder(Resolvers, ext);
    assert Resolvers[0].1 == ["pck"] && Resolvers[1].1 == ["cuepoint", "usm"] && Resolvers[2].1 == ["blk"];
    if r.Some? {
      var k :| 0 <= k < |Resolvers| && r.value == Resolvers[k].0 && ext in Resolvers[k].1
                && forall j :: 0 <= j < k ==> ext !in Resolvers[j].1;
      assert k == 0 || k == 1 || k == 2;
    }
  }

  /** `extFolder`: the resolver folder of the name's extension, or "" when no
      resolver lists it or when `saveFileFolder` already contains that folder's name. */
  function ExtFolder(name: string, saveFolder: string): (r: string)
    ensures r == "" || (!Contains(saveFolder, r) && Some(r) == FirstFolder(Resolvers, Extension(name)))
    ensures FirstFolder(Resolvers, Extension(name)).None? ==> r == ""
    ensures FirstFolder(Resolvers, Extension(name)).Some? ==>
              (r == FirstFolder(Resolvers, Extension(name)).value
               <== !Contains(saveFolder, FirstFolder(Resolvers, Extension(name)).value))
  {
    match FirstFolder(Resolvers, Extension(name))
    case None => ""
    case Some(f) => if f != "" && Contains(saveFolder, f) then "" else f
  }

  /** A string contains any of its suffixes. */
  lemma ContainsSuffix(a: string, t: string)
    ensures Contains(a + t, t)
  {
    assert OccursAt(a + t, t, |a|);
  }

  /** In a folder that ends with `AssetBundles`, a `.blk` asset gets no extra subfolder. */
  lemma AssetBundlesNotDoubled(name: string, folderStem: string)
    requires Extension(name) == "blk"
    ensures ExtFolder(name, folderStem + "AssetBundles") == ""
  {
    ResolverTable("blk");
    ContainsSuffix(folderStem, "AssetBundles");
  }

  /** `gameFileSavePath = saveFileFolder/extFolder/remoteName`; with no
      subfolder this keeps the double slash. */
  function AssetSavePath(saveFolder: string, extFolder: string, name: string): string {
    saveFolder + "/" + extFolder + "/" + name
  }

  /** `gameFileUrl`: `mainUrl/fileFolder/extFolder/remoteName` with the first
      `fileFolder//` replaced by `fileFolder/`. */
  function AssetUrl(folder: string, extFolder: string, name: string): string {
    AssetUrlFrom(Origin, folder, extFolder, name)
  }

  /** The asset URL under a given origin prefix. */
  function AssetUrlFrom(origin: string, folder: string, extFolder: string, name: string): string {
    ReplaceFirst(origin + folder + "/" + extFolder + "/" + name, folder + "//", folder + "/")
  }

  /** The optional subfolder component of an asset path. */
  function SubPath(extFolder: string): string {
    if extFolder == "" then "" else extFolder + "/"
  }

  /** A folder that cannot begin inside `origin`: it does not start with a slash,
      and its second character never occurs in `origin`. Both modes of the
      table begin `cl`, and the origin has no `l`. */
  predicate FolderShape(origin: string, folder: string) {
    |folder| >= 2 && folder[0] != '/' && folder[1] !in origin
  }

  /** No occurrence of `folder + "//"` can start inside an origin ending in `/`. */
  lemma NoMatchInOrigin(origin: string, folder: string, rest: string, i: nat)
    requires |origin| > 0 && origin[|origin| - 1] == '/'
    requires FolderShape(origin, folder)
    requires i < |origin|
    ensures !OccursAt(origin + folder + rest, folder + "//", i)
  {
    var s := origin + folder + rest;
    OccursAtChar(s, folder + "//", i, 0);
    OccursAtChar(s, folder + "//", i, 1);
    assert s[i] == origin[i];
    assert i + 1 < |origin| ==> s[i + 1] == origin[i + 1];
  }

  /** The asset URL is the plain concatenation, with a single slash where the
      subfolder is empty. With a subfolder, this needs the name not to spell out
      the folder followed by `//`, which the code would collapse instead. */
  lemma AssetUrlShape(origin: string, folder: string, extFolder: string, name: string)
    requires |origin| > 0 && origin[|origin| - 1] == '/'
    requires FolderShape(origin, folder)
    requires extFolder != "" ==> !Contains(folder + "/" + extFolder + "/" + name, folder + "//")
    ensures AssetUrlFrom(origin, folder, extFolder, name) == origin + folder + "/" + SubPath(extFolder) + name
  {
    if extFolder == "" {
      EmptySubfolderUrl(origin, folder, name);
    } else {
      SubfolderUrl(origin, folder, extFolder, name);
    }
  }

  /** An asset's save path is its URL's path below the origin, rooted at the
      download folder; only with no subfolder does the save path keep the `//`
      that the URL collapses. */
  lemma SavePathMirrorsUrl(folder: string, extFolder: string, name: string)
    requires FolderShape(Origin, folder)
    requires extFolder != "" ==> !Contains(folder + "/" + extFolder + "/" + name, folder + "//")
    ensures |Origin| <= |AssetUrl(folder, extFolder, name)|
    ensures AssetUrl(folder, extFolder, name)[..|Origin|] == Origin
    ensures extFolder != "" ==>
              AssetSavePath(SaveFileFolder(folder), extFolder, name)
              == FolderDownload + "/" + AssetUrl(folder, extFolder, name)[|Origin|..]
    ensures extFolder == "" ==>
              AssetSavePath(SaveFileFolder(folder), "", name)
              == FolderDownload + "/" + folder + "/" + AssetUrl(folder, "", name)[|Origin| + |folder|..]
  {
    OriginFacts();
    AssetUrlShape(Origin, folder, extFolder, name);
    MirrorOf(Origin, FolderDownload, folder, extFolder, name, AssetUrl(folder, extFolder, name));
  }

  /** The save path beside a URL `origin/folder/[extFolder/]name`. */
  lemma MirrorOf(origin: string, root: string, folder: string, extFolder: string, name: string, u: string)
    requires u == origin + folder + "/" + SubPath(extFolder) + name
    ensures |origin| <= |u| && u[..|origin|] == origin
    ensures extFolder != "" ==> AssetSavePath(root + "/" + folder, extFolder, name) == root + "/" + u[|origin|..]
    ensures extFolder == "" ==>
              AssetSavePath(root + "/" + folder, "", name) == root + "/" + folder + "/" + u[|origin| + |folder|..]
  {
    if extFolder == "" {
      Assoc3(origin, folder, "/" + name);
      PrefixParts(origin, folder + ("/" + name), u);
      PrefixParts(origin + folder, "/" + name, u);
    } else {
      PrefixParts(origin, folder + "/" + (extFolder + "/") + name, u);
    }
  }

  /** The parts of a concatenation. */
  lemma PrefixParts(a: string, b: string, u: string)
    requires u == a + b
    ensures |a| <= |u| && u[..|a|] == a && u[|a|..] == b
  {
  }

  /** Without a subfolder the doubled slash after the folder collapses. */
  lemma EmptySubfolderUrl(origin: string, folder: string, name: string)
    requires |origin| > 0 && origin[|origin| - 1] == '/'
    requires FolderShape(origin, folder)
    ensures AssetUrlFrom(origin, folder, "", name) == origin + folder + "/" + name
  {
    var of := origin + folder;
    assert of + "/" + "" + "/" + name == of + ("//" + name);
    CollapseDoubleSlash(origin, folder, "//" + name);
    assert ("//" + name)[2..] == name;
  }

  /** With a subfolder and no doubled slash after the folder, nothing changes. */
  lemma SubfolderUrl(origin: string, folder: string, extFolder: string, name: string)
    requires |origin| > 0 && origin[|origin| - 1] == '/'
    requires FolderShape(origin, folder)
    requires extFolder != ""
    requires !Contains(folder + "/" + extFolder + "/" + name, folder + "//")
    ensures AssetUrlFrom(origin, folder, extFolder, name) == origin + folder + "/" + (extFolder + "/") + name
  {
    var tail := "/" + extFolder + "/" + name;
    var of := origin + folder;
    assert of + "/" + extFolder + "/" + name == of + tail;
    assert folder + "/" + extFolder + "/" + name == folder + tail;
    KeepWithoutDoubleSlash(origin, folder, tail);
    assert of + tail == of + "/" + (extFolder + "/") + name;
  }

  /** The first `folder//` right after the origin collapses to `folder/`. */
  lemma CollapseDoubleSlash(origin: string, folder: string, rest: string)
    requires |origin| > 0 && origin[|origin| - 1] == '/'
    requires FolderShape(origin, folder)
    requires |rest| >= 2 && rest[..2] == "//"
    ensures ReplaceFirst(origin + folder + rest, folder + "//", folder + "/") == origin + folder + "/" + rest[2..]
  {
    var s := origin + folder + rest;
    var pat := folder + "//";
    var i := |origin|;
    assert s[i..i + |pat|] == pat;
    forall j: nat | j < i ensures !OccursAt(s, pat, j) {
      NoMatchInOrigin(origin, folder, rest, j);
    }
    assert FirstOccurrence(s, pat, i);
    assert s[..i] == origin;
    assert s[i + |pat|..] == rest[2..];
  }

  /** A URL whose part after the origin holds no `folder//` is left alone. */
  lemma KeepWithoutDoubleSlash(origin: string, folder: string, tail: string)
    requires |origin| > 0 && origin[|origin| - 1] == '/'
    requires FolderShape(origin, folder)
    requires !Contains(folder + tail, folder + "//")
    ensures ReplaceFirst(origin + folder + tail, folder + "//", folder + "/") == origin + folder + tail
  {
    var s := origin + folder + tail;
    var pat := folder + "//";
    forall j: nat ensures !OccursAt(s, pat, j) {
      if j < |origin| {
        NoMatchInOrigin(origin, folder, tail, j);
      } else {
        Assoc3(origin, folder, tail);
        NoMatchInSuffix(origin, folder + tail, pat, j);
      }
    }
  }

  /** An occurrence starting in the second part of `a + t` is one in `t`. */
  lemma NoMatchInSuffix(a: string, t: string, pat: string, j: nat)
    requires |a| <= j
    requires !Contains(t, pat)
    ensures !OccursAt(a + t, pat, j)
  {
    if OccursAt(a + t, pat, j) {
      assert (a + t)[j..j + |pat|] == t[j - |a|..j - |a| + |pat|];
      assert OccursAt(t, pat, j - |a|);
    }
  }

  // ---------------------------------------------------------------------------
  // normalizePath

  /** The length of the match of `/output_\d+_[a-f0-9]+\//` starting at `i`, if
      the pattern matches there. Both repetitions are greedy and the character
      after each cannot extend it, so a match at `i` is unique. */
  function OutputMatchAt(s: string, i: nat): (r: Option<nat>)
    // a match spells `output_`, needs at least one digit and one hexadecimal
    // character, and runs up to and including the first `/` after `i`
    ensures r.Some? ==> OccursAt(s, "output_", i) && 10 <= r.value && i + r.value <= |s|
    ensures r.Some? ==> s[i + r.value - 1] == '/' && forall k :: i <= k < i + r.value - 1 ==> s[k] != '/'
  {
    if !OccursAt(s, "output_", i) then None
    else
      var d := RunLength(s, i + 7, IsDigit);
      var j := i + 7 + d;
      if d == 0 || j >= |s| || s[j] != '_' then None
      else
        var h := RunLength(s, j + 1, IsLowerHex);
        var e := j + 1 + h;
        if h == 0 || e >= |s| || s[e] != '/' then None
        else
          RunLengthAll(s, i + 7, IsDigit);
          RunLengthAll(s, j + 1, IsLowerHex);
          assert forall k :: i <= k < i + 7 ==> s[k] == s[i..i + 7][k - i];
          Some(e + 1 - i)
  }

  /** A match lies within the string. */
  lemma OutputMatchWithin(s: string, i: nat)
    requires OutputMatchAt(s, i).Some?
    ensures i + OutputMatchAt(s, i).value <= |s|
  {
  }

  /** The leftmost match at or after `from`. */
  function FirstOutputMatch(s: string, from: nat): (r: Option<nat>)
    ensures r.Some? ==> from <= r.value && OutputMatchAt(s, r.value).Some?
    ensures r.Some? ==> forall j: nat :: from <= j < r.value ==> OutputMatchAt(s, j).None?
    ensures r.None? ==> forall j: nat :: from <= j ==> OutputMatchAt(s, j).None?
    decreases |s| - from
  {
    if from > |s| then
      assert forall j: nat :: from <= j ==> !OccursAt(s, "output_", j);
      None
    else if OutputMatchAt(s, from).Some? then Some(from)
    else FirstOutputMatch(s, from + 1)
  }

  /** `s.replace(/output_\d+_[a-f0-9]+\//, "")`: removes the leftmost match only. */
  function RemoveFirstOutput(s: string): (r: string)
    ensures |r| <= |s|
    ensures FirstOutputMatch(s, 0).None? ==> r == s
    ensures FirstOutputMatch(s, 0).Some? ==> |r| + 10 <= |s|
  {
    match FirstOutputMatch(s, 0)
    case None => s
    case Some(i) =>
      OutputMatchWithin(s, i);
      s[..i] + s[i + OutputMatchAt(s, i).value..]
  }

  /** `normalizePath(url)`: drop the first `mainUrl + "/"`, then the first
      `output_<digits>_<hex>/` segment. */
  function Normalize(url: string): (r: string)
    ensures |r| <= |url|
    ensures !Contains(url, Origin) && '_' !in url ==> r == url
  {
    NormalizeFrom(Origin, url)
  }

  /** `normalizePath` for a given origin prefix. */
  function NormalizeFrom(origin: string, url: string): (r: string)
    // both steps only delete
    ensures |r| <= |url|
    // a URL with neither the origin nor a build segment is its own normal form
    ensures !Contains(url, origin) && '_' !in url ==> r == url
  {
    var u := ReplaceFirst(url, origin, "");
    ReplaceFirstShorter(url, origin);
    if !Contains(url, origin) && '_' !in url then NoUnderscoreNoMatch(url); RemoveFirstOutput(u)
    else RemoveFirstOutput(u)
  }

  /** Deleting an occurrence makes a string no longer. */
  lemma ReplaceFirstShorter(s: string, pat: string)
    ensures |ReplaceFirst(s, pat, "")| <= |s|
  {
    match IndexOf(s, pat)
    case None =>
    case Some(i) => assert FirstOccurrence(s, pat, i);
  }

  /** Every match contains `_`, so a string without one has no match. */
  lemma NoUnderscoreNoMatch(s: string)
    requires '_' !in s
    ensures RemoveFirstOutput(s) == s
  {
    forall j: nat ensures !OccursAt(s, "output_", j) {
      OccursAtChar(s, "output_", j, 6);
    }
  }

  predicate AllLowerHex(s: string) { forall k :: 0 <= k < |s| ==> IsLowerHex(s[k]) }

  /** The build segment matches where it starts, over its whole length. */
  lemma SegmentMatches(pre: string, ch: Channel, rest: string)
    requires |ch.suffix| > 0 && AllLowerHex(ch.suffix)
    ensures OutputMatchAt(pre + OutputSegment(ch) + rest, |pre|) == Some(|OutputSegment(ch)|)
  {
    var seg := OutputSegment(ch);
    var s := pre + seg + rest;
    assert s[|pre|..|pre| + |seg|] == seg;
    LiteralMatches(s, |pre|, Digits(ch.version), ch.suffix);
  }

  /** `output_<ds>_<hex>/` found at `i` is a match of exactly its own length. */
  lemma LiteralMatches(s: string, i: nat, ds: string, hex: string)
    requires |ds| > 0 && AllDigits(ds)
    requires |hex| > 0 && AllLowerHex(hex)
    requires i + 9 + |ds| + |hex| <= |s|
    requires s[i..i + 9 + |ds| + |hex|] == "output_" + ds + "_" + hex + "/"
    ensures OutputMatchAt(s, i) == Some(9 + |ds| + |hex|)
  {
    var w := "output_" + ds + "_" + hex + "/";
    var u := i + 7 + |ds|;
    var e := u + 1 + |hex|;
    LiteralLayout(ds, hex);
    forall k | 0 <= k < 7 ensures s[i + k] == "output_"[k] {
      SliceIndex(s, i, w, k);
    }
    forall m | i + 7 <= m < u ensures IsDigit(s[m]) {
      SliceIndex(s, i, w, m - i);
    }
    SliceIndex(s, i, w, 7 + |ds|);
    forall m | u + 1 <= m < e ensures IsLowerHex(s[m]) {
      SliceIndex(s, i, w, m - i);
    }
    SliceIndex(s, i, w, 8 + |ds| + |hex|);
    RunsMatch(s, i, |ds|, |hex|);
  }

  /** A character of a slice is the character of the whole at the shifted index. */
  lemma SliceIndex(s: string, i: nat, w: string, k: nat)
    requires i + |w| <= |s| && s[i..i + |w|] == w
    requires k < |w|
    ensures s[i + k] == w[k]
  {
    assert s[i..i + |w|][k] == s[i + k];
  }

  /** The literal, a digit run ended by `_` and a hexadecimal run ended by `/`
      at `i` make a match of exactly that length: the digit run stops at the `_`,
      the hexadecimal run at the `/`. */
  lemma RunsMatch(s: string, i: nat, d: nat, h: nat)
    requires i + 9 + d + h <= |s| && d > 0 && h > 0
    requires forall k :: 0 <= k < 7 ==> s[i + k] == "output_"[k]
    requires forall m :: i + 7 <= m < i + 7 + d ==> IsDigit(s[m])
    requires s[i + 7 + d] == '_'
    requires forall m :: i + 8 + d <= m < i + 8 + d + h ==> IsLowerHex(s[m])
    requires s[i + 8 + d + h] == '/'
    ensures OutputMatchAt(s, i) == Some(9 + d + h)
  {
    assert s[i..i + 7] == "output_";
    RunLengthExact(s, i + 7, IsDigit, d);
    RunLengthExact(s, i + 8 + d, IsLowerHex, h);
    MatchFromParts(s, i, d, h);
  }

  /** Where the parts of `output_<ds>_<hex>/` sit within it. */
  lemma LiteralLayout(ds: string, hex: string)
    ensures var w := "output_" + ds + "_" + hex + "/";
            && |w| == 9 + |ds| + |hex|
            && w[..7] == "output_"
            && (forall m :: 0 <= m < |ds| ==> w[7 + m] == ds[m])
            && w[7 + |ds|] == '_'
            && (forall m :: 0 <= m < |hex| ==> w[8 + |ds| + m] == hex[m])
            && w[8 + |ds| + |hex|] == '/'
  {
  }

  /** The pattern matches at `i` once its literal, its digit run ended by `_` and
      its hexadecimal run ended by `/` are found there. */
  lemma MatchFromParts(s: string, i: nat, d: nat, h: nat)
    requires OccursAt(s, "output_", i)
    requires d > 0 && RunLength(s, i + 7, IsDigit) == d
    requires i + 7 + d < |s| && s[i + 7 + d] == '_'
    requires h > 0 && RunLength(s, i + 8 + d, IsLowerHex) == h
    requires i + 8 + d + h < |s| && s[i + 8 + d + h] == '/'
    ensures OutputMatchAt(s, i) == Some(9 + d + h)
  {
  }

  /** No match starts inside a match-free `stem + "/"`. */
  lemma NoMatchInStem(stem: string, rest: string, j: nat)
    requires !Contains(stem, "output_")
    requires j <= |stem|
    ensures !OccursAt(stem + "/" + rest, "output_", j)
  {
    var s := stem + "/" + rest;
    if j + 7 <= |stem| {
      assert s[j..j + 7] == stem[j..j + 7];
      assert OccursAt(s, "output_", j) ==> OccursAt(stem, "output_", j);
    } else {
      OccursAtChar(s, "output_", j, |stem| - j);
      assert s[|stem|] == '/';
    }
  }

  /** The build segment right after a match-free `stem + "/"` is the leftmost
      match, and removing it splices the stem onto the rest. */
  lemma RemoveOutputSegment(stem: string, ch: Channel, rest: string)
    requires |ch.suffix| > 0 && AllLowerHex(ch.suffix)
    requires !Contains(stem, "output_")
    ensures RemoveFirstOutput(stem + "/" + OutputSegment(ch) + rest) == stem + "/" + rest
  {
    var seg := OutputSegment(ch);
    var s := stem + "/" + seg + rest;
    var i0 := |stem| + 1;
    SegmentMatches(stem + "/", ch, rest);
    Assoc3(stem + "/", seg, rest);
    forall j: nat | j < i0 ensures OutputMatchAt(s, j).None? {
      NoMatchInStem(stem, seg + rest, j);
    }
    LeftmostMatch(s, i0);
    RemoveMatch(s, i0, |seg|);
    assert s[..i0] == stem + "/";
    assert s[i0 + |seg|..] == rest;
  }

  /** A match with none before it is the leftmost one. */
  lemma LeftmostMatch(s: string, i: nat)
    requires OutputMatchAt(s, i).Some?
    requires forall j: nat :: j < i ==> OutputMatchAt(s, j).None?
    ensures FirstOutputMatch(s, 0) == Some(i)
  {
  }

  /** Removing the leftmost match splices the text around it. */
  lemma RemoveMatch(s: string, i: nat, n: nat)
    requires FirstOutputMatch(s, 0) == Some(i) && OutputMatchAt(s, i) == Some(n)
    ensures i + n <= |s| && RemoveFirstOutput(s) == s[..i] + s[i + n..]
  {
    OutputMatchWithin(s, i);
    assert i + n <= |s|;
    var r := RemoveFirstOutput(s);
    assert r == s[..i] + s[i + n..];
  }

  /** A stem free of `o` cannot contain the segment's literal start. */
  lemma NoLetterO(stem: string)
    requires 'o' !in stem
    ensures !Contains(stem, "output_")
  {
    forall i: nat ensures !OccursAt(stem, "output_", i) {
      OccursAtChar(stem, "output_", i, 0);
    }
  }

  /** For a URL built from the folder of a channel build, normalisation yields
      `Mode/version/client` followed by the rest of the URL: the origin and the
      build segment are gone and nothing else changes. */
  lemma NormalizeBuiltUrl(origin: string, mode: string, version: string, ch: Channel,
                          client: string, tail: string)
    requires !Contains(mode + "/" + version, "output_")
    requires |ch.suffix| > 0 && AllLowerHex(ch.suffix)
    ensures NormalizeFrom(origin, origin + FileFolder(mode, version, ch, client) + tail)
         == mode + "/" + version + "/" + client + tail
  {
    var folder := FileFolder(mode, version, ch, client);
    var seg := OutputSegment(ch);
    var stem := mode + "/" + version;
    var x := folder + tail;
    Assoc3(stem + "/" + seg, client, tail);
    ReplaceFirstAtStart(origin, x, "");
    Assoc3(origin, folder, tail);
    assert "" + x == x;
    RemoveOutputSegment(stem, ch, client + tail);
    Assoc3(stem + "/", client, tail);
  }

  /** The asset URL of a line normalises to `Mode/version/client/[extFolder/]name`. */
  lemma NormalizeAssetUrlFrom(origin: string, mode: string, version: string, ch: Channel,
                              client: string, extFolder: string, name: string)
    requires |origin| > 0 && origin[|origin| - 1] == '/'
    requires FolderShape(origin, mode)
    requires !Contains(mode + "/" + version, "output_")
    requires |ch.suffix| > 0 && AllLowerHex(ch.suffix)
    requires extFolder != "" ==>
      !Contains(FileFolder(mode, version, ch, client) + "/" + extFolder + "/" + name,
                FileFolder(mode, version, ch, client) + "//")
    ensures NormalizeFrom(origin, AssetUrlFrom(origin, FileFolder(mode, version, ch, client), extFolder, name))
         == mode + "/" + version + "/" + client + "/" + SubPath(extFolder) + name
  {
    var folder := FileFolder(mode, version, ch, client);
    var sub := SubPath(extFolder);
    assert folder[0] == mode[0] && folder[1] == mode[1];
    AssetUrlShape(origin, folder, extFolder, name);
    var tail := "/" + sub + name;
    Assoc3(origin + folder, "/" + sub, name);
    Assoc3(origin + folder, "/", sub);
    NormalizeBuiltUrl(origin, mode, version, ch, client, tail);
    var head := mode + "/" + version + "/" + client;
    Assoc3(head, "/" + sub, name);
    Assoc3(head, "/", sub);
  }

  /** Concatenation regroups. */
  lemma Assoc3(a: string, b: string, c: string)
    ensures a + b + c == a + (b + c)
  {
  }

  /** The origin ends with a slash and has no `l`. */
  lemma OriginFacts()
    ensures |Origin| > 0 && Origin[|Origin| - 1] == '/'
    ensures 'l' !in Origin && '_' !in Origin
  {
  }

  /** The asset URL of a line normalises to `Mode/version/client/[extFolder/]name`
      for the two modes of the table and any version label without an `o`
      (such as `5.6_live`), a numeric build and a lower-case hexadecimal suffix. */
  lemma NormalizeAssetUrl(k: Kind, version: string, ch: Channel, client: string,
                          extFolder: string, name: string)
    requires 'o' !in version
    requires |ch.suffix| > 0 && AllLowerHex(ch.suffix)
    requires extFolder != "" ==>
      !Contains(FileFolder(Mode(k), version, ch, client) + "/" + extFolder + "/" + name,
                FileFolder(Mode(k), version, ch, client) + "//")
    ensures Normalize(AssetUrl(FileFolder(Mode(k), version, ch, client), extFolder, name))
         == Mode(k) + "/" + version + "/" + client + "/" + SubPath(extFolder) + name
  {
    OriginFacts();
    ModeQualifies(k, version);
    NormalizeAssetUrlFrom(Origin, Mode(k), version, ch, client, extFolder, name);
  }

  /** The manifest URL normalises to `Mode/version/client/mapper`. */
  lemma NormalizeMapperUrl(k: Kind, version: string, ch: Channel, client: string, mapper: string)
    requires 'o' !in version
    requires |ch.suffix| > 0 && AllLowerHex(ch.suffix)
    ensures Normalize(MapperUrl(FileFolder(Mode(k), version, ch, client), mapper))
         == Mode(k) + "/" + version + "/" + client + "/" + mapper
  {
    var mode := Mode(k);
    var folder := FileFolder(mode, version, ch, client);
    ModeQualifies(k, version);
    assert MapperUrl(folder, mapper) == Origin + folder + ("/" + mapper);
    NormalizeBuiltUrl(Origin, mode, version, ch, client, "/" + mapper);
  }

  /** Both modes of the table begin `cl` and have no `o`. */
  lemma ModeQualifies(k: Kind, version: string)
    requires 'o' !in version
    ensures FolderShape(Origin, Mode(k))
    ensures !Contains(Mode(k) + "/" + version, "output_")
  {
    var mode := Mode(k);
    OriginFacts();
    assert mode[1] == 'l' && 'o' !in mode;
    assert 'o' !in mode + "/" + version;
    NoLetterO(mode + "/" + version);
  }

  /** Normalisation removes only the first occurrence of the origin, so it is
      not idempotent: a URL with the origin twice keeps one copy. */
  lemma NormalizeNotIdempotent()
    ensures Normalize(Normalize(Origin + Origin + "a")) != Normalize(Origin + Origin + "a")
  {
    NormalizeTwice(Origin, "a");
    OriginFacts();
  }

  /** Stripping one origin from a doubled origin leaves the other. */
  lemma NormalizeTwice(origin: string, rest: string)
    requires '_' !in origin && '_' !in rest && |origin| > 0
    ensures NormalizeFrom(origin, origin + origin + rest) == origin + rest
    ensures NormalizeFrom(origin, origin + rest) == rest
  {
    ReplaceFirstAtStart(origin, origin + rest, "");
    assert origin + origin + rest == origin + (origin + rest);
    assert "" + (origin + rest) == origin + rest;
    NoUnderscoreNoMatch(origin + rest);
    ReplaceFirstAtStart(origin, rest, "");
    assert "" + rest == rest;
    NoUnderscoreNoMatch(rest);
  }
}
