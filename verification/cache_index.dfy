/** The crawler's per-version cache record (`loadCache` / `saveCache` in
    `src/util/library.ts`, used by `src/commands/server/gi.ts`): a JSON object
    from asset URL to digest or "not_found". A JavaScript object keeps its
    string keys in insertion order, and the crawler's lookup depends on that
    order, so the record carries it. */
module CacheIndex {
  import opened Wrappers

  /** Keys in insertion order, and the key/value pairs. */
  datatype CacheRecord = CacheRecord(order: seq<string>, entries: map<string, string>)

  /** Each key appears once in the order, and the order lists exactly the keys. */
  predicate Wellformed(c: CacheRecord) {
    && (forall i, j :: 0 <= i < j < |c.order| ==> c.order[i] != c.order[j])
    && (forall k :: k in c.entries ==> k in c.order)
    && (forall i :: 0 <= i < |c.order| ==> c.order[i] in c.entries)
  }

  type Cache = c: CacheRecord | Wellformed(c) witness CacheRecord([], map[])

  /** The sentinel value for an asset the origin does not have. */
  const NotFound: string := "not_found"

  function Empty(): (c: Cache)
    ensures |c.entries| == 0 && |c.order| == 0
  {
    CacheRecord([], map[])
  }

  /** `loadCache`: the stored record, or an empty one when the file cannot be
      read or parsed. */
  function Load(stored: Option<Cache>): (c: Cache)
    ensures stored.None? ==> |c.entries| == 0
    ensures stored.Some? ==> c == stored.value
  {
    stored.GetOr(Empty())
  }

  /** `if (cache[url])`: the key is present with a non-empty string, the only
      string JavaScript treats as true. */
  predicate Hit(c: Cache, url: string) {
    url in c.entries && c.entries[url] != ""
  }

  /** `cache[url] = v`: an existing key keeps its place in the order, a new key
      goes last. */
  function Set(c: Cache, url: string, v: string): (c': Cache)
    ensures c'.entries == c.entries[url := v]
    ensures Extends(c, c')
    ensures url in c.entries ==> c'.order == c.order
    ensures url !in c.entries ==> c'.order == c.order + [url]
  {
    if url in c.entries then CacheRecord(c.order, c.entries[url := v])
    else CacheRecord(c.order + [url], c.entries[url := v])
  }

  /** `c'` keeps every key of `c`, and the order of `c` is a prefix of its own:
      nothing was deleted or moved. */
  predicate Extends(c: Cache, c': Cache) {
    && c.entries.Keys <= c'.entries.Keys
    && |c.order| <= |c'.order| && c'.order[..|c.order|] == c.order
  }

  /** Extension is transitive. */
  lemma ExtendsTrans(a: Cache, b: Cache, c: Cache)
    requires Extends(a, b) && Extends(b, c)
    ensures Extends(a, c)
  {
    PrefixTrans(a.order, b.order, c.order);
  }

  /** A prefix of a prefix is a prefix. */
  lemma PrefixTrans(x: seq<string>, y: seq<string>, z: seq<string>)
    requires |x| <= |y| <= |z| && y[..|x|] == x && z[..|y|] == y
    ensures z[..|x|] == x
  {
    assert z[..|x|] == z[..|y|][..|x|];
  }

  /** The first key in insertion order whose image under `key` is `target`,
      searched from index `i` on (`Object.entries(cache).find(…)`). */
  function FindFrom(c: Cache, key: string -> string, target: string, i: nat): (r: Option<string>)
    ensures r.Some? ==> r.value in c.entries && key(r.value) == target
    ensures r.None? ==> forall j :: i <= j < |c.order| ==> key(c.order[j]) != target
    decreases |c.order| - i
  {
    if i >= |c.order| then None
    else if key(c.order[i]) == target then Some(c.order[i])
    else FindFrom(c, key, target, i + 1)
  }

  /** The key found is the first one, from `i` on, whose image is `target`. */
  lemma {:induction false} FindFromFirst(c: Cache, key: string -> string, target: string, i: nat)
    requires FindFrom(c, key, target, i).Some?
    ensures exists n :: i <= n < |c.order| && c.order[n] == FindFrom(c, key, target, i).value
                        && forall j :: i <= j < n ==> key(c.order[j]) != target
    decreases |c.order| - i
  {
    assert i < |c.order|;
    if key(c.order[i]) != target {
      FindFromFirst(c, key, target, i + 1);
      var n :| i + 1 <= n < |c.order| && c.order[n] == FindFrom(c, key, target, i + 1).value
               && forall j :: i + 1 <= j < n ==> key(c.order[j]) != target;
      assert forall j :: i <= j < n ==> key(c.order[j]) != target;
    }
  }

  /** The first key in insertion order whose image under `key` is `target`. */
  function Find(c: Cache, key: string -> string, target: string): (r: Option<string>)
    ensures r.Some? ==> r.value in c.entries && key(r.value) == target
    ensures r.None? <==> forall k :: k in c.entries ==> key(k) != target
  {
    FindFrom(c, key, target, 0)
  }

  /** When exactly one key has image `target`, that key is the one found. */
  lemma FindUnique(c: Cache, key: string -> string, target: string, k: string)
    requires k in c.entries && key(k) == target
    requires forall k' :: k' in c.entries && key(k') == target ==> k' == k
    ensures Find(c, key, target) == Some(k)
  {
  }

  /** Appending keys at the end does not change which key is found first, once
      one is found. */
  lemma {:induction false} FindStable(c: Cache, c': Cache, key: string -> string, target: string, i: nat)
    requires Extends(c, c')
    requires FindFrom(c, key, target, i).Some?
    ensures FindFrom(c', key, target, i) == FindFrom(c, key, target, i)
    decreases |c.order| - i
  {
    assert i < |c.order|;
    ExtendsAt(c, c', i);
    if key(c.order[i]) != target {
      FindStable(c, c', key, target, i + 1);
    }
  }

  /** An extension keeps every key in its place. */
  lemma ExtendsAt(c: Cache, c': Cache, i: nat)
    requires Extends(c, c') && i < |c.order|
    ensures i < |c'.order| && c'.order[i] == c.order[i]
  {
    assert c'.order[..|c.order|][i] == c'.order[i];
  }
}
