/** The per-post result cache (avatarplus/cache/cache.php).

    The static in-process array `Cache::$cache`, the post meta stored under
    the `cachingkey` option and the two static counters are one explicit
    state value threaded through every operation. A `Cache` object is just
    the post id it was built for, so each operation takes that id. `md5` is
    the parameter `hash`, about which nothing is assumed. */
module Cache {
  import opened Php
  import opened Record

  /** The records cached for one post, keyed by the hash of their url. */
  type PostCache = map<string, UrlData>

  /** `memo`: the static array `Cache::$cache`; `store`: the post meta;
      `hits` and `misses`: the static counters. */
  datatype CacheState = CacheState(memo: map<int, PostCache>, store: map<int, PostCache>, hits: nat, misses: nat)

  /** The process starts with nothing in memory and both counters at zero. */
  function Fresh(store: map<int, PostCache>): CacheState {
    CacheState(map[], store, 0, 0)
  }

  /** `self::$cache[$post]`, read as an empty array when it is not set. */
  function MemoOf(s: CacheState, post: int): PostCache {
    if post in s.memo then s.memo[post] else map[]
  }

  /** `read_cache`: the post meta, or an empty cache when there is none
      (`get_post_meta` answers '', which behaves as an empty array here). */
  function ReadCache(s: CacheState, post: int): (r: PostCache)
    ensures post in s.store ==> r == s.store[post]
    ensures post !in s.store ==> r == map[]
  {
    if post in s.store then s.store[post] else map[]
  }

  /** `write_cache`: the post's whole in-memory map replaces its post meta. */
  function WriteCache(s: CacheState, post: int): (r: CacheState)
    ensures r.memo == s.memo && r.hits == s.hits && r.misses == s.misses
    ensures post in r.store && r.store[post] == MemoOf(s, post)
    ensures forall p :: p != post ==> (p in r.store <==> p in s.store)
    ensures forall p :: p != post && p in s.store ==> r.store[p] == s.store[p]
  {
    s.(store := s.store[post := MemoOf(s, post)])
  }

  /** `reset_cache`: delete the post meta of the post; memory is untouched. */
  function ResetCache(s: CacheState, post: int): (r: CacheState)
    ensures r.memo == s.memo && r.hits == s.hits && r.misses == s.misses
    ensures post !in r.store
    ensures forall p :: p != post ==> (p in r.store <==> p in s.store)
    ensures forall p :: p != post && p in s.store ==> r.store[p] == s.store[p]
  {
    s.(store := s.store - {post})
  }

  /** The constructor (lines 64-73): the post meta is loaded into memory only
      when the post's in-memory map is empty. */
  function Open(s: CacheState, post: int): (r: CacheState)
    ensures r.store == s.store && r.hits == s.hits && r.misses == s.misses
    ensures MemoOf(s, post) != map[] ==> r == s
    ensures MemoOf(s, post) == map[] ==> MemoOf(r, post) == ReadCache(s, post)
    ensures forall p :: p != post ==> MemoOf(r, p) == MemoOf(s, p)
  {
    if MemoOf(s, post) == map[] then s.(memo := s.memo[post := ReadCache(s, post)]) else s
  }

  /** Answer of an operation that also moves the counters. */
  datatype Answer = Answer(state: CacheState, cached: bool)

  /** `is_cached` (lines 80-87): a hit is counted exactly when an entry exists. */
  function IsCached(s: CacheState, post: int, url: string, hash: string -> string): (r: Answer)
    ensures r.cached <==> hash(url) in MemoOf(s, post)
    ensures r.state.hits == (if r.cached then s.hits + 1 else s.hits)
    ensures r.state.memo == s.memo && r.state.store == s.store && r.state.misses == s.misses
  {
    if hash(url) in MemoOf(s, post) then Answer(s.(hits := s.hits + 1), true)
    else Answer(s, false)
  }

  /** `get_cached_url` (lines 94-99): the stored record or null; no counter moves. */
  function GetCachedUrl(s: CacheState, post: int, url: string, hash: string -> string): (r: Option<UrlData>)
    ensures r.Some? <==> hash(url) in MemoOf(s, post)
    ensures r.Some? ==> r.value == MemoOf(s, post)[hash(url)]
  {
    var m := MemoOf(s, post);
    if hash(url) in m then Some(m[hash(url)]) else None
  }

  /** Line 109-111: a record with no avatar url and no service is stored with service false. */
  function Normalize(d: UrlData): (r: UrlData)
    ensures r.url == d.url && r.location == d.location && r.avatarUrl == d.avatarUrl
    ensures r.service == (if d.service == Unset && (d.avatarUrl.None? || EmptyStr(d.avatarUrl.value)) then False else d.service)
  {
    if (d.avatarUrl.None? || EmptyStr(d.avatarUrl.value)) && d.service == Unset then d.(service := False) else d
  }

  /** The state after `cache_url` and the record as it was stored. */
  datatype Stored = Stored(state: CacheState, data: UrlData)

  /** `cache_url` (lines 106-121). */
  function CacheUrl(s: CacheState, post: int, d: UrlData, hash: string -> string): (r: Stored)
    ensures r.data == Normalize(d)
    ensures r.state.misses == s.misses + 1 && r.state.hits == s.hits
    ensures MemoOf(r.state, post) == MemoOf(s, post)[hash(d.url) := r.data]
    ensures forall p :: p != post ==> MemoOf(r.state, p) == MemoOf(s, p)
    ensures post in r.state.store && r.state.store[post] == MemoOf(r.state, post)
    ensures forall p :: p != post ==> (p in r.state.store <==> p in s.store)
    ensures forall p :: p != post && p in s.store ==> r.state.store[p] == s.store[p]
  {
    var stored := Normalize(d);
    var s1 := s.(memo := s.memo[post := MemoOf(s, post)[hash(d.url) := stored]], misses := s.misses + 1);
    Stored(WriteCache(s1, post), stored)
  }

  /** Storing a record and asking for its url on the same post finds it: the
      lookup counts one hit and returns the record as stored. */
  lemma CacheThenLookup(s: CacheState, post: int, d: UrlData, hash: string -> string)
    ensures var st := CacheUrl(s, post, d, hash);
            IsCached(st.state, post, d.url, hash) == Answer(st.state.(hits := s.hits + 1), true)
            && GetCachedUrl(st.state, post, d.url, hash) == Some(st.data)
  {
  }

  /** A record that already has an avatar url or a service is stored as it is. */
  lemma CacheKeepsService(s: CacheState, post: int, d: UrlData, hash: string -> string)
    requires d.service != Unset || (d.avatarUrl.Some? && !EmptyStr(d.avatarUrl.value))
    ensures CacheUrl(s, post, d, hash).data == d
  {
  }

  /** Caching touches one key of one post: every other lookup answers as before. */
  lemma CacheUrlFrame(s: CacheState, post: int, d: UrlData, hash: string -> string, p: int, url: string)
    requires p != post || hash(url) != hash(d.url)
    ensures GetCachedUrl(CacheUrl(s, post, d, hash).state, p, url, hash) == GetCachedUrl(s, p, url, hash)
  {
  }

  /** Opening a post that already holds entries never replaces them, even
      when the post meta differs. */
  lemma OpenKeepsMemo(s: CacheState, post: int, url: string, hash: string -> string)
    requires hash(url) in MemoOf(s, post)
    ensures GetCachedUrl(Open(s, post), post, url, hash) == GetCachedUrl(s, post, url, hash)
  {
  }

  /** After a reset the next process that opens the post starts empty,
      while the current process keeps answering from memory. */
  lemma ResetThenOpen(s: CacheState, post: int, url: string, hash: string -> string)
    ensures GetCachedUrl(ResetCache(s, post), post, url, hash) == GetCachedUrl(s, post, url, hash)
    ensures GetCachedUrl(Open(Fresh(ResetCache(s, post).store), post), post, url, hash) == None
  {
  }
}
