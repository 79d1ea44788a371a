/** Cache expiry (avatarplus.php:428-478): the configured (value, period)
    pair becomes a number of seconds, and the cached records of every post
    dated before `now - seconds` are deleted. Posts are a map from id to
    their GMT date as an integer timestamp; their cache meta is the cache
    store of the `Cache` module. */
module Expiry {
  import opened Php
  import opened Cache

  const DaySeconds := 86400
  const WeekSeconds := 7 * DaySeconds
  const MonthSeconds := 30 * DaySeconds
  const YearSeconds := 365 * DaySeconds

  /** The `$transform` table (lines 446-451): note the singular 'month'. */
  function PeriodSeconds(period: string): (r: Option<int>)
    ensures r.Some? <==> period in {"days", "weeks", "month", "years"}
  {
    if period == "days" then Some(DaySeconds)
    else if period == "weeks" then Some(WeekSeconds)
    else if period == "month" then Some(MonthSeconds)
    else if period == "years" then Some(YearSeconds)
    else None
  }

  /** Lines 453-454: seconds of the configured expiry, 0 for an unknown period. */
  function ExpirySeconds(period: Value, value: Value): (r: int)
    ensures ToStr(period) == "days" ==> r == 86400 * ToInt(value)
    ensures ToStr(period) == "weeks" ==> r == 604800 * ToInt(value)
    ensures ToStr(period) == "month" ==> r == 2592000 * ToInt(value)
    ensures ToStr(period) == "years" ==> r == 31536000 * ToInt(value)
    ensures ToStr(period) !in {"days", "weeks", "month", "years"} ==> r == 0
  {
    match PeriodSeconds(ToStr(period))
    case Some(unit) => unit * ToInt(value)
    case None => 0
  }

  /** The form's plural 'months' is not in the table: no expiry at all. */
  lemma MonthsNeverExpires(value: Value)
    ensures ExpirySeconds(VStr("months"), value) == 0
  {
  }

  /** The default setting, 30 days, as the validator stores it (the string
      "30"), keeps a post's cache for 2592000 seconds, one 'month'. */
  lemma DefaultExpiry()
    ensures ExpirySeconds(VStr("days"), VStr(IntToString(30))) == ExpirySeconds(VStr("month"), VInt(1)) == 2592000
  {
    IntStringRoundTrip(30);
  }

  /** A row of the posts table: its id and its GMT date as a timestamp. */
  datatype PostRow = PostRow(id: int, date: int)

  /** No id occurs twice. */
  predicate Distinct(ids: seq<int>) {
    forall i, j :: 0 <= i < j < |ids| ==> ids[i] != ids[j]
  }

  /** The posts table has one row per id. */
  predicate UniqueIds(posts: seq<PostRow>) {
    forall i, j :: 0 <= i < j < |posts| ==> posts[i].id != posts[j].id
  }

  /** The ids the SQL query of lines 461-462 selects, in table order. */
  function OldPosts(posts: seq<PostRow>, cutoff: int): (r: seq<int>)
    ensures |r| <= |posts|
    ensures forall id :: id in r <==> exists i :: 0 <= i < |posts| && posts[i].id == id && posts[i].date < cutoff
  {
    if |posts| == 0 then []
    else
      var rest := OldPosts(posts[1..], cutoff);
      assert forall i :: 0 < i < |posts| ==> posts[i] == posts[1..][i - 1];
      if posts[0].date < cutoff then [posts[0].id] + rest else rest
  }

  lemma {:induction false} OldPostsUnique(posts: seq<PostRow>, cutoff: int)
    requires UniqueIds(posts)
    ensures Distinct(OldPosts(posts, cutoff))
  {
    if |posts| > 0 {
      assert UniqueIds(posts[1..]) by {
        forall i, j | 0 <= i < j < |posts[1..]|
          ensures posts[1..][i].id != posts[1..][j].id
        {
          assert posts[1..][i] == posts[i + 1] && posts[1..][j] == posts[j + 1];
        }
      }
      OldPostsUnique(posts[1..], cutoff);
      var rest := OldPosts(posts[1..], cutoff);
      forall k | 0 <= k < |rest|
        ensures rest[k] != posts[0].id
      {
        assert rest[k] in rest;
        var i :| 0 <= i < |posts[1..]| && posts[1..][i].id == rest[k];
        assert posts[i + 1].id == rest[k];
      }
    }
  }

  /** `! empty( get_post_meta( $id, $metakey, true ) )`. */
  predicate HasCache(store: map<int, PostCache>, id: int) {
    id in store && store[id] != map[]
  }

  /** The ids among `ids` whose cache meta the loop deletes, in order. */
  function Deletable(ids: seq<int>, store: map<int, PostCache>): (r: seq<int>)
    ensures |r| <= |ids|
    ensures forall id :: id in r <==> id in ids && HasCache(store, id)
  {
    if |ids| == 0 then []
    else
      var last := ids[|ids| - 1];
      var front := ids[..|ids| - 1];
      assert ids == front + [last];
      Deletable(front, store) + (if HasCache(store, last) then [last] else [])
  }

  /** The ids whose cache meta the loop deletes, as a set. */
  function Gone(ids: seq<int>, store: map<int, PostCache>): set<int> {
    set id | id in ids && HasCache(store, id)
  }

  datatype Counter = Counter(found: nat, deleted: nat)

  /** One iteration of the loop: the next id joins the deleted ones exactly
      when it holds a cache, which no earlier iteration removed. */
  lemma DeleteStep(ids: seq<int>, i: nat, store: map<int, PostCache>)
    requires i < |ids| && Distinct(ids)
    ensures ids[i] !in ids[..i]
    ensures Deletable(ids[..i + 1], store)
            == Deletable(ids[..i], store) + (if HasCache(store, ids[i]) then [ids[i]] else [])
    ensures Gone(ids[..i + 1], store) == Gone(ids[..i], store) + (if HasCache(store, ids[i]) then {ids[i]} else {})
  {
    assert ids[..i + 1][..i] == ids[..i];
    assert ids[..i + 1] == ids[..i] + [ids[i]];
    assert forall k :: 0 <= k < i ==> ids[..i][k] == ids[k] != ids[i];
  }

  /** The loop of lines 466-474 over the selected posts: every post is
      counted as found; the cache meta of those that hold one is deleted
      and counted. */
  method DeleteCaches(ids: seq<int>, store: map<int, PostCache>) returns (counter: Counter, store': map<int, PostCache>)
    requires Distinct(ids)
    ensures counter.found == |ids|
    ensures counter.deleted == |Deletable(ids, store)| <= counter.found
    ensures store' == store - Gone(ids, store)
  {
    var found, deleted := 0, 0;
    store' := store;
    for i := 0 to |ids|
      invariant found == i
      invariant deleted == |Deletable(ids[..i], store)|
      invariant store' == store - Gone(ids[..i], store)
    {
      DeleteStep(ids, i, store);
      found := found + 1;
      if HasCache(store', ids[i]) {
        store' := store' - {ids[i]};
        deleted := deleted + 1;
      }
    }
    assert ids[..|ids|] == ids;
    counter := Counter(found, deleted);
  }

  /** `cleanup_cache`: `None` is the `false` returned when the expiry is 0
      seconds. Otherwise every post dated before `now - seconds` is found,
      and the cache meta of those that hold one is deleted and counted. */
  method CleanupCache(now: int, period: Value, value: Value, posts: seq<PostRow>, store: map<int, PostCache>)
    returns (counter: Option<Counter>, store': map<int, PostCache>)
    requires UniqueIds(posts)
    ensures counter.None? <==> ExpirySeconds(period, value) == 0
    ensures counter.None? ==> store' == store
    ensures counter.Some? ==>
              var cutoff := now - ExpirySeconds(period, value);
              && counter.value.found == |OldPosts(posts, cutoff)|
              && counter.value.deleted == |Deletable(OldPosts(posts, cutoff), store)|
              && store' == store - Gone(OldPosts(posts, cutoff), store)
  {
    var seconds := ExpirySeconds(period, value);
    if seconds == 0 {
      return None, store;
    }
    var cutoff := now - seconds;
    var selected := OldPosts(posts, cutoff);
    OldPostsUnique(posts, cutoff);
    var c;
    c, store' := DeleteCaches(selected, store);
    assert c.found == |selected| && c.deleted == |Deletable(selected, store)|;
    counter := Some(c);
  }

  /** Posts that hold no cache give nothing to delete. */
  lemma {:induction false} NothingToDelete(ids: seq<int>, store: map<int, PostCache>)
    requires forall k :: 0 <= k < |ids| ==> !HasCache(store, ids[k])
    ensures Deletable(ids, store) == []
    decreases |ids|
  {
    if |ids| > 0 {
      NothingToDelete(ids[..|ids| - 1], store);
    }
  }

  /** A second cleanup over the same posts finds no cache left to delete. */
  lemma CleanupTwiceDeletesNothing(ids: seq<int>, store: map<int, PostCache>)
    ensures Deletable(ids, store - Gone(ids, store)) == []
  {
    var after := store - Gone(ids, store);
    assert forall k :: 0 <= k < |ids| ==> ids[k] in ids && !HasCache(after, ids[k]);
    NothingToDelete(ids, after);
  }

  /** A post dated at or after the cutoff keeps its cache meta. */
  lemma RecentPostKeepsCache(posts: seq<PostRow>, cutoff: int, store: map<int, PostCache>, k: nat)
    requires UniqueIds(posts) && k < |posts| && posts[k].date >= cutoff
    ensures posts[k].id !in Gone(OldPosts(posts, cutoff), store)
    ensures posts[k].id in store ==> (store - Gone(OldPosts(posts, cutoff), store))[posts[k].id] == store[posts[k].id]
  {
  }
}
