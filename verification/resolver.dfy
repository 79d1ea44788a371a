/** The `Profile_To_Avatar` constructor (avatarplus/url/profile_to_avatar.php:59-73):
    look the url up in the post's cache; on a miss, set the record up,
    derive its avatar url and cache it. */
module Resolver {
  import opened Php
  import opened Record
  import opened Setup
  import opened AvatarUrl
  import opened Cache

  /** Every collaborator of one construction. */
  datatype Env = Env(net: Network, services: Services, hash: string -> string)

  /** The cache after the construction and the object's record (`$this->url`). */
  datatype Built = Built(cache: CacheState, data: UrlData)

  /** The record PHP 5 creates when `setup_url` returned null: assigning
      `avatar_url` on null makes an empty object, whose avatar url is the
      null `get_avatar_url` returns for a missing record. Its url is not set,
      and `md5` of an unset url is `md5('')`. */
  const Blank := UrlData("", None, Unset, None)

  /** The record a miss computes (lines 67-68): `setup_url`, then the avatar
      url as `get_avatar_url` returns it. `None` when the redirect chain
      outran the fuel. */
  function Compute(url: string, size: Value, env: Env, fuel: nat): (r: Option<UrlData>)
    ensures r.None? <==> SetupUrl(env.net, url, fuel).Exhausted?
    ensures r.Some? && Accepts(env.net, url) ==> r.value.url == url && r.value.avatarUrl.Some?
    ensures r.Some? && !Accepts(env.net, url) ==> r.value == Blank
    ensures r.Some? && r.value.avatarUrl.Some? && !EmptyStr(r.value.avatarUrl.value) ==> IsKnownService(r.value.service)
    ensures r.Some? && Accepts(env.net, url) ==>
              var d := SetupUrl(env.net, url, fuel).data;
              && r.value.location == d.location
              && r.value.avatarUrl == Some(GetAvatarUrl(d, size, env.services).avatar)
              && (match HostOf(ResolvedUrl(d))
                  case Some(h) => r.value.service == (if EmptyStr(h) then d.service else ServiceOfHost(h))
                  case None => r.value.service == d.service)
  {
    match SetupUrl(env.net, url, fuel)
    case Rejected => Some(Blank)
    case Exhausted => None
    case Resolved(d) =>
      var step := GetAvatarUrl(d, size, env.services);
      Some(step.data.(avatarUrl := Some(step.avatar)))
  }

  /** `new Profile_To_Avatar($url, $size, $post_id)`. */
  function Construct(s: CacheState, url: string, size: Value, post: int, env: Env, fuel: nat): (r: Option<Built>)
    ensures var o := Open(s, post);
            if env.hash(url) in MemoOf(o, post) then
              r == Some(Built(o.(hits := s.hits + 1), MemoOf(o, post)[env.hash(url)]))
            else
              r.None? <==> SetupUrl(env.net, url, fuel).Exhausted?
    ensures r.Some? ==>
              || (r.value.cache.hits == s.hits + 1 && r.value.cache.misses == s.misses)
              || (r.value.cache.hits == s.hits && r.value.cache.misses == s.misses + 1)
    ensures r.Some? && Accepts(env.net, url) ==> env.hash(url) in MemoOf(r.value.cache, post)
    ensures r.Some? ==> r.value.cache.store == s.store || r.value.cache.store == s.store[post := MemoOf(r.value.cache, post)]
    ensures var o := Open(s, post);
            env.hash(url) !in MemoOf(o, post) && r.Some? ==>
              && Compute(url, size, env, fuel).Some?
              && r.value.data == Normalize(Compute(url, size, env, fuel).value)
              && MemoOf(r.value.cache, post) == MemoOf(o, post)[env.hash(r.value.data.url) := r.value.data]
              && r.value.cache.misses == s.misses + 1 && r.value.cache.hits == s.hits
  {
    var o := Open(s, post);
    var lookup := IsCached(o, post, url, env.hash);
    if lookup.cached then
      Some(Built(lookup.state, GetCachedUrl(lookup.state, post, url, env.hash).value))
    else
      match Compute(url, size, env, fuel)
      case None => None
      case Some(d) =>
        var st := CacheUrl(lookup.state, post, d, env.hash);
        Some(Built(st.state, st.data))
  }

  /** A second construction for the same valid url on the same post is a
      hit: it fetches nothing and yields the record of the first one. */
  lemma SecondConstructionHits(s: CacheState, url: string, size: Value, size2: Value, post: int, env: Env, fuel: nat, fuel2: nat)
    requires Accepts(env.net, url)
    ensures var r := Construct(s, url, size, post, env, fuel);
            r.Some? ==> Construct(r.value.cache, url, size2, post, env, fuel2)
                        == Some(Built(r.value.cache.(hits := r.value.cache.hits + 1), r.value.data))
  {
  }

  /** A url that fails validation is stored, with service false, under the
      hash of the empty url, so later lookups of that url keep missing. */
  lemma RejectedUrlStoredBlank(s: CacheState, url: string, size: Value, post: int, env: Env, fuel: nat)
    requires env.hash(url) !in MemoOf(Open(s, post), post)
    requires !Accepts(env.net, url)
    ensures var r := Construct(s, url, size, post, env, fuel);
            r.Some? && r.value.data == UrlData("", None, False, None)
            && MemoOf(r.value.cache, post) == MemoOf(Open(s, post), post)[env.hash("") := r.value.data]
  {
  }

  /** A fetch that fails does not end the classification: the host of the
      url still decides the service, which replaces the false. */
  lemma FailedFetchStillClassified(scheme: string, host: string, rest: string, size: Value, env: Env, fuel: nat)
    requires scheme == "http://" || scheme == "https://"
    requires |host| >= 1 && NoSlash(host) && host != "0"
    requires Accepts(env.net, scheme + host + "/" + rest)
    requires env.net.fetch(scheme + host + "/" + rest, 0).NetError?
    ensures var r := Compute(scheme + host + "/" + rest, size, env, fuel);
            r.Some? && r.value.service == ServiceOfHost(host) && r.value.location.None?
  {
    HostOfUrl(scheme, host, rest);
  }
}
