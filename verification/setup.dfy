/** `Profile_To_Avatar::setup_url` (avatarplus/url/profile_to_avatar.php:84-176):
    validate the profile url, fetch it, and follow 301/302 redirects by
    calling itself on the `Location` header.

    The network is an oracle: `fetch(url, redirection)` answers with a
    transport error or a status code and an optional `Location` header.
    `setup_url` counts no hops itself: it passes `redirection` 0 to the
    transport on the first request and 5 on every later one, so any bound
    on the chain is the transport's (WordPress' transport follows up to 5
    redirects on its own and answers an error beyond that). The oracle
    leaves the transport unconstrained, so it may answer 301/302 to every
    request; the model bounds its recursion with `fuel`, a modelling device:
    running out of it is the outcome `Exhausted`, which the source never
    produces. */
module Setup {
  import opened Php
  import opened Record

  datatype Response = Response(status: int, location: Option<string>)

  /** `wp_remote_get`'s answer: a `WP_Error`, or a response. */
  datatype Fetched = NetError | Reply(response: Response)

  /** The collaborators `setup_url` consults: the HTTP transport and the
      `FILTER_SANITIZE_URL & FILTER_VALIDATE_URL` check of line 106. */
  datatype Network = Network(fetch: (string, nat) -> Fetched, valid: string -> bool)

  /** Outcome of `setup_url`: null, a record, or (model only) out of fuel. */
  datatype SetupResult = Rejected | Resolved(data: UrlData) | Exhausted

  /** The `#^https?://#Uuis` test of line 100 (letters in any case). */
  predicate HasScheme(url: string) {
    StartsWithCI(url, "http://") || StartsWithCI(url, "https://")
  }

  /** Lines 99-110: the url survives the scheme test and the validation
      filter. A url failing the scheme test is blanked, and a blank url
      never validates, so both failures end in `return null`. */
  predicate Accepts(net: Network, url: string) {
    HasScheme(url) && net.valid(url)
  }

  predicate IsRedirect(status: int) {
    status == 301 || status == 302
  }

  /** Lines 125 and 133: the next location is the header when it is set
      and not empty, otherwise ''. */
  function NextLocation(resp: Response): (r: string)
    ensures r == "" || resp.location == Some(r)
    ensures resp.location.Some? && !EmptyStr(resp.location.value) ==> r == resp.location.value
    ensures r == "" <==> resp.location.None? || EmptyStr(resp.location.value)
  {
    match resp.location
    case Some(l) => if EmptyStr(l) then "" else l
    case None => ""
  }

  /** The `redirection` argument of the request made by hop `i`:
      0 for the first request (line 43), 5 afterwards (line 93). */
  function HopRedirection(i: nat): nat {
    if i == 0 then 0 else 5
  }

  /** The recursive calls of `setup_url` (line 163): `d.location` holds the
      url the previous hop was redirected to; `fuel` is the number of
      recursive calls the model may still make. The record's `url` stays the
      original url: the source overwrites it while recursing but copies the
      original back at line 168. */
  function Follow(net: Network, d: UrlData, fuel: nat): (r: Option<UrlData>)
    requires d.location.Some?
    ensures r.Some? ==> r.value.url == d.url && r.value.avatarUrl == d.avatarUrl && r.value.location.Some?
    ensures r.Some? ==> r.value.service == d.service || r.value.service == False
    decreases fuel
  {
    if fuel == 0 then None
    else
      var here := d.location.value;
      if !Accepts(net, here) then Some(d)
      else match net.fetch(here, 5)
        case NetError => Some(d.(service := False))
        case Reply(resp) =>
          if IsRedirect(resp.status) then Follow(net, d.(location := Some(NextLocation(resp))), fuel - 1)
          else Some(d)
  }

  /** `setup_url` called with the profile url. */
  function SetupUrl(net: Network, url: string, fuel: nat): (r: SetupResult)
    ensures r.Rejected? <==> !Accepts(net, url)
    ensures r.Resolved? ==> r.data.url == url && r.data.avatarUrl.None?
    ensures r.Resolved? ==> r.data.service == Unset || r.data.service == False
    ensures r.Resolved? && r.data.service == Unset ==> r.data.location.Some?
    ensures r.Exhausted? ==> net.fetch(url, 0).Reply? && IsRedirect(net.fetch(url, 0).response.status)
  {
    if !Accepts(net, url) then Rejected
    else match net.fetch(url, 0)
      case NetError => Resolved(UrlData(url, None, False, None))
      case Reply(resp) =>
        if IsRedirect(resp.status) then
          match Follow(net, UrlData(url, Some(NextLocation(resp)), Unset, None), fuel)
          case Some(d) => Resolved(d)
          case None => Exhausted
        else Resolved(UrlData(url, Some(url), Unset, None))
  }

  // ---------------------------------------------------------------------
  // Redirect chains, defined independently of the recursion above.

  /** `u` passes validation and its hop-`i` request answers 301/302. */
  predicate Redirects(net: Network, u: string, i: nat) {
    Accepts(net, u) && net.fetch(u, HopRedirection(i)).Reply?
    && IsRedirect(net.fetch(u, HopRedirection(i)).response.status)
  }

  /** `u`, requested as hop `i`, redirects to `v`. */
  predicate RedirectsTo(net: Network, u: string, i: nat, v: string) {
    Redirects(net, u, i) && NextLocation(net.fetch(u, HopRedirection(i)).response) == v
  }

  /** `hops` is a chain of redirects: each element redirects to the next. */
  predicate IsChain(net: Network, hops: seq<string>) {
    |hops| >= 1 && forall i :: 0 <= i < |hops| - 1 ==> RedirectsTo(net, hops[i], i, hops[i + 1])
  }

  /** The service left by the hop that ends a chain: false exactly when that
      hop passed validation and its request failed at the transport. */
  function EndService(net: Network, u: string, i: nat): Service {
    if Accepts(net, u) && net.fetch(u, HopRedirection(i)).NetError? then False else Unset
  }

  lemma {:induction false} FollowChain(net: Network, hops: seq<string>, j: nat, d: UrlData, fuel: nat)
    requires IsChain(net, hops) && 1 <= j < |hops|
    requires !Redirects(net, hops[|hops| - 1], |hops| - 1)
    requires d.location == Some(hops[j]) && d.service == Unset
    requires fuel >= |hops| - j
    ensures Follow(net, d, fuel) == Some(d.(location := Some(hops[|hops| - 1]), service := EndService(net, hops[|hops| - 1], |hops| - 1)))
    decreases |hops| - j
  {
    if j < |hops| - 1 {
      assert RedirectsTo(net, hops[j], j, hops[j + 1]);
      FollowChain(net, hops, j + 1, d.(location := Some(hops[j + 1])), fuel - 1);
    }
  }

  /** After a chain of redirects the record keeps the first url and holds the
      last url reached as its location; the service is false exactly when
      the request for that last url failed at the transport. */
  lemma ChainResolves(net: Network, hops: seq<string>, fuel: nat)
    requires IsChain(net, hops)
    requires !Redirects(net, hops[|hops| - 1], |hops| - 1)
    requires Accepts(net, hops[0]) && net.fetch(hops[0], 0).Reply?
    requires fuel >= |hops| - 1
    ensures SetupUrl(net, hops[0], fuel)
         == Resolved(UrlData(hops[0], Some(hops[|hops| - 1]), EndService(net, hops[|hops| - 1], |hops| - 1), None))
  {
    if |hops| > 1 {
      assert RedirectsTo(net, hops[0], 0, hops[1]);
      FollowChain(net, hops, 1, UrlData(hops[0], Some(hops[1]), Unset, None), fuel);
    }
  }

  lemma {:induction false} FollowFuelMonotone(net: Network, d: UrlData, fuel: nat, more: nat)
    requires d.location.Some? && Follow(net, d, fuel).Some? && fuel <= more
    ensures Follow(net, d, more) == Follow(net, d, fuel)
    decreases fuel
  {
    var here := d.location.value;
    if Accepts(net, here) && net.fetch(here, 5).Reply? && IsRedirect(net.fetch(here, 5).response.status) {
      FollowFuelMonotone(net, d.(location := Some(NextLocation(net.fetch(here, 5).response))), fuel - 1, more - 1);
    }
  }

  /** Fuel is only a bound: once it suffices, more fuel changes nothing. */
  lemma SetupFuelMonotone(net: Network, url: string, fuel: nat, more: nat)
    requires !SetupUrl(net, url, fuel).Exhausted? && fuel <= more
    ensures SetupUrl(net, url, more) == SetupUrl(net, url, fuel)
  {
    if Accepts(net, url) && net.fetch(url, 0).Reply? && IsRedirect(net.fetch(url, 0).response.status) {
      FollowFuelMonotone(net, UrlData(url, Some(NextLocation(net.fetch(url, 0).response)), Unset, None), fuel, more);
    }
  }

  /** The request for `u` with `redirection` n answers 301/302 and points to a valid url. */
  predicate AlwaysOnward(net: Network, u: string, n: nat) {
    net.fetch(u, n).Reply? && IsRedirect(net.fetch(u, n).response.status)
    && Accepts(net, NextLocation(net.fetch(u, n).response))
  }

  lemma {:induction false} EndlessFollow(net: Network, d: UrlData, fuel: nat)
    requires forall u: string, n: nat :: Accepts(net, u) ==> AlwaysOnward(net, u, n)
    requires d.location.Some? && Accepts(net, d.location.value)
    ensures Follow(net, d, fuel).None?
    decreases fuel
  {
    if fuel > 0 {
      var here := d.location.value;
      assert AlwaysOnward(net, here, 5);
      EndlessFollow(net, d.(location := Some(NextLocation(net.fetch(here, 5).response))), fuel - 1);
    }
  }

  /** `setup_url` counts no hops: for a transport that answers every valid
      url with a redirect to another valid url, no amount of fuel reaches a
      record. */
  lemma EndlessRedirectsNeverResolve(net: Network, url: string, fuel: nat)
    requires forall u: string, n: nat :: Accepts(net, u) ==> AlwaysOnward(net, u, n)
    requires Accepts(net, url)
    ensures SetupUrl(net, url, fuel) == Exhausted
  {
    assert AlwaysOnward(net, url, 0);
    EndlessFollow(net, UrlData(url, Some(NextLocation(net.fetch(url, 0).response)), Unset, None), fuel);
  }
}
