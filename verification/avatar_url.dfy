/** Avatar url derivation (avatarplus/url/profile_to_avatar.php:205-360):
    `get_avatar_url` pulls the host out of the resolved url, classifies the
    service and calls the per-service derivation.

    The Google+ people API request and `json_decode` of its body are one
    oracle from (user id, api key) to the optional `image.url`; `parse_url`'s
    path component is another oracle. */
module AvatarUrl {
  import opened Php
  import opened Record

  /** Collaborators of the derivations: the `gplus_apikey` option ('' when
      absent), the Google+ lookup and `parse_url($url)['path']`. */
  datatype Services = Services(apiKey: string, gplusImage: (string, string) -> Option<string>, urlPath: string -> Option<string>)

  /** Result of `get_avatar_url`: the updated record and the returned url. */
  datatype AvatarStep = AvatarStep(data: UrlData, avatar: string)

  // ---------------------------------------------------------------------
  // Host extraction: the pattern `#https?://(.+)/#Uuis` (line 216).

  /** Length of an `http://` or `https://` at the front of `s`, letters in any case; 0 if none. */
  function SchemeLength(s: string): (n: nat)
    ensures n == 0 || n == 7 || n == 8
    ensures n <= |s|
    ensures n > 0 ==> s[n - 1] == '/' && s[n - 2] == '/' && s[n - 3] == ':'
    ensures n > 0 ==> Lower(s[0]) == 'h'
  {
    if StartsWithCI(s, "http://") then 7
    else if StartsWithCI(s, "https://") then 8
    else 0
  }

  /** The first '/' in `t` at index `from` or later. */
  function FindSlash(t: string, from: nat): (r: Option<nat>)
    requires from <= |t|
    ensures r.Some? ==> from <= r.value < |t| && t[r.value] == '/'
    ensures r.Some? ==> forall k :: from <= k < r.value ==> t[k] != '/'
    ensures r.None? ==> forall k :: from <= k < |t| ==> t[k] != '/'
    decreases |t| - from
  {
    if from == |t| then None
    else if t[from] == '/' then Some(from)
    else FindSlash(t, from + 1)
  }

  /** A match of the pattern that starts at index 0 of `s`: the lazy `(.+)`
      takes the shortest non-empty text that is followed by a '/'. */
  function HostAt(s: string): (r: Option<string>)
    ensures SchemeLength(s) == 0 ==> r.None?
    ensures r.Some? ==> |r.value| >= 1 && NoSlash(r.value[1..])
    ensures r.Some? ==>
              var n := SchemeLength(s);
              n + |r.value| < |s| && s[n..n + |r.value|] == r.value && s[n + |r.value|] == '/'
  {
    var n := SchemeLength(s);
    if n == 0 || n == |s| then None
    else match FindSlash(s[n..], 1)
      case Some(j) => Some(s[n..][..j])
      case None => None
  }

  /** The pattern is not anchored: the leftmost match wins. */
  function HostOf(s: string): (r: Option<string>)
    ensures r.Some? ==> |r.value| >= 1 && NoSlash(r.value[1..])
    decreases |s|
  {
    if |s| == 0 then None
    else match HostAt(s)
      case Some(h) => Some(h)
      case None => HostOf(s[1..])
  }

  /** A found host is the match at the first index where one starts, so it
      follows an http(s) scheme and is followed by '/'. */
  lemma {:induction false} HostOfFound(s: string)
    ensures HostOf(s).Some? ==> exists i :: 0 <= i < |s| && HostAt(s[i..]) == HostOf(s) && NoMatchBefore(s, i)
    decreases |s|
  {
    assert s[0..] == s;
    if |s| > 0 && HostAt(s).None? && HostOf(s).Some? {
      HostOfFound(s[1..]);
      var i :| 0 <= i < |s[1..]| && HostAt(s[1..][i..]) == HostOf(s[1..]) && NoMatchBefore(s[1..], i);
      assert HostOf(s) == HostOf(s[1..]);
      assert s[1..][i..] == s[i + 1..];
      forall j | 0 <= j < i + 1 && j <= |s|
        ensures HostAt(s[j..]).None?
      {
        if j > 0 {
          assert s[1..][j - 1..] == s[j..];
        }
      }
      assert HostAt(s[i + 1..]) == HostOf(s);
    }
  }

  /** No host is found only when no match starts anywhere. */
  lemma {:induction false} HostOfMissing(s: string)
    ensures HostOf(s).None? ==> NoMatchBefore(s, |s| + 1)
    decreases |s|
  {
    assert s[0..] == s;
    if |s| > 0 && HostOf(s).None? {
      HostOfMissing(s[1..]);
      assert forall j :: 1 <= j <= |s| ==> s[1..][j - 1..] == s[j..];
    }
  }

  /** Text in which no http(s) scheme starts has no host. */
  lemma NoSchemeNoHost(s: string)
    requires forall i :: 0 <= i <= |s| ==> SchemeLength(s[i..]) == 0
    ensures HostOf(s).None?
  {
    HostOfFound(s);
  }

  /** No match of the pattern starts before index `i`. */
  predicate NoMatchBefore(s: string, i: nat) {
    forall j :: 0 <= j < i && j <= |s| ==> HostAt(s[j..]).None?
  }

  /** Text without a ':' has no scheme and so no host: a relative redirect
      location such as `/login/` is not classified. */
  lemma NoColonNoHost(s: string)
    requires forall k :: 0 <= k < |s| ==> s[k] != ':'
    ensures HostOf(s).None?
  {
    NoSchemeNoHost(s);
    forall i | 0 <= i <= |s|
      ensures SchemeLength(s[i..]) == 0
    {
    }
  }

  /** For a url written as scheme, host, '/', rest, the host is the text
      between the scheme and the first '/' after it. */
  lemma HostOfUrl(scheme: string, host: string, rest: string)
    requires scheme == "http://" || scheme == "https://"
    requires |host| >= 1 && NoSlash(host)
    ensures HostOf(scheme + host + "/" + rest) == Some(host)
  {
    var s := scheme + host + "/" + rest;
    assert s[..|scheme|] == scheme;
    if scheme == "http://" {
      assert StartsWithCI(s, "http://");
    } else {
      assert s[4] == 's';
      assert !StartsWithCI(s, "http://");
      assert StartsWithCI(s, "https://");
    }
    var t := s[|scheme|..];
    assert t == host + "/" + rest;
    assert t[|host|] == '/';
    assert FindSlash(t, 1) == Some(|host|) by { FindSlashSkips(t, 1, |host|); }
    assert t[..|host|] == host;
    assert HostAt(s) == Some(host);
  }

  lemma {:induction false} FindSlashSkips(t: string, from: nat, j: nat)
    requires from <= j < |t| && t[j] == '/'
    requires forall k :: from <= k < j ==> t[k] != '/'
    ensures FindSlash(t, from) == Some(j)
    decreases j - from
  {
    if from < j {
      FindSlashSkips(t, from + 1, j);
    }
  }

  /** No '/' after the scheme: the pattern finds no host, so `get_avatar_url`
      leaves the service untouched. */
  lemma NoSlashNoHost(scheme: string, t: string)
    requires scheme == "http://" || scheme == "https://"
    requires NoSlash(t)
    ensures HostOf(scheme + t) == None
  {
    var s := scheme + t;
    forall i | 0 <= i <= |s|
      ensures HostOf(s[i..]) == None
    {
      NoHostFrom(s, |scheme|, i);
    }
    assert s[0..] == s;
  }

  /** Every suffix of `s` from index `i` on has no match, when no '/' follows
      index `p` and no scheme can start at 1..p-1. */
  lemma {:induction false} NoHostFrom(s: string, p: nat, i: nat)
    requires 7 <= p <= |s| && (s[..p] == "http://" || s[..p] == "https://")
    requires forall k :: p <= k < |s| ==> s[k] != '/'
    requires i <= |s|
    ensures HostOf(s[i..]) == None
    decreases |s| - i
  {
    if i < |s| {
      NoHostFrom(s, p, i + 1);
      assert s[i..][1..] == s[i + 1..];
      var u := s[i..];
      var n := SchemeLength(u);
      if n > 0 && i == 0 {
        assert u[n..] == s[n..];
        if n == p && n < |s| {
          assert FindSlash(s[n..], 1).None?;
        }
      }
    }
  }

  /** Line 220-239: the service a host maps to. */
  function ServiceOfHost(h: string): (s: Service)
    ensures s == GooglePlus <==> h == "plus.google.com"
    ensures s == Facebook <==> h == "www.facebook.com"
    ensures s == Twitter <==> h == "twitter.com"
    ensures s == Unknown <==> !IsKnownService(s)
  {
    if h == "plus.google.com" then GooglePlus
    else if h == "www.facebook.com" then Facebook
    else if h == "twitter.com" then Twitter
    else Unknown
  }

  // ---------------------------------------------------------------------
  // Google+ (lines 258-306).

  /** Length of the longest all-digit suffix of `s`. */
  function DigitSuffixLength(s: string): (n: nat)
    ensures n <= |s| && AllDigits(s[|s| - n..])
    ensures n < |s| ==> !IsDigit(s[|s| - n - 1])
    decreases |s|
  {
    if |s| > 0 && IsDigit(s[|s| - 1]) then 1 + DigitSuffixLength(s[..|s| - 1]) else 0
  }

  lemma {:induction false} DigitSuffixOf(a: string, digits: string)
    requires AllDigits(digits)
    requires |a| > 0 ==> !IsDigit(a[|a| - 1])
    ensures DigitSuffixLength(a + digits) == |digits|
    decreases |digits|
  {
    if |digits| > 0 {
      assert (a + digits)[..|a + digits| - 1] == a + digits[..|digits| - 1];
      DigitSuffixOf(a, digits[..|digits| - 1]);
    } else {
      assert a + digits == a;
    }
  }

  /** `#/(\d{5,})/?$#`: a run of at least five digits right after a '/'
      at the very end of the url, one trailing '/' allowed. */
  function GPlusUserId(url: string): (r: Option<string>)
    ensures r.Some? ==> |r.value| >= 5 && AllDigits(r.value)
  {
    var body := if |url| > 0 && url[|url| - 1] == '/' then url[..|url| - 1] else url;
    var n := DigitSuffixLength(body);
    if n >= 5 && n < |body| && body[|body| - n - 1] == '/' then Some(body[|body| - n..]) else None
  }

  /** A user id found is the digit run after the url's last-but-trailing '/'. */
  lemma GPlusUserIdFound(url: string)
    requires GPlusUserId(url).Some?
    ensures exists prefix, tail :: (tail == "" || tail == "/") && url == prefix + "/" + GPlusUserId(url).value + tail
  {
    var body := if |url| > 0 && url[|url| - 1] == '/' then url[..|url| - 1] else url;
    var n := DigitSuffixLength(body);
    var tail := if |url| > 0 && url[|url| - 1] == '/' then "/" else "";
    assert url == body + tail;
    assert body == body[..|body| - n - 1] + "/" + body[|body| - n..];
    assert url == body[..|body| - n - 1] + "/" + GPlusUserId(url).value + tail;
  }

  /** Every url of the shape prefix '/' digits (at least five), optionally
      followed by '/', yields those digits as the user id. */
  lemma GPlusUserIdOf(prefix: string, digits: string, tail: string)
    requires |digits| >= 5 && AllDigits(digits) && (tail == "" || tail == "/")
    ensures GPlusUserId(prefix + "/" + digits + tail) == Some(digits)
  {
    var url := prefix + "/" + digits + tail;
    var body := prefix + "/" + digits;
    if tail == "/" {
      assert url[..|url| - 1] == body;
    } else {
      assert url == body;
      assert IsDigit(digits[|digits| - 1]);
    }
    DigitSuffixOf(prefix + "/", digits);
    assert body[|body| - |digits|..] == digits;
  }

  /** `preg_replace('#(sz)=(\d+)$#Uuis', "$1={$size}", $url)`: a trailing
      `sz=<digits>` (the letters in any case, kept as written) gets the
      requested size; any other url is returned unchanged. */
  function RewriteSize(img: string, size: int): (r: string)
    ensures var p := |img| - DigitSuffixLength(img);
            r == img || (DigitSuffixLength(img) >= 1 && r == img[..p] + IntToString(size))
  {
    var n := DigitSuffixLength(img);
    var p := |img| - n;
    if n >= 1 && p >= 3 && Lower(img[p - 3]) == 's' && Lower(img[p - 2]) == 'z' && img[p - 1] == '='
    then img[..p] + IntToString(size)
    else img
  }

  /** An image url ending in `sz=<digits>` ends in `sz=<size>` after the rewrite. */
  lemma RewriteSizeMarker(pre: string, tag: string, digits: string, size: int)
    requires EqualsCI(tag, "sz") && |digits| >= 1 && AllDigits(digits)
    ensures RewriteSize(pre + tag + "=" + digits, size) == pre + tag + "=" + IntToString(size)
  {
    var img := pre + tag + "=" + digits;
    DigitSuffixOf(pre + tag + "=", digits);
    assert img[..|img| - |digits|] == pre + tag + "=";
  }

  /** The rewrite changes only an image url that ends in `sz=<digits>`. */
  lemma RewriteSizeOnlyMarked(img: string, size: int)
    ensures RewriteSize(img, size) != img ==>
      exists pre, tag, digits :: EqualsCI(tag, "sz") && |digits| >= 1 && AllDigits(digits)
                                && img == pre + tag + "=" + digits
  {
    if RewriteSize(img, size) != img {
      var n := DigitSuffixLength(img);
      var p := |img| - n;
      assert n >= 1 && p >= 3 && Lower(img[p - 3]) == 's' && Lower(img[p - 2]) == 'z' && img[p - 1] == '=';
      SplitAtMarker(img, p);
      var tag := img[p - 3..p - 1];
      assert EqualsCI(tag, "sz");
      assert AllDigits(img[p..]);
    }
  }

  lemma SplitAtMarker(img: string, p: nat)
    requires 3 <= p <= |img| && img[p - 1] == '='
    ensures img == img[..p - 3] + img[p - 3..p - 1] + "=" + img[p..]
  {
    assert img[..p - 1] == img[..p - 3] + img[p - 3..p - 1];
    assert img[p - 1..] == "=" + img[p..];
    assert img == img[..p - 1] + img[p - 1..];
  }

  /** Line 271: the size used in the rewrite, 96 when it is not an integer. */
  function GPlusSize(size: Value): int {
    if size.VInt? then size.i else 96
  }

  /** `get_gplus_avatar_url`. */
  function GPlusAvatarUrl(url: string, size: Value, svc: Services): (r: string)
    ensures EmptyStr(svc.apiKey) || EmptyStr(url) ==> r == ""
    ensures GPlusUserId(url).None? ==> r == ""
    ensures r != "" ==> !EmptyStr(svc.apiKey) && GPlusUserId(url).Some?
                        && svc.gplusImage(GPlusUserId(url).value, svc.apiKey).Some?
    ensures !EmptyStr(svc.apiKey) && !EmptyStr(url) && GPlusUserId(url).Some?
            && svc.gplusImage(GPlusUserId(url).value, svc.apiKey).Some?
            && !EmptyStr(svc.gplusImage(GPlusUserId(url).value, svc.apiKey).value)
            ==> r == RewriteSize(svc.gplusImage(GPlusUserId(url).value, svc.apiKey).value, GPlusSize(size))
  {
    if EmptyStr(svc.apiKey) || EmptyStr(url) then ""
    else match GPlusUserId(url)
      case None => ""
      case Some(id) =>
        match svc.gplusImage(id, svc.apiKey)
        case None => ""
        case Some(img) => if EmptyStr(img) then img else RewriteSize(img, GPlusSize(size))
  }

  // ---------------------------------------------------------------------
  // Facebook (lines 313-333) and Twitter (lines 341-360).

  /** `get_facebook_avatar_url`: the whole path, trimmed of '/', is the user. */
  function FacebookAvatarUrl(url: string, svc: Services): (r: string)
    ensures EmptyStr(url) || svc.urlPath(url).None? ==> r == ""
    ensures r != "" ==> svc.urlPath(url).Some?
                        && !EmptyStr(TrimSlashes(svc.urlPath(url).value))
                        && r == "http://graph.facebook.com/" + TrimSlashes(svc.urlPath(url).value) + "/picture"
    ensures !EmptyStr(url) && svc.urlPath(url).Some? && !EmptyStr(TrimSlashes(svc.urlPath(url).value)) ==>
              r == "http://graph.facebook.com/" + TrimSlashes(svc.urlPath(url).value) + "/picture"
    ensures svc.urlPath(url).Some? && EmptyStr(TrimSlashes(svc.urlPath(url).value)) ==> r == ""
  {
    if EmptyStr(url) then ""
    else match svc.urlPath(url)
      case None => ""
      case Some(path) =>
        var user := TrimSlashes(path);
        if EmptyStr(user) then "" else "http://graph.facebook.com/" + user + "/picture"
  }

  /** Index of the last '/' in `s`, if any. */
  function LastSlash(s: string): (r: Option<nat>)
    ensures r.Some? ==> r.value < |s| && s[r.value] == '/' && NoSlash(s[r.value + 1..])
    ensures r.None? ==> NoSlash(s)
    decreases |s|
  {
    if |s| == 0 then None
    else if s[|s| - 1] == '/' then Some(|s| - 1)
    else match LastSlash(s[..|s| - 1])
      case Some(k) => assert s[k + 1..] == s[k + 1..|s| - 1] + [s[|s| - 1]]; Some(k)
      case None => None
  }

  /** `#/[^/]+/?$#` followed by `trim(..., '/')`: the last non-empty
      '/'-segment, one trailing '/' allowed. */
  function TwitterUser(url: string): (r: Option<string>)
    ensures r.Some? ==> |r.value| >= 1 && NoSlash(r.value)
  {
    var body := if |url| > 0 && url[|url| - 1] == '/' then url[..|url| - 1] else url;
    match LastSlash(body)
    case Some(k) => if k + 1 < |body| then Some(body[k + 1..]) else None
    case None => None
  }

  /** A user found is the url's last '/'-segment, with at most one trailing '/'. */
  lemma TwitterUserFound(url: string)
    requires TwitterUser(url).Some?
    ensures exists prefix, tail :: (tail == "" || tail == "/") && url == prefix + "/" + TwitterUser(url).value + tail
  {
    var body := if |url| > 0 && url[|url| - 1] == '/' then url[..|url| - 1] else url;
    var tail := if |url| > 0 && url[|url| - 1] == '/' then "/" else "";
    var k := LastSlash(body).value;
    assert url == body + tail;
    assert body == body[..k] + "/" + body[k + 1..];
    assert url == body[..k] + "/" + TwitterUser(url).value + tail;
  }

  /** Every url ending in '/' + a segment without '/' (+ an optional '/') yields that segment. */
  lemma TwitterUserOf(prefix: string, seg: string, tail: string)
    requires |seg| >= 1 && NoSlash(seg) && (tail == "" || tail == "/")
    ensures TwitterUser(prefix + "/" + seg + tail) == Some(seg)
  {
    var url := prefix + "/" + seg + tail;
    var body := prefix + "/" + seg;
    if tail == "/" {
      assert url[..|url| - 1] == body;
    } else {
      assert url == body;
    }
    LastSlashOf(prefix, seg);
    assert body[|prefix| + 1..] == seg;
  }

  lemma {:induction false} LastSlashOf(prefix: string, seg: string)
    requires NoSlash(seg)
    ensures LastSlash(prefix + "/" + seg) == Some(|prefix|)
    decreases |seg|
  {
    var s := prefix + "/" + seg;
    if |seg| > 0 {
      assert s[..|s| - 1] == prefix + "/" + seg[..|seg| - 1];
      assert s[|s| - 1] == seg[|seg| - 1];
      LastSlashOf(prefix, seg[..|seg| - 1]);
    }
  }

  /** A url ending in '/' + a user (+ an optional '/') gets that user's image url. */
  lemma TwitterAvatarOf(prefix: string, user: string, tail: string)
    requires |user| >= 1 && NoSlash(user) && user != "0" && (tail == "" || tail == "/")
    ensures TwitterAvatarUrl(prefix + "/" + user + tail) == "http://api.twitter.com/1/users/profile_image/" + user + ".original"
  {
    TwitterUserOf(prefix, user, tail);
  }

  /** `get_twitter_avatar_url`. */
  function TwitterAvatarUrl(url: string): (r: string)
    ensures EmptyStr(url) || TwitterUser(url).None? ==> r == ""
    ensures r != "" ==> TwitterUser(url).Some? && !EmptyStr(TwitterUser(url).value)
                        && r == "http://api.twitter.com/1/users/profile_image/" + TwitterUser(url).value + ".original"
  {
    if EmptyStr(url) then ""
    else match TwitterUser(url)
      case None => ""
      case Some(user) =>
        if EmptyStr(user) then "" else "http://api.twitter.com/1/users/profile_image/" + user + ".original"
  }

  // ---------------------------------------------------------------------
  // get_avatar_url (lines 205-249).

  /** The url `get_avatar_url` classifies: the location when it is set, else the url. */
  function ResolvedUrl(d: UrlData): string {
    match d.location
    case Some(l) => l
    case None => d.url
  }

  /** `get_avatar_url` on a record that exists. */
  function GetAvatarUrl(d: UrlData, size: Value, svc: Services): (r: AvatarStep)
    ensures r.data.url == d.url && r.data.location == d.location
    ensures d.avatarUrl.Some? && !EmptyStr(d.avatarUrl.value) ==> r == AvatarStep(d, d.avatarUrl.value)
    ensures !(d.avatarUrl.Some? && !EmptyStr(d.avatarUrl.value)) ==>
      match HostOf(ResolvedUrl(d))
      case Some(h) => if EmptyStr(h) then r == AvatarStep(d, "") else r.data.service == ServiceOfHost(h)
      case None => r == AvatarStep(d, "")
    ensures r.data.avatarUrl == (if EmptyStr(r.avatar) then d.avatarUrl else Some(r.avatar))
    ensures !EmptyStr(r.avatar) && !(d.avatarUrl.Some? && !EmptyStr(d.avatarUrl.value)) ==> IsKnownService(r.data.service)
    ensures !(d.avatarUrl.Some? && !EmptyStr(d.avatarUrl.value)) && HostOf(ResolvedUrl(d)).Some? ==>
              var h := HostOf(ResolvedUrl(d)).value;
              && (h == "plus.google.com" ==> r.avatar == GPlusAvatarUrl(ResolvedUrl(d), size, svc))
              && (h == "www.facebook.com" ==> r.avatar == FacebookAvatarUrl(ResolvedUrl(d), svc))
              && (h == "twitter.com" ==> r.avatar == TwitterAvatarUrl(ResolvedUrl(d)))
              && (!IsKnownService(ServiceOfHost(h)) ==> r.avatar == "")
  {
    if d.avatarUrl.Some? && !EmptyStr(d.avatarUrl.value) then AvatarStep(d, d.avatarUrl.value)
    else
      var u := ResolvedUrl(d);
      match HostOf(u)
      case None => AvatarStep(d, "")
      case Some(h) =>
        if EmptyStr(h) then AvatarStep(d, "")
        else
          var svcOf := ServiceOfHost(h);
          var a := match svcOf
            case GooglePlus => GPlusAvatarUrl(u, size, svc)
            case Facebook => FacebookAvatarUrl(u, svc)
            case Twitter => TwitterAvatarUrl(u)
            case _ => "";
          var d1 := d.(service := svcOf);
          AvatarStep(if EmptyStr(a) then d1 else d1.(avatarUrl := Some(a)), a)
  }

  /** A record resolved to a `www.facebook.com` url gets the graph url of
      the url's path, trimmed of '/', and the service 'facebook'. */
  lemma FacebookLocation(d: UrlData, scheme: string, rest: string, size: Value, svc: Services)
    requires scheme == "http://" || scheme == "https://"
    requires d.avatarUrl.None? && ResolvedUrl(d) == scheme + "www.facebook.com" + "/" + rest
    requires svc.urlPath(ResolvedUrl(d)).Some? && !EmptyStr(TrimSlashes(svc.urlPath(ResolvedUrl(d)).value))
    ensures var r := GetAvatarUrl(d, size, svc);
            && r.avatar == "http://graph.facebook.com/" + TrimSlashes(svc.urlPath(ResolvedUrl(d)).value) + "/picture"
            && r.data.service == Facebook && r.data.avatarUrl == Some(r.avatar)
  {
    HostOfUrl(scheme, "www.facebook.com", rest);
  }

  /** A record resolved to `twitter.com/<user>` gets that user's image url
      and the service 'twitter'. */
  lemma TwitterLocation(d: UrlData, scheme: string, user: string, size: Value, svc: Services)
    requires scheme == "http://" || scheme == "https://"
    requires |user| >= 1 && NoSlash(user) && user != "0"
    requires d.avatarUrl.None? && ResolvedUrl(d) == scheme + "twitter.com" + "/" + user
    ensures var r := GetAvatarUrl(d, size, svc);
            && r.avatar == "http://api.twitter.com/1/users/profile_image/" + user + ".original"
            && r.data.service == Twitter && r.data.avatarUrl == Some(r.avatar)
  {
    var u := ResolvedUrl(d);
    HostOfUrl(scheme, "twitter.com", user);
    assert scheme + "twitter.com" + "/" + user + "" == u;
    TwitterAvatarOf(scheme + "twitter.com", user, "");
    assert ServiceOfHost("twitter.com") == Twitter;
  }

  /** Worked examples: a Facebook and a Twitter profile url named johndoe. */
  lemma FacebookExample(url: string, path: string, svc: Services)
    requires url == "https://www.facebook.com/johndoe" && path == "/johndoe" && svc.urlPath(url) == Some(path)
    ensures FacebookAvatarUrl(url, svc) == "http://graph.facebook.com/johndoe/picture"
  {
    assert TrimSlashes(path) == "johndoe" by {
      assert "/" + "johndoe" + "" == path;
      TrimSlashesAround("/", "johndoe", "");
    }
    assert FacebookAvatarUrl(url, svc) == "http://graph.facebook.com/" + "johndoe" + "/picture";
  }

  lemma TwitterExample(url: string)
    requires url == "https://twitter.com/johndoe"
    ensures TwitterAvatarUrl(url) == "http://api.twitter.com/1/users/profile_image/johndoe.original"
  {
    var user := "johndoe";
    assert NoSlash(user) && |user| >= 1 && user != "0";
    assert "https://twitter.com" + "/" + user + "" == url;
    TwitterAvatarOf("https://twitter.com", user, "");
  }

  /** For the bare host url, the last segment is the host itself. */
  lemma TwitterBareHost(url: string)
    requires url == "https://twitter.com/"
    ensures TwitterAvatarUrl(url) == "http://api.twitter.com/1/users/profile_image/twitter.com.original"
  {
    var user := "twitter.com";
    assert NoSlash(user) && |user| >= 1 && user != "0";
    assert "https:/" + "/" + user + "/" == url;
    TwitterAvatarOf("https:/", user, "/");
  }
}
