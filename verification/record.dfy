/** The url record a `Profile_To_Avatar` object builds up and the cache
    stores (avatarplus/url/profile_to_avatar.php), with its two read
    accessors `get_service` and `get_redirection_location`. */
module Record {
  import opened Php

  /** The `service` property: not set, the boolean `false`, or one of the
      strings 'googleplus', 'facebook', 'twitter', 'unknown'. */
  datatype Service = Unset | False | GooglePlus | Facebook | Twitter | Unknown

  /** The record, as an immutable value: the original profile url, the
      last location of a redirect chain (if one was reached), the service
      and the avatar url (`None` when the property is not set or null). */
  datatype UrlData = UrlData(url: string, location: Option<string>, service: Service, avatarUrl: Option<string>)

  /** True for the three services the plugin can derive an avatar for. */
  predicate IsKnownService(s: Service) {
    s == GooglePlus || s == Facebook || s == Twitter
  }

  /** `get_service`: the service, or false when it is unset, false or 'unknown'. */
  function GetService(d: UrlData): (r: Service)
    ensures r == False || IsKnownService(r)
    ensures IsKnownService(r) ==> r == d.service
    ensures r == False <==> !IsKnownService(d.service)
  {
    if d.service == Unset || d.service == False || d.service == Unknown then False else d.service
  }

  /** `get_redirection_location`: the location when it is set and not empty, else ''. */
  function GetRedirectionLocation(d: UrlData): (r: string)
    ensures r != "" ==> d.location == Some(r)
    ensures d.location.Some? && !EmptyStr(d.location.value) ==> r == d.location.value
    ensures r == "" <==> d.location.None? || EmptyStr(d.location.value)
  {
    match d.location
    case Some(l) => if EmptyStr(l) then "" else l
    case None => ""
  }
}
