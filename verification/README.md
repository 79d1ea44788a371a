# AvatarPlus in Dafny

AvatarPlus is a WordPress plugin that replaces the gravatar of a comment with
the Google+, Facebook or Twitter avatar of the profile url the commenter left.
This project models its core logic as pure Dafny functions over immutable
values and proves what that logic promises:

- **Profile url resolution** (`Setup`, `AvatarUrl`, `Record`): `setup_url`
  validates the url, fetches it, follows 301/302 redirects and keeps the
  original url; `get_avatar_url` extracts the host of the resolved url,
  classifies the service and derives the avatar url per service.
- **The per-post cache** (`Cache`, `Resolver`): the in-process memo, the post
  meta store and the hit/miss counters are one state value threaded through
  the `Cache` operations and the `Profile_To_Avatar` constructor.
- **Cache expiry** (`Expiry`): the period table, the expiry in seconds and
  the cleanup loop with its found/deleted counters.
- **The avatar filter** (`Plugin`, `ImgTag`): which url a comment offers,
  when the default avatar is kept, and how the attributes of the `<img>` tag
  are rewritten by a case-insensitive, lazy regular expression.
- **Options** (`Backend`): `get_option` with its memo and
  `options_validate`.
- **PHP semantics** (`Php`): `empty()`, string/integer conversions and
  `trim($s, '/')` as the plugin uses them.

The network (`wp_remote_get`), the Google+ API answer after `json_decode`,
`parse_url`'s path, URL validation and `md5` are parameters of the model
(oracle functions); nothing is assumed about them. `setup_url` counts no
hops itself: the comment at avatarplus/url/profile_to_avatar.php:79 speaks
of a maximum of 5 redirects, and the code passes `redirection => 5` to the
transport for every request after the first (lines 93 and 116), so the bound
is the transport's, which follows up to 5 redirects on its own and answers
an error beyond that. The transport oracle is left unconstrained and may
answer 301/302 to any request; a `fuel` argument bounds the model's
recursion as a modelling device, `Exhausted` is the model's answer when it
runs out, and `Setup.EndlessRedirectsNeverResolve` shows that no fuel
suffices when the transport redirects forever.

The attribute rewrite of the `<img>` tag uses the character class `["|']`,
which also holds the bar (see Findings). The filter members of `Plugin`
take the class as a parameter `q`: `WithBar` is the source as written,
`QuotesOnly` the intended class, and every property of the filter is
proved for both.

## Model

| member | source | states |
|---|---|---|
| Record.GetService | avatarplus/url/profile_to_avatar.php:182-187 | the answer is false or a known service; false exactly when the record's service is unset, false or 'unknown', otherwise the record's service |
| Record.GetRedirectionLocation | avatarplus/url/profile_to_avatar.php:193-198 | '' exactly when the location is unset or empty; a set, non-empty location is the answer, and any answer other than '' is the record's location |
| Setup.NextLocation | avatarplus/url/profile_to_avatar.php:125-133 | a set, non-empty Location header is taken as it is; '' exactly when the header is unset or empty |
| Setup.Accepts | avatarplus/url/profile_to_avatar.php:99-110 | (predicate) the url has an http(s) scheme in any case and passes the validation filter; SetupUrl states that exactly these urls get a record |
| Setup.Follow | avatarplus/url/profile_to_avatar.php:84-172 | a recursive hop keeps the original url and avatar, always leaves a location, and only ever changes the service to false |
| Setup.SetupUrl | avatarplus/url/profile_to_avatar.php:84-174 | no record exactly when the url lacks an http(s) scheme (any case) or fails validation; a record keeps the original url, has no avatar url, has service unset or false, and an unset service comes with a location; running out of fuel needs a first answer of 301/302 |
| Setup.ChainResolves | avatarplus/url/profile_to_avatar.php:157-172 | for any chain of redirects, defined independently of the recursion, the record holds the first url and the last url reached as location; its service is false exactly when the last request failed in transport |
| Setup.SetupFuelMonotone | avatarplus/url/profile_to_avatar.php:157-163 | once the fuel suffices, more fuel gives the same record: fuel only bounds the recursion |
| Setup.EndlessRedirectsNeverResolve | avatarplus/url/profile_to_avatar.php:87-93 | for a transport that answers every valid url with a redirect to a valid url, no amount of fuel yields a record: setup_url counts no hops itself |
| AvatarUrl.HostAt | avatarplus/url/profile_to_avatar.php:216 | a match starting at index 0 needs an http(s) scheme there; the host it takes follows the scheme and is followed by '/', with no '/' after its first character |
| AvatarUrl.HostOf | avatarplus/url/profile_to_avatar.php:216 | a host found by `#https?://(.+)/#U` is non-empty and has no '/' after its first character; HostOfFound and HostOfMissing tie it to the leftmost match |
| AvatarUrl.HostOfFound | avatarplus/url/profile_to_avatar.php:216-218 | a found host is the match at the first index where one starts: it follows an http(s) scheme there and is followed by '/' |
| AvatarUrl.HostOfMissing | avatarplus/url/profile_to_avatar.php:216-218 | no host is found only when no match starts at any index |
| AvatarUrl.NoSchemeNoHost | avatarplus/url/profile_to_avatar.php:216-218 | text in which no http(s) scheme starts has no host |
| AvatarUrl.NoColonNoHost | avatarplus/url/profile_to_avatar.php:216-218 | text without ':', such as a relative redirect location, has no host |
| AvatarUrl.HostOfUrl | avatarplus/url/profile_to_avatar.php:216-218 | for scheme + host + '/' + rest the extracted host is exactly the host |
| AvatarUrl.NoSlashNoHost | avatarplus/url/profile_to_avatar.php:216-218 | with no '/' after the scheme no host is found, so the service stays untouched |
| AvatarUrl.ServiceOfHost | avatarplus/url/profile_to_avatar.php:220-239 | the three exact hosts map to their services, both directions; every other host maps to 'unknown' |
| AvatarUrl.GPlusUserId | avatarplus/url/profile_to_avatar.php:275 | a user id found is at least five digits |
| AvatarUrl.GPlusUserIdFound | avatarplus/url/profile_to_avatar.php:275 | a user id found follows a '/' at the very end of the url, with at most one trailing '/' |
| AvatarUrl.GPlusUserIdOf | avatarplus/url/profile_to_avatar.php:275 | every url ending in '/' + five or more digits (+ optional '/') yields those digits |
| AvatarUrl.RewriteSize | avatarplus/url/profile_to_avatar.php:299 | the image url is either unchanged or its trailing digits are replaced by the size; RewriteSizeMarker and RewriteSizeOnlyMarked say when |
| AvatarUrl.RewriteSizeMarker | avatarplus/url/profile_to_avatar.php:299 | an image url ending in `sz=<digits>` (sz in any case) ends in `sz=<size>` afterwards |
| AvatarUrl.RewriteSizeOnlyMarked | avatarplus/url/profile_to_avatar.php:299 | any image url the rewrite changes ends in `sz=<digits>` |
| AvatarUrl.GPlusAvatarUrl | avatarplus/url/profile_to_avatar.php:258-304 | '' for an empty api key, an empty url or a url without user id; a non-empty result needs a key, an id and an API image; a non-empty image gets its size rewritten, a non-integer size counting as 96 |
| AvatarUrl.FacebookAvatarUrl | avatarplus/url/profile_to_avatar.php:313-332 | '' for an empty url, without a path, or when the path trimmed of '/' is empty; for any other url, relative ones included, the graph url of the trimmed path, and only then a non-empty result |
| AvatarUrl.FacebookExample | avatarplus/url/profile_to_avatar.php:313-332 | facebook.com/johndoe yields the graph url of johndoe |
| AvatarUrl.TwitterUser | avatarplus/url/profile_to_avatar.php:350-353 | the user found is a non-empty segment without '/' |
| AvatarUrl.TwitterUserFound | avatarplus/url/profile_to_avatar.php:350-353 | a user found is the url's last '/'-segment, followed by at most one '/' |
| AvatarUrl.TwitterUserOf | avatarplus/url/profile_to_avatar.php:350-353 | for prefix + '/' + segment + optional '/', the user is that last segment |
| AvatarUrl.TwitterAvatarUrl | avatarplus/url/profile_to_avatar.php:341-359 | '' without a last segment; otherwise the profile_image url of that segment |
| AvatarUrl.TwitterAvatarOf | avatarplus/url/profile_to_avatar.php:341-359 | a url ending in '/' + a user (+ optional '/') gets the profile_image url of that user |
| AvatarUrl.TwitterExample | avatarplus/url/profile_to_avatar.php:341-359 | twitter.com/johndoe yields the profile image url of johndoe |
| AvatarUrl.TwitterBareHost | avatarplus/url/profile_to_avatar.php:341-359 | for `https://twitter.com/` the host itself is taken as the user |
| AvatarUrl.ResolvedUrl | avatarplus/url/profile_to_avatar.php:213 | (helper) the location when it is set, else the original url |
| AvatarUrl.GetAvatarUrl | avatarplus/url/profile_to_avatar.php:205-247 | a stored non-empty avatar url is returned as is; otherwise the host of the location (or url) decides the service, no host means '' and no change; plus.google.com, www.facebook.com and twitter.com get the Google+, Facebook and Twitter derivation of the resolved url, any other host ''; the record gets the avatar url only when it is non-empty, and a non-empty derived avatar comes with a known service |
| AvatarUrl.FacebookLocation | avatarplus/url/profile_to_avatar.php:205-247 | a record resolved to http(s)://www.facebook.com/... gets the graph url of its trimmed path, service 'facebook', and stores it |
| AvatarUrl.TwitterLocation | avatarplus/url/profile_to_avatar.php:205-247 | a record resolved to http(s)://twitter.com/<user> gets that user's profile image url, service 'twitter', and stores it |
| Php.TrimSlashes | avatarplus/url/profile_to_avatar.php:326 | the result is the input without its leading and trailing runs of '/' |
| Php.TrimSlashesAround | avatarplus/url/profile_to_avatar.php:326 | slashes around a string are removed and inner ones kept |
| Php.IntStringRoundTrip | avatarplus.php:453-454 | an integer stored as its decimal string reads back as the same integer in arithmetic |
| Cache.ReadCache | avatarplus/cache/cache.php:128-132 | the post meta of the post, or an empty cache when there is none |
| Cache.WriteCache | avatarplus/cache/cache.php:139-143 | the post's in-memory map replaces its post meta; no other post, the memo and the counters are untouched |
| Cache.ResetCache | avatarplus/cache/cache.php:150-154 | only the post's meta is deleted; the memo and other posts are untouched |
| Cache.Open | avatarplus/cache/cache.php:64-73 | the store is loaded only for a post whose memo is empty; a non-empty memo is never replaced; other posts are untouched |
| Cache.IsCached | avatarplus/cache/cache.php:80-87 | true exactly when an entry exists under the hash of the url; a hit is counted exactly then; nothing else changes |
| Cache.GetCachedUrl | avatarplus/cache/cache.php:94-99 | the stored entry exactly when one exists, otherwise null |
| Cache.Normalize | avatarplus/cache/cache.php:108-111 | service becomes false only when the avatar url is empty and the service is unset; all else is kept |
| Cache.CacheUrl | avatarplus/cache/cache.php:106-121 | only the key hash(url) of this post changes, misses grow by exactly one, hits stay, and the post's whole map is written to the store |
| Cache.CacheThenLookup | avatarplus/cache/cache.php:80-121 | after caching a record, is_cached of its url counts a hit and get_cached_url returns the stored record |
| Cache.CacheKeepsService | avatarplus/cache/cache.php:108-111 | a record with a service or a non-empty avatar url is stored unchanged |
| Cache.CacheUrlFrame | avatarplus/cache/cache.php:106-121 | every lookup of another post or another key answers as before |
| Cache.OpenKeepsMemo | avatarplus/cache/cache.php:69-70 | opening a post with entries in memory keeps them |
| Cache.ResetThenOpen | avatarplus/cache/cache.php:150-154 | after a reset the current process still answers from memory while a fresh process finds nothing |
| Resolver.Compute | avatarplus/url/profile_to_avatar.php:67-68 | a rejected url gives the empty auto-created record; an accepted one keeps its url and setup_url's location, has get_avatar_url's answer as avatar url, and the host of the resolved url as service (setup_url's service when there is no host); a non-empty avatar comes with a known service |
| Resolver.Construct | avatarplus/url/profile_to_avatar.php:59-73 | a cached url yields the cached record with one more hit; on a miss the record is the normalised computed one, stored under the hash of its url, with one more miss; exactly one of hits and misses grows; an accepted url ends up in the memo; only this post's store entry may change |
| Resolver.SecondConstructionHits | avatarplus/url/profile_to_avatar.php:59-73 | a second construction for the same valid url and post is a hit returning the same record, whatever the size and fuel |
| Resolver.RejectedUrlStoredBlank | avatarplus/url/profile_to_avatar.php:67-70 | an invalid url stores a service-false record under the hash of '' |
| Resolver.FailedFetchStillClassified | avatarplus/url/profile_to_avatar.php:119-123 | after a failed fetch the host of the url still sets the service |
| Backend.GetOption | avatarplus/backend/backend.php:83-94 | the store is read only when the memo is empty; an empty name gives all options; a name gives its value, or null when it is absent or null |
| Backend.SanitizeNumberInt | avatarplus/backend/backend.php:253 | the result keeps exactly the digits, '+' and '-' of the input, with their counts; a single character is kept exactly when it is one of them |
| Backend.SanitizeConcat | avatarplus/backend/backend.php:253 | the result for a + b is the result for a followed by that for b, so the order is kept |
| Backend.SanitizeAppend | avatarplus/backend/backend.php:253 | appending a character appends it to the result exactly when it is a digit or a sign |
| Backend.SanitizeKeepsNumber | avatarplus/backend/backend.php:253 | a string of digits and signs is kept, so sanitising is idempotent |
| Backend.Merged | avatarplus/backend/backend.php:247-249 | with an option row, the input merged over the stored options; without one (`false`), an empty array |
| Backend.OptionsValidate | avatarplus/backend/backend.php:245-259 | without an option row only the three normalised keys remain; otherwise input keys override stored ones and every other key is carried over; use_extra_field is true exactly when the merged value is 'on'; the value is sanitised; the period is always one of the four, and is kept exactly when it already is one |
| Backend.MonthsBecomesDays | avatarplus/backend/backend.php:254-255 | the form's 'months' is stored as 'days' |
| Backend.ExtraFieldFromInput | avatarplus/backend/backend.php:251 | once stored as a boolean, the flag is on exactly when an option row exists and the form posts 'on'; absent means off |
| Backend.Revalidate | avatarplus/backend/backend.php:245-259 | validating a validated array keeps value and period but turns the stored true flag off |
| Expiry.PeriodSeconds | avatarplus.php:446-451 | only days, weeks, month and years have a duration |
| Expiry.ExpirySeconds | avatarplus.php:453-454 | 86400, 604800, 2592000 or 31536000 times the value for the four periods; 0 for every other period |
| Expiry.MonthsNeverExpires | avatarplus.php:446-454 | the plural 'months' gives 0 seconds, that is no cleanup |
| Expiry.DefaultExpiry | avatarplus.php:446-454 | 30 days stored as the string "30" is 2592000 seconds, one 'month' |
| Expiry.OldPosts | avatarplus.php:461-462 | the selected ids are exactly those of posts dated strictly before the cutoff |
| Expiry.OldPostsUnique | avatarplus.php:461-462 | the selection repeats no id |
| Expiry.Deletable | avatarplus.php:466-474 | the deleted ids are exactly the selected ones with non-empty cache meta |
| Expiry.DeleteStep | avatarplus.php:466-474 | one iteration adds the post to the deleted ones exactly when it holds a cache |
| Expiry.DeleteCaches | avatarplus.php:464-474 | found is the number of selected posts, deleted the number with a cache, deleted <= found, and exactly their meta is removed |
| Expiry.CleanupCache | avatarplus.php:428-478 | false and no change exactly when the expiry is 0 seconds; otherwise the counters and the store as above for the posts before now minus the expiry |
| Expiry.NothingToDelete | avatarplus.php:469 | posts without cache meta give nothing to delete |
| Expiry.CleanupTwiceDeletesNothing | avatarplus.php:466-474 | a second cleanup over the same posts deletes nothing |
| Expiry.RecentPostKeepsCache | avatarplus.php:459-474 | a post dated at or after the cutoff keeps its cache meta |
| ImgTag.FindQuote | avatarplus.php:379 | the first quote character at or after a position, or none |
| ImgTag.MatchAt | avatarplus.php:379 | a match starts at p exactly when the name (any case), '=' and a quote start there and a quote follows; it ends at the first quote after the opening one |
| ImgTag.FindQuoteAt | avatarplus.php:379 | the lazy `.*` stops at the quote that ends a quote-free stretch |
| ImgTag.ReplaceFrom | avatarplus.php:378-382 | (definition) `preg_replace` from a position on, for either quote class; its behaviour is stated by CopiesUnmatched, ReplacesAt, ReplacesFirst and ReplacesOnly |
| ImgTag.ReplaceAttr | avatarplus.php:378-382 | (definition) the rewrite of one attribute with the intended class `["']` |
| ImgTag.ReplaceAttrAsWritten | avatarplus.php:378-382 | (definition) the rewrite of one attribute with the class `["\|']` as written |
| ImgTag.CopiesUnmatched | avatarplus.php:378-382 | text where no match starts is copied unchanged |
| ImgTag.NoMatchUnchanged | avatarplus.php:378-382 | without a match the html is unchanged |
| ImgTag.ReplacesAt | avatarplus.php:378-382 | the first match is replaced and the text before it kept |
| ImgTag.MatchOfAttribute | avatarplus.php:379 | a quoted attribute is one match, from its name to its closing quote |
| ImgTag.ReplacesFirst | avatarplus.php:378-382 | the first quoted attribute gets the new value between its own two quotes, the name in the pattern's spelling, the prefix kept |
| ImgTag.ReplacesOnly | avatarplus.php:378-382 | an attribute that is the only match gets the new value between its own quotes, the name in the pattern's spelling, and the rest of the html is kept |
| ImgTag.BarInsideValue | avatarplus.php:379 | with the intended class a value containing '\|' is replaced as a whole |
| ImgTag.BarEndsValue | avatarplus.php:379 | as written, alt='a\|b' becomes alt='c\|b'; with the intended class it becomes alt='c' |
| ImgTag.UpperCaseExample | avatarplus.php:379-380 | SRC='a' becomes src='b' |
| Plugin.GetProfileUrl | avatarplus.php:326-352 | no comment gives false; the result is non-empty exactly when one of the two urls is; it is one of them; when both are present the setting picks the extra field or the author url |
| Plugin.OneSourceWins | avatarplus.php:341-348 | with only one url present that url is returned, whatever the setting |
| Plugin.ReplaceAvatarHtml | avatarplus.php:363-389 | empty html gives ''; with all replacement values empty the html is kept; for any tag with src, alt, width and height, AllReplaced gives each attribute its new value or, for an empty value, its old one |
| Plugin.SlotReplaced | avatarplus.php:375-385 | rewriting the sole match of an attribute changes that attribute alone: the pattern's spelling of the name and the new value, the rest of the tag kept |
| Plugin.RewriteStep | avatarplus.php:375-385 | each of the four rewrites, applied to the tag after the earlier ones, sets its own attribute |
| Plugin.Skips | avatarplus.php:368-385 | a step is skipped exactly when its value is empty: the url for src, the alt text for alt, the size for width and height |
| Plugin.FilterIsSteps | avatarplus.php:363-389 | on a non-empty tag the filter is the src, alt, width and height steps in turn, each skipped for an empty value |
| Plugin.StepsFill | avatarplus.php:375-385 | the four steps in turn, each applied one rewriting the sole match of its name, take the tag to the tag with the applied slots renamed and refilled |
| Plugin.FinalSlots | avatarplus.php:368-385 | after the four steps each slot holds the url, alt text or size for its name, or its old name and value when that value is empty |
| Plugin.AllReplaced | avatarplus.php:363-389 | for a tag holding src, alt, width and height in any order, each applied attribute the sole match of its name at its turn: src gets a non-empty url, alt a non-empty alt text, width and height both a non-empty size; an attribute whose value is empty (the alt of WordPress' default call, the url of an unresolved Google+ profile) keeps its name and value; the text around them is kept |
| Plugin.UntouchedTag | avatarplus.php:375-385 | for either quote class, a tag without a match of any of the four attributes is returned as it is |
| Plugin.SrcReplaced | avatarplus.php:368-382 | the src attribute gets the avatar url between its own quotes; an empty alt and size are skipped |
| Plugin.AltReplaced | avatarplus.php:368-382 | the alt attribute gets the alt text; an empty url and size are skipped |
| Plugin.WidthReplaced | avatarplus.php:368-382 | the width attribute gets the size as a string |
| Plugin.HeightReplaced | avatarplus.php:368-382 | the height attribute gets the size as a string |
| Plugin.BarInAltText | avatarplus.php:379 | as written, alt='a\|b' with alt text c becomes alt='c\|b'; with the intended class alt='c' |
| Plugin.GetAplusAvatar | avatarplus.php:282-316 | the default avatar and an unchanged cache without comment, post or profile url; otherwise the construction decides the cache; service false keeps the default avatar; otherwise the html is the default tag rewritten with the avatar url that get_avatar_url derives from the built record, the size and the alt text |
| Plugin.SecondRenderFromCache | avatarplus.php:282-316 | showing the same comment again on the same post gives the same html from the cache with one more hit |

## Left out

- WordPress hooks, activation defaults, deactivation and uninstall SQL, cron scheduling and the debug footer (avatarplus.php:40-207, 396-421): host plumbing and database I/O.
- The comment form field and saving it (avatarplus.php:216-269): UI and request input.
- The settings page, translations, help tab and text files of the backend: rendering and file reads.
- wordpress/autoloader.php and wordpress/tools.php are not part of this model: class loading and a PHP version check.
- HTTP requests, `json_decode`, `add_query_arg`, `parse_url`, `md5` and `FILTER_SANITIZE_URL & FILTER_VALIDATE_URL` are oracle parameters; validation is "the url if it is valid, else empty".
- `is_facebook`: protected and never called.
- The SQL post query and `date()`: posts are rows of id and integer timestamp, and the comparison is on timestamps.
- PHP object aliasing: records are values. Writing the second `get_avatar_url` call's changes back into the memo is not modelled; that call recomputes the same derivation from the same oracles.
- Setup.SetupUrl: the `fuel` bound and the `Exhausted` outcome are modelling devices; setup_url counts no hops, the bound is the transport's, which the oracle leaves unconstrained.
- Resolver.Compute: for a rejected url PHP 5 auto-creates an object with only `avatar_url` null; the model stands for it with the empty record.
- AvatarUrl.GPlusUserId: PCRE's `$` also matches before a final newline; the model treats `$` as the end of the url (also AvatarUrl.RewriteSize and AvatarUrl.TwitterUser).
- ImgTag.MatchAt: case folding is ASCII only, while the `u` flag folds Unicode letters too.
- HasScheme: case folding is ASCII only; under the `u` flag PCRE also folds non-ASCII letters (such as 'ſ' for 's') in `#^https?://#Uuis`.
- SchemeLength: ASCII case folding only, as for HasScheme (`#https?://(.+)/#Uuis`, line 216).
- HostOf: ASCII case folding only for the scheme, as for HasScheme.
- GPlusUserId: `\d` is read as an ASCII digit; with the `u` flag PHP's PCRE also matches Unicode decimal digits such as '١'.
- RewriteSize: ASCII digits and ASCII case folding of `sz` only, as for GPlusUserId.
- ImgTag.ReplacesFirst: the new value is inserted literally; `$1` or `\1` inside a value would be read as a backreference by `preg_replace`.
- Expiry.ExpirySeconds: a fractional value string ('1.5') is multiplied as a float and truncated by `(int)` in PHP; the model reads its integer prefix. Integer overflow is not modelled.
- Backend.OptionsValidate: `array_merge` renumbers integer keys; options have string keys only. A missing option row is modelled as PHP 5 behaves (`array_merge(false, …)` is null); PHP 8 would throw instead.

## Findings

| source | as written | input that shows it | evidently intended | confidence | as-written member | corrected member |
|---|---|---|---|---|---|---|
| avatarplus.php:379 | the class `["\|']` also contains '\|', so a '\|' closes the attribute value | alt='a\|b' with alt text c gives alt='c\|b' | the class `["']`: the whole value is replaced, alt='c' | high; not executed | ImgTag.BarEndsValue | ImgTag.BarInsideValue |

`ImgTag.ReplaceAttrAsWritten` is the pattern as written and `ImgTag.ReplaceAttr`
the intended class; `Plugin.ReplaceAvatarHtml` and `Plugin.GetAplusAvatar`
take the class as a parameter, and `Plugin.BarInAltText` shows the
difference on the filter itself.
