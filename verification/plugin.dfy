/** The `get_avatar` filter of the plugin (avatarplus.php:282-389): find the
    profile url of the comment being shown, resolve it to an avatar url
    through the cache, and rewrite WordPress' `<img>` tag with it.

    The globals `$comment` and `$post`, the two options it reads and the
    comment meta under the `metakey` option are parameters. */
module Plugin {
  import opened Php
  import opened Record
  import opened Setup
  import opened AvatarUrl
  import opened Cache
  import opened Resolver
  import opened ImgTag

  /** The fields of the global `$comment` the filter reads: `comment_ID`
      and `comment_author_url`, each possibly unset. */
  datatype Comment = Comment(id: Option<int>, authorUrl: Option<string>)

  /** The field `ID` of the global `$post`, possibly unset. */
  datatype Post = Post(id: Option<int>)

  /** `isset($x->ID) ? (int) $x->ID : 0`. */
  function IdOr0(id: Option<int>): int {
    match id
    case Some(i) => i
    case None => 0
  }

  /** The comment's own author url, when it is set and not empty. */
  predicate HasAuthorUrl(c: Comment) {
    c.authorUrl.Some? && !EmptyStr(c.authorUrl.value)
  }

  /** `get_profile_url` (lines 326-352). `meta` is `get_comment_meta($id,
      $metakey, true)`, '' when the comment has none. `None` is the
      `false` of a missing comment or the null of an unset author url.
      When the extra field is in use its url is preferred, otherwise the
      author url; either way the other one fills in when the first is
      empty. */
  function GetProfileUrl(comment: Option<Comment>, useExtraField: Value, meta: int -> string): (r: Option<string>)
    ensures comment.None? ==> r.None?
    ensures comment.Some? ==>
              var extra := meta(IdOr0(comment.value.id));
              && (r.Some? && !EmptyStr(r.value) <==> HasAuthorUrl(comment.value) || !EmptyStr(extra))
              && (r.Some? ==> r.value == extra || comment.value.authorUrl == r)
              && (HasAuthorUrl(comment.value) && !EmptyStr(extra) ==>
                    r == Some(if EmptyValue(useExtraField) then comment.value.authorUrl.value else extra))
  {
    match comment
    case None => None
    case Some(c) =>
      var extra := meta(IdOr0(c.id));
      if !EmptyValue(useExtraField) then
        if !EmptyStr(extra) then Some(extra) else c.authorUrl
      else
        if HasAuthorUrl(c) then c.authorUrl else Some(extra)
  }

  /** With only one of the two urls present, the setting does not matter. */
  lemma OneSourceWins(c: Comment, useExtraField: Value, meta: int -> string)
    requires HasAuthorUrl(c) != !EmptyStr(meta(IdOr0(c.id)))
    ensures GetProfileUrl(Some(c), useExtraField, meta) == GetProfileUrl(Some(c), VBool(true), meta)
                                                       == GetProfileUrl(Some(c), VBool(false), meta)
    ensures var r := GetProfileUrl(Some(c), useExtraField, meta);
            r.Some? && !EmptyStr(r.value)
            && r.value == (if HasAuthorUrl(c) then c.authorUrl.value else meta(IdOr0(c.id)))
  {
  }

  /** `replace_avatar_html` (lines 363-389): the four attributes in the
      order src, alt, width, height; a replacement value that is empty is
      skipped; an empty tag gives ''. `q` is the quote class of the
      pattern: `WithBar` is the source as written, `QuotesOnly` the
      intended class. */
  function ReplaceAvatarHtml(html: string, url: string, size: Value, alt: string, q: Quotes): (r: string)
    ensures EmptyStr(html) ==> r == ""
    ensures !EmptyStr(html) && EmptyStr(url) && EmptyStr(alt) && EmptyValue(size) ==> r == html
  {
    if EmptyStr(html) then ""
    else
      var withSrc := if EmptyStr(url) then html else ReplaceFrom(html, 0, "src", url, q);
      var withAlt := if EmptyStr(alt) then withSrc else ReplaceFrom(withSrc, 0, "alt", alt, q);
      var withWidth := if EmptyValue(size) then withAlt else ReplaceFrom(withAlt, 0, "width", ToStr(size), q);
      if EmptyValue(size) then withWidth else ReplaceFrom(withWidth, 0, "height", ToStr(size), q)
  }

  /** A tag that has none of the four attributes comes back as it is. */
  lemma UntouchedTag(html: string, url: string, size: Value, alt: string, q: Quotes)
    requires !EmptyStr(html)
    requires NoMatch(html, "src", q) && NoMatch(html, "alt", q) && NoMatch(html, "width", q) && NoMatch(html, "height", q)
    ensures ReplaceAvatarHtml(html, url, size, alt, q) == html
  {
    NoMatchUnchanged(html, "src", url, q);
    NoMatchUnchanged(html, "alt", alt, q);
    NoMatchUnchanged(html, "width", ToStr(size), q);
    NoMatchUnchanged(html, "height", ToStr(size), q);
  }

  /** The quoted attribute `name` of a tag, with the conditions under which
      it is the only match of `attr` in the tag. */
  predicate SoleAttribute(pre: string, name: string, open: char, old_: string, close: char, post: string,
                          attr: string, q: Quotes)
  {
    var s := Attribute(pre, name, open, old_, close, post);
    && EqualsCI(name, attr) && IsQuote(open, q) && IsQuote(close, q) && NoQuote(old_, q)
    && (forall i :: 0 <= i < |pre| ==> MatchAt(s, i, attr, q).None?)
    && (forall i :: |s| - |post| <= i < |s| ==> MatchAt(s, i, attr, q).None?)
  }

  /** The src attribute gets the avatar url; an empty alt text and an empty
      size are skipped. */
  lemma SrcReplaced(pre: string, name: string, open: char, old_: string, close: char, post: string,
                    url: string, size: Value, alt: string, q: Quotes)
    requires SoleAttribute(pre, name, open, old_, close, post, "src", q)
    requires !EmptyStr(url) && EmptyStr(alt) && EmptyValue(size)
    ensures ReplaceAvatarHtml(Attribute(pre, name, open, old_, close, post), url, size, alt, q)
            == Attribute(pre, "src", open, url, close, post)
  {
    ReplacesOnly(pre, name, open, old_, close, post, "src", url, q);
  }

  /** The alt attribute gets the alt text; an empty url and an empty size
      are skipped. */
  lemma AltReplaced(pre: string, name: string, open: char, old_: string, close: char, post: string,
                    url: string, size: Value, alt: string, q: Quotes)
    requires SoleAttribute(pre, name, open, old_, close, post, "alt", q)
    requires EmptyStr(url) && !EmptyStr(alt) && EmptyValue(size)
    ensures ReplaceAvatarHtml(Attribute(pre, name, open, old_, close, post), url, size, alt, q)
            == Attribute(pre, "alt", open, alt, close, post)
  {
    ReplacesOnly(pre, name, open, old_, close, post, "alt", alt, q);
  }

  /** The width attribute gets the size as a string, when the tag has no
      height attribute. */
  lemma WidthReplaced(pre: string, name: string, open: char, old_: string, close: char, post: string,
                      url: string, size: Value, alt: string, q: Quotes)
    requires SoleAttribute(pre, name, open, old_, close, post, "width", q)
    requires NoMatch(Attribute(pre, "width", open, ToStr(size), close, post), "height", q)
    requires EmptyStr(url) && EmptyStr(alt) && !EmptyValue(size)
    ensures ReplaceAvatarHtml(Attribute(pre, name, open, old_, close, post), url, size, alt, q)
            == Attribute(pre, "width", open, ToStr(size), close, post)
  {
    ReplacesOnly(pre, name, open, old_, close, post, "width", ToStr(size), q);
    NoMatchUnchanged(Attribute(pre, "width", open, ToStr(size), close, post), "height", ToStr(size), q);
  }

  /** The height attribute gets the size as a string, when the tag has no
      width attribute. */
  lemma HeightReplaced(pre: string, name: string, open: char, old_: string, close: char, post: string,
                       url: string, size: Value, alt: string, q: Quotes)
    requires SoleAttribute(pre, name, open, old_, close, post, "height", q)
    requires NoMatch(Attribute(pre, name, open, old_, close, post), "width", q)
    requires EmptyStr(url) && EmptyStr(alt) && !EmptyValue(size)
    ensures ReplaceAvatarHtml(Attribute(pre, name, open, old_, close, post), url, size, alt, q)
            == Attribute(pre, "height", open, ToStr(size), close, post)
  {
    NoMatchUnchanged(Attribute(pre, name, open, old_, close, post), "width", ToStr(size), q);
    ReplacesOnly(pre, name, open, old_, close, post, "height", ToStr(size), q);
  }

  /** One attribute of a tag: its name as spelled and its two quotes. Its
      value is kept apart, so that a rewrite changes the value alone. */
  datatype Slot = Slot(name: string, open: char, close: char)

  /** A tag laid out as text, attribute, text, ..., attribute, text: the
      attribute `slots[k]` carries the value `vals[k]` and sits between
      `texts[k]` and `texts[k + 1]`. */
  function Fill(texts: seq<string>, slots: seq<Slot>, vals: seq<string>): string
    requires |texts| == |slots| + 1 && |vals| == |slots|
    decreases |slots|
  {
    if |slots| == 0 then texts[0]
    else texts[0] + slots[0].name + "=" + [slots[0].open] + vals[0] + [slots[0].close]
         + Fill(texts[1..], slots[1..], vals[1..])
  }

  /** The tag around its `k`-th attribute: what comes before and after it
      does not depend on the attribute itself. */
  lemma {:induction false} FillAround(texts: seq<string>, slots: seq<Slot>, vals: seq<string>, k: nat)
    requires |texts| == |slots| + 1 && |vals| == |slots| && k < |slots|
    ensures Fill(texts, slots, vals)
            == Attribute(Fill(texts[..k + 1], slots[..k], vals[..k]), slots[k].name, slots[k].open, vals[k],
                         slots[k].close, Fill(texts[k + 1..], slots[k + 1..], vals[k + 1..]))
    decreases k
  {
    if k > 0 {
      FillAround(texts[1..], slots[1..], vals[1..], k - 1);
      assert texts[1..][..k] == texts[1..k + 1];
      assert slots[1..][..k - 1] == slots[1..k];
      assert vals[1..][..k - 1] == vals[1..k];
      assert texts[1..][k..] == texts[k + 1..];
      assert slots[1..][k..] == slots[k + 1..];
      assert vals[1..][k..] == vals[k + 1..];
      var pre := Fill(texts[..k + 1], slots[..k], vals[..k]);
      assert texts[..k + 1][1..] == texts[1..k + 1];
      assert slots[..k][1..] == slots[1..k];
      assert vals[..k][1..] == vals[1..k];
      assert pre == texts[0] + slots[0].name + "=" + [slots[0].open] + vals[0] + [slots[0].close]
                    + Fill(texts[1..k + 1], slots[1..k], vals[1..k]);
    } else {
      assert texts[1..] == texts[k + 1..];
      assert Fill(texts[..1], slots[..0], vals[..0]) == texts[0];
    }
  }

  /** The `k`-th attribute of the tag is the only match of `attr`. */
  predicate SoleSlot(texts: seq<string>, slots: seq<Slot>, vals: seq<string>, k: nat, attr: string, q: Quotes)
    requires |texts| == |slots| + 1 && |vals| == |slots| && k < |slots|
  {
    SoleAttribute(Fill(texts[..k + 1], slots[..k], vals[..k]), slots[k].name, slots[k].open, vals[k],
                  slots[k].close, Fill(texts[k + 1..], slots[k + 1..], vals[k + 1..]), attr, q)
  }

  /** Rewriting the sole match of `attr` changes that attribute alone: its
      name takes the pattern's spelling and its value becomes `value`. */
  lemma SlotReplaced(texts: seq<string>, slots: seq<Slot>, vals: seq<string>, k: nat, attr: string,
                     value: string, q: Quotes)
    requires |texts| == |slots| + 1 && |vals| == |slots| && k < |slots|
    requires SoleSlot(texts, slots, vals, k, attr, q)
    ensures ReplaceFrom(Fill(texts, slots, vals), 0, attr, value, q)
            == Fill(texts, slots[k := slots[k].(name := attr)], vals[k := value])
  {
    var slots' := slots[k := slots[k].(name := attr)];
    var vals' := vals[k := value];
    FillAround(texts, slots, vals, k);
    FillAround(texts, slots', vals', k);
    assert slots'[..k] == slots[..k] && vals'[..k] == vals[..k];
    assert slots'[k + 1..] == slots[k + 1..] && vals'[k + 1..] == vals[k + 1..];
    ReplacesOnly(Fill(texts[..k + 1], slots[..k], vals[..k]), slots[k].name, slots[k].open, vals[k], slots[k].close,
                 Fill(texts[k + 1..], slots[k + 1..], vals[k + 1..]), attr, value, q);
  }

  /** The four slots `at[0]`, ..., `at[3]` of a four-attribute tag, which
      hold src, alt, width and height in whatever order the tag has them. */
  predicate Placement(at: seq<nat>) {
    |at| == 4 && (forall j :: 0 <= j < 4 ==> at[j] < 4)
    && at[0] != at[1] && at[0] != at[2] && at[0] != at[3]
    && at[1] != at[2] && at[1] != at[3] && at[2] != at[3]
  }

  /** The attribute names in the order the filter rewrites them. */
  const Names: seq<string> := ["src", "alt", "width", "height"]

  /** The slots after the first `n` rewrites: an applied rewrite gives its
      slot the pattern's spelling of the name, a skipped one (`skip[j]`)
      leaves it alone. */
  function Renamed(slots: seq<Slot>, at: seq<nat>, skip: seq<bool>, n: nat): (r: seq<Slot>)
    requires |slots| == 4 && Placement(at) && |skip| == 4 && n <= 4
    ensures |r| == 4
  {
    if n == 0 then slots
    else if skip[n - 1] then Renamed(slots, at, skip, n - 1)
    else Renamed(slots, at, skip, n - 1)[at[n - 1] := slots[at[n - 1]].(name := Names[n - 1])]
  }

  /** The values after the first `n` rewrites, the `j`-th one putting
      `vs[j]` into slot `at[j]` unless it is skipped. */
  function Assigned(vals: seq<string>, at: seq<nat>, vs: seq<string>, skip: seq<bool>, n: nat): (r: seq<string>)
    requires |vals| == 4 && Placement(at) && |vs| == 4 && |skip| == 4 && n <= 4
    ensures |r| == 4
  {
    if n == 0 then vals
    else if skip[n - 1] then Assigned(vals, at, vs, skip, n - 1)
    else Assigned(vals, at, vs, skip, n - 1)[at[n - 1] := vs[n - 1]]
  }

  /** Each rewrite leaves the slots of the later ones as they were. */
  lemma {:induction false} LaterSlotsKept(slots: seq<Slot>, at: seq<nat>, skip: seq<bool>, m: nat, j: nat)
    requires |slots| == 4 && Placement(at) && |skip| == 4 && m <= j < 4
    ensures Renamed(slots, at, skip, m)[at[j]] == slots[at[j]]
  {
    if m > 0 {
      LaterSlotsKept(slots, at, skip, m - 1, j);
    }
  }

  /** The `n`-th rewrite, applied to the tag after the first `n`, gives the
      tag after `n + 1`. */
  lemma RewriteStep(texts: seq<string>, slots: seq<Slot>, vals: seq<string>, at: seq<nat>, vs: seq<string>,
                    skip: seq<bool>, n: nat, q: Quotes)
    requires |texts| == 5 && |slots| == 4 && |vals| == 4 && Placement(at) && |vs| == 4 && |skip| == 4 && n < 4
    requires !skip[n]
    requires SoleSlot(texts, Renamed(slots, at, skip, n), Assigned(vals, at, vs, skip, n), at[n], Names[n], q)
    ensures ReplaceFrom(Fill(texts, Renamed(slots, at, skip, n), Assigned(vals, at, vs, skip, n)), 0, Names[n], vs[n], q)
            == Fill(texts, Renamed(slots, at, skip, n + 1), Assigned(vals, at, vs, skip, n + 1))
  {
    LaterSlotsKept(slots, at, skip, n, n);
    SlotReplaced(texts, Renamed(slots, at, skip, n), Assigned(vals, at, vs, skip, n), at[n], Names[n], vs[n], q);
  }

  /** Each rewrite leaves the values of the later ones as they were. */
  lemma {:induction false} LaterValuesKept(vals: seq<string>, at: seq<nat>, vs: seq<string>, skip: seq<bool>, m: nat, j: nat)
    requires |vals| == 4 && Placement(at) && |vs| == 4 && |skip| == 4 && m <= j < 4
    ensures Assigned(vals, at, vs, skip, m)[at[j]] == vals[at[j]]
  {
    if m > 0 {
      LaterValuesKept(vals, at, vs, skip, m - 1, j);
    }
  }

  /** After the first `n` rewrites, the slot of an earlier one `j` holds
      its new name and value if it was applied, its old ones if skipped. */
  lemma {:induction false} EarlierSlotSet(slots: seq<Slot>, vals: seq<string>, at: seq<nat>, vs: seq<string>,
                                          skip: seq<bool>, n: nat, j: nat)
    requires |slots| == 4 && |vals| == 4 && Placement(at) && |vs| == 4 && |skip| == 4 && j < n <= 4
    ensures Assigned(vals, at, vs, skip, n)[at[j]] == (if skip[j] then vals[at[j]] else vs[j])
    ensures Renamed(slots, at, skip, n)[at[j]] == (if skip[j] then slots[at[j]] else slots[at[j]].(name := Names[j]))
    decreases n
  {
    if j == n - 1 {
      LaterValuesKept(vals, at, vs, skip, j, j);
      LaterSlotsKept(slots, at, skip, j, j);
    } else {
      EarlierSlotSet(slots, vals, at, vs, skip, n - 1, j);
    }
  }

  /** After all four rewrites every applied slot holds its new name and
      value and every skipped one its old. */
  lemma AllAssigned(slots: seq<Slot>, vals: seq<string>, at: seq<nat>, vs: seq<string>, skip: seq<bool>)
    requires |slots| == 4 && |vals| == 4 && Placement(at) && |vs| == 4 && |skip| == 4
    ensures forall j :: 0 <= j < 4 ==>
              && Assigned(vals, at, vs, skip, 4)[at[j]] == (if skip[j] then vals[at[j]] else vs[j])
              && Renamed(slots, at, skip, 4)[at[j]] == (if skip[j] then slots[at[j]] else slots[at[j]].(name := Names[j]))
  {
    forall j | 0 <= j < 4
      ensures Assigned(vals, at, vs, skip, 4)[at[j]] == (if skip[j] then vals[at[j]] else vs[j])
      ensures Renamed(slots, at, skip, 4)[at[j]] == (if skip[j] then slots[at[j]] else slots[at[j]].(name := Names[j]))
    {
      EarlierSlotSet(slots, vals, at, vs, skip, 4, j);
    }
  }

  /** The `n`-th step of the filter: the rewrite of `Names[n]` with
      `vs[n]`, or nothing when it is skipped. */
  function FilterStep(h: string, n: nat, vs: seq<string>, skip: seq<bool>, q: Quotes): string
    requires n < 4 && |vs| == 4 && |skip| == 4
  {
    if skip[n] then h else ReplaceFrom(h, 0, Names[n], vs[n], q)
  }

  /** The filter on a non-empty tag is its four steps in turn. */
  lemma FilterIsSteps(html: string, url: string, size: Value, alt: string, q: Quotes)
    requires !EmptyStr(html)
    ensures var vs := [url, alt, ToStr(size), ToStr(size)];
            var skip := Skips(url, size, alt);
            ReplaceAvatarHtml(html, url, size, alt, q)
            == FilterStep(FilterStep(FilterStep(FilterStep(html, 0, vs, skip, q), 1, vs, skip, q), 2, vs, skip, q), 3, vs, skip, q)
  {
    assert Names[0] == "src" && Names[1] == "alt" && Names[2] == "width" && Names[3] == "height";
  }

  /** Which of the four rewrites the filter skips: an empty url, alt text
      or size is not put in. */
  function Skips(url: string, size: Value, alt: string): (r: seq<bool>)
    ensures |r| == 4 && r[2] == r[3]
    ensures r[0] <==> EmptyStr(url)
    ensures r[1] <==> EmptyStr(alt)
    ensures r[2] <==> EmptyValue(size)
  {
    [EmptyStr(url), EmptyStr(alt), EmptyValue(size), EmptyValue(size)]
  }

  /** The whole rewrite of a tag with all four attributes, in whatever
      order the tag has them, when each attribute that is rewritten is the
      only match of its name at its turn (so the values put in before it
      bring no new match): src gets a non-empty avatar url, alt a
      non-empty alt text, and width and height both get a non-empty size,
      each in the pattern's spelling of its name; an attribute whose value
      is empty keeps its name and value, and the text around the
      attributes is kept. This covers WordPress' default call, whose alt
      text is empty. */
  lemma AllReplaced(texts: seq<string>, slots: seq<Slot>, vals: seq<string>, at: seq<nat>,
                    url: string, size: Value, alt: string, q: Quotes)
    requires |texts| == 5 && |slots| == 4 && |vals| == 4 && Placement(at)
    requires var vs := [url, alt, ToStr(size), ToStr(size)];
             var skip := Skips(url, size, alt);
             forall n :: 0 <= n < 4 && !skip[n] ==>
               SoleSlot(texts, Renamed(slots, at, skip, n), Assigned(vals, at, vs, skip, n), at[n], Names[n], q)
    ensures var vs := [url, alt, ToStr(size), ToStr(size)];
            var skip := Skips(url, size, alt);
            var vals' := Assigned(vals, at, vs, skip, 4);
            var slots' := Renamed(slots, at, skip, 4);
            && ReplaceAvatarHtml(Fill(texts, slots, vals), url, size, alt, q) == Fill(texts, slots', vals')
            && vals'[at[0]] == (if EmptyStr(url) then vals[at[0]] else url)
            && vals'[at[1]] == (if EmptyStr(alt) then vals[at[1]] else alt)
            && vals'[at[2]] == (if EmptyValue(size) then vals[at[2]] else ToStr(size))
            && vals'[at[3]] == (if EmptyValue(size) then vals[at[3]] else ToStr(size))
            && slots'[at[0]] == (if EmptyStr(url) then slots[at[0]] else slots[at[0]].(name := "src"))
            && slots'[at[1]] == (if EmptyStr(alt) then slots[at[1]] else slots[at[1]].(name := "alt"))
            && slots'[at[2]] == (if EmptyValue(size) then slots[at[2]] else slots[at[2]].(name := "width"))
            && slots'[at[3]] == (if EmptyValue(size) then slots[at[3]] else slots[at[3]].(name := "height"))
  {
    var vs := [url, alt, ToStr(size), ToStr(size)];
    var skip := Skips(url, size, alt);
    var html := Fill(texts, slots, vals);
    FillAround(texts, slots, vals, 0);
    assert !EmptyStr(html) by { assert |html| >= 4; }
    FilterIsSteps(html, url, size, alt, q);
    StepsFill(texts, slots, vals, at, vs, skip, q);
    FinalSlots(slots, vals, at, url, size, alt);
  }

  /** The four steps in turn take the tag to its filled-in form. */
  lemma StepsFill(texts: seq<string>, slots: seq<Slot>, vals: seq<string>, at: seq<nat>, vs: seq<string>,
                  skip: seq<bool>, q: Quotes)
    requires |texts| == 5 && |slots| == 4 && |vals| == 4 && Placement(at) && |vs| == 4 && |skip| == 4
    requires forall n :: 0 <= n < 4 && !skip[n] ==>
               SoleSlot(texts, Renamed(slots, at, skip, n), Assigned(vals, at, vs, skip, n), at[n], Names[n], q)
    ensures var html := Fill(texts, slots, vals);
            FilterStep(FilterStep(FilterStep(FilterStep(html, 0, vs, skip, q), 1, vs, skip, q), 2, vs, skip, q), 3, vs, skip, q)
            == Fill(texts, Renamed(slots, at, skip, 4), Assigned(vals, at, vs, skip, 4))
  {
    var html := Fill(texts, slots, vals);
    var h1 := AppliedStep(texts, slots, vals, at, vs, skip, 0, html, q);
    var h2 := AppliedStep(texts, slots, vals, at, vs, skip, 1, h1, q);
    var h3 := AppliedStep(texts, slots, vals, at, vs, skip, 2, h2, q);
    var h4 := AppliedStep(texts, slots, vals, at, vs, skip, 3, h3, q);
  }

  /** The slots and values once the filter's four steps are through. */
  lemma FinalSlots(slots: seq<Slot>, vals: seq<string>, at: seq<nat>, url: string, size: Value, alt: string)
    requires |slots| == 4 && |vals| == 4 && Placement(at)
    ensures var vs := [url, alt, ToStr(size), ToStr(size)];
            var skip := Skips(url, size, alt);
            var vals' := Assigned(vals, at, vs, skip, 4);
            var slots' := Renamed(slots, at, skip, 4);
            && vals'[at[0]] == (if EmptyStr(url) then vals[at[0]] else url)
            && vals'[at[1]] == (if EmptyStr(alt) then vals[at[1]] else alt)
            && vals'[at[2]] == (if EmptyValue(size) then vals[at[2]] else ToStr(size))
            && vals'[at[3]] == (if EmptyValue(size) then vals[at[3]] else ToStr(size))
            && slots'[at[0]] == (if EmptyStr(url) then slots[at[0]] else slots[at[0]].(name := "src"))
            && slots'[at[1]] == (if EmptyStr(alt) then slots[at[1]] else slots[at[1]].(name := "alt"))
            && slots'[at[2]] == (if EmptyValue(size) then slots[at[2]] else slots[at[2]].(name := "width"))
            && slots'[at[3]] == (if EmptyValue(size) then slots[at[3]] else slots[at[3]].(name := "height"))
  {
    var vs := [url, alt, ToStr(size), ToStr(size)];
    AllAssigned(slots, vals, at, vs, Skips(url, size, alt));
    assert Names[0] == "src" && Names[1] == "alt" && Names[2] == "width" && Names[3] == "height";
  }

  /** One step of the filter, applied or skipped, on the tag after the
      first `n` steps. */
  lemma AppliedStep(texts: seq<string>, slots: seq<Slot>, vals: seq<string>, at: seq<nat>, vs: seq<string>,
                    skip: seq<bool>, n: nat, h: string, q: Quotes) returns (h': string)
    requires |texts| == 5 && |slots| == 4 && |vals| == 4 && Placement(at) && |vs| == 4 && |skip| == 4 && n < 4
    requires h == Fill(texts, Renamed(slots, at, skip, n), Assigned(vals, at, vs, skip, n))
    requires !skip[n] ==> SoleSlot(texts, Renamed(slots, at, skip, n), Assigned(vals, at, vs, skip, n), at[n], Names[n], q)
    ensures h' == FilterStep(h, n, vs, skip, q)
    ensures h' == Fill(texts, Renamed(slots, at, skip, n + 1), Assigned(vals, at, vs, skip, n + 1))
  {
    if skip[n] {
      h' := h;
    } else {
      RewriteStep(texts, slots, vals, at, vs, skip, n, q);
      h' := ReplaceFrom(h, 0, Names[n], vs[n], q);
    }
  }

  /** As written, a '|' in the alt text ends the old value: its tail stays
      behind the new text. The intended class replaces the whole value. */
  lemma BarInAltText()
    ensures ReplaceAvatarHtml("alt='a|b'", "", VNull, "c", WithBar) == "alt='c|b'"
    ensures ReplaceAvatarHtml("alt='a|b'", "", VNull, "c", QuotesOnly) == "alt='c'"
  {
    BarEndsValue();
  }

  /** What one call of the filter produces: the html and the cache after it. */
  datatype Rendered = Rendered(html: string, cache: CacheState)

  /** `get_aplus_avatar` (lines 282-316). `None` when resolving the profile
      url outran the fuel. */
  function GetAplusAvatar(s: CacheState, avatar: string, size: Value, alt: string,
                          comment: Option<Comment>, post: Option<Post>,
                          useExtraField: Value, meta: int -> string, env: Env, fuel: nat, q: Quotes): (r: Option<Rendered>)
    ensures comment.None? || post.None? ==> r == Some(Rendered(avatar, s))
    ensures var url := GetProfileUrl(comment, useExtraField, meta);
            comment.Some? && post.Some? && (url.None? || EmptyStr(url.value)) ==> r == Some(Rendered(avatar, s))
    ensures var url := GetProfileUrl(comment, useExtraField, meta);
            comment.Some? && post.Some? && url.Some? && !EmptyStr(url.value) ==>
              var b := Construct(s, url.value, size, IdOr0(post.value.id), env, fuel);
              && (r.None? <==> b.None?)
              && (r.Some? ==> r.value.cache == b.value.cache)
              && (r.Some? && GetService(b.value.data) == False ==> r.value.html == avatar)
              && (r.Some? && GetService(b.value.data) != False && EmptyStr(avatar) ==> r.value.html == "")
              && (r.Some? && GetService(b.value.data) != False ==>
                    r.value.html == ReplaceAvatarHtml(avatar, GetAvatarUrl(b.value.data, size, env.services).avatar, size, alt, q))
  {
    if comment.None? || post.None? then Some(Rendered(avatar, s))
    else
      match GetProfileUrl(comment, useExtraField, meta)
      case None => Some(Rendered(avatar, s))
      case Some(url) =>
        if EmptyStr(url) then Some(Rendered(avatar, s))
        else
          match Construct(s, url, size, IdOr0(post.value.id), env, fuel)
          case None => None
          case Some(b) =>
            if GetService(b.data) == False then Some(Rendered(avatar, b.cache))
            else
              var step := GetAvatarUrl(b.data, size, env.services);
              Some(Rendered(ReplaceAvatarHtml(avatar, step.avatar, size, alt, q), b.cache))
  }

  /** The second time the same comment is shown on the same post the avatar
      comes out of the cache: the same html, one more hit, nothing else
      changes. */
  lemma SecondRenderFromCache(s: CacheState, avatar: string, size: Value, alt: string,
                              c: Comment, post: Post, useExtraField: Value, meta: int -> string,
                              env: Env, fuel: nat, fuel2: nat, q: Quotes)
    requires var url := GetProfileUrl(Some(c), useExtraField, meta);
             url.Some? && Accepts(env.net, url.value)
    ensures var first := GetAplusAvatar(s, avatar, size, alt, Some(c), Some(post), useExtraField, meta, env, fuel, q);
            first.Some? ==>
              GetAplusAvatar(first.value.cache, avatar, size, alt, Some(c), Some(post), useExtraField, meta, env, fuel2, q)
              == Some(Rendered(first.value.html, first.value.cache.(hits := first.value.cache.hits + 1)))
  {
    var url := GetProfileUrl(Some(c), useExtraField, meta).value;
    if !EmptyStr(url) {
      SecondConstructionHits(s, url, size, size, IdOr0(post.id), env, fuel, fuel2);
      var b := Construct(s, url, size, IdOr0(post.id), env, fuel);
      if b.Some? {
        var b2 := Construct(b.value.cache, url, size, IdOr0(post.id), env, fuel2);
        assert b2 == Some(Built(b.value.cache.(hits := b.value.cache.hits + 1), b.value.data));
        var d := b.value.data;
        var html := if GetService(d) == False then avatar
                    else ReplaceAvatarHtml(avatar, GetAvatarUrl(d, size, env.services).avatar, size, alt, q);
        assert GetAplusAvatar(s, avatar, size, alt, Some(c), Some(post), useExtraField, meta, env, fuel, q)
               == Some(Rendered(html, b.value.cache));
        assert GetAplusAvatar(b.value.cache, avatar, size, alt, Some(c), Some(post), useExtraField, meta, env, fuel2, q)
               == Some(Rendered(html, b2.value.cache));
      }
    }
  }
}
