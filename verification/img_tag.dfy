/** The attribute rewrite of `replace_avatar_html` (avatarplus.php:375-385):
    `preg_replace('#<attr>=(["|'])(.*)(["|'])#Uuis', '<attr>=${1}<value>${3}', $html)`.

    The pattern is unanchored and case-insensitive, `U` makes `.*` lazy and
    `s` lets it cross line breaks, so a match at a position is the attribute
    name, '=', a quote, and everything up to the FIRST quote after it. The
    class `["|']` holds three characters: the double quote, the bar and the
    single quote. Every match, left to right and without overlap, is
    replaced.

    The bar in the class is evidently a slip for an alternation: it ends an
    attribute value at a '|'. `WithBar` models the class as written and
    `QuotesOnly` the intended `["']`; `ReplaceAttrAsWritten` and
    `ReplaceAttr` fix the class, and the filter takes it as a parameter. */
module ImgTag {
  import opened Php

  /** The character class that opens and closes an attribute value. */
  datatype Quotes = WithBar | QuotesOnly

  /** A character of the class: `["|']` or `["']`. */
  predicate IsQuote(c: char, q: Quotes) {
    c == '"' || c == '\'' || (q == WithBar && c == '|')
  }

  predicate NoQuote(s: string, q: Quotes) {
    forall i :: 0 <= i < |s| ==> !IsQuote(s[i], q)
  }

  /** The first quote at or after `from`. */
  function FindQuote(s: string, from: nat, q: Quotes): (r: Option<nat>)
    ensures r.Some? ==> from <= r.value < |s| && IsQuote(s[r.value], q)
                        && NoQuote(s[from..r.value], q)
    ensures r.None? ==> from >= |s| || NoQuote(s[from..], q)
    decreases |s| - from
  {
    if from >= |s| then None
    else if IsQuote(s[from], q) then Some(from)
    else
      var r := FindQuote(s, from + 1, q);
      assert r.Some? ==> s[from..r.value] == [s[from]] + s[from + 1..r.value];
      assert r.None? ==> s[from..] == [s[from]] + s[from + 1..];
      r
  }

  /** Whether the literal part `<attr>=` followed by a quote starts at `p`. */
  predicate OpensAt(s: string, p: nat, attr: string, q: Quotes) {
    p + |attr| + 2 <= |s| && EqualsCI(s[p..p + |attr|], attr) && s[p + |attr|] == '=' && IsQuote(s[p + |attr| + 1], q)
  }

  /** The end (exclusive) of the match starting at `p`, if one does. */
  function MatchAt(s: string, p: nat, attr: string, q: Quotes): (r: Option<nat>)
    ensures r.Some? <==> OpensAt(s, p, attr, q) && !NoQuote(s[p + |attr| + 2..], q)
    ensures r.Some? ==> p + |attr| + 3 <= r.value <= |s| && IsQuote(s[r.value - 1], q)
                        && NoQuote(s[p + |attr| + 2..r.value - 1], q)
  {
    if !OpensAt(s, p, attr, q) then None
    else
      match FindQuote(s, p + |attr| + 2, q)
      case None => None
      case Some(k) => Some(k + 1)
  }

  /** The text that replaces the match `s[p..e]`: the attribute as the
      pattern spells it, '=', both captured quotes around the new value. */
  function Replacement(s: string, p: nat, e: nat, attr: string, value: string): string
    requires p + |attr| + 1 < e <= |s|
  {
    attr + "=" + [s[p + |attr| + 1]] + value + [s[e - 1]]
  }

  /** `preg_replace` from position `p` on. */
  function ReplaceFrom(s: string, p: nat, attr: string, value: string, q: Quotes): (r: string)
    requires p <= |s|
    decreases |s| - p
  {
    if p == |s| then ""
    else
      match MatchAt(s, p, attr, q)
      case Some(e) => Replacement(s, p, e, attr, value) + ReplaceFrom(s, e, attr, value, q)
      case None => [s[p]] + ReplaceFrom(s, p + 1, attr, value, q)
  }

  /** `preg_replace` of one attribute, with the intended quote class. */
  function ReplaceAttr(s: string, attr: string, value: string): string {
    ReplaceFrom(s, 0, attr, value, QuotesOnly)
  }

  /** `preg_replace` of one attribute, with the class `["|']` as written. */
  function ReplaceAttrAsWritten(s: string, attr: string, value: string): string {
    ReplaceFrom(s, 0, attr, value, WithBar)
  }

  /** A stretch in which no match starts is copied unchanged. */
  lemma {:induction false} CopiesUnmatched(s: string, p: nat, stop: nat, attr: string, value: string, q: Quotes)
    requires p <= stop <= |s|
    requires forall i :: p <= i < stop ==> MatchAt(s, i, attr, q).None?
    ensures ReplaceFrom(s, p, attr, value, q) == s[p..stop] + ReplaceFrom(s, stop, attr, value, q)
    decreases stop - p
  {
    if p < stop {
      assert MatchAt(s, p, attr, q).None?;
      CopiesUnmatched(s, p + 1, stop, attr, value, q);
      var rest := ReplaceFrom(s, stop, attr, value, q);
      calc {
        ReplaceFrom(s, p, attr, value, q);
        [s[p]] + ReplaceFrom(s, p + 1, attr, value, q);
        [s[p]] + (s[p + 1..stop] + rest);
        ([s[p]] + s[p + 1..stop]) + rest;
        { assert s[p..stop] == [s[p]] + s[p + 1..stop]; }
        s[p..stop] + rest;
      }
    }
  }

  /** Without a match the html comes back unchanged. */
  lemma NoMatchUnchanged(s: string, attr: string, value: string, q: Quotes)
    requires forall i :: 0 <= i < |s| ==> MatchAt(s, i, attr, q).None?
    ensures ReplaceFrom(s, 0, attr, value, q) == s
  {
    CopiesUnmatched(s, 0, |s|, attr, value, q);
  }

  /** The first quote after `a` is the quote at `b` that ends a quote-free stretch. */
  lemma {:induction false} FindQuoteAt(s: string, a: nat, b: nat, q: Quotes)
    requires a <= b < |s| && IsQuote(s[b], q) && NoQuote(s[a..b], q)
    ensures FindQuote(s, a, q) == Some(b)
    decreases b - a
  {
    if a < b {
      assert s[a..b][0] == s[a];
      assert s[a + 1..b] == s[a..b][1..];
      FindQuoteAt(s, a + 1, b, q);
    }
  }

  /** The match at the first position where one starts is replaced and the
      text before it is kept. */
  lemma ReplacesAt(s: string, p: nat, e: nat, attr: string, value: string, q: Quotes)
    requires p <= |s| && MatchAt(s, p, attr, q) == Some(e)
    requires forall i :: 0 <= i < p ==> MatchAt(s, i, attr, q).None?
    ensures ReplaceFrom(s, 0, attr, value, q) == s[..p] + Replacement(s, p, e, attr, value) + ReplaceFrom(s, e, attr, value, q)
  {
    CopiesUnmatched(s, 0, p, attr, value, q);
  }

  /** Html holding the attribute `name`, quoted by `open` and `close`, between `pre` and `post`. */
  function Attribute(pre: string, name: string, open: char, old_: string, close: char, post: string): string {
    pre + name + "=" + [open] + old_ + [close] + post
  }

  lemma AttributeLayout(pre: string, name: string, open: char, old_: string, close: char, post: string)
    ensures var s := Attribute(pre, name, open, old_, close, post);
            var p := |pre| + |name|;
            && |s| == p + |old_| + 3 + |post|
            && s[..|pre|] == pre && s[|pre|..p] == name && s[p] == '=' && s[p + 1] == open
            && s[p + 2..p + 2 + |old_|] == old_ && s[p + 2 + |old_|] == close
  {
    var s := Attribute(pre, name, open, old_, close, post);
    var tail := "=" + [open] + old_ + [close] + post;
    assert s == pre + name + tail;
    assert s[|pre| + |name|..] == tail;
    assert tail[2..2 + |old_|] == old_;
  }

  /** The match that starts at the attribute ends after its closing quote. */
  lemma MatchOfAttribute(pre: string, name: string, open: char, old_: string, close: char, post: string,
                         attr: string, q: Quotes)
    requires EqualsCI(name, attr) && IsQuote(open, q) && IsQuote(close, q) && NoQuote(old_, q)
    ensures var s := Attribute(pre, name, open, old_, close, post);
            && MatchAt(s, |pre|, attr, q) == Some(|s| - |post|)
            && s[|pre| + |attr| + 1] == open && s[|s| - |post| - 1] == close
  {
    var s := Attribute(pre, name, open, old_, close, post);
    AttributeLayout(pre, name, open, old_, close, post);
    var p := |pre|;
    var v := p + |name| + 2;
    var e := v + |old_| + 1;
    assert |attr| == |name|;
    assert OpensAt(s, p, attr, q);
    assert NoQuote(s[v..e - 1], q) by { assert s[v..e - 1] == old_; }
    FindQuoteAt(s, v, e - 1, q);
  }

  /** The attribute's first occurrence: everything before it is kept, its
      old value between the quotes becomes the new one, both quotes stay,
      the name is spelled as in the pattern, and the rewrite goes on after
      the closing quote. */
  lemma ReplacesFirst(pre: string, name: string, open: char, old_: string, close: char, post: string,
                      attr: string, value: string, q: Quotes)
    requires EqualsCI(name, attr) && IsQuote(open, q) && IsQuote(close, q) && NoQuote(old_, q)
    requires forall i :: 0 <= i < |pre| ==> MatchAt(Attribute(pre, name, open, old_, close, post), i, attr, q).None?
    ensures var s := Attribute(pre, name, open, old_, close, post);
            ReplaceFrom(s, 0, attr, value, q)
            == pre + (attr + "=" + [open] + value + [close]) + ReplaceFrom(s, |s| - |post|, attr, value, q)
  {
    var s := Attribute(pre, name, open, old_, close, post);
    MatchOfAttribute(pre, name, open, old_, close, post, attr, q);
    ReplacesAt(s, |pre|, |s| - |post|, attr, value, q);
    assert s[..|pre|] == pre;
    assert Replacement(s, |pre|, |s| - |post|, attr, value) == attr + "=" + [open] + value + [close];
  }

  /** No match of the attribute starts anywhere in `s`. */
  predicate NoMatch(s: string, attr: string, q: Quotes) {
    forall i :: 0 <= i < |s| ==> MatchAt(s, i, attr, q).None?
  }

  /** An attribute that is the only match in the html gets the new value
      between its own quotes, and everything around it is kept. */
  lemma ReplacesOnly(pre: string, name: string, open: char, old_: string, close: char, post: string,
                     attr: string, value: string, q: Quotes)
    requires EqualsCI(name, attr) && IsQuote(open, q) && IsQuote(close, q) && NoQuote(old_, q)
    requires forall i :: 0 <= i < |pre| ==> MatchAt(Attribute(pre, name, open, old_, close, post), i, attr, q).None?
    requires var s := Attribute(pre, name, open, old_, close, post);
             forall i :: |s| - |post| <= i < |s| ==> MatchAt(s, i, attr, q).None?
    ensures ReplaceFrom(Attribute(pre, name, open, old_, close, post), 0, attr, value, q)
            == Attribute(pre, attr, open, value, close, post)
  {
    var s := Attribute(pre, name, open, old_, close, post);
    ReplacesFirst(pre, name, open, old_, close, post, attr, value, q);
    CopiesUnmatched(s, |s| - |post|, |s|, attr, value, q);
    assert s[|s| - |post|..] == post;
    assert ReplaceFrom(s, |s| - |post|, attr, value, q) == post;
  }

  /** With the intended class a bar inside the old value is replaced with
      the rest of it. */
  lemma BarInsideValue(pre: string, name: string, open: char, old_: string, close: char, post: string,
                       attr: string, value: string)
    requires EqualsCI(name, attr) && (open == '"' || open == '\'') && (close == '"' || close == '\'')
    requires NoQuote(old_, QuotesOnly)
    requires forall i :: 0 <= i < |pre| ==> MatchAt(Attribute(pre, name, open, old_, close, post), i, attr, QuotesOnly).None?
    ensures var s := Attribute(pre, name, open, old_, close, post);
            ReplaceAttr(s, attr, value)
            == pre + (attr + "=" + [open] + value + [close]) + ReplaceFrom(s, |s| - |post|, attr, value, QuotesOnly)
  {
    ReplacesFirst(pre, name, open, old_, close, post, attr, value, QuotesOnly);
  }

  /** As written, the bar closes the value: an alt text `a|b` keeps its
      tail after the new text, where the intended class replaces all of it. */
  lemma BarEndsValue()
    ensures ReplaceAttrAsWritten("alt='a|b'", "alt", "c") == "alt='c|b'"
    ensures ReplaceAttr("alt='a|b'", "alt", "c") == "alt='c'"
  {
    var s := "alt='a|b'";
    assert OpensAt(s, 0, "alt", WithBar) && OpensAt(s, 0, "alt", QuotesOnly) by {
      assert EqualsCI(s[0..3], "alt");
    }
    assert MatchAt(s, 0, "alt", WithBar) == Some(7) by {
      assert FindQuote(s, 5, WithBar) == Some(6);
    }
    assert ReplaceFrom(s, 7, "alt", "c", WithBar) == "b'" by {
      assert MatchAt(s, 7, "alt", WithBar).None?;
      assert MatchAt(s, 8, "alt", WithBar).None?;
    }
    assert MatchAt(s, 0, "alt", QuotesOnly) == Some(9) by {
      assert FindQuote(s, 7, QuotesOnly) == Some(8);
      assert FindQuote(s, 6, QuotesOnly) == Some(8);
      assert FindQuote(s, 5, QuotesOnly) == Some(8);
    }
    assert ReplaceFrom(s, 9, "alt", "c", QuotesOnly) == "";
  }

  /** An upper-case name is rewritten in the pattern's lower-case spelling. */
  lemma UpperCaseExample()
    ensures ReplaceAttr("SRC='a'", "src", "b") == "src='b'"
  {
    var s := "SRC='a'";
    assert MatchAt(s, 0, "src", QuotesOnly) == Some(7) by {
      assert EqualsCI(s[0..3], "src");
      assert FindQuote(s, 5, QuotesOnly) == Some(6);
    }
    assert ReplaceFrom(s, 7, "src", "b", QuotesOnly) == "";
  }
}
