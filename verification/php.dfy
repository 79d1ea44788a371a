/** The parts of PHP's value semantics that the plugin's logic depends on:
    `empty()`, string and integer conversion of scalars, ASCII case folding
    for the case-insensitive regular expressions, and `trim($s, '/')`. */
module Php {

  datatype Option<+T> = None | Some(value: T)

  /** A PHP scalar as it appears in the option array or as an argument. */
  datatype Value = VNull | VBool(b: bool) | VInt(i: int) | VStr(s: string)

  /** `empty($s)` on a string: true for "" and for "0". */
  predicate EmptyStr(s: string) {
    s == "" || s == "0"
  }

  /** `empty($v)` on a scalar. */
  predicate EmptyValue(v: Value) {
    match v
    case VNull => true
    case VBool(b) => !b
    case VInt(i) => i == 0
    case VStr(s) => EmptyStr(s)
  }

  predicate IsDigit(c: char) {
    '0' <= c <= '9'
  }

  predicate AllDigits(s: string) {
    forall i :: 0 <= i < |s| ==> IsDigit(s[i])
  }

  function DigitChar(d: nat): (c: char)
    requires d < 10
    ensures IsDigit(c)
  {
    ('0' as int + d) as char
  }

  function DigitValue(c: char): (d: nat)
    requires IsDigit(c)
    ensures d < 10 && DigitChar(d) == c
  {
    (c as int) - ('0' as int)
  }

  /** Decimal text of a natural number, as PHP prints it: no leading zeros. */
  function NatToString(n: nat): (r: string)
    ensures |r| >= 1 && AllDigits(r)
    ensures r[0] == '0' <==> n == 0
    decreases n
  {
    if n < 10 then [DigitChar(n)] else NatToString(n / 10) + [DigitChar(n % 10)]
  }

  /** Value of a run of decimal digits. */
  function ParseDigits(s: string): nat
    requires AllDigits(s)
    decreases |s|
  {
    if |s| == 0 then 0 else 10 * ParseDigits(s[..|s| - 1]) + DigitValue(s[|s| - 1])
  }

  /** Reading back the printed digits gives the number again. */
  lemma {:induction false} ParseNatToString(n: nat)
    ensures ParseDigits(NatToString(n)) == n
    decreases n
  {
    var r := NatToString(n);
    if n >= 10 {
      ParseNatToString(n / 10);
      assert r[..|r| - 1] == NatToString(n / 10);
    }
  }

  /** PHP's string conversion of an integer. */
  function IntToString(i: int): (r: string)
    ensures |r| >= 1
    ensures i >= 0 ==> AllDigits(r)
    ensures i < 0 ==> r[0] == '-' && |r| >= 2 && AllDigits(r[1..])
  {
    if i >= 0 then NatToString(i) else "-" + NatToString(-i)
  }

  /** `(string) $v`. */
  function ToStr(v: Value): string {
    match v
    case VNull => ""
    case VBool(b) => if b then "1" else ""
    case VInt(i) => IntToString(i)
    case VStr(s) => s
  }

  /** Longest prefix of `s` made of digits. */
  function DigitPrefix(s: string): (r: string)
    ensures AllDigits(r) && r <= s
    ensures |r| < |s| ==> !IsDigit(s[|r|])
    decreases |s|
  {
    if |s| > 0 && IsDigit(s[0]) then [s[0]] + DigitPrefix(s[1..]) else ""
  }

  predicate IsSpace(c: char) {
    c == ' ' || c == '\t' || c == '\n' || c == '\r' || c == '\U{0B}' || c == '\U{0C}'
  }

  function SkipSpaces(s: string): (r: string)
    ensures |r| <= |s| && r == s[|s| - |r|..]
    ensures |r| > 0 ==> !IsSpace(r[0])
    decreases |s|
  {
    if |s| > 0 && IsSpace(s[0]) then SkipSpaces(s[1..]) else s
  }

  /** The integer PHP reads from the front of a string in arithmetic:
      leading white space, an optional sign, then digits; 0 when there are none. */
  function LeadingInt(s: string): int {
    var t := SkipSpaces(s);
    if |t| > 0 && t[0] == '-' then -(ParseDigits(DigitPrefix(t[1..])) as int)
    else if |t| > 0 && t[0] == '+' then ParseDigits(DigitPrefix(t[1..]))
    else ParseDigits(DigitPrefix(t))
  }

  /** The integer a scalar contributes to an integer multiplication. */
  function ToInt(v: Value): int {
    match v
    case VNull => 0
    case VBool(b) => if b then 1 else 0
    case VInt(i) => i
    case VStr(s) => LeadingInt(s)
  }

  lemma DigitPrefixOfDigits(s: string)
    requires AllDigits(s)
    ensures DigitPrefix(s) == s
  {
  }

  /** Printing an integer and reading it back in arithmetic is the identity. */
  lemma IntStringRoundTrip(i: int)
    ensures ToInt(VStr(IntToString(i))) == i
  {
    if i >= 0 {
      var r := NatToString(i);
      assert !IsSpace(r[0]) && r[0] != '-' && r[0] != '+' by { assert IsDigit(r[0]); }
      assert SkipSpaces(r) == r;
      DigitPrefixOfDigits(r);
      ParseNatToString(i);
    } else {
      var r := "-" + NatToString(-i);
      assert SkipSpaces(r) == r;
      assert r[1..] == NatToString(-i);
      DigitPrefixOfDigits(NatToString(-i));
      ParseNatToString(-i);
    }
  }

  /** ASCII lower case: the model's stand-in for PCRE's caseless matching. */
  function Lower(c: char): char {
    if 'A' <= c <= 'Z' then (c as int + 32) as char else c
  }

  predicate EqualsCI(a: string, b: string) {
    |a| == |b| && forall i :: 0 <= i < |a| ==> Lower(a[i]) == Lower(b[i])
  }

  predicate StartsWithCI(s: string, p: string) {
    |p| <= |s| && EqualsCI(s[..|p|], p)
  }

  /** `ltrim($s, '/')`. */
  function TrimLeft(s: string): (r: string)
    ensures |r| <= |s| && r == s[|s| - |r|..]
    ensures forall i :: 0 <= i < |s| - |r| ==> s[i] == '/'
    ensures |r| > 0 ==> r[0] != '/'
    decreases |s|
  {
    if |s| > 0 && s[0] == '/' then TrimLeft(s[1..]) else s
  }

  /** `rtrim($s, '/')`. */
  function TrimRight(s: string): (r: string)
    ensures |r| <= |s| && r == s[..|r|]
    ensures forall i :: |r| <= i < |s| ==> s[i] == '/'
    ensures |r| > 0 ==> r[|r| - 1] != '/'
    decreases |s|
  {
    if |s| > 0 && s[|s| - 1] == '/' then TrimRight(s[..|s| - 1]) else s
  }

  /** `trim($s, '/')`: the part of `s` between its leading and trailing slashes. */
  function TrimSlashes(s: string): (r: string)
    ensures exists a, b :: 0 <= a <= b <= |s| && r == s[a..b]
                        && (forall i :: 0 <= i < a ==> s[i] == '/')
                        && (forall i :: b <= i < |s| ==> s[i] == '/')
    ensures |r| > 0 ==> r[0] != '/' && r[|r| - 1] != '/'
  {
    var l := TrimLeft(s);
    var r := TrimRight(l);
    TrimSlashesSlice(s, l, r);
    r
  }

  /** A suffix `l` of `s` after a run of '/', and a prefix `r` of `l` before
      a run of '/', is the slice of `s` between the two runs. */
  lemma TrimSlashesSlice(s: string, l: string, r: string)
    requires |l| <= |s| && l == s[|s| - |l|..] && |r| <= |l| && r == l[..|r|]
    requires forall i :: 0 <= i < |s| - |l| ==> s[i] == '/'
    requires forall i :: |r| <= i < |l| ==> l[i] == '/'
    ensures var a := |s| - |l|;
            && r == s[a..a + |r|]
            && (forall i :: 0 <= i < a ==> s[i] == '/')
            && (forall i :: a + |r| <= i < |s| ==> s[i] == '/')
  {
    var a := |s| - |l|;
    forall i | a + |r| <= i < |s|
      ensures s[i] == '/'
    {
      assert s[i] == l[i - a];
    }
  }

  predicate NoSlash(s: string) {
    forall i :: 0 <= i < |s| ==> s[i] != '/'
  }

  /** Slashes around a string are removed, inner slashes are kept. */
  lemma {:induction false} TrimSlashesAround(pre: string, s: string, post: string)
    requires forall i :: 0 <= i < |pre| ==> pre[i] == '/'
    requires forall i :: 0 <= i < |post| ==> post[i] == '/'
    requires |s| > 0 && s[0] != '/' && s[|s| - 1] != '/'
    ensures TrimSlashes(pre + s + post) == s
  {
    TrimLeftSlashes(pre, s + post);
    assert pre + s + post == pre + (s + post);
    TrimRightSlashes(s, post);
  }

  lemma {:induction false} TrimLeftSlashes(pre: string, s: string)
    requires forall i :: 0 <= i < |pre| ==> pre[i] == '/'
    requires |s| > 0 && s[0] != '/'
    ensures TrimLeft(pre + s) == s
    decreases |pre|
  {
    if |pre| > 0 {
      assert (pre + s)[1..] == pre[1..] + s;
      TrimLeftSlashes(pre[1..], s);
    } else {
      assert pre + s == s;
    }
  }

  lemma {:induction false} TrimRightSlashes(s: string, post: string)
    requires forall i :: 0 <= i < |post| ==> post[i] == '/'
    requires |s| > 0 && s[|s| - 1] != '/'
    ensures TrimRight(s + post) == s
    decreases |post|
  {
    if |post| > 0 {
      assert (s + post)[..|s + post| - 1] == s + post[..|post| - 1];
      TrimRightSlashes(s, post[..|post| - 1]);
    } else {
      assert s + post == s;
    }
  }
}
