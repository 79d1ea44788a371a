/** Option access and validation (avatarplus/backend/backend.php:83-94, 245-259).
    The static `Backend::$options` memo and the database row it is read
    from are one state value; PHP arrays with string keys are maps. A
    missing row makes WordPress' `get_option` answer `false`, which the
    memo holds as an empty map (both are `empty()`). */
module Backend {
  import opened Php

  type Options = map<string, Value>

  /** `memo`: the static `self::$options`; `stored`: the option row in the
      database, `None` when there is none. */
  datatype OptionState = OptionState(memo: Options, stored: Option<Options>)

  /** What WordPress' `get_option` reads, a missing row as the empty map. */
  function Row(o: OptionState): Options {
    if o.stored.Some? then o.stored.value else map[]
  }

  /** `Backend::get_option()` answers `false`: the memo is empty and there is
      no row to fill it from. */
  predicate NoRow(o: OptionState) {
    o.memo == map[] && o.stored.None?
  }

  /** What `get_option` returns: the whole array, one value, or null. */
  datatype OptionResult = All(options: Options) | One(value: Value) | Null

  datatype Lookup = Lookup(state: OptionState, result: OptionResult)

  /** `get_option($option_name)`. The database is read only when the memo
      is empty; an empty name (PHP's "" or "0") asks for every option; an
      option that is absent or null answers null. */
  function GetOption(o: OptionState, name: string): (r: Lookup)
    ensures r.state.stored == o.stored
    ensures r.state.memo == (if o.memo == map[] then Row(o) else o.memo)
    ensures EmptyStr(name) ==> r.result == All(r.state.memo)
    ensures !EmptyStr(name) ==>
              (r.result.One? <==> name in r.state.memo && r.state.memo[name] != VNull)
    ensures r.result.One? ==> r.result.value == r.state.memo[name]
  {
    var m := if o.memo == map[] then Row(o) else o.memo;
    var o1 := o.(memo := m);
    if EmptyStr(name) then Lookup(o1, All(m))
    else if name in m && m[name] != VNull then Lookup(o1, One(m[name]))
    else Lookup(o1, Null)
  }

  /** The value of `$input[$key]`: null when the key is absent. */
  function Get(m: Options, key: string): Value {
    if key in m then m[key] else VNull
  }

  predicate IsNumberChar(c: char) {
    IsDigit(c) || c == '+' || c == '-'
  }

  /** `FILTER_SANITIZE_NUMBER_INT`: keep digits, '+' and '-' and drop every other character. */
  function SanitizeNumberInt(s: string): (r: string)
    ensures forall i :: 0 <= i < |r| ==> IsNumberChar(r[i])
    ensures forall c :: IsNumberChar(c) ==> multiset(r)[c] == multiset(s)[c]
    ensures forall c :: !IsNumberChar(c) ==> multiset(r)[c] == 0
    ensures |s| == 1 ==> r == (if IsNumberChar(s[0]) then s else "")
    decreases |s|
  {
    if |s| == 0 then ""
    else
      var rest := SanitizeNumberInt(s[1..]);
      assert s == [s[0]] + s[1..];
      if IsNumberChar(s[0]) then [s[0]] + rest else rest
  }

  /** The sanitizer works character by character, keeping the order: the
      result for `a + b` is the result for `a` followed by that for `b`. */
  lemma {:induction false} SanitizeConcat(a: string, b: string)
    ensures SanitizeNumberInt(a + b) == SanitizeNumberInt(a) + SanitizeNumberInt(b)
    decreases |a|
  {
    if |a| > 0 {
      assert (a + b)[1..] == a[1..] + b;
      SanitizeConcat(a[1..], b);
    } else {
      assert a + b == b;
    }
  }

  /** Appending one character appends it to the result exactly when it is a digit or a sign. */
  lemma SanitizeAppend(s: string, c: char)
    ensures SanitizeNumberInt(s + [c]) == SanitizeNumberInt(s) + (if IsNumberChar(c) then [c] else [])
  {
    SanitizeConcat(s, [c]);
  }

  /** The sanitizer keeps a string that only has digits and signs, and so is idempotent. */
  lemma {:induction false} SanitizeKeepsNumber(s: string)
    requires forall i :: 0 <= i < |s| ==> IsNumberChar(s[i])
    ensures SanitizeNumberInt(s) == s
    decreases |s|
  {
    if |s| > 0 {
      SanitizeKeepsNumber(s[1..]);
      assert s == [s[0]] + s[1..];
    }
  }

  /** The periods the validator accepts. */
  predicate IsPeriod(p: string) {
    p == "days" || p == "weeks" || p == "month" || p == "years"
  }

  const ExtraFieldKey := "use_extra_field"
  const ExpirationValueKey := "cache_expiration_value"
  const ExpirationPeriodKey := "cache_expiration_periode"

  datatype Validated = Validated(state: OptionState, options: Options)

  /** The array `options_validate` normalises: the submitted options merged
      over the existing ones. Without an option row `array_merge(false, $input)`
      is null in PHP 5, and the three assignments then start from an empty array. */
  function Merged(o: OptionState, input: Options): (m: Options)
    ensures NoRow(o) ==> m == map[]
    ensures !NoRow(o) ==> m.Keys == GetOption(o, "").state.memo.Keys + input.Keys
    ensures !NoRow(o) ==> forall k :: k in input ==> m[k] == input[k]
    ensures !NoRow(o) ==> forall k :: k in GetOption(o, "").state.memo && k !in input ==> m[k] == GetOption(o, "").state.memo[k]
  {
    if NoRow(o) then map[] else GetOption(o, "").state.memo + input
  }

  /** `options_validate($input)`: merge the submitted options over the
      existing ones, then normalise the three options the form can post. */
  function OptionsValidate(o: OptionState, input: Options): (r: Validated)
    ensures r.state == GetOption(o, "").state
    ensures NoRow(o) ==> r.options.Keys == {ExtraFieldKey, ExpirationValueKey, ExpirationPeriodKey}
    ensures !NoRow(o) ==> r.options.Keys == r.state.memo.Keys + input.Keys + {ExtraFieldKey, ExpirationValueKey, ExpirationPeriodKey}
    ensures !NoRow(o) ==>
              forall k :: k in input && k != ExtraFieldKey && k != ExpirationValueKey && k != ExpirationPeriodKey
                ==> r.options[k] == input[k]
    ensures !NoRow(o) ==>
              forall k :: k in r.state.memo && k !in input && k != ExtraFieldKey && k != ExpirationValueKey && k != ExpirationPeriodKey
                ==> r.options[k] == r.state.memo[k]
    ensures r.options[ExtraFieldKey] == VBool(Get(Merged(o, input), ExtraFieldKey) == VStr("on"))
    ensures r.options[ExpirationValueKey] == VStr(SanitizeNumberInt(ToStr(Get(Merged(o, input), ExpirationValueKey))))
    ensures r.options[ExpirationPeriodKey].VStr? && IsPeriod(r.options[ExpirationPeriodKey].s)
    ensures IsPeriod(ToStr(Get(Merged(o, input), ExpirationPeriodKey)))
            <==> r.options[ExpirationPeriodKey] == VStr(ToStr(Get(Merged(o, input), ExpirationPeriodKey)))
  {
    var current := GetOption(o, "");
    var merged := Merged(o, input);
    var period := ToStr(Get(merged, ExpirationPeriodKey));
    var out := merged[ExtraFieldKey := VBool(Get(merged, ExtraFieldKey) == VStr("on"))]
                     [ExpirationValueKey := VStr(SanitizeNumberInt(ToStr(Get(merged, ExpirationValueKey))))]
                     [ExpirationPeriodKey := VStr(if IsPeriod(period) then period else "days")];
    Validated(current.state, out)
  }

  /** The settings form offers 'months', which the validator turns into 'days'. */
  lemma MonthsBecomesDays(o: OptionState, input: Options)
    requires ExpirationPeriodKey in input && input[ExpirationPeriodKey] == VStr("months")
    ensures OptionsValidate(o, input).options[ExpirationPeriodKey] == VStr("days")
  {
  }

  /** When the stored flag is not the string 'on' (after any earlier
      validation it is a boolean), the flag is on exactly when the form
      posted 'on' and an option row exists; a missing field turns it off. */
  lemma ExtraFieldFromInput(o: OptionState, input: Options)
    requires Get(GetOption(o, "").state.memo, ExtraFieldKey) != VStr("on")
    ensures OptionsValidate(o, input).options[ExtraFieldKey]
            == VBool(!NoRow(o) && ExtraFieldKey in input && input[ExtraFieldKey] == VStr("on"))
  {
  }

  /** Validating an already validated array keeps the period and the
      expiration value, but turns the extra-field flag off: a stored `true`
      is not the string 'on'. */
  lemma Revalidate(o: OptionState, input: Options)
    ensures var v := OptionsValidate(o, input);
            var w := OptionsValidate(v.state, v.options).options;
            && w[ExpirationValueKey] == v.options[ExpirationValueKey]
            && w[ExpirationPeriodKey] == v.options[ExpirationPeriodKey]
            && w[ExtraFieldKey] == VBool(false)
  {
    var v := OptionsValidate(o, input);
    assert v.state.memo + v.options == v.options;
    SanitizeKeepsNumber(v.options[ExpirationValueKey].s);
  }
}
