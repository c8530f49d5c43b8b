/** The field-extraction rules of `attr_from_map!` (ef19-core/src/models/macros.rs).
    Every arm removes its key from the map, present or not, parseable or not, and
    hands back the residual map with the value it read. The three modes are
    Optional (absent or unparseable is `None`), Required (absent or unparseable makes
    the enclosing function return `None` at once) and Defaulted (absent or unparseable
    is the default). Booleans are a `u8` that must be 0 or 1. */
module Extract {
  import opened Wrappers
  import opened Scalars

  /** The value an arm read, with the map left after removing its key. */
  datatype Taken<T> = Taken(value: T, rest: map<string, string>)

  /** The text after an optional leading `+`. */
  function Unsigned(s: string): string {
    if |s| > 0 && s[0] == '+' then s[1..] else s
  }

  /** `d` is some `0`s followed by `last`. */
  predicate ZerosThen(d: string, last: char) {
    && |d| > 0
    && (forall i :: 0 <= i < |d| - 1 ==> d[i] == '0')
    && d[|d| - 1] == last
  }

  /** The texts the boolean rule accepts for `b`, spelled out: an optional `+`, then
      digits that are all `0` except the last, which is `1` for true and `0` for false. */
  predicate FlagText(s: string, b: bool) {
    ZerosThen(Unsigned(s), if b then '1' else '0')
  }

  lemma {:induction false} ZeroDigits(d: string)
    requires AllDigits(d)
    ensures DigitsValue(d) == 0 <==> forall i :: 0 <= i < |d| ==> d[i] == '0'
    decreases |d|
  {
    if |d| > 0 {
      var front := d[..|d| - 1];
      ZeroDigits(front);
      assert forall i :: 0 <= i < |front| ==> front[i] == d[i];
    }
  }

  /** The digit strings worth 0 and 1. */
  lemma FlagDigits(d: string)
    requires AllDigits(d) && |d| > 0
    ensures DigitsValue(d) == 1 <==> ZerosThen(d, '1')
    ensures DigitsValue(d) == 0 <==> ZerosThen(d, '0')
  {
    var front := d[..|d| - 1];
    ZeroDigits(front);
    ZeroDigits(d);
    assert forall i :: 0 <= i < |front| ==> front[i] == d[i];
  }

  /** The boolean rule: `parse::<u8>()` giving 0 is false, 1 is true, anything else
      (other numbers, non-numbers) is no boolean. */
  function ParseFlag(s: string): Option<bool> {
    match ParseInt(s, U8)
    case Some(0) => Some(false)
    case Some(1) => Some(true)
    case _ => None
  }

  /** The boolean rule accepts exactly the texts `FlagText` spells out. */
  lemma ParseFlagText(s: string)
    ensures forall b :: ParseFlag(s) == Some(b) <==> FlagText(s, b)
  {
    var d := Unsigned(s);
    if |d| > 0 && AllDigits(d) {
      FlagDigits(d);
      var n := DigitsValue(d);
      assert ParseInt(s, U8) == if n <= 0xFF then Some(n) else None;
    } else {
      forall b | FlagText(s, b) ensures false {
        forall i | 0 <= i < |d| ensures IsDigit(d[i]) {
          if i < |d| - 1 {
            assert d[i] == '0';
          }
        }
      }
      assert ParseInt(s, U8) == None;
    }
  }

  // ---- Optional arms: `Option<bool>`, `Option<String>`, `Option<T>` ----

  /** `attr_from_map!(m, k, Option<bool>)`. */
  function OptionalBool(m: map<string, string>, k: string): (r: Taken<Option<bool>>)
    ensures r.rest == m - {k}
    ensures forall b :: r.value == Some(b) <==> k in m && FlagText(m[k], b)
  {
    if k in m then
      ParseFlagText(m[k]);
      Taken(ParseFlag(m[k]), m - {k})
    else Taken(None, m - {k})
  }

  /** `attr_from_map!(m, k, Option<String>)`: the removed value itself. */
  function OptionalString(m: map<string, string>, k: string): (r: Taken<Option<string>>)
    ensures r.rest == m - {k}
    ensures r.value.Some? <==> k in m
    ensures r.value.Some? ==> r.value.value == m[k]
  {
    Taken(if k in m then Some(m[k]) else None, m - {k})
  }

  /** `attr_from_map!(m, k, Option<T>)`: an unparseable value is `None`, not an error. */
  function OptionalValue<T>(m: map<string, string>, k: string, parse: string -> Option<T>)
    : (r: Taken<Option<T>>)
    ensures r.rest == m - {k}
    ensures r.value.Some? <==> k in m && parse(m[k]).Some?
    ensures r.value.Some? ==> r.value == parse(m[k])
  {
    Taken(if k in m then parse(m[k]) else None, m - {k})
  }

  // ---- Required arms: `bool`, `String`, `T`; `None` is the early `return None` ----

  /** `attr_from_map!(m, k, bool)`. */
  function RequiredBool(m: map<string, string>, k: string): (r: Option<Taken<bool>>)
    ensures r.Some? <==> k in m && (FlagText(m[k], false) || FlagText(m[k], true))
    ensures r.Some? ==> FlagText(m[k], r.value.value) && r.value.rest == m - {k}
  {
    var v :- if k in m then Some(m[k]) else None;
    ParseFlagText(v);
    var b :- ParseFlag(v);
    Some(Taken(b, m - {k}))
  }

  /** `attr_from_map!(m, k, String)`. */
  function RequiredString(m: map<string, string>, k: string): (r: Option<Taken<string>>)
    ensures r.Some? <==> k in m
    ensures r.Some? ==> r.value.value == m[k] && r.value.rest == m - {k}
  {
    var v :- if k in m then Some(m[k]) else None;
    Some(Taken(v, m - {k}))
  }

  /** `attr_from_map!(m, k, T)`. */
  function RequiredValue<T>(m: map<string, string>, k: string, parse: string -> Option<T>)
    : (r: Option<Taken<T>>)
    ensures r.Some? <==> k in m && parse(m[k]).Some?
    ensures r.Some? ==> Some(r.value.value) == parse(m[k]) && r.value.rest == m - {k}
  {
    var v :- if k in m then Some(m[k]) else None;
    var x :- parse(v);
    Some(Taken(x, m - {k}))
  }

  // ---- Defaulted arms: `bool, default`, `String, default`, `T, default` ----

  /** `attr_from_map!(m, k, bool, default = d)`: the result differs from the default
      only when the text spells the other boolean; "2" or "yes" give the default. */
  function DefaultedBool(m: map<string, string>, k: string, d: bool): (r: Taken<bool>)
    ensures r.rest == m - {k}
    ensures r.value == (if k in m && FlagText(m[k], !d) then !d else d)
  {
    if k in m then
      ParseFlagText(m[k]);
      Taken(ParseFlag(m[k]).GetOr(d), m - {k})
    else Taken(d, m - {k})
  }

  /** `attr_from_map!(m, k, String, default = d)`. */
  function DefaultedString(m: map<string, string>, k: string, d: string): (r: Taken<string>)
    ensures r.rest == m - {k}
    ensures k in m ==> r.value == m[k]
    ensures k !in m ==> r.value == d
  {
    Taken(if k in m then m[k] else d, m - {k})
  }

  /** `attr_from_map!(m, k, T, default = d)`: an unparseable value is the default. */
  function DefaultedValue<T>(m: map<string, string>, k: string, parse: string -> Option<T>, d: T)
    : (r: Taken<T>)
    ensures r.rest == m - {k}
    ensures k in m && parse(m[k]).Some? ==> Some(r.value) == parse(m[k])
    ensures !(k in m && parse(m[k]).Some?) ==> r.value == d
  {
    var v := if k in m then parse(m[k]) else None;
    Taken(v.GetOr(d), m - {k})
  }

  /** The three modes read the same thing: Required succeeds exactly when Optional
      finds a value, with that value, and Defaulted is Optional with the default
      filled in. */
  lemma ModesAgree<T>(m: map<string, string>, k: string, parse: string -> Option<T>, d: T)
    ensures var o := OptionalValue(m, k, parse);
            && (RequiredValue(m, k, parse).Some? <==> o.value.Some?)
            && (o.value.Some? ==> RequiredValue(m, k, parse) == Some(Taken(o.value.value, o.rest)))
            && DefaultedValue(m, k, parse, d) == Taken(o.value.GetOr(d), o.rest)
  {
  }

  /** The same agreement for the boolean arms. */
  lemma BoolModesAgree(m: map<string, string>, k: string, d: bool)
    ensures var o := OptionalBool(m, k);
            && (RequiredBool(m, k).Some? <==> o.value.Some?)
            && (o.value.Some? ==> RequiredBool(m, k) == Some(Taken(o.value.value, o.rest)))
            && DefaultedBool(m, k, d) == Taken(o.value.GetOr(d), o.rest)
  {
  }

  /** Booleans are numbers, not words: "+1" and "01" are true, "2" and "true" are not
      booleans at all, so a defaulted flag falls back to its default. */
  lemma FlagExamples()
    ensures ParseFlag("+1") == Some(true)
    ensures ParseFlag("01") == Some(true)
    ensures ParseFlag("000") == Some(false)
    ensures ParseFlag("2") == None
    ensures ParseFlag("true") == None
    ensures DefaultedBool(map["4" := "2"], "4", false) == Taken(false, map[])
  {
    assert FlagText("+1", true);
    assert FlagText("01", true);
    ParseFlagText("+1");
    ParseFlagText("01");
    assert ZerosThen("000", '0');
    ParseFlagText("000");
    assert !FlagText("true", true) && !FlagText("true", false);
    assert map["4" := "2"] - {"4"} == map[];
  }
}
