/**
 * The pieces of PHP's own semantics that the formatter leans on: the
 * scalars stored in a plugin's settings, conversion to boolean and to
 * string, the order `<` gives two non-numeric strings, and `+` on arrays.
 */
module Php {

  /** A scalar as it can be stored in a plugin's settings array. */
  datatype Value = Null | Bool(b: bool) | Int(i: int) | Str(s: string)

  /** PHP's conversion to boolean: `null`, `false`, `0`, `""` and `"0"` are falsy. */
  predicate Truthy(v: Value) {
    match v
    case Null => false
    case Bool(b) => b
    case Int(i) => i != 0
    case Str(s) => s != "" && s != "0"
  }

  function DigitChar(d: nat): (c: char)
    requires d < 10
    ensures '0' <= c <= '9'
    ensures (c == '0') == (d == 0)
  {
    ('0' as int + d) as char
  }

  /** The number a run of decimal digits spells, read left to right. */
  function DigitsValue(s: string): nat
    requires forall k :: 0 <= k < |s| ==> '0' <= s[k] <= '9'
  {
    if s == [] then 0 else DigitsValue(s[..|s| - 1]) * 10 + (s[|s| - 1] as int - '0' as int)
  }

  /** Decimal digits of `n`, without leading zeros. */
  function NatToString(n: nat): (s: string)
    ensures |s| > 0
    ensures forall k :: 0 <= k < |s| ==> '0' <= s[k] <= '9'
    ensures DigitsValue(s) == n
    ensures |s| > 1 ==> s[0] != '0'
    ensures (s == "0") == (n == 0)
    decreases n
  {
    if n < 10 then [DigitChar(n)]
    else
      var prefix := NatToString(n / 10);
      var s := prefix + [DigitChar(n % 10)];
      assert s[..|s| - 1] == prefix;
      s
  }

  /** PHP's `(string)` cast, as used when a value names a property or fills a placeholder. */
  function ToString(v: Value): string {
    match v
    case Null => ""
    case Bool(b) => if b then "1" else ""
    case Int(i) => if i < 0 then "-" + NatToString(-i) else NatToString(i)
    case Str(s) => s
  }

  /** A value is truthy exactly when the string it casts to is. */
  lemma TruthyAgreesWithString(v: Value)
    ensures Truthy(v) == Truthy(Str(ToString(v)))
  {
  }

  /**
   * `a < b` for two non-numeric strings: PHP compares them as `strcmp`
   * does, element by element, a proper prefix coming first.
   */
  predicate Less(a: string, b: string) {
    if a == [] then b != []
    else if b == [] then false
    else if a[0] != b[0] then a[0] < b[0]
    else Less(a[1..], b[1..])
  }

  lemma {:induction false} LessIrreflexive(a: string)
    ensures !Less(a, a)
  {
    if a != [] {
      LessIrreflexive(a[1..]);
    }
  }

  lemma {:induction false} LessAsymmetric(a: string, b: string)
    ensures Less(a, b) ==> !Less(b, a)
  {
    if a != [] && b != [] && a[0] == b[0] {
      LessAsymmetric(a[1..], b[1..]);
    }
  }

  lemma {:induction false} LessTransitive(a: string, b: string, c: string)
    requires Less(a, b) && Less(b, c)
    ensures Less(a, c)
  {
    if a != [] && a[0] == b[0] && b[0] == c[0] {
      LessTransitive(a[1..], b[1..], c[1..]);
    }
  }

  lemma {:induction false} LessTrichotomous(a: string, b: string)
    ensures a == b || Less(a, b) || Less(b, a)
  {
    if a != [] && b != [] && a[0] == b[0] {
      LessTrichotomous(a[1..], b[1..]);
      if a[1..] == b[1..] {
        assert a == [a[0]] + a[1..] && b == [b[0]] + b[1..];
      }
    }
  }

  /**
   * `$left + $right` on arrays: every key of either operand, with the
   * value of `$left` wherever both have the key.
   */
  function Union<K, V>(left: map<K, V>, right: map<K, V>): (r: map<K, V>)
    ensures r.Keys == left.Keys + right.Keys
    ensures forall k :: k in left ==> r[k] == left[k]
    ensures forall k :: k in right && k !in left ==> r[k] == right[k]
  {
    right + left
  }
}
