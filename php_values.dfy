/** PHP values as configuration arrays, sessions and headers hand them over, and
    the PHP 8 semantics the bundle applies to them: empty(), is_numeric(), the
    (int) cast and the loose `==` behind in_array(). Floats are not part of the
    model, so numeric strings are those of the integer kind. */
module PhpValues {
  import opened Wrappers
  import opened PhpStrings

  datatype Value = Null | Bool(b: bool) | Int(i: int) | Str(s: string) | Arr(items: seq<Value>) | Obj

  /** empty($v) */
  predicate Empty(v: Value) {
    match v
    case Null => true
    case Bool(b) => !b
    case Int(i) => i == 0
    case Str(s) => !Truthy(s)
    case Arr(items) => items == []
    case Obj => false
  }

  /** The whitespace a numeric string may carry around its number. */
  const NumericWhitespace: set<char> := {' ', '\t', '\n', '\r', '\U{B}', '\U{C}'}

  /** A trimmed string without its sign. */
  function Unsigned(t: string): string {
    if |t| > 0 && (t[0] == '+' || t[0] == '-') then t[1..] else t
  }

  /** The string without surrounding whitespace and without its sign. */
  function Magnitude(s: string): string {
    Unsigned(Trim(s, NumericWhitespace))
  }

  predicate Negative(s: string) {
    var t := Trim(s, NumericWhitespace);
    |t| > 0 && t[0] == '-'
  }

  /** An integer numeric string: whitespace, an optional sign, at least one digit,
      whitespace. */
  predicate IsIntegerString(s: string) {
    |Magnitude(s)| > 0 && IsDigits(Magnitude(s))
  }

  function IntegerValue(s: string): int
    requires IsIntegerString(s)
  {
    var m: int := ParseDecimal(Magnitude(s));
    if Negative(s) then -m else m
  }

  /** Decimal numerals read back as the number they print. */
  lemma IntegerStringOfNat(n: nat)
    ensures IsIntegerString(NatToString(n)) && IntegerValue(NatToString(n)) == n
  {
    DigitsAreTheirMagnitude(NatToString(n));
    ParseNatToString(n);
  }

  lemma DigitsAreTheirMagnitude(s: string)
    requires |s| > 0 && IsDigits(s)
    ensures Magnitude(s) == s && !Negative(s)
  {
    assert IsDigit(s[|s| - 1]) && IsDigit(s[0]);
    assert RTrim(s, NumericWhitespace) == s;
    assert LTrim(s, NumericWhitespace) == s;
  }

  /** A string that opens with a character other than whitespace, a sign or a
      digit is not numeric. */
  lemma NotIntegerString(s: string)
    requires s != [] && s[0] !in NumericWhitespace && s[0] != '+' && s[0] != '-' && !IsDigit(s[0])
    ensures !IsIntegerString(s)
  {
    var r := RTrim(s, NumericWhitespace);
    assert r != [] && r[0] == s[0];
    assert Trim(s, NumericWhitespace) == r;
  }

  /** is_numeric($v) */
  predicate IsNumeric(v: Value) {
    v.Int? || (v.Str? && IsIntegerString(v.s))
  }

  function NumericValue(v: Value): int
    requires IsNumeric(v)
  {
    if v.Int? then v.i else IntegerValue(v.s)
  }

  /** The longest run of digits at the head of `s`. */
  function LeadingDigits(s: string): (r: string)
    ensures r <= s && IsDigits(r)
    ensures |r| < |s| ==> !IsDigit(s[|r|])
  {
    if s == [] || !IsDigit(s[0]) then [] else [s[0]] + LeadingDigits(s[1..])
  }

  /** (int)$s: leading whitespace, an optional sign and the digits that follow;
      0 when there are none. */
  function IntCastString(s: string): int {
    SignedLeadingDigits(LTrim(s, NumericWhitespace))
  }

  /** An optional sign and the digits that follow it, as a number. */
  function SignedLeadingDigits(t: string): int {
    var m: int := ParseDecimal(LeadingDigits(Unsigned(t)));
    if |t| > 0 && t[0] == '-' then -m else m
  }

  lemma LeadingDigitsOfDigits(s: string)
    requires IsDigits(s)
    ensures LeadingDigits(s) == s
  {
    if s != [] {
      LeadingDigitsOfDigits(s[1..]);
    }
  }

  /** (int) of a printed number gives the number back. */
  lemma IntCastStringOfNat(n: nat)
    ensures IntCastString(NatToString(n)) == n
  {
    var s := NatToString(n);
    assert IsDigit(s[0]) && s[0] !in NumericWhitespace;
    assert LTrim(s, NumericWhitespace) == s;
    LeadingDigitsOfDigits(s);
    ParseNatToString(n);
  }

  lemma {:induction false} LeadingDigitsAppend(m: string, rest: string)
    requires IsDigits(m) && (rest == [] || !IsDigit(rest[0]))
    ensures LeadingDigits(m + rest) == m
  {
    if m == [] {
      assert m + rest == rest;
    } else {
      assert (m + rest)[1..] == m[1..] + rest;
      LeadingDigitsAppend(m[1..], rest);
    }
  }

  /** Left-trimming stops inside `a` when `a` is not all trimmed characters. */
  lemma {:induction false} LTrimAppend(a: string, b: string, cs: set<char>)
    requires LTrim(a, cs) != []
    ensures LTrim(a + b, cs) == LTrim(a, cs) + b
  {
    if a[0] in cs {
      assert (a + b)[1..] == a[1..] + b;
      LTrimAppend(a[1..], b, cs);
    }
  }

  /** When trimming both ends leaves something, trimming only the left end
      leaves that followed by what the right trim removed. */
  lemma {:induction false} LTrimOfRTrim(s: string, cs: set<char>)
    requires LTrim(RTrim(s, cs), cs) != []
    ensures LTrim(s, cs) == LTrim(RTrim(s, cs), cs) + s[|RTrim(s, cs)|..]
  {
    var r := RTrim(s, cs);
    PrefixSplit(s, r);
    LTrimAppend(r, s[|r|..], cs);
  }

  /** Digits after a sign read the same whatever non-digit follows them. */
  lemma {:induction false} SignedLeadingDigitsAppend(t: string, rest: string)
    requires t != [] && IsDigits(Unsigned(t))
    requires rest == [] || !IsDigit(rest[0])
    ensures SignedLeadingDigits(t + rest) == SignedLeadingDigits(t)
  {
    var m := Unsigned(t);
    assert Unsigned(t + rest) == m + rest by {
      if t[0] == '+' || t[0] == '-' {
        assert (t + rest)[1..] == t[1..] + rest;
      }
    }
    LeadingDigitsAppend(m, rest);
    LeadingDigitsOfDigits(m);
  }

  /** For a numeric string the (int) cast and the numeric value agree. */
  lemma {:induction false} IntCastOfIntegerString(s: string)
    requires IsIntegerString(s)
    ensures IntCastString(s) == IntegerValue(s)
  {
    var t := Trim(s, NumericWhitespace);
    assert t != [] && IsDigits(Unsigned(t));
    CastOfTrimmed(s, t, s[|RTrim(s, NumericWhitespace)|..]);
    ValueOfTrimmed(s);
  }

  lemma {:induction false} CastOfTrimmed(s: string, t: string, rest: string)
    requires t == Trim(s, NumericWhitespace) && rest == s[|RTrim(s, NumericWhitespace)|..]
    requires t != [] && IsDigits(Unsigned(t))
    ensures IntCastString(s) == SignedLeadingDigits(t)
  {
    LTrimOfRTrim(s, NumericWhitespace);
    TrailingNotDigit(s, rest);
    SignedLeadingDigitsAppend(t, rest);
  }

  lemma TrailingNotDigit(s: string, rest: string)
    requires rest == s[|RTrim(s, NumericWhitespace)|..]
    ensures rest == [] || !IsDigit(rest[0])
  {
    TrailingWhitespace(s, NumericWhitespace);
  }

  lemma {:induction false} ValueOfTrimmed(s: string)
    requires IsIntegerString(s)
    ensures SignedLeadingDigits(Trim(s, NumericWhitespace)) == IntegerValue(s)
  {
    LeadingDigitsOfDigits(Magnitude(s));
  }

  lemma TrailingWhitespace(s: string, cs: set<char>)
    ensures var rest := s[|RTrim(s, cs)|..];
            forall k :: 0 <= k < |rest| ==> rest[k] in cs
  {
  }

  /** (int)$v */
  function IntCast(v: Value): int {
    match v
    case Null => 0
    case Bool(b) => if b then 1 else 0
    case Int(i) => i
    case Str(s) => IntCastString(s)
    case Arr(items) => if items == [] then 0 else 1
    case Obj => 1
  }

  /** `$v == $s` for a string `$s`, as PHP 8 compares: numerically when both are
      numeric, as booleans against a bool, as "" against null, as strings otherwise. */
  predicate LooseEqualsString(v: Value, s: string) {
    match v
    case Null => s == ""
    case Bool(b) => b == Truthy(s)
    case Int(i) => IsIntegerString(s) && IntegerValue(s) == i
    case Str(t) =>
      if IsIntegerString(t) && IsIntegerString(s) then IntegerValue(t) == IntegerValue(s) else t == s
    case Arr(_) => false
    case Obj => false
  }

  /** in_array($s, $items) with loose comparison. */
  predicate InArray(s: string, items: seq<Value>) {
    exists k :: 0 <= k < |items| && LooseEqualsString(items[k], s)
  }

  /** Among strings that are not numeric, the loose search is plain membership. */
  lemma InArrayOfStrings(s: string, items: seq<Value>)
    requires !IsIntegerString(s)
    requires forall k :: 0 <= k < |items| ==> items[k].Str?
    ensures InArray(s, items) <==> Str(s) in items
  {
    if Str(s) in items {
      var k :| 0 <= k < |items| && items[k] == Str(s);
      assert LooseEqualsString(items[k], s);
    }
  }
}
