/** The pieces of PHP's string semantics that the bundle relies on: truthiness of
    strings, the trim family, strpos/strrpos, decimal printing and parsing, and
    basename/dirname on '/'-separated paths. */
module PhpStrings {
  import opened Wrappers

  /** One byte of a PHP (byte) string or of a file's contents. */
  newtype byte = b: int | 0 <= b < 256

  /** A string is truthy in PHP unless it is "" or "0". */
  predicate Truthy(s: string) {
    s != "" && s != "0"
  }

  /** rtrim($s, $chars) */
  function RTrim(s: string, cs: set<char>): (r: string)
    ensures r <= s
    ensures r == [] || r[|r| - 1] !in cs
    ensures forall k :: |r| <= k < |s| ==> s[k] in cs
  {
    if s == [] || s[|s| - 1] !in cs then s else RTrim(s[..|s| - 1], cs)
  }

  /** ltrim($s, $chars) */
  function LTrim(s: string, cs: set<char>): (r: string)
    ensures |r| <= |s| && r == s[|s| - |r|..]
    ensures r == [] || r[0] !in cs
    ensures forall k :: 0 <= k < |s| - |r| ==> s[k] in cs
  {
    if s == [] || s[0] !in cs then s else LTrim(s[1..], cs)
  }

  lemma RTrimKeeps(s: string, cs: set<char>)
    requires s == [] || s[|s| - 1] !in cs
    ensures RTrim(s, cs) == s
  {
  }

  lemma LTrimKeeps(s: string, cs: set<char>)
    requires s == [] || s[0] !in cs
    ensures LTrim(s, cs) == s
  {
  }

  lemma LTrimStep(s: string, cs: set<char>)
    requires s != [] && s[0] in cs
    ensures LTrim(s, cs) == LTrim(s[1..], cs)
  {
  }

  /** trim($s, $chars) */
  function Trim(s: string, cs: set<char>): string {
    LTrim(RTrim(s, cs), cs)
  }

  /** substr($s, 0, $n) for n >= 0: the first n characters, or all of s when it is shorter. */
  function Prefix(s: string, n: nat): (r: string)
    ensures r <= s
    ensures r == s <==> n >= |s|
  {
    if n <= |s| then s[..n] else s
  }

  /** substr($s, 0, strlen($d)) === $d holds exactly when d is a prefix of s. */
  lemma PrefixTest(s: string, d: string)
    ensures Prefix(s, |d|) == d <==> d <= s
  {
  }

  lemma PrefixSplit(s: string, p: string)
    requires p <= s
    ensures s == p + s[|p|..]
  {
  }

  /** The characters PHP's trim() strips when no list is given. */
  const Whitespace: set<char> := {' ', '\t', '\n', '\r', '\0', '\U{B}'}

  /** `pat` occurs in `s` at index `k`. */
  predicate OccursAt(s: string, pat: string, k: nat) {
    k + |pat| <= |s| && s[k..k + |pat|] == pat
  }

  /** The first index at or after `from` at which `pat` occurs (strpos). */
  function FindFrom(s: string, pat: string, from: nat): (r: Option<nat>)
    decreases |s| - from
    ensures r.Some? ==> from <= r.value && OccursAt(s, pat, r.value)
    ensures r.Some? ==> forall k :: from <= k < r.value ==> !OccursAt(s, pat, k)
    ensures r.None? ==> forall k :: from <= k ==> !OccursAt(s, pat, k)
  {
    if from + |pat| > |s| then None
    else if s[from..from + |pat|] == pat then Some(from)
    else FindFrom(s, pat, from + 1)
  }

  /** strpos($s, $pat) */
  function Find(s: string, pat: string): Option<nat> {
    FindFrom(s, pat, 0)
  }

  /** strrpos($s, $c) for a one-character needle. */
  function FindLast(s: string, c: char): (r: Option<nat>)
    ensures r.Some? ==> r.value < |s| && s[r.value] == c
    ensures r.Some? ==> forall k :: r.value < k < |s| ==> s[k] != c
    ensures r.None? ==> c !in s
  {
    if s == [] then None
    else if s[|s| - 1] == c then Some(|s| - 1)
    else FindLast(s[..|s| - 1], c)
  }

  predicate IsDigit(c: char) {
    '0' <= c <= '9'
  }

  predicate IsDigits(s: string) {
    forall k :: 0 <= k < |s| ==> IsDigit(s[k])
  }

  function DigitChar(d: nat): char
    requires d < 10
  {
    (d + '0' as int) as char
  }

  function DigitValue(c: char): nat
    requires IsDigit(c)
  {
    (c as int - '0' as int) as nat
  }

  /** sprintf('%d', $n) for a non-negative integer. */
  function NatToString(n: nat): (r: string)
    ensures |r| >= 1 && IsDigits(r)
    ensures n >= 10 ==> r[0] != '0'
    ensures n < 100 ==> |r| <= 2
    ensures n < 10000 ==> |r| <= 4
  {
    if n < 10 then [DigitChar(n)] else NatToString(n / 10) + [DigitChar(n % 10)]
  }

  /** sprintf('%0{width}d', $n): left-padded with zeros to at least `width` digits. */
  function PadDigits(n: nat, width: nat): (r: string)
    ensures IsDigits(r) && |r| >= width && |r| >= |NatToString(n)|
    ensures |NatToString(n)| <= width ==> |r| == width
    ensures ParseDecimal(r) == n
  {
    var s := NatToString(n);
    ParseNatToString(n);
    ZeroPaddingKeepsValue(s, if |s| >= width then 0 else width - |s|);
    if |s| >= width then s else Zeros(width - |s|) + s
  }

  function Zeros(k: nat): (r: string)
    ensures |r| == k && IsDigits(r)
  {
    if k == 0 then "" else "0" + Zeros(k - 1)
  }

  lemma {:induction false} ZeroPaddingKeepsValue(s: string, k: nat)
    requires IsDigits(s)
    decreases |s|
    ensures ParseDecimal(Zeros(k) + s) == ParseDecimal(s)
  {
    if s == [] {
      assert Zeros(k) + s == Zeros(k);
      ZerosValue(k);
    } else {
      var init := s[..|s| - 1];
      assert (Zeros(k) + s)[..|Zeros(k) + s| - 1] == Zeros(k) + init;
      ZeroPaddingKeepsValue(init, k);
    }
  }

  lemma {:induction false} ZerosValue(k: nat)
    ensures ParseDecimal(Zeros(k)) == 0
  {
    if k > 0 {
      assert Zeros(k) == Zeros(k - 1) + "0" by { ZerosSnoc(k); }
      assert Zeros(k)[..k - 1] == Zeros(k - 1);
      ZerosValue(k - 1);
    }
  }

  lemma {:induction false} ZerosSnoc(k: nat)
    requires k > 0
    ensures Zeros(k) == Zeros(k - 1) + "0"
  {
    if k > 1 {
      ZerosSnoc(k - 1);
    }
  }

  /** The value of a string of decimal digits (leading zeros allowed). */
  function ParseDecimal(s: string): nat
    requires IsDigits(s)
  {
    if s == [] then 0 else ParseDecimal(s[..|s| - 1]) * 10 + DigitValue(s[|s| - 1])
  }

  lemma {:induction false} ParseNatToString(n: nat)
    ensures ParseDecimal(NatToString(n)) == n
  {
    if n >= 10 {
      var s := NatToString(n);
      assert s[..|s| - 1] == NatToString(n / 10);
      ParseNatToString(n / 10);
    }
  }

  /** Different numbers print differently. */
  lemma NatToStringInjective(m: nat, n: nat)
    requires NatToString(m) == NatToString(n)
    ensures m == n
  {
    ParseNatToString(m);
    ParseNatToString(n);
  }

  /** basename($p) on a '/'-separated path (no suffix argument). */
  function Basename(p: string): (r: string)
    ensures '/' !in r
  {
    var q := RTrim(p, {'/'});
    match FindLast(q, '/')
    case None => q
    case Some(k) => q[k + 1..]
  }

  /** dirname($p) on a '/'-separated path. */
  function Dirname(p: string): string {
    var q := RTrim(p, {'/'});
    if q == [] then (if p == [] then "" else "/")
    else match FindLast(q, '/')
      case None => "."
      case Some(k) =>
        var d := RTrim(q[..k], {'/'});
        if d == [] then "/" else d
  }
}
