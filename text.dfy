/** Value-level helpers shared by the backend and frontend models: optional
    values, Python dictionary entries, substring tests, ASCII lower-casing and
    decimal rendering of integers. */
module Text {

  datatype Option<T> = None | Some(value: T)

  /** One key of a Python dict (or JSON object) as the code reads it: the key
      is missing, present with the value None/null, or present with a value.
      `dict.get(k)` and `dict.get(k, d)` treat the first two differently. */
  datatype Entry<T> = Absent | Null | Val(v: T)

  /** `d.get(k)`: None for a missing key and for a None value. */
  function Get<T>(e: Entry<T>): (r: Option<T>)
    ensures r.Some? <==> e.Val?
    ensures r.Some? ==> r.value == e.v
  {
    match e
    case Val(v) => Some(v)
    case _ => None
  }

  /** `d.get(k, default)`: the default only for a missing key; a None value stays None. */
  function GetOr<T>(e: Entry<T>, default: T): (r: Option<T>)
    ensures e.Absent? ==> r == Some(default)
    ensures e.Null? ==> r == None
    ensures e.Val? ==> r == Some(e.v)
  {
    match e
    case Absent => Some(default)
    case Null => None
    case Val(v) => Some(v)
  }

  /** Python truthiness of a string-valued entry: present and non-empty. */
  predicate TruthyText(e: Entry<string>) {
    e.Val? && e.v != ""
  }

  /** Python truthiness of a number-valued entry: present and non-zero. */
  predicate TruthyNumber(e: Entry<int>) {
    e.Val? && e.v != 0
  }

  /** Python truthiness of a boolean-valued entry. */
  predicate TruthyFlag(e: Entry<bool>) {
    e.Val? && e.v
  }

  /** Truthiness of an optional string (None and "" are falsy, in Python and in JavaScript). */
  predicate NonEmpty(o: Option<string>) {
    o.Some? && o.value != ""
  }

  predicate StartsWith(s: string, prefix: string) {
    |prefix| <= |s| && s[..|prefix|] == prefix
  }

  predicate EndsWith(s: string, suffix: string) {
    |suffix| <= |s| && s[|s| - |suffix|..] == suffix
  }

  /** `needle in s` (Python) and `s.includes(needle)` (JavaScript). */
  predicate Contains(s: string, needle: string) {
    StartsWith(s, needle) || (s != [] && Contains(s[1..], needle))
  }

  lemma {:induction false} ContainsAt(s: string, needle: string, i: nat)
    requires i + |needle| <= |s| && s[i..i + |needle|] == needle
    ensures Contains(s, needle)
  {
    if i > 0 {
      assert s[1..][i - 1..i - 1 + |needle|] == needle;
      ContainsAt(s[1..], needle, i - 1);
    }
  }

  lemma {:induction false} ContainsWitness(s: string, needle: string) returns (i: nat)
    requires Contains(s, needle)
    ensures i + |needle| <= |s| && s[i..i + |needle|] == needle
  {
    if StartsWith(s, needle) {
      i := 0;
    } else {
      var j := ContainsWitness(s[1..], needle);
      assert s[1..][j..j + |needle|] == s[j + 1..j + 1 + |needle|];
      i := j + 1;
    }
  }

  /** The characters `a`, `b` never occur side by side in `s`. */
  predicate PairFree(s: string, a: char, b: char) {
    forall i :: 0 <= i < |s| - 1 ==> !(s[i] == a && s[i + 1] == b)
  }

  lemma PairFreeConcat(x: string, y: string, a: char, b: char)
    requires PairFree(x, a, b) && PairFree(y, a, b)
    requires x == [] || y == [] || !(x[|x| - 1] == a && y[0] == b)
    ensures PairFree(x + y, a, b)
  {
    var s := x + y;
    forall i | 0 <= i < |s| - 1 ensures !(s[i] == a && s[i + 1] == b) {
      if i + 1 < |x| {
        assert s[i] == x[i] && s[i + 1] == x[i + 1];
      } else if i >= |x| {
        assert s[i] == y[i - |x|] && s[i + 1] == y[i + 1 - |x|];
      }
    }
  }

  /** A needle two of whose adjacent characters never occur side by side in
      `s` is not a substring of `s`. */
  lemma {:induction false} NotContainsPair(s: string, needle: string, k: nat)
    requires k + 1 < |needle|
    requires PairFree(s, needle[k], needle[k + 1])
    ensures !Contains(s, needle)
  {
    if |needle| <= |s| {
      assert s[..|needle|][k] == s[k] && s[..|needle|][k + 1] == s[k + 1];
    }
    if s != [] {
      NotContainsPair(s[1..], needle, k);
    }
  }

  /** A needle with a character that does not occur in `s` is not a substring of `s`. */
  lemma {:induction false} NotContainsChar(s: string, needle: string, k: nat)
    requires k < |needle| && needle[k] !in s
    ensures !Contains(s, needle)
  {
    if |needle| <= |s| {
      assert s[..|needle|][k] == s[k];
    }
    if s != [] {
      assert forall c :: c in s[1..] ==> c in s;
      NotContainsChar(s[1..], needle, k);
    }
  }

  function LowerChar(c: char): (r: char)
    ensures 'A' <= c <= 'Z' ==> 'a' <= r <= 'z' && r as int == c as int + 32
    ensures c == '\U{212A}' ==> r == 'k'
    ensures !('A' <= c <= 'Z') && c != '\U{212A}' ==> r == c
  {
    if 'A' <= c <= 'Z' then (c as int + 32) as char
    else if c == '\U{212A}' then 'k'
    else c
  }

  /** `str.lower()` / `String.toLowerCase()` on the characters whose lower
      case is ASCII: the ASCII capitals and the Kelvin sign U+212A, which
      becomes 'k'. Every other character is kept: its lower case is not
      ASCII, or for U+0130 an 'i' followed by a combining dot, and neither can
      take part in a match against the ASCII patterns this is used with. */
  function Lower(s: string): (r: string)
    ensures |r| == |s|
    ensures forall i :: 0 <= i < |s| ==> r[i] == LowerChar(s[i])
  {
    seq(|s|, i requires 0 <= i < |s| => LowerChar(s[i]))
  }

  /** Lower-casing leaves a string without capital letters as it is. */
  lemma LowerNoCapitals(s: string)
    requires forall i :: 0 <= i < |s| ==> !('A' <= s[i] <= 'Z') && s[i] != '\U{212A}'
    ensures Lower(s) == s
  {
  }

  predicate IsDigit(c: char) {
    '0' <= c <= '9'
  }

  predicate IsDigits(s: string) {
    |s| > 0 && forall i :: 0 <= i < |s| ==> IsDigit(s[i])
  }

  function DigitChar(d: nat): (c: char)
    requires d < 10
    ensures IsDigit(c) && c as int - '0' as int == d
  {
    ('0' as int + d) as char
  }

  /** Decimal rendering of a natural number (`str(n)`, `n.toString()`). */
  function NatToString(n: nat): (r: string)
    ensures IsDigits(r)
    ensures |r| == 1 <==> n < 10
    ensures r[0] != '0' || n == 0
  {
    if n < 10 then [DigitChar(n)] else NatToString(n / 10) + [DigitChar(n % 10)]
  }

  /** Decimal rendering of an integer, with a leading '-' for negatives. */
  function IntToString(i: int): (r: string)
    ensures i >= 0 ==> IsDigits(r)
    ensures i < 0 ==> |r| >= 2 && r[0] == '-' && IsDigits(r[1..])
  {
    if i >= 0 then NatToString(i) else "-" + NatToString(-i)
  }

  /** Reads a string of decimal digits back as a number. */
  function ParseNat(s: string): nat
    requires IsDigits(s)
  {
    var d := s[|s| - 1] as int - '0' as int;
    if |s| == 1 then d else 10 * ParseNat(s[..|s| - 1]) + d
  }

  lemma {:induction false} ParseNatToString(n: nat)
    ensures ParseNat(NatToString(n)) == n
  {
    if n >= 10 {
      var r := NatToString(n);
      assert r[..|r| - 1] == NatToString(n / 10);
      ParseNatToString(n / 10);
    }
  }
}
