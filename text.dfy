/** String helpers standing for the JavaScript string operations the server uses. */
module Text {
  import opened Wrappers

  function Min(a: nat, b: nat): nat {
    if a <= b then a else b
  }

  /** `t` occurs in `s` starting at index `i`. */
  predicate OccursAt(s: string, t: string, i: nat) {
    i + |t| <= |s| && s[i..i + |t|] == t
  }

  /** `t` is a substring of `s`: what `s.includes(t)` is meant to answer. */
  ghost predicate Contains(s: string, t: string) {
    exists i: nat :: OccursAt(s, t, i)
  }

  /** The left-to-right search behind `indexOf`/`includes`, started at `from`. */
  function IndexOfFrom(s: string, t: string, from: nat): (r: Option<nat>)
    ensures r.Some? ==> from <= r.value && OccursAt(s, t, r.value)
    ensures r.Some? ==> forall j: nat :: from <= j < r.value ==> !OccursAt(s, t, j)
    ensures r.None? ==> forall j: nat :: from <= j ==> !OccursAt(s, t, j)
    decreases |s| - from
  {
    if from + |t| > |s| then None
    else if OccursAt(s, t, from) then Some(from)
    else IndexOfFrom(s, t, from + 1)
  }

  /** `s.includes(t)`. */
  function Includes(s: string, t: string): (b: bool)
    ensures b <==> Contains(s, t)
  {
    IndexOfFrom(s, t, 0).Some?
  }

  /** `t` is a suffix of `s`: the meaning of a regular expression anchored with `$`. */
  predicate EndsWith(s: string, t: string) {
    |t| <= |s| && s[|s| - |t|..] == t
  }

  /** Ending with `t` is being some text followed by `t`; the text is unique. */
  lemma {:induction false} EndsWithMeansSuffix(s: string, t: string)
    ensures EndsWith(s, t) <==> exists p: string :: p + t == s
    ensures EndsWith(s, t) ==> forall p: string :: p + t == s ==> p == s[..|s| - |t|]
  {
    if EndsWith(s, t) {
      assert s[..|s| - |t|] + t == s;
    }
    forall p: string | p + t == s
      ensures EndsWith(s, t) && p == s[..|s| - |t|]
    {
      assert s[|s| - |t|..] == (p + t)[|p|..];
      assert (p + t)[|p|..] == t;
      assert s[..|s| - |t|] == (p + t)[..|p|];
    }
  }

  /**
   * `parts.join(sep)`: the parts in order with one separator between
   * neighbours, so its length is theirs plus a separator per gap.
   */
  function Join(parts: seq<string>, sep: string): (r: string)
    ensures |parts| > 0 ==> |r| == TotalLength(parts) + (|parts| - 1) * |sep|
    ensures |parts| > 0 ==> parts[0] <= r
  {
    if |parts| == 0 then ""
    else if |parts| == 1 then parts[0]
    else parts[0] + sep + Join(parts[1..], sep)
  }

  function TotalLength(parts: seq<string>): nat {
    if parts == [] then 0 else |parts[0]| + TotalLength(parts[1..])
  }

  predicate IsDigit(c: char) {
    '0' <= c <= '9'
  }

  predicate AllDigits(s: string) {
    forall i :: 0 <= i < |s| ==> IsDigit(s[i])
  }

  function DigitChar(d: nat): (c: char)
    requires d < 10
    ensures IsDigit(c)
  {
    ('0' as int + d) as char
  }

  function DigitValue(c: char): (d: nat)
    requires IsDigit(c)
    ensures d < 10
  {
    c as int - '0' as int
  }

  /**
   * The decimal numeral of `n`, as a template literal writes an integral
   * number (such as `Date.now()`) below 10^21: digits only, no leading zero.
   */
  function Decimal(n: nat): (s: string)
    ensures |s| > 0 && AllDigits(s)
    ensures s[0] == '0' ==> n == 0
    decreases n
  {
    if n < 10 then [DigitChar(n)] else Decimal(n / 10) + [DigitChar(n % 10)]
  }

  /** Reads a numeral back; the reference against which `Decimal` is checked. */
  function ParseDecimal(s: string): nat
    requires AllDigits(s)
  {
    if s == [] then 0 else ParseDecimal(s[..|s| - 1]) * 10 + DigitValue(s[|s| - 1])
  }

  lemma {:induction false} ParseDecimalInvertsDecimal(n: nat)
    ensures ParseDecimal(Decimal(n)) == n
    decreases n
  {
    var s := Decimal(n);
    if n >= 10 {
      ParseDecimalInvertsDecimal(n / 10);
      assert s[..|s| - 1] == Decimal(n / 10);
      assert DigitValue(s[|s| - 1]) == n % 10;
    } else {
      assert s[..|s| - 1] == [];
    }
  }

  lemma DecimalInjective(a: nat, b: nat)
    ensures Decimal(a) == Decimal(b) <==> a == b
  {
    if Decimal(a) == Decimal(b) {
      ParseDecimalInvertsDecimal(a);
      ParseDecimalInvertsDecimal(b);
    }
  }

  function UpperChar(c: char): char {
    if 'a' <= c <= 'z' then (c as int - 32) as char else c
  }

  /** `s.toUpperCase()` restricted to ASCII letters. */
  function AsciiUpper(s: string): (r: string)
    ensures |r| == |s|
  {
    seq(|s|, i requires 0 <= i < |s| => UpperChar(s[i]))
  }
}
