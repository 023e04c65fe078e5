/** The two number conversions the new-author page relies on: the global `parseInt` with
    no radix argument, and `String(n)` for a non-negative integer. Numbers are unbounded
    integers here, not doubles. */
module JsNumber {

  import opened Wrappers
  import Text

  /** The base: 16 after a `0x` prefix, 10 otherwise. */
  function Radix(hex: bool): nat
  {
    if hex then 16 else 10
  }

  /** The value of `c` as a digit in the base, if it is one. */
  function DigitValue(c: char, hex: bool): (r: Option<nat>)
    ensures r.Some? ==> r.value < Radix(hex)
  {
    var v: int :=
      if '0' <= c <= '9' then c as int - '0' as int
      else if 'a' <= c <= 'z' then c as int - 'a' as int + 10
      else if 'A' <= c <= 'Z' then c as int - 'A' as int + 10
      else -1;
    if 0 <= v < Radix(hex) then Some(v) else None
  }

  /** The length of the longest prefix of `s` made of digits in the base. */
  function DigitRun(s: string, hex: bool): (n: nat)
    ensures n <= |s|
    ensures forall k :: 0 <= k < n ==> DigitValue(s[k], hex).Some?
    ensures n < |s| ==> DigitValue(s[n], hex).None?
  {
    if s != [] && DigitValue(s[0], hex).Some? then 1 + DigitRun(s[1..], hex) else 0
  }

  /** The value of a string of digits, most significant first. */
  function DigitsValue(s: string, hex: bool): nat
    requires forall k :: 0 <= k < |s| ==> DigitValue(s[k], hex).Some?
  {
    if s == [] then 0
    else
      var high := DigitsValue(s[..|s| - 1], hex);
      (if hex then 16 * high else 10 * high) + DigitValue(s[|s| - 1], hex).value
  }

  /** `parseInt(s)`: leading white space is skipped, then an optional sign, then the
      digits. */
  function ParseInt(s: string): Option<int>
  {
    var t := Text.TrimStart(s);
    var negative := t != [] && t[0] == '-';
    var u := if t != [] && (t[0] == '-' || t[0] == '+') then t[1..] else t;
    match ParseUnsigned(u)
    case None => None
    case Some(m) => Some(if negative then -(m as int) else m as int)
  }

  /** The digits after the sign: a `0x` or `0X` prefix switches to base 16, the longest
      run of digits that follows is the value, and without any digit the result is NaN
      (`None`). */
  function ParseUnsigned(u: string): Option<nat>
  {
    var hex := |u| >= 2 && u[0] == '0' && (u[1] == 'x' || u[1] == 'X');
    var v := if hex then u[2..] else u;
    var n := DigitRun(v, hex);
    if n == 0 then None else Some(DigitsValue(v[..n], hex))
  }

  function DigitChar(d: nat): (c: char)
    requires d < 10
    ensures '0' <= c <= '9'
  {
    ('0' as int + d) as char
  }

  /** `String(n)`: the decimal digits of `n`, without leading zeros. */
  function Decimal(n: nat): (s: string)
    ensures |s| >= 1
    ensures forall k :: 0 <= k < |s| ==> '0' <= s[k] <= '9'
    ensures n >= 1 ==> s[0] != '0'
  {
    if n < 10 then [DigitChar(n)] else Decimal(n / 10) + [DigitChar(n % 10)]
  }

  lemma {:induction false} DecimalValue(n: nat)
    ensures forall k :: 0 <= k < |Decimal(n)| ==> DigitValue(Decimal(n)[k], false).Some?
    ensures DigitsValue(Decimal(n), false) == n
  {
    var s := Decimal(n);
    forall k | 0 <= k < |s| ensures DigitValue(s[k], false).Some? {
      assert '0' <= s[k] <= '9';
    }
    if n >= 10 {
      DecimalValue(n / 10);
      assert s[..|s| - 1] == Decimal(n / 10);
    }
  }

  /** `parseInt(String(n))` gives `n` back. */
  lemma ParseDecimal(n: nat)
    ensures ParseInt(Decimal(n)) == Some(n)
  {
    DecimalValue(n);
    ParseDigits(Decimal(n));
  }

  /** A non-empty string of decimal digits parses to its value. */
  lemma {:induction false} ParseDigits(s: string)
    requires s != [] && forall k :: 0 <= k < |s| ==> '0' <= s[k] <= '9'
    ensures forall k :: 0 <= k < |s| ==> DigitValue(s[k], false).Some?
    ensures ParseInt(s) == Some(DigitsValue(s, false))
  {
    UnsignedDigits(s);
    NoLeadingSpace(s);
    assert s[0] != '-' && s[0] != '+';
  }

  lemma {:induction false} UnsignedDigits(s: string)
    requires s != [] && forall k :: 0 <= k < |s| ==> '0' <= s[k] <= '9'
    ensures forall k :: 0 <= k < |s| ==> DigitValue(s[k], false).Some?
    ensures ParseUnsigned(s) == Some(DigitsValue(s, false))
  {
    forall k | 0 <= k < |s| ensures DigitValue(s[k], false).Some? {
      assert '0' <= s[k] <= '9';
    }
    assert !(|s| >= 2 && s[0] == '0' && (s[1] == 'x' || s[1] == 'X')) by {
      if |s| >= 2 {
        assert '0' <= s[1] <= '9';
      }
    }
    DigitRunAll(s, false);
    assert s[..|s|] == s;
  }

  lemma NoLeadingSpace(s: string)
    requires s != [] && '0' <= s[0] <= '9'
    ensures Text.TrimStart(s) == s
  {
    assert !Text.IsSpace(s[0]);
  }

  lemma {:induction false} DigitRunAll(s: string, hex: bool)
    requires forall k :: 0 <= k < |s| ==> DigitValue(s[k], hex).Some?
    ensures DigitRun(s, hex) == |s|
  {
    if s != [] {
      DigitRunAll(s[1..], hex);
    }
  }
}
