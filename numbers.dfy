/** Decimal text and numbers: Python's `str(n)` for an integer, `int(s)` and `float(s)`
    for a string. */
module Numbers {
  import opened Outcomes
  import opened Text

  predicate IsDigit(c: char) {
    '0' <= c <= '9'
  }

  predicate AllDigits(s: string) {
    forall k :: 0 <= k < |s| ==> IsDigit(s[k])
  }

  /** The value of a string of decimal digits, most significant first. */
  function DigitsValue(s: string): nat
    requires AllDigits(s)
  {
    if s == [] then 0 else 10 * DigitsValue(s[..|s| - 1]) + (s[|s| - 1] as int - '0' as int)
  }

  function Pow10(k: nat): (p: nat)
    ensures p >= 1
  {
    if k == 0 then 1 else 10 * Pow10(k - 1)
  }

  /** `str(n)` for `n >= 0`: decimal digits without leading zeros. */
  function ShowNat(n: nat): (r: string)
    ensures r != [] && AllDigits(r)
    ensures |r| > 1 ==> r[0] != '0'
  {
    var last := ((n % 10) + '0' as int) as char;
    if n < 10 then [last] else ShowNat(n / 10) + [last]
  }

  /** `str(n)`: a minus sign in front of a negative number. */
  function Show(n: int): string {
    if n < 0 then "-" + ShowNat(-n) else ShowNat(n)
  }

  /** An optional leading sign, split off; `true` for a minus. */
  function SplitSign(t: string): (bool, string) {
    if t != [] && (t[0] == '-' || t[0] == '+') then (t[0] == '-', t[1..]) else (false, t)
  }

  /** `int(s)` for a string: surrounding whitespace, an optional sign, then at least one
      ASCII decimal digit; `None` for any other text. Python also accepts underscores
      between digits and non-ASCII digits, which this function rejects. */
  function ParseInt(s: string): Option<int> {
    var (negative, body) := SplitSign(Strip(s));
    if body != [] && AllDigits(body) then
      var magnitude: int := DigitsValue(body);
      Some(if negative then -magnitude else magnitude)
    else
      None
  }

  /** `float(s)` for a string in plain decimal notation: surrounding whitespace, an
      optional sign, ASCII digits with at most one decimal point and at least one digit;
      `None` for any other text, including the exponent, underscore, `inf`, `nan` and
      non-ASCII digit forms Python also accepts. The value is exact: binary rounding is
      not modelled. */
  function ParseDecimal(s: string): Option<real> {
    var (negative, body) := SplitSign(Strip(s));
    var point := PointIndex(body);
    var whole := body[..point];
    var fraction := if point < |body| then body[point + 1..] else [];
    if (whole != [] || fraction != []) && AllDigits(whole) && AllDigits(fraction) then
      var magnitude := DigitsValue(whole) as real + DigitsValue(fraction) as real / Pow10(|fraction|) as real;
      Some(if negative then -magnitude else magnitude)
    else
      None
  }

  /** Index of the first '.', or the length when there is none. */
  function PointIndex(s: string): (i: nat)
    ensures i <= |s|
    ensures forall k :: 0 <= k < i ==> s[k] != '.'
    ensures i < |s| ==> s[i] == '.'
  {
    if s == [] then 0 else if s[0] == '.' then 0 else 1 + PointIndex(s[1..])
  }

  /** Reading back the digits `str` writes gives the number. */
  lemma {:induction false} ShowNatValue(n: nat)
    ensures DigitsValue(ShowNat(n)) == n
  {
    if n >= 10 {
      ShowNatValue(n / 10);
      var r := ShowNat(n);
      assert r[..|r| - 1] == ShowNat(n / 10);
    }
  }

  /** `int(str(n)) == n` for every integer. */
  lemma ParseShow(n: int)
    ensures ParseInt(Show(n)) == Some(n)
  {
    var s := Show(n);
    var digits := ShowNat(if n < 0 then -n else n);
    ShowNatValue(if n < 0 then -n else n);
    StripClean(s);
    if n < 0 {
      assert SplitSign(s) == (true, digits);
    } else {
      assert SplitSign(s) == (false, digits);
    }
  }

  /** `float(s) == int(s)` for every string `int` accepts. */
  lemma ParseDecimalOfInteger(s: string)
    requires ParseInt(s).Some?
    ensures ParseDecimal(s) == Some(ParseInt(s).value as real)
  {
    var (negative, body) := SplitSign(Strip(s));
    assert PointIndex(body) == |body|;
    assert body[..|body|] == body;
  }
}
