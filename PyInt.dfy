/** Python's `int(text)` (base 10) and `str(n)`, for ASCII digits. */
module PyInt {
  import opened Wrappers
  import opened PyText

  predicate IsDigit(c: char) {
    '0' <= c <= '9'
  }

  function DigitValue(c: char): (v: nat)
    requires IsDigit(c)
    ensures v < 10
  {
    c as int - '0' as int
  }

  function DigitChar(v: nat): (c: char)
    requires v < 10
    ensures IsDigit(c) && DigitValue(c) == v
  {
    ('0' as int + v) as char
  }

  /** Value of a string of decimal digits, most significant digit first. */
  function DigitsValue(ds: string): nat
    requires AllSatisfy(ds, IsDigit)
  {
    if ds == [] then 0 else DigitsValue(ds[..|ds| - 1]) * 10 + DigitValue(ds[|ds| - 1])
  }

  function Pow10(k: nat): (r: nat)
    ensures r >= 1
  {
    if k == 0 then 1 else 10 * Pow10(k - 1)
  }

  /** A numeral of `k` digits is below 10^k. */
  lemma {:induction false} DigitsValueBound(ds: string)
    requires AllSatisfy(ds, IsDigit)
    ensures DigitsValue(ds) < Pow10(|ds|)
  {
    if ds != [] {
      DigitsValueBound(ds[..|ds| - 1]);
    }
  }

  /** Digits, with single underscores allowed between two digits. */
  predicate IsDigitGroup(d: string) {
    && |d| > 0 && IsDigit(d[0]) && IsDigit(d[|d| - 1])
    && (forall i :: 0 <= i < |d| ==> IsDigit(d[i]) || d[i] == '_')
    && (forall i :: 0 <= i < |d| - 1 ==> !(d[i] == '_' && d[i + 1] == '_'))
  }

  function DropUnderscores(d: string): (r: string)
    requires forall i :: 0 <= i < |d| ==> IsDigit(d[i]) || d[i] == '_'
    ensures AllSatisfy(r, IsDigit)
    ensures AllSatisfy(d, IsDigit) ==> r == d
  {
    if d == [] then []
    else if d[0] == '_' then DropUnderscores(d[1..])
    else [d[0]] + DropUnderscores(d[1..])
  }

  /** `int(text)`: `None` where Python raises `ValueError`. */
  function ParseInt(text: string): Option<int> {
    var t := StripBy(text, IntSpace);
    if |t| > 0 && (t[0] == '+' || t[0] == '-') then
      if IsDigitGroup(t[1..]) then
        var v: int := DigitsValue(DropUnderscores(t[1..]));
        Some(if t[0] == '-' then -v else v)
      else None
    else if IsDigitGroup(t) then Some(DigitsValue(DropUnderscores(t)))
    else None
  }

  /** `str(n)` for a natural number: the canonical decimal numeral. */
  function NatToString(n: nat): (r: string)
    ensures |r| > 0 && AllSatisfy(r, IsDigit) && DigitsValue(r) == n
    ensures |r| == 1 || r[0] != '0'
  {
    if n < 10 then [DigitChar(n)]
    else
      var r := NatToString(n / 10) + [DigitChar(n % 10)];
      assert r[..|r| - 1] == NatToString(n / 10);
      r
  }

  /** `str(i)` for any integer. */
  function IntToString(i: int): string {
    if i < 0 then "-" + NatToString(-i) else NatToString(i)
  }

  /** `int(str(i)) == i`. */
  lemma ParseIntToString(i: int)
    ensures ParseInt(IntToString(i)) == Some(i)
  {
    var s := IntToString(i);
    var n := NatToString(if i < 0 then -i else i);
    assert !IsBlank(IntSpace, s[0]) && !IsBlank(IntSpace, s[|s| - 1]);
    StripIdentity(s, IntSpace);
    assert IsDigitGroup(n);
    assert DropUnderscores(n) == n;
    if i < 0 {
      assert s[1..] == n;
      assert ParseInt(s) == Some(0 - DigitsValue(n) as int);
    } else {
      assert s == n && !(s[0] == '+' || s[0] == '-');
    }
  }

  /** A text holding a character that can be neither part of a numeral nor
      surrounding whitespace is rejected, whatever else it holds. */
  lemma ParseIntRejectsForeign(text: string, k: nat)
    requires k < |text|
    requires !IsBlank(IntSpace, text[k]) && !IsDigit(text[k])
    requires text[k] !in "+-_"
    ensures ParseInt(text) == None
  {
    var t := StripBy(text, IntSpace);
    var i := |text| - |TrimLeft(text, IntSpace)|;
    StripByFacts(text, IntSpace);
    assert i <= k < i + |t|;
    assert t[k - i] == text[k];
    if |t| > 0 && (t[0] == '+' || t[0] == '-') {
      assert t[1..][k - i - 1] == text[k];
    }
  }

  /** The empty text is not a number (`int("")` raises). */
  lemma ParseIntEmpty()
    ensures ParseInt("") == None
  {
  }
}
