/**
 * Decimal rendering and parsing of integers: `operator<<` on an `int` (and on an
 * integer-valued grade), and the leading-integer parse that `stoi` and `stod`
 * perform on a field read back from the file.
 */
module Numbers {
  import opened Options

  const INT_MIN: int := -0x8000_0000
  const INT_MAX: int := 0x7fff_ffff

  /** The C++ `int` of a student id. */
  type Int32 = x: int | INT_MIN <= x <= INT_MAX

  predicate IsDigit(c: char) { '0' <= c <= '9' }

  /** The characters C's `isspace` accepts, which `stoi`/`stod` skip first. */
  predicate IsCSpace(c: char) {
    c == ' ' || c == '\t' || c == '\n' || c == '\U{B}' || c == '\U{C}' || c == '\r'
  }

  function DigitChar(n: nat): (c: char)
    requires n < 10
    ensures IsDigit(c)
  {
    ('0' as int + n) as char
  }

  function DigitValue(c: char): (n: nat)
    requires IsDigit(c)
    ensures n < 10
  {
    c as int - '0' as int
  }

  predicate AllDigits(s: string) {
    forall i :: 0 <= i < |s| ==> IsDigit(s[i])
  }

  /** Decimal text of a natural number, most significant digit first, no leading zeros. */
  function RenderNat(n: nat): (r: string)
    ensures |r| > 0 && AllDigits(r)
    ensures r[0] == '0' ==> n == 0
    decreases n
  {
    if n < 10 then [DigitChar(n)] else RenderNat(n / 10) + [DigitChar(n % 10)]
  }

  /** What `ostream << n` writes for an integer `n`. */
  function RenderInt(n: int): (r: string)
    ensures |r| > 0 && IsDigit(r[|r| - 1])
    ensures forall i :: 0 <= i < |r| ==> IsDigit(r[i]) || (i == 0 && r[i] == '-')
  {
    if n < 0 then "-" + RenderNat(-n) else RenderNat(n)
  }

  /** The rendering holds no character other than digits and the minus sign. */
  lemma RenderIntAvoids(n: int, c: char)
    requires !IsDigit(c) && c != '-'
    ensures c !in RenderInt(n)
  {
  }

  /** The value of a run of decimal digits. */
  function DigitsValue(ds: string): nat
    requires AllDigits(ds)
    decreases |ds|
  {
    if ds == [] then 0 else DigitsValue(ds[..|ds| - 1]) * 10 + DigitValue(ds[|ds| - 1])
  }

  /** Length of the longest prefix of `s` made of digits. */
  function DigitRun(s: string): (n: nat)
    ensures n <= |s|
    ensures forall i :: 0 <= i < n ==> IsDigit(s[i])
    ensures n < |s| ==> !IsDigit(s[n])
    decreases |s|
  {
    if s == [] || !IsDigit(s[0]) then 0 else 1 + DigitRun(s[1..])
  }

  /** Length of the longest prefix of `s` made of C white space. */
  function SpaceRun(s: string): (n: nat)
    ensures n <= |s|
    ensures forall i :: 0 <= i < n ==> IsCSpace(s[i])
    ensures n < |s| ==> !IsCSpace(s[n])
    decreases |s|
  {
    if s == [] || !IsCSpace(s[0]) then 0 else 1 + SpaceRun(s[1..])
  }

  /**
   * The base-10 parse shared by `stoi` and `stod` on integer text: skip leading
   * white space, take an optional sign, then at least one digit; anything after
   * the digits is ignored. No digit at that point is a failed parse.
   */
  function ParseLeadingInt(s: string): (r: Option<int>)
    ensures (forall i :: 0 <= i < |s| ==> !IsDigit(s[i])) ==> r == None
  {
    var t := s[SpaceRun(s)..];
    var negative := |t| > 0 && t[0] == '-';
    var u := if |t| > 0 && (t[0] == '-' || t[0] == '+') then t[1..] else t;
    var n := DigitRun(u);
    if n == 0 then None
    else
      var v: int := DigitsValue(u[..n]);
      Some(if negative then -v else v)
  }

  /** `stoi`: the leading-integer parse, failing (out_of_range) outside the `int` range. */
  function StoI(s: string): (r: Option<Int32>)
    ensures r.Some? ==> ParseLeadingInt(s) == Some(r.value as int)
    ensures r.None? ==> ParseLeadingInt(s).None? || !(INT_MIN <= ParseLeadingInt(s).value <= INT_MAX)
  {
    match ParseLeadingInt(s)
    case None => None
    case Some(v) => if INT_MIN <= v <= INT_MAX then Some(v as Int32) else None
  }

  /** `stod` restricted to integer grades (see README, "Left out"). */
  function StoD(s: string): Option<int>
  {
    ParseLeadingInt(s)
  }

  lemma {:induction false} DigitsValueOfRender(n: nat)
    ensures DigitsValue(RenderNat(n)) == n
    decreases n
  {
    var r := RenderNat(n);
    if n >= 10 {
      DigitsValueOfRender(n / 10);
      assert r[..|r| - 1] == RenderNat(n / 10);
    }
  }

  /** Parsing what `<<` wrote for an integer gives that integer back. */
  lemma ParseRender(n: int)
    ensures ParseLeadingInt(RenderInt(n)) == Some(n)
  {
    var s := RenderInt(n);
    var m: nat := if n < 0 then -n else n;
    var u := RenderNat(m);
    DigitsValueOfRender(m);
    assert SpaceRun(s) == 0 by {
      assert s[0] == '-' || IsDigit(s[0]);
    }
    assert s[SpaceRun(s)..] == s;
    if n < 0 {
      assert s[1..] == u;
    }
    assert DigitRun(u) == |u|;
    assert u[..|u|] == u;
  }

  /** An id written by `<<` is read back by `stoi` unchanged. */
  lemma StoIRender(n: Int32)
    ensures StoI(RenderInt(n)) == Some(n)
  {
    ParseRender(n);
  }

  /** Example: `stoi` ignores what follows the digits, so "12abc" reads as 12. */
  lemma StoIIgnoresTrailingText()
    ensures StoI("12abc") == Some(12)
  {
    var s := "12abc";
    assert SpaceRun(s) == 0;
    assert s[0..] == s;
    assert DigitRun("abc") == 0;
    assert DigitRun("2abc") == 1 by { assert "2abc"[1..] == "abc"; }
    assert DigitRun(s) == 2 by { assert s[1..] == "2abc"; }
    assert s[..2] == "12";
    assert DigitsValue("1") == 1 by { assert "1"[..0] == ""; }
    assert DigitsValue("12") == 12 by { assert "12"[..1] == "1"; }
  }

  /** Example: leading white space and a sign are accepted, so " -7" reads as -7. */
  lemma StoISkipsSpaceAndSign()
    ensures StoI(" -7") == Some(-7)
  {
    var s := " -7";
    assert SpaceRun(s) == 1 by { assert s[1..] == "-7"; assert SpaceRun("-7") == 0; }
    assert s[1..] == "-7";
    assert "-7"[1..] == "7";
    assert DigitRun("7") == 1 by { assert "7"[1..] == ""; }
    assert "7"[..1] == "7";
    assert DigitsValue("7") == 7 by { assert "7"[..0] == ""; }
  }

  /** Example: text without any digit, such as "abc", is not a number. */
  lemma StoIRejectsText()
    ensures StoI("abc") == None
  {
  }

  /** A value outside the `int` range is refused by `stoi` (out_of_range). */
  lemma StoIRejectsWide(n: int)
    requires n < INT_MIN || INT_MAX < n
    ensures StoI(RenderInt(n)) == None
  {
    ParseRender(n);
  }
}
