/** Integer text conversions of JavaScript: `Number.prototype.toString(radix)`
    for non-negative integers, and the global `parseInt` called without a radix. */
module JsNumber {
  import opened JsText
  import opened Results

  /** The value of `c` as a digit of bases up to 36 (letters in either case). */
  function DigitOf(c: CodeUnit): (r: Option<nat>)
    ensures r.Some? ==> r.value < 36
  {
    if '0' as CodeUnit <= c <= '9' as CodeUnit then Some((c - '0' as CodeUnit) as nat)
    else if 'a' as CodeUnit <= c <= 'z' as CodeUnit then Some((c - 'a' as CodeUnit) as nat + 10)
    else if 'A' as CodeUnit <= c <= 'Z' as CodeUnit then Some((c - 'A' as CodeUnit) as nat + 10)
    else None
  }

  predicate IsDigitIn(c: CodeUnit, radix: nat) {
    DigitOf(c).Some? && DigitOf(c).value < radix
  }

  predicate AllDigitsIn(s: JsString, radix: nat) {
    forall i :: 0 <= i < |s| ==> IsDigitIn(s[i], radix)
  }

  /** The numeral `s` read in base `radix`, most significant digit first. */
  function ValueOf(s: JsString, radix: nat): nat
    requires AllDigitsIn(s, radix)
  {
    if |s| == 0 then 0
    else ValueOf(s[..|s| - 1], radix) * radix + DigitOf(s[|s| - 1]).value
  }

  /** A decimal digit or a lower-case letter: the characters `toString` writes. */
  predicate IsLowerDigit(c: CodeUnit) {
    '0' as CodeUnit <= c <= '9' as CodeUnit || 'a' as CodeUnit <= c <= 'z' as CodeUnit
  }

  /** The lower-case digit character for `d`, as `toString` writes it. */
  function DigitChar(d: nat): (c: CodeUnit)
    requires d < 36
    ensures DigitOf(c) == Some(d) && IsLowerDigit(c)
  {
    if d < 10 then '0' as CodeUnit + d as CodeUnit else 'a' as CodeUnit + (d - 10) as CodeUnit
  }

  /** `n.toString(radix)` for a non-negative integer `n`: no sign, no leading zero. */
  function ToRadix(n: nat, radix: nat): (r: JsString)
    requires 2 <= radix <= 36
    ensures |r| >= 1 && AllDigitsIn(r, radix)
    ensures n > 0 ==> r[0] != '0' as CodeUnit
  {
    if n < radix then [DigitChar(n)]
    else
      DivisionShrinks(n, radix);
      ToRadix(n / radix, radix) + [DigitChar(n % radix)]
  }

  lemma DivisionShrinks(n: nat, radix: nat)
    requires 2 <= radix <= n
    ensures 1 <= n / radix < n && n % radix < radix
    ensures n == (n / radix) * radix + n % radix
  {
  }

  /** `toString` writes its letters in lower case. */
  lemma {:induction false} ToRadixLower(n: nat, radix: nat)
    requires 2 <= radix <= 36
    ensures forall i :: 0 <= i < |ToRadix(n, radix)| ==> IsLowerDigit(ToRadix(n, radix)[i])
  {
    if n >= radix {
      DivisionShrinks(n, radix);
      var high := ToRadix(n / radix, radix);
      ToRadixLower(n / radix, radix);
      assert ToRadix(n, radix) == high + [DigitChar(n % radix)];
    }
  }

  /** Reading the numeral `toString` wrote gives the number back. */
  lemma {:induction false} ToRadixValue(n: nat, radix: nat)
    requires 2 <= radix <= 36
    ensures ValueOf(ToRadix(n, radix), radix) == n
  {
    if n >= radix {
      DivisionShrinks(n, radix);
      var high := ToRadix(n / radix, radix);
      var r := ToRadix(n, radix);
      assert r == high + [DigitChar(n % radix)];
      assert r[..|r| - 1] == high;
      assert DigitOf(r[|r| - 1]).value == n % radix;
      ToRadixValue(n / radix, radix);
      assert ValueOf(r, radix) == ValueOf(high, radix) * radix + n % radix;
    }
  }

  predicate IsDecimalDigit(c: CodeUnit) {
    '0' as CodeUnit <= c <= '9' as CodeUnit
  }

  /** `n.toString()` for a non-negative integer `n`. */
  function Decimal(n: nat): (r: JsString)
    ensures |r| >= 1 && forall i :: 0 <= i < |r| ==> IsDecimalDigit(r[i])
    ensures n > 0 ==> r[0] != '0' as CodeUnit
  {
    ToRadix(n, 10)
  }

  /** `i.toString()` for an integer `i` (below 10^21 in magnitude, where JavaScript uses plain notation). */
  function IntToString(i: int): (r: JsString)
    ensures LineFeed !in r && Comma !in r
  {
    if i < 0 then ['-' as CodeUnit] + Decimal(-i) else Decimal(i)
  }

  /** Length of the longest prefix of `s` made of digits of base `radix`. */
  function DigitRun(s: JsString, radix: nat): (k: nat)
    ensures k <= |s| && AllDigitsIn(s[..k], radix)
    ensures k < |s| ==> !IsDigitIn(s[k], radix)
  {
    if |s| == 0 || !IsDigitIn(s[0], radix) then 0
    else
      var k := 1 + DigitRun(s[1..], radix);
      assert s[..k] == [s[0]] + s[1..][..k - 1];
      k
  }

  /** The longest digit prefix of `w` read in base `radix`; NaN (`None`) when there is none. */
  function ReadDigits(w: JsString, radix: nat): Option<nat>
  {
    var k := DigitRun(w, radix);
    if k == 0 then None else Some(ValueOf(w[..k], radix))
  }

  /** Whether an unsigned `parseInt` operand starts with the `0x`/`0X` prefix. */
  predicate HasHexPrefix(u: JsString) {
    |u| >= 2 && u[0] == '0' as CodeUnit && (u[1] == 'x' as CodeUnit || u[1] == 'X' as CodeUnit)
  }

  /** An unsigned `parseInt` operand: a `0x`/`0X` prefix selects base 16, base 10 otherwise. */
  function ParseMagnitude(u: JsString): Option<nat>
  {
    var hex := HasHexPrefix(u);
    ReadDigits(if hex then u[2..] else u, if hex then 16 else 10)
  }

  /** Whether `t` starts with a sign character. */
  predicate HasSign(t: JsString) {
    |t| > 0 && (t[0] == '-' as CodeUnit || t[0] == '+' as CodeUnit)
  }

  /** The global `parseInt(s)` without a radix argument: leading white space and one
      sign are skipped and the magnitude is read; no digit at all gives NaN (`None`). */
  function ParseInt(s: JsString): Option<int>
  {
    var t := TrimStart(s);
    var negative := |t| > 0 && t[0] == '-' as CodeUnit;
    match ParseMagnitude(if HasSign(t) then t[1..] else t)
    case None => None
    case Some(m) => Some(if negative then -(m as int) else m)
  }

  /** `parseInt(s) || 0`: NaN (and zero) become 0. */
  function ParseIntOrZero(s: JsString): int
  {
    ParseInt(s).GetOr(0)
  }

  /** A string made of digits is read entirely. */
  lemma {:induction false} DigitRunAll(s: JsString, radix: nat)
    requires AllDigitsIn(s, radix)
    ensures DigitRun(s, radix) == |s|
  {
    if |s| > 0 {
      DigitRunAll(s[1..], radix);
    }
  }

  /** `parseInt` reads back what `toString` wrote. */
  lemma ParseIntToString(i: int)
    ensures ParseInt(IntToString(i)) == Some(i)
  {
    var m: nat := if i < 0 then -i else i;
    var d := Decimal(m);
    DecimalMagnitude(m);
    var s := IntToString(i);
    assert !IsWhiteSpace(s[0]) && LeadingWhiteSpace(s) == 0;
    assert TrimStart(s) == s;
    if i < 0 {
      assert s[1..] == d;
    } else {
      assert !HasSign(s);
    }
  }

  /** The decimal numeral of `m`, without a sign, reads as `m`. */
  lemma DecimalMagnitude(m: nat)
    ensures ParseMagnitude(Decimal(m)) == Some(m)
  {
    var d := Decimal(m);
    assert AllDigitsIn(d, 10);
    DigitRunAll(d, 10);
    ToRadixValue(m, 10);
    assert d[..|d|] == d;
    assert !HasHexPrefix(d) by {
      if |d| >= 2 {
        assert IsDecimalDigit(d[1]);
      }
    }
  }

  /** A field without any decimal digit, the empty field included, reads as 0. */
  lemma ParseIntNoDigits(s: JsString)
    requires forall i :: 0 <= i < |s| ==> !IsDecimalDigit(s[i])
    ensures ParseIntOrZero(s) == 0
  {
    var t := TrimStart(s);
    assert t == s[LeadingWhiteSpace(s)..];
    NoDigitsNoMagnitude(if HasSign(t) then t[1..] else t);
  }

  lemma NoDigitsNoMagnitude(u: JsString)
    requires forall i :: 0 <= i < |u| ==> !IsDecimalDigit(u[i])
    ensures ParseMagnitude(u) == None
  {
    if |u| > 0 {
      assert !IsDigitIn(u[0], 10);
    }
  }

  /** Leading zeros do not change the value of a numeral. */
  lemma {:induction false} LeadingZeros(z: JsString, s: JsString, radix: nat)
    requires 2 <= radix
    requires forall i :: 0 <= i < |z| ==> z[i] == '0' as CodeUnit
    requires AllDigitsIn(s, radix)
    ensures AllDigitsIn(z + s, radix)
    ensures ValueOf(z + s, radix) == ValueOf(s, radix)
    decreases |s|, |z|
  {
    assert AllDigitsIn(z + s, radix) by {
      forall i | 0 <= i < |z + s| ensures IsDigitIn((z + s)[i], radix) {
        if i < |z| { assert (z + s)[i] == z[i]; } else { assert (z + s)[i] == s[i - |z|]; }
      }
    }
    if |s| == 0 {
      assert z + s == z;
      if |z| > 0 {
        assert z[..|z| - 1] + [] == z[..|z| - 1];
        LeadingZeros(z[..|z| - 1], [], radix);
      }
    } else {
      assert (z + s)[..|z + s| - 1] == z + s[..|s| - 1];
      LeadingZeros(z, s[..|s| - 1], radix);
    }
  }
}
