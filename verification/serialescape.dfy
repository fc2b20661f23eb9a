/** The serial monitor's display escaping, `escapeNonPrintable`: printable ASCII is
    shown as it is, tab, line feed, carriage return and escape as two-character
    backslash escapes, and every other code unit as `\x` followed by its lower-case
    hexadecimal value padded to at least two digits. */
module SerialEscape {
  import opened JsText
  import opened JsNumber
  import opened Results

  const Backslash: CodeUnit := 0x5C

  /** Space through tilde. */
  predicate IsPrintable(c: CodeUnit) {
    32 <= c <= 126
  }

  predicate AllPrintable(s: JsString) {
    forall i :: 0 <= i < |s| ==> IsPrintable(s[i])
  }

  /** `s.padStart(n, fill)` with a one-character `fill`: `s` behind enough copies of
      `fill` to make it `n` long, or `s` itself when it is long enough already. */
  function PadStart(s: JsString, n: nat, fill: CodeUnit): (r: JsString)
    ensures |r| == if |s| >= n then |s| else n
    ensures r[|r| - |s|..] == s
    ensures forall i :: 0 <= i < |r| - |s| ==> r[i] == fill
  {
    if |s| >= n then s else seq(n - |s|, _ => fill) + s
  }

  /** The letter of the two-character escape of `c`, for the four codes that have one. */
  function EscapeLetter(c: CodeUnit): Option<CodeUnit> {
    if c == 9 then Some('t' as CodeUnit)
    else if c == 10 then Some('n' as CodeUnit)
    else if c == 13 then Some('r' as CodeUnit)
    else if c == 27 then Some('e' as CodeUnit)
    else None
  }

  /** Hexadecimal digits are printable. */
  lemma DigitsPrintable(s: JsString)
    requires AllDigitsIn(s, 16)
    ensures AllPrintable(s)
  {
    forall i | 0 <= i < |s| ensures IsPrintable(s[i]) {
      assert IsDigitIn(s[i], 16);
    }
  }

  /** What one code unit is displayed as. */
  function EscapeUnit(c: CodeUnit): (r: JsString)
    ensures |r| >= 1 && AllPrintable(r)
    ensures |r| == 1 <==> IsPrintable(c)
    ensures IsPrintable(c) ==> r == [c]
    ensures !IsPrintable(c) ==> r[0] == Backslash
    ensures c == 9 ==> r == [Backslash, 't' as CodeUnit]
    ensures c == 10 ==> r == [Backslash, 'n' as CodeUnit]
    ensures c == 13 ==> r == [Backslash, 'r' as CodeUnit]
    ensures c == 27 ==> r == [Backslash, 'e' as CodeUnit]
    ensures !IsPrintable(c) && c != 9 && c != 10 && c != 13 && c != 27 ==> r == HexEscape(c)
  {
    if IsPrintable(c) then [c]
    else if EscapeLetter(c).Some? then [Backslash, EscapeLetter(c).value]
    else HexEscape(c)
  }

  /** `\x` and the lower-case hexadecimal digits of `c`, at least two of them: a
      leading zero appears only as padding of a single digit. */
  function HexEscape(c: CodeUnit): (r: JsString)
    ensures |r| >= 4 && AllPrintable(r)
    ensures r[0] == Backslash && r[1] == 'x' as CodeUnit
    ensures AllDigitsIn(r[2..], 16) && forall i :: 2 <= i < |r| ==> IsLowerDigit(r[i])
    ensures |r| == 4 || r[2] != '0' as CodeUnit
    ensures ValueOf(r[2..], 16) == c as nat
  {
    var padded := PadStart(ToRadix(c as nat, 16), 2, '0' as CodeUnit);
    PaddedNumeral(c as nat);
    DigitsPrintable(padded);
    var r := [Backslash, 'x' as CodeUnit] + padded;
    assert r[2..] == padded;
    r
  }

  /** `n.toString(16).padStart(2, '0')` is a lower-case numeral for `n` whose only
      leading zero is the padding. */
  lemma PaddedNumeral(n: nat)
    ensures var padded := PadStart(ToRadix(n, 16), 2, '0' as CodeUnit);
      && AllDigitsIn(padded, 16) && (forall i :: 0 <= i < |padded| ==> IsLowerDigit(padded[i]))
      && (|padded| == 2 || padded[0] != '0' as CodeUnit)
      && ValueOf(padded, 16) == n
  {
    var digits := ToRadix(n, 16);
    var padded := PadStart(digits, 2, '0' as CodeUnit);
    ToRadixLower(n, 16);
    forall i | 0 <= i < |padded| ensures IsDigitIn(padded[i], 16) && IsLowerDigit(padded[i]) {
      if i >= |padded| - |digits| {
        assert padded[i] == padded[|padded| - |digits|..][i - (|padded| - |digits|)];
      }
    }
    var zeros := padded[..|padded| - |digits|];
    assert padded == zeros + digits;
    LeadingZeros(zeros, digits, 16);
    ToRadixValue(n, 16);
  }

  /** `escapeNonPrintable(s)`: the escapes of the code units of `s`, joined. */
  function Escape(s: JsString): (r: JsString)
    ensures |r| >= |s|
    ensures AllPrintable(r)
  {
    if |s| == 0 then []
    else
      var init := Escape(s[..|s| - 1]);
      var last := EscapeUnit(s[|s| - 1]);
      PrintableConcat(init, last);
      init + last
  }

  lemma PrintableConcat(a: JsString, b: JsString)
    requires AllPrintable(a) && AllPrintable(b)
    ensures AllPrintable(a + b)
  {
    forall i | 0 <= i < |a + b| ensures IsPrintable((a + b)[i]) {
      if i >= |a| {
        assert (a + b)[i] == b[i - |a|];
      }
    }
  }

  /** Reading one displayed escape back: the inverse of `EscapeUnit`. */
  function UnescapeUnit(r: JsString): Option<CodeUnit> {
    if |r| == 1 then Some(r[0])
    else if |r| == 2 && r[0] == Backslash then
      if r[1] == 't' as CodeUnit then Some(9)
      else if r[1] == 'n' as CodeUnit then Some(10)
      else if r[1] == 'r' as CodeUnit then Some(13)
      else if r[1] == 'e' as CodeUnit then Some(27)
      else None
    else if |r| >= 3 && r[0] == Backslash && r[1] == 'x' as CodeUnit
      && AllDigitsIn(r[2..], 16) && ValueOf(r[2..], 16) < 0x1_0000
    then Some(ValueOf(r[2..], 16) as CodeUnit)
    else None
  }

  /** Every code unit's escape reads back as that code unit: escaping loses nothing
      unit by unit. */
  lemma UnitRoundTrip(c: CodeUnit)
    ensures UnescapeUnit(EscapeUnit(c)) == Some(c)
  {
  }

  /** Escaping distributes over concatenation. */
  lemma {:induction false} EscapeConcat(a: JsString, b: JsString)
    ensures Escape(a + b) == Escape(a) + Escape(b)
    decreases |b|
  {
    if |b| == 0 {
      assert a + b == a;
    } else {
      var init := b[..|b| - 1];
      assert b == init + [b[|b| - 1]];
      EscapeConcat(a, init);
      ConcatStep(a, init, b[|b| - 1]);
    }
  }

  lemma ConcatStep(a: JsString, init: JsString, c: CodeUnit)
    requires Escape(a + init) == Escape(a) + Escape(init)
    ensures Escape(a + (init + [c])) == Escape(a) + Escape(init + [c])
  {
    Associative(a, init, [c]);
    EscapeSnoc(a + init, c);
    EscapeSnoc(init, c);
    Associative(Escape(a), Escape(init), EscapeUnit(c));
  }

  lemma Associative<T>(x: seq<T>, y: seq<T>, z: seq<T>)
    ensures x + (y + z) == (x + y) + z
  {
  }

  lemma EscapeSnoc(s: JsString, c: CodeUnit)
    ensures Escape(s + [c]) == Escape(s) + EscapeUnit(c)
  {
    assert (s + [c])[..|s|] == s;
  }

  /** Escaping keeps the length exactly when every code unit is printable; otherwise
      the text grows. */
  lemma {:induction false} EscapeLength(s: JsString)
    ensures |Escape(s)| == |s| <==> AllPrintable(s)
    decreases |s|
  {
    if |s| > 0 {
      var init := s[..|s| - 1];
      EscapeLength(init);
      assert AllPrintable(s) <==> AllPrintable(init) && IsPrintable(s[|s| - 1]);
    }
  }

  /** Printable text is shown unchanged. */
  lemma {:induction false} PrintableUnchanged(s: JsString)
    requires AllPrintable(s)
    ensures Escape(s) == s
    decreases |s|
  {
    if |s| > 0 {
      PrintableUnchanged(s[..|s| - 1]);
      assert s[..|s| - 1] + [s[|s| - 1]] == s;
    }
  }

  /** The display is not injective: a real line feed and the two printable characters
      backslash, `n` are shown alike, so the whole display cannot be read back. */
  lemma AmbiguousBackslash()
    ensures Escape([LineFeed]) == Escape([Backslash, 'n' as CodeUnit])
  {
    var two: JsString := [Backslash, 'n' as CodeUnit];
    assert two[..1] == [Backslash];
    assert [Backslash][..0] == [];
    assert Escape([LineFeed]) == Escape([]) + EscapeUnit(LineFeed);
  }

  /** NUL, which has no letter escape, is shown as `\x00`. */
  lemma NulEscape()
    ensures EscapeUnit(0) == [Backslash, 'x' as CodeUnit, '0' as CodeUnit, '0' as CodeUnit]
  {
    assert EscapeUnit(0) == HexEscape(0);
  }

  /** DEL is shown as `\x7f`, in lower case. */
  lemma DelEscape()
    ensures EscapeUnit(0x7F) == [Backslash, 'x' as CodeUnit, '7' as CodeUnit, 'f' as CodeUnit]
  {
    var d := ToRadix(0x7F, 16);
    assert d == ToRadix(7, 16) + [DigitChar(15)];
    assert PadStart(d, 2, '0' as CodeUnit) == d;
    assert EscapeUnit(0x7F) == HexEscape(0x7F);
  }

  /** A code unit above 0xFF is shown with all of its digits: U+2028 as `\x2028`. */
  lemma WideEscape()
    ensures EscapeUnit(0x2028)
      == [Backslash, 'x' as CodeUnit, '2' as CodeUnit, '0' as CodeUnit, '2' as CodeUnit, '8' as CodeUnit]
  {
    assert ToRadix(0x20, 16) == [DigitChar(2), DigitChar(0)];
    assert ToRadix(0x202, 16) == ToRadix(0x20, 16) + [DigitChar(2)];
    var d := ToRadix(0x2028, 16);
    assert d == ToRadix(0x202, 16) + [DigitChar(8)];
    assert PadStart(d, 2, '0' as CodeUnit) == d;
    assert EscapeUnit(0x2028) == HexEscape(0x2028);
  }
}
