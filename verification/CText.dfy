/** Zero-terminated strings, character classes and decimal numerals. */
module CText {
  import opened Wrappers

  /** The characters of a C string before its terminator. */
  type CString = s: string | '\0' !in s witness ""

  /** The character at position i, which is the terminator at the end of the string. */
  function At(z: CString, i: nat): (c: char)
    ensures c != '\0' <==> i < |z|
  {
    if i < |z| then z[i] else '\0'
  }

  predicate IsDigit(c: char) {
    '0' <= c <= '9'
  }

  predicate IsSpace(c: char) {
    c == ' ' || c == '\t' || c == '\n' || c == '\U{0B}' || c == '\U{0C}' || c == '\r'
  }

  function Lower(c: char): char {
    if 'A' <= c <= 'Z' then c - 'A' + 'a' else c
  }

  /** The strings are equal up to the case of the letters A-Z. */
  predicate SameName(a: string, b: string) {
    |a| == |b| && forall i :: 0 <= i < |a| ==> Lower(a[i]) == Lower(b[i])
  }

  function DigitValue(c: char): int {
    c as int - '0' as int
  }

  function DigitChar(d: int): (c: char)
    requires 0 <= d <= 9
    ensures IsDigit(c) && DigitValue(c) == d
  {
    '0' + d as char
  }

  predicate AllDigits(t: string) {
    forall k :: 0 <= k < |t| ==> IsDigit(t[k])
  }

  /** The number written by a string of decimal digits. */
  function Value(t: string): int {
    if t == [] then 0 else Value(t[..|t| - 1]) * 10 + DigitValue(t[|t| - 1])
  }

  function Pow10(k: nat): (n: nat)
    ensures n >= 1
  {
    if k == 0 then 1 else 10 * Pow10(k - 1)
  }

  /** `w` decimal digits of n. */
  function Fixed(w: nat, n: nat): (t: string)
    ensures |t| == w && AllDigits(t)
  {
    if w == 0 then [] else Fixed(w - 1, n / 10) + [DigitChar(n % 10)]
  }

  /** The decimal numeral of n, without leading zeros. */
  function Numeral(n: nat): (t: string)
    ensures |t| >= 1 && AllDigits(t)
  {
    if n < 10 then [DigitChar(n)] else Numeral(n / 10) + [DigitChar(n % 10)]
  }

  /** "%0wd" of printf: a sign if negative, then zeros up to the width. */
  function Padded(w: nat, n: int): (t: CString) {
    if n >= 0 then
      var d := Numeral(n);
      Fill(if |d| < w then w - |d| else 0, '0') + d
    else
      var d := Numeral(-n);
      "-" + Fill(if |d| + 1 < w then w - 1 - |d| else 0, '0') + d
  }

  /** a, then the character c, then b. */
  function Joined(a: CString, c: char, b: CString): (t: CString)
    requires c != '\0'
  {
    a + [c] + b
  }

  function SkipDigits(z: CString, i: nat): (j: nat)
    ensures j >= i && (j == i || j <= |z|) && !IsDigit(At(z, j))
    ensures forall k :: i <= k < j ==> IsDigit(At(z, k))
    decreases |z| - i
  {
    if IsDigit(At(z, i)) then SkipDigits(z, i + 1) else i
  }

  function SkipSpaces(z: CString, i: nat): (j: nat)
    ensures j >= i && (j == i || j <= |z|) && !IsSpace(At(z, j))
    ensures forall k :: i <= k < j ==> IsSpace(At(z, k))
    decreases |z| - i
  {
    if IsSpace(At(z, i)) then SkipSpaces(z, i + 1) else i
  }

  lemma {:induction false} ValueOfNumeral(n: nat)
    ensures Value(Numeral(n)) == n
  {
    if n >= 10 {
      ValueOfNumeral(n / 10);
      assert Numeral(n)[..|Numeral(n)| - 1] == Numeral(n / 10);
    }
  }

  lemma {:induction false} FillAppend(k: nat)
    ensures Fill(k, '0') + "0" == Fill(k + 1, '0')
  {
  }

  lemma {:induction false} NumeralLength(n: nat, w: nat)
    requires w >= 1 && n < Pow10(w)
    ensures |Numeral(n)| <= w
  {
    if n >= 10 { NumeralLength(n / 10, w - 1); }
  }

  lemma TenthFits(w: nat, n: nat)
    requires w >= 1 && n < Pow10(w)
    ensures n / 10 < Pow10(w - 1)
  {
  }

  lemma PaddedDigit(w: nat, n: nat)
    requires w >= 2 && n < 10
    ensures Padded(w, n) == Padded(w - 1, n / 10) + [DigitChar(n % 10)]
  {
    FillAppend(w - 2);
  }

  lemma NumeralOfTenth(n: nat)
    requires n >= 10
    ensures |Numeral(n)| == |Numeral(n / 10)| + 1
  {
  }

  lemma PaddedDigits(w: nat, n: nat)
    requires n >= 10 && 2 <= |Numeral(n)| <= w
    ensures Padded(w, n) == Padded(w - 1, n / 10) + [DigitChar(n % 10)]
  {
    var d, e := Numeral(n / 10), [DigitChar(n % 10)];
    var zeros := Fill(w - 1 - |d|, '0');
    assert zeros + (d + e) == (zeros + d) + e;
  }

  /** A padded numeral that fits its width is exactly that wide. */
  lemma {:induction false} PaddedFits(w: nat, n: nat)
    requires w >= 1 && n < Pow10(w)
    ensures Padded(w, n) == Fixed(w, n)
  {
    if w == 1 {
      assert Fixed(1, n) == Fixed(0, n / 10) + [DigitChar(n % 10)] == [DigitChar(n)];
    } else {
      hide Pow10, Padded, Numeral;
      TenthFits(w, n);
      PaddedFits(w - 1, n / 10);
      NumeralLength(n, w);
      if n < 10 { PaddedDigit(w, n); } else { NumeralOfTenth(n); PaddedDigits(w, n); }
    }
  }

  lemma {:induction false} FixedValue(w: nat, n: nat)
    requires n < Pow10(w)
    ensures Value(Fixed(w, n)) == n
  {
    if w > 0 {
      FixedValue(w - 1, n / 10);
      assert Fixed(w, n)[..w - 1] == Fixed(w - 1, n / 10);
    }
  }

  /** Two digit strings of one length that name one number are the same string. */
  lemma {:induction false} ValueDeterminesDigits(s: string, t: string)
    requires AllDigits(s) && AllDigits(t) && |s| == |t| && Value(s) == Value(t)
    ensures s == t
  {
    if s != [] {
      var k := |s| - 1;
      assert DigitValue(s[k]) == DigitValue(t[k]) && Value(s[..k]) == Value(t[..k]);
      ValueDeterminesDigits(s[..k], t[..k]);
      assert s == s[..k] + [s[k]] && t == t[..k] + [t[k]];
    }
  }

  lemma {:induction false} ValueBound(t: string)
    requires AllDigits(t)
    ensures 0 <= Value(t) < Pow10(|t|)
  {
    if t != [] { ValueBound(t[..|t| - 1]); }
  }

  /** "%d" of printf: the numeral, with a sign if negative. */
  lemma PaddedToOne(n: int)
    ensures Padded(1, n) == if n >= 0 then Numeral(n) else "-" + Numeral(-n)
  {
    hide Numeral;
    assert Fill(0, '0') == "";
  }

  /** The number that digits write, with a minus sign before them or without. */
  function SignedValue(t: string): (n: int) {
    if t != "" && t[0] == '-' then -Value(t[1..]) else Value(t)
  }

  lemma SignedValueOfPadded(n: int)
    ensures SignedValue(Padded(1, n)) == n
  {
    hide Numeral, Value, Padded;
    PaddedToOne(n);
    var d := Numeral(if n >= 0 then n else -n);
    ValueOfNumeral(if n >= 0 then n else -n);
    assert IsDigit(d[0]) && d[0] != '-';
    assert ("-" + d)[1..] == d;
  }

  lemma {:induction false} ZerosAreZero(k: nat)
    ensures Value(Fill(k, '0')) == 0
  {
    if k > 0 {
      ZerosAreZero(k - 1);
      FillAppend(k - 1);
      assert Fill(k, '0')[..k - 1] == Fill(k - 1, '0');
    }
  }

  lemma {:induction false} LeadingZeros(k: nat, d: string)
    requires AllDigits(d)
    ensures AllDigits(Fill(k, '0') + d) && Value(Fill(k, '0') + d) == Value(d)
    decreases |d|
  {
    var t := Fill(k, '0') + d;
    if d != "" {
      LeadingZeros(k, d[..|d| - 1]);
      assert t[..|t| - 1] == Fill(k, '0') + d[..|d| - 1];
    } else {
      assert t == Fill(k, '0');
      ZerosAreZero(k);
    }
  }

  /** A padded numeral is digits that write its number, whatever the width. */
  lemma PaddedValue(w: nat, n: nat)
    ensures AllDigits(Padded(w, n)) && Value(Padded(w, n)) == n
  {
    hide Numeral, Value;
    var d := Numeral(n);
    ValueOfNumeral(n);
    LeadingZeros(if |d| < w then w - |d| else 0, d);
  }

  /** A capital letter A-Z and the small letter that belongs to it. */
  predicate CapitalAndSmall(a: char, b: char) {
    'A' <= a <= 'Z' && b as int == a as int + 32
  }

  /** Two strings have the same name exactly if they differ at most by the case of letters. */
  lemma SameNameExactly(a: string, b: string)
    ensures SameName(a, b) <==>
            |a| == |b| && forall i :: 0 <= i < |a| ==>
              a[i] == b[i] || CapitalAndSmall(a[i], b[i]) || CapitalAndSmall(b[i], a[i])
  {
  }

  /** The classes of the C library in its default locale. */
  lemma Classes(c: char)
    ensures IsSpace(c) <==> c as int == 32 || 9 <= c as int <= 13
    ensures IsDigit(c) <==> 48 <= c as int <= 57
  {
  }
}
