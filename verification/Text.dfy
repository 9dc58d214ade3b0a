/** Bytes and decimal numerals, as the C library prints and reads them.

    A `char` stands for one byte of a C string and a `string` for the bytes
    before its terminating NUL. */
module Text {
  datatype Option<+T> = None | Some(value: T)

  const INT64_MIN: int := -0x8000_0000_0000_0000
  const INT64_MAX: int := 0x7FFF_FFFF_FFFF_FFFF
  const UINT64_MAX: int := 0xFFFF_FFFF_FFFF_FFFF

  function Min(a: int, b: int): int {
    if a <= b then a else b
  }

  predicate IsDigit(c: char) {
    '0' <= c <= '9'
  }

  predicate AllDigits(s: string) {
    forall i :: 0 <= i < |s| ==> IsDigit(s[i])
  }

  function DigitValue(c: char): (d: nat)
    requires IsDigit(c)
    ensures d < 10
  {
    c as int - '0' as int
  }

  function Digit(d: nat): (c: char)
    requires d < 10
    ensures IsDigit(c) && DigitValue(c) == d
  {
    (d + '0' as int) as char
  }

  /** The numeral printf writes for "%lu". */
  function Decimal(n: nat): (s: string)
    ensures s != "" && AllDigits(s)
    ensures s[0] == '0' ==> n == 0 && |s| == 1
  {
    if n < 10 then [Digit(n)] else Decimal(n / 10) + [Digit(n % 10)]
  }

  /** The numeral printf writes for "%ld". */
  function Signed(n: int): (s: string)
    ensures s != "" && (s[0] == '-' || IsDigit(s[0]))
  {
    if n < 0 then "-" + Decimal(-n) else Decimal(n)
  }

  /** Numerals to the base ten, with no leading zeroes, a minus sign before those of
      negative numbers. */
  lemma NumeralIs(n: nat)
    ensures n < 10 ==> Decimal(n) == ["0123456789"[n]]
    ensures n >= 10 ==> Decimal(n) == Decimal(n / 10) + ["0123456789"[n % 10]]
    ensures Signed(n) == Decimal(n) && (n > 0 ==> Signed(-(n as int)) == "-" + Decimal(n))
  {
    assert forall d :: 0 <= d < 10 ==> Digit(d) == "0123456789"[d];
  }

  /** The number a run of digits denotes. */
  function DigitsValue(s: string): nat
    requires AllDigits(s)
  {
    if s == "" then 0 else 10 * DigitsValue(s[..|s| - 1]) + DigitValue(s[|s| - 1])
  }

  /** Reading a printed numeral gives the number back. */
  lemma {:induction false} DecimalValue(n: nat)
    ensures DigitsValue(Decimal(n)) == n
  {
    if n >= 10 {
      DecimalValue(n / 10);
      assert Decimal(n)[..|Decimal(n)| - 1] == Decimal(n / 10);
    }
  }

  function Pow10(k: nat): (p: nat)
    ensures p >= 1
  {
    if k == 0 then 1 else 10 * Pow10(k - 1)
  }

  lemma {:induction false} DecimalLength(n: nat, k: nat)
    requires 1 <= k && n < Pow10(k)
    ensures |Decimal(n)| <= k
  {
    if n >= 10 {
      assert Pow10(k) == 10 * Pow10(k - 1);
      DecimalLength(n / 10, k - 1);
    }
  }

  /** The builder's 32-byte number buffer never cuts a 64-bit numeral short. */
  lemma NumeralFits(n: int)
    requires INT64_MIN <= n <= UINT64_MAX
    ensures |Signed(n)| < 32
  {
    assert Pow10(4) == 10000;
    assert Pow10(8) == Pow10(4) * 10000;
    assert Pow10(12) == Pow10(8) * 10000;
    assert Pow10(16) == Pow10(12) * 10000;
    assert Pow10(20) == Pow10(16) * 10000;
    DecimalLength(if n < 0 then -n else n, 20);
  }

  /** How many digits a text starts with. */
  function DigitRun(s: string): (k: nat)
    ensures k <= |s| && AllDigits(s[..k])
    ensures k < |s| ==> !IsDigit(s[k])
  {
    if s != "" && IsDigit(s[0]) then
      var k := 1 + DigitRun(s[1..]);
      assert forall i :: 0 < i < k ==> s[i] == s[1..][i - 1];
      k
    else 0
  }

  lemma {:induction false} DigitRunIs(d: string, rest: string)
    requires AllDigits(d) && (rest == "" || !IsDigit(rest[0]))
    ensures DigitRun(d + rest) == |d|
  {
    if d == "" {
      assert d + rest == rest;
    } else {
      assert (d + rest)[1..] == d[1..] + rest;
      DigitRunIs(d[1..], rest);
    }
  }

  /** C's isspace in the "C" locale. */
  predicate IsSpace(c: char) {
    c == ' ' || '\t' <= c <= '\r'
  }

  /** `text` holds `pattern` at position `i`. */
  predicate MatchesAt(text: string, pattern: string, i: nat) {
    i <= |text| && pattern <= text[i..]
  }

  /** strstr: the position of the first match. */
  function StrStr(text: string, pattern: string): (r: Option<nat>)
    ensures r.Some? ==> MatchesAt(text, pattern, r.value)
    ensures r.Some? ==> forall j: nat :: j < r.value ==> !MatchesAt(text, pattern, j)
    ensures r.None? ==> forall j: nat :: !MatchesAt(text, pattern, j)
  {
    StrStrFrom(text, pattern, 0)
  }

  function StrStrFrom(text: string, pattern: string, i: nat): (r: Option<nat>)
    requires i <= |text|
    ensures r.Some? ==> r.value >= i && MatchesAt(text, pattern, r.value)
    ensures r.Some? ==> forall j: nat :: i <= j < r.value ==> !MatchesAt(text, pattern, j)
    ensures r.None? ==> forall j: nat :: i <= j ==> !MatchesAt(text, pattern, j)
    decreases |text| - i
  {
    if pattern <= text[i..] then Some(i)
    else if i == |text| then None
    else StrStrFrom(text, pattern, i + 1)
  }

  /** strchr: the position of the first `c`. */
  function StrChr(text: string, c: char): (r: Option<nat>)
    ensures r.Some? ==> r.value < |text| && text[r.value] == c && c !in text[..r.value]
    ensures r.None? ==> c !in text
  {
    if text == "" then None
    else if text[0] == c then Some(0)
    else match StrChr(text[1..], c)
      case None => None
      case Some(k) =>
        assert text[..k + 1] == [text[0]] + text[1..][..k];
        Some(k + 1)
  }

  lemma {:induction false} StrChrIs(text: string, c: char, k: nat)
    requires k < |text| && text[k] == c && c !in text[..k]
    ensures StrChr(text, c) == Some(k)
  {
    if k > 0 {
      assert text[0] == text[..k][0];
      assert text[1..][..k - 1] == text[..k][1..];
      StrChrIs(text[1..], c, k - 1);
    }
  }

  /** strrchr: the position of the last `c`. */
  function StrRChr(text: string, c: char): (r: Option<nat>)
    ensures r.Some? ==> r.value < |text| && text[r.value] == c && c !in text[r.value + 1..]
    ensures r.None? ==> c !in text
  {
    if text == "" then None
    else
      var n := |text| - 1;
      if text[n] == c then Some(n)
      else match StrRChr(text[..n], c)
        case None => None
        case Some(k) =>
          assert text[k + 1..] == text[..n][k + 1..] + [text[n]];
          Some(k)
  }

  function SkipSpace(s: string): (r: string)
    ensures r != "" ==> !IsSpace(r[0])
  {
    if s != "" && IsSpace(s[0]) then SkipSpace(s[1..]) else s
  }

  /** The number spelled by the digits at the start of `s`, 0 if there is none. */
  function ReadDigits(s: string): nat {
    DigitsValue(s[..DigitRun(s)])
  }

  /** The integer strtoll or strtoul finds at the start of `s`, before clamping. */
  function ReadInteger(s: string): int {
    var t := SkipSpace(s);
    if t != "" && t[0] == '-' then -(ReadDigits(t[1..]) as int)
    else if t != "" && t[0] == '+' then ReadDigits(t[1..])
    else ReadDigits(t)
  }

  function Clamp(n: int, low: int, high: int): int {
    if n < low then low else if n > high then high else n
  }

  /** strtoll(s, NULL, 10): out-of-range numerals clamp. */
  function StrToLL(s: string): int {
    Clamp(ReadInteger(s), INT64_MIN, INT64_MAX)
  }

  lemma ReadDecimal(n: nat, rest: string)
    requires rest == "" || !IsDigit(rest[0])
    ensures ReadDigits(Decimal(n) + rest) == n
  {
    DigitRunIs(Decimal(n), rest);
    DecimalValue(n);
    assert (Decimal(n) + rest)[..|Decimal(n)|] == Decimal(n);
  }

  lemma ReadNegative(n: nat, rest: string)
    requires rest == "" || !IsDigit(rest[0])
    ensures ReadInteger("-" + Decimal(n) + rest) == -(n as int)
  {
    var s := "-" + Decimal(n) + rest;
    assert s[0] == '-' && s[1..] == Decimal(n) + rest;
    ReadDecimal(n, rest);
  }

  /** A printed integer followed by anything but a digit reads back as itself. */
  lemma ReadSigned(n: int, rest: string)
    requires rest == "" || !IsDigit(rest[0])
    ensures ReadInteger(Signed(n) + rest) == n
  {
    if n < 0 {
      ReadNegative(-n, rest);
    } else {
      assert (Decimal(n) + rest)[0] == Decimal(n)[0];
      ReadDecimal(n, rest);
    }
  }
}
