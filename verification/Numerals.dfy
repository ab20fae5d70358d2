/** Decimal text as the programs exchange it: printing with "%d", reading back with
    atoi over a fixed read window, with sscanf over a C string, and with the kernel's
    kstrtol. Integers are mathematical; 32-bit truncation is written out. */
module Numerals {
  import opened Wrappers

  const INT32_MAX := 0x7fff_ffff
  const INT32_MIN := -0x8000_0000
  const LONG_MAX := 0x7fff_ffff_ffff_ffff
  const NUL: char := '\0'

  /** Storing a long into an int: the low 32 bits, read as two's complement. */
  function ToInt32(n: int): (r: int)
    ensures INT32_MIN <= r <= INT32_MAX
    ensures INT32_MIN <= n <= INT32_MAX ==> r == n
    ensures (n - r) % 0x1_0000_0000 == 0
  {
    (n + 0x8000_0000) % 0x1_0000_0000 - 0x8000_0000
  }

  predicate IsDigit(c: char) { '0' <= c <= '9' }

  predicate IsSpace(c: char) { c == ' ' || '\t' <= c <= '\r' }

  predicate AllDigits(s: string) { forall i :: 0 <= i < |s| ==> IsDigit(s[i]) }

  function DigitChar(d: nat): (c: char)
    requires d < 10
  {
    '0' + d as char
  }

  function DigitValue(c: char): (d: nat)
    requires IsDigit(c)
  {
    (c as int) - ('0' as int)
  }

  /** "%u" */
  function Digits(n: nat): (s: string)
    ensures |s| > 0 && AllDigits(s)
  {
    if n < 10 then [DigitChar(n)] else Digits(n / 10) + [DigitChar(n % 10)]
  }

  /** "%d" */
  function Decimal(n: int): (s: string)
    ensures |s| > 0 && (IsDigit(s[0]) || s[0] == '-')
  {
    if n < 0 then "-" + Digits(-n) else Digits(n)
  }

  /** The number a run of digits denotes. */
  function Value(s: string): (n: nat)
    requires AllDigits(s)
  {
    if s == [] then 0 else 10 * Value(s[..|s| - 1]) + DigitValue(s[|s| - 1])
  }

  lemma {:induction false} ValueOfDigits(n: nat)
    ensures Value(Digits(n)) == n
  {
    if n >= 10 {
      ValueOfDigits(n / 10);
      assert Digits(n)[..|Digits(n)| - 1] == Digits(n / 10);
    }
  }

  function Pow10(k: nat): (p: nat)
    ensures p > 0
  {
    if k == 0 then 1 else 10 * Pow10(k - 1)
  }

  /** A number prints in at most k digits exactly when it is below 10^k. */
  lemma {:induction false} DigitsLength(n: nat, k: nat)
    requires k > 0
    ensures |Digits(n)| <= k <==> n < Pow10(k)
  {
    if n >= 10 && k > 1 {
      DigitsLength(n / 10, k - 1);
      assert n < 10 * Pow10(k - 1) <==> n / 10 < Pow10(k - 1);
    } else if n >= 10 {
      assert |Digits(n)| >= 2;
      assert Pow10(1) == 10 * Pow10(0);
    } else {
      Pow10Grows(k);
    }
  }

  lemma {:induction false} Pow10Grows(k: nat)
    requires k > 0
    ensures Pow10(k) >= 10
  {
    if k > 1 { Pow10Grows(k - 1); }
  }

  /** The first position from i on that holds no digit. */
  function DigitRun(s: string, i: nat): (j: nat)
    requires i <= |s|
    ensures i <= j <= |s| && AllDigits(s[i..j])
    ensures j < |s| ==> !IsDigit(s[j])
    decreases |s| - i
  {
    if i < |s| && IsDigit(s[i]) then
      var j := DigitRun(s, i + 1);
      assert s[i..j] == [s[i]] + s[i + 1..j];
      j
    else i
  }

  function SkipSpaces(s: string, i: nat): (j: nat)
    requires i <= |s|
    ensures i <= j <= |s|
    decreases |s| - i
  {
    if i < |s| && IsSpace(s[i]) then SkipSpaces(s, i + 1) else i
  }

  /** atoi on a read window. None when the digits reach the end of the window: C's atoi
      would then read past it. */
  function Atoi(w: string): (r: Option<int>)
  {
    var i := SkipSpaces(w, 0);
    if i == |w| then None
    else
      var start := if w[i] == '-' || w[i] == '+' then i + 1 else i;
      var end := DigitRun(w, start);
      if end == |w| then None
      else
        var magnitude: int := Value(w[start..end]);
        Some(if w[i] == '-' then -magnitude else magnitude)
  }

  /** What a zero-filled buffer of the given size holds after a read of this file content. */
  function Window(content: string, size: nat): (w: string)
    ensures |w| == size
  {
    if |content| >= size then content[..size]
    else content + seq(size - |content|, _ => NUL)
  }

  /** sscanf of "%d" on a C string. None when there is no number to convert. */
  function ScanInt(s: string): (r: Option<int>)
  {
    ScanNumber(s, SkipSpaces(s, 0))
  }

  /** A sign, if any, and digits from position i on. */
  function ScanNumber(s: string, i: nat): (r: Option<int>)
    requires i <= |s|
  {
    var negative := i < |s| && s[i] == '-';
    var start := if i < |s| && (s[i] == '-' || s[i] == '+') then i + 1 else i;
    var end := DigitRun(s, start);
    if end == start then None
    else
      var magnitude: int := Value(s[start..end]);
      Some(if negative then -magnitude else magnitude)
  }

  datatype ParseResult = Parsed(value: int) | RangeError | SyntaxError

  /** kstrtol in base 10: one optional sign, at least one digit, one optional newline. */
  function Kstrtol(s: string): (r: ParseResult)
  {
    if s != [] && s[0] == '-' then ConvertLong(s, 1, true)
    else if s != [] && s[0] == '+' then ConvertLong(s, 1, false)
    else ConvertLong(s, 0, false)
  }

  function ConvertLong(s: string, start: nat, negative: bool): (r: ParseResult)
    requires start <= |s|
  {
    var end := DigitRun(s, start);
    if end == start then SyntaxError
    else InRange(Value(s[start..end]), negative, end == |s| || (end == |s| - 1 && s[end] == '\n'))
  }

  /** The kernel's checks in their order: unsigned overflow, then what follows the digits,
      then the signed range. */
  function InRange(magnitude: int, negative: bool, ended: bool): (r: ParseResult)
  {
    if magnitude > 2 * LONG_MAX + 1 then RangeError
    else if !ended then SyntaxError
    else if magnitude > (if negative then LONG_MAX + 1 else LONG_MAX) then RangeError
    else Parsed(if negative then -magnitude else magnitude)
  }

  function Sign(n: int): string { if n < 0 then "-" else "" }

  function Magnitude(n: int): nat { if n < 0 then -n else n }

  lemma {:induction false} DigitRunOver(s: string, i: nat, j: nat)
    requires i <= j <= |s| && AllDigits(s[i..j])
    requires j < |s| ==> !IsDigit(s[j])
    ensures DigitRun(s, i) == j
    decreases j - i
  {
    if i < j {
      assert IsDigit(s[i..j][0]);
      assert s[i + 1..j] == s[i..j][1..];
      DigitRunOver(s, i + 1, j);
    }
  }

  /** A run of digits in the middle of a text. */
  lemma DigitsInText(before: string, digits: string, rest: string)
    requires AllDigits(digits) && (rest != [] ==> !IsDigit(rest[0]))
    ensures var s, end := before + digits + rest, |before| + |digits|;
      DigitRun(s, |before|) == end && s[|before|..end] == digits
  {
    var s := before + digits + rest;
    assert s[|before|..|before| + |digits|] == digits;
    DigitRunOver(s, |before|, |before| + |digits|);
  }

  function Signed(sign: string, magnitude: int): int { if sign == "-" then -magnitude else magnitude }

  predicate IsNumeral(sign: string, digits: string)
  {
    (sign == "" || sign == "-") && digits != [] && AllDigits(digits)
  }

  /** Printed text is a sign and digits of the right value. */
  lemma DecimalIsNumeral(n: int)
    ensures IsNumeral(Sign(n), Digits(Magnitude(n)))
    ensures Decimal(n) == Sign(n) + Digits(Magnitude(n))
    ensures Signed(Sign(n), Value(Digits(Magnitude(n)))) == n
  {
    ValueOfDigits(Magnitude(n));
  }

  lemma AtoiOfNumeral(sign: string, digits: string, rest: string)
    requires IsNumeral(sign, digits) && rest != [] && !IsDigit(rest[0])
    ensures Atoi(sign + digits + rest) == Some(Signed(sign, Value(digits)))
  {
    assert SkipSpaces(sign + digits + rest, 0) == 0;
    DigitsInText(sign, digits, rest);
  }

  lemma ScanNumberAt(before: string, sign: string, digits: string)
    requires IsNumeral(sign, digits)
    ensures ScanNumber(before + (sign + digits), |before|) == Some(Signed(sign, Value(digits)))
  {
    var s := before + (sign + digits);
    DigitsInText(before + sign, digits, "");
    assert before + sign + digits + "" == s;
    assert s[|before|] == (sign + digits)[0];
  }

  /** Printed text followed by a terminator scans back to the printed number. */
  lemma AtoiOfDecimal(n: int, rest: string)
    requires |rest| > 0 && !IsDigit(rest[0])
    ensures Atoi(Decimal(n) + rest) == Some(n)
  {
    DecimalIsNumeral(n);
    AtoiOfNumeral(Sign(n), Digits(Magnitude(n)), rest);
  }

  /** A window filled with printed text and nothing after it has no end of number. */
  lemma AtoiOfTruncated(n: int, size: nat)
    requires size <= |Decimal(n)|
    ensures Atoi(Decimal(n)[..size]) == None
  {
    var start, digits := |Sign(n)|, Digits(Magnitude(n));
    var w := Decimal(n)[..size];
    if size > start {
      assert SkipSpaces(w, 0) == 0;
      assert forall k :: start <= k < size ==> w[k] == digits[k - start];
      DigitRunOver(w, start, size);
    }
  }

  lemma KstrtolOfDecimal(n: int)
    requires -LONG_MAX - 1 <= n <= LONG_MAX
    ensures Kstrtol(Decimal(n)) == Parsed(n)
  {
    DecimalIsNumeral(n);
    KstrtolOfKernelNumber(Decimal(n), Sign(n), Digits(Magnitude(n)), "");
  }

  /** The text is a sign or none, digits of this magnitude, and a newline or nothing. */
  predicate IsKernelNumber(s: string, sign: string, digits: string, rest: string)
  {
    && s == sign + digits + rest && sign in {"", "-", "+"} && rest in {"", "\n"}
    && digits != [] && AllDigits(digits)
  }

  lemma ConvertLongExactly(s: string, sign: string, digits: string, rest: string, negative: bool)
    requires IsKernelNumber(s, sign, digits, rest)
    ensures ConvertLong(s, |sign|, negative) == InRange(Value(digits), negative, true)
  {
    DigitsInText(sign, digits, rest);
  }

  lemma KstrtolOfKernelNumber(s: string, sign: string, digits: string, rest: string)
    requires IsKernelNumber(s, sign, digits, rest) && -LONG_MAX - 1 <= Signed(sign, Value(digits)) <= LONG_MAX
    ensures Kstrtol(s) == Parsed(Signed(sign, Value(digits)))
  {
    ConvertLongExactly(s, sign, digits, rest, sign == "-");
    assert s[0] == if sign == "" then digits[0] else sign[0];
  }

  lemma ConvertLongAccepts(s: string, start: nat, negative: bool)
    requires start <= |s| && ConvertLong(s, start, negative).Parsed?
    ensures var end := DigitRun(s, start);
      && start < end && s[end..] in {"", "\n"} && AllDigits(s[start..end])
      && ConvertLong(s, start, negative).value == (if negative then 0 - Value(s[start..end]) else Value(s[start..end]))
      && -LONG_MAX - 1 <= ConvertLong(s, start, negative).value <= LONG_MAX
  {
    var end := DigitRun(s, start);
    assert end == |s| ==> s[end..] == "";
    assert end == |s| - 1 ==> s[end..] == [s[end]];
  }

  lemma KstrtolAccepts(s: string) returns (sign: string, digits: string, rest: string)
    requires Kstrtol(s).Parsed?
    ensures IsKernelNumber(s, sign, digits, rest) && Kstrtol(s).value == Signed(sign, Value(digits))
    ensures -LONG_MAX - 1 <= Kstrtol(s).value <= LONG_MAX
  {
    var start := if s != [] && (s[0] == '-' || s[0] == '+') then 1 else 0;
    var end := DigitRun(s, start);
    ConvertLongAccepts(s, start, start == 1 && s[0] == '-');
    sign, digits, rest := if start == 1 then [s[0]] else "", s[start..end], s[end..];
    assert s == sign + digits + rest;
  }

  /** The driver's parser accepts exactly such texts whose number fits a long. */
  lemma KstrtolExactly(s: string, n: int)
    ensures Kstrtol(s) == Parsed(n)
       <==> -LONG_MAX - 1 <= n <= LONG_MAX
            && exists sign, digits, rest :: IsKernelNumber(s, sign, digits, rest) && n == Signed(sign, Value(digits))
  {
    if Kstrtol(s) == Parsed(n) {
      var sign, digits, rest := KstrtolAccepts(s);
    } else if -LONG_MAX - 1 <= n <= LONG_MAX {
      forall sign, digits, rest | IsKernelNumber(s, sign, digits, rest) ensures n != Signed(sign, Value(digits)) {
        if n == Signed(sign, Value(digits)) { KstrtolOfKernelNumber(s, sign, digits, rest); }
      }
    }
  }

  /** Every digit as it is printed. */
  lemma DigitsPrinted()
    ensures Decimal(1234567890) == "1234567890" && Decimal(-42) == "-42" && Decimal(0) == "0"
  {
    assert Digits(12) == "12" && Digits(123) == "123" && Digits(1234) == "1234";
    assert Digits(12345) == "12345" && Digits(123456) == "123456" && Digits(1234567) == "1234567";
    assert Digits(12345678) == "12345678" && Digits(123456789) == "123456789";
  }

  lemma ScanIntOfDecimal(n: int, blanks: string)
    requires forall i :: 0 <= i < |blanks| ==> IsSpace(blanks[i])
    ensures ScanInt(blanks + Decimal(n)) == Some(n)
  {
    DecimalIsNumeral(n);
    SkipSpacesOver(blanks + Decimal(n), 0, |blanks|);
    ScanNumberAt(blanks, Sign(n), Digits(Magnitude(n)));
  }

  lemma {:induction false} SkipSpacesOver(s: string, i: nat, j: nat)
    requires i <= j <= |s|
    requires forall k :: i <= k < j ==> IsSpace(s[k])
    requires j < |s| ==> !IsSpace(s[j])
    ensures SkipSpaces(s, i) == j
    decreases j - i
  {
    if i < j { SkipSpacesOver(s, i + 1, j); }
  }

  /** A "%d\n" attribute read through a window comes back exactly when its digits leave
      one byte of the window free. */
  lemma AttributeRoundTrip(n: int, size: nat)
    ensures Atoi(Window(Decimal(n) + "\n", size)) == if |Decimal(n)| < size then Some(n) else None
  {
    var text, w := Decimal(n), Window(Decimal(n) + "\n", size);
    if |text| < size {
      assert w == text + w[|text|..];
      AtoiOfDecimal(n, w[|text|..]);
    } else {
      assert w == text[..size];
      AtoiOfTruncated(n, size);
    }
  }

  /** Text of n is shorter than size bytes. */
  lemma DecimalLength(n: int, size: nat)
    requires size > 2
    ensures |Decimal(n)| < size <==> 0 - Pow10(size - 2) < n < Pow10(size - 1)
  {
    if n < 0 { DigitsLength(-n, size - 2); } else { DigitsLength(n, size - 1); }
  }
}
