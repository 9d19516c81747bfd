/** Decimal text and 32-bit integers: reading the way strtol with a full-match and
    range check does, writing the way "%d" does. */
module Numbers {
  import opened Wrappers

  const INT_MIN: int := -0x8000_0000
  const INT_MAX: int := 0x7fff_ffff

  predicate InRange(n: int) {
    INT_MIN <= n <= INT_MAX
  }

  predicate IsDigit(c: char) {
    '0' <= c <= '9'
  }

  predicate IsSpace(c: char) {
    c == ' ' || '\t' <= c <= '\r'
  }

  predicate AllDigits(text: string) {
    forall i | 0 <= i < |text| :: IsDigit(text[i])
  }

  function SkipSpace(text: string): string {
    if text != "" && IsSpace(text[0]) then SkipSpace(text[1..]) else text
  }

  /** The value of a string of digits. */
  function Magnitude(text: string): nat
    requires AllDigits(text)
  {
    if text == "" then 0
    else Magnitude(text[..|text| - 1]) * 10 + (text[|text| - 1] as int - '0' as int)
  }

  /** The whole text is one number in the range of int. Nothing to convert at all is
      accepted only for the empty text, which reads as 0. */
  function ParseInt(text: string): (r: Option<int>)
    ensures r.Some? ==> InRange(r.value)
  {
    if text == "" then Some(0)
    else
      var t := SkipSpace(text);
      var signed := t != "" && (t[0] == '-' || t[0] == '+');
      var digits := if signed then t[1..] else t;
      if digits == "" || !AllDigits(digits) then None
      else
        var m := Magnitude(digits) as int;
        var n := if signed && t[0] == '-' then -m else m;
        if InRange(n) then Some(n) else None
  }

  function Digits(n: nat): string {
    (if n < 10 then "" else Digits(n / 10)) + [(n % 10 + '0' as int) as char]
  }

  function IntToText(n: int): string {
    if n < 0 then "-" + Digits(-n) else Digits(n)
  }

  lemma {:induction false} DigitsRead(n: nat)
    ensures Digits(n) != "" && AllDigits(Digits(n)) && Magnitude(Digits(n)) == n
  {
    var s, last := Digits(n), (n % 10 + '0' as int) as char;
    if n < 10 {
      assert s == [last] && s[..0] == "";
    } else {
      DigitsRead(n / 10);
      assert s == Digits(n / 10) + [last];
      assert s[..|s| - 1] == Digits(n / 10);
    }
  }

  /** An id written by the allocator is read back as the same id. */
  lemma {:induction false} IntRoundTrip(n: int)
    requires InRange(n)
    ensures ParseInt(IntToText(n)) == Some(n)
  {
    var m: nat := if n < 0 then -n else n;
    var d, t := Digits(m), IntToText(n);
    DigitsRead(m);
    hide Digits, Magnitude;
    assert IsDigit(d[0]);
    assert !IsSpace(t[0]) && SkipSpace(t) == t;
    if n < 0 {
      assert t[0] == '-' && t[1..] == d;
    } else {
      assert t == d && t[0] != '-' && t[0] != '+';
    }
  }

  lemma DigitsMore(n: nat, text: string, d: nat)
    requires Digits(n) == text && n > 0 && d < 10
    ensures Digits(10 * n + d) == text + [(d + '0' as int) as char]
  {
  }

  lemma LargestIntText()
    ensures IntToText(INT_MAX) == "2147483647"
  {
    assert Digits(2) == "2";
    DigitsMore(2, "2", 1);
    DigitsMore(21, "21", 4);
    DigitsMore(214, "214", 7);
    DigitsMore(2147, "2147", 4);
    DigitsMore(21474, "21474", 8);
    DigitsMore(214748, "214748", 3);
    DigitsMore(2147483, "2147483", 6);
    DigitsMore(21474836, "21474836", 4);
    DigitsMore(214748364, "214748364", 7);
  }

  lemma {:induction false} DigitsShort(n: nat, k: nat)
    requires n < Power10(k) && k >= 1
    ensures |Digits(n)| <= k
  {
    if n >= 10 {
      assert k > 1;
      DigitsShort(n / 10, k - 1);
    }
  }

  ghost function Power10(k: nat): nat {
    if k == 0 then 1 else 10 * Power10(k - 1)
  }

  lemma {:induction false} IntIsShort(n: int)
    requires InRange(n)
    ensures 1 <= |IntToText(n)| <= 11
  {
    assert Power10(10) == 10 * (10 * (10 * (10 * (10 * (10 * (10 * (10 * (10 * 10))))))));
    DigitsShort(if n < 0 then -n else n, 10);
  }

  /** What the tokenizer calls a number: an optional minus and digits. */
  predicate IsNumeral(text: string) {
    var digits := if text != "" && text[0] == '-' then text[1..] else text;
    digits != "" && AllDigits(digits)
  }

  lemma {:induction false} IntIsNumeral(n: int)
    ensures IsNumeral(IntToText(n))
  {
    DigitsRead(if n < 0 then -n else n);
    if n < 0 {
      assert IntToText(n)[1..] == Digits(-n);
    }
  }

  // ---------- Which texts are numbers ----------

  /** The number that digits denote, each by its place. */
  ghost function Denoted(digits: string): int
    requires AllDigits(digits)
  {
    if digits == "" then 0
    else (digits[0] as int - '0' as int) * Power10(|digits| - 1) + Denoted(digits[1..])
  }

  lemma {:induction false} DenotedMore(digits: string, last: char)
    requires AllDigits(digits) && IsDigit(last)
    ensures AllDigits(digits + [last])
    ensures Denoted(digits + [last]) == 10 * Denoted(digits) + (last as int - '0' as int)
  {
    var all := digits + [last];
    if digits == "" {
      assert all[1..] == "" && Power10(0) == 1;
    } else {
      var d, power := digits[0] as int - '0' as int, Power10(|digits| - 1);
      assert all[1..] == digits[1..] + [last] && Power10(|digits|) == 10 * power;
      DenotedMore(digits[1..], last);
      assert d * (10 * power) == 10 * (d * power);
    }
  }

  lemma {:induction false} MagnitudeIsDenoted(digits: string)
    requires AllDigits(digits)
    ensures Magnitude(digits) == Denoted(digits)
  {
    if digits != "" {
      var n := |digits| - 1;
      assert digits == digits[..n] + [digits[n]];
      MagnitudeIsDenoted(digits[..n]);
      DenotedMore(digits[..n], digits[n]);
    }
  }

  /** Blanks before `a`, then perhaps a sign, then digits from `b` to the end. */
  ghost predicate Parts(text: string, a: nat, b: nat, n: int) {
    && a <= b < |text| && b <= a + 1
    && (forall i | 0 <= i < a :: text[i] == ' ' || '\t' <= text[i] <= '\r')
    && (b == a + 1 ==> text[a] == '-' || text[a] == '+')
    && AllDigits(text[b..])
    && n == if b == a + 1 && text[a] == '-' then -Denoted(text[b..]) else Denoted(text[b..])
  }

  /** The whole text is a number, and it is `n`. */
  ghost predicate IsInt(text: string, n: int) {
    exists a: nat, b: nat :: Parts(text, a, b, n)
  }

  lemma {:induction false} SkipSpaceShape(text: string) returns (a: nat)
    ensures a <= |text| && SkipSpace(text) == text[a..] && (a < |text| ==> !IsSpace(text[a]))
    ensures forall i | 0 <= i < a :: IsSpace(text[i])
  {
    if text != "" && IsSpace(text[0]) {
      var k := SkipSpaceShape(text[1..]);
      a := k + 1;
      assert forall i | 0 < i < a :: text[i] == text[1..][i - 1];
    } else {
      a := 0;
    }
  }

  /** Digits have their value whatever stands before them. */
  lemma {:induction false} PartsAreRead(text: string, a: nat, b: nat, n: int)
    requires Parts(text, a, b, n)
    ensures ParseInt(text) == if InRange(n) then Some(n) else None
  {
    var digits := text[b..];
    assert IsDigit(digits[0]);
    var k := SkipSpaceShape(text);
    assert k == a;
    MagnitudeIsDenoted(digits);
    var t := text[a..];
    assert b == a + 1 ==> t[1..] == digits;
    hide Magnitude, Denoted, SkipSpace;
  }

  /** A number within the range of int, after blanks and with or without a sign; the empty text
      reads as 0. */
  ghost predicate FitsInt(text: string, n: int) {
    -0x8000_0000 <= n <= 0x7fff_ffff && ((text == "" && n == 0) || IsInt(text, n))
  }

  /** Exactly such texts are accepted. */
  lemma {:induction false} ParseExactly(text: string, n: int)
    ensures ParseInt(text) == Some(n) <==> FitsInt(text, n)
  {
    if a: nat, b: nat :| Parts(text, a, b, n) {
      PartsAreRead(text, a, b, n);
    }
    if ParseInt(text) == Some(n) && text != "" {
      ReadHasParts(text, n);
    }
    hide Parts;
  }

  lemma {:induction false} ReadHasParts(text: string, n: int)
    requires ParseInt(text) == Some(n) && text != ""
    ensures IsInt(text, n) && InRange(n)
  {
    var a := SkipSpaceShape(text);
    var b := if text[a] == '-' || text[a] == '+' then a + 1 else a;
    assert b == a + 1 ==> text[a..][1..] == text[b..];
    MagnitudeIsDenoted(text[b..]);
    hide Magnitude, Denoted, SkipSpace;
    assert Parts(text, a, b, n);
  }

  /** A numeral is accepted exactly if its number is in range, leading zeros or not. */
  lemma {:induction false} NumeralExactly(text: string, n: int)
    requires IsNumeral(text)
    ensures ParseInt(text) == Some(n)
            <==> InRange(n) && n == if text[0] == '-' then -Denoted(text[1..]) else Denoted(text)
  {
    var b, m := if text[0] == '-' then 1 else 0, if text[0] == '-' then -Denoted(text[1..]) else Denoted(text);
    assert text[0..] == text;
    assert Parts(text, 0, b, m);
    PartsAreRead(text, 0, b, m);
  }

  /** What does not fit an int is refused. */
  lemma {:induction false} OutOfRangeIsRefused(n: int)
    requires !InRange(n)
    ensures ParseInt(IntToText(n)) == None
  {
    var d := Digits(if n < 0 then -n else n);
    DigitsRead(if n < 0 then -n else n);
    MagnitudeIsDenoted(d);
    var text, b := IntToText(n), if n < 0 then 1 else 0;
    assert text[b..] == d;
    assert Parts(text, 0, b, n);
    hide Digits, IntToText, ParseInt;
    PartsAreRead(text, 0, b, n);
  }
}
