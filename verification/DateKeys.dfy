// Date keys such as 2024-03-09 as strings: writing, recognising, reading and comparing them.
//
// A key has a year of any number of digits, a month and a date of two digits each. Only keys
// with a year of four digits match the date pattern, and only those are ordered as strings.
module DateKeys {
  import opened Strings

  function Digit(n: int): (c: char)
    requires 0 <= n <= 9
    ensures '0' <= c <= '9' && c as int - '0' as int == n
  {
    ('0' as int + n) as char
  }

  function Decimal(n: nat): (s: string)
    ensures s != "" && forall c :: c in s ==> '0' <= c <= '9'
  {
    if n < 10 then [Digit(n)] else Decimal(n / 10) + [Digit(n % 10)]
  }

  function Number(y: int): string {
    if y < 0 then "-" + Decimal(-y) else Decimal(y)
  }

  /** The number that a string of digits writes. */
  ghost function Value(s: string): int {
    if s == "" then 0 else Value(s[..|s| - 1]) * 10 + (s[|s| - 1] as int - '0' as int)
  }

  lemma {:induction false} DecimalReads(n: nat)
    ensures Value(Decimal(n)) == n && (n > 0 ==> Decimal(n)[0] != '0')
  {
    if n < 10 {
      assert [Digit(n)][..0] == "";
    } else {
      DecimalReads(n / 10);
      var front := Decimal(n / 10);
      assert Decimal(n) == front + [Digit(n % 10)] && Decimal(n)[..|front|] == front;
    }
  }

  /** A number is written in digits, without a leading zero, and with a minus sign below zero. */
  lemma NumberMeans(y: int)
    ensures y >= 0 ==> AllDigits(Number(y)) && Value(Number(y)) == y && (y > 0 ==> Number(y)[0] != '0')
    ensures Number(0) == "0"
    ensures y < 0 ==> Number(y) == "-" + Number(-y)
  {
    DecimalReads(if y < 0 then -y else y);
  }

  function Pad2(n: nat): string {
    if n < 10 then "0" + Decimal(n) else Decimal(n)
  }

  /** year-month-day, the month counted from 1. */
  function Key(y: int, m: nat, d: nat): string {
    Number(y) + "-" + Pad2(m) + "-" + Pad2(d)
  }

  predicate IsDigit(c: char) {
    '0' <= c <= '9'
  }

  /** The pattern of four digits, two digits and two digits. */
  predicate IsDateKey(s: string) {
    && |s| == 10 && s[4] == '-' && s[7] == '-'
    && IsDigit(s[0]) && IsDigit(s[1]) && IsDigit(s[2]) && IsDigit(s[3])
    && IsDigit(s[5]) && IsDigit(s[6]) && IsDigit(s[8]) && IsDigit(s[9])
  }

  ghost predicate AllDigits(s: string) {
    forall c :: c in s ==> '0' <= c <= '9'
  }

  /** Four digits, two digits and two digits, with hyphens between. */
  ghost predicate IsKeyOf(s: string, y: string, m: string, d: string) {
    |y| == 4 && |m| == 2 && |d| == 2 && AllDigits(y) && AllDigits(m) && AllDigits(d) && s == y + "-" + m + "-" + d
  }

  /** The pattern, written with its parts. */
  lemma DateKeyIff(s: string)
    ensures IsDateKey(s) <==> exists y, m, d :: IsKeyOf(s, y, m, d)
  {
    if IsDateKey(s) { KeyHasParts(s); }
    if y, m, d :| IsKeyOf(s, y, m, d) { PartsMakeKey(s, y, m, d); }
  }

  lemma KeyHasParts(s: string)
    requires IsDateKey(s)
    ensures IsKeyOf(s, s[..4], s[5..7], s[8..])
  {
    assert s[..4] == [s[0], s[1], s[2], s[3]] && s[5..7] == [s[5], s[6]] && s[8..] == [s[8], s[9]];
  }

  lemma PartsMakeKey(s: string, y: string, m: string, d: string)
    requires IsKeyOf(s, y, m, d)
    ensures IsDateKey(s)
  {
    assert y[0] in y && y[1] in y && y[2] in y && y[3] in y && m[0] in m && m[1] in m && d[0] in d && d[1] in d;
    assert s[0] == y[0] && s[1] == y[1] && s[2] == y[2] && s[3] == y[3];
    assert s[5] == m[0] && s[6] == m[1] && s[8] == d[0] && s[9] == d[1];
  }

  function DigitValue(c: char): int {
    c as int - '0' as int
  }

  function KeyYear(s: string): int
    requires IsDateKey(s)
  {
    DigitValue(s[0]) * 1000 + DigitValue(s[1]) * 100 + DigitValue(s[2]) * 10 + DigitValue(s[3])
  }

  function KeyMonth(s: string): int
    requires IsDateKey(s)
  {
    DigitValue(s[5]) * 10 + DigitValue(s[6])
  }

  function KeyDate(s: string): int
    requires IsDateKey(s)
  {
    DigitValue(s[8]) * 10 + DigitValue(s[9])
  }

  // ----- writing and reading -----

  lemma TwoDigits(n: nat)
    requires n < 100
    ensures Pad2(n) == [Digit(n / 10), Digit(n % 10)]
  {
    if n >= 10 {
      assert n / 10 < 10;
      assert Decimal(n) == Decimal(n / 10) + [Digit(n % 10)];
    }
  }

  lemma FourDigits(n: nat)
    requires 1000 <= n <= 9999
    ensures Decimal(n) == [Digit(n / 1000), Digit(n / 100 % 10), Digit(n / 10 % 10), Digit(n % 10)]
  {
    var a, b, c := n / 10, n / 100, n / 1000;
    assert a / 10 == b && b / 10 == c && c < 10;
    assert Decimal(n) == Decimal(a) + [Digit(n % 10)];
    assert Decimal(a) == Decimal(b) + [Digit(a % 10)];
    assert Decimal(b) == Decimal(c) + [Digit(b % 10)];
    assert Decimal(c) == [Digit(c)];
  }

  lemma {:induction false} DecimalLength(n: nat)
    ensures |Decimal(n)| == 4 <==> 1000 <= n <= 9999
    ensures |Decimal(n)| <= 3 <==> n <= 999
    ensures |Decimal(n)| <= 2 <==> n <= 99
    ensures |Decimal(n)| == 1 <==> n <= 9
  {
    if n >= 10 { DecimalLength(n / 10); }
  }

  lemma KeyShape(y: int, m: nat, d: nat)
    requires m < 100 && d < 100
    ensures |Key(y, m, d)| == |Number(y)| + 6
    ensures Key(y, m, d)[..|Number(y)|] == Number(y)
    ensures Key(y, m, d)[|Number(y)|..] == ['-', Digit(m / 10), Digit(m % 10), '-', Digit(d / 10), Digit(d % 10)]
  {
    TwoDigits(m);
    TwoDigits(d);
    assert Key(y, m, d) == Number(y) + ("-" + Pad2(m) + "-" + Pad2(d));
  }

  /** The characters of a written key. */
  lemma KeyChars(y: int, m: nat, d: nat)
    requires m < 100 && d < 100
    ensures var (s, n) := (Key(y, m, d), |Number(y)|);
      && |s| == n + 6 && (forall i :: 0 <= i < n ==> s[i] == Number(y)[i])
      && s[n] == '-' && s[n + 1] == Digit(m / 10) && s[n + 2] == Digit(m % 10)
      && s[n + 3] == '-' && s[n + 4] == Digit(d / 10) && s[n + 5] == Digit(d % 10)
  {
    var s, n := Key(y, m, d), |Number(y)|;
    KeyShape(y, m, d);
    assert forall i :: 0 <= i < n ==> s[i] == s[..n][i];
    assert forall i :: 0 <= i < 6 ==> s[n + i] == s[n..][i];
  }

  /** A written key is recognised exactly for years of four digits, and then its parts are read back. */
  lemma KeyRoundTrip(y: int, m: nat, d: nat)
    requires m < 100 && d < 100
    ensures IsDateKey(Key(y, m, d)) <==> 1000 <= y <= 9999
    ensures IsDateKey(Key(y, m, d))
      ==> KeyYear(Key(y, m, d)) == y && KeyMonth(Key(y, m, d)) == m && KeyDate(Key(y, m, d)) == d
  {
    KeyChars(y, m, d);
    if 1000 <= y <= 9999 {
      FourDigits(y);
      YearOfKey(Key(y, m, d), y, m, d);
    } else if y >= 0 {
      DecimalLength(y);
    }
  }

  lemma YearOfKey(s: string, y: nat, m: nat, d: nat)
    requires 1000 <= y <= 9999 && m < 100 && d < 100 && |s| == 10
    requires s[0] == Digit(y / 1000) && s[1] == Digit(y / 100 % 10) && s[2] == Digit(y / 10 % 10)
    requires s[3] == Digit(y % 10)
    requires s[4] == '-' && s[5] == Digit(m / 10) && s[6] == Digit(m % 10) && s[7] == '-' && s[8] == Digit(d / 10)
    requires s[9] == Digit(d % 10)
    ensures IsDateKey(s) && KeyYear(s) == y && KeyMonth(s) == m && KeyDate(s) == d
  {
    DigitSum(y);
  }

  lemma DigitSum(y: nat)
    ensures y == y / 1000 * 1000 + y / 100 % 10 * 100 + y / 10 % 10 * 10 + y % 10
  {
    var a, b := y / 10, y / 100;
    assert a / 10 == b && b / 10 == y / 1000;
    assert y == a * 10 + y % 10 && a == b * 10 + a % 10 && b == b / 10 * 10 + b % 10;
  }

  /** Nothing is trimmed from a key. */
  lemma KeyIsTrimmed(y: int, m: nat, d: nat)
    requires m < 100 && d < 100
    ensures Trim(Key(y, m, d)) == Key(y, m, d)
  {
    var s := Key(y, m, d);
    KeyShape(y, m, d);
    var digits := if y < 0 then Decimal(-y) else Decimal(y);
    assert digits[0] in digits;
    assert s[0] == Number(y)[0] && (s[0] == '-' || IsDigit(s[0]));
    assert s[|s| - 1] == s[|Number(y)|..][5] && IsDigit(s[|s| - 1]);
    assert TrimEnd(s) == s;
  }

  // ----- comparing -----

  /** Strings are compared character by character; a proper prefix comes first. */
  predicate Less(a: string, b: string) {
    if b == "" then false
    else if a == "" then true
    else a[0] < b[0] || (a[0] == b[0] && Less(a[1..], b[1..]))
  }

  lemma {:induction false} LessOfConcat(a: string, b: string, c: string, d: string)
    requires |a| == |b|
    ensures Less(a + c, b + d) <==> Less(a, b) || (a == b && Less(c, d))
  {
    if a == "" {
      assert a + c == c && b + d == d;
    } else {
      assert (a + c)[1..] == a[1..] + c && (b + d)[1..] == b[1..] + d;
      LessOfConcat(a[1..], b[1..], c, d);
      assert a == [a[0]] + a[1..] && b == [b[0]] + b[1..];
    }
  }

  lemma LessOfTwo(a: char, b: char, c: char, d: char)
    ensures Less([a, b], [c, d]) <==> a < c || (a == c && b < d)
  {
    LessOfConcat([a], [c], [b], [d]);
    assert [a, b] == [a] + [b] && [c, d] == [c] + [d];
    assert [a] == [c] <==> [a][0] == [c][0];
  }

  lemma LessOfDigits(m: nat, n: nat)
    requires m < 100 && n < 100
    ensures Less(Pad2(m), Pad2(n)) <==> m < n
    ensures Pad2(m) == Pad2(n) <==> m == n
    ensures |Pad2(m)| == 2
  {
    TwoDigits(m);
    TwoDigits(n);
    LessOfTwo(Digit(m / 10), Digit(m % 10), Digit(n / 10), Digit(n % 10));
    assert Pad2(m)[0] == Digit(m / 10) && Pad2(m)[1] == Digit(m % 10);
    assert Pad2(n)[0] == Digit(n / 10) && Pad2(n)[1] == Digit(n % 10);
  }

  lemma LessOfYears(y: nat, z: nat)
    requires 1000 <= y <= 9999 && 1000 <= z <= 9999
    ensures Less(Decimal(y), Decimal(z)) <==> y < z
    ensures Decimal(y) == Decimal(z) <==> y == z
    ensures |Decimal(y)| == |Decimal(z)| == 4
  {
    FourDigits(y);
    FourDigits(z);
    SplitYear(y);
    SplitYear(z);
    LessOfConcat(Pad2(y / 100), Pad2(z / 100), Pad2(y % 100), Pad2(z % 100));
    LessOfDigits(y / 100, z / 100);
    LessOfDigits(y % 100, z % 100);
  }

  lemma SplitYear(y: nat)
    requires 1000 <= y <= 9999
    ensures Decimal(y) == Pad2(y / 100) + Pad2(y % 100)
  {
    var r := y % 100;
    assert r == 10 * (r / 10) + r % 10;
    SplitAt(y / 100, r / 10, r % 10);
  }

  lemma SplitAt(q: nat, a: nat, b: nat)
    requires 10 <= q <= 99 && a <= 9 && b <= 9
    ensures Decimal(100 * q + 10 * a + b) == Pad2(q) + Pad2(10 * a + b)
  {
    var y := 100 * q + 10 * a + b;
    assert y / 10 == 10 * q + a && y % 10 == b;
    assert (10 * q + a) / 10 == q && (10 * q + a) % 10 == a;
    assert Decimal(y) == Decimal(q) + [Digit(a)] + [Digit(b)];
    TwoDigits(10 * a + b);
  }

  /** What follows the year. */
  function MonthAndDate(m: nat, d: nat): string {
    "-" + (Pad2(m) + ("-" + Pad2(d)))
  }

  lemma Regrouped(a: string, b: string, c: string, d: string, e: string)
    ensures a + b + c + d + e == a + (b + (c + (d + e)))
  {
  }

  lemma LessOfMonthsAndDates(m: nat, d: nat, n: nat, e: nat)
    requires m < 100 && d < 100 && n < 100 && e < 100
    ensures Less(MonthAndDate(m, d), MonthAndDate(n, e)) <==> m < n || (m == n && d < e)
  {
    LessOfDigits(m, n);
    LessOfDigits(n, m);
    LessOfDigits(d, e);
    LessOfConcat("-", "-", Pad2(m) + ("-" + Pad2(d)), Pad2(n) + ("-" + Pad2(e)));
    LessOfConcat(Pad2(m), Pad2(n), "-" + Pad2(d), "-" + Pad2(e));
    LessOfConcat("-", "-", Pad2(d), Pad2(e));
    assert ("-")[1..] == "" && !Less("-", "-");
  }

  /** Keys of four-digit years are ordered like their parts. */
  lemma KeysOrderLikeParts(y: int, m: nat, d: nat, z: int, n: nat, e: nat)
    requires 1000 <= y <= 9999 && 1000 <= z <= 9999 && m < 100 && d < 100 && n < 100 && e < 100
    ensures Less(Key(y, m, d), Key(z, n, e)) <==> y < z || (y == z && m < n) || (y == z && m == n && d < e)
  {
    Regrouped(Decimal(y), "-", Pad2(m), "-", Pad2(d));
    Regrouped(Decimal(z), "-", Pad2(n), "-", Pad2(e));
    LessOfYears(y, z);
    LessOfConcat(Decimal(y), Decimal(z), MonthAndDate(m, d), MonthAndDate(n, e));
    LessOfMonthsAndDates(m, d, n, e);
  }

  lemma KeysAreInjective(y: int, m: nat, d: nat, z: int, n: nat, e: nat)
    requires 1000 <= y <= 9999 && 1000 <= z <= 9999 && m < 100 && d < 100 && n < 100 && e < 100
    requires Key(y, m, d) == Key(z, n, e)
    ensures y == z && m == n && d == e
  {
    KeyRoundTrip(y, m, d);
    KeyRoundTrip(z, n, e);
  }
}
