/**
 The default service date of the add-service dialogs: today's local date as
 `yyyy-mm-dd`, built from `getFullYear()`, `getMonth() + 1` and `getDate()`
 with `String(n).padStart(2, "0")`. The clock is a parameter.
 */
module Calendar {

  predicate IsDigit(c: char) {
    '0' <= c <= '9'
  }

  predicate AllDigits(s: string) {
    forall i :: 0 <= i < |s| ==> IsDigit(s[i])
  }

  /** `String(n)` for a non-negative integer: decimal digits, no leading zero. */
  function Decimal(n: nat): (r: string)
    ensures AllDigits(r)
    ensures |r| >= 1
    ensures n < 10 ==> |r| == 1
    ensures 10 <= n < 100 ==> |r| == 2
    ensures 1000 <= n < 10000 ==> |r| == 4
    ensures |r| > 1 ==> r[0] != '0'
  {
    var d := [(('0' as int) + n % 10) as char];
    if n < 10 then d else Decimal(n / 10) + d
  }

  /** The number a string of digits denotes. */
  function DigitsValue(s: string): nat
    requires AllDigits(s)
  {
    if s == [] then 0 else DigitsValue(s[..|s| - 1]) * 10 + (s[|s| - 1] as int - '0' as int)
  }

  /** Leading zeros do not change the value. */
  lemma {:induction false} DigitsValueLeadingZero(s: string)
    requires AllDigits(s)
    ensures DigitsValue(['0'] + s) == DigitsValue(s)
  {
    var z := ['0'] + s;
    if s != [] {
      assert z[..|z| - 1] == ['0'] + s[..|s| - 1];
      DigitsValueLeadingZero(s[..|s| - 1]);
    }
  }

  /** Reading `String(n)` back gives `n`. */
  lemma {:induction false} DecimalValue(n: nat)
    ensures DigitsValue(Decimal(n)) == n
  {
    var d := [(('0' as int) + n % 10) as char];
    if n >= 10 {
      DecimalValue(n / 10);
      var r := Decimal(n / 10) + d;
      assert r[..|r| - 1] == Decimal(n / 10);
    }
  }

  /** `s.padStart(2, "0")`. */
  function PadStart2(s: string): (r: string)
    ensures |s| < 2 ==> |r| == 2
    ensures |s| >= 2 ==> r == s
  {
    if |s| == 0 then "00" else if |s| == 1 then ['0'] + s else s
  }

  /** `String(n).padStart(2, "0")`. */
  function Pad2(n: nat): (r: string)
    ensures n < 100 ==> |r| == 2 && AllDigits(r) && DigitsValue(r) == n
  {
    DecimalValue(n);
    var d := Decimal(n);
    if n < 10 then
      DigitsValueLeadingZero(d);
      PadStart2(d)
    else
      PadStart2(d)
  }

  /** The page's clock reading: `getFullYear()`, `getMonth()` (from 0) and `getDate()`. */
  datatype LocalDate = LocalDate(year: nat, monthIndex: nat, day: nat)

  /**
   `${yyyy}-${mm}-${dd}` with `mm = getMonth() + 1`, the month index counting
   from 0. For any year the text ends in `-mm-dd`, and the three fields read
   back as the year, the 1-based month and the day.
   */
  function FormatDate(year: nat, monthIndex: nat, day: nat): (r: string)
    ensures monthIndex < 99 && day < 100 ==>
      var n := |r| - 6;
      && n >= 1 && r[n] == '-' && r[n + 3] == '-'
      && AllDigits(r[..n]) && DigitsValue(r[..n]) == year
      && AllDigits(r[n + 1..n + 3]) && DigitsValue(r[n + 1..n + 3]) == monthIndex + 1
      && AllDigits(r[n + 4..]) && DigitsValue(r[n + 4..]) == day
  {
    DecimalValue(year);
    var y := Decimal(year);
    var m := Pad2(monthIndex + 1);
    var d := Pad2(day);
    if |m| == 2 && |d| == 2 then
      DashJoined(y, m, d);
      y + "-" + m + "-" + d
    else
      y + "-" + m + "-" + d
  }

  /** Where the parts of `y-m-d` sit when `m` and `d` have two chars each. */
  lemma DashJoined(y: string, m: string, d: string)
    requires |m| == 2 && |d| == 2
    ensures var r := y + "-" + m + "-" + d;
      && |r| == |y| + 6 && r[..|y|] == y && r[|y|] == '-' && r[|y| + 3] == '-'
      && r[|y| + 1..|y| + 3] == m && r[|y| + 4..] == d
  {
  }

  /**
   For a four-digit year the result is an ISO `yyyy-mm-dd` date, the form a
   `type="date"` input accepts: ten chars, dashes at 4 and 7, digits elsewhere,
   and each field reads back as the year, the 1-based month and the day.
   */
  lemma FormatDateShape(year: nat, monthIndex: nat, day: nat)
    requires 1000 <= year <= 9999 && monthIndex < 12 && 1 <= day <= 31
    ensures var r := FormatDate(year, monthIndex, day);
      && |r| == 10 && r[4] == '-' && r[7] == '-'
      && AllDigits(r[..4]) && AllDigits(r[5..7]) && AllDigits(r[8..])
      && DigitsValue(r[..4]) == year
      && DigitsValue(r[5..7]) == monthIndex + 1
      && DigitsValue(r[8..]) == day
  {
    var y := Decimal(year);
    var m := Pad2(monthIndex + 1);
    var d := Pad2(day);
    var r := FormatDate(year, monthIndex, day);
    DecimalValue(year);
    assert r == y + "-" + m + "-" + d;
    assert r[..4] == y;
    assert r[5..7] == m;
    assert r[8..] == d;
  }
}
