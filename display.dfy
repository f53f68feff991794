/** Decimal rendering: `strftime('%Y-%m-%d %H:%M:%S JST')` and `str` of a
    count, each with the reader that undoes it. */
module Display {
  import opened Wrappers
  import opened Calendar

  predicate IsDigit(ch: char) {
    '0' <= ch <= '9'
  }

  function DigitChar(d: int): char
    requires 0 <= d < 10
  {
    ('0' as int + d) as char
  }

  function DigitValue(ch: char): int {
    ch as int - '0' as int
  }

  function Pow10(w: nat): nat {
    if w == 0 then 1 else 10 * Pow10(w - 1)
  }

  /** `n` in exactly `w` decimal digits, zero-padded on the left. */
  function Digits(n: nat, w: nat): (s: string)
    ensures |s| == w && forall i :: 0 <= i < w ==> IsDigit(s[i])
  {
    if w == 0 then "" else Digits(n / 10, w - 1) + [DigitChar(n % 10)]
  }

  /** The number a string of decimal digits denotes. */
  function ValueOf(s: string): int {
    if s == [] then 0 else ValueOf(s[..|s| - 1]) * 10 + DigitValue(s[|s| - 1])
  }

  predicate AllDigits(s: string) {
    forall i :: 0 <= i < |s| ==> IsDigit(s[i])
  }

  /** Reading back a number written in enough digits gives the number. */
  lemma {:induction false} DigitsRoundTrip(n: nat, w: nat)
    requires n < Pow10(w)
    ensures ValueOf(Digits(n, w)) == n
  {
    if w > 0 {
      var s := Digits(n, w);
      assert s[..|s| - 1] == Digits(n / 10, w - 1);
      DigitsRoundTrip(n / 10, w - 1);
    }
  }

  /** Number of decimal digits Python's `str` uses for `n`. */
  function Width(n: nat): (w: nat)
    ensures w >= 1 && n < Pow10(w)
    ensures w > 1 ==> Pow10(w - 1) <= n
  {
    if n < 10 then 1 else 1 + Width(n / 10)
  }

  /** `str(n)` for a non-negative int: decimal digits, no leading zero. */
  function DecimalString(n: nat): (s: string)
    ensures |s| == Width(n) && AllDigits(s) && ValueOf(s) == n
    ensures |s| > 1 ==> s[0] != '0'
  {
    var w := Width(n);
    DigitsRoundTrip(n, w);
    var s := Digits(n, w);
    assert |s| > 1 ==> s[0] != '0' by {
      if |s| > 1 && s[0] == '0' {
        LeadingZero(n, w);
      }
    }
    s
  }

  /** A number written with a leading zero is below the width's lower bound. */
  lemma {:induction false} LeadingZero(n: nat, w: nat)
    requires w > 1 && n < Pow10(w) && Digits(n, w)[0] == '0'
    ensures n < Pow10(w - 1)
  {
    if w > 2 {
      assert Digits(n, w)[0] == Digits(n / 10, w - 1)[0];
      LeadingZero(n / 10, w - 1);
    } else {
      assert Digits(n, w)[0] == Digits(n / 10, 1)[0] == DigitChar(n / 10 % 10);
    }
  }

  /** Three numbers separated by `sep`: the first in `w` digits, the other two
      in two digits each (`%Y-%m-%d` when `w` is 4, `%H:%M:%S` when it is 2). */
  function Triple(a: nat, b: nat, c: nat, w: nat, sep: char): (s: string)
    ensures |s| == w + 6
  {
    Digits(a, w) + [sep] + Digits(b, 2) + [sep] + Digits(c, 2)
  }

  /** Reads a Triple back. */
  function ParseTriple(s: string, w: nat, sep: char): Option<(int, int, int)> {
    if |s| == w + 6 && s[w] == sep && s[w + 3] == sep
       && AllDigits(s[..w]) && AllDigits(s[w + 1..w + 3]) && AllDigits(s[w + 4..])
    then Some((ValueOf(s[..w]), ValueOf(s[w + 1..w + 3]), ValueOf(s[w + 4..])))
    else None
  }

  lemma TripleRoundTrip(a: nat, b: nat, c: nat, w: nat, sep: char)
    requires a < Pow10(w) && b < 100 && c < 100
    ensures ParseTriple(Triple(a, b, c, w, sep), w, sep) == Some((a, b, c))
  {
    var x, y, z := Digits(a, w), Digits(b, 2), Digits(c, 2);
    var s := Triple(a, b, c, w, sep);
    assert s == x + [sep] + y + [sep] + z;
    assert s[w] == sep && s[w + 3] == sep;
    assert AllDigits(s[..w]) && ValueOf(s[..w]) == a by {
      assert s[..w] == x;
      DigitsRoundTrip(a, w);
    }
    assert AllDigits(s[w + 1..w + 3]) && ValueOf(s[w + 1..w + 3]) == b by {
      assert s[w + 1..w + 3] == y;
      DigitsRoundTrip(b, 2);
    }
    assert AllDigits(s[w + 4..]) && ValueOf(s[w + 4..]) == c by {
      assert s[w + 4..] == z;
      DigitsRoundTrip(c, 2);
    }
  }

  /** `strftime('%Y-%m-%d %H:%M:%S JST')`: the zone label is literal text, the
      microseconds are not shown. */
  function Strftime(c: Civil): (s: string)
    requires ValidCivil(c)
    ensures |s| == 23
  {
    Triple(c.year, c.month, c.day, 4, '-') + " " + Triple(c.hour, c.minute, c.second, 2, ':') + " JST"
  }

  /** Reads a display string back into fields (microseconds zero). */
  function ParseDisplay(s: string): Option<Civil> {
    if |s| == 23 && s[10] == ' ' && s[19..] == " JST" then
      match (ParseTriple(s[..10], 4, '-'), ParseTriple(s[11..19], 2, ':'))
      case (Some(date), Some(time)) => Some(Civil(date.0, date.1, date.2, time.0, time.1, time.2, 0))
      case _ => None
    else None
  }

  /** The display names exactly the fields it was made from, down to the second. */
  lemma StrftimeRoundTrip(c: Civil)
    requires ValidCivil(c)
    ensures ParseDisplay(Strftime(c)) == Some(c.(micro := 0))
  {
    var date, time := Triple(c.year, c.month, c.day, 4, '-'), Triple(c.hour, c.minute, c.second, 2, ':');
    var s := Strftime(c);
    assert s[..10] == date && s[11..19] == time && s[19..] == " JST";
    TripleRoundTrip(c.year, c.month, c.day, 4, '-');
    TripleRoundTrip(c.hour, c.minute, c.second, 2, ':');
  }

  lemma NewYearDigits()
    ensures Digits(2024, 4) == "2024"
    ensures Digits(1, 2) == "01" && Digits(9, 2) == "09" && Digits(0, 2) == "00"
  {
    assert Digits(2, 1) == "2";
    assert Digits(20, 2) == "20";
    assert Digits(202, 3) == "202";
    assert Digits(0, 1) == "0";
  }

  /** The display of 2024-01-01 09:00:00. */
  lemma NineOnNewYearsDay()
    ensures Strftime(Civil(2024, 1, 1, 9, 0, 0, 0)) == "2024-01-01 09:00:00 JST"
  {
    NewYearDigits();
    assert Triple(2024, 1, 1, 4, '-') == "2024-01-01";
    assert Triple(9, 0, 0, 2, ':') == "09:00:00";
  }
}
