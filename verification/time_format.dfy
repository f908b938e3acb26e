/**
 * Time-of-day strings of the booking schema (model/room.js).
 *
 * A booking's `start` and `end` are stored as strings and must match
 * `^([01]\d|2[0-3]):([0-5]\d):([0-5]\d)$`. The admission query compares
 * them with the store's string `$lt`/`$gt`, i.e. lexicographically; the
 * fixed-width format is what makes that comparison agree with the order of
 * the times they denote.
 */
module TimeFormat {

  const SecondsPerDay: nat := 86400

  predicate IsDigit(c: char) { '0' <= c <= '9' }

  function DigitValue(c: char): (d: nat)
    requires IsDigit(c)
    ensures d < 10
  {
    c as int - '0' as int
  }

  function DigitChar(d: nat): (c: char)
    requires d < 10
    ensures IsDigit(c) && DigitValue(c) == d
  {
    ('0' as int + d) as char
  }

  lemma DigitCharOf(c: char)
    requires IsDigit(c)
    ensures DigitChar(DigitValue(c)) == c
  {
  }

  /** The schema's `timeFormatValidator`: the whole string is `HH:MM:SS`,
      hours 00-23, minutes and seconds 00-59, always two digits each. */
  predicate IsTimeFormat(s: string) {
    && |s| == 8
    && ((('0' <= s[0] <= '1') && IsDigit(s[1])) || (s[0] == '2' && '0' <= s[1] <= '3'))
    && s[2] == ':'
    && '0' <= s[3] <= '5' && IsDigit(s[4])
    && s[5] == ':'
    && '0' <= s[6] <= '5' && IsDigit(s[7])
  }

  /** Seconds since midnight denoted by a valid time string. */
  function Seconds(s: string): (n: nat)
    requires IsTimeFormat(s)
    ensures n < SecondsPerDay
  {
    var h := 10 * DigitValue(s[0]) + DigitValue(s[1]);
    var m := 10 * DigitValue(s[3]) + DigitValue(s[4]);
    var sec := 10 * DigitValue(s[6]) + DigitValue(s[7]);
    h * 3600 + m * 60 + sec
  }

  function TwoDigits(n: nat): (s: string)
    requires n < 100
    ensures |s| == 2 && IsDigit(s[0]) && IsDigit(s[1])
    ensures 10 * DigitValue(s[0]) + DigitValue(s[1]) == n
  {
    [DigitChar(n / 10), DigitChar(n % 10)]
  }

  /** The independent reference: the zero-padded `HH:MM:SS` rendering of a
      number of seconds since midnight. */
  function FormatTime(n: nat): (s: string)
    requires n < SecondsPerDay
  {
    TwoDigits(n / 3600) + ":" + TwoDigits(n / 60 % 60) + ":" + TwoDigits(n % 60)
  }

  /** The three fields of a number of seconds since midnight. */
  lemma SplitSeconds(n: nat)
    requires n < SecondsPerDay
    ensures var h, m, sec := n / 3600, n / 60 % 60, n % 60;
            h < 24 && m < 60 && sec < 60 && n == h * 3600 + m * 60 + sec
  {
    var q, sec := n / 60, n % 60;
    var h, m := q / 60, q % 60;
    assert n == q * 60 + sec;
    assert q == h * 60 + m;
    DivideBy3600(n, h, m * 60 + sec);
  }

  /** Two digit characters are the rendering of the number they denote. */
  lemma TwoDigitsOf(a: char, b: char)
    requires IsDigit(a) && IsDigit(b)
    ensures TwoDigits(10 * DigitValue(a) + DigitValue(b)) == [a, b]
  {
    DivideBy10(10 * DigitValue(a) + DigitValue(b), DigitValue(a), DigitValue(b));
    DigitCharOf(a);
    DigitCharOf(b);
  }

  /** Rendering a time of day yields a string the validator accepts, and
      reading it back gives the same number of seconds. */
  lemma FormatTimeRoundTrip(n: nat)
    requires n < SecondsPerDay
    ensures IsTimeFormat(FormatTime(n))
    ensures Seconds(FormatTime(n)) == n
  {
    SplitSeconds(n);
    var hh, mm, ss := TwoDigits(n / 3600), TwoDigits(n / 60 % 60), TwoDigits(n % 60);
    var f := FormatTime(n);
    assert f == hh + ":" + mm + ":" + ss;
    assert f[0] == hh[0] && f[1] == hh[1];
    assert f[3] == mm[0] && f[4] == mm[1];
    assert f[6] == ss[0] && f[7] == ss[1];
  }

  /** The fields of the number of seconds a valid time string denotes are
      the numbers its digit pairs denote. */
  lemma SecondsFields(s: string)
    requires IsTimeFormat(s)
    ensures var n := Seconds(s);
            && n / 3600 == 10 * DigitValue(s[0]) + DigitValue(s[1])
            && n / 60 % 60 == 10 * DigitValue(s[3]) + DigitValue(s[4])
            && n % 60 == 10 * DigitValue(s[6]) + DigitValue(s[7])
  {
    var h := 10 * DigitValue(s[0]) + DigitValue(s[1]);
    var m := 10 * DigitValue(s[3]) + DigitValue(s[4]);
    var sec := 10 * DigitValue(s[6]) + DigitValue(s[7]);
    var n := Seconds(s);
    DivideBy3600(n, h, m * 60 + sec);
    DivideBy60(n, h * 60 + m, sec);
    DivideBy60(h * 60 + m, h, m);
  }

  /** A string of the shape `HH:MM:SS` is its three digit pairs joined by colons. */
  lemma JoinedPairs(s: string)
    requires |s| == 8 && s[2] == ':' && s[5] == ':'
    ensures s == [s[0], s[1]] + ":" + [s[3], s[4]] + ":" + [s[6], s[7]]
  {
  }

  /** The rendering of a number of seconds whose fields are known. */
  lemma FormatTimeOfFields(n: nat, h: nat, m: nat, sec: nat)
    requires n < SecondsPerDay && n / 3600 == h && n / 60 % 60 == m && n % 60 == sec
    ensures h < 100 && m < 100 && sec < 100
    ensures FormatTime(n) == TwoDigits(h) + ":" + TwoDigits(m) + ":" + TwoDigits(sec)
  {
  }

  /** The digit pairs of a valid time string, each read as a number and
      rendered again, joined by colons, give back the string. */
  lemma PairsRendered(s: string)
    requires IsTimeFormat(s)
    ensures TwoDigits(10 * DigitValue(s[0]) + DigitValue(s[1])) + ":"
            + TwoDigits(10 * DigitValue(s[3]) + DigitValue(s[4])) + ":"
            + TwoDigits(10 * DigitValue(s[6]) + DigitValue(s[7])) == s
  {
    TwoDigitsOf(s[0], s[1]);
    TwoDigitsOf(s[3], s[4]);
    TwoDigitsOf(s[6], s[7]);
    JoinedPairs(s);
  }

  /** Every string the validator accepts is the rendering of its own time. */
  lemma SecondsRoundTrip(s: string)
    requires IsTimeFormat(s)
    ensures FormatTime(Seconds(s)) == s
  {
    SecondsFields(s);
    FormatTimeOfFields(Seconds(s), 10 * DigitValue(s[0]) + DigitValue(s[1]),
      10 * DigitValue(s[3]) + DigitValue(s[4]), 10 * DigitValue(s[6]) + DigitValue(s[7]));
    PairsRendered(s);
  }

  lemma DivideBy10(n: int, q: int, r: int)
    requires 0 <= r < 10 && n == q * 10 + r
    ensures n / 10 == q && n % 10 == r
  {
  }

  lemma DivideBy60(n: int, q: int, r: int)
    requires 0 <= r < 60 && n == q * 60 + r
    ensures n / 60 == q && n % 60 == r
  {
  }

  lemma DivideBy3600(n: int, q: int, r: int)
    requires 0 <= r < 3600 && n == q * 3600 + r
    ensures n / 3600 == q && n % 3600 == r
  {
  }

  /** The validator accepts exactly the renderings of the 86400 seconds of a day. */
  lemma ValidatorAcceptsExactlyTimesOfDay(s: string)
    ensures IsTimeFormat(s) <==> exists n: nat :: n < SecondsPerDay && FormatTime(n) == s
  {
    if IsTimeFormat(s) {
      SecondsRoundTrip(s);
    }
    if exists n: nat :: n < SecondsPerDay && FormatTime(n) == s {
      var n: nat :| n < SecondsPerDay && FormatTime(n) == s;
      FormatTimeRoundTrip(n);
    }
  }

  /** The validator on the boundary cases of its pattern. */
  lemma ValidatorExamples()
    ensures !IsTimeFormat("24:00:00") && !IsTimeFormat("12:60:00")
    ensures !IsTimeFormat("9:00:00") && !IsTimeFormat("12:00:00x")
    ensures !IsTimeFormat("12:00:60") && !IsTimeFormat("")
    ensures IsTimeFormat("00:00:00") && IsTimeFormat("23:59:59")
  {
  }

  /** MongoDB (BSON) string order, as `$lt`/`$gt` compare stored strings:
      lexicographic on code points, a proper prefix sorting first. */
  predicate LexLess(a: string, b: string)
    decreases |a|
  {
    if |b| == 0 then false
    else if |a| == 0 then true
    else if a[0] != b[0] then a[0] < b[0]
    else LexLess(a[1..], b[1..])
  }

  /** On equal-length strings sharing a prefix, `LexLess` is decided by the rest. */
  lemma {:induction false} LexLessAfterCommonPrefix(a: string, b: string, k: nat)
    requires |a| == |b| && k <= |a|
    requires a[..k] == b[..k]
    ensures LexLess(a, b) == LexLess(a[k..], b[k..])
    decreases k
  {
    if k > 0 {
      assert a[0] == a[..k][0] == b[..k][0] == b[0];
      assert a[1..][..k - 1] == a[1..k] == b[1..k] == b[1..][..k - 1];
      LexLessAfterCommonPrefix(a[1..], b[1..], k - 1);
      assert a[1..][k - 1..] == a[k..] && b[1..][k - 1..] == b[k..];
    }
  }

  /** For two strings the validator accepts, string order is time order.
      The admission query's `$lt`/`$gt` comparisons rely on this. */
  lemma LexOrderIsTimeOrder(a: string, b: string)
    requires IsTimeFormat(a) && IsTimeFormat(b)
    ensures LexLess(a, b) <==> Seconds(a) < Seconds(b)
  {
    var k := FirstDifference(a, b);
    LexLessAfterCommonPrefix(a, b, k);
    if k < 8 {
      assert a[k..][0] == a[k] && b[k..][0] == b[k];
      assert LexLess(a[k..], b[k..]) == (a[k] < b[k]);
      assert a[0] == a[..k + 1][0] && b[0] == b[..k + 1][0];
      PositionalOrder(a, b, k);
    } else {
      assert a == a[..8] == b[..8] == b;
      assert a[k..] == [];
    }
  }

  /** The first position where two equal-length strings differ (|a| if none). */
  function FirstDifference(a: string, b: string): (k: nat)
    requires |a| == |b|
    ensures k <= |a| && a[..k] == b[..k]
    ensures k < |a| ==> a[k] != b[k]
  {
    if |a| == 0 then 0
    else if a[0] != b[0] then 0
    else
      var k := FirstDifference(a[1..], b[1..]);
      assert a[..k + 1] == [a[0]] + a[1..][..k];
      assert b[..k + 1] == [b[0]] + b[1..][..k];
      k + 1
  }

  /** The mixed-radix positional argument: the first differing digit decides
      the order of the times, because each position outweighs all later ones. */
  lemma PositionalOrder(a: string, b: string, k: nat)
    requires IsTimeFormat(a) && IsTimeFormat(b)
    requires k < 8 && a[..k] == b[..k] && a[k] != b[k]
    ensures a[k] < b[k] <==> Seconds(a) < Seconds(b)
  {
    assert forall i :: 0 <= i < k ==> a[i] == a[..k][i] == b[..k][i] == b[i];
  }
}
