/** Times of day as the schedules store handles them: strings checked by the
    pattern `^([0-1]\d|2[0-3]):([0-5]\d)$` and compared with JavaScript's
    string operators `<=` and `>=`. */
module TimeOfDay {

  predicate IsDigit(c: char) { '0' <= c <= '9' }

  function DigitValue(c: char): int { c as int - '0' as int }

  /** `isValidTimeFormat`: exactly five characters, hours `[0-1]\d` or
      `2[0-3]`, a colon, minutes `[0-5]\d`. */
  predicate IsValidTimeFormat(t: string) {
    && |t| == 5
    && (('0' <= t[0] <= '1' && IsDigit(t[1])) || (t[0] == '2' && '0' <= t[1] <= '3'))
    && t[2] == ':'
    && '0' <= t[3] <= '5' && IsDigit(t[4])
  }

  function Hours(t: string): int requires |t| == 5 { 10 * DigitValue(t[0]) + DigitValue(t[1]) }

  function Minutes(t: string): int requires |t| == 5 { 10 * DigitValue(t[3]) + DigitValue(t[4]) }

  /** Minutes since midnight. */
  function MinutesOfDay(t: string): int requires |t| == 5 { 60 * Hours(t) + Minutes(t) }

  /** The two-digit, zero-padded rendering of `n`. */
  function TwoDigits(n: int): (r: string)
    requires 0 <= n < 100
    ensures |r| == 2 && IsDigit(r[0]) && IsDigit(r[1])
    ensures 10 * DigitValue(r[0]) + DigitValue(r[1]) == n
  {
    [('0' as int + n / 10) as char, ('0' as int + n % 10) as char]
  }

  /** The `HH:mm` rendering of a time of day. */
  function Format(h: int, m: int): (t: string)
    requires 0 <= h < 24 && 0 <= m < 60
    ensures |t| == 5
  {
    TwoDigits(h) + ":" + TwoDigits(m)
  }

  /** Every rendered time passes the check and reads back as the same hour
      and minute. */
  lemma FormatIsValid(h: int, m: int)
    requires 0 <= h < 24 && 0 <= m < 60
    ensures IsValidTimeFormat(Format(h, m))
    ensures Hours(Format(h, m)) == h && Minutes(Format(h, m)) == m
  {
    var t := Format(h, m);
    assert t[0] == TwoDigits(h)[0] && t[1] == TwoDigits(h)[1];
    assert t[3] == TwoDigits(m)[0] && t[4] == TwoDigits(m)[1];
  }

  /** Every string that passes the check is the rendering of an hour in
      0..23 and a minute in 0..59: with `FormatIsValid`, the check accepts
      exactly the renderings of times of day. */
  lemma ValidIsFormatted(t: string)
    requires IsValidTimeFormat(t)
    ensures 0 <= Hours(t) < 24 && 0 <= Minutes(t) < 60
    ensures Format(Hours(t), Minutes(t)) == t
  {
    var f := Format(Hours(t), Minutes(t));
    FormatIsValid(Hours(t), Minutes(t));
    assert f[0] == t[0] && f[1] == t[1] && f[3] == t[3] && f[4] == t[4];
  }

  /** JavaScript's `a < b` on strings: lexicographic order of characters. */
  predicate StrLess(a: string, b: string)
    decreases |a|
  {
    if |a| == 0 then |b| > 0
    else if |b| == 0 then false
    else if a[0] != b[0] then a[0] < b[0]
    else StrLess(a[1..], b[1..])
  }

  /** JavaScript's `a <= b`, which is `!(b < a)`. */
  predicate StrLe(a: string, b: string) { !StrLess(b, a) }

  /** JavaScript's `a >= b`, which is `!(a < b)`. */
  predicate StrGe(a: string, b: string) { !StrLess(a, b) }

  lemma {:induction false} StrLessIrreflexive(a: string)
    ensures !StrLess(a, a)
    decreases |a|
  {
    if |a| > 0 {
      StrLessIrreflexive(a[1..]);
    }
  }

  /** On two valid times, `<` is the lexicographic order of the four digits
      (the colons always agree). */
  lemma StrLessOnTimes(a: string, b: string)
    requires IsValidTimeFormat(a) && IsValidTimeFormat(b)
    ensures StrLess(a, b) <==>
      (a[0] < b[0] || (a[0] == b[0] && (a[1] < b[1] || (a[1] == b[1] &&
        (a[3] < b[3] || (a[3] == b[3] && a[4] < b[4]))))))
  {
    var a1, b1 := a[1..], b[1..];
    var a2, b2 := a1[1..], b1[1..];
    var a3, b3 := a2[1..], b2[1..];
    var a4, b4 := a3[1..], b3[1..];
    var a5, b5 := a4[1..], b4[1..];
    assert a1[0] == a[1] && b1[0] == b[1];
    assert a2[0] == a[2] && b2[0] == b[2];
    assert a3[0] == a[3] && b3[0] == b[3];
    assert a4[0] == a[4] && b4[0] == b[4];
    assert |a5| == 0 && |b5| == 0;
    assert !StrLess(a5, b5);
    assert StrLess(a4, b4) == (a[4] < b[4]);
    assert StrLess(a3, b3) == (if a[3] != b[3] then a[3] < b[3] else StrLess(a4, b4));
    assert StrLess(a2, b2) == StrLess(a3, b3);
    assert StrLess(a1, b1) == (if a[1] != b[1] then a[1] < b[1] else StrLess(a2, b2));
    assert StrLess(a, b) == (if a[0] != b[0] then a[0] < b[0] else StrLess(a1, b1));
  }

  /** On valid times, JavaScript string order agrees with time order: the
      overlap test of the schedules store compares real times of day. */
  lemma StrLessIsTimeOrder(a: string, b: string)
    requires IsValidTimeFormat(a) && IsValidTimeFormat(b)
    ensures StrLess(a, b) <==> MinutesOfDay(a) < MinutesOfDay(b)
  {
    StrLessOnTimes(a, b);
    ValidIsFormatted(a);
    ValidIsFormatted(b);
    var ha, hb, ma, mb := Hours(a), Hours(b), Minutes(a), Minutes(b);
    assert ha < hb <==> (a[0] < b[0] || (a[0] == b[0] && a[1] < b[1]));
    assert ha == hb <==> (a[0] == b[0] && a[1] == b[1]);
    assert ma < mb <==> (a[3] < b[3] || (a[3] == b[3] && a[4] < b[4]));
  }

  /** The two derived comparisons, on valid times. */
  lemma StrLeGeAreTimeOrder(a: string, b: string)
    requires IsValidTimeFormat(a) && IsValidTimeFormat(b)
    ensures StrLe(a, b) <==> MinutesOfDay(a) <= MinutesOfDay(b)
    ensures StrGe(a, b) <==> MinutesOfDay(a) >= MinutesOfDay(b)
  {
    StrLessIsTimeOrder(a, b);
    StrLessIsTimeOrder(b, a);
  }

  /** Equal strings satisfy both `<=` and `>=`, valid or not. */
  lemma EqualStringsCompareBothWays(a: string)
    ensures StrLe(a, a) && StrGe(a, a)
  {
    StrLessIrreflexive(a);
  }
}
