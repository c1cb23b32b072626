/**
 * `convertir_segundo` of ejercicio.py: a number of seconds as days, hours,
 * minutes and seconds, with Python's flooring `//` and `%`, and the sentence
 * that reports the four numbers.
 */
module Seconds {

  const SecondsPerDay := 86400
  const SecondsPerHour := 3600
  const SecondsPerMinute := 60

  /** Python's `a // b` for a positive divisor: the floor of `a / b`. Dafny's
      Euclidean `/` agrees with it when the divisor is positive. */
  function FloorDiv(a: int, b: int): (q: int)
    requires b > 0
    ensures b * q <= a < b * q + b
  {
    a / b
  }

  /** Python's `a % b` for a positive divisor: never negative, and what is
      left after taking `FloorDiv(a, b)` times `b`. */
  function FloorMod(a: int, b: int): (r: int)
    requires b > 0
    ensures 0 <= r < b
    ensures a == b * FloorDiv(a, b) + r
  {
    a % b
  }

  datatype Breakdown = Breakdown(days: int, hours: int, minutes: int, seconds: int)

  /** The value a breakdown stands for. */
  function TotalSeconds(b: Breakdown): int {
    b.days * SecondsPerDay + b.hours * SecondsPerHour + b.minutes * SecondsPerMinute + b.seconds
  }

  /** Hours, minutes and seconds within their ranges. */
  predicate InRange(b: Breakdown) {
    0 <= b.hours < 24 && 0 <= b.minutes < 60 && 0 <= b.seconds < 60
  }

  /** The arithmetic of `convertir_segundo`, step by step as the source
      rebinds `seg`: for every integer, negative ones too, the breakdown adds
      back up to the input, keeps hours, minutes and seconds in range, and
      has the floored number of whole days. */
  function Convert(seg: int): (b: Breakdown)
    ensures TotalSeconds(b) == seg
    ensures InRange(b)
    ensures b.days == FloorDiv(seg, SecondsPerDay)
  {
    var days := FloorDiv(seg, SecondsPerDay);
    var seg1 := FloorMod(seg, SecondsPerDay);
    var hours := FloorDiv(seg1, SecondsPerHour);
    var seg2 := FloorMod(seg1, SecondsPerHour);
    var minutes := FloorDiv(seg2, SecondsPerMinute);
    var seg3 := FloorMod(seg2, SecondsPerMinute);
    Breakdown(days, hours, minutes, seg3)
  }

  /** The breakdown is the only one in range that adds up to the input, so
      `Convert` is the mixed-radix representation of its input. */
  lemma ConvertUnique(seg: int, b: Breakdown)
    requires InRange(b) && TotalSeconds(b) == seg
    ensures b == Convert(seg)
  {
    var c := Convert(seg);
    var rb := b.hours * 3600 + b.minutes * 60 + b.seconds;
    var rc := c.hours * 3600 + c.minutes * 60 + c.seconds;
    assert 0 <= rb < 86400 && 0 <= rc < 86400;
    assert b.days * 86400 + 86400 <= c.days * 86400 || c.days * 86400 + 86400 <= b.days * 86400 || b.days == c.days;
    assert b.hours * 3600 + 3600 <= c.hours * 3600 || c.hours * 3600 + 3600 <= b.hours * 3600 || b.hours == c.hours;
    assert b.minutes * 60 + 60 <= c.minutes * 60 || c.minutes * 60 + 60 <= b.minutes * 60 || b.minutes == c.minutes;
  }

  /** There are no whole days exactly when the input is under a day and
      not negative. */
  lemma ConvertNoDays(seg: int)
    ensures Convert(seg).days == 0 <==> 0 <= seg < SecondsPerDay
  {
  }

  /** A whole day is one day; a negative input floors down to the previous
      day, as Python does. */
  lemma ConvertExamples()
    ensures Convert(86400) == Breakdown(1, 0, 0, 0)
    ensures Convert(-1) == Breakdown(-1, 23, 59, 59)
  {
    ConvertUnique(86400, Breakdown(1, 0, 0, 0));
    ConvertUnique(-1, Breakdown(-1, 23, 59, 59));
  }

  function DigitChar(d: nat): char
    requires d < 10
  {
    ('0' as int + d) as char
  }

  /** Python's `str` of a natural number: decimal digits, no leading zero. */
  function NatToString(n: nat): (s: string)
    ensures |s| >= 1
    ensures forall k :: 0 <= k < |s| ==> '0' <= s[k] <= '9'
    ensures s[0] == '0' ==> n == 0
  {
    if n < 10 then [DigitChar(n)] else NatToString(n / 10) + [DigitChar(n % 10)]
  }

  /** Python's `str` of an integer: a `-` before the digits of a negative one. */
  function IntToString(n: int): (s: string)
    ensures ' ' !in s
  {
    if n < 0 then "-" + NatToString(-n) else NatToString(n)
  }

  /** The value of a string of decimal digits. */
  function DigitsValue(s: string): int {
    if s == [] then 0 else DigitsValue(s[..|s| - 1]) * 10 + (s[|s| - 1] as int - '0' as int)
  }

  /** The value of an integer as `IntToString` writes it. */
  function ParseInt(s: string): int {
    if |s| > 0 && s[0] == '-' then -DigitsValue(s[1..]) else DigitsValue(s)
  }

  lemma {:induction false} DigitsOfNat(n: nat)
    ensures DigitsValue(NatToString(n)) == n
  {
    if n >= 10 {
      DigitsOfNat(n / 10);
      var s := NatToString(n);
      assert s[..|s| - 1] == NatToString(n / 10);
    }
  }

  /** Round trip: reading back what `IntToString` writes gives the number. */
  lemma ParseIntToString(n: int)
    ensures ParseInt(IntToString(n)) == n
  {
    if n < 0 {
      DigitsOfNat(-n);
      assert IntToString(n)[1..] == NatToString(-n);
    } else {
      DigitsOfNat(n);
    }
  }

  /** The sentence `convertir_segundo` returns, with the four numbers
      already written out. */
  function Sentence(d: string, h: string, m: string, s: string): string {
    ": " + (d + (" dias,  " + (h + (" horas, " + (m + (" minutos," + (s + " segundos")))))))
  }

  /** ejercicio.py `convertir_segundo`: the sentence that writes out the
      days, hours, minutes and seconds of a breakdown in range that adds up
      to the input (there is only one, see `ConvertUnique`). */
  function ConvertirSegundo(seg: int): (r: string)
    ensures exists b :: InRange(b) && TotalSeconds(b) == seg &&
              r == Sentence(IntToString(b.days), IntToString(b.hours), IntToString(b.minutes), IntToString(b.seconds))
  {
    var b := Convert(seg);
    Sentence(IntToString(b.days), IntToString(b.hours), IntToString(b.minutes), IntToString(b.seconds))
  }

  /** Two texts, each a number without spaces and a rest that starts with a
      space, are equal only if the numbers and the rests are. */
  lemma PeelNumber(x1: string, y1: string, x2: string, y2: string)
    requires x1 + y1 == x2 + y2
    requires ' ' !in x1 && ' ' !in x2
    requires |y1| > 0 && y1[0] == ' ' && |y2| > 0 && y2[0] == ' '
    ensures x1 == x2 && y1 == y2
  {
    assert x1 == (x1 + y1)[..|x1|] && x2 == (x2 + y2)[..|x2|];
    assert y1 == (x1 + y1)[|x1|..] && y2 == (x2 + y2)[|x2|..];
  }

  /** A common first part can be dropped. */
  lemma DropPrefix(p: string, a: string, b: string)
    requires p + a == p + b
    ensures a == b
  {
    assert a == (p + a)[|p|..] && b == (p + b)[|p|..];
  }

  /** Numbers without spaces can be read back off the sentence. */
  lemma SentenceInjective(d1: string, h1: string, m1: string, s1: string,
                          d2: string, h2: string, m2: string, s2: string)
    requires ' ' !in d1 && ' ' !in h1 && ' ' !in m1 && ' ' !in s1
    requires ' ' !in d2 && ' ' !in h2 && ' ' !in m2 && ' ' !in s2
    requires Sentence(d1, h1, m1, s1) == Sentence(d2, h2, m2, s2)
    ensures d1 == d2 && h1 == h2 && m1 == m2 && s1 == s2
  {
    var s1', s2' := " segundos", " segundos";
    var m1', m2' := " minutos," + (s1 + s1'), " minutos," + (s2 + s2');
    var h1', h2' := " horas, " + (m1 + m1'), " horas, " + (m2 + m2');
    var d1', d2' := " dias,  " + (h1 + h1'), " dias,  " + (h2 + h2');
    DropPrefix(": ", d1 + d1', d2 + d2');
    PeelNumber(d1, d1', d2, d2');
    DropPrefix(" dias,  ", h1 + h1', h2 + h2');
    PeelNumber(h1, h1', h2, h2');
    DropPrefix(" horas, ", m1 + m1', m2 + m2');
    PeelNumber(m1, m1', m2, m2');
    DropPrefix(" minutos,", s1 + s1', s2 + s2');
    PeelNumber(s1, s1', s2, s2');
  }

  /** The sentence carries the four numbers and so determines the input:
      no two inputs are reported the same way. */
  lemma ConvertirSegundoInjective(a: int, b: int)
    requires ConvertirSegundo(a) == ConvertirSegundo(b)
    ensures a == b
  {
    var ca, cb := Convert(a), Convert(b);
    SentenceInjective(IntToString(ca.days), IntToString(ca.hours), IntToString(ca.minutes), IntToString(ca.seconds),
                      IntToString(cb.days), IntToString(cb.hours), IntToString(cb.minutes), IntToString(cb.seconds));
    ParseIntToString(ca.days); ParseIntToString(cb.days);
    ParseIntToString(ca.hours); ParseIntToString(cb.hours);
    ParseIntToString(ca.minutes); ParseIntToString(cb.minutes);
    ParseIntToString(ca.seconds); ParseIntToString(cb.seconds);
  }
}
