/** The `formatTime` helper of the exam countdown: a number of seconds shown as
    `MM:SS`, where minutes are `Math.floor(seconds / 60)`, seconds are the
    JavaScript remainder `seconds % 60`, and each part is turned into its decimal
    string and left-padded with '0' to two characters (never truncated). */
module TimeFormat {

  datatype Option<T> = None | Some(value: T)

  predicate IsDigit(c: char) { '0' <= c <= '9' }

  predicate AllDigits(s: string) { forall i :: 0 <= i < |s| ==> IsDigit(s[i]) }

  /** The value of a digit character (0 for any other character, which the
      parser rules out before reading a value). */
  function DigitValue(c: char): (d: nat)
    ensures d < 10
  {
    if IsDigit(c) then c as int - '0' as int else 0
  }

  function DigitChar(d: nat): (c: char)
    requires d < 10
    ensures IsDigit(c) && DigitValue(c) == d
  {
    ('0' as int + d) as char
  }

  /** Reads a string of decimal digits back as a number (leading zeros allowed). */
  function DecimalValue(s: string): nat
  {
    if s == [] then 0 else DecimalValue(s[..|s| - 1]) * 10 + DigitValue(s[|s| - 1])
  }

  /** The decimal digits of a non-negative integer, as `String(n)` writes them. */
  function Digits(n: nat): (s: string)
    ensures |s| >= 1 && AllDigits(s)
    ensures DecimalValue(s) == n
  {
    if n < 10 then [DigitChar(n)]
    else
      var prefix := Digits(n / 10);
      var s := prefix + [DigitChar(n % 10)];
      assert s[..|s| - 1] == prefix;
      s
  }

  /** `String(n)` for an integer: a minus sign before the digits of `-n` when negative. */
  function NumberToString(n: int): (s: string)
    ensures |s| >= 1
    ensures n >= 0 <==> AllDigits(s)
    ensures n >= 0 ==> DecimalValue(s) == n
    ensures n < 0 ==> |s| >= 2 && s[0] == '-' && AllDigits(s[1..]) && DecimalValue(s[1..]) == -n
  {
    if n < 0 then
      var s := "-" + Digits(-n);
      assert !IsDigit(s[0]) && s[1..] == Digits(-n);
      s
    else Digits(n)
  }

  /** JavaScript's `a % b` for a positive divisor: truncated, so it takes the
      sign of the dividend (unlike Dafny's Euclidean `%`). */
  function JsRemainder(a: int, b: int): (r: int)
    requires b > 0
    ensures -b < r < b
    ensures a > 0 ==> r >= 0
    ensures a < 0 ==> r <= 0
    ensures (if a < 0 then -r else r) == (if a < 0 then -a else a) % b
  {
    if a >= 0 then a % b else -((-a) % b)
  }

  /** `s.padStart(width, fill)` with a one-character filler. */
  function PadStart(s: string, width: nat, fill: char): (r: string)
    ensures |r| == if |s| >= width then |s| else width
  {
    if |s| >= width then s else seq(width - |s|, _ => fill) + s
  }

  /** The pad never truncates: the whole string is kept at the end, and only
      the filler is put in front of it. */
  lemma PadStartShape(s: string, width: nat, fill: char)
    ensures var r := PadStart(s, width, fill);
      r[|r| - |s|..] == s && forall i :: 0 <= i < |r| - |s| ==> r[i] == fill
  {
    var r := PadStart(s, width, fill);
    if |s| < width {
      assert r == seq(width - |s|, _ => fill) + s;
    }
  }

  /** `padStart(2, '0')`: at least two characters; a string already that long
      is left as it is, and a shorter one gains a leading '0'. */
  function Pad2(s: string): (r: string)
    ensures |r| == if |s| >= 2 then |s| else 2
    ensures |s| >= 2 ==> r == s
    ensures |s| < 2 ==> r[0] == '0'
  {
    PadStart(s, 2, '0')
  }

  /** Leading zeros change no value. */
  lemma ZeroPadKeepsValue(s: string)
    ensures AllDigits(s) ==> AllDigits(Pad2(s)) && DecimalValue(Pad2(s)) == DecimalValue(s)
  {
    var r := Pad2(s);
    if !AllDigits(s) {
    } else if |s| == 0 {
      assert r == "00" && r[..1] == "0";
    } else if |s| == 1 {
      assert r == ['0'] + s && r[..1] == "0" && r[..0] == [];
    }
  }

  /** `formatTime(seconds)`: `Math.floor(seconds / 60)` (Dafny's `/` is the floor
      for a positive divisor) and the truncated remainder, each padded to two. */
  function FormatTime(seconds: int): (t: string)
    ensures |t| >= 5
  {
    Pad2(NumberToString(seconds / 60)) + ":" + Pad2(NumberToString(JsRemainder(seconds, 60)))
  }

  /** Reads an `M…M:SS` display back: at least one minute digit, a colon, exactly
      two second digits below 60. */
  function ParseClock(t: string): (r: Option<nat>)
    ensures r.Some? ==> |t| >= 4 && t[|t| - 3] == ':'
  {
    if |t| >= 4 && t[|t| - 3] == ':' && AllDigits(t[..|t| - 3]) && AllDigits(t[|t| - 2..])
       && DecimalValue(t[|t| - 2..]) < 60
    then Some(DecimalValue(t[..|t| - 3]) * 60 + DecimalValue(t[|t| - 2..]))
    else None
  }

  /** `String(n)` has no leading zero: its first character is '0' only for 0. */
  lemma {:induction false} DigitsCanonical(n: nat)
    ensures Digits(n)[0] == '0' <==> n == 0
    decreases n
  {
    if n < 10 {
      assert Digits(n) == [DigitChar(n)];
      assert DigitValue('0') == 0;
    } else {
      var p := Digits(n / 10);
      DigitsCanonical(n / 10);
      assert Digits(n) == p + [DigitChar(n % 10)];
    }
  }

  /** The number of digits grows at 10 and at 100. */
  lemma {:induction false} DigitsWidth(n: nat)
    ensures |Digits(n)| == 1 <==> n < 10
    ensures |Digits(n)| == 2 <==> 10 <= n < 100
    ensures |Digits(n)| >= 3 <==> n >= 100
  {
    if n >= 10 {
      DigitsWidth(n / 10);
    }
  }

  /** A two-digit pad of a number below 100 reads back as that number. */
  lemma Pad2Value(n: nat)
    requires n < 100
    ensures |Pad2(Digits(n))| == 2 && AllDigits(Pad2(Digits(n)))
    ensures DecimalValue(Pad2(Digits(n))) == n
  {
    DigitsWidth(n);
    var p := Pad2(Digits(n));
    if n < 10 {
      assert p == ['0'] + Digits(n);
      assert p[..1] == ['0'];
    }
  }

  /** The two halves around the colon can be cut back out of a display. */
  lemma SplitAtColon(m: string, sec: string)
    requires |sec| == 2
    ensures var t := m + ":" + sec;
      t[|t| - 3] == ':' && t[..|t| - 3] == m && t[|t| - 2..] == sec
  {
    var t := m + ":" + sec;
    assert t[..|t| - 3] == m;
    assert t[|t| - 2..] == sec;
  }

  /** For a non-negative count, both operators agree with Dafny's and `String`
      writes plain digits. */
  lemma FormatTimeJoin(s: nat)
    ensures FormatTime(s) == Pad2(Digits(s / 60)) + ":" + Pad2(Digits(s % 60))
  {
    var q, r := s / 60, s % 60;
    assert JsRemainder(s, 60) == r;
    assert NumberToString(q) == Digits(q) && NumberToString(r) == Digits(r);
  }

  /** For a non-negative count, the display is the padded minutes, a colon, and
      exactly two digits of seconds. */
  lemma FormatTimeShape(s: nat)
    ensures FormatTime(s) == Pad2(Digits(s / 60)) + ":" + Pad2(Digits(s % 60))
    ensures var t := FormatTime(s);
      |t| >= 5 && t[|t| - 3] == ':' && AllDigits(t[..|t| - 3]) && AllDigits(t[|t| - 2..])
      && t[..|t| - 3] == Pad2(Digits(s / 60)) && t[|t| - 2..] == Pad2(Digits(s % 60))
  {
    FormatTimeJoin(s);
    Pad2Value(s % 60);
    ZeroPadKeepsValue(Digits(s / 60));
    SplitAtColon(Pad2(Digits(s / 60)), Pad2(Digits(s % 60)));
  }

  /** Reading the minutes and the seconds back gives the original count. */
  lemma FormatTimeRoundTrip(s: nat)
    ensures ParseClock(FormatTime(s)) == Some(s)
  {
    var m, sec := Pad2(Digits(s / 60)), Pad2(Digits(s % 60));
    FormatTimeJoin(s);
    ZeroPadKeepsValue(Digits(s / 60));
    Pad2Value(s % 60);
    ParseJoined(FormatTime(s), m, sec);
  }

  /** `ParseClock` on a joined display reads each half separately. */
  lemma ParseJoined(t: string, m: string, sec: string)
    requires t == m + ":" + sec
    requires |m| >= 1 && AllDigits(m)
    requires |sec| == 2 && AllDigits(sec) && DecimalValue(sec) < 60
    ensures ParseClock(t) == Some(DecimalValue(m) * 60 + DecimalValue(sec))
  {
    SplitAtColon(m, sec);
  }

  /** Distinct counts never share a display. */
  lemma FormatTimeInjective(a: nat, b: nat)
    ensures a != b ==> FormatTime(a) != FormatTime(b)
  {
    FormatTimeRoundTrip(a);
    FormatTimeRoundTrip(b);
  }

  /** The pad never truncates: the display is `MM:SS` (five characters) exactly
      below 100 minutes, and from 100 minutes on the minutes are printed in full. */
  lemma {:induction false} FormatTimeWidth(s: nat)
    ensures |FormatTime(s)| == 5 <==> s < 6000
    ensures s >= 6000 ==> |FormatTime(s)| >= 6 && FormatTime(s)[..|FormatTime(s)| - 3] == Digits(s / 60)
  {
    FormatTimeShape(s);
    DigitsWidth(s / 60);
  }

  /** A negative count (only reachable from a negative `initialTime`) follows
      the JavaScript operators: the minutes are the floor, shown with a minus
      sign; the seconds are the truncated remainder, shown with a minus sign
      unless the count is a multiple of 60, where JavaScript gives `-0` and
      `String(-0)` is `"0"`. */
  lemma FormatTimeNegative(s: int)
    requires s < 0
    ensures FormatTime(s) == "-" + Digits(-(s / 60)) + ":"
      + (if (-s) % 60 == 0 then "00" else "-" + Digits((-s) % 60))
  {
    var q := s / 60;
    assert q < 0;
    PaddedNegative(q);
    NegativeSeconds(s);
    assert FormatTime(s) == Pad2(NumberToString(q)) + ":" + Pad2(NumberToString(JsRemainder(s, 60)));
  }

  /** The seconds of a negative count: the truncated remainder with its sign,
      or `"00"` on a whole minute. */
  lemma NegativeSeconds(s: int)
    requires s < 0
    ensures Pad2(NumberToString(JsRemainder(s, 60)))
      == if (-s) % 60 == 0 then "00" else "-" + Digits((-s) % 60)
  {
    var r, k := JsRemainder(s, 60), (-s) % 60;
    assert r == -k;
    if k == 0 {
      PaddedZero();
    } else {
      PaddedNegative(r);
      assert -r == k;
      assert Digits(-r) == Digits(k);
    }
  }

  /** A negative number already has two characters, so the pad leaves it alone. */
  lemma PaddedNegative(n: int)
    requires n < 0
    ensures Pad2(NumberToString(n)) == "-" + Digits(-n)
  {
  }

  /** `String(-0)` is `"0"`, padded to `"00"`. */
  lemma PaddedZero()
    ensures Pad2(NumberToString(0)) == "00"
  {
    assert NumberToString(0) == "0";
  }

  /** A timer at zero shows `00:00`. */
  lemma FormatTimeZero()
    ensures FormatTime(0) == "00:00"
  {
    assert 0 / 60 == 0 && JsRemainder(0, 60) == 0;
    PaddedZero();
  }

  /** Two instances: -5 shows `-1:-5`, and -60 shows `-1:00`. */
  lemma FormatTimeNegativeExamples()
    ensures FormatTime(-5) == "-1:-5"
    ensures FormatTime(-60) == "-1:00"
  {
    assert Digits(1) == "1" && Digits(5) == "5";
    assert -5 / 60 == -1 && (- -5) % 60 == 5;
    assert -60 / 60 == -1 && (- -60) % 60 == 0;
    FormatTimeNegative(-5);
    FormatTimeNegative(-60);
  }
}
