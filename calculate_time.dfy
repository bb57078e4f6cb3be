/** Duration helpers: milliseconds to whole seconds, `HH:MM:SS` formatting
    with unbounded hours, and the two-bound duration helper.

    Numbers are integers here. JavaScript's `Math.floor(a / b)` with b > 0 is
    Dafny's `a / b` (Euclidean division agrees with flooring for a positive
    divisor), while JavaScript's `%` truncates toward zero and is written out
    as `JsRem`. */
module CalculateTime {
  import opened Common
  import opened Numerals

  /** `Math.floor(ms / 1000)`: the whole seconds in `ms`, rounded down. */
  function MsToSeconds(ms: int): (r: int)
    ensures r * 1000 <= ms < r * 1000 + 1000
    ensures r >= 0 <==> ms >= 0
  {
    ms / 1000
  }

  /** JavaScript's `a % b` for a positive `b`: the remainder takes the sign of
      `a`. */
  function JsRem(a: int, b: int): (r: int)
    requires b > 0
    ensures a >= 0 ==> r == a % b
    ensures a < 0 ==> -b < r <= 0
    ensures a - r == (if a >= 0 then a / b else -((-a) / b)) * b
  {
    if a >= 0 then a % b else -((-a) % b)
  }

  /** `String(s).padStart(2, "0")` on the text of a number: zeros are put in
      front up to width 2; a longer text is kept whole, never cut. */
  function PadStart2(s: string): (r: string)
    ensures |r| == if |s| >= 2 then |s| else 2
    ensures r[|r| - |s|..] == s
    ensures forall i :: 0 <= i < |r| - |s| ==> r[i] == '0'
  {
    if |s| >= 2 then s else if |s| == 1 then "0" + s else "00"
  }

  /** One field of the formatted duration. */
  function Field(v: int): string
  {
    PadStart2(IntToString(v))
  }

  /** `formatDuration(totalSeconds)`: hours, minutes and seconds, each padded
      to two characters and joined by ':'. Defined for every integer with the
      source's arithmetic. For s >= 0 the text reads back as s; its layout is
      stated by `FormatDurationShape` below. */
  function FormatDuration(totalSeconds: int): (r: string)
    ensures totalSeconds >= 0 ==> ParseDuration(r) == Some(totalSeconds)
  {
    var hours := totalSeconds / 3600;
    var minutes := JsRem(totalSeconds, 3600) / 60;
    var seconds := JsRem(totalSeconds, 60);
    var r := Field(hours) + ":" + Field(minutes) + ":" + Field(seconds);
    assert totalSeconds >= 0 ==> ParseDuration(r) == Some(totalSeconds) by {
      if totalSeconds >= 0 {
        SplitSeconds(totalSeconds);
        ParseFields(hours, minutes, seconds);
      }
    }
    r
  }

  /** JavaScript truthiness of a timestamp argument: absent (`undefined`,
      `null`) or the number 0 is falsy. */
  predicate Truthy(b: Option<int>)
  {
    b.Some? && b.value != 0
  }

  /** `calculateDuration(start, end)`: 0 when either bound is falsy,
      otherwise the whole seconds from start to end, which are negative when
      end comes before start (no clamping). */
  function CalculateDuration(start: Option<int>, end: Option<int>): (r: int)
    ensures !Truthy(start) || !Truthy(end) ==> r == 0
    ensures Truthy(start) && Truthy(end) ==>
      r * 1000 <= end.value - start.value < r * 1000 + 1000
    ensures Truthy(start) && Truthy(end) ==> (r < 0 <==> end.value < start.value)
  {
    if !Truthy(start) || !Truthy(end) then 0 else MsToSeconds(end.value - start.value)
  }

  // ---------------------------------------------------------------------
  // Reading a formatted duration back

  /** `s` cut at every occurrence of `sep`, like `s.split(sep)`. */
  function Split(s: string, sep: char): (r: seq<string>)
    ensures |r| >= 1
  {
    if |s| == 0 then [""]
    else
      var rest := Split(s[1..], sep);
      if s[0] == sep then [""] + rest else [[s[0]] + rest[0]] + rest[1..]
  }

  lemma {:induction false} SplitNoSeparator(s: string, sep: char)
    requires sep !in s
    ensures Split(s, sep) == [s]
  {
    if |s| > 0 {
      SplitNoSeparator(s[1..], sep);
      assert [s[0]] + s[1..] == s;
    }
  }

  lemma {:induction false} SplitAfterField(a: string, sep: char, b: string)
    requires sep !in a
    ensures Split(a + [sep] + b, sep) == [a] + Split(b, sep)
  {
    if |a| > 0 {
      assert (a + [sep] + b)[1..] == a[1..] + [sep] + b;
      SplitAfterField(a[1..], sep, b);
      assert [a[0]] + a[1..] == a;
    } else {
      assert a + [sep] + b == [sep] + b;
      assert ([sep] + b)[1..] == b;
    }
  }

  /** Reads the fields of an `H:M:S` text as a number of seconds,
      h * 3600 + m * 60 + s: exactly three non-empty runs of decimal
      digits. */
  function ReadFields(f: seq<string>): Option<int>
  {
    if |f| == 3 && |f[0]| > 0 && |f[1]| > 0 && |f[2]| > 0
       && AllDigits(f[0]) && AllDigits(f[1]) && AllDigits(f[2])
    then Some(ParseDecimal(f[0]) * 3600 + ParseDecimal(f[1]) * 60 + ParseDecimal(f[2]))
    else None
  }

  /** Reads an `H:M:S` text as a number of seconds, from its ':'-separated
      fields. */
  function ParseDuration(s: string): Option<int>
  {
    ReadFields(Split(s, ':'))
  }

  // ---------------------------------------------------------------------
  // Properties of formatDuration for non-negative input

  /** A padded field of a non-negative number is digits only and reads back
      as that number. */
  lemma FieldReadsBack(v: nat)
    ensures |Field(v)| > 0 && AllDigits(Field(v)) && ParseDecimal(Field(v)) == v
    ensures |Field(v)| == if v < 10 then 2 else |NatToDecimal(v)|
  {
    var d := NatToDecimal(v);
    ParseNatToDecimal(v);
    if |d| < 2 {
      assert Field(v) == "0" + d;
      ParseLeadingZero(d);
    }
  }

  /** The three quotients of a non-negative number of seconds rebuild it,
      and minutes and seconds stay below 60. */
  lemma SplitSeconds(s: nat)
    ensures 0 <= JsRem(s, 3600) / 60 < 60 && 0 <= JsRem(s, 60) < 60
    ensures (s / 3600) * 3600 + (JsRem(s, 3600) / 60) * 60 + JsRem(s, 60) == s
  {
    var h, r := s / 3600, s % 3600;
    assert s == h * 3600 + r;
    var m, sec := r / 60, r % 60;
    assert r == m * 60 + sec;
    assert s == (h * 60 + m) * 60 + sec;
    assert s % 60 == sec;
  }

  /** A minutes or seconds field (below 60) has exactly two characters. */
  lemma TwoDigitField(v: nat)
    requires v < 60
    ensures |Field(v)| == 2
  {
    FieldReadsBack(v);
    if v >= 10 {
      assert NatToDecimal(v) == NatToDecimal(v / 10) + [DigitChar(v % 10)];
    }
  }

  /** `r` is an `H:MM:SS` text whose hours field has `k` characters and reads
      as `h`, and whose two-character minutes and seconds fields read as `m`
      and `sec`. */
  predicate HmsLayout(r: string, k: nat, h: nat, m: nat, sec: nat)
  {
    && |r| == k + 6 && r[k] == ':' && r[k + 3] == ':'
    && k > 0 && AllDigits(r[..k]) && ParseDecimal(r[..k]) == h
    && AllDigits(r[k + 1..k + 3]) && ParseDecimal(r[k + 1..k + 3]) == m
    && AllDigits(r[k + 4..]) && ParseDecimal(r[k + 4..]) == sec
  }

  /** Three runs of digits joined by ':', the last two of two characters,
      have that layout. */
  lemma JoinedLayout(a: string, b: string, c: string)
    requires |a| > 0 && AllDigits(a) && AllDigits(b) && AllDigits(c)
    requires |b| == 2 && |c| == 2
    ensures HmsLayout(a + ":" + b + ":" + c, |a|, ParseDecimal(a), ParseDecimal(b), ParseDecimal(c))
  {
    var r := a + ":" + b + ":" + c;
    var k := |a|;
    assert |r| == k + 6;
    assert r[k] == ':' && r[k + 3] == ':';
    assert r[..k] == a;
    assert r[k + 1..k + 3] == b;
    assert r[k + 4..] == c;
  }

  /** The field layout: for s >= 0 the text is an hours field of at least two
      digits (more when the hours need them: it is never truncated, and
      hours are not reduced modulo 24), then ':' and two digits of minutes
      below 60, then ':' and two digits of seconds below 60. */
  lemma FormatDurationShape(s: int)
    requires s >= 0
    ensures HmsLayout(FormatDuration(s), if s / 3600 < 10 then 2 else |NatToDecimal(s / 3600)|,
                      s / 3600, (s % 3600) / 60, s % 60)
    ensures (s % 3600) / 60 < 60 && s % 60 < 60
  {
    var h, m, sec := s / 3600, JsRem(s, 3600) / 60, JsRem(s, 60);
    SplitSeconds(s);
    FieldReadsBack(h);
    FieldReadsBack(m);
    FieldReadsBack(sec);
    TwoDigitField(m);
    TwoDigitField(sec);
    JoinedLayout(Field(h), Field(m), Field(sec));
  }

  /** Three fields without ':' joined by ':' split back into those fields. */
  lemma SplitThree(a: string, b: string, c: string)
    requires ':' !in a && ':' !in b && ':' !in c
    ensures Split(a + ":" + b + ":" + c, ':') == [a, b, c]
  {
    assert a + ":" + b + ":" + c == a + [':'] + (b + [':'] + c);
    SplitAfterField(a, ':', b + [':'] + c);
    SplitAfterField(b, ':', c);
    SplitNoSeparator(c, ':');
  }

  /** A run of digits holds no ':'. */
  lemma DigitsHoldNoColon(a: string)
    requires AllDigits(a)
    ensures ':' !in a
  {
  }

  /** Three non-empty runs of digits joined by ':' read back as
      a * 3600 + b * 60 + c. */
  lemma ParseJoined(a: string, b: string, c: string)
    requires |a| > 0 && |b| > 0 && |c| > 0
    requires AllDigits(a) && AllDigits(b) && AllDigits(c)
    ensures ParseDuration(a + ":" + b + ":" + c)
            == Some(ParseDecimal(a) * 3600 + ParseDecimal(b) * 60 + ParseDecimal(c))
  {
    DigitsHoldNoColon(a);
    DigitsHoldNoColon(b);
    DigitsHoldNoColon(c);
    SplitThree(a, b, c);
    ParseSplit(a + ":" + b + ":" + c, a, b, c);
  }

  /** `ParseDuration` on a text that splits into three runs of digits. */
  lemma ParseSplit(r: string, a: string, b: string, c: string)
    requires Split(r, ':') == [a, b, c]
    requires |a| > 0 && |b| > 0 && |c| > 0
    requires AllDigits(a) && AllDigits(b) && AllDigits(c)
    ensures ParseDuration(r) == Some(ParseDecimal(a) * 3600 + ParseDecimal(b) * 60 + ParseDecimal(c))
  {
    ReadThreeFields(a, b, c);
  }

  lemma ReadThreeFields(a: string, b: string, c: string)
    requires |a| > 0 && |b| > 0 && |c| > 0
    requires AllDigits(a) && AllDigits(b) && AllDigits(c)
    ensures ReadFields([a, b, c]) == Some(ParseDecimal(a) * 3600 + ParseDecimal(b) * 60 + ParseDecimal(c))
  {
    var f := [a, b, c];
    assert |f| == 3 && f[0] == a && f[1] == b && f[2] == c;
  }

  /** Three joined fields of non-negative numbers read back as
      h * 3600 + m * 60 + sec. */
  lemma ParseFields(h: nat, m: nat, sec: nat)
    ensures ParseDuration(Field(h) + ":" + Field(m) + ":" + Field(sec)) == Some(h * 3600 + m * 60 + sec)
  {
    FieldReadsBack(h);
    FieldReadsBack(m);
    FieldReadsBack(sec);
    ParseJoined(Field(h), Field(m), Field(sec));
  }

  /** A field for a value below ten gets one leading zero. */
  lemma FieldOneDigit(v: nat)
    requires v < 10
    ensures Field(v) == ['0', DigitChar(v)]
  {
    assert IntToString(v) == [DigitChar(v)];
  }

  lemma FieldZero()
    ensures Field(0) == "00"
  {
    FieldOneDigit(0);
  }

  lemma FieldOne()
    ensures Field(1) == "01"
  {
    FieldOneDigit(1);
  }

  /** `FormatDuration(s)` from the texts of its three fields. */
  lemma FormatFromFields(s: int, hours: string, minutes: string, seconds: string)
    requires Field(s / 3600) == hours
    requires Field(JsRem(s, 3600) / 60) == minutes
    requires Field(JsRem(s, 60)) == seconds
    ensures FormatDuration(s) == hours + ":" + minutes + ":" + seconds
  {
  }

  /** The hours, minutes and seconds `FormatDuration` finds in
      h * 3600 + m * 60 + sec, for minutes and seconds below 60. */
  lemma HmsOf(s: int, h: nat, m: nat, sec: nat)
    requires m < 60 && sec < 60 && s == h * 3600 + m * 60 + sec
    ensures s / 3600 == h && JsRem(s, 3600) / 60 == m && JsRem(s, 60) == sec
  {
    assert s % 3600 == m * 60 + sec;
    assert s == (h * 60 + m) * 60 + sec;
  }

  /** The fields `FormatDuration` computes for -1. */
  lemma MinusOneParts()
    ensures -1 / 3600 == -1 && JsRem(-1, 3600) / 60 == -1 && JsRem(-1, 60) == -1
  {
  }

  lemma FieldTwentyFive()
    ensures Field(25) == "25"
  {
    assert NatToDecimal(25) == NatToDecimal(2) + [DigitChar(5)];
  }

  lemma FieldHundred()
    ensures Field(100) == "100"
  {
    assert NatToDecimal(10) == NatToDecimal(1) + [DigitChar(0)];
    assert NatToDecimal(100) == NatToDecimal(10) + [DigitChar(0)];
  }

  lemma FieldMinusOne()
    ensures Field(-1) == "-1"
  {
    assert IntToString(-1) == "-1";
  }

  /** Zero seconds. */
  lemma FormatDurationZero()
    ensures FormatDuration(0) == "00:00:00"
  {
    HmsOf(0, 0, 0, 0);
    FieldZero();
    FormatFromFields(0, "00", "00", "00");
  }

  /** One hour. */
  lemma FormatDurationOneHour()
    ensures FormatDuration(3600) == "01:00:00"
  {
    HmsOf(3600, 1, 0, 0);
    FieldZero();
    FieldOne();
    FormatFromFields(3600, "01", "00", "00");
  }

  /** Hours are not reduced modulo 24: a day and an hour, a minute and a
      second. */
  lemma FormatDurationPastOneDay()
    ensures FormatDuration(90061) == "25:01:01"
  {
    HmsOf(90061, 25, 1, 1);
    FieldOne();
    FieldTwentyFive();
    FormatFromFields(90061, "25", "01", "01");
  }

  /** The hours field grows past two digits rather than being cut. */
  lemma FormatDurationHundredHours()
    ensures FormatDuration(360000) == "100:00:00"
  {
    HmsOf(360000, 100, 0, 0);
    FieldZero();
    FieldHundred();
    FormatFromFields(360000, "100", "00", "00");
  }

  /** A negative input (a negative total, which an un-clamped stop can
      produce) gives negative fields: -1 second formats as "-1:-1:-1". */
  lemma FormatDurationNegative()
    ensures FormatDuration(-1) == "-1:-1:-1"
  {
    MinusOneParts();
    FieldMinusOne();
    FormatFromFields(-1, "-1", "-1", "-1");
  }

  /** One hour, one minute and one second between two truthy timestamps. */
  lemma CalculateDurationExample(t0: int)
    requires t0 != 0 && t0 + 3661000 != 0
    ensures CalculateDuration(Some(t0), Some(t0 + 3661000)) == 3661
    ensures FormatDuration(CalculateDuration(Some(t0), Some(t0 + 3661000))) == "01:01:01"
  {
    assert CalculateDuration(Some(t0), Some(t0 + 3661000)) == 3661;
    HmsOf(3661, 1, 1, 1);
    FieldOne();
    FormatFromFields(3661, "01", "01", "01");
  }
}
