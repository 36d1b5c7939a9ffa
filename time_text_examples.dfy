/** Worked values of the duration text functions, one per lemma. */
module TimeTextExamples {
  import opened Wrappers
  import opened TimeText

  lemma FormatZero() ensures FormatTime(0) == "00:00"
  {
    var r := FormatTime(0);
    FormatFixedWidth(0);
    assert r == [DigitChar(0), DigitChar(0), ':', DigitChar(0), DigitChar(0)];
  }

  lemma FormatSeconds() ensures FormatTime(59) == "00:59"
  {
    var r := FormatTime(59);
    FormatFixedWidth(59);
    assert r == [DigitChar(0), DigitChar(0), ':', DigitChar(5), DigitChar(9)];
  }

  lemma FormatMinuteAndSecond() ensures FormatTime(61) == "01:01"
  {
    var r := FormatTime(61);
    FormatFixedWidth(61);
    assert r == [DigitChar(0), DigitChar(1), ':', DigitChar(0), DigitChar(1)];
  }

  lemma FormatDefaultBreak() ensures FormatTime(300) == "05:00"
  {
    var r := FormatTime(300);
    FormatFixedWidth(300);
    assert r == [DigitChar(0), DigitChar(5), ':', DigitChar(0), DigitChar(0)];
  }

  lemma FormatDefaultWork() ensures FormatTime(1500) == "25:00"
  {
    var r := FormatTime(1500);
    FormatFixedWidth(1500);
    assert r == [DigitChar(2), DigitChar(5), ':', DigitChar(0), DigitChar(0)];
  }

  /** Past 99 minutes the minutes field widens instead of being cut. */
  lemma FormatWide() ensures FormatTime(6000) == "100:00"
  {
    var r := FormatTime(6000);
    FormatNonNegative(6000);
    TwoDigitText(0);
    assert NatToString(10) == [DigitChar(1), DigitChar(0)];
    assert NatToString(100) == [DigitChar(1), DigitChar(0), DigitChar(0)];
    assert r == [DigitChar(1), DigitChar(0), DigitChar(0)] + ":" + [DigitChar(0), DigitChar(0)];
  }

  /** A negative time renders with JavaScript's signs: floor for the minutes and
      a remainder that keeps the sign of the time. */
  lemma FormatNegative() ensures FormatTime(-5) == "-1:-5"
  {
  }

  /** A time between -59 and -1 renders as minus one minute and the time itself
      as the seconds field. */
  lemma FormatNegativeSmall(t: int)
    requires -60 < t < 0
    ensures FormatTime(t) == "-1" + ":" + ("-" + NatToString(-t))
  {
    var ss := "-" + NatToString(-t);
    assert t / 60 == -1;
    assert MinutesPart(t) == -1;
    assert (-t) % 60 == -t;
    assert SecondsPart(t) == t;
    assert IntToString(-1) == "-1";
    assert IntToString(t) == ss;
    assert |ss| >= 2;
  }

  /** The default work duration reads back from its own text. */
  lemma ParseDefaultWork() ensures ParseTimeToSeconds("25:00") == 1500
  {
    FormatDefaultWork();
    RoundTrip(1500);
  }

  lemma ParseShortFields() ensures ParseTimeToSeconds("5:0") == 300
  {
    var mm, ss := [DigitChar(5)], [DigitChar(0)];
    ParseDigitFields(mm, ss);
    assert mm + ":" + ss == "5:0";
  }

  lemma ParseEmpty() ensures ParseTimeToSeconds("") == 0
  {
    ParseSingleField("");
  }

  lemma ParseMinutesOnly() ensures ParseTimeToSeconds("10") == 600
  {
    var ds := [DigitChar(1), DigitChar(0)];
    assert ds == "10";
    ParseSingleField(ds);
    ParseIntOfDigits(ds);
    assert DigitsValue(ds) == 10;
  }

  /** -5 seconds is shown as "-1:-5", which reads as -65: a negative time does
      not read back as itself. */
  lemma NegativeTimeDoesNotRoundTrip()
    ensures ParseTimeToSeconds(FormatTime(-5)) == -65
  {
    NegativeTimeReadsBackLower(-5);
  }

  lemma ParseMinusOne()
    ensures ParseInt("-1") == Some(-1)
  {
    var ds := [DigitChar(1)];
    ParseIntNegative(ds);
    assert "-" + ds == "-1";
  }
}
