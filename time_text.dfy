/**
 * The text form of durations used by the timer component: `parseTimeToSeconds`,
 * which reads the "minutes:seconds" text typed into a duration field, and
 * `formatTime` / `formatTimeInput`, which render a number of seconds as `MM:SS`.
 *
 * JavaScript's `parseInt`, `Number.prototype.toString`, `String.prototype.split`,
 * `padStart`, `Math.floor` and `%` are written out here on unbounded integers.
 */
module TimeText {
  import opened Wrappers

  // ---------------------------------------------------------------------------
  // Decimal digits

  predicate IsDigit(c: char) { '0' <= c <= '9' }

  predicate AllDigits(s: string) { forall i :: 0 <= i < |s| ==> IsDigit(s[i]) }

  function DigitValue(c: char): (d: nat)
    requires IsDigit(c)
    ensures d < 10
  {
    c as int - '0' as int
  }

  function DigitChar(d: nat): (c: char)
    requires d < 10
    ensures IsDigit(c) && DigitValue(c) == d
  {
    ('0' as int + d) as char
  }

  /** The number a string of decimal digits denotes, most significant digit first. */
  function DigitsValue(ds: string): nat
    requires AllDigits(ds)
  {
    if ds == [] then 0 else DigitsValue(ds[..|ds| - 1]) * 10 + DigitValue(ds[|ds| - 1])
  }

  function Zeros(k: nat): (z: string)
    ensures |z| == k && forall i :: 0 <= i < k ==> z[i] == '0'
  {
    if k == 0 then [] else ['0'] + Zeros(k - 1)
  }

  /** A leading '0' does not change the value of a digit string. */
  lemma {:induction false} LeadingZeroIgnored(ds: string)
    requires AllDigits(ds)
    ensures AllDigits(['0'] + ds) && DigitsValue(['0'] + ds) == DigitsValue(ds)
  {
    var z := ['0'] + ds;
    if ds == [] {
      assert z[..0] == [];
    } else {
      var init := ds[..|ds| - 1];
      LeadingZeroIgnored(init);
      assert z[..|z| - 1] == ['0'] + init;
    }
  }

  lemma {:induction false} LeadingZerosIgnored(k: nat, ds: string)
    requires AllDigits(ds)
    ensures AllDigits(Zeros(k) + ds) && DigitsValue(Zeros(k) + ds) == DigitsValue(ds)
  {
    if k > 0 {
      assert Zeros(k) == ['0'] + Zeros(k - 1);
      LeadingZerosIgnored(k - 1, ds);
      LeadingZeroIgnored(Zeros(k - 1) + ds);
      assert Zeros(k) + ds == ['0'] + (Zeros(k - 1) + ds);
    } else {
      assert Zeros(k) + ds == ds;
    }
  }

  // ---------------------------------------------------------------------------
  // Number to text

  /** `n.toString()` for a non-negative integer below 1e21: the shortest decimal form. */
  function NatToString(n: nat): string
  {
    if n < 10 then [DigitChar(n)] else NatToString(n / 10) + [DigitChar(n % 10)]
  }

  /** `n.toString()` is a non-empty digit string denoting `n`, with no leading
      zero unless `n` is 0, one digit exactly below 10 and at most two
      exactly below 100. */
  lemma {:induction false} NatToStringDigits(n: nat)
    ensures var r := NatToString(n);
      && |r| >= 1 && AllDigits(r) && DigitsValue(r) == n
      && (r[0] == '0') == (n == 0)
      && (|r| == 1) == (n < 10)
      && (|r| <= 2) == (n < 100)
  {
    if n >= 10 {
      var r := NatToString(n);
      NatToStringDigits(n / 10);
      assert r[..|r| - 1] == NatToString(n / 10);
    }
  }

  /** `i.toString()` for an integer: a minus sign in front of the magnitude. */
  function IntToString(i: int): string
  {
    if i < 0 then "-" + NatToString(-i) else NatToString(i)
  }

  /** `s.padStart(2, '0')`: zeros in front until the text is two characters long. */
  function Pad2(s: string): (r: string)
    ensures |r| == if |s| < 2 then 2 else |s|
  {
    if |s| >= 2 then s else Zeros(2 - |s|) + s
  }

  /** Padding only puts zeros in front: the text ends with `s`. */
  lemma Pad2Shape(s: string)
    ensures var r := Pad2(s);
      && r[|r| - |s|..] == s
      && forall i :: 0 <= i < |r| - |s| ==> r[i] == '0'
  {
  }

  lemma PadDigits(ds: string)
    requires AllDigits(ds)
    ensures AllDigits(Pad2(ds)) && DigitsValue(Pad2(ds)) == DigitsValue(ds)
  {
    if |ds| < 2 {
      LeadingZerosIgnored(2 - |ds|, ds);
    }
  }

  /** `Math.floor(t / 60)`: for a positive divisor Dafny's `/` already rounds down. */
  function MinutesPart(t: int): (m: int)
    ensures 60 * m <= t < 60 * m + 60
  {
    t / 60
  }

  /** `t % 60` in JavaScript: the remainder carries the sign of `t`. */
  function SecondsPart(t: int): (s: int)
    ensures -60 < s < 60
    ensures t >= 0 ==> s >= 0
    ensures t <= 0 ==> s <= 0
    ensures (t - s) % 60 == 0
  {
    if t >= 0 then
      assert t - t % 60 == 60 * (t / 60);
      t % 60
    else
      assert t + (-t) % 60 == -60 * ((-t) / 60);
      -((-t) % 60)
  }

  /** `formatTime`: minutes and seconds, each zero-padded to two characters. */
  function FormatTime(timeInSeconds: int): (r: string)
    ensures |r| >= 5
  {
    Pad2(IntToString(MinutesPart(timeInSeconds))) + ":" + Pad2(IntToString(SecondsPart(timeInSeconds)))
  }

  /** `formatTimeInput`: the text shown in a duration field; the component spells
      out the same computation a second time. */
  function FormatTimeInput(timeInSeconds: int): (r: string)
    ensures r == FormatTime(timeInSeconds)
  {
    var minutes := MinutesPart(timeInSeconds);
    var seconds := SecondsPart(timeInSeconds);
    Pad2(IntToString(minutes)) + ":" + Pad2(IntToString(seconds))
  }

  lemma FormatNonNegative(t: int)
    requires t >= 0
    ensures FormatTime(t) == Pad2(NatToString(t / 60)) + ":" + Pad2(NatToString(t % 60))
  {
    assert MinutesPart(t) == t / 60 >= 0;
    assert SecondsPart(t) == t % 60;
  }

  /** The text before the last three characters of a rendered time. */
  function MinutesField(r: string): string
    requires |r| >= 3
  {
    r[..|r| - 3]
  }

  /** The last two characters of a rendered time. */
  function SecondsField(r: string): string
    requires |r| >= 2
  {
    r[|r| - 2..]
  }

  /** For a non-negative time the text is `minutes ":" seconds`, both plain digit
      fields denoting `t / 60` and `t % 60`; the seconds field is exactly two
      characters and the whole text is five characters exactly when the minutes
      fit in two digits. */
  lemma FormatShape(t: int)
    requires t >= 0
    ensures var r := FormatTime(t);
      && r == MinutesField(r) + ":" + SecondsField(r)
      && AllDigits(MinutesField(r)) && AllDigits(SecondsField(r))
      && DigitsValue(MinutesField(r)) == t / 60
      && DigitsValue(SecondsField(r)) == t % 60
      && (|r| == 5 <==> t < 6000)
  {
    var m, s := NatToString(t / 60), NatToString(t % 60);
    var mm, ss := Pad2(m), Pad2(s);
    NatToStringDigits(t / 60);
    NatToStringDigits(t % 60);
    PadDigits(m);
    PadDigits(s);
    FormatNonNegative(t);
    ColonFields(mm, ss);
    assert |mm| == 2 <==> t / 60 < 100;
  }

  /** A number below 100 renders as exactly two digit characters. */
  lemma TwoDigitText(n: nat)
    requires n < 100
    ensures Pad2(NatToString(n)) == [DigitChar(n / 10), DigitChar(n % 10)]
  {
    if n < 10 {
      assert Zeros(1) == [DigitChar(0)];
    } else {
      assert NatToString(n / 10) == [DigitChar(n / 10)];
    }
  }

  /** Below 100 minutes the text is exactly `MM:SS`, two digits on each side. */
  lemma FormatFixedWidth(t: int)
    requires 0 <= t < 6000
    ensures var m, s := t / 60, t % 60;
      FormatTime(t) == [DigitChar(m / 10), DigitChar(m % 10), ':', DigitChar(s / 10), DigitChar(s % 10)]
  {
    var m, s := t / 60, t % 60;
    FormatNonNegative(t);
    TwoDigitText(m);
    TwoDigitText(s);
    FiveChars(DigitChar(m / 10), DigitChar(m % 10), DigitChar(s / 10), DigitChar(s % 10));
  }

  lemma FiveChars(a: char, b: char, c: char, d: char)
    ensures [a, b] + ":" + [c, d] == [a, b, ':', c, d]
  {
  }

  lemma ColonFields(mm: string, ss: string)
    requires |ss| == 2
    ensures var r := mm + ":" + ss;
      |r| == |mm| + 3 && MinutesField(r) == mm && SecondsField(r) == ss
  {
    var r := mm + ":" + ss;
    assert r[..|r| - 3] == mm;
    assert r[|r| - 2..] == ss;
  }

  // ---------------------------------------------------------------------------
  // Text to number

  /** `s.split(sep)`: the maximal runs between separators, in order; the empty
      text gives one empty part. */
  function Split(s: string, sep: char): (parts: seq<string>)
    ensures |parts| >= 1
    ensures forall i :: 0 <= i < |parts| ==> sep !in parts[i]
    decreases |s|
  {
    if s == [] then [[]]
    else
      var rest := Split(s[1..], sep);
      if s[0] == sep then [[]] + rest else [[s[0]] + rest[0]] + rest[1..]
  }

  /** `parts.join(sep)`, the inverse of Split. */
  function Join(parts: seq<string>, sep: char): string
  {
    if |parts| == 0 then []
    else if |parts| == 1 then parts[0]
    else parts[0] + [sep] + Join(parts[1..], sep)
  }

  lemma {:induction false} SplitJoin(s: string, sep: char)
    ensures Join(Split(s, sep), sep) == s
    decreases |s|
  {
    if s != [] {
      var rest := Split(s[1..], sep);
      SplitJoin(s[1..], sep);
      if s[0] == sep {
        assert Split(s, sep)[1..] == rest;
      } else {
        var parts := Split(s, sep);
        if |rest| == 1 {
          assert parts == [[s[0]] + rest[0]];
        } else {
          assert parts[1..] == rest[1..];
          assert Join(rest, sep) == rest[0] + [sep] + Join(rest[1..], sep);
        }
      }
    }
  }

  lemma {:induction false} SplitNoSeparator(s: string, sep: char)
    requires sep !in s
    ensures Split(s, sep) == [s]
    decreases |s|
  {
    if s != [] {
      SplitNoSeparator(s[1..], sep);
      assert [s[0]] + s[1..] == s;
    }
  }

  lemma {:induction false} SplitAtFirst(a: string, b: string, sep: char)
    requires sep !in a
    ensures Split(a + [sep] + b, sep) == [a] + Split(b, sep)
    decreases |a|
  {
    var s := a + [sep] + b;
    if a == [] {
      assert s[1..] == b;
    } else {
      SplitAtFirst(a[1..], b, sep);
      assert s[1..] == a[1..] + [sep] + b;
      assert [a[0]] + a[1..] == a;
    }
  }

  lemma {:induction false} SplitKeepsAbsence(s: string, sep: char, c: char)
    requires c !in s
    ensures forall i :: 0 <= i < |Split(s, sep)| ==> c !in Split(s, sep)[i]
    decreases |s|
  {
    if s != [] {
      SplitKeepsAbsence(s[1..], sep, c);
    }
  }

  /** The characters `parseInt` skips before a number: the WhiteSpace and
      LineTerminator characters of ECMA-262. */
  predicate IsJsSpace(c: char)
  {
    c in JsSpaces || '\U{2000}' <= c <= '\U{200A}'
  }

  const JsSpaces: set<char> := {
    '\t', '\n', '\U{B}', '\U{C}', '\r', ' ', '\U{A0}', '\U{1680}',
    '\U{2028}', '\U{2029}', '\U{202F}', '\U{205F}', '\U{3000}', '\U{FEFF}'
  }

  function TrimStart(s: string): string
  {
    if s != [] && IsJsSpace(s[0]) then TrimStart(s[1..]) else s
  }

  /** `parseInt` drops exactly the white space in front: what is left is a
      suffix of the text that does not start with white space. */
  lemma {:induction false} TrimStartShape(s: string)
    ensures var r := TrimStart(s);
      && |r| <= |s| && r == s[|s| - |r|..]
      && (r == [] || !IsJsSpace(r[0]))
      && forall i :: 0 <= i < |s| - |r| ==> IsJsSpace(s[i])
  {
    if s != [] && IsJsSpace(s[0]) {
      var r := TrimStart(s[1..]);
      assert TrimStart(s) == r;
      TrimStartShape(s[1..]);
      SkippedSpace(s, |s| - |r|);
    }
  }

  /** A space in front of spaces: a longer run of white space. */
  lemma SkippedSpace(s: string, k: nat)
    requires 1 <= k <= |s| && IsJsSpace(s[0])
    requires forall i :: 0 <= i < k - 1 ==> IsJsSpace(s[1..][i])
    ensures s[1..][k - 1..] == s[k..]
    ensures forall i :: 0 <= i < k ==> IsJsSpace(s[i])
  {
    forall i | 0 < i < k
      ensures IsJsSpace(s[i])
    {
      assert s[i] == s[1..][i - 1];
    }
  }

  /** The length of the longest prefix of `s` made of decimal digits. */
  function LeadingDigits(s: string): (k: nat)
    ensures k <= |s|
    ensures forall i :: 0 <= i < k ==> IsDigit(s[i])
    ensures k < |s| ==> !IsDigit(s[k])
  {
    if s != [] && IsDigit(s[0]) then 1 + LeadingDigits(s[1..]) else 0
  }

  /** The value of the digits at the front of `s`, or None (NaN) when there are none. */
  function ParseDigits(s: string): (r: Option<int>)
    ensures r.None? <==> (s == [] || !IsDigit(s[0]))
    ensures r.Some? ==> r.value >= 0
  {
    var k := LeadingDigits(s);
    if k == 0 then None else Some(DigitsValue(s[..k]))
  }

  function Negate(o: Option<int>): Option<int>
  {
    match o
    case None => None
    case Some(v) => Some(-v)
  }

  /** `parseInt(s, 10)`: leading white space, an optional sign, then as many
      decimal digits as there are; None stands for NaN. */
  function ParseInt(s: string): Option<int>
  {
    var t := TrimStart(s);
    if t != [] && t[0] == '-' then Negate(ParseDigits(t[1..]))
    else if t != [] && t[0] == '+' then ParseDigits(t[1..])
    else ParseDigits(t)
  }

  /** Only a minus sign in the text makes `parseInt` negative. */
  lemma ParseIntNegativeNeedsMinus(s: string)
    ensures ParseInt(s).Some? && ParseInt(s).value < 0 ==> '-' in s
  {
    TrimStartShape(s);
    var t := TrimStart(s);
    if t != [] && t[0] == '-' {
      assert s[|s| - |t|] == '-';
    }
  }

  lemma ParseIntOfDigits(ds: string)
    requires ds != [] && AllDigits(ds)
    ensures ParseInt(ds) == Some(DigitsValue(ds))
  {
    assert !IsJsSpace(ds[0]);
    assert TrimStart(ds) == ds;
    ParseDigitsOfDigits(ds);
  }

  /** parseInt skips white space in front of the number. */
  lemma ParseIntSkipsSpace(c: char, s: string)
    requires IsJsSpace(c)
    ensures ParseInt([c] + s) == ParseInt(s)
  {
    assert ([c] + s)[1..] == s;
  }

  /** parseInt reads the digits at the front and ignores whatever follows them. */
  lemma ParseIntDigitPrefix(ds: string, rest: string)
    requires ds != [] && AllDigits(ds)
    requires rest == [] || !IsDigit(rest[0])
    ensures ParseInt(ds + rest) == Some(DigitsValue(ds))
  {
    var s := ds + rest;
    assert !IsJsSpace(s[0]);
    assert TrimStart(s) == s;
    assert |ds| < |s| ==> s[|ds|] == rest[0];
    assert s[..|ds|] == ds;
  }

  lemma TrimStartNonSpace(s: string)
    requires s != [] && (s[0] == '-' || IsDigit(s[0]))
    ensures TrimStart(s) == s
  {
    assert !IsJsSpace(s[0]);
  }

  /** A minus sign in front of the digits negates the value. */
  lemma ParseIntNegative(ds: string)
    requires ds != [] && AllDigits(ds)
    ensures ParseInt("-" + ds) == Some(-(DigitsValue(ds) as int))
  {
    var s := "-" + ds;
    assert s[0] == '-';
    TrimStartNonSpace(s);
    assert s[1..] == ds;
    assert ParseInt(s) == Negate(ParseDigits(ds));
    ParseDigitsOfDigits(ds);
  }

  lemma ParseDigitsOfDigits(ds: string)
    requires ds != [] && AllDigits(ds)
    ensures ParseDigits(ds) == Some(DigitsValue(ds))
  {
    assert LeadingDigits(ds) == |ds|;
    assert ds[..|ds|] == ds;
  }

  /** With no digit after the optional sign the result is NaN. */
  lemma ParseIntNaN(s: string)
    requires var t := TrimStart(s);
      var u := if t != [] && (t[0] == '-' || t[0] == '+') then t[1..] else t;
      u == [] || !IsDigit(u[0])
    ensures ParseInt(s) == None
  {
  }

  /** `x || 0` on a parseInt result: NaN becomes 0 (and 0 stays 0). */
  function OrZero(o: Option<int>): int
  {
    match o
    case None => 0
    case Some(v) => v
  }

  /** `parseTimeToSeconds`: split on ':', read the first part as minutes and the
      second as seconds, a missing or unreadable part counting as 0. */
  function ParseTimeToSeconds(timeString: string): int
  {
    var timeArray := Split(timeString, ':');
    var minutes := OrZero(ParseInt(timeArray[0]));
    var seconds := if |timeArray| > 1 then OrZero(ParseInt(timeArray[1])) else 0;
    minutes * 60 + seconds
  }

  lemma ParseTwoFields(a: string, b: string)
    requires ':' !in a && ':' !in b
    ensures ParseTimeToSeconds(a + ":" + b) == OrZero(ParseInt(a)) * 60 + OrZero(ParseInt(b))
  {
    SplitAtFirst(a, b, ':');
    SplitNoSeparator(b, ':');
  }

  /** Fields after the second are ignored. */
  lemma ParseIgnoresExtraFields(a: string, b: string, rest: string)
    requires ':' !in a && ':' !in b
    ensures ParseTimeToSeconds(a + ":" + b + ":" + rest) == ParseTimeToSeconds(a + ":" + b)
  {
    SplitAtFirst(a, b + ":" + rest, ':');
    assert a + ":" + b + ":" + rest == a + [':'] + (b + ":" + rest);
    SplitAtFirst(b, rest, ':');
    assert b + ":" + rest == b + [':'] + rest;
    ParseTwoFields(a, b);
  }

  /** A single field is read as minutes. */
  lemma ParseSingleField(a: string)
    requires ':' !in a
    ensures ParseTimeToSeconds(a) == OrZero(ParseInt(a)) * 60
  {
    SplitNoSeparator(a, ':');
  }

  /** Without a minus sign the text never yields a negative duration. */
  lemma ParseNonNegative(timeString: string)
    requires '-' !in timeString
    ensures ParseTimeToSeconds(timeString) >= 0
  {
    var timeArray := Split(timeString, ':');
    SplitKeepsAbsence(timeString, ':', '-');
    ParseIntNegativeNeedsMinus(timeArray[0]);
    if |timeArray| > 1 {
      ParseIntNegativeNeedsMinus(timeArray[1]);
    }
  }

  /** Two digit fields joined by ':' read as minutes and seconds. */
  lemma ParseDigitFields(mm: string, ss: string)
    requires mm != [] && ss != [] && AllDigits(mm) && AllDigits(ss)
    ensures ParseTimeToSeconds(mm + ":" + ss) == DigitsValue(mm) * 60 + DigitsValue(ss)
  {
    assert ':' !in mm && ':' !in ss by { assert !IsDigit(':'); }
    ParseTwoFields(mm, ss);
    ParseIntOfDigits(mm);
    ParseIntOfDigits(ss);
  }

  /** What the duration fields rely on: parsing the formatted text gives the time back. */
  lemma RoundTrip(t: int)
    requires t >= 0
    ensures ParseTimeToSeconds(FormatTime(t)) == t
  {
    var r := FormatTime(t);
    FormatShape(t);
    ParseDigitFields(MinutesField(r), SecondsField(r));
  }

  /** Two fields that are each a minus sign before digits read as the negated
      minutes times 60 plus the negated seconds. */
  lemma ParseNegativeFieldPair(ms: string, ss: string)
    requires ms != [] && AllDigits(ms) && ss != [] && AllDigits(ss)
    ensures ParseTimeToSeconds(("-" + ms) + ":" + ("-" + ss))
            == -60 * DigitsValue(ms) - DigitsValue(ss)
  {
    assert ':' !in "-" + ms by { assert !IsDigit(':'); }
    assert ':' !in "-" + ss by { assert !IsDigit(':'); }
    ParseTwoFields("-" + ms, "-" + ss);
    ParseIntNegative(ms);
    ParseIntNegative(ss);
  }

  /** A negative time that is a whole number of minutes reads back as itself:
      JavaScript's remainder is zero and the seconds field is `00`. */
  lemma NegativeWholeMinutesRoundTrip(k: nat)
    requires k >= 1
    ensures FormatTime(-60 * k) == ("-" + NatToString(k)) + ":" + [DigitChar(0), DigitChar(0)]
    ensures ParseTimeToSeconds(FormatTime(-60 * k)) == -60 * k
  {
    var t := -60 * k;
    var ms, zz := NatToString(k), [DigitChar(0), DigitChar(0)];
    NatToStringDigits(k);
    assert MinutesPart(t) == -(k as int);
    assert SecondsPart(t) == 0;
    assert Pad2(IntToString(-(k as int))) == "-" + ms;
    assert Pad2(IntToString(0)) == zz;
    assert FormatTime(t) == ("-" + ms) + ":" + zz;
    assert ':' !in "-" + ms by { assert !IsDigit(':'); }
    ParseTwoFields("-" + ms, zz);
    ParseIntNegative(ms);
    ParseIntOfDigits(zz);
  }

  /** A negative time that is not a whole number of minutes shows both fields
      negative, the minutes rounded down by `Math.floor` and the seconds keeping
      the sign of the time. */
  lemma FormatNegativeFields(t: int)
    requires t < 0 && t % 60 != 0
    ensures FormatTime(t) == ("-" + NatToString((-t) / 60 + 1)) + ":" + ("-" + NatToString((-t) % 60))
  {
    var q, r := (-t) / 60, (-t) % 60;
    assert -t == 60 * q + r && 0 < r < 60;
    assert SecondsPart(t) == -r;
    assert MinutesPart(t) == -q - 1;
    NatToStringDigits(q + 1);
    NatToStringDigits(r);
  }

  /** Every other negative time reads back 60 seconds lower. */
  lemma NegativeTimeReadsBackLower(t: int)
    requires t < 0 && t % 60 != 0
    ensures ParseTimeToSeconds(FormatTime(t)) == t - 60
  {
    var q, r := (-t) / 60, (-t) % 60;
    FormatNegativeFields(t);
    NatToStringDigits(q + 1);
    NatToStringDigits(r);
    ParseNegativeFieldPair(NatToString(q + 1), NatToString(r));
  }
}
