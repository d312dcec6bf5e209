/** The time label WhatsApp Web prints under an outgoing message bubble
    ("2:48 PM"), as `send_message` reads it back with `convert_to_24` and
    `convert_to_secs` to decide whether the newest bubble belongs to the
    current send. */
module TimeLabel {
  import opened Py

  /** An hour and minute as `convert_to_24` computes them; nothing forces
      them to be a valid time of day. */
  datatype Clock = Clock(hour: int, minute: int)

  /** What `datetime(year, month, day, hour, minute)` accepts. */
  predicate IsTimeOfDay(c: Clock) {
    0 <= c.hour <= 23 && 0 <= c.minute <= 59
  }

  /** Seconds since midnight; the same-day timestamps the script compares
      differ from this by the (shared) timestamp of midnight. */
  function SecondsOfDay(c: Clock): int {
    c.hour * 3600 + c.minute * 60
  }

  /** `convert_to_24`: the hour is the number before the first ':', plus 12
      when the second-to-last character is 'P' and "12:" occurs nowhere;
      the minute is the number between the first ':' and the first ' '.
      Any `int()` or indexing error is an exception (None). */
  function ConvertTo24(t: string): Option<Clock> {
    var colon := Find(t, ":");
    var n := IntOf(Slice(t, 0, colon));
    var half := At(t, -2);
    var minute := IntOf(Slice(t, colon + 1, Find(t, " ")));
    if n.None? || half.None? || minute.None? then None
    else Some(Clock(Hour24(n.value, half.value, Find(t, "12:") != -1), minute.value))
  }

  /** The hour `convert_to_24` computes from the number `n`, the
      second-to-last character `half`, and whether "12:" occurs. */
  function Hour24(n: int, half: char, twelve: bool): int {
    if half == 'P' && !twelve then n + 12 else n
  }

  /** `convert_to_secs`: strip the label, convert it, and build today's
      timestamp at that hour and minute; `datetime` raises for an hour
      outside 0..23 or a minute outside 0..59. */
  function ConvertToSecs(text: string): (r: Option<int>)
    ensures r.Some? ==> 0 <= r.value < 24 * 3600
    ensures r.Some? <==> ConvertTo24(Strip(text)).Some? && IsTimeOfDay(ConvertTo24(Strip(text)).value)
  {
    var c :- ConvertTo24(Strip(text));
    if IsTimeOfDay(c) then Some(SecondsOfDay(c)) else None
  }

  /** Comparing two same-day, minute-truncated timestamps is comparing
      (hour, minute) pairs lexicographically. */
  lemma SameDayOrderIsLexicographic(a: Clock, b: Clock)
    requires IsTimeOfDay(a) && IsTimeOfDay(b)
    ensures SecondsOfDay(a) >= SecondsOfDay(b) <==>
              a.hour > b.hour || (a.hour == b.hour && a.minute >= b.minute)
  {
    if a.hour > b.hour {
      assert SecondsOfDay(a) >= (b.hour + 1) * 3600;
    } else if a.hour < b.hour {
      assert SecondsOfDay(b) >= (a.hour + 1) * 3600;
    }
  }

  // ---------------------------------------------------------------------
  // Well-formed labels

  /** The hour digits end in "12", which is what makes "12:" occur in a label. */
  predicate EndsIn12(hs: string) {
    |hs| >= 2 && hs[|hs| - 2] == '1' && hs[|hs| - 1] == '2'
  }

  /** A label of the shape `H:MM XM`, with digit strings for H and MM. */
  function Shaped(hs: string, ms: string, half: char): string {
    hs + ":" + ms + " " + [half, 'M']
  }

  /** The minute as the label prints it: two digits, zero-padded. */
  function MinuteDigits(m: nat): (ms: string)
    requires m < 60
    ensures |ms| > 0 && AllDigits(ms)
  {
    if m < 10 then "0" + Decimal(m) else Decimal(m)
  }

  /** Non-empty digit strings for H and MM, and 'A' or 'P' for X. */
  predicate WellShaped(hs: string, ms: string, half: char) {
    |hs| > 0 && AllDigits(hs) && |ms| > 0 && AllDigits(ms) && (half == 'A' || half == 'P')
  }

  /** The label WhatsApp prints for hour `h` (1..12) and minute `m`. */
  function Label(h: nat, m: nat, half: char): string
    requires m < 60
  {
    Shaped(Decimal(h), MinuteDigits(m), half)
  }

  lemma ShapedColon(hs: string, ms: string, half: char)
    requires WellShaped(hs, ms, half)
    ensures Find(Shaped(hs, ms, half), ":") == |hs|
    ensures forall k :: 0 <= k < |Shaped(hs, ms, half)| && Shaped(hs, ms, half)[k] == ':' ==> k == |hs|
  {
    var t := Shaped(hs, ms, half);
    assert t[|hs|] == ':';
    assert forall k :: 0 <= k < |hs| ==> t[k] == hs[k];
    assert forall k :: |hs| < k < |hs| + 1 + |ms| ==> t[k] == ms[k - |hs| - 1];
    OccursAtChar(t, ':', |hs|);
    forall j | 0 <= j < |hs|
      ensures !OccursAt(t, ":", j)
    {
      OccursAtChar(t, ':', j);
    }
    FindFirst(t, ":", |hs|);
  }

  lemma ShapedSpace(hs: string, ms: string, half: char)
    requires WellShaped(hs, ms, half)
    ensures Find(Shaped(hs, ms, half), " ") == |hs| + 1 + |ms|
  {
    var t := Shaped(hs, ms, half);
    var k := |hs| + 1 + |ms|;
    assert t[k] == ' ';
    assert forall j :: 0 <= j < |hs| ==> t[j] == hs[j];
    assert forall j :: |hs| < j < k ==> t[j] == ms[j - |hs| - 1];
    OccursAtChar(t, ' ', k);
    forall j | 0 <= j < k
      ensures !OccursAt(t, " ", j)
    {
      OccursAtChar(t, ' ', j);
    }
    FindFirst(t, " ", k);
  }

  /** "12:" occurs in a well-formed label exactly when its hour digits end in 12. */
  lemma ShapedTwelve(hs: string, ms: string, half: char)
    requires WellShaped(hs, ms, half)
    ensures Find(Shaped(hs, ms, half), "12:") != -1 <==> EndsIn12(hs)
  {
    var t := Shaped(hs, ms, half);
    ShapedColon(hs, ms, half);
    FindSpec(t, "12:");
    if EndsIn12(hs) {
      var k := |hs| - 2;
      assert t[k..k + 3] == "12:";
      assert OccursAt(t, "12:", k);
    } else {
      forall k | 0 <= k
        ensures !OccursAt(t, "12:", k)
      {
        if k + 3 <= |t| {
          var w := t[k..k + 3];
          assert w[0] == t[k] && w[1] == t[k + 1] && w[2] == t[k + 2];
          if t[k + 2] == ':' {
            assert k + 2 == |hs|;
            assert t[k] == hs[|hs| - 2] && t[k + 1] == hs[|hs| - 1];
          }
        }
      }
    }
  }

  /** `convert_to_24` succeeds once its three lookups succeed: the number
      before the first ':', the character before last, and the number
      between the first ':' and the first ' '. */
  lemma ConvertTo24FromParts(t: string, n: int, half: char, twelve: bool, minute: int)
    requires IntOf(Slice(t, 0, Find(t, ":"))) == Some(n)
    requires At(t, -2) == Some(half)
    requires twelve == (Find(t, "12:") != -1)
    requires IntOf(Slice(t, Find(t, ":") + 1, Find(t, " "))) == Some(minute)
    ensures ConvertTo24(t).Some?
    ensures ConvertTo24(t).value.hour == if half == 'P' && !twelve then n + 12 else n
    ensures ConvertTo24(t).value.minute == minute
  {
    assert ConvertTo24(t) == Some(Clock(Hour24(n, half, twelve), minute));
  }

  /** In an `H:MM XM` label, the text before the first ':' is H. */
  lemma ShapedHourText(hs: string, ms: string, half: char)
    requires WellShaped(hs, ms, half)
    ensures Slice(Shaped(hs, ms, half), 0, Find(Shaped(hs, ms, half), ":")) == hs
  {
    var t := Shaped(hs, ms, half);
    ShapedColon(hs, ms, half);
    assert t[..|hs|] == hs by {
      assert t == hs + (":" + ms + " " + [half, 'M']);
    }
  }

  /** In an `H:MM XM` label, the text before the first ':' reads as H. */
  lemma ShapedHour(hs: string, ms: string, half: char)
    requires WellShaped(hs, ms, half)
    ensures IntOf(Slice(Shaped(hs, ms, half), 0, Find(Shaped(hs, ms, half), ":"))) == Some(DecimalValue(hs))
  {
    ShapedHourText(hs, ms, half);
    IntOfDigits(hs);
  }

  /** In an `H:MM XM` label, the text between the first ':' and the first
      space is MM. */
  lemma ShapedMinuteText(hs: string, ms: string, half: char)
    requires WellShaped(hs, ms, half)
    ensures Slice(Shaped(hs, ms, half), Find(Shaped(hs, ms, half), ":") + 1, Find(Shaped(hs, ms, half), " ")) == ms
  {
    var t := Shaped(hs, ms, half);
    var a := |hs| + 1;
    ShapedColon(hs, ms, half);
    ShapedSpace(hs, ms, half);
    assert t[a..a + |ms|] == ms by {
      assert t == (hs + ":") + ms + (" " + [half, 'M']);
    }
  }

  /** In an `H:MM XM` label, the text between the first ':' and the first
      space reads as MM. */
  lemma ShapedMinute(hs: string, ms: string, half: char)
    requires WellShaped(hs, ms, half)
    ensures IntOf(Slice(Shaped(hs, ms, half), Find(Shaped(hs, ms, half), ":") + 1, Find(Shaped(hs, ms, half), " ")))
              == Some(DecimalValue(ms))
  {
    ShapedMinuteText(hs, ms, half);
    IntOfDigits(ms);
  }

  /** In an `H:MM XM` label, the second-to-last character is X. */
  lemma ShapedHalf(hs: string, ms: string, half: char)
    ensures At(Shaped(hs, ms, half), -2) == Some(half)
  {
  }

  /** The three lookups of `convert_to_24` on an `H:MM XM` label. */
  lemma ShapedParts(hs: string, ms: string, half: char)
    requires WellShaped(hs, ms, half)
    ensures var t := Shaped(hs, ms, half);
            && IntOf(Slice(t, 0, Find(t, ":"))) == Some(DecimalValue(hs))
            && At(t, -2) == Some(half)
            && EndsIn12(hs) == (Find(t, "12:") != -1)
            && IntOf(Slice(t, Find(t, ":") + 1, Find(t, " "))) == Some(DecimalValue(ms))
  {
    ShapedHour(hs, ms, half);
    ShapedMinute(hs, ms, half);
    ShapedTwelve(hs, ms, half);
    ShapedHalf(hs, ms, half);
  }

  /** `convert_to_24` on any well-formed, stripped label `H:MM XM`: the
      hour is H, plus 12 exactly when X is 'P' and H does not end in 12; the
      minute is MM. */
  lemma ConvertTo24Shaped(hs: string, ms: string, half: char)
    requires WellShaped(hs, ms, half)
    ensures ConvertTo24(Shaped(hs, ms, half)).Some?
    ensures ConvertTo24(Shaped(hs, ms, half)).value.hour ==
              if half == 'P' && !EndsIn12(hs) then DecimalValue(hs) + 12 else DecimalValue(hs)
    ensures ConvertTo24(Shaped(hs, ms, half)).value.minute == DecimalValue(ms)
  {
    ShapedParts(hs, ms, half);
    ConvertTo24FromParts(Shaped(hs, ms, half), DecimalValue(hs), half, EndsIn12(hs), DecimalValue(ms));
  }

  /** The padded minute reads back as the minute. */
  lemma MinuteDigitsValue(m: nat)
    requires m < 60
    ensures DecimalValue(MinuteDigits(m)) == m
  {
    DecimalRoundTrip(m);
    if m < 10 {
      var ms := MinuteDigits(m);
      assert ms[..|ms| - 1] == "0";
    }
  }

  /** The hour digits read back as the hour, and end in 12 only for 12. */
  lemma HourDigits(h: nat)
    requires 1 <= h <= 12
    ensures DecimalValue(Decimal(h)) == h
    ensures EndsIn12(Decimal(h)) <==> h == 12
  {
    DecimalRoundTrip(h);
    if h >= 10 {
      assert h / 10 == 1;
      assert Decimal(1) == [DigitChar(1)];
      assert Decimal(h) == Decimal(1) + [DigitChar(h % 10)];
    }
  }

  /** `convert_to_24` on the label of a 12-hour clock time: afternoon hours
      1..11 gain 12, while 12 stays 12 whether it is AM or PM. */
  lemma ConvertTo24OfLabel(h: nat, m: nat, half: char)
    requires 1 <= h <= 12 && m < 60
    requires half == 'A' || half == 'P'
    ensures ConvertTo24(Label(h, m, half)).Some?
    ensures ConvertTo24(Label(h, m, half)).value.hour == if half == 'P' && h != 12 then h + 12 else h
    ensures ConvertTo24(Label(h, m, half)).value.minute == m
  {
    MinuteDigitsValue(m);
    HourDigits(h);
    ConvertTo24Shaped(Decimal(h), MinuteDigits(m), half);
  }

  /** The label of any 12-hour clock time, however padded with whitespace,
      converts to the seconds of a valid time of day. */
  lemma ConvertToSecsOfLabel(pre: string, h: nat, m: nat, half: char, post: string)
    requires AllIn(pre, Whitespace) && AllIn(post, Whitespace)
    requires 1 <= h <= 12 && m < 60
    requires half == 'A' || half == 'P'
    ensures ConvertToSecs(pre + Label(h, m, half) + post) ==
              Some(SecondsOfDay(Clock(if half == 'P' && h != 12 then h + 12 else h, m)))
  {
    var l := Label(h, m, half);
    assert l[0] == Decimal(h)[0];
    assert Unpadded(l, Whitespace);
    StripRemovesPadding(pre, l, post, Whitespace);
    ConvertTo24OfLabel(h, m, half);
  }

  /** The unpadded label of a 12-hour clock time converts the same way. */
  lemma ConvertToSecsOfBareLabel(h: nat, m: nat, half: char)
    requires 1 <= h <= 12 && m < 60
    requires half == 'A' || half == 'P'
    ensures ConvertToSecs(Label(h, m, half)) ==
              Some(SecondsOfDay(Clock(if half == 'P' && h != 12 then h + 12 else h, m)))
  {
    var l := Label(h, m, half);
    assert l[0] == Decimal(h)[0];
    StripUnpadded(l, Whitespace);
    ConvertTo24OfLabel(h, m, half);
  }

  lemma ExampleLabels()
    ensures Label(2, 48, 'P') == "2:48 PM"
    ensures Label(12, 5, 'P') == "12:05 PM"
    ensures Label(12, 5, 'A') == "12:05 AM"
  {
    assert Decimal(2) == "2" && Decimal(5) == "5";
    assert Decimal(48) == "48" by {
      assert Decimal(48) == Decimal(4) + [DigitChar(8)];
    }
    assert Decimal(12) == "12" by {
      assert Decimal(12) == Decimal(1) + [DigitChar(2)];
    }
    assert Shaped("2", "48", 'P') == "2:48 PM";
    assert Shaped("12", "05", 'P') == "12:05 PM";
    assert Shaped("12", "05", 'A') == "12:05 AM";
  }

  /** "2:48 PM" is 14:48, "12:05 PM" is 12:05, and "12:05 AM" is also 12:05:
      the hour-12 special case keeps 12 instead of mapping midnight to 0. */
  lemma ConvertTo24Examples()
    ensures ConvertTo24("2:48 PM").Some? && ConvertTo24("2:48 PM").value == Clock(14, 48)
    ensures ConvertTo24("12:05 PM").Some? && ConvertTo24("12:05 PM").value == Clock(12, 5)
    ensures ConvertTo24("12:05 AM").Some? && ConvertTo24("12:05 AM").value == Clock(12, 5)
  {
    ExampleLabels();
    ConvertTo24OfLabel(2, 48, 'P');
    ConvertTo24OfLabel(12, 5, 'P');
    ConvertTo24OfLabel(12, 5, 'A');
  }

  /** Because "12:xx AM" reads as noon, a bubble stamped in the hour after
      midnight counts as sent at or after any send started in that hour,
      even one started later than the bubble (12:00 AM against 12:05 AM). */
  lemma MidnightBubbleReadsAsNoon(m: nat, start: Clock)
    requires m < 60 && start.hour == 0 && IsTimeOfDay(start)
    ensures ConvertToSecs(Label(12, m, 'A')) == Some(SecondsOfDay(Clock(12, m)))
    ensures ConvertToSecs(Label(12, m, 'A')).value >= SecondsOfDay(start)
  {
    ConvertToSecsOfBareLabel(12, m, 'A');
  }
}
