/**
 * The notifier `interval` column and its conversion on read. The engine
 * keeps an interval as months, days and a time of day, each apart from
 * the others; under intervalstyle iso_8601 it prints one as ISO 8601
 * duration text (section 4.4.3.2 of ISO 8601, format PnYnMnDTnHnMnS).
 * The reader takes the piece after the first 'T', lower-cases it, parses
 * it with time.ParseDuration and prints it back with Duration.String.
 */
module Interval {
  import opened Wrappers
  import opened Text
  import opened GoDuration

  /** An interval value with whole seconds. */
  datatype DbInterval = DbInterval(months: nat, days: nat, seconds: nat)

  const Zero := DbInterval(0, 0, 0)

  /** The terms with a non-zero value, in order: ISO 8601 omits zero components. */
  function NonZero(ts: seq<Term>): seq<Term> {
    if ts == [] then [] else (if ts[0].value == 0 then [] else [ts[0]]) + NonZero(ts[1..])
  }

  function DateTerms(iv: DbInterval): seq<Term> {
    NonZero([Term(iv.months / 12, 'Y'), Term(iv.months % 12, 'M'), Term(iv.days, 'D')])
  }

  function TimeTerms(seconds: nat): seq<Term> {
    NonZero([Term(seconds / 3600, 'H'), Term(seconds / 60 % 60, 'M'), Term(seconds % 60, 'S')])
  }

  /**
   * The text the engine prints for an interval under intervalstyle
   * iso_8601: "PT0S" for the zero interval, otherwise 'P', the date
   * components, and 'T' with the time components when there are any.
   */
  function IsoText(iv: DbInterval): string {
    if iv == Zero then "PT0S"
    else "P" + TermsText(DateTerms(iv)) + (if iv.seconds == 0 then "" else "T" + TermsText(TimeTerms(iv.seconds)))
  }

  /**
   * The conversion dbReadNotifier applies to the interval text. None where
   * the source fails: no 'T' in the text (an index out of range) or a
   * piece ParseDuration rejects.
   */
  function ReadInterval(stored: string): (r: Option<string>)
    ensures r.Some? ==> 'T' in stored
  {
    var parts := Split(stored, 'T');
    if |parts| < 2 then None
    else
      match ParseDuration(ToLower(parts[1]))
      case None => None
      case Some(d) => Some(Format(d))
  }

  function LowerUnits(ts: seq<Term>): (r: seq<Term>)
    ensures |r| == |ts|
    ensures forall i :: 0 <= i < |ts| ==> r[i] == Term(ts[i].value, LowerChar(ts[i].unit))
  {
    if ts == [] then [] else [Term(ts[0].value, LowerChar(ts[0].unit))] + LowerUnits(ts[1..])
  }

  lemma {:induction false} NoCharInTermsText(ts: seq<Term>, c: char)
    requires !IsDigit(c)
    requires forall i :: 0 <= i < |ts| ==> ts[i].unit != c
    ensures c !in TermsText(ts)
  {
    if ts != [] {
      DecimalDigits(ts[0].value);
      NoCharInTermsText(ts[1..], c);
      assert TermsText(ts) == Decimal(ts[0].value) + [ts[0].unit] + TermsText(ts[1..]);
    }
  }

  lemma {:induction false} ToLowerTermsText(ts: seq<Term>)
    ensures ToLower(TermsText(ts)) == TermsText(LowerUnits(ts))
  {
    if ts != [] {
      var d := Decimal(ts[0].value);
      ToLowerTermsText(ts[1..]);
      assert TermsText(ts) == d + ([ts[0].unit] + TermsText(ts[1..]));
      ToLowerConcat(d, [ts[0].unit] + TermsText(ts[1..]));
      ToLowerConcat([ts[0].unit], TermsText(ts[1..]));
      DecimalDigits(ts[0].value);
      ToLowerDigits(d);
      assert LowerUnits(ts)[1..] == LowerUnits(ts[1..]);
    }
  }

  lemma {:induction false} NonZeroSeconds(ts: seq<Term>)
    ensures Seconds(NonZero(ts)) == Seconds(ts)
  {
    if ts != [] {
      NonZeroSeconds(ts[1..]);
      if ts[0].value != 0 {
        var r := NonZero(ts);
        assert r == [ts[0]] + NonZero(ts[1..]);
        assert r[0] == ts[0] && r[1..] == NonZero(ts[1..]);
        assert Seconds(r) == TermSeconds(ts[0]) + Seconds(r[1..]);
      } else {
        assert NonZero(ts) == NonZero(ts[1..]);
      }
    }
  }

  lemma {:induction false} NonZeroUnits(ts: seq<Term>, r: seq<Term>)
    requires r == NonZero(ts)
    ensures forall i :: 0 <= i < |r| ==> r[i] in ts
  {
    if ts != [] {
      NonZeroUnits(ts[1..], NonZero(ts[1..]));
    }
  }

  lemma {:induction false} NonZeroEmpty(ts: seq<Term>)
    ensures NonZero(ts) == [] <==> forall i :: 0 <= i < |ts| ==> ts[i].value == 0
  {
    if ts != [] {
      NonZeroEmpty(ts[1..]);
      if ts[0].value == 0 {
        assert forall i :: 1 <= i < |ts| ==> ts[1..][i - 1] == ts[i];
      }
    }
  }

  lemma LowerNonZero(ts: seq<Term>)
    ensures LowerUnits(NonZero(ts)) == NonZero(LowerUnits(ts))
  {
    if ts != [] {
      LowerNonZero(ts[1..]);
      assert LowerUnits(ts)[1..] == LowerUnits(ts[1..]);
      if ts[0].value != 0 {
        assert LowerUnits(NonZero(ts))[1..] == LowerUnits(NonZero(ts[1..]));
      }
    }
  }

  /** The time terms, lower-cased, are h/m/s terms summing to the seconds they came from. */
  lemma LoweredTimeTerms(seconds: nat)
    ensures var ts := LowerUnits(TimeTerms(seconds));
      (forall i :: 0 <= i < |ts| ==> IsWholeUnit(ts[i].unit)) && Seconds(ts) == seconds
      && (ts == [] <==> seconds == 0)
  {
    var full := [Term(seconds / 3600, 'H'), Term(seconds / 60 % 60, 'M'), Term(seconds % 60, 'S')];
    var lowered := LowerUnits(full);
    LowerNonZero(full);
    NonZeroUnits(lowered, LowerUnits(TimeTerms(seconds)));
    NonZeroSeconds(lowered);
    NonZeroEmpty(lowered);
    var q := seconds / 60;
    assert seconds == q * 60 + seconds % 60;
    assert q == (q / 60) * 60 + q % 60;
    assert seconds / 3600 == q / 60;
    assert Seconds(lowered) == TermSeconds(lowered[0]) + Seconds(lowered[1..]);
    assert Seconds(lowered[1..]) == TermSeconds(lowered[1]) + Seconds(lowered[2..]);
    assert Seconds(lowered[2..]) == TermSeconds(lowered[2]) + Seconds(lowered[3..]);
  }

  lemma DateAndTimeHaveNoT(iv: DbInterval)
    ensures 'T' !in "P" + TermsText(DateTerms(iv))
    ensures 'T' !in TermsText(TimeTerms(iv.seconds))
  {
    var date := [Term(iv.months / 12, 'Y'), Term(iv.months % 12, 'M'), Term(iv.days, 'D')];
    NonZeroUnits(date, DateTerms(iv));
    NoCharInTermsText(DateTerms(iv), 'T');
    var time := [Term(iv.seconds / 3600, 'H'), Term(iv.seconds / 60 % 60, 'M'), Term(iv.seconds % 60, 'S')];
    NonZeroUnits(time, TimeTerms(iv.seconds));
    NoCharInTermsText(TimeTerms(iv.seconds), 'T');
  }

  /** For an interval with a time part, the piece after the 'T' is the time text. */
  lemma TimePiece(iv: DbInterval)
    requires iv.seconds > 0
    ensures var parts := Split(IsoText(iv), 'T');
      |parts| >= 2 && parts[1] == TermsText(TimeTerms(iv.seconds))
  {
    var date := "P" + TermsText(DateTerms(iv));
    var time := TermsText(TimeTerms(iv.seconds));
    assert IsoText(iv) == date + ['T'] + time;
    DateAndTimeHaveNoT(iv);
    SplitAround(date, 'T', time);
  }

  /** The time text, lower-cased, parses to the seconds it was printed from. */
  lemma ParseTimeText(seconds: nat)
    requires seconds > 0 && Representable(seconds)
    ensures ParseDuration(ToLower(TermsText(TimeTerms(seconds)))) == Some(seconds)
  {
    ToLowerTermsText(TimeTerms(seconds));
    LoweredTimeTerms(seconds);
    var lowered := LowerUnits(TimeTerms(seconds));
    TermsTextShape(lowered);
    ParseTermsText(lowered);
  }

  /**
   * An interval with a time part reads back as Duration.String of its
   * seconds: the months and days before the 'T' are dropped.
   */
  lemma ReadTimeInterval(iv: DbInterval)
    requires iv.seconds > 0 && Representable(iv.seconds)
    ensures ReadInterval(IsoText(iv)) == Some(Format(iv.seconds))
  {
    TimePiece(iv);
    ParseTimeText(iv.seconds);
  }

  /** Without a 'T' there is one piece only, so taking the second one fails. */
  lemma ReadWithoutSeparator(stored: string)
    requires 'T' !in stored
    ensures ReadInterval(stored) == None
  {
  }

  /** An interval of whole days or months has no 'T' in its text, and the read fails. */
  lemma ReadDateOnlyInterval(iv: DbInterval)
    requires iv.seconds == 0 && iv != Zero
    ensures ReadInterval(IsoText(iv)) == None
  {
    DateAndTimeHaveNoT(iv);
    assert IsoText(iv) == "P" + TermsText(DateTerms(iv));
  }

  /** "0s" is the text of one zero-second term, which parses back to zero. */
  lemma ZeroSecondsText(ts: seq<Term>)
    requires ts == [Term(0, 's')]
    ensures TermsText(ts) == "0s" && ParseDuration(TermsText(ts)) == Some(0)
  {
    assert Decimal(0) == "0";
    ParseTermsText(ts);
  }

  /** The zero interval prints as "PT0S" and reads back as "0s". */
  lemma ReadZeroInterval(iv: DbInterval)
    requires iv == Zero
    ensures ReadInterval(IsoText(iv)) == Some("0s")
  {
    var p, z := "P", "0S";
    assert IsoText(iv) == p + ['T'] + z;
    SplitAround(p, 'T', z);
    var ts := [Term(0, 's')];
    ZeroSecondsText(ts);
    assert ToLower(z) == TermsText(ts);
    assert FormatTerms(0) == ts;
  }

  lemma NinetyMinuteTerms(ts: seq<Term>)
    requires ts == [Term(1, 'h'), Term(30, 'm')]
    ensures TermsText(ts) == "1h30m" && Seconds(ts) == 90 * 60
  {
    assert Decimal(3) == "3";
    assert Decimal(30) == Decimal(3) + "0";
    assert TermsText(ts[1..]) == "30m";
    assert TermsText(ts) == "1h" + TermsText(ts[1..]);
    assert Seconds(ts[1..]) == 1800;
  }

  lemma SplitNinetyMinutes(stored: string, time: string)
    requires stored == "PT1H30M" && time == "1H30M"
    ensures Split(stored, 'T') == ["P", time]
  {
    var p := "P";
    assert stored == p + ['T'] + time;
    SplitAround(p, 'T', time);
  }

  lemma ParseNinetyMinutes(time: string)
    requires time == "1H30M"
    ensures ParseDuration(ToLower(time)) == Some(90 * 60)
  {
    var ts := [Term(1, 'h'), Term(30, 'm')];
    NinetyMinuteTerms(ts);
    assert ToLower(time) == TermsText(ts);
    TermsTextShape(ts);
    ParseTermsText(ts);
  }

  /** The engine's text for ninety minutes, "PT1H30M", reads back as "1h30m0s". */
  lemma ReadNinetyMinutes(stored: string)
    requires stored == "PT1H30M"
    ensures ReadInterval(stored) == Some("1h30m0s")
  {
    var time := "1H30M";
    SplitNinetyMinutes(stored, time);
    ParseNinetyMinutes(time);
    var n := 90 * 60;
    NinetyMinutes(n);
  }

  lemma TwoHoursText(ts: seq<Term>)
    requires ts == [Term(2, 'h'), Term(0, 'm'), Term(0, 's')]
    ensures TermsText(ts) == "2h0m0s"
  {
    assert Decimal(0) == "0" && Decimal(2) == "2";
    assert TermsText(ts[2..]) == "0s";
    assert TermsText(ts[1..]) == "0m" + TermsText(ts[2..]);
    assert TermsText(ts) == "2h" + TermsText(ts[1..]);
  }

  lemma FormatTwoHours(n: nat)
    requires n == 2 * 3600
    ensures Format(n) == "2h0m0s"
  {
    var ts := [Term(2, 'h'), Term(0, 'm'), Term(0, 's')];
    assert FormatTerms(n) == ts;
    TwoHoursText(ts);
  }

  /** One day and two hours reads back as two hours: the day is dropped. */
  lemma ReadDropsDays(iv: DbInterval)
    requires iv == DbInterval(0, 1, 2 * 3600)
    ensures ReadInterval(IsoText(iv)) == Some("2h0m0s")
  {
    ReadTimeInterval(iv);
    FormatTwoHours(iv.seconds);
  }

  /** What a read returns denotes the same duration as the piece it was read from. */
  lemma ReadIntervalKeepsDuration(stored: string)
    requires ReadInterval(stored).Some?
    ensures |Split(stored, 'T')| >= 2
    ensures ParseDuration(ReadInterval(stored).value) == ParseDuration(ToLower(Split(stored, 'T')[1]))
  {
    var d := ParseDuration(ToLower(Split(stored, 'T')[1])).value;
    assert Representable(d) by {
      var s := ToLower(Split(stored, 'T')[1]);
      if s != "0" { assert ParseTerms(s).Some?; }
    }
    FormatParse(d);
  }
}
