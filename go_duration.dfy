/**
 * The part of Go's time package that the notifier read path uses:
 * time.ParseDuration and Duration.String, for durations made of whole
 * hours, minutes and seconds. A duration is counted in seconds here; Go
 * counts nanoseconds in an int64, so a duration is representable only
 * while it stays at or below math.MaxInt64 nanoseconds.
 */
module GoDuration {
  import opened Wrappers
  import opened Text

  const NanosPerSecond: nat := 1_000_000_000
  const MaxNanos: nat := 0x7FFF_FFFF_FFFF_FFFF

  predicate Representable(seconds: nat) {
    seconds * NanosPerSecond <= MaxNanos
  }

  /** One `<digits><unit>` component of a duration string. */
  datatype Term = Term(value: nat, unit: char)

  function TermText(t: Term): string {
    Decimal(t.value) + [t.unit]
  }

  function TermsText(ts: seq<Term>): string {
    if ts == [] then [] else TermText(ts[0]) + TermsText(ts[1..])
  }

  /** Seconds per unit for the units this model reads: h, m and s. */
  function UnitScale(c: char): nat {
    if c == 'h' then 3600 else if c == 'm' then 60 else if c == 's' then 1 else 0
  }

  predicate IsWholeUnit(c: char) {
    c == 'h' || c == 'm' || c == 's'
  }

  function UnitSeconds(u: string): Option<nat> {
    if |u| == 1 && IsWholeUnit(u[0]) then Some(UnitScale(u[0])) else None
  }

  /** The total a list of terms stands for. */
  function Seconds(ts: seq<Term>): nat {
    if ts == [] then 0 else TermSeconds(ts[0]) + Seconds(ts[1..])
  }

  function TermSeconds(t: Term): nat {
    t.value * UnitScale(t.unit)
  }

  /** Characters Go reads as part of a unit name: anything but a digit or '.'. */
  predicate IsUnitChar(c: char) {
    c != '.' && !IsDigit(c)
  }

  function SpanUnit(s: string): (r: (string, string))
    ensures r.0 + r.1 == s
    ensures forall i :: 0 <= i < |r.0| ==> IsUnitChar(r.0[i])
    ensures r.1 == [] || !IsUnitChar(r.1[0])
  {
    if s == [] || !IsUnitChar(s[0]) then ([], s)
    else
      var t := SpanUnit(s[1..]);
      ConcatAssoc([s[0]], t.0, t.1);
      assert [s[0]] + s[1..] == s;
      ([s[0]] + t.0, t.1)
  }

  /**
   * The first `<digits><unit>` term of s: its seconds and the text after
   * it; None where Go reports an error, or where a fraction follows.
   */
  function FirstTerm(s: string): (r: Option<(nat, string)>)
    requires s != []
    ensures r.Some? ==> |r.value.1| < |s|
  {
    if !IsDigit(s[0]) then None
    else
      var digits := SpanDigits(s).0;
      var afterDigits := SpanDigits(s).1;
      if afterDigits != [] && afterDigits[0] == '.' then None
      else
        var unit := SpanUnit(afterDigits).0;
        var rest := SpanUnit(afterDigits).1;
        match UnitSeconds(unit)
        case None => None
        case Some(scale) => Some((TermValue(digits, scale), rest))
  }

  /** The terms of a non-empty duration string, summed. */
  function ParseTerms(s: string): Option<nat>
    requires s != []
    decreases |s|
  {
    match FirstTerm(s)
    case None => None
    case Some(first) =>
      if first.1 == [] then Some(first.0)
      else
        match ParseTerms(first.1)
        case None => None
        case Some(w) => Some(first.0 + w)
  }

  function TermValue(digits: string, scale: nat): nat
    requires AllDigits(digits)
  {
    DigitsValue(digits) * scale
  }

  /** time.ParseDuration, in seconds. */
  function ParseDuration(s: string): (r: Option<nat>)
    ensures r.Some? ==> s != []
  {
    if s == "0" then Some(0)
    else if s == [] then None
    else
      match ParseTerms(s)
      case None => None
      case Some(t) => if Representable(t) then Some(t) else None
  }

  /**
   * The components Duration.String prints: seconds always, minutes once
   * the duration reaches a minute, hours once it reaches an hour.
   */
  function FormatTerms(n: nat): seq<Term> {
    if n < 60 then [Term(n, 's')]
    else if n < 3600 then [Term(n / 60, 'm'), Term(n % 60, 's')]
    else [Term(n / 3600, 'h'), Term(n / 60 % 60, 'm'), Term(n % 60, 's')]
  }

  /** Duration.String for a whole number of seconds, such as "1h30m0s" or "0s". */
  function Format(n: nat): string {
    TermsText(FormatTerms(n))
  }

  lemma {:induction false} SpanUnitOf(u: char, rest: string)
    requires IsUnitChar(u)
    requires rest == [] || IsDigit(rest[0])
    ensures SpanUnit([u] + rest) == ([u], rest)
  {
    assert ([u] + rest)[1..] == rest;
  }

  lemma TermsTextShape(ts: seq<Term>)
    requires ts != []
    ensures |TermsText(ts)| >= 2 && IsDigit(TermsText(ts)[0])
  {
    DecimalDigits(ts[0].value);
    assert TermsText(ts) == Decimal(ts[0].value) + [ts[0].unit] + TermsText(ts[1..]);
  }

  /** The first term of a term list, split off its text and its total. */
  lemma TermsCons(ts: seq<Term>)
    requires ts != []
    ensures TermsText(ts) == Decimal(ts[0].value) + ([ts[0].unit] + TermsText(ts[1..]))
    ensures Seconds(ts) == TermSeconds(ts[0]) + Seconds(ts[1..])
  {
    ConcatAssoc(Decimal(ts[0].value), [ts[0].unit], TermsText(ts[1..]));
  }

  /** The first term of `<digits><unit>rest` is that term, with rest after it. */
  lemma FirstTermOf(d: string, u: char, rest: string)
    requires d != [] && AllDigits(d) && IsWholeUnit(u)
    requires rest == [] || IsDigit(rest[0])
    ensures FirstTerm(d + ([u] + rest)) == Some((TermValue(d, UnitScale(u)), rest))
  {
    var s := d + ([u] + rest);
    assert s[0] == d[0];
    SpanDigitsOf(d, [u] + rest);
    SpanUnitOf(u, rest);
    assert UnitSeconds([u]) == Some(UnitScale(u));
  }

  /** The first term read from the text of a term list is its head, with the tail's text after it. */
  lemma FirstTermText(ts: seq<Term>)
    requires ts != [] && IsWholeUnit(ts[0].unit)
    ensures FirstTerm(TermsText(ts)) == Some((TermSeconds(ts[0]), TermsText(ts[1..])))
  {
    var d := Decimal(ts[0].value);
    TermsCons(ts);
    DecimalValue(ts[0].value);
    if ts[1..] != [] {
      TermsTextShape(ts[1..]);
    }
    FirstTermOf(d, ts[0].unit, TermsText(ts[1..]));
  }

  /** One step of ParseTerms, once the first term is known. */
  lemma ParseTermsStep(s: string, v: nat, rest: string)
    requires s != [] && FirstTerm(s) == Some((v, rest))
    ensures rest == [] ==> ParseTerms(s) == Some(v)
    ensures rest != [] && ParseTerms(rest).Some? ==> ParseTerms(s) == Some(v + ParseTerms(rest).value)
  {
  }

  lemma WholeUnitsTail(ts: seq<Term>)
    requires ts != []
    requires forall i :: 0 <= i < |ts| ==> IsWholeUnit(ts[i].unit)
    ensures forall i :: 0 <= i < |ts[1..]| ==> IsWholeUnit(ts[1..][i].unit)
  {
    assert forall i :: 0 <= i < |ts[1..]| ==> ts[1..][i] == ts[i + 1];
  }

  /** Parsing the text of h/m/s terms gives back their total. */
  lemma {:induction false} ParseTermsText(ts: seq<Term>)
    requires ts != []
    requires forall i :: 0 <= i < |ts| ==> IsWholeUnit(ts[i].unit)
    ensures ParseTerms(TermsText(ts)) == Some(Seconds(ts))
  {
    var s, tail := TermsText(ts), ts[1..];
    FirstTermText(ts);
    TermsCons(ts);
    if tail == [] {
      ParseTermsStep(s, TermSeconds(ts[0]), []);
    } else {
      TermsTextShape(tail);
      WholeUnitsTail(ts);
      ParseTermsText(tail);
      ParseTermsStep(s, TermSeconds(ts[0]), TermsText(tail));
    }
  }

  lemma FormatSeconds(n: nat)
    ensures Seconds(FormatTerms(n)) == n
  {
    var q := n / 60;
    assert n == q * 60 + n % 60;
    var ts := FormatTerms(n);
    if n < 60 {
      assert Seconds(ts) == TermSeconds(ts[0]) + Seconds(ts[1..]);
    } else if n < 3600 {
      assert Seconds(ts) == TermSeconds(ts[0]) + Seconds(ts[1..]);
      assert Seconds(ts[1..]) == TermSeconds(ts[1]) + Seconds(ts[2..]);
    } else {
      assert q == (q / 60) * 60 + q % 60;
      assert n / 3600 == q / 60;
      assert Seconds(ts) == TermSeconds(ts[0]) + Seconds(ts[1..]);
      assert Seconds(ts[1..]) == TermSeconds(ts[1]) + Seconds(ts[2..]);
      assert Seconds(ts[2..]) == TermSeconds(ts[2]) + Seconds(ts[3..]);
    }
  }

  /** Duration.String and ParseDuration are inverse on representable durations. */
  lemma FormatParse(n: nat)
    requires Representable(n)
    ensures ParseDuration(Format(n)) == Some(n)
  {
    TermsTextShape(FormatTerms(n));
    ParseTermsText(FormatTerms(n));
    FormatSeconds(n);
  }

  lemma NinetyMinuteText(ts: seq<Term>)
    requires ts == [Term(1, 'h'), Term(30, 'm'), Term(0, 's')]
    ensures TermsText(ts) == "1h30m0s"
  {
    assert Decimal(3) == "3";
    assert Decimal(30) == Decimal(3) + "0";
    assert TermsText(ts[2..]) == "0s";
    assert TermsText(ts[1..]) == "30m" + TermsText(ts[2..]);
    assert TermsText(ts) == "1h" + TermsText(ts[1..]);
  }

  /** Ninety minutes prints as "1h30m0s", and reads back as ninety minutes. */
  lemma NinetyMinutes(n: nat)
    requires n == 90 * 60
    ensures Format(n) == "1h30m0s"
    ensures ParseDuration(Format(n)) == Some(n)
  {
    var ts := [Term(1, 'h'), Term(30, 'm'), Term(0, 's')];
    assert FormatTerms(n) == ts;
    NinetyMinuteText(ts);
    FormatParse(n);
  }
}
