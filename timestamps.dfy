/** The timestamp text the user types: `parse_timestamp` turns one clock
    value into seconds and `parse_timestamp_ranges` turns a comma-separated
    list of `start-end` ranges into validated ranges. Every `ValueError` the
    Python code raises (its own and the one `int()` raises) is an `Err`. */
module Timestamps {
  import opened Wrappers
  import opened Text

  datatype ParseError =
    | InvalidLiteral(literal: string)          // int() rejected a token
    | InvalidTimestamp(timestamp: string)      // not two or three ':'-parts
    | InvalidRangeFormat(rangeText: string)    // not exactly two '-'-parts
    | StartNotBeforeEnd(rangeText: string)     // start >= end

  /** One parsed range: seconds, plus the stripped text of each end as typed. */
  datatype TimeRange = TimeRange(start: int, end: int, startStr: string, endStr: string)

  /** Decimal digits in which `_` may only stand between two digits. */
  predicate IsDigitGroup(s: string) {
    && s != [] && IsDigit(s[0])
    && (|s| == 1 || if s[1] == '_' then IsDigitGroup(s[2..]) else IsDigitGroup(s[1..]))
  }

  lemma {:induction false} DigitsAreDigitGroup(s: string)
    requires s != [] && AllDigits(s)
    ensures IsDigitGroup(s)
  {
    if |s| > 1 {
      DigitsAreDigitGroup(s[1..]);
    }
  }

  /** The characters of a digit group are digits and `_`. */
  lemma {:induction false} DigitGroupChars(s: string)
    requires IsDigitGroup(s)
    ensures forall k :: 0 <= k < |s| ==> IsDigit(s[k]) || s[k] == '_'
  {
    if |s| > 1 {
      if s[1] == '_' {
        DigitGroupChars(s[2..]);
        assert forall k :: 2 <= k < |s| ==> s[k] == s[2..][k - 2];
      } else {
        DigitGroupChars(s[1..]);
        assert forall k :: 1 <= k < |s| ==> s[k] == s[1..][k - 1];
      }
    }
  }

  /** The white space `int()` skips around its text. It maps every non-ASCII
      white space character to a blank and skips ASCII white space, which
      for `int()` does not include the separators U+001C to U+001F that
      `str.isspace()` accepts: those stay and make the text invalid. */
  predicate IntSpace(c: char) {
    IsSpace(c) && !('\U{1C}' <= c <= '\U{1F}')
  }

  /** Python's `int(s)` in base 10 for ASCII digits: surrounding white space
      (`IntSpace`) is skipped, one optional sign, digits with single `_`
      separators, leading zeros allowed; anything else is `None` (a
      `ValueError`). A blank text is refused, and only a leading `-` makes
      the value negative. */
  function ParseInt(s: string): (r: Option<int>)
    ensures r.Some? ==> var t := Trim(s, IntSpace);
      && t != []
      && forall k :: 0 <= k < |t| ==> IsDigit(t[k]) || t[k] == '_' || (k == 0 && (t[k] == '+' || t[k] == '-'))
    ensures r.Some? && r.value < 0 ==> Trim(s, IntSpace)[0] == '-'
  {
    var t := Trim(s, IntSpace);
    if t != [] && (t[0] == '+' || t[0] == '-') then
      if IsDigitGroup(t[1..]) then
        DigitGroupChars(t[1..]);
        assert forall k :: 1 <= k < |t| ==> t[k] == t[1..][k - 1];
        Some(if t[0] == '-' then -(DecimalValue(t[1..]) as int) else DecimalValue(t[1..]))
      else None
    else if IsDigitGroup(t) then
      DigitGroupChars(t);
      Some(DecimalValue(t))
    else None
  }

  /** `int()` reads back the decimal text of every natural. */
  lemma ParseIntNatStr(n: nat)
    ensures ParseInt(NatStr(n)) == Some(n)
  {
    var s := NatStr(n);
    TrimUnchanged(s, IntSpace);
    DigitsAreDigitGroup(s);
    DecimalValueNatStr(n);
  }

  /** Without a `-` in its text, `int()` never yields a negative number. */
  lemma ParseIntNoMinus(s: string)
    requires '-' !in s && ParseInt(s).Some?
    ensures ParseInt(s).value >= 0
  {
    var t := Trim(s, IntSpace);
    if t != [] && t[0] == '-' {
      TrimChars(s, IntSpace, '-');
    }
  }

  /** `int()` keeps the file separator U+001C, which `strip()` would skip,
      so a field holding one is refused. */
  lemma SeparatorKept()
    ensures ParseInt("1\U{1C}") == None
  {
    TrimUnchanged("1\U{1C}", IntSpace);
  }

  function Int(token: string): Result<int, ParseError>
  {
    match ParseInt(token)
    case Some(v) => Ok(v)
    case None => Err(InvalidLiteral(token))
  }

  /** `parse_timestamp`: `m:s` or `h:m:s` to seconds. The part count is
      checked first; a wrong count is an `InvalidTimestamp`, and only that. */
  function ParseTimestamp(timestamp: string): (r: Result<int, ParseError>)
    ensures var n := |Split(Strip(timestamp), ':')|;
      r == Err(InvalidTimestamp(timestamp)) <==> n != 2 && n != 3
  {
    var parts := Split(Strip(timestamp), ':');
    if |parts| == 2 || |parts| == 3 then Sexagesimal(parts, 0)
    else Err(InvalidTimestamp(timestamp))
  }

  /** The fields read left to right, each worth sixty of the next, after the
      value `acc` of the fields before them: `int(h) * 3600 + int(m) * 60 +
      int(s)` evaluated in Python's order, so the first field `int()`
      rejects is the one reported. */
  function Sexagesimal(fields: seq<string>, acc: int): (r: Result<int, ParseError>)
    ensures r.Err? ==> r.error.InvalidLiteral?
  {
    if fields == [] then Ok(acc)
    else
      match Int(fields[0])
      case Err(e) => Err(e)
      case Ok(v) => Sexagesimal(fields[1..], acc * 60 + v)
  }

  /** A clock text made of digit fields strips to itself and splits back into its fields. */
  lemma DigitClock(fields: seq<string>)
    requires |fields| >= 1
    requires forall k :: 0 <= k < |fields| ==> fields[k] != [] && AllDigits(fields[k])
    ensures Split(Strip(Join(fields, ':')), ':') == fields
  {
    DigitClockStrip(fields);
    DigitClockSplit(fields);
  }

  lemma DigitClockStrip(fields: seq<string>)
    requires |fields| >= 1
    requires forall k :: 0 <= k < |fields| ==> fields[k] != [] && AllDigits(fields[k])
    ensures Strip(Join(fields, ':')) == Join(fields, ':')
  {
    var ts := Join(fields, ':');
    DigitClockEnds(fields);
    DigitNotSpace(ts[0]);
    DigitNotSpace(ts[|ts| - 1]);
    StripUnchanged(ts);
  }

  lemma DigitNotSpace(c: char)
    requires IsDigit(c)
    ensures !IsSpace(c)
  {
  }

  lemma DigitClockSplit(fields: seq<string>)
    requires |fields| >= 1
    requires forall k :: 0 <= k < |fields| ==> fields[k] != [] && AllDigits(fields[k])
    ensures Split(Join(fields, ':'), ':') == fields
  {
    forall k | 0 <= k < |fields| ensures ':' !in fields[k] {
      assert AllDigits(fields[k]);
    }
    SplitJoin(fields, ':');
  }

  /** The joined clock text starts and ends with a digit. */
  lemma {:induction false} DigitClockEnds(fields: seq<string>)
    requires |fields| >= 1
    requires forall k :: 0 <= k < |fields| ==> fields[k] != [] && AllDigits(fields[k])
    ensures var ts := Join(fields, ':');
      ts != [] && IsDigit(ts[0]) && IsDigit(ts[|ts| - 1])
  {
    var a := fields[0];
    assert IsDigit(a[0]) && IsDigit(a[|a| - 1]);
    if |fields| > 1 {
      DigitClockEnds(fields[1..]);
    }
  }

  /** A timestamp of two fields `m:s` reads as `int(m) * 60 + int(s)`
      seconds, whatever the field texts (leading zeros, white space, a
      sign); when `int()` rejects a field, the first rejected one is
      reported. */
  lemma ParseMinutesSeconds(timestamp: string, m: string, s: string)
    requires Split(Strip(timestamp), ':') == [m, s]
    ensures ParseInt(m).Some? && ParseInt(s).Some? ==>
      ParseTimestamp(timestamp) == Ok(ParseInt(m).value * 60 + ParseInt(s).value)
    ensures ParseInt(m).None? ==> ParseTimestamp(timestamp) == Err(InvalidLiteral(m))
    ensures ParseInt(m).Some? && ParseInt(s).None? ==> ParseTimestamp(timestamp) == Err(InvalidLiteral(s))
  {
    if ParseInt(m).Some? && ParseInt(s).Some? {
      TwoFields(m, s, ParseInt(m).value, ParseInt(s).value);
    } else if ParseInt(m).Some? {
      assert [m, s][1..] == [s];
      assert Sexagesimal([m, s], 0) == Sexagesimal([s], ParseInt(m).value);
    }
  }

  /** A timestamp of three fields `h:m:s` reads as `int(h) * 3600 +
      int(m) * 60 + int(s)` seconds, whatever the field texts; when `int()`
      rejects a field, the first rejected one is reported. */
  lemma ParseHoursMinutesSeconds(timestamp: string, h: string, m: string, s: string)
    requires Split(Strip(timestamp), ':') == [h, m, s]
    ensures ParseInt(h).Some? && ParseInt(m).Some? && ParseInt(s).Some? ==>
      ParseTimestamp(timestamp) == Ok(ParseInt(h).value * 3600 + ParseInt(m).value * 60 + ParseInt(s).value)
    ensures ParseInt(h).None? ==> ParseTimestamp(timestamp) == Err(InvalidLiteral(h))
    ensures ParseInt(h).Some? && ParseInt(m).None? ==> ParseTimestamp(timestamp) == Err(InvalidLiteral(m))
    ensures ParseInt(h).Some? && ParseInt(m).Some? && ParseInt(s).None? ==>
      ParseTimestamp(timestamp) == Err(InvalidLiteral(s))
  {
    assert ParseTimestamp(timestamp) == Sexagesimal([h, m, s], 0);
    ThreeFieldOutcome(h, m, s);
  }

  /** The field arithmetic of three fields, read left to right: the value,
      or the first field `int()` rejects. */
  lemma ThreeFieldOutcome(h: string, m: string, s: string)
    ensures ParseInt(h).Some? && ParseInt(m).Some? && ParseInt(s).Some? ==>
      Sexagesimal([h, m, s], 0) == Ok(ParseInt(h).value * 3600 + ParseInt(m).value * 60 + ParseInt(s).value)
    ensures ParseInt(h).None? ==> Sexagesimal([h, m, s], 0) == Err(InvalidLiteral(h))
    ensures ParseInt(h).Some? && ParseInt(m).None? ==> Sexagesimal([h, m, s], 0) == Err(InvalidLiteral(m))
    ensures ParseInt(h).Some? && ParseInt(m).Some? && ParseInt(s).None? ==>
      Sexagesimal([h, m, s], 0) == Err(InvalidLiteral(s))
  {
    if ParseInt(h).None? {
      assert Int(h) == Err(InvalidLiteral(h));
    } else if ParseInt(m).Some? && ParseInt(s).Some? {
      ThreeFields(h, m, s, ParseInt(h).value, ParseInt(m).value, ParseInt(s).value);
    } else {
      var x := ParseInt(h).value;
      assert [h, m, s][1..] == [m, s];
      assert Sexagesimal([h, m, s], 0) == Sexagesimal([m, s], x);
      if ParseInt(m).Some? {
        assert [m, s][1..] == [s];
        assert Sexagesimal([m, s], x) == Sexagesimal([s], x * 60 + ParseInt(m).value);
      }
    }
  }

  /** `int()` of a run of digits is its decimal value; leading zeros are allowed. */
  lemma ParseIntDigits(s: string)
    requires s != [] && AllDigits(s)
    ensures ParseInt(s) == Some(DecimalValue(s))
  {
    DigitNotSpace(s[0]);
    DigitNotSpace(s[|s| - 1]);
    TrimUnchanged(s, IntSpace);
    DigitsAreDigitGroup(s);
  }

  /** `"45:00"` is 2700 seconds: a leading zero counts for nothing. */
  lemma MinutesExample()
    ensures ParseTimestamp("45:00") == Ok(2700)
  {
    MinutesSplit();
    Field45();
    Field00();
    ParseMinutesSeconds("45:00", "45", "00");
  }

  /** `"1:05:00"` is 3900 seconds. */
  lemma HoursExample()
    ensures ParseTimestamp("1:05:00") == Ok(3900)
  {
    HoursSplit();
    Field1();
    Field05();
    Field00();
    ParseHoursMinutesSeconds("1:05:00", "1", "05", "00");
  }

  /** The fields of the examples, leading zeros included. These helpers
      exist only for solver cost: a literal argument makes the verifier
      unfold `ParseInt` eagerly, and proving the six facts in one lemma, or
      inline in the examples, costs several times as much as proving each
      literal in a lemma of its own. */
  lemma Field45()
    ensures ParseInt("45") == Some(45)
  {
    ParseIntDigits("45");
  }

  lemma Field00()
    ensures ParseInt("00") == Some(0)
  {
    ParseIntDigits("00");
  }

  lemma Field1()
    ensures ParseInt("1") == Some(1)
  {
    ParseIntDigits("1");
  }

  lemma Field05()
    ensures ParseInt("05") == Some(5)
  {
    ParseIntDigits("05");
  }

  lemma Field2()
    ensures ParseInt("2") == Some(2)
  {
    ParseIntDigits("2");
  }

  lemma Field30()
    ensures ParseInt("30") == Some(30)
  {
    ParseIntDigits("30");
  }

  /** The examples split into their fields. */
  lemma MinutesSplit()
    ensures Split(Strip("45:00"), ':') == ["45", "00"]
  {
    TwoDigitFields("45", "00");
    assert "45" + ":" + "00" == "45:00";
  }

  /** `"1\U{1C}:30"` is refused: the separator stays in the minutes field. */
  lemma SeparatorRejected()
    ensures ParseTimestamp("1\U{1C}:30") == Err(InvalidLiteral("1\U{1C}"))
  {
    SeparatorSplit();
    SeparatorKept();
    ParseMinutesSeconds("1\U{1C}:30", "1\U{1C}", "30");
  }

  lemma SeparatorSplit()
    ensures Split(Strip("1\U{1C}:30"), ':') == ["1\U{1C}", "30"]
  {
    StripUnchanged("1\U{1C}:30");
    SplitJoin(["1\U{1C}", "30"], ':');
    assert Join(["1\U{1C}", "30"], ':') == "1\U{1C}:30";
  }

  lemma HoursSplit()
    ensures Split(Strip("1:05:00"), ':') == ["1", "05", "00"]
  {
    ThreeDigitFields("1", "05", "00");
    assert "1" + ":" + "05" + ":" + "00" == "1:05:00";
  }

  lemma TwoDigitFields(a: string, b: string)
    requires a != [] && AllDigits(a) && b != [] && AllDigits(b)
    ensures Split(Strip(a + ":" + b), ':') == [a, b]
  {
    DigitClock([a, b]);
    assert Join([a, b], ':') == a + ":" + b;
  }

  lemma ThreeDigitFields(a: string, b: string, c: string)
    requires a != [] && AllDigits(a) && b != [] && AllDigits(b) && c != [] && AllDigits(c)
    ensures Split(Strip(a + ":" + b + ":" + c), ':') == [a, b, c]
  {
    DigitClock([a, b, c]);
    assert [a, b, c][1..] == [b, c];
    assert Join([b, c], ':') == b + ":" + c;
    assert Join([a, b, c], ':') == a + ":" + b + ":" + c;
  }

  lemma TwoFields(a: string, b: string, x: int, y: int)
    requires Int(a) == Ok(x) && Int(b) == Ok(y)
    ensures Sexagesimal([a, b], 0) == Ok(x * 60 + y)
  {
    assert [a, b][1..] == [b];
    assert [b][1..] == [];
    assert Sexagesimal([b], x) == Ok(x * 60 + y);
  }

  lemma ThreeFields(a: string, b: string, c: string, x: int, y: int, z: int)
    requires Int(a) == Ok(x) && Int(b) == Ok(y) && Int(c) == Ok(z)
    ensures Sexagesimal([a, b, c], 0) == Ok(x * 3600 + y * 60 + z)
  {
    assert [a, b, c][1..] == [b, c];
    TwoFields(b, c, y, z);
    assert Sexagesimal([b, c], x) == Sexagesimal([c], x * 60 + y);
    assert [c][1..] == [];
  }

  /** A timestamp without `-` in it never parses to a negative value. */
  lemma ParseTimestampNonNegative(timestamp: string)
    requires '-' !in timestamp && ParseTimestamp(timestamp).Ok?
    ensures ParseTimestamp(timestamp).value >= 0
  {
    var t := Strip(timestamp);
    var parts := Split(t, ':');
    forall k | 0 <= k < |parts| ensures '-' !in parts[k] {
      if '-' in parts[k] {
        SplitChars(t, ':', k, '-');
        StripChars(timestamp, '-');
      }
    }
    SexagesimalNonNegative(parts, 0);
  }

  lemma {:induction false} SexagesimalNonNegative(fields: seq<string>, acc: int)
    requires acc >= 0 && forall k :: 0 <= k < |fields| ==> '-' !in fields[k]
    ensures Sexagesimal(fields, acc).Ok? ==> Sexagesimal(fields, acc).value >= 0
  {
    if fields != [] && ParseInt(fields[0]).Some? {
      ParseIntNoMinus(fields[0]);
      SexagesimalNonNegative(fields[1..], acc * 60 + ParseInt(fields[0]).value);
    }
  }

  /** One comma-separated segment: `Ok(None)` when it is blank, the range
      when it is valid, the error `parse_timestamp_ranges` raises otherwise. */
  function ParseSegment(segment: string): (r: Result<Option<TimeRange>, ParseError>)
    ensures r == Ok(None) <==> Strip(segment) == []
    ensures Strip(segment) != [] && |Split(Strip(segment), '-')| != 2 ==>
      r == Err(InvalidRangeFormat(Strip(segment)))
    ensures r.Ok? && r.value.Some? ==>
      var parts, range := Split(Strip(segment), '-'), r.value.value;
      && |parts| == 2
      && range.startStr == Strip(parts[0]) && range.endStr == Strip(parts[1])
      && ParseTimestamp(range.startStr) == Ok(range.start)
      && ParseTimestamp(range.endStr) == Ok(range.end)
      && range.start < range.end
  {
    var rangeStr := Strip(segment);
    if rangeStr == [] then Ok(None)
    else
      var parts := Split(rangeStr, '-');
      if |parts| != 2 then Err(InvalidRangeFormat(rangeStr))
      else
        match ParseTimestamp(Strip(parts[0]))
        case Err(e) => Err(e)
        case Ok(start) =>
          match ParseTimestamp(Strip(parts[1]))
          case Err(e) => Err(e)
          case Ok(end) =>
            if start >= end then Err(StartNotBeforeEnd(rangeStr))
            else Ok(Some(TimeRange(start, end, Strip(parts[0]), Strip(parts[1]))))
  }

  /** The outcomes of the segments, in order, gathered the way the loop in
      `parse_timestamp_ranges` gathers them: the first error wins, blank
      segments add nothing, valid ones are appended. */
  function Collect(outcomes: seq<Result<Option<TimeRange>, ParseError>>): Result<seq<TimeRange>, ParseError>
  {
    if outcomes == [] then Ok([])
    else
      match outcomes[0]
      case Err(e) => Err(e)
      case Ok(head) =>
        match Collect(outcomes[1..])
        case Err(e) => Err(e)
        case Ok(tail) => Ok((if head.Some? then [head.value] else []) + tail)
  }

  /** The outcome of each segment, in order. */
  function SegmentOutcomes(segments: seq<string>): (r: seq<Result<Option<TimeRange>, ParseError>>)
    ensures |r| == |segments|
  {
    if segments == [] then [] else [ParseSegment(segments[0])] + SegmentOutcomes(segments[1..])
  }

  lemma {:induction false} SegmentOutcome(segments: seq<string>, j: nat)
    requires j < |segments|
    ensures SegmentOutcomes(segments)[j] == ParseSegment(segments[j])
  {
    if j > 0 {
      SegmentOutcome(segments[1..], j - 1);
    }
  }

  /** `parse_timestamp_ranges`, as a function of the text: it succeeds
      exactly when no segment is rejected, and every range it returns
      starts at or after 0 and before its end. */
  function ParseRanges(text: string): (r: Result<seq<TimeRange>, ParseError>)
    ensures r.Ok? <==> AllSegmentsParse(Split(text, ','))
    ensures r.Ok? ==> forall k :: 0 <= k < |r.value| ==> 0 <= r.value[k].start < r.value[k].end
  {
    var segments := Split(text, ',');
    OutcomesOk(segments);
    RangesForward(segments);
    Collect(SegmentOutcomes(segments))
  }

  /** Gathering the outcomes of segments succeeds exactly when each does. */
  lemma OutcomesOk(segments: seq<string>)
    ensures Collect(SegmentOutcomes(segments)).Ok? <==> AllSegmentsParse(segments)
  {
    var outcomes := SegmentOutcomes(segments);
    forall j | 0 <= j < |segments| ensures outcomes[j] == ParseSegment(segments[j]) {
      SegmentOutcome(segments, j);
    }
    if Collect(outcomes).Ok? {
      CollectOkAll(outcomes);
    } else if AllSegmentsParse(segments) {
      CollectAllOk(outcomes);
    }
  }

  /** Every range gathered runs forward from a non-negative start. */
  lemma RangesForward(segments: seq<string>)
    ensures var r := Collect(SegmentOutcomes(segments));
      r.Ok? ==> forall k :: 0 <= k < |r.value| ==> 0 <= r.value[k].start < r.value[k].end
  {
    var outcomes := SegmentOutcomes(segments);
    if Collect(outcomes).Ok? {
      var ranges, kept := Collect(outcomes).value, Kept(outcomes);
      CollectKept(outcomes);
      forall k | 0 <= k < |ranges| ensures 0 <= ranges[k].start < ranges[k].end {
        SegmentOutcome(segments, kept[k]);
        SegmentRange(segments[kept[k]], ranges[k]);
      }
    }
  }

  /** What one more outcome does to the result of the outcomes before it. */
  function Extend(done: Result<seq<TimeRange>, ParseError>, outcome: Result<Option<TimeRange>, ParseError>): Result<seq<TimeRange>, ParseError>
  {
    match done
    case Err(e) => Err(e)
    case Ok(ranges) =>
      match outcome
      case Err(e) => Err(e)
      case Ok(head) => Ok(ranges + if head.Some? then [head.value] else [])
  }

  lemma {:induction false} CollectSnoc(outcomes: seq<Result<Option<TimeRange>, ParseError>>, outcome: Result<Option<TimeRange>, ParseError>)
    ensures Collect(outcomes + [outcome]) == Extend(Collect(outcomes), outcome)
  {
    if outcomes == [] {
      assert [] + [outcome] == [outcome];
      assert [outcome][1..] == [];
      if outcome.Ok? {
        var x := if outcome.value.Some? then [outcome.value.value] else [];
        assert x + [] == [] + x;
      }
    } else {
      assert (outcomes + [outcome])[1..] == outcomes[1..] + [outcome];
      CollectSnoc(outcomes[1..], outcome);
      match outcomes[0]
      case Err(_) =>
      case Ok(head) =>
        match Collect(outcomes[1..])
        case Err(_) =>
        case Ok(tail) =>
          var h := if head.Some? then [head.value] else [];
          match outcome
          case Err(_) =>
          case Ok(o) =>
            var x := if o.Some? then [o.value] else [];
            assert h + (tail + x) == (h + tail) + x;
    }
  }

  /** Once a prefix of the outcomes fails, later outcomes change nothing. */
  lemma {:induction false} CollectFailedPrefix(outcomes: seq<Result<Option<TimeRange>, ParseError>>, more: seq<Result<Option<TimeRange>, ParseError>>)
    requires Collect(outcomes).Err?
    ensures Collect(outcomes + more) == Collect(outcomes)
  {
    assert (outcomes + more)[0] == outcomes[0];
    assert (outcomes + more)[1..] == outcomes[1..] + more;
    if outcomes[0].Ok? {
      CollectFailedPrefix(outcomes[1..], more);
    }
  }

  /** The indices of the outcomes that carry a range, in increasing order. */
  function Kept(outcomes: seq<Result<Option<TimeRange>, ParseError>>): (r: seq<nat>)
    ensures forall k :: 0 <= k < |r| ==> r[k] < |outcomes|
  {
    if outcomes == [] then []
    else
      var n := |outcomes| - 1;
      Kept(outcomes[..n]) + if outcomes[n].Ok? && outcomes[n].value.Some? then [n] else []
  }

  /** A successful gathering means no segment failed. */
  lemma {:induction false} CollectOkAll(outcomes: seq<Result<Option<TimeRange>, ParseError>>)
    requires Collect(outcomes).Ok?
    ensures forall j :: 0 <= j < |outcomes| ==> outcomes[j].Ok?
  {
    if outcomes != [] {
      CollectOkAll(outcomes[1..]);
      forall j | 1 <= j < |outcomes| ensures outcomes[j].Ok? {
        assert outcomes[j] == outcomes[1..][j - 1];
      }
    }
  }

  /** A successful gathering holds exactly the ranges of the non-blank
      segments, in the order of the segments. */
  lemma {:induction false} CollectKept(outcomes: seq<Result<Option<TimeRange>, ParseError>>)
    requires Collect(outcomes).Ok?
    ensures var ranges, kept := Collect(outcomes).value, Kept(outcomes);
      && |kept| == |ranges|
      && (forall k :: 0 <= k < |kept| ==> kept[k] < |outcomes| && outcomes[kept[k]] == Ok(Some(ranges[k])))
  {
    if outcomes != [] {
      var n := |outcomes| - 1;
      var before := outcomes[..n];
      assert before + [outcomes[n]] == outcomes;
      CollectSnoc(before, outcomes[n]);
      CollectKept(before);
    }
  }

  /** Each segment is kept at most once, in increasing order. */
  lemma {:induction false} KeptIncreasing(outcomes: seq<Result<Option<TimeRange>, ParseError>>)
    ensures forall k, l :: 0 <= k < l < |Kept(outcomes)| ==> Kept(outcomes)[k] < Kept(outcomes)[l]
  {
    if outcomes != [] {
      var n := |outcomes| - 1;
      var before, kept := Kept(outcomes[..n]), Kept(outcomes);
      KeptIncreasing(outcomes[..n]);
      forall k, l | 0 <= k < l < |kept| ensures kept[k] < kept[l] {
        assert kept[k] == before[k];
        if l < |before| {
          assert kept[l] == before[l];
        } else {
          assert kept[l] == n;
        }
      }
    }
  }

  /** No range is dropped: every outcome that carries one is kept. */
  lemma {:induction false} KeptComplete(outcomes: seq<Result<Option<TimeRange>, ParseError>>, j: nat)
    requires j < |outcomes| && outcomes[j].Ok? && outcomes[j].value.Some?
    ensures j in Kept(outcomes)
  {
    var n := |outcomes| - 1;
    if j < n {
      KeptComplete(outcomes[..n], j);
    }
  }

  /** Gathering succeeds when every segment does. */
  lemma {:induction false} CollectAllOk(outcomes: seq<Result<Option<TimeRange>, ParseError>>)
    requires forall j :: 0 <= j < |outcomes| ==> outcomes[j].Ok?
    ensures Collect(outcomes).Ok?
  {
    if outcomes != [] {
      CollectAllOk(outcomes[1..]);
    }
  }

  /** Blank segments only: nothing is gathered and nothing fails. */
  lemma {:induction false} CollectAllBlank(outcomes: seq<Result<Option<TimeRange>, ParseError>>)
    requires forall j :: 0 <= j < |outcomes| ==> outcomes[j] == Ok(None)
    ensures Collect(outcomes) == Ok([])
  {
    if outcomes != [] {
      CollectAllBlank(outcomes[1..]);
      assert outcomes[0] == Ok(None);
      var none: seq<TimeRange> := [];
      assert none + none == none;
    }
  }

  /** Gathering fails with the error of the first failing segment. */
  lemma {:induction false} CollectFirstError(outcomes: seq<Result<Option<TimeRange>, ParseError>>, j: nat)
    requires j < |outcomes| && outcomes[j].Err?
    requires forall k :: 0 <= k < j ==> outcomes[k].Ok?
    ensures Collect(outcomes) == Err(outcomes[j].error)
  {
    if j > 0 {
      CollectFirstError(outcomes[1..], j - 1);
    }
  }

  /** A failed gathering reports the error of some segment before which all succeeded. */
  lemma {:induction false} CollectError(outcomes: seq<Result<Option<TimeRange>, ParseError>>)
    requires Collect(outcomes).Err?
    ensures exists j ::
      && 0 <= j < |outcomes| && outcomes[j] == Err(Collect(outcomes).error)
      && forall k :: 0 <= k < j ==> outcomes[k].Ok?
  {
    if outcomes[0].Ok? {
      CollectError(outcomes[1..]);
      var j :|
        && 0 <= j < |outcomes[1..]| && outcomes[1..][j] == Err(Collect(outcomes).error)
        && forall k :: 0 <= k < j ==> outcomes[1..][k].Ok?;
      assert outcomes[j + 1] == outcomes[1..][j];
      assert forall k :: 1 <= k < j + 1 ==> outcomes[k] == outcomes[1..][k - 1];
    }
  }

  /** A segment whose ends both parse but are out of order is rejected:
      the ends are never swapped. */
  lemma SegmentOutOfOrder(segment: string)
    requires var rangeStr := Strip(segment); var parts := Split(rangeStr, '-');
      && rangeStr != [] && |parts| == 2
      && ParseTimestamp(Strip(parts[0])).Ok? && ParseTimestamp(Strip(parts[1])).Ok?
      && ParseTimestamp(Strip(parts[0])).value >= ParseTimestamp(Strip(parts[1])).value
    ensures ParseSegment(segment) == Err(StartNotBeforeEnd(Strip(segment)))
  {
  }

  /** A non-blank segment with one `-`: when both stripped ends parse and
      the start comes first, the range is accepted with those ends as its
      labels; otherwise the error of the first end that does not parse is
      raised. */
  lemma SegmentEnds(segment: string)
    requires Strip(segment) != [] && |Split(Strip(segment), '-')| == 2
    ensures var parts := Split(Strip(segment), '-');
      var start, end := ParseTimestamp(Strip(parts[0])), ParseTimestamp(Strip(parts[1]));
      && (start.Ok? && end.Ok? && start.value < end.value ==>
            ParseSegment(segment) == Ok(Some(TimeRange(start.value, end.value, Strip(parts[0]), Strip(parts[1])))))
      && (start.Err? ==> ParseSegment(segment) == Err(start.error))
      && (start.Ok? && end.Err? ==> ParseSegment(segment) == Err(end.error))
  {
  }

  /** No segment of the text is rejected. */
  predicate AllSegmentsParse(segments: seq<string>)
  {
    forall j :: 0 <= j < |segments| ==> ParseSegment(segments[j]).Ok?
  }

  /** `parse_timestamp_ranges` succeeds exactly when every segment does; it
      then returns the range of every non-blank segment, once each, in the
      order of the segments. */
  lemma ParseRangesSegments(text: string)
    ensures ParseRanges(text).Ok? <==> AllSegmentsParse(Split(text, ','))
    ensures ParseRanges(text).Ok? ==>
      var segments, ranges := Split(text, ','), ParseRanges(text).value;
      var kept := Kept(SegmentOutcomes(segments));
      && |kept| == |ranges|
      && (forall k :: 0 <= k < |kept| ==> ParseSegment(segments[kept[k]]) == Ok(Some(ranges[k])))
      && (forall k, l :: 0 <= k < l < |kept| ==> kept[k] < kept[l])
      && (forall j :: 0 <= j < |segments| && Strip(segments[j]) != [] ==> j in kept)
  {
    var segments := Split(text, ',');
    var outcomes := SegmentOutcomes(segments);
    if ParseRanges(text).Ok? {
      CollectKept(outcomes);
      KeptIncreasing(outcomes);
      var kept := Kept(outcomes);
      forall k | 0 <= k < |kept| ensures ParseSegment(segments[kept[k]]) == Ok(Some(ParseRanges(text).value[k])) {
        SegmentOutcome(segments, kept[k]);
      }
      forall j | 0 <= j < |segments| && Strip(segments[j]) != [] ensures j in kept {
        SegmentOutcome(segments, j);
        KeptComplete(outcomes, j);
      }
    }
  }

  /** A range read from a segment runs forward from a non-negative start;
      its labels are the stripped texts on either side of the `-`. */
  lemma SegmentRange(segment: string, range: TimeRange)
    requires ParseSegment(segment) == Ok(Some(range))
    ensures var parts := Split(Strip(segment), '-');
      && |parts| == 2
      && range.startStr == Strip(parts[0]) && range.endStr == Strip(parts[1])
      && ParseTimestamp(range.startStr) == Ok(range.start)
      && ParseTimestamp(range.endStr) == Ok(range.end)
      && 0 <= range.start < range.end
  {
    var parts := Split(Strip(segment), '-');
    if '-' in range.startStr {
      StripChars(parts[0], '-');
    }
    ParseTimestampNonNegative(range.startStr);
  }

  /** Every returned range runs forward from a non-negative start, and its
      labels are the stripped texts on either side of the `-` of its segment,
      which parse to its ends. */
  lemma ParseRangesFields(text: string, k: nat)
    requires ParseRanges(text).Ok? && k < |ParseRanges(text).value|
    ensures k < |Kept(SegmentOutcomes(Split(text, ',')))|
    ensures var range := ParseRanges(text).value[k];
      var segments := Split(text, ',');
      var j := Kept(SegmentOutcomes(segments))[k];
      var parts := Split(Strip(segments[j]), '-');
      && |parts| == 2
      && range.startStr == Strip(parts[0]) && range.endStr == Strip(parts[1])
      && ParseTimestamp(range.startStr) == Ok(range.start)
      && ParseTimestamp(range.endStr) == Ok(range.end)
      && 0 <= range.start < range.end
  {
    var range := ParseRanges(text).value[k];
    var segments := Split(text, ',');
    var outcomes := SegmentOutcomes(segments);
    CollectKept(outcomes);
    var j := Kept(outcomes)[k];
    SegmentOutcome(segments, j);
    SegmentRange(segments[j], range);
  }

  /** Text made only of commas and white space yields no ranges and no error. */
  lemma BlankRanges(text: string)
    requires forall i :: 0 <= i < |text| ==> text[i] == ',' || IsSpace(text[i])
    ensures ParseRanges(text) == Ok([])
  {
    var segments := Split(text, ',');
    var outcomes := SegmentOutcomes(segments);
    forall j | 0 <= j < |segments| ensures outcomes[j] == Ok(None) {
      SegmentOutcome(segments, j);
      forall i | 0 <= i < |segments[j]| ensures IsSpace(segments[j][i]) {
        SplitChars(text, ',', j, segments[j][i]);
      }
      StripEmpty(segments[j]);
    }
    CollectAllBlank(outcomes);
  }

  /** A segment `a-b` whose ends are already stripped and parse in order
      is accepted, with those ends as its labels. */
  lemma SegmentOf(segment: string, a: string, b: string, x: int, y: int)
    requires segment == a + "-" + b && '-' !in a && '-' !in b
    requires a != [] && !IsSpace(a[0]) && !IsSpace(a[|a| - 1])
    requires b != [] && !IsSpace(b[0]) && !IsSpace(b[|b| - 1])
    requires ParseTimestamp(a) == Ok(x) && ParseTimestamp(b) == Ok(y) && x < y
    ensures ParseSegment(segment) == Ok(Some(TimeRange(x, y, a, b)))
  {
    SegmentText(segment, a, b);
    StripUnchanged(a);
    StripUnchanged(b);
    SegmentEnds(segment);
  }

  /** A segment `a-b` with clean ends is its own strip and splits into `a` and `b`. */
  lemma SegmentText(segment: string, a: string, b: string)
    requires segment == a + "-" + b && '-' !in a && '-' !in b
    requires a != [] && !IsSpace(a[0]) && b != [] && !IsSpace(b[|b| - 1])
    ensures Strip(segment) == segment && Split(segment, '-') == [a, b]
  {
    assert segment[0] == a[0] && segment[|segment| - 1] == b[|b| - 1];
    StripUnchanged(segment);
    assert [a, b][1..] == [b];
    assert Join([a, b], '-') == segment;
    SplitJoin([a, b], '-');
  }

  /** A text without a comma is a single segment: the result is what that
      segment's outcome makes of no ranges. */
  lemma SingleSegment(text: string)
    requires ',' !in text
    ensures ParseRanges(text) == Extend(Ok([]), ParseSegment(text))
  {
    SplitFree(text, ',');
    SingleOutcome(text);
    CollectSnoc([], ParseSegment(text));
    assert [] + [ParseSegment(text)] == [ParseSegment(text)];
  }

  lemma SingleOutcome(segment: string)
    ensures SegmentOutcomes([segment]) == [ParseSegment(segment)]
  {
    assert [segment][1..] == [];
  }

  /** A text `a-b` without a comma, whose ends are already stripped and
      parse in order, gives exactly that one range. */
  lemma OneRange(text: string, a: string, b: string, x: int, y: int)
    requires text == a + "-" + b && ',' !in a && ',' !in b && '-' !in a && '-' !in b
    requires a != [] && !IsSpace(a[0]) && !IsSpace(a[|a| - 1])
    requires b != [] && !IsSpace(b[0]) && !IsSpace(b[|b| - 1])
    requires ParseTimestamp(a) == Ok(x) && ParseTimestamp(b) == Ok(y) && x < y
    ensures ParseRanges(text) == Ok([TimeRange(x, y, a, b)])
  {
    SegmentOf(text, a, b, x, y);
    NoCommaBetween(a, b);
    SingleSegment(text);
    assert [] + [TimeRange(x, y, a, b)] == [TimeRange(x, y, a, b)];
  }

  lemma NoCommaBetween(a: string, b: string)
    requires ',' !in a && ',' !in b
    ensures ',' !in a + "-" + b
  {
    assert ',' !in a + "-";
  }

  /** `"1:00-2:30"` is the one range from 60 to 150 seconds, labelled
      `1:00` and `2:30`. */
  lemma RangesExample()
    ensures ParseRanges("1:00-2:30") == Ok([TimeRange(60, 150, "1:00", "2:30")])
  {
    StartExample();
    EndExample();
    ExampleRangeText();
    ExampleEnds("1:00", "2:30");
    OneRange("1:00-2:30", "1:00", "2:30", 60, 150);
  }

  /** The ends of the example hold no `,` or `-` and no white space at
      either end. */
  lemma ExampleEnds(a: string, b: string)
    requires a == "1:00" && b == "2:30"
    ensures ',' !in a && ',' !in b && '-' !in a && '-' !in b
    ensures a != [] && !IsSpace(a[0]) && !IsSpace(a[|a| - 1])
    ensures b != [] && !IsSpace(b[0]) && !IsSpace(b[|b| - 1])
  {
  }

  lemma ExampleRangeText()
    ensures "1:00" + "-" + "2:30" == "1:00-2:30"
  {
  }

  lemma StartExample()
    ensures ParseTimestamp("1:00") == Ok(60)
  {
    TwoDigitFields("1", "00");
    assert "1" + ":" + "00" == "1:00";
    Field1();
    Field00();
    ParseMinutesSeconds("1:00", "1", "00");
  }

  lemma EndExample()
    ensures ParseTimestamp("2:30") == Ok(150)
  {
    TwoDigitFields("2", "30");
    assert "2" + ":" + "30" == "2:30";
    Field2();
    Field30();
    ParseMinutesSeconds("2:30", "2", "30");
  }

  /** Segment `j` is the first one rejected. */
  predicate FirstRejected(segments: seq<string>, j: nat)
  {
    && j < |segments| && ParseSegment(segments[j]).Err?
    && forall k :: 0 <= k < j ==> ParseSegment(segments[k]).Ok?
  }

  /** When `parse_timestamp_ranges` fails, the error it reports is that of
      the first rejected segment. */
  lemma ParseRangesError(text: string)
    requires ParseRanges(text).Err?
    ensures exists j: nat ::
      && FirstRejected(Split(text, ','), j)
      && ParseSegment(Split(text, ',')[j]).error == ParseRanges(text).error
  {
    var segments := Split(text, ',');
    var outcomes := SegmentOutcomes(segments);
    CollectError(outcomes);
    var j :|
      && 0 <= j < |outcomes| && outcomes[j] == Err(Collect(outcomes).error)
      && forall k :: 0 <= k < j ==> outcomes[k].Ok?;
    SegmentOutcome(segments, j);
    forall k | 0 <= k < j ensures ParseSegment(segments[k]).Ok? {
      SegmentOutcome(segments, k);
    }
    assert FirstRejected(segments, j);
  }

  /** The first rejected segment decides the error. */
  lemma ParseRangesFirstError(text: string, j: nat)
    requires FirstRejected(Split(text, ','), j)
    ensures ParseRanges(text) == Err(ParseSegment(Split(text, ',')[j]).error)
  {
    var segments := Split(text, ',');
    var outcomes := SegmentOutcomes(segments);
    SegmentOutcome(segments, j);
    forall k | 0 <= k < j ensures outcomes[k].Ok? {
      SegmentOutcome(segments, k);
    }
    CollectFirstError(outcomes, j);
  }

  /** One more outcome: the gathering of the first `i + 1` outcomes is the
      gathering of the first `i`, extended. */
  lemma CollectStep(outcomes: seq<Result<Option<TimeRange>, ParseError>>, i: nat)
    requires i < |outcomes|
    ensures Collect(outcomes[..i + 1]) == Extend(Collect(outcomes[..i]), outcomes[i])
  {
    assert outcomes[..i + 1] == outcomes[..i] + [outcomes[i]];
    CollectSnoc(outcomes[..i], outcomes[i]);
  }

  /** The first failing outcome decides the whole gathering. */
  lemma CollectStop(outcomes: seq<Result<Option<TimeRange>, ParseError>>, i: nat)
    requires i < |outcomes| && Collect(outcomes[..i]).Ok? && outcomes[i].Err?
    ensures Collect(outcomes) == Err(outcomes[i].error)
  {
    CollectStep(outcomes, i);
    CollectFailedPrefix(outcomes[..i + 1], outcomes[i + 1..]);
    assert outcomes[..i + 1] + outcomes[i + 1..] == outcomes;
  }

  /** `parse_timestamp_ranges` as the server runs it: one pass over the
      comma-separated segments, skipping blank ones, raising at the first
      bad one and appending each valid range. */
  method ParseTimestampRanges(text: string) returns (r: Result<seq<TimeRange>, ParseError>)
    ensures r == ParseRanges(text)
  {
    var segments := Split(text, ',');
    ghost var outcomes := SegmentOutcomes(segments);
    var ranges: seq<TimeRange> := [];
    var i := 0;
    while i < |segments|
      invariant 0 <= i <= |segments|
      invariant Collect(outcomes[..i]) == Ok(ranges)
    {
      SegmentOutcome(segments, i);
      CollectStep(outcomes, i);
      var rangeStr := Strip(segments[i]);
      if rangeStr != [] {
        var parts := Split(rangeStr, '-');
        if |parts| != 2 {
          CollectStop(outcomes, i);
          return Err(InvalidRangeFormat(rangeStr));
        }
        var start := ParseTimestamp(Strip(parts[0]));
        if start.Err? {
          SegmentEnds(segments[i]);
          CollectStop(outcomes, i);
          return Err(start.error);
        }
        var end := ParseTimestamp(Strip(parts[1]));
        if end.Err? {
          SegmentEnds(segments[i]);
          CollectStop(outcomes, i);
          return Err(end.error);
        }
        if start.value >= end.value {
          SegmentOutOfOrder(segments[i]);
          CollectStop(outcomes, i);
          return Err(StartNotBeforeEnd(rangeStr));
        }
        SegmentEnds(segments[i]);
        ranges := ranges + [TimeRange(start.value, end.value, Strip(parts[0]), Strip(parts[1]))];
      } else {
        assert ranges + [] == ranges;
      }
      i := i + 1;
    }
    assert outcomes[..i] == outcomes;
    return Ok(ranges);
  }
}
