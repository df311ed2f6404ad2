/**
 * The catalog of timestamp kinds (src/timestamp_kinds.rs).
 *
 * A kind pairs a regular expression with a small piece of glue that turns the
 * captured groups into a call to chrono, sometimes after synthesising a full date
 * string from the year/month/day read off the clock when the kind was built, and
 * sometimes adding a millisecond or microsecond offset afterwards. The regex
 * engine and chrono's parsers are foreign code: they are the fields of
 * `Foreign`, and nothing is assumed about them.
 */
module TimestampKinds {
  import opened Wrappers
  import opened Decimal

  /** A point in time: whole microseconds since the Unix epoch, UTC. */
  type Timestamp = int

  /** The eight kinds, named after the timestamp text each one recognises. */
  datatype Shape =
    | TimeOnly     // 01:21:27
    | Syslog       // Apr 6 17:13:40
    | IsoOffset    // 2018-12-15T02:11:06+0200
    | IsoFraction  // 2018-12-15T02:11:06.123456+02:00
    | CommaMillis  // 2018-04-06 17:13:40,955
    | DashedDate   // [2018-04-06 17:13:40.955356
    | SlashedDate  // [2018/04/06 17:13:40.955356
    | Strace       // 16255 15:08:52.554223

  /** The catalog order: the order in which an unlocked stream tries the kinds. */
  const Shapes: seq<Shape> :=
    [TimeOnly, Syslog, IsoOffset, IsoFraction, CommaMillis, DashedDate, SlashedDate, Strace]

  /** The regular expression of each kind, character for character. */
  function Pattern(shape: Shape): string {
    match shape
    case TimeOnly => "^(\\d+:\\d+:\\d+)"
    case Syslog => "^(\\w{3} +\\d+ +\\d+:\\d+:\\d+)"
    case IsoOffset => "^(\\d{4}-\\d{2}-\\d{2}T\\d{2}:\\d{2}:\\d{2}\\+\\d{4})"
    case IsoFraction => "^(\\d{4}-\\d{2}-\\d{2}T\\d{2}:\\d{2}:\\d{2})[.,](\\d{6})\\d*(\\+\\d{2}):(\\d{2})"
    case CommaMillis => "(\\d{4}-\\d{2}-\\d{2} \\d{2}:\\d{2}:\\d{2}),(\\d{3})[| ]"
    case DashedDate => "^\\[?(\\d{4}-\\d{2}-\\d{2} \\d{2}:\\d{2}:\\d{2})(?:\\.(\\d{6}))?"
    case SlashedDate => "^\\[?(\\d{4}/\\d{2}/\\d{2} \\d{2}:\\d{2}:\\d{2})(?:\\.(\\d{6}))?"
    case Strace => "\\d+ (\\d{2}:\\d{2}:\\d{2}).(\\d{6})"
  }

  /** The chrono format string each kind parses its text with. */
  function Format(shape: Shape): string {
    match shape
    case TimeOnly => "%Y.%m.%d %H:%M:%S"
    case Syslog => "%Y %b %d %H:%M:%S"
    case IsoOffset => "%Y-%m-%dT%H:%M:%S%:z"
    case IsoFraction => "%Y-%m-%dT%H:%M:%S%.f%z"
    case CommaMillis => "%Y-%m-%dT%H:%M:%S%z"
    case DashedDate => "%Y-%m-%d %H:%M:%S"
    case SlashedDate => "%Y/%m/%d %H:%M:%S"
    case Strace => "%Y.%m.%d %H:%M:%S"
  }

  /**
   * Which chrono entry point a kind uses: `Utc.datetime_from_str` (the text is
   * read as UTC) or `DateTime::parse_from_str` (the text carries its own offset,
   * and the result is converted to UTC).
   */
  predicate ReadsOffset(shape: Shape) {
    shape in {IsoOffset, IsoFraction, CommaMillis}
  }

  /** What a successful regex match yields: group 0 is the whole match, then the capture groups. */
  datatype Captures = Captures(groups: seq<Option<string>>)

  function Group(caps: Captures, i: nat): Option<string> {
    if i < |caps.groups| then caps.groups[i] else None
  }

  /**
   * The text of a group that is not optional in its pattern. Such a group takes
   * part in every match, so the empty default is never used for a real match.
   */
  function Mandatory(caps: Captures, i: nat): string {
    Group(caps, i).GetOr("")
  }

  /** The foreign code the kinds call, left uninterpreted. */
  datatype Foreign = Foreign(
    captures: (string, string) -> Option<Captures>,   // regex: (pattern, input)
    utcFromStr: (string, string) -> Option<Timestamp>,  // Utc.datetime_from_str(text, format)
    fixedFromStr: (string, string) -> Option<Timestamp>) // DateTime::parse_from_str(text, format), in UTC

  function Chrono(f: Foreign, shape: Shape, text: string): Option<Timestamp> {
    if ReadsOffset(shape) then f.fixedFromStr(text, Format(shape)) else f.utcFromStr(text, Format(shape))
  }

  /** A clock reading: the calendar date of `Utc::now()`. */
  datatype CivilDate = CivilDate(year: int, month: int, day: int)

  predicate ValidReading(d: CivilDate) {
    0 <= d.year <= 9999 && 1 <= d.month <= 12 && 1 <= d.day <= 31
  }

  /** The date as the three strings `%Y`, `%m` and `%d` format it. */
  datatype DateSnapshot = DateSnapshot(year: string, month: string, day: string)

  function Snapshot(d: CivilDate): (r: DateSnapshot)
    requires ValidReading(d)
    ensures |r.year| == 4 && |r.month| == 2 && |r.day| == 2
    ensures AllDigits(r.year) && AllDigits(r.month) && AllDigits(r.day)
  {
    ShowNatLength(d.year, 4);
    ShowNatLength(d.month, 2);
    ShowNatLength(d.day, 2);
    DateSnapshot(ZeroPad(d.year, 4), ZeroPad(d.month, 2), ZeroPad(d.day, 2))
  }

  /** A timestamp kind: its shape and the date snapshot taken when it was built. */
  datatype Kind = Kind(shape: Shape, snapshot: DateSnapshot)

  /** `TimestampKind::new`: each kind reads the clock for itself. */
  function NewKind(shape: Shape, now: CivilDate): (k: Kind)
    requires ValidReading(now)
    ensures k.shape == shape
    ensures ParseI64(k.snapshot.year) == Some(now.year)
    ensures ParseI64(k.snapshot.month) == Some(now.month)
    ensures ParseI64(k.snapshot.day) == Some(now.day)
  {
    ParseZeroPad(now.year, 4);
    ParseZeroPad(now.month, 2);
    ParseZeroPad(now.day, 2);
    Kind(shape, Snapshot(now))
  }

  /**
   * `get_timestamp_kinds`: one kind per shape, in catalog order; `readings` are
   * the eight clock readings taken one after the other as the kinds are built.
   */
  function Catalog(readings: seq<CivilDate>): (cat: seq<Kind>)
    requires |readings| == |Shapes|
    requires forall i :: 0 <= i < |readings| ==> ValidReading(readings[i])
    ensures |cat| == |Shapes|
    ensures forall i :: 0 <= i < |cat| ==> cat[i].shape == Shapes[i]
    ensures forall i :: 0 <= i < |cat| ==> ParseI64(cat[i].snapshot.year) == Some(readings[i].year)
    ensures forall i :: 0 <= i < |cat| ==> ParseI64(cat[i].snapshot.month) == Some(readings[i].month)
    ensures forall i :: 0 <= i < |cat| ==> ParseI64(cat[i].snapshot.day) == Some(readings[i].day)
  {
    seq(|readings|, i requires 0 <= i < |readings| => NewKind(Shapes[i], readings[i]))
  }

  /** The position of a shape in the catalog order. */
  function Rank(shape: Shape): (i: nat)
    ensures i < |Shapes| && Shapes[i] == shape
  {
    match shape
    case TimeOnly => 0
    case Syslog => 1
    case IsoOffset => 2
    case IsoFraction => 3
    case CommaMillis => 4
    case DashedDate => 5
    case SlashedDate => 6
    case Strace => 7
  }

  /** Every shape appears in the catalog exactly once. */
  lemma {:induction false} CatalogHasEachShapeOnce(readings: seq<CivilDate>, shape: Shape)
    requires |readings| == |Shapes|
    requires forall i :: 0 <= i < |readings| ==> ValidReading(readings[i])
    ensures Catalog(readings)[Rank(shape)].shape == shape
    ensures forall i :: 0 <= i < |Shapes| && Catalog(readings)[i].shape == shape ==> i == Rank(shape)
  {
    var cat := Catalog(readings);
    forall i | 0 <= i < |Shapes| && cat[i].shape == shape
      ensures i == Rank(shape)
    {
      RankOfPosition(i);
    }
  }

  lemma RankOfPosition(i: nat)
    requires i < |Shapes|
    ensures Rank(Shapes[i]) == i
  {
  }

  /** The "year.month.day time" string the time-only kinds build (lines 45 and 96). */
  function DatedTime(snap: DateSnapshot, time: string): string {
    snap.year + "." + snap.month + "." + snap.day + " " + time
  }

  /** The glue's result before the offset: the text chrono reads, and the scratch buffer after writing. */
  datatype Glue = Glue(text: string, buffer: string, offset: Offset)

  /** The offset a kind adds once chrono has produced the base time. */
  datatype Offset =
    | NoOffset
    | MillisOf(digits: string)                 // lazily parsed, inside `.map`
    | MicrosOf(digits: string)                 // lazily parsed, inside `.map`
    | OptionalMicrosOf(fraction: Option<string>) // parsed before chrono is called

  /** Whether the kind assembles its text in the scratch buffer rather than borrowing the capture. */
  predicate WritesBuffer(shape: Shape) {
    shape in {TimeOnly, Syslog, IsoFraction, Strace}
  }

  /**
   * What each kind's closure does before calling chrono. Kinds that `write!` into
   * the buffer append to what it already holds and hand chrono the whole buffer.
   */
  function Prepare(k: Kind, caps: Captures, buffer: string): (g: Glue)
    ensures WritesBuffer(k.shape) ==> g.buffer == g.text && |buffer| <= |g.text| && g.text[..|buffer|] == buffer
    ensures !WritesBuffer(k.shape) ==> g.buffer == buffer && g.text == Mandatory(caps, 1)
    ensures g.offset.NoOffset? <==> k.shape in {TimeOnly, Syslog, IsoOffset, IsoFraction}
    ensures g.offset.MillisOf? <==> k.shape == CommaMillis
    ensures g.offset.MicrosOf? <==> k.shape == Strace
    ensures g.offset.OptionalMicrosOf? ==> g.offset.fraction == Group(caps, 2)
  {
    match k.shape
    case TimeOnly =>
      var s := buffer + DatedTime(k.snapshot, Mandatory(caps, 1));
      Glue(s, s, NoOffset)
    case Syslog =>
      var s := buffer + k.snapshot.year + " " + Mandatory(caps, 1);
      Glue(s, s, NoOffset)
    case IsoOffset =>
      Glue(Mandatory(caps, 1), buffer, NoOffset)
    case IsoFraction =>
      var s := buffer + Mandatory(caps, 1) + "." + Mandatory(caps, 2) + Mandatory(caps, 3) + Mandatory(caps, 4);
      Glue(s, s, NoOffset)
    case CommaMillis =>
      Glue(Mandatory(caps, 1), buffer, MillisOf(Mandatory(caps, 2)))
    case DashedDate =>
      Glue(Mandatory(caps, 1), buffer, OptionalMicrosOf(Group(caps, 2)))
    case SlashedDate =>
      Glue(Mandatory(caps, 1), buffer, OptionalMicrosOf(Group(caps, 2)))
    case Strace =>
      var s := buffer + DatedTime(k.snapshot, Mandatory(caps, 1));
      Glue(s, s, MicrosOf(Mandatory(caps, 2)))
  }

  /** The outcome of `.parse().unwrap()`: a value, or a panic that aborts the program. */
  datatype Unwrapped<T> = Panic | Value(v: T)

  /** `s.parse::<i64>().unwrap()`. */
  function ParseUnwrap(s: string): (r: Unwrapped<int>)
    ensures r.Value? <==> ParseI64(s).Some?
    ensures r.Value? ==> r.v == ParseI64(s).value
    ensures (exists i :: 0 <= i < |s| && !IsDigit(s[i]) && !(i == 0 && (s[0] == '+' || s[0] == '-'))) ==> r.Panic?
    ensures |s| == 0 || s == "+" || s == "-" ==> r.Panic?
    ensures |s| > 0 && AllDigits(s) && DigitsValue(s) <= I64Max ==> r == Value(DigitsValue(s))
    ensures |s| > 0 && AllDigits(s) && DigitsValue(s) > I64Max ==> r.Panic?
  {
    match ParseI64(s)
    case Some(v) => Value(v)
    case None => Panic
  }

  /** The offset step as the source writes it, panics included. */
  function ApplyOffsetAsWritten(base: Option<Timestamp>, offset: Offset): (r: Unwrapped<Option<Timestamp>>)
    ensures offset.NoOffset? ==> r == Value(base)
    ensures r.Panic? && (offset.MillisOf? || offset.MicrosOf?) ==> base.Some? && ParseI64(offset.digits).None?
    ensures r.Panic? && offset.OptionalMicrosOf? ==> offset.fraction.Some? && ParseI64(offset.fraction.value).None?
    ensures r.Value? && r.v.Some? ==> base.Some?
    ensures r.Value? && base.Some? && offset.MicrosOf? ==> ParseI64(offset.digits).Some? && r.v == Some(base.value + ParseI64(offset.digits).value)
    ensures r.Value? && base.Some? && offset.MillisOf? ==> ParseI64(offset.digits).Some? && r.v == Some(base.value + ParseI64(offset.digits).value * 1000)
    ensures offset.OptionalMicrosOf? && offset.fraction.Some? && ParseI64(offset.fraction.value).None? ==> r.Panic?
    ensures offset.OptionalMicrosOf? && r.Value? ==>
              r.v == (if base.Some? then Some(base.value + (if offset.fraction.Some? then ParseI64(offset.fraction.value).value else 0)) else None)
  {
    match offset
    case NoOffset => Value(base)
    case MillisOf(d) =>
      if base.None? then Value(None)
      else (match ParseUnwrap(d) case Panic => Panic case Value(ms) => Value(Some(base.value + ms * 1000)))
    case MicrosOf(d) =>
      if base.None? then Value(None)
      else (match ParseUnwrap(d) case Panic => Panic case Value(us) => Value(Some(base.value + us)))
    case OptionalMicrosOf(g) =>
      var micros := if g.Some? then ParseUnwrap(g.value) else Value(0);
      (match micros
       case Panic => Panic
       case Value(us) => Value(if base.Some? then Some(base.value + us) else None))
  }

  /**
   * The optional fraction of the bracketed kinds, read as a pattern with ASCII
   * digits would: digits that do not parse count as no fraction.
   */
  function OptionalMicros(g: Option<string>): (us: int)
    ensures g.None? ==> us == 0
    ensures g.Some? && ParseI64(g.value).Some? ==> us == ParseI64(g.value).value
    ensures g.Some? && ParseI64(g.value).None? ==> us == 0
  {
    if g.Some? && ParseI64(g.value).Some? then ParseI64(g.value).value else 0
  }

  /**
   * The offset step as the model uses it: a fraction that does not parse makes a
   * mandatory fraction's conversion fail and an optional one count as absent,
   * instead of panicking.
   */
  function ApplyOffset(base: Option<Timestamp>, offset: Offset): (r: Option<Timestamp>)
    ensures base.None? ==> r.None?
    ensures ApplyOffsetAsWritten(base, offset).Value? ==> r == ApplyOffsetAsWritten(base, offset).v
    ensures offset.NoOffset? ==> r == base
    ensures (offset.MillisOf? || offset.MicrosOf?) && ParseI64(offset.digits).None? ==> r.None?
    ensures offset.OptionalMicrosOf? && offset.fraction.Some? && ParseI64(offset.fraction.value).None? ==> r == base
  {
    match offset
    case NoOffset => base
    case MillisOf(d) =>
      if base.Some? && ParseI64(d).Some? then Some(base.value + ParseI64(d).value * 1000) else None
    case MicrosOf(d) =>
      if base.Some? && ParseI64(d).Some? then Some(base.value + ParseI64(d).value) else None
    case OptionalMicrosOf(g) =>
      if base.Some? then Some(base.value + OptionalMicros(g)) else None
  }

  /** Digits that are decimal digits to the regex engine but not to `str::parse`. */
  const ArabicIndicFraction: string := "\U{0661}\U{0662}\U{0663}\U{0664}\U{0665}\U{0666}"

  /**
   * The regex crate's `\d` matches every Unicode decimal digit, so `\d{6}` can
   * capture "١٢٣٤٥٦" (as in the line "[2018-04-06 17:13:40.١٢٣٤٥٦ ..."); the
   * source then panics on `.parse().unwrap()` whatever chrono says, while the
   * corrected step keeps the base time.
   */
  lemma WideDigitFractionPanics(base: Option<Timestamp>)
    ensures ApplyOffsetAsWritten(base, OptionalMicrosOf(Some(ArabicIndicFraction))).Panic?
    ensures ApplyOffset(base, OptionalMicrosOf(Some(ArabicIndicFraction))) == base
  {
    assert !IsDigit(ArabicIndicFraction[0]);
  }

  /** The outcome of `TimestampKind::parse`: the timestamp, and the scratch buffer it leaves behind. */
  datatype Parsed = Parsed(ts: Option<Timestamp>, scratch: string)

  /** A kind's closure applied to a match, with the scratch buffer it is given. */
  function Convert(k: Kind, f: Foreign, caps: Captures, buffer: string): Parsed {
    var g := Prepare(k, caps, buffer);
    Parsed(ApplyOffset(Chrono(f, k.shape, g.text), g.offset), g.buffer)
  }

  /**
   * `TimestampKind::parse`: clear the scratch buffer, match the pattern, and
   * convert; a failed match or a failed conversion both give None.
   */
  function Parse(k: Kind, f: Foreign, input: string, scratch: string): (r: Parsed)
    ensures f.captures(Pattern(k.shape), input).None? ==> r == Parsed(None, [])
    ensures f.captures(Pattern(k.shape), input).Some? ==>
              var g := Prepare(k, f.captures(Pattern(k.shape), input).value, []);
              && r.scratch == g.buffer
              && (Chrono(f, k.shape, g.text).None? ==> r.ts.None?)
              && (g.offset.NoOffset? ==> r.ts == Chrono(f, k.shape, g.text))
  {
    match f.captures(Pattern(k.shape), input)
    case None => Parsed(None, [])
    case Some(caps) => Convert(k, f, caps, [])
  }

  /** Whether kind `k` finds a timestamp in `line`. */
  predicate Succeeds(k: Kind, f: Foreign, line: string) {
    Parse(k, f, line, []).ts.Some?
  }

  /** Since the buffer is cleared first, what it held before never matters. */
  lemma ParseIgnoresScratch(k: Kind, f: Foreign, input: string, s1: string, s2: string)
    ensures Parse(k, f, input, s1) == Parse(k, f, input, s2)
  {
  }

  /** Without a match, the chrono side is never consulted: any two parsers give the same result. */
  lemma NoMatchNeverConverts(k: Kind, f: Foreign, g: Foreign, input: string, scratch: string)
    requires f.captures == g.captures
    requires f.captures(Pattern(k.shape), input).None?
    ensures Parse(k, f, input, scratch) == Parse(k, g, input, scratch)
    ensures Parse(k, f, input, scratch).ts.None?
  {
  }

  /**
   * The date string of a time-only kind reads back as the clock reading the kind
   * was built with: four year digits, a dot, two month digits, a dot, two day
   * digits, a space, then the captured time.
   */
  lemma DatedTimeFields(now: CivilDate, time: string)
    requires ValidReading(now)
    ensures var text := DatedTime(Snapshot(now), time);
            && AllDigits(text[..4]) && AllDigits(text[5..7]) && AllDigits(text[8..10])
            && ParseI64(text[..4]) == Some(now.year) && text[4] == '.'
            && ParseI64(text[5..7]) == Some(now.month) && text[7] == '.'
            && ParseI64(text[8..10]) == Some(now.day) && text[10] == ' '
            && text[11..] == time
  {
    var k := NewKind(TimeOnly, now);
    DatedTimeSplits(k.snapshot, time);
  }

  lemma DatedTimeSplits(snap: DateSnapshot, time: string)
    requires |snap.year| == 4 && |snap.month| == 2 && |snap.day| == 2
    ensures var text := DatedTime(snap, time);
            && text[..4] == snap.year && text[4] == '.'
            && text[5..7] == snap.month && text[7] == '.'
            && text[8..10] == snap.day && text[10] == ' '
            && text[11..] == time
  {
    var text := DatedTime(snap, time);
    assert text == snap.year + ("." + snap.month + "." + snap.day + " " + time);
  }

  /**
   * The two time-only kinds hand chrono exactly "year.month.day time" (and leave
   * it in the scratch buffer), the date coming from the kind's snapshot.
   */
  lemma TimeOnlyDatesTheCapture(k: Kind, f: Foreign, input: string, scratch: string)
    requires k.shape in {TimeOnly, Strace}
    requires f.captures(Pattern(k.shape), input).Some?
    ensures var caps := f.captures(Pattern(k.shape), input).value;
            var text := DatedTime(k.snapshot, Mandatory(caps, 1));
            && Parse(k, f, input, scratch).scratch == text
            && Prepare(k, caps, []).text == text
            && Chrono(f, k.shape, text) == f.utcFromStr(text, "%Y.%m.%d %H:%M:%S")
  {
    var caps := f.captures(Pattern(k.shape), input).value;
    var text := DatedTime(k.snapshot, Mandatory(caps, 1));
    assert [] + text == text;
  }

  /** The time-only kind's result is chrono's reading of the dated capture, with nothing added. */
  lemma TimeOnlyResult(k: Kind, f: Foreign, input: string, scratch: string)
    requires k.shape == TimeOnly && f.captures(Pattern(TimeOnly), input).Some?
    ensures var caps := f.captures(Pattern(TimeOnly), input).value;
            Parse(k, f, input, scratch).ts == f.utcFromStr(DatedTime(k.snapshot, Mandatory(caps, 1)), "%Y.%m.%d %H:%M:%S")
  {
    TimeOnlyDatesTheCapture(k, f, input, scratch);
  }

  /** The syslog kind hands chrono "year Mon d hh:mm:ss", the year taken from the snapshot. */
  lemma SyslogPrependsYear(k: Kind, f: Foreign, input: string, scratch: string)
    requires k.shape == Syslog && f.captures(Pattern(Syslog), input).Some?
    ensures var caps := f.captures(Pattern(Syslog), input).value;
            var text := k.snapshot.year + " " + Mandatory(caps, 1);
            && Parse(k, f, input, scratch) == Parsed(f.utcFromStr(text, "%Y %b %d %H:%M:%S"), text)
  {
    var caps := f.captures(Pattern(Syslog), input).value;
    var text := k.snapshot.year + " " + Mandatory(caps, 1);
    assert [] + k.snapshot.year + " " + Mandatory(caps, 1) == text;
    assert Prepare(k, caps, []) == Glue(text, text, NoOffset);
  }

  /**
   * The fractional ISO kind rebuilds "date.ffffff+hhmm" from its four groups: the
   * six kept fraction digits, and the offset without its colon.
   */
  lemma IsoFractionRebuilds(k: Kind, f: Foreign, input: string, scratch: string)
    requires k.shape == IsoFraction && f.captures(Pattern(IsoFraction), input).Some?
    ensures var caps := f.captures(Pattern(IsoFraction), input).value;
            var text := Mandatory(caps, 1) + "." + Mandatory(caps, 2) + Mandatory(caps, 3) + Mandatory(caps, 4);
            && Parse(k, f, input, scratch) == Parsed(f.fixedFromStr(text, "%Y-%m-%dT%H:%M:%S%.f%z"), text)
  {
    var caps := f.captures(Pattern(IsoFraction), input).value;
    var text := Mandatory(caps, 1) + "." + Mandatory(caps, 2) + Mandatory(caps, 3) + Mandatory(caps, 4);
    assert [] + Mandatory(caps, 1) + "." + Mandatory(caps, 2) + Mandatory(caps, 3) + Mandatory(caps, 4) == text;
    assert Prepare(k, caps, []) == Glue(text, text, NoOffset);
    assert ReadsOffset(IsoFraction);
  }

  /** The zone-qualified ISO kind hands its capture to chrono untouched and leaves the buffer empty. */
  lemma IsoOffsetPassesCapture(k: Kind, f: Foreign, input: string, scratch: string)
    requires k.shape == IsoOffset && f.captures(Pattern(IsoOffset), input).Some?
    ensures var caps := f.captures(Pattern(IsoOffset), input).value;
            Parse(k, f, input, scratch) == Parsed(f.fixedFromStr(Mandatory(caps, 1), "%Y-%m-%dT%H:%M:%S%:z"), [])
  {
    var caps := f.captures(Pattern(IsoOffset), input).value;
    assert Prepare(k, caps, []) == Glue(Mandatory(caps, 1), [], NoOffset);
    assert ReadsOffset(IsoOffset);
  }

  /**
   * The bracketed kinds: without a fraction the result is chrono's base time;
   * with six ASCII digits it is the base time plus that many microseconds,
   * less than one second later.
   */
  lemma BracketedAddsMicros(k: Kind, f: Foreign, input: string, scratch: string)
    requires k.shape in {DashedDate, SlashedDate} && f.captures(Pattern(k.shape), input).Some?
    ensures var caps := f.captures(Pattern(k.shape), input).value;
            var base := f.utcFromStr(Mandatory(caps, 1), Format(k.shape));
            && (Group(caps, 2).None? ==> Parse(k, f, input, scratch).ts == base)
            && (base.None? ==> Parse(k, f, input, scratch).ts.None?)
            && (Group(caps, 2).Some? && |Group(caps, 2).value| == 6 && AllDigits(Group(caps, 2).value) && base.Some? ==>
                  var us := DigitsValue(Group(caps, 2).value);
                  0 <= us < 1_000_000 && Parse(k, f, input, scratch).ts == Some(base.value + us))
  {
    var caps := f.captures(Pattern(k.shape), input).value;
    assert Prepare(k, caps, []) == Glue(Mandatory(caps, 1), [], OptionalMicrosOf(Group(caps, 2)));
    assert !ReadsOffset(k.shape);
    if Group(caps, 2).Some? && |Group(caps, 2).value| == 6 && AllDigits(Group(caps, 2).value) {
      SixDigits(Group(caps, 2).value);
    }
  }

  /** The strace kind adds its six-digit fraction as microseconds to the dated capture's time. */
  lemma StraceAddsMicros(k: Kind, f: Foreign, input: string, scratch: string)
    requires k.shape == Strace && f.captures(Pattern(Strace), input).Some?
    ensures var caps := f.captures(Pattern(Strace), input).value;
            var base := f.utcFromStr(DatedTime(k.snapshot, Mandatory(caps, 1)), "%Y.%m.%d %H:%M:%S");
            var frac := Mandatory(caps, 2);
            && (base.None? ==> Parse(k, f, input, scratch).ts.None?)
            && (base.Some? && |frac| == 6 && AllDigits(frac) ==>
                  var us := DigitsValue(frac);
                  0 <= us < 1_000_000 && Parse(k, f, input, scratch).ts == Some(base.value + us))
  {
    var caps := f.captures(Pattern(Strace), input).value;
    var text := DatedTime(k.snapshot, Mandatory(caps, 1));
    var frac := Mandatory(caps, 2);
    assert [] + text == text;
    assert Prepare(k, caps, []) == Glue(text, text, MicrosOf(frac));
    assert !ReadsOffset(Strace);
    if |frac| == 6 && AllDigits(frac) {
      SixDigits(frac);
    }
  }

  /** The comma kind adds its three-digit fraction as milliseconds to chrono's reading of the date and time. */
  lemma CommaAddsMillis(k: Kind, f: Foreign, input: string, scratch: string)
    requires k.shape == CommaMillis && f.captures(Pattern(CommaMillis), input).Some?
    ensures var caps := f.captures(Pattern(CommaMillis), input).value;
            var base := f.fixedFromStr(Mandatory(caps, 1), "%Y-%m-%dT%H:%M:%S%z");
            var frac := Mandatory(caps, 2);
            && (base.None? ==> Parse(k, f, input, scratch).ts.None?)
            && (base.Some? && |frac| == 3 && AllDigits(frac) ==>
                  var ms := DigitsValue(frac);
                  0 <= ms < 1000 && Parse(k, f, input, scratch).ts == Some(base.value + ms * 1000))
  {
    var caps := f.captures(Pattern(CommaMillis), input).value;
    var frac := Mandatory(caps, 2);
    if |frac| == 3 && AllDigits(frac) {
      DigitsValueBound(frac);
      assert Pow10(3) == 1000;
    }
  }

  lemma SixDigits(s: string)
    requires |s| == 6 && AllDigits(s)
    ensures DigitsValue(s) < 1_000_000
    ensures ParseI64(s) == Some(DigitsValue(s))
  {
    DigitsValueBound(s);
    assert Pow10(6) == 1_000_000;
  }
}
