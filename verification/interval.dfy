/**
 * The interval column (src/main.rs:88-96 and 117-137): the `-i` unit, and the
 * loop over the merged items that prints, before each line, the time since the
 * last timestamped line in whole seconds or milliseconds.
 */
module Interval {
  import opened Wrappers
  import opened Decimal
  import opened TimestampKinds
  import opened TimestampStream

  /** The unit of the interval column. */
  datatype Unit = Seconds | Milliseconds

  /** `io::ErrorKind::InvalidInput`, "invalid interval specifier". */
  datatype UnitError = InvalidIntervalSpecifier

  /** The `-i` argument: "s", "ms", absent (no column), or an error for anything else. */
  function ParseUnit(arg: Option<string>): (r: Result<Option<Unit>, UnitError>)
    ensures r == Success(None) <==> arg.None?
    ensures r == Success(Some(Seconds)) <==> arg == Some("s")
    ensures r == Success(Some(Milliseconds)) <==> arg == Some("ms")
    ensures r.Failure? <==> arg.Some? && arg.value != "s" && arg.value != "ms"
  {
    match arg
    case None => Success(None)
    case Some(s) =>
      if s == "s" then Success(Some(Seconds))
      else if s == "ms" then Success(Some(Milliseconds))
      else Failure(InvalidIntervalSpecifier)
  }

  /** Microseconds per unit. */
  function PerUnit(u: Unit): nat {
    match u
    case Seconds => 1_000_000
    case Milliseconds => 1_000
  }

  /**
   * Division rounding toward zero, as chrono's `Duration::num_seconds` and
   * `num_milliseconds` round: the quotient is never further from zero than `a / b`
   * is exact.
   */
  function TruncDiv(a: int, b: int): (q: int)
    requires b > 0
    ensures a >= 0 ==> 0 <= q && q * b <= a < q * b + b
    ensures a < 0 ==> q <= 0 && q * b - b < a <= q * b
  {
    if a >= 0 then a / b else -((-a) / b)
  }

  /** Rounding toward zero is symmetric, which Euclidean division is not. */
  lemma TruncDivOdd(a: int, b: int)
    requires b > 0
    ensures TruncDiv(-a, b) == -TruncDiv(a, b)
  {
  }

  /** Half a second back reads as 0 seconds, where Euclidean division would say -1. */
  lemma TruncDivNotEuclidean()
    ensures TruncDiv(-500_000, PerUnit(Seconds)) == 0
    ensures -500_000 / PerUnit(Seconds) == -1
  {
  }

  /** The interval shown before a line: only when the line and some earlier line both have timestamps. */
  function Delta(prev: Option<Timestamp>, cur: Option<Timestamp>, u: Unit): (d: Option<int>)
    ensures d.Some? <==> prev.Some? && cur.Some?
    ensures d.Some? && cur.value >= prev.value ==> d.value * PerUnit(u) <= cur.value - prev.value < (d.value + 1) * PerUnit(u)
    ensures d.Some? && cur.value < prev.value ==> (d.value - 1) * PerUnit(u) < cur.value - prev.value <= d.value * PerUnit(u)
  {
    if prev.Some? && cur.Some? then Some(TruncDiv(cur.value - prev.value, PerUnit(u))) else None
  }

  /** `{:7}`: the number right-aligned in seven columns, or seven spaces. */
  function Column(d: Option<int>): (r: string)
    ensures d.None? ==> r == Repeat(' ', 7)
    ensures d.Some? ==> |r| == if |ShowInt(d.value)| < 7 then 7 else |ShowInt(d.value)|
    ensures d.Some? ==> r[|r| - |ShowInt(d.value)|..] == ShowInt(d.value)
    ensures d.Some? ==> forall i :: 0 <= i < |r| - |ShowInt(d.value)| ==> r[i] == ' '
  {
    match d
    case None => PadLeft("", 7)
    case Some(n) => PadLeft(ShowInt(n), 7)
  }

  /** `s` without its leading spaces. */
  function TrimStart(s: string): (r: string)
    ensures |r| <= |s| && r == s[|s| - |r|..]
    ensures |r| > 0 ==> r[0] != ' '
  {
    if |s| > 0 && s[0] == ' ' then TrimStart(s[1..]) else s
  }

  lemma {:induction false} TrimSpaces(n: nat, s: string)
    requires |s| == 0 || s[0] != ' '
    ensures TrimStart(Repeat(' ', n) + s) == s
  {
    if n > 0 {
      assert (Repeat(' ', n) + s)[1..] == Repeat(' ', n - 1) + s;
      TrimSpaces(n - 1, s);
    } else {
      assert Repeat(' ', n) + s == s;
    }
  }

  /** A filled column reads back as the interval it shows. */
  lemma ColumnReadsBack(n: int)
    requires I64Min <= n <= I64Max
    ensures ParseI64(TrimStart(Column(Some(n)))) == Some(n)
  {
    var s := ShowInt(n);
    assert s[0] == '-' || IsDigit(s[0]);
    var pad := if |s| < 7 then 7 - |s| else 0;
    assert Column(Some(n)) == Repeat(' ', pad) + s;
    TrimSpaces(pad, s);
    ParseShowInt(n);
  }

  /** The most recent timestamp among `items`, if any carries one. */
  function LastTimestamp(items: seq<Item>): Option<Timestamp> {
    if |items| == 0 then None
    else if items[|items| - 1].ts.Some? then items[|items| - 1].ts
    else LastTimestamp(items[..|items| - 1])
  }

  /** The line printed for item `i` of the merged sequence. */
  function Annotated(items: seq<Item>, i: nat, unit: Option<Unit>): string
    requires i < |items|
  {
    match unit
    case None => items[i].text
    case Some(u) => Column(Delta(LastTimestamp(items[..i]), items[i].ts, u)) + items[i].text
  }

  /**
   * The output loop: without a unit every line passes through; with one, each
   * line gets the interval since the last line that had a timestamp, and only a
   * timestamped line moves that mark.
   */
  method Annotate(items: seq<Item>, unit: Option<Unit>) returns (lines: seq<string>)
    ensures |lines| == |items|
    ensures forall i :: 0 <= i < |items| ==> lines[i] == Annotated(items, i, unit)
    ensures unit.None? ==> forall i :: 0 <= i < |items| ==> lines[i] == items[i].text
  {
    var prev: Option<Timestamp> := None;
    lines := [];
    var i := 0;
    while i < |items|
      invariant 0 <= i <= |items|
      invariant |lines| == i
      invariant unit.Some? ==> prev == LastTimestamp(items[..i])
      invariant forall j :: 0 <= j < i ==> lines[j] == Annotated(items, j, unit)
    {
      var item := items[i];
      match unit {
        case None =>
          lines := lines + [item.text];
        case Some(u) =>
          lines := lines + [Column(Delta(prev, item.ts, u)) + item.text];
          if item.ts.Some? {
            prev := item.ts;
          }
      }
      assert items[..i + 1][..i] == items[..i];
      i := i + 1;
    }
  }

  /** A line without a timestamp never resets the mark: the next timestamped line measures past it. */
  lemma UntimestampedKeepsMark(items: seq<Item>, x: Item)
    requires x.ts.None?
    ensures LastTimestamp(items + [x]) == LastTimestamp(items)
  {
    assert (items + [x])[..|items|] == items;
  }

  /** 10:00:00, 10:00:05, a line without a timestamp, 10:00:08, in seconds: blank, 5, blank, 3. */
  lemma IntervalExample()
    ensures var t := 36_000_000_000;
            var items := [Item(Some(t), "a"), Item(Some(t + 5_000_000), "b"), Item(None, "c"), Item(Some(t + 8_000_000), "d")];
            && Delta(LastTimestamp(items[..0]), items[0].ts, Seconds) == None
            && Delta(LastTimestamp(items[..1]), items[1].ts, Seconds) == Some(5)
            && Delta(LastTimestamp(items[..2]), items[2].ts, Seconds) == None
            && Delta(LastTimestamp(items[..3]), items[3].ts, Seconds) == Some(3)
  {
    var t := 36_000_000_000;
    var items := [Item(Some(t), "a"), Item(Some(t + 5_000_000), "b"), Item(None, "c"), Item(Some(t + 8_000_000), "d")];
    assert items[..1][..0] == [];
    assert items[..2][..1] == items[..1];
    assert items[..3][..2] == items[..2];
  }
}
