/**
 * One log source (src/timestamp_stream.rs): a stream of lines that detects a
 * timestamp kind from the catalog, locks onto it for good, and renders every line
 * behind the source's prefix (timestamp found) or an equally long run of spaces.
 */
module TimestampStream {
  import opened Wrappers
  import opened TimestampKinds

  /** What reading the next line produced: a line, or an I/O error. End of input is the end of the sequence. */
  datatype Read = Line(text: string) | ReadFailed

  /** Whether the stream has settled on a kind yet. */
  datatype Lock = Unlocked | Locked(kind: Kind)

  /** One emitted item: the timestamp found on the line, if any, and the rendered line. */
  datatype Item = Item(ts: Option<Timestamp>, text: string)

  /** `TimestampedStream`: the pending still to come, the prefix and filler, the scratch buffer and the lock. */
  datatype Stream = Stream(pending: seq<Read>, prefix: string, filler: string, scratch: string, lock: Lock)

  /** Bytes taken by one character in UTF-8. */
  function Utf8Width(c: char): nat {
    if c as int < 0x80 then 1 else if c as int < 0x800 then 2 else if c as int < 0x1_0000 then 3 else 4
  }

  /** `str::len`: the length of a string in UTF-8 bytes. */
  function Utf8Len(s: string): nat {
    if |s| == 0 then 0 else Utf8Len(s[..|s| - 1]) + Utf8Width(s[|s| - 1])
  }

  lemma {:induction false} Utf8LenAppend(a: string, b: string)
    ensures Utf8Len(a + b) == Utf8Len(a) + Utf8Len(b)
  {
    if |b| > 0 {
      assert (a + b)[..|a + b| - 1] == a + b[..|b| - 1];
      Utf8LenAppend(a, b[..|b| - 1]);
    } else {
      assert a + b == a;
    }
  }

  /** For ASCII text, bytes and characters agree. */
  lemma {:induction false} AsciiUtf8Len(s: string)
    requires forall i :: 0 <= i < |s| ==> s[i] as int < 0x80
    ensures Utf8Len(s) == |s|
  {
    if |s| > 0 {
      AsciiUtf8Len(s[..|s| - 1]);
    }
  }

  function Spaces(n: nat): (r: string)
    ensures |r| == n && Utf8Len(r) == n
    ensures forall i :: 0 <= i < n ==> r[i] == ' '
  {
    var r := seq(n, _ => ' ');
    AsciiUtf8Len(r);
    r
  }

  /** The shape every stream keeps: a filler of spaces, as many as the prefix has bytes. */
  predicate Valid(st: Stream) {
    st.filler == Spaces(Utf8Len(st.prefix))
  }

  /** `TimestampedStream::new`: unlocked, an empty scratch buffer, and a filler as wide as the prefix. */
  function New(pending: seq<Read>, prefix: string): (st: Stream)
    ensures Valid(st)
    ensures st.pending == pending && st.prefix == prefix && st.lock == Unlocked && st.scratch == []
    ensures Utf8Len(st.filler) == Utf8Len(prefix)
    ensures forall i :: 0 <= i < |st.filler| ==> st.filler[i] == ' '
  {
    Stream(pending, prefix, Spaces(Utf8Len(prefix)), [], Unlocked)
  }

  /** `i` is the first position of the catalog whose kind succeeds on `line`. */
  predicate FirstSuccess(cat: seq<Kind>, f: Foreign, line: string, i: nat) {
    && i < |cat|
    && Succeeds(cat[i], f, line)
    && forall j :: 0 <= j < i ==> !Succeeds(cat[j], f, line)
  }

  /**
   * The detection loop: try the kinds from position `from` on, in order, and stop
   * at the first that succeeds; also the scratch buffer the last attempt left.
   */
  function Detect(cat: seq<Kind>, f: Foreign, line: string, scratch: string, from: nat): (r: (Option<nat>, string))
    requires from <= |cat|
    ensures r.0.Some? ==> from <= r.0.value < |cat| && Succeeds(cat[r.0.value], f, line)
    ensures r.0.Some? ==> forall j :: from <= j < r.0.value ==> !Succeeds(cat[j], f, line)
    ensures r.0.None? <==> forall j :: from <= j < |cat| ==> !Succeeds(cat[j], f, line)
    decreases |cat| - from
  {
    if from == |cat| then (None, scratch)
    else
      var p := Parse(cat[from], f, line, scratch);
      ParseIgnoresScratch(cat[from], f, line, scratch, []);
      var ok := Succeeds(cat[from], f, line);
      assert ok == p.ts.Some?;
      if ok then (Some(from), p.scratch)
      else
        var r := Detect(cat, f, line, p.scratch, from + 1);
        assert forall j :: from <= j < from + 1 ==> !Succeeds(cat[j], f, line);
        r
  }

  /** The lock an unlocked stream takes on `line`. */
  function Detected(cat: seq<Kind>, f: Foreign, line: string): (l: Lock)
    ensures l.Unlocked? <==> forall j :: 0 <= j < |cat| ==> !Succeeds(cat[j], f, line)
    ensures l.Locked? ==> exists i: nat :: FirstSuccess(cat, f, line, i) && l.kind == cat[i]
  {
    match Detect(cat, f, line, [], 0).0
    case None => Unlocked
    case Some(i) =>
      assert FirstSuccess(cat, f, line, i);
      Locked(cat[i])
  }

  /** The timestamp a line carries under a lock: the locked kind's parse, or none while unlocked. */
  function TimestampUnder(lock: Lock, f: Foreign, line: string): Option<Timestamp> {
    if lock.Locked? then Parse(lock.kind, f, line, []).ts else None
  }

  /** `TimestampedStream::get_next`: the next item and the stream after it, or None at the end. */
  function GetNext(cat: seq<Kind>, f: Foreign, st: Stream): (r: Option<(Stream, Item)>)
    ensures r.None? <==> |st.pending| == 0 || st.pending[0].ReadFailed?
    ensures r.Some? ==>
              var (next, item) := r.value;
              var line := st.pending[0].text;
              && next.pending == st.pending[1..]
              && next.prefix == st.prefix && next.filler == st.filler
              && (st.lock.Locked? ==> next.lock == st.lock)
              && (st.lock.Unlocked? ==> next.lock == Detected(cat, f, line))
              && item.ts == TimestampUnder(next.lock, f, line)
              && item.text == (if item.ts.Some? then st.prefix else st.filler) + line
  {
    if |st.pending| == 0 || st.pending[0].ReadFailed? then None
    else
      var line := st.pending[0].text;
      var (lock, scratch) :=
        if st.lock.Locked? then (st.lock, st.scratch)
        else
          var (found, s) := Detect(cat, f, line, st.scratch, 0);
          (if found.Some? then Locked(cat[found.value]) else Unlocked, s);
      match lock
      case Unlocked =>
        Some((st.(pending := st.pending[1..], scratch := scratch), Item(None, st.filler + line)))
      case Locked(kind) =>
        var p := Parse(kind, f, line, scratch);
        ParseIgnoresScratch(kind, f, line, scratch, []);
        var text := (if p.ts.None? then st.filler else st.prefix) + line;
        Some((st.(pending := st.pending[1..], scratch := p.scratch, lock := lock), Item(p.ts, text)))
  }

  /** Every rendered line is as many bytes long as the prefix and the line together. */
  lemma RenderedWidth(cat: seq<Kind>, f: Foreign, st: Stream)
    requires Valid(st) && GetNext(cat, f, st).Some?
    ensures var (next, item) := GetNext(cat, f, st).value;
            Valid(next) && Utf8Len(item.text) == Utf8Len(st.prefix) + Utf8Len(st.pending[0].text)
  {
    var (next, item) := GetNext(cat, f, st).value;
    var line := st.pending[0].text;
    if item.ts.Some? {
      Utf8LenAppend(st.prefix, line);
    } else {
      Utf8LenAppend(st.filler, line);
    }
  }

  /** A locked stream consults no kind but its own: the rest of the catalog can be anything. */
  lemma LockedIgnoresCatalog(cat1: seq<Kind>, cat2: seq<Kind>, f: Foreign, st: Stream)
    requires st.lock.Locked?
    ensures GetNext(cat1, f, st) == GetNext(cat2, f, st)
  {
  }

  /** The lines a source yields: everything before the first read error. */
  function LinesOf(pending: seq<Read>): (ls: seq<string>)
    ensures |ls| <= |pending|
    ensures forall i :: 0 <= i < |ls| ==> pending[i] == Line(ls[i])
    ensures |ls| < |pending| ==> pending[|ls|].ReadFailed?
  {
    if |pending| == 0 || pending[0].ReadFailed? then [] else [pending[0].text] + LinesOf(pending[1..])
  }

  /** The stream as an iterator: items until `get_next` returns None. */
  function Drain(cat: seq<Kind>, f: Foreign, st: Stream): (out: seq<Item>)
    ensures |out| == |LinesOf(st.pending)|
    decreases |st.pending|
  {
    match GetNext(cat, f, st)
    case None => []
    case Some((next, item)) => [item] + Drain(cat, f, next)
  }

  /** Whether some kind of the catalog succeeds on a line, as a function of the line. */
  function Locks(cat: seq<Kind>, f: Foreign): string -> bool {
    line => Detected(cat, f, line).Locked?
  }

  /** The position of the first line `holds` is true of. */
  function FirstWhere(holds: string -> bool, ls: seq<string>): (r: Option<nat>)
    ensures r.Some? ==> r.value < |ls| && holds(ls[r.value])
    ensures r.Some? ==> forall j :: 0 <= j < r.value ==> !holds(ls[j])
    ensures r.None? ==> forall j :: 0 <= j < |ls| ==> !holds(ls[j])
  {
    if |ls| == 0 then None
    else if holds(ls[0]) then Some(0)
    else
      match FirstWhere(holds, ls[1..])
      case None => None
      case Some(j) => Some(j + 1)
  }

  /** One step of the search: the first line, else the search in the rest. */
  lemma FirstWhereStep(holds: string -> bool, ls: seq<string>)
    requires |ls| > 0
    ensures FirstWhere(holds, ls) ==
            if holds(ls[0]) then Some(0)
            else match FirstWhere(holds, ls[1..]) case None => None case Some(j) => Some(j + 1)
  {
  }

  /** The position of the first line on which some kind succeeds. */
  function FirstDetectingLine(cat: seq<Kind>, f: Foreign, ls: seq<string>): (r: Option<nat>)
    ensures r.Some? ==> r.value < |ls| && Detected(cat, f, ls[r.value]).Locked?
    ensures r.Some? ==> forall j :: 0 <= j < r.value ==> Detected(cat, f, ls[j]).Unlocked?
    ensures r.None? ==> forall j :: 0 <= j < |ls| ==> Detected(cat, f, ls[j]).Unlocked?
  {
    FirstWhere(Locks(cat, f), ls)
  }

  /**
   * The lock a stream holds after the lines `ls`, stated without stepping: a
   * lock already taken, else the kind detected on the first line where any kind
   * succeeds, else none.
   */
  function LockAfter(cat: seq<Kind>, f: Foreign, lock: Lock, ls: seq<string>): Lock {
    if lock.Locked? then lock
    else
      match FirstDetectingLine(cat, f, ls)
      case None => Unlocked
      case Some(j) => Detected(cat, f, ls[j])
  }

  /** Once some prefix of the lines has locked the stream, no later line changes the lock. */
  lemma {:induction false} LockIsFinal(cat: seq<Kind>, f: Foreign, lock: Lock, a: seq<string>, b: seq<string>)
    ensures LockAfter(cat, f, lock, a).Locked? ==> LockAfter(cat, f, lock, a + b) == LockAfter(cat, f, lock, a)
  {
    if lock.Unlocked? && FirstDetectingLine(cat, f, a).Some? {
      var j := FirstDetectingLine(cat, f, a).value;
      FirstDetectingLinePrefix(cat, f, a, b);
    }
  }

  lemma FirstDetectingLinePrefix(cat: seq<Kind>, f: Foreign, a: seq<string>, b: seq<string>)
    ensures FirstDetectingLine(cat, f, a).Some? ==> FirstDetectingLine(cat, f, a + b) == FirstDetectingLine(cat, f, a)
  {
    FirstWherePrefix(Locks(cat, f), a, b);
  }

  /** Lines appended after the first line `holds` is true of do not move it. */
  lemma {:induction false} FirstWherePrefix(holds: string -> bool, a: seq<string>, b: seq<string>)
    ensures FirstWhere(holds, a).Some? ==> FirstWhere(holds, a + b) == FirstWhere(holds, a)
  {
    if FirstWhere(holds, a).Some? {
      assert (a + b)[0] == a[0];
      if !holds(a[0]) {
        assert (a + b)[1..] == a[1..] + b;
        FirstWherePrefix(holds, a[1..], b);
      }
    }
  }

  /** Taking one line's step and then the rest agrees with the lock stated over all the lines. */
  lemma LockAfterStep(cat: seq<Kind>, f: Foreign, lock: Lock, ls: seq<string>)
    requires |ls| > 0
    ensures LockAfter(cat, f, lock, ls) ==
            LockAfter(cat, f, if lock.Locked? then lock else Detected(cat, f, ls[0]), ls[1..])
  {
    if lock.Unlocked? {
      var holds := Locks(cat, f);
      FirstWhereStep(holds, ls);
      assert holds(ls[0]) == Detected(cat, f, ls[0]).Locked?;
      if !holds(ls[0]) {
        match FirstWhere(holds, ls[1..])
        case None =>
        case Some(j) =>
          assert ls[j + 1] == ls[1..][j];
      }
    }
  }

  /** The lock after the first `i + 1` lines is the lock after the first line's step, then `i` more. */
  lemma LockAfterShift(cat: seq<Kind>, f: Foreign, lock: Lock, stepped: Lock, ls: seq<string>, i: nat)
    requires i < |ls| && stepped == if lock.Locked? then lock else Detected(cat, f, ls[0])
    ensures LockAfter(cat, f, lock, ls[..i + 1]) == LockAfter(cat, f, stepped, ls[1..][..i])
  {
    SliceShift(ls, i);
    LockAfterStep(cat, f, lock, ls[..i + 1]);
  }

  lemma SliceShift(ls: seq<string>, i: nat)
    requires i < |ls|
    ensures ls[..i + 1][0] == ls[0] && ls[..i + 1][1..] == ls[1..][..i]
  {
  }

  /**
   * What a stream emits: one item per line before the first read error, in
   * order; item `i` carries the parse of line `i` under the lock held after lines
   * 0..i, and the line behind the prefix or the filler.
   */
  lemma {:induction false} DrainItems(cat: seq<Kind>, f: Foreign, st: Stream)
    ensures var ls := LinesOf(st.pending);
            var out := Drain(cat, f, st);
            && |out| == |ls|
            && forall i :: 0 <= i < |ls| ==>
                 var ts := TimestampUnder(LockAfter(cat, f, st.lock, ls[..i + 1]), f, ls[i]);
                 out[i] == Item(ts, (if ts.Some? then st.prefix else st.filler) + ls[i])
    decreases |st.pending|
  {
    var ls := LinesOf(st.pending);
    var out := Drain(cat, f, st);
    match GetNext(cat, f, st)
    case None =>
    case Some((next, item)) =>
      DrainItems(cat, f, next);
      var rest := LinesOf(next.pending);
      assert rest == ls[1..];
      forall i | 0 <= i < |ls|
        ensures var ts := TimestampUnder(LockAfter(cat, f, st.lock, ls[..i + 1]), f, ls[i]);
                out[i] == Item(ts, (if ts.Some? then st.prefix else st.filler) + ls[i])
      {
        LockAfterShift(cat, f, st.lock, next.lock, ls, i);
        if i == 0 {
          assert LockAfter(cat, f, next.lock, []) == next.lock;
        } else {
          assert out[i] == Drain(cat, f, next)[i - 1];
          assert rest[..i - 1 + 1] == rest[..i];
        }
      }
  }

  /** A read error ends the stream exactly like the end of input: nothing after it is read. */
  lemma {:induction false} ReadErrorIsEnd(cat: seq<Kind>, f: Foreign, st: Stream, ls: seq<string>, tail: seq<Read>)
    ensures Drain(cat, f, st.(pending := LinesAsReads(ls) + [ReadFailed] + tail))
         == Drain(cat, f, st.(pending := LinesAsReads(ls)))
    decreases |ls|
  {
    var st1 := st.(pending := LinesAsReads(ls) + [ReadFailed] + tail);
    var st2 := st.(pending := LinesAsReads(ls));
    if |ls| > 0 {
      var (next1, item1) := GetNext(cat, f, st1).value;
      var (next2, item2) := GetNext(cat, f, st2).value;
      assert st1.pending[1..] == LinesAsReads(ls[1..]) + [ReadFailed] + tail;
      assert st2.pending[1..] == LinesAsReads(ls[1..]);
      ReadErrorIsEnd(cat, f, next2, ls[1..], tail);
      assert next1 == next2.(pending := LinesAsReads(ls[1..]) + [ReadFailed] + tail);
    }
  }

  function LinesAsReads(ls: seq<string>): (rs: seq<Read>)
    ensures |rs| == |ls| && forall i :: 0 <= i < |ls| ==> rs[i] == Line(ls[i])
  {
    seq(|ls|, i requires 0 <= i < |ls| => Line(ls[i]))
  }

  lemma {:induction false} LinesOfLines(ls: seq<string>, tail: seq<Read>)
    requires |tail| == 0 || tail[0].ReadFailed?
    ensures LinesOf(LinesAsReads(ls) + tail) == ls
  {
    if |ls| > 0 {
      assert (LinesAsReads(ls) + tail)[1..] == LinesAsReads(ls[1..]) + tail;
      LinesOfLines(ls[1..], tail);
    }
  }

  /** The scratch buffer a stream starts with never shows in what it emits. */
  lemma {:induction false} DrainIgnoresScratch(cat: seq<Kind>, f: Foreign, st: Stream, other: string)
    ensures Drain(cat, f, st) == Drain(cat, f, st.(scratch := other))
    decreases |st.pending|
  {
    var st2 := st.(scratch := other);
    match GetNext(cat, f, st)
    case None =>
    case Some((next, item)) =>
      var (next2, item2) := GetNext(cat, f, st2).value;
      assert item == item2;
      assert next2 == next.(scratch := next2.scratch);
      DrainIgnoresScratch(cat, f, next, next2.scratch);
  }
}
