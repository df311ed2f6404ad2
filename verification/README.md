# ziplog in Dafny

ziplog merges several log files into one stream ordered by timestamp. It can
read standard input as one of the sources. Each source is a stream of lines:

- The stream tries an ordered catalog of eight timestamp kinds on its lines.
- Once a kind parses a line, the stream locks onto that kind for good.
- Each line is emitted with the timestamp found on it, if any.
- A line with a timestamp is rendered behind the source's prefix. A line
  without one is rendered behind a filler of as many spaces as the prefix has
  bytes.

The streams are merged by `kmerge`. Items are ordered first by the optional
timestamp (none before any), then by the rendered text. With `-i s` or
`-i ms`, every printed line is preceded by a field at least seven columns wide. That field
shows the time since the last line that had a timestamp, truncated toward
zero.

The project is split into these files:

- `wrappers.dfy`: `Option` and `Result`.
- `decimal.dfy`: Rust's `str::parse::<i64>` on decimal text, and the
  `Display`/`{:7}` rendering of integers.
- `timestamp_kinds.dfy`: `TimestampKind`, the catalog, each kind's glue and
  `parse`.
- `timestamp_stream.dfy`: `TimestampedStream`, meaning `new`, `get_next` and
  the stream drained as an iterator.
- `merge.dfy`: the item order and the k-way merge.
- `interval.dfy`: the `-i` unit and the loop that prints the interval column.
- `ziplog.dfy`: `PrefixedFile`, loading the sources (standard input at most
  once), and the whole run.

Conventions used throughout:

- A timestamp is an integer count of microseconds, UTC.
- The regex engine and chrono's parsers are foreign code, so they are fields of
  `TimestampKinds.Foreign` and nothing is assumed about them.
- The clock reading that each `TimestampKind::new` takes is a parameter.
- Files and standard input are finite sequences of reads. A read is a line or
  a read error.

## Model

| member | source | states |
|---|---|---|
| TimestampKinds.NewKind | src/timestamp_kinds.rs:13-27 | a new kind keeps its shape, and its year, month and day strings read back as the clock reading taken when it was built |
| TimestampKinds.Catalog | src/timestamp_kinds.rs:41-101 | the catalog has exactly eight kinds, in the declared order, and each is dated by its own clock reading |
| TimestampKinds.CatalogHasEachShapeOnce | src/timestamp_kinds.rs:42-100 | every shape appears in the catalog exactly once, at its rank in the declared order |
| TimestampKinds.Parse | src/timestamp_kinds.rs:29-35 | no match gives no timestamp and an emptied buffer; on a match the buffer ends as the kind's text assembly on a cleared buffer leaves it, a text chrono rejects gives no timestamp, and for kinds that add no offset the timestamp is exactly what chrono read |
| TimestampKinds.ParseIgnoresScratch | src/timestamp_kinds.rs:30 | the buffer is cleared first, so what it held before never changes the result |
| TimestampKinds.NoMatchNeverConverts | src/timestamp_kinds.rs:31 | without a match the chrono side is never consulted: two parsers that differ only there give the same result, and it is no timestamp |
| TimestampKinds.DatedTimeFields | src/timestamp_kinds.rs:17-20 | the synthesised date string is 4 year digits, '.', 2 month digits, '.', 2 day digits, ' ', then the time, and the digits read back as the clock reading |
| TimestampKinds.TimeOnlyDatesTheCapture | src/timestamp_kinds.rs:44-46 | the two time-only kinds (here and line 96) hand chrono exactly "year.month.day time" from the kind's snapshot, and leave it in the buffer |
| TimestampKinds.TimeOnlyResult | src/timestamp_kinds.rs:44-47 | the time-only kind's timestamp is chrono's UTC reading of the dated capture, with nothing added |
| TimestampKinds.SyslogPrependsYear | src/timestamp_kinds.rs:50-53 | the syslog kind hands chrono "year " followed by the captured text, and leaves that text in the buffer |
| TimestampKinds.IsoOffsetPassesCapture | src/timestamp_kinds.rs:56-59 | the zone-qualified ISO kind hands its capture to chrono's offset-aware parser unchanged and leaves the buffer empty |
| TimestampKinds.IsoFractionRebuilds | src/timestamp_kinds.rs:63-67 | the fractional ISO kind rebuilds "date.ffffff+hhmm" from its four groups, dropping extra fraction digits and the offset's colon |
| TimestampKinds.CommaAddsMillis | src/timestamp_kinds.rs:71-75 | the comma kind's timestamp is chrono's base time plus its three digits as milliseconds (less than a second); when chrono fails there is none |
| TimestampKinds.BracketedAddsMicros | src/timestamp_kinds.rs:79-91 | for both bracketed kinds, without a fraction the timestamp is chrono's base time; with six digits it is that time plus the fraction in microseconds (less than a second) |
| TimestampKinds.StraceAddsMicros | src/timestamp_kinds.rs:95-99 | the strace kind's timestamp is chrono's reading of the dated capture plus its six digits as microseconds; when chrono fails there is none |
| TimestampKinds.Prepare | src/timestamp_kinds.rs:44-99 | the kinds that assemble a date (time-only, syslog, fractional ISO, strace) write it after what the buffer held and hand chrono exactly the buffer; the others hand chrono their first capture and leave the buffer alone; only the comma kind adds milliseconds, only strace adds mandatory microseconds, and the bracketed kinds add their optional second group |
| TimestampKinds.ParseUnwrap | src/timestamp_kinds.rs:80 | `.parse().unwrap()` panics exactly when Rust's i64 parsing rejects the text, and otherwise gives its value; in particular an empty text, a lone sign, any character other than an ASCII digit (a sign aside in first place), or an all-digit text beyond the i64 range panics, and an in-range all-digit text gives its decimal value |
| TimestampKinds.ApplyOffsetAsWritten | src/timestamp_kinds.rs:73-98 | the source's offset step panics only on digits that Rust's i64 parsing rejects, and for the comma and strace kinds only once chrono has produced a base time; the optional-fraction kind panics on an unparseable fraction whatever the base time, and otherwise adds the fraction (0 when absent) to the base time; without a panic the other kinds add the milliseconds or microseconds to the base time, and no kind invents a time chrono did not give |
| TimestampKinds.ApplyOffset | src/timestamp_kinds.rs:73-98 | the corrected offset step gives no timestamp without a base time and agrees with the source whenever the source does not panic; where the source would panic, mandatory millisecond or microsecond digits that do not parse make the conversion give no timestamp, and an optional fraction that does not parse counts as absent, leaving the base time unchanged |
| TimestampKinds.WideDigitFractionPanics | src/timestamp_kinds.rs:80 | a fraction of Arabic-Indic digits, which the regex's `\d{6}` accepts, makes the source panic; the corrected step keeps the base time |
| TimestampStream.New | src/timestamp_stream.rs:22-30 | a new stream is unlocked with an empty buffer, and its filler is spaces only, as many as the prefix has UTF-8 bytes |
| TimestampStream.Detect | src/timestamp_stream.rs:42-48 | the detection loop returns the first catalog position whose kind succeeds on the line, and returns none exactly when no kind succeeds |
| TimestampStream.Detected | src/timestamp_stream.rs:40-49 | an unlocked stream stays unlocked exactly when no kind succeeds; otherwise it locks onto the first kind in catalog order that does |
| TimestampStream.GetNext | src/timestamp_stream.rs:32-62 | it returns none exactly at end of input or on a read error; a lock, once taken, stays; the timestamp is the locked kind's parse, or none while unlocked; the line is rendered behind the prefix if there is a timestamp and behind the filler otherwise |
| TimestampStream.RenderedWidth | src/timestamp_stream.rs:54-59 | every rendered line is as many bytes as the prefix and the line together, and the stream keeps its filler |
| TimestampStream.LockedIgnoresCatalog | src/timestamp_stream.rs:51-57 | a locked stream consults no kind but its own, so the rest of the catalog does not matter |
| TimestampStream.LockIsFinal | src/timestamp_stream.rs:40-49 | once the lines seen so far have locked the stream, no later line changes the lock |
| TimestampStream.Drain | src/timestamp_stream.rs:65-72 | iterating the stream yields exactly one item per line read before the first read error |
| TimestampStream.DrainItems | src/timestamp_stream.rs:32-72 | the stream emits one item per line before the first read error, in order; item i carries the parse of line i under the lock held after lines 0..i, behind the prefix or the filler |
| TimestampStream.ReadErrorIsEnd | src/timestamp_stream.rs:33-36 | a read error ends the stream exactly as the end of input does: nothing after it is read |
| TimestampStream.DrainIgnoresScratch | src/timestamp_stream.rs:28 | the buffer a stream starts with never shows in what it emits |
| Merge.Leq | src/main.rs:49 | an item without a timestamp sorts before one with a timestamp; different times sort by time; with equal timestamps a text sorts before any longer text it begins and never before a proper prefix of itself, and otherwise the first character where the texts differ decides |
| Merge.LeqIsTotalOrder | src/main.rs:49 | the order on (optional timestamp, text) items is reflexive, antisymmetric, transitive and total: no timestamp sorts first, then by time, then by text |
| Merge.Smallest | src/main.rs:118 | the chosen head is no larger than any other head, and is at the lowest such index; there is none exactly when every stream is empty |
| Merge.KMerge | src/main.rs:118 | the merge emits as many items as the streams hold together |
| Merge.MergeIsPermutation | src/main.rs:118 | the merged items are exactly the streams' items, counted with multiplicity |
| Merge.MergeKeepsEachStream | src/main.rs:118 | the items the merge takes from one stream appear in that stream's order |
| Merge.MergeSorted | src/main.rs:118 | when every stream is sorted, the merged output is sorted |
| Merge.MergeDeterministic | src/main.rs:118 | for sorted streams the output depends only on the items, not on how they are split among the streams, so the tie-break between equal heads cannot show |
| Merge.TieBreakShowsOnUnsortedStreams | src/main.rs:118 | for streams that are not sorted, equal heads in two streams make the tie-break visible: listing the two streams in the other order changes the output |
| Interval.ParseUnit | src/main.rs:88-96 | "s" gives seconds, "ms" gives milliseconds, no argument gives no column, and any other text is an invalid-input error |
| Interval.TruncDiv | src/main.rs:124-127 | the quotient rounds toward zero: it is bounded by the exact quotient from the zero side, for negative differences too |
| Interval.TruncDivOdd | src/main.rs:124-127 | negating the difference negates the shown interval, which Euclidean division would not do |
| Interval.Delta | src/main.rs:122-127 | an interval exists exactly when the last mark and the current line both have timestamps, and it is the difference in whole units, truncated toward zero |
| Interval.Column | src/main.rs:128-130 | the column is seven spaces without an interval; otherwise it is the number right-aligned in a field at least seven columns wide, with only spaces to its left |
| Interval.ColumnReadsBack | src/main.rs:128 | trimming a filled column's leading spaces gives text that parses back as the interval |
| Interval.Annotate | src/main.rs:117-137 | one output line per item; without a unit each line is the item's text, and with one it is the column for the interval since the last timestamped item, then the text |
| Interval.UntimestampedKeepsMark | src/main.rs:133-135 | a line without a timestamp never moves the mark the next interval is measured from |
| Ziplog.Find | src/main.rs:22 | the position found holds the first '=' in the argument, and there is none exactly when the argument has no '=' |
| Ziplog.ParsePrefixedFile | src/main.rs:21-26 | parsing never fails; without '=' the prefix is empty and the path is the whole argument; otherwise the prefix has no '=' and prefix, '=' and path give back the argument |
| Ziplog.PrefixedFileRoundTrip | src/main.rs:22-24 | a prefix without '=', joined to any path with '=', parses back into that prefix and path |
| Ziplog.StdinByComponents | src/main.rs:54 | a path denotes standard input exactly when its components, as Rust's path comparison sees them, are the single component "-" |
| Ziplog.StdinSpellings | src/main.rs:54 | "-", "-/" and "-/./" denote standard input under path comparison, while "./-", "-.", "-/x" and "--" do not |
| Ziplog.FirstOpenFailure | src/main.rs:63-67 | it finds the first file request, skipping standard input, whose open fails; every file request before it opens |
| Ziplog.Load | src/main.rs:51-76 | loading only appends to the streams already loaded, at most one per remaining request; a failure names a path that is not standard input and that cannot be opened |
| Ziplog.LoadFails | src/main.rs:51-76 | loading fails exactly when some file cannot be opened, and the error names the first such file |
| Ziplog.LoadSucceeds | src/main.rs:51-76 | a successful load yields one stream per kept request, in request order, each new, reading its own source behind its own prefix |
| Ziplog.OneStdinStream | src/main.rs:54-59 | standard input is loaded at most once, and it is loaded when any request names it |
| Ziplog.EveryFileLoaded | src/main.rs:62-74 | every file request is loaded, in request order |
| Ziplog.Requests | src/main.rs:105-111 | the positional paths come first with the default prefix, then the `-f` arguments, each with its own prefix, each group in the order given |
| Ziplog.DrainedSize | src/main.rs:118 | the streams handed to the merge hold as many items as the loaded sources have lines before their first read error |
| Ziplog.Run | src/main.rs:78-141 | a bad unit gives the invalid-interval error whatever the sources are; otherwise the run fails exactly when a file cannot be opened, naming the first; a successful run prints one line per source line, each the merged item annotated as the unit asks |

## Left out

- Regular-expression matching and chrono's date parsing are uninterpreted functions. The model therefore makes no claim that any particular line parses.
- The comma kind's chrono format at src/timestamp_kinds.rs:72 expects a 'T' and a UTC offset, which its captured text lacks. Whether it can ever succeed depends on chrono, so the model does not decide it.
- `Utc::now()` is replaced by one clock reading per kind, passed in by the caller. Readings are limited to years 0 to 9999, where `%Y` gives exactly four digits.
- `File::open`, standard input and `BufReader::lines` are replaced. A source is a finite sequence of reads, each a line or a read error, and opening a path is a function of the path. Line splitting and UTF-8 decoding happen inside that function.
- Argument parsing by structopt is left out. The run takes the parsed arguments: the prefix (whose default is "> "), the optional unit, the positional paths and the `-f` arguments.
- The coloured stdout writer, the `eprintln!` message for a file that cannot be opened, and write errors on output are left out. Write errors are ignored by `writeln!`, and `println!` panics on them.
- `Rc` and `Box<dyn ...>` sharing is left out. A locked stream holds the kind value itself, which behaves the same because kinds never change.
- itertools' heap inside `kmerge` is left out. The model takes the smallest head and breaks ties by lowest stream index. When every stream is sorted, the tie-break cannot change the output (`Merge.MergeDeterministic`). Log files need not be sorted, though. For unsorted streams with equal heads, the order of later items depends on which head is taken (`Merge.TieBreakShowsOnUnsortedStreams`), and the heap's choice may differ from the lowest index. Output for such input is therefore not claimed to match ziplog's.
- TimestampKinds.Mandatory reads an absent group as "". The patterns guarantee that every non-optional group takes part in a match, so this default never applies to a real match.
- Timestamps are unbounded integers. chrono's range limits, overflow in `Duration` arithmetic and leap-second times are not modelled.
- TimestampKinds.ApplyOffset: the model uses this corrected offset step (see Findings) in place of the panicking `.parse().unwrap()`. The source's behaviour is kept as TimestampKinds.ApplyOffsetAsWritten.

## Findings

| source | as written | input that shows it | evidently intended | confidence | as-written member | corrected member |
|---|---|---|---|---|---|---|
| src/timestamp_kinds.rs:80 | the fraction captured by `\d{6}` is converted with `.parse().unwrap()` (lines 73, 88 and 98 do the same). The regex crate's `\d` matches every Unicode decimal digit, but `str::parse::<i64>` accepts only ASCII digits, so the unwrap panics and the program aborts. | the line "[2018-04-06 17:13:40.١٢٣٤٥٦" given to the dashed-date kind | a fraction that does not parse should count as no fraction for an optional group, or make the conversion fail for a mandatory one, and never abort the merge | not executed | TimestampKinds.ApplyOffsetAsWritten (exhibited by TimestampKinds.WideDigitFractionPanics) | TimestampKinds.ApplyOffset |
