# Log Inspector core, modelled in Dafny

The Log Inspector reads uploaded log files and turns every line into a
record of six optional fields: time, event, user, IP, path and pid. It also
tags each record with the file's type. It keeps the records that have a
truthy time and groups them into 10-second windows. A window is flagged
when the z-score of its count exceeds 2 in absolute value. This project
models that core of `forensic_parser.py` and proves what it promises.

- `Wrappers.dfy`: `Option`, which plays the part of Python's `None`.
- `LineParser.dfy` models `extract_log_details`.
  - The six regular expressions are all one shape, `lead(groupLead cls+)close`. A greedy scanner `MatchAt` matches them, and `Search` finds the leftmost match, as `re.search` does.
  - A backtracking reference, `MatchesWith`, defines what the regex engine accepts. The scanner is proved to agree with it.
  - The file also models the file-type tag `name.split('.')[-1].upper()`.
- `EventStore.dfy` models the collection loop.
  - It is two methods with loop invariants, one per nested loop. They are proved against the specification function `KeptFromFiles`.
  - Membership, well-formedness and the keep/drop conditions are proved about that function.
- `TimeBuckets.dfy` models `groupby(pd.Grouper(key="time", freq="10S")).size()` on integer epoch seconds.
  - Windows are aligned to multiples of 10 and have no gaps. Empty windows are kept with count 0.
  - The counts add up to the number of records.
- `ZScore.dfy` models `stats.zscore` and the filter `abs(z) > 2`.
  - The test is an exact integer one: `(n·c[i] − S)² > 4·(n·Q − S²)`, where `S = Σc` and `Q = Σc²`.
  - It is proved equivalent to the real-valued definition, with the mean, the population variance and the z-score.
  - Also proved: Samuelson's bound, that in exact arithmetic no timeline of five windows or fewer has an outlier, and a concrete spike that is flagged.

Facts about the code that shape the model:

- A record is kept when `parsed["time"]` is truthy (line 76). A line stamped `[ts:0]` (or `[ts:000]`) parses to time 0 and is dropped (`EventStore.ZeroStampNeverKept`).
- `stats.zscore` (line 125) uses the population standard deviation (`ddof=0`).
- With zero variance, `stats.zscore` divides by zero and gets NaN, and `NaN > 2` is false, so no window is flagged (`ZScore.ZFlagMatchesZScore`, `ZScore.AllEqualNeverFlagged`).
- `.` in `=>/(.+)` does not match a newline. The path lemma is stated for lines without one, which is every line `splitlines` yields.
- `Buckets` of no times is the empty timeline. The code stops before this point when no record was kept (lines 81-87).

## Model

| member | source | states |
|---|---|---|
| LineParser.MatchAtIsLongestMatch | forensic_parser.py:19-24 | the greedy scan at a position matches exactly when the backtracking engine does, and captures the longest run it accepts |
| LineParser.SearchIsLeftmostLongest | forensic_parser.py:19-24 | `re.search`: no match anywhere iff the engine accepts nothing; otherwise the match is at the leftmost accepting position, with the longest run there |
| LineParser.SearchFrom | forensic_parser.py:19-24 | a found position matches, and no position before it (from the start of the scan) does |
| LineParser.Search | forensic_parser.py:19-24 | the result is a match, and no earlier position matches; no result means no position matches |
| LineParser.RunFrom | forensic_parser.py:19-24 | the greedy run of `\d`/`\w`/`[\d\.]`/`.` characters: all in the class, and the next character is not |
| LineParser.DigitRun | forensic_parser.py:19-24 | the whole run of digits starting at a position, and nothing after it |
| LineParser.MatchAt | forensic_parser.py:19-24 | an anchored match captures the group literal followed by a non-empty run of the class |
| LineParser.DecimalValue | forensic_parser.py:27-32 | `int()` of a digit string is 0 exactly when every digit is `0` |
| LineParser.LeadingZeroIgnored | forensic_parser.py:27-32 | leading zeros do not change `int()`'s value |
| LineParser.Capture | forensic_parser.py:19-24 | `m.group(1)` of the leftmost match: the group literal followed by a run of the class |
| LineParser.MatchAtRun | forensic_parser.py:19-24 | an anchored match is the engine's match with the whole run of the class, and no longer run is accepted there |
| LineParser.SearchNoLaterThanAnyMatch | forensic_parser.py:19-24 | wherever the engine accepts a match, `re.search` finds one, at that position or earlier |
| LineParser.CaptureIsLeftmostLongest | forensic_parser.py:19-24 | `m.group(1) if m else None`: None iff the engine accepts no match; otherwise the group literal and the run of the leftmost, longest match |
| LineParser.TimeField | forensic_parser.py:27 | `int(timestamp.group(1)) if timestamp else None`, the value of the digits of the `[ts:…]` search of line 19; specified by `TimeIsLeftmostStamp` |
| LineParser.EventIsLeftmost | forensic_parser.py:20 | the event is None iff `EVNT:(XR-\w+)` matches nowhere; otherwise `XR-` and the whole word run of the leftmost match |
| LineParser.UserIsLeftmost | forensic_parser.py:21 | the user is None iff `usr:(\w+)` matches nowhere; otherwise the whole word run after the leftmost `usr:` that has one |
| LineParser.IpIsLeftmost | forensic_parser.py:22 | the IP is None iff `IP:([\d\.]+)` matches nowhere; otherwise the whole run of digits and dots of the leftmost match |
| LineParser.PidField | forensic_parser.py:32 | `int(process_id.group(1)) if process_id else None`, the value of the digits of the `pid(\d+)` search of line 24; specified by `PidIsLeftmostDigitRun` |
| LineParser.EventField | forensic_parser.py:20 | the event is `XR-` followed by at least one word character |
| LineParser.UserField | forensic_parser.py:21 | the user is a non-empty run of word characters |
| LineParser.IpField | forensic_parser.py:22 | the IP is a non-empty run of digits and dots |
| LineParser.PathField | forensic_parser.py:23 | the path is `/` and at least one non-newline character |
| LineParser.ExtractLogDetails | forensic_parser.py:17-34 | `format` is always the file's tag; event, user, IP and path have the shapes their patterns force |
| LineParser.TimeIsLeftmostStamp | forensic_parser.py:19 | time is None iff the line has no `[ts:<digits>]`; otherwise it is the value of the digits of the leftmost stamp |
| LineParser.StampAtIsTsMatch | forensic_parser.py:19 | a stamp is exactly what the engine accepts for `\[ts:(\d+)]` |
| LineParser.LeftmostStampUnique | forensic_parser.py:19 | a line has at most one leftmost stamp |
| LineParser.StampDigits | forensic_parser.py:19 | a stamp's digits are the digit run after `[ts:`, and are worth 0 iff they are all `0` |
| LineParser.TimeUnaffectedByTrailingText | forensic_parser.py:19 | once a line has a stamp, text appended after it never changes the parsed time |
| LineParser.PathMatchAt | forensic_parser.py:23 | `=>/(.+)` matches at a position iff `=>/` is there with a character after it, and captures the rest of the line |
| LineParser.PathIsRestOfLine | forensic_parser.py:23 | the path is present iff the line has `=>/` with a character after it; it is `/` followed by the rest of the line after the leftmost such `=>/` |
| LineParser.PidMatchAt | forensic_parser.py:24 | `pid(\d+)` matches at a position iff `pid` is there followed by a digit, and captures the whole digit run |
| LineParser.PidIsLeftmostDigitRun | forensic_parser.py:24 | the pid is present iff some `pid` is followed by a digit; it is the value of the digit run after the leftmost such `pid` |
| LineParser.LastSegment | forensic_parser.py:72 | `split('.')[-1]`: a suffix with no `.` that is the whole name or follows a `.` |
| LineParser.LastSegmentUnique | forensic_parser.py:72 | only one suffix has those properties |
| LineParser.FileTypeTag | forensic_parser.py:72 | the tag has no `.` and no lower-case letter |
| LineParser.FileTypeTagOfExtension | forensic_parser.py:72 | `stem.ext` is tagged with `ext` uppercased, whatever the stem holds |
| LineParser.FileTypeTagWithoutDot | forensic_parser.py:72 | a name without a `.` is tagged with the whole name, uppercased |
| EventStore.HasTruthyTime | forensic_parser.py:76 | `if parsed["time"]:`, false for None and for 0; what it means for a line is `LineKeptIff` |
| EventStore.ParseLines | forensic_parser.py:74-75 | one record per line of the file; record `j` is the parse of line `j` (`ParseLinesAt`) |
| EventStore.Kept | forensic_parser.py:76-77 | the kept records are no more than the parses, and each has a truthy time; order and copies are kept (`KeptAppend`, `KeptMultiset`) |
| EventStore.ParseLinesAt | forensic_parser.py:74-75 | record `j` of a file is the parse of its line `j` with the file's tag, so parses keep line order and multiplicity |
| EventStore.KeptAppend | forensic_parser.py:74-77 | filtering the records of `a` then `b` gives the kept records of `a` followed by those of `b`: the filter keeps encounter order |
| EventStore.KeptMultiset | forensic_parser.py:76-77 | every copy of a record with a truthy time is kept, and no copy of any other record |
| EventStore.KeptFromFiles | forensic_parser.py:70-77 | every record of the store has a truthy time |
| EventStore.CollectRecords | forensic_parser.py:70-77 | the collected records are exactly the kept parses of every line of every file, in order, and every one has a positive time |
| EventStore.AppendKeptLines | forensic_parser.py:74-77 | the loop over a file's lines appends exactly that file's kept parses, in order |
| EventStore.KeptMembers | forensic_parser.py:76-77 | a record is kept iff it is one of the parses and its time is truthy |
| EventStore.KeptFromFilesMembers | forensic_parser.py:70-77 | a record is stored iff its time is truthy and it parses a line of some file |
| EventStore.ParseLinesMembers | forensic_parser.py:74-75 | the parses of a file are exactly the records of its lines, with the file's tag |
| EventStore.StoreMembers | forensic_parser.py:70-77 | a record is stored iff its time is truthy and it is the parse of some line `j` of some file `i`, with that file's tag |
| EventStore.StoredTimesPositive | forensic_parser.py:76-77 | every stored record has a time, and it is positive |
| EventStore.StoredRecordsWellFormed | forensic_parser.py:70-77 | a stored record has a positive time, and its format is the tag of a file it came from |
| EventStore.LineKeptIff | forensic_parser.py:75-77 | a line is kept iff its leftmost stamp exists and has a non-zero digit |
| EventStore.NoStampNeverKept | forensic_parser.py:76-77 | a line without `[ts:<digits>]` has time None and is never stored |
| EventStore.ZeroStampNeverKept | forensic_parser.py:76-77 | a line whose leftmost stamp is all zeros has time 0 and is dropped |
| TimeBuckets.WindowIndex | forensic_parser.py:104 | the window number `q` of second `t` satisfies `10q ≤ t < 10q + 10` |
| TimeBuckets.WindowStart | forensic_parser.py:104 | a window's label is a multiple of 10, and the window holds the time |
| TimeBuckets.WindowStartUnique | forensic_parser.py:104 | any aligned window holding a time is the one `WindowStart` picks |
| TimeBuckets.CountIn | forensic_parser.py:104 | `.size()` of a window: at most the number of times, and 0 iff no time lies in it |
| TimeBuckets.Windows | forensic_parser.py:104 | `n` consecutive windows, each labelled and sized |
| TimeBuckets.Buckets | forensic_parser.py:104 | `event_counts` is empty exactly when there are no times; its shape is `BucketsShape` |
| TimeBuckets.BucketsShape | forensic_parser.py:104 | the timeline is empty iff there are no times; it runs from the window of the earliest time to the window of the latest; labels are multiples of 10, exactly 10 apart; each count is the size of its window |
| TimeBuckets.BucketsAscending | forensic_parser.py:104 | window labels strictly ascend |
| TimeBuckets.EachTimeInExactlyOneBucket | forensic_parser.py:104 | every time lies in one and only one window of the timeline |
| TimeBuckets.EveryWindowPresent | forensic_parser.py:104 | every aligned window between the first and the last is present, with count 0 iff no time lies in it |
| TimeBuckets.BucketTotal | forensic_parser.py:104 | the window counts add up to the number of times |
| TimeBuckets.SingleEventOneBucket | forensic_parser.py:104 | a single event gives a single window of size 1 |
| TimeBuckets.TimelineCountsEveryRecord | forensic_parser.py:70-104 | the timeline built from the stored records counts every record exactly once |
| ZScore.VarianceScaled | forensic_parser.py:125 | `n²` times the population variance is `n·Q − S²` |
| ZScore.VarianceNonneg | forensic_parser.py:125 | the population variance is never negative |
| ZScore.ZFlagged | forensic_parser.py:125-126 | `abs(zscore) > 2` for one count, as the integer test `(n·c[i] − S)² > 4·(n·Q − S²)`; its meaning is `ZFlagMatchesZScore` |
| ZScore.ZFlagMatchesZScore | forensic_parser.py:125-126 | the integer test `(n·c[i] − S)² > 4·(n·Q − S²)` holds iff the population variance is positive and `(c[i] − mean)² > 4·variance`, the squared form of `abs((c[i] − mean)/std) > 2` |
| ZScore.AllEqualNeverFlagged | forensic_parser.py:125-126 | when all counts are equal (a single window included), nothing is flagged |
| ZScore.CauchySchwarz | forensic_parser.py:125 | `S² ≤ n·Q`, so the scaled variance is never negative |
| ZScore.ZBound | forensic_parser.py:125 | Samuelson's bound: `(n·c[i] − S)² ≤ (n − 1)·(n·Q − S²)` |
| ZScore.FewWindowsNeverFlagged | forensic_parser.py:125-126 | with five windows or fewer, no count is flagged |
| ZScore.SpikeFlagged | forensic_parser.py:125-126 | for counts 5, 5, 5, 50, 5, 5, index 3 is flagged and no other index is |
| ZScore.Counts | forensic_parser.py:125 | `event_counts["count"]`: the counts of the rows, in order |
| ZScore.ZOutliers | forensic_parser.py:126 | `z_outliers` has no more rows than the timeline; which rows is `ZOutliersMembers`, and their order is `TimelineOutliersAscend` |
| ZScore.OutliersUpToAscending | forensic_parser.py:126 | the rows selected from an ascending timeline stay strictly ascending |
| ZScore.TimelineOutliersAscend | forensic_parser.py:104-126 | the reported rows ascend strictly by window start, so each flagged row is reported once and in timeline order, as `event_counts[mask]` returns them |
| ZScore.ZOutliersMembers | forensic_parser.py:126 | a row is reported iff it is a row of the timeline whose count is flagged |
| ZScore.ShortTimelineNoOutliers | forensic_parser.py:125-126 | a timeline of at most five windows reports no outliers |

## Left out

- The Streamlit interface, page layout and summary counts (lines 50-61, 93-100) are presentation only.
- Reading and decoding an upload and `splitlines` (line 73) are left out. A file is modelled as its name and the sequence of its lines.
- The upload guard (lines 64-67) and the empty-result guard (lines 79-87) are left out. `Buckets` of no times is defined as the empty timeline.
- `pd.to_datetime` (line 83) is left out. Times stay integer epoch seconds. For times within pandas' nanosecond range, 10-second windows of epoch seconds are the same windows as those of the converted timestamps.
- `pd.to_datetime(..., unit="s")` raises `OutOfBoundsDatetime` for a time above 9223372036 seconds, and the program then stops. The model has no such bound: it keeps and buckets every time.
- LineParser.DecimalValue: `int()` at lines 27 and 32 raises `ValueError` on a digit run longer than 4300 digits (CPython's integer string conversion limit, the default since 3.11 and in 3.10.7+ and 3.9.14+). The model returns the value of any digit run, so `LineParser.TimeField` and `LineParser.PidField` never fail.
- Floating point is not modelled.
  - `stats.zscore` computes in IEEE doubles, and the model uses exact reals and integers.
  - Rounding decides the flag whenever the exact |z| is 2, which is possible for n ≥ 5. For counts 0, 21, 21, 21, 21 the exact z-score of the first count is −2, and the float computation gives −2.0000000000000004, which is flagged. The model flags only exact |z| > 2.
  - The z-score column itself (a float, or NaN when the variance is 0) is not stored. Only the flag is modelled.
- IsolationForest (lines 130-135) is a randomised, external learner and is not modelled.
- IP geolocation (lines 36-44) and the map are network I/O and are not modelled.
- Plots, PNG and report export are not modelled.
- Unicode is not modelled.
  - Character classes are ASCII only. Python's `\d` and `\w` also accept other Unicode digits and letters, which the model does not.
  - `str.upper()` is modelled on ASCII letters only.
- LineParser.PathIsRestOfLine: stated only for lines without a newline. `splitlines` never yields any other kind of line.
- ZScore.FewWindowsNeverFlagged: holds in exact arithmetic. At n = 5 an exact |z| of 2 is possible, and the float computation may round it above 2 and flag that window.
- ZScore.ShortTimelineNoOutliers: holds in exact arithmetic. At five windows the float computation may report a window whose exact |z| is 2.
