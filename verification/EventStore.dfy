/** The event store: the records kept from every line of every uploaded
    file, in encounter order.  A record is kept only when its time is
    truthy in Python's sense, so a line without a time stamp and a line
    whose stamp is `[ts:0]` (or `[ts:000]`, ...) are both dropped. */
module EventStore {
  import opened Wrappers
  import opened LineParser

  /** An uploaded log file: its name and its lines, already decoded and
      split. */
  datatype LogFile = LogFile(name: string, lines: seq<string>)

  /** `if parsed["time"]:` — None and 0 are both false. */
  predicate HasTruthyTime(r: Record) {
    r.time.Some? && r.time.value != 0
  }

  /** Every line of a file parsed with the file's tag, in order. */
  function ParseLines(lines: seq<string>, tag: string): (rs: seq<Record>)
    ensures |rs| == |lines|
  {
    if lines == [] then []
    else ParseLines(lines[..|lines| - 1], tag) + [ExtractLogDetails(lines[|lines| - 1], tag)]
  }

  /** The records whose time is truthy, in order. */
  function Kept(rs: seq<Record>): (ks: seq<Record>)
    ensures |ks| <= |rs|
    ensures forall m :: 0 <= m < |ks| ==> HasTruthyTime(ks[m])
  {
    if rs == [] then []
    else
      var r := rs[|rs| - 1];
      Kept(rs[..|rs| - 1]) + (if HasTruthyTime(r) then [r] else [])
  }

  /** The records kept from all files, file after file. */
  function KeptFromFiles(files: seq<LogFile>): (rs: seq<Record>)
    ensures forall m :: 0 <= m < |rs| ==> HasTruthyTime(rs[m])
  {
    if files == [] then []
    else
      var last := files[|files| - 1];
      KeptFromFiles(files[..|files| - 1]) + Kept(ParseLines(last.lines, FileTypeTag(last.name)))
  }

  /** The collection loop: for each file, compute its tag once, then parse
      each of its lines and append the record when its time is truthy. */
  method CollectRecords(files: seq<LogFile>) returns (records: seq<Record>)
    ensures records == KeptFromFiles(files)
    ensures forall r :: r in records ==> r.time.Some? && r.time.value > 0
  {
    records := [];
    for i := 0 to |files|
      invariant records == KeptFromFiles(files[..i])
    {
      var file := files[i];
      var filetype := FileTypeTag(file.name);
      records := AppendKeptLines(records, file.lines, filetype);
      KeptFromFilesSnoc(files, i);
    }
    assert files[..|files|] == files;
    StoredTimesPositive(files);
  }

  /** The inner loop over the lines of one file. */
  method AppendKeptLines(records: seq<Record>, content: seq<string>, filetype: string)
    returns (extended: seq<Record>)
    ensures extended == records + Kept(ParseLines(content, filetype))
  {
    extended := records;
    for j := 0 to |content|
      invariant extended == records + Kept(ParseLines(content[..j], filetype))
    {
      var parsed := ExtractLogDetails(content[j], filetype);
      ghost var done := Kept(ParseLines(content[..j], filetype));
      KeptLinesSnoc(content, j, filetype);
      if HasTruthyTime(parsed) {
        AppendAssoc(records, done, parsed);
        extended := extended + [parsed];
      }
    }
    assert content[..|content|] == content;
  }

  lemma KeptLinesSnoc(lines: seq<string>, j: nat, tag: string)
    requires j < |lines|
    ensures Kept(ParseLines(lines[..j + 1], tag)) == Kept(ParseLines(lines[..j], tag))
      + (if HasTruthyTime(ExtractLogDetails(lines[j], tag)) then [ExtractLogDetails(lines[j], tag)] else [])
  {
    ParseLinesSnoc(lines, j, tag);
    KeptSnoc(ParseLines(lines[..j], tag), ExtractLogDetails(lines[j], tag));
  }

  lemma AppendAssoc(a: seq<Record>, b: seq<Record>, x: Record)
    ensures (a + b) + [x] == a + (b + [x])
  {
  }

  lemma KeptFromFilesSnoc(files: seq<LogFile>, i: nat)
    requires i < |files|
    ensures KeptFromFiles(files[..i + 1])
         == KeptFromFiles(files[..i]) + Kept(ParseLines(files[i].lines, FileTypeTag(files[i].name)))
  {
    assert files[..i + 1][..i] == files[..i];
  }

  /** Every record in the store has a positive time. */
  lemma StoredTimesPositive(files: seq<LogFile>)
    ensures forall r :: r in KeptFromFiles(files) ==> r.time.Some? && r.time.value > 0
  {
    forall r | r in KeptFromFiles(files) ensures r.time.Some? && r.time.value > 0 {
      KeptFromFilesMembers(files, r);
    }
  }

  lemma ParseLinesSnoc(lines: seq<string>, j: nat, tag: string)
    requires j < |lines|
    ensures ParseLines(lines[..j + 1], tag) == ParseLines(lines[..j], tag) + [ExtractLogDetails(lines[j], tag)]
  {
    assert lines[..j + 1][..j] == lines[..j];
  }

  lemma KeptSnoc(rs: seq<Record>, r: Record)
    ensures Kept(rs + [r]) == Kept(rs) + (if HasTruthyTime(r) then [r] else [])
  {
    assert (rs + [r])[..|rs|] == rs;
  }

  /** Filtering keeps exactly the records with a truthy time. */
  lemma {:induction false} KeptMembers(rs: seq<Record>, r: Record)
    ensures r in Kept(rs) <==> r in rs && HasTruthyTime(r)
  {
    if rs != [] {
      var init := rs[..|rs| - 1];
      KeptMembers(init, r);
      assert rs == init + [rs[|rs| - 1]];
    }
  }

  /** A record is in the store exactly when its time is truthy and it is
      the parse of a line of some file. */
  lemma {:induction false} KeptFromFilesMembers(files: seq<LogFile>, r: Record)
    ensures r in KeptFromFiles(files) <==>
      HasTruthyTime(r)
      && exists i :: 0 <= i < |files| && r in ParseLines(files[i].lines, FileTypeTag(files[i].name))
  {
    if files != [] {
      var init := files[..|files| - 1];
      var last := files[|files| - 1];
      var rs := ParseLines(last.lines, FileTypeTag(last.name));
      KeptFromFilesMembers(init, r);
      KeptMembers(rs, r);
      assert KeptFromFiles(files) == KeptFromFiles(init) + Kept(rs);
      if r in KeptFromFiles(files) {
        if r in KeptFromFiles(init) {
          var i :| 0 <= i < |init| && r in ParseLines(init[i].lines, FileTypeTag(init[i].name));
          assert files[i] == init[i];
        } else {
          assert r in Kept(rs);
        }
      }
      if HasTruthyTime(r) && exists i :: 0 <= i < |files| && r in ParseLines(files[i].lines, FileTypeTag(files[i].name)) {
        var i :| 0 <= i < |files| && r in ParseLines(files[i].lines, FileTypeTag(files[i].name));
        if i < |init| {
          assert init[i] == files[i];
        } else {
          assert i == |files| - 1;
        }
      }
    }
  }

  /** Record `j` of a file is the parse of its line `j`: one record per
      line, in line order. */
  lemma ParseLinesAt(lines: seq<string>, tag: string, j: nat)
    requires j < |lines|
    ensures ParseLines(lines, tag)[j] == ExtractLogDetails(lines[j], tag)
  {
    PrefixParseAt(lines, tag, |lines|, j);
    assert lines[..|lines|] == lines;
  }

  /** The same for the records of the first `m` lines. */
  lemma {:induction false} PrefixParseAt(lines: seq<string>, tag: string, m: nat, j: nat)
    requires j < m <= |lines|
    ensures ParseLines(lines[..m], tag)[j] == ExtractLogDetails(lines[j], tag)
  {
    ParseLinesSnoc(lines, m - 1, tag);
    if j < m - 1 {
      PrefixParseAt(lines, tag, m - 1, j);
    }
  }

  /** Filtering distributes over concatenation, so it keeps order. */
  lemma {:induction false} KeptAppend(a: seq<Record>, b: seq<Record>)
    ensures Kept(a + b) == Kept(a) + Kept(b)
  {
    if b != [] {
      var init := b[..|b| - 1];
      var r := b[|b| - 1];
      KeptAppend(a, init);
      assert a + b == (a + init) + [r];
      KeptSnoc(a + init, r);
      KeptSnoc(init, r);
    } else {
      assert a + b == a;
    }
  }

  /** Filtering keeps every copy of a record with a truthy time and no copy
      of any other record. */
  lemma {:induction false} KeptMultiset(rs: seq<Record>, r: Record)
    ensures multiset(Kept(rs))[r] == if HasTruthyTime(r) then multiset(rs)[r] else 0
  {
    if rs != [] {
      var init := rs[..|rs| - 1];
      var x := rs[|rs| - 1];
      KeptMultiset(init, r);
      assert rs == init + [x];
    }
  }

  /** The parses of a file's lines are exactly the records of its lines. */
  lemma ParseLinesMembers(lines: seq<string>, tag: string, r: Record)
    ensures r in ParseLines(lines, tag) <==> exists j :: 0 <= j < |lines| && r == ExtractLogDetails(lines[j], tag)
  {
    var rs := ParseLines(lines, tag);
    if r in rs {
      var j :| 0 <= j < |rs| && rs[j] == r;
      ParseLinesAt(lines, tag, j);
    }
    if exists j :: 0 <= j < |lines| && r == ExtractLogDetails(lines[j], tag) {
      var j :| 0 <= j < |lines| && r == ExtractLogDetails(lines[j], tag);
      ParseLinesAt(lines, tag, j);
      assert rs[j] == r;
    }
  }

  /** A record is in the store exactly when its time is truthy and it is
      the parse of line `j` of file `i`, with that file's tag. */
  lemma StoreMembers(files: seq<LogFile>, r: Record)
    ensures r in KeptFromFiles(files) <==>
      HasTruthyTime(r)
      && exists i, j :: 0 <= i < |files| && 0 <= j < |files[i].lines|
           && r == ExtractLogDetails(files[i].lines[j], FileTypeTag(files[i].name))
  {
    KeptFromFilesMembers(files, r);
    forall i | 0 <= i < |files|
      ensures r in ParseLines(files[i].lines, FileTypeTag(files[i].name)) <==>
        exists j :: 0 <= j < |files[i].lines| && r == ExtractLogDetails(files[i].lines[j], FileTypeTag(files[i].name))
    {
      ParseLinesMembers(files[i].lines, FileTypeTag(files[i].name), r);
    }
  }

  /** Every record in the store has a positive time, and its format is the
      tag of a file it came from. */
  lemma StoredRecordsWellFormed(files: seq<LogFile>, r: Record)
    requires r in KeptFromFiles(files)
    ensures r.time.Some? && r.time.value > 0
    ensures exists i :: 0 <= i < |files| && r.format == FileTypeTag(files[i].name)
  {
    StoreMembers(files, r);
    var i, j :| 0 <= i < |files| && 0 <= j < |files[i].lines|
      && r == ExtractLogDetails(files[i].lines[j], FileTypeTag(files[i].name));
  }

  /** Whether a line is kept depends only on its leftmost time stamp: it is
      kept exactly when that stamp exists and has a non-zero digit. */
  lemma LineKeptIff(line: string, tag: string)
    ensures HasTruthyTime(ExtractLogDetails(line, tag)) <==>
      exists i: nat, k: nat :: LeftmostStamp(line, i, k) && !ZeroDigits(line, i, k)
  {
    var t := TimeField(line);
    assert ExtractLogDetails(line, tag).time == t;
    TimeIsLeftmostStamp(line);
    if t.Some? {
      var i: nat, k: nat :| LeftmostStamp(line, i, k) && t.value == DecimalValue(DigitRun(line, i + 4));
      StampDigits(line, i, k);
      forall i': nat, k': nat | LeftmostStamp(line, i', k')
        ensures i' == i && k' == k
      {
        LeftmostStampUnique(line, i, k, i', k');
      }
    }
  }

  /** A line with no `[ts:<digits>]` never reaches the store. */
  lemma NoStampNeverKept(line: string, tag: string)
    requires forall i: nat, k: nat :: !StampAt(line, i, k)
    ensures ExtractLogDetails(line, tag).time.None?
    ensures !HasTruthyTime(ExtractLogDetails(line, tag))
  {
    TimeIsLeftmostStamp(line);
  }

  /** A line whose leftmost stamp is all zeros parses to time 0 and is
      dropped too: the filter tests truthiness, not presence. */
  lemma ZeroStampNeverKept(line: string, tag: string, i: nat, k: nat)
    requires LeftmostStamp(line, i, k) && ZeroDigits(line, i, k)
    ensures ExtractLogDetails(line, tag).time == Some(0)
    ensures !HasTruthyTime(ExtractLogDetails(line, tag))
  {
    var t := TimeField(line);
    assert ExtractLogDetails(line, tag).time == t;
    TimeIsLeftmostStamp(line);
    var i': nat, k': nat :| LeftmostStamp(line, i', k') && t.value == DecimalValue(DigitRun(line, i' + 4));
    LeftmostStampUnique(line, i, k, i', k');
    StampDigits(line, i, k);
  }
}
