/** The line parser of the log inspector: six independent regular-expression
    searches over one log line, the record they build, and the file-type tag
    that every record of a file carries.

    Each of the six patterns has the shape `lead(groupLead cls+)close`: a
    literal, a captured group made of an optional literal and a greedy
    non-empty run of one character class, and an optional closing character.
    Only `[ts:(\d+)]` has a closing character.  Character classes are the
    ASCII subset: `\d` is `[0-9]`, `\w` is `[A-Za-z0-9_]`, and `.` is any
    character but a newline. */
module LineParser {
  import opened Wrappers

  // ---------------------------------------------------------------------
  // Character classes
  // ---------------------------------------------------------------------

  predicate IsDigit(c: char) { '0' <= c <= '9' }

  predicate IsWordChar(c: char) {
    'a' <= c <= 'z' || 'A' <= c <= 'Z' || IsDigit(c) || c == '_'
  }

  /** `\d`, `\w`, `[\d\.]` and `.` */
  datatype CharClass = Digit | Word | DigitOrDot | AnyButNewline

  predicate InClass(c: char, cls: CharClass) {
    match cls
    case Digit => IsDigit(c)
    case Word => IsWordChar(c)
    case DigitOrDot => IsDigit(c) || c == '.'
    case AnyButNewline => c != '\n'
  }

  // ---------------------------------------------------------------------
  // Patterns
  // ---------------------------------------------------------------------

  /** The regular expression `lead(groupLead cls+)close`. */
  datatype Pattern = Pattern(lead: string, groupLead: string, cls: CharClass, close: Option<char>)
  {
    /** The literal text that must occur before the character run. */
    function Literal(): string { lead + groupLead }
  }

  /** The literal is non-empty, and the closing character cannot be
      swallowed by the run (so greedy matching never needs to back off). */
  predicate WellFormed(p: Pattern) {
    |p.Literal()| > 0 && (p.close.Some? ==> !InClass(p.close.value, p.cls))
  }

  /** `\[ts:(\d+)]` */
  const TsPattern: Pattern := Pattern("[ts:", "", Digit, Some(']'))
  /** `EVNT:(XR-\w+)` */
  const EventPattern: Pattern := Pattern("EVNT:", "XR-", Word, None)
  /** `usr:(\w+)` */
  const UserPattern: Pattern := Pattern("usr:", "", Word, None)
  /** `IP:([\d\.]+)` */
  const IpPattern: Pattern := Pattern("IP:", "", DigitOrDot, None)
  /** `=>/(.+)` */
  const PathPattern: Pattern := Pattern("=>/", "", AnyButNewline, None)
  /** `pid(\d+)` */
  const PidPattern: Pattern := Pattern("pid", "", Digit, None)

  lemma PatternsWellFormed()
    ensures WellFormed(TsPattern) && WellFormed(EventPattern) && WellFormed(UserPattern)
    ensures WellFormed(IpPattern) && WellFormed(PathPattern) && WellFormed(PidPattern)
  {
  }

  // ---------------------------------------------------------------------
  // Matching
  // ---------------------------------------------------------------------

  /** Length of the longest run of `cls` characters in `s` starting at `i`. */
  function RunFrom(s: string, i: nat, cls: CharClass): (k: nat)
    requires i <= |s|
    ensures i + k <= |s|
    ensures forall m :: i <= m < i + k ==> InClass(s[m], cls)
    ensures i + k == |s| || !InClass(s[i + k], cls)
    decreases |s| - i
  {
    if i == |s| || !InClass(s[i], cls) then 0 else 1 + RunFrom(s, i + 1, cls)
  }

  /** The whole run of digits of `line` that starts at `x`. */
  function DigitRun(line: string, x: nat): (d: string)
    requires x <= |line|
    ensures x + |d| <= |line| && d == line[x .. x + |d|]
    ensures forall m :: 0 <= m < |d| ==> IsDigit(d[m])
    ensures x + |d| == |line| || !IsDigit(line[x + |d|])
  {
    line[x .. x + RunFrom(line, x, Digit)]
  }

  /** The greedy match of `p` anchored at position `i`: its captured group,
      or None when the pattern does not match there. */
  function MatchAt(s: string, i: nat, p: Pattern): (g: Option<string>)
    requires i <= |s|
    ensures g.Some? ==> |g.value| > |p.groupLead| && g.value[..|p.groupLead|] == p.groupLead
    ensures g.Some? ==> forall m :: |p.groupLead| <= m < |g.value| ==> InClass(g.value[m], p.cls)
  {
    var lit := p.Literal();
    var start := i + |lit|;
    if start <= |s| && s[i..start] == lit then
      var k := RunFrom(s, start, p.cls);
      if k > 0 && (p.close.None? || (start + k < |s| && s[start + k] == p.close.value))
      then Some(p.groupLead + s[start..start + k])
      else None
    else None
  }

  /** Reference semantics of a backtracking regex engine: `p` matches at
      `i` with a run of exactly `k` class characters. */
  ghost predicate MatchesWith(s: string, i: nat, p: Pattern, k: nat) {
    var start := i + |p.Literal()|;
    && start + k <= |s|
    && s[i..start] == p.Literal()
    && k >= 1
    && (forall m :: start <= m < start + k ==> InClass(s[m], p.cls))
    && (p.close.Some? ==> start + k < |s| && s[start + k] == p.close.value)
  }

  /** The greedy scan finds a match exactly when the backtracking engine
      does, and captures the longest run the engine would accept first. */
  lemma MatchAtIsLongestMatch(s: string, i: nat, p: Pattern)
    requires WellFormed(p) && i <= |s|
    ensures MatchAt(s, i, p).None? <==> forall k: nat :: !MatchesWith(s, i, p, k)
    ensures MatchAt(s, i, p).Some? ==>
      exists k: nat :: MatchesWith(s, i, p, k)
        && (forall k': nat :: k < k' ==> !MatchesWith(s, i, p, k'))
        && MatchAt(s, i, p).value == p.groupLead + s[i + |p.Literal()| .. i + |p.Literal()| + k]
  {
    var lit := p.Literal();
    var start := i + |lit|;
    if start <= |s| && s[i..start] == lit {
      var run := RunFrom(s, start, p.cls);
      forall k: nat | MatchesWith(s, i, p, k)
        ensures k <= run && (p.close.Some? ==> k == run)
      {
      }
      if MatchAt(s, i, p).Some? {
        assert MatchesWith(s, i, p, run);
      }
    }
  }

  /** A match at `i` is the reference's match with the whole run of the
      class, and no longer run is accepted there. */
  lemma MatchAtRun(s: string, i: nat, p: Pattern)
    requires WellFormed(p) && i <= |s| && MatchAt(s, i, p).Some?
    ensures i + |p.Literal()| <= |s|
    ensures
      var k := RunFrom(s, i + |p.Literal()|, p.cls);
      && MatchesWith(s, i, p, k)
      && (forall k': nat :: k < k' ==> !MatchesWith(s, i, p, k'))
      && MatchAt(s, i, p).value == p.groupLead + s[i + |p.Literal()| .. i + |p.Literal()| + k]
  {
    var start := i + |p.Literal()|;
    var run := RunFrom(s, start, p.cls);
    forall k': nat | MatchesWith(s, i, p, k')
      ensures k' <= run
    {
    }
  }

  /** A match found by a scan: its position and its captured group. */
  datatype Found = Found(pos: nat, group: string)

  /** The leftmost position at or after `i` where `p` matches. */
  function SearchFrom(s: string, p: Pattern, i: nat): (r: Option<Found>)
    requires i <= |s|
    ensures r.Some? ==> i <= r.value.pos <= |s| && MatchAt(s, r.value.pos, p) == Some(r.value.group)
    ensures forall j :: i <= j <= |s| && (r.None? || j < r.value.pos) ==> MatchAt(s, j, p).None?
    decreases |s| - i
  {
    match MatchAt(s, i, p)
    case Some(g) => Some(Found(i, g))
    case None => if i == |s| then None else SearchFrom(s, p, i + 1)
  }

  /** `re.search(p, s)`: the leftmost match of `p` in `s`. */
  function Search(s: string, p: Pattern): (r: Option<Found>)
    ensures r.Some? ==> r.value.pos <= |s| && MatchAt(s, r.value.pos, p) == Some(r.value.group)
    ensures forall j :: 0 <= j <= |s| && (r.None? || j < r.value.pos) ==> MatchAt(s, j, p).None?
  {
    SearchFrom(s, p, 0)
  }

  /** Every match the backtracking reference accepts is seen by the greedy
      scan at the same position. */
  lemma MatchesWithSeenByScan(s: string, p: Pattern, i: nat, k: nat)
    requires WellFormed(p) && MatchesWith(s, i, p, k)
    ensures i <= |s| && MatchAt(s, i, p).Some?
  {
    MatchAtIsLongestMatch(s, i, p);
  }

  /** `re.search` against the backtracking reference: no match anywhere,
      or a match at the leftmost position where one exists, capturing the
      longest accepted run there. */
  lemma SearchIsLeftmostLongest(s: string, p: Pattern)
    requires WellFormed(p)
    ensures Search(s, p).None? <==> forall i: nat, k: nat :: !MatchesWith(s, i, p, k)
    ensures Search(s, p).Some? ==>
      var f := Search(s, p).value;
      && (forall i: nat, k: nat :: i < f.pos ==> !MatchesWith(s, i, p, k))
      && exists k: nat :: MatchesWith(s, f.pos, p, k)
           && (forall k': nat :: k < k' ==> !MatchesWith(s, f.pos, p, k'))
           && f.group == p.groupLead + s[f.pos + |p.Literal()| .. f.pos + |p.Literal()| + k]
  {
    SearchNoLaterThanAnyMatch(s, p);
    if Search(s, p).Some? {
      SearchFindsLongest(s, p);
    }
  }

  /** Where the scan stops, the reference accepts a match, and the scan
      captures its longest run. */
  lemma SearchFindsLongest(s: string, p: Pattern)
    requires WellFormed(p) && Search(s, p).Some?
    ensures
      var f := Search(s, p).value;
      exists k: nat :: MatchesWith(s, f.pos, p, k)
        && (forall k': nat :: k < k' ==> !MatchesWith(s, f.pos, p, k'))
        && f.group == p.groupLead + s[f.pos + |p.Literal()| .. f.pos + |p.Literal()| + k]
  {
    MatchAtIsLongestMatch(s, Search(s, p).value.pos, p);
  }

  /** The scan stops at or before every position where the reference
      accepts a match. */
  lemma SearchNoLaterThanAnyMatch(s: string, p: Pattern)
    requires WellFormed(p)
    ensures forall i: nat, k: nat :: MatchesWith(s, i, p, k) ==> Search(s, p).Some? && Search(s, p).value.pos <= i
  {
    forall i: nat, k: nat | MatchesWith(s, i, p, k)
      ensures Search(s, p).Some? && Search(s, p).value.pos <= i
    {
      MatchesWithSeenByScan(s, p, i, k);
    }
  }

  // ---------------------------------------------------------------------
  // Decimal values (`int()` on a run of ASCII digits)
  // ---------------------------------------------------------------------

  /** The value of a run of decimal digits; leading zeros are allowed. */
  function DecimalValue(d: string): (v: nat)
    requires forall m :: 0 <= m < |d| ==> IsDigit(d[m])
    ensures v == 0 <==> forall m :: 0 <= m < |d| ==> d[m] == '0'
  {
    if d == [] then 0
    else
      var init, last := d[..|d| - 1], d[|d| - 1];
      assert IsDigit(last);
      assert forall m :: 0 <= m < |init| ==> init[m] == d[m];
      10 * DecimalValue(init) + (last as int - '0' as int)
  }

  /** Leading zeros do not change the value. */
  lemma {:induction false} LeadingZeroIgnored(d: string)
    requires forall m :: 0 <= m < |d| ==> IsDigit(d[m])
    ensures DecimalValue("0" + d) == DecimalValue(d)
  {
    if d != [] {
      var init := d[..|d| - 1];
      assert ("0" + d)[..|d|] == "0" + init;
      LeadingZeroIgnored(init);
    }
  }

  // ---------------------------------------------------------------------
  // The parsed record (`extract_log_details`)
  // ---------------------------------------------------------------------

  /** One parsed line.  A field whose pattern did not match is None. */
  datatype Record = Record(
    time: Option<nat>,
    event: Option<string>,
    user: Option<string>,
    ip: Option<string>,
    path: Option<string>,
    pid: Option<nat>,
    format: string)

  /** The group captured by the leftmost match, if any: the group's
      literal followed by a non-empty run of the class. */
  function Capture(s: string, p: Pattern): (g: Option<string>)
    ensures g.Some? ==> |g.value| > |p.groupLead| && g.value[..|p.groupLead|] == p.groupLead
    ensures g.Some? ==> forall m :: |p.groupLead| <= m < |g.value| ==> InClass(g.value[m], p.cls)
  {
    match Search(s, p)
    case None => None
    case Some(f) => Some(f.group)
  }

  /** `time`: the value of the digits of the leftmost `[ts:<digits>]`. */
  function TimeField(entry: string): Option<nat> {
    var ts := Capture(entry, TsPattern);
    if ts.Some? then Some(DecimalValue(ts.value)) else None
  }

  /** `event`: the leftmost `XR-<word characters>` after `EVNT:`. */
  function EventField(entry: string): (ev: Option<string>)
    ensures ev.Some? ==>
      |ev.value| > 3 && ev.value[..3] == "XR-"
      && forall m :: 3 <= m < |ev.value| ==> IsWordChar(ev.value[m])
  {
    Capture(entry, EventPattern)
  }

  /** `user`: the word characters after the leftmost `usr:`. */
  function UserField(entry: string): (us: Option<string>)
    ensures us.Some? ==> |us.value| > 0 && forall m :: 0 <= m < |us.value| ==> IsWordChar(us.value[m])
  {
    Capture(entry, UserPattern)
  }

  /** `ip`: the digits and dots after the leftmost `IP:`. */
  function IpField(entry: string): (ip: Option<string>)
    ensures ip.Some? ==>
      |ip.value| > 0 && forall m :: 0 <= m < |ip.value| ==> IsDigit(ip.value[m]) || ip.value[m] == '.'
  {
    Capture(entry, IpPattern)
  }

  /** `file_path`: `/` followed by the rest of the line after the leftmost
      `=>/`, up to a newline. */
  function PathField(entry: string): (fp: Option<string>)
    ensures fp.Some? ==>
      |fp.value| >= 2 && fp.value[0] == '/'
      && forall m :: 1 <= m < |fp.value| ==> fp.value[m] != '\n'
  {
    var g := Capture(entry, PathPattern);
    if g.Some? then Some("/" + g.value) else None
  }

  /** `pid`: the value of the digits after the leftmost `pid<digit>`. */
  function PidField(entry: string): Option<nat> {
    var pr := Capture(entry, PidPattern);
    if pr.Some? then Some(DecimalValue(pr.value)) else None
  }

  /** The reference accepts a match at `i` with a run of `k`, at no
      earlier position, and with no longer run at `i`. */
  ghost predicate LeftmostLongest(s: string, p: Pattern, i: nat, k: nat) {
    && MatchesWith(s, i, p, k)
    && (forall i': nat, k': nat :: i' < i ==> !MatchesWith(s, i', p, k'))
    && (forall k': nat :: k < k' ==> !MatchesWith(s, i, p, k'))
  }

  /** `m.group(1) if m else None` for `m = re.search(p, s)`: None exactly
      when the reference accepts no match; otherwise the group literal and
      the run of the leftmost, longest match. */
  lemma CaptureIsLeftmostLongest(s: string, p: Pattern)
    requires WellFormed(p)
    ensures Capture(s, p).None? <==> forall i: nat, k: nat :: !MatchesWith(s, i, p, k)
    ensures Capture(s, p).Some? ==>
      exists i: nat, k: nat :: LeftmostLongest(s, p, i, k)
        && Capture(s, p).value == p.groupLead + s[i + |p.Literal()| .. i + |p.Literal()| + k]
  {
    CaptureNone(s, p);
    if Capture(s, p).Some? {
      CaptureLeftmost(s, p);
    }
  }

  /** The first half of `CaptureIsLeftmostLongest`. */
  lemma CaptureNone(s: string, p: Pattern)
    requires WellFormed(p)
    ensures Capture(s, p).None? <==> forall i: nat, k: nat :: !MatchesWith(s, i, p, k)
  {
    SearchNoLaterThanAnyMatch(s, p);
    if Search(s, p).Some? {
      MatchAtRun(s, Search(s, p).value.pos, p);
    }
  }

  /** The second half of `CaptureIsLeftmostLongest`. */
  lemma CaptureLeftmost(s: string, p: Pattern)
    requires WellFormed(p) && Capture(s, p).Some?
    ensures
      exists i: nat, k: nat :: LeftmostLongest(s, p, i, k)
        && Capture(s, p).value == p.groupLead + s[i + |p.Literal()| .. i + |p.Literal()| + k]
  {
    var i := Search(s, p).value.pos;
    MatchAtRun(s, i, p);
    var k := RunFrom(s, i + |p.Literal()|, p.cls);
    NoEarlierMatch(s, p, i);
    assert LeftmostLongest(s, p, i, k);
  }

  /** No match of the reference starts before the position of the scan. */
  lemma NoEarlierMatch(s: string, p: Pattern, i: nat)
    requires WellFormed(p) && Search(s, p).Some? && i == Search(s, p).value.pos
    ensures forall i': nat, k': nat :: i' < i ==> !MatchesWith(s, i', p, k')
  {
    SearchNoLaterThanAnyMatch(s, p);
  }

  /** The event field: None exactly when `EVNT:(XR-\w+)` matches nowhere;
      otherwise `XR-` and the whole word run of the leftmost match. */
  lemma EventIsLeftmost(line: string)
    ensures EventField(line).None? <==> forall i: nat, k: nat :: !MatchesWith(line, i, EventPattern, k)
    ensures EventField(line).Some? ==>
      exists i: nat, k: nat :: LeftmostLongest(line, EventPattern, i, k)
        && EventField(line).value == "XR-" + line[i + 8 .. i + 8 + k]
  {
    PatternsWellFormed();
    assert |EventPattern.Literal()| == 8;
    CaptureIsLeftmostLongest(line, EventPattern);
  }

  /** The user field: None exactly when `usr:(\w+)` matches nowhere;
      otherwise the whole word run of the leftmost match. */
  lemma UserIsLeftmost(line: string)
    ensures UserField(line).None? <==> forall i: nat, k: nat :: !MatchesWith(line, i, UserPattern, k)
    ensures UserField(line).Some? ==>
      exists i: nat, k: nat :: LeftmostLongest(line, UserPattern, i, k)
        && UserField(line).value == line[i + 4 .. i + 4 + k]
  {
    PatternsWellFormed();
    assert |UserPattern.Literal()| == 4;
    CaptureIsLeftmostLongest(line, UserPattern);
  }

  /** The IP field: None exactly when `IP:([\d\.]+)` matches nowhere;
      otherwise the whole run of digits and dots of the leftmost match. */
  lemma IpIsLeftmost(line: string)
    ensures IpField(line).None? <==> forall i: nat, k: nat :: !MatchesWith(line, i, IpPattern, k)
    ensures IpField(line).Some? ==>
      exists i: nat, k: nat :: LeftmostLongest(line, IpPattern, i, k)
        && IpField(line).value == line[i + 3 .. i + 3 + k]
  {
    PatternsWellFormed();
    assert |IpPattern.Literal()| == 3;
    CaptureIsLeftmostLongest(line, IpPattern);
  }

  /** `extract_log_details(entry, ftype)`: six independent searches. */
  function ExtractLogDetails(entry: string, ftype: string): (r: Record)
    ensures r.format == ftype
    ensures r.event.Some? ==>
      |r.event.value| > 3 && r.event.value[..3] == "XR-"
      && forall m :: 3 <= m < |r.event.value| ==> IsWordChar(r.event.value[m])
    ensures r.user.Some? ==>
      |r.user.value| > 0 && forall m :: 0 <= m < |r.user.value| ==> IsWordChar(r.user.value[m])
    ensures r.ip.Some? ==>
      |r.ip.value| > 0 && forall m :: 0 <= m < |r.ip.value| ==> IsDigit(r.ip.value[m]) || r.ip.value[m] == '.'
    ensures r.path.Some? ==>
      |r.path.value| >= 2 && r.path.value[0] == '/'
      && forall m :: 1 <= m < |r.path.value| ==> r.path.value[m] != '\n'
  {
    Record(TimeField(entry), EventField(entry), UserField(entry), IpField(entry),
      PathField(entry), PidField(entry), ftype)
  }

  /** `[ts:` at `i`, then `k` digits (at least one), then `]`. */
  ghost predicate StampAt(line: string, i: nat, k: nat) {
    && i + 4 + k < |line|
    && line[i..i + 4] == "[ts:"
    && k >= 1
    && (forall m :: i + 4 <= m < i + 4 + k ==> IsDigit(line[m]))
    && line[i + 4 + k] == ']'
  }

  lemma StampAtIsTsMatch(line: string, i: nat, k: nat)
    ensures StampAt(line, i, k) <==> MatchesWith(line, i, TsPattern, k)
  {
  }

  /** The stamp at `i` with `k` digits is the leftmost one in the line. */
  ghost predicate LeftmostStamp(line: string, i: nat, k: nat) {
    StampAt(line, i, k) && forall i': nat, k': nat :: i' < i ==> !StampAt(line, i', k')
  }

  /** A line has at most one leftmost stamp. */
  lemma LeftmostStampUnique(line: string, i: nat, k: nat, i': nat, k': nat)
    requires LeftmostStamp(line, i, k) && LeftmostStamp(line, i', k')
    ensures i == i' && k == k'
  {
  }

  /** The `k` digits after `[ts:` at `i` are all `0`. */
  ghost predicate ZeroDigits(line: string, i: nat, k: nat)
    requires i + 4 + k <= |line|
  {
    forall m :: i + 4 <= m < i + 4 + k ==> line[m] == '0'
  }

  /** The digits of a stamp are the whole digit run after `[ts:`, and they
      have value 0 exactly when they are all `0`. */
  lemma StampDigits(line: string, i: nat, k: nat)
    requires StampAt(line, i, k)
    ensures DigitRun(line, i + 4) == line[i + 4 .. i + 4 + k]
    ensures DecimalValue(DigitRun(line, i + 4)) == 0 <==> ZeroDigits(line, i, k)
  {
    var d := DigitRun(line, i + 4);
    assert |d| == k;
    assert forall m :: 0 <= m < k ==> d[m] == line[i + 4 + m];
    if !ZeroDigits(line, i, k) {
      var m :| i + 4 <= m < i + 4 + k && line[m] != '0';
      assert d[m - i - 4] != '0';
    }
  }

  /** Every stamp is seen by the scan at its own position. */
  lemma StampSeenByScan(line: string, i: nat, k: nat)
    requires StampAt(line, i, k)
    ensures i <= |line| && MatchAt(line, i, TsPattern).Some?
  {
    PatternsWellFormed();
    StampAtIsTsMatch(line, i, k);
    MatchesWithSeenByScan(line, TsPattern, i, k);
  }

  /** A match of `[ts:(\d+)]` is a stamp, and captures the digit run. */
  lemma TsMatchIsStamp(line: string, i: nat)
    requires i <= |line| && MatchAt(line, i, TsPattern).Some?
    ensures StampAt(line, i, |MatchAt(line, i, TsPattern).value|)
    ensures MatchAt(line, i, TsPattern).value == DigitRun(line, i + 4)
  {
  }

  /** The time field: absent exactly when the line holds no `[ts:<digits>]`;
      otherwise the value of the digits of the leftmost such stamp,
      whatever else the line holds. */
  lemma TimeIsLeftmostStamp(line: string)
    ensures TimeField(line).None? <==> forall i: nat, k: nat :: !StampAt(line, i, k)
    ensures TimeField(line).Some? ==>
      exists i: nat, k: nat :: LeftmostStamp(line, i, k)
        && TimeField(line).value == DecimalValue(DigitRun(line, i + 4))
  {
    var f := Search(line, TsPattern);
    forall i: nat, k: nat | StampAt(line, i, k)
      ensures f.Some? && f.value.pos <= i
    {
      StampSeenByScan(line, i, k);
    }
    if f.Some? {
      var i := f.value.pos;
      TsMatchIsStamp(line, i);
      var k := |f.value.group|;
      assert LeftmostStamp(line, i, k);
    }
  }

  lemma RunFromAppend(a: string, b: string, x: nat, cls: CharClass)
    requires x <= |a| && x + RunFrom(a, x, cls) < |a|
    ensures RunFrom(a + b, x, cls) == RunFrom(a, x, cls)
    decreases |a| - x
  {
    assert (a + b)[x] == a[x];
    if InClass(a[x], cls) {
      RunFromAppend(a, b, x + 1, cls);
    }
  }

  /** A match attempt decided inside `a` is not affected by appending `b`. */
  lemma MatchAtAppend(a: string, b: string, j: nat, p: Pattern)
    requires j + |p.Literal()| <= |a|
    requires a[j..j + |p.Literal()|] == p.Literal() ==>
      j + |p.Literal()| + RunFrom(a, j + |p.Literal()|, p.cls) < |a|
    ensures MatchAt(a + b, j, p) == MatchAt(a, j, p)
  {
    var lit := p.Literal();
    var start := j + |lit|;
    assert (a + b)[j..start] == a[j..start];
    if a[j..start] == lit {
      var run := RunFrom(a, start, p.cls);
      RunFromAppend(a, b, start, p.cls);
      assert (a + b)[start..start + run] == a[start..start + run];
      assert (a + b)[start + run] == a[start + run];
    }
  }

  /** For a pattern with a closing character, the leftmost match of `a`
      stays the leftmost match whatever text is appended to `a`. */
  lemma SearchAppend(a: string, b: string, p: Pattern)
    requires WellFormed(p) && p.close.Some? && Search(a, p).Some?
    ensures Search(a + b, p) == Search(a, p)
  {
    var f := Search(a, p).value;
    var i := f.pos;
    var lit := p.Literal();
    var c := i + |lit| + RunFrom(a, i + |lit|, p.cls);
    assert c < |a| && a[c] == p.close.value;
    forall j: nat | j <= i
      ensures MatchAt(a + b, j, p) == MatchAt(a, j, p)
    {
      if a[j..j + |lit|] == lit {
        var rj := RunFrom(a, j + |lit|, p.cls);
        assert !InClass(a[c], p.cls);
        assert j + |lit| + rj <= c;
      }
      MatchAtAppend(a, b, j, p);
    }
    var g := Search(a + b, p);
    assert g.Some? && g.value.pos == i;
  }

  /** Text appended after a line that already carries a time stamp never
      changes the parsed time: the closing `]` ends the leftmost stamp. */
  lemma TimeUnaffectedByTrailingText(a: string, b: string, ftype: string)
    requires ExtractLogDetails(a, ftype).time.Some?
    ensures ExtractLogDetails(a + b, ftype).time == ExtractLogDetails(a, ftype).time
  {
    PatternsWellFormed();
    SearchAppend(a, b, TsPattern);
    assert Capture(a + b, TsPattern) == Capture(a, TsPattern);
  }

  /** `=>/` starting at `i` with at least one character after it. */
  ghost predicate ArrowAt(line: string, i: nat) {
    i + 3 < |line| && line[i..i + 3] == "=>/"
  }

  /** On a line without newlines, `=>/(.+)` matches at `i` exactly when
      `=>/` is there with a character after it, and captures the rest of
      the line. */
  lemma PathMatchAt(line: string, i: nat)
    requires forall m :: 0 <= m < |line| ==> line[m] != '\n'
    requires i <= |line|
    ensures MatchAt(line, i, PathPattern).Some? <==> ArrowAt(line, i)
    ensures MatchAt(line, i, PathPattern).Some? ==> MatchAt(line, i, PathPattern).value == line[i + 3..]
  {
    if i + 3 <= |line| && line[i..i + 3] == "=>/" {
      var run := RunFrom(line, i + 3, AnyButNewline);
      assert i + 3 + run == |line|;
    }
  }

  /** `=>/` with a character after it at `i`, and at no position before it. */
  ghost predicate LeftmostArrow(line: string, i: nat) {
    ArrowAt(line, i) && forall j: nat :: j < i ==> !ArrowAt(line, j)
  }

  /** On a line without newlines (every line `splitlines` yields), the path
      is present exactly when some `=>/` has a character after it, and is
      then `/` followed by the whole rest of the line after the leftmost
      such `=>/`; so it is never `/` alone. */
  lemma PathIsRestOfLine(line: string)
    requires forall m :: 0 <= m < |line| ==> line[m] != '\n'
    ensures PathField(line).Some? <==> exists i: nat :: ArrowAt(line, i)
    ensures PathField(line).Some? ==>
      exists i: nat :: LeftmostArrow(line, i) && PathField(line).value == "/" + line[i + 3..]
  {
    var f := Search(line, PathPattern);
    forall i: nat | ArrowAt(line, i)
      ensures f.Some? && f.value.pos <= i
    {
      PathMatchAt(line, i);
    }
    if f.Some? {
      var i := f.value.pos;
      PathMatchAt(line, i);
      assert LeftmostArrow(line, i);
    }
  }

  /** `pid` at `i`, directly followed by a digit. */
  ghost predicate PidAt(line: string, i: nat) {
    i + 3 < |line| && line[i..i + 3] == "pid" && IsDigit(line[i + 3])
  }

  /** `pid(\d+)` matches at `i` exactly when `pid` is there followed by a
      digit, and captures the whole digit run. */
  lemma PidMatchAt(line: string, i: nat)
    requires i <= |line|
    ensures MatchAt(line, i, PidPattern).Some? <==> PidAt(line, i)
    ensures MatchAt(line, i, PidPattern).Some? ==> MatchAt(line, i, PidPattern).value == DigitRun(line, i + 3)
  {
    assert PidPattern.Literal() == "pid";
    if i + 3 <= |line| && line[i..i + 3] == "pid" {
      var run := RunFrom(line, i + 3, Digit);
      assert run > 0 <==> i + 3 < |line| && IsDigit(line[i + 3]);
    }
  }

  /** `pid<digit>` at `i`, and at no position before it. */
  ghost predicate LeftmostPid(line: string, i: nat) {
    PidAt(line, i) && forall j: nat :: j < i ==> !PidAt(line, j)
  }

  /** The pid field: present exactly when some `pid` is followed by a
      digit; then the value of the whole digit run after the leftmost such
      `pid`. */
  lemma PidIsLeftmostDigitRun(line: string)
    ensures PidField(line).Some? <==> exists i: nat :: PidAt(line, i)
    ensures PidField(line).Some? ==>
      exists i: nat :: LeftmostPid(line, i) && PidField(line).value == DecimalValue(DigitRun(line, i + 3))
  {
    var f := Search(line, PidPattern);
    forall i: nat | PidAt(line, i)
      ensures f.Some? && f.value.pos <= i
    {
      PidMatchAt(line, i);
    }
    if f.Some? {
      var i := f.value.pos;
      PidMatchAt(line, i);
      assert LeftmostPid(line, i);
    }
  }

  // ---------------------------------------------------------------------
  // The file-type tag (`file.name.split('.')[-1].upper()`)
  // ---------------------------------------------------------------------

  /** The text after the last `.` of `name`, or all of `name` when it has
      no `.`. */
  function LastSegment(name: string): (r: string)
    ensures |r| <= |name| && r == name[|name| - |r|..]
    ensures forall m :: |name| - |r| <= m < |name| ==> name[m] != '.'
    ensures |r| == |name| || name[|name| - |r| - 1] == '.'
  {
    if name == [] || name[|name| - 1] == '.' then []
    else LastSegment(name[..|name| - 1]) + [name[|name| - 1]]
  }

  /** The three properties above single out the last segment: any suffix
      without a `.` that is the whole name or follows a `.` is it. */
  lemma LastSegmentUnique(name: string, t: string)
    requires |t| <= |name| && t == name[|name| - |t|..]
    requires forall m :: |name| - |t| <= m < |name| ==> name[m] != '.'
    requires |t| == |name| || name[|name| - |t| - 1] == '.'
    ensures t == LastSegment(name)
  {
  }

  function UpperChar(c: char): char {
    if 'a' <= c <= 'z' then (c as int - 32) as char else c
  }

  /** `str.upper()` on the ASCII subset. */
  function AsciiUpper(s: string): string {
    seq(|s|, m requires 0 <= m < |s| => UpperChar(s[m]))
  }

  /** The tag every record of a file carries in its `format` field. */
  function FileTypeTag(name: string): (r: string)
    ensures |r| <= |name|
    ensures forall m :: 0 <= m < |r| ==> r[m] != '.' && !('a' <= r[m] <= 'z')
  {
    AsciiUpper(LastSegment(name))
  }

  /** `app.server.vlog` is tagged `VLOG`. */
  lemma FileTypeTagOfExtension(stem: string, ext: string)
    requires forall m :: 0 <= m < |ext| ==> ext[m] != '.'
    ensures FileTypeTag(stem + "." + ext) == AsciiUpper(ext)
  {
    var name := stem + "." + ext;
    assert name[|name| - |ext|..] == ext;
    LastSegmentUnique(name, ext);
  }

  /** A name without a `.` is tagged with the whole name, uppercased. */
  lemma FileTypeTagWithoutDot(name: string)
    requires forall m :: 0 <= m < |name| ==> name[m] != '.'
    ensures FileTypeTag(name) == AsciiUpper(name)
  {
    assert name[|name| - |name|..] == name;
    LastSegmentUnique(name, name);
  }
}
