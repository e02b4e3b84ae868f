/** The timeline: the stored records grouped into 10-second windows, as
    `groupby(pd.Grouper(key="time", freq="10S")).size()` does.  Windows are
    closed on the left and labelled by their left edge; a day starts at a
    multiple of 10 seconds since the epoch, so every window starts at a
    multiple of 10.  The result runs without gaps from the window of the
    earliest time to the window of the latest, empty windows included. */
module TimeBuckets {
  import opened LineParser
  import opened EventStore

  /** The number of the window holding second `t`, counted from the
      epoch; the division floors, so a negative second falls in the window
      to its left as well. */
  function WindowIndex(t: int): (q: int)
    ensures q * 10 <= t < q * 10 + 10
  {
    t / 10
  }

  /** The left edge (the label) of the window holding second `t`. */
  function WindowStart(t: int): (w: int)
    ensures w % 10 == 0 && w <= t < w + 10
  {
    WindowIndex(t) * 10
  }

  /** A second lies in exactly one aligned window: any aligned window
      holding `t` is the one `WindowStart` picks. */
  lemma WindowStartUnique(t: int, w: int)
    requires w % 10 == 0 && w <= t < w + 10
    ensures w == WindowStart(t)
  {
    assert w == (w / 10) * 10;
  }

  /** The smallest time. */
  function Min(ts: seq<int>): (m: int)
    requires |ts| > 0
    ensures m in ts
    ensures forall i :: 0 <= i < |ts| ==> m <= ts[i]
  {
    if |ts| == 1 then ts[0]
    else
      var m := Min(ts[..|ts| - 1]);
      if ts[|ts| - 1] < m then ts[|ts| - 1] else m
  }

  /** The largest time. */
  function Max(ts: seq<int>): (m: int)
    requires |ts| > 0
    ensures m in ts
    ensures forall i :: 0 <= i < |ts| ==> ts[i] <= m
  {
    if |ts| == 1 then ts[0]
    else
      var m := Max(ts[..|ts| - 1]);
      if ts[|ts| - 1] > m then ts[|ts| - 1] else m
  }

  /** `.size()` of one group: how many times fall in the window
      `[w, w + 10)`. */
  function CountIn(times: seq<int>, w: int): (c: nat)
    ensures c <= |times|
    ensures c == 0 <==> forall i :: 0 <= i < |times| ==> !(w <= times[i] < w + 10)
  {
    if times == [] then 0
    else
      var init := times[..|times| - 1];
      var c := CountIn(init, w);
      assert forall i :: 0 <= i < |init| ==> times[i] == init[i];
      if w <= times[|times| - 1] < w + 10 then c + 1 else c
  }

  /** One row of `event_counts`: a window's left edge and its size. */
  datatype Bucket = Bucket(start: int, count: nat)

  /** The `n` consecutive windows numbered from `lo` on, each with its
      size. */
  function Windows(times: seq<int>, lo: int, n: nat): (ws: seq<Bucket>)
    ensures |ws| == n
    ensures forall k :: 0 <= k < n ==> ws[k] == Bucket((lo + k) * 10, CountIn(times, (lo + k) * 10))
  {
    if n == 0 then []
    else Windows(times, lo, n - 1) + [Bucket((lo + n - 1) * 10, CountIn(times, (lo + n - 1) * 10))]
  }

  /** `event_counts`: the windows from that of the earliest time to that
      of the latest; no times give no windows. */
  function Buckets(times: seq<int>): (bs: seq<Bucket>)
    ensures bs == [] <==> times == []
  {
    if |times| == 0 then []
    else
      var lo := WindowIndex(Min(times));
      var hi := WindowIndex(Max(times));
      assert Min(times) <= Max(times);
      Windows(times, lo, hi - lo + 1)
  }

  /** The shape of the timeline: it is empty exactly when there are no
      times; otherwise it starts at the window of the earliest time and
      ends at the window of the latest, every start is a multiple of 10,
      consecutive starts are exactly 10 apart, and every row's count is
      the number of times in its window. */
  lemma BucketsShape(times: seq<int>)
    ensures |times| == 0 <==> Buckets(times) == []
    ensures |times| > 0 ==>
      && Buckets(times)[0].start == WindowStart(Min(times))
      && Buckets(times)[|Buckets(times)| - 1].start == WindowStart(Max(times))
    ensures forall k :: 0 <= k < |Buckets(times)| ==>
      && Buckets(times)[k].start % 10 == 0
      && Buckets(times)[k].count == CountIn(times, Buckets(times)[k].start)
    ensures forall k :: 0 < k < |Buckets(times)| ==> Buckets(times)[k].start == Buckets(times)[k - 1].start + 10
  {
    if |times| > 0 {
      var lo := WindowIndex(Min(times));
      var hi := WindowIndex(Max(times));
      var bs := Windows(times, lo, hi - lo + 1);
      assert Buckets(times) == bs;
      forall k | 0 <= k < |bs| ensures bs[k].start % 10 == 0 {
        assert bs[k].start == (lo + k) * 10;
      }
    }
  }

  /** Starts strictly ascend along the timeline. */
  lemma BucketsAscending(times: seq<int>, k: int, k': int)
    requires 0 <= k < k' < |Buckets(times)|
    ensures Buckets(times)[k].start < Buckets(times)[k'].start
  {
  }

  /** Every time falls in exactly one window of the timeline. */
  lemma EachTimeInExactlyOneBucket(times: seq<int>, i: int)
    requires 0 <= i < |times|
    ensures exists k ::
      0 <= k < |Buckets(times)| && Buckets(times)[k].start <= times[i] < Buckets(times)[k].start + 10
    ensures forall k, k' ::
      && 0 <= k < |Buckets(times)| && Buckets(times)[k].start <= times[i] < Buckets(times)[k].start + 10
      && 0 <= k' < |Buckets(times)| && Buckets(times)[k'].start <= times[i] < Buckets(times)[k'].start + 10
      ==> k == k'
  {
    var lo := WindowIndex(Min(times));
    var hi := WindowIndex(Max(times));
    var bs := Windows(times, lo, hi - lo + 1);
    assert Buckets(times) == bs;
    var k := WindowIndex(times[i]) - lo;
    assert Min(times) <= times[i] <= Max(times);
    assert 0 <= k < |bs|;
    assert bs[k].start <= times[i] < bs[k].start + 10;
  }

  /** No window between the first and the last is missing: each aligned
      start in that range has its row, and the row's count is zero exactly
      when no time falls in it. */
  lemma EveryWindowPresent(times: seq<int>, w: int)
    requires |times| > 0 && w % 10 == 0
    requires WindowStart(Min(times)) <= w <= WindowStart(Max(times))
    ensures exists k ::
      && 0 <= k < |Buckets(times)| && Buckets(times)[k].start == w
      && (Buckets(times)[k].count == 0 <==> forall i :: 0 <= i < |times| ==> !(w <= times[i] < w + 10))
  {
    var lo := WindowIndex(Min(times));
    var hi := WindowIndex(Max(times));
    var bs := Windows(times, lo, hi - lo + 1);
    assert Buckets(times) == bs;
    var k := w / 10 - lo;
    assert bs[k].start == w;
  }

  /** Sum of the counts of a run of rows. */
  function TotalCount(bs: seq<Bucket>): int
  {
    if bs == [] then 0 else TotalCount(bs[..|bs| - 1]) + bs[|bs| - 1].count
  }

  /** How many of the `n` windows numbered from `lo` hold second `t`. */
  function Hits(t: int, lo: int, n: nat): nat
  {
    if n == 0 then 0
    else Hits(t, lo, n - 1) + (if (lo + n - 1) * 10 <= t < (lo + n - 1) * 10 + 10 then 1 else 0)
  }

  lemma {:induction false} HitsOutside(t: int, lo: int, n: nat)
    requires t < lo * 10 || t >= (lo + n) * 10
    ensures Hits(t, lo, n) == 0
  {
    if n > 0 {
      HitsOutside(t, lo, n - 1);
    }
  }

  lemma {:induction false} HitsInside(t: int, lo: int, n: nat)
    requires lo * 10 <= t < (lo + n) * 10
    ensures Hits(t, lo, n) == 1
  {
    if (lo + n - 1) * 10 <= t {
      HitsOutside(t, lo, n - 1);
    } else {
      HitsInside(t, lo, n - 1);
    }
  }

  /** Adding one time to the data adds its hits to the windows' total. */
  lemma {:induction false} WindowsSnoc(times: seq<int>, t: int, lo: int, n: nat)
    ensures TotalCount(Windows(times + [t], lo, n)) == TotalCount(Windows(times, lo, n)) + Hits(t, lo, n)
  {
    if n > 0 {
      WindowsSnoc(times, t, lo, n - 1);
      var w := (lo + n - 1) * 10;
      CountInSnoc(times, t, w);
      TotalCountSnoc(Windows(times + [t], lo, n - 1), Bucket(w, CountIn(times + [t], w)));
      TotalCountSnoc(Windows(times, lo, n - 1), Bucket(w, CountIn(times, w)));
    }
  }

  /** One more time adds one to the size of the window holding it. */
  lemma CountInSnoc(times: seq<int>, t: int, w: int)
    ensures CountIn(times + [t], w) == CountIn(times, w) + (if w <= t < w + 10 then 1 else 0)
  {
    assert (times + [t])[..|times|] == times;
  }

  lemma TotalCountSnoc(bs: seq<Bucket>, b: Bucket)
    ensures TotalCount(bs + [b]) == TotalCount(bs) + b.count
  {
    assert (bs + [b])[..|bs|] == bs;
  }

  lemma {:induction false} NoTimesNoCount(lo: int, n: nat)
    ensures TotalCount(Windows([], lo, n)) == 0
  {
    if n > 0 {
      NoTimesNoCount(lo, n - 1);
      assert Windows([], lo, n)[..n - 1] == Windows([], lo, n - 1);
    }
  }

  /** Windows covering every time count each time once. */
  lemma {:induction false} WindowsCoverAll(times: seq<int>, lo: int, n: nat)
    requires forall i :: 0 <= i < |times| ==> lo * 10 <= times[i] < (lo + n) * 10
    ensures TotalCount(Windows(times, lo, n)) == |times|
  {
    if times == [] {
      NoTimesNoCount(lo, n);
    } else {
      var init := times[..|times| - 1];
      var t := times[|times| - 1];
      assert times == init + [t];
      WindowsCoverAll(init, lo, n);
      WindowsSnoc(init, t, lo, n);
      HitsInside(t, lo, n);
    }
  }

  /** Conservation: the window counts add up to the number of times. */
  lemma BucketTotal(times: seq<int>)
    ensures TotalCount(Buckets(times)) == |times|
  {
    if |times| > 0 {
      var lo := WindowIndex(Min(times));
      var hi := WindowIndex(Max(times));
      assert Buckets(times) == Windows(times, lo, hi - lo + 1);
      WindowsCoverAll(times, lo, hi - lo + 1);
    }
  }

  /** A single event gives a single window of size one. */
  lemma SingleEventOneBucket(t: int)
    ensures Buckets([t]) == [Bucket(WindowStart(t), 1)]
  {
  }

  /** The stored times, in store order. */
  function TimesOf(records: seq<Record>): (ts: seq<int>)
    requires forall r :: r in records ==> r.time.Some?
    ensures |ts| == |records|
    ensures forall i :: 0 <= i < |records| ==> ts[i] == records[i].time.value
  {
    seq(|records|, i requires 0 <= i < |records| => records[i].time.value)
  }

  /** The timeline built from the store counts every stored record once. */
  lemma TimelineCountsEveryRecord(files: seq<LogFile>)
    ensures forall r :: r in KeptFromFiles(files) ==> r.time.Some?
    ensures TotalCount(Buckets(TimesOf(KeptFromFiles(files)))) == |KeptFromFiles(files)|
  {
    StoredTimesPositive(files);
    BucketTotal(TimesOf(KeptFromFiles(files)));
  }
}
