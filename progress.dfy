/**
  The per-URL progress registry `DownloadProgress` (main.go:30-65): a map from URL to a
  `FileProgress` record, updated one chunk at a time. Every access in the source takes the
  same mutex, so the operations are modelled sequentially and the lock is not represented.
*/
module Progress {
  import opened Machine

  /** A point in time, as read from the clock (`time.Now()`). */
  type Instant = int

  /** FileProgress (main.go:30-34). The map holds it by value; see the README for what that drops. */
  datatype FileProgress = FileProgress(totalBytes: int64, downloadedBytes: int64, startTime: Instant)

  type Registry = map<string, FileProgress>

  /**
    The registry after `AddDownloadedBytes(url, n)` at clock reading `now`
    (main.go:44-51): an absent URL first gets a zeroed entry stamped `now`, and then n is
    added to its downloadedBytes with int64 wrap-around.
  */
  function Added(m: Registry, url: string, n: int64, now: Instant): (m': Registry)
    ensures m'.Keys == m.Keys + {url}
    ensures forall u :: u in m && u != url ==> u in m' && m'[u] == m[u]
    ensures url in m ==> (&& m'[url].totalBytes == m[url].totalBytes
                          && m'[url].startTime == m[url].startTime
                          && m'[url].downloadedBytes == AddWrap64(m[url].downloadedBytes, n))
    ensures url !in m ==> m'[url] == FileProgress(0, n, now)
  {
    var entry := if url in m then m[url] else FileProgress(0, 0, now);
    m[url := entry.(downloadedBytes := AddWrap64(entry.downloadedBytes, n))]
  }

  /** Without overflow the first chunk is counted in full and later chunks accumulate. */
  lemma AddedCounts(m: Registry, url: string, n: int64, now: Instant)
    requires url in m ==> -TWO_63 <= m[url].downloadedBytes as int + n as int < TWO_63
    ensures Added(m, url, n, now)[url].downloadedBytes as int
         == (if url in m then m[url].downloadedBytes as int else 0) + n as int
  {
  }

  /** The registry after recording each of `counts` in order, all at clock reading `now`. */
  function RecordAll(m: Registry, url: string, counts: seq<int64>, now: Instant): (m': Registry)
    ensures m'.Keys == m.Keys + (if counts == [] then {} else {url})
  {
    if counts == [] then m
    else Added(RecordAll(m, url, counts[..|counts| - 1], now), url, counts[|counts| - 1], now)
  }

  /** Recording one more chunk is one more AddDownloadedBytes. */
  lemma RecordAllSnoc(m: Registry, url: string, counts: seq<int64>, n: int64, now: Instant)
    ensures RecordAll(m, url, counts + [n], now) == Added(RecordAll(m, url, counts, now), url, n, now)
  {
    assert (counts + [n])[..|counts|] == counts;
  }

  function Sum(counts: seq<int64>): int {
    if counts == [] then 0 else Sum(counts[..|counts| - 1]) + counts[|counts| - 1] as int
  }

  /** Every entry of the registry has totalBytes 0: nothing in the source ever sets it. */
  ghost predicate TotalsZero(m: Registry) {
    forall u :: u in m ==> m[u].totalBytes == 0
  }

  /**
    Recording a sequence of chunks: the URL has an entry afterwards exactly when it had one
    before or some chunk was recorded; that entry keeps its startTime and totalBytes (or gets
    `now` and 0 if it is new); no other URL's entry changes; and all-zero totals stay zero.
  */
  lemma {:induction false} RecordAllShape(m: Registry, url: string, counts: seq<int64>, now: Instant)
    ensures var m' := RecordAll(m, url, counts, now);
      && m'.Keys == m.Keys + (if counts == [] then {} else {url})
      && (forall u :: u in m && u != url ==> m'[u] == m[u])
      && (url in m' ==> m'[url].startTime == (if url in m then m[url].startTime else now))
      && (url in m' ==> m'[url].totalBytes == (if url in m then m[url].totalBytes else 0))
      && (TotalsZero(m) ==> TotalsZero(m'))
  {
    if counts != [] {
      RecordAllShape(m, url, counts[..|counts| - 1], now);
    }
  }

  /**
    Recording non-negative chunks whose sum keeps the count inside int64: the URL's
    downloadedBytes grows by exactly the sum of the chunks (from 0 for a new entry), so it
    never decreases.
  */
  lemma {:induction false} RecordAllTotal(m: Registry, url: string, counts: seq<int64>, now: Instant)
    requires forall k :: 0 <= k < |counts| ==> counts[k] >= 0
    requires url in m ==> m[url].downloadedBytes >= 0
    requires (if url in m then m[url].downloadedBytes as int else 0) + Sum(counts) < TWO_63
    ensures var m' := RecordAll(m, url, counts, now);
      url in m' ==> m'[url].downloadedBytes as int
                    == (if url in m then m[url].downloadedBytes as int else 0) + Sum(counts)
  {
    if counts != [] {
      var init := counts[..|counts| - 1];
      assert forall k :: 0 <= k < |init| ==> init[k] == counts[k];
      SumNonNegative(init);
      RecordAllTotal(m, url, init, now);
      RecordAllShape(m, url, init, now);
    }
  }

  lemma {:induction false} SumNonNegative(counts: seq<int64>)
    requires forall k :: 0 <= k < |counts| ==> counts[k] >= 0
    ensures Sum(counts) >= 0
  {
    if counts != [] {
      var init := counts[..|counts| - 1];
      assert forall k :: 0 <= k < |init| ==> init[k] == counts[k];
      SumNonNegative(init);
    }
  }

  /**
    The result of `DownloadRate` (main.go:55-65). `Zero` is the literal 0 returned for a URL
    with no entry; `Ratio(bytes, elapsed)` is the float division bytes / elapsed seconds,
    left unevaluated.
  */
  datatype Rate = Zero | Ratio(bytes: int64, elapsed: int)

  /** DownloadProgress (main.go:36-39) without its mutex. */
  class DownloadProgress {
    var progress: Registry

    /** `&DownloadProgress{progress: make(map[string]*FileProgress)}` (main.go:70-72). */
    constructor ()
      ensures progress == map[]
    {
      progress := map[];
    }

    /** AddDownloadedBytes (main.go:41-53), with `time.Now()` supplied as `now`. */
    method AddDownloadedBytes(url: string, n: int64, now: Instant)
      modifies this
      ensures progress == Added(old(progress), url, n, now)
      ensures progress.Keys == old(progress).Keys + {url}
      ensures forall u :: u in old(progress) && u != url ==> progress[u] == old(progress)[u]
      ensures url in old(progress) ==> progress[url] == old(progress)[url].(downloadedBytes :=
                AddWrap64(old(progress)[url].downloadedBytes, n))
      ensures url !in old(progress) ==> progress[url] == FileProgress(0, n, now)
    {
      if url !in progress {
        progress := progress[url := FileProgress(0, 0, now)];
      }
      progress := progress[url := progress[url].(downloadedBytes := AddWrap64(progress[url].downloadedBytes, n))];
    }

    /** DownloadRate (main.go:55-65) at clock reading `now`: 0 for an unknown URL, otherwise
        the bytes counted so far over the time since the entry was created. */
    function DownloadRate(url: string, now: Instant): (r: Rate)
      reads this
      ensures r == Zero <==> url !in progress
      ensures r.Ratio? ==> (&& r.bytes == progress[url].downloadedBytes
                            && r.elapsed == now - progress[url].startTime)
    {
      if url !in progress then Zero
      else Ratio(progress[url].downloadedBytes, now - progress[url].startTime)
    }
  }
}
