/**
  The transfer part of `getURL` (main.go:69-128): the response body is read into a
  1024-byte buffer, each chunk is appended to the output file and then counted in the
  registry (main.go:105-121), and the final size line reads the URL's totalBytes
  (main.go:127). The HTTP response and the output file are supplied by the caller as
  scripts of what each read and each write returns.
*/
module Transfer {
  import opened Machine
  import opened Progress
  import opened ByteFormat

  /** `make([]byte, 1024)` (main.go:105). */
  const CHUNK_SIZE: int := 1024

  /** The error beside a read: nil, io.EOF, or any other error. */
  datatype ReadError = NoError | EOF | OtherError

  /** What one call of `resp.Body.Read(buf)` delivers: the bytes placed in buf[:n] and the error. */
  datatype ReadResult = ReadResult(data: seq<byte>, err: ReadError)

  /** What one call of `out.Write` does: write everything, or fail after writing `written` bytes. */
  datatype WriteOutcome = Complete | Fails(written: nat)

  /** Which `break` ended the copy loop. */
  datatype Stop = EndOfBody | ReadFailed | WriteFailed

  /** What the copy loop did: bytes appended to the file, increments recorded, why it stopped. */
  datatype CopyRun = CopyRun(written: seq<byte>, counts: seq<int64>, stop: Stop)

  /** The io.Reader contract for a 1024-byte buffer: no read delivers more than 1024 bytes. */
  predicate Chunked(body: seq<ReadResult>) {
    forall k :: 0 <= k < |body| ==> |body[k].data| <= CHUNK_SIZE
  }

  /** The i-th read; once the script is exhausted the body keeps returning (0, io.EOF). */
  function NextRead(body: seq<ReadResult>, i: nat): ReadResult {
    if i < |body| then body[i] else ReadResult([], EOF)
  }

  /** The i-th write; once the script is exhausted every write succeeds. */
  function NextWrite(writes: seq<WriteOutcome>, i: nat): WriteOutcome {
    if i < |writes| then writes[i] else Complete
  }

  /** The bytes of `data` that reach the file when it is written with outcome w. */
  function Landed(data: seq<byte>, w: WriteOutcome): (s: seq<byte>)
    ensures s <= data
    ensures w.Complete? ==> s == data
  {
    match w
    case Complete => data
    case Fails(k) => if k < |data| then data[..k] else data
  }

  /** The specification of the copy loop (main.go:105-121), from the i-th read on. */
  function Copy(body: seq<ReadResult>, writes: seq<WriteOutcome>, i: nat): (c: CopyRun)
    requires Chunked(body)
    ensures c.counts != [] ==> i < |body|
    ensures |c.counts| <= |c.written|
    decreases |body| - i
  {
    var r := NextRead(body, i);
    if r.err == OtherError then CopyRun([], [], ReadFailed)
    else if |r.data| == 0 then CopyRun([], [], EndOfBody)
    else if NextWrite(writes, i).Fails? then CopyRun(Landed(r.data, NextWrite(writes, i)), [], WriteFailed)
    else
      var rest := Copy(body, writes, i + 1);
      CopyRun(r.data + rest.written, [|r.data| as int64] + rest.counts, rest.stop)
  }

  /** The chunks of reads i up to j, concatenated in order. */
  function Chunks(body: seq<ReadResult>, i: nat, j: nat): seq<byte>
    requires i <= j <= |body|
    decreases j - i
  {
    if i == j then [] else body[i].data + Chunks(body, i + 1, j)
  }

  /** The bytes a failed write left in the file (none when the loop stopped otherwise). */
  function Partial(body: seq<ReadResult>, writes: seq<WriteOutcome>, c: CopyRun, at: nat): seq<byte> {
    if c.stop == WriteFailed then Landed(NextRead(body, at).data, NextWrite(writes, at)) else []
  }

  /**
    Where the loop stops: every read before the halting one delivered bytes without a
    non-EOF error (a chunk that comes with io.EOF is still written and counted) and its write
    succeeded; the halting read is the first one that fails with a non-EOF error, delivers
    nothing, or whose write fails, and the stop reason says which. Each chunk counted is the
    full chunk read, between 1 and 1024 bytes.
  */
  lemma {:induction false} CopyStopsAtFirstHalt(body: seq<ReadResult>, writes: seq<WriteOutcome>, i: nat)
    requires Chunked(body) && i <= |body|
    ensures var c := Copy(body, writes, i);
      && i + |c.counts| <= |body|
      && (forall k :: i <= k < i + |c.counts| ==>
            && body[k].err != OtherError
            && 0 < |body[k].data| <= CHUNK_SIZE
            && NextWrite(writes, k) == Complete)
      && (forall j :: 0 <= j < |c.counts| ==> c.counts[j] as int == |body[i + j].data|)
      && var r := NextRead(body, i + |c.counts|);
      && (c.stop == ReadFailed <==> r.err == OtherError)
      && (c.stop == EndOfBody <==> r.err != OtherError && |r.data| == 0)
      && (c.stop == WriteFailed <==> r.err != OtherError && |r.data| > 0 && NextWrite(writes, i + |c.counts|).Fails?)
    decreases |body| - i
  {
    var r := NextRead(body, i);
    if r.err != OtherError && |r.data| > 0 && NextWrite(writes, i).Complete? {
      CopyStopsAtFirstHalt(body, writes, i + 1);
      var rest := Copy(body, writes, i + 1);
      var c := Copy(body, writes, i);
      assert c.counts == [|r.data| as int64] + rest.counts;
      assert i < |body| && r == body[i];
      forall j | 0 <= j < |c.counts|
        ensures c.counts[j] as int == |body[i + j].data|
      {
        if j > 0 {
          assert c.counts[j] == rest.counts[j - 1];
          assert (i + 1) + (j - 1) == i + j;
        }
      }
    }
  }

  /**
    What reaches the file: the chunks of the counted reads, in order, followed by whatever
    part of the halting chunk a failed write managed to write.
  */
  lemma {:induction false} CopyWritten(body: seq<ReadResult>, writes: seq<WriteOutcome>, i: nat)
    requires Chunked(body) && i <= |body|
    ensures var c := Copy(body, writes, i);
      && i + |c.counts| <= |body|
      && c.written == Chunks(body, i, i + |c.counts|) + Partial(body, writes, c, i + |c.counts|)
    decreases |body| - i
  {
    var r := NextRead(body, i);
    if r.err != OtherError && |r.data| > 0 && NextWrite(writes, i).Complete? {
      CopyWritten(body, writes, i + 1);
      var rest := Copy(body, writes, i + 1);
      var k := |rest.counts|;
      assert Copy(body, writes, i).stop == rest.stop;
      assert Chunks(body, i, i + 1 + k) == r.data + Chunks(body, i + 1, i + 1 + k);
    }
  }

  /** The counts recorded add up to the bytes of the counted chunks. */
  lemma {:induction false} CopyCountsSum(body: seq<ReadResult>, writes: seq<WriteOutcome>, i: nat)
    requires Chunked(body) && i <= |body|
    ensures var c := Copy(body, writes, i);
      && i + |c.counts| <= |body|
      && Sum(c.counts) == |Chunks(body, i, i + |c.counts|)|
    decreases |body| - i
  {
    var r := NextRead(body, i);
    if r.err != OtherError && |r.data| > 0 && NextWrite(writes, i).Complete? {
      CopyCountsSum(body, writes, i + 1);
      var rest := Copy(body, writes, i + 1);
      var k := |rest.counts|;
      assert Chunks(body, i, i + 1 + k) == r.data + Chunks(body, i + 1, i + 1 + k);
      SumPrepend(|r.data| as int64, rest.counts);
    }
  }

  lemma {:induction false} SumPrepend(x: int64, s: seq<int64>)
    ensures Sum([x] + s) == x as int + Sum(s)
    decreases |s|
  {
    if s != [] {
      var init := s[..|s| - 1];
      assert ([x] + s)[..|s|] == [x] + init;
      SumPrepend(x, init);
    }
  }

  lemma {:induction false} SumBound(s: seq<int64>, bound: int)
    requires forall k :: 0 <= k < |s| ==> 0 <= s[k] as int <= bound
    ensures 0 <= Sum(s) <= bound * |s|
  {
    if s != [] {
      var init := s[..|s| - 1];
      assert forall k :: 0 <= k < |init| ==> init[k] == s[k];
      SumBound(init, bound);
    }
  }

  /**
    On the fresh registry of one getURL call, the URL has an entry exactly when some chunk
    was counted; that entry's downloadedBytes is the total counted, which is the number of
    bytes in the file minus the part of a failed final write (so equal to the file's length
    whenever no write failed after writing some bytes); its totalBytes is 0 and its
    startTime is the clock reading of the first chunk. The bound on the number of reads
    (2^53) keeps the total inside int64.
  */
  lemma CountedMatchesWritten(url: string, body: seq<ReadResult>, writes: seq<WriteOutcome>, now: Instant)
    requires Chunked(body) && |body| < 0x20_0000_0000_0000
    ensures var c := Copy(body, writes, 0);
      var m := RecordAll(map[], url, c.counts, now);
      && |c.counts| <= |body|
      && (url in m <==> c.counts != [])
      && m.Keys <= {url}
      && (url in m ==> && m[url].downloadedBytes as int + |Partial(body, writes, c, |c.counts|)| == |c.written|
                       && m[url].downloadedBytes as int == |Chunks(body, 0, |c.counts|)|
                       && m[url].totalBytes == 0
                       && m[url].startTime == now)
      && (c.stop != WriteFailed ==> (url in m ==> m[url].downloadedBytes as int == |c.written|))
  {
    var c := Copy(body, writes, 0);
    CopyStopsAtFirstHalt(body, writes, 0);
    CopyWritten(body, writes, 0);
    CopyCountsSum(body, writes, 0);
    SumBound(c.counts, CHUNK_SIZE);
    RecordAllShape(map[], url, c.counts, now);
    RecordAllTotal(map[], url, c.counts, now);
  }

  // ---------------------------------------------------------------------------
  // The imperative side: buffer, file, loop

  /** `resp.Body.Read(buf)` as the i-th read: the delivered bytes are copied into buf[:n]. */
  method ReadChunk(body: seq<ReadResult>, i: nat, buf: array<byte>) returns (n: int64, err: ReadError)
    requires Chunked(body) && buf.Length == CHUNK_SIZE
    modifies buf
    ensures n as int == |NextRead(body, i).data| && err == NextRead(body, i).err
    ensures buf[..n as int] == NextRead(body, i).data
  {
    var r := NextRead(body, i);
    n := |r.data| as int64;
    forall k | 0 <= k < |r.data| {
      buf[k] := r.data[k];
    }
    err := r.err;
  }

  /** The output file of `os.Create` (main.go:94), as the bytes written to it so far. */
  class OutputFile {
    var contents: seq<byte>

    constructor ()
      ensures contents == []
    {
      contents := [];
    }

    /** `out.Write(data)`: the outcome is decided by the environment (disk full, closed file);
        it returns whether Write reported an error. */
    method Write(data: seq<byte>, outcome: WriteOutcome) returns (failed: bool)
      modifies this
      ensures failed == outcome.Fails?
      ensures contents == old(contents) + Landed(data, outcome)
    {
      contents := contents + Landed(data, outcome);
      failed := outcome.Fails?;
    }
  }

  /** Records that a prefix of the run has been done by the loop. */
  function Prepend(written: seq<byte>, counts: seq<int64>, c: CopyRun): CopyRun {
    CopyRun(written + c.written, counts + c.counts, c.stop)
  }

  /** How one pass of the loop body ends: go on to the next read, or `break` for a reason. */
  datatype Step = Continue | Halt(reason: Stop)

  /**
    One pass of the loop body (main.go:107-120) on the i-th read: on `Halt` the loop
    breaks there, with nothing counted; otherwise the chunk was written in full and counted.
  */
  method CopyChunk(url: string, body: seq<ReadResult>, writes: seq<WriteOutcome>, i: nat,
                   buf: array<byte>, out: OutputFile, dp: DownloadProgress, now: Instant)
    returns (step: Step)
    requires Chunked(body) && buf.Length == CHUNK_SIZE
    modifies buf, out, dp
    ensures step.Halt? ==> && Copy(body, writes, i).counts == []
                           && Copy(body, writes, i).stop == step.reason
                           && out.contents == old(out.contents) + Copy(body, writes, i).written
                           && dp.progress == old(dp.progress)
    ensures step.Continue? ==> (&& i < |body|
                                && var data := body[i].data;
                                && Copy(body, writes, i) == Prepend(data, [|data| as int64], Copy(body, writes, i + 1))
                                && out.contents == old(out.contents) + data
                                && dp.progress == Added(old(dp.progress), url, |data| as int64, now))
  {
    var n, err := ReadChunk(body, i, buf);
    if err != NoError && err != EOF {
      assert out.contents == old(out.contents) + [];
      return Halt(ReadFailed);
    }
    if n == 0 {
      assert out.contents == old(out.contents) + [];
      return Halt(EndOfBody);
    }
    var failed := out.Write(buf[..n as int], NextWrite(writes, i));
    if failed {
      return Halt(WriteFailed);
    }
    dp.AddDownloadedBytes(url, n, now);
    step := Continue;
  }

  lemma PrependStep(total: CopyRun, written: seq<byte>, counts: seq<int64>, c: CopyRun,
                    data: seq<byte>, n: int64, c': CopyRun)
    requires total == Prepend(written, counts, c) && c == Prepend(data, [n], c')
    ensures total == Prepend(written + data, counts + [n], c')
  {
    assert written + (data + c'.written) == (written + data) + c'.written;
    assert counts + ([n] + c'.counts) == (counts + [n]) + c'.counts;
  }

  /** Sequence concatenation is associative; stated apart so that the loop's proof uses it as a
      single fact instead of rederiving it elementwise. */
  lemma AppendAssoc<T>(a: seq<T>, b: seq<T>, c: seq<T>)
    ensures (a + b) + c == a + (b + c)
  {
  }

  lemma PrependHalt(total: CopyRun, written: seq<byte>, counts: seq<int64>, c: CopyRun)
    requires total == Prepend(written, counts, c) && c.counts == []
    ensures total.written == written + c.written && total.counts == counts && total.stop == c.stop
  {
    assert counts + [] == counts;
  }

  /**
    The copy loop of getURL (main.go:105-121): read into the buffer, stop on a non-EOF
    error or an empty read, write buf[:n], stop if the write fails, otherwise count n for
    the URL. The i-th write gets outcome NextWrite(writes, i).
  */
  method CopyBody(url: string, body: seq<ReadResult>, writes: seq<WriteOutcome>,
                  out: OutputFile, dp: DownloadProgress, now: Instant) returns (stop: Stop)
    requires Chunked(body)
    modifies out, dp
    ensures out.contents == old(out.contents) + Copy(body, writes, 0).written
    ensures dp.progress == RecordAll(old(dp.progress), url, Copy(body, writes, 0).counts, now)
    ensures stop == Copy(body, writes, 0).stop
  {
    var buf := new byte[CHUNK_SIZE];
    var i: nat := 0;
    ghost var total := Copy(body, writes, 0);
    ghost var written: seq<byte> := [];
    ghost var counts: seq<int64> := [];
    while true
      invariant i <= |body|
      invariant out.contents == old(out.contents) + written
      invariant dp.progress == RecordAll(old(dp.progress), url, counts, now)
      invariant total == Prepend(written, counts, Copy(body, writes, i))
      decreases |body| - i
    {
      ghost var rest := Copy(body, writes, i);
      var step := CopyChunk(url, body, writes, i, buf, out, dp, now);
      if step.Halt? {
        PrependHalt(total, written, counts, rest);
        AppendAssoc(old(out.contents), written, rest.written);
        stop := step.reason;
        break;
      }
      ghost var data := body[i].data;
      ghost var n := |data| as int64;
      PrependStep(total, written, counts, rest, data, n, Copy(body, writes, i + 1));
      RecordAllSnoc(old(dp.progress), url, counts, n, now);
      AppendAssoc(old(out.contents), written, data);
      written, counts := written + data, counts + [n];
      i := i + 1;
    }
  }

  /**
    The size line of main.go:127. `NilEntry` is the nil FileProgress dereference that happens
    when no chunk was ever counted (an empty body, a failing first read or a failing first
    write): an unrecovered panic in Go, which ends the whole process. Otherwise the formatted
    totalBytes.
  */
  datatype SizeReport = NilEntry | Report(size: Readable)

  /**
    getURL (main.go:69-128) once the request has been made: a fresh registry, the output
    file created empty (os.Create truncates), the copy loop, and the size report. The status
    code is not consulted, so the body is copied whatever it is. Since totalBytes is never
    set, the report is "0 B" whenever it does not dereference a missing entry.
  */
  method GetURL(url: string, body: seq<ReadResult>, writes: seq<WriteOutcome>, now: Instant)
    returns (dp: DownloadProgress, out: OutputFile, stop: Stop, size: SizeReport)
    requires Chunked(body)
    ensures fresh(dp) && fresh(out)
    ensures out.contents == Copy(body, writes, 0).written
    ensures dp.progress == RecordAll(map[], url, Copy(body, writes, 0).counts, now)
    ensures stop == Copy(body, writes, 0).stop
    ensures size == if Copy(body, writes, 0).counts == [] then NilEntry else Report(Plain("0 B"))
  {
    dp := new DownloadProgress();
    out := new OutputFile();
    stop := CopyBody(url, body, writes, out, dp, now);
    RecordAllShape(map[], url, Copy(body, writes, 0).counts, now);
    if url in dp.progress {
      var s := BytesToReadable(dp.progress[url].totalBytes);
      PlainExamples();
      size := Report(s);
    } else {
      size := NilEntry;
    }
  }
}
