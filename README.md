# synctool download core, modelled in Dafny

synctool reads a list of URLs and downloads each one into an output directory, using a
pool of workers. This project models the sequential core of one download (`main.go`):

- **`bytesToReadable`** (`byte_format.dfy`). The signed 64-bit byte count is turned into
  either `"<b> B"` or a binary-unit rendering (KiB … EiB). The loop that picks the divisor
  and the exponent is the method `BytesToReadable`. It is proved equal to the function
  `ReadableOf`, and the lemmas about `ReadableOf` give the bounds: `div = 1024^(exp+1)`,
  `1 <= b / div < 1024`, `exp <= 5`, and `div <= 2^60`.
- **The progress registry `DownloadProgress`** (`progress.dfy`). This is a class holding a
  map from URL to `FileProgress`. `AddDownloadedBytes` changes the map in place. It is
  specified by the pure function `Added`, and repeated calls by `RecordAll`.
  `DownloadRate` is a reading function.
- **The copy loop of `getURL`** (`transfer.dfy`). A 1024-byte buffer is filled from the
  response body, each chunk goes to the output file, and then the chunk is counted. The
  loop is the method `CopyBody`, with one pass of its body in `CopyChunk`. It is proved
  against the recursive function `Copy`. The response body and the file's write outcomes
  are scripts, given as parameters. The lemmas about `Copy` state:
  - the loop stops at the first halting read or write;
  - the file holds the counted chunks in order, plus the part a failed write managed to write;
  - on the fresh registry of one call, the count recorded for the URL equals the bytes of
    those chunks.
- **`getURL`**, minus the request (`GetURL`). It creates a fresh registry and an empty
  output file, runs the copy loop, and produces the final size line.
- Go's `int64` and `byte` are newtypes (`machine.dfy`). Every arithmetic step is therefore
  checked against overflow. The `+=` on `downloadedBytes` is Go's wrapping addition,
  `AddWrap64`.

Where the code behaves differently from what a downloader would be expected to do, the model
follows the code:

- `getURL` does not stop after a failed `http.Get` or a non-200 status. The body is copied
  whatever the status.
- `totalBytes` is always 0, never -1 for "unknown". So the size line at main.go:127 is
  `"0 B"` whenever at least one chunk was counted.
- When no chunk was counted, line 127 dereferences a missing map entry (`NilEntry`). This
  happens when the body is empty, or the first read fails with a non-EOF error, or the first
  write fails. In Go this is a nil-pointer panic in a worker goroutine. Nothing recovers it,
  so it ends the whole process, and every other download in flight with it.
- `DownloadRate` does not guard against a zero elapsed time.
- `downloadedBytes` is non-negative and non-decreasing only while the int64 sum does not
  overflow (`RecordAllTotal`).
- Clock readings (`time.Now()`) are the parameter `now`. The response body is a sequence of
  `ReadResult`s. The output file's behaviour is a sequence of `WriteOutcome`s.

## Model

| member | source | states |
|---|---|---|
| ByteFormat.ReadableOf | main.go:151-162 | The specification of bytesToReadable's result. It is plain text exactly below 1024; otherwise it carries b, an exponent of at most 5 and the unit suffix for that exponent. Its lemmas below give the divisor, the bracket and the quotient. |
| ByteFormat.ScaleExp | main.go:157-160 | How many times the loop divides by 1024: 0 exactly when the value is already below 1024. `ScaleExpBrackets` shows it brackets the value between consecutive powers of 1024. |
| ByteFormat.FormatInt | main.go:154 | Go's `%d`: nonempty, starts with `-` exactly for negative values, and digits elsewhere. `ParseFormatInt` shows it reads back to the value. |
| ByteFormat.BytesToReadable | main.go:151-162 | The loop's result is `ReadableOf(b)`.<br>It is plain text `"<b> B"` exactly when b < 1024.<br>Otherwise exp <= 5, the unit letter is `"KMGTPE"[exp]`, div = 1024^(exp+1), and 1 <= b / div < 1024. |
| ByteFormat.ReadableOfPlain | main.go:153-155 | For every b below 1024, negatives included, the text is the decimal `%d` of b followed by `" B"`. The digits read back to b. |
| ByteFormat.ReadableOfScaled | main.go:156-161 | For b >= 1024:<br>exp <= 5, so the index into `"KMGTPE"` is in range;<br>div = 1024^(exp+1) <= 2^60, so div fits in int64;<br>1024^(exp+1) <= b < 1024^(exp+2) and 1 <= b / div < 1024;<br>the suffix is `" "`, the unit letter, then `"iB"`. |
| ByteFormat.ExponentBound | main.go:157-160 | For every int64 b >= 1024 the loop runs at most 5 times. The divisor never exceeds 1024^6 = 2^60. |
| ByteFormat.ScaledExponentUnique | main.go:157-160 | The exponent chosen is the only e with 1024^(e+1) <= b < 1024^(e+2). |
| ByteFormat.ScaleExpBrackets | main.go:157 | Counting divisions by 1024 until the value drops below 1024 gives the e with 1024^e <= n < 1024^(e+1). |
| ByteFormat.ParseFormatInt | main.go:154 | The `%d` text of any integer reads back to that integer. |
| ByteFormat.FormatNat | main.go:154 | The decimal text is nonempty and all digits. It has a leading zero only for 0. |
| ByteFormat.PlainExamples | main.go:153-155 | 0, -1 and 1023 print as `"0 B"`, `"-1 B"` and `"1023 B"`. |
| ByteFormat.ScaledExamples | main.go:156-161 | 1536 is scaled by 1024 with unit KiB (1.5 KiB). 1048576 is scaled by 1048576 with unit MiB (1.0 MiB). |
| ByteFormat.LargestExample | main.go:156-161 | The largest int64 gets exponent 5 and unit EiB. |
| Machine.AddWrap64 | main.go:51 | The result is congruent to a + b modulo 2^64. It equals a + b when the sum fits in int64. |
| Progress.Added | main.go:44-51 | The key set gains exactly the URL. Every other entry is unchanged. An existing entry keeps totalBytes and startTime and adds n (wrapping). An absent URL gets `FileProgress(0, n, now)`, so its first chunk is counted. |
| Progress.AddedCounts | main.go:44-51 | Without overflow, downloadedBytes afterwards is the old value plus n, or exactly n for a new URL. |
| Progress.RecordAll | main.go:106-121 | The registry after the loop's run of `AddDownloadedBytes` calls: the URL gains an entry exactly when some count was recorded. `RecordAllShape` and `RecordAllTotal` state the entry itself. |
| Progress.RecordAllSnoc | main.go:120 | Recording one more chunk is one more `AddDownloadedBytes`. |
| Progress.RecordAllShape | main.go:44-51 | After a run of increments the URL has an entry iff it had one or some increment was made. Its startTime and totalBytes are kept, or set to `now` and 0 for a new entry. No other entry changes. All-zero totals stay zero. |
| Progress.RecordAllTotal | main.go:51 | With non-negative increments below overflow, downloadedBytes grows by exactly their sum, so it never decreases. |
| Progress.DownloadProgress.constructor | main.go:70-72 | A new registry is empty. |
| Progress.DownloadProgress.AddDownloadedBytes | main.go:41-53 | The new map is `Added(old map, url, n, now)`. That is: keys gain the URL, other entries are unchanged, an existing entry adds n, and a new entry is `(0, n, now)`. |
| Progress.DownloadProgress.DownloadRate | main.go:55-65 | It returns `Zero`, the literal 0 of line 59, exactly when the URL has no entry. Otherwise it returns `Ratio(downloadedBytes, now - startTime)`, the division of line 64, which can also be 0. The function only reads the registry. |
| Transfer.Copy | main.go:105-121 | What the copy loop does from a given read on: something is counted only if there is a read left, and every counted chunk puts at least one byte in the file. The lemmas below characterise where it stops, what it writes and what it counts. |
| Transfer.Landed | main.go:116 | What a write leaves in the file is a prefix of the data. It is all of the data when the write succeeds. |
| Transfer.CopyStopsAtFirstHalt | main.go:106-121 | Every read before the halting one delivered 1 to 1024 bytes without a non-EOF error, and its write succeeded. So a chunk that arrives with io.EOF is still written and counted. Each count is that read's length. The loop stops with ReadFailed, EndOfBody or WriteFailed exactly when the next read has a non-EOF error, delivers nothing, or its write fails. |
| Transfer.CopyWritten | main.go:105-121 | The file receives the counted chunks concatenated in order, then the part of the halting chunk a failed write wrote. |
| Transfer.CopyCountsSum | main.go:116-120 | The counts recorded add up to the length of the chunks written in full. |
| Transfer.CountedMatchesWritten | main.go:105-121 | On the fresh registry, the URL has an entry iff some chunk was counted, and no other URL has one. Its downloadedBytes is the bytes of the counted chunks. That equals the file's length, less the partial final write, so it is exactly the file's length unless a write failed. Its totalBytes is 0 and its startTime is `now`. |
| Transfer.ReadChunk | main.go:107 | The read's bytes are copied into `buf[:n]`, with n their number. |
| Transfer.OutputFile.constructor | main.go:94 | A created file is empty. |
| Transfer.OutputFile.Write | main.go:116 | The file grows by the bytes the write lands. Failure is reported exactly when the outcome is a failure. |
| Transfer.CopyChunk | main.go:107-120 | On a halt nothing is counted, the stop reason is `Copy`'s, and the registry is unchanged. Otherwise the whole chunk was written and counted, and `Copy` continues from the next read. |
| Transfer.CopyBody | main.go:105-121 | The file grows by exactly `Copy(...).written`. The registry becomes `RecordAll` of `Copy(...).counts`. The stop reason is `Copy`'s. |
| Transfer.GetURL | main.go:69-128 | There are a fresh registry and a fresh empty file. The file and registry are what the copy loop produces. The size line is `"0 B"` if some chunk was counted, and otherwise the missing-entry dereference `NilEntry`. |

## Left out

- Goroutines, `sync.Mutex`, `sync.WaitGroup`, the URL channel and the worker pool
  (main.go:131-147, 217-255). They exist for concurrency. Every registry access takes the
  one lock, so the registry is modelled sequentially.
- `monitorDownload` (main.go:130-148). It is ticker and context driven, reads the map
  without the lock, and works in floating point.
- DownloadProgress.DownloadRate: the float64 division and `time.Since` (main.go:61-64) are
  left as the unevaluated `Ratio(bytes, elapsed)`. A zero elapsed time is not excluded,
  exactly as in the code.
- The `%.1f` rendering of the scaled value (main.go:161) is float formatting. `Scaled`
  carries b, div and the suffix instead of the text.
- `http.Get`, the status check, `os.Create`, `path.Base` and `filepath.Join`
  (main.go:81-98), as stdlib and network calls.
  - A failed `http.Get` leaves a nil response, and the code panics at main.go:85. That
    path is not modelled.
  - A failed `os.Create` leaves a nil file, whose every write fails. A caller models it
    with an all-`Fails(0)` write script.
- The timing log lines of `getURL` (main.go:73-74, 122-126). They are clock and log output.
- `readFile`, `init` and the command-line handling of `main` (main.go:21-27, 164-266).
  These are I/O and library glue.
- `main_test.go` is a subprocess and network test with no logic to model.
- The map holds `*FileProgress`; the model holds `FileProgress` by value. Aliasing
  through the pointer is not modelled. Only the left-out monitor shares it.
- Go's `int` is taken as 64 bits wide, so `n` in `AddDownloadedBytes` is an int64.
- One clock reading `now` serves a whole call of `GetURL`. Only the first chunk's reading
  is stored (as startTime), so the other readings do not affect the model.
- Transfer.CountedMatchesWritten: states the total only for bodies of fewer than 2^53
  reads, which keeps the sum inside int64. Beyond that the code's counter would wrap.
- Progress.RecordAllTotal: states the exact total only when the sum stays below 2^63.
  Above that, `AddWrap64` gives the wrapped value.
- Only finite response bodies are modelled: once its script is exhausted a body returns
  (0, io.EOF), so `CopyBody` always terminates. The Go loop never ends on a body that
  keeps delivering data, such as a streaming endpoint.
- Transfer.Chunked: every read delivers at most 1024 bytes. This is the io.Reader
  contract for a 1024-byte buffer, taken as a precondition.
