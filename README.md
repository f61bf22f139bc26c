# 1brc aggregation pipeline (akiokio/1brc, Go) in Dafny

This project models the core of a "one billion row challenge" solver. The
solver reads a file of `station;temperature\n` lines and reports the minimum,
mean and maximum temperature of every station. The core is a pipeline:

- a **reader** that cuts the file into blocks split after their last `'\n'`;
- **workers** that scan one block each into a local table of `City`
  aggregates, parsing each temperature as an integer number of tenths;
- a **reducer** (`processMeasurement`) that merges every local table into
  the global one.

The modules follow that structure:

- `bytes.dfy` (module `Bytes`): the byte type and the byte constants the scanner compares against.
- `fixed_point.dfy` (module `FixedPoint`): `customStringToIntParser` as `ParseTemp`, with a decimal reference value and a formatter it inverts.
- `aggregate.dfy` (module `Aggregate`): the `City` record and the tables.
  - `Observe` is the per-reading update.
  - `Summarize` folds a sequence of records with it.
  - `Readings`, `Least`, `Greatest` and `Total` are an independent reference that the aggregates are proved against.
  - `ValidEntry` is the `City` invariant.
- `worker.dfy` (module `Worker`): `processChunk` without its final channel send, as the imperative method `ScanChunk`.
  - It runs over a chunk `Layout` describes as a sequence of well-formed records.
  - `Layout(chunk, recs)` is proved equivalent to `chunk == Serialize(recs)`.
- `reducer.dfy` (module `Reducer`): `processMeasurement` as written (`MergeEntry`, `MergeLocal`, `ProcessMeasurement`), and the corrected merge (`MergeEntryFixed`, `MergeLocalFixed`, `ProcessMeasurementFixed`).
  - Both merges are instances of one key-by-key merge, `MergeBy`, and are proved independent of the order in which Go's map iteration visits the keys.
- `splitter.dfy` (module `Splitter`): one step of the reader loop (`SplitStep`, specified by `Split`) and the reader loop over a reused buffer (`ReadLoop`, an `array`).
  - The file's successive reads are a parameter.

The solver reports each station's minimum, mean and maximum over all its
lines. For that, an existing key must be combined with the local aggregate
(min of minimums, max of maximums, sums and counts added), and every byte of
the file must reach exactly one worker. The code does neither in every case.
The reducer looks the "new" aggregate up in the global table itself, so an
existing entry is merged with itself. The reader can resend stale buffer
bytes after a short read. The model follows the code as written. It proves
each departure on a concrete input and proves the corrected behaviour next to
it, in the two rows under "## Findings".

## Model

| member | source | states |
|---|---|---|
| FixedPoint.ParseTemp | main.go:223-241 | The input must be non-empty (the code reads `input[0]`); when what follows the optional `-` is neither 3 nor 4 bytes long, no switch case matches and the result is 0 |
| FixedPoint.ParseExact | main.go:223-240 | A reading `d.d`, `dd.d`, `-d.d` or `-dd.d` parses to its sign times the decimal value of its digits without the `.` (`10*a+b` or `100*a+10*b+c`) |
| FixedPoint.ParseInRange | main.go:221-222 | Every well-formed reading parses to a value in [-999, 999] |
| FixedPoint.ParseNegate | main.go:224-239 | A leading `-` negates the parsed value exactly |
| FixedPoint.Format | main.go:221-222 | The shortest reading of v tenths is well-formed, and starts with `-` exactly when v < 0 |
| FixedPoint.ParseFormat | main.go:221-235 | The parser inverts formatting on the whole range [-999, 999] |
| FixedPoint.ParseSamples | main.go:221-235 | The samples -99.9, -10.5, -0.1, 0.0, 0.1, 10.5 and 99.9 parse to ten times their value |
| Aggregate.Reading | main.go:167 | The value of a well-formed record lies in [-999, 999] |
| Aggregate.Observe | main.go:174-192 | A reading adds its key to the table and leaves every other entry unchanged |
| Aggregate.Least | main.go:175-177 | The reference minimum is one of the readings and no reading is below it |
| Aggregate.Greatest | main.go:178-180 | The reference maximum is one of the readings and no reading is above it |
| Aggregate.ObserveSummarizes | main.go:174-192 | One update keeps an entry equal to the min, max, sum and count of its key's readings, for the updated key and for every other key |
| Aggregate.SummarizeIsReadings | main.go:149-195 | After a scan, a key has an entry exactly when it has readings, and the entry holds their exact minimum, maximum, sum and count |
| Aggregate.SummarizeKeys | main.go:174-192 | The keys of the scanned table are exactly the keys of the records |
| Aggregate.ObserveEntryValid | main.go:174-192 | An update with a reading in range keeps the touched entry's invariant: name is its key, count >= 1, min <= max, count*min <= sum <= count*max |
| Aggregate.ObservePreservesValid | main.go:174-192 | An update with a reading in range keeps the invariant of every entry |
| Aggregate.SummarizeValid | main.go:17-23 | Every aggregate of a scanned table satisfies the City invariant |
| Worker.SerializeLayout | main.go:149-173 | The bytes of a sequence of records are laid out record by record: key, `;`, value, `\n` at the records' offsets |
| Worker.LayoutSerialize | main.go:149-173 | Conversely, a chunk laid out as the records are is exactly their bytes |
| Worker.InKey | main.go:150-155 | While the scan is inside a key, the byte it stands on is `;` exactly at the key's end, and five more bytes of the line follow |
| Worker.LineEnd | main.go:157-165 | On a record's `;`, the count of bytes of the six-byte window before the first `\n` is the value's length plus one |
| Worker.UpdateCity | main.go:174-192 | The in-place update of the local table is the reading's fold step |
| Worker.ScanRecord | main.go:155-173 | From a record's `;`, the scan folds that record's key and parsed value into the table and moves the cursor just past the line's `\n`: the new cursor is within the chunk and the byte before it is `\n` |
| Worker.ScanChunk | main.go:140-195 | The scan of a well-formed chunk returns the summary of its records: same keys, and exact min, max, sum and count per key |
| Worker.LineStartsAfterNewline | main.go:170-172 | After each record the line start is just past that record's `\n` |
| Reducer.Wrap64 | main.go:212-213 | Two's-complement 64-bit wrap-around: the result is in range, congruent to the input modulo 2^64, and the input itself when no overflow happens |
| Reducer.MergeStep | main.go:204 | Merging one more local entry extends the merge by that key, whichever key the map iteration picks next |
| Reducer.MergeByShape | main.go:204-216 | A merge keeps the keys of both tables and no other; a key of only one table keeps its entry |
| Reducer.MergeEntry | main.go:205-216 | The inner-loop body as written: an existing entry is merged with itself (`new` is re-read from the global table), a new key's entry is inserted |
| Reducer.MergeLocal | main.go:204-217 | Merging a local table as written, in any key order, gives the key-by-key self-merge of the global entries plus the local-only entries |
| Reducer.MergeAsWrittenExisting | main.go:205-213 | For a key both tables have, the global min, max and name are unchanged and the count and sum are doubled with 64-bit wrap-around |
| Reducer.MergeAsWrittenKeepsMean | main.go:212-213 | Without overflow that doubling keeps the entry's mean sum/count |
| Reducer.MergeAsWrittenIgnoresLocal | main.go:205-213 | Two local tables with the same keys give the same global entries for every global key: the local values are never read |
| Reducer.MergeAsWrittenWraps | main.go:212 | A global count of 2^62 becomes -2^63 after one more merge of that key |
| Reducer.ProcessMeasurement | main.go:199-219 | The tables received are merged into the global table one after another, as written |
| Reducer.ReduceAsWrittenKeys | main.go:203-218 | The final global keys are the initial ones plus those of every table received |
| Reducer.ReduceAsWrittenKeepsExtremes | main.go:206-211 | A key the global table already holds keeps its min and max through any number of merges |
| Reducer.MergeAsWrittenLosesReadings | main.go:205-213 | For "a;1.0" in one table and "a;2.0" in another, the merge is not the summary of both lines |
| Reducer.MergeAsWrittenOrderMatters | main.go:203-213 | The merge as written depends on arrival order: tables {a: 1.0} then {a: 2.0} give max 1.0, sum 2.0, while the reverse order gives max 2.0, sum 4.0 |
| Reducer.MergeEntryFixed | main.go:205-216 | The corrected inner-loop body combines the global entry with the local one: smaller min, larger max, sums and counts added |
| Reducer.MergeLocalFixed | main.go:204-217 | Merging a local table with the corrected body, in any key order, gives the corrected key-by-key merge |
| Reducer.MergeObserve | main.go:206-213 | Folding a reading into the local table and then merging is the same as merging and then folding the reading into the global table |
| Reducer.MergeObserveAt | main.go:206-213 | The same for the entry of the reading's key |
| Reducer.MergeSummaries | main.go:205-216 | The corrected merge of the summaries of a and b is the summary of a + b |
| Reducer.MergeCommutes | main.go:203-218 | The corrected merge does not depend on which table arrives first |
| Reducer.MergeAssociates | main.go:203-218 | The corrected merge is associative, so the arrival order of the workers' tables does not matter |
| Reducer.ProcessMeasurementFixed | main.go:199-219 | The corrected reducer merges the tables received one after another |
| Reducer.ReduceSummaries | main.go:203-218 | Reducing the chunks' summaries with the corrected merge gives the summary of all their records in order: the pipeline computes what one sequential scan would |
| Splitter.LastIndex | main.go:102 | `bytes.LastIndex` for `'\n'`: -1 or a position holding the byte, with no occurrence after it |
| Splitter.Split | main.go:102-106 | `toSend ++ newRest == rest ++ buff`; newRest is a tail of buff with no `\n`; toSend ends in `\n` when buff has one; otherwise toSend is the old rest and newRest is buff |
| Splitter.SplitStep | main.go:99-106 | The step as written (the dead copy of `buff[:readSize]`, then the split of the whole buffer) computes Split of the whole buffer |
| Splitter.AfterRead | main.go:88 | `file.Read(buff)` overwrites the buffer's front with the bytes read and leaves the rest as it was |
| Splitter.ReadInto | main.go:88 | The in-place read into the reused array buffer gives AfterRead of its old contents |
| Splitter.AfterReadIs | main.go:88 | A buffer holding the read bytes in front and the old contents behind them is the buffer after the read |
| Splitter.ReadAndSplit | main.go:88-108 | One iteration of the reader loop as written: read into the buffer, split the whole buffer, send the block |
| Splitter.ReadLoop | main.go:83-110 | The reader loop over a reused buffer sends the blocks and carries the rest of the as-written fold of the reads |
| Splitter.ReadFixedConserves | main.go:99-106 | With the split limited to the bytes just read, the blocks sent followed by the final rest are exactly the file's bytes, and the final rest has no `\n` |
| Splitter.ReadAsWrittenFullReads | main.go:102 | When every read fills the buffer, the loop as written behaves exactly as the corrected one |
| Splitter.StaleTailResent | main.go:102-106 | After a block ending in `\n`, a shorter read sends the old rest plus the whole buffer, stale bytes included, so more bytes go out than came in |
| Splitter.StaleTailExample | main.go:88-106 | With a 12-byte buffer, the file "a;1.0\nb;2.0\nc;3.0\n" is sent as "a;1.0\nb;2.0\n" and then "c;3.0\nb;2.0\n" |

## Left out

- Opening the file, read errors, `log.Fatal`, and EOF handling (main.go:58-62, 88-97) are I/O. The reads are a parameter of `ReadLoop`.
- Dropping the final rest at EOF (main.go:110) is not modelled. `ReadLoop` returns that rest instead.
- Goroutines, the two channels and their capacities, the `WaitGroup` and the worker count (main.go:65-80, 108-116) are concurrency. The pipeline is a sequential fold over the chunks (`Summaries`, `Reduce`).
- Command-line handling, profiling, sorting of the keys, and the floating-point report with `round` (main.go:25-55, 118-137, 243-249) are not modelled. They are library and floating-point calls.
- Worker.ScanChunk: requires `LookaheadFits`, meaning every `;` has five bytes after it inside the chunk. Go reads `chunk[i:i+6]` from the slice's spare capacity, and the model does not capture slice capacity.
- Worker.ScanChunk: is specified only for chunks laid out as well-formed records. On other bytes, the source's behaviour is not modelled.
- Worker.ScanChunk: sums and counts are unbounded integers. An int64 overflow would need a single chunk of more than 6e16 bytes: at most 999 tenths per record of at least 7 bytes (`k;99.9\n`).
- Reducer.MergeLocalFixed: sums and counts of the corrected merge are unbounded integers.
- Reducer.MergeLocal: requires every local entry to be filed under its own name. The worker builds its tables that way (main.go:185-186). The case of a mismatched name and key is not modelled.
- Reducer.MergeAsWrittenExisting: the count is wrapped at 64 bits, which is the width of Go's `int` on 64-bit targets. Other targets are not modelled.
- Tables hold `City` values, not pointers. Each local table is abandoned once it is merged, and every key has its own `*City`, so no aliasing can be observed.
- The reader loop's `toSend` and `rest` are fresh slices on every iteration, so no slice sharing is modelled.
- `main_test.go` is not part of this model. It compares whole output strings read from data files.

## Findings

| source | as written | input that shows it | evidently intended | confidence | as-written member | corrected member |
|---|---|---|---|---|---|---|
| main.go:205-213 | `new` is looked up in `cityHash` under the local entry's own name, so an existing global entry is compared with itself and adds its own count and sum to itself; the local aggregate is never read | "a;1.0" in one chunk and "a;2.0" in another: the global entry keeps max 1.0 and its sum becomes 2.0 instead of 3.0; in the other arrival order it is max 2.0, sum 4.0 | merge the local aggregate into the global one: min of minimums, max of maximums, sums and counts added | not executed | Reducer.MergeAsWrittenLosesReadings | Reducer.MergeSummaries |
| main.go:102 | `bytes.LastIndex` searches the whole buffer, including bytes left from the previous read after a short read | a 12-byte buffer and the file "a;1.0\nb;2.0\nc;3.0\n": the second read returns 6 bytes and "c;3.0\nb;2.0\n" is sent, so "b;2.0" is counted twice | search only `buff[:readSize]` | not executed | Splitter.StaleTailExample | Splitter.ReadFixedConserves |
