# mspider: retry runner and category batch, in Dafny

This project models the control logic of `mspider.py`, a script that scrapes
an inventory site category by category. The model covers three parts:

- **The retry runner** `scrape_with_retry(url, max_retries=3, delay=5)`. It
  calls the scraping engine up to `max_retries` times and returns the first
  result it gets. After a failed attempt that is not the last, it sleeps for
  `delay` seconds and doubles `delay`. After the last failed attempt it
  re-raises the exception. With `max_retries <= 0` its loop never runs and it
  returns `None`.
- **The batch loop** over `["Cell Phones", "Tablets", "Computers"]`. Each
  category goes through the runner with its defaults. A returned result is
  written to a file, and only then comes a 5-second throttle sleep. An
  exception, whether from the runner or from the write, is caught at the item
  boundary and the loop goes on to the next category.
- **The filename**: `mobilesentrix_<segment>_<YYYYMMDD>.json`, where
  `<segment>` is `category.split('/')[-1]`.

The scraping engine cannot be seen from here, so it is a parameter. Each
category gets one `Outcome` per attempt, either `Success(payload)` or
`Failure(error)`, a flag saying whether writing its file succeeds, and the
date stamp the clock gives when that iteration builds its filename. Every
side effect becomes an `Event` in a trace:

- `Call(url, attempt)`: an engine attempt;
- `Sleep(seconds)`: a sleep;
- `Saved(filename, payload)`: a file write.

The properties are stated over projections of that trace: attempt numbers,
sleep durations, started categories and saved names. They are also stated
over `ApplyWrites`, the file-system state a trace leaves behind.

Files:

- `trace.dfy` (module `Trace`): outcomes, events, projections and the
  file-system replay.
- `retry.dfy` (module `Retry`): the runner. `ScrapeWithRetry` is the loop
  itself, proved equal to the closed form `RetryRun`.
- `naming.dfy` (module `Naming`): Python's `str.split`, `str.join`, the last
  segment and the filename.
- `batch.dfy` (module `Batch`): one iteration (`RunItem`), the loop
  (`RunBatch`) and the batch-level properties.

Two behaviours of the code shape the model:

- The 5-second throttle happens only after a successful save. It sits inside
  the `try` after the write, so a failed category is not followed by a sleep.
- `max_retries <= 0` makes the runner return `None` without raising.

## Model

| member | source | states |
|---|---|---|
| Retry.ScrapeWithRetry | mspider.py:75-116 | The loop's result and trace are exactly `RetryRun`: attempts numbered from 1, a wait of `delay * 2^i` after failed attempt i+1 unless it is the last, return on the first success, re-raise after the last failure, `None` when no attempt is made |
| Retry.RetryRun | mspider.py:75-116 | `None` is returned exactly when `max_retries <= 0`, and then nothing is attempted; with at least one attempt, the runner raises exactly when every attempt fails, and then it raises the last attempt's error; a returned value is the payload of some attempt within the budget |
| Retry.FirstSuccess | mspider.py:77-105 | The attempt that returns is the first success: every earlier outcome is a failure, and the index equals the budget only when all attempts fail |
| Retry.RetryPrefixMeasure | mspider.py:107-113 | After `done` failed, non-final attempts the trace has `done` calls numbered 1..done and `done` waits, wait j lasting `delay * 2^j`, and no file saved |
| Retry.AttemptTraceMeasure | mspider.py:77-116 | A run of k attempts makes exactly k calls numbered 1..k, exactly k-1 waits of `delay * 2^j`, ends with the final call and no wait after it, starts its url once and saves nothing |
| Retry.BackoffDoubles | mspider.py:111-113 | Each wait after the first lasts twice as long as the one before it |
| Retry.AllAttemptsFail | mspider.py:107-116 | When all n >= 1 attempts fail, the runner re-raises the last error after exactly n attempts and n-1 waits of `delay * 2^j` |
| Retry.FirstSuccessReturned | mspider.py:99-113 | When attempt k is the first success, the runner returns its payload after exactly k attempts and k-1 waits, and makes no later attempt |
| Retry.DefaultPolicyFailFailSucceed | mspider.py:75-116 | With the defaults (3 attempts, delay 5), fail, fail, succeed gives attempts [1, 2, 3], waits [5, 10] and the third payload |
| Naming.Split | mspider.py:125 | Python's `str.split(sep)` with an explicit separator: always at least one piece, an empty string giving `[""]` |
| Naming.CategoryName | mspider.py:125 | `category.split('/')[-1]`, the last piece of the split |
| Naming.Filename | mspider.py:126 | `"mobilesentrix_" + segment + "_" + date + ".json"` |
| Naming.LastPieceSnoc | mspider.py:125 | Appending a character other than the separator extends the last piece by it; appending the separator starts a new, empty last piece |
| Naming.LastPieceSuffix | mspider.py:125 | The last piece of a split ends the string |
| Naming.LastPieceAfterSep | mspider.py:125 | With more than one piece, the last piece is preceded by the separator |
| Naming.LastPieceWhole | mspider.py:125 | With one piece, the last piece is the whole string |
| Naming.SplitPiecesFree | mspider.py:125 | No piece produced by `split(sep)` contains `sep` |
| Naming.JoinSplit | mspider.py:125 | `sep.join(s.split(sep)) == s`: splitting loses no character |
| Naming.SplitJoin | mspider.py:125 | Splitting the join of separator-free pieces gives back exactly those pieces |
| Naming.CategoryNameIsLastSegment | mspider.py:125 | The category segment holds no '/', ends the category string, is preceded by '/' unless it is the whole string, and is the whole category when that has no '/' |
| Naming.FilenameOfPlainCategory | mspider.py:126 | For a category without '/', the file is `"mobilesentrix_" + category + "_" + date + ".json"` |
| Naming.FilenameDeterminedBySegment | mspider.py:125-126 | The file name is prefix, segment, then `_<date>.json`, and on one date two categories map to the same file exactly when their last segments agree |
| Batch.ItemTrace | mspider.py:120-134 | One iteration: the runner with its defaults; on a returned payload and a successful write, the save under the derived filename and the 5-second throttle; on an exception, nothing more |
| Batch.BatchTrace | mspider.py:119-138 | The batch: the iterations' events, one after the other, in list order |
| Batch.AttemptsMade | mspider.py:122 | Under the defaults a category gets between 1 and 3 attempts; every attempt before the last one made failed, and fewer than 3 are made only when the last of them succeeded |
| Batch.RunItem | mspider.py:120-134 | One iteration's trace is exactly `ItemTrace`: the runner's events, then the save and the throttle only when a payload was returned and the write succeeds |
| Batch.RunBatch | mspider.py:119-138 | The loop's trace is exactly the iterations' traces, one after the other, in list order |
| Batch.ItemTraceForm | mspider.py:120-134 | An iteration is its attempts and waits, followed by the save and the throttle when the category succeeds, and by nothing otherwise |
| Batch.ItemStarted | mspider.py:121-122 | Each iteration starts its own category exactly once |
| Batch.ItemAttempts | mspider.py:122 | An iteration makes `AttemptsMade` attempts, numbered 1, 2, … |
| Batch.ItemSleeps | mspider.py:109-134 | An iteration's sleeps are the backoff waits `5 * 2^j` between failed attempts, plus one 5-second throttle exactly when the category succeeds |
| Batch.ItemSaved | mspider.py:122-129 | An iteration writes exactly the derived filename when a payload is returned and the write succeeds, and writes nothing otherwise |
| Batch.ItemEnds | mspider.py:128-134 | A successful iteration ends with the save of the returned payload and then the 5-second sleep; a failed one ends with its last attempt, with no sleep after it |
| Batch.EveryCategoryStartedInOrder | mspider.py:119-138 | Every category is started exactly once, in list order, whatever the engine and the writes do |
| Batch.ArtifactsExactlyForSuccesses | mspider.py:119-138 | The files written are exactly those of the succeeding categories, in list order, at most one per category |
| Batch.ItemWrites | mspider.py:122-129 | An iteration leaves the files unchanged, except that a succeeding category's file is set to the payload it returned |
| Batch.BatchFilesReplay | mspider.py:119-138 | Replaying the batch's events gives `BatchFiles`: the succeeding categories' files set to their payloads, one category after the other in list order |
| Batch.LastWriterContent | mspider.py:119-138 | A succeeding category that no later succeeding category overwrites leaves its payload in its file |
| Batch.FilesAfterBatch | mspider.py:119-138 | After the batch, the batch's writes override the previous files. The files are the previous ones plus the succeeding categories' filenames; two categories whose names agree share one file. A file the batch never names keeps its contents. Each written file holds the payload of the last succeeding category that names it. Replaying the batch's writes changes nothing |
| Batch.FailureIsolation | mspider.py:136-138 | Changing what happens to one category changes only that category's events; the others' events are unchanged |
| Batch.SucceedsIff | mspider.py:122-129 | A category yields a file exactly when one of its three attempts succeeds and its write succeeds |
| Batch.TabletsExhaustedScenario | mspider.py:119-138 | With the script's own list, when "Tablets" fails all three attempts and the other two succeed, all three categories are started in order and exactly the "Cell Phones" and "Computers" files are written |
| Trace.ApplyWrites | mspider.py:128-129 | The files a trace leaves behind: each save writes its payload under its name in mode 'w', replacing any earlier contents |
| Trace.ApplyWritesOverrides | mspider.py:128-129 | Replaying a trace on some files gives those files overridden by the files the trace writes on its own |
| Trace.ApplyWritesAppend | mspider.py:128-129 | Replaying two traces one after the other is replaying the second on the files the first leaves behind |
| Trace.ApplyWritesNoSaves | mspider.py:128-129 | A trace that saves nothing leaves the files as they were |
| Trace.ApplyWritesKeys | mspider.py:128-129 | Replaying a trace leaves the initial files plus every saved name |
| Trace.ApplyWritesIdempotent | mspider.py:128-129 | Writing in mode 'w' replaces a file, so replaying the same writes twice leaves the same files as replaying them once |

## Left out

- Building `SmartScraperGraph`, `graph_config`, the environment variables and the pydantic `Inventory` schema are not modelled. One attempt's whole `try` body is a single `Outcome`: constructing the graph, `run()`, `get_execution_info()` and printing. An exception in any of them is a `Failure`.
- `print` and `prettify_exec_info` are left out. They only write to the console.
- `str(result)` serialisation is left out. The payload is an opaque value `V`, saved as it is.
- `time.strftime('%Y%m%d')` is left out, because the clock is outside the model. Each iteration's date stamp is a field of that category's environment, so a batch that runs past midnight is covered.
- `time.sleep` is recorded as a `Sleep(seconds)` event. No real time passes.
- The delays are natural numbers. A negative `delay` would make `time.sleep` raise `ValueError`, which is not modelled. Float delays are not modelled either.
- Retry.ScrapeWithRetry: requires one outcome per attempt it may make (`max_retries <= |outcomes|`). This gives the engine a total description; it adds no restriction on the runner.
- A failed write is a per-category flag. A file opened by `open(filename, 'w')` and then left empty or partly written by a failing `write` is not modelled; a failed write records no file.
- Concurrency and interrupts are not modelled. Neither are exceptions outside `Exception`, such as `KeyboardInterrupt`, which would stop the loop.
