# Query rotation scripts, modelled in Dafny

The repository has three small Python scripts:

- `batch_search.py` reads a `;`-separated table. It sends `times` Google
  requests per query, or opens that many browser tabs per query, and waits
  between them.
- `search_once_google.py` sends one HEAD request per query of a table.
- `tor_rotate.py` is a supervisor. It asks Tor for a new identity over and
  over. Whenever the exit address it probes has changed, it runs the
  dependent command with the proxy variables pointing at Tor.

The model covers the sequential logic of these scripts:

- **`iter_cells`** (module `QueryCells`, on `Text.Strip`). The rows of the
  table are a value of type `seq<seq<string>>`. The queries are computed by a
  nested loop with a `seen` set. That loop is proved equal to a reference
  definition: the stripped, non-empty cells in row-major order, de-duplicated
  by first occurrence when de-duplication is on.
- **The two `main` drivers** (modules `BatchSearch` and `SearchOnce`). Each
  is a method that returns an exit status and a trace of events: requests,
  browser opens, delays, messages. The file system is a map from each
  existing path to its rows.
- **The supervisor** (module `TorRotate`). The class `Supervisor` holds
  `lastIp` and the base environment. `Supervisor.Step` runs one pass of the
  loop body and returns its effects. The endless loop becomes `Supervise`,
  which runs over a finite sequence of probe outcomes.

`Text.Strip` is Python's `str.strip()` with no argument. It removes
characters for which `str.isspace()` holds, at both ends.

The modules are:

- `text.dfy`: Python's strip.
- `query_cells.dfy`: `iter_cells`.
- `batch_search.dfy`: the batch driver.
- `search_once.dfy`: the one-shot driver.
- `tor_rotate.dfy`: the supervisor.

Where the repository's description and the code differ, the model follows
the code:

- **Probe responses.** Any HTTP response to the address probe counts as an
  answer, including a non-2xx one. Its body, stripped, is taken as the
  address, because `requests.get` is not followed by a status check. Only a
  raised exception is a failed probe.
- **The NEWNYM signal.** `c.signal(Signal.NEWNYM)` has no `try` around it,
  so no signal-error recovery is modelled.
- **The dependent command.** Only a non-zero exit (`CalledProcessError`) is
  caught and reported. A command that cannot be launched ends the
  supervisor, and that is not modelled as handled.

## Model

| member | source | states |
|---|---|---|
| Text.Strip | batch_search.py:21 | the stripped cell starts and ends with a non-whitespace character (or is empty) and is no longer than the cell |
| Text.StripStart | tor_rotate.py:17 | after the leading-whitespace pass, the result is empty or starts with a non-whitespace character |
| Text.StripEnd | tor_rotate.py:17 | after the trailing-whitespace pass, the result is empty or ends with a non-whitespace character, and keeps the first character |
| Text.StripStartRemovesSpace | tor_rotate.py:17 | `lstrip` keeps a suffix and removes only whitespace |
| Text.StripEndRemovesSpace | tor_rotate.py:17 | `rstrip` keeps a prefix and removes only whitespace |
| Text.StripBounds | batch_search.py:21 | the stripped cell is the infix `s[i..j]` with only whitespace before `i` and from `j` on |
| Text.StripKeepsInfix | batch_search.py:21 | such bounds exist for every string: strip removes exactly the whitespace at both ends |
| Text.StripTrimmed | search_once_google.py:14 | stripping a string with no whitespace at either end leaves it unchanged |
| Text.StripIdempotent | search_once_google.py:14 | stripping twice gives the same as stripping once |
| QueryCells.IterCells | batch_search.py:15-27 | the nested row/cell loop with its `seen` set yields all stripped non-empty cells in row-major order without de-duplication, and their first occurrences in order with it |
| QueryCells.ScanRow | batch_search.py:20-27 | the inner loop over one row moves the loop state from the row's first cell to past its last |
| QueryCells.Visit | search_once_google.py:14-20 | one cell: skipped when its strip is empty or already seen (with dedupe), otherwise added to `seen` and yielded |
| QueryCells.CellStep | batch_search.py:21-27 | the reference definition grows by one cell exactly as the loop body does, and `seen` stays the set of the values yielded so far |
| QueryCells.FirstIndex | search_once_google.py:20 | the index returned holds the value, and no earlier index does |
| QueryCells.FlattenLength | batch_search.py:19-20 | the row-major cell sequence has as many cells as all rows together |
| QueryCells.FlattenAt | batch_search.py:19-20 | cell `j` of row `i` sits at the row offset plus `j` in row-major order |
| QueryCells.FlattenMembers | search_once_google.py:12-13 | a string is a cell in row-major order exactly when it is a cell of some row |
| QueryCells.OffsetMonotone | batch_search.py:19 | rows start at non-decreasing positions |
| QueryCells.CandidatesWellFormed | batch_search.py:21-23 | every candidate is non-empty and trimmed |
| QueryCells.CandidatesMembers | batch_search.py:20-23 | a value is a candidate iff it is non-empty and the strip of one of the cells |
| QueryCells.DedupElements | batch_search.py:24-26 | de-duplication keeps exactly the values of its input |
| QueryCells.DedupDistinct | batch_search.py:16 | with de-duplication no value is yielded twice |
| QueryCells.DedupOccursOnce | batch_search.py:24-27 | every input value occurs exactly once in the output, any other value never |
| QueryCells.DedupFirstOccurrenceOrder | batch_search.py:24-27 | the output follows the order of first occurrences in the input |
| QueryCells.FirstIndexExtend | search_once_google.py:17-20 | appending later cells does not move a value's first occurrence |
| QueryCells.DedupSubsequence | batch_search.py:24-27 | the de-duplicated output is a subsequence of its input |
| QueryCells.QueriesWellFormed | batch_search.py:21-23 | every yielded query is non-empty and has no leading or trailing whitespace |
| QueryCells.QueriesExact | batch_search.py:19-27 | a value is yielded iff it is non-empty and the strip of some cell of some row (with or without dedupe): nothing invented, nothing missed |
| QueryCells.QueriesSubsequence | batch_search.py:19-27 | the queries are a subsequence of the stripped non-empty cells in row-major order |
| BatchSearch.Reps | batch_search.py:81 | `range(times)` runs `times` times, and never for a negative count |
| BatchSearch.Action | batch_search.py:82-86 | the action is a browser open iff the method is BROWSER (mode 1 with a new window, 2 otherwise), else an HTTP request with HEAD iff the method is HEAD; it carries the query |
| BatchSearch.Run | batch_search.py:76-90 | a missing table gives status 1 and only the message; otherwise status 0 and the schedule over the queries of `iter_cells` (de-duplicated unless disabled), then "Finished." |
| BatchSearch.Rounds | batch_search.py:81-87 | the inner loop for one query gives `times` rounds of action and delay |
| BatchSearch.Copies | batch_search.py:81 | `n` copies has length `n` |
| BatchSearch.CopiesOnly | batch_search.py:81-86 | every element of the copies is the copied action |
| BatchSearch.RepeatActions | batch_search.py:81-87 | the actions of one query's rounds are `times` copies of its action |
| BatchSearch.Expected | batch_search.py:80-86 | the reference action list has `times` elements per query |
| BatchSearch.ExpectedBlock | batch_search.py:80-86 | block `i` of the reference action list is `times` copies of the action for query `i` |
| BatchSearch.ScheduleExpected | batch_search.py:80-88 | the actions of the schedule, with delays removed, are the reference action list |
| BatchSearch.ScheduleActionCount | batch_search.py:80-86 | the schedule performs exactly `len(queries) * times` actions, none when `times <= 0` |
| BatchSearch.ScheduleActionBlock | batch_search.py:80-86 | actions `i*times` up to `(i+1)*times` are all the action for query `i`: query order is kept |
| BatchSearch.ActionsFromQueries | batch_search.py:80-86 | every action is the method's action for one of the queries |
| BatchSearch.ScheduleDelays | batch_search.py:87-88 | every action is followed at once by a delay, and a non-empty schedule ends with the per-query delay |
| SearchOnce.Requests | search_once_google.py:51-52 | one HEAD request per query, the `k`-th for the `k`-th query |
| SearchOnce.Run | search_once_google.py:41-54 | other than exactly one argument gives status 1 and only the usage line; a missing table gives status 1 and only its message; otherwise one HEAD per de-duplicated query, in order, then "Finished." |
| SearchOnce.RequestsCount | search_once_google.py:51-52 | each query is requested as often as it occurs among the queries |
| SearchOnce.SentWellFormed | search_once_google.py:13-16 | every request carries a non-empty trimmed query |
| SearchOnce.SentOnce | search_once_google.py:17-20 | a value is requested exactly once when it is the non-empty strip of some cell, and never otherwise |
| SearchOnce.SentInFirstOccurrenceOrder | search_once_google.py:12-20 | the requests follow the first occurrences of their queries among the stripped non-empty cells |
| TorRotate.ChildEnv | tor_rotate.py:41-44 | the child environment has the base keys plus the three proxy keys; the proxy keys map to the Tor proxy; every other key keeps its base value |
| TorRotate.NextLastIp | tor_rotate.py:36-38 | `last_ip` changes iff the probe answered with a stripped address different from it; an answer leaves it equal to that address; a failure leaves it alone |
| TorRotate.Supervisor.constructor | tor_rotate.py:20-22 | the supervisor starts with no last address |
| TorRotate.Supervisor.Step | tor_rotate.py:25-54 | one pass of the loop body: the new `lastIp` and the effects are those of the reference iteration from the old `lastIp` |
| TorRotate.Supervise | tor_rotate.py:19-54 | connect, authenticate, then one iteration per probe outcome; the final last address is the one after all the outcomes |
| TorRotate.IterationParts | tor_rotate.py:25-54 | an iteration's effects of each kind, case by case: failed probe, new address, same address |
| TorRotate.IterationShape | tor_rotate.py:25-54 | leaving out log lines, every iteration is: new identity, sleep 5, address probe through the proxy, the run only if the address changed, sleep 10 |
| TorRotate.RunIffChanged | tor_rotate.py:36-52 | the command runs exactly once in an iteration when `last_ip` changes in it, and not at all otherwise |
| TorRotate.FailedProbe | tor_rotate.py:29-34 | a failed probe leaves `last_ip` alone, runs nothing, logs only the failure, and sleeps only 5 and the 10 back-off |
| TorRotate.UnchangedAddress | tor_rotate.py:51-54 | the same address again runs nothing, logs only "unchanged", and sleeps 5 and 10 |
| TorRotate.NewAddress | tor_rotate.py:36-54 | a new address becomes `last_ip`; the command runs once with the Tor environment; the run is reported as finished on exit 0 and as an error otherwise; the iteration still ends with the idle sleep |
| TorRotate.LastIpIsLastSuccess | tor_rotate.py:22-38 | after any outcomes, `last_ip` is the address of the last answered probe, or None before the first one |
| TorRotate.NoSuccesses | tor_rotate.py:29-34 | failed probes alone produce no address |
| TorRotate.FirstAnswerRuns | tor_rotate.py:22-38 | the first answered probe always counts as a change and runs the command |
| TorRotate.BlockStartsAppend | tor_rotate.py:36 | one more address opens a new block of equal addresses iff it differs from the previous one |
| TorRotate.RunsCountBlocks | tor_rotate.py:22-54 | over any finite outcome sequence, the runs equal the maximal blocks of equal consecutive addresses among the answered probes |
| TorRotate.RunsUseTorEnv | tor_rotate.py:41-47 | every run is the dependent command with the Tor environment |

## Left out

- HTTP I/O: `hit_google_http`, `head_google` and the address probe make network requests. They become events, and the probe becomes an input outcome: answered with a body, or raised with the exception's text. Status codes, headers, random user agents and request errors are not modelled; both drivers discard the result.
- CSV parsing and file I/O: `csv.reader`, opening the file and `Path.exists`. The table is a map from each existing path to the rows the reader gives. The `--delimiter` option only affects parsing, so it is left out.
- `cell or ""`: cells are always strings here, so the `None` case does not arise.
- `webbrowser.open` and `urllib.parse.quote_plus`: these become an `OpenBrowser(query, mode)` event. URL encoding is not modelled.
- `argparse` and printing to stderr: the options are method parameters, and their defaults are not modelled.
- BatchSearch.Run: the delays are events without durations. `max(0.0, delay + uniform(-jitter, jitter))` uses floating point and randomness, so the `--delay`, `--per-query-delay` and `--jitter` values are not modelled.
- `iter_cells` is a lazy generator that `main` consumes query by query. The model computes the whole list first and then acts on it. No observable effect depends on the interleaving, apart from a reader error partway through the table, which is not modelled.
- The Tor control protocol through `stem`: connecting, authenticating and NEWNYM are effects with no failure modes. An exception from any of them, or from the `with` block, ends the real process and is not modelled.
- `subprocess.run`: the command's exit status is an input of each outcome. A failure to launch the command is not modelled, since the code does not catch it.
- `while True` and real time: the supervisor runs over a finite sequence of outcomes, and sleeps are `Sleep(seconds)` effects.
- Exception text: messages carry the exception's text as an opaque string, or the exit status for a failed run. The exact printed wording is not modelled.
- `os.environ`: the environment is a parameter, `baseEnv`. The base map is a value, so building the child environment cannot change it.
- Naming of the dependent command: the model has one `RunCommand` effect per run. It does not model that the command is `search_once_google.py`, nor connect that run to `SearchOnce.Run`.
