# taskpull, ctop and util helpers in Dafny

This project models three Python modules of a small astrophysics toolkit:

- `MPI_taskpull2.py` is a master/worker task farm over MPI. Rank 0 hands tasks out on request, collects the results in a dictionary keyed by task, and returns once every worker has acknowledged its EXIT. Every other rank loops: it announces READY, receives START (and runs the worker function) or EXIT (and stops). It then acknowledges the EXIT with its processor name.
- `ctop_cpu.py` is a cluster `top` viewer. It provides the cluster tables, host-list reading and the text scraping of `top` output: memory, swap, running-task count and a per-user tally of running commands.
- `util.py` holds file-name helpers: the SN numbers, the R and Run fields, multi-separator split, and grouping of objects by an attribute.

## Modules

- `PyStr` (`pystr.dfy`) models the Python builtins the code relies on:
  - slicing with negative and out-of-range bounds;
  - `find`/`rfind`, `split(sep)`/`join` and `split()`;
  - `lstrip`/`rstrip`/`strip`, `int()` on text, `isdigit`;
  - `%i`/`%2i`/`%6s` formatting and string concatenation.
  - Python exceptions are a `Result` with `IndexError` or `ValueError`.
- `TaskPull` (`taskpull.dfy`) models the master and the worker.
  - **Master.** A pure transition `Step` over `MasterState`, holding the task cursor, the results map and the closed-worker count. `Replay` folds it over a sequence of arrivals. The imperative method `Taskpull` runs the source's `while` loop and is proved equal to `Replay` over the prefix of the inbox it consumed.
  - **Worker.** The method `Worker` runs the `while True` loop and is proved equal to the pure `WorkerOutput`.
  - **Tasks.** The task iterator is a finite sequence. The arrival order of messages, which MPI leaves open, is the inbox sequence the caller supplies.
- `Util` (`util.dfy`) models `findSN`, `findSNs`, the text part of `findR`, `findRun`, `split` and `iter_Attr`.
  - `split` and `iter_Attr` are imperative methods with loops. `iter_Attr` is proved against `Group`, `sorted` against `Increasing`.
  - The module also holds the corrected `findSNs` (see Findings).
- `Ctop` (`ctop.dfy`) models the cluster tables and the parsing helpers.
  - Python dictionaries become association lists (`Dict`) that keep insertion order.
  - The tally of `get_tasks_names` is a `Tally`, a `Dict` of `Dict`s.

## Model

| member | source | states |
|---|---|---|
| TaskPull.Enum | MPI_taskpull2.py:7-12 | exactly the given names are attributes, and each is bound to a position at which that name stands |
| TaskPull.EnumInjective | MPI_taskpull2.py:11 | two names bound to the same value are the same name |
| TaskPull.EnumPositions | MPI_taskpull2.py:11 | with distinct names, the i-th name is bound to i (`zip` with `range`) |
| TaskPull.TagValues | MPI_taskpull2.py:15 | READY, DONE, EXIT, START are 0, 1, 2, 3, and distinct tags have distinct values |
| TaskPull.TagDispatch | MPI_taskpull2.py:47-102 | comparing a message's tag value with `tags.READY`, `tags.DONE`, `tags.EXIT` (master) or `tags.START`, `tags.EXIT` (worker) holds exactly for the matching kind of report or command |
| TaskPull.Step | MPI_taskpull2.py:45-73 | READY with tasks left: send START with the next task back to the sender and advance the cursor. READY with none left: send EXIT back and change nothing. DONE: store the result under its task, results only gain keys. EXIT: count one more closed worker. Only READY sends, and only to the message's source |
| TaskPull.Replay | MPI_taskpull2.py:44-73 | however many arrivals are processed, the task cursor never passes the end of the task list |
| TaskPull.ReplayMeaning | MPI_taskpull2.py:39-73 | after any arrivals, closed = number of EXIT acks and cursor = min(number of tasks, number of READYs). The result keys are the tasks reported DONE. The messages sent are START for the tasks in order, one per READY in arrival order, and EXIT for every READY after the tasks ran out |
| TaskPull.StartedPrefix | MPI_taskpull2.py:50-55 | the tasks started by an assignment are the first min(tasks, READYs) tasks, in order |
| TaskPull.EachTaskAssignedOnce | MPI_taskpull2.py:50-55 | the tasks sent in START messages are exactly the first `cursor` tasks, each once, in task order |
| TaskPull.ResultsOnlyGrow | MPI_taskpull2.py:62-64 | the set of tasks with a result never shrinks as messages arrive |
| TaskPull.ResultsAreReported | MPI_taskpull2.py:62-64 | if every DONE carries f(task) then every stored result is f of its key |
| TaskPull.Taskpull | MPI_taskpull2.py:34-80 | the returned results and sent messages are the replay of the consumed inbox prefix. It stops exactly at the first arrival that makes size-1 EXIT acks, and consumes everything when there are fewer |
| TaskPull.WorkerOutput | MPI_taskpull2.py:86-104 | a worker's messages start with READY, number at most two per command received plus one, and end either with a READY still waiting for a command or with the EXIT acknowledgement |
| TaskPull.WorkerAlternates | MPI_taskpull2.py:86-104 | a worker's messages alternate: READY at every even position, a reply at every odd one |
| TaskPull.WorkerReplies | MPI_taskpull2.py:88-104 | the k-th reply answers the k-th command: DONE(name, task, fn(args)) for START, the EXIT ack for EXIT |
| TaskPull.WorkerAcksLast | MPI_taskpull2.py:101-104 | the EXIT ack is the last message, and the worker sends it iff it received EXIT |
| TaskPull.WorkerDoneResults | MPI_taskpull2.py:95-100 | every DONE a worker sends carries the worker function applied to the task, spread when the task is a tuple |
| TaskPull.Worker | MPI_taskpull2.py:82-105 | the loop's outbox is `WorkerOutput`. It returns iff some command is EXIT, and then it consumed STARTs up to and including the first EXIT |
| TaskPull.SequentialRun | MPI_taskpull2.py:34-105 | with one busy worker and idle others, the busy worker gets START for every task in order and then EXIT. Every other worker gets EXIT. All workers close, and the results map has exactly the tasks as keys, each bound to fn(args) |
| TaskPull.ScheduleCommands | MPI_taskpull2.py:48-55 | READYs from one worker for each task plus one, then from the others, yield STARTs in task order and then EXITs, to those senders |
| Util.FindSN | util.py:138-142 | no `_`-separated field of the name without its last four characters contains SN ⇒ None. Otherwise `int` of the first such field with S and N stripped from the left, including its ValueError |
| Util.KeptPiecesKept | util.py:147-148 | findSNs keeps exactly the fields that are digits once S and N are stripped from both ends |
| Util.FindSNsMeaning | util.py:145-149 | the corrected findSNs holds one number per kept field, in order: `int` of that field stripped of S and N at both ends |
| Util.LStripParses | util.py:148 | when the left-stripped text of a kept field parses, it equals the both-ends-stripped text and has the kept value |
| Util.FindSNsAgrees | util.py:145-149 | whenever findSNs as written returns, its list is the corrected one |
| Util.FindSNsAsWritten | util.py:145-149 | findSNs as written can fail, and then only with ValueError |
| Util.LStripValuesMeaning | util.py:148 | the conversion `[int(SN.lstrip('SN')) ...]` succeeds iff every kept field's left strip parses, and then holds those values, one per field, in order |
| Util.FindSNsTrailingLetter | util.py:145-149 | as written, "SN12N_R3.fits" raises ValueError, and the corrected version gives [12] |
| Util.FindRText | util.py:152-154 | the R text has no R in it, ends four characters before the end of the name, and follows the last R or starts the name. It is empty iff the name has at most four characters or an R among its last five |
| Util.RunFields | util.py:163-166 | when "Run" occurs after position 0, the field runs from its last occurrence to the next `_`, and no other field qualifies |
| Util.RunFieldUnique | util.py:164-166 | a Run field can only start at the last "Run" and end where the text before `_` ends |
| Util.FindRun | util.py:163-172 | a result is `int` of the Run field. No "Run" after position 0 gives None. An unparsable field gives None |
| Util.SplitEachPieces | util.py:178-180 | each piece of one round comes from splitting a piece of the previous round |
| Util.SplitAll | util.py:175-181 | the result is the successive split by every separator, no piece contains any separator, no separators give [s], and one separator joins back to s |
| Util.GroupMembers | util.py:120-125 | an object is in the group of key k iff it is among the files and its attribute is k |
| Util.InsertAt | util.py:126 | inserting a key after the smaller keys and before the larger keys keeps the key sequence strictly increasing |
| Util.Insert | util.py:126 | inserting a new key into a strictly increasing sequence keeps it strictly increasing, adding exactly that key |
| Util.Sorted | util.py:126 | the keys come out strictly increasing, with the same members |
| Util.GroupBy | util.py:120-125 | the dictionary maps each attribute value present to the files with that value, in file order |
| Util.IterAttr | util.py:119-126 | keys strictly increasing. Each group is the non-empty, in-order list of files with that key. Every file's key appears, and a file is in a group iff its key is that group's key |
| PyStr.Clamp | util.py:139 | a slice bound counts from the end when negative, becomes the length when past the end and 0 when still before the start |
| PyStr.Find | util.py:146 | -1 iff the text does not occur, else the first position where it occurs |
| PyStr.RFind | util.py:153 | -1 iff the text does not occur, else the last position where it occurs |
| PyStr.JoinSplit | util.py:180 | joining the pieces of `split(sep)` with sep gives the original text |
| PyStr.SplitPieces | util.py:180 | no piece of `split(sep)` contains sep, and each piece is a substring of the text |
| PyStr.Words | ctop_cpu.py:85 | every field of `split()` is non-empty and free of whitespace |
| PyStr.WordsSkipsSpaces | ctop_cpu.py:85 | `split()` ignores whitespace before the first field |
| PyStr.WordsTakesWord | ctop_cpu.py:85 | a non-empty run of non-whitespace followed by whitespace or the end is the first field, and the fields after it are those of the rest |
| PyStr.LStrip | util.py:142 | `lstrip` returns a suffix that does not start with a stripped character, having removed only stripped characters |
| PyStr.RStrip | ctop_cpu.py:124 | `rstrip` returns a prefix that does not end with a stripped character, having removed only stripped characters |
| PyStr.ParseIntDigits | util.py:148 | a digit string that passes `isdigit` converts with `int` to its decimal value |
| PyStr.ParseIntToStr | ctop_cpu.py:96-97 | `int(str(n)) == n` for every integer |
| PyStr.PadLeft | ctop_cpu.py:87 | `%6s` pads on the left with spaces to at least the width and ends with the text |
| PyStr.ConcatPrefix | ctop_cpu.py:100-103 | concatenating a prefix of the lines gives a prefix of the whole text |
| Ctop.NodeNameShape | ctop_cpu.py:18 | `node%02i` of 0..99 is "node" and the two decimal digits |
| Ctop.NodeNameInjective | ctop_cpu.py:18-22 | different numbers below 100 give different node names |
| Ctop.NodeRange | ctop_cpu.py:18-22 | the comprehension over `range(lo, hi)` has hi - lo names (none when hi <= lo), the k-th being `node%02i` of lo + k |
| Ctop.Bounds | ctop_cpu.py:18-22 | every table's range lies within 1..72 |
| Ctop.ClusterSizes | ctop_cpu.py:18-22 | lazarian, zweibel, townsend, heinzs and all have 15, 7, 23, 24 and 72 nodes |
| Ctop.ClusterEnds | ctop_cpu.py:18-22 | each table runs from the node of its lower bound to the node before its upper bound |
| Ctop.ClusterNoRepeats | ctop_cpu.py:18-22 | no table lists a node twice |
| Ctop.ClusterInAll | ctop_cpu.py:18-22 | every node of every table is in `all` |
| Ctop.ClustersDisjoint | ctop_cpu.py:18-21 | the four group tables share no node |
| Ctop.GroupNamed | ctop_cpu.py:17-22 | the five table names and nothing else name a table |
| Ctop.Cluster | ctop_cpu.py:17-22 | `cluster[name]` is missing (KeyError) iff no table has that name, otherwise it is the node list of a table with that name |
| Ctop.ClusterTable | ctop_cpu.py:16-22 | each table name looks up its node list, and the default cluster is heinzs |
| Ctop.RemoveDup | ctop_cpu.py:43-48 | the result has no repeats, the same elements as the input, in order of first occurrence |
| Ctop.Heads | ctop_cpu.py:57-58 | each host line is cut to its first six characters |
| Ctop.ReadHost | ctop_cpu.py:50-65 | a table name gives its table. Otherwise a readable file gives its deduplicated six-character heads. Otherwise a number gives its node name, and any other text gives [argv] |
| Ctop.CutLast | ctop_cpu.py:67-72 | the lines from the last one containing "top - ", or all lines when none does |
| Ctop.TrimTop | ctop_cpu.py:99-103 | the concatenation of the first nhead+2+ntasks lines (Python slice rules), all lines when there are fewer, always a prefix of the whole text |
| Ctop.RunningCount | ctop_cpu.py:96 | the fourth field of line 1 as an integer. IndexError iff the line or the field is missing, ValueError when it does not parse |
| Ctop.TasksLine | ctop_cpu.py:97 | `Tasks: %2i running` has three fields, and the middle one reads back as the count |
| Ctop.GetNTasks | ctop_cpu.py:94-97 | fails iff the running count fails, with the same error. Otherwise three fields "Tasks:", the count minus one, "running" |
| Ctop.Usage | ctop_cpu.py:84-92 | succeeds iff the line and its fourth field exist. Its fields are the title, used, "/", total |
| Ctop.MemUsage | ctop_cpu.py:84-87 | fields "MEM:", used (field 3 of line 3), "/", total (field 1). IndexError, and no other error, exactly when line 3 or its fields are missing |
| Ctop.SwapUsage | ctop_cpu.py:89-92 | fields "SWAP:", used (field 3 of line 4), "/", total (field 1). IndexError, and no other error, exactly when line 4 or its fields are missing |
| Ctop.GetFinds | ctop_cpu.py:113-114 | a key is absent iff no entry has it, and a present key's value is an entry |
| Ctop.Put | ctop_cpu.py:113-114 | after storing, the key maps to the value, every other key is unchanged, and keys stay distinct |
| Ctop.PutOrder | ctop_cpu.py:113-121 | storing keeps the existing key order and appends a new key at the end (insertion order) |
| Ctop.Bump | ctop_cpu.py:113-114 | after counting a process, its user has a dictionary whose entry for its name is the previous count plus one (1 when absent), and every other user's dictionary is unchanged |
| Ctop.BumpCounts | ctop_cpu.py:113-114 | counting one more (user, name) adds one to exactly that count, and keeps every count positive and every key unique |
| Ctop.TallyOf | ctop_cpu.py:107-114 | the tally is well formed and is empty iff no process was counted |
| Ctop.TallyCounts | ctop_cpu.py:107-114 | the tally holds for every user and command the number of counted processes with that pair |
| Ctop.RunningPairs | ctop_cpu.py:108-111 | succeeds iff every process row has at least twelve fields, else IndexError |
| Ctop.RunningPairsFrom | ctop_cpu.py:108-112 | every counted pair is (field 1, field 11) of a row whose state is R and whose command is not top, and there is none iff no row qualifies |
| Ctop.RowCounts | ctop_cpu.py:108-112 | for every (user, name), the counted pairs hold it exactly as often as there are process rows with that user and name, in state R and not running top |
| Ctop.TallyRows | ctop_cpu.py:107-114 | the loop computes the tally of the counted pairs, or IndexError when a row is short |
| Ctop.TallyOfRows | ctop_cpu.py:107-114 | the tally's count for each (user, name) is the number of process rows with that user and name, in state R and not running top |
| Ctop.EntryReadsBack | ctop_cpu.py:122 | an entry is the bare name for one process, otherwise name, `*` and the count |
| Ctop.Entry | ctop_cpu.py:122 | an entry is the bare name exactly when the count is one, otherwise the name, a `*` and at least one more character |
| Ctop.NamesEntries | ctop_cpu.py:121-123 | the inner loop writes each name's entry followed by ", " |
| Ctop.Render | ctop_cpu.py:115-124 | the text is empty iff nothing was counted, otherwise it is in parentheses |
| Ctop.RenderDropsLastSeparator | ctop_cpu.py:117-124 | when the last entry does not end in a comma or space, `rstrip(', ')` removes exactly the final ", " |
| Ctop.RenderTally | ctop_cpu.py:115-124 | the formatting loop yields `Render` of the tally |
| Ctop.GetTasksNames | ctop_cpu.py:105-125 | the running count's error, IndexError for a short process row, or the rendering of the tally of the counted processes among the nhead+2.. rows |

## Left out

- MPI transport, process ranks, the blocking `recv` and timing (`time.time`, `workedtime`, the totals printed at the end) are not modelled. The elapsed time in a DONE message is dropped from `Report.Done`.
- The stdout logging of both loops is not modelled. Neither is the `initialize`/`callback` hooks' behaviour: they are foreign calls with no effect on the results.
- The task iterator is a finite sequence, and `next` is reading at the cursor.
- Messages with a tag other than the four are never sent, so the master's implicit fall-through for an unknown tag is not modelled.
- TaskPull.Taskpull: when the inbox runs out before size-1 EXIT acks, the model returns with `returned == false`. The real master would block in `recv` forever.
- A worker function that raises is not modelled, and neither are the interleavings beyond the arrival order given as the inbox.
- `findR`'s conversion with `float()` is left out (no floating point). `FindRText` models the text it converts or returns.
- `int()` is modelled for ASCII digits with an optional sign and surrounding whitespace. Digit-group underscores and non-ASCII digits are not modelled.
- Python 2 dictionaries iterate in hash order. `get_tasks_names` and the association lists here use insertion order, as Python 3.7+ does.
- The `utf8` decoding in `cut_last` is not modelled; the lines are already text.
- PyStr.Whitespace: holds the six whitespace characters of Python 2 byte strings. On decoded (unicode) text, such as the utf8 lines of `cut_last`, `split()`, `strip()` and `int()` also treat U+001C to U+001F, U+0085, U+00A0, U+2028 and the other Unicode spaces as whitespace, and the model does not.
- PyStr.ParseInt: Python 2's `int()` also skips whitespace between the sign and the digits (`int('- 5') == -5`). The model rejects such text, so Util.FindSN gives ValueError and Util.FindRun gives None for a field like `SN- 5` or `Run- 5`, where Python 2 returns -5.
- TaskPull.Enum: the keyword entries (`**named`) that `enum` merges into the attributes are not modelled. The only call passes none.
- ReadHost: the file read in `read_host` is a parameter. It holds the file's lines, or None when opening fails (the IOError branch).
- The `Ctop` class, its threads and curses display, `main`, `get_bars`, `cpu_usage_bar` and `print_help` are not modelled. They are I/O or floating point.
- `solenoidal.py` is not part of this model. Nor are util's `scan_files`, `listfile`, `read_data`, `openfile`, `calc_mc_rms`, `linear`, `pr` and the `fileBase` class, which do filesystem I/O or numerics.
- Util.SplitAll requires non-empty separators. Python raises ValueError for an empty one, and the model does not take that path.
- `getattr(f, attr)` is modelled as a key function `attr: X -> int`. Keys are integers so that `sorted` has a total order.
- `sorted(dic.iterkeys())` is modelled by the methods `Sorted`/`Insert` on a sequence of keys, proved increasing with the same members.
- The unreachable second `return` in `iter_Attr` and in `findR` is not modelled.

## Findings

| source | as written | input that shows it | evidently intended | confidence | as-written member | corrected member |
|---|---|---|---|---|---|---|
| util.py:148 | the filter tests `SN.strip('SN').isdigit()`, but the conversion is `int(SN.lstrip('SN'))`. A field with a trailing S or N passes the filter and then fails to convert | "SN12N_R3.fits": the field "SN12N" strips to "12" but lstrips to "12N", so `int` raises ValueError (Util.FindSNsTrailingLetter) | convert the same text the filter tested, giving [12] | not executed | Util.FindSNsAsWritten | Util.FindSNsMeaning |
