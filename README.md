# AnADAMA task graph, grid runners and helpers in Dafny

This project models three parts of AnADAMA, a workflow tool that runs doit tasks:

- **Task dependency graph** (`Dag.dfy`): building the graph of tasks, pruning it, and filtering task records.
  - `indexby` indexes tasks by artifact.
  - `assemble` adds an edge from each task that produces a file to each task that depends on it, plus a synthetic `root` node above every task nothing produces. Task nodes compare by identity, so a node is its position in the task list.
  - `prune` removes requested nodes.
  - `filter_tree` drops task records that a filter accepts, together with their direct successors.
- **Grid runners** (`Grid.dfy`, `GridRunner.dfy`): submitting a task to a scheduler (Slurm, LSF, SGE, or a Dummy runner that times the command locally).
  - The job ID is read from the submission's output.
  - After a failure, the backend's handler decides whether to submit again with more memory or time.
  - After the run, each job is paired with an accounting record.
  - The runner object's state is a Dafny class: the job-ID-to-task map, the Dummy counter and timings, and SGE's cached parallel environment.
- **Utility package** (`Util.dfy`): number clamping, chunking, command-line option rendering, flattening, file-type guessing, whitespace mangling, in-place dictionary edits, tab-separated readers, indexed selection and memoization.

Support modules:

- `Text.dfy`: the parts of Python 2 `str` the code relies on.
- `Patterns.dfy`: the literal-and-character-class regular expressions it searches with, including backtracking for Slurm's `launching (\d+).(\d+) on host`.
- `Sorting.dfy`: `sorted` as a stable sort.
- `Wrappers.dfy`: `Option` and `Result`.

An exception is modelled as `Crash(message)`.

The model follows the code where the description of the system says otherwise:

- **Retry count.** `_grid_execute_task` never increments `tries`; it stays 1 on every resubmission (`grid.py:57`). Memory and time are not re-clamped after a failure.
- **Statistics pairing.** `_grid_summarize` sorts the statistics by their first field, peak memory, rather than by job ID (`grid.py:102`). A task is paired with the record of its rank.
- **`filter_tree` reach.** It removes only the direct successors of an accepted record, not everything downstream (`dag.py:190-192`). A successor already popped raises KeyError.
- **`dict_to_cmd_opts_iter` and `None`.** The test `val is False or None` skips only `False`, so a `None` value is rendered as `None` (`util/__init__.py:84`).
- **`InvalidCommand`.** `find_suitable_pe` raises a name that `grid.py` never imports, so what is raised is a NameError.

## Model

| member | source | states |
|---|---|---|
| Dag.RemoveNodes | anadama/dag.py:169 | removing nodes and every edge touching them keeps a graph closed |
| Dag.FromEdges | anadama/dag.py:148-150 | the graph built from an edge list has exactly the endpoints as nodes and is closed |
| Dag.PredsSuccs | anadama/dag.py:165-190 | `predecessors` and `successors` are the two ends of the same edges, and in a closed graph they are nodes |
| Dag.NeighboursAfterRemove | anadama/dag.py:188-191 | after `remove_nodes_from(s)` a remaining node keeps the predecessors and successors outside `s` |
| Dag.GetStored | anadama/dag.py:129-132 | `get(k, [])` and the `defaultdict(list)`: a stored key reads back its list, other keys are unaffected, a missing key reads as `[]` |
| Dag.HitsMember | anadama/dag.py:128-134 | position i is listed under key k exactly when task i has k among its keys |
| Dag.HitsOrdered | anadama/dag.py:130-132 | positions under a key come in task order, without repeats when no task repeats the key |
| Dag.HitsEmpty | anadama/dag.py:128-134 | a key gets no positions exactly when no task has it |
| Dag.IndexBy | anadama/dag.py:115-134 | the index lists, under each key, the position of every task with that key (once per occurrence, in order), and has an entry only for keys some task has |
| Dag.SearchIndex | anadama/dag.py:81-84 | searching an index built by `indexby` finds exactly the tasks whose keys meet `using` |
| Dag.FeedsOfTasks | anadama/dag.py:53-62 | between nodes made by `from_doit_task`, one feeds another iff a listed target of the first is a listed file dependency of the second |
| Dag.ChildrenFound | anadama/dag.py:88-92 | searching the dependency index with a node's targets finds exactly the nodes it feeds |
| Dag.ParentsFound | anadama/dag.py:96-100 | searching the target index with a node's dependencies finds exactly the nodes that feed it |
| Dag.NodeEdgesSpec | anadama/dag.py:104-112 | one node yields its edges to consumers, edges from its producers, and an edge from root exactly when nothing produces its inputs; no edge ever enters root |
| Dag.TaskIterEdges | anadama/dag.py:103-112 | over all nodes, a task-to-task edge exists iff the first feeds the second, and a root edge iff the task is unproduced |
| Dag.AssembledReached | anadama/dag.py:148-150 | in the assembled graph every task has a predecessor, and root is a node iff some task is unproduced |
| Dag.Assemble | anadama/dag.py:137-151 | one node per task; the edges are exactly producer to consumer plus root to every unproduced task; the graph is closed; every task has an incoming edge |
| Dag.Prune | anadama/dag.py:154-171 | the result is an induced subgraph keeping every unrequested node; NetworkXError iff a requested node is missing; without it, every requested node without predecessors is removed; a sheltered requested node is kept in every pop order |
| Dag.ItemOrListStored | anadama/dag.py:74-78 | `item_or_list(field)`: a stored field reads back its list, other fields are unaffected, a missing field reads as `[]` |
| Dag.MapAll | anadama/dag.py:203 | `map(f, xs)` has one result per element, the i-th being `f` of the i-th element |
| Dag.Normalize | anadama/dag.py:197-205 | `file_dep` and `targets` become, position by position, the `abspath` images of their old lists (empty when missing); other fields and the key are unchanged |
| Dag.NormalizeIdempotent | anadama/dag.py:197-205 | normalizing twice is normalizing once when `abspath` is idempotent |
| Dag.AssembleTaskDicts | anadama/dag.py:208-215 | the graph has an edge from each record to each record whose `file_dep` meets its targets, and no other edges |
| Dag.FirstByKey | anadama/dag.py:177-185 | `set()` over records compared by hash key keeps, for each key, its first record |
| Dag.FilterTree | anadama/dag.py:174-194 | yields distinct records no filter accepts; only direct successors of accepted records are dropped, never also yielded; without KeyError every other record is yielded and no direct successor of an accepted, undropped record is yielded; a KeyError needs an accepted, undropped record whose successor is itself or was already yielded |
| Dag.FilterEnd | anadama/dag.py:186-194 | once nothing is pending, every unaccepted undropped record was yielded and no successor of an accepted undropped record was |
| Util.IntAtLeast1 | anadama/util/__init__.py:38-39 | the result is at least 1 and equals `int(n)` whenever `n >= 1` |
| Util.Trunc | anadama/util/__init__.py:39 | `int(x)` truncates toward zero |
| Util.Partition | anadama/util/__init__.py:279-281 | there are ceil(len/k) chunks, each of length exactly k; they concatenate to the input followed by fewer than k pads, so only the last chunk holds padding; no chunks when k <= 0 |
| Util.SeqOptions | anadama/util/__init__.py:88-90 | a list renders one option per element, and raises TypeError unless every element is a string |
| Util.EntryOptions | anadama/util/__init__.py:82-92 | `False` renders nothing, `True` the bare flag, `None` the text `None`, numbers via `str`, lists element by element |
| Util.DictToCmdOptsIter | anadama/util/__init__.py:65-92 | rendering succeeds iff every entry renders |
| Util.DictToCmdOptsIterAppend | anadama/util/__init__.py:82-92 | rendering two entry lists in sequence concatenates their renderings |
| Util.DictToCmdOpts | anadama/util/__init__.py:95-96 | succeeds iff the iterator does |
| Util.DictToCmdOptsAppend | anadama/util/__init__.py:95-96 | two command lines are joined by one space |
| Util.GeneratorFlatten | anadama/util/__init__.py:42-48 | the output holds no nested list, tuple or generator |
| Util.GeneratorFlattenAppend | anadama/util/__init__.py:43-48 | flattening works item by item, left to right |
| Util.GeneratorFlattenLeaves | anadama/util/__init__.py:47-48 | a sequence of leaves passes through unchanged |
| Util.GeneratorFlattenNested | anadama/util/__init__.py:44-46 | a nested list, tuple or generator is replaced, in place, by its own flattened items |
| Util.GeneratorFlattenLeaf | anadama/util/__init__.py:47-48 | any other item is passed through ahead of what follows |
| Util.GeneratorFlattenIdempotent | anadama/util/__init__.py:42-48 | flattening twice is flattening once |
| Util.Basename | anadama/util/__init__.py:52 | the last path component: a slash-free suffix preceded by a slash or the start |
| Util.MatchesDotFEndByScan | anadama/util/__init__.py:53-55 | the scanning definition decides the fastq and fasta suffix searches, with an optional `.gz` or `.bz2` ending |
| Util.NoFastqEndingA | anadama/util/__init__.py:53-54 | a name whose last character is `a` never matches the fastq pattern |
| Util.GuessSeqFiletypeBasename | anadama/util/__init__.py:51-62 | the directory part never changes the guess |
| Util.GuessSeqFiletypeFastqGz | anadama/util/__init__.py:53-54 | in any directory, a slash-free stem followed by `.fastq.gz` is fastq |
| Util.GuessSeqFiletypeNoMatch | anadama/util/__init__.py:51-62 | in any directory, a stem without `f` followed by `.txt` gives `None` |
| Util.GuessSeqFiletypeFasta | anadama/util/__init__.py:53-56 | in any directory, a stem without `q` followed by `.fna.gz` is fasta: the compression suffix is accepted and fastq cannot match |
| Util.GuessSeqFiletypeSamInFastqDir | anadama/util/__init__.py:51-62 | a stem without `f` followed by `.sam` is sam in every directory, including one named like a fastq file |
| Util.GuessSeqFiletypeLoose | anadama/util/__init__.py:53-56 | any `.f`, then characters other than a newline, then a final `a` makes the guess fasta, because a name ending in `a` never matches the fastq pattern |
| Util.Underscore | anadama/util/__init__.py:334-336 | the result has no whitespace, and whitespace-free input is unchanged |
| Util.UnderscoreChars | anadama/util/__init__.py:336 | no character other than `_` is introduced |
| Util.UnderscoreRun | anadama/util/__init__.py:336 | a whitespace run of any length becomes one `_` |
| Util.UnderscoreIsJoinOfWords | anadama/util/__init__.py:336 | on a stripped string, it equals joining the words with `_` |
| Util.Mangle | anadama/util/__init__.py:165 | a mangled header field has no whitespace and no `#` |
| Util.MangleClean | anadama/util/__init__.py:165 | a clean name survives, with or without a trailing newline |
| Util.MangleHashClean | anadama/util/__init__.py:165 | a leading `#` is dropped |
| Util.MangleHashSpace | anadama/util/__init__.py:165 | `# name` becomes `_name` |
| Util.ReadRaisesOnBad | anadama/util/__init__.py:144-158 | a reader raises only on a line it does not skip and finds bad |
| Util.ReadFirstBad | anadama/util/__init__.py:144-158 | it raises on the first such line |
| Util.ReadItems | anadama/util/__init__.py:144-158 | before raising it yields each unskipped line, converted, in order |
| Util.ReadAll | anadama/util/__init__.py:144-158 | it finishes iff no unskipped line is bad, and then yields all of them converted |
| Util.DeserializeCsv | anadama/util/__init__.py:143-158 | blank lines are skipped; a non-blank line without a tab raises at its index, after the earlier records; otherwise records are (first column, stripped rest) |
| Util.CsvLineRoundTrip | anadama/util/__init__.py:155-158 | a clean record written as a tab-separated line reads back as itself |
| Util.DeserializeCsvRoundTrip | anadama/util/__init__.py:143-158 | writing clean records one per line and reading them back gives the records |
| Util.DeserializeMapFile | anadama/util/__init__.py:161-186 | an empty file yields nothing; the samples' field names are identifiers (`namedtuple(..., rename=True)` renames the others), pairwise distinct, without whitespace or `#` |
| Util.RenameAt | anadama/util/__init__.py:172 | `rename=True`: field k keeps its name iff it is an identifier, no keyword, starts with neither a digit nor `_` and no earlier field has it; otherwise it becomes `_k` |
| Util.RenameValid | anadama/util/__init__.py:172 | the renamed fields are identifiers and pairwise distinct, so `namedtuple` accepts them |
| Util.RenameKeeps | anadama/util/__init__.py:172 | distinct valid field names are kept as they are |
| Util.MapFileSamplesWidth | anadama/util/__init__.py:172-180 | every sample has one value per header field |
| Util.MapFileSparseRow | anadama/util/__init__.py:179-186 | the reported sparse row is a non-comment row of the wrong width |
| Util.MapFileAllRows | anadama/util/__init__.py:174-180 | without a sparse row, every non-`#` row becomes a sample, in order |
| Util.HeaderLineRoundTrip | anadama/util/__init__.py:165-170 | a QIIME header line of clean names mangles back to those names |
| Util.RowLineRoundTrip | anadama/util/__init__.py:177-180 | a row of clean values reads back unchanged and is not a comment |
| Util.MapFileRoundTrip | anadama/util/__init__.py:161-186 | a map file written from distinct valid field names and clean rows reads back to those field names and rows |
| Util.MapFileHeaderOf | anadama/util/__init__.py:165-172 | a header line of distinct valid field names gives the samples exactly those fields |
| Util.PyIndex | anadama/util/__init__.py:132 | Python indexing: in range iff `-n <= i < n`, negative indices count from the end |
| Util.TakeSpec | anadama/util/__init__.py:130-133 | `take` succeeds iff every pair is in range, and then holds the element at each pair |
| Util.TakeAppend | anadama/util/__init__.py:130-133 | taking two index lists concatenates the results |
| Util.TakeEveryIndex | anadama/util/__init__.py:130-133 | taking every index row by row flattens the matrix |
| Util.KeptKeysSpec | anadama/util/__init__.py:361-364 | kept keys are the old keys that are among `keys`, with unchanged values |
| Util.KeptKeysIdempotent | anadama/util/__init__.py:361-364 | keeping the same keys twice changes nothing, and two calls commute |
| Util.RenameStep | anadama/util/__init__.py:380 | `d[to] = d.pop(frm)` moves the value and leaves every other key alone |
| Util.KeyRenamedAppend | anadama/util/__init__.py:379-380 | renaming with two lists is renaming with the first, then the second unless a key was missing |
| Util.KeyRenameRoundTrip | anadama/util/__init__.py:379-380 | renaming to a fresh key and back restores the dictionary |
| Util.KeyRenameMissing | anadama/util/__init__.py:379-380 | a missing `frm` raises KeyError at once and changes nothing |
| Util.PyDict.constructor | anadama/util/__init__.py:350-352 | a dictionary holding the given entries |
| Util.PyDict.KeepKeys | anadama/util/__init__.py:350-365 | deletes in place every key not in `keys` and returns the same dictionary |
| Util.PyDict.KeyRename | anadama/util/__init__.py:367-381 | renames in place pair by pair; KeyError iff some `frm` is missing then, leaving the earlier renames done; returns the same dictionary |
| Util.MemoCallSound | anadama/util/__init__.py:246-254 | the cache only ever holds values the function returned for those positional arguments |
| Util.MemoCallAgain | anadama/util/__init__.py:250-253 | a second call with the same positional arguments returns the cached value, whatever the keyword arguments |
| Util.MemoCallTransparent | anadama/util/__init__.py:246-254 | for a function that ignores its keyword arguments, memoization is invisible |
| Util.Memoized.constructor | anadama/util/__init__.py:246-247 | the wrapper starts with an empty cache |
| Util.Memoized.Call | anadama/util/__init__.py:250-253 | computes and caches on a miss, returns the cached value on a hit |
| Text.Strip | anadama/runner/grid.py:196 | `strip()` drops leading and trailing whitespace and nothing else |
| Text.Split | anadama/runner/grid.py:196 | `split(sep)` gives at least one piece, none containing the separator |
| Text.JoinSplit | anadama/runner/grid.py:188 | joining the pieces of `split(sep)` with `sep` gives the text back |
| Text.SplitJoin | anadama/runner/grid.py:196 | splitting separator-free pieces joined by the separator gives the pieces back |
| Text.SplitWs | anadama/runner/grid.py:319 | `split()` gives non-empty whitespace-free words |
| Text.SplitWsJoin | anadama/runner/grid.py:325 | `split()` undoes joining clean words with spaces |
| Text.IntToString | anadama/util/__init__.py:92 | `str(i)`: the decimal digits of the magnitude, which read back as it, without leading zeros, after a `-` for negatives |
| Text.ParseNatToString | anadama/runner/grid.py:219 | `int(str(n)) == n` |
| Text.StrLeTotal | anadama/runner/grid.py:101 | Python 2 string order is total |
| Text.StrLeTransitive | anadama/runner/grid.py:101 | Python 2 string order is transitive |
| Sorting.SortBySorted | anadama/runner/grid.py:101-102 | `sorted` by a total preorder gives a sorted permutation of its input |
| Sorting.SortByStable | anadama/runner/grid.py:101-102 | `sorted` is stable: the elements ranked equal to any element keep their relative order |
| Patterns.Search | anadama/runner/grid.py:143-145 | `re.search` reports a position at or after the start where the pattern matches, with its groups |
| Patterns.SearchLeftmost | anadama/runner/grid.py:143-145 | the reported position is the leftmost match: no earlier position matches, and nothing is reported only when no position matches |
| Patterns.Groups | anadama/runner/grid.py:143-145 | `.groups()` has one group per capture and agrees with `.group(n)`; AttributeError iff nothing matches |
| Patterns.GroupsOfSpelled | anadama/runner/grid.py:143-145 | text starting with the pattern spelled out yields exactly those groups |
| Patterns.GroupsAfter | anadama/runner/grid.py:266 | text in front without the pattern's first character changes no group |
| Patterns.LaunchGroup | anadama/runner/grid.py:182-183 | Slurm's job number: AttributeError iff the `launching` pattern matches nowhere, otherwise a digit run |
| Patterns.LaunchOfStep | anadama/runner/grid.py:182-183 | `launching J.S on host` gives J |
| Patterns.LaunchWithoutStep | anadama/runner/grid.py:182-183 | with no step number the regex backtracks and gives the job number minus its last two digits |
| Patterns.LaunchAfter | anadama/runner/grid.py:182-183 | `srun:` prefixes without an `l` change nothing |
| Grid.JobIdLeTotalPreorder | anadama/runner/grid.py:101 | Python 2 order on job IDs (numbers before strings) is a total preorder |
| Grid.JobIdOf | anadama/runner/grid.py:141-148 | per backend, AttributeError iff its pattern is absent from the stream it reads; Dummy gives its counter, the others a printed digit run; the ID is truthy |
| Grid.LsfJobIdOf | anadama/runner/grid.py:264-266 | `Job <d>...` gives d |
| Grid.SgeJobIdOf | anadama/runner/grid.py:372-374 | `Your job d ...` gives d |
| Grid.SlurmJobIdOf | anadama/runner/grid.py:180-183 | a `launching J.S on host` line after `srun:` lines gives J |
| Grid.DummyTimes | anadama/runner/grid.py:143-145 | four numbers of digits and dots, AttributeError iff the timing line is absent |
| Grid.DummyTimesOf | anadama/runner/grid.py:136-145 | the `/usr/bin/time` line appended to stderr gives its four numbers |
| Grid.UsedMb | anadama/runner/grid.py:218-219 | the used memory is read in megabytes; AttributeError iff the memory-limit message is absent |
| Grid.HandleGridFail | anadama/runner/grid.py:155-159 | Dummy and SGE: `Command failed` text, stop, mem and time unchanged. LSF: no exception, stop, unchanged. Slurm: `srun command failed` text; go on iff memory or time limit hit; mem and time replaced by the escalation exactly when hit; AttributeError iff memory hit without the numbers |
| Grid.SlurmGridFail | anadama/runner/grid.py:211-225 | Slurm's handler: `srun command failed` text; go on iff the memory or time limit was hit; mem and time replaced by the escalation exactly when hit; AttributeError iff memory was hit without the numbers |
| Grid.TimeHitIgnoresCase | anadama/runner/grid.py:221 | the time-limit test is a case-insensitive search for `due to time limit` |
| Grid.SlurmMemoryVerdict | anadama/runner/grid.py:216-220 | a job killed for memory only is resubmitted with the escalation of `used / 1024` and the same time |
| Grid.SlurmMemoryRetry | anadama/runner/grid.py:216-225 | the same, with Slurm's message embedded in the output |
| Grid.MemLimitOf | anadama/runner/grid.py:218 | `memory limit (u > l)` gives groups u and l |
| Grid.UsedMbOf | anadama/runner/grid.py:218-219 | the first group, as an integer divided by 1024 |
| Grid.FilterRows | anadama/runner/grid.py:195-199 | crashes iff some line raises, with the message of the first line that raises; otherwise at most one row per line, each from an accepted line |
| Grid.FilterRowsOrder | anadama/runner/grid.py:195-199 | without a raise, the rows are those of the accepted lines, one per line, in line order |
| Grid.SacctRow | anadama/runner/grid.py:196-199 | IndexError iff fewer than five fields; kept iff the last field is `COMPLETED` and the fifth field `0:0`, giving all fields but the last two |
| Grid.BjobsRow | anadama/runner/grid.py:276-281 | IndexError iff fewer than three fields; kept iff the last three are `-`, `-`, `DONE`, giving the first three fields |
| Grid.SacctRowOf | anadama/runner/grid.py:194-199 | a written `sacct` row is kept, as its first fields, iff its last field is `COMPLETED` and its fifth `0:0` |
| Grid.SacctNeverKept | anadama/runner/grid.py:191-199 | as written, no row of the five requested columns is ever kept |
| Grid.SacctRowIntended | anadama/runner/grid.py:196-199 | the intended test: IndexError iff fewer than four fields; kept iff the last field is `COMPLETED` and the exit code (fourth field) `0:0` |
| Grid.SacctRowIntendedOf | anadama/runner/grid.py:191-199 | with the intended test, a row is kept iff the job completed with exit code `0:0`, giving memory, CPU time and elapsed time |
| Grid.BjobsRowOf | anadama/runner/grid.py:275-281 | a written `bjobs` row is kept, as its first three fields, iff it ends `-`, `-`, `DONE` |
| Grid.FirstSuitable | anadama/runner/grid.py:318-326 | the first name whose configuration has an `allocation_rule $pe_slots` line, or none iff no name has one |
| Text.SplitWsTwo | anadama/runner/grid.py:324-325 | two words any whitespace apart split into exactly those two words |
| Grid.PeSuitableOf | anadama/runner/grid.py:324-325 | a configuration with the rule on a line, words any whitespace apart, is suitable |
| Grid.MemPerSlot | anadama/runner/grid.py:342-351 | memory per slot is at least 1 and the floor of mem/threads when that is at least 1 |
| Grid.FirstRequest | anadama/runner/grid.py:58 | each of mem, time and threads is `intatleast1` of its prediction: its integer part, or 1 when the prediction is below 1 |
| Grid.Retry | anadama/runner/grid.py:60-73 | at most one request per reply, the first request first |
| Grid.RetryChain | anadama/runner/grid.py:60-73 | a resubmission follows exactly a failure the handler keeps going on, with its mem and time unclamped |
| Grid.RetryThreads | anadama/runner/grid.py:58-67 | every submission asks for the first request's threads |
| Grid.RetryEnding | anadama/runner/grid.py:60-73 | the loop stops at the first success, or at a failure whose handler raises or says stop |
| Grid.OnlySlurmRetries | anadama/runner/grid.py:155-159 | no backend but Slurm ever submits twice |
| Grid.Outcome | anadama/runner/grid.py:56-74 | success gives no exception and the job ID (if it was found); giving up gives the handler's exception and no ID; handler errors propagate |
| Grid.OutcomeFirstSuccess | anadama/runner/grid.py:68-73 | a first submission that succeeds gives its job ID and no exception |
| Grid.OutcomeCommandFailed | anadama/runner/grid.py:396-400 | a failed first submission on Dummy or SGE ends with the `Command failed` text and no ID |
| Grid.OutcomeLsfSilent | anadama/runner/grid.py:291-293 | LSF never reports an exception |
| Grid.OutcomeSlurmGivesUp | anadama/runner/grid.py:210-225 | Slurm gives up with its message on a failure that hit neither limit |
| Grid.DummyJobstats | anadama/runner/grid.py:151-152 | the recorded timing of each ID in order; KeyError iff some ID has none |
| Grid.ChoosePe | anadama/runner/grid.py:309-336 | NameError when `qconf -spl` printed nothing or no listed environment is suitable; otherwise the first suitable name, never empty |
| Grid.PeCached | anadama/runner/grid.py:305-336 | after a successful lookup, every later lookup gives the same name from the cache, whatever `qconf` prints |
| Grid.PeAfterStable | anadama/runner/grid.py:305-336 | looking up again after a task's lookups changes no cache, and fails only if the first lookup failed |
| Grid.SomesWrap | anadama/runner/grid.py:101 | `filter(bool, ...)` keeps every entry |
| Grid.SomesPad | anadama/runner/grid.py:101 | `filter(bool, ...)` drops all padding |
| Grid.Zip | anadama/runner/grid.py:101-103 | `zip` has as many pairs as the shorter side |
| Grid.SummarizeChunk | anadama/runner/grid.py:101-104 | an all-padding chunk raises on unpacking |
| Grid.ChunkPairs | anadama/runner/grid.py:101-104 | tasks are sorted by job ID, statistics by peak memory; pair i is the i-th task and i-th statistic, as many as the shorter side |
| Grid.SummarizeChunks | anadama/runner/grid.py:100-104 | succeeds iff no chunk is all padding |
| Grid.PartitionHeads | anadama/runner/grid.py:100 | every chunk starts with an input element |
| Grid.SummarizeOk | anadama/runner/grid.py:99-104 | summarizing never hits the unpacking error |
| Grid.SummarizeCount | anadama/runner/grid.py:99-104 | with a record for every job, there is one pair per map entry |
| Runner.GridRunner.constructor | anadama/runner/grid.py:127-130 | empty job map, counter at 1, empty timings, no cached environment |
| Runner.GridRunner.FindJobId | anadama/runner/grid.py:141-148 | the job ID of `JobIdOf`; the Dummy counter advances even when the search raises; the timing is recorded under the ID when found |
| Runner.GridRunner.GridExecuteTask | anadama/runner/grid.py:56-74 | on SGE a failed environment lookup raises before any submission, leaving the counter and timings; otherwise the loop returns `Outcome`, the Dummy counter and timings move on only after a success; `_pe_name` ends as the lookup cached it; the map is untouched |
| Runner.GridRunner.Attempt | anadama/runner/grid.py:68-73 | a failed submission gets the handler's verdict; a successful one the job ID of `_find_job_id` (or its error) with the loop stopping and mem and time unchanged |
| Runner.GridRunner.LookUpPe | anadama/runner/grid.py:339-341 | only SGE looks up its environment before a submission; it raises iff the lookup from the starting cache fails, and leaves the cache as `find_suitable_pe` does |
| Runner.GridRunner.ExecuteTask | anadama/runner/grid.py:35-45 | a task without actions changes nothing; otherwise it raises what the SGE lookup raised, or returns the outcome's exception and records the job ID in the map when there is one; the counter, timings and `_pe_name` are those `_grid_execute_task` leaves |
| Runner.GridRunner.DummyJobstatsComplete | anadama/runner/grid.py:151-152 | on Dummy, every job in the map has a recorded timing, so `_jobstats` never raises KeyError |
| Runner.GridRunner.FindSuitablePe | anadama/runner/grid.py:305-336 | a cached truthy name is returned as is; otherwise the `ChoosePe` result, cached on success |
| Runner.FirstSuitablePe | anadama/runner/grid.py:318-326 | the outer loop finds `FirstSuitable` |
| Runner.HasPeSlotsLine | anadama/runner/grid.py:324-326 | the inner loop finds a rule line iff the configuration is suitable |
| Runner.FirstSuitableAt | anadama/runner/grid.py:319-326 | the first suitable name comes right after the unsuitable ones |

## Left out

- External effects are inputs to the model:
  - Subprocesses (`srun`, `bsub`, `qsub`, `qconf`, `sacct`, `bjobs`, `qacct`), temporary files and `/usr/bin/time`. What each submission printed is the `replies` script.
  - `qconf`'s outputs are the `names` text and the `config` function.
  - `os.path.abspath` is a function parameter.
- The loop has no way to submit again once the script of replies runs out: the model stops it with `ScriptEnded`. The program itself would keep submitting.
- Float arithmetic is left as parameters:
  - Slurm's memory escalation `1.3 ** tries` and its time escalation with `sigmoid` are the two functions of `Grid.Escalation`.
  - `Grid.DummyTimes`, `Grid.JobIdOf`, `Runner.GridRunner.FindJobId`: the timing numbers stay text; `float` conversion, its ValueError on malformed numbers such as `1.2.3`, and the divisions by 1024 and 3600 are not modelled, so a Dummy job ID is found where the program would raise that ValueError.
  - `Grid.MemPerSlot`: uses exact division, not double-precision rounding.
- The statistics parsers after the row filters (`sacct` times `h:m:s`, `bjobs` unit multipliers, `qacct` key-value lines and their ValueErrors) are not modelled; the summary takes `_jobstats` as a function.
- `_grid_communicate` is not modelled, apart from SGE's `find_suitable_pe` call before each submission (`Runner.GridRunner.LookUpPe`): the command lines, `_grid_popen` output capture, and waiting for targets are left out.
- `Dag.Normalize`, `Dag.FilterTree`: `_normalize` overwrites `file_dep` and `targets` in the caller's own dictionaries, which the caller sees after `filter_tree`; the model returns new records and leaves its input unchanged.
- The performance predictor and the reporter are not modelled; the prediction is simply the `perf` input.
- `finish` is not modelled: it calls only the predictor.
- The base class `MThreadRunner` and its threads are not modelled.
- Dictionary and set iteration order is an input:
  - `id_task_map` entries are a sequence;
  - `prune` and `filter_tree` pop in an arbitrary order, chosen nondeterministically.
- Generators are modelled as whole sequences.
  - The tab-separated readers (`Util.DeserializeCsv`, `Util.DeserializeMapFile`) and `Dag.FilterTree` return the items yielded before an error, with the error.
  - `Util.DictToCmdOptsIter`, `Grid.FilterRows` and `Grid.SummarizeChunks` return only the error, not the items yielded before it.
- `Dag.Prune`: states facts true in every pop order. The exact result for one order is not stated.
- `dict_to_cmd_opts_iter` with non-default separators (the tuple-yielding `None` separator forms) is not modelled; all callers use the defaults.
- Regular expressions are modelled only for the fixed patterns the core uses, not as a general engine.
- `Util.IdentChar` treats only ASCII letters and digits as `isalnum`, as Python 2 does for byte strings in the C locale.
- `Text` has no Unicode case folding beyond ASCII, which suffices for `re.IGNORECASE` on the ASCII text `due to time limit`.

## Findings

| source | as written | input that shows it | evidently intended | confidence | as-written member | corrected member |
|---|---|---|---|---|---|---|
| anadama/runner/grid.py:196-197 | `fields[4] != "0:0"` tests the fifth of the columns `MaxRSS,TotalCPU,Elapsed,ExitCode,State` requested at line 191, which is `State` | the row `1024K\|01:00\|02:00\|0:0\|COMPLETED` of a job that finished cleanly is skipped, as is every five-field row, because its fifth field `COMPLETED` cannot also be `0:0` | `fields[3] != "0:0"`, the `ExitCode` column, so that completed jobs with exit code `0:0` are kept | high; not executed | Grid.SacctNeverKept | Grid.SacctRowIntendedOf |
