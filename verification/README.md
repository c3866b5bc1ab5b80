# Treeshop `process` core, modelled in Dafny

Treeshop is a Fabric script (`fabfile.py`) that drives an RNA-seq pipeline on a
pool of Docker machines. Every machine runs the same `process` command over
the same tab-separated manifest. Each machine keeps every `len(hosts)`-th row,
starting at its own position in the host list. For each row it:

- decides whether to process the sample;
- logs what is wrong with the row;
- resets the worker and uploads the two input files under normalised names;
- creates the local results directory and runs the selected pipelines;
- fetches the outputs and writes a `methods.json` record.

The worker addresses come from the URL listing of `docker-machine ls`, taken
apart with the regular expression `[0-9]+(?:\.[0-9]+){3}`.

The model has five modules:

- `Wrappers`: `Option` and `Result`.
- `Text`: the Python string operations the script uses.
  - `str.split` on one character, with its inverse `Join`.
  - `str.strip`, using Python 2's whitespace set.
  - `str.replace`.
  - `os.path.basename`.
- `Sharding`: `itertools.islice(rows, start, stop, step)` and the shard of a
  host. It proves that the shards of all hosts partition the first `stop`
  rows and differ in size by at most one.
- `Process`: one manifest row as an ordered list of effects. The effects are
  log entries, the worker reset, uploads, the results directory, pipeline
  runs, the download and the record.
  - Local and remote file-existence queries are function parameters.
  - Results directories that already exist locally are a set threaded
    through the loop. A processed sample adds its results directory to it.
  - The module also holds the `check` command.
- `MachineAddresses`: `re.findall` with the dotted-quad pattern.
  - A scan function `FindSpans` is generic over the matcher at each position.
  - The matcher itself is proved to return the longest dotted quad at a
    position, which is what Python's greedy backtracking yields for this
    pattern.
  - The addresses found in a listing of `tcp://A:P` lines are proved to be
    exactly the listed `A`s, in order.

The model follows what the code does:

- the manifest is used in file order, duplicates included;
- a row's inputs are its `File Path` column;
- an empty manifest processes nothing and is not an error;
- an empty host list fails because the host is not listed.

## Model

| member | source | states |
|---|---|---|
| Sharding.IndexOf | fabfile.py:165 | `hosts.index(host)`: `None` exactly when the host is absent; otherwise the first position holding it |
| Sharding.HostShard | fabfile.py:163-166 | fails with `HostNotListed` exactly when the host is not in the list, and with `NegativeLimit` exactly when it is listed and the limit is negative; otherwise element `i` of the shard is row `index + i * len(hosts)`, and the shard has one row per stride position below the stop, which is `stop / len(hosts)` rows plus one when `index < stop % len(hosts)` |
| Sharding.Islice | fabfile.py:164-166 | `islice` yields one row per stride position below `min(limit, len(rows))` |
| Sharding.IsliceVisitsPositions | fabfile.py:164-166 | `islice` returns the rows at positions `start, start+step, ...` below `min(limit, len(rows))`, in order |
| Sharding.IsliceStride | fabfile.py:164-166 | element `i` of the slice is row `start + i*step`, and that row exists |
| Sharding.PositionsAreStrided | fabfile.py:164-166 | the `i`-th visited position is `start + i*step`, and the positions run up to the stop |
| Sharding.PositionsMembership | fabfile.py:164-166 | a position is visited iff it lies in `[start, stop)` and is congruent to `start` modulo the step |
| Sharding.PositionOwner | fabfile.py:164-166 | with start `k < n` and step `n`, row `p` is visited iff `p < stop` and `p % n == k` |
| Sharding.ShardsDisjoint | fabfile.py:164-166 | two different hosts never receive the same row |
| Sharding.ShardsCover | fabfile.py:164-166 | every row below the stop belongs to the shard of host `p % n` |
| Sharding.LimitIsGlobalStop | fabfile.py:166 | the limit bounds row positions, not the number of rows a host takes: every visited position is below both `len(rows)` and the limit |
| Sharding.NoLimitAssignsEveryRow | fabfile.py:166 | without a limit every row of the manifest is assigned |
| Sharding.PositionsCount | fabfile.py:164-166 | host `k` of `n` visits `stop / n` positions, plus one when `k < stop % n` |
| Sharding.ShardsBalanced | fabfile.py:164-166 | shard sizes of any two hosts differ by at most one |
| Sharding.ShardExtend | fabfile.py:164-166 | raising the stop by one appends row `m` to exactly the shard of host `m % n` |
| Sharding.ShardsPartitionRows | fabfile.py:164-166 | the multiset union of all hosts' shards is exactly the multiset of the first `stop` rows |
| Text.Split | fabfile.py:168 | `split(",")` yields one more piece than there are separators, and no piece contains the separator |
| Text.JoinSplit | fabfile.py:168 | joining the pieces of a split with the separator gives back the string |
| Text.SplitJoin | fabfile.py:168 | splitting a join of separator-free pieces gives back the pieces |
| Text.StripLeft | fabfile.py:168 | removes exactly the leading whitespace: the result is a suffix, the removed prefix is all whitespace, and the result does not start with whitespace |
| Text.StripRight | fabfile.py:168 | removes exactly the trailing whitespace, symmetrically |
| Text.Strip | fabfile.py:168 | the stripped string neither starts nor ends with whitespace |
| Text.StripEmpty | fabfile.py:168 | `strip()` gives the empty string iff the input is all whitespace |
| Text.StripDecomposition | fabfile.py:168 | whitespace, then a string with non-space ends, then whitespace, strips to that middle string |
| Text.StripIdempotent | fabfile.py:168 | stripping twice is stripping once |
| Text.Replace | fabfile.py:205 | `str.replace` with a pattern and a replacement of the same length keeps the length of the string |
| Text.ReplaceFirstChar | fabfile.py:205 | `replace("a" + t, "b" + t)`, where `a` does not occur in `t`, keeps the length and changes exactly the first character of every occurrence |
| Text.ReplaceAbsent | fabfile.py:205 | `replace` leaves a string without occurrences unchanged |
| Text.Basename | fabfile.py:202-205 | `os.path.basename` is the longest suffix without `/`, preceded by `/` when shorter than the path |
| Process.SampleFiles | fabfile.py:168 | the sample's files are the stripped comma-separated pieces of `File Path`, one more than its commas, none containing a comma |
| Process.SampleFilesRoundTrip | fabfile.py:168 | a `File Path` written as comma-joined file names with whitespace padding parses back to exactly those names |
| Process.UploadName | fabfile.py:204-205 | the normalised upload name has the length of the basename |
| Process.UploadNameSpec | fabfile.py:204-205 | the chained `replace("r1.", "R1.").replace("r2.", "R2.")` capitalises the `r` of every `r1.` and `r2.` occurrence and changes nothing else |
| Process.SecondMarkerUnchanged | fabfile.py:205 | the first replacement neither creates nor destroys an `r2.` occurrence |
| Process.UploadNameNoMarkers | fabfile.py:204-205 | no lower-case read marker is left in an upload name |
| Process.UploadNameIdempotent | fabfile.py:204-205 | normalising an upload name twice is normalising it once |
| Process.MissingInputLog | fabfile.py:176-179 | exactly the missing files are logged as missing, for this sample, with no more entries than files |
| Process.MissingInputLogAppend | fabfile.py:176-179 | the log over `a + b` is the log over `a` followed by the log over `b`: file order, one entry per listed missing file, repeats included |
| Process.MissingInputLogSnoc | fabfile.py:176-179 | each iteration appends one entry exactly when its file is missing |
| Process.Uploads | fabfile.py:198-205 | every effect is a log entry for a missing listed file or the upload of an existing listed file, to `samples/` under its normalised basename, made only when `samples/<basename>` is neither on the worker before the loop nor in the given set `written` of paths already put; every missing file is logged. That an earlier file of the same row counts too is `UploadsOnlyFresh` |
| Process.UploadsOnlyFresh | fabfile.py:198-205 | each upload is of a file whose `samples/<basename>` is neither in `written` nor among the targets put by the earlier iterations of the loop, so from the top-level call an upload never repeats the plain path of an earlier upload of the row |
| Process.UploadsComplete | fabfile.py:198-205 | an existing file whose `samples/<basename>` is absent before the loop is uploaded, unless an earlier file of the row was already put at exactly that path |
| Process.UploadsAppend | fabfile.py:198-205 | the copy loop over `a + b` is the loop over `a` followed by the loop over `b`, which sees the targets the first part put on the worker |
| Process.UploadsSnoc | fabfile.py:198-205 | each iteration logs a missing file, uploads an existing one whose plain basename is neither on the worker beforehand nor among the targets put so far, and otherwise does nothing |
| Process.TargetsAppend | fabfile.py:204-205 | the targets put by two consecutive parts of the loop are the union of the targets of each part |
| Process.RepeatedPlainFileUploadedOnce | fabfile.py:202-205 | a file listed twice whose basename holds no `r1.` or `r2.` is uploaded once: the second existence test sees the first copy |
| Process.RepeatedMarkedFileUploadedTwice | fabfile.py:202-205 | a file listed twice whose basename holds `r1.` or `r2.` is uploaded twice, because the existence test looks for the name before normalisation |
| Process.Message | fabfile.py:172-200 | each error line starts with the directory or file concerned, or with a fixed phrase and the sample id; "already exists" and "does not exist" lines end with that phrase, and an "Unable to find file" line ends with the file |
| Process.MessageNamesEntry | fabfile.py:172-200 | a log line determines the directory it reports, and, for a given sample, the missing or unreadable file it reports; an "already exists" line never equals a "does not exist" line |
| Process.Selected | fabfile.py:213-218 | the expression pipeline runs iff `expression == "True"`, the fusion pipeline iff `fusions == "True"`, expression first |
| Process.ProcessSample | fabfile.py:167-225 | a row is skipped iff its results directory exists; it is processed iff that directory is new and `File Path` names exactly two files; the missing log, uploads, pipelines and record follow from the row, options and environment |
| Process.Effects | fabfile.py:171-225 | a pass over a row has at least one effect; it resets the worker exactly when the directory check did not skip the row; a processed row ends by writing its record |
| Process.EffectsOrder | fabfile.py:171-225 | in a processed row the reset comes before every upload, every upload before the results directory is created, the directory before every pipeline run, and every run before the outputs are fetched |
| Process.EffectPositions | fabfile.py:171-225 | where each kind of effect of a processed row sits: the reset right after the missing-input entries, the uploads after it, then the directory, the runs, and the fetch second to last |
| Process.EffectsShape | fabfile.py:171-225 | only a processed run creates a directory, and only its own; a run that is not processed only logs and resets; every missing-input entry comes from the first existence check |
| Process.AdmissionRule | fabfile.py:171-211 | the results directory is created iff it did not exist and the row names exactly two files; otherwise nothing is created, uploaded, run or recorded |
| Process.RunAdmission | fabfile.py:194-211 | for any well-formed run, the run creates its directory iff it is processed, and a run that is not processed is inert |
| Process.SkipExisting | fabfile.py:171-173 | a row whose results directory exists yields exactly one "already exists" log entry and nothing else |
| Process.MissingFilesOnlyLog | fabfile.py:176-179 | which input files exist does not change whether the sample is processed, and every missing input of a row past the directory check is logged |
| Process.ProcessedOrder | fabfile.py:207-225 | in a processed sample the directory is created after the uploads, the selected pipelines run right after it, the record is written last, and it lists the parsed inputs |
| Process.RecordedPipelines | fabfile.py:213-218 | the recorded pipelines are the expression image iff `expression == "True"` and the fusion image iff `fusions == "True"`, each at most once and nothing else, expression first |
| Process.SelectedImages | fabfile.py:121-127 | the images of the selected pipelines are the two image names the pipeline functions return, chosen by the options |
| Process.MadeMembers | fabfile.py:210-211 | the list of created directories holds exactly the directories of the `mkdir` effects |
| Process.MadeBySample | fabfile.py:210-211 | one row creates its results directory once when processed, and nothing otherwise |
| Process.ProcessShard | fabfile.py:164-225 | after a pass, the existing directories are the earlier ones plus those the pass created |
| Process.ProcessShardAppend | fabfile.py:167-225 | the pass over `a + b` is the pass over `a` followed by the pass over `b`, which starts from the directories that exist after `a` |
| Process.ProcessShardSnoc | fabfile.py:167-225 | each iteration runs `ProcessSample` on its row with the directories that exist at that point, appends that row's effects, and adds the row's results directory when it was processed |
| Process.ShardMadeFromRows | fabfile.py:167-211 | every directory a pass creates is the results directory of one of its rows |
| Process.ShardProcessesNewRows | fabfile.py:167-211 | every row whose results directory did not exist before the pass and that names exactly two files has its directory created during the pass |
| Process.NoResultsDirCreatedTwice | fabfile.py:171-211 | within one pass the created results directories are pairwise distinct and none existed before, so a repeated sample id is skipped |
| Process.ProcessHost | fabfile.py:163-166 | the `process` command on one host fails exactly when its shard cannot be taken; on success the directories that exist afterwards are the earlier ones plus those it created |
| Process.HostProcessesOwnRows | fabfile.py:163-211 | on one host, every directory created is the results directory of a manifest row the host owns (position below the stop and equal to the host's index modulo the number of hosts), and every owned row whose directory did not exist and that names exactly two files has its directory created |
| Sharding.ShardRowOwned | fabfile.py:163-166 | each row of a host's shard sits at a manifest position the host owns |
| Sharding.OwnedRowInShard | fabfile.py:163-166 | every manifest position a host owns is in its shard |
| Process.CheckRow | fabfile.py:231-241 | `check` reports one line per parsed file, in order, and reports it absent iff it is not a file |
| Process.CheckManifest | fabfile.py:231-241 | `check` prints one line per file listed in the manifest; every listed file gets its present or absent line, and every line is the line of a listed file of some row |
| Process.CheckManifestAppend | fabfile.py:231-241 | the report for `a + b` is the report for `a` followed by the report for `b`: manifest order, repeated rows reported again |
| Process.CheckManifestSnoc | fabfile.py:231-241 | each iteration of the outer loop appends that row's report, whose lines follow the row's files in order |
| Process.CheckRowLines | fabfile.py:236-241 | the lines of one row are exactly the lines of its files |
| Process.CheckRowAbsent | fabfile.py:236-239 | a file is reported absent for a row iff it is one of the row's files and does not exist |
| Process.CheckAgreesWithProcess | fabfile.py:228-241 | for a row whose results directory is new, `check` reports a file absent iff `process` logs it as missing |
| Process.MissingInEffects | fabfile.py:176-179 | the missing-input entries among a run's effects are exactly those of its first existence check |
| MachineAddresses.RunEnd | fabfile.py:31 | the end of the maximal digit run at a position: digits up to it, and a non-digit or the end of the text there |
| MachineAddresses.ScanSound | fabfile.py:31 | what the group scanner accepts is `g + 1` digit runs joined by dots |
| MachineAddresses.ScanChars | fabfile.py:31 | the group scanner only passes over digits and dots |
| MachineAddresses.ScanGreatest | fabfile.py:31 | any `g + 1` dot-joined digit runs starting at a position end at or before where the scanner stops |
| MachineAddresses.MatchAt | fabfile.py:31 | a match of the pattern at a position is non-empty and ends within the text |
| MachineAddresses.MatchIsQuad | fabfile.py:31 | a match of the pattern is a dotted quad |
| MachineAddresses.MatchLongest | fabfile.py:31 | the pattern matches wherever a dotted quad starts, and its match is the longest such quad |
| MachineAddresses.NonDigitNoMatch | fabfile.py:31 | no match starts at a non-digit |
| MachineAddresses.MatchStops | fabfile.py:31 | a match never runs past a character that is neither a digit nor a dot |
| MachineAddresses.MatchDots | fabfile.py:31 | with fewer than three dots left, no match starts |
| MachineAddresses.FindSpans | fabfile.py:31 | the `findall` scan from a position reports non-empty spans that start at or after it and end within the text |
| MachineAddresses.FindSpansMatches | fabfile.py:31 | every span `findall` reports is a match at its start |
| MachineAddresses.FindSpansOrdered | fabfile.py:31 | reported spans are in text order and do not overlap |
| MachineAddresses.FindSpansLeftmost | fabfile.py:31 | every position from the start on where the pattern matches lies inside some reported span |
| MachineAddresses.FindSpansSkip | fabfile.py:31 | positions with no match contribute nothing |
| MachineAddresses.FindAll | fabfile.py:31 | every host found is a dotted quad |
| MachineAddresses.TextsAreQuads | fabfile.py:31 | the texts of reported matches are dotted quads |
| MachineAddresses.FewDotsNoAddress | fabfile.py:31 | a text with fewer than three dots yields no host |
| MachineAddresses.UrlParts | fabfile.py:31-33 | a `tcp://A:P` URL in the text has its scheme, address, colon and port at the expected offsets |
| MachineAddresses.LineMatches | fabfile.py:31-33 | along one URL line there is no match in the scheme, the address matches whole, and there is no match in the port |
| MachineAddresses.PatternVerdicts | fabfile.py:31-33 | those verdicts hold on every line of a listing |
| MachineAddresses.ListingFound | fabfile.py:31-33 | for any matcher giving those verdicts, `findall` over a listing yields the listed addresses in order |
| MachineAddresses.ListedAddresses | fabfile.py:31-33 | the hosts found in a `docker-machine ls` URL listing of valid endpoints are exactly their addresses, in listing order |

## Left out

- Remote and local shell commands are modelled only as effects. This covers `run`, `sudo`, `local`, `put`, `get`, `cd` and `warn_only`. The model assumes every command succeeds. In the source, a failing `run`, `local`, `put` or `get` aborts the host's remaining shard, for example at `make expression` (fabfile.py:120), `put` (204), `mkdir -p` (211), `get` (220) or `git describe` (186). Only `reset_machine` runs under `warn_only` (144). The captured `git describe` output is the parameter `Env.revision`.
- The internals of `reset_machine` (fabfile.py:142-148) are not modelled. It is one `ResetMachine` effect.
- Process.ProcessShard: the only local paths a pass creates in the model are the results directories, tracked exactly as the strings `outputs/<id>`. The source's file system gains more, and a later row's `os.path.exists` (fabfile.py:171) sees it. `mkdir -p` (211) also creates the missing parent directories. It also creates the outputs directory itself for the ids `""`, `.` and `..`, which name that directory or its parent. Its argument is unquoted, so an id holding whitespace creates other paths than `outputs/<id>`. `log_error` (156-159) creates `errors.txt` in the outputs directory. The model therefore assumes sample ids are not empty, `.` or `..`, contain no `/` or whitespace, and differ from `errors.txt`.
- Process.ProcessSample: `Env.isFile` is one function for the whole pass. The pass itself adds local files that a later row's `os.path.isfile` (177, 199) could see: the downloaded outputs (220), `methods.json` (224-225) and `errors.txt` (156-159). The model assumes no input path lies under the outputs directory.
- Process.ProcessSample: the worker's state is `Env.remoteExists`, the same for every row. This assumes that every `reset_machine` (141-148), which runs under `warn_only`, succeeds and leaves `samples/` in the same state before each row's uploads.
- The VM lifecycle commands are not part of this model: `up`, `down`, `configure`, `push`, `top`, `download`, `verify` and the others. They only run shell commands.
- `variants()` (fabfile.py:130-139) is not modelled. `process` never calls it, and its `variants` option is ignored.
- Reading the manifest as tab-separated values is not modelled. A row is the pair of its `Submitter Sample ID` and `File Path` columns.
- The `int(limit)` conversion and its failure on a non-numeric string are left out. The limit is `Option<int>`. `None` stands for an empty or missing argument.
- Parallel execution across hosts (`@parallel`) and the shared local file system are not modelled, so neither are races between hosts on the error log or results directories. Each host is modelled independently, given the set of directories that exist when it starts.
- Timestamps, `os.environ["USER"]` and the `git describe` revision are parameters. The `start` and `end` fields of `methods.json` are left out, and so is JSON rendering.
- The text of log messages is modelled by `Process.Message`. Python 2's `repr` of the file list in the "Expected 2 samples files" message is approximated by quoting each item, without escaping.
- `print` output of `process` is left out. Only the error log is modelled, because it is the only persistent trace.
- `env.hostnames` and `env.key_filename` (fabfile.py:29-30 and 34) are left out. They only configure SSH.
- MachineAddresses.FindAll: `re.findall` is modelled for this one pattern only, not as a general regular-expression engine.
- Characters are Unicode code points. Python 2 byte strings are not distinguished from them.
