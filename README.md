# multiple_downloader, modelled in Dafny

`multiple_downloader` downloads a list of CTX or HiRISE images by running one
download script per image id, at most five at a time. Its `main` selects the
script from the image type, resolves the list file, reads and cleans the
image ids, and then runs a bounded process pool: a first loop forks children
until five are running or the list is exhausted, and a second loop waits for
any child, counts a tracked one as completed and forks its replacement while
ids are left. It returns 0 when every id has completed and 1 on any error,
including a failed `fork`.

The model keeps that logic and replaces the operating system with inputs:

- `wrappers.dfy` (`Wrappers`): `Option` and `Result`.
- `setup.dfy` (`Setup`): the image-type to script mapping, list-path
  absolutisation, and the pre-run checks in `main`'s order (`Prepare`).
- `image_list.dfy` (`ImageList`): whitespace removal in the C locale, done in
  place on a buffer as `remove_if` + `erase` does it (`RemoveSpaces`). Also the
  `getline` loop that keeps the non-empty ids in order (`ReadIds`), and its
  specification `CleanIds` with lemmas.
- `pool_machine.dfy` (`PoolMachine`): the dispatcher as a small-step state
  machine over `next_image_index`, `completed_count` and `running_processes`.
  Each step consumes one answer of the operating system: the pid `fork`
  returns, or the pid `wait` returns. The invariants and the pool properties
  are proved here.
- `dispatcher.dfy` (`Dispatcher`): the two dispatch loops as written, on
  local variables, proved to end in exactly the state the machine reaches on
  the same answers.
- `downloader.dfy` (`Downloader`): `main` from the image type to the exit code.

The operating system is modelled as a sequence of answers, read in the order
the program asks for them. An answer in a fork position is the pid returned
to the parent; a positive pid is a launch, anything else a failure. An answer
in a wait position is the pid `wait` returned. The guarantee that a new pid is
not a live child is the `PlausibleTrace` precondition of the invariant
lemmas; the functions themselves do what the source does whatever the
answers are. The state also keeps two logs so that "exactly once" and "in
order" can be stated. `started` lists the launched items, one per "Started
downloading" line. `reaped` lists the item of each tracked completion, which
is the `completed_index` the source reads at line 180 and then discards.

The concurrency limit is the constant `NUM_PROCESS` = 5. The running map holds
item indices. A replacement is forked only after a tracked completion, never
after an ignored wait result.

## Model

| member | source | states |
|---|---|---|
| Setup.ScriptFor | multiple_downloader.cpp:72-83 | a script is chosen iff the type is `ctx`, `hirise_edr` or `hirise_rdr`, and it is `curr_dir + "/code/download_<type>.s"` |
| Setup.ScriptsDistinct | multiple_downloader.cpp:73-78 | the three accepted types have three different scripts |
| Setup.ListPath | multiple_downloader.cpp:93-98 | the path is returned unchanged iff it starts with `/`; the result always ends with the argument, and is absolute when the working directory is |
| Setup.ListPathIdempotent | multiple_downloader.cpp:93-98 | resolving a resolved path again changes nothing |
| Setup.Prepare | multiple_downloader.cpp:72-121 | an invalid type is rejected first; a valid type with only blank lines is rejected for having no ids; otherwise the plan holds the script, the resolved list file and the non-empty cleaned ids |
| ImageList.StripNoSpace | multiple_downloader.cpp:110 | a stripped line contains no whitespace character and is no longer than the line |
| ImageList.StripConcat | multiple_downloader.cpp:110 | stripping keeps the order of the kept characters: it distributes over concatenation |
| ImageList.StripFixed | multiple_downloader.cpp:110 | a line is unchanged by stripping iff it contains no whitespace |
| ImageList.StripIdempotent | multiple_downloader.cpp:110 | stripping twice is stripping once |
| ImageList.RemoveSpaces | multiple_downloader.cpp:110 | the in-place `remove_if`/`erase` leaves exactly the stripped line at the front of the buffer |
| ImageList.CleanIdsWellFormed | multiple_downloader.cpp:108-114 | every id is non-empty and free of whitespace, at most one per line |
| ImageList.CleanIdsConcat | multiple_downloader.cpp:108-114 | the ids of two consecutive parts of the file follow each other in order |
| ImageList.CleanIdsEmpty | multiple_downloader.cpp:108-121 | the list yields no id iff every line is blank |
| ImageList.CleanIdsOrigin | multiple_downloader.cpp:108-114 | each id is its source line stripped, the source lines are strictly increasing, and every skipped line is blank |
| ImageList.ReadIds | multiple_downloader.cpp:108-114 | the `getline` loop produces exactly the cleaned ids |
| PoolMachine.ExitCode | multiple_downloader.cpp:166-216 | an exit code exists iff the run has ended; it is 0 iff every download completed and 1 iff a fork failed |
| PoolMachine.StartInv | multiple_downloader.cpp:137-146 | the initial bookkeeping is valid; the first loop runs iff the list is non-empty |
| PoolMachine.LaunchValid | multiple_downloader.cpp:159-165 | launching item `next_image_index` under a new pid keeps the bookkeeping valid and grows the pool by one |
| PoolMachine.ReapValid | multiple_downloader.cpp:178-183 | erasing a tracked pid keeps the bookkeeping valid and shrinks the pool by one |
| PoolMachine.StepInv | multiple_downloader.cpp:145-213 | every plausible answer keeps the invariant, including the loop condition of each phase |
| PoolMachine.RunInv | multiple_downloader.cpp:137-213 | the invariant holds after every plausible trace from the start |
| PoolMachine.FillPhase | multiple_downloader.cpp:145-171 | the first loop launches items 0..k-1 in order under the pids fork returned, completes nothing, and stops after exactly min(5, N) launches |
| PoolMachine.IgnoredWait | multiple_downloader.cpp:176-179 | a wait result that is not positive or not tracked can be removed from the trace without changing the outcome |
| PoolMachine.TrackedWait | multiple_downloader.cpp:178-186 | a tracked completion erases exactly that pid, adds one to the count and records its item; a refill is due iff items are left |
| PoolMachine.WaitThenRefill | multiple_downloader.cpp:183-211 | the refill launches item `next_image_index` into the freed slot, so the pool returns to its previous size of 5 |
| PoolMachine.Bookkeeping | multiple_downloader.cpp:137-213 | after any plausible trace: at most 5 children, `completed_count + size == next_image_index <= NUM_IMAGES`, launches in list order, and the running items are exactly the launched items not yet completed |
| PoolMachine.NormalExit | multiple_downloader.cpp:174-216 | on normal exit every item was launched once in order and completed once, the map is empty and the exit code is 0 |
| PoolMachine.ForkFailure | multiple_downloader.cpp:166-170 | a failed fork ends the run with code 1 before all items completed, launches nothing and reads no further answer |
| PoolMachine.Progress | multiple_downloader.cpp:174-213 | the dispatcher waits only while a tracked child runs, and each answer is ignored, aborts, or brings the run one step closer to its end |
| PoolMachine.CooperativeRun | multiple_downloader.cpp:145-216 | when fork never fails and wait only reports tracked children, the run ends normally after exactly 2N answers |
| Dispatcher.Dispatch | multiple_downloader.cpp:137-216 | the two loops as written end in the state the machine reaches on the same answers |
| Downloader.Download | multiple_downloader.cpp:72-216 | `main` returns 1 on every pre-run error and otherwise the dispatcher's exit code for the cleaned ids |
| Downloader.CooperativeDownload | multiple_downloader.cpp:108-216 | with a valid setup, successful file-system checks and a cooperative operating system, the code `Download` returns is 0, after each id was launched once in order and completed exactly once (`reaped` has one entry per id, no repeats, covering every id) |

## Left out

- Argument-count checking and the usage text (lines 40-54): `Download` starts from the parsed arguments.
- `getcwd` (lines 60-62): the working directory is the input `currDir`.
- The choice of download directory and `chdir` into it (lines 65-69, 154, 194): they only affect the child process.
- `stat` of the script, opening the list file, and `stat`/`mkdir` of the download directory (lines 86-90, 102-106, 124-132): file-system I/O; `Download` takes their outcomes as booleans, and each failure returns 1.
- `getline` splitting the file into lines (line 109): the lines are an input.
- The child side of `fork`, i.e. `execlp` and `exit` (lines 149-158, 189-198): process creation is reduced to "fork returns a pid or fails". A 0, which only the child sees, is treated as a failure.
- `wait`'s exit status (line 176): it is never inspected; only the pid is an input.
- All `cout` and `perror` output: observational. The `started` log stands for the progress lines, without their text.
- Real concurrency, timing and a child that never exits: not modelled. Termination is shown only relative to an operating system that reports tracked children (`CooperativeRun`, `Progress`).
- Dispatcher.Dispatch: when the answers run out, it returns the state in which the program still waits for the result of `fork` or `wait`.
- Integer widths: `int NUM_IMAGES`, the counters and `pid_t` are unbounded integers; lists longer than `INT_MAX` ids are not modelled.
- ImageList.IsSpace: only the six C-locale whitespace characters count. The undefined behaviour of `::isspace` on negative `char` values is not modelled.
