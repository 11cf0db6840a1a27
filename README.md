# monitor: the registry and the controller logic, in Dafny

`monitor` watches a set of files for a word. It is run as
`./monitor <seconds> <word> <file #1> ... <file #n>`. Each file gets a watcher
process that runs `tail -f | grep` and prints the matching lines. A controller
process runs a sweep every five seconds. The sweep drops every file that has
disappeared and signals that file's watcher. A countdown interrupts everything
once the time is up. The registry of watched files is a hand-written
doubly-linked list.

This project models the parts of that program that compute rather than
coordinate processes:

- `dldl.dfy` (module `Dldl`) models the doubly-linked list of `src/dldl.c`.
  - It is a `DList` class over `Node` objects, with the C fields `size`,
    `first` and `last`, and `prev`/`next` on the nodes.
  - Its ghost sequences `nodes` and `elements` give the list its meaning.
  - `Linked()` ties every pointer to those sequences. `Valid()` adds
    `size == |nodes|`.
  - `dldl_remove` branches on whether the node is the only node, the first,
    the last or an inner node. Each branch is its own method, `UnlinkOnly`,
    `UnlinkFirst`, `UnlinkLast` and `UnlinkInner`, which `Remove` calls as
    the C code does.
- `entities.dfy` (module `Entities`) models the watch entity (`scrnr`) and
  the events the controller makes observable: printed notices and signals
  sent. It gives the pure meaning of the controller's work:
  - `Survivors` and `SweepEvents` describe one sweep;
  - `RunMonitor` describes the whole `check_entities` loop;
  - `InterruptKills` describes `catch_sigint`;
  - `Registered` and `Problems` describe the registration loop of `main`.

  The module also holds the lemmas about all of these.
- `screener.dfy` (module `Screener`) models the controller itself.
  - It is a `Screener` class holding the `stop` flag, the registry `monos`
    and an event log.
  - Its methods mirror the C loops: `CatchSigint`, `Sweep` (with the loop
    body in `SweepNode`), `Pass`, `CheckEntities` and `Register`.
  - Each method is proved against the functions of `Entities`.
  - `CheckArguments` and `CountdownTimer` complete `main`.
- `chunks.dfy` (module `Chunks`) models the line that `lookup_word` prints
  for each chunk read from the grep pipe.
- `wrappers.dfy` holds `Option`, which stands for the NULL returns.

The operating system is replaced by parameters:

- `file_exists` (`stat`) becomes membership in a set of present paths. Each
  pass has its own set.
- `gettimeofday` failures become per-pass flags (`PassEnv`). So does the
  arrival of SIGINT before a loop test of `check_entities`.
- `realpath` with `errno` becomes a function `resolve: string -> Option<string>`.
- The value of `stop` that `countdown_timer` sees after each tick becomes a
  function `stopSeen: nat -> bool`.
- `kill` and the notices printed become events appended to `log`.

## Model

| member | source | states |
|---|---|---|
| Dldl.Node.constructor | src/dldl.c:33-35 | a new node carries its element and has null `prev` and `next` |
| Dldl.DList.constructor | src/dldl.c:3-10 | an empty, valid list: `first` and `last` are null and `size` is 0 (the corrected create, see Findings) |
| Dldl.DList.CreateUninitialised | src/dldl.c:3-10 | create as written: the links are those of an empty list, but `size` is whatever the allocator left, so the list is valid exactly when that happens to be 0 |
| Dldl.DList.Push | src/dldl.c:26-48 | returns 1 and keeps the links right; the elements become `old + [element]` and `size` grows by one; the new node is fresh and becomes `last`; on an empty list it is both `first` and `last` with null `prev` and `next` |
| Dldl.DList.Remove | src/dldl.c:61-98 | on an empty list or a null node: returns None and changes nothing; otherwise deletes exactly the node's position `at`, keeps the order of all other nodes and elements, drops `size` by one, returns the node's element and keeps the links right |
| Dldl.DList.UnlinkOnly | src/dldl.c:76-78 | unlinking the only node leaves an empty, correctly linked list with `size` one less |
| Dldl.DList.UnlinkFirst | src/dldl.c:79-81 | unlinking the first of several nodes makes its successor `first`, with a null `prev`; the sequence loses exactly that position |
| Dldl.DList.UnlinkLast | src/dldl.c:82-84 | unlinking the last of several nodes makes its predecessor `last`, with a null `next`; the sequence loses exactly that position |
| Dldl.DList.UnlinkInner | src/dldl.c:85-91 | unlinking an inner node joins its neighbours to each other; the sequence loses exactly that position and every other link still holds |
| Dldl.DList.Pop | src/dldl.c:51-54 | on an empty list: returns None and changes nothing; otherwise removes and returns the last element, the rest unchanged |
| Dldl.DList.Shift | src/dldl.c:56-59 | on an empty list: returns None and changes nothing; otherwise removes and returns the first element, the rest unchanged |
| Dldl.DList.Destroy | src/dldl.c:12-24 | returns 1, and afterwards the list is valid and empty |
| Dldl.UninitialisedSizeNeverEmpties | src/dldl.c:3-10 | with the counter left at 1 by create, pushing one element and removing it leaves a list with no nodes and `size == 1` |
| Entities.SurvivorsMembers | src/screener.c:280-287 | an entity survives a sweep exactly when it was in the registry and its path exists |
| Entities.SweepCounts | src/screener.c:280-287 | survivors plus removed entities account for the whole registry; the sweep emits two events per removal |
| Entities.RemovedMembers | src/screener.c:282-285 | every removed entity was in the registry and its path does not exist |
| Entities.SweepAnnounces | src/screener.c:283-284 | for the j-th removed entity, in registry order, event 2j is its "File deleted" notice and event 2j+1 is SIGUSR1 to its pid |
| Entities.SweepIdempotent | src/screener.c:280-287 | a second sweep over the same file system removes nothing and emits nothing |
| Entities.SweepCompose | src/screener.c:280-287 | two successive sweeps keep exactly what one sweep keeps against the paths present in both |
| Entities.SurvivorsAreEntities | src/screener.c:280-287 | the survivors of a sweep are all non-null entities |
| Entities.KeptAfterSurvivors | src/screener.c:280-287 | the walk from first to last node, which keeps nodes in order, leaves exactly `Survivors` |
| Entities.LogAfterEvents | src/screener.c:280-287 | the same walk, appending to the log, appends exactly `SweepEvents` |
| Entities.InterruptKillsAppend | src/screener.c:26-32 | the group kills of a concatenated registry are those of each part, in order |
| Entities.InterruptCount | src/screener.c:26-32 | at most one kill per registry element |
| Entities.InterruptSound | src/screener.c:26-32 | every kill is a SIGQUIT to `-pid` for some non-null element with `pid > 0` |
| Entities.InterruptComplete | src/screener.c:26-32 | every registered entity with `pid > 0` has its group sent SIGQUIT |
| Entities.EntriesFromRegistered | src/screener.c:380-395 | running the registration loop from `argv[i]` pushes what `Registered` describes |
| Entities.ProblemsFromProblems | src/screener.c:380-395 | running the registration loop from `argv[i]` reports what `Problems` describes |
| Entities.RegisteredPrefix | src/screener.c:380-395 | each argument only appends to the entries of the arguments before it |
| Entities.RegisteredSound | src/screener.c:380-395 | every entry is built from `argv[id + 3]`: its name is that argument, its path is what that argument resolves to, and it has no updates |
| Entities.RegisteredOrdered | src/screener.c:380-395 | entries appear in argument order: ids strictly increase along the registry |
| Entities.RegisteredComplete | src/screener.c:380-395 | every argument whose path resolves is registered, with id `i - 3` even when earlier arguments were skipped |
| Entities.RegisteredCount | src/screener.c:380-395 | the entries pushed and the problems reported together number exactly one per file argument |
| Entities.ProblemsReported | src/screener.c:388-392 | a "Problems with file" notice is printed for every file argument whose path does not resolve, and only for such arguments |
| Entities.RegisteredOrReported | src/screener.c:380-395 | an argument whose path resolves is registered and not reported; one whose path does not resolve is reported, and no registered entry carries its name |
| Entities.FileExists | src/screener.c:55-61 | `file_exists`: `stat` succeeds on the path exactly when the path is in the pass's snapshot of present paths |
| Entities.RunMonitor | src/screener.c:268-313 | the outcome of the `while (!stop)` loop over a sequence of passes, where a SIGINT before a loop test runs catch_sigint's broadcast on the monitor's registry and ends the loop with 0; the registry it leaves holds only entities |
| Entities.RunMonitorProperties | src/screener.c:268-313 | returns 0 only with `stop` set, and then `stop` was already set, a SIGINT came in, or the registry is empty; never returns -1 when every clock read succeeds; only removes entities; keeps the earlier log; two events per removed entity, plus at most one SIGQUIT per remaining entity when interrupted |
| Screener.Screener.constructor | src/screener.c:3 | the controller starts with `stop` clear, an empty log and a fresh, empty, valid registry |
| Screener.Screener.CatchSigint | src/screener.c:18-34 | sets `stop`, and appends to the log exactly `InterruptKills` of the registry, in list order |
| Screener.Screener.SweepNode | src/screener.c:280-286 | removes the node exactly when its path is gone; in that case it logs the notice and the SIGUSR1, and otherwise it changes nothing; returns the successor the walk goes on with |
| Screener.Screener.Sweep | src/screener.c:280-287 | after one walk the registry is exactly `Survivors` of the old one and the log grew by exactly `SweepEvents` |
| Screener.Screener.Pass | src/screener.c:274-301 | a failed start clock returns -1 and changes nothing; otherwise sweeps, and then either returns 0 with `stop` set (empty registry), returns -1 (failed end clock), or goes on |
| Screener.Screener.CheckEntities | src/screener.c:268-313 | return value, registry, log and `stop` are exactly those of `RunMonitor` on the starting state; a SIGINT before a loop test runs `CatchSigint` |
| Screener.Screener.Register | src/screener.c:380-395 | the registry grows by exactly `Registered(argv)` and the log by exactly `Problems(argv)`; `stop` is untouched |
| Screener.CheckArguments | src/screener.c:357-371 | main proceeds exactly when 3 <= argc <= MAXENTRIES + 1; otherwise it prints the matching complaint and the usage line, and returns -1 |
| Screener.ArgumentsBoundRegistry | src/screener.c:357-395 | once the argument check passes, the registration loop handles `argc - 3` arguments and registers at most MAXENTRIES - 2 entities |
| Screener.CountdownTimer | src/screener.c:320-329 | returns 0 after at least one tick and at most `max(duration, 1)` ticks; it stops at the first tick where time is up or `stop` is seen; without `stop` it makes exactly `max(duration, 1)` ticks |
| Chunks.UpToNul | src/screener.c:168 | strcpy's copy is the longest NUL-free prefix: it is cut exactly at the first NUL |
| Chunks.UpToNulWhole | src/screener.c:168 | a NUL-free string is copied whole |
| Chunks.EmittedLine | src/screener.c:156-173 | a chunk is printed only when the read returns bytes; the printed line is a NUL-free prefix shorter than the chunk, and it is the chunk minus its last byte when the chunk holds no NUL |
| Chunks.LastByteLost | src/screener.c:166 | as written, the chunk "ab", which does not end in a newline, is printed as "a" |
| Chunks.StripNewline | src/screener.c:164-168 | the corrected trim: nothing is printed for an empty read; otherwise the line is a NUL-free prefix of the chunk, and for a NUL-free chunk it is the chunk without its final byte when that byte is a newline and the whole chunk otherwise |
| Chunks.StripNewlineAgrees | src/screener.c:164-168 | on chunks that end in a newline, the corrected trim prints what the code as written prints |
| Chunks.StripNewlineRecovers | src/screener.c:164-168 | a NUL-free line comes back whole, whether it is read with its newline or without, up to a full 1014-byte buffer |

## Left out

- Process plumbing: `fork`, `setpgid`, `pipe`, `dup2` and the `exec` of `tail`/`grep` in `lookup_word`, `run_tail`, `run_grep` and `main`. So are the fork loop of `main` that assigns watcher pids and the final `kill(0, SIGINT)`.
- Signal delivery and handler installation (`sigaction`): a `kill` is only an event in the log, and `stop` is a plain field. `catch_sigusr` is not part of this model.
- Entities.RunMonitor: a SIGINT reaches the monitor only before a loop test, between passes. One that arrives in the middle of a pass runs catch_sigint there, so its SIGQUITs fall between that pass's notices and are aimed at the registry as it stood at that moment; the pass then finishes as usual. The model has no such interleaving.
- One `Screener` instance stands for one process. In the program, the monitor runs in a child forked at src/screener.c:428, and that child has its own copy-on-write registry. After the fork the two registries diverge: main's catch_sigint walks the unswept copy, so main still sends SIGQUIT to the groups of removed entities, and the groups of survivors get it from both processes. The same holds for `stop`: the monitor's `stop = 1` on an emptied registry (src/screener.c:290) is set in the child, so main's `countdown_timer` never sees it, and the run goes on until the duration is up. The model does not follow the two copies, and `CountdownTimer` leaves `stopSeen` unconstrained.
- The `perror` diagnostics go to standard error and are not in the log: "Empty list." and "Null node." in dldl_remove (each followed by `errno = 0`), "Error getting start time." and "Error getting end time." in check_entities, and "File issue" in the registration loop. The `printf` notices are logged.
- `sleep`, `usleep` and the interval arithmetic between passes, and the timestamps printed by `get_datetime`. `calculate_op_time` is commented out in the source.
- The format of the lines `lookup_word` prints (timestamp, entity name, quoted line). Only the line itself is modelled.
- Reads that fail (`n == -1`) print nothing, like empty reads. The model has only empty chunks for both.
- `atoi` of the duration argument: `CountdownTimer` takes the duration as an integer.
- Memory management. `malloc` never fails here, so `dldl_push` never returns -1. `free` in `dldl_destroy` and `dldl_remove` has no counterpart: removed nodes stay in the ghost footprint `Repr()`.
- `size` is a `size_t` in the C code. The model uses an unbounded integer. Under `Valid()` it never goes below zero, so `monos->size <= 0` is the same test as `size == 0`.
- Dldl.DList.Remove: requires that a non-null node given for a non-empty list belongs to that list. `dldl_remove` never checks this, and on a foreign node it corrupts both lists.
- Screener.Screener.SweepNode: reads the successor before unlinking the node. `check_entities` reads `node->next` in the `for` step after `dldl_remove` has freed the node (src/screener.c:280 and 285), which is a use after free. The model follows the evident intent, in which no entry is skipped or revisited.
- Screener.Screener.Sweep: requires every registry element to be non-null, because `check_entities` dereferences `element->path` unconditionally. `CatchSigint` handles null elements as the source does.
- Screener.Screener.Register: gives every registered entity pid 0. In the C code `pid` is left uninitialised until the fork loop sets it.
- Screener.Screener.CheckEntities: runs over a finite sequence of passes. When the passes run out before the loop returns, the result is None (the real loop would go on).
- Screener.CountdownTimer: models `stop` as sampled once per tick through `stopSeen`, not as a flag written asynchronously.

## Findings

| source | as written | input that shows it | evidently intended | confidence | as-written member | corrected member |
|---|---|---|---|---|---|---|
| src/dldl.c:3-10 | `dldl_create` never initialises `size`, which keeps whatever `malloc` returned | memory holding 1: push one entity, remove it, and the list is empty while `size == 1`, so `check_entities` never sees `size <= 0` and its loop never ends through the emptiness test; it keeps sweeping an empty list until a SIGINT arrives (at the latest the countdown's `kill(0, SIGINT)`) | `size = 0` alongside `first = last = NULL` | not executed; high, since the field is plainly never written | Dldl.UninitialisedSizeNeverEmpties | Dldl.DList.constructor |
| src/screener.c:166 | `buffer[n - 1] = '\0'` overwrites the last byte of every chunk, whatever it is | a read that returns "ab" (a line split across reads, or longer than the 1014-byte buffer) prints "a" | remove the final byte only when it is the newline that `tail` and `grep` end lines with, as the comment above the line says | not executed; medium, since most reads end at a newline | Chunks.LastByteLost | Chunks.StripNewline |
