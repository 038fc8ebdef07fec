# HsdsApp, modelled in Dafny

`h5pyd/_hl/hsdsapp.py` defines `HsdsApp`. This object starts a local HSDS
service as child processes:

- one service node;
- one rangeget proxy;
- `dn_count` datanodes.

The processes talk over Unix sockets in a temporary directory. The object
relays their output and stops them again. This project models the
bookkeeping the object does:

- **Socket directory** (`socket_dir.dfy`). The temporary directory's name is
  encoded with every `/` written as `%2F`, the percent-encoding of section 2.1
  of RFC 3986, applied to `/` only. One more `%2F` is added when the name does
  not end in `/`.
- **Topology** (`topology.dfy`, `string_order.dfy`). The datanode URLs
  `http+unix://<dir>dn_<k>.sock`, for k = 1 to dn_count, are sorted in Python
  string order. There is also the service node's endpoint and the rangeget URL.
  `dn_urls_arg` is the sorted list joined by commas.
- **Argument vectors** (`launch.dfy`). One vector per process:
  - the service node's vector carries the optional credentials;
  - the rangeget proxy's vector has no extra arguments;
  - datanode k's vector carries `--node_number=k`;
  - every vector ends with the five common arguments.
- **The supervisor** (`supervisor.dfy`, class `HsdsApp`). It holds the fields
  `_processes`, `_queues` and `_threads`, and the operations `run`, `stop`,
  `check_processes`, `print_process_output` and the `endpoint` property.
- **`stop`** (`shutdown.dfy`). It is modelled as the log of the actions it
  takes: SIGINTs, 0.1 s sleeps and `terminate()` calls. The answers of
  `poll()` are a parameter, because they depend on time and on the OS.
- **Output queues** (`output_queues.dfy`). `print_process_output` drains the
  queues in round-robin passes. A pure function, `Drain`, specifies the order
  in which lines come out. The class method is proved to print exactly that
  order.
- **Reader loop** (`producer.dfy`). `_enqueue_output` is modelled both as
  written, where it never stops, and with the corrected sentinel `''` (see
  "## Findings"). The corrected loop, run to completion before the queues are
  drained, is what fills the supervisor's queues.

Processes are values: an argument list and a status, `Running` or
`Exited(code)`. Queues are sequences of lines. A reader thread is the pair of
the process and the queue it connects.

Behaviours of the code that the model keeps as they are:

- **Which processes `stop` terminates.** `stop` calls `terminate()` on every
  process whose last `poll()` is truthy (`hsdsapp.py:179-182`), that is, on
  the processes that have already exited with a nonzero code. A process still
  running after the wait is never terminated
  (`Shutdown.TerminatesExactly`).
- **Every line is kept.** The reader threads put every line they read into
  the queue, without filtering.
- **No wait for the sockets.** `run` returns once the processes are started;
  it does not wait for their socket files to appear.
- **Queues are never cleared.** `stop` keeps `_queues`, and a later `run`
  appends new queues after the old ones (`Supervisor.RestartKeepsOldQueues`).
- **`logfile` is ignored.** `_logfile` is always `None`, so every process gets
  a queue and a reader thread.
- **Non-positive `dn_count`.** `range(dn_count + 2)` makes `dn_count = -1`
  start only the service node. Any smaller value starts nothing.
- **Credentials.** A credential is passed only when it is truthy. An empty
  string is left out just like `None`.
- **`run` with processes tracked.** It only calls `check_processes`. That call
  empties the queues (their lines are printed), but the three lists keep their
  length.

## Model

| member | source | states |
|---|---|---|
| OutputQueues.HeadOf | h5pyd/_hl/hsdsapp.py:77-79 | definition: `get_nowait()` on queue j, its head or nothing (`queue.Empty`); OutputQueues.LinesOfHeadOf states it |
| OutputQueues.Drain | h5pyd/_hl/hsdsapp.py:73-88 | the lines `print_process_output` takes, pass after pass, until a pass finds nothing; every one comes from an existing queue |
| Processes.PollTruthy | h5pyd/_hl/hsdsapp.py:180 | definition: `if p.poll():` holds for an exit code other than 0 and for nothing else; Shutdown.TerminationsExact and Shutdown.TerminatesExactly state its consequence |
| Shutdown.AliveAmong | h5pyd/_hl/hsdsapp.py:170-173 | definition: `is_alive` of one round, some of the first k processes polls `None`; Shutdown.AliveAmongIff states it |
| Shutdown.WaitLog | h5pyd/_hl/hsdsapp.py:169-176 | the sleeps of the wait loop, at most one per round |
| Shutdown.Terminations | h5pyd/_hl/hsdsapp.py:179-182 | the `terminate()` calls of the final loop, at most one per process |
| Shutdown.StopLog | h5pyd/_hl/hsdsapp.py:160-182 | everything `stop` does: nothing exactly when no process is tracked, otherwise at least one SIGINT per process and at most 20 sleeps and one termination per process more |
| Producer.Produced | h5pyd/_hl/hsdsapp.py:11-12 | the reader loop after a number of `readline()` calls: at most one line queued per call, exactly one per call while it has not stopped |
| Launch.Truthy | h5pyd/_hl/hsdsapp.py:130-133 | definition: Python truthiness of an optional string, false for `None` and for `''`; Launch.ServiceNodeCredentials states what it decides |
| Launch.RoleArgs | h5pyd/_hl/hsdsapp.py:127-143 | definition: the role part of vector i, service node, rangeget proxy or datanode i - 2; Launch.BuildRoleArgs is proved against it |
| Launch.CommonArgs | h5pyd/_hl/hsdsapp.py:118-124 | definition: `--standalone`, `--dn_urls=`, `--rangeget_url=`, `--hsds_endpoint=`, `--use_socket`, in that order; its properties are in Launch.VectorLayout and Launch.FixedArgsCarryNoCredential |
| Launch.ServiceNodeArgs | h5pyd/_hl/hsdsapp.py:129-135 | definition: the service node's role arguments; its properties are in Launch.ServiceNodeCredentials |
| Launch.RangegetArgs | h5pyd/_hl/hsdsapp.py:138 | definition: the rangeget proxy's role arguments; Launch.CredentialsOnlyOnServiceNode is about it |
| Launch.DatanodeArgs | h5pyd/_hl/hsdsapp.py:140-143 | definition: datanode n's role arguments; its properties are in Launch.VectorLayout and Launch.NodeNumbersExact |
| Launch.ArgVector | h5pyd/_hl/hsdsapp.py:126-145 | definition: process i's role arguments followed by the common arguments; Launch.BuildArgVectors is proved against it |
| Topology.DnUrl | h5pyd/_hl/hsdsapp.py:55 | definition: `http+unix://{socket_dir}dn_{k}.sock`; its properties are in Topology.DnUrlShape and Topology.DnUrlInjective |
| Topology.EndpointUrl | h5pyd/_hl/hsdsapp.py:60 | definition: `http+unix://{socket_dir}sn_1.sock`; Topology.EndpointsDistinct is about it |
| Topology.RangegetUrl | h5pyd/_hl/hsdsapp.py:61 | definition: `http+unix://{socket_dir}rangeget.sock`; Topology.EndpointsDistinct is about it |
| SocketDir.SocketDirOf | h5pyd/_hl/hsdsapp.py:27-35 | definition: the escaped name plus `%2F` when the name does not end in `/`; SocketDir.EncodeSocketDir is proved against it and its properties are in SocketDir.SocketDirShape and SocketDir.SocketDirDecodes |
| SocketDir.EscapeAll | h5pyd/_hl/hsdsapp.py:28-32 | definition: each character of the name in turn, `/` written as `%2F`; its properties are in SocketDir.EscapeAllSnoc, SocketDir.EscapeAllHasNoSlash and SocketDir.UnescapeEscapeAll |
| SocketDir.EncodeSocketDir | h5pyd/_hl/hsdsapp.py:27-35 | the character loop plus the trailing separator produce exactly `SocketDirOf(name)` |
| SocketDir.EscapeAllSnoc | h5pyd/_hl/hsdsapp.py:28-32 | handling one more character appends exactly that character's escape (`%2F` for `/`, the character itself otherwise) |
| SocketDir.EscapeAllHasNoSlash | h5pyd/_hl/hsdsapp.py:28-32 | no `/` survives the encoding |
| SocketDir.EscapeAllKeepsAbsent | h5pyd/_hl/hsdsapp.py:28-32 | the encoding adds no character other than `%`, `2` and `F` |
| SocketDir.SocketDirShape | h5pyd/_hl/hsdsapp.py:27-35 | whatever the name, the socket directory ends in `%2F` and contains no `/` |
| SocketDir.UnescapeEscapeAll | h5pyd/_hl/hsdsapp.py:28-32 | for a name without `%`, decoding the escaped name gives the name back (the encoding is reversible) |
| SocketDir.SocketDirDecodes | h5pyd/_hl/hsdsapp.py:27-35 | decoding the socket directory gives the name ended by exactly one `/`: the extra `%2F` is added exactly when the name does not end in `/` |
| StringOrder.LexLe | h5pyd/_hl/hsdsapp.py:59 | definition: Python's `str` order, code point by code point, a prefix first; its properties are in the four StringOrder.LexLe lemmas and StringOrder.SortedUnique |
| StringOrder.LexLeReflexive | h5pyd/_hl/hsdsapp.py:59 | every string is ordered before or equal to itself |
| StringOrder.LexLeTotal | h5pyd/_hl/hsdsapp.py:59 | any two strings are ordered one way or the other |
| StringOrder.LexLeAntisymmetric | h5pyd/_hl/hsdsapp.py:59 | strings ordered both ways are equal |
| StringOrder.LexLeTransitive | h5pyd/_hl/hsdsapp.py:59 | the order is transitive |
| StringOrder.SortStrings | h5pyd/_hl/hsdsapp.py:59 | `list.sort()` on strings: the result is in Python string order and is a permutation of the input |
| StringOrder.SortedUnique | h5pyd/_hl/hsdsapp.py:59 | two sorted lists holding the same strings the same number of times are equal |
| StringOrder.SortIsUnique | h5pyd/_hl/hsdsapp.py:59 | any sorted permutation of a list equals `SortStrings`'s result, so the model agrees with Python's sort |
| Topology.DnUrlsInOrder | h5pyd/_hl/hsdsapp.py:54-56 | the creation-order list has one URL per datanode |
| Topology.BuildDnUrls | h5pyd/_hl/hsdsapp.py:54-56 | the `for i in range(dn_count)` loop lists the URLs of datanodes 1 to dn_count, in order, and none for a negative count |
| Topology.SortedDnUrls | h5pyd/_hl/hsdsapp.py:54-59 | `_dn_urls` has `len(range(dn_count))` entries, is sorted, and is a permutation of the datanode URLs |
| Topology.DnUrlInjective | h5pyd/_hl/hsdsapp.py:55 | two datanode URLs are equal exactly when their numbers are |
| Topology.SortedDnUrlsAreDnUrls | h5pyd/_hl/hsdsapp.py:54-59 | every entry of the sorted list is the URL of some datanode 1 to dn_count |
| Topology.SortedDnUrlsDistinct | h5pyd/_hl/hsdsapp.py:54-59 | no two entries of the sorted list are equal |
| Topology.DnUrlShape | h5pyd/_hl/hsdsapp.py:55 | a datanode URL starts with `http+unix://`, ends with `.sock`, and has a comma only if the socket directory has one |
| Topology.EndpointsDistinct | h5pyd/_hl/hsdsapp.py:55-61 | the service node, the rangeget proxy and every datanode have pairwise different URLs |
| Topology.DropLeadingEmpty | h5pyd/_hl/hsdsapp.py:108-112 | the entries the `dn_urls_arg` loop joins: empty entries before the first non-empty one are dropped |
| Topology.DropLeadingEmptySnoc | h5pyd/_hl/hsdsapp.py:108-112 | one more entry is appended, or dropped when it is empty and nothing non-empty came before |
| Topology.JoinUrls | h5pyd/_hl/hsdsapp.py:108-112 | the loop that writes a comma only after something was written computes the comma-join of the entries after the leading empty ones |
| Topology.SortedDnUrlsEnds | h5pyd/_hl/hsdsapp.py:54-59 | the sorted list begins with the scheme and ends with `.sock` |
| Topology.SortedDnUrlsCommaFree | h5pyd/_hl/hsdsapp.py:55 | with a comma-free socket directory, no datanode URL has a comma |
| Topology.DnUrlsArg | h5pyd/_hl/hsdsapp.py:108-112 | the loop's result equals the sorted list joined by `,` (no datanode URL is empty); it is empty exactly when `dn_count <= 0`; otherwise it starts with the scheme and ends with `.sock` (no stray comma); with a comma-free socket directory, splitting it on `,` gives the list back |
| Launch.ArgVectors | h5pyd/_hl/hsdsapp.py:126-145 | there is one vector per process index |
| Launch.VectorLayout | h5pyd/_hl/hsdsapp.py:116-145 | vector i starts with its role marker and ends with the five common arguments in order; a datanode's vector has 9 arguments: `--log_prefix=dn{i-1} `, `--dn_urls=<joined>` and `--node_number={i-2}` at positions 1 to 3 |
| Launch.NodeNumbersExact | h5pyd/_hl/hsdsapp.py:139-143 | `--node_number=k` is in vector i exactly when i = k + 2 |
| Launch.FixedArgsCarryNoCredential | h5pyd/_hl/hsdsapp.py:118-145 | no common argument and no fixed role argument starts with `--hs_username=` or `--hs_password=` |
| Launch.CredentialsOnlyOnServiceNode | h5pyd/_hl/hsdsapp.py:126-145 | no vector except the service node's carries a credential flag |
| Launch.ServiceNodeCredentials | h5pyd/_hl/hsdsapp.py:129-135 | the service node carries the username (password) flag exactly when the value is truthy, with that value, and its role part ends with `--sn_url=<endpoint>`, `--logfile=sn1.log` |
| Launch.BuildRoleArgs | h5pyd/_hl/hsdsapp.py:126-143 | the appending code of the `if i == 0 / elif i == 1 / else` branches builds exactly `RoleArgs(cfg, i)` |
| Launch.BuildArgVectors | h5pyd/_hl/hsdsapp.py:116-145 | `common_args` followed by the `range(count)` loop build exactly the vectors of processes 0 to count - 1, none for a negative count |
| Processes.Spawned | h5pyd/_hl/hsdsapp.py:146-147 | one running process per vector, in order, started with that vector |
| Processes.EndedProcesses | h5pyd/_hl/hsdsapp.py:93-94 | the indexes of the processes whose `poll()` is not `None`: exactly those, each once, in increasing order |
| Shutdown.AliveAmongIff | h5pyd/_hl/hsdsapp.py:170-173 | `is_alive` holds exactly when some polled process is still running |
| Shutdown.AnyRunning | h5pyd/_hl/hsdsapp.py:170-173 | the `is_alive` loop of one wait round sets `is_alive` exactly when some process polls `None` |
| Shutdown.Interrupts | h5pyd/_hl/hsdsapp.py:164-166 | there is one SIGINT per tracked process |
| Shutdown.WaitLogShape | h5pyd/_hl/hsdsapp.py:169-176 | the wait loop only sleeps, at most once per round, and sleeps at all exactly when some round finds a process running |
| Shutdown.TerminationsExact | h5pyd/_hl/hsdsapp.py:179-182 | the final loop terminates exactly the processes whose last poll is truthy, each once, in list order |
| Shutdown.InterruptsFirst | h5pyd/_hl/hsdsapp.py:160-186 | every tracked process gets exactly one SIGINT, before any other action |
| Shutdown.TerminatesExactly | h5pyd/_hl/hsdsapp.py:179-182 | process i is terminated exactly when it is tracked and its last poll is a nonzero exit code; a process still running is never terminated |
| Shutdown.SleepsWhileAlive | h5pyd/_hl/hsdsapp.py:169-176 | the sleeps sit between the SIGINTs and the terminations, at most 20, and there is at least one exactly when some wait round saw a running process |
| OutputQueues.Heads | h5pyd/_hl/hsdsapp.py:75-86 | a pass emits at most as many lines as there are queues (one per queue, by OutputQueues.HeadsRoundRobin), and nothing exactly when every queue is empty |
| OutputQueues.Tails | h5pyd/_hl/hsdsapp.py:75-79 | a pass keeps the number of queues |
| OutputQueues.PassShrinks | h5pyd/_hl/hsdsapp.py:73-88 | a pass emits exactly as many lines as it removes, so every pass except the last shortens the queues |
| OutputQueues.DrainStep | h5pyd/_hl/hsdsapp.py:73-88 | a pass that finds a line is followed by the drain of the shorter tails; a pass that finds nothing ends the loop with the queues unchanged |
| OutputQueues.LinesOfHeadOf | h5pyd/_hl/hsdsapp.py:77 | `get_nowait()` on queue n yields its head (if any) and nothing for another queue |
| OutputQueues.LinesOfHeads | h5pyd/_hl/hsdsapp.py:75-86 | a pass takes from queue j exactly its head, if it has one |
| OutputQueues.HeadsRoundRobin | h5pyd/_hl/hsdsapp.py:75-86 | within a pass, queue indexes strictly increase, and each emitted line is the head of its queue |
| OutputQueues.DrainIsFifo | h5pyd/_hl/hsdsapp.py:73-88 | the lines emitted for queue j are exactly the lines queue j held, in order; nothing is emitted for a queue that does not exist |
| OutputQueues.DrainEmitsAll | h5pyd/_hl/hsdsapp.py:73-88 | the drain emits exactly as many lines as the queues held |
| OutputQueues.PassStep | h5pyd/_hl/hsdsapp.py:75-86 | visiting queue j extends the pass by that queue's head and replaces the queue by its tail |
| OutputQueues.Printed | h5pyd/_hl/hsdsapp.py:85 | one printed (stripped) line per emitted line |
| Text.NatToString | h5pyd/_hl/hsdsapp.py:143 | `str(n)` is a non-empty string of digits, with a leading `0` only for 0 |
| Text.NatToStringInjective | h5pyd/_hl/hsdsapp.py:141-143 | different numbers print differently |
| Text.SplitJoin | h5pyd/_hl/hsdsapp.py:108-112 | splitting a join of separator-free fields on the separator gives the fields back |
| Text.Strip | h5pyd/_hl/hsdsapp.py:85 | `str.strip()` leaves no white space at either end, never lengthens, and keeps a line with no white space unchanged |
| Text.StripKeepsMiddle | h5pyd/_hl/hsdsapp.py:85 | what `str.strip()` returns is a slice of the line with only white space before and after it; with Text.Strip's ends this fixes the result to the line minus its leading and trailing white space |
| Producer.ReadLine | h5pyd/_hl/hsdsapp.py:146 | a text-mode `readline()` returns a `str`, and `''` exactly at the end of the stream |
| Producer.UntilEof | h5pyd/_hl/hsdsapp.py:11 | the lines before the end of the stream: a prefix of it, free of `''`, followed by `''` if it is not the whole stream |
| Producer.UntilEofAll | h5pyd/_hl/hsdsapp.py:11 | a stream of real lines is read to its end |
| Producer.AsWrittenNeverStops | h5pyd/_hl/hsdsapp.py:10-12 | with the sentinel `b''` the loop never stops: after any number of calls it has queued one value per call, the stream's lines and then `''` |
| Producer.AsWrittenQueuesEmptyLines | h5pyd/_hl/hsdsapp.py:10-12 | a process that wrote nothing has, after three reads, queued three empty lines and is still running |
| Producer.CorrectedStopsAtEof | h5pyd/_hl/hsdsapp.py:10-12 | with the sentinel `''` the loop queues the lines before the end of the stream, in order, then stops for good |
| Producer.EnqueueOutput | h5pyd/_hl/hsdsapp.py:10-12 | with the corrected sentinel `''` (see "## Findings"), the reader loop run to completion appends to the queue exactly the stream's lines up to its end |
| Supervisor.Deployment | h5pyd/_hl/hsdsapp.py:116-145 | a fresh `run` launches `len(range(dn_count + 2))` processes |
| Supervisor.DeploymentRoles | h5pyd/_hl/hsdsapp.py:116-145 | process 0 is the service node, 1 the rangeget proxy, the rest datanodes; all end with the common arguments; `--node_number=k` is carried by process k + 2 only; `dn_count + 2` processes for `dn_count >= 0`, at most one otherwise |
| Supervisor.DatanodeIdentity | h5pyd/_hl/hsdsapp.py:139-143 | datanode k receives the full sorted list and `--node_number=k`; for a temporary directory name without `,` the list splits back on `,`, position k exists in it and no two positions name the same socket, so a datanode's ordinal is its index in the sorted list |
| Supervisor.FreshQueues | h5pyd/_hl/hsdsapp.py:150-152 | n new queues, all empty |
| Supervisor.Workers | h5pyd/_hl/hsdsapp.py:151-155 | reader thread i connects process i to the i-th new queue |
| Supervisor.HsdsApp.constructor | h5pyd/_hl/hsdsapp.py:22-61 | with the defaults of `__init__` (no credentials, `dn_count=1`, no log file), the addresses are derived from the directory name (socket dir, sorted datanode URLs, endpoint, rangeget URL), `_logfile` is `None`, and the three lists are empty |
| Supervisor.HsdsApp.Endpoint | h5pyd/_hl/hsdsapp.py:64-66 | the `endpoint` property is the service node's URL, which is neither the rangeget URL nor a datanode's |
| Supervisor.HsdsApp.EndpointNotADatanode | h5pyd/_hl/hsdsapp.py:54-61 | the endpoint is neither the rangeget URL nor in `_dn_urls` |
| Supervisor.HsdsApp.PrintPass | h5pyd/_hl/hsdsapp.py:74-86 | one pass of the `while True` loop takes the head of every non-empty queue, in queue order, leaves the tails, and prints the heads stripped; `got_output` holds exactly when it took something |
| Supervisor.HsdsApp.PrintProcessOutput | h5pyd/_hl/hsdsapp.py:68-88 | the loop ends with every queue empty and the number of queues unchanged, having printed every queued line exactly once, stripped, in `Drain` order |
| Supervisor.HsdsApp.CheckProcesses | h5pyd/_hl/hsdsapp.py:90-98 | the queues are drained as above, and exactly the processes whose `poll()` is not `None` are reported, once each, in order |
| Supervisor.HsdsApp.Run | h5pyd/_hl/hsdsapp.py:100-155 | with processes tracked, nothing is started and processes and threads are unchanged (only queued lines are printed away); otherwise one process per deployment vector, one new empty queue after the old ones and one reader thread per process are added; the instance stays consistent |
| Supervisor.HsdsApp.Spawn | h5pyd/_hl/hsdsapp.py:146-155 | one started process per vector and, `_logfile` being `None`, one new empty queue and one reader thread per process, appended in order |
| Supervisor.HsdsApp.Stop | h5pyd/_hl/hsdsapp.py:157-186 | nothing is done when no process is tracked; otherwise the actions are exactly `StopLog`; afterwards no process or thread is tracked and the queues are unchanged |
| Supervisor.HsdsApp.ReportExit | h5pyd/_hl/hsdsapp.py:94 | the OS ends process i with a code; only its status changes |
| Supervisor.HsdsApp.RunReader | h5pyd/_hl/hsdsapp.py:151-155 | with the corrected sentinel `''` (see "## Findings"), reader thread i run to completion appends the lines of its process's output, up to the end of the stream, to its own queue, and to no other |
| Supervisor.StopTwice | h5pyd/_hl/hsdsapp.py:160-161 | a second `stop` straight after a first does nothing |
| Supervisor.RestartKeepsOldQueues | h5pyd/_hl/hsdsapp.py:147-155 | `run`, `stop`, `run` starts the whole deployment again, and the first run's queues stay ahead of the second run's |

## Left out

- Process creation (`subprocess.Popen`), `send_signal`, `terminate`, `communicate`, `time.time` and `time.sleep` are OS calls. Processes are values, and `stop` records these calls as a log of actions instead of making them.
- Supervisor.HsdsApp.Run: a failure of `Popen` (an exception part-way through the loop) is not modelled.
- Threads and the concurrency between the reader threads and `print_process_output` are not modelled. A reader thread runs to completion on its own (`RunReader`), and the drain runs with no producer beside it.
- Supervisor.HsdsApp.RunReader: the supervisor's queues are filled by the corrected reader loop (sentinel `''`, see "## Findings"); the endless `''` lines the loop as written keeps adding to every queue (Producer.AsWrittenNeverStops) are not in the class model.
- Supervisor.HsdsApp.PrintProcessOutput: what it prints while producers still write is not modelled; its contract holds for queues nobody else touches during the call.
- Shutdown.StopLog: the answers of `poll()` are a parameter. They are not tied to the statuses that `ReportExit` records, because those answers change with time during the wait.
- Supervisor.HsdsApp.CheckProcesses: the `communicate()` call and the warning message are left out; the method returns the indexes of the ended processes instead of logging them.
- `tempfile.TemporaryDirectory` and `__del__` (which calls `stop` and removes the directory) are filesystem and garbage-collector behaviour. The directory's name is a constructor parameter and must be non-empty, since the code reads `name[-1]`.
- `print` and the logger (`logging` or the `logger` argument) only produce output. Printed lines are returned as a result instead.
- The `bytes` branch of `print_process_output` (lines 81-83) is left out. The pipes are opened in text mode, so the queues hold `str` lines.
- Text.Strip: only the ASCII white space characters are removed. Python's `str.strip()` also removes other Unicode white space, such as U+0085 and U+00A0.
- `list.sort()` is modelled by an insertion sort. `StringOrder.SortIsUnique` shows that any correct sort returns the same list.

## Findings

| source | as written | input that shows it | evidently intended | confidence | as-written member | corrected member |
|---|---|---|---|---|---|---|
| h5pyd/_hl/hsdsapp.py:11 | `iter(out.readline, b'')`: the pipe is opened in text mode (`universal_newlines=True`, line 146), so `readline()` returns `''` at the end of the stream, which never equals `b''`; the loop never ends and queues `''` on every further call | a process that has written nothing and exited: after 3 calls the queue holds `''`, `''`, `''` and the loop is still running (`Producer.AsWrittenQueuesEmptyLines`) | the sentinel `''`, so the loop stops at the end of the stream | not executed | Producer.AsWrittenNeverStops | Producer.CorrectedStopsAtEof |
