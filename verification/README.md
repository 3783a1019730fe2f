# revengeMusic start-up and control loop, in Dafny

revengeMusic is a command-line background music player. The first
invocation becomes the player (the server): it owns the queue
"revengeMusicToPlayer", opens the music directory with its audio engine
(the `Sound` class) and polls for commands. Every later invocation is a
client: it sends one command (`kill`, `play`, `pause`, `next`, `prev`,
`shuffle`, `loop-file`, `none`) and prints whatever reply comes back.

This project models the decision logic of `src/main.cpp`, which surrounds
the queue and engine calls:

- `Effects`: the observable effects of a run. These are the two queues
  (names, capacity 2, 128-byte messages), messages sent on either queue,
  and the engine calls, recorded in the order they are made.
- `Arguments`: the help/version short cut, the command a client sends, and
  the server's `-subdir`/track argument loop. The loop is an imperative
  method proved against a left-to-right scan `ParseFrom`. That scan is
  then tied to an independent, position-by-position account of what each
  argument is (`Roles`).
- `Startup`: how the track path, the path the engine is opened with, and
  the first play are derived from the music directory and the parsed
  arguments.
- `Dispatch`: the server's polling loop. Each iteration is described by a
  `Tick`: the error logged since the previous check, whether the engine
  reports it is playing, and what the receive returned. `ServeLoop` keeps
  the error flag as the source does. It is proved equal to the
  specification `Serve`, whose outcome and effects are characterised by
  lemmas.
- `Program`: `Run`, the whole of `main`. The process role, the resolved
  music directory, the engine's start-up error and the ticks are inputs.

Some behaviours of the code worth stating plainly:

- On `kill` the code only leaves the loop. It makes no engine call.
- A client sends argument 1 verbatim, even when it is a flag.
- `play` and `pause` are issued whatever the playback state is.
- Mode toggling, track selection and playback status belong to the engine
  and are not part of the model.

## Model

| member | source | states |
|---|---|---|
| `Arguments.EarlyRequest` | src/main.cpp:70-91 | only argument 1 is inspected: `-h`/`--help` is a help request, `-v`/`--version` a version request, anything else (or no argument) neither |
| `Arguments.ClientCommandAsWritten` | src/main.cpp:101-105 | the code's choice reads an argument that exists exactly when the list is non-empty; it yields "kill" for a lone program name or a literal `kill` argument |
| `Arguments.ClientCommand` | src/main.cpp:101-105 | a client sends "kill" when no argument follows the program name, otherwise exactly argument 1 |
| `Arguments.ClientCommandAgrees` | src/main.cpp:101-105 | for every list holding at least the program name, the corrected choice is the code's choice |
| `Arguments.EmptyArgumentListReadsOutOfRange` | src/main.cpp:101-104 | an empty argument list makes the code read a missing argument 1; the corrected choice sends "kill" |
| `Arguments.ParseServerArgs` | src/main.cpp:122-135 | the index loop terminates, reads only in-range arguments, and yields the scan `Parse` of the arguments |
| `Arguments.RolesShape` | src/main.cpp:123-134 | a `-subdir` flag's successor, when present, is its value and never a track name; every value follows a flag; a track name is never `-subdir` |
| `Arguments.ParseFromTrackByRoles` | src/main.cpp:122-135 | the scan keeps the last Track argument as track name, and keeps its starting track name when there is none |
| `Arguments.ParseFromSubdirByRoles` | src/main.cpp:122-135 | the scan keeps the last `-subdir` value plus "/" as subdirectory, and keeps its starting subdirectory when there is none |
| `Arguments.ParseByRoles` | src/main.cpp:118-135 | the server's track name is the last argument neither `-subdir` nor consumed by it, or ""; its subdirectory is the last consumed value plus "/", or "" |
| `Arguments.TrailingFlagIgnored` | src/main.cpp:125-130 | a trailing `-subdir` with nothing after it leaves the parse unchanged |
| `Startup.StartupPlan` | src/main.cpp:174-196 | track path = music dir + subdirectory + track name; the engine opens the music dir when there is no subdirectory, else the track path; it always opens a prefix of the track path; the first play is `play()` exactly when there is no track name, else `play(track path)` |
| `Dispatch.Decide` | src/main.cpp:220-245 | exact match: "none" is ignored, "kill" stops, the six table commands map to their engine call, everything outside the vocabulary is answered "Invalid" |
| `Dispatch.MessageEffects` | src/main.cpp:220-245 | a table command causes exactly one engine call and no reply; "none" and "kill" cause nothing; any other message causes exactly one "Invalid" reply and no engine call |
| `Dispatch.TickEffects` | src/main.cpp:213-245 | when the engine is not playing, `play_next` comes first in the iteration, before the received message's effects; with no message received the iteration is exactly that one `play_next` (or nothing when playing) |
| `Dispatch.ServeLoop` | src/main.cpp:199-247 | the loop with its error flag, the flag cleared after a recoverable error, computes exactly `Serve` |
| `Dispatch.ServeOutcome` | src/main.cpp:201-224 | the loop ends only at the first fatal error (1) or "kill" (0), no earlier iteration halts, and without either it is still running when the ticks run out |
| `Dispatch.ServeEffects` | src/main.cpp:203-245 | the loop's effects are those of its iterations in order; a fatal iteration contributes nothing, no message is processed in it |
| `Dispatch.ServeSendsOnlyInvalid` | src/main.cpp:243-245 | the loop only calls the engine (never opening it or naming a track) or replies "Invalid" |
| `Program.Run` | src/main.cpp:39-252 | help/version return 0 with no queue; a client opens both queues and sends exactly one command and returns 0; the server never sends to the player queue, replies only "Invalid", returns -1 without a music dir, opens then initialises the engine on the planned path, returns 1 on a fatal start-up error, else plays first then loops, and returns 0 only after "kill" |

## Left out

- Program.Run: the client path uses the corrected `ClientCommand`. With an empty argument list it sends "kill", where `main` as written reads a missing argument 1 (see Findings).
- The Windows command-line conversion in include/WindowsUtility.h and its failure return of -1 (src/main.cpp:50-64) are foreign calls. Arguments are one list of strings.
- The Windows difference between `argc` and the converted argument list is not modelled. One list serves both.
- Home and music directory resolution (src/main.cpp:138-172) uses environment and OS calls. The resolved directory is an input, and its absence stands for the failures that return -1.
- `MessageQueue` and `is_only_instance` (src/main.cpp:94-97, 115) are not part of this model. The role is an input, decided once. The second `is_only_instance` call, which could let `main` fall off its end, is not modelled.
- The client's 16 ms receive and the printing of its reply (src/main.cpp:108-112) are left out. They are timing and output; the client's only modelled effect is its one send.
- The server's blocking receive is one input per iteration: the received message, or none.
- Program.Run: the server loop is observed over a finite sequence of iterations. A server still running at the end has no exit value. Unbounded running is not modelled.
- The `Sound` engine (FMOD) is left out: what `play`, `pause`, `play_next`, `play_prev` and `setMode` do, mode toggling, and track choice. Engine calls are only recorded. `isPlaying` and logged errors are inputs.
- Logger output, the help and version texts, `SysError::SetLog` and all `std::cout` messages are output only. Only the error flag and its severity are kept.
- Message size and capacity limits belong to `MessageQueue`. They appear only as the queues' parameters.

## Findings

| source | as written | input that shows it | evidently intended | confidence | as-written member | corrected member |
|---|---|---|---|---|---|---|
| src/main.cpp:101-104 | `argc == 1` chooses "kill"; any other count reads argument 1 | an empty argument vector (argc 0), which some systems allow through `execve` | "kill" whenever nothing follows the program name (argc at most 1) | low, not executed | `Arguments.EmptyArgumentListReadsOutOfRange` | `Arguments.ClientCommand` |
