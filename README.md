# simavr server: command loop and bounded stepping

A Dafny model of the command-processing server of simavr's
`board_simavr_server` example. The server is one process. It owns one
emulated AVR instance, takes commands from one System V message queue and
answers on another. The model covers four parts of the server:

- the `MsgType` enum and the `msg_buffer` record that travels over both
  queues (`protocol.dfy`);
- the emulator instance as the server sees it. That is its run-state, its
  data memory and the one primitive the server calls, `avr_run`
  (`cpu.dfy`). What an instruction does belongs to the emulation engine,
  so the model takes it as an oracle. An `Engine` maps the number of the
  `avr_run` call to the run-state that call leaves and the data-memory
  bytes it stores. Every execution of the engine is one such function;
- `step`, the bounded run with its `static uint64_t instruction_count`,
  and the `while (!kill_requested)` loop of `main` with its `switch` over
  the received tag. These are the class `Server.Server` (`server.dfy`),
  which owns the global `message` buffer as an array that every receive
  and send reuses;
- the same behaviour as pure functions on a `Snapshot` value
  (`server_spec.dfy`), and the protocol's properties proved about those
  functions (`server_props.dfy`). Every method of the class except the
  two `memcpy` helpers `Dispatch` uses (`CopyDataOut` and `CopyDataIn`,
  whose contracts speak of the arrays directly) states its new
  state as one of these functions of its old state, so the lemmas apply
  to the class as well.

The inbound queue is a sequence of arrivals. Each arrival is either a
delivered message or a `RecvFailed` transport error. The outbound queue is
the log `sent` of every `msgsnd` attempt. When the arrivals run out, the
server is still blocked in `msgrcv`. The loop then reports `Blocked`, and
`RunServer` gives no exit code.

In four places the code behaves differently from what its protocol
suggests; the model follows the code:

- `step`'s loop stops only on Done or Crashed. Any other state, Sleeping or
  Stopped for example, keeps it calling `avr_run` up to the budget. It does
  not stop as soon as the CPU is no longer Running.
- NONE, the six response kinds and every tag outside the enum get no
  answer. They do not get one response per message.
- The buffer is reused. So INIT_OK, WRITE_DATA_OK and KILL_OK echo the text
  currently in `msg_text`, and do not carry an empty payload. A short
  message overwrites only the leading bytes of `msg_text`; the rest keeps
  what the previous message left there.
- `msg_type` is a `long` that is converted to `enum MsgType`, whose values
  are all non-negative, so GCC and Clang give it the type `unsigned int`:
  the tag is taken modulo 2^32 before the `switch`.

## Model

| member | source | states |
|---|---|---|
| Protocol.FromEnum | examples/board_simavr_server/simavr_server.c:23-36 | a value selects a kind exactly when it is one of the twelve enum values 0..11, and the kind selected has that value |
| Protocol.TagRoundTrip | examples/board_simavr_server/simavr_server.c:23-36 | every kind's value selects that kind again, directly and after the `long` to enum conversion |
| Protocol.EnumValue | examples/board_simavr_server/simavr_server.c:141 | the conversion of `msg_type` to the enum yields a value below 2^32 that is congruent to the tag modulo 2^32, and the tag itself when it is already in range |
| Protocol.KindOf | examples/board_simavr_server/simavr_server.c:141-142 | a received tag selects a `case` exactly when its value after the conversion to the enum is below 12, and the kind selected has that value |
| Protocol.InitReply | examples/board_simavr_server/simavr_server.c:150-157 | INIT is answered INIT_OK exactly when the instance exists, and INIT_FAILED exactly when it does not |
| Protocol.ReplyTo | examples/board_simavr_server/simavr_server.c:142-235 | a kind earns a reply exactly when it is one of the five commands, every reply is a response kind, and INIT_FAILED is the reply only to INIT without an instance |
| Protocol.ReplyToTag | examples/board_simavr_server/simavr_server.c:141-236 | a received tag earns a reply exactly when its enum value is 1..5; NONE, the response kinds and out-of-enum values earn none; a server with an instance never replies INIT_FAILED |
| Protocol.StructBytes | examples/board_simavr_server/simavr_server.c:38-41 | `sizeof(struct msg_buffer)` is the 8-byte tag plus `msg_text` rounded up to a multiple of 8: a multiple of 8, at least the tag and text together and less than 8 bytes more |
| Cpu.Store | examples/board_simavr_server/simavr_server.c:50 | one `avr_run` call changes exactly the addresses it stores to, and keeps the memory's length |
| Cpu.Avr.Run | examples/board_simavr_server/simavr_server.c:50 | `avr_run` leaves the CPU in the engine's next state and returns that state, applies that call's stores to data memory, and counts the call |
| ServerSpec.StepRun | examples/board_simavr_server/simavr_server.c:49-62 | one `step(n)` makes at most `n` calls, and counts all of them or all but the last |
| ServerSpec.StepSpec | examples/board_simavr_server/simavr_server.c:43-65 | `step` is a no-op unless the CPU is Running; otherwise it makes at most `n` calls, keeps the memory's size and the counter below 2^64, and touches neither the buffer, the sends nor `kill_requested` |
| ServerSpec.Accept | examples/board_simavr_server/simavr_server.c:133 | a received message replaces the tag and the leading bytes of `msg_text`; the remaining bytes and the rest of the state stay as they were |
| ServerSpec.Receivable | examples/board_simavr_server/simavr_server.c:133 | the receive with the intended limit, the size of `msg_text`, accepts only what `msgrcv` as written accepts, and differs from it exactly on the texts longer than `msg_text` but within `sizeof(message)` |
| ServerSpec.Send | examples/board_simavr_server/simavr_server.c:159 | a `msgsnd` attempt keeps the earlier sends, adds the buffer's current tag and text as the last one, and changes nothing else; the sends at lines 173, 189, 205 and 219 are the same |
| ServerSpec.Handle | examples/board_simavr_server/simavr_server.c:141-236 | one pass through the `switch` keeps the buffer and memory sizes and the counter's range |
| ServerSpec.Start | examples/board_simavr_server/simavr_server.c:38-44 | the loop starts with nothing sent, `kill_requested` clear and a buffer of SRAM_BYTES bytes |
| ServerSpec.Serve | examples/board_simavr_server/simavr_server.c:128-239 | the loop receives at most as many messages as arrive, and keeps the buffer and memory sizes |
| ServerProps.StepRunFirstTerminal | examples/board_simavr_server/simavr_server.c:49-62 | if call `i` is the first Done or Crashed result, `step` makes `i + 1` calls and counts `i`; if there is none within the budget, it makes and counts all `n` |
| ServerProps.StepRunStops | examples/board_simavr_server/simavr_server.c:53-61 | every counted call returned a non-terminal state, and `step` makes one uncounted call exactly when a call returned Done or Crashed within the budget; otherwise it used the whole budget |
| ServerProps.StepRunCountsNonTerminal | examples/board_simavr_server/simavr_server.c:49-62 | the calls `step` counts are exactly the non-terminal results among the calls it made |
| ServerProps.StepCounter | examples/board_simavr_server/simavr_server.c:44-62 | `instruction_count` persists across calls and grows by the number of non-terminal results of this call, modulo 2^64; below the wrap-around it never decreases |
| ServerProps.StepSpecStopsAt | examples/board_simavr_server/simavr_server.c:49-62 | the state after `step` on a Running CPU is the memory, run-state and counter after the calls up to and including the first terminal one |
| ServerProps.ProgressedRun | examples/board_simavr_server/simavr_server.c:50 | one more call of `step`'s loop applies that call's stores and state on top of the earlier calls |
| ServerProps.ProgressedCount | examples/board_simavr_server/simavr_server.c:62 | one more counted call moves the counter on by one, modulo 2^64 |
| ServerProps.HandleRunsBounded | examples/board_simavr_server/simavr_server.c:197-200 | a STEP command makes at most 266666 `avr_run` calls; no other command makes any |
| ServerProps.HandleAnswersOnce | examples/board_simavr_server/simavr_server.c:142-235 | each of the five commands is answered by exactly one send, tagged with its reply and carrying the buffer's text; any other tag changes nothing and sends nothing; only KILL sets `kill_requested` |
| ServerProps.ReplyText | examples/board_simavr_server/simavr_server.c:146-227 | because the buffer is reused, INIT_OK, WRITE_DATA_OK and KILL_OK carry back the text that arrived; READ_DATA_OK and STEP_OK carry the first SRAM_BYTES of data memory, for STEP the memory `step(266666)` left |
| ServerProps.ReadDataIsSnapshot | examples/board_simavr_server/simavr_server.c:167-180 | READ_DATA leaves memory and run-state unchanged and answers READ_DATA_OK with the first SRAM_BYTES of memory |
| ServerProps.WriteThenRead | examples/board_simavr_server/simavr_server.c:167-196 | WRITE_DATA overwrites the first SRAM_BYTES of memory with the buffer and nothing else, WRITE_DATA_OK echoes the buffer, and a following READ_DATA returns exactly those bytes; a full-size payload comes back unchanged |
| ServerProps.StepWhileStopped | examples/board_simavr_server/simavr_server.c:197-211 | STEP on a CPU that is not Running makes no call, changes neither memory, run-state nor counter, and still answers STEP_OK with the unchanged memory |
| ServerProps.RepliesAreResponses | examples/board_simavr_server/simavr_server.c:142-235 | every reply the loop sends is a response kind and none is INIT_FAILED |
| ServerProps.ServeAnswersInOrder | examples/board_simavr_server/simavr_server.c:130-236 | the sends are exactly one reply per handled command, in arrival order, and nothing for the other tags |
| ServerProps.ServeEnding | examples/board_simavr_server/simavr_server.c:128-239 | the loop ends by KILL exactly when the last handled arrival is KILL, and its KILL_OK is then the last send; it also ends after a failed `msgrcv`, once the messages before it are handled; otherwise it waits with every arrival handled |
| ServerProps.KillLastEnds | examples/board_simavr_server/simavr_server.c:130-227 | when every arrival fits and only the last is KILL, the loop receives them all and ends by KILL |
| ServerProps.KillLastAnswers | examples/board_simavr_server/simavr_server.c:130-227 | such a run answers every arrival in order and runs the CPU at most 266666 cycles per STEP among them |
| ServerProps.NoKillNeverEnds | examples/board_simavr_server/simavr_server.c:130-236 | without KILL and without a failed receive, the loop handles every arrival, answers in order and never ends |
| ServerProps.NeverInitFailed | examples/board_simavr_server/simavr_server.c:115-157 | once the loop runs, the instance exists, so INIT_FAILED is never sent |
| ServerProps.ServeRunsBounded | examples/board_simavr_server/simavr_server.c:128-239 | over a whole run the CPU makes at most 266666 `avr_run` calls per STEP command handled |
| ServerProps.AsWrittenReceiveOverflows | examples/board_simavr_server/simavr_server.c:133 | with `sizeof(message)` as its limit, `msgrcv` accepts every text up to 8 bytes longer than `msg_text`, and the limit the model uses refuses each of them |
| ServerProps.AsWrittenSendOverreads | examples/board_simavr_server/simavr_server.c:159 | with `sizeof(message)` as its size, `msgsnd` reads 8 to 15 bytes beyond `msg_text`, exactly 8 when SRAM_BYTES is a multiple of 8, so it hands the queue at least 8 bytes more than the text the model's send carries |
| ServerProps.ServeReceivesOnlyFitting | examples/board_simavr_server/simavr_server.c:130-136 | with the intended size every message the loop handles fits the buffer, and a loop that ends in a failed `msgrcv` ends at an arrival that failed or did not fit |
| ServerProps.Session | examples/board_simavr_server/simavr_server.c:128-239 | INIT, WRITE_DATA, READ_DATA, STEP and KILL in a row are answered by INIT_OK, WRITE_DATA_OK, READ_DATA_OK, STEP_OK and KILL_OK, for any payload that fits the buffer, short ones included; the CPU runs at most 266666 cycles, and the loop ends with KILL |
| Server.Server.constructor | examples/board_simavr_server/simavr_server.c:38-44 | the server starts with the instance, a zeroed SRAM_BYTES buffer, a zero counter and nothing sent |
| Server.Server.Step | examples/board_simavr_server/simavr_server.c:43-65 | the loop of `step` leaves exactly the state `StepSpec` describes |
| Server.Server.StepOnce | examples/board_simavr_server/simavr_server.c:50-62 | one pass of `step`'s loop runs one cycle, and increments the counter modulo 2^64 unless the result was Done or Crashed, in which case it reports that the loop breaks |
| Server.Server.Receive | examples/board_simavr_server/simavr_server.c:133-136 | `msgrcv` succeeds exactly for a delivered message that fits the buffer; it then leaves the state `Accept` describes, and otherwise changes nothing |
| Server.Server.Send | examples/board_simavr_server/simavr_server.c:159-163 | a send attempt leaves exactly the state `ServerSpec.Send` describes: the buffer's tag and text appended to the log |
| Server.Server.CopyDataOut | examples/board_simavr_server/simavr_server.c:171 | the buffer's text becomes the first SRAM_BYTES of data memory |
| Server.Server.CopyDataIn | examples/board_simavr_server/simavr_server.c:185 | the first SRAM_BYTES of data memory become the buffer's text, and the rest of memory is unchanged |
| Server.Server.Dispatch | examples/board_simavr_server/simavr_server.c:141-236 | the `switch` leaves exactly the state `Handle` describes |
| Server.Server.Serve | examples/board_simavr_server/simavr_server.c:128-239 | the loop leaves the state, receive count and ending that `ServerSpec.Serve` describes |
| Server.RunServer | examples/board_simavr_server/simavr_server.c:115-247 | with a NULL instance `main` returns -1 and sends nothing; otherwise its sends are those of the loop from the start state, it returns 0 once the loop ends, and it never sends INIT_FAILED |

## Left out

- `cpu.c` is not part of this model. That covers `init_cpu`, the persistence of flash to its backing file, and the raw file I/O. The instance `init_cpu` returns is a parameter of `RunServer`, NULL or not.
- `cpu.h` holds declarations only.
- Queue setup and teardown are not modelled: `msgget`, and `msgctl(IPC_RMID)` at lines 243-244. The same goes for the check at line 104, which tests `in_msgid` a second time where `out_msgid` was meant; it only concerns queue setup.
- Argument handling and log redirection (lines 69-90) are not modelled. They are process I/O.
- What `avr_run` executes is not modelled. It is an oracle, the `Engine`.
- `printf` and `perror` output is not modelled.
- The model admits arrivals that System V never delivers. `msgsnd` refuses a message whose `mtype` is below 1 (EINVAL), so no client can queue a tag of 0 (NONE) or a negative tag. The model lets such tags arrive and handles them as the `switch` would; the silence for NONE is therefore reachable in the model only.
- Only the LP64 GCC/Clang targets the server is built for are modelled. There `long` is 8 bytes with 8-byte alignment, and a `MsgType` enum with no negative values is an `unsigned int`; C leaves the enum's type to the implementation. `LongBytes`, `StructBytes` and `EnumValue` rest on these choices.
- Server.Server.Send: whether `msgsnd` succeeds is not modelled. Its only effect in the source is a `perror`, so every attempt is logged the same way.
- `simavr_server.h` is not part of this model, so SRAM_BYTES has no fixed value. It is the constructor's `sramBytes` parameter and the length of `msgText`. `avr->data` may be longer; the `memcpy` calls touch only its first SRAM_BYTES.
- The undefined behaviour in the source is not modelled: the buffer overflow and the over-read that the size argument allows. See Findings; the model uses the corrected size.
- The model does not represent a `msgrcv` that blocks forever. The arrivals are finite, and a loop that runs out of them ends as `Blocked`.
- ServerProps.StepCounter: "never decreases" is stated only while the counter plus the budget stays below 2^64. At 2^64 the `uint64_t` wraps to 0, as the model's `% U64` does.
- ServerProps.Session: states the reply tags, the ending and the cycle bound of the session. It does not state the payloads; `WriteThenRead` and `ReadDataIsSnapshot` cover those.

## Findings

| source | as written | input that shows it | evidently intended | confidence | as-written member | corrected member |
|---|---|---|---|---|---|---|
| examples/board_simavr_server/simavr_server.c:133 | `msgrcv` and every `msgsnd` (lines 159, 173, 189, 205, 219) are given `sizeof(message)` as the message size. That is the `long` tag plus `msg_text` plus any trailing padding, where the size of the text part alone is expected | a message whose text is SRAM_BYTES + 1 bytes is accepted and written one byte past `msg_text`; every send reads at least 8 bytes beyond `msg_text` (8 bytes beyond the whole record) | `sizeof(message.msg_text)`, so that only messages fitting the buffer are received and each send covers exactly the buffer | not executed | ServerProps.AsWrittenReceiveOverflows | ServerProps.ServeReceivesOnlyFitting |
