/** The server's behaviour on values: what `step`, one `msgrcv`, one pass
    through the `switch` and the whole `while (!kill_requested)` loop do to
    the state the server owns. The `Server` class is proved against these
    functions and `ServerProps` proves the protocol's properties about them. */
module ServerSpec {
  import opened Cpu
  import P = Protocol

  /** Width of the `uint64_t instruction_count`. */
  const U64: nat := 0x1_0000_0000_0000_0000

  /** The budget `main` passes to `step` for one STEP command. */
  const StepBudget: nat := 266666

  /** Everything the loop reads or writes: the instance's data memory,
      run-state and `avr_run` call count, the static instruction counter,
      the global `message` buffer, the responses sent so far and
      `kill_requested`. */
  datatype Snapshot = Snapshot(
    data: seq<byte>,
    state: RunState,
    runCalls: nat,
    count: nat,
    msgType: int,
    text: seq<byte>,
    sent: seq<P.Message>,
    killed: bool)

  /** `avr->data` holds at least the SRAM_BYTES the `memcpy` calls touch
      (`text` has exactly SRAM_BYTES), and the counter is a `uint64_t`. */
  predicate WellFormed(s: Snapshot) {
    |s.text| <= |s.data| && s.count < U64
  }

  // ---------------------------------------------------------------------
  // step

  /** How many `avr_run` calls one `step` makes, and how many of them
      increment `instruction_count`. */
  datatype StepCount = StepCount(calls: nat, counted: nat)

  /** The calls `step(n)` makes when the engine's call number `k` comes
      next: it stops after the first Done or Crashed, which is not counted,
      or after `n` calls. */
  function StepRun(e: Engine, k: nat, n: nat): (r: StepCount)
    ensures r.counted <= r.calls <= n
    ensures r.calls == r.counted || r.calls == r.counted + 1
    decreases n
  {
    if n == 0 then StepCount(0, 0)
    else if Terminal(e(k).state) then StepCount(1, 0)
    else
      var rest := StepRun(e, k + 1, n - 1);
      StepCount(rest.calls + 1, rest.counted + 1)
  }

  /** The state after `calls` of the `avr_run` calls of one `step`, of
      which `counted` incremented `instruction_count`: their stores have
      landed in data memory, the last one left its run-state. */
  function Progressed(e: Engine, s: Snapshot, calls: nat, counted: nat): Snapshot {
    s.(data := Replay(e, s.runCalls, calls, s.data),
       state := if calls == 0 then s.state else e(s.runCalls + calls - 1).state,
       runCalls := s.runCalls + calls,
       count := (s.count + counted) % U64)
  }

  /** The state after `step(n)`: nothing changes unless the CPU is Running
      on entry; otherwise the calls of `StepRun` run, and the counter grows
      by the counted ones, modulo 2^64. */
  function StepSpec(e: Engine, s: Snapshot, n: nat): (r: Snapshot)
    ensures s.state != Running ==> r == s
    ensures s.runCalls <= r.runCalls <= s.runCalls + n
    ensures |r.data| == |s.data|
    ensures r.text == s.text && r.msgType == s.msgType && r.sent == s.sent && r.killed == s.killed
    ensures WellFormed(s) ==> WellFormed(r)
  {
    if s.state != Running then s
    else
      var run := StepRun(e, s.runCalls, n);
      Progressed(e, s, run.calls, run.counted)
  }

  // ---------------------------------------------------------------------
  // One command

  /** `msgrcv` into the reused buffer: the tag is replaced, and the received
      text overwrites only as many leading bytes of `msg_text` as arrived. */
  function Accept(s: Snapshot, m: P.Message): (r: Snapshot)
    requires |m.text| <= |s.text|
    ensures r.msgType == m.tag
    ensures |r.text| == |s.text| && r.text[..|m.text|] == m.text
    ensures r.text[|m.text|..] == s.text[|m.text|..]
    ensures r == s.(msgType := m.tag, text := r.text)
  {
    s.(msgType := m.tag, text := m.text + s.text[|m.text|..])
  }

  /** `msgsnd` of the buffer as it stands. */
  function Send(s: Snapshot): (r: Snapshot)
    ensures |r.sent| == |s.sent| + 1 && r.sent[..|s.sent|] == s.sent
    ensures r.sent[|s.sent|] == P.Message(s.msgType, s.text)
    ensures r == s.(sent := r.sent)
  {
    s.(sent := s.sent + [P.Message(s.msgType, s.text)])
  }

  /** One pass through the `switch` on the buffer's tag, for a server whose
      instance exists. */
  function Handle(e: Engine, s: Snapshot): (r: Snapshot)
    requires WellFormed(s)
    ensures WellFormed(r) && |r.text| == |s.text| && |r.data| == |s.data|
  {
    match P.KindOf(s.msgType)
    case None => s
    case Some(t) =>
      match t
      case Init => Send(s.(msgType := P.InitReply(true).Tag()))
      case ReadData => Send(s.(msgType := P.MsgType.ReadDataOk.Tag(), text := s.data[..|s.text|]))
      case WriteData => Send(s.(data := s.text + s.data[|s.text|..], msgType := P.MsgType.WriteDataOk.Tag()))
      case Step =>
        var stepped := StepSpec(e, s, StepBudget);
        Send(stepped.(msgType := P.MsgType.StepOk.Tag(), text := stepped.data[..|stepped.text|]))
      case Kill => Send(s.(msgType := P.MsgType.KillOk.Tag())).(killed := true)
      case _ => s
  }

  // ---------------------------------------------------------------------
  // The loop

  /** Why the loop stopped: KILL, a failed `msgrcv`, or the inbound queue
      ran dry, so that the server is still blocked in `msgrcv`. */
  datatype Ending = Killed | ReceiveFailed | Blocked

  /** The final state, the number of `msgrcv` calls made and why the loop
      stopped. */
  datatype Outcome = Outcome(final: Snapshot, received: nat, ending: Ending)

  /** Whether `msgrcv`, told the size of a `textBytes`-byte `msg_text`,
      returns this arrival rather than -1. It accepts only what the call as
      written, told `sizeof(message)`, accepts, and differs from it exactly
      on the texts too long for `msg_text` that still fit that size. */
  function Receivable(textBytes: nat, m: P.Inbound): (ok: bool)
    ensures ok ==> m.Delivered? && P.ReceiveAccepts(|m.msg.text|, P.SizeArgAsWritten(textBytes))
    ensures m.Delivered? ==>
      (ok != P.ReceiveAccepts(|m.msg.text|, P.SizeArgAsWritten(textBytes))
       <==> textBytes < |m.msg.text| <= P.StructBytes(textBytes))
  {
    m.Delivered? && P.ReceiveAccepts(|m.msg.text|, P.SizeArg(textBytes))
  }

  /** How many arrivals the loop took through the `switch`: all it received,
      except the one whose `msgrcv` failed. */
  function Handled(o: Outcome): nat {
    if o.ending == ReceiveFailed && o.received > 0 then o.received - 1 else o.received
  }

  /** The state before the loop: the instance as `init_cpu` left it, the
      counter and the zero-initialised global buffer, nothing sent. */
  function Start(mem: seq<byte>, state: RunState, runCalls: nat, textBytes: nat): (s: Snapshot)
    requires textBytes <= |mem|
    ensures WellFormed(s) && !s.killed && s.sent == [] && |s.text| == textBytes
  {
    Snapshot(mem, state, runCalls, 0, 0, seq(textBytes, _ => 0), [], false)
  }

  /** The `while (!kill_requested)` loop over the arrivals `inbox`. */
  function Serve(e: Engine, s: Snapshot, inbox: seq<P.Inbound>): (o: Outcome)
    requires WellFormed(s)
    ensures o.received <= |inbox| && WellFormed(o.final)
    ensures |o.final.text| == |s.text| && |o.final.data| == |s.data|
    decreases |inbox|
  {
    if s.killed then Outcome(s, 0, Killed)
    else if inbox == [] then Outcome(s, 0, Blocked)
    else if !Receivable(|s.text|, inbox[0]) then Outcome(s, 1, ReceiveFailed)
    else
      var o := Serve(e, Handle(e, Accept(s, inbox[0].msg)), inbox[1..]);
      o.(received := o.received + 1)
  }
}
