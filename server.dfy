/** The server process: the bounded `step` routine with its static counter,
    the global `message` buffer that every receive and send reuses, and the
    `while (!kill_requested)` loop of `main` that dispatches on its tag.
    Each method is proved to do what the matching function of `ServerSpec`
    describes. */
module Server {
  import Cpu
  import P = Protocol
  import opened Spec = ServerSpec
  import ServerProps

  class Server {
    /** The emulator instance `init_cpu` returned; the loop only runs when
        it is not NULL. */
    const avr: Cpu.Avr
    /** `message.msg_type` and `message.msg_text` (SRAM_BYTES long). */
    var msgType: int
    const msgText: array<Cpu.byte>
    /** The `static uint64_t instruction_count` of `step`. */
    var instructionCount: nat
    var killRequested: bool
    /** Every `msgsnd` attempt so far, in order. */
    var sent: seq<P.Message>

    ghost predicate Valid()
      reads this, avr
    {
      msgText.Length <= avr.data.Length && msgText != avr.data && instructionCount < U64
    }

    /** The state the loop works on, as a value. */
    ghost function Abstract(): (s: Snapshot)
      reads this, avr, avr.data, msgText
      ensures Valid() ==> WellFormed(s)
    {
      Snapshot(avr.data[..], avr.state, avr.runCalls, instructionCount,
               msgType, msgText[..], sent, killRequested)
    }

    /** The server as `main` has it when the loop starts: the instance, a
        zeroed global buffer of `sramBytes` bytes, a zero counter. */
    constructor (cpu: Cpu.Avr, sramBytes: nat)
      requires sramBytes <= cpu.data.Length
      ensures Valid() && avr == cpu && fresh(msgText)
      ensures Abstract() == Start(cpu.data[..], cpu.state, cpu.runCalls, sramBytes)
    {
      avr := cpu;
      msgType := 0;
      msgText := new Cpu.byte[sramBytes](_ => 0);
      instructionCount := 0;
      killRequested := false;
      sent := [];
    }

    /** `step(n)`: when the CPU is Running, call `avr_run` up to `n` times,
        stop at the first Done or Crashed, and count every other result. */
    method Step(n: nat)
      requires Valid()
      modifies this, avr, avr.data
      ensures Valid()
      ensures Abstract() == StepSpec(avr.engine, old(Abstract()), n)
    {
      if avr.state != Cpu.Running {
        return;
      }
      ghost var s0 := Abstract();
      var i: nat := 0;
      while i < n
        invariant i <= n && Valid()
        invariant Abstract() == Progressed(avr.engine, s0, i, i)
        invariant forall c :: s0.runCalls <= c < s0.runCalls + i ==> !Cpu.Terminal(avr.engine(c).state)
      {
        var stop := StepOnce(s0, i);
        if stop {
          break;
        }
        i := i + 1;
      }
      ServerProps.StepSpecStopsAt(avr.engine, s0, n, i);
    }

    /** One pass through the body of `step`'s loop: `avr_run`, then
        `instruction_count++` unless the call returned Done or Crashed, in
        which case the loop breaks (`stop`). `s0` and `i` are the state on
        entry to `step` and the calls counted so far. */
    method StepOnce(ghost s0: Snapshot, ghost i: nat) returns (stop: bool)
      requires Valid()
      requires Abstract() == Progressed(avr.engine, s0, i, i)
      modifies this`instructionCount, avr, avr.data
      ensures Valid()
      ensures stop == Cpu.Terminal(avr.engine(old(avr.runCalls)).state)
      ensures Abstract() == Progressed(avr.engine, s0, i + 1, if stop then i else i + 1)
    {
      ServerProps.ProgressedRun(avr.engine, s0, i, i);
      ServerProps.ProgressedCount(avr.engine, s0, i + 1, i);
      var state := avr.Run();
      if state == Cpu.Done || state == Cpu.Crashed {
        return true;
      }
      instructionCount := (instructionCount + 1) % U64;
      return false;
    }

    /** `msgrcv` into the global buffer. It fails on a transport error and,
        with the size of `msg_text` as its limit, on a longer message;
        otherwise it sets the tag and overwrites the leading bytes of the
        text with the bytes that arrived. */
    method Receive(m: P.Inbound) returns (ok: bool)
      requires Valid()
      modifies this`msgType, msgText
      ensures Valid()
      ensures ok == Receivable(msgText.Length, m)
      ensures ok ==> Abstract() == Accept(old(Abstract()), m.msg)
      ensures !ok ==> Abstract() == old(Abstract())
    {
      if m.RecvFailed? || !P.ReceiveAccepts(|m.msg.text|, P.SizeArg(msgText.Length)) {
        return false;
      }
      msgType := m.msg.tag;
      forall j | 0 <= j < |m.msg.text| {
        msgText[j] := m.msg.text[j];
      }
      ok := true;
    }

    /** `msgsnd` of the buffer; whether the queue takes it only decides
        whether `perror` runs. */
    method Send()
      modifies this`sent
      ensures Abstract() == Spec.Send(old(Abstract()))
    {
      sent := sent + [P.Message(msgType, msgText[..])];
    }

    /** `memcpy(message.msg_text, avr->data, SRAM_BYTES)`. */
    method CopyDataOut()
      requires Valid()
      modifies msgText
      ensures msgText[..] == avr.data[..msgText.Length]
    {
      forall j | 0 <= j < msgText.Length {
        msgText[j] := avr.data[j];
      }
    }

    /** `memcpy(avr->data, message.msg_text, SRAM_BYTES)`. */
    method CopyDataIn()
      requires Valid()
      modifies avr.data
      ensures avr.data[..] == msgText[..] + old(avr.data[msgText.Length..])
    {
      forall j | 0 <= j < msgText.Length {
        avr.data[j] := msgText[j];
      }
    }

    /** The `switch` on the received tag. */
    method Dispatch()
      requires Valid()
      modifies this, avr, avr.data, msgText
      ensures Valid()
      ensures Abstract() == Handle(avr.engine, old(Abstract()))
    {
      match P.KindOf(msgType)
      case None =>
        // A value outside the enum matches no case label; there is no default.
      case Some(t) =>
        match t
        case Nothing =>
        case Init =>
          msgType := P.InitReply(true).Tag();
          Send();
        case ReadData =>
          msgType := P.MsgType.ReadDataOk.Tag();
          CopyDataOut();
          Send();
        case WriteData =>
          CopyDataIn();
          msgType := P.MsgType.WriteDataOk.Tag();
          Send();
        case Step =>
          Step(StepBudget);
          msgType := P.MsgType.StepOk.Tag();
          CopyDataOut();
          Send();
        case Kill =>
          msgType := P.MsgType.KillOk.Tag();
          Send();
          killRequested := true;
        case _ =>
          // A response kind received as a command: reported, not answered.
    }

    /** The loop of `main`: receive one message, dispatch it, and go on until
        KILL or a failed `msgrcv`. When `inbox` is used up the server is
        still waiting in `msgrcv`; the method then returns `Blocked`. */
    method Serve(inbox: seq<P.Inbound>) returns (ending: Ending, received: nat)
      requires Valid()
      modifies this, avr, avr.data, msgText
      ensures Valid()
      ensures Outcome(Abstract(), received, ending) == Spec.Serve(avr.engine, old(Abstract()), inbox)
    {
      ghost var s0 := Abstract();
      received := 0;
      while !killRequested
        invariant Valid() && received <= |inbox|
        invariant var o := Spec.Serve(avr.engine, Abstract(), inbox[received..]);
          Spec.Serve(avr.engine, s0, inbox) == o.(received := o.received + received)
        decreases |inbox| - received
      {
        if received == |inbox| {
          return Blocked, received;
        }
        var ok := Receive(inbox[received]);
        received := received + 1;
        if !ok {
          return ReceiveFailed, received;
        }
        Dispatch();
      }
      ending := Killed;
    }
  }

  /** `main` from the moment `init_cpu` has returned `cpu`: with NULL it
      returns -1 before the loop, sending nothing; otherwise it runs the
      loop and returns 0 once the loop ends (no exit code while the server
      still waits for a message). */
  method RunServer(cpu: Cpu.Avr?, sramBytes: nat, inbox: seq<P.Inbound>)
      returns (exitCode: P.Option<int>, sent: seq<P.Message>)
    requires cpu != null ==> sramBytes <= cpu.data.Length
    modifies if cpu == null then {} else {cpu, cpu.data}
    ensures cpu == null ==> exitCode == P.Some(-1) && sent == []
    ensures cpu != null ==>
      var o := Spec.Serve(cpu.engine, Start(old(cpu.data[..]), old(cpu.state), old(cpu.runCalls), sramBytes), inbox);
      && sent == o.final.sent
      && exitCode == (if o.ending == Blocked then P.None else P.Some(0))
    ensures forall i :: 0 <= i < |sent| ==> sent[i].tag != P.MsgType.InitFailed.Tag()
  {
    if cpu == null {
      return P.Some(-1), [];
    }
    var server := new Server(cpu, sramBytes);
    ghost var s0 := server.Abstract();
    var ending, received := server.Serve(inbox);
    sent := server.sent;
    exitCode := if ending == Blocked then P.None else P.Some(0);
    ServerProps.NeverInitFailed(cpu.engine, s0, inbox);
  }
}
