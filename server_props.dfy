/** What the server promises, proved about the functions of `ServerSpec`:
    the stepping policy, the answers to single commands, and the order and
    ending of the command loop. */
module ServerProps {
  import opened Cpu
  import P = Protocol
  import opened ServerSpec

  // ---------------------------------------------------------------------
  // step

  /** `StepRun` is fixed by the first terminal outcome: if the calls before
      `k + i` are all non-terminal and call `k + i` is terminal (or `i` is
      the budget), `step` makes `i + 1` calls and counts `i` (or makes and
      counts all `n`). */
  lemma {:induction false} StepRunFirstTerminal(e: Engine, k: nat, n: nat, i: nat)
    requires i <= n
    requires forall c :: k <= c < k + i ==> !Terminal(e(c).state)
    requires i < n ==> Terminal(e(k + i).state)
    ensures StepRun(e, k, n) == if i < n then StepCount(i + 1, i) else StepCount(n, n)
    decreases i
  {
    if i > 0 {
      StepRunFirstTerminal(e, k + 1, n - 1, i - 1);
    }
  }

  /** Conversely, every counted call returned a non-terminal state, and
      `step` stops before its budget exactly when a call returned Done or
      Crashed. */
  lemma {:induction false} StepRunStops(e: Engine, k: nat, n: nat)
    ensures forall c :: k <= c < k + StepRun(e, k, n).counted ==> !Terminal(e(c).state)
    ensures StepRun(e, k, n).calls == StepRun(e, k, n).counted + 1
        <==> StepRun(e, k, n).counted < n && Terminal(e(k + StepRun(e, k, n).counted).state)
    ensures StepRun(e, k, n).calls == StepRun(e, k, n).counted ==> StepRun(e, k, n).calls == n
    decreases n
  {
    if n > 0 && !Terminal(e(k).state) {
      StepRunStops(e, k + 1, n - 1);
    }
  }

  /** The number of non-terminal outcomes among the `count` calls from `k`. */
  function NonTerminalCount(e: Engine, k: nat, count: nat): (r: nat)
    ensures r <= count
    decreases count
  {
    if count == 0 then 0
    else (if Terminal(e(k).state) then 0 else 1) + NonTerminalCount(e, k + 1, count - 1)
  }

  /** The calls `step` counts are exactly the non-terminal ones it made. */
  lemma {:induction false} StepRunCountsNonTerminal(e: Engine, k: nat, n: nat)
    ensures StepRun(e, k, n).counted == NonTerminalCount(e, k, StepRun(e, k, n).calls)
    decreases n
  {
    if n > 0 && !Terminal(e(k).state) {
      StepRunCountsNonTerminal(e, k + 1, n - 1);
    }
  }

  /** `instruction_count` grows by the number of non-terminal `avr_run`
      results of this call, modulo 2^64; below the wrap-around it never
      decreases. */
  lemma StepCounter(e: Engine, s: Snapshot, n: nat)
    requires WellFormed(s)
    ensures StepSpec(e, s, n).count
         == (s.count + NonTerminalCount(e, s.runCalls, StepSpec(e, s, n).runCalls - s.runCalls)) % U64
    ensures s.count + n < U64 ==> s.count <= StepSpec(e, s, n).count
  {
    StepRunCountsNonTerminal(e, s.runCalls, n);
    if s.state == Running {
      var run := StepRun(e, s.runCalls, n);
      var r := StepSpec(e, s, n);
      assert r.runCalls == s.runCalls + run.calls && r.count == (s.count + run.counted) % U64;
      if s.count + n < U64 {
        assert s.count + run.counted < U64;
      }
    }
  }

  /** `step(n)` on a Running CPU whose first terminal outcome is call
      `s.runCalls + i` (or none within the budget, `i == n`). */
  lemma StepSpecStopsAt(e: Engine, s: Snapshot, n: nat, i: nat)
    requires s.state == Running && i <= n
    requires forall c :: s.runCalls <= c < s.runCalls + i ==> !Terminal(e(c).state)
    requires i < n ==> Terminal(e(s.runCalls + i).state)
    ensures StepSpec(e, s, n) == Progressed(e, s, if i < n then i + 1 else i, i)
  {
    StepRunFirstTerminal(e, s.runCalls, n, i);
  }

  /** One more `avr_run` call of `step`: its stores and state on top of
      the calls before it. */
  lemma ProgressedRun(e: Engine, s: Snapshot, calls: nat, counted: nat)
    ensures var p := Progressed(e, s, calls, counted);
      Progressed(e, s, calls + 1, counted)
      == p.(data := Store(p.data, e(p.runCalls).stores), state := e(p.runCalls).state, runCalls := p.runCalls + 1)
  {
  }

  /** One more counted call moves the counter on by one, modulo 2^64. */
  lemma ProgressedCount(e: Engine, s: Snapshot, calls: nat, counted: nat)
    ensures var p := Progressed(e, s, calls, counted);
      Progressed(e, s, calls, counted + 1) == p.(count := (p.count + 1) % U64)
  {
  }

  /** A STEP command makes at most `StepBudget` (266666) `avr_run` calls;
      every other command makes none. */
  lemma HandleRunsBounded(e: Engine, s: Snapshot)
    requires WellFormed(s)
    ensures Handle(e, s).runCalls <= s.runCalls + StepBudget
    ensures P.KindOf(s.msgType) != P.Some(P.Step) ==> Handle(e, s).runCalls == s.runCalls
  {
  }

  // ---------------------------------------------------------------------
  // One command

  /** Each of the five commands is answered by exactly one send, whose tag
      is the protocol's reply and whose text is the buffer as it then
      stands; any other tag changes nothing and sends nothing. Only KILL
      ends the loop. */
  lemma HandleAnswersOnce(e: Engine, s: Snapshot)
    requires WellFormed(s)
    ensures P.ReplyToTag(s.msgType).None? ==> Handle(e, s) == s
    ensures P.ReplyToTag(s.msgType).Some? ==>
      Handle(e, s).sent == s.sent + [P.Message(P.ReplyToTag(s.msgType).value.Tag(), Handle(e, s).text)]
    ensures Handle(e, s).killed <==> s.killed || P.KindOf(s.msgType) == P.Some(P.Kill)
  {
  }

  /** What each reply carries. The buffer is reused, so INIT_OK,
      WRITE_DATA_OK and KILL_OK carry back the text that arrived;
      READ_DATA_OK and STEP_OK carry the first SRAM_BYTES of data memory,
      for STEP as `step(266666)` left it. */
  lemma ReplyText(e: Engine, s: Snapshot)
    requires WellFormed(s)
    ensures P.KindOf(s.msgType) in {P.Some(P.Init), P.Some(P.WriteData), P.Some(P.Kill)} ==>
      Handle(e, s).text == s.text
    ensures P.KindOf(s.msgType) in {P.Some(P.ReadData), P.Some(P.Step)} ==>
      Handle(e, s).text == Handle(e, s).data[..|s.text|]
    ensures P.KindOf(s.msgType) == P.Some(P.Step) ==> Handle(e, s).data == StepSpec(e, s, StepBudget).data
  {
  }

  /** READ_DATA copies SRAM_BYTES of data memory into the answer and
      changes neither memory nor run-state. */
  lemma ReadDataIsSnapshot(e: Engine, s: Snapshot)
    requires WellFormed(s) && P.KindOf(s.msgType) == P.Some(P.ReadData)
    ensures Handle(e, s).data == s.data && Handle(e, s).state == s.state
    ensures Handle(e, s).sent == s.sent + [P.Message(P.MsgType.ReadDataOk.Tag(), s.data[..|s.text|])]
  {
  }

  /** WRITE_DATA followed by READ_DATA: memory's first SRAM_BYTES become the
      received text padded with the buffer's older bytes, the rest of memory
      is untouched, WRITE_DATA_OK echoes that buffer, and READ_DATA returns
      exactly those bytes. A full-size payload comes back unchanged. */
  lemma WriteThenRead(e: Engine, s: Snapshot, p: seq<byte>, q: seq<byte>)
    requires WellFormed(s) && |p| <= |s.text| && |q| <= |s.text|
    ensures
      var written := p + s.text[|p|..];
      var w := Handle(e, Accept(s, P.Message(P.MsgType.WriteData.Tag(), p)));
      var r := Handle(e, Accept(w, P.Message(P.MsgType.ReadData.Tag(), q)));
      && w.data == written + s.data[|s.text|..]
      && r.data == w.data
      && r.sent == s.sent + [P.Message(P.MsgType.WriteDataOk.Tag(), written),
                             P.Message(P.MsgType.ReadDataOk.Tag(), written)]
      && (|p| == |s.text| ==> written == p)
  {
    var written := p + s.text[|p|..];
    var a := Accept(s, P.Message(P.MsgType.WriteData.Tag(), p));
    P.TagRoundTrip(P.WriteData);
    assert a.text == written;
    var w := Handle(e, a);
    assert w.data[..|s.text|] == written;
    var b := Accept(w, P.Message(P.MsgType.ReadData.Tag(), q));
    P.TagRoundTrip(P.ReadData);
  }

  /** STEP while the CPU is not Running changes no memory, no state and no
      counter, and still answers STEP_OK with the unchanged snapshot. */
  lemma StepWhileStopped(e: Engine, s: Snapshot)
    requires WellFormed(s) && P.KindOf(s.msgType) == P.Some(P.Step) && s.state != Running
    ensures Handle(e, s).data == s.data && Handle(e, s).state == s.state
    ensures Handle(e, s).runCalls == s.runCalls && Handle(e, s).count == s.count
    ensures Handle(e, s).sent == s.sent + [P.Message(P.MsgType.StepOk.Tag(), s.data[..|s.text|])]
  {
  }

  // ---------------------------------------------------------------------
  // The loop

  /** The tags of a sequence of messages. */
  function Tags(ms: seq<P.Message>): (r: seq<int>)
    ensures |r| == |ms| && forall i :: 0 <= i < |ms| ==> r[i] == ms[i].tag
  {
    seq(|ms|, i requires 0 <= i < |ms| => ms[i].tag)
  }

  /** The reply tags a sequence of received messages earns, in order. */
  function Replies(inbox: seq<P.Inbound>): seq<int>
    decreases |inbox|
  {
    if inbox == [] then []
    else
      (if inbox[0].Delivered? && P.ReplyToTag(inbox[0].msg.tag).Some?
       then [P.ReplyToTag(inbox[0].msg.tag).value.Tag()] else [])
      + Replies(inbox[1..])
  }

  /** The replies to the first `k` arrivals: those to the first, then
      those to the next `k - 1`. */
  lemma RepliesPrefix(inbox: seq<P.Inbound>, k: nat)
    requires 1 <= k <= |inbox|
    ensures Replies(inbox[..k]) == Replies([inbox[0]]) + Replies(inbox[1..][..k - 1])
  {
    var handled := inbox[..k];
    assert handled[1..] == inbox[1..][..k - 1];
    assert [handled[0]][1..] == [];
  }

  /** Tags sent in two stretches, one after the other. */
  lemma TagsChain(s0: seq<P.Message>, s1: seq<P.Message>, s2: seq<P.Message>, r1: seq<int>, r2: seq<int>)
    requires Tags(s1) == Tags(s0) + r1 && Tags(s2) == Tags(s1) + r2
    ensures Tags(s2) == Tags(s0) + (r1 + r2)
  {
  }

  /** No reply is ever INIT_FAILED, and every reply is a response kind. */
  lemma {:induction false} RepliesAreResponses(inbox: seq<P.Inbound>)
    ensures forall t <- Replies(inbox) :: t != P.MsgType.InitFailed.Tag() && 6 <= t <= 11
    decreases |inbox|
  {
    if inbox != [] {
      RepliesAreResponses(inbox[1..]);
      if inbox[0].Delivered? && P.ReplyToTag(inbox[0].msg.tag).Some? {
        var t := P.ReplyToTag(inbox[0].msg.tag).value;
        assert t.Tag() != P.MsgType.InitFailed.Tag() && 6 <= t.Tag() <= 11;
      }
    }
  }

  /** One pass of the loop adds the tag of the reply its message earns,
      if any, to the tags sent. */
  lemma TurnTags(e: Engine, s: Snapshot, m: P.Message)
    requires WellFormed(s) && |m.text| <= |s.text|
    ensures Tags(Handle(e, Accept(s, m)).sent) == Tags(s.sent) + Replies([P.Delivered(m)])
  {
    HandleAnswersOnce(e, Accept(s, m));
    assert [P.Delivered(m)][1..] == [];
  }

  /** The sends are exactly one reply per handled command, in the order the
      commands arrived. */
  lemma {:induction false} ServeAnswersInOrder(e: Engine, s: Snapshot, inbox: seq<P.Inbound>)
    requires WellFormed(s)
    ensures Handled(Serve(e, s, inbox)) <= |inbox|
    ensures Tags(Serve(e, s, inbox).final.sent)
         == Tags(s.sent) + Replies(inbox[..Handled(Serve(e, s, inbox))])
    decreases |inbox|
  {
    var o := Serve(e, s, inbox);
    if s.killed || inbox == [] || !Receivable(|s.text|, inbox[0]) {
      assert Handled(o) == 0 && o.final == s;
    } else {
      var h := Handle(e, Accept(s, inbox[0].msg));
      TurnTags(e, s, inbox[0].msg);
      ServeAnswersInOrder(e, h, inbox[1..]);
      var rest := Serve(e, h, inbox[1..]);
      assert o.final == rest.final && Handled(o) == Handled(rest) + 1;
      RepliesPrefix(inbox, Handled(o));
      TagsChain(s.sent, h.sent, rest.final.sent, Replies([inbox[0]]), Replies(inbox[1..][..Handled(rest)]));
    }
  }

  /** How the loop ends: every handled arrival was received and only the
      last can be KILL; the loop ends by KILL exactly when that last one is
      KILL, whose KILL_OK is then the last send; by a failed `msgrcv` after
      the handled ones; or not at all, with every arrival handled. */
  lemma {:induction false} ServeEnding(e: Engine, s: Snapshot, inbox: seq<P.Inbound>)
    requires WellFormed(s) && !s.killed
    ensures
      var o := Serve(e, s, inbox);
      && (forall j :: 0 <= j < Handled(o) ==>
            Receivable(|s.text|, inbox[j])
            && (P.KindOf(inbox[j].msg.tag) == P.Some(P.Kill) <==> o.ending == Killed && j == Handled(o) - 1))
      && (o.ending == Killed ==>
            o.received == Handled(o) >= 1 && o.final.killed
            && |o.final.sent| > 0 && o.final.sent[|o.final.sent| - 1].tag == P.MsgType.KillOk.Tag())
      && (o.ending == ReceiveFailed ==>
            o.received == Handled(o) + 1 && !Receivable(|s.text|, inbox[Handled(o)]))
      && (o.ending == Blocked ==> o.received == Handled(o) == |inbox| && !o.final.killed)
    decreases |inbox|
  {
    var o := Serve(e, s, inbox);
    if inbox != [] && Receivable(|s.text|, inbox[0]) {
      var a := Accept(s, inbox[0].msg);
      var h := Handle(e, a);
      HandleAnswersOnce(e, a);
      var rest := Serve(e, h, inbox[1..]);
      assert o.final == rest.final && o.ending == rest.ending && o.received == rest.received + 1;
      if h.killed {
        assert o.final == h && o.received == 1 && o.ending == Killed;
      } else {
        ServeEnding(e, h, inbox[1..]);
        assert Handled(o) == Handled(rest) + 1;
        assert P.KindOf(inbox[0].msg.tag) != P.Some(P.Kill);
        forall j | 1 <= j < Handled(o)
          ensures inbox[j] == inbox[1..][j - 1]
        {
        }
      }
    }
  }

  /** When every arrival fits and the last one, and only the last one, is
      KILL, the loop handles them all and ends by KILL. */
  lemma {:induction false} KillLastEnds(e: Engine, s: Snapshot, inbox: seq<P.Inbound>)
    requires WellFormed(s) && !s.killed && |inbox| > 0
    requires forall j :: 0 <= j < |inbox| ==>
      Receivable(|s.text|, inbox[j]) && (P.KindOf(inbox[j].msg.tag) == P.Some(P.Kill) <==> j == |inbox| - 1)
    ensures Serve(e, s, inbox).ending == Killed
    ensures Serve(e, s, inbox).received == |inbox|
    decreases |inbox|
  {
    var a := Accept(s, inbox[0].msg);
    HandleAnswersOnce(e, a);
    if |inbox| > 1 {
      var rest := inbox[1..];
      assert forall j :: 0 <= j < |rest| ==> rest[j] == inbox[j + 1];
      KillLastEnds(e, Handle(e, a), rest);
    }
  }

  /** Such a run answers every arrival in order, and the CPU runs at most
      `StepBudget` cycles per STEP among them. */
  lemma KillLastAnswers(e: Engine, s: Snapshot, inbox: seq<P.Inbound>)
    requires WellFormed(s) && !s.killed && |inbox| > 0
    requires forall j :: 0 <= j < |inbox| ==>
      Receivable(|s.text|, inbox[j]) && (P.KindOf(inbox[j].msg.tag) == P.Some(P.Kill) <==> j == |inbox| - 1)
    ensures Serve(e, s, inbox).ending == Killed
    ensures Tags(Serve(e, s, inbox).final.sent) == Tags(s.sent) + Replies(inbox)
    ensures Serve(e, s, inbox).final.runCalls <= s.runCalls + StepBudget * StepCommands(inbox)
  {
    KillLastEnds(e, s, inbox);
    ServeAnswersInOrder(e, s, inbox);
    ServeRunsBounded(e, s, inbox);
    assert inbox[..|inbox|] == inbox;
  }

  /** With no KILL and no failed receive among the arrivals, the loop
      answers every command in order and is still running at the end. */
  lemma {:induction false} NoKillNeverEnds(e: Engine, s: Snapshot, inbox: seq<P.Inbound>)
    requires WellFormed(s) && !s.killed
    requires forall j :: 0 <= j < |inbox| ==>
      Receivable(|s.text|, inbox[j]) && P.KindOf(inbox[j].msg.tag) != P.Some(P.Kill)
    ensures Serve(e, s, inbox).ending == Blocked
    ensures Serve(e, s, inbox).received == |inbox|
    ensures Tags(Serve(e, s, inbox).final.sent) == Tags(s.sent) + Replies(inbox)
    decreases |inbox|
  {
    if inbox != [] {
      var a := Accept(s, inbox[0].msg);
      HandleAnswersOnce(e, a);
      NoKillNeverEnds(e, Handle(e, a), inbox[1..]);
    }
    ServeAnswersInOrder(e, s, inbox);
    assert inbox[..|inbox|] == inbox;
  }

  /** A server started with its instance never sends INIT_FAILED. */
  lemma NeverInitFailed(e: Engine, s: Snapshot, inbox: seq<P.Inbound>)
    requires WellFormed(s)
    requires forall i :: 0 <= i < |s.sent| ==> s.sent[i].tag != P.MsgType.InitFailed.Tag()
    ensures var sent := Serve(e, s, inbox).final.sent;
      forall i :: 0 <= i < |sent| ==> sent[i].tag != P.MsgType.InitFailed.Tag()
  {
    var sent := Serve(e, s, inbox).final.sent;
    var replies := Replies(inbox[..Handled(Serve(e, s, inbox))]);
    ServeAnswersInOrder(e, s, inbox);
    RepliesAreResponses(inbox[..Handled(Serve(e, s, inbox))]);
    var tags := Tags(sent);
    assert tags == Tags(s.sent) + replies;
    forall i | |s.sent| <= i < |sent|
      ensures sent[i].tag != P.MsgType.InitFailed.Tag()
    {
      assert tags[i] == replies[i - |s.sent|] && replies[i - |s.sent|] in replies;
    }
  }

  /** How many of the arrivals are STEP commands. */
  function StepCommands(inbox: seq<P.Inbound>): (r: nat)
    ensures r <= |inbox|
    decreases |inbox|
  {
    if inbox == [] then 0
    else (if inbox[0].Delivered? && P.KindOf(inbox[0].msg.tag) == P.Some(P.Step) then 1 else 0)
         + StepCommands(inbox[1..])
  }

  /** Only STEP runs the CPU: over a whole run the engine is called at most
      `StepBudget` times per STEP handled. */
  lemma {:induction false} ServeRunsBounded(e: Engine, s: Snapshot, inbox: seq<P.Inbound>)
    requires WellFormed(s)
    ensures Handled(Serve(e, s, inbox)) <= |inbox|
    ensures Serve(e, s, inbox).final.runCalls
         <= s.runCalls + StepBudget * StepCommands(inbox[..Handled(Serve(e, s, inbox))])
    decreases |inbox|
  {
    var o := Serve(e, s, inbox);
    if !(s.killed || inbox == [] || !Receivable(|s.text|, inbox[0])) {
      var a := Accept(s, inbox[0].msg);
      var h := Handle(e, a);
      HandleRunsBounded(e, a);
      ServeRunsBounded(e, h, inbox[1..]);
      var rest := Serve(e, h, inbox[1..]);
      assert inbox[..Handled(o)][1..] == inbox[1..][..Handled(rest)];
      assert StepCommands(inbox[..Handled(o)])
          == StepCommands([inbox[0]]) + StepCommands(inbox[1..][..Handled(rest)]);
    }
  }

  // ---------------------------------------------------------------------
  // The size argument of msgrcv and msgsnd

  /** As written, `msgrcv` is told `sizeof(message)`: it accepts every
      text up to `LongBytes` bytes longer than the buffer `msg_text`, which
      no receive into the buffer can hold; the limit the model uses refuses
      each of them. */
  lemma AsWrittenReceiveOverflows(s: Snapshot)
    ensures forall len :: |s.text| < len <= |s.text| + P.LongBytes ==>
      P.ReceiveAccepts(len, P.SizeArgAsWritten(|s.text|)) && !P.ReceiveAccepts(len, P.SizeArg(|s.text|))
  {
  }

  /** As written, `msgsnd` reads `sizeof(message)` bytes from the start of
      `msg_text`: between 8 and 15 bytes beyond its end, exactly 8 when
      SRAM_BYTES is a multiple of 8; so it hands the queue at least 8
      bytes more than the text the server's send carries. */
  lemma AsWrittenSendOverreads(s: Snapshot)
    ensures var over := P.SizeArgAsWritten(|s.text|) - |s.text|;
      && P.LongBytes <= over < 2 * P.LongBytes
      && (over == P.LongBytes <==> |s.text| % P.LongBytes == 0)
    ensures P.SizeArgAsWritten(|s.text|) >= |Send(s).sent[|s.sent|].text| + P.LongBytes
  {
  }

  /** With the intended size, every arrival the loop handles fits the
      buffer, and the loop ends at the first one that does not (or whose
      `msgrcv` failed) unless KILL came before it. */
  lemma ServeReceivesOnlyFitting(e: Engine, s: Snapshot, inbox: seq<P.Inbound>)
    requires WellFormed(s)
    ensures var o := Serve(e, s, inbox);
      && (forall j :: 0 <= j < Handled(o) ==>
            inbox[j].Delivered? && |inbox[j].msg.text| <= |s.text|)
      && (o.ending == ReceiveFailed ==>
            o.received == Handled(o) + 1
            && (inbox[Handled(o)].RecvFailed? || |inbox[Handled(o)].msg.text| > |s.text|))
  {
    if !s.killed {
      ServeEnding(e, s, inbox);
    }
  }

  /** The arrivals of a complete session: INIT, WRITE_DATA with payload
      `p`, READ_DATA, STEP and KILL. */
  function SessionInbox(p: seq<byte>): (inbox: seq<P.Inbound>)
    ensures |inbox| == 5
  {
    [P.Delivered(P.Message(P.MsgType.Init.Tag(), [])),
     P.Delivered(P.Message(P.MsgType.WriteData.Tag(), p)),
     P.Delivered(P.Message(P.MsgType.ReadData.Tag(), [])),
     P.Delivered(P.Message(P.MsgType.Step.Tag(), [])),
     P.Delivered(P.Message(P.MsgType.Kill.Tag(), []))]
  }

  /** What the session's arrivals are: all fit the buffer and only the
      last is KILL. */
  lemma SessionInboxKinds(p: seq<byte>, textBytes: nat)
    requires |p| <= textBytes
    ensures forall j :: 0 <= j < 5 ==>
      Receivable(textBytes, SessionInbox(p)[j]) && (P.KindOf(SessionInbox(p)[j].msg.tag) == P.Some(P.Kill) <==> j == 4)
  {
    P.TagRoundTrip(P.Init);
    P.TagRoundTrip(P.WriteData);
    P.TagRoundTrip(P.ReadData);
    P.TagRoundTrip(P.Step);
    P.TagRoundTrip(P.Kill);
  }

  /** The session's arrivals earn INIT_OK, WRITE_DATA_OK, READ_DATA_OK,
      STEP_OK and KILL_OK. */
  lemma SessionInboxReplies(p: seq<byte>)
    ensures Replies(SessionInbox(p)) == [6, 9, 8, 10, 11]
  {
    var inbox := SessionInbox(p);
    P.TagRoundTrip(P.Init);
    P.TagRoundTrip(P.WriteData);
    P.TagRoundTrip(P.ReadData);
    P.TagRoundTrip(P.Step);
    P.TagRoundTrip(P.Kill);
    assert inbox[4..] == [inbox[4]] && inbox[4..][1..] == [];
    assert Replies(inbox[4..]) == [11];
    assert inbox[3..][1..] == inbox[4..];
    assert Replies(inbox[3..]) == [10, 11];
    assert inbox[2..][1..] == inbox[3..];
    assert Replies(inbox[2..]) == [8, 10, 11];
    assert inbox[1..][1..] == inbox[2..];
    assert Replies(inbox[1..]) == [9, 8, 10, 11];
  }

  /** Exactly one of the session's arrivals is STEP. */
  lemma SessionInboxSteps(p: seq<byte>)
    ensures StepCommands(SessionInbox(p)) == 1
  {
    var inbox := SessionInbox(p);
    P.TagRoundTrip(P.Init);
    P.TagRoundTrip(P.WriteData);
    P.TagRoundTrip(P.ReadData);
    P.TagRoundTrip(P.Step);
    P.TagRoundTrip(P.Kill);
    assert inbox[4..] == [inbox[4]] && inbox[4..][1..] == [];
    assert StepCommands(inbox[4..]) == 0;
    assert inbox[3..][1..] == inbox[4..];
    assert StepCommands(inbox[3..]) == 1;
    assert inbox[2..][1..] == inbox[3..];
    assert StepCommands(inbox[2..]) == 1;
    assert inbox[1..][1..] == inbox[2..];
    assert StepCommands(inbox[1..]) == 1;
  }

  /** INIT, WRITE_DATA(p), READ_DATA, STEP and KILL in a row are answered by
      INIT_OK, WRITE_DATA_OK, READ_DATA_OK, STEP_OK and KILL_OK, the CPU runs
      at most `StepBudget` cycles, and the loop ends with KILL. */
  lemma Session(e: Engine, s: Snapshot, p: seq<byte>)
    requires WellFormed(s) && !s.killed && |p| <= |s.text|
    ensures Serve(e, s, SessionInbox(p)).ending == Killed
    ensures Serve(e, s, SessionInbox(p)).received == 5
    ensures Tags(Serve(e, s, SessionInbox(p)).final.sent) == Tags(s.sent) + [6, 9, 8, 10, 11]
    ensures Serve(e, s, SessionInbox(p)).final.runCalls <= s.runCalls + StepBudget
  {
    var inbox := SessionInbox(p);
    SessionInboxKinds(p, |s.text|);
    SessionInboxReplies(p);
    SessionInboxSteps(p);
    KillLastEnds(e, s, inbox);
    KillLastAnswers(e, s, inbox);
  }

}
