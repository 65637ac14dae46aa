/** The message protocol of the simavr server: the `MsgType` enum, the
    `msg_buffer` record that travels over both System V queues, and the
    conversion the server applies to a received `msg_type` before its
    `switch`. */
module Protocol {
  import Cpu

  datatype Option<+T> = None | Some(value: T)

  /** The kinds of the `MsgType` enum. `Nothing` is the enum's NONE (0). */
  datatype MsgType =
    | Nothing | Init | ReadData | WriteData | Step | Kill
    | InitOk | InitFailed | ReadDataOk | WriteDataOk | StepOk | KillOk
  {
    /** The integer the enum gives this kind. */
    function Tag(): (v: nat)
      ensures v < 12
    {
      match this
      case Nothing => 0
      case Init => 1
      case ReadData => 2
      case WriteData => 3
      case Step => 4
      case Kill => 5
      case InitOk => 6
      case InitFailed => 7
      case ReadDataOk => 8
      case WriteDataOk => 9
      case StepOk => 10
      case KillOk => 11
    }

    /** The five kinds a client sends as commands. */
    predicate IsCommand() {
      Init? || ReadData? || WriteData? || Step? || Kill?
    }

    /** The six kinds the server sends back. */
    predicate IsResponse() {
      InitOk? || InitFailed? || ReadDataOk? || WriteDataOk? || StepOk? || KillOk?
    }
  }

  /** A record as it travels over a queue: the `long msg_type` tag and the
      bytes of `msg_text`. */
  datatype Message = Message(tag: int, text: seq<Cpu.byte>)

  /** What one `msgrcv` on the inbound queue yields: a message, or the
      transport error that makes the call return -1. */
  datatype Inbound = Delivered(msg: Message) | RecvFailed

  /** The width of the C `enum MsgType`: all its values are non-negative,
      so the compiler gives it the type `unsigned int`. */
  const EnumModulus: nat := 0x1_0000_0000

  /** `enum MsgType t = message.msg_type;` converts the `long` tag to the
      enum's unsigned 32-bit type, which keeps the value modulo 2^32. */
  function EnumValue(tag: int): (v: nat)
    ensures v < EnumModulus
    ensures (v - tag) % EnumModulus == 0
    ensures 0 <= tag < EnumModulus ==> v == tag
  {
    tag % EnumModulus
  }

  /** The kind whose `case` label equals `v`; `None` when no label does,
      since the switch has no `default`. */
  function FromEnum(v: int): (r: Option<MsgType>)
    ensures r.Some? <==> 0 <= v < 12
    ensures r.Some? ==> r.value.Tag() == v
  {
    if v == 0 then Some(Nothing)
    else if v == 1 then Some(Init)
    else if v == 2 then Some(ReadData)
    else if v == 3 then Some(WriteData)
    else if v == 4 then Some(Step)
    else if v == 5 then Some(Kill)
    else if v == 6 then Some(InitOk)
    else if v == 7 then Some(InitFailed)
    else if v == 8 then Some(ReadDataOk)
    else if v == 9 then Some(WriteDataOk)
    else if v == 10 then Some(StepOk)
    else if v == 11 then Some(KillOk)
    else None
  }

  /** The kind a received tag selects in the server's `switch`. */
  function KindOf(tag: int): (r: Option<MsgType>)
    ensures r.Some? <==> EnumValue(tag) < 12
    ensures r.Some? ==> r.value.Tag() == EnumValue(tag)
  {
    FromEnum(EnumValue(tag))
  }

  /** Tags and kinds are in one-to-one correspondence. */
  lemma TagRoundTrip(t: MsgType)
    ensures FromEnum(t.Tag()) == Some(t)
    ensures KindOf(t.Tag()) == Some(t)
  {
  }

  /** The answer the INIT case gives: INIT_OK exactly when the emulator
      instance exists. */
  function InitReply(avrPresent: bool): (r: MsgType)
    ensures r == InitOk <==> avrPresent
    ensures r == InitFailed <==> !avrPresent
  {
    if avrPresent then InitOk else InitFailed
  }

  /** The protocol's reply table: the one response each command earns;
      `None` for a kind that is answered with silence. `avrPresent` is the
      outcome of the instance check that INIT makes. */
  function ReplyTo(t: MsgType, avrPresent: bool): (r: Option<MsgType>)
    ensures r.Some? <==> t.IsCommand()
    ensures r.Some? ==> r.value.IsResponse()
    ensures r == Some(InitFailed) <==> t == Init && !avrPresent
  {
    match t
    case Init => Some(InitReply(avrPresent))
    case ReadData => Some(ReadDataOk)
    case WriteData => Some(WriteDataOk)
    case Step => Some(StepOk)
    case Kill => Some(KillOk)
    case _ => None
  }

  /** The reply a received tag earns from a server whose instance exists:
      none for NONE, for the six response kinds and for any value outside
      the enum. */
  function ReplyToTag(tag: int): (r: Option<MsgType>)
    ensures r.Some? <==> 1 <= EnumValue(tag) <= 5
    ensures r.Some? ==> r.value.IsResponse() && r.value != InitFailed
  {
    match KindOf(tag)
    case None => None
    case Some(t) => ReplyTo(t, true)
  }

  // ---------------------------------------------------------------------
  // The size argument of msgrcv and msgsnd.

  /** Bytes of the `long msg_type` field on an LP64 target; also its
      alignment, and so the alignment of `struct msg_buffer`. */
  const LongBytes: nat := 8

  /** `sizeof(struct msg_buffer)`: the tag, then `msg_text`, then the
      padding that rounds the record up to a multiple of the tag's
      alignment. */
  function StructBytes(textBytes: nat): (r: nat)
    ensures r % LongBytes == 0
    ensures LongBytes + textBytes <= r < 2 * LongBytes + textBytes
  {
    LongBytes + (textBytes + LongBytes - 1) / LongBytes * LongBytes
  }

  /** The size the source hands to `msgrcv` and `msgsnd`:
      `sizeof(message)`, the whole record. */
  function SizeArgAsWritten(textBytes: nat): nat {
    StructBytes(textBytes)
  }

  /** The size both calls expect: that of the text part alone,
      `sizeof(message.msg_text)`. */
  function SizeArg(textBytes: nat): nat {
    textBytes
  }

  /** `msgrcv` without MSG_NOERROR accepts a message whose text is at most
      `sizeArg` bytes and fails with E2BIG on a longer one. */
  predicate ReceiveAccepts(textLength: nat, sizeArg: nat) {
    textLength <= sizeArg
  }
}
