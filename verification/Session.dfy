/** Command ids and what a session does with a frame of each kind. */
module Commands {
  import opened Bytes
  import opened Framing

  const GENERIC_NACK: u32 := 0x8000_0000
  const UNBIND: u32 := 0x0000_0006
  const UNBIND_RESP: u32 := 0x8000_0006
  const ENQUIRE_LINK: u32 := 0x0000_0015
  const ENQUIRE_LINK_RESP: u32 := 0x8000_0015
  const ROK: u32 := 0x0000_0000
  const RINVCMDID: u32 := 0x0000_0003

  predicate IsResponse(id: u32) { id >= 0x8000_0000 }

  /** Requests whose bodies go to a parser. */
  predicate KnownRequest(id: u32) {
    id in {0x0000_0001, 0x0000_0002, 0x0000_0009, 0x0000_0003, 0x0000_0004, 0x0000_0005, 0x0000_0007,
           0x0000_0008, 0x0000_0102, 0x0000_0103}
  }

  /** Responses whose bodies go to a parser. */
  predicate KnownResponse(id: u32) {
    id in {0x8000_0000, 0x8000_0001, 0x8000_0002, 0x8000_0009, 0x8000_0003, 0x8000_0004, 0x8000_0005,
           0x8000_0007, 0x8000_0008, 0x8000_0103}
  }

  function Command(id: u32, sequence: u32, status: u32): Frame {
    Frame(id, status, sequence, [])
  }

  /** The frame a session sends back by itself. */
  function Reply(f: Frame): seq<Frame> {
    if IsResponse(f.id) then []
    else if f.id == ENQUIRE_LINK then [Command(ENQUIRE_LINK_RESP, f.sequence, ROK)]
    else if f.id == UNBIND then [Command(UNBIND_RESP, f.sequence, ROK)]
    else if KnownRequest(f.id) then []
    else [Command(GENERIC_NACK, f.sequence, RINVCMDID)]
  }

  ghost function Replies(fs: seq<Frame>): seq<Frame> {
    if fs == [] then [] else Replies(fs[..|fs| - 1]) + Reply(fs[|fs| - 1])
  }

  /** A frame queued for sending, and whether the session did so by itself. */
  datatype Sent = Sent(frame: Frame, own: bool)

  ghost function FramesOf(log: seq<Sent>): seq<Frame> {
    if log == [] then [] else FramesOf(log[..|log| - 1]) + [log[|log| - 1].frame]
  }

  ghost function OwnOf(log: seq<Sent>): seq<Frame> {
    if log == [] then []
    else OwnOf(log[..|log| - 1]) + (if log[|log| - 1].own then [log[|log| - 1].frame] else [])
  }

  lemma LogGrows(log: seq<Sent>, f: Frame, own: bool)
    requires AllFit(FramesOf(log)) && Fits(f)
    ensures var grown := log + [Sent(f, own)];
            && FramesOf(grown) == FramesOf(log) + [f] && AllFit(FramesOf(grown))
            && EncodeAll(FramesOf(grown)) == EncodeAll(FramesOf(log)) + Encode(f)
            && OwnOf(grown) == OwnOf(log) + (if own then [f] else [])
  {
    var grown := log + [Sent(f, own)];
    assert grown[..|log|] == log;
    EncodeAppend(FramesOf(log), f);
  }

  lemma RepliesGrow(fs: seq<Frame>, f: Frame)
    ensures Replies(fs + [f]) == Replies(fs) + Reply(f)
  {
    assert (fs + [f])[..|fs|] == fs;
  }
}

/** One SMPP connection: sending through two buffers, receiving through the flat buffer, pausing. */
module Sessions {
  import opened Bytes
  import opened Oparams
  import opened Schemas
  import opened SubmitSms
  import opened Framing
  import opened FlatBuffers
  import opened Commands

  datatype State = Open | Unbinding | Close

  datatype ReceivingState = Receiving | PendingPause | Paused

  /** What an application may do inside a handler. */
  datatype AppCall =
    | Pause
    | Resume
    | Send(pdu: Pdu, sequence: u32, status: u32)
    | Leave(force: bool)

  /** A PDU to be sent: its command and the fields of its schema. */
  datatype Pdu = Pdu(id: u32, fields: seq<Field>, values: seq<Value>)

  const CAPACITY: nat := 1024 * 1024
  const READ_SIZE: nat := 64 * 1024

  /** The longest frame that is received however it is cut: one byte of it is still missing when the last
      read is prepared. */
  const MAX_FRAME: nat := CAPACITY - READ_SIZE + 1

  /** What a length field can announce at most. */
  const ANY_LENGTH: nat := 0xFFFF_FFFF

  /** A read fits behind the queued bytes. */
  predicate HasRoom(data: seq<byte>) {
    READ_SIZE <= CAPACITY - |data|
  }

  ghost predicate Sendable(p: Pdu) {
    AllTyped(p.fields, p.values) && HEADER_LENGTH + |EncAll(p.fields, p.values)| < 0x1_0000_0000
  }

  ghost function FrameOf(p: Pdu, sequence: u32, status: u32): Frame
    requires Sendable(p)
  {
    Frame(p.id, status, sequence, EncAll(p.fields, p.values))
  }

  ghost predicate CallOk(call: AppCall) {
    call.Send? ==> Sendable(call.pdu)
  }

  /** What calls and frames change: the two states, the last sequence number, the frames queued for
      sending and the frames handed to the application. */
  datatype Status = Status(
    state: State, receiving: ReceivingState, sequence: u32, accepted: seq<Sent>, delivered: seq<Frame>)

  function NextNumber(n: u32): u32 {
    if n >= 0x7FFF_FFFF then 1 else n + 1
  }

  /** The `k`-th number after `n`. */
  ghost function Later(n: u32, k: nat): u32 {
    if k == 0 then n else NextNumber(Later(n, k - 1))
  }

  /** Sequence numbers go up by one from 1 to 0x7FFFFFFF and round again, so a number comes back after
      0x7FFFFFFF requests and not before. */
  lemma {:induction false} NumbersGoRound(n: u32, k: nat)
    requires 1 <= n <= 0x7FFF_FFFF
    ensures Later(n, k) == 1 + (n - 1 + k) % 0x7FFF_FFFF
    ensures Later(n, k) == n <==> k % 0x7FFF_FFFF == 0
  {
    if k > 0 {
      NumbersGoRound(n, k - 1);
      RoundStep(n - 1 + (k - 1));
    }
    RoundShift(n - 1, k);
  }

  lemma RoundStep(x: nat)
    ensures (x + 1) % 0x7FFF_FFFF == if x % 0x7FFF_FFFF == 0x7FFF_FFFE then 0 else x % 0x7FFF_FFFF + 1
  {}

  lemma RoundShift(a: nat, k: nat)
    requires a < 0x7FFF_FFFF
    ensures (a + k) % 0x7FFF_FFFF == a <==> k % 0x7FFF_FFFF == 0
  {}

  /** One call inside a handler. */
  ghost function AfterCall(s: Status, call: AppCall): Status {
    match call
    case Pause => if s.receiving == Receiving then s.(receiving := PendingPause) else s
    case Resume => s.(receiving := Receiving)
    case Send(pdu, sequence, status) =>
      if s.state == Open && Sendable(pdu) && !SomeTooLong(pdu.fields, pdu.values)
      then s.(accepted := s.accepted + [Sent(FrameOf(pdu, sequence, status), false)]) else s
    case Leave(force) => AfterUnbind(s, force)
  }

  /** The application starts the unbind handshake. */
  ghost function AfterUnbind(s: Status, force: bool): Status {
    if s.state != Open then s
    else if force then s.(state := Unbinding)
    else
      var n := NextNumber(s.sequence);
      s.(state := Unbinding, sequence := n, accepted := s.accepted + [Sent(Command(UNBIND, n, ROK), false)])
  }

  ghost function AfterCalls(s: Status, calls: seq<AppCall>): Status {
    if calls == [] then s else AfterCall(AfterCalls(s, calls[..|calls| - 1]), calls[|calls| - 1])
  }

  lemma AfterCallsGrows(s: Status, calls: seq<AppCall>, i: nat)
    requires i < |calls|
    ensures AfterCalls(s, calls[..i + 1]) == AfterCall(AfterCalls(s, calls[..i]), calls[i])
  {
    assert calls[..i + 1][..i] == calls[..i];
  }

  ghost predicate NoLeave(calls: seq<AppCall>) {
    forall i :: 0 <= i < |calls| ==> !calls[i].Leave?
  }

  /** Calls other than the unbind leave state and sequence number alone. */
  lemma {:induction false} CallsKeepState(s: Status, calls: seq<AppCall>)
    requires NoLeave(calls)
    ensures AfterCalls(s, calls).state == s.state && AfterCalls(s, calls).sequence == s.sequence
  {
    if calls != [] {
      CallsKeepState(s, calls[..|calls| - 1]);
    }
  }

  ghost function ScriptAt(scripts: seq<seq<AppCall>>, k: nat): seq<AppCall> {
    if k < |scripts| then scripts[k] else []
  }

  /** The commands whose bodies are parsed, as section 5.1.2.1 of SMPP v3.4 numbers them: the three binds,
      query_sm, submit_sm, deliver_sm, replace_sm, cancel_sm, alert_notification and data_sm, and the
      responses to all of them but the alert, with generic_nack. */
  ghost const PARSED: set<u32> := {0x0000_0001, 0x0000_0002, 0x0000_0003, 0x0000_0004, 0x0000_0005, 0x0000_0007, 0x0000_0008, 0x0000_0009,
    0x0000_0102, 0x0000_0103, 0x8000_0000, 0x8000_0001, 0x8000_0002, 0x8000_0003, 0x8000_0004,
    0x8000_0005, 0x8000_0007, 0x8000_0008, 0x8000_0009, 0x8000_0103}

  /** No frame of the list belongs to an unbind handshake. */
  ghost predicate NoUnbind(fs: seq<Frame>) {
    forall i :: 0 <= i < |fs| ==> fs[i].id != UNBIND && fs[i].id != UNBIND_RESP
  }

  class Session {
    var state: State
    var receivingState: ReceivingState
    var sequenceNumber: u32
    var writingSendBuf: seq<byte>
    const pendingSendBuf: ByteVec
    const receiveBuf: FlatBuffer
    const parses: Frame -> bool  // whether the parser of a known PDU other than submit_sm accepts the body

    // operations handed to the network and not yet completed
    var readOutstanding: bool
    var writeOutstanding: bool

    ghost var accepted: seq<Sent>    // frames queued for sending
    ghost var written: seq<byte>     // bytes the network has taken
    ghost var received: seq<byte>    // bytes the network has delivered
    ghost var dispatched: seq<Frame> // frames taken off the stream
    ghost var delivered: seq<Frame>  // frames handed to the application

    ghost predicate Valid()
      reads this, pendingSendBuf, receiveBuf, receiveBuf.buf
    {
      SendOk() && ReceiveOk() && sequenceNumber <= 0x7FFF_FFFF
    }

    /** Nothing queued for sending is lost, doubled or reordered; a write is in flight exactly while the
        first buffer holds bytes, and then only may the second one wait. */
    ghost predicate SendOk()
      reads this, pendingSendBuf
    {
      && AllFit(FramesOf(accepted))
      && written + (writingSendBuf + pendingSendBuf.bytes) == EncodeAll(FramesOf(accepted))
      && (writingSendBuf == [] ==> pendingSendBuf.bytes == [])
      && (state != Close ==> (writeOutstanding <==> writingSendBuf != []))
    }

    /** Everything received was dispatched in order or is still queued, every frame that asks for an answer
        got its answer, in order, and every frame for the application was handed to it, in order, until
        the session stopped being open. */
    ghost predicate ReceiveOk()
      reads this, receiveBuf, receiveBuf.buf
    {
      && receiveBuf.Valid() && receiveBuf.buf.Length == CAPACITY
      && AllFit(dispatched)
      && received == EncodeAll(dispatched) + receiveBuf.Data()
      && Framed(receiveBuf.Data(), ANY_LENGTH)
      && OwnOf(accepted) == Replies(dispatched)
      && delivered <= Handed(dispatched)
      && (state == Open ==> delivered == Handed(dispatched))
    }

    /** The frames of a list that an open session hands to the application. */
    ghost function Handed(fs: seq<Frame>): seq<Frame> {
      if fs == [] then []
      else Handed(fs[..|fs| - 1]) + (if Delivers(fs[|fs| - 1]) then [fs[|fs| - 1]] else [])
    }

    lemma NothingHanded()
      ensures Handed([]) == []
    {}

    lemma HandedGrows(fs: seq<Frame>, f: Frame)
      ensures Handed(fs + [f]) == Handed(fs) + (if Delivers(f) then [f] else [])
    {
      assert (fs + [f])[..|fs|] == fs;
    }

    lemma {:induction false} HandedPrefix(fs: seq<Frame>, gs: seq<Frame>)
      requires fs <= gs
      ensures Handed(fs) <= Handed(gs)
      decreases |gs|
    {
      if fs != gs {
        HandedPrefix(fs, gs[..|gs| - 1]);
      }
    }

    /** Between callbacks: a read is under way unless reading is paused, there is room for it, and
        only an unfinished frame is queued then. */
    ghost predicate Idle()
      reads this, receiveBuf, receiveBuf.buf
    {
      && receiveBuf.Valid()
      && (readOutstanding ==> receivingState != Paused)
      && (state != Close && receivingState != Paused ==> readOutstanding)
      && (readOutstanding ==> receiveBuf.lastPos - receiveBuf.outPos == READ_SIZE)
      && (readOutstanding ==> !Complete(receiveBuf.Data()))
    }

    constructor (parses: Frame -> bool)
      ensures Valid() && Idle() && state == Open && receivingState == Paused && sequenceNumber == 0
      ensures accepted == [] && written == [] && received == [] && dispatched == [] && delivered == []
      ensures fresh(pendingSendBuf) && fresh(receiveBuf) && fresh(receiveBuf.buf)
    {
      state, receivingState, sequenceNumber := Open, Paused, 0;
      writingSendBuf := [];
      pendingSendBuf := new ByteVec();
      receiveBuf := new FlatBuffer(CAPACITY);
      this.parses := parses;
      readOutstanding, writeOutstanding := false, false;
      accepted, written, received, dispatched, delivered := [], [], [], [], [];
    }

    // ---- sending ----

    /** A frame's bytes have just been put behind the pending ones: the frame is accepted and sent on. */
    method Enqueued(ghost before: seq<byte>, ghost f: Frame, ghost own: bool)
      requires AllFit(FramesOf(accepted)) && Fits(f) && pendingSendBuf.bytes == before + Encode(f)
      requires written + (writingSendBuf + before) == EncodeAll(FramesOf(accepted))
      requires state != Close ==> (writeOutstanding <==> writingSendBuf != [])
      modifies this`writingSendBuf, this`writeOutstanding, this`accepted, pendingSendBuf
      ensures SendOk() && accepted == old(accepted) + [Sent(f, own)]
      ensures old(writingSendBuf) == [] ==> pendingSendBuf.bytes == []
      ensures OwnOf(accepted) == OwnOf(old(accepted)) + (if own then [f] else [])
    {
      hide FramesOf, OwnOf, EncodeAll;
      LogGrows(accepted, f, own);
      assert written + (writingSendBuf + (before + Encode(f))) == (written + (writingSendBuf + before)) + Encode(f);
      accepted := accepted + [Sent(f, own)];
      DoSend();
    }

    /** Hands the pending bytes to the network unless a write is still under way. */
    method DoSend()
      requires writingSendBuf == [] ==> pendingSendBuf.bytes != []
      requires state != Close ==> (writeOutstanding <==> writingSendBuf != [])
      modifies this`writingSendBuf, this`writeOutstanding, pendingSendBuf
      ensures writingSendBuf + pendingSendBuf.bytes == old(writingSendBuf + pendingSendBuf.bytes)
      ensures writingSendBuf != [] && (state != Close ==> writeOutstanding)
      ensures old(writingSendBuf) != [] ==> writingSendBuf == old(writingSendBuf)
      ensures old(writingSendBuf) == [] ==> writingSendBuf == old(pendingSendBuf.bytes) && pendingSendBuf.bytes == []
    {
      if writingSendBuf != [] {
        return;
      }
      writingSendBuf, pendingSendBuf.bytes := pendingSendBuf.bytes, writingSendBuf;
      writeOutstanding := true;
    }

    /** The network took the bytes. */
    method OnWritten()
      requires Valid() && writeOutstanding
      modifies this`writingSendBuf, this`writeOutstanding, this`written, pendingSendBuf
      ensures Valid() && written == old(written) + old(writingSendBuf)
      ensures writingSendBuf == old(pendingSendBuf.bytes) && pendingSendBuf.bytes == []
    {
      hide FramesOf, EncodeAll, Framed;
      ghost var w, b, p := written, writingSendBuf, pendingSendBuf.bytes;
      assert (w + b) + ([] + p) == w + (b + p) && p + [] == [] + p;
      written := written + writingSendBuf;
      writingSendBuf := [];
      writeOutstanding := false;
      if pendingSendBuf.bytes != [] {
        DoSend();
      }
    }

    /** The write failed: the session closes, and the bytes stay where they are. */
    method OnWriteError()
      requires Valid() && writeOutstanding
      modifies this`state, this`writeOutstanding
      ensures Valid() && state == Close && !writeOutstanding
      ensures old(Idle()) ==> Idle()
    {
      writeOutstanding := false;
      state := Close;
    }

    /** Queues a frame without a body. */
    method SendCommand(id: u32, sequence: u32, status: u32, ghost own: bool)
      requires SendOk()
      modifies this`writingSendBuf, this`writeOutstanding, this`accepted, pendingSendBuf
      ensures SendOk() && accepted == old(accepted) + [Sent(Command(id, sequence, status), own)]
      ensures OwnOf(accepted) == OwnOf(old(accepted)) + (if own then [Command(id, sequence, status)] else [])
    {
      hide FramesOf, OwnOf, EncodeAll, SerializeHeader;
      assert Encode(Command(id, sequence, status)) == SerializeHeader(Header(HEADER_LENGTH, id, status, sequence));
      pendingSendBuf.bytes := pendingSendBuf.bytes + SerializeHeader(Header(HEADER_LENGTH, id, status, sequence));
      Enqueued(old(pendingSendBuf.bytes), Command(id, sequence, status), own);
    }

    /** Queues a PDU: reserves its header, prints its body behind it and fills the header in. A body that
        cannot be printed leaves no trace. */
    method SendImpl(pdu: Pdu, sequence: u32, status: u32) returns (ok: bool)
      requires SendOk() && Sendable(pdu)
      modifies this`writingSendBuf, this`writeOutstanding, this`accepted, pendingSendBuf
      ensures SendOk()
      ensures ok <==> state == Open && !SomeTooLong(pdu.fields, pdu.values)
      ensures accepted == if ok then old(accepted) + [Sent(FrameOf(pdu, sequence, status), false)] else old(accepted)
      ensures ok ==> accepted[|old(accepted)|].frame.id == pdu.id && accepted[|old(accepted)|].frame.status == status &&
                     accepted[|old(accepted)|].frame.sequence == sequence
      ensures !ok ==> pendingSendBuf.bytes == old(pendingSendBuf.bytes) && writingSendBuf == old(writingSendBuf)
      ensures ok && old(writingSendBuf) == [] ==> pendingSendBuf.bytes == []
    {
      hide FramesOf, OwnOf, EncodeAll, EncAll, SomeTooLong, AllTyped, SerializeHeader;
      if state == Close || state == Unbinding {
        return false;
      }
      var prevSize := |pendingSendBuf.bytes|;
      pendingSendBuf.bytes := pendingSendBuf.bytes + seq(HEADER_LENGTH, _ => 0);
      ok := SerializeTo(pdu.fields, pdu.values, pendingSendBuf);
      if !ok {
        pendingSendBuf.bytes := pendingSendBuf.bytes[..prevSize];
        return;
      }
      var commandLength := |pendingSendBuf.bytes| - prevSize;
      var header := SerializeHeader(Header(commandLength, pdu.id, status, sequence));
      ghost var f := FrameOf(pdu, sequence, status);
      pendingSendBuf.bytes :=
        pendingSendBuf.bytes[..prevSize] + header + pendingSendBuf.bytes[prevSize + HEADER_LENGTH..];
      assert pendingSendBuf.bytes == old(pendingSendBuf.bytes) + Encode(f);
      Enqueued(old(pendingSendBuf.bytes), f, false);
    }

    /** Sends a request under the next sequence number: 1 to 0x7FFFFFFF, and round again. */
    method SendRequest(pdu: Pdu) returns (ok: bool, sequence: u32)
      requires Valid() && Sendable(pdu)
      modifies this`sequenceNumber, this`writingSendBuf, this`writeOutstanding, this`accepted, pendingSendBuf
      ensures Valid()
      ensures sequence == sequenceNumber && 1 <= sequence
      ensures sequence == NextNumber(old(sequenceNumber)) && state == old(state)
      ensures ok <==> state == Open && !SomeTooLong(pdu.fields, pdu.values)
      ensures accepted == if ok then old(accepted) + [Sent(FrameOf(pdu, sequence, ROK), false)] else old(accepted)
      ensures ok && old(writingSendBuf) == [] ==> pendingSendBuf.bytes == []
    {
      hide FramesOf, EncodeAll, Sendable, Framed;
      sequence := NextSequenceNumber();
      ok := SendImpl(pdu, sequence, ROK);
      if ok {
        OwnUnchanged(old(accepted), FrameOf(pdu, sequence, ROK));
      }
    }

    method NextSequenceNumber() returns (n: u32)
      requires sequenceNumber <= 0x7FFF_FFFF
      modifies this`sequenceNumber
      ensures n == sequenceNumber && 1 <= n <= 0x7FFF_FFFF
      ensures n == NextNumber(old(sequenceNumber))
      ensures old(sequenceNumber) < 0x7FFF_FFFF ==> n == old(sequenceNumber) + 1
      ensures old(sequenceNumber) == 0x7FFF_FFFF ==> n == 1
    {
      sequenceNumber := sequenceNumber + 1;
      if sequenceNumber > 0x7FFF_FFFF {
        sequenceNumber := 1;
      }
      n := sequenceNumber;
    }

    // ---- receiving ----

    /** Asks for a pause; it takes effect at the next look at the queue. */
    method PauseReceiving()
      modifies this`receivingState
      ensures old(Valid()) ==> Valid()
      ensures old(Idle()) ==> Idle()
      ensures receivingState == if old(receivingState) == Receiving then PendingPause else old(receivingState)
    {
      if receivingState == Receiving {
        receivingState := PendingPause;
      }
    }

    ghost function Current(): Status
      reads this
    {
      Status(state, receivingState, sequenceNumber, accepted, delivered)
    }

    /** One call of an application inside a handler; receiving is never fully paused there. */
    method HandlerCall(call: AppCall)
      requires SendOk() && sequenceNumber <= 0x7FFF_FFFF && CallOk(call) && receivingState != Paused
      modifies this`state, this`receivingState, this`sequenceNumber, this`writingSendBuf, this`writeOutstanding,
               this`accepted, pendingSendBuf
      ensures SendOk() && sequenceNumber <= 0x7FFF_FFFF && receivingState != Paused
      ensures Current() == AfterCall(old(Current()), call)
      ensures call == Pause && old(receivingState) == Receiving ==> receivingState == PendingPause
      ensures call == Resume ==> receivingState == Receiving
      ensures call.Send? || call.Leave? ==> receivingState == old(receivingState)
      ensures !call.Leave? ==> state == old(state) && sequenceNumber == old(sequenceNumber)
      ensures call.Pause? || call.Resume? ==> accepted == old(accepted)
      ensures call.Leave? ==> state == if old(state) == Open then Unbinding else old(state)
      ensures call == Leave(false) && old(state) == Open ==>
                && accepted == old(accepted) + [Sent(Frame(0x0000_0006, 0, sequenceNumber, []), false)]
                && sequenceNumber == if old(sequenceNumber) == 0x7FFF_FFFF then 1 else old(sequenceNumber) + 1
      ensures call == Leave(true) || (call == Leave(false) && old(state) != Open) ==>
                accepted == old(accepted) && sequenceNumber == old(sequenceNumber)
      ensures call.Send? && (state != Open || SomeTooLong(call.pdu.fields, call.pdu.values)) ==>
                accepted == old(accepted)
      ensures call.Send? && state == Open && !SomeTooLong(call.pdu.fields, call.pdu.values) ==>
                var body := EncAll(call.pdu.fields, call.pdu.values);
                accepted == old(accepted) + [Sent(Frame(call.pdu.id, call.status, call.sequence, body), false)]
      ensures OwnOf(accepted) == old(OwnOf(accepted))
    {
      hide FramesOf, EncodeAll, Sendable, Framed;
      match call {
        case Pause => PauseReceiving();
        case Resume => receivingState := Receiving;
        case Leave(force) => StartUnbind(force);
        case Send(pdu, sequence, status) =>
          var ok := SendImpl(pdu, sequence, status);
          if ok {
            OwnUnchanged(old(accepted), FrameOf(pdu, sequence, status));
          }
      }
    }

    /** Starts the unbind handshake of an open session. */
    method StartUnbind(force: bool)
      requires SendOk() && sequenceNumber <= 0x7FFF_FFFF
      modifies this`state, this`sequenceNumber, this`writingSendBuf, this`writeOutstanding, this`accepted, pendingSendBuf
      ensures SendOk() && sequenceNumber <= 0x7FFF_FFFF
      ensures Current() == AfterUnbind(old(Current()), force)
      ensures OwnOf(accepted) == old(OwnOf(accepted))
    {
      hide FramesOf, OwnOf, EncodeAll;
      if state == Open {
        state := Unbinding;
        if !force {
          var sequence := NextSequenceNumber();
          SendCommand(UNBIND, sequence, ROK, false);
          assert OwnOf(old(accepted)) + [] == OwnOf(old(accepted));
        }
      }
    }

    /** One frame, and the calls that the application makes when it is handed the frame, or told that
        the frame does not parse. */
    ghost function AfterFrame(s: Status, f: Frame, calls: seq<AppCall>): Status {
      var answered := s.(
        state := if f.id == UNBIND_RESP then Close else if f.id == UNBIND && s.state == Open then Unbinding else s.state,
        accepted := if Reply(f) == [] then s.accepted else s.accepted + [Sent(Reply(f)[0], true)]);
      var handed := if Delivers(f) && answered.state == Open then answered.(delivered := s.delivered + [f]) else answered;
      if Fails(f) || (Delivers(f) && answered.state == Open) then AfterCalls(handed, calls) else handed
    }

    /** What a frame does, by its command alone. A command with a parser is handed on by an open session if
        its body parses; one without a parser, or a body that does not parse, is reported; the calls of
        the application follow in both cases. */
    lemma DispatchTable(s: Status, f: Frame, calls: seq<AppCall>)
      ensures var alone := AfterFrame(s, f, []);
              && alone.state == (if f.id == 0x8000_0006 then Close
                                 else if f.id == 0x0000_0006 && s.state == Open then Unbinding else s.state)
              && alone.receiving == s.receiving && alone.sequence == s.sequence
              && alone.delivered == (if s.state == Open && f.id in PARSED && Parses(f) then s.delivered + [f] else s.delivered)
              && alone.accepted ==
                 (if f.id >= 0x8000_0000 || f.id in PARSED then s.accepted
                  else if f.id == 0x0000_0015 then s.accepted + [Sent(Frame(0x8000_0015, 0, f.sequence, []), true)]
                  else if f.id == 0x0000_0006 then s.accepted + [Sent(Frame(0x8000_0006, 0, f.sequence, []), true)]
                  else s.accepted + [Sent(Frame(0x8000_0000, 3, f.sequence, []), true)])
              && AfterFrame(s, f, calls) ==
                 (if f.id in {0x0000_0006, 0x8000_0006, 0x0000_0015, 0x8000_0015} then alone
                  else if f.id in PARSED && Parses(f) && s.state != Open then alone
                  else AfterCalls(alone, calls))
    {
      hide Parses;
    }

    /** A list of frames, with the calls made for each of them. */
    ghost function AfterFrames(s: Status, fs: seq<Frame>, scripts: seq<seq<AppCall>>): Status {
      if fs == [] then s
      else AfterFrame(AfterFrames(s, fs[..|fs| - 1], scripts), fs[|fs| - 1], ScriptAt(scripts, |fs| - 1))
    }

    lemma AfterFramesGrows(s: Status, fs: seq<Frame>, f: Frame, scripts: seq<seq<AppCall>>)
      ensures AfterFrames(s, fs + [f], scripts) == AfterFrame(AfterFrames(s, fs, scripts), f, ScriptAt(scripts, |fs|))
    {
      assert (fs + [f])[..|fs|] == fs;
    }

    /** With no calls made, frames can be taken in one go or in two, and reading goes on as before. */
    lemma {:induction false} AfterFramesConcat(s: Status, fs: seq<Frame>, gs: seq<Frame>)
      ensures AfterFrames(s, fs + gs, []) == AfterFrames(AfterFrames(s, fs, []), gs, [])
      ensures AfterFrames(s, gs, []).receiving == s.receiving
      decreases |gs|
    {
      hide Fails, Delivers, Reply;
      if gs == [] {
        assert fs + gs == fs;
      } else {
        var init := gs[..|gs| - 1];
        AfterFramesConcat(s, fs, init);
        assert (fs + gs)[..|fs + gs| - 1] == fs + init;
      }
    }

    /** Only the unbind handshake and calls of the application end the open state. */
    lemma {:induction false} FramesKeepState(s: Status, fs: seq<Frame>, scripts: seq<seq<AppCall>>)
      requires NoUnbind(fs) && forall i :: 0 <= i < |scripts| ==> NoLeave(scripts[i])
      ensures AfterFrames(s, fs, scripts).state == s.state && AfterFrames(s, fs, scripts).sequence == s.sequence
    {
      hide Fails, Delivers, Reply, AfterCalls;
      if fs != [] {
        var init, f, calls := fs[..|fs| - 1], fs[|fs| - 1], ScriptAt(scripts, |fs| - 1);
        FramesKeepState(s, init, scripts);
        var t := AfterFrames(s, init, scripts);
        forall u: Status ensures AfterCalls(u, calls).state == u.state && AfterCalls(u, calls).sequence == u.sequence {
          CallsKeepState(u, calls);
        }
      }
    }

    /** The receive loop has gone from one status to another over these frames, each taken while receiving. */
    ghost predicate Running(before: Status, now: Status, fs: seq<Frame>, scripts: seq<seq<AppCall>>) {
      && now == AfterFrames(before, fs, scripts)
      && forall j :: 0 <= j < |fs| ==> AfterFrames(before, fs[..j], scripts).receiving == Receiving
    }

    lemma RunningStarts(before: Status, scripts: seq<seq<AppCall>>)
      ensures Running(before, before, [], scripts)
    {}

    lemma RunningGrows(before: Status, now: Status, fs: seq<Frame>, f: Frame, scripts: seq<seq<AppCall>>)
      requires Running(before, now, fs, scripts) && now.receiving == Receiving
      ensures Running(before, AfterFrame(now, f, ScriptAt(scripts, |fs|)), fs + [f], scripts)
    {
      hide AfterFrame, AfterFrames;
      AfterFramesGrows(before, fs, f, scripts);
      forall j | 0 <= j < |fs + [f]| ensures AfterFrames(before, (fs + [f])[..j], scripts).receiving == Receiving {
        assert (fs + [f])[..j] == if j < |fs| then fs[..j] else fs;
      }
    }

    /** The loop has ended: a pending pause takes effect. */
    ghost predicate Ran(before: Status, after: Status, fs: seq<Frame>, scripts: seq<seq<AppCall>>) {
      exists end: Status ::
        Running(before, end, fs, scripts) &&
        after == if end.receiving == PendingPause then end.(receiving := Paused) else end
    }

    /** Without calls, and without frames of an unbind handshake, a receiving session stays as it was, but
        for its answers and deliveries. */
    lemma QuietRun(before: Status, after: Status, fs: seq<Frame>)
      requires Ran(before, after, fs, []) && before.receiving == Receiving
      ensures after == AfterFrames(before, fs, []) && after.receiving == Receiving
      ensures NoUnbind(fs) ==> after.state == before.state && after.sequence == before.sequence
    {
      hide AfterFrames, AfterFrame;
      AfterFramesConcat(before, [], fs);
      assert [] + fs == fs;
      if NoUnbind(fs) {
        FramesKeepState(before, fs, []);
      }
    }

    /** Dispatches one frame: answers what must be answered, follows the unbind handshake and hands
        parsed PDUs to the application. Its handler, or the one for PDUs that do not parse, then makes
        the given calls. */
    method ConsumePdu(f: Frame, calls: seq<AppCall>)
      requires SendOk() && sequenceNumber <= 0x7FFF_FFFF && receivingState != Paused
      requires forall i :: 0 <= i < |calls| ==> CallOk(calls[i])
      modifies this`state, this`receivingState, this`sequenceNumber, this`writingSendBuf, this`writeOutstanding,
               this`accepted, this`delivered, pendingSendBuf
      ensures SendOk() && sequenceNumber <= 0x7FFF_FFFF && receivingState != Paused
      ensures Current() == AfterFrame(old(Current()), f, calls)
      ensures OwnOf(accepted) == old(OwnOf(accepted)) + Reply(f)
      ensures delivered == if Delivers(f) && old(state) == Open then old(delivered) + [f] else old(delivered)
      ensures delivered == if f.id in PARSED && Parses(f) && old(state) == Open then old(delivered) + [f] else old(delivered)
      ensures state == Open ==> old(state) == Open
    {
      hide FramesOf, EncodeAll, Sendable, OwnOf, Decode, AfterCall, AfterCalls;
      DispatchTable(Current(), f, []);
      Answer(f);
      NotDelivered();
      if Delivers(f) && state == Open {
        delivered := delivered + [f];
      }
      if Fails(f) || (Delivers(f) && state == Open) {
        RunCalls(calls);
      }
    }

    /** The session's own part: its answer and the unbind handshake. */
    method Answer(f: Frame)
      requires SendOk()
      modifies this`state, this`writingSendBuf, this`writeOutstanding, this`accepted, pendingSendBuf
      ensures SendOk()
      ensures state == if f.id == UNBIND_RESP then Close
                       else if f.id == UNBIND && old(state) == Open then Unbinding else old(state)
      ensures accepted == if Reply(f) == [] then old(accepted) else old(accepted) + [Sent(Reply(f)[0], true)]
      ensures OwnOf(accepted) == old(OwnOf(accepted)) + Reply(f)
      // enquire_link and unbind get their responses, other requests without a parser a generic_nack
      ensures f.id == 0x0000_0015 ==> accepted == old(accepted) + [Sent(Frame(0x8000_0015, 0, f.sequence, []), true)]
      ensures f.id == 0x0000_0006 ==> accepted == old(accepted) + [Sent(Frame(0x8000_0006, 0, f.sequence, []), true)]
      ensures f.id >= 0x8000_0000 || f.id in PARSED ==> accepted == old(accepted)
      ensures f.id < 0x8000_0000 && f.id !in PARSED && f.id != 0x0000_0006 && f.id != 0x0000_0015 ==>
                accepted == old(accepted) + [Sent(Frame(0x8000_0000, 3, f.sequence, []), true)]
    {
      hide FramesOf, EncodeAll, OwnOf;
      if IsResponse(f.id) {
        if f.id == UNBIND_RESP {
          state := Close;
        }
      } else if f.id == ENQUIRE_LINK {
        SendCommand(ENQUIRE_LINK_RESP, f.sequence, ROK, true);
      } else if f.id == UNBIND {
        if state == Open {
          state := Unbinding;
        }
        SendCommand(UNBIND_RESP, f.sequence, ROK, true);
      } else if !KnownRequest(f.id) {
        SendCommand(GENERIC_NACK, f.sequence, RINVCMDID, true);
      }
    }

    /** The calls of a handler, one after the other. */
    method RunCalls(calls: seq<AppCall>)
      requires SendOk() && sequenceNumber <= 0x7FFF_FFFF && receivingState != Paused
      requires forall i :: 0 <= i < |calls| ==> CallOk(calls[i])
      modifies this`state, this`receivingState, this`sequenceNumber, this`writingSendBuf, this`writeOutstanding,
               this`accepted, pendingSendBuf
      ensures SendOk() && sequenceNumber <= 0x7FFF_FFFF && receivingState != Paused
      ensures Current() == AfterCalls(old(Current()), calls)
      ensures OwnOf(accepted) == old(OwnOf(accepted))
      ensures state == Open ==> old(state) == Open
    {
      hide FramesOf, EncodeAll, Sendable, OwnOf;
      for i := 0 to |calls|
        invariant SendOk() && sequenceNumber <= 0x7FFF_FFFF && receivingState != Paused
        invariant Current() == AfterCalls(old(Current()), calls[..i])
        invariant OwnOf(accepted) == old(OwnOf(accepted))
        invariant state == Open ==> old(state) == Open
      {
        AfterCallsGrows(old(Current()), calls, i);
        HandlerCall(calls[i]);
      }
      assert calls[..|calls|] == calls;
    }

    /** A known PDU whose body parses. */
    predicate Delivers(f: Frame) {
      (KnownRequest(f.id) || KnownResponse(f.id)) && Parses(f)
    }

    predicate Parses(f: Frame) {
      if f.id == COMMAND_ID then Decode(f.body).Ok? else parses(f)
    }

    /** A known PDU whose body does not parse, or an unknown one. */
    predicate Fails(f: Frame) {
      if KnownRequest(f.id) || KnownResponse(f.id) then !Parses(f)
      else f.id != ENQUIRE_LINK && f.id != ENQUIRE_LINK_RESP && f.id != UNBIND && f.id != UNBIND_RESP
    }

    /** The frames of the unbind handshake are not for the application. */
    lemma NotDelivered()
      ensures forall f: Frame :: f.id == UNBIND || f.id == UNBIND_RESP ==> !Delivers(f)
    {}

    /** Takes the frame at the front of the queue, dispatches it and drops its bytes. */
    method ReceiveOne(calls: seq<AppCall>)
      requires Valid() && receivingState == Receiving && Complete(receiveBuf.Data())
      requires forall i :: 0 <= i < |calls| ==> CallOk(calls[i])
      modifies this`state, this`receivingState, this`sequenceNumber, this`writingSendBuf, this`writeOutstanding,
               this`accepted, this`delivered, this`dispatched, pendingSendBuf, receiveBuf
      ensures Valid() && receivingState != Paused && |receiveBuf.Data()| < |old(receiveBuf.Data())|
      ensures |dispatched| == |old(dispatched)| + 1 && old(dispatched) <= dispatched
      ensures Current() == AfterFrame(old(Current()), dispatched[|old(dispatched)|], calls)
    {
      hide FramesOf, OwnOf, EncodeAll, Complete, Announced, First, Replies, Framed, Fits, Encode, Reply, Fails;
      hide Delivers, Handed, AfterFrame;
      ghost var data := receiveBuf.Data();
      NotDelivered();
      FramedFirst(data, ANY_LENGTH);
      var f := First(receiveBuf.Data());
      var commandLength := Announced(receiveBuf.Data());
      ConsumePdu(f, calls);
      receiveBuf.Consume(commandLength);
      FirstInverse(data);
      TakenOff(dispatched, f, data[commandLength..]);
      RepliesGrow(dispatched, f);
      HandedGrows(dispatched, f);
      dispatched := dispatched + [f];
    }

    /** The receive loop. `scripts` says what the application does inside the handlers it is called
        through. It fails exactly when reading goes on and there is no room for the next read. */
    method DoReceive(scripts: seq<seq<AppCall>>) returns (ok: bool)
      requires Valid() && receivingState != Paused && !readOutstanding
      requires forall i, j :: 0 <= i < |scripts| && 0 <= j < |scripts[i]| ==> CallOk(scripts[i][j])
      modifies this`state, this`receivingState, this`sequenceNumber, this`writingSendBuf, this`writeOutstanding,
               this`accepted, this`delivered, this`dispatched, this`readOutstanding, pendingSendBuf, receiveBuf,
               receiveBuf.buf
      ensures Valid() && (ok ==> Idle()) && receivingState != PendingPause
      ensures ok <==> receivingState == Paused || HasRoom(receiveBuf.Data())
      ensures old(dispatched) <= dispatched
      ensures Ran(old(Current()), Current(), dispatched[|old(dispatched)|..], scripts)
      ensures receivingState == Receiving ==> !Complete(receiveBuf.Data())
      ensures readOutstanding <==> receivingState == Receiving && ok
      ensures !Complete(old(receiveBuf.Data())) ==> dispatched == old(dispatched)
    {
      hide FramesOf, OwnOf, EncodeAll, Complete, Replies, Framed, Fits, Fails, Delivers, Handed;
      hide AfterFrame, AfterFrames, Running, Ran, SendOk;
      var k := 0;
      ghost var start, before := Current(), dispatched;
      RunningStarts(start, scripts);
      ghost var fs: seq<Frame> := [];
      while receivingState == Receiving && Complete(receiveBuf.Data())
        invariant Valid() && receivingState != Paused && !readOutstanding
        invariant dispatched == before + fs && k == |fs|
        invariant Running(start, Current(), fs, scripts)
        invariant !Complete(old(receiveBuf.Data())) ==> fs == [] && receiveBuf.Data() == old(receiveBuf.Data())
        decreases |receiveBuf.Data()|
      {
        ghost var now := Current();
        ReceiveOne(if k < |scripts| then scripts[k] else []);
        ghost var f := dispatched[|before| + k];
        RunningGrows(start, now, fs, f, scripts);
        fs := fs + [f];
        k := k + 1;
      }
      assert dispatched[|before|..] == fs;
      RunEnds(start, Current(), fs, scripts);
      ok := PauseOrRead();
    }

    /** The end of the loop: a pending pause takes effect, or the next read starts. */
    method PauseOrRead() returns (ok: bool)
      requires Valid() && receivingState != Paused && !readOutstanding
      requires receivingState == Receiving ==> !Complete(receiveBuf.Data())
      modifies this`receivingState, this`readOutstanding, receiveBuf, receiveBuf.buf
      ensures Valid() && (ok ==> Idle()) && receivingState != PendingPause
      ensures ok <==> receivingState == Paused || HasRoom(receiveBuf.Data())
      ensures Current() == (if old(receivingState) == PendingPause then old(Current()).(receiving := Paused)
                            else old(Current()))
      ensures readOutstanding <==> receivingState == Receiving && ok
      ensures receiveBuf.Data() == old(receiveBuf.Data())
    {
      hide FramesOf, OwnOf, EncodeAll, Complete, Replies, Framed, Handed;
      if receivingState == PendingPause {
        receivingState := Paused;
        return true;
      }
      ok := receiveBuf.Prepare(READ_SIZE);
      readOutstanding := ok;
    }

    lemma NoFrames(s: Status)
      ensures AfterFrames(s, [], []) == s
    {}

    lemma RunEnds(before: Status, now: Status, fs: seq<Frame>, scripts: seq<seq<AppCall>>)
      requires Running(before, now, fs, scripts)
      ensures Ran(before, if now.receiving == PendingPause then now.(receiving := Paused) else now, fs, scripts)
    {}

    /** Bytes arrived. */
    method OnReceived(bytes: seq<byte>, scripts: seq<seq<AppCall>>) returns (ok: bool)
      requires Valid() && Idle() && readOutstanding && |bytes| <= READ_SIZE
      requires Framed(receiveBuf.Data() + bytes, ANY_LENGTH)
      requires forall i, j :: 0 <= i < |scripts| && 0 <= j < |scripts[i]| ==> CallOk(scripts[i][j])
      modifies this, pendingSendBuf, receiveBuf, receiveBuf.buf
      ensures Valid() && (ok ==> Idle()) && received == old(received) + bytes
      ensures ok <==> receivingState == Paused || |receiveBuf.Data()| + 0x1_0000 <= 0x10_0000
      ensures old(dispatched) <= dispatched
      ensures Ran(old(Current()), Current(), dispatched[|old(dispatched)|..], scripts)
      ensures receivingState == Receiving ==> !Complete(receiveBuf.Data())
      ensures receivingState != PendingPause && written == old(written)
      ensures readOutstanding <==> receivingState == Receiving && ok
    {
      hide FramesOf, OwnOf, EncodeAll, Complete, Framed, Replies, Ran, Handed;
      receiveBuf.Fill(bytes);
      receiveBuf.Commit(|bytes|);
      assert receiveBuf.Data() == old(receiveBuf.Data()) + bytes;
      received := received + bytes;
      assert received == EncodeAll(dispatched) + receiveBuf.Data();
      readOutstanding := false;
      ok := DoReceive(scripts);
    }

    /** The read failed: the session closes and does not read again. */
    method OnReceiveError()
      requires Valid() && Idle() && readOutstanding
      modifies this`state, this`readOutstanding
      ensures Valid() && Idle() && state == Close && dispatched == old(dispatched)
    {
      readOutstanding := false;
      state := Close;
    }

    /** The application lets reading go on, outside of any handler; also how a session starts. */
    method ResumeReceiving(scripts: seq<seq<AppCall>>) returns (ok: bool)
      requires Valid() && Idle()
      requires forall i, j :: 0 <= i < |scripts| && 0 <= j < |scripts[i]| ==> CallOk(scripts[i][j])
      modifies this, pendingSendBuf, receiveBuf, receiveBuf.buf
      ensures Valid() && (ok ==> Idle()) && received == old(received)
      ensures ok <==> old(receivingState) != Paused || receivingState == Paused || HasRoom(receiveBuf.Data())
      ensures old(receivingState) != Paused ==>
                Current() == old(Current()).(receiving := Receiving) && dispatched == old(dispatched) &&
                readOutstanding == old(readOutstanding)
      ensures old(dispatched) <= dispatched
      ensures old(receivingState) == Paused ==>
                && Ran(old(Current()).(receiving := Receiving), Current(), dispatched[|old(dispatched)|..], scripts)
                && (readOutstanding <==> receivingState == Receiving && ok)
                && (receivingState == Receiving ==> !Complete(receiveBuf.Data()))
                && (!Complete(old(receiveBuf.Data())) ==> dispatched == old(dispatched))
    {
      hide FramesOf, OwnOf, EncodeAll, Complete, Framed, Replies, Ran, Handed;
      var prev := receivingState;
      receivingState := Receiving;
      ok := true;
      if prev == Paused {
        ok := DoReceive(scripts);
      }
    }

    /** The application starts the unbind handshake. */
    method Unbind(force: bool)
      requires Valid() && Idle()
      modifies this`state, this`sequenceNumber, this`writingSendBuf, this`writeOutstanding, this`accepted, pendingSendBuf
      ensures Valid() && Idle()
      ensures Current() == AfterUnbind(old(Current()), force)
      ensures state == if old(state) == Open then Unbinding else old(state)
      ensures accepted == if old(state) == Open && !force
                          then old(accepted) + [Sent(Frame(0x0000_0006, 0, sequenceNumber, []), false)] else old(accepted)
    {
      hide FramesOf, OwnOf, EncodeAll, Framed, Replies, Complete, Handed;
      StartUnbind(force);
    }
  }

  lemma OwnUnchanged(log: seq<Sent>, f: Frame)
    ensures OwnOf(log + [Sent(f, false)]) == OwnOf(log)
  {
    assert (log + [Sent(f, false)])[..|log|] == log;
  }

  lemma FramedFirst(data: seq<byte>, limit: nat)
    requires Framed(data, limit) && Complete(data)
    ensures HEADER_LENGTH <= Announced(data) <= |data| && Framed(data[Announced(data)..], limit)
  {}

  /** A dispatched frame moves from the queue to the list of dispatched frames. */
  lemma TakenOff(dispatched: seq<Frame>, f: Frame, rest: seq<byte>)
    requires AllFit(dispatched) && Fits(f)
    ensures AllFit(dispatched + [f])
    ensures EncodeAll(dispatched + [f]) + rest == EncodeAll(dispatched) + (Encode(f) + rest)
  {
    EncodeAppend(dispatched, f);
    assert (EncodeAll(dispatched) + Encode(f)) + rest == EncodeAll(dispatched) + (Encode(f) + rest);
  }

  /** An unfinished frame within the limit leaves room for a read. */
  lemma UnfinishedIsShort(data: seq<byte>)
    requires Framed(data, MAX_FRAME) && !Complete(data)
    ensures HasRoom(data)
  {}

  /** A frame can be received however it is cut exactly if it is within the limit: of a longer one, the
      first `MAX_FRAME` bytes are unfinished and leave no room. */
  lemma ReceivedHoweverCut(f: Frame)
    requires Fits(f)
    ensures (forall p :: p <= Encode(f) && !Complete(p) ==> |p| + 0x1_0000 <= 0x10_0000) <==> 16 + |f.body| <= 983_041
  {
    hide Encode, Complete;
    EncodedLength(f);
    forall p | p <= Encode(f) ensures !Complete(p) <==> |p| < HEADER_LENGTH + |f.body| {
      CutFrame(f, p);
    }
    if HEADER_LENGTH + |f.body| > MAX_FRAME {
      var p := Encode(f)[..MAX_FRAME];
      assert p <= Encode(f) && |p| + 0x1_0000 > 0x10_0000;
    }
  }

  /** Of a frame, only all of it is complete. */
  lemma CutFrame(f: Frame, p: seq<byte>)
    requires Fits(f) && p <= Encode(f)
    ensures Complete(p) <==> |p| == HEADER_LENGTH + |f.body|
  {
    hide Encode, DeserializeHeader;
    EncodedLength(f);
    FirstOfEncoded(f, []);
    assert Encode(f) + [] == Encode(f);
    if |p| >= HEADER_LENGTH {
      SameHeader(p, Encode(f));
    }
  }

  lemma {:induction false} WiderFraming(data: seq<byte>, limit: nat, wider: nat)
    requires Framed(data, limit) && limit <= wider
    ensures Framed(data, wider)
    decreases |data|
  {
    hide DeserializeHeader;
    if |data| >= HEADER_LENGTH && |data| >= Announced(data) {
      WiderFraming(data[Announced(data)..], limit, wider);
    }
  }

  lemma {:induction false} FramedAfter(fs: seq<Frame>, rest: seq<byte>, limit: nat)
    requires AllFit(fs) && Framed(EncodeAll(fs) + rest, limit)
    ensures Framed(rest, limit)
    decreases |fs|
  {
    hide Announced, Complete, First, Encode;
    if fs == [] {
      assert EncodeAll(fs) + rest == rest;
    } else {
      EncodeSplit(fs);
      assert EncodeAll(fs) + rest == Encode(fs[0]) + (EncodeAll(fs[1..]) + rest);
      FirstOfEncoded(fs[0], EncodeAll(fs[1..]) + rest);
      FramedFirst(EncodeAll(fs) + rest, limit);
      FramedAfter(fs[1..], rest, limit);
    }
  }

  /** From one session to another: what a sender within the size limit has written may arrive in any
      pieces, every piece is acceptable to the receiver. */
  lemma AnyPieceIsAcceptable(sender: Session, receiver: Session, piece: seq<byte>)
    requires sender.Valid() && receiver.Valid()
    requires AllWithin(FramesOf(sender.accepted), MAX_FRAME)
    requires receiver.received + piece <= sender.written
    ensures Framed(receiver.receiveBuf.Data() + piece, MAX_FRAME)
  {
    hide FramesOf, Framed, Replies, OwnOf;
    var sent := FramesOf(sender.accepted);
    EncodedIsFramed(sent, MAX_FRAME);
    var data := receiver.receiveBuf.Data();
    assert receiver.received + piece == EncodeAll(receiver.dispatched) + (data + piece);
    assert receiver.received + piece <= EncodeAll(sent);
    FramedPrefix(receiver.received + piece, EncodeAll(sent), MAX_FRAME);
    FramedAfter(receiver.dispatched, data + piece, MAX_FRAME);
  }

  /** From one session to another: the receiver has dispatched a beginning of what the sender accepted,
      and all of it once all bytes have arrived and reading is not paused. */
  lemma EndToEnd(sender: Session, receiver: Session)
    requires sender.Valid() && receiver.Valid() && receiver.Idle()
    requires receiver.received <= sender.written
    ensures receiver.dispatched <= FramesOf(sender.accepted)
    ensures receiver.delivered <= receiver.Handed(FramesOf(sender.accepted))
    ensures receiver.received == EncodeAll(FramesOf(sender.accepted)) && receiver.readOutstanding ==>
              receiver.dispatched == FramesOf(sender.accepted) &&
              (receiver.state == Open ==> receiver.delivered == receiver.Handed(FramesOf(sender.accepted)))
  {
    hide FramesOf, Framed, Replies, OwnOf;
    Unambiguous(FramesOf(sender.accepted), receiver.dispatched, receiver.receiveBuf.Data());
    receiver.HandedPrefix(receiver.dispatched, FramesOf(sender.accepted));
  }

  /** The pieces of a byte stream, none longer than a read. */
  ghost predicate Pieces(pieces: seq<seq<byte>>) {
    forall i :: 0 <= i < |pieces| ==> |pieces[i]| <= READ_SIZE
  }

  ghost function Glued(pieces: seq<seq<byte>>): seq<byte> {
    if pieces == [] then [] else Glued(pieces[..|pieces| - 1]) + pieces[|pieces| - 1]
  }

  lemma AllWritten(sender: Session)
    requires sender.Valid() && sender.writingSendBuf == []
    ensures AllFit(FramesOf(sender.accepted)) && sender.written == EncodeAll(FramesOf(sender.accepted))
  {
    hide FramesOf, EncodeAll, Replies, OwnOf, Framed;
    assert sender.written + ([] + []) == sender.written;
  }

  /** One piece of the sender's bytes arrives, and the receiver goes on reading. */
  method TakePiece(sender: Session, receiver: Session, piece: seq<byte>)
    requires sender.Valid() && receiver.Valid() && receiver.Idle() && sender != receiver
    requires sender.pendingSendBuf != receiver.pendingSendBuf
    requires sender.receiveBuf != receiver.receiveBuf && sender.receiveBuf.buf != receiver.receiveBuf.buf
    requires receiver.receivingState == Receiving && receiver.readOutstanding && |piece| <= READ_SIZE
    requires AllWithin(FramesOf(sender.accepted), MAX_FRAME) && receiver.received + piece <= sender.written
    modifies receiver, receiver.pendingSendBuf, receiver.receiveBuf, receiver.receiveBuf.buf
    ensures sender.Valid() && receiver.Valid() && receiver.Idle()
    ensures receiver.receivingState == Receiving && receiver.readOutstanding
    ensures receiver.received == old(receiver.received) + piece && old(receiver.dispatched) <= receiver.dispatched
    ensures receiver.Current() ==
            receiver.AfterFrames(old(receiver.Current()), receiver.dispatched[|old(receiver.dispatched)|..], [])
  {
    hide FramesOf, Framed, Replies, OwnOf, EncodeAll, Complete, AllWithin, HasRoom;
    hide Session.AfterFrames, Session.Ran, Session.Handed;
    AnyPieceIsAcceptable(sender, receiver, piece);
    WiderFraming(receiver.receiveBuf.Data() + piece, MAX_FRAME, ANY_LENGTH);
    var ok := receiver.OnReceived(piece, []);
    receiver.QuietRun(old(receiver.Current()), receiver.Current(), receiver.dispatched[|old(receiver.dispatched)|..]);
    AnyPieceIsAcceptable(sender, receiver, []);
    assert receiver.receiveBuf.Data() + [] == receiver.receiveBuf.Data();
    UnfinishedIsShort(receiver.receiveBuf.Data());
  }

  /** A whole transfer: whatever the pieces in which the sender's bytes arrive, the receiver has
      dispatched exactly the sender's frames at the end, in order. Unless one of them belongs to an unbind
      handshake, an open receiver has handed on all that were for its application. */
  method Transfer(sender: Session, receiver: Session, pieces: seq<seq<byte>>)
    requires sender.Valid() && receiver.Valid() && receiver.Idle() && sender != receiver
    requires sender.pendingSendBuf != receiver.pendingSendBuf
    requires sender.receiveBuf != receiver.receiveBuf && sender.receiveBuf.buf != receiver.receiveBuf.buf
    requires receiver.receivingState == Receiving && receiver.readOutstanding
    requires AllWithin(FramesOf(sender.accepted), MAX_FRAME)
    requires Pieces(pieces) && receiver.received + Glued(pieces) == sender.written
    modifies receiver, receiver.pendingSendBuf, receiver.receiveBuf, receiver.receiveBuf.buf
    ensures sender.Valid() && receiver.Valid() && receiver.Idle()
    ensures receiver.received == sender.written
    ensures receiver.dispatched <= FramesOf(sender.accepted)
    ensures receiver.delivered <= receiver.Handed(FramesOf(sender.accepted))
    ensures sender.writingSendBuf == [] ==> receiver.dispatched == FramesOf(sender.accepted)
    ensures old(receiver.dispatched) <= receiver.dispatched
    ensures receiver.Current() ==
            receiver.AfterFrames(old(receiver.Current()), receiver.dispatched[|old(receiver.dispatched)|..], [])
    ensures sender.writingSendBuf == [] && old(receiver.state) == Open && NoUnbind(FramesOf(sender.accepted)) ==>
              receiver.state == Open && receiver.delivered == receiver.Handed(FramesOf(sender.accepted))
  {
    hide FramesOf, Framed, Replies, OwnOf, EncodeAll, Complete, AllWithin, HasRoom;
    hide Session.AfterFrames, Session.Ran, Session.Handed, Session.Valid, Session.Idle;
    assert pieces[..0] == [];
    ghost var start, before := receiver.Current(), receiver.dispatched;
    receiver.NoFrames(start);
    assert before[|before|..] == [];
    for i := 0 to |pieces|
      invariant receiver.Valid() && receiver.Idle() && receiver.receivingState == Receiving && receiver.readOutstanding
      invariant receiver.received == old(receiver.received) + Glued(pieces[..i])
      invariant before <= receiver.dispatched
      invariant receiver.Current() == receiver.AfterFrames(start, receiver.dispatched[|before|..], [])
    {
      ghost var done := receiver.dispatched;
      GluedPrefix(pieces, i + 1);
      assert pieces[..i + 1][..i] == pieces[..i] && pieces[..i + 1][i] == pieces[i];
      assert receiver.received + pieces[i] == old(receiver.received) + Glued(pieces[..i + 1]);
      TakePiece(sender, receiver, pieces[i]);
      receiver.AfterFramesConcat(start, done[|before|..], receiver.dispatched[|done|..]);
      assert receiver.dispatched[|before|..] == done[|before|..] + receiver.dispatched[|done|..];
    }
    assert pieces[..|pieces|] == pieces;
    EndToEnd(sender, receiver);
    if sender.writingSendBuf == [] {
      AllWritten(sender);
    }
    if NoUnbind(FramesOf(sender.accepted)) {
      receiver.FramesKeepState(start, receiver.dispatched[|before|..], []);
    }
  }

  lemma {:induction false} GluedPrefix(pieces: seq<seq<byte>>, i: nat)
    requires i <= |pieces|
    ensures Glued(pieces[..i]) <= Glued(pieces)
    decreases |pieces| - i
  {
    if i < |pieces| {
      assert pieces[..i + 1][..i] == pieces[..i];
      GluedPrefix(pieces, i + 1);
    } else {
      assert pieces[..i] == pieces;
    }
  }

  /** A clean submit_sm that was accepted for sending is read back from the frame it travelled in, by
      whichever session receives it. */
  lemma SubmitArrives(m: SubmitSm, sequence: u32, receiver: Session)
    requires Sized(m.oparam) && !Rejected(m) && Clean(m)
    requires Sendable(Pdu(COMMAND_ID, SCHEMA, Fields(m)))
    ensures var f := FrameOf(Pdu(COMMAND_ID, SCHEMA, Fields(m)), sequence, ROK);
            Decode(f.body) == Ok(m) && receiver.Delivers(f)
  {
    SubmitRoundTrip(m);
  }

  /** A stream cut into pieces of one size. */
  method Chop(bytes: seq<byte>, size: nat) returns (pieces: seq<seq<byte>>)
    requires 0 < size <= READ_SIZE
    ensures Pieces(pieces) && Glued(pieces) == bytes
  {
    pieces := [];
    var rest := bytes;
    while rest != []
      invariant Pieces(pieces) && Glued(pieces) + rest == bytes
      decreases |rest|
    {
      var n := if |rest| < size then |rest| else size;
      assert (pieces + [rest[..n]])[..|pieces|] == pieces;
      assert rest[..n] + rest[n..] == rest;
      assert (Glued(pieces) + rest[..n]) + rest[n..] == Glued(pieces) + (rest[..n] + rest[n..]);
      pieces := pieces + [rest[..n]];
      rest := rest[n..];
    }
  }

  /** A new session sends one PDU. */
  method SendOne(pdu: Pdu, parses: Frame -> bool) returns (sender: Session, bytes: seq<byte>)
    requires Sendable(pdu) && !SomeTooLong(pdu.fields, pdu.values)
    ensures sender.Valid() && sender.writingSendBuf == [] && sender.written == bytes
    ensures FramesOf(sender.accepted) == [FrameOf(pdu, 1, ROK)]
    ensures fresh(sender) && fresh(sender.pendingSendBuf) && fresh(sender.receiveBuf) && fresh(sender.receiveBuf.buf)
  {
    hide Replies, Framed, SomeTooLong, AllTyped, Encode, EncAll, OwnOf, EncodeAll, Session.Handed;
    sender := new Session(parses);
    var sent, sequence := sender.SendRequest(pdu);
    OneFrame(FrameOf(pdu, 1, ROK));
    LogGrows([], FrameOf(pdu, 1, ROK), false);
    assert sender.accepted == [] + [Sent(FrameOf(pdu, 1, ROK), false)] && FramesOf([]) == [];
    assert |sender.writingSendBuf + sender.pendingSendBuf.bytes| > 0;
    bytes := sender.writingSendBuf;
    sender.OnWritten();
  }

  /** A new session starts to read. */
  method StartReceiver(parses: Frame -> bool) returns (receiver: Session)
    ensures receiver.Valid() && receiver.Idle() && receiver.state == Open
    ensures receiver.receivingState == Receiving && receiver.readOutstanding
    ensures receiver.received == [] && receiver.dispatched == [] && receiver.delivered == []
    ensures fresh(receiver) && fresh(receiver.pendingSendBuf) && fresh(receiver.receiveBuf) && fresh(receiver.receiveBuf.buf)
  {
    hide Session.AfterFrames, Session.AfterFrame, Session.Ran, Session.Delivers, Replies, Framed, OwnOf;
    receiver := new Session(parses);
    ghost var start := receiver.Current().(receiving := Receiving);
    var ok := receiver.ResumeReceiving([]);
    assert receiver.dispatched[0..] == [];
    receiver.QuietRun(start, receiver.Current(), []);
    receiver.NoFrames(start);
  }

  /** A whole run between two new sessions: a PDU within the size limit is sent and travels in pieces of
      any size. If it parses at the other end it is handed to the application there, and nothing else is. */
  method FrameRun(pdu: Pdu, size: nat, parses: Frame -> bool) returns (receiver: Session)
    requires Sendable(pdu) && !SomeTooLong(pdu.fields, pdu.values) && 0 < size <= READ_SIZE
    requires HEADER_LENGTH + |EncAll(pdu.fields, pdu.values)| <= MAX_FRAME
    requires pdu.id != UNBIND && pdu.id != UNBIND_RESP
    ensures receiver.Valid() && receiver.Idle() && receiver.state == Open
    ensures receiver.delivered == if receiver.Delivers(FrameOf(pdu, 1, ROK)) then [FrameOf(pdu, 1, ROK)] else []
  {
    hide Session.AfterFrames, Session.Handed, Session.Delivers, Replies, Framed, OwnOf, EncAll, AllTyped, SomeTooLong;
    hide FramesOf, EncodeAll, Session.Idle, Session.Valid, Complete, Encode, HasRoom;
    var sender, bytes := SendOne(pdu, parses);
    receiver := StartReceiver(parses);
    var pieces := Chop(bytes, size);
    Transfer(sender, receiver, pieces);
    receiver.HandedGrows([], FrameOf(pdu, 1, ROK));
    receiver.NothingHanded();
    assert [] + [FrameOf(pdu, 1, ROK)] == [FrameOf(pdu, 1, ROK)];
  }

  /** A clean submit_sm arrives. */
  method SubmitRun(m: SubmitSm, size: nat, parses: Frame -> bool) returns (receiver: Session)
    requires Sized(m.oparam) && !Rejected(m) && Clean(m) && 0 < size <= READ_SIZE
    requires HEADER_LENGTH + |EncAll(SCHEMA, Fields(m))| <= MAX_FRAME
    ensures receiver.Valid() && receiver.Idle() && receiver.state == Open
    ensures |receiver.delivered| == 1 && Decode(receiver.delivered[0].body) == Ok(m)
  {
    var pdu := Pdu(COMMAND_ID, SCHEMA, Fields(m));
    SubmitSendable(m);
    hide Fields, EncAll, AllTyped, Decode, Rejected, Clean, Session.Delivers, Session.Valid, Session.Idle, SomeTooLong;
    receiver := FrameRun(pdu, size, parses);
    SubmitArrives(m, 1, receiver);
  }

  lemma SubmitSendable(m: SubmitSm)
    requires Sized(m.oparam) && !Rejected(m) && HEADER_LENGTH + |EncAll(SCHEMA, Fields(m))| <= MAX_FRAME
    ensures Sendable(Pdu(COMMAND_ID, SCHEMA, Fields(m))) && !SomeTooLong(SCHEMA, Fields(m))
  {
    hide EncAll, AllTyped, Rejected, SomeTooLong;
    Shape(m);
    RejectedIsTooLong(m);
  }

  lemma OneFrame(f: Frame)
    requires Fits(f)
    ensures AllFit([f]) && EncodeAll([f]) == Encode(f) && |Encode(f)| > 0
  {
    EncodeAppend([], f);
    EncodedLength(f);
    assert [] + [f] == [f] && EncodeAll([]) == [];
  }
}
