/** Length-prefixed frames on a byte stream. */
module Framing {
  import opened Bytes

  const HEADER_LENGTH: nat := 16

  datatype Header = Header(length: u32, id: u32, status: u32, sequence: u32)

  datatype Frame = Frame(id: u32, status: u32, sequence: u32, body: seq<byte>)

  function SerializeHeader(h: Header): (r: seq<byte>)
    ensures |r| == HEADER_LENGTH
  {
    PutU32(h.length) + PutU32(h.id) + PutU32(h.status) + PutU32(h.sequence)
  }

  function DeserializeHeader(s: seq<byte>): Header
    requires |s| >= HEADER_LENGTH
  {
    Header(GetU32(s[0..4]), GetU32(s[4..8]), GetU32(s[8..12]), GetU32(s[12..16]))
  }

  lemma HeaderRoundTrip(h: Header, tail: seq<byte>)
    ensures DeserializeHeader(SerializeHeader(h) + tail) == h
  {
    var s := SerializeHeader(h) + tail;
    assert s[0..4] == PutU32(h.length) && s[4..8] == PutU32(h.id);
    assert s[8..12] == PutU32(h.status) && s[12..16] == PutU32(h.sequence);
    hide PutU32, GetU32;
    U32RoundTrip(h.length);
    U32RoundTrip(h.id);
    U32RoundTrip(h.status);
    U32RoundTrip(h.sequence);
  }

  /** The number that four bytes stand for, the most significant one first. */
  ghost function Number(s: seq<byte>): int
    requires |s| == 4
  {
    (s[0] as int) * 0x100_0000 + (s[1] as int) * 0x1_0000 + (s[2] as int) * 0x100 + s[3]
  }

  /** On the wire a frame is its length, its command, its status and its sequence number, four bytes each,
      and then the body; section 3.2 of SMPP v3.4. */
  lemma FrameOnWire(f: Frame)
    requires Fits(f)
    ensures var s := Encode(f);
            && |s| == 16 + |f.body| && s[16..] == f.body
            && Number(s[0..4]) == 16 + |f.body| && Number(s[4..8]) == f.id
            && Number(s[8..12]) == f.status && Number(s[12..16]) == f.sequence
  {
    var h := Header(HEADER_LENGTH + |f.body|, f.id, f.status, f.sequence);
    var s := Encode(f);
    assert s[0..4] == PutU32(h.length) && s[4..8] == PutU32(h.id);
    assert s[8..12] == PutU32(h.status) && s[12..16] == PutU32(h.sequence);
    hide PutU32;
    BigEndian32(h.length);
    BigEndian32(h.id);
    BigEndian32(h.status);
    BigEndian32(h.sequence);
  }

  lemma HeaderInverse(s: seq<byte>)
    requires |s| == HEADER_LENGTH
    ensures SerializeHeader(DeserializeHeader(s)) == s
  {
    hide PutU32, GetU32;
    U32Inverse(s[0..4]);
    U32Inverse(s[4..8]);
    U32Inverse(s[8..12]);
    U32Inverse(s[12..16]);
    assert s == s[0..4] + s[4..8] + s[8..12] + s[12..16];
  }

  /** The frame fits its 32-bit length field. */
  predicate Fits(f: Frame) {
    HEADER_LENGTH + |f.body| < 0x1_0000_0000
  }

  /** The bytes of a frame on the wire. */
  function Encode(f: Frame): seq<byte>
    requires Fits(f)
  {
    SerializeHeader(Header(HEADER_LENGTH + |f.body|, f.id, f.status, f.sequence)) + f.body
  }

  ghost predicate AllFit(fs: seq<Frame>) {
    forall i :: 0 <= i < |fs| ==> Fits(fs[i])
  }

  ghost function EncodeAll(fs: seq<Frame>): seq<byte>
    requires AllFit(fs)
  {
    if fs == [] then [] else EncodeAll(fs[..|fs| - 1]) + Encode(fs[|fs| - 1])
  }

  lemma EncodeAppend(fs: seq<Frame>, f: Frame)
    requires AllFit(fs) && Fits(f)
    ensures AllFit(fs + [f]) && EncodeAll(fs + [f]) == EncodeAll(fs) + Encode(f)
  {
    assert (fs + [f])[..|fs|] == fs;
  }

  lemma {:induction false} EncodeSplit(fs: seq<Frame>)
    requires AllFit(fs) && fs != []
    ensures EncodeAll(fs) == Encode(fs[0]) + EncodeAll(fs[1..])
  {
    hide Encode;
    var init, tail, last := fs[..|fs| - 1], fs[1..], fs[|fs| - 1];
    if init == [] {
      assert tail == [] && fs == [last];
    } else {
      EncodeSplit(init);
      assert tail[..|tail| - 1] == init[1..] && tail[|tail| - 1] == last;
      assert Encode(fs[0]) + EncodeAll(init[1..]) + Encode(last) == Encode(fs[0]) + (EncodeAll(init[1..]) + Encode(last));
    }
  }

  /** The length announced at the front of a buffer. */
  function Announced(s: seq<byte>): nat
    requires |s| >= HEADER_LENGTH
  {
    DeserializeHeader(s).length
  }

  /** A whole frame stands at the front of the buffer. */
  predicate Complete(s: seq<byte>) {
    |s| >= HEADER_LENGTH && |s| >= Announced(s)
  }

  /** The frame at the front of the buffer. */
  function First(s: seq<byte>): Frame
    requires Complete(s) && Announced(s) >= HEADER_LENGTH
  {
    var h := DeserializeHeader(s);
    Frame(h.id, h.status, h.sequence, s[HEADER_LENGTH..h.length])
  }

  /** The bytes are a stream of frames of announced lengths between a header and `limit`; the last one
      may still be on its way. */
  ghost predicate Framed(s: seq<byte>, limit: nat)
    decreases |s|
  {
    |s| >= HEADER_LENGTH ==>
      HEADER_LENGTH <= Announced(s) <= limit && (|s| >= Announced(s) ==> Framed(s[Announced(s)..], limit))
  }

  /** Taking the first frame off a buffer and putting its bytes back gives the buffer. */
  lemma FirstInverse(s: seq<byte>)
    requires Complete(s) && Announced(s) >= HEADER_LENGTH
    ensures Fits(First(s)) && Encode(First(s)) + s[Announced(s)..] == s
  {
    hide SerializeHeader, DeserializeHeader;
    HeaderInverse(s[..HEADER_LENGTH]);
    HeaderOfPrefix(s);
  }

  lemma HeaderOfPrefix(s: seq<byte>)
    requires |s| >= HEADER_LENGTH
    ensures DeserializeHeader(s) == DeserializeHeader(s[..HEADER_LENGTH])
  {
    var t := s[..HEADER_LENGTH];
    assert t[0..4] == s[0..4] && t[4..8] == s[4..8] && t[8..12] == s[8..12] && t[12..16] == s[12..16];
  }

  /** A frame followed by anything is found at the front. */
  lemma FirstOfEncoded(f: Frame, tail: seq<byte>)
    requires Fits(f)
    ensures var s := Encode(f) + tail;
            Complete(s) && Announced(s) == HEADER_LENGTH + |f.body| && First(s) == f && s[Announced(s)..] == tail
  {
    hide SerializeHeader, DeserializeHeader;
    var h := Header(HEADER_LENGTH + |f.body|, f.id, f.status, f.sequence);
    var s := Encode(f) + tail;
    assert s == SerializeHeader(h) + (f.body + tail);
    HeaderRoundTrip(h, f.body + tail);
  }

  /** The header is fixed by the first sixteen bytes. */
  lemma SameHeader(s: seq<byte>, t: seq<byte>)
    requires |s| >= HEADER_LENGTH && s <= t
    ensures DeserializeHeader(s) == DeserializeHeader(t)
  {
    HeaderOfPrefix(s);
    HeaderOfPrefix(t);
    assert s[..HEADER_LENGTH] == t[..HEADER_LENGTH];
  }

  /** Every part of a stream of frames is a stream of frames. */
  lemma {:induction false} FramedPrefix(s: seq<byte>, t: seq<byte>, limit: nat)
    requires s <= t && Framed(t, limit)
    ensures Framed(s, limit)
    decreases |s|
  {
    hide DeserializeHeader;
    if |s| >= HEADER_LENGTH {
      SameHeader(s, t);
      if |s| >= Announced(s) {
        assert s[Announced(s)..] <= t[Announced(s)..];
        FramedPrefix(s[Announced(s)..], t[Announced(s)..], limit);
      }
    }
  }

  ghost predicate AllWithin(fs: seq<Frame>, limit: nat) {
    forall i :: 0 <= i < |fs| ==> HEADER_LENGTH + |fs[i].body| <= limit
  }

  /** What a sender writes is a stream of frames. */
  lemma {:induction false} EncodedIsFramed(fs: seq<Frame>, limit: nat)
    requires AllFit(fs) && AllWithin(fs, limit)
    ensures Framed(EncodeAll(fs), limit)
    decreases |fs|
  {
    if fs != [] {
      EncodeSplit(fs);
      FirstOfEncoded(fs[0], EncodeAll(fs[1..]));
      EncodedIsFramed(fs[1..], limit);
    }
  }

  /** Frames are read off a stream in only one way: if what was dispatched, followed by what is still
      buffered, is the beginning of what was sent, then the frames dispatched are the first ones sent. */
  lemma {:induction false} Unambiguous(sent: seq<Frame>, dispatched: seq<Frame>, buffered: seq<byte>)
    requires AllFit(sent) && AllFit(dispatched)
    requires EncodeAll(dispatched) + buffered <= EncodeAll(sent)
    ensures dispatched <= sent
    ensures EncodeAll(dispatched) + buffered == EncodeAll(sent) && !Complete(buffered) ==>
              dispatched == sent && buffered == []
    decreases |dispatched|
  {
    hide Complete, First, Announced, Encode;
    if dispatched == [] {
      assert EncodeAll(dispatched) + buffered == buffered;
      if sent != [] {
        EncodeSplit(sent);
        FirstOfEncoded(sent[0], EncodeAll(sent[1..]));
      }
    } else {
      EncodeSplit(dispatched);
      FirstOfEncoded(dispatched[0], EncodeAll(dispatched[1..]) + buffered);
      var left, right := EncodeAll(dispatched) + buffered, EncodeAll(sent);
      assert left == Encode(dispatched[0]) + (EncodeAll(dispatched[1..]) + buffered);
      if sent == [] {
        EncodedLength(dispatched[0]);
        assert false;
      } else {
        EncodeSplit(sent);
        FirstOfEncoded(sent[0], EncodeAll(sent[1..]));
        SameFirst(dispatched[0], EncodeAll(dispatched[1..]) + buffered, sent[0], EncodeAll(sent[1..]));
        Unambiguous(sent[1..], dispatched[1..], buffered);
        assert dispatched == [dispatched[0]] + dispatched[1..] && sent == [sent[0]] + sent[1..];
      }
    }
  }

  lemma EncodedLength(f: Frame)
    requires Fits(f)
    ensures |Encode(f)| == HEADER_LENGTH + |f.body|
  {}

  /** Two streams of which one begins the other start with the same frame. */
  lemma SameFirst(f: Frame, s: seq<byte>, g: Frame, t: seq<byte>)
    requires Fits(f) && Fits(g) && Encode(f) + s <= Encode(g) + t
    ensures f == g && s <= t && (Encode(f) + s == Encode(g) + t ==> s == t)
  {
    hide DeserializeHeader, Encode;
    var left, right := Encode(f) + s, Encode(g) + t;
    EncodedLength(f);
    EncodedLength(g);
    FirstOfEncoded(f, s);
    FirstOfEncoded(g, t);
    SameHeader(left, right);
    assert First(left).body == First(right).body;
    assert left[|Encode(f)|..] == s && right[|Encode(f)|..] == t;
  }
}

/** The receive buffer: one block of memory with a readable part that moves through it. */
module FlatBuffers {
  import opened Bytes

  class FlatBuffer {
    const buf: array<byte>
    var inPos: nat
    var outPos: nat
    var lastPos: nat

    ghost predicate Valid()
      reads this
    {
      inPos <= outPos <= lastPos <= buf.Length
    }

    /** The queued bytes. */
    function Data(): seq<byte>
      requires Valid()
      reads this, buf
    {
      buf[inPos..outPos]
    }

    constructor (capacity: nat)
      ensures Valid() && Data() == [] && buf.Length == capacity && fresh(buf)
    {
      buf := new byte[capacity](_ => 0);
      inPos, outPos, lastPos := 0, 0, 0;
    }

    /** Makes room for `n` bytes behind the queue, moving it to the front of the block if it must.
        It fails exactly when queue and room together exceed the block. */
    method Prepare(n: nat) returns (ok: bool)
      requires Valid()
      modifies this, buf
      ensures Valid() && Data() == old(Data())
      ensures ok <==> n <= buf.Length - |old(Data())|
      ensures ok ==> lastPos == outPos + n
    {
      if n <= buf.Length - outPos {
        lastPos := outPos + n;
        return true;
      }
      var len := outPos - inPos;
      if n > buf.Length - len {
        return false;
      }
      if len > 0 {
        MoveToFront(len);
      }
      inPos := 0;
      outPos := len;
      lastPos := outPos + n;
      ok := true;
    }

    /** The overlapping copy to the front of the block. */
    method MoveToFront(len: nat)
      requires Valid() && len == outPos - inPos
      modifies buf
      ensures buf[..len] == old(buf[inPos..outPos])
    {
      for i := 0 to len
        invariant forall j :: 0 <= j < i ==> buf[j] == old(buf[inPos + j])
        invariant forall j :: i <= j < buf.Length ==> buf[j] == old(buf[j])
      {
        buf[i] := buf[inPos + i];
      }
    }

    /** The network writes into the room that was prepared. */
    method Fill(bytes: seq<byte>)
      requires Valid() && |bytes| <= lastPos - outPos
      modifies buf
      ensures Data() == old(Data()) && buf[outPos..outPos + |bytes|] == bytes
    {
      for i := 0 to |bytes|
        invariant forall j :: 0 <= j < i ==> buf[outPos + j] == bytes[j]
        invariant forall j :: 0 <= j < outPos ==> buf[j] == old(buf[j])
      {
        buf[outPos + i] := bytes[i];
      }
    }

    /** The first `n` bytes of the room join the queue, but no more than were prepared. */
    method Commit(n: nat)
      requires Valid()
      modifies this
      ensures Valid() && inPos == old(inPos) && lastPos == old(lastPos)
      ensures outPos == old(outPos) + (if n <= old(lastPos - outPos) then n else old(lastPos - outPos))
    {
      outPos := outPos + if n <= lastPos - outPos then n else lastPos - outPos;
    }

    /** The first `n` bytes leave the queue. */
    method Consume(n: nat)
      requires Valid()
      modifies this
      ensures Valid()
      ensures Data() == if n >= |old(Data())| then [] else old(Data())[n..]
    {
      if n >= outPos - inPos {
        inPos, outPos := 0, 0;
      } else {
        inPos := inPos + n;
      }
    }
  }
}
