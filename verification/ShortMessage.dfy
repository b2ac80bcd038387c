/** The user data header: a list of information elements in front of a short message. */
module UserDataHeaders {
  import opened Bytes

  type Element = (byte, seq<byte>)

  const CONCATENATED_8BIT: byte := 0x00
  const CONCATENATED_16BIT: byte := 0x08

  datatype MultiPart = MultiPart(reference: u16, parts: byte, sequence: byte)

  /** A concatenation element with a length that is not its own. */
  predicate BadLength(e: Element) {
    (e.0 == CONCATENATED_8BIT && |e.1| != 3) || (e.0 == CONCATENATED_16BIT && |e.1| != 4)
  }

  predicate WellFormed(hs: seq<Element>) {
    forall i :: 0 <= i < |hs| ==> !BadLength(hs[i])
  }

  function PrintElement(e: Element): seq<byte> {
    [e.0, |e.1| % 256] + e.1
  }

  function PrintAll(hs: seq<Element>): seq<byte> {
    if hs == [] then [] else PrintElement(hs[0]) + PrintAll(hs[1..])
  }

  /** Elements while two bytes remain; one stray byte at the end is ignored. */
  function ParseAll(buf: seq<byte>): Result<seq<Element>>
    decreases |buf|
  {
    if |buf| < 2 then Ok([])
    else if buf[1] > |buf| - 2 then Err("user_data_header val length is bigger than available buf")
    else
      var e: Element := (buf[0], buf[2..2 + buf[1]]);
      if BadLength(e) then Err("user_data_header multi_part_data length is invalid")
      else match ParseAll(buf[2 + buf[1]..])
        case Err(r) => Err(r)
        case Ok(hs) => Ok([e] + hs)
  }

  /** A printed list is read back exactly when its concatenation elements have their lengths. */
  lemma {:induction false} ElementsRoundTrip(hs: seq<Element>)
    requires forall i :: 0 <= i < |hs| ==> |hs[i].1| <= 255
    ensures ParseAll(PrintAll(hs)) == Ok(hs) <==> WellFormed(hs)
    ensures !WellFormed(hs) ==> ParseAll(PrintAll(hs)).Err?
  {
    if hs != [] {
      var e, buf := hs[0], PrintAll(hs);
      ElementsRoundTrip(hs[1..]);
      assert buf[0] == e.0 && buf[1] == |e.1| && buf[2..2 + |e.1|] == e.1 && buf[2 + |e.1|..] == PrintAll(hs[1..]);
      assert hs == [e] + hs[1..];
      WellFormedSplit(hs);
    }
  }

  lemma WellFormedSplit(hs: seq<Element>)
    requires hs != []
    ensures WellFormed(hs) <==> !BadLength(hs[0]) && WellFormed(hs[1..])
  {
    if WellFormed(hs[1..]) {
      assert forall i :: 1 <= i < |hs| ==> hs[i] == hs[1..][i - 1];
    }
  }

  /** An element is its tag, its length and its content. */
  lemma {:induction false} PrintedElements(hs: seq<Element>)
    requires hs != [] && |hs[0].1| <= 255
    ensures PrintAll(hs) == [hs[0].0, |hs[0].1|] + hs[0].1 + PrintAll(hs[1..])
  {}

  ghost predicate AllShort(hs: seq<Element>) {
    forall i :: 0 <= i < |hs| ==> |hs[i].1| <= 255
  }

  /** Bytes parse as a list exactly if they are its elements one after the other, those for concatenation
      of the right length, with at most one stray byte behind them. */
  lemma ParseExactly(buf: seq<byte>, hs: seq<Element>)
    ensures ParseAll(buf) == Ok(hs) <==>
            AllShort(hs) && WellFormed(hs) && exists stray :: |stray| <= 1 && buf == PrintAll(hs) + stray
  {
    hide ParseAll;
    if ParseAll(buf) == Ok(hs) {
      var stray := ParsedElements(buf);
      assert |stray| <= 1 && buf == PrintAll(hs) + stray;
    }
    if AllShort(hs) && WellFormed(hs) && exists stray :: |stray| <= 1 && buf == PrintAll(hs) + stray {
      var stray :| |stray| <= 1 && buf == PrintAll(hs) + stray;
      ElementsParsed(hs, stray);
    }
  }

  lemma {:induction false} ElementsParsed(hs: seq<Element>, stray: seq<byte>)
    requires AllShort(hs) && WellFormed(hs) && |stray| <= 1
    ensures ParseAll(PrintAll(hs) + stray) == Ok(hs)
  {
    hide ParseAll, BadLength;
    var buf := PrintAll(hs) + stray;
    if hs == [] {
      assert buf == stray;
      ParseEnds(buf);
    } else {
      var e, n := hs[0], |hs[0].1|;
      WellFormedSplit(hs);
      ElementsParsed(hs[1..], stray);
      PrintedElements(hs);
      assert buf[0] == e.0 && buf[1] == n && buf[2..2 + n] == e.1 && buf[2 + n..] == PrintAll(hs[1..]) + stray;
      ParseHead(buf, n);
      assert [e] + hs[1..] == hs;
    }
  }

  lemma {:induction false} ParsedElements(buf: seq<byte>) returns (stray: seq<byte>)
    requires ParseAll(buf).Ok?
    ensures var hs := ParseAll(buf).value;
            AllShort(hs) && WellFormed(hs) && |stray| <= 1 && buf == PrintAll(hs) + stray
    decreases |buf|
  {
    hide ParseAll, BadLength;
    ParseEnds(buf);
    if |buf| < 2 {
      stray := buf;
      assert PrintAll([]) + buf == buf;
    } else {
      var n: int := buf[1];
      ParseHead(buf, n);
      stray := ParsedElements(buf[2 + n..]);
      var hs := ParseAll(buf).value;
      assert hs[1..] == ParseAll(buf[2 + n..]).value;
      WellFormedSplit(hs);
      PrintedElements(hs);
      assert buf == [buf[0], buf[1]] + buf[2..2 + n] + buf[2 + n..];
      assert forall i :: 1 <= i < |hs| ==> hs[i] == hs[1..][i - 1];
    }
  }

  lemma {:induction false} PrintLength(hs: seq<Element>, i: nat)
    requires i < |hs|
    ensures |PrintAll(hs)| >= 2 + |hs[i].1|
  {
    if i > 0 {
      PrintLength(hs[1..], i - 1);
    }
  }

  lemma {:induction false} PrintAppend(hs: seq<Element>, e: Element)
    ensures PrintAll(hs + [e]) == PrintAll(hs) + PrintElement(e)
  {
    if hs == [] {
      assert [e][1..] == [];
    } else {
      assert (hs + [e])[1..] == hs[1..] + [e];
      PrintAppend(hs[1..], e);
    }
  }

  /** The concatenation element for a part: sixteen-bit references only when they are needed. */
  function MultiPartElement(m: MultiPart): Element {
    if m.reference > 0xFF then (CONCATENATED_16BIT, [m.reference / 256, m.reference % 256, m.parts, m.sequence])
    else (CONCATENATED_8BIT, [m.reference, m.parts, m.sequence])
  }

  /** A byte read through a signed char and widened to sixteen bits. */
  function Widened(b: byte): u16 {
    if b < 128 then b else 0xFF00 + b
  }

  /** Two bytes put together the way the reader does: the widened low byte spills into the high one. */
  function Spilled(high: byte, low: byte): u16 {
    if low < 128 then (high as int) * 256 + low else Widened(low)
  }

  /** The first element with a tag. */
  function FindTag(hs: seq<Element>, tag: byte): nat {
    if hs == [] || hs[0].0 == tag then 0 else 1 + FindTag(hs[1..], tag)
  }

  lemma {:induction false} FindTagIsFirst(hs: seq<Element>, tag: byte)
    ensures FindTag(hs, tag) <= |hs|
    ensures FindTag(hs, tag) < |hs| ==> hs[FindTag(hs, tag)].0 == tag
    ensures forall i :: 0 <= i < FindTag(hs, tag) ==> hs[i].0 != tag
  {
    if hs != [] && hs[0].0 != tag {
      FindTagIsFirst(hs[1..], tag);
    }
  }

  /** What the reader makes of a list: the first eight-bit element, else the first sixteen-bit one. */
  function ReadMultiPart(hs: seq<Element>): MultiPart
    requires WellFormed(hs)
  {
    FindTagIsFirst(hs, CONCATENATED_8BIT);
    FindTagIsFirst(hs, CONCATENATED_16BIT);
    var i, j := FindTag(hs, CONCATENATED_8BIT), FindTag(hs, CONCATENATED_16BIT);
    if i < |hs| then MultiPart(Widened(hs[i].1[0]), hs[i].1[1], hs[i].1[2])
    else if j < |hs| then MultiPart(Spilled(hs[j].1[0], hs[j].1[1]), hs[j].1[2], hs[j].1[3])
    else MultiPart(0, 1, 1)
  }

  /** The first element with tag 0x00 is read; without one, the first with tag 0x08; without both, the
      message is the only part. */
  lemma ReadExactly(hs: seq<Element>, i: nat)
    requires WellFormed(hs) && i < |hs| && (hs[i].0 == 0x00 || hs[i].0 == 0x08)
    requires forall j :: 0 <= j < i ==> hs[j].0 != hs[i].0
    ensures hs[i].0 == 0x00 ==>
              |hs[i].1| == 3 && ReadMultiPart(hs) == MultiPart(Widened(hs[i].1[0]), hs[i].1[1], hs[i].1[2])
    ensures hs[i].0 == 0x08 && (forall j :: 0 <= j < |hs| ==> hs[j].0 != 0x00) ==>
              |hs[i].1| == 4 && ReadMultiPart(hs) == MultiPart(Spilled(hs[i].1[0], hs[i].1[1]), hs[i].1[2], hs[i].1[3])
  {
    hide Widened, Spilled;
    FindTagIsFirst(hs, hs[i].0);
    FindTagIsFirst(hs, CONCATENATED_8BIT);
  }

  lemma ReadNothing(hs: seq<Element>)
    requires forall j :: 0 <= j < |hs| ==> hs[j].0 != 0x00 && hs[j].0 != 0x08
    ensures WellFormed(hs) && ReadMultiPart(hs) == MultiPart(0, 1, 1)
  {
    FindTagIsFirst(hs, CONCATENATED_8BIT);
    FindTagIsFirst(hs, CONCATENATED_16BIT);
  }

  predicate Plain(hs: seq<Element>) {
    forall i :: 0 <= i < |hs| ==> hs[i].0 != CONCATENATED_8BIT && hs[i].0 != CONCATENATED_16BIT
  }

  /** A part number survives being set, printed, parsed and read exactly when the low byte of its
      reference is below 0x80 or, because of the spill, its high byte is 0xFF. */
  lemma MultiPartRoundTrip(hs: seq<Element>, m: MultiPart)
    requires Plain(hs) && forall i :: 0 <= i < |hs| ==> |hs[i].1| <= 255
    ensures var set_ := hs + [MultiPartElement(m)];
            && WellFormed(set_) && ParseAll(PrintAll(set_)) == Ok(set_)
            && (ReadMultiPart(set_) == m <==> m.reference % 256 < 0x80 || m.reference / 256 == 0xFF)
  {
    var e := MultiPartElement(m);
    var set_ := hs + [e];
    assert forall i :: 0 <= i < |set_| ==> set_[i] == if i < |hs| then hs[i] else e;
    ElementsRoundTrip(set_) by {
      hide MultiPartElement;
      ShortElement(m);
    }
    hide ParseAll, PrintAll;
    ReadsLast(hs, e);
    SpilledReference(m.reference);
  }

  lemma ShortElement(m: MultiPart)
    ensures |MultiPartElement(m).1| <= 255 && !BadLength(MultiPartElement(m))
  {}

  /** The reader finds the one concatenation element behind plain ones. */
  lemma ReadsLast(hs: seq<Element>, e: Element)
    requires Plain(hs) && !BadLength(e) && (e.0 == CONCATENATED_8BIT || e.0 == CONCATENATED_16BIT)
    ensures WellFormed(hs + [e])
    ensures ReadMultiPart(hs + [e]) ==
            if e.0 == CONCATENATED_8BIT then MultiPart(Widened(e.1[0]), e.1[1], e.1[2])
            else MultiPart(Spilled(e.1[0], e.1[1]), e.1[2], e.1[3])
  {
    hide Widened, Spilled;
    var set_ := hs + [e];
    assert forall i :: 0 <= i < |set_| ==> set_[i] == if i < |hs| then hs[i] else e;
    FindTagIsFirst(set_, CONCATENATED_8BIT);
    FindTagIsFirst(set_, CONCATENATED_16BIT);
    assert set_[|hs|] == e;
    assert FindTag(set_, e.0) == |hs|;
    assert e.0 == CONCATENATED_16BIT ==> FindTag(set_, CONCATENATED_8BIT) == |set_|;
  }

  /** Which references the reader gets right. */
  lemma SpilledReference(r: u16)
    ensures r <= 0xFF ==> (Widened(r) == r <==> r < 0x80)
    ensures r > 0xFF ==> (Spilled(r / 256, r % 256) == r <==> r % 256 < 0x80 || r / 256 == 0xFF)
    ensures r <= 0xFF && r >= 0x80 ==> Widened(r) == 0xFF00 + r
    ensures r % 256 >= 0x80 ==> Spilled(r / 256, r % 256) == 0xFF00 + r % 256
  {
    assert r == (r / 256) * 256 + r % 256;
  }

  /** Where the parse stops at once. */
  lemma ParseEnds(buf: seq<byte>)
    ensures |buf| < 2 ==> ParseAll(buf) == Ok([])
    ensures |buf| >= 2 && buf[1] > |buf| - 2 ==> ParseAll(buf).Err?
    ensures |buf| >= 2 && buf[1] <= |buf| - 2 && BadLength((buf[0], buf[2..2 + buf[1]])) ==> ParseAll(buf).Err?
  {}

  /** One good element at the front. */
  lemma ParseStep(before: seq<Element>, buf: seq<byte>, n: nat)
    requires |buf| >= 2 && buf[1] == n <= |buf| - 2 && !BadLength((buf[0], buf[2..2 + n]))
    ensures ParseAll(buf).Ok? <==> ParseAll(buf[2 + n..]).Ok?
    ensures ParseAll(buf).Ok? ==>
              before + ParseAll(buf).value == before + [(buf[0], buf[2..2 + n])] + ParseAll(buf[2 + n..]).value
  {
    hide BadLength;
    var e: Element, rest := (buf[0], buf[2..2 + n]), ParseAll(buf[2 + n..]);
    ParseHead(buf, n);
    if rest.Ok? {
      assert before + ([e] + rest.value) == before + [e] + rest.value;
    }
  }

  /** What the parser makes of a good element and the rest. */
  lemma ParseHead(buf: seq<byte>, n: nat)
    requires |buf| >= 2 && buf[1] == n <= |buf| - 2 && !BadLength((buf[0], buf[2..2 + n]))
    ensures ParseAll(buf) ==
            match ParseAll(buf[2 + n..])
            case Err(r) => Err(r)
            case Ok(hs) => Ok([(buf[0], buf[2..2 + n])] + hs)
  {
    hide BadLength;
  }

  class UserDataHeader {
    var headers: seq<Element>

    constructor ()
      ensures headers == []
    {
      headers := [];
    }

    /** Parses elements until fewer than two bytes remain. */
    method ParseFrom(bytes: seq<byte>) returns (ok: bool)
      modifies this
      ensures ok <==> ParseAll(bytes).Ok?
      ensures ok ==> headers == ParseAll(bytes).value
    {
      hide ParseAll;
      headers := [];
      var buf := bytes;
      ParseEnds(buf);
      while |buf| >= 2
        invariant ParseAll(bytes).Ok? <==> ParseAll(buf).Ok?
        invariant ParseAll(bytes).Ok? ==> ParseAll(bytes).value == headers + ParseAll(buf).value
        decreases |buf|
      {
        ParseEnds(buf);
        var tag, valLength := buf[0], buf[1];
        if valLength > |buf| - 2 {
          return false;
        }
        var val := buf[2..2 + valLength];
        if (tag == CONCATENATED_8BIT && |val| != 3) || (tag == CONCATENATED_16BIT && |val| != 4) {
          return false;
        }
        ParseStep(headers, buf, valLength);
        headers := headers + [(tag, val)];
        buf := buf[valLength + 2..];
      }
      ParseEnds(buf);
      assert headers + [] == headers;
      ok := true;
    }

    method SetMultiPartData(m: MultiPart)
      modifies this
      ensures headers == old(headers) + [MultiPartElement(m)]
      // three bytes exactly if the reference fits one, and the most significant one first
      ensures |headers[|old(headers)|].1| == 3 <==> m.reference < 256
      ensures m.reference < 256 ==> headers == old(headers) + [(0x00, [m.reference, m.parts, m.sequence])]
      ensures m.reference >= 256 ==>
                headers == old(headers) + [(0x08, [m.reference / 256, m.reference % 256, m.parts, m.sequence])]
    {
      if m.reference > 0xFF {
        headers := headers + [(CONCATENATED_16BIT, [m.reference / 256, m.reference % 256, m.parts, m.sequence])];
      } else {
        headers := headers + [(CONCATENATED_8BIT, [m.reference, m.parts, m.sequence])];
      }
    }

    method Serialize() returns (buf: seq<byte>)
      ensures buf == PrintAll(headers)
    {
      buf := [];
      for i := 0 to |headers|
        invariant buf == PrintAll(headers[..i])
      {
        assert headers[..i + 1] == headers[..i] + [headers[i]];
        PrintAppend(headers[..i], headers[i]);
        buf := buf + [headers[i].0, |headers[i].1| % 256];
        buf := buf + headers[i].1;
      }
      assert headers[..|headers|] == headers;
    }
  }
}

/** A short message: user data header and body in one field. */
module ShortMessages {
  import opened Bytes
  import opened Flags
  import opened UserDataHeaders

  /** The data codings counted as eight-bit ASCII. */
  predicate AsciiEightBit(dataCoding: byte) {
    dataCoding in {0x00, 0x01, 0x03, 0x05, 0x06, 0x07, 0x0B, 0x0C, 0x0D, 0x0E, 0x0F}
  }

  datatype Alphabet = Ascii7 | Ascii8 | Binary | Ucs2

  /** The alphabet of a data coding: the high half of the byte selects the group, the low half or two of
      its bits the alphabet. */
  function ExtractUnicode(dataCoding: byte): Alphabet {
    var group, low := dataCoding / 16, dataCoding % 16;
    if group == 0x0 then
      if low == 0x0 || low == 0x1 || low == 0x3 || 0x5 <= low <= 0x7 || 0xB <= low then Ascii8
      else if low == 0x8 then Ucs2
      else if low == 0x2 || low == 0x4 || low == 0x9 || low == 0xA then Binary
      else Ascii7
    else if group <= 0x7 then
      if low / 4 == 1 then Binary else if low / 4 == 2 then Ucs2 else Ascii7
    else if group <= 0xD then Ascii7
    else if group == 0xE then Ucs2
    else if low / 4 % 2 == 1 then Binary else Ascii7
  }

  /** Eleven codings are eight-bit ASCII. */
  lemma EightBitCodings(dataCoding: byte)
    ensures ExtractUnicode(dataCoding) == Ascii8 <==> AsciiEightBit(dataCoding)
  {}

  function Limit(dataCoding: byte): nat {
    if AsciiEightBit(dataCoding) then 160 else 140
  }

  /** The field for a header list and a body, before the length is checked. */
  function Joined(hs: seq<Element>, body: seq<byte>): seq<byte> {
    var udh := PrintAll(hs);
    (if udh != [] then [|udh| % 256] + udh else []) + body
  }

  function Unpacked(esm: EsmClass, dataCoding: byte, message: seq<byte>): Result<(seq<Element>, seq<byte>)> {
    if |message| > Limit(dataCoding) then Err("unpacking short_message failed, short_message length is larger than its limit")
    else if esm.HasUdh() then Split(message)
    else Ok(([], message))
  }

  /** A field that starts with a header: its length, the header and the body. */
  function Split(message: seq<byte>): Result<(seq<Element>, seq<byte>)> {
    var n := if message == [] then 0 else message[0];
    if n >= |message| then Err("unpacking short_message failed, UDH lenght is larger than short_message")
    else match ParseAll(message[1..1 + n])
      case Err(r) => Err(r)
      case Ok(hs) => Ok((hs, message[1 + n..]))
  }

  lemma HeaderOrNot(hs: seq<Element>)
    ensures PrintAll(hs) == [] <==> hs == []
  {
    if hs != [] {
      PrintLength(hs, 0);
    }
  }

  lemma JoinedBytes(hs: seq<Element>, body: seq<byte>)
    ensures Joined(hs, body) == if hs == [] then body else [|PrintAll(hs)| % 256] + PrintAll(hs) + body
    ensures PrintAll(hs) == [] <==> hs == []
  {
    hide PrintAll;
    HeaderOrNot(hs);
  }

  /** Unpacking gives back what was packed exactly when the flag byte announces a header just in case
      there is one, and its concatenation elements have their lengths. */
  lemma PackRoundTrip(esm: EsmClass, dataCoding: byte, hs: seq<Element>, body: seq<byte>)
    requires |Joined(hs, body)| <= Limit(dataCoding)
    ensures Unpacked(esm, dataCoding, Joined(hs, body)) == Ok((hs, body)) <==>
            (esm.HasUdh() <==> hs != []) && WellFormed(hs)
    ensures esm.HasUdh() <==> esm.gsmNetworkFeatures == 0x40 || esm.gsmNetworkFeatures == 0xC0
  {
    var message, udh := Joined(hs, body), PrintAll(hs);
    if hs == [] {
      assert message == body;
      if esm.HasUdh() && Unpacked(esm, dataCoding, message).Ok? {
        assert |Unpacked(esm, dataCoding, message).value.1| < |body|;
      }
    } else {
      forall i | 0 <= i < |hs| ensures |hs[i].1| <= 255 {
        PrintLength(hs, i);
      }
      PrintLength(hs, 0);
      assert message == [|udh|] + udh + body;
      assert message[1..1 + |udh|] == udh && message[1 + |udh|..] == body;
      ElementsRoundTrip(hs);
    }
  }

  /** The same for a flag byte as it comes off the wire: what counts is bit 6. */
  lemma PackRoundTripOnWire(esm: byte, dataCoding: byte, hs: seq<Element>, body: seq<byte>)
    requires |Joined(hs, body)| <= Limit(dataCoding)
    ensures Unpacked(EsmClass.FromU8(esm), dataCoding, Joined(hs, body)) == Ok((hs, body)) <==>
            (esm / 64 % 2 == 1 <==> hs != []) && WellFormed(hs)
  {
    hide WellFormed, Unpacked, Joined, EsmClass.HasUdh;
    PackRoundTrip(EsmClass.FromU8(esm), dataCoding, hs, body);
    UdhIsBit6(esm);
  }

  /** What a field unpacks to, if it is within its limit: all of it is body when bit 6 is clear; otherwise
      its first byte says how long the header is, and the body is what follows. */
  lemma UnpackedExactly(esm: byte, dataCoding: byte, message: seq<byte>, hs: seq<Element>, body: seq<byte>)
    ensures Unpacked(EsmClass.FromU8(esm), dataCoding, message) == Ok((hs, body)) <==>
            |message| <= (if AsciiEightBit(dataCoding) then 160 else 140) &&
            if esm / 64 % 2 == 1 then
              exists header :: HeaderThenBody(message, header, body) && ParseAll(header) == Ok(hs)
            else hs == [] && body == message
  {
    hide Split, EsmClass.HasUdh, AsciiEightBit, HeaderThenBody;
    UdhIsBit6(esm);
    SplitExactly(message, hs, body);
  }

  ghost predicate HeaderThenBody(message: seq<byte>, header: seq<byte>, body: seq<byte>) {
    |header| < 256 && message == [|header|] + header + body
  }

  lemma SplitExactly(message: seq<byte>, hs: seq<Element>, body: seq<byte>)
    ensures Split(message) == Ok((hs, body)) <==>
            exists header :: HeaderThenBody(message, header, body) && ParseAll(header) == Ok(hs)
  {
    hide ParseAll, Split, HeaderThenBody;
    if Split(message) == Ok((hs, body)) {
      var header := SplitGives(message, hs, body);
    }
    if header :| HeaderThenBody(message, header, body) && ParseAll(header) == Ok(hs) {
      SplitOf(message, header, hs, body);
    }
  }

  lemma SplitGives(message: seq<byte>, hs: seq<Element>, body: seq<byte>) returns (header: seq<byte>)
    requires Split(message) == Ok((hs, body))
    ensures HeaderThenBody(message, header, body) && ParseAll(header) == Ok(hs)
  {
    hide ParseAll;
    header := message[1..1 + message[0]];
    assert message == [message[0]] + header + message[1 + message[0]..];
  }

  lemma SplitOf(message: seq<byte>, header: seq<byte>, hs: seq<Element>, body: seq<byte>)
    requires HeaderThenBody(message, header, body) && ParseAll(header) == Ok(hs)
    ensures Split(message) == Ok((hs, body))
  {
    hide ParseAll;
    assert message[0] == |header| && message[1..1 + |header|] == header && message[1 + |header|..] == body;
  }

  /** Builds the field; the error case is a field over its limit. */
  method PackShortMessage(header: UserDataHeader, body: seq<byte>, dataCoding: byte)
    returns (r: Result<seq<byte>>)
    ensures r.Ok? <==> |Joined(header.headers, body)| <= Limit(dataCoding)
    ensures r.Ok? ==> r.value == Joined(header.headers, body)
    ensures r.Ok? ==> r.value == if header.headers == [] then body
                                 else [|PrintAll(header.headers)| % 256] + PrintAll(header.headers) + body
    ensures r.Ok? <==> |Joined(header.headers, body)| <= if AsciiEightBit(dataCoding) then 160 else 140
  {
    EightBitCodings(dataCoding);
    JoinedBytes(header.headers, body);
    hide AsciiEightBit, ExtractUnicode, PrintAll, Joined;
    var shortMessage: seq<byte> := [];
    var udh := header.Serialize();
    if |udh| != 0 {
      shortMessage := shortMessage + [|udh| % 256];
      shortMessage := shortMessage + udh;
    }
    shortMessage := shortMessage + body;
    if ExtractUnicode(dataCoding) == Ascii8 && |shortMessage| > 160 {
      return Err("packing short_message failed, short_message length is larger than 160");
    }
    if ExtractUnicode(dataCoding) != Ascii8 && |shortMessage| > 140 {
      return Err("packing short_message failed, short_message length is larger than 140");
    }
    r := Ok(shortMessage);
  }

  /** Splits the field; the error cases are a field over its limit and a header that does not parse. */
  method UnpackShortMessage(esm: EsmClass, dataCoding: byte, message: seq<byte>)
    returns (r: Result<(seq<Element>, seq<byte>)>)
    ensures r.Ok? <==> Unpacked(esm, dataCoding, message).Ok?
    ensures r.Ok? ==> r == Unpacked(esm, dataCoding, message)
  {
    EightBitCodings(dataCoding);
    hide Split, AsciiEightBit, ExtractUnicode;
    if ExtractUnicode(dataCoding) == Ascii8 && |message| > 160 {
      return Err("unpacking short_message failed, short_message length is larger than 160");
    }
    if ExtractUnicode(dataCoding) != Ascii8 && |message| > 140 {
      return Err("unpacking short_message failed, short_message length is larger than 140");
    }
    if esm.HasUdh() {
      r := SplitHeader(message);
    } else {
      r := Ok(([], message));
    }
  }

  /** Takes the header off the front of the field. */
  method SplitHeader(message: seq<byte>) returns (r: Result<(seq<Element>, seq<byte>)>)
    ensures r.Ok? <==> Split(message).Ok?
    ensures r.Ok? ==> r == Split(message)
  {
    hide ParseAll;
    var udhLength := if |message| == 0 then 0 else message[0];
    if udhLength >= |message| {
      return Err("unpacking short_message failed, UDH lenght is larger than short_message");
    }
    var header := new UserDataHeader();
    var ok := header.ParseFrom(message[1..1 + udhLength]);
    if !ok {
      return Err("user_data_header");
    }
    r := Ok((header.headers, message[1 + udhLength..]));
  }
}
