/** Bytes and big-endian integers. */
module Bytes {

  type byte = x: int | 0 <= x < 256
  type u16 = x: int | 0 <= x < 0x1_0000
  type u32 = x: int | 0 <= x < 0x1_0000_0000

  datatype Result<+T> = Ok(value: T) | Err(reason: string)

  function PutU16(v: u16): seq<byte> { [v / 256, v % 256] }

  function GetU16(s: seq<byte>): u16
    requires |s| >= 2
  {
    (s[0] as int) * 256 + s[1]
  }

  function PutU32(v: u32): seq<byte> {
    [v / 0x100_0000, v / 0x1_0000 % 256, v / 256 % 256, v % 256]
  }

  function GetU32(s: seq<byte>): u32
    requires |s| >= 4
  {
    (s[0] as int) * 0x100_0000 + (s[1] as int) * 0x1_0000 + (s[2] as int) * 256 + s[3]
  }

  /** The most significant byte comes first. */
  lemma BigEndian16(v: u16)
    ensures |PutU16(v)| == 2 && PutU16(v)[0] == v / 256 && PutU16(v)[1] == v % 256
  {}

  lemma BigEndian32(v: u32)
    ensures |PutU32(v)| == 4
    ensures (PutU32(v)[0] as int) * 0x100_0000 + (PutU32(v)[1] as int) * 0x1_0000 + (PutU32(v)[2] as int) * 256 +
            PutU32(v)[3] == v
  {
    hide PutU32;
    Halves(v);
    BigEndian16(v / 0x1_0000);
    BigEndian16(v % 0x1_0000);
  }

  lemma U16RoundTrip(v: u16, tail: seq<byte>)
    ensures GetU16(PutU16(v) + tail) == v
  {}

  /** A 32-bit number is two 16-bit halves. */
  lemma Halves(v: u32)
    ensures PutU32(v) == PutU16(v / 0x1_0000) + PutU16(v % 0x1_0000)
  {
    var h, l := v / 0x1_0000, v % 0x1_0000;
    assert v == h * 0x1_0000 + l;
    assert v / 256 == h * 256 + l / 256;
  }

  lemma U32RoundTrip(v: u32)
    ensures GetU32(PutU32(v)) == v
  {
    Halves(v);
  }

  lemma U16Inverse(x: byte, y: byte)
    ensures PutU16(GetU16([x, y])) == [x, y]
  {}

  lemma Joined(h: u16, l: u16, v: u32)
    requires v == (h as int) * 0x1_0000 + l
    ensures v / 0x1_0000 == h && v % 0x1_0000 == l
  {}

  lemma U32Inverse(s: seq<byte>)
    requires |s| == 4
    ensures PutU32(GetU32(s)) == s
  {
    var h: u16, l: u16 := GetU16([s[0], s[1]]), GetU16([s[2], s[3]]);
    Joined(h, l, GetU32(s));
    hide GetU32, PutU32, PutU16, GetU16;
    Halves(GetU32(s));
    U16Inverse(s[0], s[1]);
    U16Inverse(s[2], s[3]);
  }

  /** The growing vector a PDU is printed into. */
  class ByteVec {
    var bytes: seq<byte>
    constructor ()
      ensures bytes == []
    {
      bytes := [];
    }
  }

  /** The window that moves over the bytes being parsed. */
  class ByteSpan {
    var rest: seq<byte>
    constructor (bytes: seq<byte>)
      ensures rest == bytes
    {
      rest := bytes;
    }
  }
}

/** Flag bytes made of independent bit groups. */
module Flags {
  import opened Bytes

  /** The groups of esm_class: messaging mode, message type, GSM network features. */
  datatype EsmClass = EsmClass(messagingMode: bv8, messageType: bv8, gsmNetworkFeatures: bv8) {
    static function FromU8(value: byte): EsmClass {
      SplitEsm(value as bv8)
    }

    function ToU8(): byte {
      ByteOfBits(JoinEsm(this))
    }

    /** Every group keeps to its own bits. */
    predicate Masked() {
      messagingMode & 0x03 == messagingMode && messageType & 0x3C == messageType &&
      gsmNetworkFeatures & 0xC0 == gsmNetworkFeatures
    }

    /** The flag byte announces a user data header. */
    predicate HasUdh() {
      gsmNetworkFeatures == 0x40 || gsmNetworkFeatures == 0xC0
    }
  }

  function SplitEsm(v: bv8): EsmClass {
    EsmClass(v & 0x03, v & 0x3C, v & 0xC0)
  }

  function JoinEsm(e: EsmClass): bv8 {
    e.messagingMode | e.messageType | e.gsmNetworkFeatures
  }

  /** The groups of registered_delivery: delivery receipt, SME acknowledgement, intermediate notification. */
  datatype RegisteredDelivery = RegisteredDelivery(receipt: bv8, ack: bv8, notification: bv8) {
    static function FromU8(value: byte): RegisteredDelivery {
      SplitDelivery(value as bv8)
    }

    function ToU8(): byte {
      ByteOfBits(JoinDelivery(this))
    }

    predicate Masked() {
      receipt & 0x03 == receipt && ack & 0x0C == ack && notification & 0x10 == notification
    }
  }

  function SplitDelivery(v: bv8): RegisteredDelivery {
    RegisteredDelivery(v & 0x03, v & 0x0C, v & 0x10)
  }

  function JoinDelivery(r: RegisteredDelivery): bv8 {
    r.receipt | r.ack | r.notification
  }

  function ByteOfBits(v: bv8): byte {
    BitsAreByte(v);
    v as int
  }

  lemma BitsAreByte(v: bv8)
    ensures 0 <= v as int < 256 && (v as int) as bv8 == v
  {}

  lemma ByteAsBits(b: byte)
    ensures ByteOfBits(b as bv8) == b
  {
    var v := CountUp(b);
    SameByte(b, v);
  }

  /** The bits of a byte, found by counting. */
  lemma {:induction false} CountUp(b: byte) returns (v: bv8)
    ensures v as int == b
    decreases b
  {
    if b == 0 {
      v := 0;
    } else {
      v := CountUp(b - 1);
      v := v + 1;
    }
  }

  lemma SameByte(b: byte, v: bv8)
    requires v as int == b
    ensures b as bv8 == v
  {}

  lemma EsmBits(e: EsmClass)
    ensures SplitEsm(JoinEsm(e)) == e <==> e.Masked()
  {}

  lemma EsmBitsBack(v: bv8)
    ensures JoinEsm(SplitEsm(v)) == v && SplitEsm(v).Masked()
  {}

  lemma DeliveryBits(r: RegisteredDelivery)
    ensures SplitDelivery(JoinDelivery(r)) == r <==> r.Masked()
  {}

  lemma DeliveryBitsBack(v: bv8)
    ensures JoinDelivery(SplitDelivery(v)) == v & 0x1F && SplitDelivery(v).Masked()
  {}

  // Low bits of a byte as numbers, and how masks add up.

  lemma LowTwo(v: bv8)
    ensures (v & 0x03) as int == (v as int) % 4
  {}

  lemma LowFour(v: bv8)
    ensures (v & 0x0F) as int == (v as int) % 16
  {}

  lemma LowFive(v: bv8)
    ensures (v & 0x1F) as int == (v as int) % 32
  {}

  lemma LowSix(v: bv8)
    ensures (v & 0x3F) as int == (v as int) % 64
  {}

  lemma MasksAddUp(v: bv8)
    ensures (v & 0x03) as int + (v & 0x0C) as int == (v & 0x0F) as int
    ensures (v & 0x0F) as int + (v & 0x10) as int == (v & 0x1F) as int
    ensures (v & 0x03) as int + (v & 0x3C) as int == (v & 0x3F) as int
    ensures (v & 0x3F) as int + (v & 0xC0) as int == v as int
  {}

  lemma BitsOfEsm(v: bv8)
    ensures SplitEsm(v).messagingMode as int == (v as int) % 4
    ensures SplitEsm(v).messageType as int == (v as int) % 64 - (v as int) % 4
    ensures SplitEsm(v).gsmNetworkFeatures as int == (v as int) - (v as int) % 64
  {
    LowTwo(v);
    LowSix(v);
    MasksAddUp(v);
  }

  lemma BitsOfDelivery(v: bv8)
    ensures SplitDelivery(v).receipt as int == (v as int) % 4
    ensures SplitDelivery(v).ack as int == (v as int) % 16 - (v as int) % 4
    ensures SplitDelivery(v).notification as int == (v as int) % 32 - (v as int) % 16
  {
    LowTwo(v);
    LowFour(v);
    LowFive(v);
    MasksAddUp(v);
  }

  lemma UdhBit(v: bv8)
    ensures v & 0xC0 == 0x40 || v & 0xC0 == 0xC0 <==> (v as int) / 64 % 2 == 1
  {}

  /** Bits 0 and 1 of esm_class are the messaging mode, bits 2 to 5 the message type, bits 6 and 7 the
      network features. */
  lemma EsmGroups(b: byte)
    ensures EsmClass.FromU8(b).messagingMode as int == b % 4
    ensures EsmClass.FromU8(b).messageType as int == b % 64 - b % 4
    ensures EsmClass.FromU8(b).gsmNetworkFeatures as int == b - b % 64
  {
    ByteAsBits(b);
    BitsOfEsm(b as bv8);
  }

  /** Bits 0 and 1 of registered_delivery ask for a receipt, bits 2 and 3 for an acknowledgement, bit 4 for
      a notification. */
  lemma DeliveryGroups(b: byte)
    ensures RegisteredDelivery.FromU8(b).receipt as int == b % 4
    ensures RegisteredDelivery.FromU8(b).ack as int == b % 16 - b % 4
    ensures RegisteredDelivery.FromU8(b).notification as int == b % 32 - b % 16
  {
    ByteAsBits(b);
    BitsOfDelivery(b as bv8);
  }

  /** Bit 6 announces a user data header, whatever the other bits. */
  lemma UdhIsBit6(b: byte)
    ensures EsmClass.FromU8(b).HasUdh() <==> b / 64 % 2 == 1
  {
    ByteAsBits(b);
    UdhBit(b as bv8);
  }

  /** Splitting what was joined gives the groups back exactly when they keep to their bits. */
  lemma EsmRoundTrip(e: EsmClass)
    ensures EsmClass.FromU8(e.ToU8()) == e <==> e.Masked()
  {
    BitsAreByte(JoinEsm(e));
    EsmBits(e);
  }

  /** Joining what was split loses nothing of esm_class. */
  lemma EsmInverse(b: byte)
    ensures EsmClass.FromU8(b).ToU8() == b && EsmClass.FromU8(b).Masked()
  {
    EsmBitsBack(b as bv8);
    ByteAsBits(b);
  }

  lemma DeliveryRoundTrip(r: RegisteredDelivery)
    ensures RegisteredDelivery.FromU8(r.ToU8()) == r <==> r.Masked()
  {
    BitsAreByte(JoinDelivery(r));
    DeliveryBits(r);
  }

  /** Of registered_delivery only the low five bits survive. */
  lemma DeliveryInverse(b: byte)
    ensures RegisteredDelivery.FromU8(b).Masked()
    ensures (RegisteredDelivery.FromU8(b).ToU8()) as bv8 == (b as bv8) & 0x1F
  {
    DeliveryBitsBack(b as bv8);
    BitsAreByte((b as bv8) & 0x1F);
  }
}

/** The optional parameters: a map from tags to values, printed in tag order. */
module Oparams {
  import opened Bytes

  type Params = map<u16, seq<byte>>

  /** Values fit a 16-bit length; the setter and the parser see to that. */
  ghost predicate Sized(m: Params) {
    forall t :: t in m ==> |m[t]| <= 65535
  }

  function Tlv(tag: u16, val: seq<byte>): seq<byte> {
    PutU16(tag) + PutU16(|val| % 0x1_0000) + val
  }

  /** The parameters with tags from `tag` on, in ascending order. */
  function Print(m: Params, tag: nat): seq<byte>
    requires tag <= 0x1_0000
    decreases 0x1_0000 - tag
  {
    if tag == 0x1_0000 then []
    else (if tag in m then Tlv(tag, m[tag]) else []) + Print(m, tag + 1)
  }

  function Emplace(m: Params, tag: u16, val: seq<byte>): Params {
    if tag in m then m else m[tag := val]
  }

  /** Reads parameters while four bytes remain; the first of equal tags counts. */
  function Parse(acc: Params, buf: seq<byte>): Result<(Params, seq<byte>)>
    decreases |buf|
  {
    if |buf| < 4 then Ok((acc, buf))
    else
      var n := GetU16(buf[2..]);
      if n > |buf| - 4 then Err("oparam val length is bigger than available buf")
      else Parse(Emplace(acc, GetU16(buf), buf[4..4 + n]), buf[4 + n..])
  }

  /** Tag and length take two bytes each, the tag first. */
  lemma TlvBytes(tag: u16, val: seq<byte>)
    requires |val| <= 65535
    ensures Tlv(tag, val) == [tag / 256, tag % 256, |val| / 256, |val| % 256] + val
  {}

  /** One printed parameter is read back, whatever follows. */
  lemma ParseTlv(acc: Params, tag: u16, val: seq<byte>, tail: seq<byte>)
    requires |val| <= 65535
    ensures Parse(acc, Tlv(tag, val) + tail) == Parse(Emplace(acc, tag, val), tail)
  {
    var buf := Tlv(tag, val) + tail;
    assert buf[2..] == PutU16(|val|) + (val + tail);
    assert buf == PutU16(tag) + (PutU16(|val|) + val + tail);
    U16RoundTrip(tag, PutU16(|val|) + val + tail);
    U16RoundTrip(|val|, val + tail);
    assert buf[4..4 + |val|] == val && buf[4 + |val|..] == tail;
  }

  ghost function Below(m: Params, tag: nat): Params {
    map t | t in m && t < tag :: m[t]
  }

  lemma ParseNothing(m: Params)
    ensures Parse(m, []) == Ok((m, []))
  {}

  lemma {:induction false} ParsePrinted(m: Params, tag: nat)
    requires tag <= 0x1_0000 && Sized(m)
    ensures Parse(Below(m, tag), Print(m, tag)) == Ok((m, []))
    decreases 0x1_0000 - tag
  {
    hide Parse, Tlv, PutU16;
    if tag == 0x1_0000 {
      assert Below(m, tag) == m;
      ParseNothing(m);
    } else {
      ParsePrinted(m, tag + 1);
      if tag in m {
        ParseTlv(Below(m, tag), tag, m[tag], Print(m, tag + 1));
        assert Emplace(Below(m, tag), tag, m[tag]) == Below(m, tag + 1);
      } else {
        assert Below(m, tag) == Below(m, tag + 1);
        assert [] + Print(m, tag + 1) == Print(m, tag + 1);
      }
    }
  }

  /** What is printed is read back. */
  lemma ParamsRoundTrip(m: Params)
    requires Sized(m)
    ensures Parse(map[], Print(m, 0)) == Ok((m, []))
  {
    assert Below(m, 0) == map[];
    ParsePrinted(m, 0);
  }

  /** Whatever parses gives sized values, keeps what was there and leaves at most three bytes. */
  lemma {:induction false} ParseGives(acc: Params, buf: seq<byte>)
    requires Sized(acc) && Parse(acc, buf).Ok?
    ensures var (m, rest) := Parse(acc, buf).value;
            Sized(m) && |rest| <= 3 && |rest| <= |buf| && rest == buf[|buf| - |rest|..] &&
            forall t :: t in acc ==> t in m && m[t] == acc[t]
    decreases |buf|
  {
    hide GetU16, Emplace, Parse;
    ParseStep(acc, buf);
    if |buf| >= 4 {
      var n: int := GetU16(buf[2..]);
      var next, tail := Emplace(acc, GetU16(buf), buf[4..4 + n]), buf[4 + n..];
      EmplaceKeeps(acc, GetU16(buf), buf[4..4 + n]);
      ParseGives(next, tail);
      EndOfTail(buf, 4 + n, Parse(next, tail).value.1);
    }
  }

  /** The parser ends with fewer than four bytes, or takes one parameter and goes on. */
  lemma ParseStep(acc: Params, buf: seq<byte>)
    requires Parse(acc, buf).Ok?
    ensures |buf| < 4 ==> Parse(acc, buf) == Ok((acc, buf))
    ensures |buf| >= 4 ==> 4 + GetU16(buf[2..]) <= |buf|
    ensures |buf| >= 4 ==> var n := GetU16(buf[2..]);
                           Parse(acc, buf) == Parse(Emplace(acc, GetU16(buf), buf[4..4 + n]), buf[4 + n..])
  {
    hide GetU16, Emplace;
  }

  lemma EmplaceKeeps(m: Params, tag: u16, val: seq<byte>)
    requires Sized(m) && |val| <= 65535
    ensures Sized(Emplace(m, tag, val))
    ensures forall t :: t in m ==> t in Emplace(m, tag, val) && Emplace(m, tag, val)[t] == m[t]
  {}

  lemma EndOfTail(buf: seq<byte>, k: nat, rest: seq<byte>)
    requires k <= |buf| && |rest| <= |buf| - k && rest == buf[k..][|buf| - k - |rest|..]
    ensures rest == buf[|buf| - |rest|..]
  {}

  /** Printing what was parsed gives a form that parses to the same map, whatever the bytes were. */
  lemma ParseIsStable(buf: seq<byte>)
    requires Parse(map[], buf).Ok?
    ensures var m := Parse(map[], buf).value.0; Parse(map[], Print(m, 0)) == Ok((m, []))
  {
    ParseGives(map[], buf);
    ParamsRoundTrip(Parse(map[], buf).value.0);
  }

  /** The first of two equal tags wins. */
  lemma FirstTagWins(tag: u16, first: seq<byte>, second: seq<byte>)
    requires |first| <= 65535 && |second| <= 65535
    ensures Parse(map[], Tlv(tag, first) + Tlv(tag, second)) == Ok((map[tag := first], []))
  {
    ParseTlv(map[], tag, first, Tlv(tag, second));
    assert Tlv(tag, second) == Tlv(tag, second) + [];
    ParseTlv(map[tag := first], tag, second, []);
  }

  type Tlvs = seq<(u16, seq<byte>)>

  ghost predicate AllSized(ps: Tlvs) {
    forall i :: 0 <= i < |ps| ==> |ps[i].1| <= 65535
  }

  ghost function Joined(ps: Tlvs): seq<byte> {
    if ps == [] then [] else Tlv(ps[0].0, ps[0].1) + Joined(ps[1..])
  }

  ghost function Collected(acc: Params, ps: Tlvs): Params
    decreases |ps|
  {
    if ps == [] then acc else Collected(Emplace(acc, ps[0].0, ps[0].1), ps[1..])
  }

  /** Of equal tags the first counts, and what was there before counts more. */
  lemma {:induction false} CollectedIsFirst(acc: Params, ps: Tlvs, t: u16)
    ensures t in acc ==> t in Collected(acc, ps) && Collected(acc, ps)[t] == acc[t]
    ensures t !in acc ==> (t in Collected(acc, ps) <==> exists i :: 0 <= i < |ps| && ps[i].0 == t)
    ensures t !in acc && t in Collected(acc, ps) ==>
              exists i :: 0 <= i < |ps| && ps[i] == (t, Collected(acc, ps)[t]) && forall j :: 0 <= j < i ==> ps[j].0 != t
    decreases |ps|
  {
    if ps != [] {
      var next := Emplace(acc, ps[0].0, ps[0].1);
      CollectedIsFirst(next, ps[1..], t);
      assert forall i :: 0 <= i < |ps[1..]| ==> ps[1..][i] == ps[i + 1];
      if t !in acc && t in next {
        assert ps[0] == (t, Collected(acc, ps)[t]);
      } else if t !in acc && t in Collected(acc, ps) {
        var i :| 0 <= i < |ps[1..]| && ps[1..][i] == (t, Collected(acc, ps)[t]) && forall j :: 0 <= j < i ==> ps[1..][j].0 != t;
        assert ps[i + 1] == (t, Collected(acc, ps)[t]);
        assert forall j :: 0 <= j < i + 1 ==> ps[j].0 != t by {
          assert forall j :: 1 <= j < i + 1 ==> ps[j] == ps[1..][j - 1];
        }
      }
    }
  }

  /** Bytes parse exactly if they are parameters one after the other with at most three bytes behind them. */
  lemma ParseExactly(buf: seq<byte>)
    ensures Parse(map[], buf).Ok? <==>
            exists ps, rest :: AllSized(ps) && |rest| <= 3 && buf == Joined(ps) + rest
    ensures forall ps, rest :: AllSized(ps) && |rest| <= 3 && buf == Joined(ps) + rest ==>
              Parse(map[], buf) == Ok((Collected(map[], ps), rest))
  {
    hide Parse, Collected;
    if Parse(map[], buf).Ok? {
      var ps, rest := ParsedList(map[], buf);
      assert AllSized(ps) && |rest| <= 3 && buf == Joined(ps) + rest;
    }
    forall ps, rest | AllSized(ps) && |rest| <= 3 && buf == Joined(ps) + rest
      ensures Parse(map[], buf) == Ok((Collected(map[], ps), rest))
    {
      ListParsed(map[], ps, rest);
    }
  }

  lemma {:induction false} ListParsed(acc: Params, ps: Tlvs, rest: seq<byte>)
    requires AllSized(ps) && |rest| <= 3
    ensures Parse(acc, Joined(ps) + rest) == Ok((Collected(acc, ps), rest))
    decreases |ps|
  {
    hide Parse, Tlv, Emplace;
    if ps == [] {
      assert Joined(ps) + rest == rest;
      ParseShort(acc, rest);
    } else {
      var tail := Joined(ps[1..]) + rest;
      assert Joined(ps) + rest == Tlv(ps[0].0, ps[0].1) + tail;
      ParseTlv(acc, ps[0].0, ps[0].1, tail);
      ListParsed(Emplace(acc, ps[0].0, ps[0].1), ps[1..], rest);
    }
  }

  lemma ParseShort(acc: Params, rest: seq<byte>)
    requires |rest| <= 3
    ensures Parse(acc, rest) == Ok((acc, rest))
  {}

  lemma {:induction false} ParsedList(acc: Params, buf: seq<byte>) returns (ps: Tlvs, rest: seq<byte>)
    requires Parse(acc, buf).Ok?
    ensures AllSized(ps) && |rest| <= 3 && buf == Joined(ps) + rest
    decreases |buf|
  {
    hide GetU16, Emplace, Parse, Tlv;
    ParseStep(acc, buf);
    if |buf| < 4 {
      ps, rest := [], buf;
    } else {
      var n: int, tag := GetU16(buf[2..]), GetU16(buf);
      var val, tail := buf[4..4 + n], buf[4 + n..];
      ps, rest := ParsedList(Emplace(acc, tag, val), tail);
      HeadTlv(buf, n);
      assert buf == Tlv(tag, val) + (Joined(ps) + rest) == (Tlv(tag, val) + Joined(ps)) + rest;
      ps := [(tag, val)] + ps;
      assert ps[1..] == ps[1..] && Joined(ps) == Tlv(tag, val) + Joined(ps[1..]);
    }
  }

  lemma HeadTlv(buf: seq<byte>, n: nat)
    requires |buf| >= 4 && n == GetU16(buf[2..]) && 4 + n <= |buf|
    ensures buf == Tlv(GetU16(buf), buf[4..4 + n]) + buf[4 + n..]
  {
    U16Inverse(buf[0], buf[1]);
    U16Inverse(buf[2], buf[3]);
    assert GetU16(buf) == GetU16([buf[0], buf[1]]) && GetU16(buf[2..]) == GetU16([buf[2], buf[3]]);
    hide PutU16, GetU16;
    assert buf == [buf[0], buf[1]] + [buf[2], buf[3]] + buf[4..4 + n] + buf[4 + n..];
  }

  ghost predicate AscendingTags(ps: Tlvs) {
    forall i, j :: 0 <= i < j < |ps| ==> ps[i].0 < ps[j].0
  }

  /** Exactly the parameters with tags from `tag` on. */
  ghost predicate Lists(ps: Tlvs, m: Params, tag: nat) {
    forall t, v :: (t, v) in ps <==> t in m && t >= tag && m[t] == v
  }

  /** The printed form is the parameters in ascending order of their tags. */
  lemma {:induction false} PrintedInOrder(m: Params, tag: nat) returns (ps: Tlvs)
    requires tag <= 0x1_0000 && Sized(m)
    ensures Print(m, tag) == Joined(ps) && AscendingTags(ps) && Lists(ps, m, tag) && AllSized(ps)
    decreases 0x1_0000 - tag
  {
    hide Tlv, Lists, AscendingTags, AllSized, Print;
    if tag == 0x1_0000 {
      ps := [];
      NothingListed(m);
    } else {
      PrintOne(m, tag);
      var rest := PrintedInOrder(m, tag + 1);
      if tag in m {
        ps := [(tag, m[tag])] + rest;
        assert ps[1..] == rest;
        OneMoreListed(rest, m, tag);
      } else {
        ps := rest;
        SameListed(ps, m, tag);
      }
    }
  }

  lemma NothingListed(m: Params)
    ensures Print(m, 0x1_0000) == [] && AscendingTags([]) && Lists([], m, 0x1_0000) && AllSized([])
  {}

  lemma SameListed(ps: Tlvs, m: Params, tag: nat)
    requires Lists(ps, m, tag + 1) && tag < 0x1_0000 && tag !in m
    ensures Lists(ps, m, tag)
  {}

  lemma PrintOne(m: Params, tag: nat)
    requires tag < 0x1_0000
    ensures Print(m, tag) == if tag in m then Tlv(tag, m[tag]) + Print(m, tag + 1) else Print(m, tag + 1)
  {
    hide Tlv;
    assert [] + Print(m, tag + 1) == Print(m, tag + 1);
  }

  lemma OneMoreListed(rest: Tlvs, m: Params, tag: u16)
    requires AscendingTags(rest) && Lists(rest, m, (tag as int) + 1) && AllSized(rest) && tag in m && Sized(m)
    ensures var ps := [(tag, m[tag])] + rest; AscendingTags(ps) && Lists(ps, m, tag) && AllSized(ps)
  {
    var ps := [(tag, m[tag])] + rest;
    forall i | 0 <= i < |rest| ensures tag < rest[i].0 {
      assert (rest[i].0, rest[i].1) in rest;
    }
    assert forall i :: 1 <= i < |ps| ==> ps[i] == rest[i - 1];
  }

  /** A printed map is read back even with up to three bytes behind it. */
  lemma ParamsThenStray(m: Params, stray: seq<byte>)
    requires Sized(m) && |stray| <= 3
    ensures Parse(map[], Print(m, 0) + stray) == Ok((m, stray))
  {
    hide Parse, Collected, Print, Joined;
    var ps := PrintedInOrder(m, 0);
    ListParsed(map[], ps, stray);
    var c := Collected(map[], ps);
    forall t: u16 ensures t in c <==> t in m
      ensures t in m ==> t in c && c[t] == m[t]
    {
      CollectedIsFirst(map[], ps, t);
      if t in m {
        assert (t, m[t]) in ps;
      }
      if t in c {
        assert (t, c[t]) in ps;
      }
    }
    assert c == m;
  }

  /** The parsing loop. */
  method ParseParams(buf: ByteSpan) returns (r: Result<Params>)
    modifies buf
    ensures r.Ok? <==> Parse(map[], old(buf.rest)).Ok?
    ensures r.Ok? ==> Parse(map[], old(buf.rest)) == Ok((r.value, buf.rest))
  {
    var m: Params := map[];
    while |buf.rest| >= 4
      invariant Parse(m, buf.rest) == Parse(map[], old(buf.rest))
      decreases |buf.rest|
    {
      var tag := GetU16(buf.rest);
      var n := GetU16(buf.rest[2..]);
      if n > |buf.rest| - 4 {
        return Err("oparam val length is bigger than available buf");
      }
      var val := buf.rest[4..4 + n];
      m := if tag in m then m else m[tag := val];
      buf.rest := buf.rest[4 + n..];
    }
    r := Ok(m);
  }

  /** A stretch of tags that are not there prints nothing. */
  lemma {:induction false} PrintSkips(m: Params, from: nat, to: nat)
    requires from <= to <= 0x1_0000 && forall t :: t in m ==> !(from <= t < to)
    ensures Print(m, from) == Print(m, to)
    decreases 0x1_0000 - from
  {
    if from < to {
      PrintSkips(m, from + 1, to);
    }
  }

  lemma PrintNext(m: Params, tag: u16, before: seq<byte>)
    requires tag in m
    ensures before + Print(m, tag) ==
            before + PutU16(tag) + PutU16(|m[tag]| % 0x1_0000) + m[tag] + Print(m, (tag as int) + 1)
  {
    hide PutU16;
  }

  lemma PrintEnds(m: Params)
    ensures Print(m, 0x1_0000) == []
  {}

  /** The tag that the ordered map gives out next. */
  method Least(tags: set<u16>) returns (tag: u16)
    requires tags != {}
    ensures tag in tags && forall t :: t in tags ==> tag <= t
  {
    var todo := tags;
    tag :| tag in tags;
    while todo != {}
      invariant todo <= tags && tag in tags
      invariant forall t :: t in tags && t !in todo ==> tag <= t
      decreases |todo|
    {
      var t :| t in todo;
      if t < tag {
        tag := t;
      }
      todo := todo - {t};
    }
  }

  /** The printing loop, in tag order. */
  method PrintParams(m: Params, vec: ByteVec)
    modifies vec
    ensures vec.bytes == old(vec.bytes) + Print(m, 0)
  {
    hide PutU16, Print;
    var todo := m.Keys;
    ghost var next: nat := 0;
    while todo != {}
      invariant next <= 0x1_0000 && forall t :: t in todo <==> t in m && t >= next
      invariant vec.bytes + Print(m, next) == old(vec.bytes) + Print(m, 0)
      decreases |todo|
    {
      var tag := Least(todo);
      PrintSkips(m, next, tag);
      PrintNext(m, tag, vec.bytes);
      vec.bytes := vec.bytes + PutU16(tag) + PutU16(|m[tag]| % 0x1_0000);
      vec.bytes := vec.bytes + m[tag];
      todo, next := todo - {tag}, (tag as int) + 1;
    }
    PrintSkips(m, next, 0x1_0000);
    PrintEnds(m);
  }
}

/** Fields, schemas and their printed forms. */
module Schemas {
  import opened Bytes
  import opened Flags
  import opened Oparams

  datatype Field = CStr(maxLen: nat) | U8Str(maxLen: nat) | EnumU8 | U8 | EsmFlag | DeliveryFlag | Smart

  datatype Value =
    | Text(text: seq<byte>)
    | Num(num: byte)
    | Esm(esm: EsmClass)
    | Delivery(delivery: RegisteredDelivery)
    | Opt(opt: Params)

  /** The value has the type of the field. */
  ghost predicate Typed(f: Field, v: Value) {
    match f
    case CStr(_) => v.Text?
    case U8Str(_) => v.Text?
    case EnumU8 => v.Num?
    case U8 => v.Num?
    case EsmFlag => v.Esm?
    case DeliveryFlag => v.Delivery?
    case Smart => v.Opt? && Sized(v.opt)
  }

  /** The string is longer than its field allows. */
  predicate TooLong(f: Field, v: Value) {
    match (f, v)
    case (CStr(max), Text(s)) => |s| >= max
    case (U8Str(max), Text(s)) => |s| > max
    case _ => false
  }

  /** The value survives the trip: no embedded NUL, a length that fits its byte, groups within their bits. */
  predicate Faithful(f: Field, v: Value) {
    match (f, v)
    case (CStr(_), Text(s)) => 0 !in s
    case (U8Str(_), Text(s)) => |s| < 256
    case (EsmFlag, Esm(e)) => e.Masked()
    case (DeliveryFlag, Delivery(r)) => r.Masked()
    case _ => true
  }

  /** The bytes of a value that is not too long. */
  function Enc(f: Field, v: Value): seq<byte> {
    match (f, v)
    case (CStr(_), Text(s)) => s + [0]
    case (U8Str(_), Text(s)) => [|s| % 256] + s
    case (_, Num(b)) => [b]
    case (_, Esm(e)) => [e.ToU8()]
    case (_, Delivery(r)) => [r.ToU8()]
    case (_, Opt(m)) => Print(m, 0)
    case (_, Text(s)) => s
  }

  /** The position of the first NUL, or the length. */
  function NulPos(s: seq<byte>): nat {
    if s == [] || s[0] == 0 then 0 else 1 + NulPos(s[1..])
  }

  lemma {:induction false} NulPosIsFirst(s: seq<byte>)
    ensures NulPos(s) <= |s|
    ensures NulPos(s) < |s| ==> s[NulPos(s)] == 0
    ensures forall i :: 0 <= i < NulPos(s) ==> s[i] != 0
  {
    if s != [] && s[0] != 0 {
      NulPosIsFirst(s[1..]);
    }
  }

  /** One value and the bytes after it. */
  function Dec(f: Field, buf: seq<byte>): Result<(Value, seq<byte>)> {
    match f
    case CStr(max) =>
      NulPosIsFirst(buf);
      var n := NulPos(buf);
      if n == |buf| then Err("c_octet_str can't find null character")
      else if n >= max then Err("c_octet_str exceed its limit")
      else Ok((Text(buf[..n]), buf[n + 1..]))
    case U8Str(max) =>
      if buf == [] then Err("buf size should be at least 1")
      else if |buf| <= buf[0] then Err("octet_str buf is smaller than its length field")
      else if buf[0] > max then Err("octet_str exceed its limit")
      else Ok((Text(buf[1..1 + buf[0]]), buf[1 + buf[0]..]))
    case Smart =>
      (match Parse(map[], buf)
       case Ok((m, rest)) => Ok((Opt(m), rest))
       case Err(e) => Err(e))
    case _ =>
      if buf == [] then Err("buf size should be at least 1")
      else
        var v := match f
          case EsmFlag => Esm(EsmClass.FromU8(buf[0]))
          case DeliveryFlag => Delivery(RegisteredDelivery.FromU8(buf[0]))
          case _ => Num(buf[0]);
        Ok((v, buf[1..]))
  }

  /** A printed value is read back, with the bytes after it untouched, exactly when it is faithful. */
  lemma FieldRoundTrip(f: Field, v: Value, tail: seq<byte>)
    requires Typed(f, v) && !TooLong(f, v)
    requires f.Smart? ==> tail == []
    ensures Faithful(f, v) ==> Dec(f, Enc(f, v) + tail) == Ok((v, tail))
    ensures !Faithful(f, v) ==> Dec(f, Enc(f, v) + tail).Ok? ==> Dec(f, Enc(f, v) + tail).value.0 != v
  {
    var buf := Enc(f, v) + tail;
    match f {
      case CStr(max) =>
        NulPosIsFirst(buf);
        assert buf[|v.text|] == 0;
        assert forall i :: 0 <= i < |v.text| ==> buf[i] == v.text[i];
        if 0 !in v.text {
          assert NulPos(buf) == |v.text| && buf[..|v.text|] == v.text && buf[|v.text| + 1..] == tail;
        }
      case U8Str(max) =>
        if |v.text| < 256 {
          assert buf[0] == |v.text| && buf[1..1 + |v.text|] == v.text && buf[1 + |v.text|..] == tail;
        }
      case EsmFlag => EsmRoundTrip(v.esm);
      case DeliveryFlag => DeliveryRoundTrip(v.delivery);
      case Smart =>
        ParamsRoundTrip(v.opt);
        assert Print(v.opt, 0) + [] == Print(v.opt, 0);
      case EnumU8 =>
      case U8 =>
    }
  }

  /** Whatever is read has the type of its field, is faithful and is accepted by the printer. */
  lemma DecGives(f: Field, buf: seq<byte>)
    requires Dec(f, buf).Ok?
    ensures var (v, rest) := Dec(f, buf).value;
            Typed(f, v) && Faithful(f, v) && !TooLong(f, v) && |rest| <= |buf|
  {
    match f {
      case CStr(max) => NulPosIsFirst(buf);
      case Smart => ParseGives(map[], buf);
      case EsmFlag => EsmInverse(buf[0]);
      case DeliveryFlag => DeliveryInverse(buf[0]);
      case _ =>
    }
  }

  /** When a field is read, and as what. */
  lemma DecExactly(f: Field, buf: seq<byte>, v: Value, rest: seq<byte>)
    requires !f.Smart?
    ensures Dec(f, buf) == Ok((v, rest)) <==>
            match f
            case CStr(max) => v.Text? && 0 !in v.text && |v.text| < max && buf == v.text + [0] + rest
            case U8Str(max) => v.Text? && |v.text| < 256 && |v.text| <= max && buf == [|v.text|] + v.text + rest
            case EnumU8 => v.Num? && buf == [v.num] + rest
            case U8 => v.Num? && buf == [v.num] + rest
            case EsmFlag => buf != [] && v == Esm(EsmClass.FromU8(buf[0])) && rest == buf[1..]
            case DeliveryFlag => buf != [] && v == Delivery(RegisteredDelivery.FromU8(buf[0])) && rest == buf[1..]
  {
    match f {
      case CStr(max) => CStrExactly(max, buf, v, rest);
      case U8Str(max) =>
        if Dec(f, buf) == Ok((v, rest)) {
          assert buf == [buf[0]] + buf[1..1 + buf[0]] + buf[1 + buf[0]..];
        }
        if v.Text? && |v.text| < 256 && |v.text| <= max && buf == [|v.text|] + v.text + rest {
          assert buf[1..1 + |v.text|] == v.text && buf[1 + |v.text|..] == rest;
        }
      case EnumU8 => if buf != [] { assert buf == [buf[0]] + buf[1..]; }
      case U8 => if buf != [] { assert buf == [buf[0]] + buf[1..]; }
      case _ =>
    }
  }

  lemma CStrExactly(max: nat, buf: seq<byte>, v: Value, rest: seq<byte>)
    ensures Dec(CStr(max), buf) == Ok((v, rest)) <==>
            v.Text? && 0 !in v.text && |v.text| < max && buf == v.text + [0] + rest
  {
    hide NulPos;
    NulPosIsFirst(buf);
    var n := NulPos(buf);
    if Dec(CStr(max), buf) == Ok((v, rest)) {
      assert buf == buf[..n] + [buf[n]] + buf[n + 1..];
    }
    if v.Text? && 0 !in v.text && |v.text| < max && buf == v.text + [0] + rest {
      assert buf[|v.text|] == 0 && forall i :: 0 <= i < |v.text| ==> buf[i] == v.text[i];
      assert n == |v.text|;
      assert buf[..n] == v.text && buf[n + 1..] == rest;
    }
  }

  // ---- schemas ----

  ghost predicate AllTyped(fs: seq<Field>, vs: seq<Value>) {
    |fs| == |vs| && forall i :: 0 <= i < |fs| ==> Typed(fs[i], vs[i])
  }

  predicate SomeTooLong(fs: seq<Field>, vs: seq<Value>)
    requires |fs| == |vs|
  {
    exists i :: 0 <= i < |fs| && TooLong(fs[i], vs[i])
  }

  predicate AllFaithful(fs: seq<Field>, vs: seq<Value>)
    requires |fs| == |vs|
  {
    forall i :: 0 <= i < |fs| ==> Faithful(fs[i], vs[i])
  }

  /** Optional parameters swallow the rest of the buffer, so they come last. */
  predicate TailLast(fs: seq<Field>) {
    forall i :: 0 <= i < |fs| - 1 ==> !fs[i].Smart?
  }

  function EncAll(fs: seq<Field>, vs: seq<Value>): seq<byte>
    requires |fs| == |vs|
  {
    if fs == [] then [] else Enc(fs[0], vs[0]) + EncAll(fs[1..], vs[1..])
  }

  lemma EncAllStep(fs: seq<Field>, vs: seq<Value>, i: nat, before: seq<byte>)
    requires |fs| == |vs| && i < |fs|
    ensures before + EncAll(fs[i..], vs[i..]) == before + Enc(fs[i], vs[i]) + EncAll(fs[i + 1..], vs[i + 1..])
  {
    hide Enc;
    assert fs[i..][1..] == fs[i + 1..] && vs[i..][1..] == vs[i + 1..];
  }

  lemma EncAllEnds(fs: seq<Field>, vs: seq<Value>)
    requires fs == [] && vs == []
    ensures EncAll(fs, vs) == []
  {}

  function DecAll(fs: seq<Field>, buf: seq<byte>): Result<seq<Value>> {
    if fs == [] then Ok([])
    else match Dec(fs[0], buf)
      case Err(e) => Err(e)
      case Ok((v, rest)) =>
        match DecAll(fs[1..], rest)
        case Err(e) => Err(e)
        case Ok(vs) => Ok([v] + vs)
  }

  lemma FaithfulSplit(fs: seq<Field>, vs: seq<Value>)
    requires |fs| == |vs| > 0
    ensures AllFaithful(fs, vs) <==> Faithful(fs[0], vs[0]) && AllFaithful(fs[1..], vs[1..])
  {
    if AllFaithful(fs[1..], vs[1..]) {
      assert forall i :: 1 <= i < |fs| ==> fs[i] == fs[1..][i - 1] && vs[i] == vs[1..][i - 1];
    }
  }

  /** A printed record is read back exactly when every field is faithful. */
  lemma {:induction false} SchemaRoundTrip(fs: seq<Field>, vs: seq<Value>)
    requires AllTyped(fs, vs) && TailLast(fs) && !SomeTooLong(fs, vs)
    ensures DecAll(fs, EncAll(fs, vs)) == Ok(vs) <==> AllFaithful(fs, vs)
  {
    if fs != [] {
      hide Enc, Dec, Typed, TooLong, Faithful;
      var f, v, fs', vs' := fs[0], vs[0], fs[1..], vs[1..];
      var tail := EncAll(fs', vs');
      assert vs == [v] + vs';
      assert !TooLong(f, v) && Typed(f, v);
      forall i | 0 <= i < |fs'| ensures Typed(fs'[i], vs'[i]) && !TooLong(fs'[i], vs'[i]) {
        assert Typed(fs[i + 1], vs[i + 1]) && !TooLong(fs[i + 1], vs[i + 1]);
      }
      SchemaRoundTrip(fs', vs');
      assert f.Smart? ==> |fs| == 1;
      FieldRoundTrip(f, v, tail);
      FaithfulSplit(fs, vs);
      if !Faithful(f, v) && DecAll(fs, EncAll(fs, vs)).Ok? {
        assert DecAll(fs, EncAll(fs, vs)).value[0] != vs[0];
      }
    }
  }

  /** Bytes behind the last field do not matter: any without optional parameters, up to three with them. */
  lemma {:induction false} TrailingBytes(fs: seq<Field>, vs: seq<Value>, extra: seq<byte>)
    requires AllTyped(fs, vs) && TailLast(fs) && !SomeTooLong(fs, vs) && AllFaithful(fs, vs)
    requires (fs != [] && fs[|fs| - 1].Smart?) ==> |extra| <= 3
    ensures DecAll(fs, EncAll(fs, vs) + extra) == Ok(vs)
  {
    if fs != [] {
      hide Enc, Dec, Typed, TooLong, Faithful, AllTyped, SomeTooLong, AllFaithful, TailLast;
      var f, v, fs', vs' := fs[0], vs[0], fs[1..], vs[1..];
      var tail := EncAll(fs', vs') + extra;
      RestPrintable(fs, vs);
      assert EncAll(fs, vs) + extra == Enc(f, v) + tail;
      assert vs == [v] + vs';
      TrailingBytes(fs', vs', extra);
      if f.Smart? {
        assert fs' == [] && tail == extra;
        LastParams(v, extra);
      } else {
        FieldRoundTrip(f, v, tail);
      }
    }
  }

  /** What holds of all fields holds of the first and of the rest. */
  lemma RestPrintable(fs: seq<Field>, vs: seq<Value>)
    requires AllTyped(fs, vs) && TailLast(fs) && !SomeTooLong(fs, vs) && AllFaithful(fs, vs) && fs != []
    ensures |fs| == |vs| && Typed(fs[0], vs[0]) && !TooLong(fs[0], vs[0]) && Faithful(fs[0], vs[0])
    ensures fs[0].Smart? ==> |fs| == 1
    ensures AllTyped(fs[1..], vs[1..]) && TailLast(fs[1..]) && !SomeTooLong(fs[1..], vs[1..]) && AllFaithful(fs[1..], vs[1..])
  {
    hide Typed, TooLong, Faithful;
    forall i | 0 <= i < |fs[1..]|
      ensures Typed(fs[1..][i], vs[1..][i]) && !TooLong(fs[1..][i], vs[1..][i]) && Faithful(fs[1..][i], vs[1..][i])
    {
      assert Typed(fs[i + 1], vs[i + 1]) && !TooLong(fs[i + 1], vs[i + 1]) && Faithful(fs[i + 1], vs[i + 1]);
    }
  }

  lemma LastParams(v: Value, stray: seq<byte>)
    requires Typed(Smart, v) && |stray| <= 3
    ensures Dec(Smart, Enc(Smart, v) + stray) == Ok((v, stray))
  {
    ParamsThenStray(v.opt, stray);
  }

  /** Whatever is read can be printed again. */
  lemma {:induction false} DecAllGives(fs: seq<Field>, buf: seq<byte>)
    requires DecAll(fs, buf).Ok?
    ensures var vs := DecAll(fs, buf).value; AllTyped(fs, vs) && !SomeTooLong(fs, vs) && AllFaithful(fs, vs)
  {
    if fs != [] {
      hide Dec, Typed, TooLong, Faithful;
      DecGives(fs[0], buf);
      var (v, rest) := Dec(fs[0], buf).value;
      DecAllGives(fs[1..], rest);
    }
  }

  /** Reading, printing and reading again gives what was read first, for any bytes that parse. */
  lemma ReadingIsStable(fs: seq<Field>, buf: seq<byte>)
    requires TailLast(fs) && DecAll(fs, buf).Ok?
    ensures var vs := DecAll(fs, buf).value; |vs| == |fs| && DecAll(fs, EncAll(fs, vs)) == Ok(vs)
  {
    DecAllGives(fs, buf);
    SchemaRoundTrip(fs, DecAll(fs, buf).value);
  }

  // ---- the code ----

  method FindNul(s: seq<byte>) returns (n: nat)
    ensures n == NulPos(s)
  {
    n := 0;
    while n < |s| && s[n] != 0
      invariant n <= |s| && NulPos(s) == n + NulPos(s[n..])
    {
      n := n + 1;
    }
  }

  /** Appends one value; a string over its limit is an error and leaves the vector alone. */
  method SerializeField(f: Field, v: Value, vec: ByteVec) returns (ok: bool)
    requires Typed(f, v)
    modifies vec
    ensures ok <==> !TooLong(f, v)
    ensures vec.bytes == if ok then old(vec.bytes) + Enc(f, v) else old(vec.bytes)
  {
    match f {
      case CStr(max) =>
        if |v.text| >= max {
          return false;
        }
        vec.bytes := vec.bytes + v.text + [0];
      case U8Str(max) =>
        if |v.text| > max {
          return false;
        }
        vec.bytes := vec.bytes + [|v.text| % 256];
        vec.bytes := vec.bytes + v.text;
      case EsmFlag =>
        vec.bytes := vec.bytes + [v.esm.ToU8()];
      case DeliveryFlag =>
        vec.bytes := vec.bytes + [v.delivery.ToU8()];
      case Smart =>
        PrintParams(v.opt, vec);
      case _ =>
        vec.bytes := vec.bytes + [v.num];
    }
    ok := true;
  }

  /** Takes one value off the front of the window. */
  method DeserializeField(f: Field, buf: ByteSpan) returns (r: Result<Value>)
    modifies buf
    ensures r.Ok? <==> Dec(f, old(buf.rest)).Ok?
    ensures r.Ok? ==> Dec(f, old(buf.rest)) == Ok((r.value, buf.rest))
  {
    match f {
      case CStr(max) =>
        NulPosIsFirst(buf.rest);
        var n := FindNul(buf.rest);
        if n == |buf.rest| {
          return Err("c_octet_str can't find null character");
        }
        var str := buf.rest[..n];
        if |str| >= max {
          return Err("c_octet_str exceed its limit");
        }
        buf.rest := buf.rest[|buf.rest| - (|buf.rest| - |str| - 1)..];
        r := Ok(Text(str));
      case U8Str(max) =>
        if buf.rest == [] {
          return Err("buf size should be at least 1");
        }
        var length := buf.rest[0];
        if |buf.rest| <= length {
          return Err("octet_str buf is smaller than its length field");
        }
        var str := buf.rest[1..length + 1];
        if |str| > max {
          return Err("octet_str exceed its limit");
        }
        buf.rest := buf.rest[|buf.rest| - (|buf.rest| - |str| - 1)..];
        r := Ok(Text(str));
      case Smart =>
        var m := ParseParams(buf);
        r := match m case Ok(ps) => Ok(Opt(ps)) case Err(e) => Err(e);
      case _ =>
        if buf.rest == [] {
          return Err("buf size should be at least 1");
        }
        var b := buf.rest[0];
        buf.rest := buf.rest[1..];
        r := Ok(match f
                case EsmFlag => Esm(EsmClass.FromU8(b))
                case DeliveryFlag => Delivery(RegisteredDelivery.FromU8(b))
                case _ => Num(b));
    }
  }

  /** Prints the fields in order; stops at the first string over its limit. */
  method SerializeTo(fs: seq<Field>, vs: seq<Value>, vec: ByteVec) returns (ok: bool)
    requires AllTyped(fs, vs)
    modifies vec
    ensures ok <==> !SomeTooLong(fs, vs)
    ensures ok ==> vec.bytes == old(vec.bytes) + EncAll(fs, vs)
    ensures old(vec.bytes) <= vec.bytes
  {
    hide Typed, TooLong, Enc, EncAll;
    assert fs[0..] == fs && vs[0..] == vs;
    for i := 0 to |fs|
      invariant old(vec.bytes) <= vec.bytes
      invariant forall j :: 0 <= j < i ==> !TooLong(fs[j], vs[j])
      invariant vec.bytes + EncAll(fs[i..], vs[i..]) == old(vec.bytes) + EncAll(fs, vs)
    {
      EncAllStep(fs, vs, i, vec.bytes);
      ok := SerializeField(fs[i], vs[i], vec);
      if !ok {
        return;
      }
    }
    EncAllEnds(fs[|fs|..], vs[|vs|..]);
    ok := true;
  }

  /** Parses the fields in order; bytes after the last field are ignored. */
  method Deserialize(fs: seq<Field>, bytes: seq<byte>) returns (r: Result<seq<Value>>)
    ensures r.Ok? <==> DecAll(fs, bytes).Ok?
    ensures r.Ok? ==> r == DecAll(fs, bytes)
  {
    hide Dec;
    var buf := new ByteSpan(bytes);
    var vs: seq<Value> := [];
    for i := 0 to |fs|
      invariant fresh(buf)
      invariant DecAll(fs, bytes).Ok? <==> DecAll(fs[i..], buf.rest).Ok?
      invariant DecAll(fs, bytes).Ok? ==> DecAll(fs, bytes).value == vs + DecAll(fs[i..], buf.rest).value
    {
      var v := DeserializeField(fs[i], buf);
      assert fs[i..][1..] == fs[i + 1..];
      if v.Err? {
        return Err(v.reason);
      }
      vs := vs + [v.value];
    }
    assert vs + [] == vs;
    r := Ok(vs);
  }
}

/** The submit_sm request. */
module SubmitSms {
  import opened Bytes
  import opened Flags
  import opened Oparams
  import opened Schemas

  const COMMAND_ID: u32 := 0x0000_0004

  datatype SubmitSm = SubmitSm(
    serviceType: seq<byte>, sourceAddrTon: byte, sourceAddrNpi: byte, sourceAddr: seq<byte>,
    destAddrTon: byte, destAddrNpi: byte, destAddr: seq<byte>, esmClass: EsmClass, protocolId: byte,
    priorityFlag: byte, scheduleDeliveryTime: seq<byte>, validityPeriod: seq<byte>,
    registeredDelivery: RegisteredDelivery, replaceIfPresentFlag: byte, dataCoding: byte,
    smDefaultMsgId: byte, shortMessage: seq<byte>, oparam: Params)

  const SCHEMA: seq<Field> :=
    [CStr(6), EnumU8, EnumU8, CStr(21), EnumU8, EnumU8, CStr(21), EsmFlag, U8, EnumU8, CStr(17), CStr(17),
     DeliveryFlag, EnumU8, EnumU8, U8, U8Str(254), Smart]

  function Fields(m: SubmitSm): seq<Value> {
    [Text(m.serviceType), Num(m.sourceAddrTon), Num(m.sourceAddrNpi), Text(m.sourceAddr),
     Num(m.destAddrTon), Num(m.destAddrNpi), Text(m.destAddr), Esm(m.esmClass), Num(m.protocolId),
     Num(m.priorityFlag), Text(m.scheduleDeliveryTime), Text(m.validityPeriod),
     Delivery(m.registeredDelivery), Num(m.replaceIfPresentFlag), Num(m.dataCoding), Num(m.smDefaultMsgId),
     Text(m.shortMessage), Opt(m.oparam)]
  }

  function OfFields(vs: seq<Value>): SubmitSm
    requires AllTyped(SCHEMA, vs)
  {
    TypedShape(vs);
    SubmitSm(vs[0].text, vs[1].num, vs[2].num, vs[3].text, vs[4].num, vs[5].num, vs[6].text, vs[7].esm,
             vs[8].num, vs[9].num, vs[10].text, vs[11].text, vs[12].delivery, vs[13].num, vs[14].num,
             vs[15].num, vs[16].text, vs[17].opt)
  }

  lemma TypedShape(vs: seq<Value>)
    requires AllTyped(SCHEMA, vs)
    ensures |vs| == 18
    ensures vs[0].Text? && vs[1].Num? && vs[2].Num? && vs[3].Text? && vs[4].Num? && vs[5].Num?
    ensures vs[6].Text? && vs[7].Esm? && vs[8].Num? && vs[9].Num? && vs[10].Text? && vs[11].Text?
    ensures vs[12].Delivery? && vs[13].Num? && vs[14].Num? && vs[15].Num? && vs[16].Text? && vs[17].Opt?
  {
    assert forall i :: 0 <= i < 18 ==> Typed(SCHEMA[i], vs[i]);
    assert Typed(SCHEMA[0], vs[0]) && Typed(SCHEMA[1], vs[1]) && Typed(SCHEMA[2], vs[2]);
    assert Typed(SCHEMA[3], vs[3]) && Typed(SCHEMA[4], vs[4]) && Typed(SCHEMA[5], vs[5]);
    assert Typed(SCHEMA[6], vs[6]) && Typed(SCHEMA[7], vs[7]) && Typed(SCHEMA[8], vs[8]);
    assert Typed(SCHEMA[9], vs[9]) && Typed(SCHEMA[10], vs[10]) && Typed(SCHEMA[11], vs[11]);
    assert Typed(SCHEMA[12], vs[12]) && Typed(SCHEMA[13], vs[13]) && Typed(SCHEMA[14], vs[14]);
    assert Typed(SCHEMA[15], vs[15]) && Typed(SCHEMA[16], vs[16]) && Typed(SCHEMA[17], vs[17]);
  }

  /** Some string is at or over its limit. */
  predicate Rejected(m: SubmitSm) {
    |m.serviceType| >= 6 || |m.sourceAddr| >= 21 || |m.destAddr| >= 21 ||
    |m.scheduleDeliveryTime| >= 17 || |m.validityPeriod| >= 17 || |m.shortMessage| > 254
  }

  /** No C string holds a NUL and the flag groups keep to their bits. */
  predicate Clean(m: SubmitSm) {
    0 !in m.serviceType && 0 !in m.sourceAddr && 0 !in m.destAddr && 0 !in m.scheduleDeliveryTime &&
    0 !in m.validityPeriod && m.esmClass.Masked() && m.registeredDelivery.Masked()
  }

  function Decode(bytes: seq<byte>): (r: Result<SubmitSm>) {
    match DecAll(SCHEMA, bytes)
    case Err(e) => Err(e)
    case Ok(vs) => DecAllGives(SCHEMA, bytes); Ok(OfFields(vs))
  }

  lemma Shape(m: SubmitSm)
    requires Sized(m.oparam)
    ensures AllTyped(SCHEMA, Fields(m)) && TailLast(SCHEMA) && OfFields(Fields(m)) == m
  {}

  /** The printer rejects exactly the messages with a string over its limit. */
  lemma RejectedIsTooLong(m: SubmitSm)
    ensures SomeTooLong(SCHEMA, Fields(m)) <==> Rejected(m)
  {
    var vs := Fields(m);
    if Rejected(m) {
      assert TooLong(SCHEMA[0], vs[0]) || TooLong(SCHEMA[3], vs[3]) || TooLong(SCHEMA[6], vs[6]) ||
             TooLong(SCHEMA[10], vs[10]) || TooLong(SCHEMA[11], vs[11]) || TooLong(SCHEMA[16], vs[16]);
    }
  }

  /** Clean messages are those whose fields are all faithful. */
  lemma CleanIsFaithful(m: SubmitSm)
    requires !Rejected(m)
    ensures AllFaithful(SCHEMA, Fields(m)) <==> Clean(m)
  {
    var vs := Fields(m);
    if AllFaithful(SCHEMA, vs) {
      assert Faithful(SCHEMA[0], vs[0]) && Faithful(SCHEMA[3], vs[3]) && Faithful(SCHEMA[6], vs[6]);
      assert Faithful(SCHEMA[7], vs[7]) && Faithful(SCHEMA[10], vs[10]) && Faithful(SCHEMA[11], vs[11]);
      assert Faithful(SCHEMA[12], vs[12]);
    }
  }

  /** A message that the printer accepts is read back exactly when it is clean. */
  lemma SubmitRoundTrip(m: SubmitSm)
    requires Sized(m.oparam) && !Rejected(m)
    ensures Decode(EncAll(SCHEMA, Fields(m))) == Ok(m) <==> Clean(m)
  {
    Shape(m);
    RejectedIsTooLong(m);
    CleanIsFaithful(m);
    SchemaRoundTrip(SCHEMA, Fields(m));
    if Decode(EncAll(SCHEMA, Fields(m))) == Ok(m) {
      DecAllGives(SCHEMA, EncAll(SCHEMA, Fields(m)));
      FieldsInverse(DecAll(SCHEMA, EncAll(SCHEMA, Fields(m))).value);
    }
  }

  /** The bytes of a submit_sm in the order of section 4.4.1 of SMPP v3.4. */
  ghost function Layout(m: SubmitSm): seq<byte> {
    AddressBytes(m) + TimeBytes(m) + MessageBytes(m)
  }

  ghost function AddressBytes(m: SubmitSm): seq<byte> {
    (m.serviceType + [0]) + [m.sourceAddrTon] + [m.sourceAddrNpi] + (m.sourceAddr + [0]) +
    [m.destAddrTon] + [m.destAddrNpi]
  }

  ghost function TimeBytes(m: SubmitSm): seq<byte> {
    (m.destAddr + [0]) + [m.esmClass.ToU8()] + [m.protocolId] + [m.priorityFlag] +
    (m.scheduleDeliveryTime + [0]) + (m.validityPeriod + [0])
  }

  ghost function MessageBytes(m: SubmitSm): seq<byte> {
    [m.registeredDelivery.ToU8()] + [m.replaceIfPresentFlag] + [m.dataCoding] + [m.smDefaultMsgId] +
    ([|m.shortMessage| % 256] + m.shortMessage) + Print(m.oparam, 0)
  }

  /** The types and values of the fields, place by place. */
  ghost predicate Columns(fs: seq<Field>, vs: seq<Value>, m: SubmitSm) {
    && |fs| == |vs| == 18
    && fs[0] == CStr(6) && vs[0] == Text(m.serviceType)
    && fs[1] == EnumU8 && vs[1] == Num(m.sourceAddrTon)
    && fs[2] == EnumU8 && vs[2] == Num(m.sourceAddrNpi)
    && fs[3] == CStr(21) && vs[3] == Text(m.sourceAddr)
    && fs[4] == EnumU8 && vs[4] == Num(m.destAddrTon)
    && fs[5] == EnumU8 && vs[5] == Num(m.destAddrNpi)
    && fs[6] == CStr(21) && vs[6] == Text(m.destAddr)
    && fs[7] == EsmFlag && vs[7] == Esm(m.esmClass)
    && fs[8] == U8 && vs[8] == Num(m.protocolId)
    && fs[9] == EnumU8 && vs[9] == Num(m.priorityFlag)
    && fs[10] == CStr(17) && vs[10] == Text(m.scheduleDeliveryTime)
    && fs[11] == CStr(17) && vs[11] == Text(m.validityPeriod)
    && fs[12] == DeliveryFlag && vs[12] == Delivery(m.registeredDelivery)
    && fs[13] == EnumU8 && vs[13] == Num(m.replaceIfPresentFlag)
    && fs[14] == EnumU8 && vs[14] == Num(m.dataCoding)
    && fs[15] == U8 && vs[15] == Num(m.smDefaultMsgId)
    && fs[16] == U8Str(254) && vs[16] == Text(m.shortMessage)
    && fs[17] == Smart && vs[17] == Opt(m.oparam)
  }

  lemma FieldColumns(m: SubmitSm)
    ensures Columns(SCHEMA, Fields(m), m)
  {}

  /** The schema puts the fields where the standard has them. */
  lemma LayoutOfFields(m: SubmitSm)
    ensures EncAll(SCHEMA, Fields(m)) == Layout(m)
  {
    hide Columns, EncAll, Layout;
    FieldColumns(m);
    LayoutOfColumns(SCHEMA, Fields(m), m);
  }

  lemma LayoutOfColumns(fs: seq<Field>, vs: seq<Value>, m: SubmitSm)
    requires Columns(fs, vs, m)
    ensures |fs| == |vs| && EncAll(fs, vs) == Layout(m)
  {
    hide EncAll, Six, Columns, AddressBytes, TimeBytes, MessageBytes;
    AddressColumns(fs, vs, m);
    TimeColumns(fs, vs, m);
    MessageColumns(fs, vs, m);
    assert fs[0..] == fs && vs[0..] == vs;
    EncSix(fs, vs, 0);
    EncSix(fs, vs, 6);
    EncSix(fs, vs, 12);
    EncAllEnds(fs[18..], vs[18..]);
    InThreeParts(EncAll(fs, vs), EncAll(fs[6..], vs[6..]), EncAll(fs[12..], vs[12..]),
                 AddressBytes(m), TimeBytes(m), MessageBytes(m));
  }

  lemma InThreeParts(s: seq<byte>, t: seq<byte>, u: seq<byte>, a: seq<byte>, b: seq<byte>, c: seq<byte>)
    requires s == a + t && t == b + u && u == c + []
    ensures s == a + b + c
  {}

  lemma AddressColumns(fs: seq<Field>, vs: seq<Value>, m: SubmitSm)
    requires Columns(fs, vs, m)
    ensures |fs| == |vs| == 18 && Six(fs, vs, 0) == AddressBytes(m)
  {}

  lemma TimeColumns(fs: seq<Field>, vs: seq<Value>, m: SubmitSm)
    requires Columns(fs, vs, m)
    ensures |fs| == |vs| == 18 && Six(fs, vs, 6) == TimeBytes(m)
  {}

  lemma MessageColumns(fs: seq<Field>, vs: seq<Value>, m: SubmitSm)
    requires Columns(fs, vs, m)
    ensures |fs| == |vs| == 18 && Six(fs, vs, 12) == MessageBytes(m)
  {
    hide Print;
  }

  /** The bytes of six fields. */
  ghost function Six(fs: seq<Field>, vs: seq<Value>, i: nat): seq<byte>
    requires |fs| == |vs| && i + 6 <= |fs|
  {
    Enc(fs[i], vs[i]) + Enc(fs[i + 1], vs[i + 1]) + Enc(fs[i + 2], vs[i + 2]) + Enc(fs[i + 3], vs[i + 3]) +
    Enc(fs[i + 4], vs[i + 4]) + Enc(fs[i + 5], vs[i + 5])
  }

  lemma EncSix(fs: seq<Field>, vs: seq<Value>, i: nat)
    requires |fs| == |vs| && i + 6 <= |fs|
    ensures EncAll(fs[i..], vs[i..]) == Six(fs, vs, i) + EncAll(fs[i + 6..], vs[i + 6..])
  {
    hide EncAll, Enc;
    var b: seq<byte> := [];
    EncAllStep(fs, vs, i, b);
    b := Enc(fs[i], vs[i]);
    assert [] + b == b && [] + EncAll(fs[i..], vs[i..]) == EncAll(fs[i..], vs[i..]);
    EncAllStep(fs, vs, i + 1, b);
    b := b + Enc(fs[i + 1], vs[i + 1]);
    EncAllStep(fs, vs, i + 2, b);
    b := b + Enc(fs[i + 2], vs[i + 2]);
    EncAllStep(fs, vs, i + 3, b);
    b := b + Enc(fs[i + 3], vs[i + 3]);
    EncAllStep(fs, vs, i + 4, b);
    b := b + Enc(fs[i + 4], vs[i + 4]);
    EncAllStep(fs, vs, i + 5, b);
  }

  /** The bytes of the standard are read as the message they stand for exactly if it is clean. */
  lemma LayoutIsRead(m: SubmitSm)
    requires Sized(m.oparam) && !Rejected(m)
    ensures Decode(Layout(m)) == Ok(m) <==> Clean(m)
  {
    hide Decode, Layout, Rejected, Clean;
    LayoutOfFields(m);
    SubmitRoundTrip(m);
  }

  lemma FieldsInverse(vs: seq<Value>)
    requires AllTyped(SCHEMA, vs)
    ensures Fields(OfFields(vs)) == vs
  {
    TypedShape(vs);
  }

  /** Prints a message; the error case is a string over its limit. */
  method Serialize(m: SubmitSm, vec: ByteVec) returns (ok: bool)
    requires Sized(m.oparam)
    modifies vec
    ensures ok <==> !Rejected(m)
    ensures ok ==> vec.bytes == old(vec.bytes) + Layout(m)
    ensures ok ==> vec.bytes == old(vec.bytes) + EncAll(SCHEMA, Fields(m))
    ensures ok && Clean(m) ==> Decode(vec.bytes[|old(vec.bytes)|..]) == Ok(m)
    ensures old(vec.bytes) <= vec.bytes
  {
    hide Layout;
    Shape(m);
    RejectedIsTooLong(m);
    LayoutOfFields(m);
    ok := SerializeTo(SCHEMA, Fields(m), vec);
    if ok {
      SubmitRoundTrip(m);
      assert vec.bytes[|old(vec.bytes)|..] == EncAll(SCHEMA, Fields(m));
    }
  }

  /** Parses a message. */
  method Parse(bytes: seq<byte>) returns (r: Result<SubmitSm>)
    ensures r.Ok? <==> Decode(bytes).Ok?
    ensures r.Ok? ==> r == Decode(bytes) && !Rejected(r.value)
    ensures forall m: SubmitSm :: Sized(m.oparam) && !Rejected(m) && Clean(m) && bytes == Layout(m) ==> r == Ok(m)
  {
    hide Layout;
    forall m: SubmitSm | Sized(m.oparam) && !Rejected(m) && Clean(m) && bytes == Layout(m) ensures Decode(bytes) == Ok(m) {
      LayoutIsRead(m);
    }
    var vs := Deserialize(SCHEMA, bytes);
    match vs {
      case Err(e) => r := Err(e);
      case Ok(fields) =>
        DecAllGives(SCHEMA, bytes);
        r := Ok(OfFields(fields));
        FieldsInverse(fields);
        TypedShape(fields);
        assert Typed(SCHEMA[17], fields[17]);
        RejectedIsTooLong(r.value);
    }
  }
}
