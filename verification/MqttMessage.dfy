/** MQTT packets: the builders that fill the output buffer, and the readers. */
module MqttMessage {
  import Bits

  type byte = Bits.byte

  const CONNECT: nat := 1
  const CONNACK: nat := 2
  const PUBLISH: nat := 3
  const PUBACK: nat := 4
  const PUBREC: nat := 5
  const PUBREL: nat := 6
  const PUBCOMP: nat := 7
  const SUBSCRIBE: nat := 8
  const SUBACK: nat := 9
  const PINGREQ: nat := 12
  const PINGRESP: nat := 13

  const MAX_FIXED_HEADER_SIZE: nat := 3

  /** Packets up to here have a Remaining Length of at most two bytes. */
  const MAX_BUFFER: nat := 3 + 16383

  // ---------------------------------------------------------------------------
  // Remaining Length (section 2.2.3 of MQTT 3.1.1)

  /** The Remaining Length field for n. */
  function VarLength(n: nat): (s: seq<byte>)
    ensures |s| > 0
  {
    if n < 128 then [n] else [128 + n % 128] + VarLength(n / 128)
  }

  function Packet(first: byte, body: seq<byte>): (p: seq<byte>)
    ensures |p| >= 2 && p[0] == first
  {
    [first] + VarLength(|body|) + body
  }

  datatype Length = Incomplete | Malformed | Total(end: nat, value: nat)

  /** The length field from i on, of at most `left` bytes. */
  function LengthFrom(s: seq<byte>, i: nat, left: nat): (r: Length)
    ensures r.Total? ==> i < r.end <= |s|
    decreases left
  {
    if left == 0 then Malformed
    else if i >= |s| then Incomplete
    else if s[i] < 128 then Total(i + 1, s[i])
    else
      match LengthFrom(s, i + 1, left - 1)
      case Total(end, value) => Total(end, s[i] % 128 + 128 * value)
      case other => other
  }

  /** The length of the packet that s begins with; 0 while its header is incomplete, -1
      when its length field is malformed. */
  function PacketLength(s: seq<byte>): int {
    match LengthFrom(s, 1, 4)
    case Incomplete => 0
    case Malformed => -1
    case Total(end, value) => end + value
  }

  lemma StepScale(scale: nat, low: nat, value: nat)
    ensures scale * (low + 128 * value) == low * scale + scale * 128 * value
  {
    assert scale * (low + 128 * value) == scale * low + scale * (128 * value);
    assert scale * (128 * value) == scale * 128 * value;
  }

  /** A length field whose first bytes add up to `sum`, and whose next byte counts `scale`. */
  function Scaled(sum: nat, scale: nat, rest: Length): Length {
    if rest.Total? then Total(rest.end, sum + scale * rest.value) else rest
  }

  lemma ScaledStep(s: seq<byte>, i: nat, left: nat, sum: nat, scale: nat)
    requires 0 < left && i < |s|
    ensures var low := s[i] % 128;
            Scaled(sum, scale, LengthFrom(s, i, left)) ==
            if s[i] < 128 then Total(i + 1, sum + low * scale)
            else Scaled(sum + low * scale, scale * 128, LengthFrom(s, i + 1, left - 1))
  {
    var rest := LengthFrom(s, i + 1, left - 1);
    StepScale(scale, s[i] % 128, if rest.Total? then rest.value else 0);
  }

  lemma ScaledOnce(r: Length)
    ensures Scaled(0, 1, r) == r
  {
  }

  lemma ScaledOther(sum: nat, scale: nat, r: Length)
    requires !r.Total?
    ensures Scaled(sum, scale, r) == r
  {
  }

  method GetPacketLength(buffer: seq<byte>) returns (r: int)
    ensures r == PacketLength(buffer)
  {
    hide Scaled;
    ScaledOnce(LengthFrom(buffer, 1, 4));
    var remainingLength: nat, multiplier: nat := 0, 1;
    if |buffer| < 2 {
      return 0;
    }
    var i := 1;
    while i <= 4
      invariant 1 <= i <= 5
      invariant LengthFrom(buffer, 1, 4) == Scaled(remainingLength, multiplier, LengthFrom(buffer, i, 5 - i))
    {
      if i >= |buffer| {
        ScaledOther(remainingLength, multiplier, Incomplete);
        return 0;
      }
      ScaledStep(buffer, i, 5 - i, remainingLength, multiplier);
      remainingLength := remainingLength + buffer[i] % 128 * multiplier;
      if buffer[i] < 128 {
        return i + 1 + remainingLength;
      }
      multiplier := multiplier * 128;
      i := i + 1;
    }
    ScaledOther(remainingLength, multiplier, Malformed);
    return -1;
  }

  predicate WrittenAt(s: seq<byte>, i: nat, word: seq<byte>) {
    i + |word| <= |s| && s[i..i + |word|] == word
  }

  /** A written length field is read back, whatever follows. */
  lemma {:induction false} LengthReadBack(s: seq<byte>, i: nat, n: nat, left: nat)
    requires WrittenAt(s, i, VarLength(n)) && |VarLength(n)| <= left
    ensures LengthFrom(s, i, left) == Total(i + |VarLength(n)|, n)
    decreases n
  {
    assert s[i] == s[i..i + |VarLength(n)|][0];
    if n >= 128 {
      assert s[i + 1..i + |VarLength(n)|] == s[i..i + |VarLength(n)|][1..] == VarLength(n / 128);
      LengthReadBack(s, i + 1, n / 128, left - 1);
    }
  }

  /** Four bytes are enough for everything below 2^28. */
  lemma VarLengthSize(n: nat)
    requires n < 0x1000_0000
    ensures |VarLength(n)| <= 4
    ensures |VarLength(n)| == if n < 128 then 1 else if n < 16384 then 2 else if n < 2097152 then 3 else 4
  {
    if n >= 128 {
      assert VarLength(n) == [128 + n % 128] + VarLength(n / 128);
      if n >= 16384 {
        assert VarLength(n / 128) == [128 + n / 128 % 128] + VarLength(n / 128 / 128);
        if n >= 2097152 {
          assert VarLength(n / 128 / 128) == [128 + n / 128 / 128 % 128] + VarLength(n / 128 / 128 / 128);
        }
      }
    }
  }

  /** A packet is recognised as soon as its header is there, whatever bytes follow. */
  lemma PacketRecognised(first: byte, body: seq<byte>, more: seq<byte>)
    requires |body| < 0x1000_0000
    ensures LengthFrom(Packet(first, body) + more, 1, 4) == Total(1 + |VarLength(|body|)|, |body|)
    ensures PacketLength(Packet(first, body) + more) == |Packet(first, body)|
  {
    var s := Packet(first, body) + more;
    var field := VarLength(|body|);
    VarLengthSize(|body|);
    assert s[1..1 + |field|] == field;
    LengthReadBack(s, 1, |body|, 4);
  }

  /** Bytes that follow cannot change what the length field says. */
  lemma {:induction false} LengthExtends(s: seq<byte>, t: seq<byte>, i: nat, left: nat)
    ensures LengthFrom(s, i, left).Incomplete? || LengthFrom(s + t, i, left) == LengthFrom(s, i, left)
    decreases left
  {
    if left > 0 && i < |s| && s[i] >= 128 {
      LengthExtends(s, t, i + 1, left - 1);
    }
  }

  // ---------------------------------------------------------------------------
  // Packets

  function First(kind: nat, qos: nat, retain: nat): byte {
    kind % 16 * 16 + qos % 4 * 2 + retain % 2
  }

  function Word(n: nat): (w: seq<byte>)
    ensures |w| == 2
  {
    [n / 256 % 256, n % 256]
  }

  function WordAt(s: seq<byte>, i: nat): (n: nat)
    requires i + 2 <= |s|
    ensures n < 65536
  {
    s[i] as int * 256 + s[i + 1]
  }

  lemma WordReadBack(s: seq<byte>, i: nat, n: nat)
    requires n < 65536 && WrittenAt(s, i, Word(n))
    ensures WordAt(s, i) == n
  {
    assert s[i] == s[i..i + 2][0] && s[i + 1] == s[i..i + 2][1];
  }

  /** A word inside a text is where the text was written. */
  lemma Inside(s: seq<byte>, i: nat, text: seq<byte>, from: nat, word: seq<byte>)
    requires i <= |s| && s[i..] == text && WrittenAt(text, from, word)
    ensures WrittenAt(s, i + from, word)
  {
    assert s[i + from..i + from + |word|] == text[from..from + |word|];
  }

  function PublishPacket(topic: seq<byte>, data: seq<byte>, qos: nat, retain: nat, id: nat): seq<byte> {
    Packet(First(PUBLISH, qos, retain), Word(|topic|) + topic + (if qos > 0 then Word(id) else []) + data)
  }

  function SubscribePacket(topic: seq<byte>, qos: nat, id: nat): seq<byte> {
    Packet(First(SUBSCRIBE, 1, 0), Word(id) + (Word(|topic|) + topic) + [qos % 256])
  }

  function AckPacket(kind: nat, id: nat): seq<byte> {
    Packet(First(kind, if kind == PUBREL then 1 else 0, 0), Word(id))
  }

  function PingPacket(kind: nat): seq<byte> {
    Packet(First(kind, 0, 0), [])
  }

  // The packets on the wire (sections 3.3, 3.4 to 3.8 and 3.12 of MQTT 3.1.1)

  /** The length field of a packet with a body of n bytes. */
  lemma LengthBytes(n: nat)
    requires n < 16384
    ensures VarLength(n) == if n < 128 then [n] else [128 + n % 128, n / 128]
  {
    if n >= 128 {
      assert VarLength(n / 128) == [n / 128];
    }
  }

  lemma FirstBytes(qos: nat, retain: nat)
    requires qos <= 2 && retain <= 1
    ensures First(PUBLISH, qos, retain) == 0x30 + 2 * qos + retain && First(SUBSCRIBE, 1, 0) == 0x82
    ensures First(PUBACK, 0, 0) == 0x40 && First(PUBREC, 0, 0) == 0x50 && First(PUBREL, 1, 0) == 0x62
    ensures First(PUBCOMP, 0, 0) == 0x70 && First(PINGREQ, 0, 0) == 0xC0 && First(PINGRESP, 0, 0) == 0xD0
  {
  }

  lemma WordBytes(n: nat)
    requires n < 65536
    ensures Word(n) == [n / 256, n % 256]
  {
  }

  /** Type, QoS and retain flag in the first byte, and DUP 0; topic, id and payload. */
  lemma PublishLayout(topic: seq<byte>, data: seq<byte>, qos: nat, retain: nat, id: nat)
    requires qos <= 2 && retain <= 1 && id < 65536 && |topic| < 65536
    requires 2 + |topic| + (if qos > 0 then 2 else 0) + |data| < 16384
    ensures var n := 2 + |topic| + (if qos > 0 then 2 else 0) + |data|;
            PublishPacket(topic, data, qos, retain, id)
            == [0x30 + 2 * qos + retain] + (if n < 128 then [n] else [128 + n % 128, n / 128])
               + ([|topic| / 256, |topic| % 256] + topic + (if qos > 0 then [id / 256, id % 256] else []) + data)
  {
    hide First; hide Word; hide VarLength;
    LengthBytes(2 + |topic| + (if qos > 0 then 2 else 0) + |data|);
    FirstBytes(qos, retain);
    WordBytes(|topic|);
    WordBytes(id);
  }

  lemma SubscribeLayout(topic: seq<byte>, qos: nat, id: nat)
    requires qos <= 2 && id < 65536 && 5 + |topic| < 16384
    ensures var n := 5 + |topic|;
            SubscribePacket(topic, qos, id)
            == [0x82] + (if n < 128 then [n] else [128 + n % 128, n / 128])
               + ([id / 256, id % 256] + ([|topic| / 256, |topic| % 256] + topic) + [qos])
  {
    hide First; hide Word; hide VarLength;
    LengthBytes(5 + |topic|);
    FirstBytes(0, 0);
    WordBytes(|topic|);
    WordBytes(id);
  }

  lemma AckLayout(kind: nat, id: nat)
    requires kind in {PUBACK, PUBREC, PUBREL, PUBCOMP} && id < 65536
    ensures AckPacket(kind, id)
         == [if kind == PUBACK then 0x40 else if kind == PUBREC then 0x50 else if kind == PUBREL then 0x62 else 0x70,
             2, id / 256, id % 256]
  {
    hide First; hide Word; hide VarLength;
    LengthBytes(2);
    FirstBytes(0, 0);
    WordBytes(id);
  }

  lemma PingLayout()
    ensures PingPacket(PINGREQ) == [0xC0, 0] && PingPacket(PINGRESP) == [0xD0, 0]
  {
    LengthBytes(0);
  }

  /** The next packet id: 16 bits, and never 0. */
  function NextId(id: nat): (r: nat)
    ensures 0 < r < 65536
  {
    if id >= 65535 then 1 else id + 1
  }

  /** All ids are used before one is used again. */
  lemma {:induction false} IdsCycle(id: nat, n: nat)
    requires 0 < id < 65536 && n < 65535
    ensures IdAfter(id, n) == 1 + (id - 1 + n) % 65535
    ensures 0 < n ==> IdAfter(id, n) != id
  {
    if n > 0 {
      IdsCycle(id, n - 1);
    }
  }

  function IdAfter(id: nat, n: nat): (r: nat)
    requires 0 < id < 65536
    ensures 0 < r < 65536
  {
    if n == 0 then id else NextId(IdAfter(id, n - 1))
  }

  /** The output buffer. A message is built behind room for the longest header. */
  class Connection {
    const buffer: array<byte>
    var length: nat
    var messageId: nat

    ghost predicate Valid()
      reads this
    {
      MAX_FIXED_HEADER_SIZE <= buffer.Length <= MAX_BUFFER && messageId < 65536
    }

    ghost predicate Building(body: seq<byte>)
      reads this, buffer
    {
      && Valid() && MAX_FIXED_HEADER_SIZE <= length <= buffer.Length
      && buffer[MAX_FIXED_HEADER_SIZE..length] == body
    }

    constructor (size: nat)
      requires MAX_FIXED_HEADER_SIZE <= size <= MAX_BUFFER
      ensures Valid() && buffer.Length == size && fresh(buffer) && messageId == 0
    {
      buffer := new byte[size];
      length, messageId := 0, 0;
    }

    /** mqtt_msg_init: the record is cleared, and with it the last packet id. */
    method Init()
      requires Valid()
      modifies `length, `messageId
      ensures Valid() && messageId == 0
    {
      length, messageId := 0, 0;
    }

    method InitMessage()
      requires Valid()
      modifies `length
      ensures Building([]) && length == MAX_FIXED_HEADER_SIZE
    {
      length := MAX_FIXED_HEADER_SIZE;
    }

    /** memcpy behind the message so far. */
    method Append(s: seq<byte>, ghost body: seq<byte>)
      requires Building(body) && length + |s| <= buffer.Length
      modifies `length, buffer
      ensures Building(body + s) && length == old(length) + |s|
    {
      forall i | 0 <= i < |s| {
        buffer[length + i] := s[i];
      }
      length := length + |s|;
      assert buffer[MAX_FIXED_HEADER_SIZE..length] == old(buffer[MAX_FIXED_HEADER_SIZE..length]) + s;
    }

    method AppendString(s: seq<byte>, ghost body: seq<byte>) returns (r: int)
      requires Building(body)
      modifies `length, buffer
      ensures r == if old(length) + |s| + 2 > buffer.Length then -1 else |s| + 2
      ensures r < 0 ==> Building(body) && unchanged(this)
      ensures r >= 0 ==> Building(body + (Word(|s|) + s)) && length == old(length) + 2 + |s|
    {
      if length + |s| + 2 > buffer.Length {
        return -1;
      }
      Append(Word(|s|), body);
      Append(s, body + Word(|s|));
      Bits.Reassociate(body, Word(|s|), s);
      return |s| + 2;
    }

    /** Appends an id, a new one when it is 0; returns 0 when there is no room. */
    method AppendMessageId(id: nat, ghost body: seq<byte>) returns (r: nat)
      requires Building(body) && id < 65536
      modifies `length, `messageId, buffer
      ensures messageId == if id == 0 then NextId(old(messageId)) else old(messageId)
      ensures Valid()
      ensures r == if old(length) + 2 > buffer.Length then 0 else if id == 0 then messageId else id
      ensures r == 0 ==> length == old(length)
      ensures r > 0 ==> Building(body + Word(r)) && length == old(length) + 2
    {
      r := id;
      while r == 0
        invariant r < 65536 && Building(body) && length == old(length)
        invariant messageId == old(messageId) || messageId == (old(messageId) + 1) % 65536 || r != 0
        invariant if r == 0 then
                    id == 0 && messageId in {old(messageId), 0} && (messageId == 0 ==> old(messageId) in {0, 65535})
                  else if id == 0 then r == messageId == NextId(old(messageId)) else r == id && messageId == old(messageId)
        decreases if r == 0 then 65536 - messageId + (if messageId == old(messageId) then 65536 else 0) else 0
      {
        messageId := (messageId + 1) % 65536;
        r := messageId;
      }
      if length + 2 > buffer.Length {
        return 0;
      }
      Append(Word(r), body);
    }

    /** Puts the header right before the body, in one or two length bytes. */
    method FiniMessage(kind: nat, qos: nat, retain: nat, ghost body: seq<byte>) returns (message: seq<byte>)
      requires Building(body)
      modifies `length, buffer
      ensures Valid() && message == Packet(First(kind, qos, retain), body) && |message| <= old(length)
    {
      var remainingLength := length - MAX_FIXED_HEADER_SIZE;
      assert |body| == remainingLength;
      ghost var field := VarLength(remainingLength);
      if remainingLength > 127 {
        assert remainingLength / 128 < 128;
        assert VarLength(remainingLength / 128) == [remainingLength / 128];
        assert field == [128 + remainingLength % 128, remainingLength / 128];
        buffer[0] := First(kind, qos, retain);
        buffer[1] := 128 + remainingLength % 128;
        buffer[2] := remainingLength / 128;
        length := remainingLength + 3;
        message := buffer[..length];
        assert message == buffer[..3] + buffer[3..length];
      } else {
        buffer[1] := First(kind, qos, retain);
        buffer[2] := remainingLength;
        length := remainingLength + 2;
        message := buffer[1..1 + length];
        assert message == buffer[1..3] + buffer[3..1 + length];
      }
    }

    /** mqtt_msg_publish; nothing is built for an empty topic or when it does not fit. */
    method Publish(topic: seq<byte>, data: seq<byte>, qos: nat, retain: nat)
      returns (ok: bool, message: seq<byte>, id: nat)
      requires Valid() && qos <= 2 && retain <= 1 && 0 !in topic
      modifies this, buffer
      ensures Valid()
      ensures ok == (topic != [] && 5 + |topic| + (if qos > 0 then 2 else 0) + |data| <= buffer.Length)
      ensures ok ==> id == if qos > 0 then messageId else 0
      ensures messageId == if topic != [] && 5 + |topic| <= buffer.Length && qos > 0 then NextId(old(messageId)) else old(messageId)
      ensures ok ==> message == PublishPacket(topic, data, qos, retain, id)
      ensures ok ==> |message| <= buffer.Length
    {
      InitMessage();
      if topic == [] {
        return false, [], 0;
      }
      ghost var body := [];
      var r := AppendString(topic, body);
      if r < 0 {
        return false, [], 0;
      }
      body := Word(|topic|) + topic;
      assert [] + body == body;
      id := 0;
      if qos > 0 {
        id := AppendMessageId(0, body);
        if id == 0 {
          return false, [], 0;
        }
        body := body + Word(id);
      }
      if length + |data| > buffer.Length {
        return false, [], 0;
      }
      Append(data, body);
      body := body + data;
      assert qos == 0 ==> Word(|topic|) + topic + [] == Word(|topic|) + topic;
      message := FiniMessage(PUBLISH, qos, retain, body);
      ok := true;
    }

    method Subscribe(topic: seq<byte>, qos: nat) returns (ok: bool, message: seq<byte>, id: nat)
      requires Valid() && qos <= 2 && 0 !in topic
      modifies this, buffer
      ensures Valid()
      ensures ok == (topic != [] && 8 + |topic| <= buffer.Length)
      ensures messageId == (if topic != [] then NextId(old(messageId)) else old(messageId)) && (ok ==> id == messageId)
      ensures ok ==> message == SubscribePacket(topic, qos, id) && |message| <= buffer.Length
    {
      hide Packet; hide First; hide Word;
      InitMessage();
      if topic == [] {
        return false, [], 0;
      }
      ghost var body := [];
      id := AppendMessageId(0, body);
      if id == 0 {
        return false, [], 0;
      }
      body := Word(id);
      assert [] + body == body;
      var r := AppendString(topic, body);
      if r < 0 {
        return false, [], 0;
      }
      body := body + (Word(|topic|) + topic);
      if length + 1 > buffer.Length {
        return false, [], 0;
      }
      Append([qos], body);
      message := FiniMessage(SUBSCRIBE, 1, 0, body + [qos]);
      ok := true;
    }

    /** PUBACK, PUBREC, PUBREL or PUBCOMP. An id of 0 is replaced by a new one. */
    method Ack(kind: nat, id: nat) returns (ok: bool, message: seq<byte>)
      requires Valid() && kind in {PUBACK, PUBREC, PUBREL, PUBCOMP} && id < 65536
      modifies this, buffer
      ensures Valid()
      ensures ok == (5 <= buffer.Length)
      ensures messageId == if id == 0 then NextId(old(messageId)) else old(messageId)
      ensures ok ==> message == AckPacket(kind, if id == 0 then messageId else id)
    {
      InitMessage();
      var r := AppendMessageId(id, []);
      if r == 0 {
        return false, [];
      }
      assert [] + Word(r) == Word(r);
      message := FiniMessage(kind, if kind == PUBREL then 1 else 0, 0, Word(r));
      ok := true;
    }

    method Ping(kind: nat) returns (message: seq<byte>)
      requires Valid() && kind in {PINGREQ, PINGRESP}
      modifies this, buffer
      ensures Valid() && messageId == old(messageId)
      ensures message == PingPacket(kind)
    {
      InitMessage();
      message := FiniMessage(kind, 0, 0, []);
    }
  }

  // ---------------------------------------------------------------------------
  // Readers, of any buffer

  predicate IsPacket(s: seq<byte>): (r: bool)
    ensures r ==> 2 <= |s|
  {
    2 <= |s| == PacketLength(s)
  }

  function TypeOf(s: seq<byte>): nat
    requires s != []
  {
    s[0] / 16
  }

  function QosOf(s: seq<byte>): nat
    requires s != []
  {
    s[0] / 2 % 4
  }

  /** Behind the length field whose next byte is at i. */
  function SkipLength(s: seq<byte>, i: nat): (j: nat)
    ensures i <= j && (i < |s| ==> j <= |s|)
    decreases |s| - i
  {
    if i >= |s| then i else if s[i] < 128 then i + 1 else SkipLength(s, i + 1)
  }

  /** Where the variable header begins. */
  function HeaderLength(s: seq<byte>): nat {
    SkipLength(s, 1)
  }

  lemma {:induction false} SkipsField(s: seq<byte>, i: nat, left: nat)
    ensures match LengthFrom(s, i, left)
            case Total(end, _) => SkipLength(s, i) == end
            case Incomplete => SkipLength(s, i) >= |s|
            case Malformed => true
    decreases left
  {
    if left > 0 && i < |s| && s[i] >= 128 {
      SkipsField(s, i + 1, left - 1);
    }
  }

  method SkipFixedHeader(s: seq<byte>) returns (i: nat)
    ensures i == HeaderLength(s)
  {
    i := 1;
    while i < |s|
      invariant SkipLength(s, i) == HeaderLength(s)
      invariant i <= 1 || i <= |s|
    {
      if s[i] < 128 {
        i := i + 1;
        break;
      }
      i := i + 1;
    }
  }

  /** The same loop, adding up the length of the packet. */
  method MeasureHeader(s: seq<byte>) returns (i: nat, totlen: nat)
    requires !LengthFrom(s, 1, 4).Malformed?
    ensures i == HeaderLength(s)
    ensures LengthFrom(s, 1, 4).Total? ==> totlen == PacketLength(s)
  {
    hide Scaled;
    SkipsField(s, 1, 4);
    ScaledOnce(LengthFrom(s, 1, 4));
    var scale: nat := 1;
    i, totlen := 1, 0;
    while i < |s|
      invariant 1 <= i <= 5
      invariant LengthFrom(s, 1, 4) == Scaled(totlen, scale, LengthFrom(s, i, 5 - i))
      invariant SkipLength(s, i) == HeaderLength(s)
    {
      ScaledOther(totlen, scale, Malformed);
      ScaledStep(s, i, 5 - i, totlen, scale);
      totlen := totlen + s[i] % 128 * scale;
      scale := scale * 128;
      i := i + 1;
      if s[i - 1] < 128 {
        return i, totlen + i;
      }
    }
    ScaledOther(totlen, scale, LengthFrom(s, i, 5 - i));
    totlen := totlen + i;
  }

  datatype Option<T> = None | Some(value: T)

  /** Where the topic ends, if it lies inside the buffer. */
  function TopicEnd(s: seq<byte>): (r: Option<nat>)
    ensures r.Some? ==> HeaderLength(s) + 2 <= r.value <= |s|
  {
    var i := HeaderLength(s);
    if i + 2 >= |s| then None
    else
      var end := i + 2 + WordAt(s, i);
      if end > |s| then None else Some(end)
  }

  function PublishTopic(s: seq<byte>): Option<seq<byte>> {
    if TopicEnd(s).None? then None else Some(s[HeaderLength(s) + 2..TopicEnd(s).value])
  }

  method GetPublishTopic(s: seq<byte>) returns (topic: Option<seq<byte>>)
    ensures topic == PublishTopic(s)
  {
    var i := SkipFixedHeader(s);
    if i + 2 >= |s| {
      return None;
    }
    var topicLen := WordAt(s, i);
    i := i + 2;
    if i + topicLen > |s| {
      return None;
    }
    return Some(s[i..i + topicLen]);
  }

  /** From i to the end of the packet, or of the buffer if that comes first. */
  function UpTo(s: seq<byte>, i: nat, total: int): Option<seq<byte>>
    requires i <= |s|
  {
    if total < i then None else if total <= |s| then Some(s[i..total]) else Some(s[i..])
  }

  /** The payload. It counts as missing when a QoS 1 or 2 packet ends right behind its id. */
  function PublishData(s: seq<byte>): Option<seq<byte>> {
    if TopicEnd(s).None? then None
    else if QosOf(s) == 0 then UpTo(s, TopicEnd(s).value, PacketLength(s))
    else if TopicEnd(s).value + 2 >= |s| then None
    else UpTo(s, TopicEnd(s).value + 2, PacketLength(s))
  }

  /** A length field of more than four bytes would be shifted out of its `int`. */
  method GetPublishData(s: seq<byte>) returns (data: Option<seq<byte>>)
    requires !LengthFrom(s, 1, 4).Malformed?
    ensures data == PublishData(s)
  {
    SkipsField(s, 1, 4);
    var i, totlen := MeasureHeader(s);
    if i + 2 >= |s| {
      return None;
    }
    var topicLen := WordAt(s, i);
    i := i + 2;
    if i + topicLen > |s| {
      return None;
    }
    i := i + topicLen;
    if QosOf(s) > 0 {
      if i + 2 >= |s| {
        return None;
      }
      i := i + 2;
    }
    if totlen < i {
      return None;
    }
    if totlen <= |s| {
      return Some(s[i..totlen]);
    }
    return Some(s[i..]);
  }

  /** The packet id; 0 when there is none, and also when a QoS 1 or 2 PUBLISH has no
      payload or another packet needs two length bytes. */
  function IdOf(s: seq<byte>): nat {
    if s == [] then 0
    else if TypeOf(s) == PUBLISH then
      if TopicEnd(s).None? || QosOf(s) == 0 || TopicEnd(s).value + 2 >= |s| then 0
      else WordAt(s, TopicEnd(s).value)
    else if 4 <= TypeOf(s) <= 9 || TypeOf(s) == 11 then
      if |s| >= 4 && s[1] < 128 then WordAt(s, 2) else 0
    else 0
  }

  method GetId(s: seq<byte>) returns (id: nat)
    ensures id == IdOf(s) < 65536
  {
    if s == [] {
      return 0;
    }
    if TypeOf(s) == PUBLISH {
      var i := SkipFixedHeader(s);
      if i + 2 >= |s| {
        return 0;
      }
      var topicLen := WordAt(s, i);
      i := i + 2;
      if i + topicLen >= |s| {
        return 0;
      }
      i := i + topicLen;
      if QosOf(s) == 0 || i + 2 >= |s| {
        return 0;
      }
      return WordAt(s, i);
    }
    if 4 <= TypeOf(s) <= 9 || TypeOf(s) == 11 {
      if |s| >= 4 && s[1] < 128 {
        return WordAt(s, 2);
      }
      return 0;
    }
    return 0;
  }

  // ---------------------------------------------------------------------------
  // Round trips

  lemma FirstReadBack(kind: nat, qos: nat, retain: nat)
    requires kind < 16 && qos < 4
    ensures First(kind, qos, retain) / 16 == kind && First(kind, qos, retain) / 2 % 4 == qos
  {
    var low := qos * 2 + retain % 2;
    assert First(kind, qos, retain) == kind * 16 + low && low < 8;
    assert (kind * 8 + qos) % 4 == qos;
  }

  /** What the builders write is one packet, with the body behind its header. */
  lemma PacketReadBack(first: byte, body: seq<byte>)
    requires |body| < 0x1000_0000
    ensures IsPacket(Packet(first, body))
    ensures HeaderLength(Packet(first, body)) == 1 + |VarLength(|body|)| <= |Packet(first, body)|
    ensures Packet(first, body)[HeaderLength(Packet(first, body))..] == body
  {
    PacketRecognised(first, body, []);
    assert Packet(first, body) + [] == Packet(first, body);
    SkipsField(Packet(first, body), 1, 4);
  }

  lemma PublishBody(topic: seq<byte>, mid: seq<byte>, data: seq<byte>)
    ensures var body := Word(|topic|) + topic + mid + data;
            && WrittenAt(body, 0, Word(|topic|)) && WrittenAt(body, 2, topic)
            && WrittenAt(body, 2 + |topic|, mid) && WrittenAt(body, 2 + |topic| + |mid|, data)
            && |body| == 2 + |topic| + |mid| + |data|
  {
    hide Word;
  }

  /** Topic, payload, id and QoS of a built PUBLISH are read back. Only the payload and
      the id of a QoS 1 or 2 packet without payload are lost. */
  lemma PublishRoundTrip(topic: seq<byte>, data: seq<byte>, qos: nat, retain: nat, id: nat)
    requires 0 < |topic| < 65536 && qos <= 2 && retain <= 1 && id < 65536
    requires 4 + |topic| + |data| < 0x1000_0000
    ensures var p := PublishPacket(topic, data, qos, retain, id);
            && IsPacket(p) && TypeOf(p) == PUBLISH && QosOf(p) == qos
            && PublishTopic(p) == Some(topic)
            && PublishData(p) == (if qos > 0 && data == [] then None else Some(data))
            && IdOf(p) == (if qos > 0 && data != [] then id else 0)
  {
    hide Packet; hide LengthFrom; hide First; hide PacketLength; hide Word; hide WordAt; hide HeaderLength;
    var first := First(PUBLISH, qos, retain);
    var mid := if qos > 0 then Word(id) else [];
    var body := Word(|topic|) + topic + mid + data;
    var p := Packet(first, body);
    PacketReadBack(first, body);
    FirstReadBack(PUBLISH, qos, retain);
    PublishBody(topic, mid, data);
    var h := HeaderLength(p);
    Inside(p, h, body, 0, Word(|topic|));
    Inside(p, h, body, 2, topic);
    Inside(p, h, body, 2 + |topic|, mid);
    Inside(p, h, body, 2 + |topic| + |mid|, data);
    WordReadBack(p, h, |topic|);
    if qos > 0 {
      WordReadBack(p, h + 2 + |topic|, id);
    }
  }

  lemma AckRoundTrip(kind: nat, id: nat)
    requires kind in {PUBACK, PUBREC, PUBREL, PUBCOMP} && id < 65536
    ensures var p := AckPacket(kind, id); IsPacket(p) && TypeOf(p) == kind && IdOf(p) == id
  {
    hide PacketLength; hide LengthFrom; hide Word; hide WordAt; hide First;
    var first := First(kind, if kind == PUBREL then 1 else 0, 0);
    PacketReadBack(first, Word(id));
    FirstReadBack(kind, if kind == PUBREL then 1 else 0, 0);
    var p := AckPacket(kind, id);
    assert VarLength(2) == [2];
    assert p[2..] == Word(id);
    WordReadBack(p, 2, id);
  }

  /** The id of a SUBSCRIBE is read back exactly when its length fits one byte. */
  lemma SubscribeRoundTrip(topic: seq<byte>, qos: nat, id: nat)
    requires 0 < |topic| < 65536 && qos <= 2 && id < 65536
    ensures var p := SubscribePacket(topic, qos, id);
            && IsPacket(p) && TypeOf(p) == SUBSCRIBE
            && IdOf(p) == if 5 + |topic| < 128 then id else 0
  {
    hide PacketLength; hide LengthFrom; hide Word; hide WordAt; hide First;
    var body := Word(id) + (Word(|topic|) + topic) + [qos % 256];
    PacketReadBack(First(SUBSCRIBE, 1, 0), body);
    FirstReadBack(SUBSCRIBE, 1, 0);
    var p := SubscribePacket(topic, qos, id);
    assert |body| == 5 + |topic|;
    assert p[1] == VarLength(|body|)[0];
    if |body| < 128 {
      assert p[2..] == body;
      assert p[2..4] == Word(id);
      WordReadBack(p, 2, id);
    }
  }

  lemma PingRoundTrip(kind: nat)
    requires kind in {PINGREQ, PINGRESP}
    ensures var p := PingPacket(kind); IsPacket(p) && |p| == 2 && TypeOf(p) == kind && IdOf(p) == 0
  {
    FirstReadBack(kind, 0, 0);
    PacketReadBack(First(kind, 0, 0), []);
  }
}
