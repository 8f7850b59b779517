/** Reassembly of MQTT packets from a TCP stream: a buffer that collects what arrives
    and gives up one packet at a time. */
module MqttStream {
  import Bits
  import opened MqttMessage

  const MQTT_BUF_SIZE: nat := 2048

  function Flat(packets: seq<seq<byte>>): seq<byte> {
    if packets == [] then [] else packets[0] + Flat(packets[1..])
  }

  lemma {:induction false} FlatConcat(a: seq<seq<byte>>, b: seq<seq<byte>>)
    ensures Flat(a + b) == Flat(a) + Flat(b)
  {
    if a == [] {
      assert a + b == b;
    } else {
      assert (a + b)[1..] == a[1..] + b;
      FlatConcat(a[1..], b);
    }
  }

  lemma FlatSnoc(a: seq<seq<byte>>, p: seq<byte>)
    ensures Flat(a + [p]) == Flat(a) + p
  {
    FlatConcat(a, [p]);
    assert Flat([p]) == p;
  }

  predicate AllPackets(packets: seq<seq<byte>>) {
    forall i | 0 <= i < |packets| :: IsPacket(packets[i])
  }

  /** Whole packets may follow: the first packet of a stream is what it was. */
  lemma PacketLengthExtends(s: seq<byte>, t: seq<byte>)
    ensures PacketLength(s) == 0 || PacketLength(s + t) == PacketLength(s)
  {
    LengthExtends(s, t, 1, 4);
  }

  /** What is taken off the front of a stream of packets, one packet length at a time,
      are those packets, in order. */
  lemma {:induction false} TakenInOrder(taken: seq<seq<byte>>, rest: seq<byte>, packets: seq<seq<byte>>, later: seq<byte>)
    requires AllPackets(taken) && AllPackets(packets)
    requires Flat(taken) + rest + later == Flat(packets)
    ensures taken <= packets && rest + later == Flat(packets[|taken|..])
  {
    if taken == [] {
      assert rest + later == Flat(taken) + rest + later;
    } else {
      var p := taken[0];
      var more := Flat(taken[1..]) + rest + later;
      assert p + more == Flat(taken) + rest + later;
      assert packets != [];
      var q := packets[0];
      PacketLengthExtends(p, more);
      PacketLengthExtends(q, Flat(packets[1..]));
      assert |p| == |q| && p == (p + more)[..|p|] == q;
      assert more == (p + more)[|p|..] == Flat(packets[1..]);
      TakenInOrder(taken[1..], rest, packets[1..], later);
      assert packets[|taken|..] == packets[1..][|taken| - 1..];
    }
  }

  class StreamBuffer {
    const data: array<byte>
    var used: nat

    /** Everything received since the buffer was last cleared, and the packets handled. */
    ghost var received: seq<byte>
    ghost var handled: seq<seq<byte>>

    ghost predicate Valid()
      reads this, data
    {
      && data.Length == MQTT_BUF_SIZE && used <= data.Length
      && AllPackets(handled) && received == Flat(handled) + data[..used]
    }

    constructor ()
      ensures Valid() && fresh(data) && received == [] && handled == [] && used == 0
    {
      data := new byte[MQTT_BUF_SIZE];
      used, received, handled := 0, [], [];
    }

    method Clear()
      requires data.Length == MQTT_BUF_SIZE
      modifies `used, `received, `handled
      ensures Valid() && used == 0 && received == [] && handled == []
    {
      used, received, handled := 0, [], [];
    }

    /** Takes a chunk in, or clears everything when it does not fit. */
    method Append(chunk: seq<byte>) returns (ok: bool)
      requires Valid()
      modifies this, data
      ensures Valid() && ok == (old(used) + |chunk| <= MQTT_BUF_SIZE)
      ensures ok ==> received == old(received) + chunk && handled == old(handled) && used == old(used) + |chunk|
      ensures ok ==> data[..used] == old(data[..used]) + chunk && data[used..] == old(data[..])[used..]
      ensures !ok ==> used == 0 && received == [] && handled == [] && data[..] == old(data[..])
    {
      if used + |chunk| > data.Length {
        Clear();
        return false;
      }
      forall i | 0 <= i < |chunk| {
        data[used + i] := chunk[i];
      }
      used := used + |chunk|;
      assert data[..used] == old(data[..used]) + chunk;
      Bits.Reassociate(Flat(handled), old(data[..used]), chunk);
      received := received + chunk;
      return true;
    }

    /** The length of the packet at the front. */
    method FrontLength() returns (n: int)
      requires Valid()
      ensures n == PacketLength(data[..used])
    {
      n := GetPacketLength(data[..used]);
    }

    /** A complete packet at the front, as a value. */
    lemma FrontIsPacket(n: nat)
      requires Valid() && 0 < n <= used && n == PacketLength(data[..used])
      ensures 2 <= n && IsPacket(data[..n])
    {
      var s := data[..used];
      var front := data[..n];
      var field := LengthFrom(s, 1, 4);
      assert field.Total?;
      FieldInFront(s, 1, 4, n);
      assert s[..n] == front;
    }

    /** Drops the packet at the front; what follows moves up. */
    method Drop(n: nat)
      requires Valid() && 0 < n <= used && n == PacketLength(data[..used])
      modifies this, data
      ensures Valid() && received == old(received) && handled == old(handled) + [old(data[..n])]
      ensures used == old(used) - n && data[..used] == old(data[n..used]) && data[used..] == old(data[..])[used..]
    {
      hide Flat; hide PacketLength; hide IsPacket;
      FrontIsPacket(n);
      ghost var front, rest := data[..n], data[n..used];
      Bits.SplitSlice(data[..], 0, n, used);
      assert data[..used] == front + rest;
      FlatSnoc(handled, front);
      Bits.Reassociate(Flat(handled), front, rest);
      MoveUp(n);
      used := used - n;
      handled := handled + [front];
    }

    /** The bytes from n on move to the front. */
    method MoveUp(n: nat)
      requires n <= used <= data.Length
      modifies data
      ensures data[..used - n] == old(data[n..used]) && data[used - n..] == old(data[..])[used - n..]
    {
      forall i | 0 <= i < used - n {
        data[i] := data[n + i];
      }
    }
  }

  /** A length field is read from the front of its packet alone. */
  lemma {:induction false} FieldInFront(s: seq<byte>, i: nat, left: nat, n: nat)
    requires LengthFrom(s, i, left).Total? && LengthFrom(s, i, left).end <= n <= |s|
    ensures LengthFrom(s[..n], i, left) == LengthFrom(s, i, left)
    decreases left
  {
    if s[i] >= 128 {
      FieldInFront(s, i + 1, left - 1, n);
    }
  }

  /** Every chunk fits behind what can be left of a packet. */
  predicate Room(packets: seq<seq<byte>>, chunks: seq<seq<byte>>) {
    forall p <- packets, c <- chunks :: |p| + |c| <= MQTT_BUF_SIZE + 1
  }

  /** Less than one of the packets. */
  predicate Partial(used: nat, packets: seq<seq<byte>>) {
    used == 0 || exists p <- packets :: used < |p|
  }

  lemma RoomForNext(used: nat, packets: seq<seq<byte>>, chunks: seq<seq<byte>>, i: nat)
    requires AllPackets(packets) && Room(packets, chunks) && Partial(used, packets) && packets != [] && i < |chunks|
    ensures used + |chunks[i]| <= MQTT_BUF_SIZE
  {
    assert chunks[i] in chunks && packets[0] in packets;
    if used > 0 {
      var p :| p in packets && used < |p|;
      assert |p| + |chunks[i]| <= MQTT_BUF_SIZE + 1;
    }
    assert |packets[0]| + |chunks[i]| <= MQTT_BUF_SIZE + 1;
  }

  /** When no complete packet is left at the front, less than one packet is buffered. */
  lemma LessThanAPacket(handled: seq<seq<byte>>, left: seq<byte>, packets: seq<seq<byte>>, later: seq<byte>)
    requires AllPackets(handled) && AllPackets(packets) && Flat(handled) + left + later == Flat(packets)
    requires var l := PacketLength(left); l <= 0 || l > |left|
    ensures Partial(|left|, packets)
  {
    TakenInOrder(handled, left, packets, later);
    var rest := packets[|handled|..];
    if left != [] {
      var p := rest[0];
      assert p in packets;
      if |p| <= |left| {
        FrontComplete(p, left, later, Flat(rest[1..]));
        assert false;
      }
    }
  }

  lemma FrontComplete(p: seq<byte>, left: seq<byte>, later: seq<byte>, more: seq<byte>)
    requires IsPacket(p) && |p| <= |left| && left + later == p + more
    ensures 0 < PacketLength(left) <= |left|
  {
    assert left[..|p|] == (left + later)[..|p|] == p;
    PacketLengthExtends(p, left[|p|..]);
    assert left == p + left[|p|..];
  }

  /** The task takes all it can after every chunk. */
  predicate KeepsUp(steps: seq<nat>) {
    forall n <- steps :: n >= MQTT_BUF_SIZE
  }

  lemma AtLeast(steps: seq<nat>, i: nat)
    requires KeepsUp(steps) && i < |steps|
    ensures steps[i] >= MQTT_BUF_SIZE
  {
    assert steps[i] in steps;
  }

  lemma NothingFlat(packets: seq<seq<byte>>)
    ensures Flat([]) == [] && Partial(0, packets)
  {
  }

  lemma ChunksSplit(chunks: seq<seq<byte>>, i: nat)
    requires i < |chunks|
    ensures Flat(chunks[..i + 1]) == Flat(chunks[..i]) + chunks[i]
  {
    hide Flat;
    FlatSnoc(chunks[..i], chunks[i]);
    assert chunks[..i] + [chunks[i]] == chunks[..i + 1];
  }

  /** The buffer under a whole run: chunks arrive, and after each the task takes up to
      so many packets. Unless the buffer overflows, exactly the packets of the stream are
      handled, in order, whatever the chunks were. It never overflows while the task
      keeps up and no chunk is too long to follow a part of a packet. */
  method ReceiveAll(b: StreamBuffer, chunks: seq<seq<byte>>, steps: seq<nat>, ghost packets: seq<seq<byte>>)
    returns (ok: bool)
    requires b.Valid() && b.received == [] && b.handled == []
    requires AllPackets(packets) && Flat(chunks) == Flat(packets) && |steps| == |chunks|
    modifies b, b.data
    ensures b.Valid()
    ensures ok ==> b.handled == packets && b.used == 0
    ensures KeepsUp(steps) && Room(packets, chunks) && packets != [] ==> ok
  {
    hide Flat; hide AllPackets; hide PacketLength; hide Room; hide Partial; hide KeepsUp;
    NothingFlat(packets);
    assert chunks[..0] == [];
    ghost var easy := KeepsUp(steps) && Room(packets, chunks) && packets != [];
    for i := 0 to |chunks|
      invariant b.Valid() && b.received == Flat(chunks[..i])
      invariant easy ==> Partial(b.used, packets)
    {
      ChunksSplit(chunks, i);
      if easy {
        RoomForNext(b.used, packets, chunks, i);
        AtLeast(steps, i);
      }
      ok := b.Append(chunks[i]);
      if !ok {
        return false;
      }
      TakeUpTo(b, steps[i]);
      if easy {
        StillUnread(b, chunks, i + 1, packets);
      }
    }
    assert chunks[..|chunks|] == chunks;
    TakeUpTo(b, b.used);
    Bits.Reassociate(Flat(b.handled), b.data[..b.used], []);
    assert b.received + [] == b.received;
    TakenInOrder(b.handled, b.data[..b.used], packets, []);
    ghost var left := packets[|b.handled|..];
    assert b.data[..b.used] + [] == b.data[..b.used];
    NoneLeft(b.handled, left, packets, b.data[..b.used]);
    return true;
  }

  lemma NoneLeft(handled: seq<seq<byte>>, left: seq<seq<byte>>, packets: seq<seq<byte>>, buffered: seq<byte>)
    requires AllPackets(packets) && handled <= packets && left == packets[|handled|..] && buffered == Flat(left)
    requires var l := PacketLength(buffered); l <= 0 || l > |buffered|
    ensures handled == packets && buffered == []
  {
    hide PacketLength; hide Flat;
    if left != [] {
      FrontIsWhole(left);
      assert false;
    }
    assert packets == handled + left;
    NothingFlat(packets);
  }

  lemma StillUnread(b: StreamBuffer, chunks: seq<seq<byte>>, i: nat, packets: seq<seq<byte>>)
    requires b.Valid() && i <= |chunks| && b.received == Flat(chunks[..i])
    requires AllPackets(packets) && Flat(chunks) == Flat(packets)
    requires var l := PacketLength(b.data[..b.used]); l <= 0 || l > b.used
    ensures Partial(b.used, packets)
  {
    hide AllPackets; hide PacketLength; hide Flat;
    FlatConcat(chunks[..i], chunks[i..]);
    assert chunks == chunks[..i] + chunks[i..];
    LessThanAPacket(b.handled, b.data[..b.used], packets, Flat(chunks[i..]));
  }

  /** Packets are taken until there is none at the front, or n times. */
  method TakeUpTo(b: StreamBuffer, n: nat)
    requires b.Valid()
    modifies b, b.data
    ensures b.Valid() && b.received == old(b.received) && old(b.handled) <= b.handled
    ensures n >= old(b.used) ==>
              var l := PacketLength(b.data[..b.used]); l <= 0 || l > b.used
  {
    var k := n;
    while k > 0
      invariant b.Valid() && b.received == old(b.received) && old(b.handled) <= b.handled
      invariant n >= old(b.used) ==> k >= b.used
    {
      var l := b.FrontLength();
      if l <= 0 || l > b.used {
        return;
      }
      b.Drop(l);
      k := k - 1;
    }
    if n >= old(b.used) {
      assert b.data[..b.used] == [];
    }
  }

  /** Any rest of a packet stream has a complete packet at its front. */
  lemma FrontIsWhole(packets: seq<seq<byte>>)
    requires AllPackets(packets) && packets != []
    ensures 0 < PacketLength(Flat(packets)) <= |Flat(packets)|
  {
    PacketLengthExtends(packets[0], Flat(packets[1..]));
  }
}
