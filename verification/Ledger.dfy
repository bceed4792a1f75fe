/** The packet framing of the Ledger wallet driver: an APDU cut into 64-byte packets, and a reply put together. */
module Ledger {
  import opened MachineInts
  import opened BigEndian

  const PACKET := 64
  const SPACE := 59

  /** Channel id and command tag. */
  const TAG: seq<Byte> := [0x01, 0x01, 0x05]

  /** The message payload: its length, and the command with its data. */
  function Body(opcode: Byte, p1: Byte, p2: Byte, data: seq<Byte>): seq<Byte> {
    [0xe0, opcode, p1, p2, |data| % 256] + data
  }

  /** The two length bytes keep the low 16 bits. */
  function Apdu(body: seq<Byte>): seq<Byte> {
    ToBytes(|body|, 2) + body
  }

  // ----- sending -----

  function Packet(i: nat, chunk: seq<Byte>): seq<Byte> {
    TAG + ToBytes(i, 2) + chunk
  }

  /** The packets of `apdu`, numbered from `i`. */
  function Packets(apdu: seq<Byte>, i: nat): seq<seq<Byte>>
    decreases |apdu|
  {
    if apdu == [] then []
    else if |apdu| > SPACE then [Packet(i, apdu[..SPACE])] + Packets(apdu[SPACE..], i + 1)
    else [Packet(i, apdu)]
  }

  /** The transport fills packets up. */
  function Padded(packet: seq<Byte>): seq<Byte> {
    if |packet| < PACKET then packet + Zeros(PACKET - |packet|) else packet
  }

  /** What can be read back when the packets are returned: a stream of bytes. */
  function AllPadded(packets: seq<seq<Byte>>): seq<Byte> {
    if packets == [] then [] else Padded(packets[0]) + AllPadded(packets[1..])
  }

  // ----- receiving -----

  datatype Reply = Ok(bytes: seq<Byte>) | ReadError | InvalidHeader | Panic

  /** The reply without its two status bytes; slicing panics when there are fewer. */
  function Finish(reply: seq<Byte>): Reply {
    if |reply| < 2 then Panic else Ok(reply[..|reply| - 2])
  }

  /** The receive loop on the bytes that can be read, 64 at a time: `reply` so far, out of `size` bytes. Packet number
      0 starts over. */
  function Receive(stream: seq<Byte>, reply: seq<Byte>, size: nat): Reply
    requires |reply| <= size
    decreases |stream|
  {
    if |stream| < PACKET then ReadError
    else
      var c := stream[..PACKET];
      if c[..3] != TAG then InvalidHeader
      else if c[3] == 0 && c[4] == 0 then Take(stream, [], FromBytes(c[5..7]), c[7..])
      else Take(stream, reply, size, c[5..])
  }

  /** Append to the reply and stop when filled up. */
  function Take(stream: seq<Byte>, reply: seq<Byte>, size: nat, payload: seq<Byte>): Reply
    requires |stream| >= PACKET && |reply| <= size
    decreases |stream|, 0
  {
    var left := size - |reply|;
    if left > |payload| then Receive(stream[PACKET..], reply + payload, size) else Finish(reply + payload[..left])
  }

  function Exchange(body: seq<Byte>): Reply {
    Receive(AllPadded(Packets(Apdu(body), 0)), [], 0)
  }

  // ----- the packets as the receiver sees them -----

  lemma PacketBytes(i: nat, chunk: seq<Byte>)
    requires |chunk| <= SPACE
    ensures var c := Padded(Packet(i, chunk));
            |c| == PACKET && c[..3] == TAG && c[3..5] == ToBytes(i, 2) && c[5..] == chunk + Zeros(SPACE - |chunk|)
  {
  }

  /** Packet numbers below 2^16 are 0 only for the first packet. */
  lemma PacketNumber(i: nat)
    requires i < 0x1_0000
    ensures ToBytes(i, 2) == [i / 256, i % 256]
  {
    assert ToBytes(i / 256, 1) == ToBytes(i / 256 / 256, 0) + [i / 256];
    assert ToBytes(i, 2) == ToBytes(i / 256, 1) + [i % 256];
  }

  /** One packet after the first: its payload is taken whole. */
  lemma ReceiveNext(i: nat, chunk: seq<Byte>, rest: seq<Byte>, reply: seq<Byte>, size: nat)
    requires 1 <= i < 0x1_0000 && |chunk| <= SPACE && |reply| <= size
    ensures var c := Padded(Packet(i, chunk));
            |c| == PACKET
            && Receive(c + rest, reply, size) == Take(c + rest, reply, size, chunk + Zeros(SPACE - |chunk|))
  {
    var c := Padded(Packet(i, chunk));
    PacketBytes(i, chunk);
    PacketNumber(i);
    assert c[3] == c[3..5][0] && c[4] == c[3..5][1];
    assert (c + rest)[..PACKET] == c;
  }

  lemma AllPaddedCons(p: seq<Byte>, rest: seq<seq<Byte>>)
    ensures AllPadded([p] + rest) == Padded(p) + AllPadded(rest)
  {
    assert ([p] + rest)[1..] == rest;
  }

  lemma TakeLong(c: seq<Byte>, rest: seq<Byte>, reply: seq<Byte>, size: nat, payload: seq<Byte>)
    requires |c| == PACKET && size > |reply| + |payload|
    ensures Take(c + rest, reply, size, payload) == Receive(rest, reply + payload, size)
  {
    hide Receive;
    assert (c + rest)[PACKET..] == rest;
  }

  lemma TakeShort(c: seq<Byte>, rest: seq<Byte>, reply: seq<Byte>, size: nat, payload: seq<Byte>)
    requires |c| == PACKET && |reply| <= size <= |reply| + |payload|
    ensures Take(c + rest, reply, size, payload) == Finish(reply + payload[..size - |reply|])
  {
  }

  /** The first chunk of `apdu` and the packets after it. */
  function Chunk(apdu: seq<Byte>): (chunk: seq<Byte>)
    ensures |chunk| <= SPACE && chunk <= apdu
  {
    if |apdu| > SPACE then apdu[..SPACE] else apdu
  }

  function After(apdu: seq<Byte>, i: nat): seq<Byte> {
    if |apdu| > SPACE then AllPadded(Packets(apdu[SPACE..], i + 1)) else []
  }

  lemma PaddedPackets(apdu: seq<Byte>, i: nat)
    requires apdu != []
    ensures AllPadded(Packets(apdu, i)) == Padded(Packet(i, Chunk(apdu))) + After(apdu, i)
  {
    hide Padded, Packet;
    AllPaddedCons(Packet(i, Chunk(apdu)), if |apdu| > SPACE then Packets(apdu[SPACE..], i + 1) else []);
    assert [Packet(i, Chunk(apdu))] + [] == [Packet(i, Chunk(apdu))];
  }

  /** What the packets from number `i` on add to a reply that still has room for `room` bytes of them. */
  lemma {:induction false} ReceiveRest(rest: seq<Byte>, i: nat, reply: seq<Byte>, room: nat)
    requires 1 <= i && rest != [] && room <= |rest| && SPACE * i + room <= 0x1_0000 + SPACE
    ensures Receive(AllPadded(Packets(rest, i)), reply, |reply| + room) == Finish(reply + rest[..room])
    decreases |rest|
  {
    hide Padded, Packet, Receive, Finish, Zeros, Take, AllPadded, Packets;
    var chunk, size := Chunk(rest), |reply| + room;
    var c, payload := Padded(Packet(i, chunk)), chunk + Zeros(SPACE - |chunk|);
    PaddedPackets(rest, i);
    ReceiveNext(i, chunk, After(rest, i), reply, size);
    if room > SPACE {
      assert payload == chunk;
      TakeLong(c, After(rest, i), reply, size, payload);
      ReceiveRest(rest[SPACE..], i + 1, reply + chunk, room - SPACE);
      assert (reply + chunk) + rest[SPACE..][..room - SPACE] == reply + rest[..room];
    } else {
      TakeShort(c, After(rest, i), reply, size, payload);
      assert payload[..room] == rest[..room];
    }
  }

  lemma FirstPacket(body: seq<Byte>, rest: seq<Byte>)
    ensures var chunk := Chunk(Apdu(body));
            var c := Padded(Packet(0, chunk));
            |chunk| >= 2 && |c| == PACKET
            && Receive(c + rest, [], 0)
               == Take(c + rest, [], |body| % 0x1_0000, chunk[2..] + Zeros(SPACE - |chunk|))
  {
    hide ToBytes, Padded, Packet, Take, FromBytes;
    var chunk := Chunk(Apdu(body));
    var c := Padded(Packet(0, chunk));
    PacketBytes(0, chunk);
    PacketNumber(0);
    assert c[3] == c[3..5][0] && c[4] == c[3..5][1];
    assert c[5..7] == c[5..][..2] == chunk[..2] == ToBytes(|body|, 2);
    assert c[7..] == c[5..][2..] == chunk[2..] + Zeros(SPACE - |chunk|);
    LowTwoBytes(|body|);
    assert (c + rest)[..PACKET] == c;
  }

  /** The first packet carries the length and the first 57 bytes; so the reply is as much of the body as the 16-bit
      length says. */
  lemma ExchangeResult(body: seq<Byte>)
    ensures Exchange(body) == Finish(body[..|body| % 0x1_0000])
  {
    hide Padded, Packet, Receive, Finish, Zeros, Take, AllPadded, Packets, ToBytes;
    var apdu, size := Apdu(body), |body| % 0x1_0000;
    var chunk := Chunk(apdu);
    var c, payload := Padded(Packet(0, chunk)), chunk[2..] + Zeros(SPACE - |chunk|);
    PaddedPackets(apdu, 0);
    FirstPacket(body, After(apdu, 0));
    if size > SPACE - 2 {
      var rest := body[SPACE - 2..];
      assert apdu[SPACE..] == rest && payload == body[..SPACE - 2];
      TakeLong(c, After(apdu, 0), [], size, payload);
      assert [] + payload == payload;
      ReceiveRest(rest, 1, payload, size - (SPACE - 2));
      assert payload + rest[..size - (SPACE - 2)] == body[..size];
    } else {
      TakeShort(c, After(apdu, 0), [], size, payload);
      assert [] + payload[..size] == body[..size];
    }
  }

  lemma LowTwoBytes(n: nat)
    ensures FromBytes(ToBytes(n, 2)) == n % 0x1_0000
  {
    assert ToBytes(n / 256, 1) == ToBytes(n / 256 / 256, 0) + [n / 256 % 256];
    assert ToBytes(n, 2) == [n / 256 % 256, n % 256];
    assert [n / 256 % 256, n % 256][..1] == [n / 256 % 256];
    assert FromBytes([n / 256 % 256][..0]) == 0;
    assert FromBytes([n / 256 % 256]) == n / 256 % 256;
  }

  /** Framing round trip: what the receive loop rebuilds from the packets of the send loop is the body without its
      last two bytes, if and only if the body's length fits the two length bytes. */
  lemma RoundTripIff(opcode: Byte, p1: Byte, p2: Byte, data: seq<Byte>)
    ensures var body := Body(opcode, p1, p2, data);
            Exchange(body) == Ok(body[..|body| - 2]) <==> 5 + |data| < 0x1_0000
  {
    var body := Body(opcode, p1, p2, data);
    ExchangeResult(body);
    var n := |body| % 0x1_0000;
    if 5 + |data| < 0x1_0000 {
      assert n == |body| && body[..n] == body;
    } else {
      assert n < |body|;
      assert n >= 2 ==> |body[..n][..n - 2]| == n - 2 < |body[..|body| - 2]|;
    }
  }

  /** At 65531 bytes of data the length wraps to 0, and the empty reply cannot be sliced. */
  lemma LongMessageLost(opcode: Byte, p1: Byte, p2: Byte)
    ensures Exchange(Body(opcode, p1, p2, Zeros(65531))) == Panic
  {
    hide Zeros, Exchange;
    ExchangeResult(Body(opcode, p1, p2, Zeros(65531)));
  }

  // ----- the loops -----

  class Device {
    /** Packets written by the driver, and bytes it can read. */
    var written: seq<seq<Byte>>
    var pending: seq<Byte>

    constructor (replies: seq<Byte>)
      ensures written == [] && pending == replies
    {
      written, pending := [], replies;
    }

    /** Streams all the chunks to the device, through one buffer. */
    method SendAll(message: seq<Byte>)
      modifies this
      ensures written == old(written) + Packets(message, 0) && pending == old(pending)
    {
      var apdu, i: nat := message, 0;
      var chunk := new Byte[PACKET];
      while |apdu| > 0
        invariant pending == old(pending)
        invariant written + Packets(apdu, i) == old(written) + Packets(message, 0)
        decreases |apdu|
      {
        var n := if |apdu| > SPACE then SPACE else |apdu|;
        Fill(chunk, i, apdu[..n]);
        ghost var more := Packets(apdu, i)[1..];
        var packet := chunk[..5 + n];
        assert packet == Packets(apdu, i)[0] && more == Packets(apdu[n..], i + 1);
        assert written + ([packet] + more) == (written + [packet]) + more;
        written := written + [packet];
        apdu := apdu[n..];
        i := i + 1;
      }
      assert written + [] == written;
    }

    /** Streams the reply back. */
    method ReceiveAll() returns (r: Reply)
      modifies this
      ensures r == Receive(old(pending), [], 0) && written == old(written)
    {
      var reply: seq<Byte>, size: nat := [], 0;
      while true
        invariant |reply| <= size && written == old(written)
        invariant Receive(pending, reply, size) == Receive(old(pending), [], 0)
        decreases |pending|
      {
        if |pending| < PACKET {
          return ReadError;
        }
        var chunk := pending[..PACKET];
        pending := pending[PACKET..];
        if chunk[..3] != TAG {
          return InvalidHeader;
        }
        var payload;
        if chunk[3] == 0 && chunk[4] == 0 {
          reply, size := [], FromBytes(chunk[5..7]);
          payload := chunk[7..];
        } else {
          payload := chunk[5..];
        }
        var left := size - |reply|;
        if left > |payload| {
          reply := reply + payload;
        } else {
          reply := reply + payload[..left];
          return if |reply| < 2 then Panic else Ok(reply[..|reply| - 2]);
        }
      }
    }
  }

  /** Header, number and payload, over whatever the buffer held. */
  method Fill(chunk: array<Byte>, i: nat, payload: seq<Byte>)
    requires chunk.Length == PACKET && |payload| <= SPACE
    modifies chunk
    ensures chunk[..5 + |payload|] == Packet(i, payload)
  {
    var packet := TAG + ToBytes(i, 2) + payload;
    forall j | 0 <= j < |packet| {
      chunk[j] := packet[j];
    }
  }
}
