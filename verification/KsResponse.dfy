/** Response framing: in one call, or streamed with an incremental checksum. */
module KsResponse {
  import opened Crc8
  import opened Wrappers
  import opened KsProtocol

  const REDIRECT_MAX := 6144

  /** Where reply bytes go: the USB queue, or the bounded capture buffer of the radio bridge. */
  datatype Channel = Channel(redirect: bool, usb: seq<byte>, captured: seq<byte>)

  function Truncated(s: seq<byte>): seq<byte> {
    if |s| <= REDIRECT_MAX then s else s[..REDIRECT_MAX]
  }

  function Sent(c: Channel, data: seq<byte>): Channel {
    if c.redirect then c.(captured := Truncated(c.captured + data)) else c.(usb := c.usb + data)
  }

  function ReplyHeader(cmd: byte, status: byte, len: nat): seq<byte> {
    [MAGIC_0, REPLY_MAGIC_1, cmd, status, Low(len), High(len)]
  }

  function Reply(cmd: byte, status: byte, payload: seq<byte>): seq<byte> {
    ReplyHeader(cmd, status, |payload|) + payload + [Crc(payload)]
  }

  /** What the host finds in a reply: the magic bytes, the command, the status, the length with its low byte first, the
      payload and its checksum. */
  lemma ReplyOnWire(cmd: byte, status: byte, payload: seq<byte>)
    requires |payload| < 0x10000
    ensures var r, n := Reply(cmd, status, payload), |payload|;
            && |r| == n + 7 && r[0] == 0x4B && r[1] == 0x52 && r[2] == cmd && r[3] == status
            && r[4] + 256 * r[5] as int == n && r[6..n + 6] == payload && r[n + 6] == Crc(payload)
  {
    hide Crc;
    var r := Reply(cmd, status, payload);
    assert r[..6] == ReplyHeader(cmd, status, |payload|);
  }

  class Responder {
    var redirect: bool
    var usb: seq<byte>
    const buf: array<byte>
    var bufLen: nat
    var streamCrc: byte

    ghost predicate Valid()
      reads this
    {
      buf.Length == REDIRECT_MAX && bufLen <= REDIRECT_MAX
    }

    ghost function View(): Channel
      requires Valid()
      reads this, buf
    {
      Channel(redirect, usb, buf[..bufLen])
    }

    method Append(data: seq<byte>)
      requires Valid()
      modifies this`bufLen, buf
      ensures Valid() && buf[..bufLen] == Truncated(old(buf[..bufLen]) + data)
    {
      var room := if bufLen < REDIRECT_MAX then REDIRECT_MAX - bufLen else 0;
      var n := if |data| < room then |data| else room;
      var start := bufLen;
      for i := 0 to n
        invariant buf[..start + i] == old(buf[..bufLen]) + data[..i]
        modifies buf
      {
        buf[start + i] := data[i];
      }
      bufLen := start + n;
      assert (old(buf[..bufLen]) + data)[..start + n] == old(buf[..bufLen]) + data[..n];
    }

    method Put(data: seq<byte>)
      requires Valid()
      modifies this`usb, this`bufLen, buf
      ensures Valid() && View() == Sent(old(View()), data)
    {
      if redirect { Append(data); } else { usb := usb + data; }
    }

    method RedirectBegin()
      requires Valid()
      modifies this`redirect, this`bufLen
      ensures Valid() && View() == Channel(true, old(usb), [])
    {
      redirect, bufLen := true, 0;
    }

    method RedirectEnd() returns (captured: seq<byte>)
      requires Valid()
      modifies this`redirect
      ensures Valid() && captured == old(View()).captured && View() == old(View()).(redirect := false)
    {
      redirect := false;
      captured := buf[..bufLen];
    }

    method Respond(cmd: byte, status: byte, payload: seq<byte>)
      requires Valid()
      modifies this, buf
      ensures Valid() && View() == Sent(old(View()), Reply(cmd, status, payload))
    {
      hide Crc;
      hide Truncated;
      var scratch := new byte[|payload|](i requires 0 <= i < |payload| => payload[i]);
      assert scratch[0..0 + |payload|] == payload;
      var crc := ComputeCrc(scratch, 0, |payload|);
      ghost var c := View();
      SentTwice(c, ReplyHeader(cmd, status, |payload|), payload);
      SentTwice(c, ReplyHeader(cmd, status, |payload|) + payload, [crc]);
      Put(ReplyHeader(cmd, status, |payload|));
      if |payload| > 0 { Put(payload); } else { SentNothing(View()); assert payload == []; }
      Put([crc]);
    }

    method StreamBegin(cmd: byte, status: byte, totalLen: nat)
      requires Valid()
      modifies this, buf
      ensures Valid() && View() == Sent(old(View()), ReplyHeader(cmd, status, totalLen)) && streamCrc == 0
    {
      Put(ReplyHeader(cmd, status, totalLen));
      streamCrc := 0;
    }

    method StreamWrite(data: seq<byte>)
      requires Valid()
      modifies this, buf
      ensures Valid() && View() == Sent(old(View()), data) && streamCrc == Register(old(streamCrc), data)
    {
      hide Absorb;
      Put(data);
      ghost var from := streamCrc;
      for i := 0 to |data|
        invariant Register(streamCrc, data[i..]) == Register(from, data)
        modifies this`streamCrc
      {
        assert data[i..][1..] == data[i + 1..];
        streamCrc := Absorb(streamCrc, data[i]);
      }
    }

    method StreamEnd()
      requires Valid()
      modifies this, buf
      ensures Valid() && View() == Sent(old(View()), [old(streamCrc)])
    {
      Put([streamCrc]);
    }
  }

  lemma SentNothing(c: Channel)
    requires |c.captured| <= REDIRECT_MAX
    ensures Sent(c, []) == c
  {
    assert c.captured + [] == c.captured && c.usb + [] == c.usb;
  }

  /** Two writes amount to one, also when the capture buffer overflows. */
  lemma SentTwice(c: Channel, a: seq<byte>, b: seq<byte>)
    ensures Sent(Sent(c, a), b) == Sent(c, a + b)
  {
    assert c.usb + a + b == c.usb + (a + b) && c.captured + a + b == c.captured + (a + b);
    if |c.captured + a| > REDIRECT_MAX {
      assert Truncated(Truncated(c.captured + a) + b) == Truncated(c.captured + a + b);
    }
  }

  datatype Stream = Stream(channel: Channel, crc: byte)

  function Written(s: Stream, pieces: seq<seq<byte>>): Stream
    decreases |pieces|
  {
    if pieces == [] then s
    else Written(Stream(Sent(s.channel, pieces[0]), Register(s.crc, pieces[0])), pieces[1..])
  }

  /** A response streamed as header, pieces and final checksum. */
  function Streamed(c: Channel, cmd: byte, status: byte, totalLen: nat, pieces: seq<seq<byte>>): Channel {
    var s := Written(Stream(Sent(c, ReplyHeader(cmd, status, totalLen)), 0), pieces);
    Sent(s.channel, [s.crc])
  }

  lemma {:induction false} WrittenIsConcat(s: Stream, pieces: seq<seq<byte>>)
    requires |s.channel.captured| <= REDIRECT_MAX
    ensures Written(s, pieces) == Stream(Sent(s.channel, Concat(pieces)), Register(s.crc, Concat(pieces)))
    decreases |pieces|
  {
    hide Absorb;
    hide Sent;
    if pieces == [] {
      SentNothing(s.channel);
    } else {
      SentBounded(s.channel, pieces[0]);
      SentTwice(s.channel, pieces[0], Concat(pieces[1..]));
      RegisterConcat(s.crc, pieces[0], Concat(pieces[1..]));
      WrittenIsConcat(Stream(Sent(s.channel, pieces[0]), Register(s.crc, pieces[0])), pieces[1..]);
    }
  }

  lemma SentBounded(c: Channel, data: seq<byte>)
    requires |c.captured| <= REDIRECT_MAX
    ensures |Sent(c, data).captured| <= REDIRECT_MAX
  {
  }

  /** Streaming in any pieces leaves the same bytes as the one-shot response, on USB and in the capture buffer. */
  lemma StreamingIsOneShot(c: Channel, cmd: byte, status: byte, pieces: seq<seq<byte>>)
    requires |c.captured| <= REDIRECT_MAX
    ensures Streamed(c, cmd, status, |Concat(pieces)|, pieces) == Sent(c, Reply(cmd, status, Concat(pieces)))
  {
    hide Sent;
    hide Register;
    var payload, h := Concat(pieces), ReplyHeader(cmd, status, |Concat(pieces)|);
    SentBounded(c, h);
    WrittenIsConcat(Stream(Sent(c, h), 0), pieces);
    SentTwice(c, h, payload);
    SentTwice(c, h + payload, [Crc(payload)]);
  }
}
