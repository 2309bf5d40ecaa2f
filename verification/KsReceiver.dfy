/** The parser's statics and the slot that hands a validated request to the dispatcher. */
module KsReceiver {
  import opened Wrappers
  import opened Crc8
  import opened KsProtocol
  import CfgBridge

  datatype Mode = RX_IDLE | RX_MAGIC1 | RX_HEADER | RX_PAYLOAD | RX_CRC

  // ---- The dispatcher ----

  /** One row of a command table. */
  datatype Entry = Entry(cmd: byte, handler: nat)

  datatype Turn = Nothing | Handled(handler: nat, r: Request) | NoHandler(cmd: byte) | Forwarded(frame: seq<byte>)

  /** Commands a dongle answers itself. */
  predicate IsLocal(cmd: byte) {
    cmd == 0x03 || 0xB1 <= cmd <= 0xB7 || 0xC0 <= cmd <= 0xC3 || 0xF0 <= cmd <= 0xF2
  }

  /** The handler of the first row for this command. */
  function FirstHandler(rows: seq<Entry>, cmd: byte): Option<nat> {
    if rows == [] then None
    else if rows[0].cmd == cmd then Some(rows[0].handler)
    else FirstHandler(rows[1..], cmd)
  }

  function TurnOf(slot: Option<Request>, tables: seq<seq<Entry>>, bridged: bool): Turn {
    match slot
    case None => Nothing
    case Some(r) =>
      if bridged && !IsLocal(r.cmd) then Forwarded(Frame(r))
      else
        match FirstHandler(Concat(tables), r.cmd)
        case None => NoHandler(r.cmd)
        case Some(h) => Handled(h, r)
  }

  lemma {:induction false} FirstHandlerIn(rows: seq<Entry>, more: seq<Entry>, cmd: byte)
    ensures FirstHandler(rows + more, cmd)
            == if FirstHandler(rows, cmd).Some? then FirstHandler(rows, cmd) else FirstHandler(more, cmd)
  {
    if rows == [] {
      assert rows + more == more;
    } else {
      assert (rows + more)[1..] == rows[1..] + more;
      FirstHandlerIn(rows[1..], more, cmd);
    }
  }

  /** No row carries this command. */
  ghost predicate Unserved(rows: seq<Entry>, cmd: byte) { forall i :: 0 <= i < |rows| ==> rows[i].cmd != cmd }

  /** Row i carries it, with this handler, and no row before it does. */
  ghost predicate ServedAt(rows: seq<Entry>, cmd: byte, h: nat, i: nat) {
    i < |rows| && rows[i] == Entry(cmd, h) && Unserved(rows[..i], cmd)
  }

  ghost predicate Served(rows: seq<Entry>, cmd: byte, h: nat) { exists i: nat :: ServedAt(rows, cmd, h, i) }

  /** The handler of a command is that of the first row that carries it, and there is none exactly if no row does. */
  lemma {:induction false} FirstHandlerIsFirst(rows: seq<Entry>, cmd: byte)
    ensures var h := FirstHandler(rows, cmd);
            (h == None <==> Unserved(rows, cmd)) && (h.Some? ==> Served(rows, cmd, h.value))
  {
    if rows != [] {
      var rest, h := rows[1..], FirstHandler(rows, cmd);
      FirstHandlerIsFirst(rest, cmd);
      assert forall i :: 0 <= i < |rest| ==> rest[i] == rows[i + 1];
      if rows[0].cmd == cmd {
        assert ServedAt(rows, cmd, rows[0].handler, 0);
      } else {
        assert !Unserved(rest, cmd) ==> !Unserved(rows, cmd);
        if h.Some? {
          var i: nat :| ServedAt(rest, cmd, h.value, i);
          assert rows[..i + 1] == [rows[0]] + rest[..i];
          assert ServedAt(rows, cmd, h.value, i + 1);
        }
      }
    }
  }

  method FindHandler(tables: seq<seq<Entry>>, cmd: byte) returns (h: Option<nat>)
    ensures h == FirstHandler(Concat(tables), cmd)
    ensures h == None <==> Unserved(Concat(tables), cmd)
    ensures h.Some? ==> Served(Concat(tables), cmd, h.value)
  {
    FirstHandlerIsFirst(Concat(tables), cmd);
    h := SearchTables(tables, cmd);
  }

  method SearchTables(tables: seq<seq<Entry>>, cmd: byte) returns (h: Option<nat>)
    ensures h == FirstHandler(Concat(tables), cmd)
  {
    var t := 0;
    assert tables[0..] == tables;
    while t < |tables|
      invariant 0 <= t <= |tables| && FirstHandler(Concat(tables[t..]), cmd) == FirstHandler(Concat(tables), cmd)
    {
      var i := 0;
      assert tables[t..][0] == tables[t] && tables[t..][1..] == tables[t + 1..] && tables[t][0..] == tables[t];
      while i < |tables[t]|
        invariant 0 <= i <= |tables[t]|
        invariant FirstHandler(tables[t][i..], cmd) == FirstHandler(tables[t], cmd)
      {
        if tables[t][i].cmd == cmd {
          FirstHandlerIn(tables[t], Concat(tables[t + 1..]), cmd);
          return Some(tables[t][i].handler);
        }
        assert tables[t][i..][1..] == tables[t][i + 1..];
        i := i + 1;
      }
      FirstHandlerIn(tables[t], Concat(tables[t + 1..]), cmd);
      t := t + 1;
    }
    h := None;
  }

  /** The commands of the dongle itself: firmware update, counters and pairing, battery, monitor, key slots. */
  const OWN_COMMANDS: set<byte> :=
    {0x03, 0xB1, 0xB2, 0xB3, 0xB4, 0xB5, 0xB6, 0xB7, 0xC0, 0xC1, 0xC2, 0xC3, 0xF0, 0xF1, 0xF2}

  /** What becomes of a request: with a paired keyboard every command but the dongle's own goes to it as the host sent
      it; any other goes to the first row that carries it, and is unknown exactly if none does. */
  lemma TurnOfRequest(r: Request, tables: seq<seq<Entry>>, bridged: bool)
    ensures var rows, t := Concat(tables), TurnOf(Some(r), tables, bridged);
            match t
            case Forwarded(frame) => bridged && r.cmd !in OWN_COMMANDS && frame == Frame(r)
            case Handled(h, given) => (!bridged || r.cmd in OWN_COMMANDS) && given == r && Served(rows, r.cmd, h)
            case NoHandler(cmd) => (!bridged || r.cmd in OWN_COMMANDS) && cmd == r.cmd && Unserved(rows, r.cmd)
            case Nothing => false
  {
    FirstHandlerIsFirst(Concat(tables), r.cmd);
    assert IsLocal(r.cmd) <==> r.cmd in OWN_COMMANDS;
    hide FirstHandler, Unserved, Served, Frame;
  }

  class Receiver {
    // Assembly buffer, written by feeding only.
    var mode: Mode
    var cmd: byte
    var payloadLen: nat
    var payloadPos: nat
    var hdrPos: nat
    const hdr: array<byte>
    const payload: array<byte>
    // The validated request waiting for the dispatcher.
    var ready: bool
    var readyCmd: byte
    var readyLen: nat
    const readyPayload: array<byte>
    // The frame rebuilt for the bridge.
    const frame: array<byte>
    // Error replies sent so far.
    var replies: seq<Error>

    ghost predicate Valid()
      reads this
    {
      && hdr.Length == 3 && payload.Length == PAYLOAD_MAX && readyPayload.Length == PAYLOAD_MAX
      && frame.Length == CfgBridge.FRAME_MAX
      && hdr != payload && hdr != readyPayload && payload != readyPayload
      && frame != hdr && frame != payload && frame != readyPayload
      && readyLen <= PAYLOAD_MAX
      && match mode
         case RX_HEADER => hdrPos < 3
         case RX_PAYLOAD => payloadPos < payloadLen <= PAYLOAD_MAX
         case RX_CRC => payloadLen <= PAYLOAD_MAX
         case _ => true
    }

    ghost function View(): Rx
      requires Valid()
      reads this, hdr, payload
    {
      match mode
      case RX_IDLE => Idle
      case RX_MAGIC1 => Magic1
      case RX_HEADER => Header(hdr[..hdrPos])
      case RX_PAYLOAD => Payload(cmd, payloadLen, payload[..payloadPos])
      case RX_CRC => AwaitCrc(cmd, payload[..payloadLen])
    }

    ghost function Slot(): Option<Request>
      requires Valid()
      reads this, readyPayload
    {
      if ready then Some(Request(readyCmd, readyPayload[..readyLen])) else None
    }

    constructor ()
      ensures Valid() && View() == Idle && Slot() == None && replies == []
      ensures fresh(hdr) && fresh(payload) && fresh(readyPayload) && fresh(frame)
    {
      mode, cmd, payloadLen, payloadPos, hdrPos := RX_IDLE, 0, 0, 0, 0;
      ready, readyCmd, readyLen, replies := false, 0, 0, [];
      hdr := new byte[3](_ => 0);
      payload := new byte[PAYLOAD_MAX](_ => 0);
      readyPayload := new byte[PAYLOAD_MAX](_ => 0);
      frame := new byte[CfgBridge.FRAME_MAX](_ => 0);
    }

    /** Copy the validated request into the slot, unless the dispatcher has not freed it. */
    method Publish()
      requires Valid() && payloadLen <= PAYLOAD_MAX
      modifies this`ready, this`readyCmd, this`readyLen, readyPayload
      ensures Valid()
      ensures Slot() == if old(Slot()).None? then Some(Request(cmd, payload[..payloadLen])) else old(Slot())
    {
      if !ready {
        readyCmd, readyLen := cmd, payloadLen;
        for i := 0 to payloadLen
          invariant readyPayload[..i] == payload[..i]
          modifies readyPayload
        {
          readyPayload[i] := payload[i];
        }
        ready := true;
      }
    }

    method HeaderByte(b: byte, ghost committed: bool)
      requires Valid() && mode == RX_HEADER
      modifies this`mode, this`hdrPos, this`cmd, this`payloadLen, this`payloadPos, this`replies, hdr
      ensures Valid()
      ensures var s := OnByte(old(View()), b, committed);
              View() == s.rx && replies == old(replies) + s.errors && s.eaten && !s.commits && s.control == Continue
              && s.complete.None?
    {
      ghost var was := replies;
      assert was + [] == was;
      ghost var h := hdr[..hdrPos] + [b];
      hdr[hdrPos] := b;
      hdrPos := hdrPos + 1;
      assert hdr[..hdrPos] == h;
      if hdrPos == 3 {
        cmd, payloadLen, payloadPos := hdr[0], Word(hdr[1], hdr[2]), 0;
        if payloadLen > PAYLOAD_MAX {
          replies := replies + [Overflow(cmd)];
          mode := RX_IDLE;
        } else if payloadLen == 0 {
          mode := RX_CRC;
        } else {
          mode := RX_PAYLOAD;
        }
      }
    }

    method Byte(b: byte, ghost committed: bool) returns (eaten: bool, commits: bool, stop: bool)
      requires Valid()
      modifies this, hdr, payload, readyPayload
      ensures Valid()
      ensures var s := OnByte(old(View()), b, committed);
              && View() == s.rx && eaten == s.eaten && commits == s.commits && stop == s.control.Stop?
              && replies == old(replies) + s.errors
              && Slot() == (if old(Slot()).None? then s.complete else old(Slot()))
    {
      hide Crc;
      eaten, commits, stop := true, false, false;
      ghost var was := replies;
      assert was + [] == was;
      match mode
      case RX_IDLE =>
        if b == MAGIC_0 { mode := RX_MAGIC1; } else { eaten := false; }
      case RX_MAGIC1 =>
        if b == MAGIC_1 {
          mode, hdrPos, commits := RX_HEADER, 0, true;
        } else {
          mode, eaten := RX_IDLE, false;
        }
      case RX_HEADER => HeaderByte(b, committed);
      case RX_PAYLOAD =>
        ghost var p := payload[..payloadPos] + [b];
        payload[payloadPos] := b;
        payloadPos := payloadPos + 1;
        assert payload[..payloadPos] == p;
        if payloadPos >= payloadLen { mode := RX_CRC; }
      case RX_CRC =>
        var expected := ComputeCrc(payload, 0, payloadLen);
        if b == expected {
          Publish();
        } else {
          replies := replies + [BadCrc(cmd)];
        }
        mode, stop := RX_IDLE, true;
    }

    /** One USB reception; the result is what the caller may count as taken. */
    method FeedBytes(data: seq<byte>) returns (consumed: nat)
      requires Valid()
      modifies this, hdr, payload, readyPayload
      ensures Valid()
      ensures var f := Feed(old(View()), data);
              && View() == f.rx && consumed == f.consumed && replies == old(replies) + f.errors
              && Slot() == (if old(Slot()).None? then f.complete else old(Slot()))
    {
      hide OnByte;
      consumed := 0;
      var committed := false;
      ghost var errors: seq<Error> := [];
      ghost var was := replies;
      assert was + [] == was;
      for i := 0 to |data|
        invariant Valid() && Slot() == old(Slot()) && replies == was + errors
        invariant FeedFrom(View(), data, i, consumed, committed, errors) == Feed(old(View()), data)
      {
        ghost var s := OnByte(View(), data[i], committed);
        ControlOfByte(View(), data[i], committed);
        assert was + errors + s.errors == was + (errors + s.errors);
        var eaten, commits, stop := Byte(data[i], committed);
        errors := errors + s.errors;
        if stop { return i + 1; }
        if !eaten && !committed { return 0; }
        if eaten { consumed := i + 1; }
        committed := committed || commits;
      }
    }

    method CopyPayload()
      requires Valid()
      modifies frame
      ensures frame[..5] == old(frame[..5]) && frame[5 + readyLen..] == old(frame[5 + readyLen..])
      ensures frame[5..5 + readyLen] == readyPayload[..readyLen]
    {
      for i := 0 to readyLen
        invariant forall j :: 0 <= j < frame.Length ==>
                    frame[j] == if 5 <= j < 5 + i then readyPayload[j - 5] else old(frame[j])
      {
        frame[5 + i] := readyPayload[i];
      }
    }

    /** The frame of the waiting request, rebuilt for the bridge in a buffer that holds more than any request needs. */
    method BuildFrame() returns (n: nat)
      requires Valid() && ready
      modifies frame
      ensures n <= frame.Length && frame[..n] == Frame(Slot().value) && frame[n..] == old(frame[n..])
    {
      hide Crc;
      n := 6 + readyLen;
      frame[0], frame[1], frame[2] := MAGIC_0, MAGIC_1, readyCmd;
      frame[3], frame[4] := readyLen % 256, readyLen / 256 % 256;
      ghost var head: seq<byte> := [MAGIC_0, MAGIC_1, readyCmd, Low(readyLen), High(readyLen)];
      assert frame[..5] == head;
      CopyPayload();
      var crc := ComputeCrc(readyPayload, 0, readyLen);
      frame[5 + readyLen] := crc;
      assert frame[..5] == head && frame[5..5 + readyLen] == readyPayload[..readyLen];
      assert frame[..n] == frame[..5] + frame[5..5 + readyLen] + [crc];
    }

    /** The dispatcher's turn; `bridged` says that configuration commands go to a paired keyboard. The slot is free
        after. */
    method ProcessOne(tables: seq<seq<Entry>>, bridged: bool) returns (turn: Turn)
      requires Valid()
      modifies this`ready, this`replies, frame
      ensures Valid() && turn == TurnOf(old(Slot()), tables, bridged) && Slot() == None && View() == old(View())
      ensures replies == if turn.NoHandler? then old(replies) + [Unknown(turn.cmd)] else old(replies)
    {
      hide FirstHandler, Concat, IsLocal, Frame;
      if !ready { return Nothing; }
      if bridged && !IsLocal(readyCmd) {
        var n := BuildFrame();
        turn := Forwarded(frame[..n]);
      } else {
        var h := FindHandler(tables, readyCmd);
        if h.Some? {
          turn := Handled(h.value, Request(readyCmd, readyPayload[..readyLen]));
        } else {
          replies := replies + [Unknown(readyCmd)];
          turn := NoHandler(readyCmd);
        }
      }
      ready := false;
    }

    /** Give up the assembly and the waiting request. */
    method Reset()
      requires Valid()
      modifies this`mode, this`hdrPos, this`payloadPos, this`ready
      ensures Valid() && View() == Idle && Slot() == None && replies == old(replies)
    {
      mode, hdrPos, payloadPos, ready := RX_IDLE, 0, 0, false;
    }
  }

  /** A call gives its bytes back to the text assembler exactly on a byte that is neither taken nor inside a frame. */
  lemma ControlOfByte(rx: Rx, b: byte, committed: bool)
    requires rx.Valid()
    ensures var s := OnByte(rx, b, committed);
            && (s.control.Text? <==> !s.eaten && !committed)
            && (s.control.Text? ==> s.errors == [] && s.complete.None?)
            && (s.complete.Some? ==> s.control.Stop?)
  {
    hide Crc;
  }
}
