/** The CCID driver's statics and buffers; every callback is one step of the protocol. */
module CcidDriver {
  import opened Wrappers
  import opened Ccid

  const DATA_BLOCK: byte := 0x80
  const SLOT_STATUS_REPLY: byte := 0x81

  /** A four-byte little-endian length. */
  function DwLength(b: seq<byte>): nat
    requires |b| >= 5
  {
    b[1] + 0x100 * b[2] as int + 0x10000 * b[3] as int + 0x1000000 * b[4] as int
  }

  function Header(msgType: byte, tag: Tag, dataLen: nat, status: byte, error: byte): seq<byte> {
    [msgType, dataLen % 256, dataLen / 256 % 256, 0, 0, tag.slot, tag.seqNo, status, error, 0]
  }

  function InlineAnswer(msgType: byte, tag: Tag, atr: seq<byte>): seq<byte> {
    if msgType == POWER_ON then Header(DATA_BLOCK, tag, |atr|, 0, 0) + atr else Header(SLOT_STATUS_REPLY, tag, 0, 0, 0)
  }

  /** The bytes of every kind of frame the driver sends: a data block with its length in the first two of four bytes,
      low byte first, the state of the card on anything else, and a time extension. */
  lemma FramesOnWire(msgType: byte, tag: Tag, body: seq<byte>)
    requires |body| < 0x10000
    ensures var b := Header(DATA_BLOCK, tag, |body|, 0, 0) + body;
            && |b| == 10 + |body| && b[0] == 0x80 && b[1] + 0x100 * b[2] as int == |body| && b[3] == b[4] == 0
            && b[5..10] == [tag.slot, tag.seqNo, 0, 0, 0] && b[10..] == body
    ensures InlineAnswer(msgType, tag, body)
            == if msgType == 0x62 then Header(DATA_BLOCK, tag, |body|, 0, 0) + body
               else [0x81, 0, 0, 0, 0, tag.slot, tag.seqNo, 0, 0, 0]
    ensures Header(DATA_BLOCK, tag, 0, 0x80, 0x02) == [0x80, 0, 0, 0, 0, tag.slot, tag.seqNo, 0x80, 2, 0]
  {
  }

  class Driver {
    const outBuf: array<byte>
    const inBuf: array<byte>
    const wtxBuf: array<byte>
    var epIn: byte               // the IN endpoint's address; 0 while the interface is closed
    var busy: bool
    var finalQueued: bool
    var curSlot: byte
    var curSeq: byte
    var respLen: nat
    var pending: bool
    var working: bool
    // The USB stack: the armed OUT read, the IN endpoint, the deferred calls.
    var outPrimed: bool
    var inFlight: Transfer
    var queue: seq<Deferred>
    // What happened so far.
    ghost var log: Log

    ghost predicate Valid()
      reads this, outBuf
    {
      && outBuf.Length == BUF_SIZE && inBuf.Length == BUF_SIZE && wtxBuf.Length == HDR_LEN
      && outBuf != inBuf && inBuf != wtxBuf && outBuf != wtxBuf
      && (pending || working ==> outBuf[1] + 0x100 * outBuf[2] as int <= BUF_SIZE - HDR_LEN)
    }

    ghost function View(): State
      requires Valid()
      reads this, inBuf, outBuf
    {
      State(outPrimed, inFlight, queue, busy, finalQueued, Tag(curSlot, curSeq), pending, working,
            Tag(inBuf[5], inBuf[6]), log)
    }

    constructor (epIn: byte)
      ensures Valid() && fresh(outBuf) && fresh(inBuf) && fresh(wtxBuf) && View() == START && this.epIn == epIn
    {
      this.epIn := epIn;
      outBuf := new byte[BUF_SIZE](_ => 0);
      inBuf := new byte[BUF_SIZE](_ => 0);
      wtxBuf := new byte[HDR_LEN](_ => 0);
      busy, finalQueued, curSlot, curSeq, respLen, pending, working := false, false, 0, 0, 0, false, false;
      outPrimed, inFlight, queue := true, Nothing, [];
      log := Log([], [], [], 1, 0, false, 0);
    }

    method PrimeOut()
      requires Valid()
      modifies this`outPrimed, this`log
      ensures Valid() && View() == Primed(old(View()))
    {
      log := if outPrimed then log.(refused := log.refused + 1) else log.(primes := log.primes + 1);
      outPrimed := true;
    }

    method FillHeader(msgType: byte, tag: Tag, dataLen: nat) returns (n: nat)
      requires Valid()
      modifies inBuf
      ensures Valid() && n == HDR_LEN + dataLen && View() == old(View()).(reply := tag)
      ensures inBuf[..HDR_LEN] == Header(msgType, tag, dataLen, 0, 0) && inBuf[HDR_LEN..] == old(inBuf[HDR_LEN..])
    {
      inBuf[0], inBuf[1], inBuf[2], inBuf[3], inBuf[4] := msgType, dataLen % 256, dataLen / 256 % 256, 0, 0;
      inBuf[5], inBuf[6], inBuf[7], inBuf[8], inBuf[9] := tag.slot, tag.seqNo, 0, 0, 0;
      n := HDR_LEN + dataLen;
    }

    /** Queue the IN buffer as a final answer; the stack refuses when the endpoint is busy. */
    method QueueFinal()
      requires Valid()
      modifies this`finalQueued, this`inFlight, this`log
      ensures Valid() && View() == StartFinal(old(View()))
    {
      finalQueued := true;
      if inFlight.Nothing? {
        inFlight := Final(Tag(inBuf[5], inBuf[6]));
        log := log.(sent := log.sent + [Tag(inBuf[5], inBuf[6])]);
      } else {
        log := log.(refused := log.refused + 1);
      }
    }

    method Runt()
      requires Valid()
      modifies this`outPrimed, this`log
      ensures Valid() && View() == DispatchRunt(old(View()))
    {
      outPrimed, log := false, log.(runts := log.runts + 1);
      if !busy { PrimeOut(); }
    }

    method WriteLength(dwLength: nat)
      requires outBuf.Length == BUF_SIZE && dwLength < 0x10000
      modifies outBuf
      ensures outBuf[1] + 0x100 * outBuf[2] as int == dwLength && outBuf[3] == outBuf[4] == 0
      ensures outBuf[0] == old(outBuf[0]) && outBuf[5..] == old(outBuf[5..])
    {
      outBuf[1], outBuf[2], outBuf[3], outBuf[4] := dwLength % 256, dwLength / 256 % 256, 0, 0;
    }

    /** Write the clamped length back and wake the worker. */
    method GiveToWorker(tag: Tag, dwLength: nat)
      requires Valid() && dwLength <= BUF_SIZE - HDR_LEN
      modifies this`outPrimed, this`log, this`curSlot, this`curSeq, this`busy, this`pending, outBuf
      ensures Valid() && View() == Dispatch(old(View()), XFR_BLOCK, tag)
      ensures outBuf[1] + 0x100 * outBuf[2] as int == dwLength && outBuf[5..] == old(outBuf[5..])
    {
      outPrimed, log := false, log.(received := log.received + [tag]);
      WriteLength(dwLength);
      curSlot, curSeq, busy, pending := tag.slot, tag.seqNo, true, true;
    }

    method CopyBody(bytes: seq<byte>)
      requires Valid() && |bytes| <= BUF_SIZE - HDR_LEN
      modifies inBuf
      ensures inBuf[..HDR_LEN] == old(inBuf[..HDR_LEN]) && inBuf[HDR_LEN..HDR_LEN + |bytes|] == bytes
    {
      for i := 0 to |bytes|
        invariant inBuf[..HDR_LEN] == old(inBuf[..HDR_LEN]) && inBuf[HDR_LEN..HDR_LEN + i] == bytes[..i]
      {
        inBuf[HDR_LEN + i] := bytes[i];
      }
    }

    /** A data block: the body, then the header in front of it. */
    method BuildDataBlock(tag: Tag, body: seq<byte>) returns (n: nat)
      requires Valid() && |body| <= BUF_SIZE - HDR_LEN
      modifies inBuf
      ensures Valid() && View() == old(View()).(reply := tag) && n == HDR_LEN + |body|
      ensures inBuf[..n] == Header(DATA_BLOCK, tag, |body|, 0, 0) + body
    {
      CopyBody(body);
      ghost var rest := inBuf[HDR_LEN..];
      assert rest[..|body|] == body;
      n := FillHeader(DATA_BLOCK, tag, |body|);
      hide Header;
      assert inBuf[HDR_LEN..n] == inBuf[HDR_LEN..][..|body|];
      assert inBuf[..n] == inBuf[..HDR_LEN] + inBuf[HDR_LEN..n];
    }

    /** Power and status requests are answered on the spot. */
    method AnswerInline(msgType: byte, tag: Tag, atr: seq<byte>)
      requires Valid() && msgType != XFR_BLOCK && |atr| == ATR_LEN
      modifies this`outPrimed, this`log, this`respLen, this`finalQueued, this`inFlight, inBuf
      ensures Valid() && View() == Dispatch(old(View()), msgType, tag)
      ensures respLen <= BUF_SIZE && inBuf[..respLen] == InlineAnswer(msgType, tag, atr)
    {
      hide Header;
      outPrimed, log := false, log.(received := log.received + [tag]);
      if msgType == POWER_ON {
        respLen := BuildDataBlock(tag, atr);
      } else {
        respLen := FillHeader(SLOT_STATUS_REPLY, tag, 0);
      }
      QueueFinal();
    }

    /** A bulk OUT transfer of `xferred` bytes ended. */
    method OutComplete(xferred: nat, atr: seq<byte>)
      requires Valid() && xferred <= BUF_SIZE && |atr| == ATR_LEN
      modifies this, outBuf, inBuf
      ensures Valid()
      ensures View() == if xferred < HDR_LEN then DispatchRunt(old(View()))
                        else Dispatch(old(View()), old(outBuf[0]), Tag(old(outBuf[5]), old(outBuf[6])))
      ensures outBuf[5..] == old(outBuf[5..])
      ensures xferred >= HDR_LEN && old(outBuf[0]) == XFR_BLOCK ==>
                outBuf[1] + 0x100 * outBuf[2] as int == Min(DwLength(old(outBuf[..])), xferred - HDR_LEN)
      ensures xferred >= HDR_LEN && old(outBuf[0]) != XFR_BLOCK ==>
                var tag := Tag(old(outBuf[5]), old(outBuf[6]));
                respLen <= BUF_SIZE && inBuf[..respLen] == InlineAnswer(old(outBuf[0]), tag, atr)
    {
      hide Dispatch, InlineAnswer;
      if xferred < HDR_LEN {
        Runt();
        return;
      }
      var msgType, tag := outBuf[0], Tag(outBuf[5], outBuf[6]);
      var dwLength := DwLength(outBuf[..]);
      if dwLength > xferred - HDR_LEN { dwLength := xferred - HDR_LEN; }
      if msgType == XFR_BLOCK {
        GiveToWorker(tag, dwLength);
      } else {
        AnswerInline(msgType, tag, atr);
      }
    }

    /** The worker takes the message it was woken for. */
    method Take()
      requires Valid() && pending && !working
      modifies this`pending, this`working
      ensures Valid() && View() == Next(old(View()), WorkerTake)
    {
      pending, working := false, true;
    }

    /** While waiting for a touch, the worker asks for a time-extension frame. */
    method DeferWtx()
      requires Valid() && working
      modifies this`queue
      ensures Valid() && View() == Next(old(View()), WorkerWtx)
    {
      queue := queue + [SendWtx];
    }

    /** What the worker hands to the applet: as many bytes as the clamped length says. */
    method Request() returns (apdu: seq<byte>)
      requires Valid() && working
      ensures apdu == outBuf[HDR_LEN..HDR_LEN + outBuf[1] + 0x100 * outBuf[2] as int]
    {
      var n := outBuf[1] + 0x100 * outBuf[2] as int;
      apdu := outBuf[HDR_LEN..HDR_LEN + n];
    }

    /** The applet's answer goes behind the header, and its sending is deferred to the USB task. */
    method Process(answer: seq<byte>)
      requires Valid() && working && |answer| <= BUF_SIZE - HDR_LEN
      modifies this`respLen, this`queue, this`working, inBuf
      ensures Valid() && View() == Next(old(View()), WorkerDone)
      ensures respLen == HDR_LEN + |answer|
      ensures inBuf[..respLen] == Header(DATA_BLOCK, Tag(curSlot, curSeq), |answer|, 0, 0) + answer
    {
      respLen := BuildDataBlock(Tag(curSlot, curSeq), answer);
      queue, working := queue + [SendFinal(0)], false;
    }

    method SendWtxCallback()
      requires Valid()
      modifies this`inFlight, wtxBuf
      ensures Valid() && View() == if epIn == 0 then old(View()) else RunCallback(old(View()), SendWtx)
      ensures epIn != 0 && old(inFlight) == Nothing ==>
                wtxBuf[..] == Header(DATA_BLOCK, Tag(curSlot, curSeq), 0, 0x80, 0x02)
    {
      if epIn == 0 || !inFlight.Nothing? { return; }
      wtxBuf[0], wtxBuf[1], wtxBuf[2], wtxBuf[3], wtxBuf[4] := DATA_BLOCK, 0, 0, 0, 0;
      wtxBuf[5], wtxBuf[6], wtxBuf[7], wtxBuf[8], wtxBuf[9] := curSlot, curSeq, 0x80, 0x02, 0;
      inFlight := Wtx(Tag(curSlot, curSeq));
    }

    method SendFinalCallback(retries: nat)
      requires Valid()
      modifies this`finalQueued, this`busy, this`inFlight, this`log, this`queue
      ensures Valid()
      ensures View() == if epIn == 0 then old(View()).(finalQueued := false, busy := false)
                        else RunCallback(old(View()), SendFinal(retries))
    {
      if epIn == 0 {
        finalQueued, busy := false, false;
        return;
      }
      if !inFlight.Nothing? {
        if retries < MAX_RETRIES { queue := queue + [SendFinal(retries + 1)]; } else { log := log.(abandoned := true); }
        return;
      }
      QueueFinal();
    }

    /** The USB task runs the oldest deferred call. */
    method RunDeferredCall()
      requires Valid() && queue != []
      modifies this, wtxBuf
      ensures Valid() && epIn == old(epIn) && (epIn != 0 ==> View() == Next(old(View()), RunDeferred))
    {
      var head := queue[0];
      queue := queue[1..];
      match head
      case SendWtx => SendWtxCallback();
      case SendFinal(retries) => SendFinalCallback(retries);
    }

    /** A bulk IN transfer ended; `accepted` says whether the stack takes the empty packet, if one is due. Without it
        the driver recovers at once. */
    method InCompleted(bytes: nat, accepted: bool)
      requires Valid() && !inFlight.Nothing? && (inFlight.ZeroLength? ==> bytes == 0)
      modifies this`inFlight, this`finalQueued, this`busy, this`outPrimed, this`log
      ensures Valid()
      ensures View() == if old(finalQueued) && bytes > 0 && bytes % PACKET == 0 && !accepted
                        then Primed(old(View()).(inFlight := Nothing, finalQueued := false, busy := false))
                        else Next(old(View()), InComplete(bytes))
    {
      inFlight := Nothing;
      if finalQueued {
        if bytes > 0 && bytes % PACKET == 0 {
          if accepted {
            inFlight := ZeroLength(Tag(inBuf[5], inBuf[6]));
          } else {
            finalQueued, busy := false, false;
            PrimeOut();
          }
          return;
        }
        finalQueued, busy, log := false, false, log.(delivered := log.delivered + [Tag(inBuf[5], inBuf[6])]);
        PrimeOut();
      }
    }
  }
}
