/** The binary CDC protocol: request parser, whole-frame dispatcher, response framing. */
module KsProtocol {
  import opened Wrappers
  import opened Crc8

  const MAGIC_0: byte := 0x4B
  const MAGIC_1: byte := 0x53
  const REPLY_MAGIC_1: byte := 0x52
  const PAYLOAD_MAX := 4096

  datatype Request = Request(cmd: byte, payload: seq<byte>)

  /** Error replies: the parser's own, and the dispatcher's for a command without a handler. */
  datatype Error = Overflow(cmd: byte) | BadCrc(cmd: byte) | Unknown(cmd: byte)

  function Low(n: nat): byte { n % 256 }

  function High(n: nat): byte { n / 256 % 256 }

  function Word(lo: nat, hi: nat): nat { lo + 256 * hi }

  function Frame(r: Request): seq<byte> {
    [MAGIC_0, MAGIC_1, r.cmd, Low(|r.payload|), High(|r.payload|)] + r.payload + [Crc(r.payload)]
  }

  // ---- The incremental parser ----

  datatype Rx =
    | Idle
    | Magic1
    | Header(read: seq<byte>)
    | Payload(cmd: byte, len: nat, read: seq<byte>)
    | AwaitCrc(cmd: byte, payload: seq<byte>)
  {
    ghost predicate Valid() {
      match this
      case Header(read) => |read| < 3
      case Payload(_, len, read) => |read| < len <= PAYLOAD_MAX
      case AwaitCrc(_, payload) => |payload| <= PAYLOAD_MAX
      case _ => true
    }
  }

  function AfterHeader(h: seq<byte>): Rx
    requires |h| == 3
  {
    var len := Word(h[1], h[2]);
    if len > PAYLOAD_MAX then Idle else if len == 0 then AwaitCrc(h[0], []) else Payload(h[0], len, [])
  }

  datatype Control = Continue | Text | Stop

  /** What one byte does; `eaten` says that it moves the count of consumed bytes. */
  datatype Step = Step(rx: Rx, eaten: bool, commits: bool, errors: seq<Error>, complete: Option<Request>,
                       control: Control)

  function OnByte(rx: Rx, b: byte, committed: bool): (s: Step)
    requires rx.Valid()
    ensures s.rx.Valid()
  {
    match rx
    case Idle =>
      if b == MAGIC_0 then Step(Magic1, true, false, [], None, Continue)
      else Step(Idle, false, false, [], None, if committed then Continue else Text)
    case Magic1 =>
      if b == MAGIC_1 then Step(Header([]), true, true, [], None, Continue)
      else Step(Idle, false, false, [], None, if committed then Continue else Text)
    case Header(read) =>
      var h := read + [b];
      if |h| < 3 then Step(Header(h), true, false, [], None, Continue)
      else Step(AfterHeader(h), true, false, if AfterHeader(h).Idle? then [Overflow(h[0])] else [], None, Continue)
    case Payload(cmd, len, read) =>
      var p := read + [b];
      Step(if |p| >= len then AwaitCrc(cmd, p) else Payload(cmd, len, p), true, false, [], None, Continue)
    case AwaitCrc(cmd, payload) =>
      if b == Crc(payload) then Step(Idle, true, false, [], Some(Request(cmd, payload)), Stop)
      else Step(Idle, true, false, [BadCrc(cmd)], None, Stop)
  }

  datatype Fed = Fed(rx: Rx, consumed: nat, errors: seq<Error>, complete: Option<Request>)

  /** The rest of one call, from byte `i` on; `committed` says that a frame start was confirmed in this call. */
  function FeedFrom(rx: Rx, data: seq<byte>, i: nat, consumed: nat, committed: bool, errors: seq<Error>): (f: Fed)
    requires i <= |data| && rx.Valid()
    ensures f.rx.Valid() && errors <= f.errors
    decreases |data| - i
  {
    if i == |data| then Fed(rx, consumed, errors, None)
    else
      var s := OnByte(rx, data[i], committed);
      match s.control
      case Text => Fed(s.rx, 0, errors, None)
      case Stop => Fed(s.rx, i + 1, errors + s.errors, s.complete)
      case Continue =>
        FeedFrom(s.rx, data, i + 1, if s.eaten then i + 1 else consumed, committed || s.commits, errors + s.errors)
  }

  function Feed(rx: Rx, data: seq<byte>): (f: Fed)
    requires rx.Valid()
    ensures f.rx.Valid()
  {
    FeedFrom(rx, data, 0, 0, false, [])
  }

  // ---- Following one framed string ----

  function Declared(s: seq<byte>): nat
    requires |s| >= 5
  {
    Word(s[3], s[4])
  }

  /** A request as long as its header says, its last byte standing for the checksum. */
  predicate Framed(s: seq<byte>) {
    |s| >= 6 && s[0] == MAGIC_0 && s[1] == MAGIC_1 && |s| == 6 + Declared(s)
  }

  function Content(s: seq<byte>): Request
    requires Framed(s)
  {
    Request(s[2], s[5..|s| - 1])
  }

  predicate Sound(s: seq<byte>)
    requires Framed(s)
  {
    Crc(Content(s).payload) == s[|s| - 1]
  }

  /** Where the parser stands after the first `k` bytes. */
  function StateAfter(s: seq<byte>, k: nat): Rx
    requires Framed(s) && k <= |s|
  {
    if k == 0 || k == |s| then Idle
    else if k == 1 then Magic1
    else if k < 5 then Header(s[2..k])
    else if k == |s| - 1 then AwaitCrc(s[2], Content(s).payload)
    else Payload(s[2], Declared(s), s[5..k])
  }

  lemma OneMore(s: seq<byte>, from: nat, k: nat)
    requires from <= k < |s|
    ensures s[from..k + 1] == s[from..k] + [s[k]]
  {
  }

  lemma StepInside(s: seq<byte>, k: nat, committed: bool)
    requires Framed(s) && Declared(s) <= PAYLOAD_MAX && k + 1 < |s|
    ensures StateAfter(s, k).Valid()
    ensures OnByte(StateAfter(s, k), s[k], committed) == Step(StateAfter(s, k + 1), true, k == 1, [], None, Continue)
  {
    hide Crc, Concat;
    if 2 <= k < 5 {
      OneMore(s, 2, k);
      assert k == 4 ==> s[5..5] == [];
    } else if k >= 5 {
      OneMore(s, 5, k);
    }
  }

  /** The end of a call that started after byte `k` of `s`, on data that goes on like `s`. */
  function Following(s: seq<byte>, k: nat, data: seq<byte>): Fed
    requires Framed(s) && k < |s|
  {
    if k + |data| < |s| then Fed(StateAfter(s, k + |data|), |data|, [], None)
    else if Sound(s) then Fed(Idle, |s| - k, [], Some(Content(s)))
    else Fed(Idle, |s| - k, [BadCrc(s[2])], None)
  }

  lemma NoErrors()
    ensures forall e: seq<Error> :: e + [] == e
  {
  }

  lemma {:induction false} FollowsFrame(s: seq<byte>, k: nat, data: seq<byte>, i: nat, committed: bool)
    requires Framed(s) && Declared(s) <= PAYLOAD_MAX && i <= |data| && k + i < |s|
    requires forall j :: 0 <= j < |data| && k + j < |s| ==> data[j] == s[k + j]
    ensures StateAfter(s, k + i).Valid()
    ensures FeedFrom(StateAfter(s, k + i), data, i, i, committed, []) == Following(s, k, data)
    decreases |data| - i
  {
    hide Crc;
    if k + i + 1 < |s| {
      StepInside(s, k + i, committed);
      if i < |data| {
        hide OnByte;
        hide StateAfter;
        FollowsFrame(s, k, data, i + 1, committed || k + i == 1);
        NoErrors();
      }
    } else {
      assert StateAfter(s, k + i) == AwaitCrc(s[2], Content(s).payload);
    }
  }

  // ---- A valid frame, however it is cut ----

  datatype Deliveries = Deliveries(rx: Rx, allConsumed: bool, errors: seq<Error>, complete: seq<Request>)

  /** One call per received piece. */
  function FeedAll(rx: Rx, pieces: seq<seq<byte>>): Deliveries
    requires rx.Valid()
    decreases |pieces|
  {
    if pieces == [] then Deliveries(rx, true, [], [])
    else
      var one := Feed(rx, pieces[0]);
      var more := FeedAll(one.rx, pieces[1..]);
      Deliveries(more.rx, one.consumed == |pieces[0]| && more.allConsumed, one.errors + more.errors,
                 (if one.complete.Some? then [one.complete.value] else []) + more.complete)
  }

  lemma WordOfBytes(n: nat)
    requires n < 0x10000
    ensures Word(Low(n), High(n)) == n
  {
  }

  lemma FrameIsFramed(r: Request)
    requires |r.payload| < 0x10000
    ensures Framed(Frame(r)) && Declared(Frame(r)) == |r.payload| && Content(Frame(r)) == r && Sound(Frame(r))
  {
    WordOfBytes(|r.payload|);
    hide Crc, Word, Low, High;
    assert Frame(r)[5..|Frame(r)| - 1] == r.payload;
  }

  lemma {:induction false} NothingMore(pieces: seq<seq<byte>>)
    requires Concat(pieces) == []
    ensures FeedAll(Idle, pieces) == Deliveries(Idle, true, [], [])
    decreases |pieces|
  {
    if pieces != [] {
      assert pieces[0] == [];
      NothingMore(pieces[1..]);
    }
  }

  lemma SplitSuffix(f: seq<byte>, k: nat, p: seq<byte>, rest: seq<byte>)
    requires k <= |f| && f[k..] == p + rest
    ensures k + |p| <= |f| && rest == f[k + |p|..]
    ensures forall j :: 0 <= j < |p| ==> p[j] == f[k + j]
  {
    assert |p| + |rest| == |f| - k && rest == f[k..][|p|..];
    assert forall j :: 0 <= j < |p| ==> p[j] == f[k..][j];
  }

  lemma OnePiece(f: seq<byte>, k: nat, p: seq<byte>, rest: seq<byte>)
    requires Framed(f) && Declared(f) <= PAYLOAD_MAX && Sound(f) && k < |f| && f[k..] == p + rest
    ensures StateAfter(f, k).Valid()
    ensures k + |p| <= |f| && rest == f[k + |p|..]
    ensures Feed(StateAfter(f, k), p) ==
            if k + |p| < |f| then Fed(StateAfter(f, k + |p|), |p|, [], None) else Fed(Idle, |p|, [], Some(Content(f)))
  {
    hide StateAfter;
    hide Framed;
    hide Sound;
    hide FeedFrom;
    SplitSuffix(f, k, p, rest);
    FollowsFrame(f, k, p, 0, false);
  }

  lemma {:induction false} PiecesFollowFrame(f: seq<byte>, k: nat, pieces: seq<seq<byte>>)
    requires Framed(f) && Declared(f) <= PAYLOAD_MAX && Sound(f) && k < |f| && f[k..] == Concat(pieces)
    ensures StateAfter(f, k).Valid()
    ensures FeedAll(StateAfter(f, k), pieces) == Deliveries(Idle, true, [], [Content(f)])
    decreases |pieces|
  {
    hide StateAfter;
    hide Framed;
    hide Sound;
    hide Content;
    hide Feed;
    var p, rest := pieces[0], Concat(pieces[1..]);
    OnePiece(f, k, p, rest);
    if k + |p| < |f| {
      PiecesFollowFrame(f, k + |p|, pieces[1..]);
    } else {
      NothingMore(pieces[1..]);
    }
  }

  /** Whatever the cuts, every piece of a valid frame is consumed whole and the request comes out once. */
  lemma AnyCutDelivers(r: Request, pieces: seq<seq<byte>>)
    requires |r.payload| <= PAYLOAD_MAX && Frame(r) == Concat(pieces)
    ensures FeedAll(Idle, pieces) == Deliveries(Idle, true, [], [r])
  {
    FrameIsFramed(r);
    assert Frame(r)[0..] == Frame(r);
    PiecesFollowFrame(Frame(r), 0, pieces);
  }

  // ---- The whole-frame dispatcher ----

  datatype Dispatched = Ignored | CrcRefused(cmd: byte) | TooLong(cmd: byte) | Lookup(r: Request)

  function Dispatch(frame: seq<byte>): Dispatched {
    if |frame| < 6 then Ignored
    else if frame[0] != MAGIC_0 || frame[1] != MAGIC_1 then Ignored
    else if Declared(frame) + 6 != |frame| then Ignored
    else if Crc(frame[5..5 + Declared(frame)]) != frame[5 + Declared(frame)] then CrcRefused(frame[2])
    else Lookup(Request(frame[2], frame[5..5 + Declared(frame)]))
  }

  /** The dispatcher looks a request up exactly on its frame. */
  lemma LookedUpIsFrame(s: seq<byte>, r: Request)
    requires |r.payload| < 0x10000
    ensures Dispatch(s) == Lookup(r) <==> s == Frame(r)
  {
    hide Crc;
    FrameIsFramed(r);
    if Dispatch(s) == Lookup(r) {
      FrameOnWire(s, r);
    }
  }

  /** The frame byte by byte: the two magic bytes, the command, the length with its low byte first, the payload and the
      payload's checksum. */
  lemma FrameOnWire(s: seq<byte>, r: Request)
    requires |r.payload| < 0x10000
    ensures s == Frame(r) <==>
              && |s| == 6 + |r.payload| && s[0] == 0x4B && s[1] == 0x53 && s[2] == r.cmd
              && s[3] + 256 * s[4] as int == |r.payload| && s[5..|s| - 1] == r.payload && s[|s| - 1] == Crc(r.payload)
  {
    hide Crc;
    if |s| == 6 + |r.payload| {
      assert s == s[..5] + s[5..|s| - 1] + [s[|s| - 1]];
      assert s[..5] == [s[0], s[1], s[2], s[3], s[4]];
    }
  }

  /** What one call on the whole string amounts to, for a caller that requires it to be consumed entirely. */
  function WholeFeed(s: seq<byte>): Dispatched {
    var fed := Feed(Idle, s);
    if fed.consumed != |s| then Ignored
    else if fed.complete.Some? then Lookup(fed.complete.value)
    else if fed.errors == [] then Ignored
    else if fed.errors[0].Overflow? then TooLong(fed.errors[0].cmd)
    else CrcRefused(fed.errors[0].cmd)
  }

  /** The string starts like a frame and declares more than the parser's buffer holds. */
  predicate Oversized(s: seq<byte>) { |s| >= 5 && s[0] == MAGIC_0 && s[1] == MAGIC_1 && Declared(s) > PAYLOAD_MAX }

  /** Two parsers, one language: feeding a whole string agrees with dispatching it, frame or not, unless it is
      oversized. */
  lemma FeedAgreesWithDispatch(s: seq<byte>)
    requires !Oversized(s)
    ensures WholeFeed(s) == Dispatch(s)
  {
    hide Crc;
    if |s| >= 1 && s[0] != MAGIC_0 {
    } else if |s| >= 2 && s[1] != MAGIC_1 {
      assert Feed(Idle, s) == FeedFrom(Magic1, s, 1, 1, false, []) by { NoErrors(); }
    } else {
      var start: seq<byte> := [MAGIC_0, MAGIC_1, 0, 0, 0];
      var padded := s + (if |s| < 5 then start[|s|..] else []);
      var full := padded + seq(PAYLOAD_MAX + 6, _ => 0);
      var t := full[..6 + Declared(padded)];
      assert Declared(t) == Declared(padded) && Framed(t);
      FollowsFrame(t, 0, s, 0, false);
      if |s| >= |t| {
        assert Content(t).payload == s[5..5 + Declared(s)];
      }
    }
  }

  lemma CompletedIsBounded(rx: Rx, b: byte, committed: bool)
    requires rx.Valid()
    ensures var c := OnByte(rx, b, committed).complete; c.Some? ==> |c.value.payload| <= PAYLOAD_MAX
  {
    hide Crc;
  }

  lemma {:induction false} FedIsBounded(rx: Rx, data: seq<byte>, i: nat, consumed: nat, committed: bool,
                                        errors: seq<Error>)
    requires i <= |data| && rx.Valid()
    ensures var c := FeedFrom(rx, data, i, consumed, committed, errors).complete;
            c.Some? ==> |c.value.payload| <= PAYLOAD_MAX
    decreases |data| - i
  {
    hide OnByte;
    if i < |data| {
      var s := OnByte(rx, data[i], committed);
      CompletedIsBounded(rx, data[i], committed);
      FedIsBounded(s.rx, data, i + 1, if s.eaten then i + 1 else consumed, committed || s.commits, errors + s.errors);
    }
  }

  /** An oversized string, whatever else it holds, is first answered with Overflow. */
  lemma OverflowFirst(s: seq<byte>)
    requires Oversized(s)
    ensures Feed(Idle, s).errors != [] && Feed(Idle, s).errors[0] == Overflow(s[2])
  {
    hide Crc;
    NoErrors();
    assert [] + [Overflow(s[2])] == [Overflow(s[2])];
    assert [] + [s[2]] == [s[2]] && [s[2]] + [s[3]] == [s[2], s[3]];
    var five := FeedFrom(Idle, s, 5, 5, true, [Overflow(s[2])]);
    assert five == FeedFrom(Header([s[2], s[3]]), s, 4, 4, true, []);
    assert five == FeedFrom(Header([s[2]]), s, 3, 3, true, []);
    assert five == FeedFrom(Header([]), s, 2, 2, true, []);
    assert five == FeedFrom(Magic1, s, 1, 1, false, []);
  }

  /** On any byte string at all, the two agree exactly if it is not oversized, or is not framed and its feeding hands
      some of it back: then both ignore it. */
  lemma AgreeExactly(s: seq<byte>)
    ensures WholeFeed(s) == Dispatch(s) <==> !Oversized(s) || (!Framed(s) && Feed(Idle, s).consumed != |s|)
  {
    if Oversized(s) {
      OverflowFirst(s);
      FedIsBounded(Idle, s, 0, 0, false, []);
      hide Crc, FeedFrom;
    } else {
      FeedAgreesWithDispatch(s);
    }
  }

  /** On framed strings, whatever their checksum, the two agree exactly up to 4096 bytes of payload. */
  lemma AgreeUpToBound(s: seq<byte>)
    requires Framed(s)
    ensures WholeFeed(s) == Dispatch(s) <==> Declared(s) <= PAYLOAD_MAX
  {
    AgreeExactly(s);
    hide Crc, FeedFrom, WholeFeed, Dispatch;
  }

  /** A correct frame that declares more is dispatched, but the parser's first answer to it is Overflow. */
  lemma OversizedFramesDiffer(r: Request)
    requires PAYLOAD_MAX < |r.payload| < 0x10000
    ensures Dispatch(Frame(r)) == Lookup(r) != WholeFeed(Frame(r))
    ensures Feed(Idle, Frame(r)).errors != [] && Feed(Idle, Frame(r)).errors[0] == Overflow(r.cmd)
  {
    FrameIsFramed(r);
    AgreeUpToBound(Frame(r));
    OverflowFirst(Frame(r));
    hide Crc, FeedFrom, WholeFeed;
  }

  /** An oversized string on which the two agree all the same: six bytes that declare 5000. */
  lemma ShortOversized(cmd: byte)
    ensures var s := [MAGIC_0, MAGIC_1, cmd, 0x88, 0x13, 0];
            Oversized(s) && WholeFeed(s) == Dispatch(s) == Ignored
  {
    var s: seq<byte> := [MAGIC_0, MAGIC_1, cmd, 0x88, 0x13, 0];
    NoErrors();
    hide Crc;
    assert [] + [Overflow(cmd)] == [Overflow(cmd)];
    assert [] + [cmd] == [cmd] && [cmd] + [s[3]] == [cmd, s[3]];
    var six := FeedFrom(Idle, s, 6, 5, true, [Overflow(cmd)]);
    assert [Overflow(cmd)] + [] == [Overflow(cmd)];
    assert six == FeedFrom(Idle, s, 5, 5, true, [Overflow(cmd)]);
    assert six == FeedFrom(Header([cmd, s[3]]), s, 4, 4, true, []);
    assert six == FeedFrom(Header([cmd]), s, 3, 3, true, []);
    assert six == FeedFrom(Header([]), s, 2, 2, true, []);
    assert six == FeedFrom(Magic1, s, 1, 1, false, []);
  }
}
