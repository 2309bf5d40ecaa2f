/** The 5 V handshake of one half, and two halves joined by a lossy, delaying, duplicating line. */
module LinkHandshake {
  import opened Wrappers

  const PROBE_TIMEOUT_MS := 200
  const PEER_TIMEOUT_MS := 500
  const REPROBE_INTERVAL_MS := 300

  /** `Corrupt` stands for every value outside the enumeration. */
  datatype Mode = IDLE | PROBING | UP | Corrupt

  datatype Event = TICK | USB_PRESENT | USB_GONE | PEER_ACK | PEER_FRAME | PROBED

  datatype Action = NONE | SEND_PROBE | ENABLE_5V | DISABLE_5V | ACK_AND_ENABLE_5V

  datatype Half = Half(mode: Mode, since: u32, lastPeer: u32, usb: bool, en5v: bool)

  const INITIAL := Half(IDLE, 0, 0, false, false)

  predicate SignOfLife(ev: Event) { ev == PEER_ACK || ev == PEER_FRAME || ev == PROBED }

  datatype Moved = Moved(half: Half, action: Action)

  function Step(h: Half, ev: Event, now: u32): Moved {
    if ev == USB_GONE then
      Moved(h.(usb := false, en5v := false, mode := IDLE, since := now), if h.en5v then DISABLE_5V else NONE)
    else
      var g := h.(usb := h.usb || ev == USB_PRESENT, lastPeer := if SignOfLife(ev) then now else h.lastPeer);
      if ev == PROBED then Moved(g.(mode := UP, since := now, en5v := true), ACK_AND_ENABLE_5V)
      else
        match g.mode
        case IDLE =>
          if ev == USB_PRESENT || (ev == TICK && g.usb && Elapsed(now, g.since) >= REPROBE_INTERVAL_MS)
          then Moved(g.(mode := PROBING, since := now), SEND_PROBE)
          else Moved(g, NONE)
        case PROBING =>
          if ev == PEER_ACK then Moved(g.(mode := UP, since := now, en5v := true), ENABLE_5V)
          else if Elapsed(now, g.since) >= PROBE_TIMEOUT_MS then Moved(g.(mode := IDLE, since := now), NONE)
          else Moved(g, NONE)
        case UP =>
          if Elapsed(now, g.lastPeer) >= PEER_TIMEOUT_MS
          then Moved(g.(mode := IDLE, since := now, en5v := false), DISABLE_5V)
          else Moved(g, NONE)
        case Corrupt => Moved(g.(mode := IDLE, en5v := false), NONE)
  }

  class Machine {
    var mode: Mode
    var since: u32
    var lastPeer: u32
    var usb: bool
    var en5v: bool

    function View(): Half
      reads this
    {
      Half(mode, since, lastPeer, usb, en5v)
    }

    method Init()
      modifies this
      ensures View() == INITIAL
    {
      mode, since, lastPeer, usb, en5v := IDLE, 0, 0, false, false;
    }

    method Advance(ev: Event, now: u32) returns (action: Action)
      modifies this
      ensures Moved(View(), action) == Step(old(View()), ev, now)
    {
      if ev == USB_GONE {
        usb := false;
        if en5v {
          en5v, mode, since := false, IDLE, now;
          return DISABLE_5V;
        }
        mode, since := IDLE, now;
        return NONE;
      }
      if ev == USB_PRESENT { usb := true; }
      if ev == PEER_ACK || ev == PEER_FRAME || ev == PROBED { lastPeer := now; }
      if ev == PROBED {
        mode, since, en5v := UP, now, true;
        return ACK_AND_ENABLE_5V;
      }
      match mode
      case IDLE =>
        if ev == USB_PRESENT {
          mode, since := PROBING, now;
          return SEND_PROBE;
        }
        if ev == TICK && usb && Elapsed(now, since) >= REPROBE_INTERVAL_MS {
          mode, since := PROBING, now;
          return SEND_PROBE;
        }
        return NONE;
      case PROBING =>
        if ev == PEER_ACK {
          mode, since, en5v := UP, now, true;
          return ENABLE_5V;
        }
        if Elapsed(now, since) >= PROBE_TIMEOUT_MS { mode, since := IDLE, now; }
        return NONE;
      case UP =>
        if Elapsed(now, lastPeer) >= PEER_TIMEOUT_MS {
          en5v, mode, since := false, IDLE, now;
          return DISABLE_5V;
        }
        return NONE;
      case Corrupt =>
        mode, en5v := IDLE, false;
        return NONE;
    }
  }

  // ---- One half, any events at any times ----

  datatype Input = Input(ev: Event, now: u32)

  datatype Run = Run(half: Half, actions: seq<Action>)

  function Exec(inputs: seq<Input>): Run {
    if inputs == [] then Run(INITIAL, [])
    else
      var r := Exec(inputs[..|inputs| - 1]);
      var last := inputs[|inputs| - 1];
      var m := Step(r.half, last.ev, last.now);
      Run(m.half, r.actions + [m.action])
  }

  /** The load switch, as its driver sees it. */
  predicate SwitchClosed(actions: seq<Action>) {
    if actions == [] then false
    else
      match actions[|actions| - 1]
      case ENABLE_5V => true
      case ACK_AND_ENABLE_5V => true
      case DISABLE_5V => false
      case _ => SwitchClosed(actions[..|actions| - 1])
  }

  /** The flag, the state and the switch always agree. */
  lemma {:induction false} FlagIsSwitch(inputs: seq<Input>)
    ensures var r := Exec(inputs);
            r.half.mode != Corrupt && (r.half.en5v <==> r.half.mode == UP) && (r.half.en5v <==> SwitchClosed(r.actions))
  {
    if inputs != [] {
      var front := inputs[..|inputs| - 1];
      FlagIsSwitch(front);
      var r := Exec(inputs);
      assert r.actions[..|r.actions| - 1] == Exec(front).actions;
    }
  }

  /** Only a verified exchange closes the switch: a probe received, or an acknowledgement of one's own probe. */
  lemma ClosesOnExchangeOnly(inputs: seq<Input>, ev: Event, now: u32)
    ensures var h := Exec(inputs).half; var m := Step(h, ev, now);
            !h.en5v && m.half.en5v <==> !h.en5v && (ev == PROBED || (ev == PEER_ACK && h.mode == PROBING))
  {
    FlagIsSwitch(inputs);
  }

  lemma {:induction false} SilenceNeverCloses(inputs: seq<Input>)
    requires forall i :: i in inputs ==> i.ev != PROBED && i.ev != PEER_ACK
    ensures !Exec(inputs).half.en5v && forall a :: a in Exec(inputs).actions ==> a == NONE || a == SEND_PROBE
  {
    if inputs != [] {
      var front, last := inputs[..|inputs| - 1], inputs[|inputs| - 1];
      assert last in inputs && forall i :: i in front ==> i in inputs;
      SilenceNeverCloses(front);
      FlagIsSwitch(front);
    }
  }

  /** With the last sign of life at time t0, a step at t1 that is not one itself leaves the switch closed exactly when
      it was closed, USB is not lost, and t1 - t0 is under 500 ms modulo 2^32; so within one turn of the clock 500 ms
      always open it. */
  lemma SilenceOpens(inputs: seq<Input>, ev: Event, t0: nat, t1: nat)
    requires t0 <= t1 && Exec(inputs).half.lastPeer == t0 % U32 && !SignOfLife(ev)
    ensures var h := Exec(inputs).half;
            Step(h, ev, t1 % U32).half.en5v <==> h.en5v && ev != USB_GONE && (t1 - t0) % U32 < PEER_TIMEOUT_MS
    ensures PEER_TIMEOUT_MS <= t1 - t0 < U32 ==> !Step(Exec(inputs).half, ev, t1 % U32).half.en5v
  {
    FlagIsSwitch(inputs);
    ModularDifference(t0, t1);
  }

  lemma ModularDifference(t0: nat, t1: nat)
    requires t0 <= t1
    ensures Elapsed(t1 % U32, t0 % U32) == (t1 - t0) % U32
  {
    var d := t1 - t0;
    var q0, q1, q := t0 / U32, t1 / U32, d / U32;
    assert t1 % U32 - t0 % U32 == d % U32 + U32 * (q - q1 + q0);
    assert -1 <= q - q1 + q0 <= 0;
  }

  /** A structure that was never initialised is brought to the safe side by any event but a probe, whatever it held. */
  lemma CorruptStateIsSafe(h: Half, ev: Event, now: u32)
    requires h.mode == Corrupt && ev != PROBED
    ensures var g := Step(h, ev, now).half; g.mode == IDLE && !g.en5v
  {
  }

  // ---- Two halves ----

  datatype Side = Left | Right {
    function Other(): Side { if Left? then Right else Left }
  }

  datatype Message = Probe | Ack | MatrixFrame

  /** One half, and everything it ever put on the line: delivery may lose, delay, repeat and reorder. */
  datatype End = End(half: Half, line: set<Message>, closedOnce: bool, powered: bool)

  datatype Pair = Pair(left: End, right: End) {
    function At(s: Side): End { if s.Left? then left else right }

    function With(s: Side, e: End): Pair { if s.Left? then this.(left := e) else this.(right := e) }
  }

  datatype Move =
    | Local(side: Side, ev: Event, now: u32)
    | SendMatrix(side: Side)
    | Deliver(to: Side, m: Message, now: u32)

  const UNPLUGGED := End(INITIAL, {}, false, false)

  function Sends(a: Action): set<Message> {
    match a
    case SEND_PROBE => {Probe}
    case ACK_AND_ENABLE_5V => {Ack}
    case _ => {}
  }

  predicate Closes(a: Action) { a == ENABLE_5V || a == ACK_AND_ENABLE_5V }

  function Fire(e: End, ev: Event, now: u32): End {
    var m := Step(e.half, ev, now);
    End(m.half, e.line + Sends(m.action), e.closedOnce || Closes(m.action), e.powered || ev == USB_PRESENT)
  }

  function EventOf(m: Message): Event {
    match m
    case Probe => PROBED
    case Ack => PEER_ACK
    case MatrixFrame => PEER_FRAME
  }

  function Next(p: Pair, move: Move): Pair {
    match move
    case Local(side, ev, now) => if SignOfLife(ev) then p else p.With(side, Fire(p.At(side), ev, now))
    case SendMatrix(side) => p.With(side, p.At(side).(line := p.At(side).line + {MatrixFrame}))
    case Deliver(to, m, now) =>
      if m !in p.At(to.Other()).line then p else p.With(to, Fire(p.At(to), EventOf(m), now))
  }

  function Play(moves: seq<Move>): Pair {
    if moves == [] then Pair(UNPLUGGED, UNPLUGGED) else Next(Play(moves[..|moves| - 1]), moves[|moves| - 1])
  }

  ghost predicate EndInv(e: End, other: End) {
    && e.half.mode != Corrupt
    && (e.half.en5v <==> e.half.mode == UP)
    && (e.half.en5v ==> e.closedOnce)
    && (e.half.usb || e.half.mode == PROBING ==> e.powered)
    && (Probe in e.line ==> e.powered)
    && (e.half.mode == PROBING ==> Probe in e.line)
    && (Ack in e.line ==> e.closedOnce)
    && (e.closedOnce ==> other.powered || (other.closedOnce && e.powered))
  }

  ghost predicate Inv(p: Pair) { EndInv(p.left, p.right) && EndInv(p.right, p.left) }

  /** What one event does to a half, given what the other half put on the line. */
  lemma FireKeepsInv(e: End, other: End, ev: Event, now: u32)
    requires EndInv(e, other) && EndInv(other, e)
    requires ev == PROBED ==> Probe in other.line
    requires ev == PEER_ACK ==> Ack in other.line
    ensures EndInv(Fire(e, ev, now), other) && EndInv(other, Fire(e, ev, now))
  {
  }

  lemma {:induction false} PlayKeepsInv(moves: seq<Move>)
    ensures Inv(Play(moves))
  {
    if moves != [] {
      var p, move := Play(moves[..|moves| - 1]), moves[|moves| - 1];
      PlayKeepsInv(moves[..|moves| - 1]);
      hide Fire;
      match move
      case Local(side, ev, now) =>
        if !SignOfLife(ev) { FireKeepsInv(p.At(side), p.At(side.Other()), ev, now); }
      case SendMatrix(side) =>
      case Deliver(to, m, now) =>
        if m in p.At(to.Other()).line { FireKeepsInv(p.At(to), p.At(to.Other()), EventOf(m), now); }
    }
  }

  /** In every run of the pair: a half that would close on an acknowledgement is the second to close; a closed switch
      means a host cable was seen on one side; and each half has its flag set exactly when it is up. */
  lemma NoSparkOnPlug(moves: seq<Move>, to: Side, now: u32)
    ensures var e, other := Play(moves).At(to), Play(moves).At(to.Other());
            && (Ack in other.line && Step(e.half, PEER_ACK, now).action == ENABLE_5V ==> other.closedOnce)
            && (e.half.en5v ==> e.powered || other.powered)
            && (e.half.en5v <==> e.half.mode == UP)
  {
    PlayKeepsInv(moves);
  }

  /** A half whose peer's probes and acknowledgements are all lost never closes. */
  lemma {:induction false} UnheardNeverCloses(moves: seq<Move>, side: Side)
    requires forall m :: m in moves && m.Deliver? && m.to == side ==> m.m == MatrixFrame
    ensures !Play(moves).At(side).closedOnce
  {
    if moves != [] {
      var front, move := moves[..|moves| - 1], moves[|moves| - 1];
      assert move in moves && forall m :: m in front ==> m in moves;
      UnheardNeverCloses(front, side);
      PlayKeepsInv(front);
    }
  }

  /** A line that works brings both halves up: probe delivered, acknowledgement delivered. */
  lemma ExchangeBringsBothUp(moves: seq<Move>, side: Side, t1: u32, t2: u32)
    ensures var p := Play(moves); var other := side.Other();
            var q := Next(Next(p, Deliver(other, Probe, t1)), Deliver(side, Ack, t2));
            p.At(side).half.mode == PROBING && Probe in p.At(side).line ==>
              q.At(side).half.en5v && q.At(other).half.en5v
  {
    hide Play;
    var p := Play(moves);
    if p.At(side).half.mode == PROBING && Probe in p.At(side).line {
      var q := Next(p, Deliver(side.Other(), Probe, t1));
      assert q.At(side) == p.At(side) && Ack in q.At(side.Other()).line && q.At(side.Other()).half.en5v;
    }
  }

  // ---- Recovery ----

  function Later(now: u32, ms: nat): u32 { (now + ms) % U32 }

  function PlayFrom(p: Pair, moves: seq<Move>): Pair
    decreases |moves|
  {
    if moves == [] then p else PlayFrom(Next(p, moves[0]), moves[1..])
  }

  lemma {:induction false} PlayOn(moves: seq<Move>, more: seq<Move>)
    ensures Play(moves + more) == PlayFrom(Play(moves), more)
    decreases |more|
  {
    if more == [] {
      assert moves + more == moves;
    } else {
      assert moves + more == moves + [more[0]] + more[1..];
      assert (moves + [more[0]])[..|moves|] == moves;
      hide Next;
      PlayOn(moves + [more[0]], more[1..]);
    }
  }

  /** Everything ever sent is lost. */
  function Silenced(p: Pair): Pair { p.(left := p.left.(line := {}), right := p.right.(line := {})) }

  /** Waiting `ms` more, if need be, puts at least `ms` between the clock and an earlier reading. */
  lemma WaitLongEnough(now: u32, since: u32, ms: nat) returns (t: u32)
    requires ms <= 1000
    ensures Elapsed(t, since) >= ms && Elapsed(t, now) <= ms
  {
    if Elapsed(now, since) >= ms {
      t := now;
    } else {
      t := Later(now, ms);
      assert Elapsed(t, since) == Elapsed(now, since) + ms;
    }
  }

  lemma PlayTwo(p: Pair, a: Move, b: Move)
    ensures PlayFrom(p, [a, b]) == Next(Next(p, a), b)
  {
    hide Next;
    assert [a, b][1..] == [b] && [b][1..] == [];
    assert PlayFrom(Next(p, a), [b]) == PlayFrom(Next(Next(p, a), b), []);
  }

  /** A half in PROBING whose probe is on the line, and a line that delivers: both come up. */
  lemma ProbingGoesUp(p: Pair, side: Side, now: u32)
    requires p.At(side).half.mode == PROBING && Probe in p.At(side).line
    ensures var q := PlayFrom(p, [Deliver(side.Other(), Probe, now), Deliver(side, Ack, now)]);
            q.left.half.en5v && q.right.half.en5v
  {
    var q := Next(p, Deliver(side.Other(), Probe, now));
    assert q.At(side) == p.At(side) && Ack in q.At(side.Other()).line && q.At(side.Other()).half.en5v;
    PlayTwo(p, Deliver(side.Other(), Probe, now), Deliver(side, Ack, now));
  }

  /** An idle half with USB sends a probe of its own after 300 ms, whatever is on the line. */
  lemma IdleGoesUp(p: Pair, side: Side, t: u32)
    requires var h := p.At(side).half; h.mode == IDLE && h.usb && Elapsed(t, h.since) >= REPROBE_INTERVAL_MS
    ensures var q := PlayFrom(p, [Local(side, TICK, t), Deliver(side.Other(), Probe, t), Deliver(side, Ack, t)]);
            q.left.half.en5v && q.right.half.en5v
  {
    var tick, rest := Local(side, TICK, t), [Deliver(side.Other(), Probe, t), Deliver(side, Ack, t)];
    ProbingGoesUp(Next(p, tick), side, t);
    assert ([tick] + rest)[1..] == rest;
    assert [tick, rest[0], rest[1]] == [tick] + rest;
  }

  /** One that gives up, on its probe or on its peer, is idle from then on. */
  lemma GivesUp(p: Pair, side: Side, t: u32)
    requires var h := p.At(side).half;
             h.usb && ((h.mode == PROBING && Elapsed(t, h.since) >= PROBE_TIMEOUT_MS)
                       || (h.mode == UP && Elapsed(t, h.lastPeer) >= PEER_TIMEOUT_MS))
    ensures var g := Next(p, Local(side, TICK, t)).At(side).half; g.mode == IDLE && g.usb && g.since == t
  {
  }

  /** The moves of a half that gives up at `t`, probes at `u`, and is heard. */
  function Recovery(side: Side, t: u32, u: u32): (r: seq<Move>)
    ensures |r| == 4
  {
    [Local(side, TICK, t), Local(side, TICK, u), Deliver(side.Other(), Probe, u), Deliver(side, Ack, u)]
  }

  lemma RecoveryGoesUp(p: Pair, side: Side, t: u32, u: u32)
    requires var g := Next(p, Local(side, TICK, t)).At(side).half;
             g.mode == IDLE && g.usb && Elapsed(u, g.since) >= REPROBE_INTERVAL_MS
    ensures var q := PlayFrom(p, Recovery(side, t, u)); q.left.half.en5v && q.right.half.en5v
  {
    var down := Local(side, TICK, t);
    IdleGoesUp(Next(p, down), side, u);
    hide Next;
    assert Recovery(side, t, u)[1..] == [Local(side, TICK, u), Deliver(side.Other(), Probe, u), Deliver(side, Ack, u)];
  }

  /** Whether these moves bring both halves up from every pair in which one half stands as `h`. */
  ghost predicate BringsUp(h: Half, side: Side, more: seq<Move>) {
    forall p: Pair :: p.At(side).half == h ==>
      var q := PlayFrom(p, more); q.left.half.en5v && q.right.half.en5v
  }

  /** Ticks of one half within 800 ms, and deliveries. */
  predicate Schedule(more: seq<Move>, side: Side, now: u32) {
    |more| <= 4 && forall m :: m in more ==>
      if m.Local? then m.ev == TICK && m.side == side && Elapsed(m.now, now) <= 800 else m.Deliver?
  }

  lemma RecoveryInTime(side: Side, now: u32, t: u32, u: u32)
    requires Elapsed(t, now) <= 500 && Elapsed(u, now) <= 800
    ensures Schedule(Recovery(side, t, u), side, now) && Schedule(Recovery(side, t, t)[1..], side, now)
  {
    hide Elapsed;
    assert forall m :: m in Recovery(side, t, t)[1..] ==> m in Recovery(side, t, t);
  }

  /** What brings up a half at rest. */
  lemma FromRest(h: Half, side: Side, t: u32)
    requires h.mode == IDLE && h.usb && Elapsed(t, h.since) >= REPROBE_INTERVAL_MS
    ensures BringsUp(h, side, Recovery(side, t, t)[1..])
  {
    hide Next, PlayFrom;
    var more := Recovery(side, t, t)[1..];
    assert more == [Local(side, TICK, t), Deliver(side.Other(), Probe, t), Deliver(side, Ack, t)];
    forall p: Pair | p.At(side).half == h
      ensures var q := PlayFrom(p, more); q.left.half.en5v && q.right.half.en5v
    {
      IdleGoesUp(p, side, t);
    }
  }

  /** What brings up one that waits for an answer, or is up and has lost its peer. */
  lemma FromElsewhere(h: Half, side: Side, t: u32, u: u32)
    requires h.usb && Elapsed(u, t) >= REPROBE_INTERVAL_MS
    requires (h.mode == PROBING && Elapsed(t, h.since) >= PROBE_TIMEOUT_MS)
             || (h.mode == UP && Elapsed(t, h.lastPeer) >= PEER_TIMEOUT_MS)
    ensures BringsUp(h, side, Recovery(side, t, u))
  {
    hide Next, PlayFrom, Recovery;
    forall p: Pair | p.At(side).half == h
      ensures var q := PlayFrom(p, Recovery(side, t, u)); q.left.half.en5v && q.right.half.en5v
    {
      GivesUp(p, side, t);
      RecoveryGoesUp(p, side, t, u);
    }
  }

  lemma SomeSchedule(h: Half, side: Side, now: u32) returns (more: seq<Move>)
    requires h.usb && h.mode != Corrupt
    ensures Schedule(more, side, now) && BringsUp(h, side, more)
  {
    hide BringsUp, Schedule, Recovery;
    if h.mode == IDLE {
      var t := WaitLongEnough(now, h.since, REPROBE_INTERVAL_MS);
      FromRest(h, side, t);
      RecoveryInTime(side, now, t, t);
      more := Recovery(side, t, t)[1..];
    } else {
      var up := h.mode == UP;
      var since, limit := if up then h.lastPeer else h.since, if up then PEER_TIMEOUT_MS else PROBE_TIMEOUT_MS;
      var t := WaitLongEnough(now, since, limit);
      var u := Later(t, REPROBE_INTERVAL_MS);
      FromElsewhere(h, side, t, u);
      RecoveryInTime(side, now, t, u);
      more := Recovery(side, t, u);
    }
  }

  /** From every reachable pair in which one half has USB, and with everything sent so far lost, some schedule of at
      most four moves brings both halves up: that half ticks within 800 ms and sends a new probe, which arrives, and so
      does the answer. */
  lemma CanComeUp(moves: seq<Move>, side: Side, now: u32) returns (more: seq<Move>)
    requires Play(moves).At(side).half.usb
    ensures Schedule(more, side, now)
    ensures var q := PlayFrom(Silenced(Play(moves)), more); q.left.half.en5v && q.right.half.en5v
    ensures Play(moves + more).left.half.en5v && Play(moves + more).right.half.en5v
  {
    hide Next, Play, PlayFrom, Inv;
    ModeKnown(moves, side);
    more := SomeSchedule(Play(moves).At(side).half, side, now);
    assert Silenced(Play(moves)).At(side).half == Play(moves).At(side).half;
    PlayOn(moves, more);
  }

  lemma ModeKnown(moves: seq<Move>, side: Side)
    ensures Play(moves).At(side).half.mode != Corrupt
  {
    PlayKeepsInv(moves);
  }
}
