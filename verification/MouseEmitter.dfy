/** Sending mouse motion over an unreliable link: saturated frames, and counts given back when no acknowledgement
    comes. */
module MouseEmitter {
  import opened Wrappers
  import opened MouseFilter

  /** A report carries x, y and wheel as signed bytes, and the absolute state of the buttons. */
  datatype Frame = Frame(buttons: byte, x: int, y: int, wheel: int)

  /**
   * One scan: the filtered motion read (STILL when the sensor was not read), the wheel position, whether the relay is
   * active, the buttons, and whether a frame sent now would be acknowledged.
   */
  datatype Scan = Scan(motion: Motion, wheel: int, active: bool, buttons: byte, acked: bool)

  /** The counts still to send, and what was last told about the wheel and the buttons. */
  datatype State = State(x: int, y: int, wheel: int, wheelSeen: int, buttons: byte, told: bool)

  const INITIAL := State(0, 0, 0, 0, 0, false)

  function Clip(v: int): (r: int)
    ensures -127 <= r <= 127 && (-127 <= v <= 127 ==> r == v)
  {
    if v > 127 then 127 else if v < -127 then -127 else v
  }

  /** Everything received so far, added to what waits. */
  function Gathered(s: State, c: Scan): State {
    var t := s.(x := s.x + c.motion.dx, y := s.y + c.motion.dy);
    if c.active then t.(wheel := s.wheel + c.wheel - s.wheelSeen, wheelSeen := c.wheel) else t
  }

  /** The frame tried in this scan, if any. */
  function Tried(s: State, c: Scan): Option<Frame> {
    var t := Gathered(s, c);
    var f := Frame(c.buttons, Clip(t.x), Clip(t.y), Clip(t.wheel));
    if c.active && (f.x != 0 || f.y != 0 || f.wheel != 0 || c.buttons != s.buttons || !s.told) then Some(f) else None
  }

  lemma GatheredKeeps(s: State, c: Scan)
    ensures Gathered(s, c).buttons == s.buttons && Gathered(s, c).told == s.told
  {
  }

  function Next(s: State, c: Scan): State {
    var t, f := Gathered(s, c), Tried(s, c);
    if f.Some? && c.acked then
      t.(x := t.x - f.value.x, y := t.y - f.value.y, wheel := t.wheel - f.value.wheel,
         buttons := c.buttons, told := true)
    else t
  }

  /** The frame the host receives in this scan. */
  function Arrived(s: State, c: Scan): seq<Frame> {
    if Tried(s, c).Some? && c.acked then [Tried(s, c).value] else []
  }

  /** The emission block; the counters of clipped and refused frames are 32 bits wide. */
  class Emitter {
    var x: int
    var y: int
    var wheel: int
    var wheelSeen: int
    var buttons: byte
    var told: bool
    var clipped: int
    var refused: int

    function View(): State
      reads this
    {
      State(x, y, wheel, wheelSeen, buttons, told)
    }

    constructor ()
      ensures View() == INITIAL && clipped == 0 && refused == 0
    {
      x, y, wheel, wheelSeen, buttons, told, clipped, refused := 0, 0, 0, 0, 0, false, 0, 0;
    }

    method Gather(c: Scan)
      modifies this
      ensures View() == Gathered(old(View()), c) && clipped == old(clipped) && refused == old(refused)
    {
      x, y := x + c.motion.dx, y + c.motion.dy;
      if c.active {
        var turned := c.wheel - wheelSeen;
        wheelSeen := c.wheel;
        wheel := wheel + turned;
      }
    }

    method Emit(c: Scan) returns (sent: Option<Frame>)
      modifies this
      ensures View() == Next(old(View()), c) && sent == Tried(old(View()), c)
      ensures refused == if sent.Some? && !c.acked then (old(refused) + 1) % 0x1_0000_0000 else old(refused)
      ensures var t := Gathered(old(View()), c);
              clipped == if c.active && (t.x != Clip(t.x) || t.y != Clip(t.y) || t.wheel != Clip(t.wheel))
                         then (old(clipped) + 1) % 0x1_0000_0000 else old(clipped)
    {
      hide Gathered;
      GatheredKeeps(View(), c);
      Gather(c);
      sent := None;
      if c.active {
        var px := if x > 127 then 127 else if x < -127 then -127 else x;
        var py := if y > 127 then 127 else if y < -127 then -127 else y;
        var pw := if wheel > 127 then 127 else if wheel < -127 then -127 else wheel;
        if px != x || py != y || pw != wheel {
          clipped := (clipped + 1) % 0x1_0000_0000;
        }
        x, y, wheel := x - px, y - py, wheel - pw;
        if px != 0 || py != 0 || pw != 0 || c.buttons != buttons || !told {
          sent := Some(Frame(c.buttons, px, py, pw));
          if c.acked {
            buttons, told := c.buttons, true;
          } else {
            x, y, wheel := x + px, y + py, wheel + pw;
            refused := (refused + 1) % 0x1_0000_0000;
          }
        }
      }
    }
  }

  // ---- Runs ----

  function After(s: State, scans: seq<Scan>): State {
    if scans == [] then s else Next(After(s, scans[..|scans| - 1]), scans[|scans| - 1])
  }

  /** The frames the host has received. */
  function Received(s: State, scans: seq<Scan>): seq<Frame> {
    if scans == [] then []
    else
      var front, last := scans[..|scans| - 1], scans[|scans| - 1];
      Received(s, front) + Arrived(After(s, front), last)
  }

  datatype Way = X | Y | Wheel

  function Waiting(s: State, w: Way): int {
    match w case X => s.x case Y => s.y case Wheel => s.wheel
  }

  function Carried(f: Frame, w: Way): int {
    match w case X => f.x case Y => f.y case Wheel => f.wheel
  }

  function Sum(frames: seq<Frame>, w: Way): int {
    if frames == [] then 0 else Sum(frames[..|frames| - 1], w) + Carried(frames[|frames| - 1], w)
  }

  /** What has come in along one way: filtered motion, or the turn of the wheel noticed so far. */
  function Moved(s: State, scans: seq<Scan>, w: Way): int {
    if w == Wheel then After(s, scans).wheelSeen - s.wheelSeen
    else if scans == [] then 0
    else
      var m := scans[|scans| - 1].motion;
      Moved(s, scans[..|scans| - 1], w) + if w == X then m.dx else m.dy
  }

  lemma SumOneMore(frames: seq<Frame>, more: seq<Frame>, w: Way)
    requires |more| <= 1
    ensures Sum(frames + more, w) == Sum(frames, w) + if more == [] then 0 else Carried(more[0], w)
  {
    if more == [] {
      assert frames + more == frames;
    } else {
      assert (frames + more)[..|frames|] == frames;
    }
  }

  /** One scan: what waited and what comes in is what the host gets and what waits then. */
  lemma NothingIsLostInScan(s: State, c: Scan, w: Way)
    ensures var t, got := Next(s, c), Arrived(s, c);
            && |got| <= 1
            && Waiting(s, w)
               + (match w case X => c.motion.dx case Y => c.motion.dy case Wheel => t.wheelSeen - s.wheelSeen)
               == Waiting(t, w) + if got == [] then 0 else Carried(got[0], w)
  {
    hide Clip;
  }

  /** No count is lost or sent twice, whatever is refused: what came in is what the host got and what still waits. */
  lemma {:induction false} NothingIsLost(s: State, scans: seq<Scan>, w: Way)
    ensures Waiting(s, w) + Moved(s, scans, w)
            == Sum(Received(s, scans), w) + Waiting(After(s, scans), w)
  {
    hide Next, Arrived;
    if scans != [] {
      var front, last := scans[..|scans| - 1], scans[|scans| - 1];
      NothingIsLost(s, front, w);
      NothingIsLostInScan(After(s, front), last, w);
      SumOneMore(Received(s, front), Arrived(After(s, front), last), w);
    }
  }

  /** The wheel is followed up to the last active scan. */
  lemma {:induction false} WheelIsFollowed(s: State, scans: seq<Scan>, k: nat)
    requires k < |scans| && scans[k].active && forall i :: k < i < |scans| ==> !scans[i].active
    ensures After(s, scans).wheelSeen == scans[k].wheel
  {
    if k < |scans| - 1 { WheelIsFollowed(s, scans[..|scans| - 1], k); }
  }

  // ---- Draining ----

  /** m acknowledged frames take 127 counts each, until none is left. */
  function Drained(v: int, m: nat): int
    decreases m
  {
    if m == 0 then v else var u := Drained(v, m - 1); u - Clip(u)
  }

  lemma {:induction false} DrainedExactly(v: int, m: nat)
    ensures Drained(v, m) == if v >= 0 then (if v > 127 * m then v - 127 * m else 0)
                             else (if -v > 127 * m then v + 127 * m else 0)
  {
    if m > 0 { DrainedExactly(v, m - 1); }
  }

  predicate Idle(s: State, scans: seq<Scan>) {
    forall c :: c in scans ==> c.motion == STILL && c.wheel == s.wheelSeen
  }

  lemma {:induction false} IdleKeepsWheel(s: State, scans: seq<Scan>)
    requires Idle(s, scans)
    ensures After(s, scans).wheelSeen == s.wheelSeen
  {
    if scans != [] { IdleKeepsWheel(s, scans[..|scans| - 1]); }
  }

  /** With no new motion, each way loses 127 counts per received frame, whatever is refused in between. */
  lemma {:induction false} IdleDrains(s: State, scans: seq<Scan>, w: Way)
    requires Idle(s, scans)
    ensures Waiting(After(s, scans), w) == Drained(Waiting(s, w), |Received(s, scans)|)
  {
    if scans != [] {
      var front, last := scans[..|scans| - 1], scans[|scans| - 1];
      IdleDrains(s, front, w);
      IdleKeepsWheel(s, front);
      assert last in scans;
    }
  }

  /** It is empty after exactly the number of received frames that its counts, taken 127 at a time, need. */
  lemma EmptyAfterCeiling(s: State, scans: seq<Scan>, w: Way)
    requires Idle(s, scans)
    ensures Waiting(After(s, scans), w) == 0 <==> |Received(s, scans)| >= (Abs(Waiting(s, w)) + 126) / 127
  {
    IdleDrains(s, scans, w);
    DrainedExactly(Waiting(s, w), |Received(s, scans)|);
  }

  function Acknowledging(scans: seq<Scan>): nat {
    if scans == [] then 0
    else
      var last := scans[|scans| - 1];
      Acknowledging(scans[..|scans| - 1]) + if last.active && last.acked then 1 else 0
  }

  /** Draining never stalls: every scan whose frame would be acknowledged takes its 127 counts while any are left. */
  lemma {:induction false} EveryAckDrains(s: State, scans: seq<Scan>, w: Way)
    requires Idle(s, scans)
    ensures Waiting(After(s, scans), w) == Drained(Waiting(s, w), Acknowledging(scans))
  {
    if scans != [] {
      var front, last := scans[..|scans| - 1], scans[|scans| - 1];
      EveryAckDrains(s, front, w);
      IdleKeepsWheel(s, front);
      assert last in scans;
    }
  }

  // ---- Buttons ----

  /** The host has heard nothing, or holds the buttons last acknowledged; after an acknowledged scan, the current
      ones. */
  lemma {:induction false} HostKnowsTheButtons(scans: seq<Scan>)
    ensures var frames := Received(INITIAL, scans); var s := After(INITIAL, scans);
            && (s.told <==> frames != [])
            && (frames != [] ==> frames[|frames| - 1].buttons == s.buttons)
            && (scans != [] && scans[|scans| - 1].active && scans[|scans| - 1].acked
                ==> frames != [] && s.buttons == scans[|scans| - 1].buttons)
  {
    if scans != [] { HostKnowsTheButtons(scans[..|scans| - 1]); }
  }
}
