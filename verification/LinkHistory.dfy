/** The handshake of one half, told from its events alone. */
module LinkHistory {
  import opened LinkHandshake
  import opened Wrappers

  // ---- What the fields remember ----

  /** When the half last changed its state, or was put into it anew by a probe or by losing USB. */
  function EnteredAt(inputs: seq<Input>): u32 {
    if inputs == [] then 0
    else
      var front, last := inputs[..|inputs| - 1], inputs[|inputs| - 1];
      if last.ev == USB_GONE || last.ev == PROBED || Exec(inputs).half.mode != Exec(front).half.mode then last.now
      else EnteredAt(front)
  }

  /** The last event that matters for it was the arrival of USB. */
  predicate HasUsb(inputs: seq<Input>) {
    if inputs == [] then false
    else
      match inputs[|inputs| - 1].ev
      case USB_PRESENT => true
      case USB_GONE => false
      case _ => HasUsb(inputs[..|inputs| - 1])
  }

  /** When the peer last gave a sign of life; USB going away hides one that comes with it. */
  function HeardAt(inputs: seq<Input>): u32 {
    if inputs == [] then 0
    else if SignOfLife(inputs[|inputs| - 1].ev) then inputs[|inputs| - 1].now
    else HeardAt(inputs[..|inputs| - 1])
  }

  lemma {:induction false} FieldsRemember(inputs: seq<Input>)
    ensures var h := Exec(inputs).half;
            h.since == EnteredAt(inputs) && h.usb == HasUsb(inputs) && h.lastPeer == HeardAt(inputs)
  {
    if inputs != [] {
      FieldsRemember(inputs[..|inputs| - 1]);
      FlagIsSwitch(inputs[..|inputs| - 1]);
    }
  }

  // ---- When a probe is out ----

  /** This event leaves a probe sent at `since` unanswered, and comes less than 200 ms after it. */
  predicate Waits(i: Input, since: u32) {
    i.ev != USB_GONE && i.ev != PROBED && i.ev != PEER_ACK && Elapsed(i.now, since) < 200
  }

  lemma {:induction false} ActionsLength(inputs: seq<Input>)
    ensures |Exec(inputs).actions| == |inputs|
  {
    if inputs != [] { ActionsLength(inputs[..|inputs| - 1]); }
  }

  /** The k-th event sent a probe, and every event since has waited for the answer. */
  ghost predicate SentAt(inputs: seq<Input>, k: nat) {
    ActionsLength(inputs);
    && k < |inputs| && Exec(inputs).actions[k] == SEND_PROBE
    && forall j :: k < j < |inputs| ==> Waits(inputs[j], inputs[k].now)
  }

  ghost predicate ProbeOut(inputs: seq<Input>) { exists k: nat :: SentAt(inputs, k) }

  lemma SentEarlier(inputs: seq<Input>, k: nat)
    requires inputs != [] && k < |inputs| - 1
    ensures var front, last := inputs[..|inputs| - 1], inputs[|inputs| - 1];
            SentAt(inputs, k) <==> SentAt(front, k) && Waits(last, inputs[k].now)
  {
    var front := inputs[..|inputs| - 1];
    ActionsLength(inputs);
    ActionsLength(front);
    hide Waits;
    assert Exec(inputs).actions[..|front|] == Exec(front).actions;
    assert Exec(inputs).actions[k] == Exec(front).actions[k];
    assert forall j :: 0 <= j < |front| ==> front[j] == inputs[j];
  }

  lemma LastStep(inputs: seq<Input>)
    requires inputs != []
    ensures var n := |inputs| - 1;
            var m := Step(Exec(inputs[..n]).half, inputs[n].ev, inputs[n].now);
            && |Exec(inputs).actions| == |inputs| && Exec(inputs).half == m.half && Exec(inputs).actions[n] == m.action
            && Exec(inputs[..n]).half.mode != Corrupt
  {
    ActionsLength(inputs[..|inputs| - 1]);
    FlagIsSwitch(inputs[..|inputs| - 1]);
    hide Step;
  }

  /** While a probe is out the half waits, from when it was sent. */
  lemma {:induction false} WaitsSince(inputs: seq<Input>, k: nat)
    requires SentAt(inputs, k)
    ensures Exec(inputs).half.mode == PROBING && EnteredAt(inputs) == inputs[k].now
    decreases |inputs|
  {
    var n := |inputs| - 1;
    LastStep(inputs);
    FieldsRemember(inputs[..n]);
    if k < n {
      SentEarlier(inputs, k);
      WaitsSince(inputs[..n], k);
    }
  }

  /** And whenever it waits, a probe is out. */
  lemma {:induction false} WaitsForProbe(inputs: seq<Input>) returns (k: nat)
    requires Exec(inputs).half.mode == PROBING
    ensures SentAt(inputs, k)
  {
    var n := |inputs| - 1;
    LastStep(inputs);
    if Exec(inputs).actions[n] == SEND_PROBE {
      k := n;
    } else {
      FieldsRemember(inputs[..n]);
      k := WaitsForProbe(inputs[..n]);
      WaitsSince(inputs[..n], k);
      SentEarlier(inputs, k);
    }
  }

  /** The half waits for an answer exactly while a probe is out. */
  lemma WaitingWhileOut(inputs: seq<Input>)
    ensures Exec(inputs).half.mode == PROBING <==> ProbeOut(inputs)
  {
    hide Exec, SentAt;
    if Exec(inputs).half.mode == PROBING { var k := WaitsForProbe(inputs); }
    if k: nat :| SentAt(inputs, k) { WaitsSince(inputs, k); }
  }

  // ---- Every answer ----

  /** What the half answers to any event, from its history: it acknowledges every probe and no other event, closes on
      an acknowledgement while its own probe is out, opens when USB goes or after 500 ms without a sign of life, and
      sends a probe when USB arrives, or on a tick 300 ms or more after it came to rest. */
  lemma Answers(inputs: seq<Input>, ev: Event, now: u32)
    ensures var a, closed, out := Step(Exec(inputs).half, ev, now).action, SwitchClosed(Exec(inputs).actions),
                                  ProbeOut(inputs);
            && (a == ACK_AND_ENABLE_5V <==> ev == PROBED)
            && (a == ENABLE_5V <==> ev == PEER_ACK && out)
            && (a == DISABLE_5V <==>
                closed && (ev == USB_GONE || (!SignOfLife(ev) && Elapsed(now, HeardAt(inputs)) >= 500)))
            && (a == SEND_PROBE <==>
                && !closed && !out
                && (ev == USB_PRESENT || (ev == TICK && HasUsb(inputs) && Elapsed(now, EnteredAt(inputs)) >= 300)))
  {
    FieldsRemember(inputs);
    FlagIsSwitch(inputs);
    WaitingWhileOut(inputs);
    hide ProbeOut, Exec, HasUsb, HeardAt, EnteredAt, SwitchClosed;
  }

  /** A lost probe is repeated: with a probe out and USB still there, a tick 200 ms or more after it gives up, and one
      300 ms or more after that sends the next. */
  lemma LostProbeIsRepeated(inputs: seq<Input>, k: nat, t: u32, u: u32)
    requires SentAt(inputs, k) && HasUsb(inputs)
    requires Elapsed(t, inputs[k].now) >= 200 && Elapsed(u, t) >= 300
    ensures var once := inputs + [Input(TICK, t)];
            && Exec(once).half.mode == IDLE && !ProbeOut(once)
            && Step(Exec(once).half, TICK, u).action == SEND_PROBE
  {
    var once := inputs + [Input(TICK, t)];
    assert once[..|inputs|] == inputs;
    FieldsRemember(inputs);
    WaitsSince(inputs, k);
    WaitingWhileOut(once);
  }

  /** Until then it waits: a tick less than 200 ms after the probe changes nothing. */
  lemma ProbeWaits(inputs: seq<Input>, k: nat, t: u32)
    requires SentAt(inputs, k) && Elapsed(t, inputs[k].now) < 200
    ensures Step(Exec(inputs).half, TICK, t) == Moved(Exec(inputs).half, NONE)
  {
    FieldsRemember(inputs);
    WaitsSince(inputs, k);
  }
}
