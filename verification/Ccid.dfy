/** The CCID driver as a protocol between the USB task, the worker, the deferred-callback queue and the endpoints. */
module Ccid {
  import opened Wrappers

  const HDR_LEN := 10
  const BUF_SIZE := 512
  const PACKET := 64
  const ATR_LEN := 21
  const MAX_RETRIES := 200

  const POWER_ON: byte := 0x62
  const POWER_OFF: byte := 0x63
  const SLOT_STATUS: byte := 0x65
  const XFR_BLOCK: byte := 0x6F

  /** The slot and sequence number a message carries and its answer echoes. */
  datatype Tag = Tag(slot: byte, seqNo: byte)

  datatype Transfer = Nothing | Wtx(tag: Tag) | Final(tag: Tag) | ZeroLength(tag: Tag)

  datatype Deferred = SendWtx | SendFinal(retries: nat)

  /** What happened so far: messages in, answers started, answers fully gone, reads armed, runts, an answer given up,
      transfers the stack refused because their endpoint was busy. */
  datatype Log = Log(received: seq<Tag>, sent: seq<Tag>, delivered: seq<Tag>,
                     primes: nat, runts: nat, abandoned: bool, refused: nat)

  datatype State = State(
    outPrimed: bool, inFlight: Transfer, queue: seq<Deferred>,
    busy: bool, finalQueued: bool,
    current: Tag,                    // the message the worker answers
    pending: bool, working: bool,    // semaphore given; worker past it
    reply: Tag,                      // what the IN buffer is addressed to
    log: Log)

  datatype Step =
    | HostMessage(msgType: byte, tag: Tag)  // a full message on bulk OUT
    | HostRunt                              // fewer than ten bytes
    | WorkerTake | WorkerWtx | WorkerDone
    | RunDeferred
    | InComplete(bytes: nat)

  const START := State(true, Nothing, [], false, false, Tag(0, 0), false, false, Tag(0, 0),
                       Log([], [], [], 1, 0, false, 0))

  function Refused(s: State): State { s.(log := s.log.(refused := s.log.refused + 1)) }

  /** Arm the OUT endpoint; while it is armed another attempt is refused. */
  function Primed(s: State): State {
    if s.outPrimed then Refused(s) else s.(outPrimed := true, log := s.log.(primes := s.log.primes + 1))
  }

  /** Send the IN buffer. A transfer on a busy endpoint is refused and lost. */
  function StartFinal(s: State): State {
    if s.inFlight.Nothing?
    then s.(finalQueued := true, inFlight := Final(s.reply), log := s.log.(sent := s.log.sent + [s.reply]))
    else Refused(s.(finalQueued := true))
  }

  function Received(s: State, tag: Tag): State {
    s.(outPrimed := false, log := s.log.(received := s.log.received + [tag]))
  }

  function Dispatch(s: State, msgType: byte, tag: Tag): State {
    if msgType == XFR_BLOCK then Received(s, tag).(current := tag, busy := true, pending := true)
    else StartFinal(Received(s, tag).(reply := tag))
  }

  function DispatchRunt(s: State): State {
    var t := s.(outPrimed := false, log := s.log.(runts := s.log.runts + 1));
    if s.busy then t else Primed(t)
  }

  function RunCallback(s: State, head: Deferred): State {
    match head
    case SendWtx => if s.inFlight.Nothing? then s.(inFlight := Wtx(s.current)) else s
    case SendFinal(retries) =>
      if s.inFlight.Nothing? then StartFinal(s)
      else if retries < MAX_RETRIES then s.(queue := s.queue + [SendFinal(retries + 1)])
      else s.(log := s.log.(abandoned := true))
  }

  /** An IN transfer ended with `bytes` bytes on the wire. */
  function Completed(s: State, bytes: nat): State {
    if !s.finalQueued then s.(inFlight := Nothing)
    else if bytes > 0 && bytes % PACKET == 0 then s.(inFlight := ZeroLength(s.reply))
    else Primed(Delivered(s))
  }

  function Delivered(s: State): State {
    s.(inFlight := Nothing, finalQueued := false, busy := false,
       log := s.log.(delivered := s.log.delivered + [s.reply]))
  }

  predicate Enabled(s: State, step: Step) {
    match step
    case HostMessage(_, _) => s.outPrimed
    case HostRunt => s.outPrimed
    case WorkerTake => s.pending && !s.working
    case WorkerWtx => s.working
    case WorkerDone => s.working
    case RunDeferred => s.queue != []
    case InComplete(bytes) => !s.inFlight.Nothing? && (s.inFlight.ZeroLength? ==> bytes == 0)
  }

  /** One step; a step that cannot happen changes nothing. */
  function Next(s: State, step: Step): State {
    if !Enabled(s, step) then s
    else
      match step
      case HostMessage(msgType, tag) => Dispatch(s, msgType, tag)
      case HostRunt => DispatchRunt(s)
      case WorkerTake => s.(pending := false, working := true)
      case WorkerWtx => s.(queue := s.queue + [SendWtx])
      case WorkerDone => s.(reply := s.current, queue := s.queue + [SendFinal(0)], working := false)
      case RunDeferred => RunCallback(s.(queue := s.queue[1..]), s.queue[0])
      case InComplete(bytes) => Completed(s, bytes)
  }

  function Exec(s: State, steps: seq<Step>): State
    decreases |steps|
  {
    if steps == [] then s else Exec(Next(s, steps[0]), steps[1..])
  }

  // ---- Invariant: one message, one owner ----

  ghost predicate OnlyWtx(q: seq<Deferred>) { forall k :: 0 <= k < |q| ==> q[k] == SendWtx }

  ghost predicate Last(s: State, tag: Tag) { s.log.received != [] && s.log.received[|s.log.received| - 1] == tag }

  // Nothing in progress: the host may send.
  ghost predicate Idle(s: State) {
    && s.outPrimed && !s.busy && !s.finalQueued && !s.pending && !s.working
    && s.inFlight == Nothing && s.queue == [] && s.log.received == s.log.sent == s.log.delivered
  }

  // The worker has the message, or is about to.
  ghost predicate Serving(s: State) {
    && !s.outPrimed && s.busy && !s.finalQueued && s.pending != s.working
    && OnlyWtx(s.queue) && (s.pending ==> s.queue == [] && s.inFlight == Nothing)
    && (s.inFlight == Nothing || s.inFlight == Wtx(s.current))
    && Last(s, s.current) && s.log.sent == s.log.delivered == s.log.received[..|s.log.received| - 1]
  }

  // The answer waits in the callback queue, behind at most some WTX requests.
  ghost predicate Answering(s: State) {
    && !s.outPrimed && s.busy && !s.finalQueued && !s.pending && !s.working
    && s.queue != [] && OnlyWtx(s.queue[..|s.queue| - 1])
    && s.queue[|s.queue| - 1].SendFinal? && s.queue[|s.queue| - 1].retries <= MAX_RETRIES
    && (s.inFlight == Nothing || s.inFlight == Wtx(s.current)) && s.reply == s.current
    && Last(s, s.current) && s.log.sent == s.log.delivered == s.log.received[..|s.log.received| - 1]
  }

  // The answer, or the empty packet that ends it, is on the wire.
  ghost predicate Sending(s: State) {
    && !s.outPrimed && s.finalQueued && !s.pending && !s.working && s.queue == []
    && (s.inFlight == Final(s.reply) || s.inFlight == ZeroLength(s.reply))
    && Last(s, s.reply) && s.log.received == s.log.sent && s.log.delivered == s.log.sent[..|s.log.sent| - 1]
  }

  // The answer was dropped after 200 retries.
  ghost predicate Wedged(s: State) {
    && !s.outPrimed && s.busy && !s.finalQueued && !s.pending && !s.working && s.queue == []
    && (s.inFlight == Nothing || s.inFlight == Wtx(s.current))
    && Last(s, s.current) && s.log.sent == s.log.delivered == s.log.received[..|s.log.received| - 1]
  }

  ghost predicate Inv(s: State) {
    && (if s.log.abandoned then Wedged(s) else Idle(s) || Serving(s) || Answering(s) || Sending(s))
    && Balance(s) == 1 && s.log.refused == 0
  }

  lemma IdleStep(s: State, step: Step)
    requires Idle(s) && !s.log.abandoned
    ensures var t := Next(s, step); !t.log.abandoned && (Idle(t) || Serving(t) || Sending(t))
  {
    var t := Next(s, step);
    if step.HostMessage? { assert t.log.received[..|t.log.received| - 1] == s.log.received; }
  }

  lemma ServingRunsCall(s: State)
    requires Serving(s) && !s.log.abandoned && s.queue != []
    ensures var t := Next(s, RunDeferred); !t.log.abandoned && Serving(t)
  {
    var t := Next(s, RunDeferred);
    assert s.queue[0] == SendWtx && t.queue == s.queue[1..];
    assert forall k :: 0 <= k < |t.queue| ==> t.queue[k] == s.queue[k + 1];
    assert OnlyWtx(t.queue);
  }

  lemma ServingEnds(s: State)
    requires Serving(s) && !s.log.abandoned && s.working
    ensures var t := Next(s, WorkerDone); !t.log.abandoned && Answering(t)
  {
    assert Next(s, WorkerDone).queue[..|s.queue|] == s.queue;
  }

  lemma ServingStep(s: State, step: Step)
    requires Serving(s) && !s.log.abandoned
    ensures var t := Next(s, step); !t.log.abandoned && (Serving(t) || Answering(t))
  {
    if step == RunDeferred && s.queue != [] {
      hide Next, Serving;
      ServingRunsCall(s);
    } else if step == WorkerDone && s.working {
      hide Next, Serving, Answering;
      ServingEnds(s);
    } else {
      hide RunCallback, Answering;
    }
  }

  lemma AnsweringStep(s: State, step: Step)
    requires Answering(s) && !s.log.abandoned
    ensures var t := Next(s, step); if t.log.abandoned then Wedged(t) else Answering(t) || Sending(t)
  {
    if step != RunDeferred { return; }
    var n, t := |s.queue|, Next(s, step);
    if n == 1 {
      assert s.queue[1..] == [] && s.log.received == s.log.received[..|s.log.received| - 1] + [s.current];
    } else {
      assert s.queue[..n - 1][0] == s.queue[0];
      assert forall k :: 0 <= k < n - 2 ==> t.queue[k] == s.queue[..n - 1][k + 1];
    }
  }

  lemma StepKeepsInv(s: State, step: Step)
    requires Inv(s)
    ensures Inv(Next(s, step))
  {
    PrimesBalance(s, step);
    NoRefusal(s, step);
    hide Next;
    if s.log.abandoned { WedgedStep(s, step); }
    else if Idle(s) { IdleStep(s, step); }
    else if Serving(s) { ServingStep(s, step); }
    else if Answering(s) { AnsweringStep(s, step); }
    else { SendingStep(s, step); }
  }

  /** Every transfer is started on a free endpoint. */
  lemma NoRefusal(s: State, step: Step)
    requires s.log.abandoned ==> Wedged(s)
    requires !s.log.abandoned ==> Idle(s) || Serving(s) || Answering(s) || Sending(s)
    ensures Next(s, step).log.refused == s.log.refused
  {
    if Answering(s) && s.queue != [] { assert |s.queue| > 1 ==> s.queue[..|s.queue| - 1][0] == s.queue[0]; }
  }

  lemma WedgedStep(s: State, step: Step)
    requires Wedged(s) && s.log.abandoned
    ensures Next(s, step).log.abandoned && Wedged(Next(s, step))
  {
  }

  lemma SendingStep(s: State, step: Step)
    requires Sending(s) && !s.log.abandoned
    ensures var t := Next(s, step); !t.log.abandoned && (Idle(t) || Sending(t))
  {
    assert s.log.sent == s.log.sent[..|s.log.sent| - 1] + [s.reply];
  }

  ghost function Balance(s: State): int { s.log.primes - s.log.runts - |s.log.delivered| }

  lemma DispatchBalance(s: State, msgType: byte, tag: Tag)
    ensures Balance(Dispatch(s, msgType, tag)) == Balance(s)
  {
  }

  lemma DeferredBalance(s: State, head: Deferred)
    ensures Balance(RunCallback(s, head)) == Balance(s)
  {
  }

  lemma CompletedBalance(s: State, bytes: nat)
    requires s.outPrimed ==> !s.finalQueued
    ensures Balance(Completed(s, bytes)) == Balance(s)
  {
  }

  lemma PrimesBalance(s: State, step: Step)
    requires s.outPrimed ==> !s.busy && !s.finalQueued
    ensures Balance(Next(s, step)) == Balance(s)
  {
    if Enabled(s, step) {
      match step
      case HostMessage(msgType, tag) => DispatchBalance(s, msgType, tag);
      case RunDeferred => DeferredBalance(s.(queue := s.queue[1..]), s.queue[0]);
      case InComplete(bytes) => CompletedBalance(s, bytes);
      case _ =>
      hide Dispatch;
      hide RunCallback;
      hide Completed;
    }
  }

  lemma {:induction false} ExecKeepsInv(s: State, steps: seq<Step>)
    requires Inv(s)
    ensures Inv(Exec(s, steps))
    decreases |steps|
  {
    if steps != [] {
      hide Next;
      hide Inv;
      StepKeepsInv(s, steps[0]);
      ExecKeepsInv(Next(s, steps[0]), steps[1..]);
    }
  }

  // ---- Safety of every run ----

  /** In every run, messages are answered in order, at most once each, with their own slot and sequence number;
      a WTX frame carries those of the message being served. */
  lemma AnswersMatchMessages(steps: seq<Step>)
    ensures var s := Exec(START, steps);
            && s.log.sent <= s.log.received && |s.log.received| <= |s.log.sent| + 1 && s.log.delivered <= s.log.sent
            && (s.inFlight.Wtx? ==> |s.log.sent| < |s.log.received| && s.inFlight.tag == s.log.received[|s.log.sent|])
            && (s.inFlight.Final? || s.inFlight.ZeroLength? ==>
                  |s.log.delivered| < |s.log.sent| && s.inFlight.tag == s.log.sent[|s.log.delivered|])
  {
    ExecKeepsInv(START, steps);
  }

  /** OUT is primed only when every answer, with its terminating empty packet, has left and the worker owns nothing;
      each priming is paid for by one delivered answer or one runt. */
  lemma PrimedOnlyWhenAnswered(steps: seq<Step>)
    ensures var s := Exec(START, steps);
            && (s.outPrimed ==> s.log.delivered == s.log.received && s.inFlight == Nothing && s.queue == []
                                && !s.working && !s.busy)
            && s.log.primes == 1 + s.log.runts + |s.log.delivered|
  {
    ExecKeepsInv(START, steps);
  }

  /** No transfer is ever refused because its endpoint is busy, and the end of a WTX frame never primes OUT. */
  lemma TransfersAreExclusive(steps: seq<Step>, step: Step)
    ensures var s := Exec(START, steps); var t := Next(s, step);
            && s.log.refused == 0
            && (step.InComplete? && s.inFlight.Wtx? ==> t == s.(inFlight := Nothing))
            && (!s.inFlight.Nothing? && !step.InComplete? ==> t.inFlight == s.inFlight)
            && (step.HostMessage? && step.msgType != XFR_BLOCK && s.outPrimed ==>
                  t.inFlight == Final(step.tag) && t.log.sent == t.log.received)
  {
    ExecKeepsInv(START, steps);
  }

  ghost function Newest(s: State): Tag
    requires s.log.received != []
  {
    s.log.received[|s.log.received| - 1]
  }

  /** What a deferred call does in any run. It speaks for the newest message; while the endpoint is busy a time
      extension is skipped, and the answer is put off up to 200 times and then given up. */
  lemma DeferredCalls(steps: seq<Step>)
    ensures var s := Exec(START, steps);
            s.queue != [] ==>
              var t := Next(s, RunDeferred);
              && s.log.received != [] && t.log.received == s.log.received
              && (s.queue[0].SendWtx? ==>
                    t == s.(queue := s.queue[1..],
                            inFlight := if s.inFlight == Nothing then Wtx(Newest(s)) else s.inFlight))
              && (s.queue[0].SendFinal? ==>
                    && s.queue == [SendFinal(s.queue[0].retries)]
                    && if s.inFlight == Nothing then
                         t.inFlight == Final(Newest(s)) && t.log.sent == s.log.received && t.queue == []
                       else if s.queue[0].retries < 200 then
                         t == s.(queue := [SendFinal(s.queue[0].retries + 1)])
                       else t.log.abandoned && t.queue == [])
  {
    ExecKeepsInv(START, steps);
    var s := Exec(START, steps);
    hide Exec;
    if s.queue != [] {
      assert Serving(s) || Answering(s);
      if Serving(s) {
        assert s.queue[0] == SendWtx;
      } else {
        var n := |s.queue|;
        if n > 1 { assert s.queue[..n - 1][0] == s.queue[0] == SendWtx; }
        assert s.log.received == s.log.received[..|s.log.received| - 1] + [s.current];
      }
    }
  }

  lemma SendingEnds(s: State, bytes: nat)
    requires Sending(s) && (s.inFlight.ZeroLength? ==> bytes == 0)
    ensures var t := Next(s, InComplete(bytes));
            if bytes > 0 && bytes % 64 == 0 then t == s.(inFlight := ZeroLength(s.inFlight.tag))
            else t.inFlight == Nothing && t.outPrimed && !t.busy
                 && t.log.delivered == s.log.delivered + [s.inFlight.tag] == s.log.received
  {
    assert s.log.sent == s.log.sent[..|s.log.sent| - 1] + [s.reply];
  }

  /** How an answer ends in any run: a transfer of full packets only is followed by an empty one, and what is not arms
      OUT for the next message. */
  lemma HowAnswersEnd(steps: seq<Step>, bytes: nat)
    ensures var s := Exec(START, steps); var t := Next(s, InComplete(bytes));
            s.inFlight.Final? || (s.inFlight.ZeroLength? && bytes == 0) ==>
              if bytes > 0 && bytes % 64 == 0 then t == s.(inFlight := ZeroLength(s.inFlight.tag))
              else t.inFlight == Nothing && t.outPrimed && !t.busy
                   && t.log.delivered == s.log.delivered + [s.inFlight.tag] == s.log.received
  {
    ExecKeepsInv(START, steps);
    var s := Exec(START, steps);
    hide Exec, Next;
    if s.inFlight.Final? || (s.inFlight.ZeroLength? && bytes == 0) { SendingEnds(s, bytes); }
  }

  /** A runt is not answered, and OUT is armed again at once. */
  lemma RuntsAreNotAnswered(steps: seq<Step>)
    ensures var s := Exec(START, steps);
            s.outPrimed ==>
              Next(s, HostRunt) == s.(log := s.log.(runts := s.log.runts + 1, primes := s.log.primes + 1))
  {
    ExecKeepsInv(START, steps);
  }

  // ---- Progress ----

  /** Abandoning is the only dead end, and it is one: OUT is never primed again. */
  lemma {:induction false} AbandonedIsForever(s: State, steps: seq<Step>)
    requires Inv(s) && s.log.abandoned
    ensures Exec(s, steps).log.abandoned && !Exec(s, steps).outPrimed
    decreases |steps|
  {
    if steps != [] {
      StepKeepsInv(s, steps[0]);
      AbandonedIsForever(Next(s, steps[0]), steps[1..]);
    }
  }

  lemma {:induction false} ExecConcat(s: State, a: seq<Step>, b: seq<Step>)
    ensures Exec(s, a + b) == Exec(Exec(s, a), b)
    decreases |a|
  {
    hide Next;
    if a == [] {
      assert a + b == b;
    } else {
      assert (a + b)[1..] == a[1..] + b;
      ExecConcat(Next(s, a[0]), a[1..], b);
    }
  }

  lemma StepThen(s: State, step: Step, rest: seq<Step>) returns (all: seq<Step>)
    ensures Exec(s, all) == Exec(Next(s, step), rest)
  {
    all := [step] + rest;
    assert all[1..] == rest;
  }

  // How much is still to happen before OUT is primed.
  ghost function Work(s: State): nat {
    (if s.pending then 8 else if s.working then 6 else 0) + 2 * |s.queue| + (if s.inFlight.Nothing? then 0 else 1)
    + (if s.finalQueued || s.outPrimed then 0 else 4)
  }

  /** The step a willing scheduler takes next. */
  function Advance(s: State): Step {
    if !s.inFlight.Nothing? then InComplete(0)
    else if s.pending then WorkerTake
    else if s.working then WorkerDone
    else RunDeferred
  }

  lemma AdvanceProgresses(s: State)
    requires Inv(s) && !s.log.abandoned && !s.outPrimed
    ensures var t := Next(s, Advance(s)); Inv(t) && !t.log.abandoned && Work(t) < Work(s)
  {
    StepKeepsInv(s, Advance(s));
  }

  /** From every reachable state that was not abandoned, some schedule gets every message answered and OUT primed. */
  lemma {:induction false} CanFinish(s: State) returns (steps: seq<Step>)
    requires Inv(s) && !s.log.abandoned
    ensures Exec(s, steps).outPrimed && Exec(s, steps).log.delivered == Exec(s, steps).log.received
    decreases Work(s)
  {
    steps := [];
    if !s.outPrimed {
      AdvanceProgresses(s);
      var rest := CanFinish(Next(s, Advance(s)));
      steps := StepThen(s, Advance(s), rest);
    }
  }
}
