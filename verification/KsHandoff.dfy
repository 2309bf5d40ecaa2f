/** The hand-off between the USB callback, which assembles requests, and the dispatcher that handles them:
    every interleaving of their memory accesses. Only the locked sections exclude each other. */
module KsHandoff {
  import opened Wrappers
  import opened KsProtocol

  // The slot as memory: command, two length bytes, payload.
  const SLOT_BYTES := 3 + PAYLOAD_MAX

  function Image(r: Request): seq<byte> { [r.cmd, Low(|r.payload|), High(|r.payload|)] + r.payload }

  /** What a handler that looks at the slot takes its arguments to be. */
  function Seen(slot: seq<byte>): Request
    requires |slot| == SLOT_BYTES
  {
    var n := Word(slot[1], slot[2]);
    Request(slot[0], if n <= PAYLOAD_MAX then slot[3..3 + n] else [])
  }

  datatype FeedPc =
    | Assembling
    | Validated(r: Request)              // checksum matched, lock not yet taken
    | Copying(copied: Request, k: nat)   // lock held, slot free, k bytes written
    | Leaving                            // lock held, nothing left to do

  datatype TaskPc =
    | Waiting
    | Testing                            // lock held, `ready` about to be read
    | Handling                           // no lock
    | Done                               // handler returned, lock not yet taken
    | Clearing                           // lock held

  datatype Owner = Nobody | Callback | Task

  datatype State = State(rx: Rx, feed: FeedPc, task: TaskPc, owner: Owner, ready: bool, slot: seq<byte>,
                         checked: seq<Request>, handed: seq<Request>, handled: seq<Request>)

  datatype Step =
    | FeedByte(b: byte, committed: bool) | FeedLock | FeedCopy | FeedReady | FeedUnlock
    | TaskLock | TaskTest | TaskReturn | TaskRelock | TaskClear

  function Start(slot: seq<byte>): State {
    State(Idle, Assembling, Waiting, Nobody, false, slot, [], [], [])
  }

  /** One access; a step that is not possible in `s` leaves it unchanged. */
  function Next(s: State, step: Step): (t: State)
    requires s.rx.Valid() && |s.slot| == SLOT_BYTES
    ensures t.rx.Valid() && |t.slot| == SLOT_BYTES
  {
    match step
    case FeedByte(b, committed) =>
      if !s.feed.Assembling? then s
      else
        var o := OnByte(s.rx, b, committed);
        if o.complete.None? then s.(rx := o.rx)
        else s.(rx := o.rx, feed := Validated(o.complete.value), checked := s.checked + [o.complete.value])
    case FeedLock =>
      if !s.feed.Validated? || !s.owner.Nobody? then s
      else s.(owner := Callback, feed := if s.ready then Leaving else Copying(s.feed.r, 0))
    case FeedCopy =>
      if !s.feed.Copying? || s.feed.k >= |Image(s.feed.copied)| || s.feed.k >= SLOT_BYTES then s
      else s.(slot := s.slot[s.feed.k := Image(s.feed.copied)[s.feed.k]], feed := Copying(s.feed.copied, s.feed.k + 1))
    case FeedReady =>
      if !s.feed.Copying? || s.feed.k < |Image(s.feed.copied)| then s
      else s.(ready := true, feed := Leaving, handed := s.handed + [s.feed.copied])
    case FeedUnlock =>
      if !s.feed.Leaving? then s else s.(feed := Assembling, owner := Nobody)
    case TaskLock =>
      if !s.task.Waiting? || !s.owner.Nobody? then s else s.(task := Testing, owner := Task)
    case TaskTest =>
      if !s.task.Testing? then s else s.(task := if s.ready then Handling else Waiting, owner := Nobody)
    case TaskReturn =>
      if !s.task.Handling? then s else s.(task := Done, handled := s.handled + [Seen(s.slot)])
    case TaskRelock =>
      if !s.task.Done? || !s.owner.Nobody? then s else s.(task := Clearing, owner := Task)
    case TaskClear =>
      if !s.task.Clearing? then s else s.(task := Waiting, owner := Nobody, ready := false)
  }

  ghost predicate Locks(s: State) {
    && (s.owner.Callback? <==> s.feed.Copying? || s.feed.Leaving?)
    && (s.owner.Task? <==> s.task.Testing? || s.task.Clearing?)
  }

  ghost predicate Served(s: State)
    requires |s.slot| == SLOT_BYTES
  {
    if s.ready && !s.task.Done? && !s.task.Clearing? then
      && |s.handed| == |s.handled| + 1 && s.handed[..|s.handled|] == s.handled
      && Seen(s.slot) == s.handed[|s.handled|]
    else
      s.handed == s.handled
  }

  ghost predicate Inv(s: State) {
    && s.rx.Valid() && |s.slot| == SLOT_BYTES
    && Locks(s) && Served(s)
    && (s.task.Handling? || s.task.Done? || s.task.Clearing? ==> s.ready)
    && (s.feed.Validated? ==> |s.feed.r.payload| <= PAYLOAD_MAX && s.feed.r in s.checked)
    && (s.feed.Copying? ==>
          !s.ready && |s.feed.copied.payload| <= PAYLOAD_MAX && s.feed.copied in s.checked
          && s.feed.k <= |Image(s.feed.copied)| && s.slot[..s.feed.k] == Image(s.feed.copied)[..s.feed.k])
    && (forall r :: r in s.handed ==> r in s.checked)
  }

  lemma ImageIsSeen(r: Request, slot: seq<byte>)
    requires |r.payload| <= PAYLOAD_MAX && |slot| == SLOT_BYTES && slot[..|Image(r)|] == Image(r)
    ensures Seen(slot) == r
  {
    WordOfBytes(|r.payload|);
    hide Word, Low, High;
    var n := |Image(r)|;
    assert slot[0] == slot[..n][0] && slot[1] == slot[..n][1] && slot[2] == slot[..n][2];
    assert slot[3..n] == slot[..n][3..] == r.payload;
  }

  lemma StepKeepsInv(s: State, step: Step)
    requires Inv(s)
    ensures Inv(Next(s, step))
  {
    match step
    case FeedByte(b, committed) => ByteKeepsInv(s, b, committed);
    case FeedCopy => CopyKeepsInv(s);
    case FeedReady => HandOverKeepsInv(s);
    case _ => hide Seen, Image, OnByte;
  }

  lemma ByteKeepsInv(s: State, b: byte, committed: bool)
    requires Inv(s)
    ensures Inv(Next(s, FeedByte(b, committed)))
  {
    CompletedIsBounded(s.rx, b, committed);
    hide OnByte, Seen, Image;
  }

  lemma CopyKeepsInv(s: State)
    requires Inv(s)
    ensures Inv(Next(s, FeedCopy))
  {
    hide OnByte, Seen, Image;
  }

  lemma HandOverKeepsInv(s: State)
    requires Inv(s)
    ensures Inv(Next(s, FeedReady))
  {
    if s.feed.Copying? && s.feed.k >= |Image(s.feed.copied)| {
      ImageIsSeen(s.feed.copied, s.slot);
    }
    hide OnByte, Seen, Image;
  }

  /** The state after a schedule. */
  function Exec(s: State, steps: seq<Step>): (t: State)
    requires s.rx.Valid() && |s.slot| == SLOT_BYTES
    ensures t.rx.Valid() && |t.slot| == SLOT_BYTES
    decreases |steps|
  {
    if steps == [] then s else Exec(Next(s, steps[0]), steps[1..])
  }

  lemma {:induction false} ExecKeepsInv(s: State, steps: seq<Step>)
    requires Inv(s)
    ensures Inv(Exec(s, steps))
    decreases |steps|
  {
    if steps != [] {
      hide Next;
      hide Inv;
      StepKeepsInv(s, steps[0]);
      ExecKeepsInv(Next(s, steps[0]), steps[1..]);
    }
  }

  /** In every schedule: handlers see exactly the handed-over requests, in order and once each, the last one at most
      still due; each was validated; and the request does not change while its handler runs. */
  lemma HandlersSeeCheckedRequests(slot: seq<byte>, steps: seq<Step>)
    requires |slot| == SLOT_BYTES
    ensures var s := Exec(Start(slot), steps);
            && s.handled <= s.handed && |s.handed| <= |s.handled| + 1
            && (forall r :: r in s.handed ==> r in s.checked)
            && (s.task.Handling? ==> |s.handled| < |s.handed| && Seen(s.slot) == s.handed[|s.handled|])
            && (!s.ready ==> s.handled == s.handed)
  {
    ExecKeepsInv(Start(slot), steps);
  }

  /** While a handler runs, no step of the callback changes what it sees. */
  lemma SlotIsStable(slot: seq<byte>, steps: seq<Step>, more: seq<Step>)
    requires |slot| == SLOT_BYTES
    requires forall st :: st in more ==> !st.TaskReturn?
    ensures var s := Exec(Start(slot), steps);
            s.task.Handling? ==> Exec(s, more).task.Handling? && Seen(Exec(s, more).slot) == Seen(s.slot)
  {
    ExecKeepsInv(Start(slot), steps);
    var s := Exec(Start(slot), steps);
    if s.task.Handling? { StableFrom(s, more); }
  }

  lemma {:induction false} StableFrom(s: State, more: seq<Step>)
    requires Inv(s) && s.task.Handling?
    requires forall st :: st in more ==> !st.TaskReturn?
    ensures Exec(s, more).task.Handling? && Seen(Exec(s, more).slot) == Seen(s.slot)
    decreases |more|
  {
    hide Seen;
    hide OnByte;
    if more != [] {
      StepKeepsInv(s, more[0]);
      StableFrom(Next(s, more[0]), more[1..]);
    }
  }
}
