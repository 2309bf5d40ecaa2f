/** The leader-key matcher. */
module Leader {
  import opened Wrappers

  const MAX_SEQ := 4
  const MAX_ENTRIES := 16
  const TIMEOUT_MS := 1000

  /** A configured sequence ends at its first 0; an entry without result is empty. */
  datatype Entry = Entry(sequence: seq<byte>, result: byte, resultMod: byte)

  const NO_ENTRY := Entry([0, 0, 0, 0], 0, 0)

  type Table = t: seq<Entry> | |t| == MAX_ENTRIES && forall e :: e in t ==> |e.sequence| == MAX_SEQ
    witness seq(MAX_ENTRIES, _ => NO_ENTRY)

  function UntilZero(s: seq<byte>): seq<byte> {
    if s == [] || s[0] == 0 then [] else [s[0]] + UntilZero(s[1..])
  }

  /** The keys of an entry. */
  function Keys(e: Entry): seq<byte> { UntilZero(e.sequence) }

  predicate Spells(e: Entry, typed: seq<byte>) { e.result != 0 && Keys(e) == typed }

  predicate Continues(e: Entry, typed: seq<byte>) { e.result != 0 && |Keys(e)| > |typed| && typed <= Keys(e) }

  function FirstMatch(t: seq<Entry>, typed: seq<byte>): (r: Option<nat>)
    ensures r.Some? ==> r.value < |t| && Spells(t[r.value], typed)
    ensures r.None? ==> forall i :: 0 <= i < |t| ==> !Spells(t[i], typed)
    ensures r.Some? ==> forall i :: 0 <= i < r.value ==> !Spells(t[i], typed)
  {
    if t == [] then None
    else if Spells(t[0], typed) then Some(0)
    else match FirstMatch(t[1..], typed) case None => None case Some(i) => Some(i + 1)
  }

  predicate SomeContinues(t: seq<Entry>, typed: seq<byte>) {
    exists i :: 0 <= i < |t| && Continues(t[i], typed)
  }

  datatype State = State(active: bool, buffer: seq<byte>, lastKey: u32, key: byte, keyMod: byte, resolved: bool)

  function TryMatch(t: Table, s: State, deferOnPrefix: bool): State {
    if deferOnPrefix && SomeContinues(t, s.buffer) then s
    else
      match FirstMatch(t, s.buffer)
      case None => s
      case Some(i) => s.(key := t[i].result, keyMod := t[i].resultMod, resolved := true, active := false)
  }

  function Cancel(s: State): State { s.(active := false, buffer := []) }

  function Start(s: State, now: u32): State { s.(active := true, buffer := [], lastKey := now, resolved := false) }

  function Feed(t: Table, s: State, keycode: byte, now: u32): (State, bool) {
    if !s.active || keycode == 0 then (s, false)
    else if |s.buffer| < MAX_SEQ then (TryMatch(t, s.(buffer := s.buffer + [keycode], lastKey := now), true), true)
    else (Cancel(s), false)
  }

  function Tick(t: Table, s: State, now: u32): (State, bool) {
    if s.resolved then (s, true)
    else if !s.active then (s, false)
    else if Elapsed(now, s.lastKey) >= TIMEOUT_MS then
      var d := Cancel(if s.buffer != [] then TryMatch(t, s, false) else s);
      (d, d.resolved)
    else (s, false)
  }

  // ---- Typing ----

  datatype Event = Key(keycode: byte, now: u32) | Beat(now: u32)

  /** The matcher and the keys it has absorbed since the leader key. */
  datatype Session = Session(state: State, typed: seq<byte>)

  function Next(t: Table, w: Session, ev: Event): Session {
    match ev
    case Key(keycode, now) =>
      var (s, absorbed) := Feed(t, w.state, keycode, now);
      Session(s, if absorbed then w.typed + [keycode] else w.typed)
    case Beat(now) => w.(state := Tick(t, w.state, now).0)
  }

  function Play(t: Table, s: State, now: u32, events: seq<Event>): Session {
    if events == [] then Session(Start(s, now), [])
    else Next(t, Play(t, s, now, events[..|events| - 1]), events[|events| - 1])
  }

  function Pressed(events: seq<Event>): seq<byte> {
    if events == [] then []
    else Pressed(events[..|events| - 1]) + (if events[|events| - 1].Key? then [events[|events| - 1].keycode] else [])
  }

  /** No pause: every tick comes less than the timeout after the last key. */
  predicate Brisk(t: Table, s: State, now: u32, events: seq<Event>) {
    forall i :: 0 <= i < |events| && events[i].Beat? ==>
      Elapsed(events[i].now, Play(t, s, now, events[..i]).state.lastKey) < TIMEOUT_MS
  }

  lemma {:induction false} UntilZeroNonzero(s: seq<byte>)
    ensures |UntilZero(s)| <= |s| && forall i :: 0 <= i < |UntilZero(s)| ==> UntilZero(s)[i] != 0
  {
    if s != [] && s[0] != 0 { UntilZeroNonzero(s[1..]); }
  }

  // While a configured sequence is being typed, its strict prefixes never resolve; complete, it does or waits for a
  // longer one.
  ghost predicate Typing(t: Table, w: Session, goal: seq<byte>) {
    && w.typed <= goal
    && (if w.state.resolved then
          w.typed == goal && FirstMatch(t, goal).Some?
          && w.state.key == t[FirstMatch(t, goal).value].result
          && w.state.keyMod == t[FirstMatch(t, goal).value].resultMod
          && !w.state.active
        else
          w.state.active && w.state.buffer == w.typed)
  }

  lemma BriskFront(t: Table, s: State, now: u32, events: seq<Event>)
    requires events != [] && Brisk(t, s, now, events)
    ensures Brisk(t, s, now, events[..|events| - 1])
  {
    var front := events[..|events| - 1];
    assert forall i :: 0 <= i < |front| ==> front[i] == events[i] && front[..i] == events[..i];
  }

  lemma KeyKeepsTyping(t: Table, w: Session, entry: nat, keycode: byte, now: u32)
    requires entry < MAX_ENTRIES && t[entry].result != 0
    requires Typing(t, w, Keys(t[entry])) && w.typed + [keycode] <= Keys(t[entry])
    ensures Typing(t, Next(t, w, Key(keycode, now)), Keys(t[entry]))
    ensures Next(t, w, Key(keycode, now)).typed == w.typed + [keycode]
  {
    var goal, typed := Keys(t[entry]), w.typed + [keycode];
    assert t[entry] in t;
    UntilZeroNonzero(t[entry].sequence);
    assert typed[|w.typed|] == goal[|w.typed|] && keycode != 0 && |typed| <= MAX_SEQ;
    if typed != goal {
      assert Continues(t[entry], typed);
    } else {
      assert Spells(t[entry], typed);
    }
  }

  lemma {:induction false} TypingProgresses(t: Table, s: State, now: u32, entry: nat, events: seq<Event>)
    requires entry < MAX_ENTRIES && t[entry].result != 0
    requires Pressed(events) <= Keys(t[entry]) && Brisk(t, s, now, events)
    ensures var w := Play(t, s, now, events); Typing(t, w, Keys(t[entry])) && w.typed == Pressed(events)
    decreases |events|
  {
    if events != [] {
      var front, last := events[..|events| - 1], events[|events| - 1];
      BriskFront(t, s, now, events);
      assert Pressed(front) <= Pressed(events);
      TypingProgresses(t, s, now, entry, front);
      var w := Play(t, s, now, front);
      if last.Key? { KeyKeepsTyping(t, w, entry, last.keycode, last.now); }
    }
  }

  /** Typing a configured sequence without a pause never resolves before its last key. */
  lemma NeverEarly(t: Table, s: State, now: u32, entry: nat, events: seq<Event>)
    requires entry < MAX_ENTRIES && t[entry].result != 0 && Brisk(t, s, now, events)
    requires Pressed(events) < Keys(t[entry])
    ensures var w := Play(t, s, now, events); !w.state.resolved && w.state.active && w.state.buffer == Pressed(events)
  {
    TypingProgresses(t, s, now, entry, events);
  }

  /** Typed to the end and followed by a pause, it yields the lowest-numbered entry with exactly these keys. */
  lemma PauseResolves(t: Table, s: State, now: u32, entry: nat, events: seq<Event>, late: u32)
    requires entry < MAX_ENTRIES && t[entry].result != 0 && Brisk(t, s, now, events)
    requires Pressed(events) == Keys(t[entry]) != []
    requires Elapsed(late, Play(t, s, now, events).state.lastKey) >= TIMEOUT_MS
    ensures var (d, hit) := Tick(t, Play(t, s, now, events).state, late); var m := FirstMatch(t, Keys(t[entry]));
            && hit && d.resolved && m.Some? && m.value <= entry
            && d.key == t[m.value].result && d.keyMod == t[m.value].resultMod
  {
    TypingProgresses(t, s, now, entry, events);
    assert Spells(t[entry], Keys(t[entry]));
  }

  /** Conversely, in any session at all, whatever resolves is the lowest-numbered entry that spells the keys
      absorbed. */
  lemma {:induction false} ResolvedWasTyped(t: Table, s: State, now: u32, events: seq<Event>)
    ensures var w := Play(t, s, now, events);
            && (w.state.active ==> !w.state.resolved && w.state.buffer == w.typed)
            && (w.state.resolved ==> var m := FirstMatch(t, w.typed);
                  m.Some? && w.state.key == t[m.value].result && w.state.keyMod == t[m.value].resultMod)
    decreases |events|
  {
    if events != [] { ResolvedWasTyped(t, s, now, events[..|events| - 1]); }
  }

  /** When the last key came that was not 0, or else the leader key itself. */
  function LastPress(now: u32, events: seq<Event>): u32 {
    if events == [] then now
    else
      match events[|events| - 1]
      case Key(keycode, at) => if keycode == 0 then LastPress(now, events[..|events| - 1]) else at
      case Beat(_) => LastPress(now, events[..|events| - 1])
  }

  /** As long as a session is active, it is timed from its last key. */
  lemma {:induction false} TimedFromLastKey(t: Table, s: State, now: u32, events: seq<Event>)
    ensures var w := Play(t, s, now, events); w.state.active ==> w.state.lastKey == LastPress(now, events)
    decreases |events|
  {
    if events != [] { TimedFromLastKey(t, s, now, events[..|events| - 1]); }
  }

  /** What a key does in any session: up to four are absorbed, each resolves exactly if it completes an entry that none
      continues, and a fifth one ends the session without a result. */
  lemma KeyAnswers(t: Table, s: State, now: u32, events: seq<Event>, keycode: byte, at: u32)
    ensures var w := Play(t, s, now, events); var (d, absorbed) := Feed(t, w.state, keycode, at);
            && (absorbed <==> w.state.active && keycode != 0 && |w.typed| < 4)
            && (absorbed ==> var typed := w.typed + [keycode];
                  && (d.resolved <==> (exists i :: 0 <= i < 16 && Spells(t[i], typed)) && !SomeContinues(t, typed))
                  && d.active == !d.resolved)
            && (!absorbed ==> if w.state.active && keycode != 0 then !d.active && !d.resolved else d == w.state)
  {
    ResolvedWasTyped(t, s, now, events);
    hide Play, Spells, Continues;
  }

  /** What a tick does in any session: nothing within a second of the last key. After that the session ends, with a
      result exactly if the keys absorbed are those of some entry. */
  lemma TickAnswers(t: Table, s: State, now: u32, events: seq<Event>, at: u32)
    ensures var w := Play(t, s, now, events); var (d, hit) := Tick(t, w.state, at);
            && (hit <==> d.resolved)
            && (!w.state.active || (at - LastPress(now, events)) % U32 < 1000 ==> d == w.state)
            && (w.state.active && (at - LastPress(now, events)) % U32 >= 1000 ==>
                  && !d.active && d.buffer == []
                  && (hit <==> w.typed != [] && exists i :: 0 <= i < 16 && Spells(t[i], w.typed)))
  {
    ResolvedWasTyped(t, s, now, events);
    TimedFromLastKey(t, s, now, events);
    hide Play, Spells, LastPress;
  }
}
