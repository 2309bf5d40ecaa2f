/** What becomes of every key the tap/hold engine tracks, told from the events alone. */
module TapHoldFate {
  import opened Wrappers
  import opened TapHold
  import opened TapHoldTaps

  // ---- The course of one key ----

  /** The keycodes the engine takes: layer and modifier keys, and one-shot modifiers. */
  predicate Trackable(kc: word) { 0x4000 <= kc < 0x6000 || 0x3000 <= kc < 0x3100 }

  /** What one event does to a key pressed at `time`: its release makes it a tap while it is undecided, and ends a hold;
      an interrupt makes it a hold, and so does a timeout of 200 ms. A tap stays one. */
  function Course(mode: Mode, time: u32, row: byte, col: byte, ev: Event): Mode {
    match ev
    case EvRelease(r, c) =>
      if r != row || c != col then mode else if mode == PENDING then TAP else if mode == HOLD then IDLE else mode
    case EvResolve(Interrupt) => if mode == PENDING then HOLD else mode
    case EvResolve(Timeout(now)) => if mode == PENDING && (now - time) % 0x1_0000_0000 >= 200 then HOLD else mode
    case _ => mode
  }

  function Fate(mode: Mode, time: u32, row: byte, col: byte, events: seq<Event>): Mode
    decreases |events|
  {
    if events == [] then mode else Fate(Course(mode, time, row, col, events[0]), time, row, col, events[1..])
  }

  /** A press begins a key if the engine takes its keycode, tracks none at its place, and has a slot free. */
  ghost predicate Begins(slots: Slots, kc: word, row: byte, col: byte) {
    && Trackable(kc)
    && (forall i: Index :: slots[i].mode == IDLE || slots[i].row != row || slots[i].col != col)
    && exists i: Index :: slots[i].mode == IDLE
  }

  function Only(kc: word): multiset<word> { multiset{kc} }

  /** The keycodes of the keys begun in a run that end up as `m`, judged by the events after each. */
  ghost function Begun(w: World, events: seq<Event>, m: Mode): multiset<word>
    decreases |events|
  {
    if events == [] then multiset{}
    else
      var first := match events[0]
                   case EvPress(kc, row, col, now) =>
                     if Begins(w.engine.slots, kc, row, col) && Fate(PENDING, now, row, col, events[1..]) == m
                     then Only(kc) else multiset{}
                   case _ => multiset{};
      first + Begun(Next(w, events[0]), events[1..], m)
  }

  // ---- What the engine gives out ----

  /** The taps that one call takes: up to the first with a key. */
  function Taken(taps: seq<word>): seq<word> {
    var k := FirstKey(taps);
    if k < |taps| then taps[..k + 1] else taps
  }

  /** All taps taken in a run, in order. */
  function Handed(w: World, events: seq<Event>): seq<word>
    decreases |events|
  {
    if events == [] then []
    else (if events[0].EvConsume? then Taken(Taps(w.engine.slots, 0)) else []) + Handed(Next(w, events[0]), events[1..])
  }

  /** Taps given up because their key was released once more before they were taken. */
  function Dropped(w: World, events: seq<Event>): seq<word>
    decreases |events|
  {
    if events == [] then []
    else
      var s := w.engine.slots;
      (match events[0]
       case EvRelease(row, col) =>
         var at := FindByPos(s, row, col);
         if at.Some? && s[at.value].mode == TAP then [s[at.value].keycode] else []
       case _ => [])
      + Dropped(Next(w, events[0]), events[1..])
  }

  // ---- Sums over the slots ----

  /** What a slot will have become of when the events are over. */
  function Share(s: Slot, events: seq<Event>, m: Mode): multiset<word> {
    if s.mode != IDLE && Fate(s.mode, s.pressTime, s.row, s.col, events) == m then Only(s.keycode) else multiset{}
  }

  function Sum(slots: Slots, events: seq<Event>, m: Mode): multiset<word> {
    Share(slots[0], events, m) + Share(slots[1], events, m) + Share(slots[2], events, m) + Share(slots[3], events, m)
  }

  /** The keycodes of the slots in one mode. */
  function InMode(slots: Slots, m: Mode): multiset<word> { Sum(slots, [], m) }

  lemma OneSlot(slots: Slots, i: Index, s: Slot, events: seq<Event>, m: Mode)
    ensures Sum(slots[i := s], events, m) + Share(slots[i], events, m) == Sum(slots, events, m) + Share(s, events, m)
  {
    hide Share;
  }

  lemma {:induction false} TapsStay(time: u32, row: byte, col: byte, events: seq<Event>)
    ensures Fate(TAP, time, row, col, events) == TAP
    decreases |events|
  {
    if events != [] { TapsStay(time, row, col, events[1..]); }
  }

  lemma {:induction false} GoneStays(time: u32, row: byte, col: byte, events: seq<Event>)
    ensures Fate(IDLE, time, row, col, events) == IDLE
    decreases |events|
  {
    if events != [] { GoneStays(time, row, col, events[1..]); }
  }

  /** One event moves a slot as the key's course says. */
  predicate Follows(s: Slot, t: Slot, ev: Event) {
    && (s.mode == IDLE ==> t.mode == IDLE)
    && (s.mode != IDLE ==> t.keycode == s.keycode && t.pressTime == s.pressTime && t.row == s.row && t.col == s.col
                           && t.mode == Course(s.mode, s.pressTime, s.row, s.col, ev))
  }

  lemma SameShare(s: Slot, t: Slot, events: seq<Event>, m: Mode)
    requires events != [] && Follows(s, t, events[0]) && m != IDLE
    ensures Share(t, events[1..], m) == Share(s, events, m)
  {
    GoneStays(s.pressTime, s.row, s.col, events[1..]);
    hide Course;
  }

  /** No place is tracked twice. */
  ghost predicate Apart(slots: Slots) {
    forall i: Index, j: Index :: i != j && slots[i].mode != IDLE && slots[j].mode != IDLE ==>
      slots[i].row != slots[j].row || slots[i].col != slots[j].col
  }

  // ---- Searches ----

  lemma {:induction false} FindsPlace(slots: seq<Slot>, row: byte, col: byte)
    ensures match FindByPos(slots, row, col)
            case None =>
              forall i :: 0 <= i < |slots| ==> slots[i].mode == IDLE || slots[i].row != row || slots[i].col != col
            case Some(i) => i < |slots| && slots[i].mode != IDLE && slots[i].row == row && slots[i].col == col
  {
    if slots != [] {
      FindsPlace(slots[1..], row, col);
      assert forall i :: 0 < i < |slots| ==> slots[i] == slots[1..][i - 1];
    }
  }

  lemma {:induction false} FindsRoom(slots: seq<Slot>)
    ensures match FindFree(slots)
            case None => forall i :: 0 <= i < |slots| ==> slots[i].mode != IDLE
            case Some(i) => i < |slots| && slots[i].mode == IDLE
  {
    if slots != [] {
      FindsRoom(slots[1..]);
      assert forall i :: 0 < i < |slots| ==> slots[i] == slots[1..][i - 1];
    }
  }

  /** A press is absorbed exactly if the engine takes its keycode, and tracks its place already or has room. */
  lemma PressAbsorbs(e: Engine, kc: word, row: byte, col: byte, now: u32)
    ensures var free := exists i: Index :: e.slots[i].mode == IDLE;
            var tracked := exists i: Index :: e.slots[i].mode != IDLE && e.slots[i].row == row && e.slots[i].col == col;
            Press(e, kc, row, col, now).1 <==> Trackable(kc) && (free || tracked)
  {
    FindsPlace(e.slots, row, col);
    FindsRoom(e.slots);
    hide FindByPos, FindFree;
  }

  /** A press that begins a key puts it, undecided, into a free slot; any other changes nothing. */
  lemma PressShape(e: Engine, kc: word, row: byte, col: byte, now: u32) returns (i: Index, s: Slot)
    ensures if Begins(e.slots, kc, row, col)
            then e.slots[i].mode == IDLE && s == Slot(PENDING, kc, row, col, now, s.seqNo)
                 && Press(e, kc, row, col, now).0 == e.(slots := e.slots[i := s])
            else Press(e, kc, row, col, now).0 == e
  {
    FindsPlace(e.slots, row, col);
    FindsRoom(e.slots);
    hide FindByPos, FindFree;
    var free := FindFree(e.slots);
    i, s := 0, FREE;
    if free.Some? {
      i := free.value;
      s := Slot(PENDING, kc, row, col, now, e.slots[i].seqNo);
    }
  }

  // ---- One event ----

  /** What one event gives out, and what it begins. */
  ghost function Begins1(w: World, events: seq<Event>, m: Mode): multiset<word>
    requires events != []
  {
    match events[0]
    case EvPress(kc, row, col, now) =>
      if Begins(w.engine.slots, kc, row, col) && Fate(PENDING, now, row, col, events[1..]) == m
      then Only(kc) else multiset{}
    case _ => multiset{}
  }

  function Gives1(w: World, ev: Event): multiset<word> {
    var s := w.engine.slots;
    match ev
    case EvConsume => multiset(Taken(Taps(s, 0)))
    case EvRelease(row, col) =>
      var at := FindByPos(s, row, col);
      if at.Some? && s[at.value].mode == TAP then Only(s[at.value].keycode) else multiset{}
    case _ => multiset{}
  }

  ghost predicate Balanced(w: World, events: seq<Event>, m: Mode)
    requires events != []
  {
    var t := Next(w, events[0]).engine.slots;
    Sum(w.engine.slots, events, m) + Begins1(w, events, m)
    == Sum(t, events[1..], m) + if m == TAP then Gives1(w, events[0]) else multiset{}
  }

  /** Slots that all follow the event keep what they will have become of. */
  lemma SumFollows(slots: Slots, after: Slots, events: seq<Event>, m: Mode)
    requires events != [] && m != IDLE && forall i: Index :: Follows(slots[i], after[i], events[0])
    ensures Sum(after, events[1..], m) == Sum(slots, events, m)
  {
    SameShare(slots[0], after[0], events, m);
    SameShare(slots[1], after[1], events, m);
    SameShare(slots[2], after[2], events, m);
    SameShare(slots[3], after[3], events, m);
    hide Share, Follows;
  }

  lemma PressBalances(w: World, events: seq<Event>, m: Mode)
    requires events != [] && events[0].EvPress? && m != IDLE && Apart(w.engine.slots)
    ensures Balanced(w, events, m) && Apart(Next(w, events[0]).engine.slots)
  {
    hide Press, Share, Fate, Sum, Apart, Begins;
    var EvPress(kc, row, col, now) := events[0];
    var slots := w.engine.slots;
    var i, s := PressShape(w.engine, kc, row, col, now);
    PressChangesNothing(slots, events, m);
    if Begins(slots, kc, row, col) {
      OneSlot(slots, i, s, events[1..], m);
      NewShare(slots[i], s, events[1..], m);
      NewIsApart(slots, i, s);
    }
  }

  lemma PressChangesNothing(slots: Slots, events: seq<Event>, m: Mode)
    requires events != [] && events[0].EvPress? && m != IDLE
    ensures Sum(slots, events[1..], m) == Sum(slots, events, m)
  {
    hide Sum;
    SumFollows(slots, slots, events, m);
  }

  lemma NewIsApart(slots: Slots, i: Index, s: Slot)
    requires Apart(slots) && slots[i].mode == IDLE && Begins(slots, s.keycode, s.row, s.col)
    ensures Apart(slots[i := s])
  {
  }

  lemma NewShare(free: Slot, s: Slot, events: seq<Event>, m: Mode)
    requires free.mode == IDLE && s.mode == PENDING
    ensures Share(free, events, m) == multiset{}
    ensures Share(s, events, m)
            == if Fate(PENDING, s.pressTime, s.row, s.col, events) == m then Only(s.keycode) else multiset{}
  {
  }

  lemma ReleaseShape(e: Engine, row: byte, col: byte) returns (i: Option<Index>)
    requires Apart(e.slots)
    ensures i == FindByPos(e.slots, row, col)
    ensures match i
            case None => Release(e, row, col).0 == e && forall j: Index :: Elsewhere(e.slots[j], row, col)
            case Some(at) =>
              && e.slots[at].mode != IDLE && e.slots[at].row == row && e.slots[at].col == col
              && (forall j: Index :: j != at ==> Elsewhere(e.slots[j], row, col))
              && var t := if e.slots[at].mode == PENDING then TAP else IDLE;
                 Release(e, row, col).0.slots == e.slots[at := e.slots[at].(mode := t)]
  {
    FindsPlace(e.slots, row, col);
    i := match FindByPos(e.slots, row, col) case None => None case Some(k) => Some(k);
    hide FindByPos;
    if i.Some? { DeactivateSlots(e, i.value); }
    hide Deactivate;
  }

  predicate Elsewhere(s: Slot, row: byte, col: byte) { s.mode == IDLE || s.row != row || s.col != col }

  lemma DeactivateSlots(e: Engine, i: Index)
    ensures Deactivate(e, i).slots == e.slots[i := e.slots[i].(mode := IDLE)]
  {
    hide ModsOf, Top;
  }

  lemma ReleaseBalances(w: World, events: seq<Event>, m: Mode)
    requires events != [] && events[0].EvRelease? && m != IDLE && Apart(w.engine.slots)
    ensures Balanced(w, events, m) && Apart(Next(w, events[0]).engine.slots)
  {
    hide Release, Share, Fate, FindByPos;
    var EvRelease(row, col) := events[0];
    var slots, t := w.engine.slots, Next(w, events[0]).engine.slots;
    var i := ReleaseShape(w.engine, row, col);
    if i.Some? && slots[i.value].mode == TAP {
      SumFollows(slots, slots, events, m);
      OneSlot(slots, i.value, t[i.value], events[1..], m);
      TapShare(slots[i.value], t[i.value], events[1..], m);
    } else {
      SumFollows(slots, t, events, m);
    }
  }

  lemma TapShare(tap: Slot, free: Slot, events: seq<Event>, m: Mode)
    requires tap.mode == TAP && free.mode == IDLE
    ensures Share(free, events, m) == multiset{}
    ensures Share(tap, events, m) == if m == TAP then Only(tap.keycode) else multiset{}
  {
    TapsStay(tap.pressTime, tap.row, tap.col, events);
  }

  lemma ActivateSlots(e: Engine, i: Index) returns (s: Slot)
    ensures Activate(e, i).slots == e.slots[i := s] && s == e.slots[i].(mode := HOLD, seqNo := s.seqNo)
  {
    hide ModsOf, Top;
    s := if ValidLt(e.slots[i].keycode) then e.slots[i].(mode := HOLD, seqNo := (e.seqNo + 1) % U32)
         else e.slots[i].(mode := HOLD);
  }

  lemma {:induction false} ResolveFollows(e: Engine, t: Trigger, n: nat)
    requires n <= SLOTS
    ensures forall j: Index :: j < n ==> Follows(e.slots[j], Resolve(e, t, n).slots[j], EvResolve(t))
    ensures forall j: Index :: j >= n ==> Resolve(e, t, n).slots[j] == e.slots[j]
  {
    hide Activate;
    if n > 0 {
      ResolveFollows(e, t, n - 1);
      var d := Resolve(e, t, n - 1);
      var s := ActivateSlots(d, n - 1);
    }
  }

  lemma ResolveBalances(w: World, events: seq<Event>, m: Mode)
    requires events != [] && events[0].EvResolve? && m != IDLE && Apart(w.engine.slots)
    ensures Balanced(w, events, m) && Apart(Next(w, events[0]).engine.slots)
  {
    var t := Next(w, events[0]).engine.slots;
    assert forall i: Index :: Follows(w.engine.slots[i], t[i], events[0]) by {
      ResolveFollows(w.engine, events[0].trigger, SLOTS);
    }
    hide Resolve, ResolvedHeld, Share;
    SumFollows(w.engine.slots, t, events, m);
  }

  // ---- Taking taps ----

  function Rest(s: Slot, events: seq<Event>, m: Mode): multiset<word> {
    if s.mode == TAP then multiset{} else Share(s, events, m)
  }

  function OthersSum(slots: Slots, events: seq<Event>, m: Mode): multiset<word> {
    Rest(slots[0], events, m) + Rest(slots[1], events, m) + Rest(slots[2], events, m) + Rest(slots[3], events, m)
  }

  function TapAt(slots: Slots, i: Index): multiset<word> {
    if slots[i].mode == TAP then Only(slots[i].keycode) else multiset{}
  }

  lemma TapsStep(slots: Slots, i: Index)
    ensures multiset(Taps(slots, i)) == TapAt(slots, i) + multiset(Taps(slots, i + 1))
  {
    TapsNext(slots, i);
    hide Taps;
  }

  lemma TapsAreSlots(slots: Slots)
    ensures multiset(Taps(slots, 0)) == TapAt(slots, 0) + TapAt(slots, 1) + TapAt(slots, 2) + TapAt(slots, 3)
  {
    hide Taps, TapAt;
    TapsStep(slots, 0);
    TapsStep(slots, 1);
    TapsStep(slots, 2);
    TapsStep(slots, 3);
    NoTaps(slots);
    var a, b, c, d := TapAt(slots, 0), TapAt(slots, 1), TapAt(slots, 2), TapAt(slots, 3);
    assert multiset(Taps(slots, 3)) == d && multiset(Taps(slots, 2)) == c + d;
    assert a + (b + (c + d)) == a + b + c + d;
  }

  lemma SplitShare(slots: Slots, i: Index, events: seq<Event>, m: Mode)
    ensures Share(slots[i], events, m)
            == Rest(slots[i], events, m) + if m == TAP then TapAt(slots, i) else multiset{}
  {
    TapsStay(slots[i].pressTime, slots[i].row, slots[i].col, events);
  }

  /** The sum is that of the taps, for those that ask for taps, and that of the other slots. */
  lemma SumSplits(slots: Slots, events: seq<Event>, m: Mode)
    ensures Sum(slots, events, m)
            == OthersSum(slots, events, m) + if m == TAP then multiset(Taps(slots, 0)) else multiset{}
  {
    hide Share, Rest, TapAt, Taps;
    SplitShare(slots, 0, events, m);
    SplitShare(slots, 1, events, m);
    SplitShare(slots, 2, events, m);
    SplitShare(slots, 3, events, m);
    if m == TAP {
      TapsAreSlots(slots);
      Zip(Rest(slots[0], events, m), Rest(slots[1], events, m), Rest(slots[2], events, m), Rest(slots[3], events, m),
          TapAt(slots, 0), TapAt(slots, 1), TapAt(slots, 2), TapAt(slots, 3));
    }
  }

  lemma Zip(a: multiset<word>, b: multiset<word>, c: multiset<word>, d: multiset<word>,
            w: multiset<word>, x: multiset<word>, y: multiset<word>, z: multiset<word>)
    ensures (a + w) + (b + x) + (c + y) + (d + z) == (a + b + c + d) + (w + x + y + z)
  {
  }

  lemma {:induction false} ConsumeFrees(e: Engine, i: nat, armed: seq<byte>)
    requires i <= SLOTS
    ensures var d := ConsumeFrom(e, i, armed).engine;
            forall j: Index :: d.slots[j] == e.slots[j]
                               || (e.slots[j].mode == TAP && d.slots[j] == e.slots[j].(mode := IDLE))
    decreases SLOTS - i
  {
    if i < SLOTS {
      if e.slots[i].mode != TAP {
        ConsumeFrees(e, i + 1, armed);
      } else {
        var kc := e.slots[i].keycode;
        var d := e.(slots := e.slots[i := e.slots[i].(mode := IDLE)]);
        ConsumeFrees(d, i + 1, if IsOsm(kc) then armed + [LowByte(kc)] else armed);
      }
    }
  }

  lemma TakeOneMore(s: seq<word>, k: nat)
    requires k < |s|
    ensures s[..k + 1] == s[..k] + [s[k]]
  {
  }

  lemma TakeThenDrop(s: seq<word>, k: nat)
    requires k <= |s|
    ensures s == s[..k] + s[k..]
  {
  }

  lemma TakenAndLeft(taps: seq<word>)
    ensures var k := FirstKey(taps); taps == Taken(taps) + if k < |taps| then taps[k + 1..] else []
  {
    hide HasKey, FirstKey;
    var k := FirstKey(taps);
    if k < |taps| { TakeThenDrop(taps, k + 1); } else { assert taps + [] == taps; }
  }

  /** One call: the taps there were are those taken and those left, and no other slot has changed. */
  lemma ConsumeSplits(e: Engine, events: seq<Event>, m: Mode)
    ensures var t := ConsumeFrom(e, 0, []).engine.slots;
            && OthersSum(t, events, m) == OthersSum(e.slots, events, m)
            && multiset(Taps(e.slots, 0)) == multiset(Taken(Taps(e.slots, 0))) + multiset(Taps(t, 0))
            && (Apart(e.slots) ==> Apart(t))
  {
    hide Share, Rest, Taps, Taken, ConsumeFrom;
    var t := ConsumeFrom(e, 0, []).engine.slots;
    ConsumeFrees(e, 0, []);
    ConsumeTakes(e, 0, []);
    TakenAndLeft(Taps(e.slots, 0));
    RestUnchanged(e.slots, t, events, m);
    hide FirstKey, Masks;
  }

  lemma ConsumeBalances(w: World, events: seq<Event>, m: Mode)
    requires events != [] && events[0].EvConsume? && m != IDLE && Apart(w.engine.slots)
    ensures Balanced(w, events, m) && Apart(Next(w, events[0]).engine.slots)
  {
    hide ConsumeFrom, Taps, Fate, Sum, Taken, OthersSum, Apart;
    var e, t := w.engine, ConsumeFrom(w.engine, 0, []).engine.slots;
    ConsumeSplits(e, events[1..], m);
    SumFollows(e.slots, e.slots, events, m);
    SumSplits(e.slots, events[1..], m);
    SumSplits(t, events[1..], m);
    var others, left, taken := OthersSum(t, events[1..], m), multiset(Taps(t, 0)), multiset(Taken(Taps(e.slots, 0)));
    assert others + (taken + left) == others + left + taken;
  }

  lemma RestUnchanged(slots: Slots, after: Slots, events: seq<Event>, m: Mode)
    requires forall j: Index :: after[j] == slots[j]
                                || (slots[j].mode == TAP && after[j] == slots[j].(mode := IDLE))
    ensures forall i: Index :: Rest(after[i], events, m) == Rest(slots[i], events, m)
  {
    hide Fate;
  }

  lemma LayoutBalances(w: World, events: seq<Event>, m: Mode)
    requires events != [] && events[0].EvLayout? && m != IDLE && Apart(w.engine.slots)
    ensures Balanced(w, events, m) && Apart(Next(w, events[0]).engine.slots)
  {
    hide Share, Fate, Sum;
    SumFollows(w.engine.slots, w.engine.slots, events, m);
  }

  lemma StepBalances(w: World, events: seq<Event>, m: Mode)
    requires events != [] && m != IDLE && Apart(w.engine.slots)
    ensures Balanced(w, events, m) && Apart(Next(w, events[0]).engine.slots)
  {
    hide Balanced, Apart, Next;
    match events[0]
    case EvPress(_, _, _, _) => PressBalances(w, events, m);
    case EvRelease(_, _) => ReleaseBalances(w, events, m);
    case EvResolve(_) => ResolveBalances(w, events, m);
    case EvConsume => ConsumeBalances(w, events, m);
    case EvLayout(_) => LayoutBalances(w, events, m);
  }

  // ---- Every run ----

  ghost function GivenOut(w: World, events: seq<Event>, m: Mode): multiset<word> {
    if m == TAP then multiset(Handed(w, events)) + multiset(Dropped(w, events)) else multiset{}
  }

  lemma FirstGiven(w: World, events: seq<Event>)
    requires events != []
    ensures GivenOut(w, events, TAP) == Gives1(w, events[0]) + GivenOut(Next(w, events[0]), events[1..], TAP)
  {
    hide Next, Taps, Taken, FindByPos;
    var n, rest := Next(w, events[0]), events[1..];
    var handed: seq<word> := if events[0].EvConsume? then Taken(Taps(w.engine.slots, 0)) else [];
    assert Handed(w, events) == handed + Handed(n, rest);
    assert multiset(Handed(w, events)) == multiset(handed) + multiset(Handed(n, rest));
    if !events[0].EvRelease? { assert Dropped(w, events) == [] + Dropped(n, rest) == Dropped(n, rest); }
  }

  lemma FirstBegun(w: World, events: seq<Event>, m: Mode)
    requires events != []
    ensures Begun(w, events, m) == Begins1(w, events, m) + Begun(Next(w, events[0]), events[1..], m)
  {
    hide Next, Begins, Fate;
  }

  lemma {:induction false} RunBalances(w: World, events: seq<Event>, m: Mode)
    requires m != IDLE && Apart(w.engine.slots)
    ensures Sum(w.engine.slots, events, m) + Begun(w, events, m)
            == InMode(Exec(w, events).engine.slots, m) + GivenOut(w, events, m)
    decreases |events|
  {
    if events != [] {
      hide Next, Sum, Begun, GivenOut, Begins1, Gives1, Apart, InMode;
      var n, rest := Next(w, events[0]), events[1..];
      StepBalances(w, events, m);
      RunBalances(n, rest, m);
      FirstBegun(w, events, m);
      FirstGiven(w, events);
      NothingElseGiven(w, events, m);
      var gives := if m == TAP then Gives1(w, events[0]) else multiset{};
      Regroup(Sum(w.engine.slots, events, m), Begins1(w, events, m), Begun(n, rest, m), Sum(n.engine.slots, rest, m),
              gives, InMode(Exec(w, events).engine.slots, m), GivenOut(n, rest, m));
    }
  }

  lemma NothingElseGiven(w: World, events: seq<Event>, m: Mode)
    ensures m != TAP ==> GivenOut(w, events, m) == multiset{}
    ensures m != TAP && events != [] ==> GivenOut(Next(w, events[0]), events[1..], m) == multiset{}
  {
  }

  lemma Regroup(now: multiset<word>, first: multiset<word>, later: multiset<word>, next: multiset<word>,
                gives: multiset<word>, left: multiset<word>, given: multiset<word>)
    requires now + first == next + gives && next + later == left + given
    ensures now + (first + later) == left + (gives + given)
  {
    assert now + (first + later) == (now + first) + later;
    assert (next + gives) + later == (next + later) + gives;
    assert (left + given) + gives == left + (gives + given);
  }

  /** Every tap once: what is handed over, what waits, and what was given up by a second release are together exactly
      the keys begun whose release came before any trigger that was due; undecided and held are exactly those whose
      course says so. */
  lemma KeysAreAccountedFor(layout: byte, events: seq<Event>)
    ensures var s, w := Start(layout), Exec(Start(layout), events);
            && multiset(Handed(s, events)) + multiset(Dropped(s, events)) + InMode(w.engine.slots, TAP)
               == Begun(s, events, TAP)
            && InMode(w.engine.slots, PENDING) == Begun(s, events, PENDING)
            && InMode(w.engine.slots, HOLD) == Begun(s, events, HOLD)
  {
    hide Begun, Handed, Dropped, InMode, Exec;
    EndsAs(layout, events, TAP);
    EndsAs(layout, events, PENDING);
    EndsAs(layout, events, HOLD);
    NothingElseGiven(Start(layout), events, PENDING);
    NothingElseGiven(Start(layout), events, HOLD);
    var taps := InMode(Exec(Start(layout), events).engine.slots, TAP);
    assert taps + GivenOut(Start(layout), events, TAP) == GivenOut(Start(layout), events, TAP) + taps;
  }

  lemma EndsAs(layout: byte, events: seq<Event>, m: Mode)
    requires m != IDLE
    ensures InMode(Exec(Start(layout), events).engine.slots, m) + GivenOut(Start(layout), events, m)
            == Begun(Start(layout), events, m)
  {
    hide Begun, GivenOut, InMode, Exec, Sum;
    NothingTracked(layout, events, m);
    RunBalances(Start(layout), events, m);
  }

  lemma NothingTracked(layout: byte, events: seq<Event>, m: Mode)
    ensures var slots := Start(layout).engine.slots; Apart(slots) && Sum(slots, events, m) == multiset{}
  {
  }

  // ---- What the caller sees ----

  /** The keys that calls returned, and the one-shot modifiers that they armed. */
  function Returned(w: World, events: seq<Event>): seq<byte>
    decreases |events|
  {
    if events == [] then []
    else
      var key := ConsumeFrom(w.engine, 0, []).key;
      (if events[0].EvConsume? && key != 0 then [key] else []) + Returned(Next(w, events[0]), events[1..])
  }

  function Armed(w: World, events: seq<Event>): seq<byte>
    decreases |events|
  {
    if events == [] then []
    else
      (if events[0].EvConsume? then ConsumeFrom(w.engine, 0, []).armed else [])
      + Armed(Next(w, events[0]), events[1..])
  }

  /** A layer or modifier key types its low byte, unless that is 0; a one-shot modifier arms its low byte. */
  function Types(kc: word): seq<byte> { if 0x4000 <= kc < 0x6000 && kc % 0x100 != 0 then [kc % 0x100] else [] }

  function Arms(kc: word): seq<byte> { if 0x3000 <= kc < 0x3100 then [kc % 0x100] else [] }

  function AllTyped(taps: seq<word>): seq<byte> {
    if taps == [] then [] else Types(taps[0]) + AllTyped(taps[1..])
  }

  function AllArmed(taps: seq<word>): seq<byte> {
    if taps == [] then [] else Arms(taps[0]) + AllArmed(taps[1..])
  }

  lemma {:induction false} TypedConcat(a: seq<word>, b: seq<word>)
    ensures AllTyped(a + b) == AllTyped(a) + AllTyped(b)
  {
    hide Types;
    if a == [] {
      assert a + b == b;
    } else {
      var rest := a[1..];
      TypedConcat(rest, b);
      assert (a + b)[1..] == rest + b;
      assert Types(a[0]) + (AllTyped(rest) + AllTyped(b)) == Types(a[0]) + AllTyped(rest) + AllTyped(b);
    }
  }

  lemma {:induction false} ArmedConcat(a: seq<word>, b: seq<word>)
    ensures AllArmed(a + b) == AllArmed(a) + AllArmed(b)
  {
    hide Arms;
    if a == [] {
      assert a + b == b;
    } else {
      var rest := a[1..];
      ArmedConcat(rest, b);
      assert (a + b)[1..] == rest + b;
      assert Arms(a[0]) + (AllArmed(rest) + AllArmed(b)) == Arms(a[0]) + AllArmed(rest) + AllArmed(b);
    }
  }

  /** Before the first key there are only masks. */
  lemma {:induction false} OnlyMasks(taps: seq<word>, k: nat)
    requires k <= FirstKey(taps)
    ensures AllTyped(taps[..k]) == [] && AllArmed(taps[..k]) == Masks(taps[..k])
    decreases k
  {
    if k > 0 {
      var front := taps[..k];
      OnlyMasks(taps[1..], k - 1);
      assert front != [] && front[0] == taps[0] && front[1..] == taps[1..][..k - 1] && !HasKey(taps[0]);
      NoKeyTypes(taps[0]);
      hide HasKey, FirstKey, Types, Arms, IsOsm, LowByte;
    }
  }

  lemma NoKeyTypes(kc: word)
    ensures !HasKey(kc) ==> Types(kc) == [] && Arms(kc) == if IsOsm(kc) then [LowByte(kc)] else []
    ensures HasKey(kc) ==> Arms(kc) == [] && Types(kc) == if LowByte(kc) != 0 then [LowByte(kc)] else []
  {
  }

  lemma OneTap(kc: word)
    ensures AllTyped([kc]) == Types(kc) && AllArmed([kc]) == Arms(kc)
  {
    assert [kc][1..] == [];
  }

  lemma TakenIs(taps: seq<word>)
    ensures var k := FirstKey(taps); Taken(taps) == taps[..k] + if k < |taps| then [taps[k]] else []
  {
    hide HasKey, FirstKey;
    var k := FirstKey(taps);
    if k < |taps| { TakeOneMore(taps, k); } else { TakeThenDrop(taps, k); }
  }

  lemma TakenGives(taps: seq<word>)
    ensures var k := FirstKey(taps);
            && AllTyped(Taken(taps)) == (if k < |taps| && LowByte(taps[k]) != 0 then [LowByte(taps[k])] else [])
            && AllArmed(Taken(taps)) == Masks(taps[..k])
  {
    hide AllTyped, AllArmed, Masks, FirstKey, HasKey, Types, Arms, LowByte, Taken;
    var k := FirstKey(taps);
    var front, last := taps[..k], if k < |taps| then [taps[k]] else [];
    TakenIs(taps);
    OnlyMasks(taps, k);
    TypedConcat(front, last);
    ArmedConcat(front, last);
    if k < |taps| {
      OneTap(taps[k]);
      NoKeyTypes(taps[k]);
    } else {
      NothingTyped();
    }
  }

  lemma NothingTyped()
    ensures AllTyped([]) == [] && AllArmed([]) == []
  {
  }

  /** What one call returns and arms is what the taps it takes type and arm. */
  lemma CallGives(e: Engine)
    ensures var c, taken := ConsumeFrom(e, 0, []), Taken(Taps(e.slots, 0));
            AllTyped(taken) == (if c.key != 0 then [c.key] else []) && AllArmed(taken) == c.armed
  {
    hide ConsumeFrom, Taps, Masks, AllTyped, AllArmed, Taken, FirstKey;
    var taps := Taps(e.slots, 0);
    ConsumeTakes(e, 0, []);
    TakenGives(taps);
    assert [] + Masks(taps[..FirstKey(taps)]) == Masks(taps[..FirstKey(taps)]);
  }

  /** Over a run the keys returned and the modifiers armed are, in order, what the taps handed over type and arm. */
  lemma {:induction false} OutputsAreTaps(w: World, events: seq<Event>)
    ensures Returned(w, events) == AllTyped(Handed(w, events)) && Armed(w, events) == AllArmed(Handed(w, events))
    decreases |events|
  {
    if events != [] {
      hide Next, ConsumeFrom, Taken, Taps, AllTyped, AllArmed;
      var n, rest := Next(w, events[0]), events[1..];
      OutputsAreTaps(n, rest);
      if events[0].EvConsume? {
        CallGives(w.engine);
        TypedConcat(Taken(Taps(w.engine.slots, 0)), Handed(n, rest));
        ArmedConcat(Taken(Taps(w.engine.slots, 0)), Handed(n, rest));
      } else {
        assert [] + Handed(n, rest) == Handed(n, rest);
        assert [] + Returned(n, rest) == Returned(n, rest) && [] + Armed(n, rest) == Armed(n, rest);
      }
    }
  }

  /** A short press: a key released before any trigger is due, then asked for, types its low byte. */
  lemma ShortPressTypes(layout: byte, kc: word, row: byte, col: byte, now: u32)
    requires 0x4000 <= kc < 0x6000 && kc % 0x100 != 0
    ensures Returned(Start(layout), [EvPress(kc, row, col, now), EvRelease(row, col), EvConsume]) == [kc % 0x100]
  {
    var w, p, r := Start(layout), EvPress(kc, row, col, now), EvRelease(row, col);
    var s := Slot(PENDING, kc, row, col, now, 0);
    var w1, w2 := Next(w, p), Next(Next(w, p), r);
    assert w1.engine.slots == [s, FREE, FREE, FREE];
    assert w2.engine.slots == [s.(mode := TAP), FREE, FREE, FREE];
    assert ConsumeFrom(w2.engine, 0, []).key == kc % 0x100;
    assert [p, r, EvConsume][1..] == [r, EvConsume] && [r, EvConsume][1..] == [EvConsume] && [EvConsume][1..] == [];
    hide Next, ConsumeFrom;
    var w3 := Next(w2, EvConsume);
    assert Returned(w3, []) == [];
    assert Returned(w2, [EvConsume]) == [kc % 0x100] + Returned(w3, []);
    assert Returned(w1, [r, EvConsume]) == [] + Returned(w2, [EvConsume]);
  }

  /** How the parts of a keycode are read back. */
  lemma KeycodeParts(top: byte, key: byte)
    requires top < 0x10
    ensures var lt, mt, osm := 0x4000 + 0x100 * top + key, 0x5000 + 0x100 * top + key, 0x3000 + key as word;
            && IsLt(lt) && !IsMt(lt) && !IsOsm(lt) && LtLayer(lt) == top && LowByte(lt) == key
            && IsMt(mt) && !IsLt(mt) && !IsOsm(mt) && MtMod(mt) == top && LowByte(mt) == key
            && IsOsm(osm) && !IsLt(osm) && !IsMt(osm) && LowByte(osm) == key
            && ModsOf(mt) == Bits(top) && ModsOf(osm) == Bits(key) && ModsOf(lt) == {}
  {
    hide Bits;
  }
}
