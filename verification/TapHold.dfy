/** The tap/hold engine: an unordered table of four slots that behaves as a stack of held layers. */
module TapHold {
  import opened Crc8
  import opened Wrappers

  const SLOTS := 4
  const TIMEOUT_MS := 200
  const LAYERS := 10

  // ---- Keycodes ----

  predicate IsOsm(kc: word) { kc / 0x100 == 0x30 }
  predicate IsLt(kc: word) { kc / 0x1000 == 4 }
  predicate IsMt(kc: word) { kc / 0x1000 == 5 }
  function LtLayer(kc: word): byte { kc / 0x100 % 0x10 }
  function MtMod(kc: word): byte { kc / 0x100 % 0x10 }
  function LowByte(kc: word): byte { kc % 0x100 }

  predicate ValidLt(kc: word) { IsLt(kc) && LtLayer(kc) < LAYERS }

  /** A modifier mask as the set of its bits. */
  function Bits(mask: byte): set<nat> {
    set k | k in {0, 1, 2, 3, 4, 5, 6, 7} && mask / Pow2(k) % 2 == 1
  }

  function ModsOf(kc: word): set<nat> {
    if IsMt(kc) then Bits(MtMod(kc)) else if IsOsm(kc) then Bits(LowByte(kc)) else {}
  }

  // ---- The engine ----

  datatype Mode = IDLE | PENDING | HOLD | TAP

  datatype Slot = Slot(mode: Mode, keycode: word, row: byte, col: byte, pressTime: u32, seqNo: u32)

  const FREE := Slot(IDLE, 0, 0, 0, 0, 0)

  type Index = i: int | 0 <= i < SLOTS

  type Slots = s: seq<Slot> | |s| == SLOTS witness [FREE, FREE, FREE, FREE]

  /** `layer` and `base` are -1 when no layer key is held; `layout` is the layer in force. */
  datatype Engine = Engine(slots: Slots, mods: set<nat>, layer: int, seqNo: u32, base: int, layout: byte)

  predicate HoldsLayer(s: Slot) { s.mode == HOLD && ValidLt(s.keycode) }

  function FindByPos(slots: seq<Slot>, row: byte, col: byte): (r: Option<nat>)
    ensures r.Some? ==> r.value < |slots| && slots[r.value].mode != IDLE
  {
    if slots == [] then None
    else if slots[0].mode != IDLE && slots[0].row == row && slots[0].col == col then Some(0)
    else match FindByPos(slots[1..], row, col) case None => None case Some(i) => Some(i + 1)
  }

  function FindFree(slots: seq<Slot>): (r: Option<nat>)
    ensures r.Some? ==> r.value < |slots| && slots[r.value].mode == IDLE
  {
    if slots == [] then None
    else if slots[0].mode == IDLE then Some(0)
    else match FindFree(slots[1..]) case None => None case Some(i) => Some(i + 1)
  }

  /** Among the first `n` slots, the held layer key with the largest sequence number. */
  function Top(slots: seq<Slot>, n: nat): (r: Option<nat>)
    requires n <= |slots|
    ensures r.Some? ==> r.value < n && HoldsLayer(slots[r.value])
  {
    if n == 0 then None
    else
      var t := Top(slots, n - 1);
      if HoldsLayer(slots[n - 1]) && (t.None? || slots[n - 1].seqNo > slots[t.value].seqNo) then Some(n - 1) else t
  }

  function Recompute(e: Engine): Engine {
    match Top(e.slots, SLOTS)
    case Some(i) =>
      var layer := LtLayer(e.slots[i].keycode);
      e.(layer := layer, layout := layer)
    case None =>
      if 0 <= e.base < 256 then e.(layer := -1, layout := e.base, base := -1) else e.(layer := -1)
  }

  function Signed(b: byte): int { if b < 128 then b else b - 256 }

  function Activate(e: Engine, i: Index): Engine {
    var kc := e.slots[i].keycode;
    var s := e.slots[i].(mode := HOLD);
    if ValidLt(kc) then
      var n := (e.seqNo + 1) % U32;
      Recompute(e.(slots := e.slots[i := s.(seqNo := n)], seqNo := n,
                   base := if e.layer < 0 then Signed(e.layout) else e.base))
    else e.(slots := e.slots[i := s], mods := e.mods + ModsOf(kc))
  }

  function Deactivate(e: Engine, i: Index): Engine {
    var kc := e.slots[i].keycode;
    var d := e.(slots := e.slots[i := e.slots[i].(mode := IDLE)], mods := e.mods - ModsOf(kc));
    if ValidLt(kc) then Recompute(d) else d
  }

  function Press(e: Engine, kc: word, row: byte, col: byte, now: u32): (Engine, bool) {
    if !IsLt(kc) && !IsMt(kc) && !IsOsm(kc) then (e, false)
    else if FindByPos(e.slots, row, col).Some? then (e, true)
    else
      match FindFree(e.slots)
      case None => (e, false)
      case Some(i) => (e.(slots := e.slots[i := Slot(PENDING, kc, row, col, now, e.slots[i].seqNo)]), true)
  }

  function Release(e: Engine, row: byte, col: byte): (Engine, bool) {
    match FindByPos(e.slots, row, col)
    case None => (e, false)
    case Some(i) =>
      if e.slots[i].mode == PENDING then (e.(slots := e.slots[i := e.slots[i].(mode := TAP)]), true)
      else if e.slots[i].mode == HOLD then (Deactivate(e, i), true)
      else (e.(slots := e.slots[i := e.slots[i].(mode := IDLE)]), true)
  }

  /** When a pending key becomes a hold: after the timeout, or at once when another key interrupts. */
  datatype Trigger = Timeout(now: u32) | Interrupt

  predicate Due(s: Slot, t: Trigger) {
    s.mode == PENDING && (t.Timeout? ==> Elapsed(t.now, s.pressTime) >= TIMEOUT_MS)
  }

  function Resolve(e: Engine, t: Trigger, n: nat): Engine
    requires n <= SLOTS
  {
    if n == 0 then e
    else
      var d := Resolve(e, t, n - 1);
      if Due(d.slots[n - 1], t) then Activate(d, n - 1) else d
  }

  datatype Consumed = Consumed(engine: Engine, key: byte, armed: seq<byte>)

  /** The next resolved tap, from slot `i` on; one-shot modifiers met on the way are armed. */
  function ConsumeFrom(e: Engine, i: nat, armed: seq<byte>): Consumed
    requires i <= SLOTS
    decreases SLOTS - i
  {
    if i == SLOTS then Consumed(e, 0, armed)
    else if e.slots[i].mode != TAP then ConsumeFrom(e, i + 1, armed)
    else
      var kc := e.slots[i].keycode;
      var d := e.(slots := e.slots[i := e.slots[i].(mode := IDLE)]);
      if IsLt(kc) || IsMt(kc) then Consumed(d, LowByte(kc), armed)
      else ConsumeFrom(d, i + 1, if IsOsm(kc) then armed + [LowByte(kc)] else armed)
  }

  // ---- A stack of held layers ----

  /** The engine beside the history it should reflect: the held layer keys in activation order, and the layout below
      them. */
  datatype World = World(engine: Engine, held: seq<Index>, floor: byte)

  datatype Event =
    | EvPress(kc: word, row: byte, col: byte, now: u32)
    | EvRelease(row: byte, col: byte)
    | EvResolve(trigger: Trigger)
    | EvConsume
    | EvLayout(layout: byte)   // another writer, while no layer key is held

  function Pushed(e: Engine, held: seq<Index>, i: Index): seq<Index>
  {
    if ValidLt(e.slots[i].keycode) then held + [i] else held
  }

  function Popped(held: seq<Index>, i: Index): seq<Index> {
    if held == [] then []
    else Popped(held[..|held| - 1], i) + (if held[|held| - 1] == i then [] else [held[|held| - 1]])
  }

  function ResolvedHeld(e: Engine, held: seq<Index>, t: Trigger, n: nat): seq<Index>
    requires n <= SLOTS
  {
    if n == 0 then held
    else
      var d, h := Resolve(e, t, n - 1), ResolvedHeld(e, held, t, n - 1);
      if Due(d.slots[n - 1], t) then Pushed(d, h, n - 1) else h
  }

  function Next(w: World, ev: Event): World {
    match ev
    case EvPress(kc, row, col, now) => w.(engine := Press(w.engine, kc, row, col, now).0)
    case EvRelease(row, col) =>
      var at := FindByPos(w.engine.slots, row, col);
      w.(engine := Release(w.engine, row, col).0,
         held := if at.Some? && w.engine.slots[at.value].mode == HOLD then Popped(w.held, at.value) else w.held)
    case EvResolve(t) =>
      World(Resolve(w.engine, t, SLOTS), ResolvedHeld(w.engine, w.held, t, SLOTS), w.floor)
    case EvConsume => w.(engine := ConsumeFrom(w.engine, 0, []).engine)
    case EvLayout(layout) =>
      if w.engine.layer >= 0 || layout >= 128 then w else w.(engine := w.engine.(layout := layout), floor := layout)
  }

  ghost predicate Rising(slots: Slots, held: seq<Index>) {
    forall a, b :: 0 <= a < b < |held| ==> slots[held[a]].seqNo < slots[held[b]].seqNo
  }

  // The table and the stack name the same keys, and sequence numbers grow up the stack.
  ghost predicate Stacked(slots: Slots, held: seq<Index>, limit: int) {
    && (forall i: Index :: HoldsLayer(slots[i]) <==> i in held)
    && Rising(slots, held)
    && (forall i :: i in held ==> slots[i].seqNo <= limit)
  }

  ghost predicate InForce(e: Engine, held: seq<Index>, floor: byte) {
    if held == [] then e.layer == -1 && e.base == -1 && e.layout == floor
    else e.base == floor && e.layer == e.layout == LtLayer(e.slots[held[|held| - 1]].keycode)
  }

  ghost predicate Inv(w: World) {
    w.floor < 128 && Stacked(w.engine.slots, w.held, w.engine.seqNo) && InForce(w.engine, w.held, w.floor)
  }

  lemma {:induction false} TopIsMax(slots: Slots, n: nat)
    requires n <= SLOTS
    ensures match Top(slots, n)
            case None => forall i :: 0 <= i < n ==> !HoldsLayer(slots[i])
            case Some(t) => forall i :: 0 <= i < n && HoldsLayer(slots[i]) ==> slots[i].seqNo <= slots[t].seqNo
  {
    if n > 0 { TopIsMax(slots, n - 1); }
  }

  /** The top of the unordered table is the top of the stack. */
  lemma TopIsLast(slots: Slots, held: seq<Index>, limit: int)
    requires Stacked(slots, held, limit)
    ensures Top(slots, SLOTS) == if held == [] then None else Some(held[|held| - 1])
  {
    TopIsMax(slots, SLOTS);
    if held != [] {
      var last := held[|held| - 1];
      assert last in held && HoldsLayer(slots[last]);
      var t: Index := Top(slots, SLOTS).value;
      var a :| 0 <= a < |held| && held[a] == t;
      assert a == |held| - 1;
    }
  }

  lemma {:induction false} PoppedMembers(held: seq<Index>, i: Index)
    ensures forall x :: x in Popped(held, i) <==> x in held && x != i
  {
    if held != [] {
      PoppedMembers(held[..|held| - 1], i);
      assert held == held[..|held| - 1] + [held[|held| - 1]];
    }
  }

  lemma {:induction false} PoppedRises(slots: Slots, held: seq<Index>, i: Index)
    requires Rising(slots, held)
    ensures Rising(slots, Popped(held, i))
  {
    if held != [] {
      var front, last := held[..|held| - 1], held[|held| - 1];
      PoppedMembers(front, i);
      PoppedRises(slots, front, i);
      var h := Popped(front, i);
      forall a | 0 <= a < |h|
        ensures slots[h[a]].seqNo < slots[last].seqNo
      {
        assert h[a] in h;
        var b :| 0 <= b < |front| && front[b] == h[a];
        assert held[b] == h[a];
      }
    }
  }

  lemma PushStacks(slots: Slots, held: seq<Index>, limit: u32, i: Index, s: Slot)
    requires Stacked(slots, held, limit) && !HoldsLayer(slots[i]) && HoldsLayer(s) && s.seqNo == limit + 1
    ensures Stacked(slots[i := s], held + [i], limit + 1)
  {
    assert i !in held;
    var h := held + [i];
    assert forall x :: x in h <==> x in held || x == i;
  }

  lemma FirstStacks(slots: Slots, limit: int, i: Index, s: Slot)
    requires Stacked(slots, [], limit) && HoldsLayer(s)
    ensures Stacked(slots[i := s], [i], s.seqNo)
  {
    assert forall j: Index :: j !in [];
  }

  lemma PopStacks(slots: Slots, held: seq<Index>, limit: int, i: Index, s: Slot)
    requires Stacked(slots, held, limit) && !HoldsLayer(s)
    ensures Stacked(slots[i := s], Popped(held, i), limit)
  {
    var h, after := Popped(held, i), slots[i := s];
    PoppedMembers(held, i);
    PoppedRises(slots, held, i);
    assert forall a :: 0 <= a < |h| ==> h[a] in h && after[h[a]] == slots[h[a]];
  }

  lemma RecomputeInForce(e: Engine, held: seq<Index>, floor: byte)
    requires Stacked(e.slots, held, e.seqNo) && floor < 128 && e.base == floor
    ensures InForce(Recompute(e), held, floor)
  {
    TopIsLast(e.slots, held, e.seqNo);
  }

  /** Activating this keycode keeps the numbers in order: the 32-bit counter does not wrap while a layer key is held. */
  predicate InOrder(e: Engine, held: seq<Index>, kc: word) { !ValidLt(kc) || held == [] || e.seqNo + 1 < U32 }

  lemma NumberedStacks(e: Engine, held: seq<Index>, i: Index, s: Slot)
    requires Stacked(e.slots, held, e.seqNo) && !HoldsLayer(e.slots[i]) && HoldsLayer(s)
    requires InOrder(e, held, s.keycode) && s.seqNo == (e.seqNo + 1) % U32
    ensures Stacked(e.slots[i := s], held + [i], s.seqNo)
  {
    if held == [] {
      FirstStacks(e.slots, e.seqNo, i, s);
      assert held + [i] == [i];
    } else {
      PushStacks(e.slots, held, e.seqNo, i, s);
    }
  }

  /** Activating a layer key in order pushes it. */
  lemma ActivatePushes(e: Engine, held: seq<Index>, floor: byte, i: Index)
    requires Inv(World(e, held, floor)) && e.slots[i].mode == PENDING && InOrder(e, held, e.slots[i].keycode)
    ensures Inv(World(Activate(e, i), Pushed(e, held, i), floor))
  {
    hide ModsOf;
    var kc, s := e.slots[i].keycode, e.slots[i].(mode := HOLD);
    if ValidLt(kc) {
      var n := (e.seqNo + 1) % U32;
      NumberedStacks(e, held, i, s.(seqNo := n));
      var base := if e.layer < 0 then Signed(e.layout) else e.base;
      var d := e.(slots := e.slots[i := s.(seqNo := n)], seqNo := n, base := base);
      RecomputeInForce(d, held + [i], floor);
      hide Stacked;
      hide InForce;
      assert Activate(e, i) == Recompute(d);
    } else {
      OtherSlot(e, held, floor, i, s);
    }
  }

  lemma LayerReleased(e: Engine, held: seq<Index>, floor: byte, i: Index)
    requires Inv(World(e, held, floor)) && HoldsLayer(e.slots[i])
    ensures Inv(World(Deactivate(e, i), Popped(held, i), floor))
  {
    hide Rising;
    var s := e.slots[i].(mode := IDLE);
    assert i in held;
    PopStacks(e.slots, held, e.seqNo, i, s);
    var d := e.(slots := e.slots[i := s], mods := e.mods - ModsOf(e.slots[i].keycode));
    RecomputeInForce(d, Popped(held, i), floor);
    hide Stacked;
    hide InForce;
    hide ModsOf;
    hide Popped;
    hide Top;
    assert Deactivate(e, i) == Recompute(d);
    assert Recompute(d).slots == d.slots && Recompute(d).seqNo == d.seqNo;
  }

  lemma HeldAreLayers(e: Engine, held: seq<Index>, floor: byte, i: Index)
    requires Inv(World(e, held, floor)) && !HoldsLayer(e.slots[i])
    ensures i !in held
  {
  }

  /** Releasing one pops it, wherever it is in the stack. */
  lemma DeactivatePops(e: Engine, held: seq<Index>, floor: byte, i: Index)
    requires Inv(World(e, held, floor)) && e.slots[i].mode == HOLD
    ensures Inv(World(Deactivate(e, i), Popped(held, i), floor))
  {
    hide ModsOf, Popped, Stacked, Top;
    if ValidLt(e.slots[i].keycode) {
      LayerReleased(e, held, floor, i);
    } else {
      HeldAreLayers(e, held, floor, i);
      NotHeldUnchanged(held, i);
      OtherSlot(e, held, floor, i, e.slots[i].(mode := IDLE));
    }
  }

  lemma {:induction false} NotHeldUnchanged(held: seq<Index>, i: Index)
    requires i !in held
    ensures Popped(held, i) == held
  {
    if held != [] {
      assert held[|held| - 1] in held && forall x :: x in held[..|held| - 1] ==> x in held;
      NotHeldUnchanged(held[..|held| - 1], i);
    }
  }

  predicate ResolvesInOrder(e: Engine, held: seq<Index>, t: Trigger, n: nat)
    requires n <= SLOTS
  {
    n == 0
    || (var d := Resolve(e, t, n - 1);
        ResolvesInOrder(e, held, t, n - 1)
        && (Due(d.slots[n - 1], t) ==> InOrder(d, ResolvedHeld(e, held, t, n - 1), d.slots[n - 1].keycode)))
  }

  lemma {:induction false} ResolvePushes(e: Engine, held: seq<Index>, floor: byte, t: Trigger, n: nat)
    requires n <= SLOTS && Inv(World(e, held, floor)) && ResolvesInOrder(e, held, t, n)
    ensures Inv(World(Resolve(e, t, n), ResolvedHeld(e, held, t, n), floor))
  {
    if n > 0 {
      ResolvePushes(e, held, floor, t, n - 1);
      var d := Resolve(e, t, n - 1);
      if Due(d.slots[n - 1], t) { ActivatePushes(d, ResolvedHeld(e, held, t, n - 1), floor, n - 1); }
    }
  }

  // Changing a slot that holds no layer, to one that holds none, touches nothing else.
  lemma OtherSlot(e: Engine, held: seq<Index>, floor: byte, i: Index, s: Slot)
    requires Inv(World(e, held, floor)) && !HoldsLayer(e.slots[i]) && !HoldsLayer(s)
    ensures Inv(World(e.(slots := e.slots[i := s]), held, floor))
  {
    var after := e.slots[i := s];
    assert i !in held;
    assert Rising(after, held);
  }

  lemma {:induction false} ConsumeKeepsStack(e: Engine, held: seq<Index>, floor: byte, i: nat, armed: seq<byte>)
    requires i <= SLOTS && Inv(World(e, held, floor))
    ensures var d := ConsumeFrom(e, i, armed).engine; Inv(World(d, held, floor))
    decreases SLOTS - i
  {
    if i < SLOTS {
      if e.slots[i].mode != TAP {
        ConsumeKeepsStack(e, held, floor, i + 1, armed);
      } else {
        var kc := e.slots[i].keycode;
        var s := e.slots[i].(mode := IDLE);
        OtherSlot(e, held, floor, i, s);
        var more := if IsOsm(kc) then armed + [LowByte(kc)] else armed;
        ConsumeKeepsStack(e.(slots := e.slots[i := s]), held, floor, i + 1, more);
      }
    }
  }

  lemma PressKeepsStack(e: Engine, held: seq<Index>, floor: byte, kc: word, row: byte, col: byte, now: u32)
    requires Inv(World(e, held, floor))
    ensures Inv(World(Press(e, kc, row, col, now).0, held, floor))
  {
    hide Stacked, InForce;
    var i := FindFree(e.slots);
    if i.Some? { OtherSlot(e, held, floor, i.value, Slot(PENDING, kc, row, col, now, e.slots[i.value].seqNo)); }
  }

  lemma ReleaseKeepsStack(w: World, row: byte, col: byte)
    requires Inv(w)
    ensures Inv(Next(w, EvRelease(row, col)))
  {
    hide Stacked, InForce, Deactivate, Popped;
    var e, at := w.engine, FindByPos(w.engine.slots, row, col);
    if at.Some? {
      if e.slots[at.value].mode == HOLD {
        DeactivatePops(e, w.held, w.floor, at.value);
      } else {
        OtherSlot(e, w.held, w.floor, at.value, e.slots[at.value].(mode := TAP));
        OtherSlot(e, w.held, w.floor, at.value, e.slots[at.value].(mode := IDLE));
      }
    }
  }

  lemma LayoutKeepsStack(w: World, layout: byte)
    requires Inv(w)
    ensures Inv(Next(w, EvLayout(layout)))
  {
  }

  predicate NextInOrder(w: World, ev: Event) {
    ev.EvResolve? ==> ResolvesInOrder(w.engine, w.held, ev.trigger, SLOTS)
  }

  lemma NextKeepsInv(w: World, ev: Event)
    requires Inv(w) && NextInOrder(w, ev)
    ensures Inv(Next(w, ev))
  {
    hide Inv, Press, ConsumeFrom, Resolve, ResolvedHeld, ResolvesInOrder;
    match ev
    case EvPress(kc, row, col, now) => PressKeepsStack(w.engine, w.held, w.floor, kc, row, col, now);
    case EvRelease(row, col) => ReleaseKeepsStack(w, row, col);
    case EvResolve(t) => ResolvePushes(w.engine, w.held, w.floor, t, SLOTS);
    case EvConsume => ConsumeKeepsStack(w.engine, w.held, w.floor, 0, []);
    case EvLayout(layout) => LayoutKeepsStack(w, layout);
  }

  function Start(layout: byte): World {
    World(Engine([FREE, FREE, FREE, FREE], {}, -1, 0, -1, layout), [], layout)
  }

  function Exec(w: World, events: seq<Event>): World
    decreases |events|
  {
    if events == [] then w else Exec(Next(w, events[0]), events[1..])
  }

  /** In the whole run, no layer key is activated at number 2^32 - 1 while another one is held. */
  predicate NeverWrapsHeld(w: World, events: seq<Event>)
    decreases |events|
  {
    events == [] || (NextInOrder(w, events[0]) && NeverWrapsHeld(Next(w, events[0]), events[1..]))
  }

  lemma {:induction false} ExecKeepsInv(w: World, events: seq<Event>)
    requires Inv(w) && NeverWrapsHeld(w, events)
    ensures Inv(Exec(w, events))
    decreases |events|
  {
    if events != [] {
      hide Next, Inv, NextInOrder;
      NextKeepsInv(w, events[0]);
      ExecKeepsInv(Next(w, events[0]), events[1..]);
    }
  }

  /** In any order of presses, releases, timeouts and interrupts, the layout in force is the layer of the most
      recently activated layer key still held, and with none held it is the one in force before the first: a stack,
      whatever slots the keys took. */
  lemma LayoutIsTopOfStack(layout: byte, events: seq<Event>)
    requires layout < 128 && NeverWrapsHeld(Start(layout), events)
    ensures var w := Exec(Start(layout), events);
            && w.engine.layout == (if w.held == [] then w.floor
                                   else LtLayer(w.engine.slots[w.held[|w.held| - 1]].keycode))
            && (forall i: Index :: i in w.held <==> HoldsLayer(w.engine.slots[i]))
            && (w.held != [] ==> w.engine.layout < LAYERS)
  {
    ExecKeepsInv(Start(layout), events);
    var w := Exec(Start(layout), events);
    if w.held != [] { assert w.held[|w.held| - 1] in w.held; }
  }

  // ---- When the counter wraps ----

  /** A layer key that is activated takes over, unless the counter wraps while a key of another layer is held: then the
      earlier key stays in force, but for a tie at number 0, which the lower slot wins. */
  lemma ActivationTakesOver(e: Engine, held: seq<Index>, floor: byte, i: Index)
    requires Inv(World(e, held, floor)) && e.slots[i].mode == PENDING && ValidLt(e.slots[i].keycode)
    ensures var layer := LtLayer(e.slots[i].keycode);
            Activate(e, i).layout == layer <==>
              InOrder(e, held, e.slots[i].keycode) || e.layout == layer
              || (e.slots[held[|held| - 1]].seqNo == 0 && i < held[|held| - 1])
  {
    hide ModsOf;
    if InOrder(e, held, e.slots[i].keycode) {
      ActivatePushes(e, held, floor, i);
      assert (held + [i])[|held + [i]| - 1] == i;
    } else {
      WrappedTop(e.slots, held, e.seqNo, i);
    }
  }

  /** Among the first n slots, no earlier one holds a layer with the number of the top. */
  lemma {:induction false} TopIsFirst(slots: Slots, n: nat)
    requires n <= SLOTS && Top(slots, n).Some?
    ensures forall i :: 0 <= i < Top(slots, n).value && HoldsLayer(slots[i]) ==>
              slots[i].seqNo < slots[Top(slots, n).value].seqNo
  {
    if n > 0 {
      TopIsMax(slots, n - 1);
      if Top(slots, n - 1).Some? { TopIsFirst(slots, n - 1); }
    }
  }

  lemma WrappedTop(slots: Slots, held: seq<Index>, limit: int, i: Index)
    requires Stacked(slots, held, limit) && held != [] && !HoldsLayer(slots[i]) && ValidLt(slots[i].keycode)
    ensures var after, last := slots[i := slots[i].(mode := HOLD, seqNo := 0)], held[|held| - 1];
            Top(after, SLOTS) == Some(if slots[last].seqNo == 0 && i < last then i else last)
  {
    var after, last := slots[i := slots[i].(mode := HOLD, seqNo := 0)], held[|held| - 1];
    assert last in held && i !in held && after[last] == slots[last] && HoldsLayer(after[last]) && HoldsLayer(after[i]);
    TopIsMax(after, SLOTS);
    TopIsFirst(after, SLOTS);
    var t: Index := Top(after, SLOTS).value;
    if t != i {
      assert t in held;
      var a :| 0 <= a < |held| && held[a] == t;
    }
  }
}
