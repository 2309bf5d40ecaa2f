/** The active modifier mask against the modifiers of the keys held. */
module TapHoldMods {
  import opened Wrappers
  import opened Crc8
  import opened TapHold
  import opened TapHoldLimits

  function SlotMods(s: Slot): set<nat> { if s.mode == HOLD then ModsOf(s.keycode) else {} }

  /** Every modifier a held key contributes. */
  function HeldMods(slots: Slots): set<nat> {
    SlotMods(slots[0]) + SlotMods(slots[1]) + SlotMods(slots[2]) + SlotMods(slots[3])
  }

  predicate Exact(e: Engine) { e.mods == HeldMods(e.slots) }

  lemma OneOfFour(slots: Slots, i: Index, s: Slot)
    ensures HeldMods(slots[i := s]) + SlotMods(slots[i]) == HeldMods(slots) + SlotMods(s)
  {
    hide ModsOf;
    assert i == 0 || i == 1 || i == 2 || i == 3;
  }

  lemma QuietSlot(e: Engine, i: Index, s: Slot)
    requires e.slots[i].mode != HOLD && s.mode != HOLD
    ensures Exact(e.(slots := e.slots[i := s])) <==> Exact(e)
  {
    OneOfFour(e.slots, i, s);
  }

  /** Activating a modifier key adds its modifiers to those held. */
  lemma ActivationAddsMods(e: Engine, i: Index)
    requires e.slots[i].mode == PENDING && Exact(e)
    ensures Exact(Activate(e, i))
  {
    var s := e.slots[i].(mode := HOLD);
    if ValidLt(s.keycode) {
      ActivateFields(e, i);
      OneOfFour(e.slots, i, s.(seqNo := (e.seqNo + 1) % U32));
    } else {
      OneOfFour(e.slots, i, s);
    }
    hide HeldMods, ModsOf, Top;
  }

  lemma {:induction false} ResolveAddsMods(e: Engine, t: Trigger, n: nat)
    requires n <= SLOTS && Exact(e)
    ensures Exact(Resolve(e, t, n))
  {
    hide Activate, Exact;
    if n > 0 {
      ResolveAddsMods(e, t, n - 1);
      var d := Resolve(e, t, n - 1);
      if Due(d.slots[n - 1], t) { ActivationAddsMods(d, n - 1); }
    }
  }

  lemma {:induction false} ConsumeKeepsMods(e: Engine, i: nat, armed: seq<byte>)
    requires i <= SLOTS && Exact(e)
    ensures Exact(ConsumeFrom(e, i, armed).engine)
    decreases SLOTS - i
  {
    hide Exact;
    if i < SLOTS {
      if e.slots[i].mode != TAP {
        ConsumeKeepsMods(e, i + 1, armed);
      } else {
        var kc, s := e.slots[i].keycode, e.slots[i].(mode := IDLE);
        QuietSlot(e, i, s);
        ConsumeKeepsMods(e.(slots := e.slots[i := s]), i + 1, if IsOsm(kc) then armed + [LowByte(kc)] else armed);
      }
    }
  }

  /** The key this event releases shares no modifier with the other keys held. */
  predicate SharesNone(e: Engine, ev: Event) {
    ev.EvRelease? ==>
      match FindByPos(e.slots, ev.row, ev.col)
      case None => true
      case Some(i) =>
        e.slots[i].mode == HOLD ==> ModsOf(e.slots[i].keycode) !! HeldMods(e.slots[i := e.slots[i].(mode := IDLE)])
  }

  /** Releasing a held key leaves exactly the other keys' modifiers if and only if it shares none with them. */
  lemma ReleaseLeavesTheOthers(e: Engine, i: Index)
    ensures e.slots[i].mode == HOLD && Exact(e) ==>
              (Exact(Deactivate(e, i)) <==>
               ModsOf(e.slots[i].keycode) !! HeldMods(e.slots[i := e.slots[i].(mode := IDLE)]))
  {
    if e.slots[i].mode != HOLD || !Exact(e) { return; }
    var d, s := Deactivate(e, i), e.slots[i].(mode := IDLE);
    var others, mine := HeldMods(e.slots[i := s]), ModsOf(e.slots[i].keycode);
    OneOfFour(e.slots, i, s);
    DeactivateMods(e, i);
    hide HeldMods, ModsOf, Deactivate;
    assert e.mods == others + mine && d.mods == (others + mine) - mine;
    if d.mods == others {
      forall k | k in mine ensures k !in others { assert k !in d.mods; }
    }
  }

  lemma DeactivateMods(e: Engine, i: Index)
    ensures Deactivate(e, i).mods == e.mods - ModsOf(e.slots[i].keycode)
    ensures Deactivate(e, i).slots == e.slots[i := e.slots[i].(mode := IDLE)]
  {
    hide ModsOf, Top;
  }

  lemma ReleaseStep(e: Engine, row: byte, col: byte)
    requires Exact(e)
    ensures Exact(Release(e, row, col).0) <==> SharesNone(e, EvRelease(row, col))
  {
    var at := FindByPos(e.slots, row, col);
    if at.Some? {
      var i: Index := at.value;
      ReleaseLeavesTheOthers(e, i);
      if e.slots[i].mode != HOLD {
        QuietSlot(e, i, e.slots[i].(mode := TAP));
        QuietSlot(e, i, e.slots[i].(mode := IDLE));
      }
    }
    hide Exact, Deactivate, HeldMods, ModsOf;
  }

  lemma PressStep(e: Engine, kc: word, row: byte, col: byte, now: u32)
    requires Exact(e)
    ensures Exact(Press(e, kc, row, col, now).0)
  {
    hide HeldMods;
    var i := FindFree(e.slots);
    if i.Some? { QuietSlot(e, i.value, Slot(PENDING, kc, row, col, now, e.slots[i.value].seqNo)); }
  }

  /** One event keeps the mask exact, unless it releases a key that shares a modifier with another one held. */
  lemma ExactStep(w: World, ev: Event)
    requires Exact(w.engine)
    ensures Exact(Next(w, ev).engine) <==> SharesNone(w.engine, ev)
  {
    hide HeldMods, Release, Press, ConsumeFrom, Resolve, ResolvedHeld;
    match ev
    case EvPress(kc, row, col, now) => PressStep(w.engine, kc, row, col, now);
    case EvRelease(row, col) => ReleaseStep(w.engine, row, col);
    case EvResolve(t) => ResolveAddsMods(w.engine, t, SLOTS);
    case EvConsume => ConsumeKeepsMods(w.engine, 0, []);
    case EvLayout(layout) =>
  }

  /** The mask is exact at the start and after every event of the run. */
  predicate AlwaysExact(w: World, events: seq<Event>)
    decreases |events|
  {
    Exact(w.engine) && (events == [] || AlwaysExact(Next(w, events[0]), events[1..]))
  }

  predicate NeverShares(w: World, events: seq<Event>)
    decreases |events|
  {
    events == [] || (SharesNone(w.engine, events[0]) && NeverShares(Next(w, events[0]), events[1..]))
  }

  lemma {:induction false} ExactIffNeverShares(w: World, events: seq<Event>)
    requires Exact(w.engine)
    ensures AlwaysExact(w, events) <==> NeverShares(w, events)
    decreases |events|
  {
    if events != [] {
      hide Next, Exact, SharesNone;
      ExactStep(w, events[0]);
      if Exact(Next(w, events[0]).engine) { ExactIffNeverShares(Next(w, events[0]), events[1..]); }
    }
  }

  /** In every run, the active mask is the union of the held keys' modifiers throughout if and only if no key is
      released while it shares a modifier with another one held. */
  lemma MaskIsUnion(layout: byte, events: seq<Event>)
    ensures AlwaysExact(Start(layout), events) <==> NeverShares(Start(layout), events)
  {
    assert Exact(Start(layout).engine);
    ExactIffNeverShares(Start(layout), events);
  }

  // ---- A run that fails ----

  const MT4: word := 0x5104
  const MT5: word := 0x5105

  const HELD4 := Slot(HOLD, MT4, 0, 0, 0, 0)
  const HELD5 := Slot(HOLD, MT5, 0, 1, 0, 0)

  function WithSlots(layout: byte, slots: Slots, mods: set<nat>): World {
    World(Engine(slots, mods, -1, 0, -1, layout), [], layout)
  }

  /** Two keys for the same modifier: releasing one takes it from the other, which is still held. */
  lemma SharedModifierIsLost(layout: byte)
    ensures var events := [EvPress(MT4, 0, 0, 0), EvPress(MT5, 0, 1, 0), EvResolve(Interrupt), EvRelease(0, 0)];
            var e := Exec(Start(layout), events).engine;
            e.mods == {} && HeldMods(e.slots) == {0} && e.slots[1] == HELD5
  {
    var p4, p5 := HELD4.(mode := PENDING), HELD5.(mode := PENDING);
    var pending, held := [p4, p5, FREE, FREE], [HELD4, HELD5, FREE, FREE];
    assert Next(Start(layout), EvPress(MT4, 0, 0, 0)) == WithSlots(layout, [p4, FREE, FREE, FREE], {}) by {
      NoneTracked([FREE, FREE, FREE, FREE], 0, 0);
      assert [FREE, FREE, FREE, FREE][0 := p4] == [p4, FREE, FREE, FREE];
    }
    assert Next(WithSlots(layout, [p4, FREE, FREE, FREE], {}), EvPress(MT5, 0, 1, 0))
            == WithSlots(layout, pending, {}) by {
      SecondPress(p4, p5);
    }
    assert Next(WithSlots(layout, pending, {}), EvResolve(Interrupt)) == WithSlots(layout, held, {0}) by {
      BothHeld(layout);
    }
    assert Next(WithSlots(layout, held, {0}), EvRelease(0, 0)) == WithSlots(layout, [FREED, HELD5, FREE, FREE], {}) by {
      FirstReleased(layout);
    }
    ShiftBits();
    hide Next;
    ExecFour(Start(layout), EvPress(MT4, 0, 0, 0), EvPress(MT5, 0, 1, 0), EvResolve(Interrupt), EvRelease(0, 0));
  }

  const FREED := Slot(IDLE, MT4, 0, 0, 0, 0)

  lemma ShiftBits()
    ensures ModsOf(MT4) == {0} && ModsOf(MT5) == {0}
  {
    assert forall k :: k in {0, 1, 2, 3, 4, 5, 6, 7} ==> (1 / Pow2(k) % 2 == 1 <==> k == 0);
    assert Bits(1) == {0};
  }

  lemma SecondPress(p4: Slot, p5: Slot)
    requires p4.mode != IDLE && p4.row == 0 && p4.col == 0
    ensures var slots := [p4, FREE, FREE, FREE];
            FindByPos(slots, 0, 1) == None && FindFree(slots) == Some(1) && slots[1 := p5] == [p4, p5, FREE, FREE]
  {
    var slots := [p4, FREE, FREE, FREE];
    NoneTracked(slots, 0, 1);
    assert slots[1..] == [FREE, FREE, FREE];
    assert FindFree(slots[1..]) == Some(0);
  }

  lemma BothHeld(layout: byte)
    ensures var pending := [HELD4.(mode := PENDING), HELD5.(mode := PENDING), FREE, FREE];
            var e := WithSlots(layout, pending, {}).engine;
            && Resolve(e, Interrupt, SLOTS) == WithSlots(layout, [HELD4, HELD5, FREE, FREE], {0}).engine
            && ResolvedHeld(e, [], Interrupt, SLOTS) == []
  {
    var pending := [HELD4.(mode := PENDING), HELD5.(mode := PENDING), FREE, FREE];
    var e := WithSlots(layout, pending, {}).engine;
    ShiftBits();
    hide ModsOf;
    assert Resolve(e, Interrupt, 0) == e && ResolvedHeld(e, [], Interrupt, 0) == [];
    var d1, d2 := Activate(e, 0), Activate(Activate(e, 0), 1);
    assert d1.slots == [HELD4, HELD5.(mode := PENDING), FREE, FREE] && d1.mods == {0};
    assert d2.slots == [HELD4, HELD5, FREE, FREE] && d2.mods == {0};
    assert Resolve(e, Interrupt, 1) == d1 && ResolvedHeld(e, [], Interrupt, 1) == [];
    assert Resolve(e, Interrupt, 2) == d2 && ResolvedHeld(e, [], Interrupt, 2) == [];
    hide Activate;
    Settled(e, Interrupt, 2, SLOTS);
  }

  lemma FirstReleased(layout: byte)
    ensures var w := WithSlots(layout, [HELD4, HELD5, FREE, FREE], {0});
            Next(w, EvRelease(0, 0)) == WithSlots(layout, [FREED, HELD5, FREE, FREE], {})
  {
    ShiftBits();
    hide ModsOf, Top;
    assert Popped([], 0) == [];
    assert [HELD4, HELD5, FREE, FREE][0 := FREED] == [FREED, HELD5, FREE, FREE];
    assert {0 as nat} - {0} == {};
  }

  lemma ExecFour(w: World, a: Event, b: Event, c: Event, d: Event)
    ensures Exec(w, [a, b, c, d]) == Next(Next(Next(Next(w, a), b), c), d)
  {
    hide Next;
    assert [a, b, c, d][1..] == [b, c, d];
    ExecThree(Next(w, a), b, c, d);
  }
}
