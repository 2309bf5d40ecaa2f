/** Where the stack of held layers ends: a counter that wraps under a held key, and a base layout of 128 or more. */
module TapHoldLimits {
  import opened Wrappers
  import opened TapHold

  // ---- How much a run may do ----

  /** Layer keys activated among the first n slots. */
  function Activated(e: Engine, t: Trigger, n: nat): nat
    requires n <= SLOTS
  {
    if n == 0 then 0
    else
      var s := Resolve(e, t, n - 1).slots[n - 1];
      Activated(e, t, n - 1) + if Due(s, t) && ValidLt(s.keycode) then 1 else 0
  }

  function Activations(w: World, events: seq<Event>): nat
    decreases |events|
  {
    if events == [] then 0
    else
      (if events[0].EvResolve? then Activated(w.engine, events[0].trigger, SLOTS) else 0)
      + Activations(Next(w, events[0]), events[1..])
  }

  lemma ActivateCounts(e: Engine, i: Index)
    ensures Activate(e, i).seqNo == if ValidLt(e.slots[i].keycode) then (e.seqNo + 1) % U32 else e.seqNo
  {
    hide ModsOf, Top;
  }

  lemma {:induction false} ResolvesFew(e: Engine, held: seq<Index>, t: Trigger, n: nat)
    requires n <= SLOTS && e.seqNo + Activated(e, t, n) < U32
    ensures ResolvesInOrder(e, held, t, n) && Resolve(e, t, n).seqNo == e.seqNo + Activated(e, t, n)
  {
    hide Activate, Due;
    if n > 0 {
      ResolvesFew(e, held, t, n - 1);
      ActivateCounts(Resolve(e, t, n - 1), n - 1);
    }
  }

  lemma {:induction false} ConsumeKeepsCounter(e: Engine, i: nat, armed: seq<byte>)
    requires i <= SLOTS
    ensures ConsumeFrom(e, i, armed).engine.seqNo == e.seqNo
    decreases SLOTS - i
  {
    if i < SLOTS {
      if e.slots[i].mode != TAP {
        ConsumeKeepsCounter(e, i + 1, armed);
      } else {
        var kc := e.slots[i].keycode;
        var d := e.(slots := e.slots[i := e.slots[i].(mode := IDLE)]);
        ConsumeKeepsCounter(d, i + 1, if IsOsm(kc) then armed + [LowByte(kc)] else armed);
      }
    }
  }

  lemma ReleaseKeepsCounter(e: Engine, row: byte, col: byte)
    ensures Release(e, row, col).0.seqNo == e.seqNo
  {
    hide ModsOf, Top;
  }

  lemma NextCounts(w: World, ev: Event)
    requires !ev.EvResolve?
    ensures Next(w, ev).engine.seqNo == w.engine.seqNo
  {
    hide ConsumeFrom, Release, Press;
    match ev
    case EvPress(kc, row, col, now) => PressKeepsCounter(w.engine, kc, row, col, now);
    case EvRelease(row, col) => ReleaseKeepsCounter(w.engine, row, col);
    case EvConsume => ConsumeKeepsCounter(w.engine, 0, []);
    case EvLayout(layout) =>
  }

  lemma PressKeepsCounter(e: Engine, kc: word, row: byte, col: byte, now: u32)
    ensures Press(e, kc, row, col, now).0.seqNo == e.seqNo
  {
  }

  /** Any run with fewer than 2^32 activations of layer keys keeps the order, however many ticks and other keys it
      has. */
  lemma {:induction false} FewActivationsSuffice(w: World, events: seq<Event>)
    requires w.engine.seqNo + Activations(w, events) < U32
    ensures NeverWrapsHeld(w, events)
    decreases |events|
  {
    if events != [] {
      hide Next, Activated, Resolve, ResolvesInOrder;
      if events[0].EvResolve? {
        ResolvesFew(w.engine, w.held, events[0].trigger, SLOTS);
        ResolveIsNext(w, events[0].trigger);
      } else {
        NextCounts(w, events[0]);
      }
      FewActivationsSuffice(Next(w, events[0]), events[1..]);
    }
  }

  lemma ResolveIsNext(w: World, t: Trigger)
    ensures Next(w, EvResolve(t)).engine == Resolve(w.engine, t, SLOTS)
  {
    hide Resolve, ResolvedHeld;
  }

  // ---- A run that wraps ----

  const LT1: word := 0x4100
  const LT2: word := 0x4200

  /** No key tracked, and the counter at n; slot 0 remembers the last key it held. */
  function Parked(first: Slot, n: u32, layout: byte): World {
    World(Engine([first.(mode := IDLE), FREE, FREE, FREE], {}, -1, n, -1, layout), [], layout)
  }

  function Holding(n: u32, layout: byte): World {
    World(Engine([Slot(HOLD, LT1, 0, 0, 0, n), FREE, FREE, FREE], {}, 1, n, layout, 1), [0], layout)
  }

  const ROUND: seq<Event> := [EvPress(LT1, 0, 0, 0), EvResolve(Interrupt), EvRelease(0, 0)]

  function Rounds(k: nat): seq<Event> { if k == 0 then [] else Rounds(k - 1) + ROUND }

  lemma {:induction false} Settled(e: Engine, t: Trigger, a: nat, b: nat)
    requires a <= b <= SLOTS && forall i :: a <= i < b ==> !Due(Resolve(e, t, a).slots[i], t)
    ensures Resolve(e, t, b) == Resolve(e, t, a)
    ensures forall held :: ResolvedHeld(e, held, t, b) == ResolvedHeld(e, held, t, a)
    decreases b - a
  {
    if a < b { Settled(e, t, a, b - 1); }
  }

  lemma ActivateFields(e: Engine, i: Index)
    requires ValidLt(e.slots[i].keycode)
    ensures var d, n := Activate(e, i), (e.seqNo + 1) % U32;
            d.slots == e.slots[i := e.slots[i].(mode := HOLD, seqNo := n)] && d.seqNo == n && d.mods == e.mods
  {
    hide Top;
  }

  lemma PressWhileParked(first: Slot, n: u32, layout: byte)
    ensures var w := Next(Parked(first, n, layout), EvPress(LT1, 0, 0, 0));
            var slots := [Slot(PENDING, LT1, 0, 0, 0, first.seqNo), FREE, FREE, FREE];
            w == World(Engine(slots, {}, -1, n, -1, layout), [], layout)
  {
    var slots := Parked(first, n, layout).engine.slots;
    NoneTracked(slots, 0, 0);
    assert slots[0 := Slot(PENDING, LT1, 0, 0, 0, first.seqNo)]
        == [Slot(PENDING, LT1, 0, 0, 0, first.seqNo), FREE, FREE, FREE];
  }

  lemma {:induction false} NoneTracked(slots: seq<Slot>, row: byte, col: byte)
    requires forall s :: s in slots ==> s.mode == IDLE || s.row != row || s.col != col
    ensures FindByPos(slots, row, col) == None
  {
    if slots != [] { NoneTracked(slots[1..], row, col); }
  }

  lemma HoldAfterPress(q: u32, n: u32, layout: byte)
    requires layout < 128
    ensures var e := Engine([Slot(PENDING, LT1, 0, 0, 0, q), FREE, FREE, FREE], {}, -1, n, -1, layout);
            Next(World(e, [], layout), EvResolve(Interrupt)) == Holding((n + 1) % U32, layout)
  {
    var e := Engine([Slot(PENDING, LT1, 0, 0, 0, q), FREE, FREE, FREE], {}, -1, n, -1, layout);
    FirstKeyTakesOver(e, layout);
    hide Activate, Inv;
    ResolveOne(e, [], 0);
    assert Activate(e, 0).slots == [Slot(HOLD, LT1, 0, 0, 0, (n + 1) % U32), FREE, FREE, FREE];
  }

  lemma FirstKeyTakesOver(e: Engine, layout: byte)
    requires layout < 128 && e.layer == e.base == -1 && e.layout == layout
    requires e.slots[0].mode == PENDING && e.slots[0].keycode == LT1 && e.slots[1..] == [FREE, FREE, FREE]
    ensures var d, n := Activate(e, 0), (e.seqNo + 1) % U32;
            d == Engine(e.slots[0 := e.slots[0].(mode := HOLD, seqNo := n)], e.mods, 1, n, layout, 1)
  {
    assert forall i: Index :: i > 0 ==> e.slots[i] == e.slots[1..][i - 1] == FREE;
    assert Inv(World(e, [], layout));
    ActivatePushes(e, [], layout, 0);
    ActivateFields(e, 0);
    assert [] + [0] == [0];
  }

  /** An interrupt that finds slot i pending only. */
  lemma ResolveOne(e: Engine, held: seq<Index>, i: Index)
    requires e.slots[i].mode == PENDING && ValidLt(e.slots[i].keycode)
    requires forall j: Index :: j != i ==> e.slots[j].mode != PENDING
    ensures Resolve(e, Interrupt, SLOTS) == Activate(e, i) && ResolvedHeld(e, held, Interrupt, SLOTS) == held + [i]
  {
    ActivateFields(e, i);
    hide Activate, ValidLt;
    assert Resolve(e, Interrupt, 0) == e && ResolvedHeld(e, held, Interrupt, 0) == held;
    Settled(e, Interrupt, 0, i);
    assert Resolve(e, Interrupt, i + 1) == Activate(e, i);
    assert ResolvedHeld(e, held, Interrupt, i + 1) == held + [i];
    Settled(e, Interrupt, i + 1, SLOTS);
  }

  lemma HoldingIsStacked(n: u32, layout: byte)
    requires layout < 128
    ensures Inv(Holding(n, layout))
  {
    assert forall i: Index :: HoldsLayer(Holding(n, layout).engine.slots[i]) <==> i in [0];
  }

  lemma ReleaseParks(n: u32, layout: byte)
    requires layout < 128
    ensures Next(Holding(n, layout), EvRelease(0, 0)) == Parked(Slot(HOLD, LT1, 0, 0, 0, n), n, layout)
  {
    var w := Holding(n, layout);
    HoldingIsStacked(n, layout);
    PoppedOnly(0);
    hide Deactivate, Popped, Stacked;
    DeactivatePops(w.engine, [0], layout, 0);
    DeactivateFields(w.engine, 0);
    assert w.engine.slots[0 := w.engine.slots[0].(mode := IDLE)] == [Slot(IDLE, LT1, 0, 0, 0, n), FREE, FREE, FREE];
  }

  lemma DeactivateFields(e: Engine, i: Index)
    requires ValidLt(e.slots[i].keycode)
    ensures var d := Deactivate(e, i);
            d.slots == e.slots[i := e.slots[i].(mode := IDLE)] && d.seqNo == e.seqNo && d.mods == e.mods
  {
    hide Top;
    assert e.mods - {} == e.mods;
  }

  lemma {:induction false} ExecConcat(w: World, a: seq<Event>, b: seq<Event>)
    ensures Exec(w, a + b) == Exec(Exec(w, a), b)
    decreases |a|
  {
    if a == [] {
      assert a + b == b;
    } else {
      hide Next;
      assert (a + b)[1..] == a[1..] + b;
      ExecConcat(Next(w, a[0]), a[1..], b);
    }
  }

  lemma ExecTwo(w: World, a: Event, b: Event)
    ensures Exec(w, [a, b]) == Next(Next(w, a), b)
  {
    hide Next;
    assert [a, b][1..] == [b] && [b][1..] == [];
    assert Exec(w, [a, b]) == Exec(Next(w, a), [b]);
    assert Exec(Next(w, a), [b]) == Exec(Next(Next(w, a), b), []);
  }

  lemma HoldFromParked(first: Slot, n: u32, layout: byte)
    requires layout < 128
    ensures Exec(Parked(first, n, layout), [EvPress(LT1, 0, 0, 0), EvResolve(Interrupt)])
            == Holding((n + 1) % U32, layout)
  {
    hide Next, Holding;
    PressWhileParked(first, n, layout);
    HoldAfterPress(first.seqNo, n, layout);
    ExecTwo(Parked(first, n, layout), EvPress(LT1, 0, 0, 0), EvResolve(Interrupt));
  }

  lemma RoundParks(first: Slot, n: u32, layout: byte)
    requires layout < 128
    ensures var m := (n + 1) % U32;
            Exec(Parked(first, n, layout), ROUND) == Parked(Slot(HOLD, LT1, 0, 0, 0, m), m, layout)
  {
    hide Next, Holding, Parked;
    var w, m: u32, hold, release := Parked(first, n, layout), (n + 1) % U32,
                                    [EvPress(LT1, 0, 0, 0), EvResolve(Interrupt)], [EvRelease(0, 0)];
    assert ROUND == hold + release;
    ExecConcat(w, hold, release);
    HoldFromParked(first, n, layout);
    ReleaseParks(m, layout);
    assert release[1..] == [];
    assert Exec(Holding(m, layout), release) == Exec(Next(Holding(m, layout), EvRelease(0, 0)), []);
  }

  /** Each press, hold and release of a layer key uses up one number and changes nothing else. */
  lemma {:induction false} RoundsPark(layout: byte, k: nat)
    requires layout < 128
    ensures exists first :: Exec(Start(layout), Rounds(k)) == Parked(first, k % U32, layout)
  {
    if k == 0 {
      assert Exec(Start(layout), Rounds(k)) == Parked(FREE, k % U32, layout);
    } else {
      hide Next, Parked;
      RoundsPark(layout, k - 1);
      var first :| Exec(Start(layout), Rounds(k - 1)) == Parked(first, (k - 1) % U32, layout);
      ExecConcat(Start(layout), Rounds(k - 1), ROUND);
      RoundParks(first, (k - 1) % U32, layout);
      NextNumber(k);
    }
  }

  lemma NextNumber(k: nat)
    requires 0 < k
    ensures ((k - 1) % U32 + 1) % U32 == k % U32
  {
  }

  lemma SecondKeyPending(n: u32, layout: byte)
    ensures var slots := [Slot(HOLD, LT1, 0, 0, 0, n), Slot(PENDING, LT2, 0, 1, 0, 0), FREE, FREE];
            Next(Holding(n, layout), EvPress(LT2, 0, 1, 0)) == World(Engine(slots, {}, 1, n, layout, 1), [0], layout)
  {
    var slots := Holding(n, layout).engine.slots;
    NoneTracked(slots, 0, 1);
    assert slots[1..] == [FREE, FREE, FREE];
    assert FindFree(slots[1..]) == Some(0);
    assert FindFree(slots) == Some(1);
    assert slots[1 := Slot(PENDING, LT2, 0, 1, 0, 0)]
        == [Slot(HOLD, LT1, 0, 0, 0, n), Slot(PENDING, LT2, 0, 1, 0, 0), FREE, FREE];
  }

  lemma SecondKeyLoses(layout: byte)
    requires layout < 128
    ensures var slots := [Slot(HOLD, LT1, 0, 0, 0, U32 - 1), Slot(PENDING, LT2, 0, 1, 0, 0), FREE, FREE];
            var w := Next(World(Engine(slots, {}, 1, U32 - 1, layout, 1), [0], layout), EvResolve(Interrupt));
            w.held == [0, 1] && w.engine.layout == LtLayer(LT1) && w.engine.slots[1].keycode == LT2
  {
    var slots: Slots := [Slot(HOLD, LT1, 0, 0, 0, U32 - 1), Slot(PENDING, LT2, 0, 1, 0, 0), FREE, FREE];
    var e := Engine(slots, {}, 1, U32 - 1, layout, 1);
    assert Stacked(slots, [0], U32 - 1) by { assert forall i: Index :: HoldsLayer(slots[i]) <==> i in [0]; }
    WrappedTop(slots, [0], U32 - 1, 1);
    ActivateFields(e, 1);
    assert Activate(e, 1).layout == LtLayer(LT1);
    hide Activate;
    ResolveOne(e, [0], 1);
    assert [0] + [1] == [0, 1];
  }

  /** A run that fails: after 2^32 - 2 layer keys, a first key held with the last number and a second activated above
      it, the first one's layer stays in force. */
  lemma WrappedRunFails(layout: byte)
    requires layout < 128
    ensures var events := Rounds(U32 - 2) + [EvPress(LT1, 0, 0, 0), EvResolve(Interrupt)]
                          + [EvPress(LT2, 0, 1, 0), EvResolve(Interrupt)];
            var w := Exec(Start(layout), events);
            w.held == [0, 1] && w.engine.layout == LtLayer(LT1) != LtLayer(w.engine.slots[1].keycode)
  {
    hide Next, Rounds, Holding, Parked;
    var hold, second := [EvPress(LT1, 0, 0, 0), EvResolve(Interrupt)], [EvPress(LT2, 0, 1, 0), EvResolve(Interrupt)];
    RoundsPark(layout, U32 - 2);
    var first :| Exec(Start(layout), Rounds(U32 - 2)) == Parked(first, (U32 - 2) % U32, layout);
    ExecConcat(Start(layout), Rounds(U32 - 2), hold);
    ExecConcat(Start(layout), Rounds(U32 - 2) + hold, second);
    HoldFromParked(first, U32 - 2, layout);
    SecondKeyPending(U32 - 1, layout);
    SecondKeyLoses(layout);
    ExecTwo(Holding(U32 - 1, layout), EvPress(LT2, 0, 1, 0), EvResolve(Interrupt));
  }

  // ---- The layout below the stack ----

  /** After a layer key was held and released the layout before it is back if and only if it was below 128: the
      remembered base is a signed byte. */
  lemma BaseIsSigned(layout: byte)
    ensures var w := Exec(Start(layout), ROUND);
            w.held == [] && w.engine.layout == if layout < 128 then layout else LtLayer(LT1)
  {
    if layout < 128 {
      assert Start(layout) == Parked(FREE, 0, layout);
      RoundParks(FREE, 0, layout);
    } else {
      LargeBase(layout);
    }
  }

  lemma LargeBase(layout: byte)
    requires layout >= 128
    ensures var w := Exec(Start(layout), ROUND); w.held == [] && w.engine.layout == LtLayer(LT1)
  {
    var e := Engine([Slot(PENDING, LT1, 0, 0, 0, 0), FREE, FREE, FREE], {}, -1, 0, -1, layout);
    var d := Activate(e, 0);
    var held, r := World(d, [0], layout), Deactivate(d, 0);
    ActivateFields(e, 0);
    LargeBaseStays(e);
    hide Activate, Deactivate, Popped;
    assert Next(Start(layout), EvPress(LT1, 0, 0, 0)) == World(e, [], layout) by { PressWhileParked(FREE, 0, layout); }
    assert Next(World(e, [], layout), EvResolve(Interrupt)) == held by {
      ResolveOne(e, [], 0);
      assert [] + [0] == [0];
    }
    PoppedOnly(0);
    assert Next(held, EvRelease(0, 0)) == World(r, [], layout);
    hide Next;
    ExecThree(Start(layout), ROUND[0], ROUND[1], ROUND[2]);
  }

  lemma PoppedOnly(i: Index)
    ensures Popped([i], i) == []
  {
    assert [i][..0] == [];
  }

  lemma LargeBaseStays(e: Engine)
    requires e.layout >= 128 && e.layer == -1
    requires e.slots == [Slot(PENDING, LT1, 0, 0, 0, 0), FREE, FREE, FREE]
    ensures Deactivate(Activate(e, 0), 0).layout == LtLayer(LT1)
  {
    var s := Slot(HOLD, LT1, 0, 0, 0, (e.seqNo + 1) % U32);
    var d, slots := Activate(e, 0), [s, FREE, FREE, FREE];
    assert e.slots[0 := e.slots[0].(mode := HOLD, seqNo := (e.seqNo + 1) % U32)] == slots;
    OnlyTop(slots);
    ActivateFields(e, 0);
    assert d.layout == LtLayer(LT1) && d.base == e.layout - 256;
    hide Activate;
    DeactivateFields(d, 0);
    assert Deactivate(d, 0).slots == [s.(mode := IDLE), FREE, FREE, FREE];
    TopIsMax(Deactivate(d, 0).slots, SLOTS);
  }

  lemma OnlyTop(slots: Slots)
    requires slots[1..] == [FREE, FREE, FREE] && HoldsLayer(slots[0])
    ensures Top(slots, SLOTS) == Some(0)
  {
    TopIsMax(slots, SLOTS);
    assert forall i: Index :: i > 0 ==> slots[i] == slots[1..][i - 1] == FREE;
  }

  lemma ExecThree(w: World, a: Event, b: Event, c: Event)
    ensures Exec(w, [a, b, c]) == Next(Next(Next(w, a), b), c)
  {
    hide Next;
    assert [a, b, c][1..] == [b, c];
    ExecTwo(Next(w, a), b, c);
  }
}
