/** The tap/hold statics, updated in place. */
module TapHoldEngine {
  import opened Wrappers
  import opened TapHold

  /** Slots not reached yet are as they were. */
  lemma {:induction false} ResolveAhead(e: Engine, t: Trigger, n: nat)
    requires n <= SLOTS
    ensures forall j: Index :: j >= n ==> Resolve(e, t, n).slots[j] == e.slots[j]
  {
    hide ModsOf, Top;
    if n > 0 { ResolveAhead(e, t, n - 1); }
  }

  class TapHolder {
    const pending: array<Slot>
    var activeMods: set<nat>
    var activeLayer: int
    var holdActivated: bool
    var seqNo: u32
    var layerBase: int
    var currentLayout: byte
    var layerChanged: bool       // set by `layer_changed`, cleared by whoever reads it

    ghost predicate Valid()
      reads this
    {
      pending.Length == SLOTS
    }

    ghost function View(): Engine
      requires Valid()
      reads this, pending
    {
      Engine(pending[..], activeMods, activeLayer, seqNo, layerBase, currentLayout)
    }

    constructor (layout: byte)
      ensures Valid() && fresh(pending) && View() == Start(layout).engine
    {
      pending := new Slot[SLOTS](_ => FREE);
      activeMods, activeLayer, holdActivated, seqNo, layerBase, currentLayout := {}, -1, false, 0, -1, layout;
      layerChanged := false;
    }

    method FindPos(row: byte, col: byte) returns (r: Option<nat>)
      requires Valid()
      ensures r == FindByPos(pending[..], row, col)
    {
      assert pending[0..] == pending[..];
      for i := 0 to SLOTS
        invariant FindByPos(pending[..], row, col) ==
                  (match FindByPos(pending[i..], row, col) case None => None case Some(k) => Some(i + k))
      {
        assert pending[i..][1..] == pending[i + 1..];
        if pending[i].mode != IDLE && pending[i].row == row && pending[i].col == col { return Some(i); }
      }
      return None;
    }

    method FindIdle() returns (r: Option<nat>)
      requires Valid()
      ensures r == FindFree(pending[..])
    {
      assert pending[0..] == pending[..];
      for i := 0 to SLOTS
        invariant FindFree(pending[..]) == (match FindFree(pending[i..]) case None => None case Some(k) => Some(i + k))
      {
        assert pending[i..][1..] == pending[i + 1..];
        if pending[i].mode == IDLE { return Some(i); }
      }
      return None;
    }

    method RecomputeLayer()
      requires Valid()
      modifies this`activeLayer, this`layerBase, this`currentLayout, this`layerChanged
      ensures Valid() && View() == Recompute(old(View())) && layerChanged
    {
      var top: Option<nat> := None;
      for i := 0 to SLOTS
        invariant top == Top(pending[..], i)
      {
        if pending[i].mode == HOLD && IsLt(pending[i].keycode) && LtLayer(pending[i].keycode) < LAYERS
           && (top.None? || pending[i].seqNo > pending[top.value].seqNo) {
          top := Some(i);
        }
      }
      if top.Some? {
        activeLayer := LtLayer(pending[top.value].keycode);
        currentLayout := activeLayer;
      } else {
        activeLayer := -1;
        if 0 <= layerBase < 256 {
          currentLayout := layerBase;
          layerBase := -1;
        }
      }
      layerChanged := true;
    }

    method ActivateHold(i: Index)
      requires Valid()
      modifies this`activeMods, this`activeLayer, this`seqNo, this`layerBase, this`currentLayout, this`layerChanged,
              pending
      ensures Valid() && View() == Activate(old(View()), i)
      ensures layerChanged == (old(layerChanged) || ValidLt(old(pending[i]).keycode))
    {
      hide Bits;
      hide Top;
      var kc := pending[i].keycode;
      assert activeMods + {} == activeMods;
      pending[i] := pending[i].(mode := HOLD);
      if IsMt(kc) {
        activeMods := activeMods + Bits(MtMod(kc));
      } else if IsLt(kc) {
        if LtLayer(kc) < LAYERS {
          if activeLayer < 0 { layerBase := Signed(currentLayout); }
          seqNo := (seqNo + 1) % U32;
          pending[i] := pending[i].(seqNo := seqNo);
          assert pending[..] == old(pending[..])[i := pending[i]];
          RecomputeLayer();
        }
      } else if IsOsm(kc) {
        activeMods := activeMods + Bits(LowByte(kc));
      }
    }

    method DeactivateHold(i: Index)
      requires Valid()
      modifies this`activeMods, this`activeLayer, this`layerBase, this`currentLayout, this`layerChanged, pending
      ensures Valid() && View() == Deactivate(old(View()), i)
      ensures layerChanged == (old(layerChanged) || ValidLt(old(pending[i]).keycode))
    {
      hide Bits;
      hide Top;
      var kc := pending[i].keycode;
      ghost var was := View();
      if IsMt(kc) {
        activeMods := activeMods - Bits(MtMod(kc));
        pending[i] := pending[i].(mode := IDLE);
      } else if IsLt(kc) {
        pending[i] := pending[i].(mode := IDLE);
        if LtLayer(kc) < LAYERS {
          assert was.mods - {} == was.mods;
          RecomputeLayer();
        }
      } else {
        if IsOsm(kc) { activeMods := activeMods - Bits(LowByte(kc)); }
        pending[i] := pending[i].(mode := IDLE);
      }
    }

    method OnPress(kc: word, row: byte, col: byte, now: u32) returns (absorbed: bool)
      requires Valid()
      modifies pending
      ensures Valid() && (View(), absorbed) == Press(old(View()), kc, row, col, now)
    {
      if !IsLt(kc) && !IsMt(kc) && !IsOsm(kc) { return false; }
      var at := FindPos(row, col);
      if at.Some? { return true; }
      var free := FindIdle();
      if free.None? { return false; }
      pending[free.value] := Slot(PENDING, kc, row, col, now, pending[free.value].seqNo);
      return true;
    }

    method OnRelease(row: byte, col: byte) returns (tracked: bool)
      requires Valid()
      modifies this`activeMods, this`activeLayer, this`layerBase, this`currentLayout, this`layerChanged, pending
      ensures Valid() && (View(), tracked) == Release(old(View()), row, col)
    {
      hide Activate;
      hide Deactivate;
      var at := FindPos(row, col);
      if at.None? { return false; }
      var i := at.value;
      if pending[i].mode == PENDING {
        pending[i] := pending[i].(mode := TAP);
      } else if pending[i].mode == HOLD {
        DeactivateHold(i);
      } else {
        pending[i] := pending[i].(mode := IDLE);
      }
      return true;
    }

    method Tick(now: u32)
      requires Valid()
      modifies this, pending
      ensures Valid() && View() == Resolve(old(View()), Timeout(now), SLOTS)
      ensures holdActivated <==> exists i: Index :: Due(old(pending[..])[i], Timeout(now))
    {
      hide Activate;
      holdActivated := false;
      for i := 0 to SLOTS
        invariant Valid() && View() == Resolve(old(View()), Timeout(now), i)
        invariant holdActivated <==> exists j: Index :: j < i && Due(old(pending[..])[j], Timeout(now))
      {
        ResolveAhead(old(View()), Timeout(now), i);
        if pending[i].mode == PENDING && Elapsed(now, pending[i].pressTime) >= TIMEOUT_MS {
          ActivateHold(i);
          holdActivated := true;
        }
      }
    }

    method InterruptPending()
      requires Valid()
      modifies this, pending
      ensures Valid() && View() == Resolve(old(View()), Interrupt, SLOTS)
    {
      hide Activate;
      for i := 0 to SLOTS
        invariant Valid() && View() == Resolve(old(View()), Interrupt, i)
      {
        if pending[i].mode == PENDING { ActivateHold(i); }
      }
    }

    /** `armed` are the one-shot modifiers handed over on the way. */
    method ConsumeTap() returns (key: byte, armed: seq<byte>)
      requires Valid()
      modifies pending
      ensures Valid() && Consumed(View(), key, armed) == ConsumeFrom(old(View()), 0, [])
    {
      key, armed := 0, [];
      for i := 0 to SLOTS
        invariant ConsumeFrom(View(), i, armed) == ConsumeFrom(old(View()), 0, [])
      {
        if pending[i].mode == TAP {
          var kc := pending[i].keycode;
          pending[i] := pending[i].(mode := IDLE);
          if IsLt(kc) { return LowByte(kc), armed; }
          if IsMt(kc) { return LowByte(kc), armed; }
          if IsOsm(kc) { armed := armed + [LowByte(kc)]; }
        }
      }
    }
  }
}
