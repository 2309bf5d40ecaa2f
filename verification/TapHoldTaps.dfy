/** Handing over the resolved taps: what the caller's loop gets, and what it leaves. */
module TapHoldTaps {
  import opened Wrappers
  import opened TapHold
  import opened TapHoldEngine

  /** The keycodes of the resolved taps from slot i on, in slot order. */
  function Taps(slots: Slots, i: nat): seq<word>
    requires i <= SLOTS
    decreases SLOTS - i
  {
    if i == SLOTS then []
    else (if slots[i].mode == TAP then [slots[i].keycode] else []) + Taps(slots, i + 1)
  }

  predicate HasKey(kc: word) { IsLt(kc) || IsMt(kc) }

  /** The keys among them. */
  function Keys(taps: seq<word>): seq<byte> {
    if taps == [] then [] else (if HasKey(taps[0]) then [LowByte(taps[0])] else []) + Keys(taps[1..])
  }

  /** The one-shot modifiers among them. */
  function Masks(taps: seq<word>): seq<byte> {
    if taps == [] then []
    else (if !HasKey(taps[0]) && IsOsm(taps[0]) then [LowByte(taps[0])] else []) + Masks(taps[1..])
  }

  /** Where the first tap with a key stands. */
  function FirstKey(taps: seq<word>): (k: nat)
    ensures k <= |taps| && (k < |taps| ==> HasKey(taps[k]))
  {
    if taps == [] || HasKey(taps[0]) then 0 else 1 + FirstKey(taps[1..])
  }

  lemma {:induction false} ConsumeTouchesTaps(e: Engine, i: nat, armed: seq<byte>)
    requires i <= SLOTS
    ensures var d := ConsumeFrom(e, i, armed).engine;
            && d == e.(slots := d.slots)
            && forall j: Index :: j < i || e.slots[j].mode != TAP ==> d.slots[j] == e.slots[j]
    decreases SLOTS - i
  {
    if i < SLOTS {
      if e.slots[i].mode != TAP {
        ConsumeTouchesTaps(e, i + 1, armed);
      } else {
        var kc := e.slots[i].keycode;
        var d := e.(slots := e.slots[i := e.slots[i].(mode := IDLE)]);
        ConsumeTouchesTaps(d, i + 1, if IsOsm(kc) then armed + [LowByte(kc)] else armed);
      }
    }
  }

  lemma TapsNext(slots: Slots, i: Index)
    ensures Taps(slots, i)
            == if slots[i].mode == TAP then [slots[i].keycode] + Taps(slots, i + 1) else Taps(slots, i + 1)
  {
    assert [] + Taps(slots, i + 1) == Taps(slots, i + 1);
  }

  lemma {:induction false} TapsFrom(slots: Slots, others: Slots, i: nat)
    requires i <= SLOTS && forall j: Index :: i <= j ==> slots[j] == others[j]
    ensures Taps(slots, i) == Taps(others, i)
    decreases SLOTS - i
  {
    if i < SLOTS { TapsFrom(slots, others, i + 1); }
  }

  /** One call hands over the first key and arms the modifiers that come before it; all of these are gone afterwards. */
  lemma {:induction false} ConsumeTakes(e: Engine, i: nat, armed: seq<byte>)
    requires i <= SLOTS
    ensures var c, taps := ConsumeFrom(e, i, armed), Taps(e.slots, i);
            var k := FirstKey(taps);
            && c.key == (if k < |taps| then LowByte(taps[k]) else 0)
            && c.armed == armed + Masks(taps[..k])
            && Taps(c.engine.slots, i) == if k < |taps| then taps[k + 1..] else []
    decreases SLOTS - i, 2
  {
    hide IsLt, IsMt, IsOsm, LowByte, Taps;
    var taps := Taps(e.slots, i);
    if i == SLOTS {
      NoTaps(e.slots);
      assert armed + [] == armed;
    } else {
      TapsNext(e.slots, i);
      if e.slots[i].mode != TAP {
        ConsumeTakes(e, i + 1, armed);
        ConsumeTouchesTaps(e, i + 1, armed);
        TapsNext(ConsumeFrom(e, i + 1, armed).engine.slots, i);
      } else {
        ConsumeTap(e, i, armed);
      }
    }
  }

  lemma NoTaps(slots: Slots)
    ensures Taps(slots, SLOTS) == []
  {
  }

  lemma ConsumeUnfold(e: Engine, i: Index, armed: seq<byte>)
    requires e.slots[i].mode == TAP
    ensures var kc, d := e.slots[i].keycode, e.(slots := e.slots[i := e.slots[i].(mode := IDLE)]);
            ConsumeFrom(e, i, armed)
            == if HasKey(kc) then Consumed(d, LowByte(kc), armed)
               else ConsumeFrom(d, i + 1, if IsOsm(kc) then armed + [LowByte(kc)] else armed)
  {
    hide IsLt, IsMt, IsOsm, LowByte;
  }

  lemma ConsumeTap(e: Engine, i: Index, armed: seq<byte>)
    requires e.slots[i].mode == TAP
    ensures var c, taps := ConsumeFrom(e, i, armed), Taps(e.slots, i);
            var k := FirstKey(taps);
            && c.key == (if k < |taps| then LowByte(taps[k]) else 0)
            && c.armed == armed + Masks(taps[..k])
            && Taps(c.engine.slots, i) == if k < |taps| then taps[k + 1..] else []
    decreases SLOTS - i, 1
  {
    hide IsLt, IsMt, IsOsm, LowByte, Taps, ConsumeFrom;
    var taps := Taps(e.slots, i);
    ConsumeUnfold(e, i, armed);
    TapsNext(e.slots, i);
    if HasKey(e.slots[i].keycode) {
      var d := e.(slots := e.slots[i := e.slots[i].(mode := IDLE)]);
      TapsNext(d.slots, i);
      TapsFrom(e.slots, d.slots, i + 1);
      assert armed + [] == armed && taps[..0] == [] && taps[1..] == Taps(d.slots, i + 1);
    } else {
      hide Masks, FirstKey, HasKey;
      ConsumeModifier(e, i, armed);
      FirstSkipped(taps, armed);
    }
  }

  /** A tap without a key is gone, and the search goes on after it. */
  lemma ConsumeModifier(e: Engine, i: Index, armed: seq<byte>)
    requires e.slots[i].mode == TAP && !HasKey(e.slots[i].keycode)
    ensures var c, taps, kc := ConsumeFrom(e, i, armed), Taps(e.slots, i + 1), e.slots[i].keycode;
            var k, more := FirstKey(taps), if IsOsm(kc) then armed + [LowByte(kc)] else armed;
            && Taps(e.slots, i) == [kc] + taps && Taps(e.slots, i)[1..] == taps
            && c.key == (if k < |taps| then LowByte(taps[k]) else 0)
            && c.armed == more + Masks(taps[..k])
            && Taps(c.engine.slots, i) == if k < |taps| then taps[k + 1..] else []
    decreases SLOTS - i, 0
  {
    hide IsLt, IsMt, IsOsm, LowByte, Taps, ConsumeFrom, Masks, FirstKey;
    var kc, d := e.slots[i].keycode, e.(slots := e.slots[i := e.slots[i].(mode := IDLE)]);
    var more := if IsOsm(kc) then armed + [LowByte(kc)] else armed;
    ConsumeUnfold(e, i, armed);
    hide HasKey;
    TapsNext(e.slots, i);
    TapsFrom(e.slots, d.slots, i + 1);
    ConsumeTakes(d, i + 1, more);
    ConsumeTouchesTaps(d, i + 1, more);
    TapsNext(ConsumeFrom(d, i + 1, more).engine.slots, i);
  }

  lemma FirstSkipped(taps: seq<word>, armed: seq<byte>)
    requires taps != [] && !HasKey(taps[0])
    ensures var k, more := FirstKey(taps[1..]), if IsOsm(taps[0]) then armed + [LowByte(taps[0])] else armed;
            && FirstKey(taps) == k + 1 && more + Masks(taps[1..][..k]) == armed + Masks(taps[..k + 1])
            && (k < |taps[1..]| ==> taps[1..][k] == taps[k + 1] && taps[1..][k + 1..] == taps[k + 2..])
  {
    hide IsLt, IsMt, IsOsm, LowByte;
    var k := FirstKey(taps[1..]);
    assert taps[..k + 1][1..] == taps[1..][..k];
    assert armed + [LowByte(taps[0])] + Masks(taps[1..][..k]) == armed + ([LowByte(taps[0])] + Masks(taps[1..][..k]));
    assert [] + Masks(taps[1..][..k]) == Masks(taps[1..][..k]);
  }

  // ---- The caller's loop ----

  datatype Emptied = Emptied(engine: Engine, keys: seq<byte>, armed: seq<byte>)

  /** Consume until no key comes back. */
  function Empty(e: Engine): Emptied
    decreases |Taps(e.slots, 0)|
  {
    ConsumeTakes(e, 0, []);
    var c := ConsumeFrom(e, 0, []);
    if c.key == 0 then Emptied(c.engine, [], c.armed)
    else
      var more := Empty(c.engine);
      Emptied(more.engine, [c.key] + more.keys, c.armed + more.armed)
  }

  predicate ZeroKey(kc: word) { HasKey(kc) && LowByte(kc) == 0 }

  /** Where the first tap with key 0 stands. */
  function FirstZero(taps: seq<word>): (z: nat)
    ensures z <= |taps| && (z < |taps| ==> ZeroKey(taps[z])) && forall k :: 0 <= k < z ==> !ZeroKey(taps[k])
  {
    if taps == [] || ZeroKey(taps[0]) then 0 else 1 + FirstZero(taps[1..])
  }

  lemma {:induction false} ZeroAfterKey(taps: seq<word>, k: nat)
    requires k == FirstKey(taps) < |taps|
    ensures FirstZero(taps) == if LowByte(taps[k]) == 0 then k else k + 1 + FirstZero(taps[k + 1..])
    decreases k
  {
    hide IsLt, IsMt, LowByte;
    if k > 0 {
      ZeroAfterKey(taps[1..], k - 1);
      assert taps[k + 1..] == taps[1..][k..];
    }
  }

  lemma {:induction false} SplitAtKey(taps: seq<word>, k: nat, n: nat)
    requires k == FirstKey(taps) < n <= |taps|
    ensures Keys(taps[..n]) == [LowByte(taps[k])] + Keys(taps[k + 1..n])
    ensures Masks(taps[..n]) == Masks(taps[..k]) + Masks(taps[k + 1..n])
    decreases k
  {
    hide IsLt, IsMt, IsOsm, LowByte;
    assert taps[..n][1..] == taps[1..n];
    if k == 0 {
      assert taps[..0] == [];
    } else {
      var rest := taps[1..];
      SplitAtKey(rest, k - 1, n - 1);
      assert taps[..k][1..] == rest[..k - 1] && rest[..n - 1] == taps[1..n] && rest[k..n - 1] == taps[k + 1..n];
    }
  }

  lemma {:induction false} NoKeysBefore(taps: seq<word>, k: nat)
    requires k <= FirstKey(taps)
    ensures Keys(taps[..k]) == []
    decreases k
  {
    hide IsLt, IsMt, LowByte;
    if k > 0 {
      NoKeysBefore(taps[1..], k - 1);
      assert taps[..k][1..] == taps[1..][..k - 1];
    }
  }

  lemma {:induction false} NoKey(taps: seq<word>)
    requires FirstKey(taps) == |taps|
    ensures FirstZero(taps) == |taps| && Keys(taps) == []
  {
    if taps != [] { NoKey(taps[1..]); }
  }

  /** Every key once and in slot order, and every one-shot modifier, up to the first tap whose key is 0; the taps
      after that one are left. */
  predicate Handed(taps: seq<word>, keys: seq<byte>, armed: seq<byte>, left: seq<word>) {
    var z := FirstZero(taps);
    keys == Keys(taps[..z]) && armed == Masks(taps[..z]) && left == if z < |taps| then taps[z + 1..] else []
  }

  /** What one call gives, as ConsumeTakes says it. */
  predicate Took(taps: seq<word>, key: byte, armed: seq<byte>, rest: seq<word>) {
    var k := FirstKey(taps);
    && key == (if k < |taps| then LowByte(taps[k]) else 0)
    && armed == Masks(taps[..k])
    && rest == if k < |taps| then taps[k + 1..] else []
  }

  lemma HandedLast(taps: seq<word>, armed: seq<byte>, rest: seq<word>)
    requires Took(taps, 0, armed, rest)
    ensures Handed(taps, [], armed, rest)
  {
    hide IsLt, IsMt, IsOsm, LowByte, Keys, Masks, FirstKey, FirstZero;
    var k := FirstKey(taps);
    NoKeysBefore(taps, k);
    if k == |taps| { NoKey(taps); } else { ZeroAfterKey(taps, k); }
  }

  lemma HandedMore(taps: seq<word>, key: byte, masks: seq<byte>, rest: seq<word>,
                   keys: seq<byte>, armed: seq<byte>, left: seq<word>)
    requires key != 0 && Took(taps, key, masks, rest) && Handed(rest, keys, armed, left)
    ensures Handed(taps, [key] + keys, masks + armed, left)
  {
    hide IsLt, IsMt, IsOsm, LowByte, Keys, Masks, FirstKey, FirstZero;
    var k := FirstKey(taps);
    ZeroAfterKey(taps, k);
    SplitAtKey(taps, k, FirstZero(taps));
    SplitAgain(taps, k, FirstZero(taps[k + 1..]));
  }

  lemma SplitAgain(taps: seq<word>, k: nat, y: nat)
    requires k < |taps| && y <= |taps[k + 1..]|
    ensures taps[k + 1..][..y] == taps[k + 1..k + 1 + y]
    ensures y < |taps[k + 1..]| ==> taps[k + 1..][y + 1..] == taps[k + 1 + y + 1..]
  {
  }

  /** The caller's loop hands over the resolved taps. */
  lemma {:induction false} LoopHandsOver(e: Engine)
    ensures var r := Empty(e); Handed(Taps(e.slots, 0), r.keys, r.armed, Taps(r.engine.slots, 0))
    decreases |Taps(e.slots, 0)|
  {
    EmptyStep(e);
    TakesFromStart(e);
    var c, taps := ConsumeFrom(e, 0, []), Taps(e.slots, 0);
    hide ConsumeFrom, Empty, Handed, Took, Taps;
    if c.key == 0 {
      HandedLast(taps, c.armed, Taps(c.engine.slots, 0));
    } else {
      LoopHandsOver(c.engine);
      var more := Empty(c.engine);
      HandedMore(taps, c.key, c.armed, Taps(c.engine.slots, 0), more.keys, more.armed, Taps(more.engine.slots, 0));
    }
  }

  lemma TakesFromStart(e: Engine)
    ensures var c, taps := ConsumeFrom(e, 0, []), Taps(e.slots, 0);
            && Took(taps, c.key, c.armed, Taps(c.engine.slots, 0))
            && |Taps(c.engine.slots, 0)| <= |taps| && (c.key != 0 ==> |Taps(c.engine.slots, 0)| < |taps|)
  {
    hide ConsumeFrom, Taps, Masks, FirstKey, LowByte;
    ConsumeTakes(e, 0, []);
    var taps := Taps(e.slots, 0);
    assert [] + Masks(taps[..FirstKey(taps)]) == Masks(taps[..FirstKey(taps)]);
  }

  lemma EmptyStep(e: Engine)
    ensures var c := ConsumeFrom(e, 0, []);
            Empty(e) == if c.key == 0 then Emptied(c.engine, [], c.armed)
                        else var more := Empty(c.engine);
                             Emptied(more.engine, [c.key] + more.keys, c.armed + more.armed)
  {
    hide ConsumeFrom;
  }

  /** Nothing is left if and only if no tap with key 0 comes before another tap. */
  lemma NothingIsLeft(e: Engine)
    ensures var taps := Taps(e.slots, 0);
            Taps(Empty(e).engine.slots, 0) == [] <==> forall k :: 0 <= k < |taps| - 1 ==> !ZeroKey(taps[k])
  {
    LoopHandsOver(e);
    var taps := Taps(e.slots, 0);
    var z := FirstZero(taps);
    hide Taps, Empty, Keys, Masks;
    if z < |taps| - 1 { assert |taps[z + 1..]| > 0; }
  }

  /** What the loop still makes of a key just handed over. */
  function Onward(e: Engine, key: byte, keys: seq<byte>, armed: seq<byte>): Emptied {
    if key == 0 then Emptied(e, keys, armed)
    else var more := Empty(e); Emptied(more.engine, keys + [key] + more.keys, armed + more.armed)
  }

  lemma OneTurn(e: Engine, key: byte, keys: seq<byte>, armed: seq<byte>)
    requires key != 0
    ensures var c := ConsumeFrom(e, 0, []);
            && Onward(e, key, keys, armed) == Onward(c.engine, c.key, keys + [key], armed + c.armed)
            && |Taps(c.engine.slots, 0)| <= |Taps(e.slots, 0)|
            && (c.key != 0 ==> |Taps(c.engine.slots, 0)| < |Taps(e.slots, 0)|)
  {
    EmptyStep(e);
    TakesFromStart(e);
    hide Empty, ConsumeFrom, Taps, Took;
    var c := ConsumeFrom(e, 0, []);
    if c.key == 0 {
      assert keys + [key] + [] == keys + [key];
    } else {
      var more := Empty(c.engine);
      assert keys + [key] + ([c.key] + more.keys) == keys + [key] + [c.key] + more.keys;
      assert armed + (c.armed + more.armed) == armed + c.armed + more.armed;
    }
  }

  lemma FirstTurn(e: Engine)
    ensures var c := ConsumeFrom(e, 0, []); Onward(c.engine, c.key, [], c.armed) == Empty(e)
  {
    EmptyStep(e);
    hide Empty, ConsumeFrom;
    var c := ConsumeFrom(e, 0, []);
    assert [] + [c.key] == [c.key];
  }

  /** The loop in the key processor, on the slots. */
  method ConsumeAll(t: TapHolder) returns (keys: seq<byte>, armed: seq<byte>)
    requires t.Valid()
    modifies t.pending
    ensures t.Valid() && Emptied(t.View(), keys, armed) == Empty(old(t.View()))
  {
    hide Taps, Empty, ConsumeFrom;
    ghost var start := t.View();
    FirstTurn(start);
    keys, armed := [], [];
    var key, masks := t.ConsumeTap();
    armed := masks;
    while key != 0
      invariant t.Valid() && Onward(t.View(), key, keys, armed) == Empty(start)
      decreases |Taps(t.View().slots, 0)|, key != 0
    {
      OneTurn(t.View(), key, keys, armed);
      hide Onward;
      keys := keys + [key];
      key, masks := t.ConsumeTap();
      armed := armed + masks;
    }
  }
}
