/** The applet's state in place: PIN buffers, flags, key slots and the data-object table, changed command by command. */
module OpenPgpApplet {
  import opened Wrappers
  import opened Crc8
  import opened Tlv
  import opened DoStore
  import opened OpenPgpCard
  import ApduParser

  // ---- Comparing PINs ----

  function OrBits(a: nat, b: nat, k: nat): (r: nat)
    ensures r < Pow2(k)
    decreases k
  {
    if k == 0 then 0 else 2 * OrBits(a / 2, b / 2, k - 1) + (if a % 2 == 1 || b % 2 == 1 then 1 else 0)
  }

  function Or(a: byte, b: byte): byte {
    assert Pow2(8) == 256;
    OrBits(a, b, 8)
  }

  lemma {:induction false} XorIsZero(a: nat, b: nat, k: nat)
    requires a < Pow2(k) && b < Pow2(k)
    ensures XorBits(a, b, k) == 0 <==> a == b
  {
    if k > 0 { XorIsZero(a / 2, b / 2, k - 1); }
  }

  lemma {:induction false} OrIsZero(a: nat, b: nat, k: nat)
    requires a < Pow2(k) && b < Pow2(k)
    ensures OrBits(a, b, k) == 0 <==> a == 0 && b == 0
  {
    if k > 0 { OrIsZero(a / 2, b / 2, k - 1); }
  }

  lemma Difference(diff: byte, a: byte, b: byte)
    ensures Or(diff, Xor(a, b)) == 0 <==> diff == 0 && a == b
  {
    assert Pow2(8) == 256;
    XorIsZero(a, b, 8);
    OrIsZero(diff, Xor(a, b), 8);
  }

  /** Equality without an early exit: the running difference is 0 exactly while every byte has agreed. */
  method PinEqual(a: seq<byte>, pin: array<byte>, len: nat) returns (equal: bool)
    requires len <= pin.Length
    ensures equal == (a == pin[..len])
  {
    hide Or, Xor;
    var diff := Xor(|a| % 256, len % 256);
    Difference(0, |a| % 256, len % 256);
    OrIdentity(Xor(|a| % 256, len % 256));
    var n := if |a| < len then |a| else len;
    for i := 0 to n
      invariant diff == 0 <==> |a| % 256 == len % 256 && a[..i] == pin[..i]
    {
      Difference(diff, a[i], pin[i]);
      diff := Or(diff, Xor(a[i], pin[i]));
      assert a[..i + 1] == a[..i] + [a[i]] && pin[..i + 1] == pin[..i] + [pin[i]];
    }
    equal := diff == 0 && |a| == len;
    assert a[..|a|] == a;
  }

  lemma OrIdentity(a: byte)
    ensures Or(0, a) == 0 <==> a == 0
  {
    assert Pow2(8) == 256;
    OrIsZero(0, a, 8);
  }

  // ---- The applet ----

  /** What is kept of the PINs. */
  datatype Pins = Pins(pw1: seq<byte>, pw3: seq<byte>, retry1: nat, retry3: nat)

  class Applet {
    var selected: bool
    var terminated: bool
    var signOk: bool
    var userOk: bool
    var adminOk: bool
    var retry1: nat
    var retry3: nat
    var len1: nat
    var len3: nat
    var serial: Option<seq<byte>>
    var flash: Pins              // the PINs and counters as they would come back after a power cut
    const pw1: array<byte>
    const pw3: array<byte>
    const keys: array<Key>
    const store: Store

    ghost predicate Valid()
      reads this, pw1, pw3, keys, store, store.slots
    {
      && pw1 != pw3 && pw1.Length == PW_MAX_LEN && pw3.Length == PW_MAX_LEN && keys.Length == 3
      && len1 <= PW_MAX_LEN && len3 <= PW_MAX_LEN && retry1 <= RETRY_MAX && retry3 <= RETRY_MAX
      && (serial.Some? ==> |serial.value| == 4)
      && store.Valid()
    }

    ghost function View(): Card
      requires Valid()
      reads this, pw1, pw3, keys, store, store.slots
    {
      Card(selected, terminated, signOk, userOk, adminOk, retry1, retry3, pw1[..len1], pw3[..len3],
           keys[..], store.View(), serial)
    }

    /** A power cut would lose nothing: the flash holds the PINs and counters in force. */
    ghost predicate Synced()
      requires Valid()
      reads this, pw1, pw3, keys, store, store.slots
    {
      flash == Pins(pw1[..len1], pw3[..len3], retry1, retry3)
    }

    method PersistPins(saved: bool)
      requires Valid()
      modifies this`flash
      ensures Valid() && View() == old(View()) && (saved ==> Synced()) && (!saved ==> flash == old(flash))
    {
      if saved { flash := Pins(pw1[..len1], pw3[..len3], retry1, retry3); }
    }

    /** Boot: factory PINs, no keys, no data objects yet. */
    constructor ()
      ensures Valid() && fresh(pw1) && fresh(pw3) && fresh(keys) && fresh(store) && fresh(store.slots)
      ensures View() == Card(false, false, false, false, false, RETRY_MAX, RETRY_MAX, PW1_DEFAULT, PW3_DEFAULT,
                             [Absent, Absent, Absent], map[], None)
    {
      selected, terminated, signOk, userOk, adminOk := false, false, false, false, false;
      retry1, retry3, len1, len3, serial := RETRY_MAX, RETRY_MAX, |PW1_DEFAULT|, |PW3_DEFAULT|, None;
      flash := Pins([], [], 0, 0);
      pw1 := new byte[PW_MAX_LEN](_ => 0);
      pw3 := new byte[PW_MAX_LEN](_ => 0);
      keys := new Key[3](_ => Absent);
      store := new Store();
      new;
      CopyInto(pw1, 0, PW1_DEFAULT);
      CopyInto(pw3, 0, PW3_DEFAULT);
    }

    method SelectFile(a: Apdu) returns (sw: nat, ghost event: Event)
      requires Valid()
      modifies this`selected, this`signOk, this`userOk, this`adminOk
      ensures Valid() && Reply(View(), sw, [], event) == SelectApplet(old(View()), a)
    {
      hide Contents, WellFormed;
      if a.p1 != 0x04 || |a.data| < 6 || a.data[..6] != AID_PREFIX { return SW_REF_NOT_FOUND, Quiet; }
      selected, signOk, userOk, adminOk := true, false, false, false;
      return SW_OK, Select;
    }

    /** The counters reach the flash with every change; a routine VERIFY that changes nothing writes nothing. */
    method VerifyPin(a: Apdu, saved: bool) returns (sw: nat, ghost event: Event)
      requires Valid()
      modifies this
      ensures Valid() && Reply(View(), sw, [], event) == Verify(old(View()), a)
      ensures old(Synced()) && saved ==> Synced()
      ensures event == PinOk(a.p2) && old(if a.p2 == 0x83 then retry3 else retry1) == RETRY_MAX ==> flash == old(flash)
    {
      hide Contents, WellFormed;
      var isPw1 := a.p2 == 0x81 || a.p2 == 0x82;
      if !isPw1 && a.p2 != 0x83 { return SW_WRONG_P1P2, Quiet; }
      var retry := if isPw1 then retry1 else retry3;
      if retry == 0 { return SW_AUTH_BLOCKED, Quiet; }
      if a.data == [] { return 0x63C0 + retry, Quiet; }
      var equal;
      if isPw1 { equal := PinEqual(a.data, pw1, len1); } else { equal := PinEqual(a.data, pw3, len3); }
      if !equal {
        SetRetry(isPw1, retry - 1);
        PersistPins(saved);
        return 0x63C0 + retry - 1, PinWrong(isPw1);
      }
      AcceptPin(a.p2, saved);
      return SW_OK, PinOk(a.p2);
    }

    method AcceptPin(mode: byte, saved: bool)
      requires Valid()
      modifies this
      ensures Valid() && View() == Accept(old(View()), mode).card && (old(Synced()) && saved ==> Synced())
      ensures old(if mode == 0x83 then retry3 else retry1) == RETRY_MAX ==> flash == old(flash)
    {
      hide Contents, WellFormed;
      var retry := if mode == 0x83 then retry3 else retry1;
      SetRetry(mode != 0x83, RETRY_MAX);
      if mode == 0x81 { signOk := true; } else if mode == 0x82 { userOk := true; } else { adminOk := true; }
      if retry != RETRY_MAX { PersistPins(saved); }
    }

    method SetRetry(isPw1: bool, n: nat)
      requires Valid() && n <= RETRY_MAX
      modifies this`retry1, this`retry3
      ensures Valid() && View() == WithRetry(old(View()), isPw1, n)
    {
      if isPw1 { retry1 := n; } else { retry3 := n; }
    }

    method ChangeReference(a: Apdu, saved: bool) returns (sw: nat, ghost event: Event)
      requires Valid()
      modifies this, pw1, pw3
      ensures Valid() && Reply(View(), sw, [], event) == ChangePin(old(View()), a)
      ensures old(Synced()) && saved ==> Synced()
    {
      hide Contents, WellFormed;
      var isPw1 := a.p2 == 0x81;
      if a.p1 != 0 || (!isPw1 && a.p2 != 0x83) { return SW_WRONG_P1P2, Quiet; }
      var retry := if isPw1 then retry1 else retry3;
      var least := if isPw1 then |PW1_DEFAULT| else |PW3_DEFAULT|;
      var len := if isPw1 then len1 else len3;
      var pin := if isPw1 then pw1 else pw3;
      if retry == 0 { return SW_AUTH_BLOCKED, Quiet; }
      if |a.data| <= len || |a.data| - len < least || |a.data| - len > PW_MAX_LEN { return SW_WRONG_DATA, Quiet; }
      var equal := PinEqual(a.data[..len], pin, len);
      if !equal {
        SetRetry(isPw1, retry - 1);
        PersistPins(saved);
        return 0x63C0 + retry - 1, PinWrong(isPw1);
      }
      SetRetry(isPw1, RETRY_MAX);
      ReplacePin(isPw1, a.data[len..]);
      PersistPins(saved);
      return SW_OK, PinChanged(isPw1);
    }

    /** A new PIN takes back what the old one had opened. */
    method ReplacePin(isPw1: bool, pin: seq<byte>)
      requires Valid() && |pin| <= PW_MAX_LEN
      modifies this, pw1, pw3
      ensures Valid()
      ensures View() == if isPw1 then old(View()).(pw1 := pin, signOk := false, userOk := false)
                        else old(View()).(pw3 := pin, adminOk := false)
    {
      hide Contents, WellFormed;
      if isPw1 {
        CopyInto(pw1, 0, pin);
        len1, signOk, userOk := |pin|, false, false;
        assert pw1[..len1] == pin;
      } else {
        CopyInto(pw3, 0, pin);
        len3, adminOk := |pin|, false;
        assert pw3[..len3] == pin;
      }
    }

    // ---- Data objects ----

    /** The data-object table is written; the flash may refuse to keep it. */
    method Write(tag: word, value: seq<byte>, saved: bool) returns (ok: bool)
      requires Valid()
      modifies store.slots
      ensures Valid() && View() == old(View()).(dos := Put(old(View()).dos, tag, value).objects)
      ensures ok == (Put(old(View()).dos, tag, value).stored && saved)
    {
      hide Contents, WellFormed, Put;
      assert Padded(Some(value), |value|) == value;
      ok := store.PutObject(tag, Some(value), |value|, saved);
    }

    method FirstByteOf(tag: word, default: byte) returns (b: byte)
      requires Valid()
      ensures b == if |Read(View().dos, tag)| >= 1 then Read(View().dos, tag)[0] else default
    {
      hide Contents, WellFormed;
      var v := store.GetObject(tag);
      if v.Some? && |v.value| >= 1 { return v.value[0]; }
      b := default;
    }

    method EnsureDefaults(saved: bool) returns (ok: bool)
      requires Valid()
      modifies store.slots
      ensures Valid() && View() == old(View()).(dos := Ensure(old(View()).dos, DEFAULTS))
      ensures ok == EnsureOk(old(View()).dos, DEFAULTS, saved)
    {
      hide Contents, WellFormed, DEFAULTS, Put;
      var i := 0;
      ok := true;
      while i < |DEFAULTS|
        invariant 0 <= i <= |DEFAULTS| && Valid()
        invariant View() == old(View()).(dos := View().dos)
        invariant Ensure(View().dos, DEFAULTS[i..]) == Ensure(old(View()).dos, DEFAULTS)
        invariant EnsureOk(old(View()).dos, DEFAULTS, saved) == (ok && EnsureOk(View().dos, DEFAULTS[i..], saved))
      {
        var o := DEFAULTS[i];
        assert DEFAULTS[i..][0] == o && DEFAULTS[i..][1..] == DEFAULTS[i + 1..];
        var v := store.GetObject(o.tag);
        if v.None? {
          var written := Write(o.tag, o.value, saved);
          if !written { ok := false; }
        }
        i := i + 1;
      }
    }

    method PutSerial(bytes: seq<byte>, saved: bool)
      requires Valid() && |bytes| == 4
      modifies store.slots
      ensures Valid() && View() == old(View()).(dos := WithSerial(old(View()).dos, bytes))
    {
      hide Contents, WellFormed, Put;
      var v := store.GetObject(0x4F);
      var aid := if v.Some? && |v.value| == 16 then v.value else FACTORY_AID;
      var _ := Write(0x4F, aid[..10] + bytes + aid[14..], saved);
    }

    method WipeKeys()
      requires Valid()
      modifies keys
      ensures Valid() && View() == old(View()).(keys := [Absent, Absent, Absent])
    {
      hide Contents, WellFormed;
      forall i | 0 <= i < keys.Length { keys[i] := Absent; }
      assert keys[..] == [Absent, Absent, Absent];
    }

    method FactoryPins()
      requires Valid()
      modifies this, pw1, pw3
      ensures Valid()
      ensures View() == old(View()).(pw1 := PW1_DEFAULT, pw3 := PW3_DEFAULT, retry1 := RETRY_MAX, retry3 := RETRY_MAX,
                                     signOk := false, userOk := false, adminOk := false)
    {
      hide Contents, WellFormed;
      ReplacePin(true, PW1_DEFAULT);
      ReplacePin(false, PW3_DEFAULT);
      SetRetry(true, RETRY_MAX);
      SetRetry(false, RETRY_MAX);
    }

    /** The wipe happens in any case; the result says whether the flash kept all of it. */
    method FactoryWipe(env: Env) returns (ok: bool)
      requires Valid()
      modifies this, pw1, pw3, keys, store.slots
      ensures Valid() && View() == FactoryReset(old(View()))
      ensures env.pinSaved ==> Synced()
      ensures ok == (env.keySaved && env.pinSaved && EnsureOk(map[], DEFAULTS, env.doSaved))
    {
      hide Contents, WellFormed, Ensure, EnsureOk, WithSerial, DEFAULTS;
      selected, ok := false, true;
      WipeKeys();
      if !env.keySaved { ok := false; }
      store.Reset();
      FactoryPins();
      PersistPins(env.pinSaved);
      if !env.pinSaved { ok := false; }
      var ensured := EnsureDefaults(env.doSaved);
      if !ensured { ok := false; }
      if serial.Some? { PutSerial(serial.value, env.doSaved); }
    }

    method TerminateDf(env: Env) returns (sw: nat, ghost event: Event)
      requires Valid()
      modifies this, pw1, pw3, keys, store.slots
      ensures Valid() && Reply(View(), sw, [], event) == Terminate(old(View()))
      ensures old(Synced()) && env.pinSaved ==> Synced()
    {
      hide Contents, WellFormed, FactoryReset;
      if !(adminOk || (retry1 == 0 && retry3 == 0)) { return SW_SEC_NOT_SAT, Quiet; }
      var _ := FactoryWipe(env);
      terminated := true;
      return SW_OK, Reset;
    }

    method WriteChecked(tag: word, value: seq<byte>, env: Env) returns (sw: nat, ghost event: Event)
      requires Valid()
      modifies store.slots
      ensures Valid() && Reply(View(), sw, [], event) == StoreObject(old(View()), tag, value, env)
    {
      hide Contents, WellFormed, Put;
      event := if Put(View().dos, tag, value).stored then PutObject(tag, value) else Quiet;
      var ok := Write(tag, value, env.doSaved);
      sw := if ok then SW_OK else SW_WRONG_DATA;
    }

    /** One of three slices of a composite object; a missing or malformed composite starts as zeros. */
    method WriteSlice(tag: word, index: nat, size: nat, data: seq<byte>, env: Env) returns (sw: nat, ghost event: Event)
      requires Valid() && index < 3
      modifies store.slots
      ensures Valid() && Reply(View(), sw, [], event) == StoreSlice(old(View()), tag, index, size, data, env)
    {
      hide Contents, WellFormed, StoreObject;
      if |data| != size { return SW_WRONG_DATA, Quiet; }
      var v := store.GetObject(tag);
      var base := if v.Some? && |v.value| == 3 * size then v.value else Zeros(3 * size);
      assert index == 0 || index == 1 || index == 2;
      sw, event := WriteChecked(tag, base[..index * size] + data + base[index * size + size..], env);
    }

    method PutDataObject(a: Apdu, env: Env) returns (sw: nat, ghost event: Event)
      requires Valid()
      modifies store.slots
      ensures Valid() && Reply(View(), sw, [], event) == PutData(old(View()), a, env)
    {
      hide Contents, WellFormed, StoreObject, StoreSlice;
      if !adminOk { return SW_SEC_NOT_SAT, Quiet; }
      var tag := 256 * a.p1 as int + a.p2;
      if tag == 0xC4 {
        if |a.data| < 1 || a.data[0] > 1 { return SW_WRONG_DATA, Quiet; }
        sw, event := WriteChecked(0xC4, [a.data[0]], env);
        return;
      }
      if 0xC7 <= tag <= 0xC9 {
        sw, event := WriteSlice(0xC5, tag - 0xC7, 20, a.data, env);
        return;
      }
      if 0xCE <= tag <= 0xD0 {
        sw, event := WriteSlice(0xCD, tag - 0xCE, 4, a.data, env);
        return;
      }
      if ((tag == 0xC1 || tag == 0xC3) && a.data != P256) || (tag == 0xC2 && a.data != CV25519) {
        return SW_WRONG_DATA, Quiet;
      }
      sw, event := WriteChecked(tag, a.data, env);
    }

    // ---- Keys and signatures ----

    /** A key that the flash refuses is scrubbed; a new signature key starts a new count. */
    method KeepKey(slot: nat, key: Key, env: Env)
      requires Valid() && slot < 3
      modifies keys, store.slots
      ensures Valid() && View() == StoreKey(old(View()), slot, key, env)
    {
      hide Contents, WellFormed, Put;
      keys[slot] := key;
      if !env.keySaved {
        keys[slot] := Absent;
        assert keys[..] == old(keys[..])[slot := Absent];
        return;
      }
      assert keys[..] == old(keys[..])[slot := key];
      if slot == SIG {
        var _ := Write(0x93, Zeros(3), env.doSaved);
      }
    }

    /** Walks the (tag, length) pairs for element 92, adding up the lengths before it. */
    static method LocateScalar(template: seq<byte>, algo: byte) returns (r: Option<(nat, nat)>)
      ensures r == FindScalar(template, 0, 0, algo)
    {
      hide IterNext;
      var pos: nat, offset: nat := 0, 0;
      var h := IterNext(template, pos);
      while h.Some?
        invariant h == IterNext(template, pos)
        invariant FindScalar(template, pos, offset, algo) == FindScalar(template, 0, 0, algo)
        decreases |template| - pos
      {
        if h.value.tag == 0x92 {
          var fits := if algo == ALGO_ECDH then 1 <= h.value.len <= SCALAR_BYTES else h.value.len == SCALAR_BYTES;
          return if fits then Some((offset, h.value.len)) else None;
        }
        pos, offset := h.value.start, offset + h.value.len;
        h := IterNext(template, pos);
      }
      r := None;
    }

    static method Within(list: seq<byte>, tag: word) returns (v: Option<seq<byte>>)
      ensures v == Value(list, tag)
    {
      var at := Find(list, tag);
      v := if at.None? then None else Some(list[at.value.0..at.value.0 + at.value.1]);
    }

    static method ExtractScalar(list: seq<byte>, algo: byte) returns (d: Option<seq<byte>>)
      ensures d == ScalarIn(list, algo)
    {
      hide Value, FindScalar, AllZero;
      var template := Within(list, 0x7F48);
      if template.None? { return None; }
      var at := LocateScalar(template.value, algo);
      if at.None? { return None; }
      var material := Within(list, 0x5F48);
      if material.None? || at.value.0 + at.value.1 > |material.value| { return None; }
      var scalar := Zeros(SCALAR_BYTES - at.value.1) + material.value[at.value.0..at.value.0 + at.value.1];
      var zero := IsZero(scalar);
      d := if zero then None else Some(scalar);
    }

    static method IsZero(scalar: seq<byte>) returns (zero: bool)
      ensures zero == AllZero(scalar)
    {
      var i := 0;
      while i < |scalar|
        invariant 0 <= i <= |scalar| && forall k :: 0 <= k < i ==> scalar[k] == 0
      {
        if scalar[i] != 0 { return false; }
        i := i + 1;
      }
      zero := true;
    }

    static method SlotNamed(list: seq<byte>) returns (slot: Option<nat>)
      ensures slot == CrtSlot(list)
    {
      hide Value;
      var i := 0;
      while i < 3
        invariant 0 <= i <= 3
        invariant forall k :: 0 <= k < i ==> Value(list, CRT_TAGS[k]).None?
      {
        var v := Within(list, CRT_TAGS[i]);
        if v.Some? { return Some(i); }
        i := i + 1;
      }
      slot := None;
    }

    method AlgoOf(slot: nat) returns (algo: byte)
      requires Valid() && slot < 3
      ensures algo == SlotAlgo(View(), slot)
    {
      algo := FirstByteOf(ATTR_TAGS[slot], ALGO_ECDSA);
    }

    method Import(a: Apdu, env: Env) returns (sw: nat, ghost event: Event)
      requires Valid()
      modifies keys, store.slots
      ensures Valid() && Reply(View(), sw, [], event) == ImportKey(old(View()), a, env)
    {
      hide Contents, WellFormed, Value, CrtSlot, ScalarIn, SlotAlgo, StoreKey;
      if a.p1 != 0x3F || a.p2 != 0xFF { return SW_WRONG_P1P2, Quiet; }
      if !adminOk { return SW_SEC_NOT_SAT, Quiet; }
      var list := Within(a.data, 0x4D);
      if list.None? { return SW_WRONG_DATA, Quiet; }
      var slot := SlotNamed(list.value);
      if slot.None? { return SW_WRONG_DATA, Quiet; }
      assert slot.value < 3 by { SlotIsOne(list.value); }
      var algo := AlgoOf(slot.value);
      var d := ExtractScalar(list.value, algo);
      if d.None? { return SW_WRONG_DATA, Quiet; }
      var key := Key(algo, 2, d.value);
      KeepKey(slot.value, key, env);
      if !env.keySaved { return SW_INTERNAL, KeyLost(slot.value); }
      return SW_OK, KeyStored(slot.value, key);
    }

    static lemma SlotIsOne(list: seq<byte>)
      ensures CrtSlot(list).Some? ==> CrtSlot(list).value < 3
    {
    }

    method NeedsTouch(tag: word) returns (yes: bool)
      requires Valid()
      ensures yes == TouchRequired(View(), tag)
    {
      var b := FirstByteOf(tag, 0);
      yes := b != 0;
    }

    /** PSO: COMPUTE DIGITAL SIGNATURE. The authorisation goes before the attempt, the count moves after a success. */
    method Signature(a: Apdu, env: Env) returns (sw: nat, out: seq<byte>, ghost event: Event)
      requires Valid()
      modifies this`signOk, store.slots
      ensures Valid() && Reply(View(), sw, out, event) == ComputeSignature(old(View()), a, env)
    {
      hide Contents, WellFormed, TouchRequired, Sign;
      if a.p1 != 0x9E || a.p2 != 0x9A { return SW_WRONG_P1P2, [], Quiet; }
      if !env.cryptoOk { return SW_CRYPTO, [], Quiet; }
      if keys[SIG].Absent? { return SW_REF_NOT_FOUND, [], Quiet; }
      if !signOk { return SW_SEC_NOT_SAT, [], Quiet; }
      if |a.data| < 20 || |a.data| > 64 { return SW_WRONG_DATA, [], Quiet; }
      var touch := NeedsTouch(0xD6);
      if touch && env.confirm != 1 { return SW_COND_NOT_SAT, [], Quiet; }
      sw, out, event := SignOnce(a, env);
    }

    method CountSignature(saved: bool)
      requires Valid()
      modifies store.slots
      ensures Valid()
      ensures var dos := old(View()).dos;
              View() == old(View()).(dos := Put(dos, 0x93, CounterBytes(Counter(dos) + 1)).objects)
    {
      hide Contents, WellFormed, Put;
      var v := store.GetObject(0x93);
      var ctr := if v.Some? && |v.value| == 3 then v.value else Zeros(3);
      var cnt := 0x10000 * ctr[0] as int + 0x100 * ctr[1] as int + ctr[2] + 1;
      var _ := Write(0x93, [cnt / 0x10000 % 0x100, cnt / 0x100 % 0x100, cnt % 0x100], saved);
    }

    method SeveralAllowed() returns (multi: bool)
      requires Valid()
      ensures multi == MultiSign(View())
    {
      var validity := FirstByteOf(0xC4, 0);
      multi := validity == 1;
    }

    method SignOnce(a: Apdu, env: Env) returns (sw: nat, out: seq<byte>, ghost event: Event)
      requires Valid()
      modifies this`signOk, store.slots
      ensures Valid() && Reply(View(), sw, out, event) == Sign(old(View()), a, env)
    {
      hide Contents, WellFormed, Put, Counter, CounterBytes, MultiSign;
      var multi := SeveralAllowed();
      if !multi { signOk := false; }
      if env.sign.None? { return SW_COND_NOT_SAT, [], SignCall(multi, false, keys[SIG], a.data); }
      CountSignature(env.doSaved);
      return SW_OK, env.sign.value, SignCall(multi, true, keys[SIG], a.data);
    }

    /** PSO: DECIPHER. Mode 82 stays verified. */
    method DecipherPoint(a: Apdu, env: Env) returns (sw: nat, out: seq<byte>, ghost event: Event)
      requires Valid()
      ensures var r := Decipher(View(), a, env); r.card == View() && r.sw == sw && r.data == out
      ensures event == Decipher(View(), a, env).event
    {
      hide Contents, WellFormed, TouchRequired, Value;
      if !env.cryptoOk { return SW_CRYPTO, [], Quiet; }
      if keys[DEC].Absent? { return SW_REF_NOT_FOUND, [], Quiet; }
      if keys[DEC].algo != ALGO_ECDH { return SW_COND_NOT_SAT, [], Quiet; }
      if !userOk { return SW_SEC_NOT_SAT, [], Quiet; }
      var a6 := Within(a.data, 0xA6);
      if a6.None? { return SW_WRONG_DATA, [], Quiet; }
      var t := Within(a6.value, 0x7F49);
      if t.None? { return SW_WRONG_DATA, [], Quiet; }
      var p := Within(t.value, 0x86);
      if p.None? { return SW_WRONG_DATA, [], Quiet; }
      var point := p.value;
      if |point| == 33 && point[0] == 0x40 { point := point[1..]; }
      if |point| != 32 { return SW_WRONG_DATA, [], Quiet; }
      var touch := NeedsTouch(0xD7);
      if touch && env.confirm != 1 { return SW_COND_NOT_SAT, [], Quiet; }
      if env.ecdh.None? { return SW_COND_NOT_SAT, [], UserOperation(keys[DEC], point); }
      var n := if |env.ecdh.value| > 32 then 32 else |env.ecdh.value|;
      return SW_OK, env.ecdh.value[..n], UserOperation(keys[DEC], point);
    }

    /** INTERNAL AUTHENTICATE. Mode 82 stays verified and the signature counter does not move. */
    method InternalAuthenticate(a: Apdu, env: Env) returns (sw: nat, out: seq<byte>, ghost event: Event)
      requires Valid()
      ensures var r := Authenticate(View(), a, env); r.card == View() && r.sw == sw && r.data == out
      ensures event == Authenticate(View(), a, env).event
    {
      hide Contents, WellFormed, TouchRequired;
      if a.p1 != 0 || a.p2 != 0 { return SW_WRONG_P1P2, [], Quiet; }
      if !env.cryptoOk { return SW_CRYPTO, [], Quiet; }
      if keys[AUT].Absent? { return SW_REF_NOT_FOUND, [], Quiet; }
      if keys[AUT].algo != ALGO_ECDSA { return SW_COND_NOT_SAT, [], Quiet; }
      if !userOk { return SW_SEC_NOT_SAT, [], Quiet; }
      if a.data == [] || |a.data| > 64 { return SW_WRONG_DATA, [], Quiet; }
      var touch := NeedsTouch(0xD8);
      if touch && env.confirm != 1 { return SW_COND_NOT_SAT, [], Quiet; }
      if env.sign.None? { return SW_COND_NOT_SAT, [], UserOperation(keys[AUT], a.data); }
      var n := if |env.sign.value| > 256 then 256 else |env.sign.value|;
      return SW_OK, env.sign.value[..n], UserOperation(keys[AUT], a.data);
    }

    /** The 7F49 template around a public key, built in two buffers. */
    static method BuildPublicKey(key: Key, env: Env) returns (sw: nat, out: seq<byte>)
      requires key.Key?
      ensures (sw, out) == PublicKey(key, env)
    {
      if env.pubkey.None? { return SW_REF_NOT_FOUND, []; }
      var point := env.pubkey.value;
      if |point| != (if key.algo == ALGO_ECDH then 32 else 65) { return SW_INTERNAL, []; }
      var inner, body := new byte[70], new byte[80];
      var n := Append(inner, 70, 0, 0x86, Some(point), |point|);
      assert Padded(Some(point), |point|) == point;
      assert inner[..n] == Encode(Object(0x86, point));
      var m := Append(body, 80, 0, 0x7F49, Some(inner[..n]), n);
      assert Padded(Some(inner[..n]), n) == inner[..n];
      assert body[..m] == Encode(Object(0x7F49, inner[..n]));
      return SW_OK, body[..m];
    }

    method Generate(a: Apdu, env: Env) returns (sw: nat, out: seq<byte>, ghost event: Event)
      requires Valid()
      modifies keys, store.slots
      ensures Valid() && Reply(View(), sw, out, event) == GenerateOrRead(old(View()), a, env)
    {
      hide Contents, WellFormed, PublicKey, StoreKey, SlotAlgo;
      if a.p1 != 0x81 && a.p1 != 0x80 { return SW_INS_NOT_SUP, [], Quiet; }
      if a.data == [] { return if a.p1 == 0x81 then SW_REF_NOT_FOUND else SW_WRONG_DATA, [], Quiet; }
      var slot := SlotOfCrt(a.data[0]);
      if slot < 0 { return SW_REF_NOT_FOUND, [], Quiet; }
      if !env.cryptoOk { return SW_CRYPTO, [], Quiet; }
      if a.p1 == 0x81 {
        if keys[slot].Absent? { return SW_REF_NOT_FOUND, [], Quiet; }
        sw, out := BuildPublicKey(keys[slot], env);
        event := KeyShown(keys[slot]);
        return;
      }
      if !adminOk { return SW_SEC_NOT_SAT, [], Quiet; }
      if env.genkey.None? { return SW_COND_NOT_SAT, [], Quiet; }
      var algo := AlgoOf(slot);
      var key := Key(algo, 1, env.genkey.value);
      KeepKey(slot, key, env);
      if !env.keySaved { return SW_INTERNAL, [], KeyLost(slot); }
      sw, out := BuildPublicKey(key, env);
      event := KeyStored(slot, key);
    }

    // ---- Reading data objects ----

    method Collect(tags: seq<word>) returns (objects: seq<Object>)
      requires Valid()
      ensures objects == Stored(View().dos, tags)
    {
      hide Contents, WellFormed, Stored;
      objects := [];
      var i := 0;
      assert tags[0..] == tags;
      while i < |tags|
        invariant 0 <= i <= |tags|
        invariant objects + Stored(View().dos, tags[i..]) == Stored(View().dos, tags)
      {
        var v := store.GetObject(tags[i]);
        StoredNext(View().dos, tags, i);
        objects := objects + [Object(tags[i], if v.Some? then v.value else [])];
        i := i + 1;
      }
      StoredNothing(View().dos, tags);
    }

    method PwStatusBytes() returns (b: seq<byte>)
      requires Valid()
      ensures b == PwStatus(View())
    {
      var validity := FirstByteOf(0xC4, 0);
      b := [validity, PW_MAX_LEN, 0, PW_MAX_LEN, retry1, 0, retry3];
    }

    method KeyInfoBytes() returns (b: seq<byte>)
      requires Valid()
      ensures b == KeyInfo(View())
    {
      hide Contents, WellFormed;
      b := [];
      for i := 0 to 3
        invariant |b| == 2 * i
        invariant forall k :: 0 <= k < i ==> b[2 * k] == k + 1 && b[2 * k + 1] == Origin(keys[k])
      {
        b := b + [i + 1, if keys[i].Key? then keys[i].origin else 0];
      }
    }

    method Build(objects: seq<Object>, max: nat) returns (sw: nat, out: seq<byte>)
      ensures (sw, out) == if Template(objects, max).Some? then (SW_OK, Template(objects, max).value)
              else (SW_INTERNAL, [])
    {
      var buf := new byte[max];
      var end := AppendAll(buf, objects);
      if end.None? { return SW_INTERNAL, []; }
      return SW_OK, buf[..end.value];
    }

    method Related() returns (sw: nat, out: seq<byte>)
      requires Valid()
      ensures Reply(View(), sw, out, Quiet) == GetData(View(), Apdu(0xCA, 0, 0x6E, []))
    {
      hide Contents, WellFormed, Template, Stored, PwStatus, KeyInfo;
      var first := Collect([0xC0, 0xC1, 0xC2, 0xC3]);
      var status := PwStatusBytes();
      var second := Collect([0xC5, 0xC6, 0xCD, 0xD6, 0xD7, 0xD8]);
      var info := KeyInfoBytes();
      var inner;
      sw, inner := Build(first + [Object(0xC4, status)] + second + [Object(0xDE, info)], 256);
      if sw != SW_OK { return sw, []; }
      var outer := Collect([0x4F, 0x5F52, 0x7F74]);
      sw, out := Build(outer + [Object(0x73, inner)], 256);
    }

    method GetDataObject(a: Apdu) returns (sw: nat, out: seq<byte>)
      requires Valid()
      ensures Reply(View(), sw, out, Quiet) == GetData(View(), a)
    {
      hide Contents, WellFormed, Template, Stored, PwStatus, KeyInfo, Discretionary;
      var tag := 256 * a.p1 as int + a.p2;
      if tag == 0x6E {
        sw, out := Related();
      } else if tag == 0x65 {
        var objects := Collect([0x5B, 0x5F2D, 0x5F35]);
        sw, out := Build(objects, 64);
      } else if tag == 0x7A {
        var objects := Collect([0x93]);
        sw, out := Build(objects, 16);
      } else if tag == 0xC4 {
        out := PwStatusBytes();
        sw := SW_OK;
      } else if tag == 0xDE {
        out := KeyInfoBytes();
        sw := SW_OK;
      } else {
        var v := store.GetObject(tag);
        if v.None? { return SW_REF_NOT_FOUND, []; }
        return SW_OK, v.value;
      }
    }

    // ---- Dispatch ----

    /** One command; `None` is a frame the parser refuses. */
    method Command(command: Option<Apdu>, env: Env) returns (sw: nat, out: seq<byte>, ghost event: Event)
      requires Valid()
      modifies this, pw1, pw3, keys, store.slots
      ensures Valid() && Reply(View(), sw, out, event) == Process(old(View()), command, env)
      ensures old(Synced()) && env.pinSaved ==> Synced()
    {
      hide Contents, WellFormed, FactoryReset, SelectApplet, Terminate, Verify, ChangePin, GetData, PutData, ImportKey,
           Decipher, ComputeSignature, Authenticate, GenerateOrRead;
      out, event := [], Quiet;
      if command.None? { return 0x6700, [], Quiet; }
      var a := command.value;
      if terminated {
        if a.ins != 0x44 { return 0x6285, [], Quiet; }
        terminated := false;
        var _ := FactoryWipe(env);
        FactoryResetActivates(old(View()));
        return SW_OK, [], Reset;
      }
      if a.ins == 0xA4 {
        sw, event := SelectFile(a);
      } else if a.ins == 0xE6 {
        sw, event := TerminateDf(env);
      } else if a.ins == 0x44 {
        sw := SW_OK;
      } else if !selected {
        sw := SW_COND_NOT_SAT;
      } else {
        sw, out, event := Selected(a, env);
      }
    }

    method Selected(a: Apdu, env: Env) returns (sw: nat, out: seq<byte>, ghost event: Event)
      requires Valid() && selected && !terminated && a.ins !in {0xA4, 0xE6, 0x44}
      modifies this, pw1, pw3, keys, store.slots
      ensures Valid() && Reply(View(), sw, out, event) == Process(old(View()), Some(a), env)
      ensures old(Synced()) && env.pinSaved ==> Synced()
    {
      hide Contents, WellFormed, FactoryReset, SelectApplet, Terminate, Verify, ChangePin, GetData, PutData, ImportKey,
           Decipher, ComputeSignature, Authenticate, GenerateOrRead;
      out, event := [], Quiet;
      if a.ins == 0x20 {
        sw, event := VerifyPin(a, env.pinSaved);
      } else if a.ins == 0x24 {
        sw, event := ChangeReference(a, env.pinSaved);
      } else if a.ins == 0xCA {
        sw, out := GetDataObject(a);
      } else if a.ins == 0xDA {
        sw, event := PutDataObject(a, env);
      } else if a.ins == 0xDB {
        sw, event := Import(a, env);
      } else if a.ins == 0x2A && a.p1 == 0x80 && a.p2 == 0x86 {
        sw, out, event := DecipherPoint(a, env);
      } else if a.ins == 0x2A {
        sw, out, event := Signature(a, env);
      } else if a.ins == 0x88 {
        sw, out, event := InternalAuthenticate(a, env);
      } else if a.ins == 0x47 {
        sw, out, event := Generate(a, env);
      } else {
        sw := SW_INS_NOT_SUP;
      }
    }

    /** The entry point: command bytes in, response bytes out, cut to the output buffer. */
    method Exchange(buf: array?<byte>, len: nat, out: array<byte>, env: Env) returns (n: nat, ghost event: Event)
      requires Valid() && out != pw1 && out != pw3 && (buf != null ==> len <= buf.Length)
      modifies this, pw1, pw3, keys, store.slots, out
      ensures Valid() && n <= out.Length
      ensures var r := Process(old(View()), Parsed(if buf == null then [] else old(buf[..len])), env);
              View() == r.card && event == r.event && out[..n] == ApduParser.Response(r.data, r.sw, out.Length)
      ensures old(Synced()) && env.pinSaved ==> Synced()
    {
      hide Contents, WellFormed, Process, ApduParser.Parse, ApduParser.Response;
      var cell := new Ref(ApduParser.Parsed(0, 0, 0, 0, [], None));
      var ok := ApduParser.ParseInto(buf, len, cell);
      NothingParsed();
      var command := None;
      if ok {
        var p := cell.value;
        command := Some(Apdu(p.ins, p.p1, p.p2, p.data));
      }
      var sw, data;
      sw, data, event := Command(command, env);
      n := ApduParser.Respond(out, data, sw);
    }
  }

  /** The command the applet acts on; it ignores the class byte and the expected length. */
  function Parsed(bytes: seq<byte>): Option<Apdu> {
    match ApduParser.Parse(bytes)
    case None => None
    case Some(p) => Some(Apdu(p.ins, p.p1, p.p2, p.data))
  }

  lemma NothingParsed()
    ensures ApduParser.Parse([]) == None
  {
  }

  lemma FactoryResetActivates(c: Card)
    ensures FactoryReset(c.(terminated := false)) == FactoryReset(c).(terminated := false)
  {
  }

  // ---- Building a template in a buffer ----

  lemma StoredNext(m: Objects, tags: seq<word>, i: nat)
    requires i < |tags|
    ensures Stored(m, tags[i..]) == [Object(tags[i], Read(m, tags[i]))] + Stored(m, tags[i + 1..])
  {
    assert tags[i..][1..] == tags[i + 1..];
  }

  lemma StoredNothing(m: Objects, tags: seq<word>)
    ensures Stored(m, tags[|tags|..]) == []
  {
  }

  lemma TemplateGrows(objects: seq<Object>, i: nat, max: nat)
    requires i < |objects| && Template(objects[..i], max).Some?
    ensures var body, o := Template(objects[..i], max).value, objects[i];
            Template(objects[..i + 1], max)
            == if |o.value| > 255 || |body| + |Encode(o)| > max then None else Some(body + Encode(o))
  {
    assert objects[..i + 1][..i] == objects[..i];
  }

  lemma {:induction false} TemplateStaysFull(objects: seq<Object>, k: nat, max: nat)
    requires k <= |objects| && Template(objects[..k], max).None?
    ensures Template(objects, max).None?
  {
    if k == |objects| {
      assert objects[..k] == objects;
    } else {
      var front := objects[..|objects| - 1];
      assert front[..k] == objects[..k];
      TemplateStaysFull(front, k, max);
    }
  }

  /** Appends the objects one after the other, and gives up at the first that does not fit. */
  method AppendAll(buf: array<byte>, objects: seq<Object>) returns (end: Option<nat>)
    modifies buf
    ensures end.Some? <==> Template(objects, buf.Length).Some?
    ensures end.Some? ==> end.value <= buf.Length && buf[..end.value] == Template(objects, buf.Length).value
  {
    hide Encode, Template;
    var i, off := 0, 0;
    EmptyTemplate(objects, buf);
    while i < |objects|
      invariant 0 <= i <= |objects| && 0 <= off <= buf.Length
      invariant Template(objects[..i], buf.Length) == Some(buf[..off])
    {
      var o := objects[i];
      ghost var body := buf[..off];
      TemplateGrows(objects, i, buf.Length);
      EncodeIsLonger(o);
      assert Padded(Some(o.value), |o.value|) == o.value;
      var next := Append(buf, buf.Length, off, o.tag, Some(o.value), |o.value|);
      if next == 0 {
        TemplateStaysFull(objects, i + 1, buf.Length);
        return None;
      }
      assert buf[..next] == body + Encode(o);
      i, off := i + 1, next;
    }
    assert objects[..i] == objects;
    end := Some(off);
  }

  lemma EmptyTemplate(objects: seq<Object>, buf: array<byte>)
    ensures Template(objects[..0], buf.Length) == Some(buf[..0])
  {
  }

  lemma EncodeIsLonger(o: Object)
    ensures |o.value| <= 255 ==> |Encode(o)| >= 2
  {
  }
}
