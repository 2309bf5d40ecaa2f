/** What the applet answers to every command, told from what happened since the last reset. */
module OpenPgpAnswers {
  import opened Wrappers
  import opened Tlv
  import opened DoStore
  import opened OpenPgpCard
  import opened OpenPgpRuns
  import opened OpenPgpHistory

  /** The commands so far and what each of them did; `terminated` is how the card stood at the start. */
  datatype Past = Past(commands: seq<Command>, trace: seq<Event>, terminated: bool)
  {
    predicate Valid() { |commands| == |trace| }

    function Pin(pw1: bool): seq<byte>
      requires Valid()
    {
      PinNow(commands, trace, pw1)
    }

    /** Tries left: three, less the wrong PINs in a row. */
    function Tries(pw1: bool): int { 3 - WrongInARow(trace, pw1) }

    function KeyIn(slot: nat): Key { KeyNow(trace, slot) }

    function Stores(tag: word): Option<seq<byte>> { ObjectNow(trace, tag) }

    predicate May(mode: byte) { Authorised(trace, mode) }

    predicate Terminated()
      requires Valid()
    {
      TerminatedNow(terminated, commands, trace)
    }

    /** Selected and not terminated: the applet takes commands. */
    predicate Open()
      requires Valid()
    {
      !Terminated() && SelectedNow(trace)
    }

    /** The object asks for a touch, and none was confirmed. */
    predicate Untouched(tag: word, env: Env) {
      Stores(tag).Some? && |Stores(tag).value| >= 1 && Stores(tag).value[0] != 0 && env.confirm != 1
    }
  }

  /** The card is as its past says. */
  ghost predicate Says(c: Card, p: Past) {
    p.Valid() && Follows(c, p.terminated, p.commands, p.trace) && OpenPgpRuns.Inv(Run(c, p.trace))
  }

  function PastAt(c: Card, commands: seq<Command>, i: nat): (p: Past)
    requires i <= |commands|
    ensures p.Valid()
  {
    Past(commands[..i], Exec(FactoryReset(c), commands).trace[..i], c.terminated)
  }

  /** In every run since a reset, every command finds the card as its past says. */
  lemma EveryCommand(c: Card, commands: seq<Command>, i: nat)
    requires i < |commands|
    ensures var start := FactoryReset(c);
            && Says(Before(start, commands, i), PastAt(c, commands, i))
            && Exec(start, commands).trace[i]
               == Process(Before(start, commands, i), commands[i].apdu, commands[i].env).event
  {
    hide FactoryReset, Process, Follows, OpenPgpRuns.Inv;
    ExecKeepsInv(c, commands[..i]);
    CardFollows(c, commands[..i]);
    TraceOfPrefix(FactoryReset(c), commands, i);
  }

  // ---- PINs ----

  datatype Answered = Answered(sw: nat, event: Event)

  function Of(r: Reply): Answered { Answered(r.sw, r.event) }

  /** VERIFY compares with the PIN in force. */
  lemma VerifyAnswers(c: Card, p: Past, a: Apdu, env: Env)
    requires Says(c, p) && p.Open() && a.ins == 0x20
    ensures var pw1 := a.p2 != 0x83;
            Of(Process(c, Some(a), env)) ==
              if a.p2 < 0x81 || a.p2 > 0x83 then Answered(0x6A86, Quiet)
              else if p.Tries(pw1) == 0 then Answered(0x6983, Quiet)
              else if a.data == [] then Answered(0x63C0 + p.Tries(pw1), Quiet)
              else if a.data == p.Pin(pw1) then Answered(0x9000, PinOk(a.p2))
              else Answered(0x63C0 + p.Tries(pw1) - 1, PinWrong(pw1))
  {
    hide PinNow, WrongInARow, KeyNow, ObjectNow, Authorised, Lookup, Counter, Signatures;
  }

  /** CHANGE REFERENCE DATA takes the PIN in force with the new one behind it; only a frame that could hold both costs a
      try. */
  lemma ChangeAnswers(c: Card, p: Past, a: Apdu, env: Env)
    requires Says(c, p) && p.Open() && a.ins == 0x24
    ensures var pw1 := a.p2 == 0x81;
            var pin, more := p.Pin(pw1), |a.data| - |p.Pin(pw1)|;
            Of(Process(c, Some(a), env)) ==
              if a.p1 != 0 || (a.p2 != 0x81 && a.p2 != 0x83) then Answered(0x6A86, Quiet)
              else if p.Tries(pw1) == 0 then Answered(0x6983, Quiet)
              else if more < (if pw1 then 6 else 8) || more > 16 then Answered(0x6A80, Quiet)
              else if pin <= a.data then Answered(0x9000, PinChanged(pw1))
              else Answered(0x63C0 + p.Tries(pw1) - 1, PinWrong(pw1))
  {
    hide PinNow, WrongInARow, KeyNow, ObjectNow, Authorised, Lookup, Counter, Signatures;
  }

  /** A PIN is accepted by VERIFY only, and only the one in force. */
  lemma AcceptedByVerify(c: Card, p: Past, command: Command)
    requires Says(c, p)
    ensures match Process(c, command.apdu, command.env).event
            case PinOk(mode) =>
              && p.Open() && command.apdu.Some? && command.apdu.value.ins == 0x20 && command.apdu.value.p2 == mode
              && p.Tries(mode != 0x83) > 0 && command.apdu.value.data == p.Pin(mode != 0x83)
            case PinChanged(pw1) =>
              && p.Open() && command.apdu.Some? && command.apdu.value.ins == 0x24
              && p.Tries(pw1) > 0 && p.Pin(pw1) <= command.apdu.value.data
            case PinWrong(pw1) =>
              && p.Open() && command.apdu.Some? && command.apdu.value.ins in {0x20, 0x24}
              && p.Tries(pw1) > 0 && command.apdu.value.data != p.Pin(pw1)
            case _ => true
  {
    OtherEvents(c, command);
    if command.apdu.Some? && command.apdu.value.ins in {0x20, 0x24} && !c.terminated && c.selected {
      var a := command.apdu.value;
      TriesAtMost(c, p);
      if a.ins == 0x20 { VerifyAnswers(c, p, a, command.env); } else { ChangeAnswers(c, p, a, command.env); }
    }
    hide Process, PinNow, WrongInARow, KeyNow, ObjectNow, Authorised, Lookup, Counter, Signatures;
  }

  lemma TriesAtMost(c: Card, p: Past)
    requires Says(c, p)
    ensures p.Tries(true) == c.retry1 && p.Tries(false) == c.retry3 && p.Open() == (!c.terminated && c.selected)
    ensures 0 <= c.retry1 <= 3 && 0 <= c.retry3 <= 3
  {
    hide PinNow, WrongInARow, KeyNow, ObjectNow, Authorised, Lookup, Counter, Signatures;
  }

  predicate OfPin(e: Event) { e.PinOk? || e.PinChanged? || e.PinWrong? }

  /** No other command has to do with PINs. */
  lemma OtherEvents(c: Card, command: Command)
    ensures OfPin(Process(c, command.apdu, command.env).event) ==>
              !c.terminated && c.selected && command.apdu.Some? && command.apdu.value.ins in {0x20, 0x24}
  {
    hide FactoryReset, Verify, ChangePin, StoreKey, PublicKey, ScalarIn, CrtSlot, Value, TouchRequired, MultiSign,
         Counter, CounterBytes, Template, Discretionary, Stored, PwStatus, KeyInfo, Put;
  }

  /** Every PIN ever accepted in a run was the one in force: the factory PIN, or what the last change put in its
      place. */
  lemma OnlyThePinIsAccepted(c: Card, commands: seq<Command>, i: nat, mode: byte)
    requires i < |commands| && Exec(FactoryReset(c), commands).trace[i] == PinOk(mode)
    ensures var t := Exec(FactoryReset(c), commands).trace;
            && commands[i].apdu.Some? && commands[i].apdu.value.ins == 0x20 && commands[i].apdu.value.p2 == mode
            && commands[i].apdu.value.data == PinNow(commands[..i], t[..i], mode != 0x83)
  {
    EveryCommand(c, commands, i);
    AcceptedByVerify(Before(FactoryReset(c), commands, i), PastAt(c, commands, i), commands[i]);
    hide FactoryReset, Exec, Process, Says;
  }

  /** Conversely, on an open card with tries left, VERIFY accepts the PIN in force, and takes any other for wrong. */
  lemma ThePinIsAccepted(c: Card, commands: seq<Command>, i: nat, mode: byte)
    requires i < |commands| && commands[i].apdu.Some? && 0x81 <= mode <= 0x83
    requires commands[i].apdu.value.ins == 0x20 && commands[i].apdu.value.p2 == mode
    requires PastAt(c, commands, i).Open() && PastAt(c, commands, i).Tries(mode != 0x83) > 0
    ensures var t, data := Exec(FactoryReset(c), commands).trace, commands[i].apdu.value.data;
            data != [] ==>
              t[i] == if data == PinNow(commands[..i], t[..i], mode != 0x83) then PinOk(mode)
                      else PinWrong(mode != 0x83)
  {
    EveryCommand(c, commands, i);
    var command := commands[i];
    VerifyAnswers(Before(FactoryReset(c), commands, i), PastAt(c, commands, i), command.apdu.value, command.env);
    hide FactoryReset, Exec, Process, Says;
  }

  // ---- Operations ----

  datatype Full = Full(sw: nat, data: seq<byte>, event: Event)

  function Whole(r: Reply): Full { Full(r.sw, r.data, r.event) }

  function No(sw: nat): Full { Full(sw, [], Quiet) }

  /** PSO: COMPUTE DIGITAL SIGNATURE signs 20 to 64 bytes with the key in force. */
  lemma SignAnswers(c: Card, p: Past, a: Apdu, env: Env)
    requires Says(c, p) && p.Open() && a.ins == 0x2A && !(a.p1 == 0x80 && a.p2 == 0x86)
    ensures var multi := p.Stores(0xC4).Some? && |p.Stores(0xC4).value| >= 1 && p.Stores(0xC4).value[0] == 1;
            Whole(Process(c, Some(a), env)) ==
              if a.p1 != 0x9E || a.p2 != 0x9A then No(0x6A86)
              else if !env.cryptoOk then No(0x6581)
              else if p.KeyIn(0) == Absent then No(0x6A88)
              else if !p.May(0x81) then No(0x6982)
              else if |a.data| < 20 || |a.data| > 64 then No(0x6A80)
              else if p.Untouched(0xD6, env) then No(0x6985)
              else if env.sign == None then Full(0x6985, [], SignCall(multi, false, p.KeyIn(0), a.data))
              else Full(0x9000, env.sign.value, SignCall(multi, true, p.KeyIn(0), a.data))
  {
    ObjectsSaid(c, p, 0xC4);
    ObjectsSaid(c, p, 0xD6);
    TriesAtMost(c, p);
    KeysSaid(c, p);
    hide PinNow, WrongInARow, KeyNow, ObjectNow, Authorised, Counter, CounterBytes, Signatures, Put, Follows;
  }

  lemma ObjectsSaid(c: Card, p: Past, tag: word)
    requires Says(c, p) && Plain(tag)
    ensures Lookup(c.dos, tag) == p.Stores(tag)
  {
    hide PinNow, WrongInARow, KeyNow, ObjectNow, Authorised, Lookup, Counter, Signatures;
  }

  lemma KeysSaid(c: Card, p: Past)
    requires Says(c, p)
    ensures c.keys[0] == p.KeyIn(0) && c.keys[1] == p.KeyIn(1) && c.keys[2] == p.KeyIn(2)
    ensures c.signOk == p.May(0x81) && c.userOk == p.May(0x82) && c.adminOk == p.May(0x83)
  {
    hide PinNow, WrongInARow, KeyNow, ObjectNow, Authorised, Lookup, Counter, Signatures;
  }

  /** INTERNAL AUTHENTICATE signs 1 to 64 bytes with the authentication key, if that is for ECDSA. */
  lemma AuthenticateAnswers(c: Card, p: Past, a: Apdu, env: Env)
    requires Says(c, p) && p.Open() && a.ins == 0x88
    ensures Whole(Process(c, Some(a), env)) ==
              if a.p1 != 0 || a.p2 != 0 then No(0x6A86)
              else if !env.cryptoOk then No(0x6581)
              else if p.KeyIn(2) == Absent then No(0x6A88)
              else if p.KeyIn(2).algo != 0x13 then No(0x6985)
              else if !p.May(0x82) then No(0x6982)
              else if |a.data| < 1 || |a.data| > 64 then No(0x6A80)
              else if p.Untouched(0xD8, env) then No(0x6985)
              else if env.sign == None then Full(0x6985, [], UserOperation(p.KeyIn(2), a.data))
              else Full(0x9000, env.sign.value[..Min(|env.sign.value|, 256)], UserOperation(p.KeyIn(2), a.data))
  {
    ObjectsSaid(c, p, 0xD8);
    TriesAtMost(c, p);
    KeysSaid(c, p);
    hide PinNow, WrongInARow, KeyNow, ObjectNow, Authorised, Counter, CounterBytes, Signatures, Put, Follows;
  }

  /** The point that PSO: DECIPHER is given: the value 86 in 7F49 in A6, without a leading 40. */
  function PointIn(data: seq<byte>): Option<seq<byte>> {
    match Value(data, 0xA6)
    case None => None
    case Some(outer) =>
      match Value(outer, 0x7F49)
      case None => None
      case Some(inner) =>
        match Value(inner, 0x86)
        case None => None
        case Some(point) => if |point| == 33 && point[0] == 0x40 then Some(point[1..]) else Some(point)
  }

  /** PSO: DECIPHER agrees on a secret with the point it is given and the decryption key, if that is for ECDH. */
  lemma DecipherAnswers(c: Card, p: Past, a: Apdu, env: Env)
    requires Says(c, p) && p.Open() && a.ins == 0x2A && a.p1 == 0x80 && a.p2 == 0x86
    ensures var point := PointIn(a.data);
            Whole(Process(c, Some(a), env)) ==
              if !env.cryptoOk then No(0x6581)
              else if p.KeyIn(1) == Absent then No(0x6A88)
              else if p.KeyIn(1).algo != 0x12 then No(0x6985)
              else if !p.May(0x82) then No(0x6982)
              else if point == None || |point.value| != 32 then No(0x6A80)
              else if p.Untouched(0xD7, env) then No(0x6985)
              else if env.ecdh == None then Full(0x6985, [], UserOperation(p.KeyIn(1), point.value))
              else Full(0x9000, env.ecdh.value[..Min(|env.ecdh.value|, 32)], UserOperation(p.KeyIn(1), point.value))
  {
    ObjectsSaid(c, p, 0xD7);
    TriesAtMost(c, p);
    KeysSaid(c, p);
    hide PinNow, WrongInARow, KeyNow, ObjectNow, Authorised, Counter, CounterBytes, Signatures, Put, Follows, Value;
  }

  // ---- Keys ----

  /** The algorithm configured for a slot: the first byte of its attribute object, ECDSA without one. */
  function Algo(p: Past, slot: nat): byte
    requires slot < 3
  {
    var v := p.Stores(0xC1 + slot);
    if v.Some? && |v.value| >= 1 then v.value[0] else 0x13
  }

  lemma AlgoSaid(c: Card, p: Past, slot: nat)
    requires Says(c, p) && slot < 3
    ensures SlotAlgo(c, slot) == Algo(p, slot)
  {
    assert ATTR_TAGS[slot] == 0xC1 + slot;
    ObjectsSaid(c, p, 0xC1 + slot);
    hide Says, ObjectNow;
  }

  /** Key import stores the scalar of the list under the slot the list names; without room in flash the slot is lost. */
  lemma ImportAnswers(c: Card, p: Past, a: Apdu, env: Env)
    requires Says(c, p) && p.Open() && a.ins == 0xDB
    ensures var list := Value(a.data, 0x4D);
            var slot := if list == None then None else CrtSlot(list.value);
            var d := if slot == None then None else ScalarIn(list.value, Algo(p, slot.value));
            Whole(Process(c, Some(a), env)) ==
              if a.p1 != 0x3F || a.p2 != 0xFF then No(0x6A86)
              else if !p.May(0x83) then No(0x6982)
              else if d == None then No(0x6A80)
              else if !env.keySaved then Full(0x6F00, [], KeyLost(slot.value))
              else Full(0x9000, [], KeyStored(slot.value, Key(Algo(p, slot.value), 2, d.value)))
  {
    var list := Value(a.data, 0x4D);
    if list.Some? && CrtSlot(list.value).Some? { AlgoSaid(c, p, CrtSlot(list.value).value); }
    TriesAtMost(c, p);
    KeysSaid(c, p);
    hide PinNow, WrongInARow, KeyNow, ObjectNow, Authorised, Counter, CounterBytes, Signatures, Put, Follows, Value,
         SlotAlgo, Algo, ScalarIn, StoreKey;
  }

  /** A public key of the length its algorithm has goes out as 86 in 7F49. */
  function PublicAnswer(key: Key, env: Env): (nat, seq<byte>)
    requires key.Key?
  {
    if env.pubkey == None then (0x6A88, [])
    else if |env.pubkey.value| != (if key.algo == 0x12 then 32 else 65) then (0x6F00, [])
    else
      var n := |env.pubkey.value| as byte;
      (0x9000, [0x7F, 0x49, n + 2, 0x86, n] + env.pubkey.value)
  }

  lemma PublicSaid(key: Key, env: Env)
    requires key.Key?
    ensures PublicKey(key, env) == PublicAnswer(key, env)
  {
    if env.pubkey.Some? && |env.pubkey.value| <= 65 {
      var point := env.pubkey.value;
      var n := |point|;
      assert Encode(Object(0x86, point)) == [0x86, n] + point;
      assert Encode(Object(0x7F49, [0x86, n] + point)) == [0x7F, 0x49, n + 2] + ([0x86, n] + point);
      assert [0x7F, 0x49, n + 2] + ([0x86, n] + point) == [0x7F, 0x49, n + 2, 0x86, n] + point;
    }
  }

  /** GENERATE ASYMMETRIC KEY PAIR: 81 reads the public key of a slot, 80 makes a new one. */
  lemma GenerateAnswers(c: Card, p: Past, a: Apdu, env: Env)
    requires Says(c, p) && p.Open() && a.ins == 0x47
    ensures Whole(Process(c, Some(a), env)) ==
              if a.p1 != 0x80 && a.p1 != 0x81 then No(0x6D00)
              else if a.data == [] then No(if a.p1 == 0x81 then 0x6A88 else 0x6A80)
              else if a.data[0] !in {0xB6, 0xB8, 0xA4} then No(0x6A88)
              else if !env.cryptoOk then No(0x6581)
              else
                var slot := if a.data[0] == 0xB6 then 0 else if a.data[0] == 0xB8 then 1 else 2;
                if a.p1 == 0x81 && p.KeyIn(slot) == Absent then No(0x6A88)
                else if a.p1 == 0x81 then
                  var (sw, body) := PublicAnswer(p.KeyIn(slot), env); Full(sw, body, KeyShown(p.KeyIn(slot)))
                else if !p.May(0x83) then No(0x6982)
                else if env.genkey == None then No(0x6985)
                else if !env.keySaved then Full(0x6F00, [], KeyLost(slot))
                else
                  var key := Key(Algo(p, slot), 1, env.genkey.value);
                  var (sw, body) := PublicAnswer(key, env); Full(sw, body, KeyStored(slot, key))
  {
    TriesAtMost(c, p);
    KeysSaid(c, p);
    if a.data != [] && SlotOfCrt(a.data[0]) >= 0 {
      var slot := SlotOfCrt(a.data[0]);
      AlgoSaid(c, p, slot);
      if c.keys[slot].Key? { PublicSaid(c.keys[slot], env); }
      if env.genkey.Some? { PublicSaid(Key(SlotAlgo(c, slot), 1, env.genkey.value), env); }
    }
    hide PinNow, WrongInARow, KeyNow, ObjectNow, Authorised, Counter, CounterBytes, Signatures, Put, Follows,
         SlotAlgo, Algo, StoreKey, PublicKey, PublicAnswer;
  }

  // ---- Objects ----

  /** One third of a composite replaced; without a well-formed one before, the others are zeros. */
  ghost predicate ThirdSet(was: Option<seq<byte>>, size: nat, index: nat, data: seq<byte>, value: seq<byte>) {
    && |value| == 3 * size && |data| == size
    && forall j :: 0 <= j < 3 * size ==>
         value[j] == if index * size <= j < (index + 1) * size then data[j - index * size]
                     else if was.Some? && |was.value| == 3 * size then was.value[j] else 0
  }

  /** The object is written if it is not too long and known or the table has room; the flash has the last word. */
  ghost predicate Written(c: Card, r: Reply, tag: word, value: seq<byte>, env: Env) {
    Whole(r) == if |value| <= 255 && (tag in c.dos || |c.dos| < 24)
                then Full(if env.doSaved then 0x9000 else 0x6A80, [], PutObject(tag, value)) else No(0x6A80)
  }

  lemma StoreWrites(c: Card, tag: word, value: seq<byte>, env: Env)
    ensures Written(c, StoreObject(c, tag, value, env), tag, value, env)
  {
  }

  lemma SpliceIsThird(was: Option<seq<byte>>, base: seq<byte>, size: nat, index: nat, data: seq<byte>)
    requires index < 3 && |data| == size && |base| == 3 * size && 0 <= index * size <= index * size + size <= 3 * size
    requires base == if was.Some? && |was.value| == 3 * size then was.value else Zeros(3 * size)
    ensures ThirdSet(was, size, index, data, base[..index * size] + data + base[index * size + size..])
  {
    var low := index * size;
    assert (index + 1) * size == low + size;
  }

  lemma SliceWrites(c: Card, tag: word, index: nat, size: nat, data: seq<byte>, env: Env) returns (value: seq<byte>)
    requires index < 3 && |data| == size
    ensures ThirdSet(Lookup(c.dos, tag), size, index, data, value)
    ensures Written(c, StoreSlice(c, tag, index, size, data, env), tag, value, env)
  {
    hide StoreObject, Written, ThirdSet;
    var was := Read(c.dos, tag);
    var base := if tag in c.dos && |was| == 3 * size then was else Zeros(3 * size);
    assert index == 0 || index == 1 || index == 2;
    value := base[..index * size] + data + base[index * size + size..];
    SpliceIsThird(Lookup(c.dos, tag), base, size, index, data);
    StoreWrites(c, tag, value, env);
  }

  /** PUT DATA writes the object it names. C4 takes one bit; C7 to C9 and CE to D0 are the thirds of C5 and CD; the
      algorithms cannot be changed. */
  lemma PutAnswers(c: Card, p: Past, a: Apdu, env: Env) returns (third: seq<byte>)
    requires Says(c, p) && p.Open() && a.ins == 0xDA
    ensures var r, tag := Process(c, Some(a), env), 256 * a.p1 as int + a.p2;
            if !p.May(0x83) then Whole(r) == No(0x6982)
            else if tag == 0xC4 then
              if a.data == [] || a.data[0] > 1 then Whole(r) == No(0x6A80) else Written(c, r, 0xC4, [a.data[0]], env)
            else if 0xC7 <= tag <= 0xC9 then
              if |a.data| != 20 then Whole(r) == No(0x6A80)
              else ThirdSet(p.Stores(0xC5), 20, tag - 0xC7, a.data, third) && Written(c, r, 0xC5, third, env)
            else if 0xCE <= tag <= 0xD0 then
              if |a.data| != 4 then Whole(r) == No(0x6A80)
              else ThirdSet(p.Stores(0xCD), 4, tag - 0xCE, a.data, third) && Written(c, r, 0xCD, third, env)
            else if (tag in {0xC1, 0xC3} && a.data != P256) || (tag == 0xC2 && a.data != CV25519) then
              Whole(r) == No(0x6A80)
            else Written(c, r, tag, a.data, env)
  {
    hide PinNow, WrongInARow, KeyNow, ObjectNow, Authorised, Counter, Signatures, Follows, StoreObject, Written,
         ThirdSet, Lookup;
    var tag := 256 * a.p1 as int + a.p2;
    TriesAtMost(c, p);
    KeysSaid(c, p);
    ObjectsSaid(c, p, 0xC5);
    ObjectsSaid(c, p, 0xCD);
    third := [];
    if a.data != [] { StoreWrites(c, 0xC4, [a.data[0]], env); }
    StoreWrites(c, tag, a.data, env);
    if 0xC7 <= tag <= 0xC9 && |a.data| == 20 { third := SliceWrites(c, 0xC5, tag - 0xC7, 20, a.data, env); }
    if 0xCE <= tag <= 0xD0 && |a.data| == 4 { third := SliceWrites(c, 0xCD, tag - 0xCE, 4, a.data, env); }
    if 0xC7 <= tag <= 0xC9 && |a.data| != 20 { assert StoreSlice(c, 0xC5, tag - 0xC7, 20, a.data, env).card == c; }
    if 0xCE <= tag <= 0xD0 && |a.data| != 4 { assert StoreSlice(c, 0xCD, tag - 0xCE, 4, a.data, env).card == c; }
  }

  /** GET DATA of an object reads what was last stored under its tag, or the factory value; C4 and DE are live. */
  lemma GetAnswers(c: Card, p: Past, a: Apdu, env: Env)
    requires Says(c, p) && p.Open() && a.ins == 0xCA
    ensures var tag := 256 * a.p1 as int + a.p2;
            && (tag !in {0x6E, 0x65, 0x7A, 0xC4, 0xDE} && Plain(tag) ==>
                  Whole(Process(c, Some(a), env)) ==
                    if p.Stores(tag) == None then No(0x6A88) else Full(0x9000, p.Stores(tag).value, Quiet))
            && (!Plain(tag) ==>
                  Whole(Process(c, Some(a), env)) ==
                    if Lookup(c.dos, tag) == None then No(0x6A88) else Full(0x9000, Lookup(c.dos, tag).value, Quiet))
            && (tag == 0xC4 ==>
                  var v := p.Stores(0xC4);
                  Whole(Process(c, Some(a), env)) ==
                    Full(0x9000, [if v.Some? && |v.value| >= 1 then v.value[0] else 0, 16, 0, 16,
                                  c.retry1 % 256, 0, c.retry3 % 256], Quiet))
            && (tag == 0xDE ==>
                  Whole(Process(c, Some(a), env)) ==
                    Full(0x9000, [1, Source(p.KeyIn(0)), 2, Source(p.KeyIn(1)), 3, Source(p.KeyIn(2))], Quiet))
  {
    var tag := 256 * a.p1 as int + a.p2;
    TriesAtMost(c, p);
    KeysSaid(c, p);
    if Plain(tag) { ObjectsSaid(c, p, tag); }
    ObjectsSaid(c, p, 0xC4);
    hide PinNow, WrongInARow, KeyNow, ObjectNow, Authorised, Counter, Signatures, Follows, Template, Discretionary,
         Stored;
  }

  /** 0 for no key, 1 for one made on the card, 2 for one imported. */
  function Source(key: Key): byte { if key.Key? then key.origin else 0 }

  // ---- Life cycle ----

  /** SELECT takes the identifier of the applet, and nothing else. */
  lemma SelectAnswers(c: Card, p: Past, a: Apdu, env: Env)
    requires Says(c, p) && !p.Terminated() && a.ins == 0xA4
    ensures Whole(Process(c, Some(a), env)) ==
              if a.p1 == 0x04 && [0xD2, 0x76, 0x00, 0x01, 0x24, 0x01] <= a.data then Full(0x9000, [], Select)
              else No(0x6A88)
  {
    TerminatedSaid(c, p);
    hide Says;
    var n: seq<byte> := [0xD2, 0x76, 0x00, 0x01, 0x24, 0x01];
    assert n <= a.data <==> |a.data| >= 6 && a.data[..6] == n;
  }

  lemma TerminatedSaid(c: Card, p: Past)
    requires Says(c, p)
    ensures c.terminated == p.Terminated() && c.selected == SelectedNow(p.trace)
  {
    hide PinNow, WrongInARow, KeyNow, ObjectNow, Authorised, Lookup, Counter, Signatures;
  }

  /** TERMINATE DF needs the admin PIN, or both PINs blocked; ACTIVATE FILE undoes it and nothing else. Everything else
      is refused: on a terminated card with 6285, before SELECT with 6985, and an unknown instruction with 6D00. */
  lemma CycleAnswers(c: Card, p: Past, command: Command)
    requires Says(c, p)
    ensures var r := Process(c, command.apdu, command.env);
            if command.apdu == None then Whole(r) == No(0x6700)
            else
              var ins := command.apdu.value.ins;
              if p.Terminated() then
                Whole(r) == if ins == 0x44 then Full(0x9000, [], OpenPgpCard.Event.Reset) else No(0x6285)
              else if ins == 0xE6 then
                Whole(r) == if p.May(0x83) || (p.Tries(true) == 0 && p.Tries(false) == 0)
                            then Full(0x9000, [], OpenPgpCard.Event.Reset) else No(0x6982)
              else if ins == 0x44 then Whole(r) == No(0x9000)
              else if ins != 0xA4 && !SelectedNow(p.trace) then Whole(r) == No(0x6985)
              else ins !in {0xA4, 0x20, 0x24, 0xCA, 0xDA, 0xDB, 0x2A, 0x88, 0x47} ==> Whole(r) == No(0x6D00)
  {
    TerminatedSaid(c, p);
    TriesAtMost(c, p);
    KeysSaid(c, p);
    hide Says, FactoryReset, SelectApplet, Verify, ChangePin, GetData, PutData, ImportKey, Decipher, ComputeSignature,
         Authenticate, GenerateOrRead, WrongInARow, Authorised;
  }

  /** Only a factory reset has the event of one. */
  lemma OnlyResets(c: Card, command: Command)
    ensures var r := Process(c, command.apdu, command.env);
            r.event == OpenPgpCard.Event.Reset ==>
              command.apdu.Some? && r.card == FactoryReset(c).(terminated := command.apdu.value.ins == 0xE6)
  {
    hide FactoryReset, StoreKey, PublicKey, ScalarIn, CrtSlot, Value, TouchRequired, MultiSign, Counter,
         CounterBytes, Template, Discretionary, Stored, PwStatus, KeyInfo, Put;
  }

  /** A reset leaves no key, no verified PIN, three tries each, and the factory PINs and objects. */
  lemma AfterReset(c: Card, command: Command)
    ensures var r := Process(c, command.apdu, command.env);
            r.event == OpenPgpCard.Event.Reset ==>
              && r.card.keys == [Absent, Absent, Absent] && !r.card.signOk && !r.card.userOk && !r.card.adminOk
              && r.card.retry1 == 3 && r.card.retry3 == 3 && !r.card.selected
              && r.card.pw1 == FactoryPin(true) && r.card.pw3 == FactoryPin(false)
              && forall tag :: Plain(tag) ==> Lookup(r.card.dos, tag) == Factory(tag)
  {
    hide Process, Ensure, Factory, Lookup, WithSerial;
    OnlyResets(c, command);
    forall tag | Plain(tag)
      ensures Lookup(FactoryReset(c).dos, tag) == Factory(tag)
    {
      FactoryObjects(c, tag);
    }
  }
}
