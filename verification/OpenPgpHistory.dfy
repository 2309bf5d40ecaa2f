/** The applet told from its history: every PIN, key, object and answer follows from the commands since the last reset
    and what each of them did. */
module OpenPgpHistory {
  import opened Wrappers
  import opened Tlv
  import opened DoStore
  import opened OpenPgpCard
  import opened OpenPgpRuns

  // ---- What is in force ----

  /** "123456" and "12345678". */
  function FactoryPin(pw1: bool): seq<byte> {
    if pw1 then [0x31, 0x32, 0x33, 0x34, 0x35, 0x36] else [0x31, 0x32, 0x33, 0x34, 0x35, 0x36, 0x37, 0x38]
  }

  /** The factory PIN after a reset; after a change, what that command carried behind the PIN before. */
  function PinAfter(was: seq<byte>, command: Command, e: Event, pw1: bool): seq<byte> {
    match e
    case Reset => FactoryPin(pw1)
    case PinChanged(which) =>
      if which == pw1 && command.apdu.Some? && |was| <= |command.apdu.value.data|
      then command.apdu.value.data[|was|..] else was
    case _ => was
  }

  function PinNow(commands: seq<Command>, trace: seq<Event>, pw1: bool): seq<byte>
    requires |commands| == |trace|
    decreases |trace|
  {
    if trace == [] then FactoryPin(pw1)
    else
      var n := |trace| - 1;
      PinAfter(PinNow(commands[..n], trace[..n], pw1), commands[n], trace[n], pw1)
  }

  function KeyAfter(was: Key, e: Event, slot: nat): Key {
    match e
    case Reset => Absent
    case KeyStored(s, key) => if s == slot then key else was
    case KeyLost(s) => if s == slot then Absent else was
    case _ => was
  }

  function KeyNow(trace: seq<Event>, slot: nat): Key {
    if trace == [] then Absent else KeyAfter(KeyNow(trace[..|trace| - 1], slot), trace[|trace| - 1], slot)
  }

  predicate SelectedAfter(was: bool, e: Event) { if e == Select then true else if e == Reset then false else was }

  predicate SelectedNow(trace: seq<Event>) {
    trace != [] && SelectedAfter(SelectedNow(trace[..|trace| - 1]), trace[|trace| - 1])
  }

  /** A reset comes from TERMINATE DF, or from ACTIVATE FILE on a terminated card. */
  predicate TerminatedAfter(was: bool, command: Command, e: Event) {
    if e == Reset then command.apdu.Some? && command.apdu.value.ins == 0xE6 else was
  }

  predicate TerminatedNow(start: bool, commands: seq<Command>, trace: seq<Event>)
    requires |commands| == |trace|
    decreases |trace|
  {
    if trace == [] then start
    else
      var n := |trace| - 1;
      TerminatedAfter(TerminatedNow(start, commands[..n], trace[..n]), commands[n], trace[n])
  }

  function Factory(tag: word): Option<seq<byte>> { FirstValue(DEFAULTS, tag) }

  function ObjectAfter(was: Option<seq<byte>>, e: Event, tag: word): Option<seq<byte>> {
    match e
    case Reset => Factory(tag)
    case PutObject(t, value) => if t == tag then Some(value) else was
    case _ => was
  }

  function ObjectNow(trace: seq<Event>, tag: word): Option<seq<byte>> {
    if trace == [] then Factory(tag)
    else ObjectAfter(ObjectNow(trace[..|trace| - 1], tag), trace[|trace| - 1], tag)
  }

  function Lookup(m: Objects, tag: word): Option<seq<byte>> { if tag in m then Some(m[tag]) else None }

  /** The identifier carries the serial number, and the counter is written by the applet itself. */
  predicate Plain(tag: word) { tag != 0x4F && tag != 0x93 }

  // ---- One command ----

  /** What a command does to the card is what its event says. */
  ghost predicate Moves(c: Card, command: Command, r: Reply) {
    && r.card.pw1 == PinAfter(c.pw1, command, r.event, true)
    && r.card.pw3 == PinAfter(c.pw3, command, r.event, false)
    && (forall slot :: 0 <= slot < 3 ==> r.card.keys[slot] == KeyAfter(c.keys[slot], r.event, slot))
    && r.card.selected == SelectedAfter(c.selected, r.event)
    && r.card.terminated == TerminatedAfter(c.terminated, command, r.event)
    && (forall tag :: Plain(tag) ==> Lookup(r.card.dos, tag) == ObjectAfter(Lookup(c.dos, tag), r.event, tag))
  }

  lemma DefaultsFit()
    ensures |DEFAULTS| == 19 && forall o :: o in DEFAULTS ==> |o.value| <= MAX_LEN
  {
  }

  lemma FactoryObjects(c: Card, tag: word)
    requires Plain(tag)
    ensures Lookup(FactoryReset(c).dos, tag) == Factory(tag)
  {
    hide Ensure;
    var dos := Ensure(map[], DEFAULTS);
    DefaultsFit();
    EnsureIsDefaults(map[], DEFAULTS, tag);
    if c.serial.Some? { assert Lookup(WithSerial(dos, c.serial.value), tag) == Lookup(dos, tag); }
  }

  lemma AidParts()
    ensures FirstValue(DEFAULTS, 0x4F) == Some(FACTORY_AID) && |FACTORY_AID| == 16
    ensures FACTORY_AID[..10] == [0xD2, 0x76, 0, 1, 0x24, 1, 3, 4, 0xFF, 0]
    ensures FACTORY_AID[10..] == [0, 0, 0, 0, 0, 0] && FACTORY_AID[14..] == [0, 0]
  {
  }

  /** After a reset the application identifier carries the serial number, if the device has one. */
  lemma SerialIsInAid(c: Card)
    requires c.serial.Some? ==> |c.serial.value| == 4
    ensures var serial := if c.serial.Some? then c.serial.value else [0, 0, 0, 0];
            Lookup(FactoryReset(c).dos, 0x4F)
            == Some([0xD2, 0x76, 0, 1, 0x24, 1, 3, 4, 0xFF, 0] + serial + [0, 0])
  {
    hide Ensure, FirstValue;
    var aid, dos := FACTORY_AID, Ensure(map[], DEFAULTS);
    DefaultsFit();
    EnsureIsDefaults(map[], DEFAULTS, 0x4F);
    AidParts();
    assert 0x4F in dos && dos[0x4F] == aid;
    assert aid == aid[..10] + [0, 0, 0, 0] + [0, 0] by {
      assert aid == aid[..10] + aid[10..];
      assert aid[..10] + [0, 0, 0, 0] + [0, 0] == aid[..10] + [0, 0, 0, 0, 0, 0];
    }
    hide FACTORY_AID;
    if c.serial.Some? { assert aid[..10] + c.serial.value + aid[14..] == WithSerial(dos, c.serial.value)[0x4F]; }
  }

  /** With room for all, an absent object takes the first default under its tag. */
  lemma {:induction false} EnsureIsDefaults(m: Objects, defaults: seq<Object>, tag: word)
    requires |m| + |defaults| <= MAX_ENTRIES && forall o :: o in defaults ==> |o.value| <= MAX_LEN
    ensures Lookup(Ensure(m, defaults), tag) == if tag in m then Some(m[tag]) else FirstValue(defaults, tag)
    decreases |defaults|
  {
    if defaults != [] {
      var o, rest := defaults[0], defaults[1..];
      assert o in defaults && forall p :: p in rest ==> p in defaults;
      EnsureIsDefaults(if o.tag in m then m else Put(m, o.tag, o.value).objects, rest, tag);
    }
  }

  predicate Neutral(e: Event) {
    !e.Reset? && !e.PinChanged? && !e.KeyStored? && !e.KeyLost? && !e.Select? && !e.PutObject?
  }

  /** A command that leaves PINs, keys, objects and life cycle alone. */
  lemma NeutralMoves(c: Card, command: Command, r: Reply)
    requires Neutral(r.event) && r.card.pw1 == c.pw1 && r.card.pw3 == c.pw3 && r.card.keys == c.keys
    requires r.card.selected == c.selected && r.card.terminated == c.terminated
    requires forall tag :: Plain(tag) ==> Lookup(r.card.dos, tag) == Lookup(c.dos, tag)
    ensures Moves(c, command, r)
  {
  }

  /** At most the retry counters and the verified flags differ. */
  predicate PinStateOnly(c: Card, d: Card) {
    d == c.(retry1 := d.retry1, retry3 := d.retry3, signOk := d.signOk, userOk := d.userOk, adminOk := d.adminOk)
  }

  lemma SameMoves(c: Card, command: Command, r: Reply)
    requires Neutral(r.event) && PinStateOnly(c, r.card)
    ensures Moves(c, command, r)
  {
    hide Lookup, Plain;
    NeutralMoves(c, command, r);
  }

  lemma ResetMoves(c: Card, command: Command, terminated: bool)
    requires command.apdu.Some? && terminated == (command.apdu.value.ins == 0xE6)
    ensures Moves(c, command, Reply(FactoryReset(c).(terminated := terminated), SW_OK, [], Reset))
  {
    hide Ensure, Factory;
    forall tag | Plain(tag)
      ensures Lookup(FactoryReset(c).dos, tag) == Factory(tag)
    {
      FactoryObjects(c, tag);
    }
  }

  lemma SelectMoves(c: Card, command: Command, a: Apdu)
    ensures Moves(c, command, SelectApplet(c, a))
  {
  }

  lemma WrongMoves(c: Card, command: Command, pw1: bool)
    ensures Moves(c, command, WrongPin(c, pw1))
  {
    hide Moves;
    SameMoves(c, command, WrongPin(c, pw1));
  }

  lemma AcceptKeeps(c: Card, mode: byte)
    ensures PinStateOnly(c, Accept(c, mode).card) && Accept(c, mode).event == PinOk(mode)
  {
  }

  lemma AcceptMoves(c: Card, command: Command, mode: byte)
    ensures Moves(c, command, Accept(c, mode))
  {
    hide Moves;
    AcceptKeeps(c, mode);
    hide Accept, PinStateOnly;
    SameMoves(c, command, Accept(c, mode));
  }

  lemma VerifyMoves(c: Card, command: Command, a: Apdu)
    ensures Moves(c, command, Verify(c, a))
  {
    hide Moves, WrongPin, Accept;
    WrongMoves(c, command, a.p2 != 0x83);
    AcceptMoves(c, command, a.p2);
    var r := Verify(c, a);
    if r.card == c && r.event == Quiet { SameMoves(c, command, r); }
  }

  lemma ChangeMoves(c: Card, command: Command, a: Apdu)
    requires command.apdu == Some(a)
    ensures Moves(c, command, ChangePin(c, a))
  {
    hide Moves, WrongPin;
    WrongMoves(c, command, a.p2 == 0x81);
    var r := ChangePin(c, a);
    if r.event.PinChanged? { ChangedMoves(c, command, a); }
    if r.card == c && r.event == Quiet { SameMoves(c, command, r); }
  }

  lemma ChangedMoves(c: Card, command: Command, a: Apdu)
    requires command.apdu == Some(a) && ChangePin(c, a).event.PinChanged?
    ensures Moves(c, command, ChangePin(c, a))
  {
    hide FactoryPin, Lookup, Plain;
  }

  lemma StoreMoves(c: Card, command: Command, tag: word, value: seq<byte>, env: Env)
    ensures Moves(c, command, StoreObject(c, tag, value, env))
  {
  }

  lemma SliceMoves(c: Card, command: Command, tag: word, index: nat, size: nat, data: seq<byte>, env: Env)
    requires index < 3
    ensures Moves(c, command, StoreSlice(c, tag, index, size, data, env))
  {
    hide Moves, StoreObject;
    if |data| == size {
      var was := Read(c.dos, tag);
      var base := if tag in c.dos && |was| == 3 * size then was else Zeros(3 * size);
      assert index == 0 || index == 1 || index == 2;
      StoreMoves(c, command, tag, base[..index * size] + data + base[index * size + size..], env);
    } else {
      SameMoves(c, command, Refuse(c, SW_WRONG_DATA));
    }
  }

  lemma PutMoves(c: Card, command: Command, a: Apdu, env: Env)
    ensures Moves(c, command, PutData(c, a, env))
  {
    hide Moves, StoreObject, StoreSlice;
    var tag := 256 * a.p1 as int + a.p2;
    if tag == 0xC4 {
      if |a.data| >= 1 { StoreMoves(c, command, 0xC4, [a.data[0]], env); }
    } else if 0xC7 <= tag <= 0xC9 {
      SliceMoves(c, command, 0xC5, tag - 0xC7, 20, a.data, env);
    } else if 0xCE <= tag <= 0xD0 {
      SliceMoves(c, command, 0xCD, tag - 0xCE, 4, a.data, env);
    } else {
      StoreMoves(c, command, tag, a.data, env);
    }
    if PutData(c, a, env).card == c && PutData(c, a, env).event == Quiet {
      SameMoves(c, command, PutData(c, a, env));
    }
  }

  lemma StoreKeyMoves(c: Card, command: Command, slot: nat, key: Key, env: Env, sw: nat, data: seq<byte>)
    requires slot < 3
    ensures Moves(c, command, Reply(StoreKey(c, slot, key, env), sw, data,
                                    if env.keySaved then KeyStored(slot, key) else KeyLost(slot)))
  {
    hide Zeros;
  }

  lemma ImportMoves(c: Card, command: Command, a: Apdu, env: Env)
    ensures Moves(c, command, ImportKey(c, a, env))
  {
    hide Moves, StoreKey, Value, ScalarIn;
    var r := ImportKey(c, a, env);
    if r.event == Quiet {
      SameMoves(c, command, r);
    } else {
      var list := Value(a.data, 0x4D).value;
      var slot := CrtSlot(list).value;
      StoreKeyMoves(c, command, slot, Key(SlotAlgo(c, slot), 2, ScalarIn(list, SlotAlgo(c, slot)).value), env,
                    r.sw, r.data);
    }
  }

  lemma GenerateMoves(c: Card, command: Command, a: Apdu, env: Env)
    ensures Moves(c, command, GenerateOrRead(c, a, env))
  {
    hide Moves, StoreKey, PublicKey;
    var r := GenerateOrRead(c, a, env);
    if r.event == Quiet || r.event.KeyShown? {
      SameMoves(c, command, r);
    } else {
      var slot := SlotOfCrt(a.data[0]);
      StoreKeyMoves(c, command, slot, Key(SlotAlgo(c, slot), 1, env.genkey.value), env, r.sw, r.data);
    }
  }

  lemma SignMoves(c: Card, command: Command, a: Apdu, env: Env)
    ensures Moves(c, command, ComputeSignature(c, a, env))
  {
    hide Moves, TouchRequired, Sign;
    var r := ComputeSignature(c, a, env);
    AttemptMoves(c, command, a, env);
    if r.card == c && r.event == Quiet { SameMoves(c, command, r); }
  }

  lemma AttemptMoves(c: Card, command: Command, a: Apdu, env: Env)
    ensures Moves(c, command, Sign(c, a, env))
  {
    hide Moves, Lookup, Plain, Counter, CounterBytes, MultiSign, Put;
    var r, dos := Sign(c, a, env), Put(c.dos, 0x93, CounterBytes(Counter(c.dos) + 1)).objects;
    if env.sign.None? {
      SameMoves(c, command, r);
    } else {
      CounterOnly(c.dos, CounterBytes(Counter(c.dos) + 1));
      assert r.card == c.(signOk := r.card.signOk, dos := dos);
      hide Sign;
      NeutralMoves(c, command, r);
    }
  }

  lemma CounterOnly(m: Objects, value: seq<byte>)
    ensures forall tag :: Plain(tag) ==> Lookup(Put(m, 0x93, value).objects, tag) == Lookup(m, tag)
  {
  }

  lemma ReadMoves(c: Card, command: Command, a: Apdu, env: Env)
    ensures Moves(c, command, GetData(c, a)) && Moves(c, command, Decipher(c, a, env))
            && Moves(c, command, Authenticate(c, a, env))
  {
    hide Moves, TouchRequired, Value, Template, Discretionary, Stored, PwStatus, KeyInfo;
    SameMoves(c, command, GetData(c, a));
    SameMoves(c, command, Decipher(c, a, env));
    SameMoves(c, command, Authenticate(c, a, env));
  }

  lemma ProcessMoves(c: Card, command: Command)
    ensures Moves(c, command, Process(c, command.apdu, command.env))
  {
    hide Moves, SelectApplet, Verify, ChangePin, PutData, ImportKey, GenerateOrRead, ComputeSignature, GetData,
         Decipher, Authenticate, FactoryReset;
    var r, env := Process(c, command.apdu, command.env), command.env;
    if r.card == c && r.event == Quiet {
      SameMoves(c, command, r);
    } else {
      var a := command.apdu.value;
      if c.terminated { ResetMoves(c, command, false); }
      else if a.ins == 0xA4 { SelectMoves(c, command, a); }
      else if a.ins == 0xE6 { ResetMoves(c, command, true); }
      else if a.ins == 0x20 { VerifyMoves(c, command, a); }
      else if a.ins == 0x24 { ChangeMoves(c, command, a); }
      else if a.ins == 0xDA { PutMoves(c, command, a, env); }
      else if a.ins == 0xDB { ImportMoves(c, command, a, env); }
      else if a.ins == 0x2A {
        SignMoves(c, command, a, env);
        ReadMoves(c, command, a, env);
      } else if a.ins == 0x47 { GenerateMoves(c, command, a, env); }
      else { ReadMoves(c, command, a, env); }
    }
  }

  // ---- Every run ----

  /** The card is what its history says. */
  ghost predicate Follows(c: Card, start: bool, commands: seq<Command>, trace: seq<Event>)
    requires |commands| == |trace|
  {
    && c.pw1 == PinNow(commands, trace, true) && c.pw3 == PinNow(commands, trace, false)
    && (forall slot :: 0 <= slot < 3 ==> c.keys[slot] == KeyNow(trace, slot))
    && c.selected == SelectedNow(trace) && c.terminated == TerminatedNow(start, commands, trace)
    && (forall tag :: Plain(tag) ==> Lookup(c.dos, tag) == ObjectNow(trace, tag))
  }

  lemma FollowsOn(c: Card, start: bool, commands: seq<Command>, trace: seq<Event>, command: Command, r: Reply)
    requires |commands| == |trace| && Follows(c, start, commands, trace) && Moves(c, command, r)
    ensures Follows(r.card, start, commands + [command], trace + [r.event])
  {
    var cs, es, n := commands + [command], trace + [r.event], |trace|;
    assert cs[..n] == commands && es[..n] == trace && cs[n] == command && es[n] == r.event;
    hide PinAfter, KeyAfter, SelectedAfter, TerminatedAfter, ObjectAfter, Lookup, Plain;
  }

  lemma FreshFollows(c: Card)
    ensures Follows(FactoryReset(c), c.terminated, [], [])
  {
    hide Ensure, Factory;
    forall tag | Plain(tag)
      ensures Lookup(FactoryReset(c).dos, tag) == Factory(tag)
    {
      FactoryObjects(c, tag);
    }
  }

  lemma {:induction false} CardFollows(c: Card, commands: seq<Command>)
    ensures var r := Exec(FactoryReset(c), commands); Follows(r.card, c.terminated, commands, r.trace)
    decreases |commands|
  {
    hide Process, Follows, Moves, FactoryReset;
    var start := FactoryReset(c);
    if commands == [] {
      FreshFollows(c);
    } else {
      var n := |commands| - 1;
      var front := Exec(start, commands[..n]);
      CardFollows(c, commands[..n]);
      ProcessMoves(front.card, commands[n]);
      FollowsOn(front.card, c.terminated, commands[..n], front.trace, commands[n],
                Process(front.card, commands[n].apdu, commands[n].env));
      assert commands == commands[..n] + [commands[n]];
    }
  }
}
