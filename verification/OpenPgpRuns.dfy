/** Security properties of every run of the OpenPGP applet since a factory reset. */
module OpenPgpRuns {
  import opened Wrappers
  import opened Tlv
  import opened DoStore
  import opened OpenPgpCard

  datatype Command = Command(apdu: Option<Apdu>, env: Env)

  datatype Run = Run(card: Card, trace: seq<Event>)

  function Exec(c: Card, commands: seq<Command>): (r: Run)
    ensures |r.trace| == |commands|
    decreases |commands|
  {
    if commands == [] then Run(c, [])
    else
      var last := commands[|commands| - 1];
      var front := Exec(c, commands[..|commands| - 1]);
      var reply := Process(front.card, last.apdu, last.env);
      Run(reply.card, front.trace + [reply.event])
  }

  // ---- What the history says ----

  predicate PinEvent(e: Event, mode: byte) { e == PinOk(mode) }

  /** Events that end the authorisation a successful VERIFY gave. */
  predicate Ends(e: Event, mode: byte) {
    match e
    case Select => true
    case Reset => true
    case PinChanged(pw1) => pw1 == (mode != 0x83)
    case SignCall(multi, _, _, _) => mode == 0x81 && !multi
    case _ => false
  }

  predicate Writes(e: Event, tag: word) { e.PutObject? && e.tag == tag }

  function Update(was: bool, e: Event, mode: byte): bool {
    if PinEvent(e, mode) then true else if Ends(e, mode) then false else was
  }

  function Authorised(trace: seq<Event>, mode: byte): bool {
    if trace == [] then false else Update(Authorised(trace[..|trace| - 1], mode), trace[|trace| - 1], mode)
  }

  /** Wrong PINs since the last right one, change or reset. */
  function WrongInARow(trace: seq<Event>, pw1: bool): nat {
    if trace == [] then 0
    else UpdateWrong(WrongInARow(trace[..|trace| - 1], pw1), trace[|trace| - 1], pw1)
  }

  function UpdateWrong(was: nat, e: Event, pw1: bool): nat {
    match e
    case Reset => 0
    case PinOk(mode) => if pw1 == (mode != 0x83) then 0 else was
    case PinChanged(changed) => if changed == pw1 then 0 else was
    case PinWrong(wrong) => if wrong == pw1 then was + 1 else was
    case _ => was
  }

  /** Successful signatures since the signature key was last set or the card reset. */
  function Signatures(trace: seq<Event>): nat {
    if trace == [] then 0 else UpdateCount(Signatures(trace[..|trace| - 1]), trace[|trace| - 1])
  }

  function UpdateCount(was: nat, e: Event): nat {
    match e
    case Reset => 0
    case KeyStored(slot, _) => if slot == SIG then 0 else was
    case SignCall(_, ok, _, _) => if ok then was + 1 else was
    case _ => was
  }

  // ---- One command ----

  const COUNTER_RANGE := 0x1000000

  ghost predicate HasCounter(m: Objects) { 0x93 in m && |m[0x93]| == 3 }

  ghost predicate Sane(c: Card) { c.retry1 <= RETRY_MAX && c.retry3 <= RETRY_MAX }

  /** The verified flags follow the history, and every protected operation needs its flag. */
  ghost predicate FlagsTrack(c: Card, r: Reply)
    requires Sane(c)
  {
    && r.card.signOk == Update(c.signOk, r.event, 0x81)
    && r.card.userOk == Update(c.userOk, r.event, 0x82)
    && r.card.adminOk == Update(c.adminOk, r.event, 0x83)
    && (r.event.SignCall? ==> c.signOk && c.keys[SIG].Key? && r.event.multi == MultiSign(c))
    && (r.event.UserOperation? ==> c.userOk)
    && (r.event.PutObject? || r.event.KeyStored? || r.event.KeyLost? ==> c.adminOk)
  }

  /** The retry counters count down wrong PINs; a blocked PIN is never accepted. */
  ghost predicate RetriesTrack(c: Card, r: Reply)
    requires Sane(c)
  {
    && Sane(r.card)
    && RETRY_MAX - r.card.retry1 == UpdateWrong(RETRY_MAX - c.retry1, r.event, true)
    && RETRY_MAX - r.card.retry3 == UpdateWrong(RETRY_MAX - c.retry3, r.event, false)
    && (Tried(r.event, true) ==> c.retry1 > 0)
    && (Tried(r.event, false) ==> c.retry3 > 0)
  }

  /** The PIN was compared. */
  predicate Tried(e: Event, pw1: bool) {
    match e
    case PinOk(mode) => pw1 == (mode != 0x83)
    case PinChanged(which) => pw1 == which
    case PinWrong(which) => pw1 == which
    case _ => false
  }

  /** The counter object follows the signatures, unless PUT DATA writes it. */
  ghost predicate CounterTracks(c: Card, r: Reply) {
    HasCounter(c.dos) && !Writes(r.event, 0x93) ==>
      HasCounter(r.card.dos) && Counter(r.card.dos) == UpdateCount(Counter(c.dos), r.event) % COUNTER_RANGE
  }

  ghost predicate Effect(c: Card, r: Reply)
    requires Sane(c)
  {
    FlagsTrack(c, r) && RetriesTrack(c, r) && CounterTracks(c, r)
  }

  lemma CounterBounded(m: Objects)
    ensures Counter(m) < COUNTER_RANGE
  {
  }

  lemma ThreeBytes(n: nat)
    ensures 0x10000 * (n / 0x10000 % 0x100) + 0x100 * (n / 0x100 % 0x100) + n % 0x100 == n % COUNTER_RANGE
  {
    var a := n / 0x100;
    var b := a / 0x100;
    var top := b / 0x100;
    assert n / 0x10000 == b;
    assert n == COUNTER_RANGE * top + (0x10000 * (b % 0x100) + 0x100 * (a % 0x100) + n % 0x100);
  }

  lemma CounterBytesRead(n: nat)
    ensures Counter(map[0x93 := CounterBytes(n)]) == n % COUNTER_RANGE
  {
    ThreeBytes(n);
    assert CounterBytes(n)[0] == n / 0x10000 % 0x100;
  }

  lemma QuietEffect(c: Card, r: Reply)
    requires Sane(c) && r.card == c && (r.event == Quiet || r.event.KeyShown? || (r.event.UserOperation? && c.userOk))
    ensures Effect(c, r)
  {
    CounterBounded(c.dos);
  }

  lemma SelectEffect(c: Card, a: Apdu)
    requires Sane(c)
    ensures Effect(c, SelectApplet(c, a))
  {
    CounterBounded(c.dos);
  }

  lemma ResetEffect(c: Card, terminated: bool)
    requires Sane(c)
    ensures Effect(c, Reply(FactoryReset(c).(terminated := terminated), SW_OK, [], Reset))
  {
    FactoryCounter(c);
    hide Ensure;
  }

  lemma SameObjects(c: Card, r: Reply)
    requires r.card.dos == c.dos && UpdateCount(0, r.event) == 0 && UpdateCount(1, r.event) == 1
    ensures CounterTracks(c, r)
  {
    CounterBounded(c.dos);
  }

  lemma WrongPinEffect(c: Card, pw1: bool)
    requires Sane(c)
    ensures Effect(c, WrongPin(c, pw1))
  {
    SameObjects(c, WrongPin(c, pw1));
    hide CounterTracks;
  }

  // A command whose card differs from `c` in PIN state only.
  lemma PinStateEffect(c: Card, r: Reply)
    requires Sane(c) && Sane(r.card) && r.card.dos == c.dos
    requires r.event.PinOk? || r.event.PinChanged?
    requires FlagsTrack(c, r)
    requires Tried(r.event, true) ==> c.retry1 > 0 && r.card.retry1 == RETRY_MAX && r.card.retry3 == c.retry3
    requires Tried(r.event, false) ==> c.retry3 > 0 && r.card.retry3 == RETRY_MAX && r.card.retry1 == c.retry1
    ensures Effect(c, r)
  {
    SameObjects(c, r);
    hide CounterTracks;
    hide FlagsTrack;
  }

  lemma AcceptEffect(c: Card, mode: byte)
    requires Sane(c) && 0x81 <= mode <= 0x83 && (if mode == 0x83 then c.retry3 else c.retry1) > 0
    ensures Effect(c, Accept(c, mode))
  {
    hide Effect;
    PinStateEffect(c, Accept(c, mode));
  }

  lemma VerifyEffect(c: Card, a: Apdu)
    requires Sane(c)
    ensures Effect(c, Verify(c, a))
  {
    hide Effect;
    var r := Verify(c, a);
    if r.event == Quiet { QuietEffect(c, r); }
    else if r.event.PinWrong? { WrongPinEffect(c, r.event.pw1); }
    else { AcceptEffect(c, a.p2); }
  }

  lemma ChangeEffect(c: Card, a: Apdu)
    requires Sane(c)
    ensures Effect(c, ChangePin(c, a))
  {
    hide Effect;
    var r, pw1 := ChangePin(c, a), a.p2 == 0x81;
    assert (if pw1 then c.retry1 else c.retry3) > 0 ==> WrongPin(c, pw1).event == PinWrong(pw1);
    hide WrongPin;
    if r.event == Quiet { QuietEffect(c, r); }
    else if r.event.PinWrong? { WrongPinEffect(c, r.event.pw1); }
    else { PinStateEffect(c, r); }
  }

  lemma StoreEffect(c: Card, tag: word, value: seq<byte>, env: Env)
    requires Sane(c) && c.adminOk
    ensures Effect(c, StoreObject(c, tag, value, env))
  {
    CounterBounded(c.dos);
  }

  lemma PutEffect(c: Card, a: Apdu, env: Env)
    requires Sane(c)
    ensures Effect(c, PutData(c, a, env))
  {
    hide Effect, StoreObject, StoreSlice;
    var r, tag := PutData(c, a, env), 256 * a.p1 as int + a.p2;
    if !c.adminOk {
      QuietEffect(c, r);
    } else if tag == 0xC4 {
      if |a.data| < 1 || a.data[0] > 1 { QuietEffect(c, r); } else { StoreEffect(c, 0xC4, [a.data[0]], env); }
    } else if 0xC7 <= tag <= 0xC9 {
      SliceEffect(c, 0xC5, tag - 0xC7, 20, a.data, env);
    } else if 0xCE <= tag <= 0xD0 {
      SliceEffect(c, 0xCD, tag - 0xCE, 4, a.data, env);
    } else if ((tag == 0xC1 || tag == 0xC3) && a.data != P256) || (tag == 0xC2 && a.data != CV25519) {
      QuietEffect(c, r);
    } else {
      StoreEffect(c, tag, a.data, env);
    }
  }

  lemma SliceEffect(c: Card, tag: word, index: nat, size: nat, data: seq<byte>, env: Env)
    requires Sane(c) && c.adminOk && index < 3
    ensures Effect(c, StoreSlice(c, tag, index, size, data, env))
  {
    var r := StoreSlice(c, tag, index, size, data, env);
    if |data| != size {
      QuietEffect(c, r);
    } else {
      var was := Read(c.dos, tag);
      var base := if tag in c.dos && |was| == 3 * size then was else Zeros(3 * size);
      assert index == 0 || index == 1 || index == 2;
      StoreEffect(c, tag, base[..index * size] + data + base[index * size + size..], env);
    }
  }

  lemma StoreKeyEffect(c: Card, slot: nat, key: Key, env: Env, sw: nat, data: seq<byte>)
    requires Sane(c) && c.adminOk && slot < 3
    ensures Effect(c, Reply(StoreKey(c, slot, key, env), sw, data,
                            if env.keySaved then KeyStored(slot, key) else KeyLost(slot)))
  {
    var r := Reply(StoreKey(c, slot, key, env), sw, data, if env.keySaved then KeyStored(slot, key) else KeyLost(slot));
    if env.keySaved && slot == SIG {
      assert r.card.dos == Put(c.dos, 0x93, Zeros(3)).objects;
      ClearedCounter(c, r);
    } else {
      SameObjects(c, r);
    }
    hide CounterTracks;
    hide Put;
    assert FlagsTrack(c, r);
    assert RetriesTrack(c, r);
  }

  lemma ClearedCounter(c: Card, r: Reply)
    requires r.card.dos == Put(c.dos, 0x93, Zeros(3)).objects && r.event.KeyStored? && r.event.slot == SIG
    ensures CounterTracks(c, r)
  {
  }

  lemma ImportEffect(c: Card, a: Apdu, env: Env)
    requires Sane(c)
    ensures Effect(c, ImportKey(c, a, env))
  {
    var r := ImportKey(c, a, env);
    if r.event == Quiet {
      QuietEffect(c, r);
    } else {
      hide Effect;
      hide StoreKey;
      var list := Value(a.data, 0x4D).value;
      var slot := CrtSlot(list).value;
      StoreKeyEffect(c, slot, Key(SlotAlgo(c, slot), 2, ScalarIn(list, SlotAlgo(c, slot)).value), env, r.sw, r.data);
    }
  }

  lemma GenerateEffect(c: Card, a: Apdu, env: Env)
    requires Sane(c)
    ensures Effect(c, GenerateOrRead(c, a, env))
  {
    var r := GenerateOrRead(c, a, env);
    if r.event == Quiet || r.event.KeyShown? {
      QuietEffect(c, r);
    } else {
      hide Effect;
      hide StoreKey;
      var slot := SlotOfCrt(a.data[0]);
      StoreKeyEffect(c, slot, Key(SlotAlgo(c, slot), 1, env.genkey.value), env, r.sw, r.data);
    }
  }

  lemma SignedCounter(c: Card, r: Reply)
    requires r.card.dos == Put(c.dos, 0x93, CounterBytes(Counter(c.dos) + 1)).objects && r.event.SignCall? && r.event.ok
    ensures CounterTracks(c, r)
  {
    CounterBytesRead(Counter(c.dos) + 1);
  }

  lemma AttemptEffect(c: Card, a: Apdu, env: Env)
    requires Sane(c) && c.signOk && c.keys[SIG].Key?
    ensures Effect(c, Sign(c, a, env))
  {
    hide MultiSign;
    hide CounterBytes;
    var r := Sign(c, a, env);
    if env.sign.None? { SameObjects(c, r); } else { SignedCounter(c, r); }
    hide CounterTracks;
    hide Put;
    assert FlagsTrack(c, r);
  }

  lemma SignEffect(c: Card, a: Apdu, env: Env)
    requires Sane(c)
    ensures Effect(c, ComputeSignature(c, a, env))
  {
    hide Effect;
    hide TouchRequired;
    var r := ComputeSignature(c, a, env);
    if r.event == Quiet { QuietEffect(c, r); } else { AttemptEffect(c, a, env); }
  }

  lemma ReadOnlyEffect(c: Card, a: Apdu, env: Env)
    requires Sane(c)
    ensures Effect(c, GetData(c, a)) && Effect(c, Decipher(c, a, env)) && Effect(c, Authenticate(c, a, env))
  {
    QuietEffect(c, GetData(c, a));
    QuietEffect(c, Decipher(c, a, env));
    QuietEffect(c, Authenticate(c, a, env));
  }

  lemma ProcessEffect(c: Card, command: Option<Apdu>, env: Env)
    requires Sane(c)
    ensures Effect(c, Process(c, command, env))
  {
    var r := Process(c, command, env);
    if r.card == c && r.event == Quiet {
      QuietEffect(c, r);
    } else {
      var a := command.value;
      hide Effect;
      hide FactoryReset, Process, SelectApplet, Verify, ChangePin, PutData, ImportKey, GenerateOrRead,
           ComputeSignature, GetData, Decipher, Authenticate;
      if c.terminated { ResetEffect(c, false); }
      else if a.ins == 0xA4 { SelectEffect(c, a); }
      else if a.ins == 0xE6 { ResetEffect(c, true); }
      else if a.ins == 0x20 { VerifyEffect(c, a); }
      else if a.ins == 0x24 { ChangeEffect(c, a); }
      else if a.ins == 0xDA { PutEffect(c, a, env); }
      else if a.ins == 0xDB { ImportEffect(c, a, env); }
      else if a.ins == 0x2A && !(a.p1 == 0x80 && a.p2 == 0x86) { SignEffect(c, a, env); }
      else if a.ins == 0x47 { GenerateEffect(c, a, env); }
      else { ReadOnlyEffect(c, a, env); }
    }
  }

  // ---- The factory objects ----

  lemma {:induction false} EnsureKeeps(m: Objects, defaults: seq<Object>, tag: word)
    requires tag in m
    ensures tag in Ensure(m, defaults) && Ensure(m, defaults)[tag] == m[tag]
    decreases |defaults|
  {
    if defaults != [] {
      var o := defaults[0];
      EnsureKeeps(if o.tag in m then m else Put(m, o.tag, o.value).objects, defaults[1..], tag);
    }
  }

  lemma {:induction false} EnsureFull(m: Objects, defaults: seq<Object>)
    requires |m| >= MAX_ENTRIES
    ensures Ensure(m, defaults) == m
    decreases |defaults|
  {
    if defaults != [] { EnsureFull(m, defaults[1..]); }
  }

  lemma {:induction false} EnsureSize(m: Objects, defaults: seq<Object>)
    ensures |Ensure(m, defaults)| <= |m| + |defaults|
    decreases |defaults|
  {
    if defaults != [] {
      var o := defaults[0];
      EnsureSize(if o.tag in m then m else Put(m, o.tag, o.value).objects, defaults[1..]);
    }
  }

  /** An absent object gets its default value exactly if the table still has room when its turn comes. */
  lemma {:induction false} EnsureAdds(m: Objects, defaults: seq<Object>, i: nat)
    requires i < |defaults| && defaults[i].tag !in m && |defaults[i].value| <= MAX_LEN
    requires forall k :: 0 <= k < i ==> defaults[k].tag != defaults[i].tag
    ensures var t, all := defaults[i].tag, Ensure(m, defaults);
            && (t in all <==> |Ensure(m, defaults[..i])| < MAX_ENTRIES)
            && (t in all ==> all[t] == defaults[i].value)
    decreases |defaults|
  {
    var o := defaults[0];
    var next := if o.tag in m then m else Put(m, o.tag, o.value).objects;
    if i == 0 {
      if |m| < MAX_ENTRIES { EnsureKeeps(next, defaults[1..], o.tag); } else { EnsureFull(m, defaults); }
    } else {
      assert defaults[1..][i - 1] == defaults[i] && defaults[..i][1..] == defaults[1..][..i - 1];
      assert forall k :: 0 <= k < i - 1 ==> defaults[1..][k] == defaults[k + 1];
      EnsureAdds(next, defaults[1..], i - 1);
    }
  }

  lemma FactoryCounter(c: Card)
    ensures HasCounter(FactoryReset(c).dos) && Counter(FactoryReset(c).dos) == 0
  {
    hide Ensure;
    var dos := Ensure(map[], DEFAULTS);
    assert DEFAULTS[18] == Object(0x93, Zeros(3)) && |DEFAULTS| == 19;
    EnsureAdds(map[], DEFAULTS, 18);
    EnsureSize(map[], DEFAULTS[..18]);
    assert dos[0x93] == Zeros(3);
    if c.serial.Some? {
      assert WithSerial(dos, c.serial.value)[0x93] == dos[0x93];
    }
  }

  // ---- Every run ----

  ghost predicate Inv(r: Run) {
    && Sane(r.card)
    && r.card.signOk == Authorised(r.trace, 0x81)
    && r.card.userOk == Authorised(r.trace, 0x82)
    && r.card.adminOk == Authorised(r.trace, 0x83)
    && RETRY_MAX - r.card.retry1 == WrongInARow(r.trace, true)
    && RETRY_MAX - r.card.retry3 == WrongInARow(r.trace, false)
    && ((forall e :: e in r.trace ==> !Writes(e, 0x93)) ==>
          HasCounter(r.card.dos) && Counter(r.card.dos) == Signatures(r.trace) % COUNTER_RANGE)
  }

  lemma UpdateCountMod(n: nat, e: Event)
    ensures UpdateCount(n % COUNTER_RANGE, e) % COUNTER_RANGE == UpdateCount(n, e) % COUNTER_RANGE
  {
  }

  lemma ExtendInv(r: Run, reply: Reply)
    requires Inv(r) && Effect(r.card, reply)
    ensures Inv(Run(reply.card, r.trace + [reply.event]))
  {
    var after := r.trace + [reply.event];
    assert after[..|after| - 1] == r.trace && after[|after| - 1] == reply.event;
    UpdateCountMod(Signatures(r.trace), reply.event);
    if forall e :: e in after ==> !Writes(e, 0x93) {
      assert reply.event in after && forall e :: e in r.trace ==> e in after;
    }
  }

  lemma {:induction false} ExecKeepsInv(c: Card, commands: seq<Command>)
    ensures var start := FactoryReset(c); Inv(Exec(start, commands))
    decreases |commands|
  {
    hide Process;
    var start := FactoryReset(c);
    if commands == [] {
      FactoryCounter(c);
      hide Ensure;
    } else {
      var front, last := Exec(start, commands[..|commands| - 1]), commands[|commands| - 1];
      ExecKeepsInv(c, commands[..|commands| - 1]);
      ProcessEffect(front.card, last.apdu, last.env);
      ExtendInv(front, Process(front.card, last.apdu, last.env));
    }
  }

  /** The state a command finds. */
  function Before(c: Card, commands: seq<Command>, i: nat): Card
    requires i < |commands|
  {
    Exec(c, commands[..i]).card
  }

  lemma {:induction false} TraceOfPrefix(c: Card, commands: seq<Command>, i: nat)
    requires i <= |commands|
    ensures Exec(c, commands).trace[..i] == Exec(c, commands[..i]).trace
    ensures i < |commands| ==>
      Exec(c, commands).trace[i] == Process(Before(c, commands, i), commands[i].apdu, commands[i].env).event
    decreases |commands|
  {
    hide Process;
    if i == |commands| {
      assert commands[..i] == commands;
    } else {
      var front := commands[..|commands| - 1];
      assert front[..i] == commands[..i];
      TraceOfPrefix(c, front, i);
      if i < |front| { assert front[i] == commands[i]; } else { assert front == commands[..i]; }
    }
  }

  lemma EventEffect(c: Card, commands: seq<Command>, i: nat)
    requires i < |commands|
    ensures var start := FactoryReset(c); var t := Exec(start, commands).trace;
            && Inv(Run(Before(start, commands, i), t[..i]))
            && Effect(Before(start, commands, i),
                      Process(Before(start, commands, i), commands[i].apdu, commands[i].env))
            && t[i] == Process(Before(start, commands, i), commands[i].apdu, commands[i].env).event
  {
    var start := FactoryReset(c);
    hide FactoryReset;
    hide Process;
    ExecKeepsInv(c, commands[..i]);
    TraceOfPrefix(start, commands, i);
    ProcessEffect(Before(start, commands, i), commands[i].apdu, commands[i].env);
  }

  /** The last successful VERIFY, nothing having ended its effect since. */
  lemma {:induction false} AuthorisedByVerify(trace: seq<Event>, mode: byte)
    ensures Authorised(trace, mode) <==>
            exists j :: 0 <= j < |trace| && trace[j] == PinOk(mode)
                        && forall k :: j < k < |trace| ==> !Ends(trace[k], mode)
    decreases |trace|
  {
    if trace != [] {
      var front, last := trace[..|trace| - 1], trace[|trace| - 1];
      AuthorisedByVerify(front, mode);
      if PinEvent(last, mode) {
        assert trace[|trace| - 1] == PinOk(mode);
      } else if Authorised(front, mode) && !Ends(last, mode) {
        var j :| 0 <= j < |front| && front[j] == PinOk(mode) && forall k :: j < k < |front| ==> !Ends(front[k], mode);
        assert trace[j] == PinOk(mode) && forall k :: j < k < |trace| ==> !Ends(trace[k], mode);
      }
      forall j | 0 <= j < |trace| && trace[j] == PinOk(mode) && forall k :: j < k < |trace| ==> !Ends(trace[k], mode)
        ensures Authorised(trace, mode)
      {
        if j < |front| {
          assert front[j] == PinOk(mode) && forall k :: j < k < |front| ==> front[k] == trace[k];
        }
      }
    }
  }

  /** Which PIN mode an operation needs. */
  predicate Needs(e: Event, mode: byte) {
    match e
    case SignCall(_, _, _, _) => mode == 0x81
    case UserOperation(_, _) => mode == 0x82
    case PutObject(_, _) => mode == 0x83
    case KeyStored(_, _) => mode == 0x83
    case KeyLost(_) => mode == 0x83
    case _ => false
  }

  lemma NeededModeWasAuthorised(c: Card, commands: seq<Command>, i: nat, mode: byte)
    requires i < |commands|
    ensures var t := Exec(FactoryReset(c), commands).trace; Needs(t[i], mode) ==> Authorised(t[..i], mode)
  {
    EventEffect(c, commands, i);
    hide FactoryReset;
    hide Process;
    hide Exec;
    hide CounterTracks;
    hide RetriesTrack;
  }

  lemma AuthorisedInside(t: seq<Event>, i: nat, mode: byte)
    requires i <= |t| && Authorised(t[..i], mode)
    ensures exists j :: 0 <= j < i && t[j] == PinOk(mode) && forall k :: j < k < i ==> !Ends(t[k], mode)
  {
    AuthorisedByVerify(t[..i], mode);
    var j :| 0 <= j < i && t[..i][j] == PinOk(mode) && forall k :: j < k < |t[..i]| ==> !Ends(t[..i][k], mode);
    assert t[j] == PinOk(mode) && forall k :: j < k < i ==> t[..i][k] == t[k];
  }

  /** Every signature (decryption or authentication; object or key write) is preceded by a successful VERIFY of its
      PIN mode, with no SELECT, PIN change or reset in between; for signatures also no earlier single-use
      signature. */
  lemma OperationsFollowVerify(c: Card, commands: seq<Command>, i: nat, mode: byte)
    requires i < |commands|
    ensures var t := Exec(FactoryReset(c), commands).trace;
            Needs(t[i], mode) ==>
              exists j :: 0 <= j < i && t[j] == PinOk(mode) && forall k :: j < k < i ==> !Ends(t[k], mode)
  {
    hide FactoryReset;
    hide Exec;
    var t := Exec(FactoryReset(c), commands).trace;
    NeededModeWasAuthorised(c, commands, i, mode);
    if Needs(t[i], mode) { AuthorisedInside(t, i, mode); }
  }

  lemma AuthorisedAgain(t: seq<Event>, i: nat, k: nat, mode: byte)
    requires i < k <= |t| && Authorised(t[..k], mode) && Ends(t[i], mode) && t[i] != PinOk(mode)
    ensures exists j :: i < j < k && t[j] == PinOk(mode)
  {
    AuthorisedInside(t, k, mode);
    var j :| 0 <= j < k && t[j] == PinOk(mode) && forall m :: j < m < k ==> !Ends(t[m], mode);
    assert i < j;
  }

  /** While the stored C4 byte is not 1, a signature uses up its VERIFY: the next one needs another. */
  lemma OneSignaturePerVerify(c: Card, commands: seq<Command>, i: nat, k: nat)
    requires i < k < |commands|
    ensures var start := FactoryReset(c); var t := Exec(start, commands).trace;
            t[i].SignCall? && t[k].SignCall? && !MultiSign(Before(start, commands, i)) ==>
              exists j :: i < j < k && t[j] == PinOk(0x81)
  {
    hide FactoryReset;
    hide Exec;
    hide Before;
    hide MultiSign;
    var t := Exec(FactoryReset(c), commands).trace;
    MultiAsStored(c, commands, i);
    NeededModeWasAuthorised(c, commands, k, 0x81);
    if t[i].SignCall? && t[k].SignCall? && !t[i].multi {
      AuthorisedAgain(t, i, k, 0x81);
    }
  }

  lemma MultiAsStored(c: Card, commands: seq<Command>, i: nat)
    requires i < |commands|
    ensures var start := FactoryReset(c); var t := Exec(start, commands).trace;
            t[i].SignCall? ==> t[i].multi == MultiSign(Before(start, commands, i))
  {
    EventEffect(c, commands, i);
    hide FactoryReset;
    hide Process;
    hide Exec;
    hide CounterTracks;
    hide RetriesTrack;
  }

  /** The counter read from the card is the number of signatures since the key was set, modulo 2^24. */
  lemma CounterCountsSignatures(c: Card, commands: seq<Command>)
    ensures var r := Exec(FactoryReset(c), commands);
            (forall e :: e in r.trace ==> !Writes(e, 0x93)) ==>
              HasCounter(r.card.dos) && Counter(r.card.dos) == Signatures(r.trace) % COUNTER_RANGE
  {
    ExecKeepsInv(c, commands);
  }

  lemma BlockedIsNotTried(c: Card, commands: seq<Command>, i: nat, pw1: bool)
    requires i < |commands|
    ensures var t := Exec(FactoryReset(c), commands).trace;
            WrongInARow(t[..i], pw1) <= RETRY_MAX && (WrongInARow(t[..i], pw1) == RETRY_MAX ==> !Tried(t[i], pw1))
  {
    EventEffect(c, commands, i);
    hide FactoryReset;
    hide Process;
    hide Exec;
    hide CounterTracks;
    hide FlagsTrack;
    hide WrongInARow;
    hide Tried;
  }

  lemma OneMoreEvent(t: seq<Event>, i: nat, pw1: bool)
    requires i < |t|
    ensures WrongInARow(t[..i + 1], pw1) == UpdateWrong(WrongInARow(t[..i], pw1), t[i], pw1)
  {
    assert t[..i + 1][..i] == t[..i] && t[..i + 1][i] == t[i];
  }

  /** At most three wrong PINs in a row; after the third the PIN is not even compared until a reset. */
  lemma ThreeTries(c: Card, commands: seq<Command>, i: nat, pw1: bool)
    requires i < |commands|
    ensures var t := Exec(FactoryReset(c), commands).trace;
            && WrongInARow(t[..i], pw1) <= RETRY_MAX
            && (WrongInARow(t[..i], pw1) == RETRY_MAX ==> !Tried(t[i], pw1))
            && (WrongInARow(t[..i], pw1) == RETRY_MAX && t[i] != Reset ==> WrongInARow(t[..i + 1], pw1) == RETRY_MAX)
  {
    BlockedIsNotTried(c, commands, i, pw1);
    hide FactoryReset;
    hide Exec;
    hide WrongInARow;
    OneMoreEvent(Exec(FactoryReset(c), commands).trace, i, pw1);
  }
}
