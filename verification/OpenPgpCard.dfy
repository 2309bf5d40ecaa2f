/** The OpenPGP applet: PIN, signature and key state under any run of command APDUs. */
module OpenPgpCard {
  import opened Wrappers
  import opened Tlv
  import opened DoStore

  const RETRY_MAX := 3
  const PW_MAX_LEN := 16
  const PW1_DEFAULT: seq<byte> := [0x31, 0x32, 0x33, 0x34, 0x35, 0x36]
  const PW3_DEFAULT: seq<byte> := [0x31, 0x32, 0x33, 0x34, 0x35, 0x36, 0x37, 0x38]
  const AID_PREFIX: seq<byte> := [0xD2, 0x76, 0x00, 0x01, 0x24, 0x01]
  const ALGO_ECDSA: byte := 0x13
  const ALGO_ECDH: byte := 0x12
  const SCALAR_BYTES := 32
  const SIG := 0
  const DEC := 1
  const AUT := 2

  const SW_OK := 0x9000
  const SW_SEC_NOT_SAT := 0x6982
  const SW_AUTH_BLOCKED := 0x6983
  const SW_COND_NOT_SAT := 0x6985
  const SW_WRONG_DATA := 0x6A80
  const SW_WRONG_P1P2 := 0x6A86
  const SW_REF_NOT_FOUND := 0x6A88
  const SW_INS_NOT_SUP := 0x6D00
  const SW_CRYPTO := 0x6581
  const SW_INTERNAL := 0x6F00

  datatype Key = Absent | Key(algo: byte, origin: byte, d: seq<byte>)

  type Slots = s: seq<Key> | |s| == 3 witness [Absent, Absent, Absent]

  datatype Card = Card(
    selected: bool, terminated: bool,
    signOk: bool, userOk: bool, adminOk: bool,
    retry1: nat, retry3: nat, pw1: seq<byte>, pw3: seq<byte>,
    keys: Slots, dos: Objects, serial: Option<seq<byte>>)

  datatype Apdu = Apdu(ins: byte, p1: byte, p2: byte, data: seq<byte>)

  /** What the hooks and the flash answer during one command. */
  datatype Env = Env(cryptoOk: bool, confirm: int, sign: Option<seq<byte>>, pubkey: Option<seq<byte>>,
                     ecdh: Option<seq<byte>>, genkey: Option<seq<byte>>, doSaved: bool, keySaved: bool, pinSaved: bool)

  /** What a command did that later commands may depend on, and what it handed to the cryptographic hooks. */
  datatype Event =
    | Quiet
    | Select
    | PinOk(mode: byte)
    | PinWrong(pw1: bool)
    | PinChanged(pw1: bool)
    | Reset
    | SignCall(multi: bool, ok: bool, key: Key, input: seq<byte>)
    | UserOperation(key: Key, input: seq<byte>)
    | PutObject(tag: word, value: seq<byte>)
    | KeyStored(slot: nat, key: Key)
    | KeyLost(slot: nat)
    | KeyShown(key: Key)

  datatype Reply = Reply(card: Card, sw: nat, data: seq<byte>, event: Event)

  function Refuse(c: Card, sw: nat): Reply { Reply(c, sw, [], Quiet) }

  // ---- Factory state ----

  const P256: seq<byte> := [ALGO_ECDSA, 0x2A, 0x86, 0x48, 0xCE, 0x3D, 0x03, 0x01, 0x07]
  const CV25519: seq<byte> := [ALGO_ECDH, 0x2B, 0x06, 0x01, 0x04, 0x01, 0x97, 0x55, 0x01, 0x05, 0x01]
  const FACTORY_AID: seq<byte> := AID_PREFIX + [0x03, 0x04, 0xFF, 0x00, 0, 0, 0, 0, 0, 0]

  function Zeros(n: nat): seq<byte> { seq(n, _ => 0) }

  const DEFAULTS: seq<Object> :=
    [Object(0x4F, FACTORY_AID),
     Object(0x5F52, [0x00, 0x31, 0x84, 0x73, 0x80, 0x01, 0x80, 0x05, 0x90, 0x00]),
     Object(0xC0, [0x34, 0x00, 0x00, 0x00, 0x00, 0x00, 0x01, 0x00, 0x00, 0x00]),
     Object(0xC1, P256), Object(0xC2, CV25519), Object(0xC3, P256),
     Object(0xC5, Zeros(60)), Object(0xC6, Zeros(60)), Object(0xCD, Zeros(12)),
     Object(0xD6, [0x01, 0x20]), Object(0xD7, [0x00, 0x20]), Object(0xD8, [0x00, 0x20]),
     Object(0x5B, []), Object(0x5F2D, [0x65, 0x6E]), Object(0x5F35, [0x39]), Object(0x5F50, []), Object(0x5E, []),
     Object(0x7F74, [0x81, 0x01, 0x20]),
     Object(0x93, Zeros(3))]

  /** Populate what is absent. */
  function Ensure(m: Objects, defaults: seq<Object>): Objects
    decreases |defaults|
  {
    if defaults == [] then m
    else Ensure(if defaults[0].tag in m then m else Put(m, defaults[0].tag, defaults[0].value).objects, defaults[1..])
  }

  /** Whether every absent default was written, and kept by the flash. */
  predicate EnsureOk(m: Objects, defaults: seq<Object>, saved: bool)
    decreases |defaults|
  {
    defaults == []
    || (var o := defaults[0];
        if o.tag in m then EnsureOk(m, defaults[1..], saved)
        else Put(m, o.tag, o.value).stored && saved && EnsureOk(Put(m, o.tag, o.value).objects, defaults[1..], saved))
  }

  function WithSerial(m: Objects, serial: seq<byte>): Objects {
    var aid := if 0x4F in m && |m[0x4F]| == 16 then m[0x4F] else FACTORY_AID;
    Put(m, 0x4F, aid[..10] + serial + aid[14..]).objects
  }

  function FactoryReset(c: Card): Card {
    var dos := Ensure(map[], DEFAULTS);
    Card(false, c.terminated, false, false, false, RETRY_MAX, RETRY_MAX, PW1_DEFAULT, PW3_DEFAULT,
         [Absent, Absent, Absent], if c.serial.Some? then WithSerial(dos, c.serial.value) else dos, c.serial)
  }

  // ---- Commands ----

  function SelectApplet(c: Card, a: Apdu): Reply {
    if a.p1 != 0x04 || |a.data| < 6 || a.data[..6] != AID_PREFIX then Refuse(c, SW_REF_NOT_FOUND)
    else Reply(c.(selected := true, signOk := false, userOk := false, adminOk := false), SW_OK, [], Select)
  }

  function Terminate(c: Card): Reply {
    if !(c.adminOk || (c.retry1 == 0 && c.retry3 == 0)) then Refuse(c, SW_SEC_NOT_SAT)
    else Reply(FactoryReset(c).(terminated := true), SW_OK, [], Reset)
  }

  function WithRetry(c: Card, pw1: bool, n: nat): Card {
    if pw1 then c.(retry1 := n) else c.(retry3 := n)
  }

  function WrongPin(c: Card, pw1: bool): Reply {
    var left := (if pw1 then c.retry1 else c.retry3) - 1;
    if left < 0 then Refuse(c, SW_AUTH_BLOCKED) else Reply(WithRetry(c, pw1, left), 0x63C0 + left, [], PinWrong(pw1))
  }

  function Verify(c: Card, a: Apdu): Reply {
    var pw1 := a.p2 == 0x81 || a.p2 == 0x82;
    if !pw1 && a.p2 != 0x83 then Refuse(c, SW_WRONG_P1P2)
    else
      var retry := if pw1 then c.retry1 else c.retry3;
      if retry == 0 then Refuse(c, SW_AUTH_BLOCKED)
      else if a.data == [] then Refuse(c, 0x63C0 + retry)
      else if a.data != (if pw1 then c.pw1 else c.pw3) then WrongPin(c, pw1)
      else Accept(c, a.p2)
  }

  function Accept(c: Card, mode: byte): Reply {
    var d := WithRetry(c, mode != 0x83, RETRY_MAX);
    Reply(if mode == 0x81 then d.(signOk := true) else if mode == 0x82 then d.(userOk := true) else d.(adminOk := true),
          SW_OK, [], PinOk(mode))
  }

  function ChangePin(c: Card, a: Apdu): Reply {
    var pw1 := a.p2 == 0x81;
    if a.p1 != 0 || (!pw1 && a.p2 != 0x83) then Refuse(c, SW_WRONG_P1P2)
    else
      var pin := if pw1 then c.pw1 else c.pw3;
      var least := if pw1 then |PW1_DEFAULT| else |PW3_DEFAULT|;
      if (if pw1 then c.retry1 else c.retry3) == 0 then Refuse(c, SW_AUTH_BLOCKED)
      else if |a.data| <= |pin| || |a.data| - |pin| < least || |a.data| - |pin| > PW_MAX_LEN then
        Refuse(c, SW_WRONG_DATA)
      else if a.data[..|pin|] != pin then WrongPin(c, pw1)
      else
        var newPin := a.data[|pin|..];
        var d := WithRetry(c, pw1, RETRY_MAX);
        Reply(if pw1 then d.(pw1 := newPin, signOk := false, userOk := false) else d.(pw3 := newPin, adminOk := false),
              SW_OK, [], PinChanged(pw1))
  }

  function Read(m: Objects, tag: word): seq<byte> { if tag in m then m[tag] else [] }

  function PwStatus(c: Card): seq<byte> {
    [if |Read(c.dos, 0xC4)| >= 1 then Read(c.dos, 0xC4)[0] else 0,
     PW_MAX_LEN, 0, PW_MAX_LEN, c.retry1 % 256, 0, c.retry3 % 256]
  }

  function Origin(k: Key): byte { if k.Key? then k.origin else 0 }

  function KeyInfo(c: Card): seq<byte> {
    [1, Origin(c.keys[0]), 2, Origin(c.keys[1]), 3, Origin(c.keys[2])]
  }

  function Stored(m: Objects, tags: seq<word>): seq<Object> {
    if tags == [] then [] else [Object(tags[0], Read(m, tags[0]))] + Stored(m, tags[1..])
  }

  /** A chain of appends into a buffer of `max` bytes; it fails as soon as one object does not fit. */
  function Template(objects: seq<Object>, max: nat): Option<seq<byte>> {
    if objects == [] then Some([])
    else
      var last := objects[|objects| - 1];
      match Template(objects[..|objects| - 1], max)
      case None => None
      case Some(body) =>
        if |last.value| > 255 || |body| + |Encode(last)| > max then None else Some(body + Encode(last))
  }

  function Discretionary(c: Card): seq<Object>
  {
    Stored(c.dos, [0xC0, 0xC1, 0xC2, 0xC3]) + [Object(0xC4, PwStatus(c))]
    + Stored(c.dos, [0xC5, 0xC6, 0xCD, 0xD6, 0xD7, 0xD8]) + [Object(0xDE, KeyInfo(c))]
  }

  function Answer(c: Card, body: Option<seq<byte>>): Reply {
    if body.None? then Refuse(c, SW_INTERNAL) else Reply(c, SW_OK, body.value, Quiet)
  }

  function GetData(c: Card, a: Apdu): Reply
  {
    var tag := 256 * a.p1 as int + a.p2;
    if tag == 0x6E then
      var inner := Template(Discretionary(c), 256);
      if inner.None? then Refuse(c, SW_INTERNAL)
      else Answer(c, Template(Stored(c.dos, [0x4F, 0x5F52, 0x7F74]) + [Object(0x73, inner.value)], 256))
    else if tag == 0x65 then Answer(c, Template(Stored(c.dos, [0x5B, 0x5F2D, 0x5F35]), 64))
    else if tag == 0x7A then Answer(c, Template(Stored(c.dos, [0x93]), 16))
    else if tag == 0xC4 then Reply(c, SW_OK, PwStatus(c), Quiet)
    else if tag == 0xDE then Reply(c, SW_OK, KeyInfo(c), Quiet)
    else if tag !in c.dos then Refuse(c, SW_REF_NOT_FOUND)
    else Reply(c, SW_OK, c.dos[tag], Quiet)
  }

  function StoreObject(c: Card, tag: word, value: seq<byte>, env: Env): Reply {
    var w := Put(c.dos, tag, value);
    Reply(c.(dos := w.objects), if w.stored && env.doSaved then SW_OK else SW_WRONG_DATA, [],
          if w.stored then PutObject(tag, value) else Quiet)
  }

  /** One of three equal slices of a composite object. */
  function StoreSlice(c: Card, tag: word, index: nat, size: nat, data: seq<byte>, env: Env): Reply
    requires index < 3
  {
    if |data| != size then Refuse(c, SW_WRONG_DATA)
    else
      var was := Read(c.dos, tag);
      var base := if tag in c.dos && |was| == 3 * size then was else Zeros(3 * size);
      assert index == 0 || index == 1 || index == 2;
      StoreObject(c, tag, base[..index * size] + data + base[index * size + size..], env)
  }

  function PutData(c: Card, a: Apdu, env: Env): Reply {
    var tag := 256 * a.p1 as int + a.p2;
    if !c.adminOk then Refuse(c, SW_SEC_NOT_SAT)
    else if tag == 0xC4 then
      if |a.data| < 1 || a.data[0] > 1 then Refuse(c, SW_WRONG_DATA) else StoreObject(c, 0xC4, [a.data[0]], env)
    else if 0xC7 <= tag <= 0xC9 then StoreSlice(c, 0xC5, tag - 0xC7, 20, a.data, env)
    else if 0xCE <= tag <= 0xD0 then StoreSlice(c, 0xCD, tag - 0xCE, 4, a.data, env)
    else if ((tag == 0xC1 || tag == 0xC3) && a.data != P256) || (tag == 0xC2 && a.data != CV25519) then
      Refuse(c, SW_WRONG_DATA)
    else StoreObject(c, tag, a.data, env)
  }

  const CRT_TAGS: seq<word> := [0xB6, 0xB8, 0xA4]
  const ATTR_TAGS: seq<word> := [0xC1, 0xC2, 0xC3]

  function SlotOfCrt(crt: byte): int {
    if crt == 0xB6 then SIG else if crt == 0xB8 then DEC else if crt == 0xA4 then AUT else -1
  }

  function SlotAlgo(c: Card, slot: nat): byte
    requires slot < 3
  {
    var v := Read(c.dos, ATTR_TAGS[slot]);
    if |v| >= 1 then v[0] else ALGO_ECDSA
  }

  /** Where element 92 lies in the concatenated key material, from the (tag, length) pairs that describe it. */
  function FindScalar(template: seq<byte>, pos: nat, offset: nat, algo: byte): (r: Option<(nat, nat)>)
    ensures r.Some? ==> r.value.1 <= SCALAR_BYTES
    decreases |template| - pos
  {
    match IterNext(template, pos)
    case None => None
    case Some(h) =>
      if h.tag != 0x92 then FindScalar(template, h.start, offset + h.len, algo)
      else if algo == ALGO_ECDH && 1 <= h.len <= SCALAR_BYTES then Some((offset, h.len))
      else if algo != ALGO_ECDH && h.len == SCALAR_BYTES then Some((offset, h.len))
      else None
  }

  function CrtSlot(list: seq<byte>): Option<nat> {
    if Value(list, CRT_TAGS[0]).Some? then Some(SIG)
    else if Value(list, CRT_TAGS[1]).Some? then Some(DEC)
    else if Value(list, CRT_TAGS[2]).Some? then Some(AUT)
    else None
  }

  predicate AllZero(d: seq<byte>) { forall i :: 0 <= i < |d| ==> d[i] == 0 }

  /** The scalar an extended header list carries for `slot`, left-padded to 32 bytes; the zero scalar is refused. */
  function ScalarIn(list: seq<byte>, algo: byte): Option<seq<byte>> {
    var template, material := Value(list, 0x7F48), Value(list, 0x5F48);
    if template.None? then None
    else
      var at := FindScalar(template.value, 0, 0, algo);
      if at.None? || material.None? || at.value.0 + at.value.1 > |material.value| then None
      else
        var d := Zeros(SCALAR_BYTES - at.value.1) + material.value[at.value.0..at.value.0 + at.value.1];
        if AllZero(d) then None else Some(d)
  }

  function StoreKey(c: Card, slot: nat, key: Key, env: Env): Card
    requires slot < 3
  {
    if !env.keySaved then c.(keys := c.keys[slot := Absent])
    else
      var d := c.(keys := c.keys[slot := key]);
      if slot == SIG then d.(dos := Put(c.dos, 0x93, Zeros(3)).objects) else d
  }

  function ImportKey(c: Card, a: Apdu, env: Env): Reply
  {
    if a.p1 != 0x3F || a.p2 != 0xFF then Refuse(c, SW_WRONG_P1P2)
    else if !c.adminOk then Refuse(c, SW_SEC_NOT_SAT)
    else
      var list := Value(a.data, 0x4D);
      if list.None? || CrtSlot(list.value).None? then Refuse(c, SW_WRONG_DATA)
      else
        var slot := CrtSlot(list.value).value;
        var algo := SlotAlgo(c, slot);
        var d := ScalarIn(list.value, algo);
        if d.None? then Refuse(c, SW_WRONG_DATA)
        else
          var key := Key(algo, 2, d.value);
          var card := StoreKey(c, slot, key, env);
          if env.keySaved then Reply(card, SW_OK, [], KeyStored(slot, key))
          else Reply(card, SW_INTERNAL, [], KeyLost(slot))
  }

  predicate TouchRequired(c: Card, tag: word) { |Read(c.dos, tag)| >= 1 && Read(c.dos, tag)[0] != 0 }

  function Decipher(c: Card, a: Apdu, env: Env): Reply
  {
    if !env.cryptoOk then Refuse(c, SW_CRYPTO)
    else if c.keys[DEC].Absent? then Refuse(c, SW_REF_NOT_FOUND)
    else if c.keys[DEC].algo != ALGO_ECDH then Refuse(c, SW_COND_NOT_SAT)
    else if !c.userOk then Refuse(c, SW_SEC_NOT_SAT)
    else
      var a6 := Value(a.data, 0xA6);
      var t := if a6.None? then None else Value(a6.value, 0x7F49);
      var p := if t.None? then None else Value(t.value, 0x86);
      if p.None? then Refuse(c, SW_WRONG_DATA)
      else
        var point := if |p.value| == 33 && p.value[0] == 0x40 then p.value[1..] else p.value;
        if |point| != 32 then Refuse(c, SW_WRONG_DATA)
        else if TouchRequired(c, 0xD7) && env.confirm != 1 then Refuse(c, SW_COND_NOT_SAT)
        else
          var event := UserOperation(c.keys[DEC], point);
          if env.ecdh.None? then Reply(c, SW_COND_NOT_SAT, [], event)
          else Reply(c, SW_OK, env.ecdh.value[..Min(|env.ecdh.value|, 32)], event)
  }

  /** The signature counter, three bytes most significant first; 0 when the object is absent or malformed. */
  function Counter(m: Objects): nat {
    var v := Read(m, 0x93);
    if |v| != 3 then 0 else 0x10000 * v[0] as int + 0x100 * v[1] as int + v[2]
  }

  function CounterBytes(n: nat): seq<byte> { [n / 0x10000 % 0x100, n / 0x100 % 0x100, n % 0x100] }

  predicate MultiSign(c: Card) { |Read(c.dos, 0xC4)| >= 1 && Read(c.dos, 0xC4)[0] == 1 }

  function ComputeSignature(c: Card, a: Apdu, env: Env): Reply
  {
    if a.p1 != 0x9E || a.p2 != 0x9A then Refuse(c, SW_WRONG_P1P2)
    else if !env.cryptoOk then Refuse(c, SW_CRYPTO)
    else if c.keys[SIG].Absent? then Refuse(c, SW_REF_NOT_FOUND)
    else if !c.signOk then Refuse(c, SW_SEC_NOT_SAT)
    else if |a.data| < 20 || |a.data| > 64 then Refuse(c, SW_WRONG_DATA)
    else if TouchRequired(c, 0xD6) && env.confirm != 1 then Refuse(c, SW_COND_NOT_SAT)
    else Sign(c, a, env)
  }

  /** The authorisation is used up before the attempt, unless C4 allows several signatures. */
  function Sign(c: Card, a: Apdu, env: Env): Reply {
    var d := if MultiSign(c) then c else c.(signOk := false);
    match env.sign
    case None => Reply(d, SW_COND_NOT_SAT, [], SignCall(MultiSign(c), false, c.keys[SIG], a.data))
    case Some(sig) =>
      Reply(d.(dos := Put(c.dos, 0x93, CounterBytes(Counter(c.dos) + 1)).objects), SW_OK, sig,
              SignCall(MultiSign(c), true, c.keys[SIG], a.data))
  }

  function Authenticate(c: Card, a: Apdu, env: Env): Reply
  {
    if a.p1 != 0 || a.p2 != 0 then Refuse(c, SW_WRONG_P1P2)
    else if !env.cryptoOk then Refuse(c, SW_CRYPTO)
    else if c.keys[AUT].Absent? then Refuse(c, SW_REF_NOT_FOUND)
    else if c.keys[AUT].algo != ALGO_ECDSA then Refuse(c, SW_COND_NOT_SAT)
    else if !c.userOk then Refuse(c, SW_SEC_NOT_SAT)
    else if a.data == [] || |a.data| > 64 then Refuse(c, SW_WRONG_DATA)
    else if TouchRequired(c, 0xD8) && env.confirm != 1 then Refuse(c, SW_COND_NOT_SAT)
    else
      var event := UserOperation(c.keys[AUT], a.data);
      if env.sign.None? then Reply(c, SW_COND_NOT_SAT, [], event)
      else Reply(c, SW_OK, env.sign.value[..Min(|env.sign.value|, 256)], event)
  }

  function PublicKey(k: Key, env: Env): (nat, seq<byte>)
    requires k.Key?
  {
    if env.pubkey.None? then (SW_REF_NOT_FOUND, [])
    else if |env.pubkey.value| != (if k.algo == ALGO_ECDH then 32 else 65) then (SW_INTERNAL, [])
    else (SW_OK, Encode(Object(0x7F49, Encode(Object(0x86, env.pubkey.value)))))
  }

  function GenerateOrRead(c: Card, a: Apdu, env: Env): Reply
  {
    if a.p1 != 0x81 && a.p1 != 0x80 then Refuse(c, SW_INS_NOT_SUP)
    else if a.data == [] then Refuse(c, if a.p1 == 0x81 then SW_REF_NOT_FOUND else SW_WRONG_DATA)
    else if SlotOfCrt(a.data[0]) < 0 then Refuse(c, SW_REF_NOT_FOUND)
    else if !env.cryptoOk then Refuse(c, SW_CRYPTO)
    else
      var slot := SlotOfCrt(a.data[0]);
      if a.p1 == 0x81 then
        if c.keys[slot].Absent? then Refuse(c, SW_REF_NOT_FOUND)
        else var (sw, body) := PublicKey(c.keys[slot], env); Reply(c, sw, body, KeyShown(c.keys[slot]))
      else if !c.adminOk then Refuse(c, SW_SEC_NOT_SAT)
      else if env.genkey.None? then Refuse(c, SW_COND_NOT_SAT)
      else
        var key := Key(SlotAlgo(c, slot), 1, env.genkey.value);
        var card := StoreKey(c, slot, key, env);
        if !env.keySaved then Reply(card, SW_INTERNAL, [], KeyLost(slot))
        else var (sw, body) := PublicKey(key, env); Reply(card, sw, body, KeyStored(slot, key))
  }

  /** One command; `None` is a frame the APDU parser refuses. */
  function Process(c: Card, command: Option<Apdu>, env: Env): Reply
  {
    if command.None? then Refuse(c, 0x6700)
    else
      var a := command.value;
      if c.terminated then
        if a.ins == 0x44 then Reply(FactoryReset(c).(terminated := false), SW_OK, [], Reset) else Refuse(c, 0x6285)
      else if a.ins == 0xA4 then SelectApplet(c, a)
      else if a.ins == 0xE6 then Terminate(c)
      else if a.ins == 0x44 then Refuse(c, SW_OK)
      else if !c.selected then Refuse(c, SW_COND_NOT_SAT)
      else if a.ins == 0x20 then Verify(c, a)
      else if a.ins == 0x24 then ChangePin(c, a)
      else if a.ins == 0xCA then GetData(c, a)
      else if a.ins == 0xDA then PutData(c, a, env)
      else if a.ins == 0xDB then ImportKey(c, a, env)
      else if a.ins == 0x2A then
        if a.p1 == 0x80 && a.p2 == 0x86 then Decipher(c, a, env) else ComputeSignature(c, a, env)
      else if a.ins == 0x88 then Authenticate(c, a, env)
      else if a.ins == 0x47 then GenerateOrRead(c, a, env)
      else Refuse(c, SW_INS_NOT_SUP)
  }
}
