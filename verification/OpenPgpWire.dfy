/** What a reader of the applet's templates finds in them, and what the applet finds in an encoded key. */
module OpenPgpWire {
  import opened Wrappers
  import opened Tlv
  import opened DoStore
  import opened OpenPgpCard
  import opened OpenPgpRuns

  // ---- Templates ----

  /** The values the appender takes. */
  predicate Short(objects: seq<Object>) { forall o :: o in objects ==> |o.value| <= 255 }

  /** A chain of appends gives the encoding of the whole list, and fits exactly when that does. */
  lemma {:induction false} TemplateIsEncoding(objects: seq<Object>, max: nat)
    requires Proper(objects) && Short(objects)
    ensures Template(objects, max) == if |EncodeAll(objects)| <= max then Some(EncodeAll(objects)) else None
  {
    if objects != [] {
      var front, last := objects[..|objects| - 1], objects[|objects| - 1];
      assert objects == front + [last];
      AppendedLast(front, last);
      assert Short(front) && |last.value| <= 255;
      TemplateIsEncoding(front, max);
      hide Encode, EncodeAll;
    }
  }

  /** The reader of a template that fits finds exactly its objects. */
  lemma TemplateReadsBack(objects: seq<Object>, max: nat)
    requires Proper(objects)
    ensures Template(objects, max).Some? ==> Siblings(Template(objects, max).value, 0) == objects
  {
    if Template(objects, max).Some? {
      TemplateBounded(objects, max);
      TemplateIsEncoding(objects, max);
      ReadsBackAll(objects);
    }
  }

  /** No template with an oversized value is ever sent. */
  lemma {:induction false} TemplateBounded(objects: seq<Object>, max: nat)
    requires Template(objects, max).Some?
    ensures forall o :: o in objects ==> |o.value| <= 255
  {
    if objects != [] {
      var front, last := objects[..|objects| - 1], objects[|objects| - 1];
      assert objects == front + [last];
      TemplateBounded(front, max);
    }
  }

  predicate Tagged(objects: seq<Object>) { forall o :: o in objects ==> ProperTag(o.tag) }

  lemma SentReadsBack(objects: seq<Object>, max: nat)
    requires Tagged(objects)
    ensures Template(objects, max).Some? ==> Siblings(Template(objects, max).value, 0) == objects
  {
    if Template(objects, max).Some? {
      TemplateBounded(objects, max);
      TemplateReadsBack(objects, max);
    }
  }

  lemma {:induction false} StoredTags(m: Objects, tags: seq<word>)
    requires forall t :: t in tags ==> ProperTag(t)
    ensures Tagged(Stored(m, tags))
    ensures |Stored(m, tags)| == |tags|
            && forall i :: 0 <= i < |tags| ==> Stored(m, tags)[i] == Object(tags[i], Read(m, tags[i]))
  {
    if tags != [] {
      assert forall t :: t in tags[1..] ==> t in tags;
      StoredTags(m, tags[1..]);
    }
  }

  lemma DiscretionaryTags(c: Card)
    ensures Tagged(Discretionary(c))
  {
    StoredTags(c.dos, [0xC0, 0xC1, 0xC2, 0xC3]);
    StoredTags(c.dos, [0xC5, 0xC6, 0xCD, 0xD6, 0xD7, 0xD8]);
    hide Stored, PwStatus, KeyInfo;
  }

  /** GET DATA 6E: whenever it is answered, the host reads back the three outer objects, and in the template 73 behind
      them every discretionary object with its stored or live value. */
  lemma RelatedReadsBack(c: Card)
    ensures var r := GetData(c, Apdu(0xCA, 0, 0x6E, []));
            r.sw == SW_OK ==>
              var outer := Siblings(r.data, 0);
              && |outer| == 4 && outer[..3] == Stored(c.dos, [0x4F, 0x5F52, 0x7F74])
              && outer[3].tag == 0x73 && Siblings(outer[3].value, 0) == Discretionary(c)
  {
    DiscretionaryTags(c);
    StoredTags(c.dos, [0x4F, 0x5F52, 0x7F74]);
    hide Discretionary, Template, Stored, Siblings, Encode;
    var inner := Template(Discretionary(c), 256);
    if inner.Some? {
      SentReadsBack(Discretionary(c), 256);
      SentReadsBack(Stored(c.dos, [0x4F, 0x5F52, 0x7F74]) + [Object(0x73, inner.value)], 256);
    }
  }

  // ---- When the composite is answered ----

  /** The bytes an object takes, and a list of them. */
  function Size(o: Object): nat {
    (if o.tag > 0xFF then 2 else 1) + (if |o.value| >= 256 then 3 else if |o.value| >= 128 then 2 else 1) + |o.value|
  }

  function TotalSize(objects: seq<Object>): nat {
    if objects == [] then 0 else TotalSize(objects[..|objects| - 1]) + Size(objects[|objects| - 1])
  }

  lemma {:induction false} SizeOfConcat(a: seq<Object>, b: seq<Object>)
    ensures TotalSize(a + b) == TotalSize(a) + TotalSize(b)
  {
    if b == [] {
      assert a + b == a;
    } else {
      assert (a + b)[..|a + b| - 1] == a + b[..|b| - 1];
      SizeOfConcat(a, b[..|b| - 1]);
    }
  }

  /** A template in a buffer of at most 256 bytes is built exactly if its objects fit, and takes what they take. */
  lemma {:induction false} TemplateSize(objects: seq<Object>, max: nat)
    requires max <= 256
    ensures Template(objects, max).Some? <==> TotalSize(objects) <= max
    ensures Template(objects, max).Some? ==> |Template(objects, max).value| == TotalSize(objects)
  {
    if objects != [] { TemplateSize(objects[..|objects| - 1], max); }
  }

  /** GET DATA 6E is answered exactly if the discretionary objects take at most 255 bytes and the whole at most 256,
      and the answer then has exactly that many bytes. */
  lemma RelatedIsAnswered(c: Card)
    ensures var inner := TotalSize(Discretionary(c));
            var whole := TotalSize(Stored(c.dos, [0x4F, 0x5F52, 0x7F74])) + 1 + (if inner >= 128 then 2 else 1) + inner;
            var r := GetData(c, Apdu(0xCA, 0, 0x6E, []));
            && (r.sw == SW_OK <==> inner <= 255 && whole <= 256)
            && (r.sw == SW_OK ==> |r.data| == whole)
  {
    var head, inner := Stored(c.dos, [0x4F, 0x5F52, 0x7F74]), Template(Discretionary(c), 256);
    TemplateSize(Discretionary(c), 256);
    hide Discretionary, Stored, Template;
    if inner.Some? {
      var nested := Object(0x73, inner.value);
      SizeOfConcat(head, [nested]);
      TemplateSize(head + [nested], 256);
      assert TotalSize([nested]) == TotalSize([]) + Size(nested);
    }
  }

  lemma {:induction false} FactoryObject(i: nat)
    requires i < |DEFAULTS|
    ensures var dos := Ensure(map[], DEFAULTS); DEFAULTS[i].tag in dos && dos[DEFAULTS[i].tag] == DEFAULTS[i].value
  {
    hide Ensure;
    assert |DEFAULTS| == 19;
    EnsureAdds(map[], DEFAULTS, i);
    EnsureSize(map[], DEFAULTS[..i]);
  }

  predicate HasLength(dos: Objects, tag: word, n: nat) { tag in dos && |dos[tag]| == n }

  /** The lengths of the objects that a freshly reset card puts into the composite. */
  predicate FactoryLengths(dos: Objects) {
    && HasLength(dos, 0x4F, 16) && HasLength(dos, 0x5F52, 10) && HasLength(dos, 0x7F74, 3)
    && HasLength(dos, 0xC0, 10) && HasLength(dos, 0xC1, 9) && HasLength(dos, 0xC2, 11) && HasLength(dos, 0xC3, 9)
    && HasLength(dos, 0xC5, 60) && HasLength(dos, 0xC6, 60) && HasLength(dos, 0xCD, 12)
    && HasLength(dos, 0xD6, 2) && HasLength(dos, 0xD7, 2) && HasLength(dos, 0xD8, 2)
  }

  lemma DefaultLengths()
    ensures FactoryLengths(Ensure(map[], DEFAULTS))
  {
    hide Ensure;
    forall i | 0 <= i < |DEFAULTS|
      ensures HasLength(Ensure(map[], DEFAULTS), DEFAULTS[i].tag, |DEFAULTS[i].value|)
    {
      FactoryObject(i);
    }
    assert DEFAULTS[0].tag == 0x4F && DEFAULTS[1].tag == 0x5F52 && DEFAULTS[17].tag == 0x7F74;
    assert DEFAULTS[2].tag == 0xC0 && DEFAULTS[3].tag == 0xC1 && DEFAULTS[4].tag == 0xC2 && DEFAULTS[5].tag == 0xC3;
    assert DEFAULTS[6].tag == 0xC5 && DEFAULTS[7].tag == 0xC6 && DEFAULTS[8].tag == 0xCD;
    assert DEFAULTS[9].tag == 0xD6 && DEFAULTS[10].tag == 0xD7 && DEFAULTS[11].tag == 0xD8;
  }

  /** Writing the serial number into the identifier leaves its length. */
  lemma SerialKeepsLengths(dos: Objects, serial: seq<byte>)
    requires FactoryLengths(dos) && |serial| == 4
    ensures FactoryLengths(WithSerial(dos, serial))
  {
  }

  lemma StoredSize(m: Objects, tags: seq<word>)
    requires tags != []
    ensures TotalSize(Stored(m, tags))
            == Size(Object(tags[0], Read(m, tags[0]))) + TotalSize(Stored(m, tags[1..]))
  {
    var first := Object(tags[0], Read(m, tags[0]));
    SizeOfConcat([first], Stored(m, tags[1..]));
    assert TotalSize([first]) == TotalSize([]) + Size(first);
  }

  lemma StoredFour(m: Objects, a: word, b: word, c: word, d: word)
    ensures TotalSize(Stored(m, [a, b, c, d])) == Size(Object(a, Read(m, a))) + TotalSize(Stored(m, [b, c, d]))
    ensures TotalSize(Stored(m, [b, c, d]))
            == Size(Object(b, Read(m, b))) + Size(Object(c, Read(m, c))) + Size(Object(d, Read(m, d)))
  {
    StoredSize(m, [a, b, c, d]);
    StoredSize(m, [b, c, d]);
    StoredSize(m, [c, d]);
    StoredSize(m, [d]);
    assert [a, b, c, d][1..] == [b, c, d] && [b, c, d][1..] == [c, d] && [c, d][1..] == [d] && [d][1..] == [];
  }

  lemma FactorySizes(m: Objects)
    requires FactoryLengths(m)
    ensures TotalSize(Stored(m, [0x4F, 0x5F52, 0x7F74])) == 37
    ensures TotalSize(Stored(m, [0xC0, 0xC1, 0xC2, 0xC3])) == 47
    ensures TotalSize(Stored(m, [0xC5, 0xC6, 0xCD, 0xD6, 0xD7, 0xD8])) == 150
  {
    StoredFour(m, 0, 0x4F, 0x5F52, 0x7F74);
    StoredFour(m, 0xC0, 0xC1, 0xC2, 0xC3);
    StoredFour(m, 0xCD, 0xD6, 0xD7, 0xD8);
    var tags: seq<word> := [0xC5, 0xC6, 0xCD, 0xD6, 0xD7, 0xD8];
    StoredSize(m, tags);
    StoredSize(m, tags[1..]);
    assert tags[1..] == [0xC6, 0xCD, 0xD6, 0xD7, 0xD8] && tags[1..][1..] == [0xCD, 0xD6, 0xD7, 0xD8];
    hide Stored, TotalSize;
  }

  /** Beside the stored objects the discretionary ones take 17 bytes: the PIN status and the key information. */
  lemma DiscretionarySize(c: Card)
    ensures TotalSize(Discretionary(c))
            == TotalSize(Stored(c.dos, [0xC0, 0xC1, 0xC2, 0xC3]))
               + TotalSize(Stored(c.dos, [0xC5, 0xC6, 0xCD, 0xD6, 0xD7, 0xD8])) + 17
  {
    var p, q := Stored(c.dos, [0xC0, 0xC1, 0xC2, 0xC3]), Stored(c.dos, [0xC5, 0xC6, 0xCD, 0xD6, 0xD7, 0xD8]);
    var status, info := Object(0xC4, PwStatus(c)), Object(0xDE, KeyInfo(c));
    hide Stored;
    SizeOfConcat(p + [status] + q, [info]);
    SizeOfConcat(p + [status], q);
    SizeOfConcat(p, [status]);
    assert TotalSize([status]) == TotalSize([]) + Size(status) == 9;
    assert TotalSize([info]) == TotalSize([]) + Size(info) == 8;
  }

  lemma FactoryCardLengths(c: Card)
    requires c.serial.Some? ==> |c.serial.value| == 4
    ensures FactoryLengths(FactoryReset(c).dos)
  {
    hide Ensure, WithSerial, FactoryLengths;
    DefaultLengths();
    if c.serial.Some? { SerialKeepsLengths(Ensure(map[], DEFAULTS), c.serial.value); }
  }

  /** A freshly reset card answers GET DATA 6E with exactly 254 bytes, 256 with the status word: the most that a host
      reads with a short command. */
  lemma FactoryCardAnswers(c: Card)
    requires c.serial.Some? ==> |c.serial.value| == 4
    ensures var r := GetData(FactoryReset(c), Apdu(0xCA, 0, 0x6E, [])); r.sw == SW_OK && |r.data| == 254
  {
    var f := FactoryReset(c);
    FactoryCardLengths(c);
    hide FactoryReset, FactoryLengths, GetData, Discretionary, Stored, TotalSize;
    FactorySizes(f.dos);
    DiscretionarySize(f);
    RelatedIsAnswered(f);
  }

  /** GET DATA 65 and 7A: the host reads back the cardholder's data and the signature counter. */
  lemma OthersReadBack(c: Card)
    ensures var r := GetData(c, Apdu(0xCA, 0, 0x65, []));
            r.sw == SW_OK ==> Siblings(r.data, 0) == Stored(c.dos, [0x5B, 0x5F2D, 0x5F35])
    ensures var r := GetData(c, Apdu(0xCA, 0, 0x7A, []));
            r.sw == SW_OK ==> Siblings(r.data, 0) == [Object(0x93, Read(c.dos, 0x93))]
  {
    StoredTags(c.dos, [0x5B, 0x5F2D, 0x5F35]);
    StoredTags(c.dos, [0x93]);
    SentReadsBack(Stored(c.dos, [0x5B, 0x5F2D, 0x5F35]), 64);
    SentReadsBack(Stored(c.dos, [0x93]), 16);
    hide Template, Siblings, Discretionary;
  }

  // ---- Imported keys ----

  /** A tag and a length, without the value: one element of the private-key template. */
  datatype Part = Part(tag: word, len: word)

  function PartBytes(p: Part): seq<byte> { EncodeTag(p.tag) + EncodeLength(p.len) }

  function PartsBytes(parts: seq<Part>): seq<byte> {
    if parts == [] then [] else PartBytes(parts[0]) + PartsBytes(parts[1..])
  }

  function LengthOf(parts: seq<Part>): nat {
    if parts == [] then 0 else parts[0].len + LengthOf(parts[1..])
  }

  /** The lengths a scalar may have. */
  predicate FitsAlgo(algo: byte, n: nat) { if algo == ALGO_ECDH then 1 <= n <= SCALAR_BYTES else n == SCALAR_BYTES }

  /** The walk stops on element 92 and has added up the lengths before it. */
  lemma {:induction false} WalkFinds92(done: seq<byte>, before: seq<Part>, n: word, after: seq<byte>, offset: nat,
                                       algo: byte)
    requires (forall p :: p in before ==> ProperTag(p.tag) && p.tag != 0x92) && FitsAlgo(algo, n)
    ensures FindScalar(done + (PartsBytes(before) + (PartBytes(Part(0x92, n)) + after)), |done|, offset, algo)
            == Some((offset + LengthOf(before), n as nat))
    decreases |before|
  {
    hide IterNext, EncodeTag, EncodeLength;
    var target := PartBytes(Part(0x92, n)) + after;
    var template := done + (PartsBytes(before) + target);
    if before == [] {
      assert template == done + EncodeTag(0x92) + EncodeLength(n) + after;
      HeadAt(done, 0x92, n, after);
    } else {
      var p, rest := before[0], PartsBytes(before[1..]) + target;
      assert p in before && forall q :: q in before[1..] ==> q in before;
      assert template == done + EncodeTag(p.tag) + EncodeLength(p.len) + rest;
      assert template == (done + PartBytes(p)) + rest;
      HeadAt(done, p.tag, p.len, rest);
      WalkFinds92(done + PartBytes(p), before[1..], n, after, offset + p.len, algo);
    }
  }

  /** A key as the host encodes it: the parts that describe the material, and the material itself. */
  datatype HostKey = HostKey(before: seq<Part>, lead: seq<byte>, scalar: seq<byte>, after: seq<byte>, rest: seq<byte>)
  {
    predicate Valid(algo: byte) {
      && (forall p :: p in before ==> ProperTag(p.tag) && p.tag != 0x92) && |lead| == LengthOf(before)
      && FitsAlgo(algo, |scalar|) && !AllZero(scalar)
    }

    function Description(): seq<byte>
      requires |scalar| <= SCALAR_BYTES
    {
      PartsBytes(before) + (PartBytes(Part(0x92, |scalar|)) + after)
    }

    function Material(): seq<byte> { lead + scalar + rest }
  }

  function PaddedScalar(d: seq<byte>): seq<byte>
    requires |d| <= SCALAR_BYTES
  {
    Zeros(SCALAR_BYTES - |d|) + d
  }

  lemma DescriptionLocated(k: HostKey, algo: byte)
    requires k.Valid(algo)
    ensures FindScalar(k.Description(), 0, 0, algo) == Some((|k.lead|, |k.scalar|))
  {
    hide PartsBytes, PartBytes, FindScalar;
    assert [] + k.Description() == k.Description();
    WalkFinds92([], k.before, |k.scalar|, k.after, 0, algo);
  }

  /** The scalar of an encoded header list is recovered, left-padded, wherever it stands in the material and whatever
      else the list holds. */
  lemma ScalarRecovered(objects: seq<Object>, k: HostKey, algo: byte)
    requires Proper(objects) && k.Valid(algo)
    requires FirstValue(objects, 0x7F48) == Some(k.Description()) && FirstValue(objects, 0x5F48) == Some(k.Material())
    ensures ScalarIn(EncodeAll(objects), algo) == Some(PaddedScalar(k.scalar))
  {
    FindsFirst(objects, 0x7F48);
    FindsFirst(objects, 0x5F48);
    DescriptionLocated(k, algo);
    hide EncodeAll, Value, FindScalar, FirstValue, PartsBytes, LengthOf, PartBytes, AllZero;
    var m, n := k.Material(), |k.scalar|;
    assert m[|k.lead|..|k.lead| + n] == k.scalar;
    NotAllZero(k.scalar);
  }

  lemma NotAllZero(d: seq<byte>)
    requires |d| <= SCALAR_BYTES
    ensures AllZero(PaddedScalar(d)) <==> AllZero(d)
  {
    var all, n := PaddedScalar(d), SCALAR_BYTES - |d|;
    assert forall i :: 0 <= i < |d| ==> all[n + i] == d[i];
    assert forall i :: 0 <= i < n ==> all[i] == 0;
    assert forall i :: n <= i < |all| ==> all[i] == d[i - n];
  }

  /** The slot is that of the first control reference template present, in the order B6, B8, A4. */
  lemma SlotRecovered(objects: seq<Object>)
    requires Proper(objects)
    ensures CrtSlot(EncodeAll(objects))
            == if FirstValue(objects, 0xB6).Some? then Some(SIG)
               else if FirstValue(objects, 0xB8).Some? then Some(DEC)
               else if FirstValue(objects, 0xA4).Some? then Some(AUT)
               else None
  {
    FindsFirst(objects, 0xB6);
    FindsFirst(objects, 0xB8);
    FindsFirst(objects, 0xA4);
    hide EncodeAll, Value, FirstValue;
  }

  /** The command as the host sends it: one extended header list 4D. */
  function ImportOf(objects: seq<Object>): seq<byte>
    requires Proper(objects) && |EncodeAll(objects)| < 0x10000
  {
    Encode(Object(0x4D, EncodeAll(objects)))
  }

  lemma ListRecovered(objects: seq<Object>)
    requires Proper(objects) && |EncodeAll(objects)| < 0x10000
    ensures Value(ImportOf(objects), 0x4D) == Some(EncodeAll(objects))
  {
    var list := [Object(0x4D, EncodeAll(objects))];
    hide Encode;
    assert list[1..] == [] && EncodeAll(list) == Encode(list[0]) + [] == Encode(list[0]);
    assert ImportOf(objects) == EncodeAll(list);
    FindsFirst(list, 0x4D);
  }

  /** Round trip of key import, for every slot, every scalar length the algorithm allows, and every way the list may be
      completed: after the command the slot holds exactly the scalar sent, left-padded. */
  lemma ImportStoresScalar(c: Card, objects: seq<Object>, k: HostKey, env: Env)
    requires c.adminOk && env.keySaved && Proper(objects) && |EncodeAll(objects)| < 0x10000
    requires CrtSlot(EncodeAll(objects)).Some?
    requires var slot := CrtSlot(EncodeAll(objects)).value; slot < 3 && k.Valid(SlotAlgo(c, slot))
    requires FirstValue(objects, 0x7F48) == Some(k.Description()) && FirstValue(objects, 0x5F48) == Some(k.Material())
    ensures var slot := CrtSlot(EncodeAll(objects)).value;
            var r := ImportKey(c, Apdu(0xDB, 0x3F, 0xFF, ImportOf(objects)), env);
            var key := Key(SlotAlgo(c, slot), 2, PaddedScalar(k.scalar));
            r.sw == SW_OK && r.event == KeyStored(slot, key) && r.card.keys == c.keys[slot := key]
  {
    var slot := CrtSlot(EncodeAll(objects)).value;
    ListRecovered(objects);
    ScalarRecovered(objects, k, SlotAlgo(c, slot));
    hide EncodeAll, Value, FirstValue, CrtSlot, ScalarIn, SlotAlgo, ImportOf, PaddedScalar, Put;
  }

  /** The list gpg sends, for any slot: the control reference template, the description, the material. */
  lemma PlainImport(c: Card, crt: byte, scalar: seq<byte>, env: Env)
    requires c.adminOk && env.keySaved && SlotOfCrt(crt) >= 0
    requires FitsAlgo(SlotAlgo(c, SlotOfCrt(crt)), |scalar|) && !AllZero(scalar)
    ensures var objects := [Object(crt, []), Object(0x7F48, PartBytes(Part(0x92, |scalar|))), Object(0x5F48, scalar)];
            var slot := SlotOfCrt(crt);
            && Proper(objects) && |EncodeAll(objects)| <= 255
            && ImportKey(c, Apdu(0xDB, 0x3F, 0xFF, ImportOf(objects)), env).card.keys
               == c.keys[slot := Key(SlotAlgo(c, slot), 2, PaddedScalar(scalar))]
  {
    var description := PartBytes(Part(0x92, |scalar|));
    var objects := [Object(crt, []), Object(0x7F48, description), Object(0x5F48, scalar)];
    var k := HostKey([], [], scalar, [], []);
    assert k.Description() == description && k.Material() == scalar;
    PlainList(crt, description, scalar);
    SlotRecovered(objects);
    hide EncodeAll, SlotAlgo, ImportOf, PaddedScalar, ImportKey;
    ImportStoresScalar(c, objects, k, env);
  }

  lemma PlainList(crt: byte, description: seq<byte>, scalar: seq<byte>)
    requires SlotOfCrt(crt) >= 0 && |description| <= 3 && |scalar| <= SCALAR_BYTES
    ensures var objects := [Object(crt, []), Object(0x7F48, description), Object(0x5F48, scalar)];
            && Proper(objects) && |EncodeAll(objects)| <= 255
            && FirstValue(objects, 0x7F48) == Some(description) && FirstValue(objects, 0x5F48) == Some(scalar)
            && (FirstValue(objects, 0xB6).Some? <==> crt == 0xB6) && (FirstValue(objects, 0xB8).Some? <==> crt == 0xB8)
            && (FirstValue(objects, 0xA4).Some? <==> crt == 0xA4)
  {
    var a, b, d := Object(crt, []), Object(0x7F48, description), Object(0x5F48, scalar);
    var objects := [a, b, d];
    assert objects[1..] == [b, d] && [b, d][1..] == [d] && [d][1..] == [];
    assert Proper([d]) && Proper([b, d]) && Proper(objects);
    assert EncodeAll([d]) == Encode(d) + EncodeAll([]);
    assert EncodeAll([b, d]) == Encode(b) + EncodeAll([d]);
    assert EncodeAll(objects) == Encode(a) + EncodeAll([b, d]);
    forall t: word
      ensures FirstValue(objects, t)
              == if crt == t then Some([]) else if t == 0x7F48 then Some(description)
                 else if t == 0x5F48 then Some(scalar) else None
    {
      assert FirstValue([d], t) == if t == 0x5F48 then Some(scalar) else None;
      assert FirstValue([b, d], t) == if t == 0x7F48 then Some(description) else FirstValue([d], t);
    }
  }
}
