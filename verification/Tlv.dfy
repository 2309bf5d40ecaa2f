/** BER-TLV data objects: appender, sibling iterator and finder (ISO/IEC 7816-4:2005, section 5.2.2). */
module Tlv {
  import opened Wrappers

  datatype Object = Object(tag: word, value: seq<byte>)

  /** Tags the readers decode as one unit: the low five bits of the first byte announce a second one. */
  predicate ProperTag(tag: word) {
    if tag > 0xFF then tag / 256 % 32 == 31 else tag % 32 != 31
  }

  function EncodeTag(tag: word): seq<byte> {
    if tag > 0xFF then [tag / 256, tag % 256] else [tag]
  }

  /** The length in the shortest of the three forms the readers know; the appender below never needs the last one. */
  function EncodeLength(n: word): seq<byte> {
    if n >= 256 then [0x82, n / 256, n % 256] else if n >= 128 then [0x81, n] else [n]
  }

  function Encode(o: Object): seq<byte>
    requires |o.value| < 0x10000
  {
    EncodeTag(o.tag) + EncodeLength(|o.value|) + o.value
  }

  function Padded(v: Option<seq<byte>>, n: nat): seq<byte>
    requires v.Some? ==> n <= |v.value|
  {
    if v.Some? then v.value[..n] else seq(n, _ => 0)
  }

  method CopyInto(buf: array<byte>, off: nat, bytes: seq<byte>)
    requires off + |bytes| <= buf.Length
    modifies buf
    ensures buf[..] == old(buf[..off]) + bytes + old(buf[off + |bytes|..])
  {
    for i := 0 to |bytes|
      invariant buf[..] == old(buf[..off]) + bytes[..i] + old(buf[off + i..])
    {
      buf[off + i] := bytes[i];
    }
  }

  /** `v == None` stands for a null pointer: the value is then `n` zero bytes. Returns 0 when the object does not
      fit. */
  method Append(buf: array<byte>, max: nat, off: nat, tag: word, v: Option<seq<byte>>, n: nat) returns (end: nat)
    requires max <= buf.Length
    requires v.Some? ==> n <= |v.value|
    modifies buf
    ensures var o := Object(tag, Padded(v, n));
            if n > 255 || off + |Encode(o)| > max then end == 0 && buf[..] == old(buf[..])
            else end == off + |Encode(o)| && buf[..] == old(buf[..off]) + Encode(o) + old(buf[off + |Encode(o)|..])
  {
    if n > 255 { return 0; }
    var head := EncodeTag(tag) + EncodeLength(n);
    if off + |head| + n > max { return 0; }
    CopyInto(buf, off, head + Padded(v, n));
    end := off + |head| + n;
  }

  /** The bytes of a data object: one or two of tag, one to three of length, and the value. */
  lemma ObjectOnWire(tag: word, v: seq<byte>)
    requires |v| < 0x10000
    ensures tag < 0x100 && |v| < 0x80 ==> Encode(Object(tag, v)) == [tag, |v|] + v
    ensures tag < 0x100 && 0x80 <= |v| < 0x100 ==> Encode(Object(tag, v)) == [tag, 0x81, |v|] + v
    ensures forall hi: byte, lo: byte :: hi > 0 && tag == 256 * hi as int + lo && |v| < 0x80 ==>
              Encode(Object(tag, v)) == [hi, lo, |v|] + v
    ensures forall hi: byte, lo: byte :: hi > 0 && tag == 256 * hi as int + lo && 0x80 <= |v| < 0x100 ==>
              Encode(Object(tag, v)) == [hi, lo, 0x81, |v|] + v
  {
  }

  // ---- Reading ----

  /** A decoded tag and length, and where the value starts. */
  datatype Head = Head(tag: word, len: word, start: nat)

  function ReadTag(buf: seq<byte>, pos: nat): Option<(word, nat)> {
    if pos >= |buf| then None
    else if buf[pos] % 32 == 31 then
      if pos + 1 >= |buf| then None else Some((256 * buf[pos] as int + buf[pos + 1], pos + 2))
    else Some((buf[pos], pos + 1))
  }

  function ReadLength(buf: seq<byte>, pos: nat): Option<(word, nat)> {
    if pos >= |buf| then None
    else if buf[pos] < 0x80 then Some((buf[pos], pos + 1))
    else if buf[pos] == 0x81 then
      if pos + 1 >= |buf| then None else Some((buf[pos + 1], pos + 2))
    else if buf[pos] == 0x82 then
      if pos + 2 >= |buf| then None else Some((256 * buf[pos + 1] as int + buf[pos + 2], pos + 3))
    else None
  }

  /** The iterator: the next tag and length, without a look at the value. */
  function IterNext(buf: seq<byte>, pos: nat): (h: Option<Head>)
    ensures h.Some? ==> pos + 2 <= h.value.start <= |buf|
  {
    match ReadTag(buf, pos)
    case None => None
    case Some((tag, p)) =>
      match ReadLength(buf, p)
      case None => None
      case Some((len, q)) => Some(Head(tag, len, q))
  }

  /** Where the first value tagged `tag` starts, and its length. */
  function FindFrom(buf: seq<byte>, pos: nat, tag: word): (r: Option<(nat, word)>)
    ensures r.Some? ==> r.value.0 + r.value.1 <= |buf|
    decreases |buf| - pos
  {
    match IterNext(buf, pos)
    case None => None
    case Some(h) =>
      if h.start + h.len > |buf| then None
      else if h.tag == tag then Some((h.start, h.len))
      else FindFrom(buf, h.start + h.len, tag)
  }

  lemma TagAt(buf: seq<byte>, pos: nat)
    requires pos < |buf|
    ensures ReadTag(buf, pos) ==
            if buf[pos] % 32 != 31 then Some((buf[pos], pos + 1))
            else if pos + 1 >= |buf| then None
            else Some((256 * buf[pos] as int + buf[pos + 1], pos + 2))
  {
  }

  lemma LengthAt(buf: seq<byte>, pos: nat)
    ensures ReadLength(buf, pos) ==
            if pos >= |buf| then None
            else if buf[pos] < 0x80 then Some((buf[pos], pos + 1))
            else if buf[pos] == 0x81 && pos + 1 < |buf| then Some((buf[pos + 1], pos + 2))
            else if buf[pos] == 0x82 && pos + 2 < |buf| then Some((256 * buf[pos + 1] as int + buf[pos + 2], pos + 3))
            else None
  {
  }

  method Find(buf: seq<byte>, tag: word) returns (r: Option<(nat, word)>)
    ensures r == FindFrom(buf, 0, tag)
  {
    hide ReadTag;
    hide ReadLength;
    var pos := 0;
    while pos < |buf|
      invariant FindFrom(buf, pos, tag) == FindFrom(buf, 0, tag)
      decreases |buf| - pos
    {
      var curTag: word;
      TagAt(buf, pos);
      if buf[pos] % 32 == 31 {
        if pos + 1 >= |buf| { return None; }
        curTag := 256 * buf[pos] as int + buf[pos + 1];
        pos := pos + 2;
      } else {
        curTag := buf[pos];
        pos := pos + 1;
      }
      LengthAt(buf, pos);
      if pos >= |buf| { return None; }
      var vlen: word;
      if buf[pos] < 0x80 {
        vlen := buf[pos];
        pos := pos + 1;
      } else if buf[pos] == 0x81 {
        if pos + 1 >= |buf| { return None; }
        vlen := buf[pos + 1];
        pos := pos + 2;
      } else if buf[pos] == 0x82 {
        if pos + 2 >= |buf| { return None; }
        vlen := 256 * buf[pos + 1] as int + buf[pos + 2];
        pos := pos + 3;
      } else {
        return None;
      }
      if pos + vlen > |buf| { return None; }
      if curTag == tag { return Some((pos, vlen)); }
      pos := pos + vlen;
    }
    return None;
  }

  /** The value `Find` points at. */
  function Value(buf: seq<byte>, tag: word): Option<seq<byte>> {
    match FindFrom(buf, 0, tag)
    case None => None
    case Some((start, len)) => Some(buf[start..start + len])
  }

  /** All siblings from `pos` on, as a caller reads them that steps over each value. */
  function Siblings(buf: seq<byte>, pos: nat): seq<Object>
    decreases |buf| - pos
  {
    match IterNext(buf, pos)
    case None => []
    case Some(h) =>
      if h.start + h.len > |buf| then []
      else [Object(h.tag, buf[h.start..h.start + h.len])] + Siblings(buf, h.start + h.len)
  }

  // ---- What is written is read back ----

  predicate Proper(objects: seq<Object>) {
    forall o :: o in objects ==> ProperTag(o.tag) && |o.value| < 0x10000
  }

  function EncodeAll(objects: seq<Object>): seq<byte>
    requires Proper(objects)
  {
    if objects == [] then []
    else
      assert objects[0] in objects;
      Encode(objects[0]) + EncodeAll(objects[1..])
  }

  lemma {:induction false} AppendedLast(objects: seq<Object>, o: Object)
    requires Proper(objects + [o])
    ensures Proper(objects) && o in objects + [o]
    ensures EncodeAll(objects + [o]) == EncodeAll(objects) + Encode(o)
  {
    assert Proper(objects) by {
      forall p | p in objects ensures ProperTag(p.tag) && |p.value| < 0x10000 { assert p in objects + [o]; }
    }
    assert (objects + [o])[|objects|] == o;
    if objects == [] {
      assert objects + [o] == [o] && [o][1..] == [] && Encode(o) + [] == Encode(o);
    } else {
      assert (objects + [o])[1..] == objects[1..] + [o];
      AppendedLast(objects[1..], o);
      assert Encode(objects[0]) + (EncodeAll(objects[1..]) + Encode(o)) == EncodeAll(objects) + Encode(o);
    }
  }

  /** The iterator standing on an encoded tag and length reads them, whatever follows. */
  lemma HeadAt(before: seq<byte>, tag: word, n: word, after: seq<byte>)
    requires ProperTag(tag)
    ensures var start := |before| + |EncodeTag(tag)| + |EncodeLength(n)|;
            IterNext(before + EncodeTag(tag) + EncodeLength(n) + after, |before|) == Some(Head(tag, n, start))
  {
    var t, l := EncodeTag(tag), EncodeLength(n);
    var buf := before + t + l + after;
    assert forall k :: 0 <= k < |t| ==> buf[|before| + k] == t[k];
    assert forall k :: 0 <= k < |l| ==> buf[|before| + |t| + k] == l[k];
    assert ReadTag(buf, |before|) == Some((tag, |before| + |t|));
    assert ReadLength(buf, |before| + |t|) == Some((n, |before| + |t| + |l|));
  }

  /** The iterator standing on an encoded object reads its tag and length, and stops on its value. */
  lemma HeadOfEncoded(before: seq<byte>, o: Object, after: seq<byte>)
    requires ProperTag(o.tag) && |o.value| < 0x10000
    ensures var buf, end := before + Encode(o) + after, |before| + |Encode(o)|;
            && IterNext(buf, |before|) == Some(Head(o.tag, |o.value|, end - |o.value|))
            && buf[end - |o.value|..end] == o.value
  {
    HeadAt(before, o.tag, |o.value|, o.value + after);
    hide EncodeTag, EncodeLength, IterNext;
    assert before + Encode(o) + after == before + EncodeTag(o.tag) + EncodeLength(|o.value|) + (o.value + after);
  }

  lemma {:induction false} SiblingsFrom(before: seq<byte>, objects: seq<Object>)
    requires Proper(objects)
    ensures Siblings(before + EncodeAll(objects), |before|) == objects
    decreases |objects|
  {
    hide IterNext;
    hide Encode;
    if objects == [] {
      NothingAtEnd(before + []);
    } else {
      assert objects[0] in objects;
      var e, rest := Encode(objects[0]), EncodeAll(objects[1..]);
      assert before + EncodeAll(objects) == before + e + rest;
      HeadOfEncoded(before, objects[0], rest);
      SiblingsFrom(before + e, objects[1..]);
    }
  }

  lemma NothingAtEnd(buf: seq<byte>)
    ensures IterNext(buf, |buf|) == None
  {
  }

  /** Round trip: the iterator gives back exactly the objects that were appended. */
  lemma ReadsBackAll(objects: seq<Object>)
    requires Proper(objects)
    ensures Siblings(EncodeAll(objects), 0) == objects
  {
    assert [] + EncodeAll(objects) == EncodeAll(objects);
    SiblingsFrom([], objects);
  }

  function FirstValue(objects: seq<Object>, tag: word): Option<seq<byte>> {
    if objects == [] then None
    else if objects[0].tag == tag then Some(objects[0].value)
    else FirstValue(objects[1..], tag)
  }

  lemma {:induction false} FindFromEncoded(before: seq<byte>, objects: seq<Object>, tag: word)
    requires Proper(objects)
    ensures var buf := before + EncodeAll(objects);
            var r := FindFrom(buf, |before|, tag);
            FirstValue(objects, tag) == (if r.None? then None else Some(buf[r.value.0..r.value.0 + r.value.1]))
    decreases |objects|
  {
    hide IterNext;
    hide Encode;
    if objects == [] {
      NothingAtEnd(before + []);
    } else {
      assert objects[0] in objects;
      var e, rest := Encode(objects[0]), EncodeAll(objects[1..]);
      assert before + EncodeAll(objects) == before + e + rest;
      HeadOfEncoded(before, objects[0], rest);
      FindFromEncoded(before + e, objects[1..], tag);
    }
  }

  /** The finder returns the first value under the tag, and nothing exactly when no object carries it. */
  lemma FindsFirst(objects: seq<Object>, tag: word)
    requires Proper(objects)
    ensures Value(EncodeAll(objects), tag) == FirstValue(objects, tag)
    ensures FirstValue(objects, tag) == None <==> forall o :: o in objects ==> o.tag != tag
  {
    hide IterNext;
    hide EncodeAll;
    assert [] + EncodeAll(objects) == EncodeAll(objects);
    FindFromEncoded([], objects, tag);
    FirstValueIsMember(objects, tag);
  }

  lemma FirstValueIsMember(objects: seq<Object>, tag: word)
    ensures FirstValue(objects, tag) == None <==> forall o :: o in objects ==> o.tag != tag
  {
  }

  /** The readers agree: the finder sees the siblings the iterator enumerates, on any bytes at all. */
  lemma {:induction false} FindIsFirstSibling(buf: seq<byte>, pos: nat, tag: word)
    ensures var r := FindFrom(buf, pos, tag);
            FirstValue(Siblings(buf, pos), tag)
            == (if r.None? then None else Some(buf[r.value.0..r.value.0 + r.value.1]))
    decreases |buf| - pos
  {
    hide ReadTag;
    hide ReadLength;
    var h := IterNext(buf, pos);
    if h.Some? && h.value.start + h.value.len <= |buf| && h.value.tag != tag {
      FindIsFirstSibling(buf, h.value.start + h.value.len, tag);
      assert Siblings(buf, pos)[1..] == Siblings(buf, h.value.start + h.value.len);
    }
  }

  /** The readers only ever produce proper tags, so an object written under another tag is never found. */
  lemma {:induction false} OnlyProperTagsAreFound(buf: seq<byte>, pos: nat, tag: word)
    ensures FindFrom(buf, pos, tag).Some? ==> ProperTag(tag)
    decreases |buf| - pos
  {
    var h := IterNext(buf, pos);
    if h.Some? && h.value.start + h.value.len <= |buf| && h.value.tag != tag {
      OnlyProperTagsAreFound(buf, h.value.start + h.value.len, tag);
    }
  }
}
