/** The OpenPGP data-object store: a fixed table of slots that behaves as a bounded map. */
module DoStore {
  import opened Wrappers
  import opened Tlv

  const MAX_LEN := 255
  const MAX_ENTRIES := 24

  datatype Entry = Entry(tag: word, len: nat, data: seq<byte>, used: bool) {
    ghost predicate Valid() { |data| == MAX_LEN && len <= MAX_LEN }

    function Value(): seq<byte>
      requires Valid()
    {
      data[..len]
    }
  }

  const BLANK := Entry(0, 0, seq(MAX_LEN, _ => 0), false)

  type Objects = map<word, seq<byte>>

  // ---- The map the table stands for ----

  ghost predicate WellFormed(es: seq<Entry>) {
    && (forall e :: e in es ==> e.Valid())
    && (forall i, j :: 0 <= i < j < |es| && es[i].used && es[j].used ==> es[i].tag != es[j].tag)
  }

  ghost function Contents(es: seq<Entry>): Objects
    requires WellFormed(es)
  {
    if es == [] then map[]
    else
      assert WellFormed(es[1..]);
      assert es[0] in es;
      if es[0].used then Contents(es[1..])[es[0].tag := es[0].Value()] else Contents(es[1..])
  }

  lemma {:induction false} ContentsByIndex(es: seq<Entry>)
    requires WellFormed(es)
    ensures forall i :: 0 <= i < |es| && es[i].used ==>
              es[i].Valid() && es[i].tag in Contents(es) && Contents(es)[es[i].tag] == es[i].Value()
    ensures forall t :: t in Contents(es) ==> exists i :: 0 <= i < |es| && es[i].used && es[i].tag == t
  {
    if es != [] {
      var rest := es[1..];
      assert es[0] in es;
      assert WellFormed(rest);
      ContentsByIndex(rest);
      assert forall i :: 0 < i < |es| ==> es[i] == rest[i - 1];
      assert forall i :: 0 <= i < |rest| ==> rest[i] == es[i + 1];
    }
  }

  /** The map is full exactly when every slot is used. */
  lemma {:induction false} ContentsSize(es: seq<Entry>)
    requires WellFormed(es)
    ensures |Contents(es)| <= |es|
    ensures |Contents(es)| == |es| <==> forall i :: 0 <= i < |es| ==> es[i].used
  {
    if es != [] {
      var rest := es[1..];
      assert WellFormed(rest);
      ContentsSize(rest);
      ContentsByIndex(rest);
      assert forall i :: 0 < i < |es| ==> es[i] == rest[i - 1];
      assert forall i :: 0 <= i < |rest| ==> rest[i] == es[i + 1];
      if es[0].used {
        assert es[0].tag !in Contents(rest);
      }
    }
  }

  lemma WellFormedAfterPut(es: seq<Entry>, i: nat, e: Entry)
    requires WellFormed(es) && i < |es| && e.Valid()
    requires forall j :: 0 <= j < |es| && j != i && es[j].used ==> es[j].tag != e.tag
    ensures WellFormed(es[i := e])
  {
    var after := es[i := e];
    assert forall j :: 0 <= j < |es| && j != i ==> after[j] == es[j] && es[j] in es;
  }

  /** Writing one slot, when no other slot holds the tag. */
  lemma ContentsAfterPut(es: seq<Entry>, i: nat, e: Entry)
    requires WellFormed(es) && i < |es| && e.Valid() && e.used
    requires forall j :: 0 <= j < |es| && j != i && es[j].used ==> es[j].tag != e.tag
    requires es[i].used ==> es[i].tag == e.tag
    ensures WellFormed(es[i := e]) && Contents(es[i := e]) == Contents(es)[e.tag := e.Value()]
  {
    hide Contents;
    var after := es[i := e];
    WellFormedAfterPut(es, i, e);
    hide WellFormed;
    ContentsByIndex(es);
    ContentsByIndex(after);
    forall t | t in Contents(after)
      ensures t in Contents(es)[e.tag := e.Value()] && Contents(after)[t] == Contents(es)[e.tag := e.Value()][t]
    {
      var j :| 0 <= j < |after| && after[j].used && after[j].tag == t;
      if j != i { assert after[j] == es[j]; }
    }
    forall t | t in Contents(es)
      ensures t in Contents(after)
    {
      var j :| 0 <= j < |es| && es[j].used && es[j].tag == t;
      assert after[j].used && after[j].tag == t;
    }
    assert after[i] == e;
  }

  datatype Written = Written(objects: Objects, stored: bool)

  /** The bounded map: too long a value, or a new tag in a full table, is refused. */
  function Put(m: Objects, tag: word, value: seq<byte>): Written {
    if |value| > MAX_LEN || (tag !in m && |m| >= MAX_ENTRIES) then Written(m, false)
    else Written(m[tag := value], true)
  }

  class Store {
    const slots: array<Entry>

    ghost predicate Valid()
      reads this, slots
    {
      slots.Length == MAX_ENTRIES && WellFormed(slots[..])
    }

    ghost function View(): Objects
      requires Valid()
      reads this, slots
    {
      Contents(slots[..])
    }

    constructor ()
      ensures Valid() && fresh(slots) && View() == map[]
    {
      slots := new Entry[MAX_ENTRIES](_ => BLANK);
      new;
      ContentsByIndex(slots[..]);
    }

    method FindEntry(tag: word) returns (i: int)
      requires Valid()
      ensures tag in View() <==> 0 <= i
      ensures 0 <= i ==> i < slots.Length && slots[i].used && slots[i].tag == tag
      ensures i < 0 ==> forall j :: 0 <= j < slots.Length && slots[j].used ==> slots[j].tag != tag
    {
      ContentsByIndex(slots[..]);
      assert forall j :: 0 <= j < slots.Length ==> slots[..][j] == slots[j];
      i := 0;
      while i < slots.Length
        invariant 0 <= i <= slots.Length
        invariant forall j :: 0 <= j < i && slots[j].used ==> slots[j].tag != tag
      {
        if slots[i].used && slots[i].tag == tag { return; }
        i := i + 1;
      }
      i := -1;
    }

    method FindOrAlloc(tag: word) returns (i: int)
      requires Valid()
      ensures i < 0 <==> tag !in View() && |View()| >= MAX_ENTRIES
      ensures 0 <= i ==> i < slots.Length && (slots[i].used ==> slots[i].tag == tag)
      ensures 0 <= i ==> forall j :: 0 <= j < slots.Length && j != i && slots[j].used ==> slots[j].tag != tag
    {
      i := FindEntry(tag);
      if i >= 0 { return; }
      ContentsSize(slots[..]);
      assert forall j :: 0 <= j < slots.Length ==> slots[..][j] == slots[j];
      i := 0;
      while i < slots.Length
        invariant 0 <= i <= slots.Length
        invariant forall j :: 0 <= j < i ==> slots[j].used
      {
        if !slots[i].used { return; }
        i := i + 1;
      }
      i := -1;
    }

    /** `v == None` is a null pointer; `persisted` is the outcome of the flash write, made only after a change. */
    method PutObject(tag: word, v: Option<seq<byte>>, n: nat, persisted: bool) returns (ok: bool)
      requires Valid() && (v.Some? ==> n <= |v.value|)
      modifies slots
      ensures Valid()
      ensures var w := Put(old(View()), tag, Padded(v, n)); View() == w.objects && ok == (w.stored && persisted)
    {
      if n > MAX_LEN { return false; }
      var i := FindOrAlloc(tag);
      if i < 0 { return false; }
      assert slots[i] in slots[..];
      var value := Padded(v, n);
      var e := Entry(tag, n, value + slots[i].data[n..], true);
      assert e.Value() == value;
      ContentsAfterPut(slots[..], i, e);
      ghost var was := slots[..];
      slots[i] := e;
      assert slots[..] == was[i := e];
      ok := persisted;
    }

    method GetObject(tag: word) returns (r: Option<seq<byte>>)
      requires Valid()
      ensures r == if tag in View() then Some(View()[tag]) else None
    {
      var i := FindEntry(tag);
      if i < 0 { return None; }
      ContentsByIndex(slots[..]);
      assert slots[..][i] == slots[i];
      r := Some(slots[i].Value());
    }

    method Reset()
      requires Valid()
      modifies slots
      ensures Valid() && View() == map[]
    {
      forall i | 0 <= i < slots.Length { slots[i] := BLANK; }
      ContentsByIndex(slots[..]);
    }
  }
}
