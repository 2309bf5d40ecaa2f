/** Reassembly on any bytes at all: what each delivery does, told from the deliveries before it. */
module CfgBridgeRuns {
  import opened CfgBridge
  import opened Wrappers

  /** Two bytes of header (index and count), then 1 to 200 bytes that lie within the frame of 6144. */
  predicate Admissible(c: seq<byte>) {
    3 <= |c| <= 202 && c[0] < c[1] && 200 * c[0] as int + |c| - 2 <= 6144
  }

  /** The k-th delivery counts: it agrees with those that counted before it on the count, and has a new index. */
  predicate Counts(cs: seq<seq<byte>>, k: nat)
    requires k < |cs|
    decreases k
  {
    Admissible(cs[k]) && forall j :: 0 <= j < k && Counts(cs, j) ==> cs[j][1] == cs[k][1] && cs[j][0] != cs[k][0]
  }

  lemma {:induction false} CountsInPrefix(cs: seq<seq<byte>>, n: nat, k: nat)
    requires k < n <= |cs|
    ensures Counts(cs[..n], k) == Counts(cs, k)
    decreases k
  {
    forall j | 0 <= j < k
      ensures Counts(cs[..n], j) == Counts(cs, j)
    {
      CountsInPrefix(cs, n, j);
    }
  }

  function After(st: Reasm, cs: seq<seq<byte>>): (r: Reasm)
    requires |st.buf| == FRAME_MAX
    ensures |r.buf| == FRAME_MAX
    decreases |cs|
  {
    if cs == [] then st else Add(After(st, cs[..|cs| - 1]), cs[|cs| - 1]).st
  }

  function Seen(cs: seq<seq<byte>>): set<nat> { set k | 0 <= k < |cs| && Counts(cs, k) :: cs[k][0] as nat }

  function End(c: seq<byte>): nat
    requires Admissible(c)
  {
    200 * c[0] + |c| - 2
  }

  /** The k-th delivery left its count, its end and its slice. */
  ghost predicate Kept(st: Reasm, c: seq<byte>)
    requires |st.buf| == FRAME_MAX
  {
    Admissible(c) && c[1] == st.total && End(c) <= st.len && st.buf[200 * c[0]..End(c)] == c[2..]
  }

  ghost predicate EndsAt(cs: seq<seq<byte>>, k: nat, len: nat) {
    k < |cs| && Counts(cs, k) && End(cs[k]) == len
  }

  /** What the deliveries that counted leave: their indices, their number, their slices, and the furthest end. */
  ghost predicate Tells(st: Reasm, cs: seq<seq<byte>>)
    requires |st.buf| == FRAME_MAX
  {
    && st.seen == Seen(cs) && st.got == |st.seen|
    && (st.total == 0 <==> st.seen == {})
    && (forall k :: 0 <= k < |cs| && Counts(cs, k) ==> Kept(st, cs[k]))
    && (if st.seen == {} then st.len == 0 else exists k: nat :: EndsAt(cs, k, st.len))
  }

  lemma SeenAt(cs: seq<seq<byte>>, x: nat)
    ensures x in Seen(cs) <==> exists k :: 0 <= k < |cs| && Counts(cs, k) && cs[k][0] == x
  {
    hide Counts;
  }

  /** The guards of the accumulator are what the deliveries before say. */
  lemma RefusedUnlessCounts(st: Reasm, cs: seq<seq<byte>>, c: seq<byte>)
    requires |st.buf| == FRAME_MAX && Tells(st, cs)
    ensures Refused(st, c) <==> !Counts(cs + [c], |cs|)
  {
    OneMore(cs, c);
    var all := cs + [c];
    assert Malformed(c) <==> !Admissible(c);
    if Admissible(c) {
      SeenAt(cs, c[0]);
      if st.total != 0 && st.total != c[1] {
        var x :| x in st.seen;
        SeenAt(cs, x);
      }
    }
  }

  lemma OneMore(cs: seq<seq<byte>>, c: seq<byte>)
    ensures forall j :: 0 <= j < |cs| ==> Counts(cs + [c], j) == Counts(cs, j) && (cs + [c])[j] == cs[j]
    ensures Seen(cs + [c]) == Seen(cs) + if Counts(cs + [c], |cs|) then {c[0] as nat} else {}
  {
    var all := cs + [c];
    forall j | 0 <= j < |cs|
      ensures Counts(all, j) == Counts(cs, j) && all[j] == cs[j]
    {
      assert all[..|cs|] == cs;
      CountsInPrefix(all, |cs|, j);
    }
    assert all[|cs|] == c;
    hide Counts;
    forall x
      ensures x in Seen(all) <==> x in Seen(cs) || (Counts(all, |cs|) && x == c[0] as nat)
    {
    }
  }

  /** Slices of different indices lie apart, so a new one leaves the others as they are. */
  lemma SlicesApart(buf: seq<byte>, c: seq<byte>, d: seq<byte>)
    requires |buf| == FRAME_MAX && Admissible(c) && Admissible(d) && c[0] != d[0]
    ensures var after := buf[..200 * c[0]] + c[2..] + buf[End(c)..];
            |after| == FRAME_MAX && after[200 * d[0]..End(d)] == buf[200 * d[0]..End(d)]
            && after[200 * c[0]..End(c)] == c[2..]
  {
  }

  lemma SeenFits(cs: seq<seq<byte>>, total: byte)
    requires forall k :: 0 <= k < |cs| && Counts(cs, k) ==> cs[k][1] == total
    ensures Seen(cs) <= Below(total) && |Seen(cs)| <= total
  {
    hide Below;
    forall x | x in Seen(cs)
      ensures x < total
    {
      SeenAt(cs, x);
    }
    SubsetSize(Seen(cs), Below(total));
  }

  /** The slices kept stay, and the new one is kept. */
  lemma KeptAfter(st: Reasm, c: seq<byte>, d: seq<byte>)
    requires |st.buf| == FRAME_MAX && !Refused(st, c) && Admissible(c)
    ensures Kept(Add(st, c).st, c)
    ensures Kept(st, d) && st.total != 0 && c[0] != d[0] ==> Kept(Add(st, c).st, d)
  {
    if Kept(st, d) && c[0] != d[0] { SlicesApart(st.buf, c, d); }
  }

  lemma AddFields(st: Reasm, c: seq<byte>)
    requires |st.buf| == FRAME_MAX && !Refused(st, c)
    ensures Admissible(c) && c[0] as nat !in st.seen
    ensures var t := Add(st, c).st;
            && t.seen == st.seen + {c[0] as nat} && t.got == (st.got + 1) % 256 && t.total == c[1] != 0
            && t.len == (if End(c) > st.len then End(c) else st.len)
            && |t.buf| == FRAME_MAX
  {
  }

  lemma AddTells(st: Reasm, cs: seq<seq<byte>>, c: seq<byte>)
    requires |st.buf| == FRAME_MAX && Tells(st, cs)
    ensures Tells(Add(st, c).st, cs + [c])
  {
    RefusedUnlessCounts(st, cs, c);
    OneMore(cs, c);
    if Counts(cs + [c], |cs|) {
      AcceptedTells(st, cs, c);
    } else {
      hide Counts, Kept, Refused;
      if st.seen != {} {
        var k: nat :| EndsAt(cs, k, st.len);
        assert EndsAt(cs + [c], k, st.len);
      }
    }
  }

  lemma AllKept(st: Reasm, cs: seq<seq<byte>>, c: seq<byte>, k: nat)
    requires |st.buf| == FRAME_MAX && Tells(st, cs) && !Refused(st, c)
    requires Counts(cs + [c], |cs|) && k <= |cs| && Counts(cs + [c], k)
    ensures Kept(Add(st, c).st, (cs + [c])[k])
  {
    var all := cs + [c];
    OneMore(cs, c);
    AddFields(st, c);
    assert all[|cs|] == c;
    if k < |cs| {
      SeenAt(cs, cs[k][0]);
      assert st.total != 0 && c[0] != cs[k][0];
    }
    KeptAfter(st, c, all[k]);
    hide Add, Refused, Counts, Kept, Seen;
  }

  lemma AcceptedTells(st: Reasm, cs: seq<seq<byte>>, c: seq<byte>)
    requires |st.buf| == FRAME_MAX && Tells(st, cs) && !Refused(st, c) && Counts(cs + [c], |cs|)
    ensures Tells(Add(st, c).st, cs + [c])
  {
    hide Add, Refused, Counts, Kept, Seen, EndsAt;
    var all, t := cs + [c], Add(st, c).st;
    AddFields(st, c);
    forall k | 0 <= k < |all| && Counts(all, k)
      ensures Kept(t, all[k])
    {
      AllKept(st, cs, c, k);
    }
    NewTotal(t, all);
    FurthestEnd(st, cs, c);
    AcceptedCounted(st, cs, c);
  }

  lemma AcceptedCounted(st: Reasm, cs: seq<seq<byte>>, c: seq<byte>)
    requires |st.buf| == FRAME_MAX && st.seen == Seen(cs) && st.got == |st.seen|
    requires !Refused(st, c) && Counts(cs + [c], |cs|) && |Seen(cs + [c])| <= Add(st, c).st.total
    ensures var t, all := Add(st, c).st, cs + [c];
            t.seen == Seen(all) != {} && t.got == |t.seen| && t.total != 0
  {
    hide Add, Refused, Counts, Seen;
    OneMore(cs, c);
    AddFields(st, c);
    var x: nat := c[0];
    var more := st.seen + {x};
    assert |more| == |st.seen| + 1;
  }

  lemma NewTotal(t: Reasm, all: seq<seq<byte>>)
    requires |t.buf| == FRAME_MAX && forall k :: 0 <= k < |all| && Counts(all, k) ==> Kept(t, all[k])
    ensures |Seen(all)| <= t.total
  {
    SeenFits(all, t.total);
  }

  lemma FurthestEnd(st: Reasm, cs: seq<seq<byte>>, c: seq<byte>)
    requires |st.buf| == FRAME_MAX && Tells(st, cs) && !Refused(st, c) && Counts(cs + [c], |cs|)
    ensures exists k: nat :: EndsAt(cs + [c], k, Add(st, c).st.len)
  {
    var all := cs + [c];
    OneMore(cs, c);
    AddFields(st, c);
    hide Add, Refused, Kept, Seen;
    assert EndsAt(all, |cs|, End(c));
    hide Counts;
    if st.seen != {} {
      var k: nat :| EndsAt(cs, k, st.len);
      assert EndsAt(all, k, st.len);
    }
  }

  // ---- Every run ----

  lemma {:induction false} RunTells(initial: seq<byte>, cs: seq<seq<byte>>)
    requires |initial| == FRAME_MAX
    ensures Tells(After(Fresh(initial), cs), cs)
    decreases |cs|
  {
    if cs != [] {
      var front, last := cs[..|cs| - 1], cs[|cs| - 1];
      assert cs == front + [last];
      RunTells(initial, front);
      hide Tells, Add;
      AddTells(After(Fresh(initial), front), front, last);
    }
  }

  /** On any bytes at all: a delivery changes the state if and only if it counts, and it completes a frame if and only
      if with it as many indices have counted as it announces; the frame then ends where the furthest slice does. */
  lemma AnyBytes(initial: seq<byte>, cs: seq<seq<byte>>, c: seq<byte>)
    requires |initial| == FRAME_MAX
    ensures var st, all := After(Fresh(initial), cs), cs + [c];
            var o := Add(st, c);
            && (o.st != st <==> Counts(all, |cs|))
            && (o.done <==> Counts(all, |cs|) && |Seen(all)| == c[1])
            && (forall k :: 0 <= k < |all| && Counts(all, k) ==> Kept(o.st, all[k]))
            && (o.done ==> o.outLen == o.st.len && exists k: nat :: EndsAt(all, k, o.outLen))
  {
    var st := After(Fresh(initial), cs);
    RunTells(initial, cs);
    RefusedUnlessCounts(st, cs, c);
    AddTells(st, cs, c);
    var t, all := Add(st, c).st, cs + [c];
    assert all[|cs|] == c;
    if Counts(all, |cs|) {
      OneMore(cs, c);
      SeenFits(all, t.total);
      assert c[0] as nat in t.seen && t.total == c[1];
    }
  }
}
