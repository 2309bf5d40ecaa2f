/** Chunking of KS frames for a small-payload radio, and their reassembly. */
module CfgBridge {
  import opened Bits
  import opened Wrappers

  const CHUNK_PAYLOAD := 200
  const FRAME_MAX := 6144
  const CHUNK_HDR := 2

  function ChunkCount(frameLen: nat): byte {
    if frameLen == 0 || frameLen > FRAME_MAX then 0
    else (frameLen + CHUNK_PAYLOAD - 1) / CHUNK_PAYLOAD
  }

  // The bytes of `frame` that chunk `idx` carries.
  function SliceStart(idx: nat): nat { idx * CHUNK_PAYLOAD }

  function SliceEnd(frameLen: nat, idx: nat): nat { Min(frameLen, SliceStart(idx) + CHUNK_PAYLOAD) }

  function Chunk(frame: seq<byte>, idx: byte): seq<byte> {
    if idx >= ChunkCount(|frame|) then []
    else [idx, ChunkCount(|frame|)] + frame[SliceStart(idx)..SliceEnd(|frame|, idx)]
  }

  /** `None` stands for a null frame. */
  method MakeChunk(given: Option<seq<byte>>, idx: byte, out: array?<byte>) returns (n: nat)
    requires out != null ==> out.Length >= CHUNK_HDR + CHUNK_PAYLOAD
    modifies out
    ensures given.None? || out == null ==> n == 0
    ensures out != null ==> n <= out.Length && out[n..] == old(out[n..])
    ensures out != null && given.Some? ==> out[..n] == Chunk(given.value, idx)
  {
    if given.None? || out == null { return 0; }
    var frame := given.value;
    if |frame| == 0 || |frame| > FRAME_MAX { return 0; }
    var total := ChunkCount(|frame|);
    if total == 0 || idx >= total { return 0; }
    var offset := idx * CHUNK_PAYLOAD;
    var remaining := |frame| - offset;
    var slice := if remaining > CHUNK_PAYLOAD then CHUNK_PAYLOAD else remaining;
    out[0], out[1] := idx, total;
    for i := 0 to slice
      invariant out[..CHUNK_HDR + i] == [idx, total] + frame[offset..offset + i]
      invariant out[CHUNK_HDR + slice..] == old(out[CHUNK_HDR + slice..])
    {
      out[CHUNK_HDR + i] := frame[offset + i];
    }
    n := CHUNK_HDR + slice;
  }

  // ---- Reassembly ----

  /** `seen` holds the indices whose bit is set; `total` is 0 until the first chunk. */
  datatype Reasm = Reasm(total: byte, got: byte, seen: set<nat>, len: nat, buf: seq<byte>)

  datatype Outcome = Outcome(st: Reasm, done: bool, outLen: nat)

  /** A chunk no state accepts. */
  predicate Malformed(chunk: seq<byte>) {
    || |chunk| < CHUNK_HDR + 1
    || chunk[1] == 0 || chunk[0] >= chunk[1]
    || |chunk| - CHUNK_HDR > CHUNK_PAYLOAD
    || chunk[0] * CHUNK_PAYLOAD + (|chunk| - CHUNK_HDR) > FRAME_MAX
  }

  predicate Refused(st: Reasm, chunk: seq<byte>) {
    Malformed(chunk) || (st.total != 0 && st.total != chunk[1]) || chunk[0] in st.seen
  }

  function Add(st: Reasm, chunk: seq<byte>): Outcome
    requires |st.buf| == FRAME_MAX
  {
    if Refused(st, chunk) then Outcome(st, false, 0)
    else
      var offset, slice := chunk[0] * CHUNK_PAYLOAD, chunk[CHUNK_HDR..];
      var end := offset + |slice|;
      var total := if st.total == 0 then chunk[1] else st.total;
      var len := if end > st.len then end else st.len;
      var got := (st.got + 1) % 256;
      var st' := Reasm(total, got, st.seen + {chunk[0]}, len, st.buf[..offset] + slice + st.buf[end..]);
      Outcome(st', got == total, if got == total then len else 0)
  }

  // ---- Any order, any duplicates ----

  /** What reaches the receiver: a chunk of the frame (any index), or bytes that are no chunk at all. */
  datatype Delivery = Piece(idx: byte) | Junk(bytes: seq<byte>)

  function Bytes(frame: seq<byte>, d: Delivery): seq<byte> {
    match d
    case Piece(idx) => Chunk(frame, idx)
    case Junk(bytes) => if Malformed(bytes) then bytes else []
  }

  function Fresh(initial: seq<byte>): Reasm
    requires |initial| == FRAME_MAX
  {
    Reasm(0, 0, {}, 0, initial)
  }

  function Run(st: Reasm, frame: seq<byte>, ds: seq<Delivery>): (r: Reasm)
    requires |st.buf| == FRAME_MAX
    ensures |r.buf| == FRAME_MAX
    decreases |ds|
  {
    if ds == [] then st else Add(Run(st, frame, ds[..|ds| - 1]), Bytes(frame, ds[|ds| - 1])).st
  }

  // The outcome of the k-th delivery.
  function At(st: Reasm, frame: seq<byte>, ds: seq<Delivery>, k: nat): Outcome
    requires |st.buf| == FRAME_MAX && k < |ds|
  {
    Add(Run(st, frame, ds[..k]), Bytes(frame, ds[k]))
  }

  function AllIndices(frame: seq<byte>): set<nat> { Below(ChunkCount(|frame|)) }

  function Delivered(frame: seq<byte>, ds: seq<Delivery>): set<nat> {
    set d | d in ds && IsPiece(frame, d) :: d.idx
  }

  ghost predicate Counted(st: Reasm, frame: seq<byte>, s: set<nat>) {
    && |st.buf| == FRAME_MAX
    && st.seen == s <= AllIndices(frame)
    && st.got == |s|
    && st.total == (if s == {} then 0 else ChunkCount(|frame|))
  }

  ghost predicate Filled(st: Reasm, frame: seq<byte>, s: set<nat>)
    requires |st.buf| == FRAME_MAX
  {
    && |frame| <= FRAME_MAX
    && (forall i :: i in s ==> SliceEnd(|frame|, i) <= st.len)
    && st.len <= |frame|
    && (forall j :: 0 <= j < |frame| && j / CHUNK_PAYLOAD in s ==> st.buf[j] == frame[j])
  }

  ghost predicate Inv(st: Reasm, frame: seq<byte>, s: set<nat>) {
    Counted(st, frame, s) && Filled(st, frame, s)
  }

  lemma SubsetSize(s: set<nat>, t: set<nat>)
    requires s <= t
    ensures |s| <= |t| && (|s| == |t| ==> s == t)
  {
    assert t == s + (t - s) && |t| == |s| + |t - s|;
  }

  lemma SpliceKeepsBytes(buf: seq<byte>, frame: seq<byte>, s: set<nat>, idx: nat)
    requires |buf| == FRAME_MAX && |frame| <= FRAME_MAX && SliceStart(idx) < |frame|
    requires forall j :: 0 <= j < |frame| && j / CHUNK_PAYLOAD in s ==> buf[j] == frame[j]
    ensures var a, b := SliceStart(idx), SliceEnd(|frame|, idx);
            var after := buf[..a] + frame[a..b] + buf[b..];
            |after| == FRAME_MAX &&
            forall j :: 0 <= j < |frame| && j / CHUNK_PAYLOAD in s + {idx} ==> after[j] == frame[j]
  {
  }

  lemma ChunkShape(frame: seq<byte>, idx: byte)
    requires 1 <= |frame| <= FRAME_MAX && idx < ChunkCount(|frame|)
    ensures SliceStart(idx) < SliceEnd(|frame|, idx) <= |frame|
    ensures var c := Chunk(frame, idx);
            !Malformed(c) && c[0] == idx && c[1] == ChunkCount(|frame|)
            && c[CHUNK_HDR..] == frame[SliceStart(idx)..SliceEnd(|frame|, idx)]
  {
  }

  lemma AddKeepsInv(st: Reasm, frame: seq<byte>, s: set<nat>, idx: byte)
    requires 1 <= |frame| <= FRAME_MAX && Inv(st, frame, s) && idx < ChunkCount(|frame|)
    ensures Inv(Add(st, Chunk(frame, idx)).st, frame, s + {idx})
  {
    hide Chunk;
    hide Malformed;
    hide Below;
    ChunkShape(frame, idx);
    SubsetSize(s, AllIndices(frame));
    if idx in s {
      assert s + {idx} == s;
    } else {
      SubsetSize(s + {idx}, AllIndices(frame));
      SpliceKeepsBytes(st.buf, frame, s, idx);
      CountedAfter(st, frame, s, idx);
    }
  }

  lemma CountedAfter(st: Reasm, frame: seq<byte>, s: set<nat>, idx: byte)
    requires 1 <= |frame| <= FRAME_MAX && Counted(st, frame, s) && idx in AllIndices(frame) - s
    ensures Counted(Add(st, Chunk(frame, idx)).st, frame, s + {idx})
  {
    hide Chunk;
    hide Malformed;
    hide Below;
    ChunkShape(frame, idx);
    SubsetSize(s + {idx}, AllIndices(frame));
  }

  lemma CompletedIsFrame(st: Reasm, frame: seq<byte>)
    requires 1 <= |frame| <= FRAME_MAX && Inv(st, frame, AllIndices(frame))
    ensures st.len == |frame| && st.buf[..st.len] == frame
  {
    var last := ChunkCount(|frame|) - 1;
    assert last in AllIndices(frame) && SliceEnd(|frame|, last) == |frame|;
    assert forall j :: 0 <= j < |frame| ==> j / CHUNK_PAYLOAD in AllIndices(frame);
  }

  predicate IsPiece(frame: seq<byte>, d: Delivery) { d.Piece? && d.idx < ChunkCount(|frame|) }

  lemma OthersAreMalformed(frame: seq<byte>, d: Delivery)
    requires !IsPiece(frame, d)
    ensures Malformed(Bytes(frame, d))
  {
  }

  lemma {:induction false} RunKeepsInv(frame: seq<byte>, initial: seq<byte>, ds: seq<Delivery>)
    requires 1 <= |frame| <= FRAME_MAX && |initial| == FRAME_MAX
    ensures Inv(Run(Fresh(initial), frame, ds), frame, Delivered(frame, ds))
    decreases |ds|
  {
    if ds != [] {
      hide Chunk;
      hide Inv;
      hide Malformed;
      var front, d := ds[..|ds| - 1], ds[|ds| - 1];
      assert ds == front + [d];
      RunKeepsInv(frame, initial, front);
      if IsPiece(frame, d) {
        AddKeepsInv(Run(Fresh(initial), frame, front), frame, Delivered(frame, front), d.idx);
        assert Delivered(frame, ds) == Delivered(frame, front) + {d.idx};
      } else {
        OthersAreMalformed(frame, d);
        assert Add(Run(Fresh(initial), frame, front), Bytes(frame, d)).st == Run(Fresh(initial), frame, front);
        assert Delivered(frame, ds) == Delivered(frame, front);
      }
    }
  }

  /** A delivery completes the frame exactly when it brings the last missing index,
      and the buffer then holds the frame. */
  lemma CompletesOnLastMissing(frame: seq<byte>, initial: seq<byte>, ds: seq<Delivery>, k: nat)
    requires 1 <= |frame| <= FRAME_MAX && |initial| == FRAME_MAX && k < |ds|
    ensures var o := At(Fresh(initial), frame, ds, k);
            && (o.done <==> Delivered(frame, ds[..k]) != AllIndices(frame) == Delivered(frame, ds[..k + 1]))
            && (o.done ==> o.outLen == |frame| && o.st.buf[..o.outLen] == frame)
  {
    hide Filled;
    hide Chunk;
    hide Malformed;
    hide Below;
    var s, t := Delivered(frame, ds[..k]), Delivered(frame, ds[..k + 1]);
    assert ds[..k + 1][..k] == ds[..k] && ds[..k + 1][k] == ds[k];
    RunKeepsInv(frame, initial, ds[..k]);
    RunKeepsInv(frame, initial, ds[..k + 1]);
    var st, o := Run(Fresh(initial), frame, ds[..k]), At(Fresh(initial), frame, ds, k);
    assert o.st == Run(Fresh(initial), frame, ds[..k + 1]);
    SubsetSize(t, AllIndices(frame));
    if t == AllIndices(frame) {
      CompletedIsFrame(o.st, frame);
    }
  }

  lemma {:induction false} DeliveredGrows(frame: seq<byte>, ds: seq<Delivery>, j: nat, k: nat)
    requires j <= k <= |ds|
    ensures Delivered(frame, ds[..j]) <= Delivered(frame, ds[..k])
  {
    assert ds[..k][..j] == ds[..j];
    assert forall d :: d in ds[..j] ==> d in ds[..k];
  }

  // The first delivery after which every index has arrived.
  lemma {:induction false} FirstComplete(frame: seq<byte>, ds: seq<Delivery>, n: nat) returns (k: nat)
    requires 1 <= |frame| <= FRAME_MAX && n <= |ds| && Delivered(frame, ds[..n]) == AllIndices(frame)
    ensures k < n && Delivered(frame, ds[..k]) != AllIndices(frame) == Delivered(frame, ds[..k + 1])
    decreases n
  {
    assert n > 0 by {
      assert |AllIndices(frame)| > 0 && ds[..0] == [];
    }
    if Delivered(frame, ds[..n - 1]) == AllIndices(frame) {
      k := FirstComplete(frame, ds, n - 1);
    } else {
      k := n - 1;
    }
  }

  /** Over any deliveries, in any order and with any duplicates, completion is reported
      at most once, and it is reported exactly when every index was delivered. */
  lemma ReportedExactlyOnce(frame: seq<byte>, initial: seq<byte>, ds: seq<Delivery>)
    requires 1 <= |frame| <= FRAME_MAX && |initial| == FRAME_MAX
    ensures (exists k | 0 <= k < |ds| :: At(Fresh(initial), frame, ds, k).done)
              <==> Delivered(frame, ds) == AllIndices(frame)
    ensures forall j, k | 0 <= j < k < |ds| ::
              !(At(Fresh(initial), frame, ds, j).done && At(Fresh(initial), frame, ds, k).done)
  {
    assert ds[..|ds|] == ds;
    forall k | 0 <= k < |ds|
      ensures At(Fresh(initial), frame, ds, k).done ==>
        Delivered(frame, ds[..k]) != AllIndices(frame) == Delivered(frame, ds[..k + 1])
        && Delivered(frame, ds) == AllIndices(frame)
    {
      CompletesOnLastMissing(frame, initial, ds, k);
      DeliveredGrows(frame, ds, k + 1, |ds|);
      RunKeepsInv(frame, initial, ds);
    }
    if Delivered(frame, ds) == AllIndices(frame) {
      var k := FirstComplete(frame, ds, |ds|);
      CompletesOnLastMissing(frame, initial, ds, k);
    }
    forall j, k | 0 <= j < k < |ds| && At(Fresh(initial), frame, ds, j).done
      ensures !At(Fresh(initial), frame, ds, k).done
    {
      DeliveredGrows(frame, ds, j + 1, k);
      RunKeepsInv(frame, initial, ds[..k]);
    }
  }

  // ---- The accumulator in place ----

  predicate Marked(seen: seq<bv8>, i: nat)
    requires |seen| == 32 && i < 256
  {
    Bit(seen[i / 8], i % 8)
  }

  function MarkedSet(seen: seq<bv8>): set<nat>
    requires |seen| == 32
  {
    set i | i in Below(256) && Marked(seen, i)
  }

  lemma MarkedIsMember(seen: seq<bv8>, idx: nat)
    requires |seen| == 32 && idx < 256
    ensures Bit(seen[idx / 8], idx % 8) <==> idx in MarkedSet(seen)
  {
    hide Bit;
    hide Below;
  }

  lemma MarkingAddsOne(seen: seq<bv8>, idx: nat)
    requires |seen| == 32 && idx < 256
    ensures MarkedSet(seen[idx / 8 := seen[idx / 8] | Mask(idx % 8)]) == MarkedSet(seen) + {idx}
  {
    hide Bit;
    hide Mask;
    hide Below;
    var after := seen[idx / 8 := seen[idx / 8] | Mask(idx % 8)];
    forall j: nat | j < 256
      ensures Marked(after, j) <==> j == idx || Marked(seen, j)
    {
      if j / 8 == idx / 8 {
        SetBit(seen[idx / 8], idx % 8, j % 8);
      }
    }
  }

  lemma NothingMarked(seen: seq<bv8>)
    requires |seen| == 32 && forall i :: 0 <= i < 32 ==> seen[i] == 0
    ensures MarkedSet(seen) == {}
  {
    hide Below;
    forall i: nat | i < 256
      ensures !Marked(seen, i)
    {
      ZeroHasNoBit(i % 8);
    }
  }

  class Accumulator {
    var total: byte
    var got: byte
    const seen: array<bv8>
    var len: nat
    const buf: array<byte>

    ghost predicate Valid()
      reads this
    {
      seen.Length == 32 && buf.Length == FRAME_MAX
    }

    ghost function View(): Reasm
      requires Valid()
      reads this, seen, buf
    {
      Reasm(total, got, MarkedSet(seen[..]), len, buf[..])
    }

    constructor ()
      ensures Valid() && fresh(seen) && fresh(buf) && View() == Fresh(buf[..])
    {
      total, got, len := 0, 0, 0;
      seen := new bv8[32](_ => 0);
      buf := new byte[FRAME_MAX](_ => 0);
      new;
      hide MarkedSet, Bit;
      NothingMarked(seen[..]);
    }

    method CopyInto(offset: nat, slice: seq<byte>)
      requires offset + |slice| <= buf.Length
      modifies buf
      ensures buf[..] == old(buf[..offset]) + slice + old(buf[offset + |slice|..])
    {
      for i := 0 to |slice|
        invariant buf[..] == old(buf[..offset]) + slice[..i] + old(buf[offset + i..])
      {
        buf[offset + i] := slice[i];
      }
    }

    method Mark(idx: nat)
      requires seen.Length == 32 && idx < 256
      modifies seen
      ensures MarkedSet(seen[..]) == old(MarkedSet(seen[..])) + {idx}
    {
      hide Mask;
      hide Bit;
      hide MarkedSet;
      MarkingAddsOne(seen[..], idx);
      ghost var was := seen[..];
      seen[idx / 8] := seen[idx / 8] | Mask(idx % 8);
      assert seen[..] == was[idx / 8 := was[idx / 8] | Mask(idx % 8)];
    }

    method AddChunk(chunk: seq<byte>) returns (done: bool, outLen: nat)
      requires Valid()
      modifies this, seen, buf
      ensures Valid() && Outcome(View(), done, outLen) == Add(old(View()), chunk)
    {
      hide Bit;
      hide Mask;
      hide MarkedSet;
      done, outLen := false, 0;
      if |chunk| < CHUNK_HDR + 1 { return; }
      var idx, tot := chunk[0], chunk[1];
      var sliceLen := |chunk| - CHUNK_HDR;
      if tot == 0 || idx >= tot { return; }
      if sliceLen > CHUNK_PAYLOAD { return; }
      if total != 0 && total != tot { return; }
      var offset := idx * CHUNK_PAYLOAD;
      if offset + sliceLen > FRAME_MAX { return; }
      MarkedIsMember(seen[..], idx);
      if Bit(seen[idx / 8], idx % 8) { return; }
      if total == 0 { total := tot; }
      CopyInto(offset, chunk[CHUNK_HDR..]);
      var end := offset + sliceLen;
      if end > len { len := end; }
      Mark(idx);
      got := (got + 1) % 256;
      if got == total { done, outLen := true, len; }
    }

    /** The entry point: null arguments are refused, and the length is written only on completion. */
    static method Reassemble(st: Accumulator?, chunk: Option<seq<byte>>, outLen: Ref?<nat>) returns (done: bool)
      requires st != null ==> st.Valid()
      modifies st, if st == null then {} else {st.seen, st.buf}, outLen
      ensures st == null || chunk.None? || outLen == null ==> !done
      ensures st != null ==> st.Valid()
      ensures st != null && (chunk.None? || outLen == null) ==> st.View() == old(st.View())
      ensures outLen != null && !done ==> outLen.value == old(outLen.value)
      ensures st != null && chunk.Some? && outLen != null ==>
                var o := Add(old(st.View()), chunk.value);
                st.View() == o.st && done == o.done && (done ==> outLen.value == o.outLen)
    {
      if st == null || chunk.None? || outLen == null { return false; }
      var n;
      done, n := st.AddChunk(chunk.value);
      if done { outLen.value := n; }
    }
  }
}
