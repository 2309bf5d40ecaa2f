/** The inter-half link: frame encoders and the resynchronising decoder. */
module LinkFrame {
  import opened Crc8
  import opened Wrappers
  import HalfBitmap

  const SOF: byte := 0x4E
  const TYPE_MATRIX: byte := 0x01
  const BITMAP_BYTES := HalfBitmap.BITMAP_BYTES
  const PAYLOAD_CTRL := 2
  const PAYLOAD_MATRIX := 2 + BITMAP_BYTES
  const PAYLOAD_MAX := PAYLOAD_MATRIX
  const FRAME_MAX := 2 + PAYLOAD_MAX + 1
  const FRAME_MIN := 2 + PAYLOAD_CTRL + 1

  datatype Frame = Frame(typ: byte, seqNo: byte, bitmap: seq<byte>)

  datatype Verdict =
    | NeedMore
    | Valid(frame: Frame, consumed: nat)
    | Skip(consumed: nat)

  // ---- The wire format ----

  function Framed(payload: seq<byte>): seq<byte>
    requires |payload| < 256
  {
    [SOF, |payload|] + payload + [Crc([|payload|] + payload)]
  }

  /** What a half sends: its bitmap, or a bare control frame. */
  datatype Message =
    | Matrix(bitmap: seq<byte>, seqNo: byte)
    | Ctrl(typ: byte, seqNo: byte)
  {
    predicate Valid() { Matrix? ==> |bitmap| == BITMAP_BYTES }

    function Encode(): seq<byte>
      requires Valid()
    {
      match this
      case Matrix(bitmap, seqNo) => Framed([TYPE_MATRIX, seqNo] + bitmap)
      case Ctrl(typ, seqNo) => Framed([typ, seqNo])
    }

    /** The frames a receiver is handed: a control frame that claims to be MATRIX has no bitmap and is dropped. */
    function Received(): seq<Frame> {
      match this
      case Matrix(bitmap, seqNo) => [Frame(TYPE_MATRIX, seqNo, bitmap)]
      case Ctrl(typ, seqNo) => if typ == TYPE_MATRIX then [] else [Frame(typ, seqNo, NoBitmap())]
    }
  }

  function NoBitmap(): seq<byte> { seq(BITMAP_BYTES, _ => 0) }

  // ---- The decoder ----

  function Decode(buf: seq<byte>): Verdict {
    if buf == [] then NeedMore
    else if buf[0] != SOF then Skip(1)
    else if |buf| < 2 then NeedMore
    else if buf[1] < PAYLOAD_CTRL || buf[1] > PAYLOAD_MAX then Skip(1)
    else
      var total := 2 + buf[1] + 1;
      if |buf| < total then NeedMore
      else if Crc(buf[1..total - 1]) != buf[total - 1] then Skip(1)
      else if buf[2] == TYPE_MATRIX && buf[1] != PAYLOAD_MATRIX then Skip(total)
      else if buf[2] == TYPE_MATRIX then Valid(Frame(buf[2], buf[3], buf[4..4 + BITMAP_BYTES]), total)
      else Valid(Frame(buf[2], buf[3], NoBitmap()), total)
  }

  lemma DecodeProgress(buf: seq<byte>)
    ensures !Decode(buf).NeedMore? ==> 1 <= Decode(buf).consumed <= |buf|
    ensures Decode(buf).NeedMore? ==> |buf| < FRAME_MAX
  {
  }

  /** A frame has two to six bytes of payload. */
  ghost predicate InFront(payload: seq<byte>, buf: seq<byte>) {
    2 <= |payload| <= 6 && Framed(payload) <= buf
  }

  ghost predicate BegunBy(buf: seq<byte>, payload: seq<byte>) {
    2 <= |payload| <= 6 && buf < Framed(payload)
  }

  lemma FrontIsDecoded(buf: seq<byte>, p: seq<byte>)
    requires InFront(p, buf)
    ensures var n := |p| + 3;
            Decode(buf) == if p[0] != 1 then Valid(Frame(p[0], p[1], [0, 0, 0, 0]), n)
                           else if |p| == 6 then Valid(Frame(1, p[1], p[2..]), n) else Skip(n)
  {
    hide Crc;
    assert forall k :: 0 <= k < |p| ==> buf[2 + k] == Framed(p)[2 + k] == p[k];
    assert buf[1..|p| + 2] == [|p|] + p && buf[|p| + 2] == Framed(p)[|p| + 2];
    assert |p| == 6 ==> buf[4..8] == p[2..];
    assert NoBitmap() == [0, 0, 0, 0];
  }

  lemma DecodedIsInFront(buf: seq<byte>) returns (p: seq<byte>)
    requires Decode(buf).Valid? || (Decode(buf).Skip? && Decode(buf).consumed > 1)
    ensures InFront(p, buf)
  {
    hide Crc;
    p := buf[2..2 + buf[1]];
    assert buf[1..2 + buf[1]] == [buf[1]] + p;
    assert buf[..3 + buf[1]] == Framed(p);
  }

  lemma WaitingIsBegun(buf: seq<byte>) returns (p: seq<byte>)
    requires Decode(buf).NeedMore?
    ensures BegunBy(buf, p)
  {
    hide Crc;
    if |buf| < 2 {
      p := [0, 0];
    } else if |buf| == buf[1] as int + 2 {
      p := buf[2..];
    } else {
      p := buf[2..] + seq(buf[1] as int + 2 - |buf|, _ => 0);
    }
    var f := Framed(p);
    assert buf == f[..|buf|];
  }

  /** The decoder waits exactly while the bytes are the beginning of some frame. It consumes a frame exactly when one
      stands in front, and hands it over unless it says MATRIX and is not six bytes long. Anything else costs one
      byte. */
  lemma VerdictMeans(buf: seq<byte>)
    ensures Decode(buf).NeedMore? <==> exists p :: BegunBy(buf, p)
    ensures forall p :: InFront(p, buf) ==>
              Decode(buf) == if p[0] != 1 then Valid(Frame(p[0], p[1], [0, 0, 0, 0]), |p| + 3)
                             else if |p| == 6 then Valid(Frame(1, p[1], p[2..]), |p| + 3) else Skip(|p| + 3)
    ensures (forall p :: !BegunBy(buf, p) && !InFront(p, buf)) ==> Decode(buf) == Skip(1)
  {
    if Decode(buf).NeedMore? {
      var p := WaitingIsBegun(buf);
    } else if Decode(buf) != Skip(1) {
      DecodeProgress(buf);
      var p := DecodedIsInFront(buf);
    }
    forall p | BegunBy(buf, p)
      ensures Decode(buf).NeedMore?
    {
      assert forall k :: 0 <= k < |buf| ==> buf[k] == Framed(p)[k];
    }
    forall p | InFront(p, buf)
      ensures Decode(buf) == if p[0] != 1 then Valid(Frame(p[0], p[1], [0, 0, 0, 0]), |p| + 3)
                             else if |p| == 6 then Valid(Frame(1, p[1], p[2..]), |p| + 3) else Skip(|p| + 3)
    {
      FrontIsDecoded(buf, p);
    }
  }

  datatype Drained = Drained(frames: seq<Frame>, rest: seq<byte>)

  /** The resynchronising loop: decode from the front until more bytes are needed. */
  function Drain(buf: seq<byte>): Drained
    decreases |buf|
  {
    DecodeProgress(buf);
    match Decode(buf)
    case NeedMore => Drained([], buf)
    case Skip(n) => Drain(buf[n..])
    case Valid(f, n) => var d := Drain(buf[n..]); Drained([f] + d.frames, d.rest)
  }

  // ---- Properties of the stream ----

  /** The loop stops on an undecided suffix shorter than the longest frame: at most eight bytes. */
  lemma {:induction false} DrainResidue(buf: seq<byte>)
    ensures var r := Drain(buf).rest;
            |r| <= 8 && |r| <= |buf| && r == buf[|buf| - |r|..] && Decode(r).NeedMore?
    decreases |buf|
  {
    DecodeProgress(buf);
    var v := Decode(buf);
    if !v.NeedMore? { DrainResidue(buf[v.consumed..]); }
  }

  /** A verdict is final: later bytes never change it. */
  lemma DecodeStable(buf: seq<byte>, more: seq<byte>)
    requires !Decode(buf).NeedMore?
    ensures Decode(buf + more) == Decode(buf)
  {
    hide Crc;
    if buf[0] == SOF && PAYLOAD_CTRL <= buf[1] <= PAYLOAD_MAX {
      var total := 2 + buf[1] + 1;
      assert (buf + more)[1..total - 1] == buf[1..total - 1];
      assert buf[1] == PAYLOAD_MATRIX ==> (buf + more)[4..4 + BITMAP_BYTES] == buf[4..4 + BITMAP_BYTES];
    }
  }

  /** Draining in two pieces is draining at once. */
  lemma {:induction false} DrainSplit(a: seq<byte>, b: seq<byte>)
    ensures var d := Drain(a); var e := Drain(d.rest + b);
            Drain(a + b) == Drained(d.frames + e.frames, e.rest)
    decreases |a|
  {
    hide Decode;
    DecodeProgress(a);
    var v := Decode(a);
    if v.NeedMore? {
      assert [] + Drain(a + b).frames == Drain(a + b).frames;
    } else {
      DecodeStable(a, b);
      assert (a + b)[v.consumed..] == a[v.consumed..] + b;
      DrainSplit(a[v.consumed..], b);
      if v.Valid? {
        var d := Drain(a[v.consumed..]);
        var e := Drain(d.rest + b);
        assert [v.frame] + (d.frames + e.frames) == [v.frame] + d.frames + e.frames;
      }
    }
  }

  /** A receiver that keeps its undecided bytes from one reception to the next. */
  function Feed(pending: seq<byte>, chunks: seq<seq<byte>>): Drained
    decreases |chunks|
  {
    if chunks == [] then Drained([], pending)
    else
      var d := Drain(pending + chunks[0]);
      var e := Feed(d.rest, chunks[1..]);
      Drained(d.frames + e.frames, e.rest)
  }

  lemma {:induction false} FeedIsDrain(pending: seq<byte>, chunks: seq<seq<byte>>)
    requires Decode(pending).NeedMore?
    ensures Feed(pending, chunks) == Drain(pending + Concat(chunks))
    decreases |chunks|
  {
    hide Decode;
    if chunks == [] {
      assert pending + [] == pending;
    } else {
      var d := Drain(pending + chunks[0]);
      DrainResidue(pending + chunks[0]);
      FeedIsDrain(d.rest, chunks[1..]);
      DrainSplit(pending + chunks[0], Concat(chunks[1..]));
      assert pending + chunks[0] + Concat(chunks[1..]) == pending + Concat(chunks);
    }
  }

  /** The frames, and the bytes left over, do not depend on how the stream is cut. */
  lemma CutsDoNotMatter(chunks: seq<seq<byte>>, others: seq<seq<byte>>)
    requires Concat(chunks) == Concat(others)
    ensures Feed([], chunks) == Feed([], others)
  {
    FeedIsDrain([], chunks);
    FeedIsDrain([], others);
  }

  // ---- Round trip through noise ----

  /** A frame, and the line noise that came before it. */
  datatype Burst = Burst(noise: seq<byte>, message: Message)

  ghost predicate Plausible(b: Burst) { SOF !in b.noise && b.message.Valid() }

  ghost function Stream(bursts: seq<Burst>): seq<byte>
    requires forall b :: b in bursts ==> Plausible(b)
  {
    if bursts == [] then []
    else
      assert Plausible(bursts[0]);
      bursts[0].noise + bursts[0].message.Encode() + Stream(bursts[1..])
  }

  ghost function Expected(bursts: seq<Burst>): seq<Frame> {
    if bursts == [] then [] else bursts[0].message.Received() + Expected(bursts[1..])
  }

  lemma {:induction false} NoiseIsSkipped(noise: seq<byte>, buf: seq<byte>)
    requires SOF !in noise
    ensures Drain(noise + buf) == Drain(buf)
    decreases |noise|
  {
    if noise == [] {
      assert noise + buf == buf;
    } else {
      assert (noise + buf)[1..] == noise[1..] + buf;
      NoiseIsSkipped(noise[1..], buf);
    }
  }

  lemma DecodeEncoded(m: Message, more: seq<byte>)
    requires m.Valid()
    ensures var e := m.Encode();
            Decode(e + more) == if m.Received() == [] then Skip(|e|) else Valid(m.Received()[0], |e|)
  {
    hide Crc;
    var e := m.Encode();
    var payload := if m.Matrix? then [TYPE_MATRIX, m.seqNo] + m.bitmap else [m.typ, m.seqNo];
    assert e[1..|e| - 1] == [|payload|] + payload;
    assert m.Matrix? ==> e[4..4 + BITMAP_BYTES] == m.bitmap;
    DecodeStable(e, more);
  }

  /** Any concatenation of encoded frames, with noise free of start bytes before each, is read back exactly. */
  lemma {:induction false} StreamRoundTrip(bursts: seq<Burst>)
    requires forall b :: b in bursts ==> Plausible(b)
    ensures Drain(Stream(bursts)) == Drained(Expected(bursts), [])
  {
    if bursts != [] {
      hide Decode;
      assert Plausible(bursts[0]);
      var e, more := bursts[0].message.Encode(), Stream(bursts[1..]);
      assert bursts[0].noise + e + more == bursts[0].noise + (e + more);
      NoiseIsSkipped(bursts[0].noise, e + more);
      DecodeEncoded(bursts[0].message, more);
      assert (e + more)[|e|..] == more;
      StreamRoundTrip(bursts[1..]);
    }
  }

  /** Conversely a MATRIX frame, or a minimal one, is only ever decoded from its own encoding. */
  lemma DecodedIsEncoded(buf: seq<byte>)
    ensures match Decode(buf)
            case Valid(f, n) =>
              (f.typ == TYPE_MATRIX ==> buf[..n] == Matrix(f.bitmap, f.seqNo).Encode()) &&
              (n == FRAME_MIN ==> buf[..n] == Ctrl(f.typ, f.seqNo).Encode())
            case _ => true
  {
    hide Crc;
    if !Decode(buf).Valid? { return; }
    var Valid(f, n) := Decode(buf);
    assert buf[1..n - 1] == [buf[1]] + buf[2..n - 1];
    assert buf[..n] == [SOF, buf[1]] + buf[2..n - 1] + [buf[n - 1]];
    if f.typ == TYPE_MATRIX {
      assert buf[2..n - 1] == [TYPE_MATRIX, f.seqNo] + f.bitmap;
    } else if n == FRAME_MIN {
      assert buf[2..n - 1] == [f.typ, f.seqNo];
    }
  }

  lemma AlteredChecksum(e: seq<byte>, k: nat, x: byte)
    requires |e| >= 4 && 2 <= k < |e| && x != e[k] && e[|e| - 1] == Crc(e[1..|e| - 1])
    ensures var bad := e[k := x]; Crc(bad[1..|e| - 1]) != bad[|e| - 1]
  {
    hide Crc;
    var bad, last := e[k := x], |e| - 1;
    if k == last {
      assert bad[1..last] == e[1..last];
    } else {
      assert e[1..last] == e[1..k] + [e[k]] + e[k + 1..last];
      assert bad[1..last] == e[1..k] + [x] + e[k + 1..last];
      OneByteChangesCrc(e[1..k], e[k], x, e[k + 1..last]);
    }
  }

  /** One altered byte after the length byte: the decoder gives up one byte only. */
  lemma AlteredFrameIsSkipped(m: Message, k: nat, x: byte, more: seq<byte>)
    requires m.Valid() && 2 <= k
    ensures var e := m.Encode();
            k < |e| && e[k] != x ==> Decode(e[k := x] + more) == Skip(1)
  {
    hide Crc;
    var e := m.Encode();
    if k >= |e| || e[k] == x { return; }
    var payload := if m.Matrix? then [TYPE_MATRIX, m.seqNo] + m.bitmap else [m.typ, m.seqNo];
    assert e[1..|e| - 1] == [|payload|] + payload;
    AlteredChecksum(e, k, x);
    DecodeStable(e[k := x], more);
  }

  // ---- In place ----

  /** `None` stands for a null bitmap. */
  method EncodeMatrix(buf: array?<byte>, given: Option<seq<byte>>, seqNo: byte) returns (n: nat)
    requires buf != null ==> buf.Length >= FRAME_MAX
    requires given.Some? ==> |given.value| == BITMAP_BYTES
    modifies buf
    ensures buf == null || given.None? ==> n == 0
    ensures buf != null && given.None? ==> buf[..] == old(buf[..])
    ensures buf != null && given.Some? ==> n == FRAME_MAX && buf[..n] == Matrix(given.value, seqNo).Encode()
    ensures buf != null && given.Some? ==>
              buf[..n] == [0x4E, 6, 1, seqNo] + given.value + [Crc([6, 1, seqNo] + given.value)]
    ensures buf != null ==> buf[FRAME_MAX..] == old(buf[FRAME_MAX..])
  {
    hide Crc;
    if buf == null || given.None? { return 0; }
    var bitmap := given.value;
    buf[0], buf[1], buf[2], buf[3] := SOF, PAYLOAD_MATRIX, TYPE_MATRIX, seqNo;
    for i := 0 to BITMAP_BYTES
      invariant buf[0] == SOF && buf[1] == PAYLOAD_MATRIX && buf[2] == TYPE_MATRIX && buf[3] == seqNo
      invariant forall j :: 0 <= j < i ==> buf[4 + j] == bitmap[j]
      invariant buf[FRAME_MAX..] == old(buf[FRAME_MAX..])
    {
      buf[4 + i] := bitmap[i];
    }
    var crc := ComputeCrc(buf, 1, 1 + PAYLOAD_MATRIX);
    assert buf[1..FRAME_MAX - 1] == [PAYLOAD_MATRIX] + ([TYPE_MATRIX, seqNo] + bitmap);
    assert [PAYLOAD_MATRIX] + ([TYPE_MATRIX, seqNo] + bitmap) == [6, 1, seqNo] + bitmap;
    buf[FRAME_MAX - 1] := crc;
    n := FRAME_MAX;
  }

  method EncodeCtrl(buf: array?<byte>, typ: byte, seqNo: byte) returns (n: nat)
    requires buf != null ==> buf.Length >= FRAME_MIN
    modifies buf
    ensures buf == null ==> n == 0
    ensures buf != null ==> n == FRAME_MIN && buf[..n] == Ctrl(typ, seqNo).Encode()
    ensures buf != null ==> buf[..n] == [0x4E, 2, typ, seqNo, Crc([2, typ, seqNo])]
    ensures buf != null ==> buf[FRAME_MIN..] == old(buf[FRAME_MIN..])
  {
    hide Crc;
    if buf == null { return 0; }
    buf[0], buf[1], buf[2], buf[3] := SOF, PAYLOAD_CTRL, typ, seqNo;
    var crc := ComputeCrc(buf, 1, 1 + PAYLOAD_CTRL);
    assert buf[1..FRAME_MIN - 1] == [PAYLOAD_CTRL] + [typ, seqNo];
    assert [PAYLOAD_CTRL] + [typ, seqNo] == [2, typ, seqNo];
    buf[FRAME_MIN - 1] := crc;
    n := FRAME_MIN;
  }

  datatype Status = NEED_MORE | FRAME | SKIP

  method DecodeInto(buf: array?<byte>, len: nat, out: Ref?<Frame>, consumed: Ref?<nat>) returns (status: Status)
    requires buf != null ==> len <= buf.Length
    modifies out, consumed
    ensures buf == null || out == null || consumed == null ==> status == NEED_MORE
    ensures consumed != null && (buf == null || out == null) ==> consumed.value == 0
    ensures out != null && status != FRAME ==> out.value == old(out.value)
    ensures buf != null && out != null && consumed != null ==>
      match Decode(buf[..len])
      case NeedMore => status == NEED_MORE && consumed.value == 0
      case Skip(n) => status == SKIP && consumed.value == n
      case Valid(f, n) => status == FRAME && consumed.value == n && out.value == f
  {
    hide Crc;
    status := NEED_MORE;
    if consumed != null { consumed.value := 0; }
    if buf == null || out == null || consumed == null || len == 0 { return; }
    if buf[0] != SOF {
      consumed.value := 1;
      return SKIP;
    }
    if len < 2 { return; }
    var payloadLen := buf[1];
    if payloadLen < PAYLOAD_CTRL || payloadLen > PAYLOAD_MAX {
      consumed.value := 1;
      return SKIP;
    }
    var total := 2 + payloadLen + 1;
    if len < total { return; }
    var crc := ComputeCrc(buf, 1, 1 + payloadLen);
    assert buf[..len][1..total - 1] == buf[1..1 + (1 + payloadLen)];
    if crc != buf[total - 1] {
      consumed.value := 1;
      return SKIP;
    }
    consumed.value := total;
    var typ := buf[2];
    if typ == TYPE_MATRIX && payloadLen != PAYLOAD_MATRIX { return SKIP; }
    out.value := Frame(typ, buf[3], if typ == TYPE_MATRIX then buf[4..4 + BITMAP_BYTES] else NoBitmap());
    assert typ == TYPE_MATRIX ==> buf[..len][4..4 + BITMAP_BYTES] == buf[4..4 + BITMAP_BYTES];
    status := FRAME;
  }
}
