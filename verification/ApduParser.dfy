/** The command-APDU parser (ISO/IEC 7816-4:2005, section 5.1) and the response it is answered with. */
module ApduParser {
  import opened Wrappers

  /** `le` is the raw expected length, absent when the command asks for none. */
  datatype Parsed = Parsed(cla: byte, ins: byte, p1: byte, p2: byte, data: seq<byte>, le: Option<word>)

  function Big(hi: byte, lo: byte): word { 256 * hi as int + lo }

  function Parse(b: seq<byte>): Option<Parsed> {
    if |b| < 4 then None
    else
      var p := Parsed(b[0], b[1], b[2], b[3], [], None);
      if |b| == 4 then Some(p)
      else if b[4] == 0 && |b| >= 7 then ParseExtended(b, p)
      else if |b| == 5 then Some(p.(le := Some(b[4])))
      else if b[4] == 0 then None
      else
        var end := 5 + b[4] as int;
        if |b| < end then None
        else if |b| == end then Some(p.(data := b[5..end]))
        else if |b| == end + 1 then Some(p.(data := b[5..end], le := Some(b[end])))
        else None
  }

  function ParseExtended(b: seq<byte>, p: Parsed): Option<Parsed>
    requires |b| >= 7
  {
    var ext := Big(b[5], b[6]);
    if |b| == 7 then Some(p.(le := Some(ext)))
    else
      var end := 7 + ext;
      if |b| < end then None
      else if |b| == end then Some(p.(data := b[7..end]))
      else if |b| == end + 2 then Some(p.(data := b[7..end], le := Some(Big(b[end], b[end + 1]))))
      else None
  }

  lemma Within(buf: array<byte>, len: nat, i: nat, j: nat)
    requires i <= j <= len <= buf.Length
    ensures buf[..len][i..j] == buf[i..j]
  {
  }

  /** The command as fields, overwritten in place; they are unspecified when the parser refuses. */
  method ParseInto(buf: array?<byte>, len: nat, out: Ref?<Parsed>) returns (ok: bool)
    requires buf != null ==> len <= buf.Length
    modifies out
    ensures buf == null || out == null ==> !ok
    ensures buf != null && out != null ==> (ok <==> Parse(buf[..len]).Some?)
    ensures ok ==> out.value == Parse(buf[..len]).value
  {
    if buf == null || out == null || len < 4 { return false; }
    var p := Parsed(buf[0], buf[1], buf[2], buf[3], [], None);
    out.value := p;
    if len == 4 { return true; }
    if buf[4] == 0 && len >= 7 {
      var ext := 256 * buf[5] as int + buf[6];
      if len == 7 {
        out.value := p.(le := Some(ext));
        return true;
      }
      var end := 7 + ext;
      if len < end { return false; }
      out.value := p.(data := buf[7..end]);
      Within(buf, len, 7, end);
      if len == end { return true; }
      if len == end + 2 {
        out.value := out.value.(le := Some(256 * buf[end] as int + buf[end + 1]));
        return true;
      }
      return false;
    }
    if len == 5 {
      out.value := p.(le := Some(buf[4]));
      return true;
    }
    if buf[4] == 0 { return false; }
    var end := 5 + buf[4] as int;
    if len < end { return false; }
    out.value := p.(data := buf[5..end]);
    Within(buf, len, 5, end);
    if len == end { return true; }
    if len == end + 1 {
      out.value := out.value.(le := Some(buf[end]));
      return true;
    }
    return false;
  }

  // ---- The forms a command may take ----

  datatype Form =
    | Bare
    | ShortLe(le: byte)
    | ShortData(data: seq<byte>)
    | ShortDataLe(data: seq<byte>, le: byte)
    | ExtendedLe(longLe: word)
    | ExtendedData(data: seq<byte>)
    | ExtendedDataLe(data: seq<byte>, longLe: word)
  {
    predicate Valid() {
      match this
      case ShortData(data) => 1 <= |data| <= 255
      case ShortDataLe(data, _) => 1 <= |data| <= 255
      case ExtendedData(data) => 1 <= |data| < 0x10000
      case ExtendedDataLe(data, _) => |data| < 0x10000
      case _ => true
    }

    function Tail(): seq<byte>
      requires Valid()
    {
      match this
      case Bare => []
      case ShortLe(le) => [le]
      case ShortData(data) => [|data|] + data
      case ShortDataLe(data, le) => [|data|] + data + [le]
      case ExtendedLe(le) => [0, le / 256, le % 256]
      case ExtendedData(data) => [0, |data| / 256, |data| % 256] + data
      case ExtendedDataLe(data, le) => [0, |data| / 256, |data| % 256] + data + [le / 256, le % 256]
    }

    function Data(): seq<byte> {
      if ShortData? || ShortDataLe? || ExtendedData? || ExtendedDataLe? then data else []
    }

    function Le(): Option<word> {
      match this
      case ShortLe(le) => Some(le)
      case ShortDataLe(_, le) => Some(le)
      case ExtendedLe(le) => Some(le)
      case ExtendedDataLe(_, le) => Some(le)
      case _ => None
    }
  }

  function Command(h: seq<byte>, f: Form): seq<byte>
    requires |h| == 4 && f.Valid()
  {
    h + f.Tail()
  }

  lemma BigBytes(n: word)
    ensures Big(n / 256, n % 256) == n
  {
  }

  lemma BigSplits(hi: byte, lo: byte)
    ensures Big(hi, lo) / 256 == hi && Big(hi, lo) % 256 == lo
  {
  }

  /** Round trip: every form is parsed back to its header, data and expected length. */
  lemma FormsParse(h: seq<byte>, f: Form)
    requires |h| == 4 && f.Valid()
    ensures Parse(Command(h, f)) == Some(Parsed(h[0], h[1], h[2], h[3], f.Data(), f.Le()))
  {
    var b := Command(h, f);
    match f
    case Bare =>
    case ShortLe(_) =>
    case ShortData(data) => assert b[5..5 + |data|] == data;
    case ShortDataLe(data, _) => assert b[5..5 + |data|] == data;
    case _ => ExtendedParses(h, f);
  }

  lemma ExtendedParses(h: seq<byte>, f: Form)
    requires |h| == 4 && f.Valid() && (f.ExtendedLe? || f.ExtendedData? || f.ExtendedDataLe?)
    ensures Parse(Command(h, f)) == Some(Parsed(h[0], h[1], h[2], h[3], f.Data(), f.Le()))
  {
    hide Big;
    var b := Command(h, f);
    match f
    case ExtendedLe(le) => BigBytes(le);
    case ExtendedData(data) =>
      BigBytes(|data|);
      assert b[7..7 + |data|] == data;
    case ExtendedDataLe(data, le) =>
      BigBytes(|data|);
      BigBytes(le);
      assert b[7..7 + |data|] == data;
  }

  /** Conversely, whatever is accepted is one of these forms. */
  lemma AcceptedIsForm(b: seq<byte>) returns (f: Form)
    requires Parse(b).Some?
    ensures |b| >= 4 && f.Valid() && b == Command(b[..4], f)
  {
    assert b == b[..4] + b[4..];
    hide ParseExtended;
    if |b| == 4 {
      f := Bare;
    } else if b[4] == 0 && |b| >= 7 {
      f := ExtendedForm(b, Parsed(b[0], b[1], b[2], b[3], [], None));
    } else if |b| == 5 {
      f := ShortLe(b[4]);
    } else if |b| == 5 + b[4] as int {
      f := ShortData(b[5..]);
      assert b[4..] == [b[4]] + b[5..];
    } else {
      f := ShortDataLe(b[5..|b| - 1], b[|b| - 1]);
      assert b[4..] == [b[4]] + b[5..|b| - 1] + [b[|b| - 1]];
    }
  }

  lemma ExtendedForm(b: seq<byte>, p: Parsed) returns (f: Form)
    requires |b| >= 7 && b[4] == 0 && ParseExtended(b, p).Some?
    ensures f.Valid() && b[4..] == f.Tail()
  {
    var ext, hi, lo := Big(b[5], b[6]), b[|b| - 2], b[|b| - 1];
    BigSplits(b[5], b[6]);
    assert |b| == 7 || |b| == 7 + ext as int || |b| == 9 + ext as int;
    hide Big, ParseExtended;
    if |b| == 7 {
      f := ExtendedLe(ext);
    } else if |b| == 7 + ext as int {
      f := ExtendedData(b[7..]);
      assert b[4..] == [0, b[5], b[6]] + b[7..];
    } else {
      BigSplits(hi, lo);
      f := ExtendedDataLe(b[7..|b| - 2], Big(hi, lo));
      assert b[4..] == [0, b[5], b[6]] + b[7..|b| - 2] + [hi, lo];
    }
  }

  // ---- The response ----

  /** Data and status word in a buffer of `max` bytes: the status word is never cut, the data is. */
  function Response(data: seq<byte>, sw: nat, max: nat): seq<byte> {
    if max < 2 then [] else data[..Min(|data|, max - 2)] + [sw / 256 % 256, sw % 256]
  }

  /** What the host reads: as much of the data as fits, and then the status word, its high byte first. */
  lemma StatusIsRead(data: seq<byte>, sw: word, max: nat)
    requires max >= 2
    ensures var r := Response(data, sw, max); var n := |r| - 2;
            && n == (if |data| + 2 <= max then |data| else max - 2)
            && r[..n] == data[..n] && 256 * r[n] as int + r[n + 1] == sw
  {
    var n := Min(|data|, max - 2);
    assert Response(data, sw, max)[..n] == data[..n];
  }

  method Respond(out: array<byte>, data: seq<byte>, sw: nat) returns (n: nat)
    modifies out
    ensures n <= out.Length && out[..n] == Response(data, sw, out.Length)
  {
    if out.Length < 2 { return 0; }
    var len := if |data| + 2 > out.Length then out.Length - 2 else |data|;
    for i := 0 to len
      invariant out[..i] == data[..i]
    {
      out[i] := data[i];
    }
    out[len], out[len + 1] := sw / 256 % 256, sw % 256;
    n := len + 2;
    assert out[..n] == data[..len] + [sw / 256 % 256, sw % 256];
  }
}
