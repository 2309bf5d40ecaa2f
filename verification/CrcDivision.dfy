/** The checksum as a remainder: polynomials over two elements, as their coefficients from the highest down. */
module CrcDivision {
  import opened Crc8
  import opened Wrappers

  type Poly = seq<bool>

  /** x^8 + x^5 + x^4 + 1, that is 0x131. */
  const DIVISOR: Poly := [true, false, false, true, true, false, false, false, true]

  function Zero(n: nat): (r: Poly)
    ensures |r| == n && forall i :: 0 <= i < n ==> !r[i]
  {
    seq(n, _ => false)
  }

  function Sum(a: Poly, b: Poly): (r: Poly)
    requires |a| == |b|
    ensures |r| == |a| && forall i :: 0 <= i < |r| ==> r[i] == (a[i] != b[i])
  {
    seq(|a|, i requires 0 <= i < |a| => a[i] != b[i])
  }

  function Scaled(t: bool): (r: Poly)
    ensures |r| == 9
  {
    if t then DIVISOR else Zero(9)
  }

  /** Schoolbook multiplication without carries: shifted copies of the divisor, one for each coefficient of `q`. */
  function Product(q: Poly): (r: Poly)
    ensures |r| == |q| + 8
  {
    if q == [] then Zero(8)
    else
      var n := |q| - 1;
      Sum(Product(q[..n]) + [false], Zero(n) + Scaled(q[n]))
  }

  /** The low `k` bits of a number, the highest first. */
  function Low(a: nat, k: nat): (r: Poly)
    ensures |r| == k
  {
    if k == 0 then [] else Low(a / 2, k - 1) + [a % 2 == 1]
  }

  function Message(m: seq<byte>): (r: Poly)
    ensures |r| == 8 * |m|
  {
    if m == [] then [] else Message(m[..|m| - 1]) + Low(m[|m| - 1], 8)
  }

  // ---- Bits of bytes ----

  lemma LowUnfold(a: nat, k: nat)
    requires k > 0
    ensures Low(a, k) == Low(a / 2, k - 1) + [a % 2 == 1]
  {
  }

  lemma SumSnoc(a: Poly, b: Poly, x: bool, y: bool)
    requires |a| == |b|
    ensures Sum(a + [x], b + [y]) == Sum(a, b) + [x != y]
  {
  }

  lemma {:induction false} LowOfXor(a: nat, b: nat, k: nat)
    ensures Low(XorBits(a, b, k), k) == Sum(Low(a, k), Low(b, k))
    decreases k
  {
    if k > 0 {
      var x := XorBits(a, b, k);
      LowOfXor(a / 2, b / 2, k - 1);
      LowUnfold(a, k);
      LowUnfold(b, k);
      LowUnfold(x, k);
      assert x / 2 == XorBits(a / 2, b / 2, k - 1) && x % 2 == (a + b) % 2;
      SumSnoc(Low(a / 2, k - 1), Low(b / 2, k - 1), a % 2 == 1, b % 2 == 1);
      hide Low, Sum, XorBits;
    }
  }

  lemma {:induction false} HighestBit(a: nat, k: nat)
    requires a < 2 * Pow2(k)
    ensures Low(a, k + 1) == [a >= Pow2(k)] + Low(if a >= Pow2(k) then a - Pow2(k) else a, k)
    decreases k
  {
    var rest := if a >= Pow2(k) then a - Pow2(k) else a;
    if k == 0 {
      assert Low(a, 1) == Low(a / 2, 0) + [a % 2 == 1];
    } else {
      HighestBit(a / 2, k - 1);
      assert Low(rest, k) == Low(rest / 2, k - 1) + [rest % 2 == 1];
      assert [a >= Pow2(k)] + Low(rest / 2, k - 1) + [rest % 2 == 1] == [a >= Pow2(k)] + Low(rest, k);
    }
  }

  lemma {:induction false} LowInjective(a: nat, b: nat, k: nat)
    requires a < Pow2(k) && b < Pow2(k) && Low(a, k) == Low(b, k)
    ensures a == b
    decreases k
  {
    if k > 0 {
      var x, y := Low(a, k), Low(b, k);
      assert x[..k - 1] == Low(a / 2, k - 1) && y[..k - 1] == Low(b / 2, k - 1);
      assert x[k - 1] == (a % 2 == 1) && y[k - 1] == (b % 2 == 1);
      LowInjective(a / 2, b / 2, k - 1);
    }
  }

  // ---- Products ----

  lemma ProductLast(q: Poly, t: bool)
    ensures Product(q + [t]) == Sum(Product(q) + [false], Zero(|q|) + Scaled(t))
  {
    assert (q + [t])[..|q|] == q && (q + [t])[|q|] == t;
  }

  lemma {:induction false} ProductConcat(q: Poly, r: Poly)
    ensures Product(q + r) == Sum(Product(q) + Zero(|r|), Zero(|q|) + Product(r))
    decreases |r|
  {
    if r == [] {
      assert q + r == q;
    } else {
      var n := |r| - 1;
      var front, last := r[..n], r[n];
      assert r == front + [last] && q + r == q + front + [last];
      ProductConcat(q, front);
      ProductLast(q + front, last);
      ProductLast(front, last);
      hide Product;
      SumsAssociate(Product(q), Product(front), |q|, n, Scaled(last));
    }
  }

  /** Adding one more shifted copy commutes with the shift of the factor in front. */
  lemma SumsAssociate(a: Poly, b: Poly, m: nat, n: nat, d: Poly)
    requires |a| == m + 8 && |b| == n + 8 && |d| == 9
    ensures Sum(Sum(a + Zero(n), Zero(m) + b) + [false], Zero(m + n) + d)
            == Sum(a + Zero(n + 1), Zero(m) + Sum(b + [false], Zero(n) + d))
  {
    var x, y := Sum(a + Zero(n), Zero(m) + b) + [false], Sum(b + [false], Zero(n) + d);
    var left, right := Sum(x, Zero(m + n) + d), Sum(a + Zero(n + 1), Zero(m) + y);
    forall i | 0 <= i < |left|
      ensures left[i] == right[i]
    {
      assert (Zero(m) + y)[i] == if i < m then false else y[i - m];
    }
  }

  /** The highest coefficient of a product stands where that of the quotient does. */
  lemma {:induction false} FirstCoefficient(q: Poly, i: nat)
    requires i < |q| && q[i] && forall j :: 0 <= j < i ==> !q[j]
    ensures Product(q)[i]
    decreases |q|
  {
    var n := |q| - 1;
    if i < n {
      FirstCoefficient(q[..n], i);
    } else {
      assert forall j :: 0 <= j < n ==> !q[..n][j];
      ProductOfZero(q[..n]);
    }
  }

  lemma {:induction false} ProductOfZero(q: Poly)
    requires forall j :: 0 <= j < |q| ==> !q[j]
    ensures Product(q) == Zero(|q| + 8)
  {
    if q != [] { ProductOfZero(q[..|q| - 1]); }
  }

  lemma ProductUnfold(q: Poly)
    requires q != []
    ensures var n := |q| - 1; Product(q) == Sum(Product(q[..n]) + [false], Zero(n) + Scaled(q[n]))
  {
  }

  lemma SumOfFronts(q: Poly, r: Poly)
    requires |q| == |r| > 0
    ensures var e, n := Sum(q, r), |q| - 1; e[..n] == Sum(q[..n], r[..n]) && e[n] == (q[n] != r[n])
  {
  }

  lemma {:induction false} ProductOfSum(q: Poly, r: Poly)
    requires |q| == |r|
    ensures Product(Sum(q, r)) == Sum(Product(q), Product(r))
  {
    if q == [] {
      assert Sum(q, r) == [];
    } else {
      var n := |q| - 1;
      ProductOfSum(q[..n], r[..n]);
      ProductUnfold(q);
      ProductUnfold(r);
      ProductUnfold(Sum(q, r));
      SumOfFronts(q, r);
      hide Product, Sum, Zero, Scaled;
      SumsMix(Product(q[..n]), Product(r[..n]), n, q[n], r[n]);
    }
  }

  lemma SumsMix(a: Poly, b: Poly, n: nat, x: bool, y: bool)
    requires |a| == |b| == n + 8
    ensures Sum(Sum(a, b) + [false], Zero(n) + Scaled(x != y))
            == Sum(Sum(a + [false], Zero(n) + Scaled(x)), Sum(b + [false], Zero(n) + Scaled(y)))
  {
    var d, e, f := Zero(n) + Scaled(x), Zero(n) + Scaled(y), Zero(n) + Scaled(x != y);
    assert forall i :: 0 <= i < |f| ==> f[i] == (d[i] != e[i]);
  }

  // ---- The register divides ----

  /** `dividend` leaves the remainder `r` with quotient `q`. */
  predicate Leaves(dividend: Poly, q: Poly, r: byte) {
    |dividend| == |q| + 8 && dividend == Sum(Product(q), Zero(|q|) + Low(r, 8))
  }

  lemma Cancelled(t: Poly)
    requires |t| == 8
    ensures [true] + t == Sum(DIVISOR, [false] + Sum(t, DIVISOR[1..]))
    ensures [false] + t == Sum(Zero(9), [false] + t)
  {
  }

  lemma OneStep(v: byte)
    ensures Low(v, 8) + [false] == Sum(Scaled(v >= 0x80), [false] + Low(ShiftBit(v), 8))
  {
    assert Pow2(7) == 128;
    HighestBit(v, 7);
    var w := if v >= 0x80 then v - 0x80 else v;
    assert (2 * w) / 2 == w && (2 * w) % 2 == 0;
    LowUnfold(2 * w, 8);
    Cancelled(Low(2 * w, 8));
    assert [v >= 0x80] + Low(w, 7) + [false] == [v >= 0x80] + (Low(w, 7) + [false]);
    if v >= 0x80 {
      assert 2 * v % 256 == 2 * w;
      LowOfXor(2 * w, 0x31, 8);
      DivisorBits();
    }
    hide Low, Sum, Zero, XorBits;
  }

  lemma DivisorBits()
    ensures Low(0x31, 8) == DIVISOR[1..]
  {
    assert Low(0, 0) == [] && Low(0, 1) == [false] && Low(0, 2) == [false, false];
    assert Low(1, 3) == [false, false, true] && Low(3, 4) == [false, false, true, true];
    assert Low(6, 5) == [false, false, true, true, false];
    assert Low(12, 6) == [false, false, true, true, false, false];
    assert Low(24, 7) == [false, false, true, true, false, false, false];
  }

  lemma OneShift(v: byte)
    ensures Leaves(Low(v, 8) + [false], [v >= 0x80], ShiftBit(v))
  {
    OneStep(v);
    hide Low, ShiftBit;
    ProductLast([], v >= 0x80);
    assert [] + [v >= 0x80] == [v >= 0x80];
    var d := Scaled(v >= 0x80);
    assert Product([]) == Zero(8) && Zero(8) + [false] == Zero(9) && Zero(0) + d == d;
    assert Sum(Zero(9), d) == d;
    assert Zero(1) == [false];
  }

  /** Long division goes on with what is left: q with remainder r, then p. */
  lemma BringDown(d: Poly, q: Poly, r: byte, more: Poly, p: Poly, s: byte)
    requires Leaves(d, q, r) && |more| == |p| && Leaves(Low(r, 8) + more, p, s)
    ensures Leaves(d + more, q + p, s)
  {
    hide Low;
    ProductConcat(q, p);
    hide Product;
    var n, x := |q|, Low(s, 8);
    forall i | 0 <= i < |d + more|
      ensures (d + more)[i] == Sum(Product(q + p), Zero(|q + p|) + x)[i]
    {
      assert (Low(r, 8) + more) == Sum(Product(p), Zero(|p|) + x);
      if i < n {
        assert (Zero(n) + Product(p))[i] == false;
        assert (Zero(n) + Low(r, 8))[i] == false;
      } else {
        assert (Zero(n) + Product(p))[i] == Product(p)[i - n];
        assert (Low(r, 8) + more)[i - n] == (Product(p)[i - n] != (Zero(|p|) + x)[i - n]);
        if i < |d| { assert (Zero(n) + Low(r, 8))[i] == Low(r, 8)[i - n]; }
      }
    }
  }

  /** The shifts divide one byte followed by as many zeros. */
  lemma {:induction false} Shifts(v: byte, k: nat) returns (q: Poly)
    ensures |q| == k && Leaves(Low(v, 8) + Zero(k), q, ShiftBits(v, k))
    decreases k
  {
    if k == 0 {
      q := [];
      assert Low(v, 8) + Zero(0) == Sum(Zero(8), Zero(0) + Low(v, 8));
    } else {
      OneShift(v);
      var p := Shifts(ShiftBit(v), k - 1);
      hide Leaves, Low, ShiftBit;
      BringDown(Low(v, 8) + [false], [v >= 0x80], ShiftBit(v), Zero(k - 1), p, ShiftBits(v, k));
      q := [v >= 0x80] + p;
      assert Low(v, 8) + [false] + Zero(k - 1) == Low(v, 8) + Zero(k);
    }
  }

  /** Bits added where zeros stood. */
  lemma AddedByte(d: Poly, q: Poly, r: byte, b: byte)
    requires Leaves(d + Zero(8), q, r)
    ensures Leaves(d + Low(b, 8), q, Xor(r, b))
  {
    assert Pow2(8) == 256;
    LowOfXor(r, b, 8);
    hide Low, Product, XorBits;
    forall i | 0 <= i < |d| + 8
      ensures (d + Low(b, 8))[i] == Sum(Product(q), Zero(|q|) + Low(Xor(r, b), 8))[i]
    {
      assert (d + Zero(8))[i] == Sum(Product(q), Zero(|q|) + Low(r, 8))[i];
    }
  }

  /** The register is the remainder of the message, followed by eight zeros, divided by the polynomial. */
  lemma {:induction false} Division(m: seq<byte>) returns (q: Poly)
    ensures |q| == 8 * |m| && Leaves(Message(m) + Zero(8), q, Crc(m))
  {
    if m == [] {
      q := [];
      assert Low(0, 8) == Zero(8) by { ZeroBits(8); }
      assert Message(m) + Zero(8) == Sum(Zero(8), Zero(0) + Zero(8));
    } else {
      var front, b := m[..|m| - 1], m[|m| - 1];
      var p := Division(front);
      var v := Xor(Crc(front), b);
      AddedByte(Message(front), p, Crc(front), b);
      var more := Shifts(v, 8);
      hide Leaves, Low, Xor, ShiftBits;
      BringDown(Message(m), p, v, Zero(8), more, ShiftBits(v, 8));
      q := p + more;
      assert m == front + [b];
      LastByte(front, b);
    }
  }

  lemma LastByte(front: seq<byte>, b: byte)
    ensures Crc(front + [b]) == ShiftBits(Xor(Crc(front), b), 8)
  {
    RegisterConcat(0, front, [b]);
    assert [b][1..] == [];
    hide Xor, ShiftBits;
  }

  lemma {:induction false} ZeroBits(k: nat)
    ensures Low(0, k) == Zero(k)
    decreases k
  {
    if k > 0 { ZeroBits(k - 1); }
  }

  /** The checksum of a message is its remainder: the message followed by eight zeros is a multiple of the polynomial
      x^8 + x^5 + x^4 + 1, but for the eight bits of the checksum. */
  lemma CrcIsRemainder(m: seq<byte>)
    ensures exists q :: |q| == 8 * |m| && Message(m) + Zero(8) == Sum(Product(q), Zero(8 * |m|) + Low(Crc(m), 8))
  {
    var q := Division(m);
    hide Low, Product, Message;
    assert |q| == 8 * |m| && Message(m) + Zero(8) == Sum(Product(q), Zero(8 * |m|) + Low(Crc(m), 8));
  }

  // ---- Codewords ----

  lemma NoRemainder(d: Poly, q: Poly)
    requires Leaves(d, q, 0)
    ensures d == Product(q)
  {
    ZeroBits(8);
    assert Sum(Product(q), Zero(|q|) + Zero(8)) == Product(q);
  }

  /** A message followed by one byte is a multiple of the polynomial if and only if that byte is the checksum. */
  lemma CodewordsAreMultiples(m: seq<byte>, b: byte)
    ensures (exists q :: |q| == 8 * |m| && Message(m + [b]) == Product(q)) <==> b == Crc(m)
  {
    var q := Division(m);
    var r := Xor(Crc(m), b);
    AddedByte(Message(m), q, Crc(m), b);
    assert (m + [b])[..|m|] == m;
    assert Leaves(Message(m + [b]), q, r);
    SameByte(Crc(m), b);
    hide Crc, Low, Message, Xor, Leaves, Product;
    if r == 0 { NoRemainder(Message(m + [b]), q); }
    if p :| |p| == 8 * |m| && Message(m + [b]) == Product(p) { NoSmallMultiple(Message(m + [b]), q, r, p); }
  }

  lemma SameByte(a: byte, b: byte)
    ensures Xor(a, b) == 0 <==> a == b
  {
    assert Pow2(8) == 256;
    XorBitsSelf(b, 8);
    if Xor(a, b) == 0 { XorInjective(a, b, b); }
  }

  /** What is a multiple already leaves nothing. */
  lemma NoSmallMultiple(d: Poly, q: Poly, r: byte, p: Poly)
    requires Leaves(d, q, r) && |p| == |q| && d == Product(p)
    ensures r == 0
  {
    var e, low := Sum(p, q), Zero(|q|) + Low(r, 8);
    ProductOfSum(p, q);
    ProductLeft(p, q, low);
    hide Low, Product, Sum, Zero, Leaves;
    NoHighPart(e);
    ProductOfZero(e);
    NothingLeft(|q|, r);
  }

  lemma NothingLeft(n: nat, r: byte)
    requires Zero(n) + Low(r, 8) == Zero(n + 8)
    ensures r == 0
  {
    hide Low;
    var low := Zero(n) + Low(r, 8);
    assert low[n..] == Low(r, 8) && Zero(n + 8)[n..] == Zero(8);
    ZeroBits(8);
    assert Pow2(8) == 256;
    LowInjective(r, 0, 8);
  }

  /** A product of degree under eight comes from nothing. */
  lemma NoHighPart(e: Poly)
    requires forall i :: 0 <= i < |e| ==> !Product(e)[i]
    ensures forall j :: 0 <= j < |e| ==> !e[j]
  {
    hide Product;
    if !forall j :: 0 <= j < |e| ==> !e[j] {
      var i := FirstOne(e);
      FirstCoefficient(e, i);
      assert false;
    }
  }

  lemma ProductLeft(p: Poly, q: Poly, low: Poly)
    requires |p| == |q| && |low| == |q| + 8 && Product(p) == Sum(Product(q), low)
    ensures Sum(Product(p), Product(q)) == low
  {
    hide Product;
    var x, y := Product(p), Product(q);
    var s := Sum(x, y);
    assert forall i :: 0 <= i < |s| ==> s[i] == (x[i] != y[i]) && x[i] == (y[i] != low[i]);
  }

  lemma FirstOne(e: Poly) returns (i: nat)
    requires !forall j :: 0 <= j < |e| ==> !e[j]
    ensures i < |e| && e[i] && forall j :: 0 <= j < i ==> !e[j]
  {
    i := 0;
    while !e[i]
      invariant 0 <= i < |e| && forall j :: 0 <= j < i ==> !e[j]
      decreases |e| - i
    {
      i := i + 1;
    }
  }
}
