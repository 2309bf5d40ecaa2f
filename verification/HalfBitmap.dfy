/** The bitmap in which one half sends its keys: cell (r, c) is bit 7r + c, the highest bit of each byte first. */
module HalfBitmap {
  import opened Bits
  import opened Wrappers

  const HALF_ROWS: byte := 4
  const HALF_COLS: byte := 7
  const BITMAP_BYTES := 4

  function Index(r: byte, c: byte): nat { r * HALF_COLS + c }

  predicate InHalf(r: byte, c: byte) { r < HALF_ROWS && c < HALF_COLS }

  /** `rf_bitmap_get`. */
  predicate Held(bitmap: seq<bv8>, r: byte, c: byte)
    requires |bitmap| == BITMAP_BYTES && InHalf(r, c)
  {
    Bit(bitmap[Index(r, c) / 8], 7 - Index(r, c) % 8)
  }

  /** Setting one cell changes no other. */
  lemma PressedOnly(bitmap: seq<bv8>, r: byte, c: byte, r2: byte, c2: byte)
    requires |bitmap| == BITMAP_BYTES && InHalf(r, c) && InHalf(r2, c2)
    ensures var k := Index(r, c);
            Held(bitmap[k / 8 := bitmap[k / 8] | Mask(7 - k % 8)], r2, c2)
            <==> Held(bitmap, r2, c2) || (r2 == r && c2 == c)
  {
    hide Bit, Mask;
    var k, k2 := Index(r, c), Index(r2, c2);
    assert k == k2 <==> r == r2 && c == c2;
    if k / 8 == k2 / 8 { SetBit(bitmap[k / 8], 7 - k % 8, 7 - k2 % 8); }
  }

  /** `rf_bitmap_set` with a true value. */
  method Press(bitmap: array<bv8>, r: byte, c: byte)
    requires bitmap.Length == BITMAP_BYTES && InHalf(r, c)
    modifies bitmap
    ensures forall r2, c2 :: InHalf(r2, c2) ==>
              (Held(bitmap[..], r2, c2) <==> old(Held(bitmap[..], r2, c2)) || (r2 == r && c2 == c))
  {
    ghost var was := bitmap[..];
    var k := Index(r, c);
    bitmap[k / 8] := bitmap[k / 8] | Mask(7 - k % 8);
    assert bitmap[..] == was[k / 8 := was[k / 8] | Mask(7 - k % 8)];
    forall r2, c2 | InHalf(r2, c2)
      ensures Held(bitmap[..], r2, c2) <==> Held(was, r2, c2) || (r2 == r && c2 == c)
    {
      PressedOnly(was, r, c, r2, c2);
    }
  }

  lemma TopFirst(b: bv8)
    ensures Bit(b, 7) <==> b & 0x80 != 0
    ensures Bit(b, 6) <==> b & 0x40 != 0
    ensures Bit(b, 5) <==> b & 0x20 != 0
    ensures Bit(b, 4) <==> b & 0x10 != 0
    ensures Bit(b, 3) <==> b & 8 != 0
    ensures Bit(b, 2) <==> b & 4 != 0
    ensures Bit(b, 1) <==> b & 2 != 0
    ensures Bit(b, 0) <==> b & 1 != 0
  {
  }

  /** Where the rows start and end on the wire: each takes the seven bits behind the one before. */
  lemma RowsOnWire(b: seq<bv8>)
    requires |b| == 4
    ensures Held(b, 0, 0) <==> b[0] & 0x80 != 0
    ensures Held(b, 0, 6) <==> b[0] & 2 != 0
    ensures Held(b, 1, 0) <==> b[0] & 1 != 0
    ensures Held(b, 1, 6) <==> b[1] & 4 != 0
    ensures Held(b, 2, 0) <==> b[1] & 2 != 0
    ensures Held(b, 2, 6) <==> b[2] & 8 != 0
    ensures Held(b, 3, 0) <==> b[2] & 4 != 0
    ensures Held(b, 3, 6) <==> b[3] & 0x10 != 0
  {
    forall i | 0 <= i < 4 { TopFirst(b[i]); }
    hide Bit;
  }

  lemma NothingHeld(bitmap: seq<bv8>)
    requires bitmap == [0, 0, 0, 0]
    ensures forall r, c :: InHalf(r, c) ==> !Held(bitmap, r, c)
  {
    forall r, c | InHalf(r, c)
      ensures !Held(bitmap, r, c)
    {
      ZeroHasNoBit(7 - Index(r, c) % 8);
    }
  }
}
