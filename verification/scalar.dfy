/**
 * The scalar fixed-point arithmetic of pixman: rounding division by 255
 * (div_255), the rounding product of two 8-bit values (FbIntMult), the
 * truncating quotient used to un-premultiply (FbIntDiv), and the
 * single-lane Porter-Duff terms FbOverU/C, FbInU/C, FbGen and FbAdd, each
 * of which works on the 8-bit lane at bit offset i of a 32-bit word.
 *
 * Values are 32-bit unsigned words. For 8-bit operands every product and
 * sum below stays under 2^17, so no intermediate wraps around; the lemmas
 * state the exact bounds.
 */
module Fixed {
  import opened Pixel

  /**
   * div_255: (n + 0x80 + ((n + 0x80) >> 8)) >> 8. A byte product gives a
   * byte, and a sum of two byte products at most one carry bit above a byte;
   * Div255Nearest says the quotient is rounded to the nearest integer.
   */
  function Div255(n: bv32): (r: bv32)
    ensures n <= 65025 ==> r <= 0xff
    ensures n <= 130050 ==> r <= 0x1fe
  {
    (n + 0x80 + ((n + 0x80) >> 8)) >> 8
  }

  /** FbIntMult(a, b, t): t = a * b + 0x80, then ((t >> 8) + t) >> 8; of two bytes it is a byte. */
  function IntMult(a: bv32, b: bv32): (r: bv32)
    ensures a <= 255 && b <= 255 ==> r <= 0xff
  {
    var t := a * b + 0x80;
    ((t >> 8) + t) >> 8
  }

  /** The product of two channel values (kept as a named term). */
  function Mul(c: bv32, k: bv32): bv32
  {
    c * k
  }

  /**
   * r is n / 255 rounded to the nearest integer: r is a byte and
   * 255 r - 127 <= n <= 255 r + 127 (with r a byte and n below 2^31 none of
   * these terms wraps around).
   */
  predicate NearestQuotient(r: bv32, n: bv32)
  {
    r <= 255 && r * 255 <= n + 127 && n <= r * 255 + 127
  }

  /** n + 0x80 split into its high byte h and low byte l. */
  lemma SplitRounded(n: bv32)
    requires n <= 65025
    ensures n + 0x80 == ((n + 0x80) >> 8) * 256 + ((n + 0x80) & 0xff)
    ensures (n + 0x80) >> 8 <= 254
  {
  }

  /** Without a carry out of l + h the quotient is h. */
  lemma RoundNoCarry(n: bv32, h: bv32, l: bv32)
    requires h <= 254 && l <= 255 && l + h < 256 && n + 0x80 == h * 256 + l && n <= 65025
    ensures NearestQuotient(Div255(n), n)
  {
    if h < 128 {
      RoundNoCarryLow(n, h, l);
    } else {
      RoundNoCarryHigh(n, h, l);
    }
  }

  /** Without a carry out of l + h and h below 128 the quotient is h. */
  lemma RoundNoCarryLow(n: bv32, h: bv32, l: bv32)
    requires h < 128 && l <= 255 && l + h < 256 && n + 0x80 == h * 256 + l && n <= 65025
    ensures NearestQuotient(Div255(n), n)
  {
  }

  /** Without a carry out of l + h and h from 128 up the quotient is h. */
  lemma RoundNoCarryHigh(n: bv32, h: bv32, l: bv32)
    requires 128 <= h <= 254 && l <= 255 && l + h < 256 && n + 0x80 == h * 256 + l && n <= 65025
    ensures NearestQuotient(Div255(n), n)
  {
  }

  /** With a carry out of l + h and h below 128 the quotient is h + 1. */
  lemma RoundCarryLow(n: bv32, h: bv32, l: bv32)
    requires h < 128 && l <= 255 && l + h >= 256 && n + 0x80 == h * 256 + l && n <= 65025
    ensures NearestQuotient(Div255(n), n)
  {
  }

  /** With a carry out of l + h and h from 128 to 191 the quotient is h + 1. */
  lemma RoundCarryMiddle(n: bv32, h: bv32, l: bv32)
    requires 128 <= h < 192 && l <= 255 && l + h >= 256 && n + 0x80 == h * 256 + l && n <= 65025
    ensures NearestQuotient(Div255(n), n)
  {
  }

  /** With a carry out of l + h and h from 192 up the quotient is h + 1. */
  lemma RoundCarryHigh(n: bv32, h: bv32, l: bv32)
    requires 192 <= h <= 254 && l <= 255 && l + h >= 256 && n + 0x80 == h * 256 + l && n <= 65025
    ensures NearestQuotient(Div255(n), n)
  {
  }

  /** With a carry out of l + h the quotient is h + 1. */
  lemma RoundCarry(n: bv32, h: bv32, l: bv32)
    requires h <= 254 && l <= 255 && l + h >= 256 && n + 0x80 == h * 256 + l && n <= 65025
    ensures NearestQuotient(Div255(n), n)
  {
    if h < 128 {
      RoundCarryLow(n, h, l);
    } else if h < 192 {
      RoundCarryMiddle(n, h, l);
    } else {
      RoundCarryHigh(n, h, l);
    }
  }

  /** div_255 rounds to the nearest integer for every product of two bytes. */
  lemma Div255Nearest(n: bv32)
    requires n <= 65025
    ensures NearestQuotient(Div255(n), n)
  {
    var h := (n + 0x80) >> 8;
    var l := (n + 0x80) & 0xff;
    SplitRounded(n);
    if l + h < 256 {
      RoundNoCarry(n, h, l);
    } else {
      RoundCarry(n, h, l);
    }
  }

  /**
   * For a sum of two byte products, min(div_255(n), 255) is n / 255 rounded
   * to the nearest integer and saturated at 255: the nearest quotient while
   * it is at most 255 (n up to 255 * 255 + 127), and 255 above that.
   */
  lemma Div255SaturatedNearest(n: bv32)
    requires n <= 130050
    ensures n <= 65152 ==> NearestQuotient(Min255(Div255(n)), n)
    ensures n > 65152 ==> Min255(Div255(n)) == 255
  {
    if n <= 65025 {
      Div255Nearest(n);
    } else {
      Div255AboveByte(n);
    }
  }

  /** Above 255 * 255, div_255 is at least 255. */
  lemma Div255AboveByte(n: bv32)
    requires 65025 < n <= 130050
    ensures Div255(n) >= 255
  {
  }

  /** FbIntMult on bytes is div_255 of the product; the product is at most 255 * 255. */
  lemma IntMultIsDiv255(a: bv32, b: bv32)
    requires a <= 255 && b <= 255
    ensures IntMult(a, b) == Div255(Mul(a, b)) && Mul(a, b) <= 65025
  {
  }

  /** FbIntMult(a, b) is the byte nearest to a * b / 255. */
  lemma IntMultNearest(a: bv32, b: bv32)
    requires a <= 255 && b <= 255
    ensures IntMult(a, b) <= 255 && NearestQuotient(IntMult(a, b), Mul(a, b))
  {
    IntMultIsDiv255(a, b);
    Div255Nearest(Mul(a, b));
  }

  /**
   * The temporary of FbIntMult holds 16 bits in the callers: for bytes it
   * never exceeds 0xffff, so the 32-bit model computes the same value.
   */
  lemma IntMultFits16(a: bv32, b: bv32)
    requires a <= 255 && b <= 255
    ensures a * b + 0x80 <= 0xffff
    ensures ((a * b + 0x80) >> 8) + (a * b + 0x80) <= 0xffff
  {
  }

  /** 255 is the unit of FbIntMult, 0 its zero, and it is symmetric. */
  lemma IntMultUnitZero(a: bv32, b: bv32)
    requires a <= 255 && b <= 255
    ensures IntMult(a, 255) == a && IntMult(255, a) == a
    ensures IntMult(a, 0) == 0
    ensures IntMult(a, b) == IntMult(b, a)
  {
  }

  /** The weighted sum c * a + d * b of two channel values. */
  function Blend(c: bv32, a: bv32, d: bv32, b: bv32): bv32
  {
    c * a + d * b
  }

  /** The shared finishing step r += r >> 8; r >>= 8 of a sum that already holds its 0x80 bias. */
  function Fold8(r: bv32): bv32
  {
    (r + (r >> 8)) >> 8
  }

  /** The same step with the bias added after the shift: r += (r >> 8) + 0x80; r >>= 8. */
  function Fold8Late(r: bv32): bv32
  {
    (r + (r >> 8) + 0x80) >> 8
  }

  /** The green-lane step of the AddMul kernels, on a sum kept at bit 8: t += (t >> 8) + 0x8000; t >>= 16. */
  function Fold16(t: bv32): bv32
  {
    (t + (t >> 8) + 0x8000) >> 16
  }

  /** A weighted sum of two bytes with byte weights is at most 2 * 255 * 255. */
  lemma BlendBound(c: bv32, a: bv32, d: bv32, b: bv32)
    ensures c <= 255 && a <= 255 && d <= 255 && b <= 255 ==> Blend(c, a, d, b) <= 130050
  {
    ProductByte(c, a);
    ProductByte(d, b);
  }

  /** The product of two bytes is at most 255 * 255. */
  lemma ProductByte(c: bv32, k: bv32)
    ensures c <= 255 && k <= 255 ==> c * k <= 65025
  {
  }

  /** The weighted sum of two values kept at bit 8 is the weighted sum of the values, kept at bit 8. */
  lemma BlendInPlace(p: bv32, q: bv32, c: bv32, a: bv32, d: bv32, b: bv32)
    ensures p == c * 256 && q == d * 256 ==> Blend(p, a, q, b) == Blend(c, a, d, b) * 256
  {
  }

  /** Folding a biased sum is div_255 of the sum. */
  lemma Fold8IsDiv255(n: bv32)
    ensures Fold8(n + 0x80) == Div255(n)
  {
  }

  /** The rounding FbByteAddMul gives its green channel: the sum n kept at bit 8, folded by 16. */
  function RoundAt8(n: bv32): bv32
  {
    Fold16(n * 256)
  }

  /** Folding a word that holds n at bit 8 is that rounding of n. */
  lemma FoldAt8(n: bv32, t: bv32)
    ensures t == n * 256 ==> Fold16(t) == RoundAt8(n)
  {
  }

  /** That rounding stays at most 510 too. */
  lemma RoundAt8Wide(n: bv32)
    ensures n <= 130050 ==> RoundAt8(n) <= 0x1fe
  {
  }

  /** The late-bias fold stays at most 510 as well. */
  lemma Fold8LateWide(n: bv32)
    ensures n <= 130050 ==> Fold8Late(n) <= 0x1fe
  {
  }

  /**
   * FbIntDiv(a, b): ((uint16_t) a * 255) / b, the truncating inverse of the
   * premultiplication by b.
   */
  function IntDiv(a: nat, b: nat): (q: nat)
    requires b != 0
    ensures q * b <= (a % 0x10000) * 255 < (q + 1) * b
  {
    ((a % 0x10000) * 255) / b
  }

  /** Multiplication by a non-negative factor is monotone. */
  lemma MulMonotone(x: nat, y: nat, k: nat)
    requires x <= y
    ensures x * k <= y * k
  {
    var d := y - x;
    assert y * k == x * k + d * k;
  }

  /** Un-premultiplying a channel that does not exceed its alpha gives a byte. */
  lemma IntDivBound(a: nat, b: nat)
    requires 0 < b && a <= b && b <= 0xffff
    ensures IntDiv(a, b) <= 255
  {
    var q := IntDiv(a, b);
    MulMonotone(a, b, 255);
    if q > 255 {
      MulMonotone(256, q, b);
      assert false;
    }
  }

  /** Un-premultiplying a channel equal to its alpha gives full intensity. */
  lemma IntDivFull(b: nat)
    requires 0 < b <= 0xffff
    ensures IntDiv(b, b) == 255
  {
    var q := IntDiv(b, b);
    if q < 255 {
      MulMonotone(q + 1, 255, b);
      assert false;
    } else if q > 255 {
      MulMonotone(256, q, b);
      assert false;
    }
  }

  /**
   * FbGet8(v, i): the byte at bit offset i, widened to 16 bits. Bit
   * offsets are 5-bit values: the source shifts a 32-bit word, where an
   * offset of 32 or more is undefined.
   */
  function Get8(v: bv32, i: bv5): (c: bv32)
    ensures c <= 0xff
  {
    (v >> i) & 0xff
  }

  /** The byte lanes at offsets 24, 16, 8 and 0 are alpha, red, green and blue. */
  lemma Get8Channels(v: bv32)
    ensures Get8(v, 24) == Alpha(v) && Get8(v, 16) == Red(v)
    ensures Get8(v, 8) == Green(v) && Get8(v, 0) == Blue(v)
  {
  }

  /**
   * The saturating narrowing (uint8_t) (t | (0 - (t >> 8))) shared by
   * FbOverU/C, FbGen and FbAdd.
   */
  function Saturate8(t: bv32): (r: bv32)
    ensures r <= 0xff
  {
    (t | (0 - (t >> 8))) & 0xff
  }

  /** min(t, 255). */
  function Min255(t: bv32): (r: bv32)
    ensures r <= 0xff
  {
    if t > 255 then 255 else t
  }

  /** The saturating sum of two channel values: min(c + d, 255). */
  function SatAdd(c: bv32, d: bv32): (r: bv32)
    ensures r <= 0xff
  {
    Min255(c + d)
  }

  /** For a sum of two bytes the narrowing is min(t, 255). */
  lemma Saturate8IsMin(t: bv32)
    ensures t <= 0x1fe ==> Saturate8(t) == Min255(t)
  {
  }

  /** Adding nothing to a byte does not saturate. */
  lemma SatAddZero(c: bv32, d: bv32)
    ensures c <= 255 && d == 0 ==> SatAdd(c, d) == c
  {
  }

  /** A byte plus a byte is at most 0x1fe. */
  lemma ByteSum(h: bv32, c: bv32)
    ensures h <= 255 && c <= 255 ==> h + c <= 0x1fe
  {
  }

  /** (uint32_t) c << i: a lane value put back at bit offset i. */
  function Place(c: bv32, i: bv5): bv32
  {
    c << i
  }

  /** A byte put at offset i occupies lane i only: it is its own lane i, put back. */
  lemma PlaceByte(c: bv32, i: bv5)
    ensures c <= 0xff ==> Place(c, i) == Place(Get8(Place(c, i), i), i)
  {
  }

  /** FbOverU(x, y, i, a): the lane of x plus the lane of y scaled by a, saturated. */
  function OverU(x: bv32, y: bv32, i: bv5, a: bv32): (r: bv32)
    ensures r == Place(Get8(r, i), i)
  {
    var c := Saturate8(IntMult(Get8(y, i), a) + Get8(x, i));
    PlaceByte(c, i);
    Place(c, i)
  }

  /** FbOverC(x, y, i, a): as FbOverU with the alpha taken from the same lane of a. */
  function OverC(x: bv32, y: bv32, i: bv5, a: bv32): (r: bv32)
    ensures r == Place(Get8(r, i), i)
  {
    var c := Saturate8(IntMult(Get8(y, i), Get8(a, i)) + Get8(x, i));
    PlaceByte(c, i);
    Place(c, i)
  }

  /** FbInU(x, i, a): the lane of x scaled by a. */
  function InU(x: bv32, i: bv5, a: bv32): (r: bv32)
    ensures a <= 255 ==> r == Place(Get8(r, i), i)
  {
    var c := IntMult(Get8(x, i), a);
    PlaceByte(c, i);
    Place(c, i)
  }

  /** FbInC(x, i, a): the lane of x scaled by the same lane of a. */
  function InC(x: bv32, i: bv5, a: bv32): (r: bv32)
    ensures r == Place(Get8(r, i), i)
  {
    var c := IntMult(Get8(x, i), Get8(a, i));
    PlaceByte(c, i);
    Place(c, i)
  }

  /** FbGen(x, y, i, ax, ay): lane of y scaled by ay plus lane of x scaled by ax, saturated. */
  function Gen(x: bv32, y: bv32, i: bv5, ax: bv32, ay: bv32): (r: bv32)
    ensures r == Place(Get8(r, i), i)
  {
    var c := Saturate8(IntMult(Get8(y, i), ay) + IntMult(Get8(x, i), ax));
    PlaceByte(c, i);
    Place(c, i)
  }

  /** FbAdd(x, y, i): the saturated sum of the two lanes. */
  function Add(x: bv32, y: bv32, i: bv5): (r: bv32)
    ensures r == Place(Get8(r, i), i)
  {
    var c := Saturate8(Get8(x, i) + Get8(y, i));
    PlaceByte(c, i);
    Place(c, i)
  }

  /** The sum inside FbOverU is at most 510. */
  lemma OverSumBound(x: bv32, y: bv32, i: bv5, a: bv32)
    requires a <= 255
    ensures IntMult(Get8(y, i), a) + Get8(x, i) <= 0x1fe
  {
  }

  /** The narrowing in FbOverU saturates at 255. */
  lemma OverSaturates(x: bv32, y: bv32, i: bv5, a: bv32)
    requires a <= 255
    ensures Saturate8(IntMult(Get8(y, i), a) + Get8(x, i)) == Min255(IntMult(Get8(y, i), a) + Get8(x, i))
  {
    OverSumBound(x, y, i, a);
    Saturate8IsMin(IntMult(Get8(y, i), a) + Get8(x, i));
  }

  /** FbOverU is min(255, y_i * a / 255 + x_i) at offset i. */
  lemma OverULane(x: bv32, y: bv32, i: bv5, a: bv32)
    requires a <= 255
    ensures OverU(x, y, i, a) == Place(SatAdd(IntMult(Get8(y, i), a), Get8(x, i)), i)
  {
    OverSaturates(x, y, i, a);
  }

  /** FbOverC is FbOverU with the lane's own alpha: min(255, y_i * a_i / 255 + x_i). */
  lemma OverCLane(x: bv32, y: bv32, i: bv5, a: bv32)
    ensures OverC(x, y, i, a) == OverU(x, y, i, Get8(a, i))
    ensures OverC(x, y, i, a) == Place(SatAdd(IntMult(Get8(y, i), Get8(a, i)), Get8(x, i)), i)
  {
    OverULane(x, y, i, Get8(a, i));
  }

  /** FbOverU with a transparent source keeps the destination lane. */
  lemma OverUTransparent(x: bv32, y: bv32, i: bv5)
    ensures OverU(x, y, i, 0) == Place(Get8(x, i), i)
  {
  }

  /** FbInU with an opaque alpha keeps the lane; with alpha 0 it clears it. */
  lemma InULane(x: bv32, i: bv5)
    ensures InU(x, i, 255) == Place(Get8(x, i), i)
    ensures InU(x, i, 0) == 0
  {
    IntMultUnitZero(Get8(x, i), 0);
  }

  /** FbInC is FbInU with the alpha taken from the same lane. */
  lemma InCIsInU(x: bv32, i: bv5, a: bv32)
    ensures InC(x, i, a) == InU(x, i, Get8(a, i))
  {
  }

  /** The sum inside FbGen is at most 510. */
  lemma GenSumBound(x: bv32, y: bv32, i: bv5, ax: bv32, ay: bv32)
    requires ax <= 255 && ay <= 255
    ensures IntMult(Get8(y, i), ay) + IntMult(Get8(x, i), ax) <= 0x1fe
  {
  }

  /** The narrowing in FbGen saturates at 255. */
  lemma GenSaturates(x: bv32, y: bv32, i: bv5, ax: bv32, ay: bv32)
    requires ax <= 255 && ay <= 255
    ensures Saturate8(IntMult(Get8(y, i), ay) + IntMult(Get8(x, i), ax))
         == Min255(IntMult(Get8(y, i), ay) + IntMult(Get8(x, i), ax))
  {
    GenSumBound(x, y, i, ax, ay);
    Saturate8IsMin(IntMult(Get8(y, i), ay) + IntMult(Get8(x, i), ax));
  }

  /** FbGen is min(255, y_i * ay / 255 + x_i * ax / 255) at offset i. */
  lemma GenLane(x: bv32, y: bv32, i: bv5, ax: bv32, ay: bv32)
    requires ax <= 255 && ay <= 255
    ensures Gen(x, y, i, ax, ay) == Place(SatAdd(IntMult(Get8(y, i), ay), IntMult(Get8(x, i), ax)), i)
  {
    GenSaturates(x, y, i, ax, ay);
  }

  /** FbAdd is min(255, x_i + y_i) at offset i. */
  lemma AddLane(x: bv32, y: bv32, i: bv5)
    ensures Add(x, y, i) == Place(SatAdd(Get8(x, i), Get8(y, i)), i)
  {
    ByteSum(Get8(x, i), Get8(y, i));
    Saturate8IsMin(Get8(x, i) + Get8(y, i));
  }

  /** FbAdd is symmetric and adding the zero word keeps the lane. */
  lemma AddCommutesZero(x: bv32, y: bv32, i: bv5)
    ensures Add(x, y, i) == Add(y, x, i)
    ensures Add(x, 0, i) == Place(Get8(x, i), i)
  {
  }

  /** A packed pixel is the or of its four channels, each placed at its offset. */
  lemma PackOfPlaces(a: bv32, r: bv32, g: bv32, b: bv32, p: bv32, q: bv32, s: bv32, t: bv32)
    ensures p == Place(a, 24) && q == Place(r, 16) && s == Place(g, 8) && t == Place(b, 0)
            ==> Pack(a, r, g, b) == p | q | s | t
  {
  }
}
