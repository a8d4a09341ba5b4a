/**
 * pixman's FbByteAddMul_256(x, a, y, b): x_c = (x_c * a + y_c * b) / 256
 * for every channel c, two channels per multiplication.
 *
 * The macro is modelled on unsigned integers: a 32-bit word is a nat
 * below 2^32, every addition and multiplication of words is reduced
 * modulo 2^32 as uint32_t arithmetic is, w >> 8 is w / 256, and the masks
 * 0xff00ff and 0xff00ff00 keep bytes 0 and 2, or 1 and 3, of a word.
 *
 * The two lanes of a product stay apart only while each weighted sum
 * fits in 16 bits; the callers pass a weight and its complement to 256,
 * and a + b <= 256 is exactly what keeps every sum at most 255 * 256.
 */
module Weighted {
  import Fixed

  /** 2^32: the uint32_t arithmetic of the macro is modulo this. */
  const WORD: nat := 0x1_0000_0000

  /** Byte i of a word, byte 0 being bits 0-7. */
  function Byte(w: nat, i: nat): (c: nat)
    ensures c < 256
  {
    if i == 0 then w % 256 else Byte(w / 256, i - 1)
  }

  /** w & 0xff00ff: bytes 2 and 0 of w, left in place. */
  function MaskLow(w: nat): nat
  {
    Byte(w, 2) * 0x10000 + Byte(w, 0)
  }

  /** w & 0xff00ff00: bytes 3 and 1 of w, left in place. */
  function MaskHigh(w: nat): nat
  {
    Byte(w, 3) * 0x1000000 + Byte(w, 1) * 0x100
  }

  /** The word with bytes c3, c2, c1, c0 from the top down. */
  function PackBytes(c3: nat, c2: nat, c1: nat, c0: nat): nat
  {
    c3 * 0x1000000 + c2 * 0x10000 + c1 * 0x100 + c0
  }

  /** The weighted sum c * a + d * b of two channel values. */
  function Weigh(c: nat, a: nat, d: nat, b: nat): nat
  {
    c * a + d * b
  }

  /** One channel of FbByteAddMul_256: the weighted sum of c and d, divided by 256. */
  function Scale256(c: nat, a: nat, d: nat, b: nat): nat
  {
    Weigh(c, a, d, b) / 256
  }

  /** Every channel: (x_c * a + y_c * b) / 256. */
  function AddMul256Spec(x: nat, a: nat, y: nat, b: nat): nat
  {
    PackBytes(Scale256(Byte(x, 3), a, Byte(y, 3), b), Scale256(Byte(x, 2), a, Byte(y, 2), b),
              Scale256(Byte(x, 1), a, Byte(y, 1), b), Scale256(Byte(x, 0), a, Byte(y, 0), b))
  }

  /** A byte weighted by a and a byte weighted by b, with a + b <= 256, sum to at most 255 * 256. */
  lemma WeightedSumBound(c: nat, a: nat, d: nat, b: nat)
    requires c < 256 && d < 256 && a + b <= 256
    ensures Weigh(c, a, d, b) <= 65280
  {
    Fixed.MulMonotone(c, 255, a);
    Fixed.MulMonotone(d, 255, b);
    assert 255 * a + 255 * b == 255 * (a + b);
  }

  /** Each channel of AddMul256Spec is a byte when a + b <= 256. */
  lemma Scale256Byte(c: nat, a: nat, d: nat, b: nat)
    requires c < 256 && d < 256 && a + b <= 256
    ensures Scale256(c, a, d, b) < 256
  {
    WeightedSumBound(c, a, d, b);
  }

  /** The two channels at bytes 2 and 0, each weighted, in one multiplication: the lanes are the two weighted sums. */
  lemma LanesOfProducts(x: nat, a: nat, y: nat, b: nat)
    ensures MaskLow(x) * a + MaskLow(y) * b
            == Weigh(Byte(x, 2), a, Byte(y, 2), b) * 0x10000 + Weigh(Byte(x, 0), a, Byte(y, 0), b)
  {
    var r, c, s, d := Byte(x, 2), Byte(x, 0), Byte(y, 2), Byte(y, 0);
    assert MaskLow(x) == r * 0x10000 + c;
    assert MaskLow(y) == s * 0x10000 + d;
    Distribute(r, c, a, s, d, b);
  }

  /** Two lane pairs, each weighted: the weights distribute over the lanes. */
  lemma Distribute(r: nat, c: nat, a: nat, s: nat, d: nat, b: nat)
    ensures (r * 0x10000 + c) * a + (s * 0x10000 + d) * b == Weigh(r, a, s, b) * 0x10000 + Weigh(c, a, d, b)
  {
  }

  /** Shifting a word right by 8 moves byte i + 1 to byte i. */
  lemma ByteShift(w: nat, i: nat)
    ensures Byte(w / 256, i) == Byte(w, i + 1)
  {
  }

  /** Two 16-bit lanes h and l, shifted right by 8 and masked with 0xff00ff: the upper bytes of the lanes. */
  lemma ShiftMaskLanes(h: nat, l: nat)
    requires h < 0x10000 && l < 0x10000
    ensures MaskLow((h * 0x10000 + l) / 256) == (h / 256) * 0x10000 + l / 256
  {
    var w := (h * 0x10000 + l) / 256;
    assert w == h * 256 + l / 256;
    assert Byte(w, 0) == l / 256;
    assert w / 256 / 256 == h / 256;
    assert Byte(w, 2) == Byte(w / 256 / 256, 0);
  }

  /** Two 16-bit lanes h and l, masked with 0xff00ff00: the upper bytes of the lanes, left in place. */
  lemma MaskHighLanes(h: nat, l: nat)
    requires h < 0x10000 && l < 0x10000
    ensures MaskHigh(h * 0x10000 + l) == (h / 256) * 0x1000000 + (l / 256) * 0x100
  {
    MaskHighShifted(h * 0x10000 + l);
    ShiftMaskLanes(h, l);
  }

  /** Masking with 0xff00ff00 is masking the word shifted right by 8 with 0xff00ff, shifted back. */
  lemma MaskHighShifted(w: nat)
    ensures MaskHigh(w) == MaskLow(w / 256) * 256
  {
    ByteShift(w, 2);
    ByteShift(w, 0);
  }

  /**
   * The products of the macro's first multiplication, reduced modulo 2^32:
   * when a + b <= 256 the lanes are the weighted sums h of bytes 2 and l of
   * bytes 0, each at most 255 * 256, with no carry between them.
   */
  lemma WeightedLanes(x: nat, a: nat, y: nat, b: nat, h: nat, l: nat)
    requires a + b <= 256
    requires h == Weigh(Byte(x, 2), a, Byte(y, 2), b) && l == Weigh(Byte(x, 0), a, Byte(y, 0), b)
    ensures h <= 65280 && l <= 65280
    ensures (MaskLow(x) * a + MaskLow(y) * b) % WORD == h * 0x10000 + l
  {
    WeightedSumBound(Byte(x, 2), a, Byte(y, 2), b);
    WeightedSumBound(Byte(x, 0), a, Byte(y, 0), b);
    LanesOfProducts(x, a, y, b);
  }

  /** The four byte lanes, upper pair masked in place and lower pair shifted down, add up to a word. */
  lemma MergeLanes(g: nat, h: nat, k: nat, l: nat)
    requires g < 0x10000 && h < 0x10000 && k < 0x10000 && l < 0x10000
    ensures ((g / 256) * 0x1000000 + (k / 256) * 0x100 + ((h / 256) * 0x10000 + l / 256)) % WORD
            == PackBytes(g / 256, h / 256, k / 256, l / 256)
  {
  }

  /** FbByteAddMul_256(x, a, y, b). */
  method ByteAddMul256(x: nat, a: nat, y: nat, b: nat) returns (x': nat)
    ensures x' < WORD
    ensures a + b <= 256 ==> x' == AddMul256Spec(x, a, y, b)
  {
    ghost var g, h := Weigh(Byte(x, 3), a, Byte(y, 3), b), Weigh(Byte(x, 2), a, Byte(y, 2), b);
    ghost var k, l := Weigh(Byte(x, 1), a, Byte(y, 1), b), Weigh(Byte(x, 0), a, Byte(y, 0), b);

    var t := (MaskLow(x) * a + MaskLow(y) * b) % WORD;
    if a + b <= 256 {
      WeightedLanes(x, a, y, b, h, l);
      ShiftMaskLanes(h, l);
    }
    t := t / 256;
    t := MaskLow(t);

    x' := (MaskLow(x / 256) * a + MaskLow(y / 256) * b) % WORD;
    if a + b <= 256 {
      ByteShift(x, 2);
      ByteShift(x, 0);
      ByteShift(y, 2);
      ByteShift(y, 0);
      WeightedLanes(x / 256, a, y / 256, b, g, k);
      MaskHighLanes(g, k);
    }
    x' := MaskHigh(x');
    if a + b <= 256 {
      MergeLanes(g, h, k, l);
    }
    x' := (x' + t) % WORD;
  }

  /** Four bytes packed into a word are its bytes 3, 2, 1 and 0, and the word is below 2^32. */
  lemma BytesOfPack(c3: nat, c2: nat, c1: nat, c0: nat)
    requires c3 < 256 && c2 < 256 && c1 < 256 && c0 < 256
    ensures PackBytes(c3, c2, c1, c0) < WORD
    ensures Byte(PackBytes(c3, c2, c1, c0), 3) == c3 && Byte(PackBytes(c3, c2, c1, c0), 2) == c2
    ensures Byte(PackBytes(c3, c2, c1, c0), 1) == c1 && Byte(PackBytes(c3, c2, c1, c0), 0) == c0
  {
    var w := PackBytes(c3, c2, c1, c0);
    assert w / 256 == c3 * 0x10000 + c2 * 0x100 + c1;
    assert w / 256 / 256 == c3 * 0x100 + c2;
    assert w / 256 / 256 / 256 == c3;
    assert Byte(w, 3) == Byte(w / 256, 2) == Byte(w / 256 / 256, 1) == Byte(w / 256 / 256 / 256, 0);
    assert Byte(w, 2) == Byte(w / 256, 1) == Byte(w / 256 / 256, 0) == (c3 * 0x100 + c2) % 256 == c2;
    assert Byte(w, 1) == Byte(w / 256, 0) == (c3 * 0x10000 + c2 * 0x100 + c1) % 256 == c1;
  }

  /** A word below 2^32 is the packing of its four bytes. */
  lemma PackOfBytes(w: nat)
    requires w < WORD
    ensures PackBytes(Byte(w, 3), Byte(w, 2), Byte(w, 1), Byte(w, 0)) == w
  {
    assert Byte(w, 1) == (w / 256) % 256;
    assert Byte(w, 2) == (w / 256 / 256) % 256;
    assert Byte(w, 3) == (w / 256 / 256 / 256) % 256;
  }

  /** When a + b <= 256, byte i of AddMul256Spec is the weighted sum of the bytes i of x and y, divided by 256. */
  lemma AddMul256Channels(x: nat, a: nat, y: nat, b: nat)
    requires a + b <= 256
    ensures AddMul256Spec(x, a, y, b) < WORD
    ensures Byte(AddMul256Spec(x, a, y, b), 3) == Scale256(Byte(x, 3), a, Byte(y, 3), b)
    ensures Byte(AddMul256Spec(x, a, y, b), 2) == Scale256(Byte(x, 2), a, Byte(y, 2), b)
    ensures Byte(AddMul256Spec(x, a, y, b), 1) == Scale256(Byte(x, 1), a, Byte(y, 1), b)
    ensures Byte(AddMul256Spec(x, a, y, b), 0) == Scale256(Byte(x, 0), a, Byte(y, 0), b)
  {
    Scale256Byte(Byte(x, 3), a, Byte(y, 3), b);
    Scale256Byte(Byte(x, 2), a, Byte(y, 2), b);
    Scale256Byte(Byte(x, 1), a, Byte(y, 1), b);
    Scale256Byte(Byte(x, 0), a, Byte(y, 0), b);
    BytesOfPack(Scale256(Byte(x, 3), a, Byte(y, 3), b), Scale256(Byte(x, 2), a, Byte(y, 2), b),
                Scale256(Byte(x, 1), a, Byte(y, 1), b), Scale256(Byte(x, 0), a, Byte(y, 0), b));
  }

  /** The two operands of AddMul256Spec, each with its weight, can be swapped. */
  lemma AddMul256Swap(x: nat, a: nat, y: nat, b: nat)
    ensures AddMul256Spec(x, a, y, b) == AddMul256Spec(y, b, x, a)
  {
  }

  /** Weight 256 on x and 0 on y gives x back; weight 0 on x and 256 on y gives y. */
  lemma AddMul256Ends(x: nat, y: nat)
    requires x < WORD && y < WORD
    ensures AddMul256Spec(x, 256, y, 0) == x
    ensures AddMul256Spec(x, 0, y, 256) == y
  {
    PackOfBytes(x);
    PackOfBytes(y);
    ScaleEnds(Byte(x, 3), Byte(y, 3));
    ScaleEnds(Byte(x, 2), Byte(y, 2));
    ScaleEnds(Byte(x, 1), Byte(y, 1));
    ScaleEnds(Byte(x, 0), Byte(y, 0));
  }

  /** The full weight on one operand and none on the other selects that operand. */
  lemma ScaleEnds(c: nat, d: nat)
    ensures Scale256(c, 256, d, 0) == c && Scale256(c, 0, d, 256) == d
  {
    assert Weigh(c, 256, d, 0) == c * 256;
    assert Weigh(c, 0, d, 256) == d * 256;
  }

  /** With weights a and 256 - a, a channel lies between the two channels it interpolates. */
  lemma Scale256Between(c: nat, a: nat, d: nat)
    requires a <= 256
    ensures c <= d ==> c <= Scale256(c, a, d, 256 - a) <= d
    ensures d <= c ==> d <= Scale256(c, a, d, 256 - a) <= c
  {
    var b := 256 - a;
    if c <= d {
      Fixed.MulMonotone(c, d, b);
      Fixed.MulMonotone(c, d, a);
      assert c * a + c * b == c * 256;
      assert d * a + d * b == d * 256;
    } else {
      Fixed.MulMonotone(d, c, a);
      Fixed.MulMonotone(d, c, b);
      assert c * a + c * b == c * 256;
      assert d * a + d * b == d * 256;
    }
  }
}
