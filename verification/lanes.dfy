/**
 * The two-lanes-at-once arithmetic underneath pixman's FbByte* kernels.
 *
 * A 32-bit word is read as two 16-bit lanes, bits 0-15 and 16-31. The
 * kernels multiply two 8-bit channels at once by masking a pixel with
 * 0xff00ff (red and blue) or shifting it right by 8 first (alpha and
 * green), so each 16-bit lane holds one channel product. The lemmas here
 * say that the masked product really is the pair of channel products, that
 * the shared rounding step divides each lane by 255 without a carry into
 * the other lane, and that the shared saturation step clamps each lane.
 */
module Lanes {
  import opened Pixel
  import opened Fixed

  /** The word with h in the upper 16-bit lane and l in the lower one. */
  function Pair(h: bv32, l: bv32): bv32
  {
    h * 0x10000 + l
  }

  /** The word with h in bits 24-31 and l in bits 8-15: a pair shifted up 8. */
  function HiPair(h: bv32, l: bv32): bv32
  {
    h * 0x1000000 + l * 0x100
  }

  /** Two lane values each with the rounding bias 0x80 added. */
  function Rounded(u: bv32, v: bv32): bv32
  {
    Pair(u + 0x80, v + 0x80)
  }

  /** The shared rounding step, leaving each lane's quotient in its upper byte. */
  function Hi(t: bv32): bv32
  {
    (t + ((t >> 8) & 0xff00ff)) & 0xff00ff00
  }

  /** The shared rounding step, with each lane's quotient shifted down to its lower byte. */
  function Lo(t: bv32): bv32
  {
    ((t + ((t >> 8) & 0xff00ff)) >> 8) & 0xff00ff
  }

  /** The shared saturation step: a lane that carried into bit 8 becomes 0xff, the carry is dropped. */
  function Clamp(t: bv32): bv32
  {
    (t | (0x1000100 - ((t >> 8) & 0xff00ff))) & 0xff00ff
  }

  /** Rounding both lanes at once divides each by 255, with no carry across lanes. */
  lemma RoundLo(u: bv32, v: bv32)
    requires u <= 65025 && v <= 65025
    ensures Lo(Rounded(u, v)) == Pair(Div255(u), Div255(v))
  {
  }

  /** As RoundLo, for the variant that leaves the lanes shifted up by 8. */
  lemma RoundHi(u: bv32, v: bv32)
    requires u <= 65025 && v <= 65025
    ensures Hi(Rounded(u, v)) == HiPair(Div255(u), Div255(v))
  {
  }

  /** The red and blue products of a pixel with a byte, as one multiplication. */
  lemma RedBlueProductsRaw(x: bv32, a: bv32)
    requires a <= 255
    ensures Rounded(((x >> 16) & 0xff) * a, (x & 0xff) * a) == (x & 0xff00ff) * a + 0x800080
  {
  }

  /** The alpha and green products of a pixel with a byte, as one multiplication. */
  lemma AlphaGreenProductsRaw(x: bv32, a: bv32)
    requires a <= 255
    ensures Rounded((x >> 24) * a, ((x >> 8) & 0xff) * a) == ((x >> 8) & 0xff00ff) * a + 0x800080
  {
  }

  lemma RedBlueProducts(x: bv32, a: bv32)
    requires a <= 255
    ensures Rounded(Mul((x >> 16) & 0xff, a), Mul(x & 0xff, a)) == (x & 0xff00ff) * a + 0x800080
  {
    RedBlueProductsRaw(x, a);
  }

  lemma AlphaGreenProducts(x: bv32, a: bv32)
    requires a <= 255
    ensures Rounded(Mul(x >> 24, a), Mul((x >> 8) & 0xff, a)) == ((x >> 8) & 0xff00ff) * a + 0x800080
  {
    AlphaGreenProductsRaw(x, a);
  }

  /** Two byte-sized lanes, one shifted up by 8, add up to a whole pixel. */
  lemma Combine(p: bv32, q: bv32, ca: bv32, cr: bv32, cg: bv32, cb: bv32)
    ensures ca <= 255 && cr <= 255 && cg <= 255 && cb <= 255 && p == HiPair(ca, cg) && q == Pair(cr, cb)
            ==> p + q == Pack(ca, cr, cg, cb)
  {
  }

  /** Two byte lanes shifted up by 8 and added to two byte lanes make a pixel. */
  lemma CombineShifted(p: bv32, q: bv32, ca: bv32, cr: bv32, cg: bv32, cb: bv32)
    ensures ca <= 255 && cr <= 255 && cg <= 255 && cb <= 255 && p == Pair(ca, cg) && q == Pair(cr, cb)
            ==> (p << 8) + q == Pack(ca, cr, cg, cb)
  {
  }

  /** The same, with the two halves merged by a bitwise or. */
  lemma MergeShifted(p: bv32, q: bv32, ca: bv32, cr: bv32, cg: bv32, cb: bv32)
    ensures ca <= 255 && cr <= 255 && cg <= 255 && cb <= 255 && p == Pair(ca, cg) && q == Pair(cr, cb)
            ==> q | (p << 8) == Pack(ca, cr, cg, cb)
  {
  }

  /** Clamping two lanes that hold at most 0x1fe each gives min(lane, 255) in each. */
  lemma ClampPair(h: bv32, l: bv32)
    ensures h <= 0x1fe && l <= 0x1fe ==> Clamp(Pair(h, l)) == Pair(Min255(h), Min255(l))
  {
  }

  /** The red and blue channels of two pixels, added two lanes at once. */
  lemma RedBlueSums(x: bv32, y: bv32)
    ensures (x & 0xff00ff) + (y & 0xff00ff) == Pair(Red(x) + Red(y), Blue(x) + Blue(y))
  {
  }

  /** The alpha and green channels of two pixels, added two lanes at once. */
  lemma AlphaGreenSums(x: bv32, y: bv32)
    ensures ((x >> 8) & 0xff00ff) + ((y >> 8) & 0xff00ff) == Pair(Alpha(x) + Alpha(y), Green(x) + Green(y))
  {
  }

  /** Adding the red and blue of y to two byte lanes adds lane by lane, without carry. */
  lemma AddRedBlue(t: bv32, y: bv32, h: bv32, l: bv32)
    requires h <= 255 && l <= 255 && t == Pair(h, l)
    ensures t + (y & 0xff00ff) == Pair(h + Red(y), l + Blue(y))
  {
  }

  /** Adding the alpha and green of y to two byte lanes adds lane by lane, without carry. */
  lemma AddAlphaGreen(t: bv32, y: bv32, h: bv32, l: bv32)
    requires h <= 255 && l <= 255 && t == Pair(h, l)
    ensures t + ((y >> 8) & 0xff00ff) == Pair(h + Alpha(y), l + Green(y))
  {
  }

  /** Adding the red and blue of y to two byte lanes and clamping saturates each lane. */
  lemma ClampRedBlue(t: bv32, y: bv32, h: bv32, l: bv32)
    ensures h <= 255 && l <= 255 && t == Pair(h, l)
            ==> Clamp(t + (y & 0xff00ff)) == Pair(SatAdd(h, Red(y)), SatAdd(l, Blue(y)))
  {
    if h <= 255 && l <= 255 && t == Pair(h, l) {
      AddRedBlue(t, y, h, l);
      ByteSum(h, Red(y));
      ByteSum(l, Blue(y));
      ClampPair(h + Red(y), l + Blue(y));
    }
  }

  /** Adding the alpha and green of y to two byte lanes and clamping saturates each lane. */
  lemma ClampAlphaGreen(t: bv32, y: bv32, h: bv32, l: bv32)
    ensures h <= 255 && l <= 255 && t == Pair(h, l)
            ==> Clamp(t + ((y >> 8) & 0xff00ff)) == Pair(SatAdd(h, Alpha(y)), SatAdd(l, Green(y)))
  {
    if h <= 255 && l <= 255 && t == Pair(h, l) {
      AddAlphaGreen(t, y, h, l);
      ByteSum(h, Alpha(y));
      ByteSum(l, Green(y));
      ClampPair(h + Alpha(y), l + Green(y));
    }
  }

  /** Two lane values of at most 0x1fe, merged by or and clamped, saturate each lane. */
  lemma ClampOr(h: bv32, l: bv32)
    ensures h <= 0x1fe && l <= 0x1fe ==> Clamp(l | (h << 16)) == Pair(Min255(h), Min255(l))
  {
    if h <= 0x1fe && l <= 0x1fe {
      assert l | (h << 16) == Pair(h, l);
      ClampPair(h, l);
    }
  }

  /** Two byte lanes rounded in place (bits 8-15 and 24-31), or-ed with two byte lanes, make a pixel. */
  lemma MergeHi(p: bv32, q: bv32, ca: bv32, cr: bv32, cg: bv32, cb: bv32)
    ensures ca <= 255 && cr <= 255 && cg <= 255 && cb <= 255 && p == HiPair(ca, cg) && q == Pair(cr, cb)
            ==> q | p == Pack(ca, cr, cg, cb)
  {
  }

  /** Two byte lanes already shifted up by 8, or-ed with two byte lanes, make a pixel. */
  lemma MergePlaced(p: bv32, q: bv32, ca: bv32, cr: bv32, cg: bv32, cb: bv32)
    ensures ca <= 255 && cr <= 255 && cg <= 255 && cb <= 255 && p == Pair(ca, cg) << 8 && q == Pair(cr, cb)
            ==> q | p == Pack(ca, cr, cg, cb)
  {
  }
}
