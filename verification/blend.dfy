/**
 * pixman's FbByteAddMul and FbByteAddMul_256: the weighted sum of two
 * packed pixels, x_c * a + y_c * b for every channel c, divided by 255
 * (with saturation) or by 256.
 *
 * FbByteAddMul does its alpha, red and blue channels one at a time with
 * the div_255 rounding, but its green channel with a different rounding
 * on a sum kept at bit 8. The two roundings disagree when the sum is
 * 33023, so equal channel inputs can give a green channel one below the
 * others. ByteAddMul models the kernel as written; ByteAddMulRounded is
 * the kernel with the green channel rounded like the rest.
 *
 * Each sum of two products c * a + d * b in the macros is written here
 * as Blend(c, a, d, b), and Alpha(x), Red(x), Blue(x) name x >> 24,
 * (x >> 16) & 0xff and x & 0xff.
 */
module BlendKernels {
  import opened Pixel
  import opened Fixed
  import opened Lanes
  import opened UnifiedKernels

  /** Every channel: min(255, div_255(x_c * a + y_c * b)). */
  function AddMulSpec(x: bv32, a: bv32, y: bv32, b: bv32): bv32
  {
    Pack(Min255(Div255(Blend(Alpha(x), a, Alpha(y), b))), Min255(Div255(Blend(Red(x), a, Red(y), b))),
         Min255(Div255(Blend(Green(x), a, Green(y), b))), Min255(Div255(Blend(Blue(x), a, Blue(y), b))))
  }

  /** What FbByteAddMul computes: as AddMulSpec, except for the rounding of the green channel. */
  function AddMulAsWritten(x: bv32, a: bv32, y: bv32, b: bv32): bv32
  {
    Pack(Min255(Div255(Blend(Alpha(x), a, Alpha(y), b))), Min255(Div255(Blend(Red(x), a, Red(y), b))),
         Min255(RoundAt8(Blend(Green(x), a, Green(y), b))), Min255(Div255(Blend(Blue(x), a, Blue(y), b))))
  }

  /** One channel of FbByteAddMul: the biased weighted sum, folded, is its div_255, at most 510. */
  lemma BlendRounds(c: bv32, a: bv32, d: bv32, b: bv32)
    ensures Fold8(Blend(c, a, d, b) + 0x80) == Div255(Blend(c, a, d, b))
    ensures c <= 255 && a <= 255 && d <= 255 && b <= 255 ==> Div255(Blend(c, a, d, b)) <= 0x1fe
  {
    Fold8IsDiv255(Blend(c, a, d, b));
    BlendBound(c, a, d, b);
  }

  /** The green byte of a pixel, left in place, is the green channel times 256. */
  lemma GreenAtEight(x: bv32)
    ensures x & 0xff00 == Green(x) * 256
  {
  }

  /** The green products of FbByteAddMul, taken at bit 8, are the green weighted sum at bit 8. */
  lemma GreenInPlace(x: bv32, a: bv32, y: bv32, b: bv32)
    ensures Blend(x & 0xff00, a, y & 0xff00, b) == Blend(Green(x), a, Green(y), b) * 256
  {
    GreenAtEight(x);
    GreenAtEight(y);
    BlendInPlace(x & 0xff00, y & 0xff00, Green(x), a, Green(y), b);
  }

  /** Folded by 16, the green channel of FbByteAddMul is at most 510. */
  lemma GreenFolds(c: bv32, a: bv32, d: bv32, b: bv32)
    ensures c <= 255 && a <= 255 && d <= 255 && b <= 255 ==> RoundAt8(Blend(c, a, d, b)) <= 0x1fe
  {
    BlendBound(c, a, d, b);
    RoundAt8Wide(Blend(c, a, d, b));
  }

  /**
   * The alpha and green channels of FbByteAddMul with div_255 rounding,
   * merged by or into the lanes of a word and saturated: the lanes are
   * ca and cg, the channels min(255, div_255(x_c * a + y_c * b)).
   */
  lemma AlphaGreenBlends(x: bv32, a: bv32, y: bv32, b: bv32, h: bv32, l: bv32, ca: bv32, cg: bv32)
    ensures a <= 255 && b <= 255
            && h == Fold8(Blend(Alpha(x), a, Alpha(y), b) + 0x80) && l == Fold8(Blend(Green(x), a, Green(y), b) + 0x80)
            && ca == Min255(Div255(Blend(Alpha(x), a, Alpha(y), b))) && cg == Min255(Div255(Blend(Green(x), a, Green(y), b)))
            ==> Clamp(l | (h << 16)) == Pair(ca, cg)
  {
    BlendRounds(Alpha(x), a, Alpha(y), b);
    BlendRounds(Green(x), a, Green(y), b);
    ClampOr(h, l);
  }

  /** The same for the alpha channel and the green channel as FbByteAddMul rounds it, at bit 8. */
  lemma AlphaGreenBlendsAsWritten(x: bv32, a: bv32, y: bv32, b: bv32, h: bv32, l: bv32, ca: bv32, cg: bv32)
    ensures a <= 255 && b <= 255
            && h == Fold8(Blend(Alpha(x), a, Alpha(y), b) + 0x80) && l == Fold16(Blend(x & 0xff00, a, y & 0xff00, b))
            && ca == Min255(Div255(Blend(Alpha(x), a, Alpha(y), b))) && cg == Min255(RoundAt8(Blend(Green(x), a, Green(y), b)))
            ==> Clamp(l | (h << 16)) == Pair(ca, cg)
  {
    BlendRounds(Alpha(x), a, Alpha(y), b);
    GreenInPlace(x, a, y, b);
    FoldAt8(Blend(Green(x), a, Green(y), b), Blend(x & 0xff00, a, y & 0xff00, b));
    GreenFolds(Green(x), a, Green(y), b);
    ClampOr(h, l);
  }

  /** The red and blue channels of FbByteAddMul, merged and saturated: the lanes are cr and cb. */
  lemma RedBlueBlends(x: bv32, a: bv32, y: bv32, b: bv32, h: bv32, l: bv32, cr: bv32, cb: bv32)
    ensures a <= 255 && b <= 255
            && h == Fold8(Blend(Red(x), a, Red(y), b) + 0x80) && l == Fold8(Blend(Blue(x), a, Blue(y), b) + 0x80)
            && cr == Min255(Div255(Blend(Red(x), a, Red(y), b))) && cb == Min255(Div255(Blend(Blue(x), a, Blue(y), b)))
            ==> Clamp(l | (h << 16)) == Pair(cr, cb)
  {
    BlendRounds(Red(x), a, Red(y), b);
    BlendRounds(Blue(x), a, Blue(y), b);
    ClampOr(h, l);
  }

  /** The four channels of AddMulSpec, the upper lanes shifted into place and or-ed with the lower, make it. */
  lemma MergeBlends(x: bv32, a: bv32, y: bv32, b: bv32, p: bv32, q: bv32, ca: bv32, cr: bv32, cg: bv32, cb: bv32)
    ensures ca == Min255(Div255(Blend(Alpha(x), a, Alpha(y), b))) && cr == Min255(Div255(Blend(Red(x), a, Red(y), b)))
            && cg == Min255(Div255(Blend(Green(x), a, Green(y), b))) && cb == Min255(Div255(Blend(Blue(x), a, Blue(y), b)))
            && p == Pair(ca, cg) << 8 && q == Pair(cr, cb)
            ==> q | p == AddMulSpec(x, a, y, b)
  {
    MergePlaced(p, q, ca, cr, cg, cb);
  }

  /** The same for AddMulAsWritten. */
  lemma MergeBlendsAsWritten(x: bv32, a: bv32, y: bv32, b: bv32, p: bv32, q: bv32, ca: bv32, cr: bv32, cg: bv32, cb: bv32)
    ensures ca == Min255(Div255(Blend(Alpha(x), a, Alpha(y), b))) && cr == Min255(Div255(Blend(Red(x), a, Red(y), b)))
            && cg == Min255(RoundAt8(Blend(Green(x), a, Green(y), b))) && cb == Min255(Div255(Blend(Blue(x), a, Blue(y), b)))
            && p == Pair(ca, cg) << 8 && q == Pair(cr, cb)
            ==> q | p == AddMulAsWritten(x, a, y, b)
  {
    MergePlaced(p, q, ca, cr, cg, cb);
  }

  /** FbByteAddMul(x, a, y, b), as written. */
  method ByteAddMul(x: bv32, a: bv32, y: bv32, b: bv32) returns (x': bv32)
    ensures a <= 255 && b <= 255 ==> x' == AddMulAsWritten(x, a, y, b)
  {
    ghost var ca, cr := Min255(Div255(Blend(Alpha(x), a, Alpha(y), b))), Min255(Div255(Blend(Red(x), a, Red(y), b)));
    ghost var cg, cb := Min255(RoundAt8(Blend(Green(x), a, Green(y), b))), Min255(Div255(Blend(Blue(x), a, Blue(y), b)));
    var r := Blend(Alpha(x), a, Alpha(y), b) + 0x80;
    r := Fold8(r);
    var t := Blend(x & 0xff00, a, y & 0xff00, b);
    t := Fold16(t);
    AlphaGreenBlendsAsWritten(x, a, y, b, r, t, ca, cg);
    t := Clamp(t | (r << 16));
    t := t << 8;

    r := Blend(Red(x), a, Red(y), b) + 0x80;
    r := Fold8(r);
    x' := Blend(Blue(x), a, Blue(y), b) + 0x80;
    x' := Fold8(x');
    RedBlueBlends(x, a, y, b, r, x', cr, cb);
    x' := Clamp(x' | (r << 16));
    MergeBlendsAsWritten(x, a, y, b, t, x', ca, cr, cg, cb);
    x' := x' | t;
  }

  /** FbByteAddMul with the green channel rounded like the others. */
  method ByteAddMulRounded(x: bv32, a: bv32, y: bv32, b: bv32) returns (x': bv32)
    ensures a <= 255 && b <= 255 ==> x' == AddMulSpec(x, a, y, b)
  {
    ghost var ca, cr := Min255(Div255(Blend(Alpha(x), a, Alpha(y), b))), Min255(Div255(Blend(Red(x), a, Red(y), b)));
    ghost var cg, cb := Min255(Div255(Blend(Green(x), a, Green(y), b))), Min255(Div255(Blend(Blue(x), a, Blue(y), b)));
    var r := Blend(Alpha(x), a, Alpha(y), b) + 0x80;
    r := Fold8(r);
    var t := Blend(Green(x), a, Green(y), b) + 0x80;
    t := Fold8(t);
    AlphaGreenBlends(x, a, y, b, r, t, ca, cg);
    t := Clamp(t | (r << 16));
    t := t << 8;

    r := Blend(Red(x), a, Red(y), b) + 0x80;
    r := Fold8(r);
    x' := Blend(Blue(x), a, Blue(y), b) + 0x80;
    x' := Fold8(x');
    RedBlueBlends(x, a, y, b, r, x', cr, cb);
    x' := Clamp(x' | (r << 16));
    MergeBlends(x, a, y, b, t, x', ca, cr, cg, cb);
    x' := x' | t;
  }

  /** The channels of AddMulSpec are the saturated, div_255-rounded weighted sums. */
  lemma AddMulSpecChannels(x: bv32, a: bv32, y: bv32, b: bv32)
    ensures Alpha(AddMulSpec(x, a, y, b)) == Min255(Div255(Blend(Alpha(x), a, Alpha(y), b)))
    ensures Red(AddMulSpec(x, a, y, b)) == Min255(Div255(Blend(Red(x), a, Red(y), b)))
    ensures Green(AddMulSpec(x, a, y, b)) == Min255(Div255(Blend(Green(x), a, Green(y), b)))
    ensures Blue(AddMulSpec(x, a, y, b)) == Min255(Div255(Blend(Blue(x), a, Blue(y), b)))
  {
    ChannelsOfPack(Min255(Div255(Blend(Alpha(x), a, Alpha(y), b))), Min255(Div255(Blend(Red(x), a, Red(y), b))),
                   Min255(Div255(Blend(Green(x), a, Green(y), b))), Min255(Div255(Blend(Blue(x), a, Blue(y), b))));
  }

  /** The two operands of AddMulSpec, each with its weight, can be swapped. */
  lemma AddMulSpecSwap(x: bv32, a: bv32, y: bv32, b: bv32)
    ensures AddMulSpec(x, a, y, b) == AddMulSpec(y, b, x, a)
  {
  }

  /** One weighted channel with no second term is FbIntMult of the channel and the weight. */
  lemma BlendAlone(c: bv32, a: bv32, d: bv32)
    ensures c <= 255 && a <= 255 ==> Min255(Div255(Blend(c, a, d, 0))) == IntMult(c, a)
  {
    if c <= 255 && a <= 255 {
      assert Blend(c, a, d, 0) == Mul(c, a);
      IntMultIsDiv255(c, a);
    }
  }

  /** With weight 0 on y, AddMulSpec is FbByteMul of x by a. */
  lemma AddMulSpecNoAddend(x: bv32, a: bv32, y: bv32)
    ensures a <= 255 ==> AddMulSpec(x, a, y, 0) == MulSpec(x, a)
  {
    BlendAlone(Alpha(x), a, Alpha(y));
    BlendAlone(Red(x), a, Red(y));
    BlendAlone(Green(x), a, Green(y));
    BlendAlone(Blue(x), a, Blue(y));
  }

  /** Blending two grey pixels gives a grey pixel. */
  lemma AddMulSpecGrey(x: bv32, a: bv32, y: bv32, b: bv32)
    ensures Grey(x) && Grey(y) ==> Grey(AddMulSpec(x, a, y, b))
  {
    AddMulSpecChannels(x, a, y, b);
  }

  /** FbByteAddMul as written agrees with AddMulSpec on alpha, red and blue; only green is rounded differently. */
  lemma AddMulAsWrittenChannels(x: bv32, a: bv32, y: bv32, b: bv32)
    ensures Alpha(AddMulAsWritten(x, a, y, b)) == Alpha(AddMulSpec(x, a, y, b))
    ensures Red(AddMulAsWritten(x, a, y, b)) == Red(AddMulSpec(x, a, y, b))
    ensures Blue(AddMulAsWritten(x, a, y, b)) == Blue(AddMulSpec(x, a, y, b))
    ensures Green(AddMulAsWritten(x, a, y, b)) == Min255(RoundAt8(Blend(Green(x), a, Green(y), b)))
  {
    AddMulSpecChannels(x, a, y, b);
    ChannelsOfPack(Min255(Div255(Blend(Alpha(x), a, Alpha(y), b))), Min255(Div255(Blend(Red(x), a, Red(y), b))),
                   Min255(RoundAt8(Blend(Green(x), a, Green(y), b))), Min255(Div255(Blend(Blue(x), a, Blue(y), b))));
  }

  /**
   * White at weight 129 plus mid-grey 0x80 at weight 1: every weighted sum
   * is 33023, which div_255 rounds to 130 but the green rounding of
   * FbByteAddMul rounds to 129, so two grey inputs give a pixel that is not grey.
   */
  lemma AddMulGreenCounterexample()
    ensures Grey(0xffffffff) && Grey(0x80808080)
    ensures Div255(33023) == 130 && RoundAt8(33023) == 129
    ensures AddMulSpec(0xffffffff, 129, 0x80808080, 1) == 0x82828282
    ensures AddMulAsWritten(0xffffffff, 129, 0x80808080, 1) == 0x82828182
    ensures !Grey(AddMulAsWritten(0xffffffff, 129, 0x80808080, 1))
  {
  }
}
