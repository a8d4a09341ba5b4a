/**
 * pixman's component-alpha FbByte* kernels: FbByteMulC, FbByteMulAddC and
 * FbByteAddMulC scale each channel of a packed pixel x by the SAME channel
 * of a second pixel a, instead of by one alpha for all four.
 *
 * The red and blue products are formed separately, (x & 0xff) * (a & 0xff)
 * and (x & 0xff0000) * ((a >> 16) & 0xff), and merged with a bitwise or
 * into the two 16-bit lanes of a word; the alpha and green products the
 * same way after x is shifted down by 8. From there on the kernels share
 * the rounding and saturation steps of the single-alpha kernels.
 *
 * FbByteAddMulC rounds its alpha channel with the bias added after the
 * shift (Fixed.Fold8Late) and its green channel at bit 8
 * (Fixed.RoundAt8); both differ from div_255 when the weighted sum is
 * 33023. ByteAddMulC models the kernel as written; ByteAddMulCRounded
 * rounds every channel with div_255.
 */
module ComponentKernels {
  import opened Pixel
  import opened Fixed
  import opened Lanes
  import opened UnifiedKernels
  import opened BlendKernels

  /** The pixel whose four channels all equal k. */
  function Uniform(k: bv32): bv32
  {
    Pack(k, k, k, k)
  }

  /** Every channel of x scaled by the same channel of a: FbIntMult(x_c, a_c). */
  function MulCSpec(x: bv32, a: bv32): bv32
  {
    Pack(IntMult(Alpha(x), Alpha(a)), IntMult(Red(x), Red(a)), IntMult(Green(x), Green(a)), IntMult(Blue(x), Blue(a)))
  }

  /** Two byte products, one of them at bit 16, or-ed into the two lanes of a word. */
  lemma SplitProducts(x: bv32, k: bv32, j: bv32)
    requires k <= 255 && j <= 255
    ensures ((x & 0xff) * j) | ((x & 0xff0000) * k) == Pair(((x >> 16) & 0xff) * k, (x & 0xff) * j)
  {
  }

  /** The red and blue products of FbByteMulC, or-ed together and biased, are two rounded lanes. */
  lemma RedBlueProductsC(x: bv32, a: bv32)
    ensures Rounded(Mul((x >> 16) & 0xff, (a >> 16) & 0xff), Mul(x & 0xff, a & 0xff))
            == (Mul(x & 0xff, a & 0xff) | Mul(x & 0xff0000, (a >> 16) & 0xff)) + 0x800080
  {
    SplitProducts(x, (a >> 16) & 0xff, a & 0xff);
  }

  /** The alpha and green products of FbByteMulC, from x >> 8, or-ed together and biased. */
  lemma AlphaGreenProductsC(x: bv32, a: bv32)
    ensures Rounded(Mul(x >> 24, a >> 24), Mul((x >> 8) & 0xff, (a >> 8) & 0xff))
            == (Mul((x >> 8) & 0xff, (a >> 8) & 0xff) | Mul((x >> 8) & 0xff0000, a >> 24)) + 0x800080
  {
    SplitProducts(x >> 8, a >> 24, (a >> 8) & 0xff);
  }

  /** The red and blue lanes of FbByteMulC: the per-channel products rounded and shifted down. */
  lemma RedBlueScaledC(x: bv32, a: bv32)
    ensures Lo((Mul(x & 0xff, a & 0xff) | Mul(x & 0xff0000, (a >> 16) & 0xff)) + 0x800080)
            == Pair(IntMult(Red(x), Red(a)), IntMult(Blue(x), Blue(a)))
    ensures IntMult(Red(x), Red(a)) <= 255 && IntMult(Blue(x), Blue(a)) <= 255
  {
    IntMultIsDiv255(Red(x), Red(a));
    IntMultIsDiv255(Blue(x), Blue(a));
    RedBlueProductsC(x, a);
    RoundLo(Mul(Red(x), Red(a)), Mul(Blue(x), Blue(a)));
  }

  /** The alpha and green lanes of FbByteMulC, from x >> 8: the products rounded in place. */
  lemma AlphaGreenScaledC(x: bv32, a: bv32)
    ensures Hi((Mul((x >> 8) & 0xff, (a >> 8) & 0xff) | Mul((x >> 8) & 0xff0000, a >> 24)) + 0x800080)
            == HiPair(IntMult(Alpha(x), Alpha(a)), IntMult(Green(x), Green(a)))
    ensures IntMult(Alpha(x), Alpha(a)) <= 255 && IntMult(Green(x), Green(a)) <= 255
  {
    IntMultIsDiv255(Alpha(x), Alpha(a));
    IntMultIsDiv255(Green(x), Green(a));
    AlphaGreenProductsC(x, a);
    RoundHi(Mul(Alpha(x), Alpha(a)), Mul(Green(x), Green(a)));
  }

  /** The alpha and green lanes of FbByteMulAddC, from x >> 8: the products rounded and shifted down. */
  lemma AlphaGreenScaledDownC(x: bv32, a: bv32)
    ensures Lo((Mul((x >> 8) & 0xff, (a >> 8) & 0xff) | Mul((x >> 8) & 0xff0000, a >> 24)) + 0x800080)
            == Pair(IntMult(Alpha(x), Alpha(a)), IntMult(Green(x), Green(a)))
    ensures IntMult(Alpha(x), Alpha(a)) <= 255 && IntMult(Green(x), Green(a)) <= 255
  {
    IntMultIsDiv255(Alpha(x), Alpha(a));
    IntMultIsDiv255(Green(x), Green(a));
    AlphaGreenProductsC(x, a);
    RoundLo(Mul(Alpha(x), Alpha(a)), Mul(Green(x), Green(a)));
  }

  /**
   * FbByteMulC step by step: when r holds the biased red and blue
   * products, r' is r rounded down and t holds the biased alpha and green
   * products, r' or-ed with t rounded in place is MulCSpec(x, a).
   */
  lemma MulCSteps(x: bv32, a: bv32, r: bv32, r': bv32, t: bv32)
    ensures r == (Mul(x & 0xff, a & 0xff) | Mul(x & 0xff0000, (a >> 16) & 0xff)) + 0x800080 && r' == Lo(r)
            && t == (Mul((x >> 8) & 0xff, (a >> 8) & 0xff) | Mul((x >> 8) & 0xff0000, a >> 24)) + 0x800080
            ==> r' | Hi(t) == MulCSpec(x, a)
  {
    if r == (Mul(x & 0xff, a & 0xff) | Mul(x & 0xff0000, (a >> 16) & 0xff)) + 0x800080 && r' == Lo(r)
       && t == (Mul((x >> 8) & 0xff, (a >> 8) & 0xff) | Mul((x >> 8) & 0xff0000, a >> 24)) + 0x800080 {
      RedBlueScaledC(x, a);
      AlphaGreenScaledC(x, a);
      MergeHi(Hi(t), r', IntMult(Alpha(x), Alpha(a)), IntMult(Red(x), Red(a)), IntMult(Green(x), Green(a)), IntMult(Blue(x), Blue(a)));
    }
  }

  /**
   * FbByteMulC(x, a): x_c = x_c * a_c / 255 for every channel. The three
   * statements that build each word of products (multiply, or in the
   * second product, add the bias) are one expression here.
   */
  method ByteMulC(x: bv32, a: bv32) returns (x': bv32)
    ensures x' == MulCSpec(x, a)
  {
    var r := (Mul(x & 0xff, a & 0xff) | Mul(x & 0xff0000, (a >> 16) & 0xff)) + 0x800080;
    var r' := Lo(r);
    // x >>= 8: the alpha and green products read x shifted down by 8.
    var t := (Mul((x >> 8) & 0xff, (a >> 8) & 0xff) | Mul((x >> 8) & 0xff0000, a >> 24)) + 0x800080;
    MulCSteps(x, a, r, r', t);
    x' := r' | Hi(t);
  }

  /** Every channel of x scaled by the same channel of a, plus the channel of y, saturated. */
  function MulAddCSpec(x: bv32, a: bv32, y: bv32): bv32
  {
    Pack(SatAdd(IntMult(Alpha(x), Alpha(a)), Alpha(y)), SatAdd(IntMult(Red(x), Red(a)), Red(y)),
         SatAdd(IntMult(Green(x), Green(a)), Green(y)), SatAdd(IntMult(Blue(x), Blue(a)), Blue(y)))
  }

  /**
   * FbByteMulAddC step by step: r holds the biased red and blue products,
   * r1 is r rounded down and r2 is r1 plus the red and blue of y,
   * saturated; t, t1 and t2 the same for alpha and green. Then r2 or-ed
   * with t2 shifted up by 8 is MulAddCSpec(x, a, y).
   */
  lemma MulAddCSteps(x: bv32, a: bv32, y: bv32, r: bv32, r1: bv32, r2: bv32, t: bv32, t1: bv32, t2: bv32)
    ensures r == (Mul(x & 0xff, a & 0xff) | Mul(x & 0xff0000, (a >> 16) & 0xff)) + 0x800080
            && r1 == Lo(r) && r2 == Clamp(r1 + (y & 0xff00ff))
            && t == (Mul((x >> 8) & 0xff, (a >> 8) & 0xff) | Mul((x >> 8) & 0xff0000, a >> 24)) + 0x800080
            && t1 == Lo(t) && t2 == Clamp(t1 + ((y >> 8) & 0xff00ff))
            ==> r2 | (t2 << 8) == MulAddCSpec(x, a, y)
  {
    if r == (Mul(x & 0xff, a & 0xff) | Mul(x & 0xff0000, (a >> 16) & 0xff)) + 0x800080
       && r1 == Lo(r) && r2 == Clamp(r1 + (y & 0xff00ff))
       && t == (Mul((x >> 8) & 0xff, (a >> 8) & 0xff) | Mul((x >> 8) & 0xff0000, a >> 24)) + 0x800080
       && t1 == Lo(t) && t2 == Clamp(t1 + ((y >> 8) & 0xff00ff)) {
      RedBlueScaledC(x, a);
      AlphaGreenScaledDownC(x, a);
      ClampRedBlue(r1, y, IntMult(Red(x), Red(a)), IntMult(Blue(x), Blue(a)));
      ClampAlphaGreen(t1, y, IntMult(Alpha(x), Alpha(a)), IntMult(Green(x), Green(a)));
      MergeShifted(t2, r2, SatAdd(IntMult(Alpha(x), Alpha(a)), Alpha(y)), SatAdd(IntMult(Red(x), Red(a)), Red(y)),
                   SatAdd(IntMult(Green(x), Green(a)), Green(y)), SatAdd(IntMult(Blue(x), Blue(a)), Blue(y)));
    }
  }

  /**
   * FbByteMulAddC(x, a, y): x_c = min(255, x_c * a_c / 255 + y_c) for
   * every channel. Each word of products is one expression, as in
   * ByteMulC, and so is each add-and-saturate step.
   */
  method ByteMulAddC(x: bv32, a: bv32, y: bv32) returns (x': bv32)
    ensures x' == MulAddCSpec(x, a, y)
  {
    var r := (Mul(x & 0xff, a & 0xff) | Mul(x & 0xff0000, (a >> 16) & 0xff)) + 0x800080;
    var r1 := Lo(r);
    var r2 := Clamp(r1 + (y & 0xff00ff));
    // x >>= 8: the alpha and green products read x shifted down by 8.
    var t := (Mul((x >> 8) & 0xff, (a >> 8) & 0xff) | Mul((x >> 8) & 0xff0000, a >> 24)) + 0x800080;
    var t1 := Lo(t);
    var t2 := Clamp(t1 + ((y >> 8) & 0xff00ff));
    MulAddCSteps(x, a, y, r, r1, r2, t, t1, t2);
    x' := r2 | (t2 << 8);
  }

  /** Every channel: min(255, div_255(x_c * a_c + y_c * b)). */
  function AddMulCSpec(x: bv32, a: bv32, y: bv32, b: bv32): bv32
  {
    Pack(Min255(Div255(Blend(Alpha(x), Alpha(a), Alpha(y), b))), Min255(Div255(Blend(Red(x), Red(a), Red(y), b))),
         Min255(Div255(Blend(Green(x), Green(a), Green(y), b))), Min255(Div255(Blend(Blue(x), Blue(a), Blue(y), b))))
  }

  /** What FbByteAddMulC computes: as AddMulCSpec, except for the rounding of the alpha and green channels. */
  function AddMulCAsWritten(x: bv32, a: bv32, y: bv32, b: bv32): bv32
  {
    Pack(Min255(Fold8Late(Blend(Alpha(x), Alpha(a), Alpha(y), b))), Min255(Div255(Blend(Red(x), Red(a), Red(y), b))),
         Min255(RoundAt8(Blend(Green(x), Green(a), Green(y), b))), Min255(Div255(Blend(Blue(x), Blue(a), Blue(y), b))))
  }

  /** Folded with the late bias, the alpha channel of FbByteAddMulC is at most 510. */
  lemma LateFolds(c: bv32, a: bv32, d: bv32, b: bv32)
    ensures c <= 255 && a <= 255 && d <= 255 && b <= 255 ==> Fold8Late(Blend(c, a, d, b)) <= 0x1fe
  {
    BlendBound(c, a, d, b);
    Fold8LateWide(Blend(c, a, d, b));
  }

  /** The green products of FbByteAddMulC, taken at bit 8 and folded by 16, are the green rounding at bit 8, at most 510. */
  lemma GreenFoldsInPlace(x: bv32, k: bv32, y: bv32, b: bv32)
    ensures Fold16(Blend(x & 0xff00, k, y & 0xff00, b)) == RoundAt8(Blend(Green(x), k, Green(y), b))
    ensures k <= 255 && b <= 255 ==> RoundAt8(Blend(Green(x), k, Green(y), b)) <= 0x1fe
  {
    GreenInPlace(x, k, y, b);
    FoldAt8(Blend(Green(x), k, Green(y), b), Blend(x & 0xff00, k, y & 0xff00, b));
    GreenFolds(Green(x), k, Green(y), b);
  }

  /** The alpha and green channels of FbByteAddMulC as written, merged by or and saturated: the lanes are ca and cg. */
  lemma AlphaGreenBlendsAsWrittenC(x: bv32, a: bv32, y: bv32, b: bv32, h: bv32, l: bv32, ca: bv32, cg: bv32)
    ensures b <= 255
            && h == Fold8Late(Blend(Alpha(x), Alpha(a), Alpha(y), b)) && l == Fold16(Blend(x & 0xff00, Green(a), y & 0xff00, b))
            && ca == Min255(Fold8Late(Blend(Alpha(x), Alpha(a), Alpha(y), b))) && cg == Min255(RoundAt8(Blend(Green(x), Green(a), Green(y), b)))
            ==> Clamp(l | (h << 16)) == Pair(ca, cg)
  {
    LateFolds(Alpha(x), Alpha(a), Alpha(y), b);
    GreenFoldsInPlace(x, Green(a), y, b);
    ClampOr(h, l);
  }

  /** The alpha and green channels rounded with div_255, merged by or and saturated. */
  lemma AlphaGreenBlendsC(x: bv32, a: bv32, y: bv32, b: bv32, h: bv32, l: bv32, ca: bv32, cg: bv32)
    ensures b <= 255
            && h == Fold8(Blend(Alpha(x), Alpha(a), Alpha(y), b) + 0x80) && l == Fold8(Blend(Green(x), Green(a), Green(y), b) + 0x80)
            && ca == Min255(Div255(Blend(Alpha(x), Alpha(a), Alpha(y), b))) && cg == Min255(Div255(Blend(Green(x), Green(a), Green(y), b)))
            ==> Clamp(l | (h << 16)) == Pair(ca, cg)
  {
    BlendRounds(Alpha(x), Alpha(a), Alpha(y), b);
    BlendRounds(Green(x), Green(a), Green(y), b);
    ClampOr(h, l);
  }

  /** The red and blue channels of FbByteAddMulC, merged by or and saturated: the lanes are cr and cb. */
  lemma RedBlueBlendsC(x: bv32, a: bv32, y: bv32, b: bv32, h: bv32, l: bv32, cr: bv32, cb: bv32)
    ensures b <= 255
            && h == Fold8(Blend(Red(x), Red(a), Red(y), b) + 0x80) && l == Fold8(Blend(Blue(x), Blue(a), Blue(y), b) + 0x80)
            && cr == Min255(Div255(Blend(Red(x), Red(a), Red(y), b))) && cb == Min255(Div255(Blend(Blue(x), Blue(a), Blue(y), b)))
            ==> Clamp(l | (h << 16)) == Pair(cr, cb)
  {
    BlendRounds(Red(x), Red(a), Red(y), b);
    BlendRounds(Blue(x), Blue(a), Blue(y), b);
    ClampOr(h, l);
  }

  /** The four channels of AddMulCAsWritten, the upper lanes shifted into place and or-ed with the lower, make it. */
  lemma MergeBlendsAsWrittenC(x: bv32, a: bv32, y: bv32, b: bv32, p: bv32, q: bv32, ca: bv32, cr: bv32, cg: bv32, cb: bv32)
    ensures ca == Min255(Fold8Late(Blend(Alpha(x), Alpha(a), Alpha(y), b))) && cr == Min255(Div255(Blend(Red(x), Red(a), Red(y), b)))
            && cg == Min255(RoundAt8(Blend(Green(x), Green(a), Green(y), b))) && cb == Min255(Div255(Blend(Blue(x), Blue(a), Blue(y), b)))
            && p == Pair(ca, cg) << 8 && q == Pair(cr, cb)
            ==> q | p == AddMulCAsWritten(x, a, y, b)
  {
    MergePlaced(p, q, ca, cr, cg, cb);
  }

  /** The same for AddMulCSpec. */
  lemma MergeBlendsC(x: bv32, a: bv32, y: bv32, b: bv32, p: bv32, q: bv32, ca: bv32, cr: bv32, cg: bv32, cb: bv32)
    ensures ca == Min255(Div255(Blend(Alpha(x), Alpha(a), Alpha(y), b))) && cr == Min255(Div255(Blend(Red(x), Red(a), Red(y), b)))
            && cg == Min255(Div255(Blend(Green(x), Green(a), Green(y), b))) && cb == Min255(Div255(Blend(Blue(x), Blue(a), Blue(y), b)))
            && p == Pair(ca, cg) << 8 && q == Pair(cr, cb)
            ==> q | p == AddMulCSpec(x, a, y, b)
  {
    MergePlaced(p, q, ca, cr, cg, cb);
  }

  /** FbByteAddMulC(x, a, y, b), as written. */
  method ByteAddMulC(x: bv32, a: bv32, y: bv32, b: bv32) returns (x': bv32)
    ensures b <= 255 ==> x' == AddMulCAsWritten(x, a, y, b)
  {
    ghost var ca, cr := Min255(Fold8Late(Blend(Alpha(x), Alpha(a), Alpha(y), b))), Min255(Div255(Blend(Red(x), Red(a), Red(y), b)));
    ghost var cg, cb := Min255(RoundAt8(Blend(Green(x), Green(a), Green(y), b))), Min255(Div255(Blend(Blue(x), Blue(a), Blue(y), b)));
    var r := Blend(Alpha(x), Alpha(a), Alpha(y), b);
    r := Fold8Late(r);
    var t := Blend(x & 0xff00, Green(a), y & 0xff00, b);
    t := Fold16(t);
    AlphaGreenBlendsAsWrittenC(x, a, y, b, r, t, ca, cg);
    t := Clamp(t | (r << 16));
    t := t << 8;

    r := Blend(Red(x), Red(a), Red(y), b) + 0x80;
    r := Fold8(r);
    x' := Blend(Blue(x), Blue(a), Blue(y), b) + 0x80;
    x' := Fold8(x');
    RedBlueBlendsC(x, a, y, b, r, x', cr, cb);
    x' := Clamp(x' | (r << 16));
    MergeBlendsAsWrittenC(x, a, y, b, t, x', ca, cr, cg, cb);
    x' := x' | t;
  }

  /** FbByteAddMulC with the alpha and green channels rounded like the others. */
  method ByteAddMulCRounded(x: bv32, a: bv32, y: bv32, b: bv32) returns (x': bv32)
    ensures b <= 255 ==> x' == AddMulCSpec(x, a, y, b)
  {
    ghost var ca, cr := Min255(Div255(Blend(Alpha(x), Alpha(a), Alpha(y), b))), Min255(Div255(Blend(Red(x), Red(a), Red(y), b)));
    ghost var cg, cb := Min255(Div255(Blend(Green(x), Green(a), Green(y), b))), Min255(Div255(Blend(Blue(x), Blue(a), Blue(y), b)));
    var r := Blend(Alpha(x), Alpha(a), Alpha(y), b) + 0x80;
    r := Fold8(r);
    var t := Blend(Green(x), Green(a), Green(y), b) + 0x80;
    t := Fold8(t);
    AlphaGreenBlendsC(x, a, y, b, r, t, ca, cg);
    t := Clamp(t | (r << 16));
    t := t << 8;

    r := Blend(Red(x), Red(a), Red(y), b) + 0x80;
    r := Fold8(r);
    x' := Blend(Blue(x), Blue(a), Blue(y), b) + 0x80;
    x' := Fold8(x');
    RedBlueBlendsC(x, a, y, b, r, x', cr, cb);
    x' := Clamp(x' | (r << 16));
    MergeBlendsC(x, a, y, b, t, x', ca, cr, cg, cb);
    x' := x' | t;
  }

  /** The channels of a uniform pixel all equal k. */
  lemma UniformChannels(k: bv32)
    requires k <= 255
    ensures Alpha(Uniform(k)) == k && Red(Uniform(k)) == k && Green(Uniform(k)) == k && Blue(Uniform(k)) == k
  {
    ChannelsOfPack(k, k, k, k);
  }

  /** FbByteMulC agrees with the single-lane FbInC applied at each of the four offsets. */
  lemma MulCSpecByLanes(x: bv32, a: bv32)
    ensures MulCSpec(x, a) == InC(x, 24, a) | InC(x, 16, a) | InC(x, 8, a) | InC(x, 0, a)
  {
    Get8Channels(x);
    Get8Channels(a);
    PackOfPlaces(IntMult(Alpha(x), Alpha(a)), IntMult(Red(x), Red(a)), IntMult(Green(x), Green(a)), IntMult(Blue(x), Blue(a)),
                 InC(x, 24, a), InC(x, 16, a), InC(x, 8, a), InC(x, 0, a));
  }

  /** With the same alpha k in every channel of a, FbByteMulC is FbByteMul by k. */
  lemma MulCSpecUniform(x: bv32, k: bv32)
    requires k <= 255
    ensures MulCSpec(x, Uniform(k)) == MulSpec(x, k)
  {
    UniformChannels(k);
  }

  /** Scaling channel by channel is symmetric in the two pixels. */
  lemma MulCSpecCommutes(x: bv32, a: bv32)
    ensures MulCSpec(x, a) == MulCSpec(a, x)
  {
    IntMultUnitZero(Alpha(x), Alpha(a));
    IntMultUnitZero(Red(x), Red(a));
    IntMultUnitZero(Green(x), Green(a));
    IntMultUnitZero(Blue(x), Blue(a));
  }

  /** FbByteMulAddC agrees with the single-lane FbOverC (y's lane plus x's lane scaled by a's) at each offset. */
  lemma MulAddCSpecByLanes(x: bv32, a: bv32, y: bv32)
    ensures MulAddCSpec(x, a, y) == OverC(y, x, 24, a) | OverC(y, x, 16, a) | OverC(y, x, 8, a) | OverC(y, x, 0, a)
  {
    Get8Channels(x);
    Get8Channels(y);
    Get8Channels(a);
    OverCLane(y, x, 24, a);
    OverCLane(y, x, 16, a);
    OverCLane(y, x, 8, a);
    OverCLane(y, x, 0, a);
    PackOfPlaces(SatAdd(IntMult(Alpha(x), Alpha(a)), Alpha(y)), SatAdd(IntMult(Red(x), Red(a)), Red(y)),
                 SatAdd(IntMult(Green(x), Green(a)), Green(y)), SatAdd(IntMult(Blue(x), Blue(a)), Blue(y)),
                 OverC(y, x, 24, a), OverC(y, x, 16, a), OverC(y, x, 8, a), OverC(y, x, 0, a));
  }

  /** With the same alpha k in every channel of a, FbByteMulAddC is FbByteMulAdd by k. */
  lemma MulAddCSpecUniform(x: bv32, k: bv32, y: bv32)
    requires k <= 255
    ensures MulAddCSpec(x, Uniform(k), y) == MulAddSpec(x, k, y)
  {
    UniformChannels(k);
  }

  /** With nothing to add, FbByteMulAddC is FbByteMulC. */
  lemma MulAddCSpecNoAddend(x: bv32, a: bv32)
    ensures MulAddCSpec(x, a, 0) == MulCSpec(x, a)
  {
    SatAddZero(IntMult(Alpha(x), Alpha(a)), Alpha(0));
    SatAddZero(IntMult(Red(x), Red(a)), Red(0));
    SatAddZero(IntMult(Green(x), Green(a)), Green(0));
    SatAddZero(IntMult(Blue(x), Blue(a)), Blue(0));
  }

  /** With the same alpha k in every channel of a, the corrected FbByteAddMulC is FbByteAddMul by k. */
  lemma AddMulCSpecUniform(x: bv32, k: bv32, y: bv32, b: bv32)
    requires k <= 255
    ensures AddMulCSpec(x, Uniform(k), y, b) == AddMulSpec(x, k, y, b)
  {
    UniformChannels(k);
  }

  /** FbByteAddMulC as written agrees with AddMulCSpec on red and blue; alpha and green are rounded differently. */
  lemma AddMulCAsWrittenChannels(x: bv32, a: bv32, y: bv32, b: bv32)
    ensures Red(AddMulCAsWritten(x, a, y, b)) == Red(AddMulCSpec(x, a, y, b))
    ensures Blue(AddMulCAsWritten(x, a, y, b)) == Blue(AddMulCSpec(x, a, y, b))
    ensures Alpha(AddMulCAsWritten(x, a, y, b)) == Min255(Fold8Late(Blend(Alpha(x), Alpha(a), Alpha(y), b)))
    ensures Green(AddMulCAsWritten(x, a, y, b)) == Min255(RoundAt8(Blend(Green(x), Green(a), Green(y), b)))
  {
    ChannelsOfPack(Min255(Div255(Blend(Alpha(x), Alpha(a), Alpha(y), b))), Min255(Div255(Blend(Red(x), Red(a), Red(y), b))),
                   Min255(Div255(Blend(Green(x), Green(a), Green(y), b))), Min255(Div255(Blend(Blue(x), Blue(a), Blue(y), b))));
    ChannelsOfPack(Min255(Fold8Late(Blend(Alpha(x), Alpha(a), Alpha(y), b))), Min255(Div255(Blend(Red(x), Red(a), Red(y), b))),
                   Min255(RoundAt8(Blend(Green(x), Green(a), Green(y), b))), Min255(Div255(Blend(Blue(x), Blue(a), Blue(y), b))));
  }

  /**
   * White scaled by 129 in every channel plus mid-grey 0x80 at weight 1:
   * every weighted sum is 33023, which div_255 rounds to 130 but both the
   * alpha and the green rounding of FbByteAddMulC round to 129.
   */
  lemma AddMulCCounterexample()
    ensures Div255(33023) == 130 && Fold8Late(33023) == 129 && RoundAt8(33023) == 129
    ensures AddMulCSpec(0xffffffff, 0x81818181, 0x80808080, 1) == 0x82828282
    ensures AddMulCAsWritten(0xffffffff, 0x81818181, 0x80808080, 1) == 0x81828182
  {
  }
}
