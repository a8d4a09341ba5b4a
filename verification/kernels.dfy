/**
 * pixman's FbByte* kernels with a single (unified) alpha: each one updates
 * a packed a8r8g8b8 pixel x, two channels at a time. Each method follows
 * its macro statement by statement, except that the shared rounding and
 * saturation steps are the named functions Lanes.Lo, Lanes.Hi and
 * Lanes.Clamp; its postcondition is the per-channel formula of the macro's
 * comment.
 */
module UnifiedKernels {
  import opened Pixel
  import opened Fixed
  import opened Lanes

  /** Every channel of x scaled by a: FbIntMult(x_c, a). */
  function MulSpec(x: bv32, a: bv32): bv32
  {
    Pack(IntMult(Alpha(x), a), IntMult(Red(x), a), IntMult(Green(x), a), IntMult(Blue(x), a))
  }

  /** Red and blue lanes of FbByteMul: the products rounded and shifted down. */
  lemma RedBlueScaled(x: bv32, a: bv32)
    ensures a <= 255 ==> Lo((x & 0xff00ff) * a + 0x800080) == Pair(IntMult(Red(x), a), IntMult(Blue(x), a))
    ensures a <= 255 ==> IntMult(Red(x), a) <= 255 && IntMult(Blue(x), a) <= 255
  {
    if a <= 255 {
      IntMultIsDiv255(Red(x), a);
      IntMultIsDiv255(Blue(x), a);
      RedBlueProducts(x, a);
      RoundLo(Mul(Red(x), a), Mul(Blue(x), a));
    }
  }

  /** Alpha and green lanes of FbByteMul: the products rounded in place. */
  lemma AlphaGreenScaled(x: bv32, a: bv32)
    ensures a <= 255 ==> Hi(((x >> 8) & 0xff00ff) * a + 0x800080) == HiPair(IntMult(Alpha(x), a), IntMult(Green(x), a))
    ensures a <= 255 ==> IntMult(Alpha(x), a) <= 255 && IntMult(Green(x), a) <= 255
  {
    if a <= 255 {
      IntMultIsDiv255(Alpha(x), a);
      IntMultIsDiv255(Green(x), a);
      AlphaGreenProducts(x, a);
      RoundHi(Mul(Alpha(x), a), Mul(Green(x), a));
    }
  }

  /** Alpha and green lanes of FbByteMulAdd: the products rounded and shifted down. */
  lemma AlphaGreenScaledDown(x: bv32, a: bv32)
    ensures a <= 255 ==> Lo(((x >> 8) & 0xff00ff) * a + 0x800080) == Pair(IntMult(Alpha(x), a), IntMult(Green(x), a))
    ensures a <= 255 ==> IntMult(Alpha(x), a) <= 255 && IntMult(Green(x), a) <= 255
  {
    if a <= 255 {
      IntMultIsDiv255(Alpha(x), a);
      IntMultIsDiv255(Green(x), a);
      AlphaGreenProducts(x, a);
      RoundLo(Mul(Alpha(x), a), Mul(Green(x), a));
    }
  }

  /** FbByteMul(x, a): x_c = x_c * a / 255 for every channel. */
  method ByteMul(x: bv32, a: bv32) returns (x': bv32)
    ensures a <= 255 ==> x' == MulSpec(x, a)
  {
    var t := ((x & 0xff00ff) * a) + 0x800080;
    RedBlueScaled(x, a);
    t := Lo(t);
    x' := (((x >> 8) & 0xff00ff) * a) + 0x800080;
    AlphaGreenScaled(x, a);
    x' := Hi(x');
    Combine(x', t, IntMult(Alpha(x), a), IntMult(Red(x), a), IntMult(Green(x), a), IntMult(Blue(x), a));
    x' := x' + t;
  }

  /** FbByteMul agrees with the single-lane FbInU applied at each of the four offsets. */
  lemma MulSpecByLanes(x: bv32, a: bv32)
    ensures MulSpec(x, a) == InU(x, 24, a) | InU(x, 16, a) | InU(x, 8, a) | InU(x, 0, a)
  {
    Get8Channels(x);
    PackOfPlaces(IntMult(Alpha(x), a), IntMult(Red(x), a), IntMult(Green(x), a), IntMult(Blue(x), a),
                 InU(x, 24, a), InU(x, 16, a), InU(x, 8, a), InU(x, 0, a));
  }

  /** Each channel of the result is FbIntMult of that channel and a. */
  lemma MulSpecChannels(x: bv32, a: bv32)
    requires a <= 255
    ensures Alpha(MulSpec(x, a)) == IntMult(Alpha(x), a) && Red(MulSpec(x, a)) == IntMult(Red(x), a)
    ensures Green(MulSpec(x, a)) == IntMult(Green(x), a) && Blue(MulSpec(x, a)) == IntMult(Blue(x), a)
  {
    ChannelsOfPack(IntMult(Alpha(x), a), IntMult(Red(x), a), IntMult(Green(x), a), IntMult(Blue(x), a));
  }

  /** Scaling by an opaque alpha keeps the pixel; scaling by 0 clears it. */
  lemma MulSpecUnitZero(x: bv32)
    ensures MulSpec(x, 255) == x && MulSpec(x, 0) == 0
  {
    IntMultUnitZero(Alpha(x), 0);
    IntMultUnitZero(Red(x), 0);
    IntMultUnitZero(Green(x), 0);
    IntMultUnitZero(Blue(x), 0);
    PackOfChannels(x);
  }

  /** Every channel of x scaled by a, plus the channel of y, saturated. */
  function MulAddSpec(x: bv32, a: bv32, y: bv32): bv32
  {
    Pack(SatAdd(IntMult(Alpha(x), a), Alpha(y)), SatAdd(IntMult(Red(x), a), Red(y)),
         SatAdd(IntMult(Green(x), a), Green(y)), SatAdd(IntMult(Blue(x), a), Blue(y)))
  }

  /** FbByteMulAdd(x, a, y): x_c = min(255, x_c * a / 255 + y_c) for every channel. */
  method ByteMulAdd(x: bv32, a: bv32, y: bv32) returns (x': bv32)
    ensures a <= 255 ==> x' == MulAddSpec(x, a, y)
  {
    var t := ((x & 0xff00ff) * a) + 0x800080;
    RedBlueScaled(x, a);
    t := Lo(t);
    ClampRedBlue(t, y, IntMult(Red(x), a), IntMult(Blue(x), a));
    t := t + (y & 0xff00ff);
    t := Clamp(t);

    x' := (((x >> 8) & 0xff00ff) * a) + 0x800080;
    AlphaGreenScaledDown(x, a);
    x' := Lo(x');
    ClampAlphaGreen(x', y, IntMult(Alpha(x), a), IntMult(Green(x), a));
    x' := x' + ((y >> 8) & 0xff00ff);
    x' := Clamp(x');
    CombineShifted(x', t, SatAdd(IntMult(Alpha(x), a), Alpha(y)), SatAdd(IntMult(Red(x), a), Red(y)),
                   SatAdd(IntMult(Green(x), a), Green(y)), SatAdd(IntMult(Blue(x), a), Blue(y)));
    x' := (x' << 8) + t;
  }

  /** FbByteMulAdd agrees with the single-lane FbOverU (y's lane plus x's lane scaled) at each offset. */
  lemma MulAddSpecByLanes(x: bv32, a: bv32, y: bv32)
    requires a <= 255
    ensures MulAddSpec(x, a, y) == OverU(y, x, 24, a) | OverU(y, x, 16, a) | OverU(y, x, 8, a) | OverU(y, x, 0, a)
  {
    Get8Channels(x);
    Get8Channels(y);
    OverULane(y, x, 24, a);
    OverULane(y, x, 16, a);
    OverULane(y, x, 8, a);
    OverULane(y, x, 0, a);
    PackOfPlaces(SatAdd(IntMult(Alpha(x), a), Alpha(y)), SatAdd(IntMult(Red(x), a), Red(y)),
                 SatAdd(IntMult(Green(x), a), Green(y)), SatAdd(IntMult(Blue(x), a), Blue(y)),
                 OverU(y, x, 24, a), OverU(y, x, 16, a), OverU(y, x, 8, a), OverU(y, x, 0, a));
  }

  /** With nothing to add, FbByteMulAdd is FbByteMul. */
  lemma MulAddSpecNoAddend(x: bv32, a: bv32)
    requires a <= 255
    ensures MulAddSpec(x, a, 0) == MulSpec(x, a)
  {
    SatAddZero(IntMult(Alpha(x), a), Alpha(0));
    SatAddZero(IntMult(Red(x), a), Red(0));
    SatAddZero(IntMult(Green(x), a), Green(0));
    SatAddZero(IntMult(Blue(x), a), Blue(0));
  }

  /** Every channel of x plus the channel of y, saturated. */
  function AddSpec(x: bv32, y: bv32): bv32
  {
    Pack(SatAdd(Alpha(x), Alpha(y)), SatAdd(Red(x), Red(y)), SatAdd(Green(x), Green(y)), SatAdd(Blue(x), Blue(y)))
  }

  /** The red and blue lanes of FbByteAdd: the sums, saturated. */
  lemma RedBlueSaturated(x: bv32, y: bv32)
    ensures Clamp((x & 0xff00ff) + (y & 0xff00ff)) == Pair(SatAdd(Red(x), Red(y)), SatAdd(Blue(x), Blue(y)))
  {
    RedBlueSums(x, y);
    ByteSum(Red(x), Red(y));
    ByteSum(Blue(x), Blue(y));
    ClampPair(Red(x) + Red(y), Blue(x) + Blue(y));
  }

  /** The alpha and green lanes of FbByteAdd: the sums, saturated. */
  lemma AlphaGreenSaturated(x: bv32, y: bv32)
    ensures Clamp(((x >> 8) & 0xff00ff) + ((y >> 8) & 0xff00ff)) == Pair(SatAdd(Alpha(x), Alpha(y)), SatAdd(Green(x), Green(y)))
  {
    AlphaGreenSums(x, y);
    ByteSum(Alpha(x), Alpha(y));
    ByteSum(Green(x), Green(y));
    ClampPair(Alpha(x) + Alpha(y), Green(x) + Green(y));
  }

  /** FbByteAdd(x, y): x_c = min(x_c + y_c, 255) for every channel. */
  method ByteAdd(x: bv32, y: bv32) returns (x': bv32)
    ensures x' == AddSpec(x, y)
  {
    var r := (x & 0xff00ff) + (y & 0xff00ff);
    RedBlueSaturated(x, y);
    r := Clamp(r);
    var t := ((x >> 8) & 0xff00ff) + ((y >> 8) & 0xff00ff);
    AlphaGreenSaturated(x, y);
    t := Clamp(t);
    MergeShifted(t, r, SatAdd(Alpha(x), Alpha(y)), SatAdd(Red(x), Red(y)), SatAdd(Green(x), Green(y)), SatAdd(Blue(x), Blue(y)));
    r := r | (t << 8);
    x' := r;
  }

  /** FbByteAdd agrees with the single-lane FbAdd at each of the four offsets. */
  lemma AddSpecByLanes(x: bv32, y: bv32)
    ensures AddSpec(x, y) == Add(x, y, 24) | Add(x, y, 16) | Add(x, y, 8) | Add(x, y, 0)
  {
    Get8Channels(x);
    Get8Channels(y);
    AddLane(x, y, 24);
    AddLane(x, y, 16);
    AddLane(x, y, 8);
    AddLane(x, y, 0);
    PackOfPlaces(SatAdd(Alpha(x), Alpha(y)), SatAdd(Red(x), Red(y)), SatAdd(Green(x), Green(y)), SatAdd(Blue(x), Blue(y)),
                 Add(x, y, 24), Add(x, y, 16), Add(x, y, 8), Add(x, y, 0));
  }

  /** The saturated sum does not depend on the order of its operands. */
  lemma AddSpecCommutes(x: bv32, y: bv32)
    ensures AddSpec(x, y) == AddSpec(y, x)
  {
  }

  /** Adding the zero pixel keeps x. */
  lemma AddSpecZero(x: bv32)
    ensures AddSpec(x, 0) == x
  {
    PackOfChannels(x);
  }
}
