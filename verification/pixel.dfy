/**
 * Pixel-format helpers of pixman: channel extraction from a packed
 * a8r8g8b8 word, conversion to and from r5g6b5, and the 15-bit indices
 * used to look colours up in an indexed palette.
 *
 * A pixel is a 32-bit word: alpha in bits 24-31, red in 16-23, green in
 * 8-15 and blue in 0-7.
 */
module Pixel {

  /** Alpha(x): bits 24-31. */
  function Alpha(x: bv32): (c: bv32)
    ensures c <= 0xff
  {
    x >> 24
  }

  /** Red(x): bits 16-23. */
  function Red(x: bv32): (c: bv32)
    ensures c <= 0xff
  {
    (x >> 16) & 0xff
  }

  /** Green(x): bits 8-15. */
  function Green(x: bv32): (c: bv32)
    ensures c <= 0xff
  {
    (x >> 8) & 0xff
  }

  /** Blue(x): bits 0-7. */
  function Blue(x: bv32): (c: bv32)
    ensures c <= 0xff
  {
    x & 0xff
  }

  /** The pixel whose four channels are a, r, g and b (each below 256). */
  function Pack(a: bv32, r: bv32, g: bv32, b: bv32): bv32
  {
    (a << 24) | (r << 16) | (g << 8) | b
  }

  /** Packing four 8-bit channels and extracting them again gives them back. */
  lemma ChannelsOfPack(a: bv32, r: bv32, g: bv32, b: bv32)
    requires a <= 0xff && r <= 0xff && g <= 0xff && b <= 0xff
    ensures Alpha(Pack(a, r, g, b)) == a && Red(Pack(a, r, g, b)) == r
    ensures Green(Pack(a, r, g, b)) == g && Blue(Pack(a, r, g, b)) == b
  {
  }

  /** A pixel is determined by its four channels. */
  lemma PackOfChannels(x: bv32)
    ensures Pack(Alpha(x), Red(x), Green(x), Blue(x)) == x
  {
  }

  /** A grey pixel: all four channels equal. */
  predicate Grey(x: bv32)
  {
    Red(x) == Alpha(x) && Green(x) == Alpha(x) && Blue(x) == Alpha(x)
  }

  /** cvt8888to0565: keep the top 5, 6 and 5 bits of red, green and blue. */
  function To565(s: bv32): (p: bv32)
    ensures p <= 0xffff
  {
    ((s >> 3) & 0x001f) | ((s >> 5) & 0x07e0) | ((s >> 8) & 0xf800)
  }

  /** cvt0565to0888: widen each field by repeating its top bits below it. */
  function From565(s: bv32): (x: bv32)
    ensures Alpha(x) == 0
  {
    (((s << 3) & 0xf8) | ((s >> 2) & 0x7))
    | (((s << 5) & 0xfc00) | ((s >> 1) & 0x300))
    | (((s << 8) & 0xf80000) | ((s << 3) & 0x70000))
  }

  /** A 5-bit field widened to 8 bits by bit replication. */
  function Widen5(v: bv32): bv32
  {
    (v << 3) | (v >> 2)
  }

  /** A 6-bit field widened to 8 bits by bit replication. */
  function Widen6(v: bv32): bv32
  {
    (v << 2) | (v >> 4)
  }

  /** The fields of an r5g6b5 value. */
  function Red5(s: bv32): bv32 { (s >> 11) & 0x1f }
  function Green6(s: bv32): bv32 { (s >> 5) & 0x3f }
  function Blue5(s: bv32): bv32 { s & 0x1f }

  /** Replication maps the all-zero field to 0 and the all-ones field to 0xff. */
  lemma WidenEnds()
    ensures Widen5(0) == 0 && Widen5(0x1f) == 0xff
    ensures Widen6(0) == 0 && Widen6(0x3f) == 0xff
  {
  }

  /** To565 keeps exactly the top bits of each colour channel and drops alpha. */
  lemma To565Fields(x: bv32)
    ensures Red5(To565(x)) == Red(x) >> 3
    ensures Green6(To565(x)) == Green(x) >> 2
    ensures Blue5(To565(x)) == Blue(x) >> 3
  {
  }

  /** From565 widens each field of the low 16 bits and leaves alpha zero. */
  lemma From565Fields(s: bv32)
    ensures Red(From565(s)) == Widen5(Red5(s))
    ensures Green(From565(s)) == Widen6(Green6(s))
    ensures Blue(From565(s)) == Widen5(Blue5(s))
    ensures Alpha(From565(s)) == 0
  {
  }

  /** Converting an r5g6b5 value to a8r8g8b8 and back is the identity. */
  lemma From565RoundTrip(s: bv32)
    requires s <= 0xffff
    ensures To565(From565(s)) == s
  {
  }

  /** Converting to r5g6b5 and back loses only the low bits of each channel. */
  lemma To565RoundTrip(x: bv32)
    ensures Red(From565(To565(x))) >> 3 == Red(x) >> 3
    ensures Green(From565(To565(x))) >> 2 == Green(x) >> 2
    ensures Blue(From565(To565(x))) >> 3 == Blue(x) >> 3
    ensures Alpha(From565(To565(x))) == 0
  {
  }

  /** An all-ones 5- or 6-bit field comes out as a full 0xff channel. */
  lemma From565Saturated(s: bv32)
    ensures Red5(s) == 0x1f ==> Red(From565(s)) == 0xff
    ensures Green6(s) == 0x3f ==> Green(From565(s)) == 0xff
    ensures Blue5(s) == 0x1f ==> Blue(From565(s)) == 0xff
  {
    From565Fields(s);
    WidenEnds();
  }

  /** Size of an indexed palette: one entry per 15-bit index. */
  const PaletteSize: nat := 32768

  /** miCvtR8G8B8to15: the top 5 bits of red, green and blue as an x1r5g5b5 index. */
  function Cvt15(s: bv32): (i: bv32)
    ensures i < 32768
  {
    ((s >> 3) & 0x001f) | ((s >> 6) & 0x03e0) | ((s >> 9) & 0x7c00)
  }

  /** Cvt15 places the top five bits of each channel in its own field. */
  lemma Cvt15Fields(s: bv32)
    ensures (Cvt15(s) >> 10) & 0x1f == Red(s) >> 3
    ensures (Cvt15(s) >> 5) & 0x1f == Green(s) >> 3
    ensures Cvt15(s) & 0x1f == Blue(s) >> 3
  {
  }

  /**
   * CvtR8G8B8toY15: a luminance index, 153/512 red + 301/512 green +
   * 58/512 blue scaled to 15 bits. For any pixel it is a valid 15-bit
   * palette index.
   */
  function CvtY15(s: bv32): (i: bv32)
    ensures i < 32768
  {
    CvtY15Terms(s);
    CvtY15Sum(s);
    (((s >> 16) & 0xff) * 153 + ((s >> 8) & 0xff) * 301 + (s & 0xff) * 58) >> 2
  }

  /** Each weighted channel of CvtY15 is at most 255 times its weight. */
  lemma CvtY15Terms(s: bv32)
    ensures ((s >> 16) & 0xff) * 153 <= 39015
    ensures ((s >> 8) & 0xff) * 301 <= 76755
    ensures (s & 0xff) * 58 <= 14790
  {
  }

  /** The weights sum to 512, so the weighted sum over 4 stays below 32768. */
  lemma CvtY15Sum(s: bv32)
    requires ((s >> 16) & 0xff) * 153 <= 39015
    requires ((s >> 8) & 0xff) * 301 <= 76755
    requires (s & 0xff) * 58 <= 14790
    ensures (((s >> 16) & 0xff) * 153 + ((s >> 8) & 0xff) * 301 + (s & 0xff) * 58) >> 2 < 32768
  {
  }

  /** A grey pixel of level v maps to the luminance index v * 128. */
  lemma CvtY15Grey(s: bv32, v: bv32)
    requires Red(s) == v && Green(s) == v && Blue(s) == v
    ensures CvtY15(s) == v * 128
  {
  }

  /** miIndexToEnt15: the palette entry for a 15-bit index. */
  function IndexToEnt15(ent: seq<bv32>, rgb15: bv32): (e: bv32)
    requires |ent| == PaletteSize && rgb15 < 32768
    ensures e in ent
  {
    ent[rgb15 as bv15]
  }

  /** miIndexToEnt24: the palette entry for the 15-bit reduction of a pixel. */
  function IndexToEnt24(ent: seq<bv32>, rgb24: bv32): (e: bv32)
    requires |ent| == PaletteSize
    ensures e == ent[Cvt15(rgb24)]
  {
    IndexToEnt15(ent, Cvt15(rgb24))
  }

  /** miIndexToEntY24: the palette entry for the luminance index of a pixel. */
  function IndexToEntY24(ent: seq<bv32>, rgb24: bv32): (e: bv32)
    requires |ent| == PaletteSize
    ensures e in ent
  {
    ent[CvtY15(rgb24) as bv15]
  }
}
