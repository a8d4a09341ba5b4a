/**
 * The kinds of image, the part of an image header that the access macros
 * and IS_SOURCE_IMAGE look at, and the parameters of one composite call.
 */
module Image {
  datatype Option<T> = None | Some(value: T)

  /** image_type_t: the enumerators in declaration order. */
  datatype ImageType = Bits | Linear | Conical | Radial | Solid

  /** The value of an image_type_t enumerator: its place in the declaration. */
  function Ordinal(t: ImageType): (n: nat)
    ensures n < 5
    ensures n == 0 <==> t == Bits
  {
    match t
    case Bits => 0
    case Linear => 1
    case Conical => 2
    case Radial => 3
    case Solid => 4
  }

  /** Distinct enumerators have distinct values. */
  lemma OrdinalInjective(s: ImageType, t: ImageType)
    ensures Ordinal(s) == Ordinal(t) <==> s == t
  {
  }

  /**
   * The fields every image starts with that this model reads: its type and
   * whether a read or a write accessor is installed.
   */
  datatype ImageCommon = ImageCommon(kind: ImageType, hasReadFunc: bool, hasWriteFunc: bool)

  /** IS_SOURCE_IMAGE: the image's type is declared after BITS, so every type but BITS. */
  predicate IsSourceImage(img: ImageCommon)
    ensures IsSourceImage(img) <==> img.kind != Bits
  {
    Ordinal(img.kind) > Ordinal(Bits)
  }

  /** The source-only images are exactly the gradients and the solid fill. */
  lemma SourceImageKinds(img: ImageCommon)
    ensures IsSourceImage(img) <==> img.kind in {Linear, Conical, Radial, Solid}
    ensures !IsSourceImage(img) <==> img.kind == Bits
  {
  }

  /**
   * The flag ACCESS_MEM computes for an image: memory goes through the
   * accessors when either one is installed, and is touched directly only when
   * neither is.
   */
  function UsesAccessors(img: ImageCommon): (r: bool)
    ensures r <==> img.hasReadFunc || img.hasWriteFunc
    ensures !r ==> img == img.(hasReadFunc := false, hasWriteFunc := false)
  {
    img.hasReadFunc || img.hasWriteFunc
  }

  /**
   * READ inside ACCESS_MEM calls the read accessor whenever the flag is set;
   * it is a function only when one is installed. An image that has a write
   * accessor and no read accessor makes READ call a null pointer.
   */
  predicate ReadsDefined(img: ImageCommon)
  {
    UsesAccessors(img) ==> img.hasReadFunc
  }

  /** As ReadsDefined, for WRITE and the write accessor. */
  predicate WritesDefined(img: ImageCommon)
  {
    UsesAccessors(img) ==> img.hasWriteFunc
  }

  newtype Uint8 = x: int | 0 <= x < 0x100
  newtype Int16 = x: int | -0x8000 <= x < 0x8000
  newtype Uint16 = x: int | 0 <= x < 0x1_0000

  /**
   * FbComposeData: the operator, the three images (the mask may be absent),
   * the source, mask and destination origins, and the size of the rectangle.
   */
  datatype ComposeData = ComposeData(
    op: Uint8,
    src: ImageCommon,
    mask: Option<ImageCommon>,
    dest: ImageCommon,
    xSrc: Int16, ySrc: Int16,
    xMask: Int16, yMask: Int16,
    xDest: Int16, yDest: Int16,
    width: Uint16, height: Uint16)

  /**
   * The fields of FbComposeData keep their C widths: the operator is an
   * 8-bit unsigned code, the origins are 16-bit signed and the size is
   * 16-bit unsigned.
   */
  lemma ComposeDataFields(d: ComposeData)
    ensures 0 <= d.op as int < 0x100
    ensures -0x8000 <= d.xSrc as int < 0x8000 && -0x8000 <= d.ySrc as int < 0x8000
    ensures -0x8000 <= d.xMask as int < 0x8000 && -0x8000 <= d.yMask as int < 0x8000
    ensures -0x8000 <= d.xDest as int < 0x8000 && -0x8000 <= d.yDest as int < 0x8000
    ensures 0 <= d.width as int < 0x1_0000 && 0 <= d.height as int < 0x1_0000
  {
  }
}
