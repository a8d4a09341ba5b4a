# pixman-private.h in Dafny

pixman is a low-level pixel manipulation library, and `pixman-private.h` is its
internal header. Much of the compositing code is written with its macros, and
this project models them:

- **Fixed-point channel arithmetic on 8-bit channels.** `FbIntMult`, `div_255`
  and `FbIntDiv`, plus the single-lane operators `FbOverU/C`, `FbInU/C`,
  `FbGen` and `FbAdd`.
- **The `FbByte*` kernels.** They work on an a8r8g8b8 pixel (a `uint32_t`)
  two channels at a time, keeping two 8-bit channels in one word at bits
  0-15 and 16-31.
- **Pixel helpers.** Channel extraction, the r5g6b5 conversions, and the
  15-bit palette indices.
- **24-bit pixel access.** `Fetch24` and `Store24` on byte-addressed memory,
  in either image byte order and at either address parity.
- **The memory-access macros.** `ACCESS_MEM`, `READ`, `WRITE`,
  `MEMCPY_WRAPPED` and `MEMSET_WRAPPED`. These route every access through
  an image's accessors when it has any.
- **The image kinds and `IS_SOURCE_IMAGE`.**

Each kernel is a method over `bv32` that follows the macro's statements, so
`uint32_t` wrap-around is the bit-vector's own. Each method is proved equal to
a per-channel function of its inputs, which differs from kernel to kernel.
Where a macro takes an 8-bit alpha the equality is stated for alphas up to
255, and for `FbByteAddMul_256` for weights that sum to at most 256:

- `FbByteMul` and `FbByteMulC` follow `MulSpec` and `MulCSpec`: each channel
  is `FbIntMult` of the channel and the alpha (or the alpha's channel).
- `FbByteMulAdd` and `FbByteMulAddC` follow `MulAddSpec` and `MulAddCSpec`:
  that product plus y's channel, saturated at 255.
- `FbByteAdd` follows `AddSpec`: the saturated sum of the two channels.
- `FbByteAddMul` and `FbByteAddMulC` follow `AddMulAsWritten` and
  `AddMulCAsWritten`, which describe what the macros compute as written. Two
  corrected kernels, `ByteAddMulRounded` and `ByteAddMulCRounded`, follow
  `AddMulSpec` and `AddMulCSpec`: `div_255` of the weighted sum, saturated at
  255. "## Findings" says where the two differ.
- `FbByteAddMul_256` follows `AddMul256Spec`: the weighted sum divided by
  256. It is modelled on unsigned integers with explicit reduction modulo
  2^32.

Lemmas then relate these functions to the single-lane operators, to one
another (the component-alpha kernels against the unified ones) and to their
algebraic laws.

Each memory buffer is a byte array indexed by byte offset, and a read
sees it as a sequence of bytes. The image byte order, a
build switch in the library, is a `ByteOrder` parameter. The read and
write accessors that the access macros may call are modelled as the
accessors over plain memory. The access flag that `ACCESS_MEM` computes
(`Image.UsesAccessors`) is a parameter of every access.

Files:
- `scalar.dfy` (module `Fixed`): the scalar rounding and the lane operators.
- `pixel.dfy` (module `Pixel`): channels, r5g6b5 and the palette indices.
- `lanes.dfy` (module `Lanes`): two channels held in one word.
- `kernels.dfy` (module `UnifiedKernels`): `FbByteMul`, `FbByteMulAdd` and
  `FbByteAdd`.
- `blend.dfy` (module `BlendKernels`): `FbByteAddMul`.
- `weighted.dfy` (module `Weighted`): `FbByteAddMul_256`.
- `component.dfy` (module `ComponentKernels`): the `C` kernels.
- `access.dfy` (module `Access`): memory, 24-bit pixels and the wrapped
  memcpy and memset.
- `image.dfy` (module `Image`): the image kinds and `FbComposeData`.

## Model

| member | source | states |
|---|---|---|
| `Fixed.Div255` | pixman/pixman-private.h:470 | div_255 of a byte product is a byte, and of a sum of two byte products at most 510 |
| `Fixed.IntMult` | pixman/pixman-private.h:254 | FbIntMult of two bytes is a byte; IntMultIsDiv255 and IntMultNearest give its value |
| `Fixed.IntMultIsDiv255` | pixman/pixman-private.h:254 | For two bytes, FbIntMult is div_255 of their product, and the product is at most 255 * 255 |
| `Fixed.Div255Nearest` | pixman/pixman-private.h:470 | For every n up to 255 * 255, div_255(n) is the integer nearest to n / 255 |
| `Fixed.Div255SaturatedNearest` | pixman/pixman-private.h:470 | For every n up to 2 * 255 * 255, min(div_255(n), 255) is n / 255 rounded to the nearest integer and saturated at 255 |
| `Fixed.IntMultNearest` | pixman/pixman-private.h:254 | FbIntMult(a, b) of two bytes is a byte, and it is the integer nearest to a * b / 255 |
| `Fixed.IntMultUnitZero` | pixman/pixman-private.h:254 | 255 is the unit of FbIntMult and 0 its zero, and it is symmetric |
| `Fixed.IntDiv` | pixman/pixman-private.h:255 | FbIntDiv is the floor of (a cut to 16 bits) * 255 / b: q * b <= a' * 255 < (q + 1) * b |
| `Fixed.IntDivBound` | pixman/pixman-private.h:255 | Un-premultiplying a channel no larger than its 16-bit alpha gives at most 255 |
| `Fixed.IntDivFull` | pixman/pixman-private.h:255 | Un-premultiplying a channel equal to its alpha gives 255 |
| `Fixed.Get8` | pixman/pixman-private.h:257 | FbGet8 yields a byte |
| `Fixed.Get8Channels` | pixman/pixman-private.h:257 | FbGet8 at offsets 24, 16, 8 and 0 is Alpha, Red, Green and Blue |
| `Fixed.Saturate8IsMin` | pixman/pixman-private.h:275-276 | The narrowing `(uint8)(t \| (0 - (t >> 8)))` is min(t, 255) for every t up to 510 |
| `Fixed.OverU` | pixman/pixman-private.h:275-276 | FbOverU's result occupies only lane i; OverULane gives the lane's value |
| `Fixed.OverC` | pixman/pixman-private.h:278-279 | FbOverC's result occupies only lane i; OverCLane gives the lane's value |
| `Fixed.InU` | pixman/pixman-private.h:281 | For 8-bit a, FbInU's result occupies only lane i |
| `Fixed.InC` | pixman/pixman-private.h:283 | FbInC's result occupies only lane i; InCIsInU gives its value |
| `Fixed.Gen` | pixman/pixman-private.h:285-288 | FbGen's result occupies only lane i; GenLane gives the lane's value |
| `Fixed.Add` | pixman/pixman-private.h:290-291 | FbAdd's result occupies only lane i; AddLane gives the lane's value |
| `Fixed.OverULane` | pixman/pixman-private.h:275-276 | FbOverU puts min(255, FbIntMult(y_i, a) + x_i) in lane i and zero elsewhere |
| `Fixed.OverCLane` | pixman/pixman-private.h:278-279 | FbOverC is FbOverU with the alpha taken from lane i of a |
| `Fixed.OverUTransparent` | pixman/pixman-private.h:275-276 | With alpha 0, FbOverU keeps x's lane |
| `Fixed.InULane` | pixman/pixman-private.h:281 | FbInU with alpha 255 keeps the lane and with alpha 0 clears it |
| `Fixed.InCIsInU` | pixman/pixman-private.h:283 | FbInC is FbInU with the alpha taken from lane i of a |
| `Fixed.GenLane` | pixman/pixman-private.h:285-288 | FbGen puts min(255, FbIntMult(y_i, ay) + FbIntMult(x_i, ax)) in lane i |
| `Fixed.AddLane` | pixman/pixman-private.h:290-291 | FbAdd puts min(255, x_i + y_i) in lane i |
| `Fixed.AddCommutesZero` | pixman/pixman-private.h:290-291 | FbAdd is symmetric, and adding the zero word keeps the lane |
| `Pixel.Alpha` | pixman/pixman-private.h:237 | Alpha of a pixel is a byte |
| `Pixel.Red` | pixman/pixman-private.h:238 | Red of a pixel is a byte |
| `Pixel.Green` | pixman/pixman-private.h:239 | Green of a pixel is a byte |
| `Pixel.Blue` | pixman/pixman-private.h:240 | Blue of a pixel is a byte |
| `Pixel.ChannelsOfPack` | pixman/pixman-private.h:237-240 | Alpha, Red, Green and Blue recover the four bytes a pixel was packed from |
| `Pixel.PackOfChannels` | pixman/pixman-private.h:237-240 | A pixel is the packing of its four channels |
| `Pixel.To565` | pixman/pixman-private.h:260-262 | cvt8888to0565 yields a 16-bit value |
| `Pixel.To565Fields` | pixman/pixman-private.h:260-262 | The r5g6b5 fields are the top 5, 6 and 5 bits of red, green and blue |
| `Pixel.From565` | pixman/pixman-private.h:263-265 | cvt0565to0888 yields a pixel with alpha 0 |
| `Pixel.From565Fields` | pixman/pixman-private.h:263-265 | Each channel is its r5g6b5 field widened by repeating its top bits below it |
| `Pixel.WidenEnds` | pixman/pixman-private.h:263-265 | Widening sends the all-zero field to 0 and the all-ones field to 0xff |
| `Pixel.From565RoundTrip` | pixman/pixman-private.h:263-265 | cvt8888to0565(cvt0565to0888(s)) == s for every 16-bit s |
| `Pixel.To565RoundTrip` | pixman/pixman-private.h:260-265 | Going to r5g6b5 and back keeps the top 5, 6 and 5 bits of each channel and clears alpha |
| `Pixel.From565Saturated` | pixman/pixman-private.h:263-265 | An all-ones field becomes a full 0xff channel |
| `Pixel.Cvt15` | pixman/pixman-private.h:245-247 | miCvtR8G8B8to15 is an index below 32768 |
| `Pixel.Cvt15Fields` | pixman/pixman-private.h:245-247 | Its three 5-bit fields are the top 5 bits of red, green and blue |
| `Pixel.CvtY15` | pixman/pixman-private.h:242-244 | CvtR8G8B8toY15 of any pixel is below 32768, a valid 15-bit palette index |
| `Pixel.CvtY15Grey` | pixman/pixman-private.h:242-244 | A grey pixel of level v has luminance index v * 128 |
| `Pixel.IndexToEnt15` | pixman/pixman-private.h:248 | For an index below 32768 the entry is an entry of the 32768-entry palette |
| `Pixel.IndexToEnt24` | pixman/pixman-private.h:249 | miIndexToEnt24 is the palette entry at miCvtR8G8B8to15 of the pixel, for every pixel |
| `Pixel.IndexToEntY24` | pixman/pixman-private.h:251 | miIndexToEntY24 is a palette entry for every pixel |
| `UnifiedKernels.ByteMul` | pixman/pixman-private.h:302-311 | For 8-bit a, FbByteMul leaves each channel c as FbIntMult(x_c, a) |
| `UnifiedKernels.MulSpecByLanes` | pixman/pixman-private.h:299-311 | FbByteMul is FbInU applied at offsets 24, 16, 8 and 0 |
| `UnifiedKernels.MulSpecChannels` | pixman/pixman-private.h:299-301 | Each channel of the result is FbIntMult of that channel and a |
| `UnifiedKernels.MulSpecUnitZero` | pixman/pixman-private.h:299-301 | Scaling by 255 keeps the pixel and scaling by 0 clears it |
| `UnifiedKernels.ByteMulAdd` | pixman/pixman-private.h:316-332 | For 8-bit a, FbByteMulAdd leaves each channel as min(255, FbIntMult(x_c, a) + y_c) |
| `UnifiedKernels.MulAddSpecByLanes` | pixman/pixman-private.h:313-332 | FbByteMulAdd is FbOverU (y's lane plus x's lane scaled by a) at the four offsets |
| `UnifiedKernels.MulAddSpecNoAddend` | pixman/pixman-private.h:313-315 | With y = 0, FbByteMulAdd is FbByteMul |
| `UnifiedKernels.ByteAdd` | pixman/pixman-private.h:458-468 | FbByteAdd leaves each channel as min(x_c + y_c, 255) |
| `UnifiedKernels.AddSpecByLanes` | pixman/pixman-private.h:455-468 | FbByteAdd is FbAdd at the four offsets |
| `UnifiedKernels.AddSpecCommutes` | pixman/pixman-private.h:455-457 | The saturated sum is symmetric |
| `UnifiedKernels.AddSpecZero` | pixman/pixman-private.h:455-457 | Adding the zero pixel keeps x |
| `BlendKernels.ByteAddMul` | pixman/pixman-private.h:337-363 | For 8-bit a and b, FbByteAddMul as written: alpha, red and blue are min(255, div_255(x_c * a + y_c * b)), and green is the differently rounded sum |
| `BlendKernels.ByteAddMulRounded` | pixman/pixman-private.h:334-336 | The corrected kernel: every channel is min(255, div_255(x_c * a + y_c * b)) |
| `BlendKernels.AddMulSpecChannels` | pixman/pixman-private.h:334-336 | Each channel of the specification is the saturated div_255 of its weighted sum, which Fixed.Div255SaturatedNearest shows is the weighted sum over 255, rounded to nearest and saturated at 255 |
| `BlendKernels.AddMulSpecSwap` | pixman/pixman-private.h:334-336 | The two weighted operands can be swapped |
| `BlendKernels.BlendAlone` | pixman/pixman-private.h:334-336 | With weight 0 on the second operand, a channel is FbIntMult of the first and its weight |
| `BlendKernels.AddMulSpecNoAddend` | pixman/pixman-private.h:334-336 | With b = 0, FbByteAddMul is FbByteMul |
| `BlendKernels.AddMulSpecGrey` | pixman/pixman-private.h:334-336 | Blending two grey pixels gives a grey pixel |
| `BlendKernels.AddMulAsWrittenChannels` | pixman/pixman-private.h:343-345 | As written, alpha, red and blue equal the specification; green is min(255, (n * 257 + 0x8000) >> 16) |
| `BlendKernels.AddMulGreenCounterexample` | pixman/pixman-private.h:343-345 | At n = 33023 the green rounding gives 129 where div_255 gives 130, so grey inputs give a non-grey result |
| `Weighted.ByteAddMul256` | pixman/pixman-private.h:368-376 | The result is a 32-bit word; when a + b <= 256 each channel is (x_c * a + y_c * b) / 256 |
| `Weighted.Scale256Byte` | pixman/pixman-private.h:365-367 | When a + b <= 256 every channel of the result is a byte |
| `Weighted.AddMul256Channels` | pixman/pixman-private.h:365-367 | Byte i of the result is the weighted sum of bytes i of x and y, divided by 256 |
| `Weighted.AddMul256Swap` | pixman/pixman-private.h:365-367 | The two weighted operands can be swapped |
| `Weighted.AddMul256Ends` | pixman/pixman-private.h:365-367 | Weights (256, 0) give x and weights (0, 256) give y |
| `Weighted.Scale256Between` | pixman/pixman-private.h:365-367 | With weights a and 256 - a, each channel lies between the two channels it interpolates |
| `ComponentKernels.ByteMulC` | pixman/pixman-private.h:381-396 | FbByteMulC leaves each channel as FbIntMult(x_c, a_c) |
| `ComponentKernels.MulCSpecByLanes` | pixman/pixman-private.h:378-396 | FbByteMulC is FbInC at the four offsets |
| `ComponentKernels.MulCSpecUniform` | pixman/pixman-private.h:378-380 | With the same 8-bit alpha in every channel, FbByteMulC is FbByteMul |
| `ComponentKernels.MulCSpecCommutes` | pixman/pixman-private.h:378-380 | Scaling x by a's channels is scaling a by x's channels |
| `ComponentKernels.ByteMulAddC` | pixman/pixman-private.h:401-422 | FbByteMulAddC leaves each channel as min(255, FbIntMult(x_c, a_c) + y_c) |
| `ComponentKernels.MulAddCSpecByLanes` | pixman/pixman-private.h:398-422 | FbByteMulAddC is FbOverC at the four offsets |
| `ComponentKernels.MulAddCSpecUniform` | pixman/pixman-private.h:398-400 | With the same alpha in every channel, FbByteMulAddC is FbByteMulAdd |
| `ComponentKernels.MulAddCSpecNoAddend` | pixman/pixman-private.h:398-400 | With y = 0, FbByteMulAddC is FbByteMulC |
| `ComponentKernels.ByteAddMulC` | pixman/pixman-private.h:427-453 | For 8-bit b, FbByteAddMulC as written: red and blue are min(255, div_255(x_c * a_c + y_c * b)), alpha and green are rounded differently |
| `ComponentKernels.ByteAddMulCRounded` | pixman/pixman-private.h:424-426 | The corrected kernel: every channel is min(255, div_255(x_c * a_c + y_c * b)) |
| `ComponentKernels.AddMulCSpecUniform` | pixman/pixman-private.h:424-426 | With the same alpha in every channel, FbByteAddMulC is FbByteAddMul |
| `ComponentKernels.AddMulCAsWrittenChannels` | pixman/pixman-private.h:429-435 | As written, red and blue equal the specification; alpha is min(255, (n + (n >> 8) + 0x80) >> 8) and green min(255, (n * 257 + 0x8000) >> 16) |
| `ComponentKernels.AddMulCCounterexample` | pixman/pixman-private.h:429-435 | At n = 33023 both roundings give 129 where div_255 gives 130 |
| `Access.AccessMemRead` | pixman/pixman-private.h:521-555 | For an image that has a read accessor whenever ACCESS_MEM selects the accessor branch, READ inside ACCESS_MEM returns the plain load's value, whose bytes are the bytes in memory |
| `Access.AccessMemWrite` | pixman/pixman-private.h:521-560 | For an image that has a write accessor whenever ACCESS_MEM selects the accessor branch, WRITE inside ACCESS_MEM leaves the memory a plain store leaves |
| `Access.AccessorRead` | pixman/pixman-private.h:554-555 | A read accessor over plain memory returns a value of 0, 1, 2 or 3 bytes that fits the unit |
| `Access.NativeRead` | pixman/pixman-private.h:554-555 | The plain 8- or 16-bit load returns a value that fits the unit |
| `Access.ReadPaths` | pixman/pixman-private.h:554-555 | The accessor and the plain load read the same 8- or 16-bit value |
| `Access.Read` | pixman/pixman-private.h:554-555 | READ of a byte is below 0x100 and READ of a 16-bit unit below 0x10000 |
| `Access.ReadBytes` | pixman/pixman-private.h:554-555 | On either path, the bytes of the value READ returns are the bytes in memory, in the byte order |
| `Access.Written` | pixman/pixman-private.h:557-560 | A store of a unit sets exactly its bytes p .. p+size-1, in the byte order, and nothing else |
| `Access.ReadWritten` | pixman/pixman-private.h:554-560 | READ after WRITE of a unit returns the value cut to 8 or 16 bits |
| `Access.AccessorWrite` | pixman/pixman-private.h:557-560 | A write accessor over plain memory sets bytes p .. p+size-1 to the value's bytes in the byte order, and no other byte |
| `Access.Write` | pixman/pixman-private.h:557-560 | WRITE through the accessor and the plain store leave the same memory |
| `Access.Fetch24` | pixman/pixman-private.h:217-235 | Fetch24 returns a 24-bit value |
| `Access.Fetch24Unit` | pixman/pixman-private.h:217-235 | At either parity and on either path, Fetch24 reads the same value as a 3-byte read at p in the byte order |
| `Access.Stored24` | pixman/pixman-private.h:217-235 | Store24 writes v's low three bytes at p .. p+2 in the byte order, at either parity, and no other byte |
| `Access.Store24` | pixman/pixman-private.h:217-235 | The byte store and the 16-bit store, in the source's order, leave the memory Stored24 describes |
| `Access.Fetch24Stored24` | pixman/pixman-private.h:217-235 | Fetch24 after Store24 of v at the same address returns v & 0xffffff, in both byte orders and at both parities |
| `Access.Stored24Fetched` | pixman/pixman-private.h:217-235 | Storing back what Fetch24 read leaves memory unchanged |
| `Access.Copied` | pixman/pixman-private.h:562-576 | The copied buffer holds src's first size bytes and then dst's own bytes |
| `Access.CopiedStep` | pixman/pixman-private.h:568-570 | One loop step, WRITE of READ at offset i, extends the copied prefix by one byte |
| `Access.MemcpyWrapped` | pixman/pixman-private.h:562-576 | The accessor loop and the plain memcpy leave the same buffer, and only dst[0..size) changes |
| `Access.CopiedIdempotent` | pixman/pixman-private.h:562-576 | Copying twice is copying once. The reference function `Copied` also leaves a buffer unchanged when it is copied onto itself; this is not a claim about `MemcpyWrapped`, which requires distinct buffers |
| `Access.Filled` | pixman/pixman-private.h:578-592 | The filled buffer holds size copies of the byte and then dst's own bytes |
| `Access.FilledStep` | pixman/pixman-private.h:584-586 | One loop step, WRITE of val at offset i, extends the filled prefix by one byte |
| `Access.MemsetWrapped` | pixman/pixman-private.h:578-592 | The accessor loop and the plain memset leave the same buffer, val's low byte in dst[0..size) and the rest unchanged |
| `Access.FilledIdempotent` | pixman/pixman-private.h:578-592 | Filling twice is filling once, and filling the whole buffer forgets its old contents |
| `Image.Ordinal` | pixman/pixman-private.h:97-104 | The enumerators take the values 0 to 4, and only BITS is 0 |
| `Image.OrdinalInjective` | pixman/pixman-private.h:97-104 | Distinct image types have distinct values |
| `Image.SourceImageKinds` | pixman/pixman-private.h:106 | IS_SOURCE_IMAGE holds exactly for LINEAR, CONICAL, RADIAL and SOLID, and fails exactly for BITS |
| `Image.IsSourceImage` | pixman/pixman-private.h:106 | IS_SOURCE_IMAGE holds exactly when the type is not BITS |
| `Image.UsesAccessors` | pixman/pixman-private.h:521-550 | The accessor branch is taken whenever a read or a write accessor is installed, and the direct branch only when neither is |
| `Image.ComposeDataFields` | pixman/pixman-private.h:79-92 | Documentation only, since the table can name no datatype: FbComposeData's fields keep their C widths, an 8-bit unsigned operator, 16-bit signed origins and a 16-bit unsigned size, which the newtypes of `ComposeData` enforce |

## Left out

- `return_if_fail`, `return_val_if_fail` and `FUNC` print diagnostics. They are I/O and are not modelled.
- `pixmanCompositeRect` is only declared in the header. Its body is not part of this model.
- The radial gradient fields are `double`s. Floating point is not modelled.
- The image structures and reference counting are not modelled. `Image.ImageCommon` keeps only the fields this model reads: the type and whether a read or a write accessor is installed.
- `FbComposeData` is the datatype `Image.ComposeData`, with `op` 8-bit unsigned, the origins 16-bit signed and the size 16-bit unsigned. No operation of this model reads it.
- The `#if 0` block and `fbFinishAccess` are left out. The block is compiled out, and `fbFinishAccess` expands to nothing.
- Read and write accessors are calls into code outside the header. They are modelled as the accessors over plain memory, which move the `size` bytes at the pointer in the byte order.
- Each buffer is a byte array indexed from 0; a read sees it as a sequence of bytes. Pointer casts, alignment and addresses shared between buffers are not modelled.
- `Access.NativeRead`: the plain 16-bit load is read in the image byte order, so the model assumes the host's byte order is the image byte order, as it is in a build configured for the host.
- `Access.AccessMemRead`: an image with a write accessor and no read accessor makes READ call a null pointer in the source. The lemma requires a read accessor whenever the accessor branch is taken (`Image.ReadsDefined`). `Access.AccessMemWrite` likewise requires a write accessor (`Image.WritesDefined`).
- The `doAccess` parameter of `Access.Read`, `Access.Write`, `Access.Fetch24`, `Access.Store24`, `Access.MemcpyWrapped` and `Access.MemsetWrapped` stands for an image that has every accessor its code calls. A half-installed pair, and the null call it leads to, is not modelled.
- `Access.MemcpyWrapped`: requires two distinct arrays, because memcpy on overlapping buffers is undefined.
- `Access.MemsetWrapped`: `val` is a 32-bit word whose low byte is stored. The `int` argument's conversion to a byte is taken as its low 8 bits.
- The image byte order is a `ByteOrder` parameter, not a build switch.
- The palette is any sequence of 32768 entries. Its contents are not modelled.
- `UnifiedKernels.ByteMul`: proved for 8-bit a only. For larger a the two lanes of a product overlap, and callers pass an alpha byte.
- `UnifiedKernels.ByteMulAdd`: proved for 8-bit a only, for the same reason.
- `BlendKernels.ByteAddMul`: proved for 8-bit a and b only, for the same reason.
- `BlendKernels.ByteAddMulRounded`: proved for 8-bit a and b only, for the same reason.
- `ComponentKernels.ByteAddMulC`: proved for 8-bit b only, for the same reason. a is a pixel, so its channels are bytes already.
- `ComponentKernels.ByteAddMulCRounded`: proved for 8-bit b only, for the same reason.
- `ComponentKernels.ByteMulC`: each product word is one expression, where the macro builds it in three statements. The same holds for `ComponentKernels.ByteMulAddC`. The values computed are the same.
- `Weighted.ByteAddMul256`: modelled on unsigned integers with explicit reduction modulo 2^32, not on `bv32`. The channel formula is proved when a + b <= 256, the bound that keeps the two lanes of a product apart.

## Findings

| source | as written | input that shows it | evidently intended | confidence | as-written member | corrected member |
|---|---|---|---|---|---|---|
| pixman/pixman-private.h:343-345 | FbByteAddMul rounds its green channel as (n * 257 + 0x8000) >> 16, where n is the weighted sum. The other channels use div_255(n) | x = 0xffffffff, a = 129, y = 0x80808080, b = 1: n = 33023 in every channel. Green comes out as 129 and the others as 130, so the result is 0x82828182, not 0x82828282 | Every channel is div_255(x_c * a + y_c * b), saturated at 255: the macro's alpha, red and blue lanes round that way, and so does FbIntMult. The comment above the macro gives no rounding rule | not executed | BlendKernels.AddMulGreenCounterexample | BlendKernels.ByteAddMulRounded |
| pixman/pixman-private.h:429-435 | FbByteAddMulC rounds its alpha channel as (n + (n >> 8) + 0x80) >> 8 and its green channel as (n * 257 + 0x8000) >> 16. Red and blue use div_255(n) | x = 0xffffffff, a = 0x81818181, y = 0x80808080, b = 1: n = 33023 in every channel. Alpha and green come out as 129 and red and blue as 130, so the result is 0x81828182, not 0x82828282 | Every channel is div_255(x_c * a_c + y_c * b), saturated at 255: the macro's red and blue lanes round that way, and so does FbIntMult | not executed | ComponentKernels.AddMulCCounterexample | ComponentKernels.ByteAddMulCRounded |
