/**
 * Framebuffer memory access: the byte-addressed memory that holds an
 * image's bits, the READ and WRITE accesses that ACCESS_MEM selects, the
 * 24-bit pixel load and store Fetch24/Store24, and the wrapped memcpy and
 * memset.
 *
 * Memory is a byte array, and an index into it is a byte address. A unit of
 * `size` bytes at address p occupies bytes p .. p+size-1, most significant
 * byte first or last according to the image byte order. The source fixes the
 * order at build time; here it is a parameter. When an image carries a read or
 * a write accessor, every access goes through the accessor: the flag
 * `doAccess` that every access here takes is the choice ACCESS_MEM makes
 * (Image.UsesAccessors). The accessors modelled here are the ones over plain
 * memory: they move the `size` bytes at the pointer, in memory order.
 */
module Access {
  import Image

  datatype ByteOrder = LSBFirst | MSBFirst

  /** Byte j of a value, counted from the least significant end. */
  function ValueByte(val: bv32, j: nat): bv8
    requires j < 4
  {
    if j == 0 then (val & 0xff) as bv8
    else if j == 1 then ((val >> 8) & 0xff) as bv8
    else if j == 2 then ((val >> 16) & 0xff) as bv8
    else (val >> 24) as bv8
  }

  /** The byte at memory offset k of a `size`-byte unit whose value is `val`. */
  function UnitByte(order: ByteOrder, val: bv32, size: nat, k: nat): bv8
    requires k < size <= 4
  {
    if order == LSBFirst then ValueByte(val, k) else ValueByte(val, size - 1 - k)
  }

  /** A value placed at byte j, counted from the least significant end. */
  function AtByte(b: bv8, j: nat): bv32
    requires j < 4
  {
    if j == 0 then b as bv32
    else if j == 1 then (b as bv32) << 8
    else if j == 2 then (b as bv32) << 16
    else (b as bv32) << 24
  }

  // ---------------------------------------------------------------------
  // READ
  // ---------------------------------------------------------------------

  /** A read accessor over plain memory: the `size` bytes at p, assembled in memory order. */
  function AccessorRead(order: ByteOrder, m: seq<bv8>, p: nat, size: nat): (v: bv32)
    requires size <= 4 && p + size <= |m|
    ensures size == 0 ==> v == 0
    ensures size == 1 ==> v <= 0xff
    ensures size == 2 ==> v <= 0xffff
    ensures size == 3 ==> v <= 0xffffff
    decreases size
  {
    if size == 0 then 0
    else if order == LSBFirst then (m[p] as bv32) | (AccessorRead(order, m, p + 1, size - 1) << 8)
    else AtByte(m[p], size - 1) | AccessorRead(order, m, p + 1, size - 1)
  }

  /**
   * A load through a byte or 16-bit pointer, from memory laid out in the
   * image byte order; the value fits the unit.
   */
  function NativeRead(order: ByteOrder, m: seq<bv8>, p: nat, size: nat): (v: bv32)
    requires size == 1 || size == 2
    requires p + size <= |m|
    ensures size == 1 ==> v <= 0xff
    ensures size == 2 ==> v <= 0xffff
  {
    if size == 1 then m[p] as bv32
    else if order == LSBFirst then (m[p] as bv32) | ((m[p + 1] as bv32) << 8)
    else ((m[p] as bv32) << 8) | (m[p + 1] as bv32)
  }

  /** The accessor and the plain load read the same value. */
  lemma ReadPaths(order: ByteOrder, m: seq<bv8>, p: nat, size: nat)
    requires size == 1 || size == 2
    requires p + size <= |m|
    ensures AccessorRead(order, m, p, size) == NativeRead(order, m, p, size)
  {
    assert AccessorRead(order, m, p + size, 0) == 0;
    if size == 2 {
      assert AccessorRead(order, m, p + 1, 1) == m[p + 1] as bv32;
    }
  }

  /** READ(ptr): through the accessor when there is one, else a plain load. */
  function Read(doAccess: bool, order: ByteOrder, m: seq<bv8>, p: nat, size: nat): (v: bv32)
    requires size == 1 || size == 2
    requires p + size <= |m|
    ensures size == 1 ==> v <= 0xff
    ensures size == 2 ==> v <= 0xffff
  {
    ReadPaths(order, m, p, size);
    if doAccess then AccessorRead(order, m, p, size) else NativeRead(order, m, p, size)
  }

  /** Whichever path READ takes, the bytes of the value it returns are the bytes in memory. */
  lemma ReadBytes(doAccess: bool, order: ByteOrder, m: seq<bv8>, p: nat, size: nat)
    requires size == 1 || size == 2
    requires p + size <= |m|
    ensures Read(doAccess, order, m, p, size) == NativeRead(order, m, p, size)
    ensures forall i :: p <= i < p + size ==> UnitByte(order, Read(doAccess, order, m, p, size), size, i - p) == m[i]
  {
    ReadPaths(order, m, p, size);
    var v := NativeRead(order, m, p, size);
    if size == 1 {
      assert UnitByte(order, v, 1, 0) == m[p];
    } else if order == LSBFirst {
      SplitJoin(m[p], m[p + 1], 0);
      assert v == Value3(m[p], m[p + 1], 0);
    } else {
      SplitJoin(m[p + 1], m[p], 0);
      assert v == Value3(m[p + 1], m[p], 0);
    }
  }

  /**
   * ACCESS_MEM runs the same code on both of its branches, with the flag set
   * exactly when the image has a read or a write accessor. Provided READ then
   * has a read accessor to call, it returns the plain load's value, made of
   * the bytes in memory, whichever branch was taken.
   */
  lemma AccessMemRead(img: Image.ImageCommon, order: ByteOrder, m: seq<bv8>, p: nat, size: nat)
    requires Image.ReadsDefined(img)
    requires size == 1 || size == 2
    requires p + size <= |m|
    ensures Read(Image.UsesAccessors(img), order, m, p, size) == Read(false, order, m, p, size)
    ensures forall i :: p <= i < p + size ==> UnitByte(order, Read(Image.UsesAccessors(img), order, m, p, size), size, i - p) == m[i]
  {
    ReadBytes(Image.UsesAccessors(img), order, m, p, size);
  }

  /** The value of three bytes, least significant first. */
  function Value3(lo: bv8, mid: bv8, hi: bv8): bv32
  {
    (lo as bv32) | ((mid as bv32) << 8) | ((hi as bv32) << 16)
  }

  /** The bytes of a value assembled from three bytes are those bytes. */
  lemma SplitJoin(lo: bv8, mid: bv8, hi: bv8)
    ensures ValueByte(Value3(lo, mid, hi), 0) == lo
    ensures ValueByte(Value3(lo, mid, hi), 1) == mid
    ensures ValueByte(Value3(lo, mid, hi), 2) == hi
  {
  }

  /** A value's low bytes, put back together, are its low 16 or 24 bits. */
  lemma JoinSplit(v: bv32)
    ensures Value3(ValueByte(v, 0), ValueByte(v, 1), ValueByte(v, 2)) == v & 0xffffff
    ensures (ValueByte(v, 0) as bv32) | ((ValueByte(v, 1) as bv32) << 8) == v & 0xffff
    ensures ValueByte(v, 0) as bv32 == v & 0xff
  {
  }

  // ---------------------------------------------------------------------
  // WRITE
  // ---------------------------------------------------------------------

  /** The memory after a store of `val` through a byte or 16-bit pointer at p. */
  function Written(order: ByteOrder, m: seq<bv8>, p: nat, size: nat, val: bv32): (m': seq<bv8>)
    requires size == 1 || size == 2
    requires p + size <= |m|
    ensures |m'| == |m|
    ensures forall i :: p <= i < p + size ==> m'[i] == UnitByte(order, val, size, i - p)
    ensures forall i :: 0 <= i < |m| && !(p <= i < p + size) ==> m'[i] == m[i]
  {
    if size == 1 then m[p := (val & 0xff) as bv8]
    else if order == LSBFirst then m[p := (val & 0xff) as bv8][p + 1 := ((val >> 8) & 0xff) as bv8]
    else m[p := ((val >> 8) & 0xff) as bv8][p + 1 := (val & 0xff) as bv8]
  }

  /** Reading back a unit just written returns the value cut to the unit's width. */
  lemma ReadWritten(doAccess: bool, order: ByteOrder, m: seq<bv8>, p: nat, size: nat, val: bv32)
    requires size == 1 || size == 2
    requires p + size <= |m|
    ensures size == 1 ==> Read(doAccess, order, Written(order, m, p, size, val), p, size) == val & 0xff
    ensures size == 2 ==> Read(doAccess, order, Written(order, m, p, size, val), p, size) == val & 0xffff
  {
    if size == 1 {
      ReadWritten8(doAccess, order, m, p, val);
    } else if order == LSBFirst {
      ReadWritten16LSB(doAccess, m, p, val);
    } else {
      ReadWritten16MSB(doAccess, m, p, val);
    }
  }

  /** A byte read back after a byte store. */
  lemma ReadWritten8(doAccess: bool, order: ByteOrder, m: seq<bv8>, p: nat, val: bv32)
    requires p + 1 <= |m|
    ensures Read(doAccess, order, Written(order, m, p, 1, val), p, 1) == val & 0xff
  {
    var m' := Written(order, m, p, 1, val);
    JoinSplit(val);
    Read8(doAccess, order, m', p);
    assert m'[p] == ValueByte(val, 0);
  }

  /** A 16-bit unit read back after a 16-bit store, least significant byte first. */
  lemma ReadWritten16LSB(doAccess: bool, m: seq<bv8>, p: nat, val: bv32)
    requires p + 2 <= |m|
    ensures Read(doAccess, LSBFirst, Written(LSBFirst, m, p, 2, val), p, 2) == val & 0xffff
  {
    var m' := Written(LSBFirst, m, p, 2, val);
    JoinSplit(val);
    Read16(doAccess, LSBFirst, m', p);
    assert m'[p] == ValueByte(val, 0) && m'[p + 1] == ValueByte(val, 1);
  }

  /** A 16-bit unit read back after a 16-bit store, most significant byte first. */
  lemma ReadWritten16MSB(doAccess: bool, m: seq<bv8>, p: nat, val: bv32)
    requires p + 2 <= |m|
    ensures Read(doAccess, MSBFirst, Written(MSBFirst, m, p, 2, val), p, 2) == val & 0xffff
  {
    var m' := Written(MSBFirst, m, p, 2, val);
    JoinSplit(val);
    Read16(doAccess, MSBFirst, m', p);
    assert m'[p] == ValueByte(val, 1) && m'[p + 1] == ValueByte(val, 0);
  }

  /** A write accessor over plain memory: the `size` bytes of `val` go to p onwards, in memory order. */
  method AccessorWrite(order: ByteOrder, mem: array<bv8>, p: nat, size: nat, val: bv32)
    requires size <= 4 && p + size <= mem.Length
    modifies mem
    ensures forall i :: p <= i < p + size ==> mem[i] == UnitByte(order, val, size, i - p)
    ensures forall i :: 0 <= i < mem.Length && !(p <= i < p + size) ==> mem[i] == old(mem[i])
  {
    forall i | p <= i < p + size {
      mem[i] := UnitByte(order, val, size, i - p);
    }
  }

  /** WRITE(ptr, val): through the accessor when there is one, else a plain store. */
  method Write(doAccess: bool, order: ByteOrder, mem: array<bv8>, p: nat, size: nat, val: bv32)
    requires size == 1 || size == 2
    requires p + size <= mem.Length
    modifies mem
    ensures mem[..] == Written(order, old(mem[..]), p, size, val)
  {
    ghost var m := mem[..];
    if doAccess {
      AccessorWrite(order, mem, p, size, val);
    } else if size == 1 {
      mem[p] := (val & 0xff) as bv8;
    } else if order == LSBFirst {
      mem[p], mem[p + 1] := (val & 0xff) as bv8, ((val >> 8) & 0xff) as bv8;
    } else {
      mem[p], mem[p + 1] := ((val >> 8) & 0xff) as bv8, (val & 0xff) as bv8;
    }
    ghost var w := Written(order, m, p, size, val);
    assert forall i :: p <= i < p + size ==> mem[i] == w[i];
    assert mem[..] == w;
  }

  /**
   * WRITE inside ACCESS_MEM, provided it has a write accessor to call when
   * the flag is set: either branch leaves the memory a plain store leaves.
   */
  method AccessMemWrite(img: Image.ImageCommon, order: ByteOrder, mem: array<bv8>, p: nat, size: nat, val: bv32)
    requires Image.WritesDefined(img)
    requires size == 1 || size == 2
    requires p + size <= mem.Length
    modifies mem
    ensures mem[..] == Written(order, old(mem[..]), p, size, val)
  {
    Write(Image.UsesAccessors(img), order, mem, p, size, val);
  }

  // ---------------------------------------------------------------------
  // Fetch24 and Store24
  // ---------------------------------------------------------------------

  /**
   * Fetch24: a 24-bit pixel at byte address p, read as one byte and one
   * 16-bit unit so that the 16-bit access is at an even address.
   */
  function Fetch24(doAccess: bool, order: ByteOrder, m: seq<bv8>, p: nat): (v: bv32)
    requires p + 3 <= |m|
    ensures v <= 0xffffff
  {
    if p % 2 == 1 then
      if order == MSBFirst then (Read(doAccess, order, m, p, 1) << 16) | Read(doAccess, order, m, p + 1, 2)
      else Read(doAccess, order, m, p, 1) | (Read(doAccess, order, m, p + 1, 2) << 8)
    else
      if order == MSBFirst then (Read(doAccess, order, m, p, 2) << 8) | Read(doAccess, order, m, p + 2, 1)
      else Read(doAccess, order, m, p, 2) | (Read(doAccess, order, m, p + 2, 1) << 16)
  }

  /** The memory after Store24 of v at byte address p. */
  function Stored24(order: ByteOrder, m: seq<bv8>, p: nat, v: bv32): (m': seq<bv8>)
    requires p + 3 <= |m|
    ensures |m'| == |m|
    ensures forall i :: p <= i < p + 3 ==> m'[i] == UnitByte(order, v, 3, i - p)
    ensures forall i :: 0 <= i < |m| && !(p <= i < p + 3) ==> m'[i] == m[i]
  {
    if p % 2 == 1 then
      if order == MSBFirst then Written(order, Written(order, m, p, 1, (v >> 16) & 0xff), p + 1, 2, v & 0xffff)
      else Written(order, Written(order, m, p, 1, v & 0xff), p + 1, 2, (v >> 8) & 0xffff)
    else
      if order == MSBFirst then Written(order, Written(order, m, p, 2, (v >> 8) & 0xffff), p + 2, 1, v & 0xff)
      else Written(order, Written(order, m, p, 2, v & 0xffff), p + 2, 1, (v >> 16) & 0xff)
  }

  /** Store24: one byte and one 16-bit unit, the 16-bit store at an even address. */
  method Store24(doAccess: bool, order: ByteOrder, mem: array<bv8>, p: nat, v: bv32)
    requires p + 3 <= mem.Length
    modifies mem
    ensures mem[..] == Stored24(order, old(mem[..]), p, v)
  {
    if p % 2 == 1 {
      if order == MSBFirst {
        Write(doAccess, order, mem, p, 1, (v >> 16) & 0xff);
        Write(doAccess, order, mem, p + 1, 2, v & 0xffff);
      } else {
        Write(doAccess, order, mem, p, 1, v & 0xff);
        Write(doAccess, order, mem, p + 1, 2, (v >> 8) & 0xffff);
      }
    } else {
      if order == MSBFirst {
        Write(doAccess, order, mem, p, 2, (v >> 8) & 0xffff);
        Write(doAccess, order, mem, p + 2, 1, v & 0xff);
      } else {
        Write(doAccess, order, mem, p, 2, v & 0xffff);
        Write(doAccess, order, mem, p + 2, 1, (v >> 16) & 0xff);
      }
    }
  }

  /** One byte of the accessor's read, and the rest. */
  lemma AccessorStep(order: ByteOrder, m: seq<bv8>, p: nat, size: nat)
    requires 1 <= size <= 4 && p + size <= |m|
    ensures order == LSBFirst ==>
      AccessorRead(order, m, p, size) == (m[p] as bv32) | (AccessorRead(order, m, p + 1, size - 1) << 8)
    ensures order == MSBFirst ==>
      AccessorRead(order, m, p, size) == AtByte(m[p], size - 1) | AccessorRead(order, m, p + 1, size - 1)
  {
  }

  /** The 3-byte unit at p, least significant byte first. */
  lemma AccessorReadLSB3(m: seq<bv8>, p: nat)
    requires p + 3 <= |m|
    ensures AccessorRead(LSBFirst, m, p, 3) == Value3(m[p], m[p + 1], m[p + 2])
  {
    AccessorStep(LSBFirst, m, p, 3);
    AccessorStep(LSBFirst, m, p + 1, 2);
    AccessorStep(LSBFirst, m, p + 2, 1);
    assert AccessorRead(LSBFirst, m, p + 3, 0) == 0;
  }

  /** The 3-byte unit at p, most significant byte first. */
  lemma AccessorReadMSB3(m: seq<bv8>, p: nat)
    requires p + 3 <= |m|
    ensures AccessorRead(MSBFirst, m, p, 3) == Value3(m[p + 2], m[p + 1], m[p])
  {
    AccessorStep(MSBFirst, m, p, 3);
    AccessorStep(MSBFirst, m, p + 1, 2);
    AccessorStep(MSBFirst, m, p + 2, 1);
    assert AccessorRead(MSBFirst, m, p + 3, 0) == 0;
  }

  /** READ of one byte is that byte. */
  lemma Read8(doAccess: bool, order: ByteOrder, m: seq<bv8>, q: nat)
    requires q + 1 <= |m|
    ensures Read(doAccess, order, m, q, 1) == m[q] as bv32
  {
    ReadPaths(order, m, q, 1);
  }

  /** READ of a 16-bit unit, in each byte order, and shifted up by one byte. */
  lemma Read16(doAccess: bool, order: ByteOrder, m: seq<bv8>, q: nat)
    requires q + 2 <= |m|
    ensures order == LSBFirst ==> Read(doAccess, order, m, q, 2) == (m[q] as bv32) | ((m[q + 1] as bv32) << 8)
    ensures order == LSBFirst ==> Read(doAccess, order, m, q, 2) << 8 == ((m[q] as bv32) << 8) | ((m[q + 1] as bv32) << 16)
    ensures order == MSBFirst ==> Read(doAccess, order, m, q, 2) == ((m[q] as bv32) << 8) | (m[q + 1] as bv32)
    ensures order == MSBFirst ==> Read(doAccess, order, m, q, 2) << 8 == ((m[q] as bv32) << 16) | ((m[q + 1] as bv32) << 8)
  {
    ReadPaths(order, m, q, 2);
  }

  /** With the most significant byte first, Fetch24 at either parity reads the three bytes at p. */
  lemma Fetch24MSB(doAccess: bool, m: seq<bv8>, p: nat)
    requires p + 3 <= |m|
    ensures Fetch24(doAccess, MSBFirst, m, p) == Value3(m[p + 2], m[p + 1], m[p])
  {
    if p % 2 == 1 {
      Read8(doAccess, MSBFirst, m, p);
      Read16(doAccess, MSBFirst, m, p + 1);
    } else {
      Read16(doAccess, MSBFirst, m, p);
      Read8(doAccess, MSBFirst, m, p + 2);
    }
  }

  /** With the least significant byte first, Fetch24 at either parity reads the three bytes at p. */
  lemma Fetch24LSB(doAccess: bool, m: seq<bv8>, p: nat)
    requires p + 3 <= |m|
    ensures Fetch24(doAccess, LSBFirst, m, p) == Value3(m[p], m[p + 1], m[p + 2])
  {
    if p % 2 == 1 {
      Read8(doAccess, LSBFirst, m, p);
      Read16(doAccess, LSBFirst, m, p + 1);
    } else {
      Read16(doAccess, LSBFirst, m, p);
      Read8(doAccess, LSBFirst, m, p + 2);
    }
  }

  /** Whatever the parity of p and the access path, Fetch24 reads the 3-byte unit at p. */
  lemma Fetch24Unit(doAccess: bool, order: ByteOrder, m: seq<bv8>, p: nat)
    requires p + 3 <= |m|
    ensures Fetch24(doAccess, order, m, p) == AccessorRead(order, m, p, 3)
  {
    if order == LSBFirst {
      Fetch24LSB(doAccess, m, p);
      AccessorReadLSB3(m, p);
    } else {
      Fetch24MSB(doAccess, m, p);
      AccessorReadMSB3(m, p);
    }
  }

  /** Fetch24 after Store24 at the same address returns the low 24 bits of the stored value. */
  lemma Fetch24Stored24(doAccess: bool, order: ByteOrder, m: seq<bv8>, p: nat, v: bv32)
    requires p + 3 <= |m|
    ensures Fetch24(doAccess, order, Stored24(order, m, p, v), p) == v & 0xffffff
  {
    var m' := Stored24(order, m, p, v);
    JoinSplit(v);
    if order == LSBFirst {
      Fetch24LSB(doAccess, m', p);
      assert m'[p] == ValueByte(v, 0) && m'[p + 1] == ValueByte(v, 1) && m'[p + 2] == ValueByte(v, 2);
    } else {
      Fetch24MSB(doAccess, m', p);
      assert m'[p] == ValueByte(v, 2) && m'[p + 1] == ValueByte(v, 1) && m'[p + 2] == ValueByte(v, 0);
    }
  }

  /** Storing back what Fetch24 read leaves memory as it was. */
  lemma Stored24Fetched(doAccess: bool, order: ByteOrder, m: seq<bv8>, p: nat)
    requires p + 3 <= |m|
    ensures Stored24(order, m, p, Fetch24(doAccess, order, m, p)) == m
  {
    var v := Fetch24(doAccess, order, m, p);
    if order == LSBFirst {
      Fetch24LSB(doAccess, m, p);
      SplitJoin(m[p], m[p + 1], m[p + 2]);
    } else {
      Fetch24MSB(doAccess, m, p);
      SplitJoin(m[p + 2], m[p + 1], m[p]);
    }
    var m' := Stored24(order, m, p, v);
    assert m'[p] == UnitByte(order, v, 3, 0) == m[p];
    assert m'[p + 1] == UnitByte(order, v, 3, 1) == m[p + 1];
    assert m'[p + 2] == UnitByte(order, v, 3, 2) == m[p + 2];
    assert forall i :: 0 <= i < |m| ==> m'[i] == m[i];
  }

  // ---------------------------------------------------------------------
  // MEMCPY_WRAPPED and MEMSET_WRAPPED
  // ---------------------------------------------------------------------

  /** The destination after its first n bytes are copied from s. */
  function Copied(d: seq<bv8>, s: seq<bv8>, n: nat): (r: seq<bv8>)
    requires n <= |d| && n <= |s|
    ensures |r| == |d|
    ensures forall i :: 0 <= i < n ==> r[i] == s[i]
    ensures forall i :: n <= i < |d| ==> r[i] == d[i]
  {
    s[..n] + d[n..]
  }

  /** The destination after its first n bytes are set to c. */
  function Filled(d: seq<bv8>, c: bv8, n: nat): (r: seq<bv8>)
    requires n <= |d|
    ensures |r| == |d|
    ensures forall i :: 0 <= i < n ==> r[i] == c
    ensures forall i :: n <= i < |d| ==> r[i] == d[i]
  {
    seq(n, _ => c) + d[n..]
  }

  /** One more byte copied through READ and WRITE extends the copied prefix by one. */
  lemma CopiedStep(doAccess: bool, order: ByteOrder, d: seq<bv8>, s: seq<bv8>, i: nat)
    requires i < |d| && i < |s|
    ensures Written(order, Copied(d, s, i), i, 1, Read(doAccess, order, s, i, 1)) == Copied(d, s, i + 1)
  {
    ReadBytes(doAccess, order, s, i, 1);
    var c := Read(doAccess, order, s, i, 1);
    assert UnitByte(order, c, 1, 0) == s[i];
    var w := Written(order, Copied(d, s, i), i, 1, c);
    var r := Copied(d, s, i + 1);
    assert forall j :: 0 <= j < |d| ==> w[j] == r[j];
  }

  /** One more byte written through WRITE extends the filled prefix by one. */
  lemma FilledStep(order: ByteOrder, d: seq<bv8>, val: bv32, i: nat)
    requires i < |d|
    ensures Written(order, Filled(d, (val & 0xff) as bv8, i), i, 1, val) == Filled(d, (val & 0xff) as bv8, i + 1)
  {
    assert UnitByte(order, val, 1, 0) == ((val >> 0) & 0xff) as bv8;
    var w := Written(order, Filled(d, (val & 0xff) as bv8, i), i, 1, val);
    var r := Filled(d, (val & 0xff) as bv8, i + 1);
    assert forall j :: 0 <= j < |d| ==> w[j] == r[j];
  }

  /**
   * MEMCPY_WRAPPED: byte by byte through READ and WRITE when accessors are in
   * use, else a plain memcpy. Both paths leave the same buffer: the first
   * `size` bytes of src, then dst's own bytes.
   */
  method MemcpyWrapped(doAccess: bool, order: ByteOrder, dst: array<bv8>, src: array<bv8>, size: nat)
    requires dst != src
    requires size <= dst.Length && size <= src.Length
    modifies dst
    ensures dst[..] == Copied(old(dst[..]), src[..], size)
  {
    if doAccess {
      var i := 0;
      while i < size
        invariant i <= size
        invariant dst[..] == Copied(old(dst[..]), src[..], i)
      {
        CopiedStep(doAccess, order, old(dst[..]), src[..], i);
        Write(doAccess, order, dst, i, 1, Read(doAccess, order, src[..], i, 1));
        i := i + 1;
      }
    } else {
      forall i | 0 <= i < size {
        dst[i] := src[i];
      }
      assert dst[..] == Copied(old(dst[..]), src[..], size);
    }
  }

  /**
   * MEMSET_WRAPPED: byte by byte through WRITE when accessors are in use,
   * else a plain memset. Both paths leave the same buffer: `size` copies of
   * val's low byte, then dst's own bytes.
   */
  method MemsetWrapped(doAccess: bool, order: ByteOrder, dst: array<bv8>, val: bv32, size: nat)
    requires size <= dst.Length
    modifies dst
    ensures dst[..] == Filled(old(dst[..]), (val & 0xff) as bv8, size)
  {
    if doAccess {
      var i := 0;
      while i < size
        invariant i <= size
        invariant dst[..] == Filled(old(dst[..]), (val & 0xff) as bv8, i)
      {
        FilledStep(order, old(dst[..]), val, i);
        Write(doAccess, order, dst, i, 1, val);
        i := i + 1;
      }
    } else {
      forall i | 0 <= i < size {
        dst[i] := (val & 0xff) as bv8;
      }
      assert dst[..] == Filled(old(dst[..]), (val & 0xff) as bv8, size);
    }
  }

  /** Copying a buffer's prefix onto itself, or copying it twice, changes nothing further. */
  lemma CopiedIdempotent(d: seq<bv8>, s: seq<bv8>, n: nat)
    requires n <= |d| && n <= |s|
    ensures Copied(Copied(d, s, n), s, n) == Copied(d, s, n)
    ensures Copied(d, d, n) == d
  {
    assert Copied(Copied(d, s, n), s, n) == Copied(d, s, n);
    assert Copied(d, d, n) == d;
  }

  /** Filling a prefix twice is filling it once; filling the whole buffer forgets it. */
  lemma FilledIdempotent(d: seq<bv8>, e: seq<bv8>, c: bv8, n: nat)
    requires n <= |d| && |e| == |d|
    ensures Filled(Filled(d, c, n), c, n) == Filled(d, c, n)
    ensures Filled(d, c, |d|) == Filled(e, c, |e|)
  {
    assert Filled(Filled(d, c, n), c, n) == Filled(d, c, n);
    assert Filled(d, c, |d|) == Filled(e, c, |e|);
  }
}
