/**
 * Byte-order codec of exif.c: the 16- and 32-bit swaps, the "fix" helpers that
 * swap only when the Exif data order differs from the host order, and the way
 * a host of either order loads a multi-byte field from memory.
 *
 * Machine integers are modelled by bounded integer newtypes; the swaps are the
 * shift-and-mask expressions of the source written with division and remainder.
 * The host byte order is a parameter (`hostLittle`) wherever the source asks
 * `systemIsLittleEndian()`.
 */
module ByteOrder {

  newtype uint8 = x: int | 0 <= x < 0x100
  newtype uint16 = x: int | 0 <= x < 0x1_0000
  newtype uint32 = x: int | 0 <= x < 0x1_0000_0000

  /** The value a machine of the given order reads from two bytes of memory. */
  function LoadU16(little: bool, b: seq<uint8>): uint16
    requires |b| == 2
  {
    if little then b[1] as uint16 * 0x100 + b[0] as uint16
    else b[0] as uint16 * 0x100 + b[1] as uint16
  }

  /** The value a machine of the given order reads from four bytes of memory. */
  function LoadU32(little: bool, b: seq<uint8>): uint32
    requires |b| == 4
  {
    if little then ((b[3] as uint32 * 0x100 + b[2] as uint32) * 0x100 + b[1] as uint32) * 0x100 + b[0] as uint32
    else ((b[0] as uint32 * 0x100 + b[1] as uint32) * 0x100 + b[2] as uint32) * 0x100 + b[3] as uint32
  }

  /** The four bytes of a 32-bit value, least significant first. */
  function BytesOf32(x: uint32): seq<uint8>
  {
    [(x % 0x100) as uint8, (x / 0x100 % 0x100) as uint8,
     (x / 0x100 / 0x100 % 0x100) as uint8, (x / 0x100 / 0x100 / 0x100) as uint8]
  }

  /** The two bytes a 16-bit variable holds in the memory of a host of the given order. */
  function StoreU16(hostLittle: bool, x: uint16): (b: seq<uint8>)
    ensures |b| == 2 && LoadU16(hostLittle, b) == x
  {
    if hostLittle then [(x % 0x100) as uint8, (x / 0x100) as uint8]
    else [(x / 0x100) as uint8, (x % 0x100) as uint8]
  }

  /** The four bytes a 32-bit variable holds in the memory of a host of the given order. */
  function StoreU32(hostLittle: bool, x: uint32): (b: seq<uint8>)
    ensures |b| == 4 && LoadU32(hostLittle, b) == x
  {
    var le := BytesOf32(x);
    LoadBytesOf32(x);
    if hostLittle then le else [le[3], le[2], le[1], le[0]]
  }

  /** swab16: exchanges the two bytes of a 16-bit value. */
  function Swab16(us: uint16): (r: uint16)
    ensures r % 0x100 == us / 0x100 && r / 0x100 == us % 0x100
  {
    DivMod256(us as int / 0x100, us as int % 0x100);
    (us % 0x100) * 0x100 + us / 0x100
  }

  /** swab32: reverses the four bytes of a 32-bit value. */
  function Swab32(ui: uint32): (r: uint32)
    ensures var b := BytesOf32(ui); BytesOf32(r) == [b[3], b[2], b[1], b[0]]
  {
    var b := BytesOf32(ui);
    var r := (ui % 0x100) * 0x100_0000 + (ui / 0x100 % 0x100) * 0x1_0000
      + (ui / 0x100 / 0x100 % 0x100) * 0x100 + ui / 0x100 / 0x100 / 0x100;
    assert r == LoadU32(true, [b[3], b[2], b[1], b[0]]);
    BytesOfLoad32([b[3], b[2], b[1], b[0]]);
    r
  }

  /**
   * dataIsLittleEndian: the byte-order mark "II" (0x4949) means little-endian
   * data. The mark is a palindrome, so the answer is the same whichever order
   * the host stored the mark's two bytes in.
   */
  predicate DataIsLittleEndian(byteOrder: uint16): (r: bool)
    ensures r <==> StoreU16(true, byteOrder) == [0x49, 0x49]
    ensures r <==> StoreU16(false, byteOrder) == [0x49, 0x49]
  {
    DivMod256(byteOrder as int % 0x100, byteOrder as int / 0x100);
    byteOrder == 0x4949
  }

  /**
   * fix_short: the value, in the data's byte order, of the two bytes a 16-bit
   * variable that was loaded natively holds in host memory.
   */
  function FixShort(dataLittle: bool, hostLittle: bool, us: uint16): (r: uint16)
    ensures r == LoadU16(dataLittle, StoreU16(hostLittle, us))
  {
    Swab16OfLoad(hostLittle, StoreU16(hostLittle, us));
    if dataLittle != hostLittle then Swab16(us) else us
  }

  /**
   * fix_int: the value, in the data's byte order, of the four bytes a 32-bit
   * variable that was loaded natively holds in host memory.
   */
  function FixInt(dataLittle: bool, hostLittle: bool, ui: uint32): (r: uint32)
    ensures r == LoadU32(dataLittle, StoreU32(hostLittle, ui))
  {
    Swab32OfLoad(hostLittle, StoreU32(hostLittle, ui));
    if dataLittle != hostLittle then Swab32(ui) else ui
  }

  lemma DivMod256(a: int, q: int)
    requires 0 <= a < 0x100 && 0 <= q
    ensures (q * 0x100 + a) % 0x100 == a && (q * 0x100 + a) / 0x100 == q
  {
  }

  /** Splitting a value into its bytes and loading them back is the identity. */
  lemma {:induction false} LoadBytesOf32(x: uint32)
    ensures LoadU32(true, BytesOf32(x)) == x
  {
    var y := x as int;
    assert y == y / 0x100 * 0x100 + y % 0x100;
    assert y / 0x100 == y / 0x100 / 0x100 * 0x100 + y / 0x100 % 0x100;
    assert y / 0x100 / 0x100 == y / 0x100 / 0x100 / 0x100 * 0x100 + y / 0x100 / 0x100 % 0x100;
  }

  /** Loading four bytes and splitting the value again gives the same bytes. */
  lemma {:induction false} BytesOfLoad32(b: seq<uint8>)
    requires |b| == 4
    ensures BytesOf32(LoadU32(true, b)) == b
  {
    var q2 := b[3] as int * 0x100 + b[2] as int;
    var q1 := q2 * 0x100 + b[1] as int;
    DivMod256(b[0] as int, q1);
    DivMod256(b[1] as int, q2);
    DivMod256(b[2] as int, b[3] as int);
  }

  /** swab32 reads the bytes of its argument in the opposite order. */
  lemma Swab32IsReversal(x: uint32)
    ensures Swab32(x) == LoadU32(false, BytesOf32(x))
  {
  }

  /** swab16 is an involution. */
  lemma Swab16Involution(us: uint16)
    ensures Swab16(Swab16(us)) == us
  {
    DivMod256(us as int / 0x100, us as int % 0x100);
  }

  /** swab32 is an involution. */
  lemma {:induction false} Swab32Involution(ui: uint32)
    ensures Swab32(Swab32(ui)) == ui
  {
    Swab32IsReversal(ui);
    var b := BytesOf32(ui);
    var r := [b[3], b[2], b[1], b[0]];
    assert LoadU32(false, b) == LoadU32(true, r);
    BytesOfLoad32(r);
    Swab32IsReversal(Swab32(ui));
    LoadBytesOf32(ui);
  }

  /** Swapping a loaded 16-bit field is the same as loading it in the other order. */
  lemma Swab16OfLoad(little: bool, b: seq<uint8>)
    requires |b| == 2
    ensures Swab16(LoadU16(little, b)) == LoadU16(!little, b)
  {
    DivMod256(b[0] as int, b[1] as int);
    DivMod256(b[1] as int, b[0] as int);
  }

  /** Swapping a loaded 32-bit field is the same as loading it in the other order. */
  lemma {:induction false} Swab32OfLoad(little: bool, b: seq<uint8>)
    requires |b| == 4
    ensures Swab32(LoadU32(little, b)) == LoadU32(!little, b)
  {
    var r := [b[3], b[2], b[1], b[0]];
    assert LoadU32(!little, b) == LoadU32(little, r);
    if little {
      BytesOfLoad32(b);
      Swab32IsReversal(LoadU32(true, b));
    } else {
      assert LoadU32(false, b) == LoadU32(true, r);
      BytesOfLoad32(r);
      Swab32IsReversal(LoadU32(true, r));
    }
  }

  /**
   * A 16-bit field loaded natively and then passed through fix_short has the
   * value the data order gives it, whatever the host order.
   */
  lemma FixShortOfLoad(dataLittle: bool, hostLittle: bool, b: seq<uint8>)
    requires |b| == 2
    ensures FixShort(dataLittle, hostLittle, LoadU16(hostLittle, b)) == LoadU16(dataLittle, b)
  {
    Swab16OfLoad(hostLittle, b);
  }

  /**
   * A 32-bit field loaded natively and then passed through fix_int has the
   * value the data order gives it, whatever the host order.
   */
  lemma FixIntOfLoad(dataLittle: bool, hostLittle: bool, b: seq<uint8>)
    requires |b| == 4
    ensures FixInt(dataLittle, hostLittle, LoadU32(hostLittle, b)) == LoadU32(dataLittle, b)
  {
    Swab32OfLoad(hostLittle, b);
  }

  /** Consequently a little-endian and a big-endian host decode the same field identically. */
  lemma {:induction false} FixedFieldIsHostIndependent(dataLittle: bool, b2: seq<uint8>, b4: seq<uint8>)
    requires |b2| == 2 && |b4| == 4
    ensures FixShort(dataLittle, true, LoadU16(true, b2)) == FixShort(dataLittle, false, LoadU16(false, b2))
    ensures FixInt(dataLittle, true, LoadU32(true, b4)) == FixInt(dataLittle, false, LoadU32(false, b4))
  {
    FixShortOfLoad(dataLittle, true, b2);
    FixShortOfLoad(dataLittle, false, b2);
    FixIntOfLoad(dataLittle, true, b4);
    FixIntOfLoad(dataLittle, false, b4);
  }

  /**
   * Mirroring a file's byte order: flipping the byte-order mark and reversing
   * the bytes of a field leaves its decoded value unchanged.
   */
  lemma MirroredFieldsDecodeAlike(little: bool, b2: seq<uint8>, b4: seq<uint8>)
    requires |b2| == 2 && |b4| == 4
    ensures LoadU16(!little, [b2[1], b2[0]]) == LoadU16(little, b2)
    ensures LoadU32(!little, [b4[3], b4[2], b4[1], b4[0]]) == LoadU32(little, b4)
  {
  }

  /**
   * The byte-order marks are palindromes, so comparing the natively loaded
   * mark with 0x4949 or 0x4D4D needs no swap: the outcome is the same on both
   * hosts and identifies the two mark bytes exactly.
   */
  lemma ByteOrderMarkIsHostIndependent(hostLittle: bool, b: seq<uint8>)
    requires |b| == 2
    ensures LoadU16(hostLittle, b) == 0x4949 <==> b == [0x49, 0x49]
    ensures LoadU16(hostLittle, b) == 0x4D4D <==> b == [0x4D, 0x4D]
  {
    DivMod256(b[0] as int, b[1] as int);
    DivMod256(b[1] as int, b[0] as int);
  }
}
