/**
 * readApp1SegmentHeader and init: read the 18-byte APP1 header at the located
 * offset (marker, big-endian segment length, "Exif\0\0", then the 8-byte TIFF
 * header of TIFF Revision 6.0, section 2: byte-order mark, the version 42 and
 * where the 0th IFD starts) and validate it. The two globals the source sets,
 * App1StartOffset and App1Header, are returned as one session value.
 */
module TiffHeader {
  import opened ByteOrder
  import opened FileAccess
  import opened SegmentLocator

  /** sizeof(APP1_HEADER) under 2-byte packing: 2 + 2 + 6 + 8. */
  const APP1_HEADER_SIZE: nat := 18
  /** offsetof(APP1_HEADER, tiff): TIFF-relative offsets count from here. */
  const TIFF_HEADER_START: nat := 10
  const TIFF_VERSION: uint16 := 0x002A
  const BIG_ENDIAN_MARK: uint16 := 0x4D4D
  const LITTLE_ENDIAN_MARK: uint16 := 0x4949

  /** App1Header after validation: the length is in host terms, the version and 0th-IFD offset in data order. */
  datatype App1Header = App1Header(length: uint16, byteOrder: uint16, version: uint16, ifd0thOffset: uint32)

  /** The decode session that replaces the globals App1StartOffset and App1Header. */
  datatype Session = Session(app1StartOffset: nat, header: App1Header)
  {
    /** dataIsLittleEndian() */
    predicate DataIsLittle()
    {
      DataIsLittleEndian(header.byteOrder)
    }

    /**
     * seekToRelativeOffset: the absolute file position of a TIFF-relative
     * offset. The sum is formed in unsigned 32-bit arithmetic.
     */
    function SeekPosition(ofs: nat): (pos: nat)
      ensures pos < 0x1_0000_0000
      ensures app1StartOffset + TIFF_HEADER_START + ofs < 0x1_0000_0000 ==>
        pos == app1StartOffset + TIFF_HEADER_START + ofs
      ensures app1StartOffset + TIFF_HEADER_START + ofs >= 0x1_0000_0000 ==>
        pos < app1StartOffset + TIFF_HEADER_START + ofs
    {
      (app1StartOffset + TIFF_HEADER_START + ofs) % 0x1_0000_0000
    }
  }

  /** Result of init: 1 with a session, 0 when there is no Exif segment, or an error code. */
  datatype InitResult = Ready(session: Session) | NoExif | InitFailed(error: Error)

  /** What readApp1SegmentHeader accepts at `start`, in host-independent terms. */
  function DecodeApp1Header(file: seq<uint8>, start: nat): (h: Option<App1Header>)
    ensures h.Some? ==> start + APP1_HEADER_SIZE <= |file|
    ensures h.Some? ==> h.value.byteOrder == LITTLE_ENDIAN_MARK || h.value.byteOrder == BIG_ENDIAN_MARK
    ensures h.Some? ==> h.value.version == TIFF_VERSION
  {
    match Read(file, start, APP1_HEADER_SIZE)
    case None => None
    case Some(b) =>
      var byteOrder := LoadU16(false, b[10..12]);
      if byteOrder != BIG_ENDIAN_MARK && byteOrder != LITTLE_ENDIAN_MARK then None
      else
        var little := DataIsLittleEndian(byteOrder);
        var version := LoadU16(little, b[12..14]);
        if version != TIFF_VERSION then None
        else Some(App1Header(LoadU16(false, b[2..4]), byteOrder, version, LoadU32(little, b[14..18])))
  }

  /** init: locate the Exif segment, then read its header. */
  function InitSession(file: seq<uint8>): (r: InitResult)
    ensures r.NoExif? <==> LocateExifSegment(file) == NotFound
    ensures r.Ready? <==> LocateExifSegment(file).Found? && DecodeApp1Header(file, LocateExifSegment(file).offset).Some?
    ensures r.Ready? ==> DecodeApp1Header(file, r.session.app1StartOffset) == Some(r.session.header)
    ensures r.InitFailed? ==> r.error == InvalidJpeg || r.error == ReadFile || r.error == InvalidApp1Header
    ensures r == InitFailed(InvalidApp1Header) <==>
      LocateExifSegment(file).Found? && DecodeApp1Header(file, LocateExifSegment(file).offset).None?
  {
    assert LocateExifSegment(file).Failed? ==>
      LocateExifSegment(file).error == InvalidJpeg || LocateExifSegment(file).error == ReadFile by {
      if LocateExifSegment(file).Failed? {
        LocateErrors(file);
      }
    }
    match LocateExifSegment(file)
    case NotFound => NoExif
    case Failed(e) => InitFailed(e)
    case Found(ofs) =>
      match DecodeApp1Header(file, ofs)
      case None => InitFailed(InvalidApp1Header)
      case Some(h) => Ready(Session(ofs, h))
  }

  /**
   * readApp1SegmentHeader: the header is loaded natively; the segment length is
   * swapped on a little-endian host, the mark is compared as loaded, the
   * version and the 0th-IFD offset go through fix_short and fix_int.
   */
  method ReadApp1SegmentHeader(file: seq<uint8>, hostLittle: bool, start: nat) returns (h: Option<App1Header>)
    ensures h == DecodeApp1Header(file, start)
  {
    if start + APP1_HEADER_SIZE > |file| {
      return None;
    }
    var b := file[start..start + APP1_HEADER_SIZE];
    // the length field is big-endian whatever the data order
    var length := LoadU16(hostLittle, b[2..4]);
    if hostLittle {
      Swab16OfLoad(true, b[2..4]);
      length := Swab16(length);
    }
    // "II" or "MM": compared as loaded, both marks being palindromes
    var byteOrder := LoadU16(hostLittle, b[10..12]);
    ByteOrderMarkIsHostIndependent(hostLittle, b[10..12]);
    ByteOrderMarkIsHostIndependent(false, b[10..12]);
    if byteOrder != BIG_ENDIAN_MARK && byteOrder != LITTLE_ENDIAN_MARK {
      return None;
    }
    var little := DataIsLittleEndian(byteOrder);
    // the TIFF version must read 42 in the data order
    var version := FixShort(little, hostLittle, LoadU16(hostLittle, b[12..14]));
    FixShortOfLoad(little, hostLittle, b[12..14]);
    if version != TIFF_VERSION {
      return None;
    }
    // where the first directory starts, relative to the TIFF header
    var ifd0thOffset := FixInt(little, hostLittle, LoadU32(hostLittle, b[14..18]));
    FixIntOfLoad(little, hostLittle, b[14..18]);
    return Some(App1Header(length, byteOrder, version, ifd0thOffset));
  }

  /** init */
  method Init(file: seq<uint8>, hostLittle: bool) returns (r: InitResult)
    ensures r == InitSession(file)
  {
    var sts := GetApp1StartOffset(file, hostLittle);
    match sts {
      case NotFound =>
        return NoExif;
      case Failed(e) =>
        return InitFailed(e);
      case Found(ofs) =>
        var h := ReadApp1SegmentHeader(file, hostLittle, ofs);
        if h.None? {
          return InitFailed(InvalidApp1Header);
        }
        return Ready(Session(ofs, h.value));
    }
  }

  /**
   * The header is accepted exactly when all 18 bytes are present, the mark is
   * "II" or "MM" and the version reads 0x002A in the order the mark names;
   * the segment length is then read big-endian and the 0th-IFD offset in data order.
   */
  lemma DecodeApp1HeaderIff(file: seq<uint8>, start: nat)
    ensures DecodeApp1Header(file, start).Some? <==>
      && start + APP1_HEADER_SIZE <= |file|
      && (file[start + 10..start + 12] == [0x49, 0x49] || file[start + 10..start + 12] == [0x4D, 0x4D])
      && LoadU16(file[start + 10] == 0x49, file[start + 12..start + 14]) == TIFF_VERSION
    ensures DecodeApp1Header(file, start).Some? ==>
      var h := DecodeApp1Header(file, start).value;
      && h.length == LoadU16(false, file[start + 2..start + 4])
      && h.ifd0thOffset == LoadU32(file[start + 10] == 0x49, file[start + 14..start + 18])
      && (h.byteOrder == LITTLE_ENDIAN_MARK <==> file[start + 10] == 0x49)
  {
    if start + APP1_HEADER_SIZE <= |file| {
      var b := file[start..start + APP1_HEADER_SIZE];
      assert b[10..12] == file[start + 10..start + 12];
      assert b[12..14] == file[start + 12..start + 14];
      assert b[14..18] == file[start + 14..start + 18];
      assert b[2..4] == file[start + 2..start + 4];
      ByteOrderMarkIsHostIndependent(false, b[10..12]);
    }
  }

  /**
   * A ready session starts at an FF E1 marker at offset 2 or more whose
   * payload begins "Exif\0", its whole 18-byte header lies inside the file,
   * and its byte-order mark is one of the two TIFF marks.
   */
  lemma InitReadyIsValid(file: seq<uint8>)
    requires InitSession(file).Ready?
    ensures var s := InitSession(file).session;
      && LocateExifSegment(file) == Found(s.app1StartOffset)
      && 2 <= s.app1StartOffset
      && s.app1StartOffset + APP1_HEADER_SIZE <= |file|
      && file[s.app1StartOffset..s.app1StartOffset + 2] == [0xFF, 0xE1]
      && (s.header.byteOrder == LITTLE_ENDIAN_MARK || s.header.byteOrder == BIG_ENDIAN_MARK)
      && s.header.version == TIFF_VERSION
  {
    LocateFoundIsExifApp1(file);
  }
}
