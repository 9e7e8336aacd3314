/**
 * getApp1StartOffset: walks the JPEG marker stream (ITU-T T.81, Annex B) from
 * the start-of-image marker and finds the first APP1 segment whose payload
 * begins with the Exif identifier "Exif\0" (Exif 2.3, section 4.5.4).
 * Marker and segment-length fields are big-endian whatever the host order.
 */
module SegmentLocator {
  import opened ByteOrder
  import opened FileAccess

  const SOI: uint16 := 0xFFD8
  const DQT: uint16 := 0xFFDB
  const APP1: uint16 := 0xFFE1
  const EXIF_ID: seq<uint8> := [0x45, 0x78, 0x69, 0x66, 0x00]

  /** Result of the locator: a positive offset, 0 (not found) or an error code. */
  datatype Located = Found(offset: nat) | NotFound | Failed(error: Error)

  /** APP0 to APP15: the markers the walk may skip over. */
  predicate IsAppMarker(marker: uint16)
  {
    0xFFE0 <= marker <= 0xFFEF
  }

  /** The outcome of the walk, from the first byte of the file. */
  function LocateExifSegment(file: seq<uint8>): (r: Located)
    ensures r.Found? ==> 2 <= r.offset && r.offset + 9 <= |file|
  {
    if |file| < 2 then Failed(ReadFile)
    else if LoadU16(false, file[0..2]) != SOI then Failed(InvalidJpeg)
    else if |file| < 4 then Failed(ReadFile)
    else if LoadU16(false, file[2..4]) == DQT then NotFound
    else ScanSegments(file, 4)
  }

  /**
   * One turn of the marker loop. `pos` is the position just after the marker
   * under examination. The length field counts itself, so the next marker is
   * `len` bytes after `pos`, both for a skipped APPn and for an APP1 whose
   * identifier does not match.
   */
  function ScanSegments(file: seq<uint8>, pos: nat): (r: Located)
    requires 4 <= pos <= |file|
    ensures r.Found? ==> pos - 2 <= r.offset && r.offset + 9 <= |file|
    decreases |file| - pos
  {
    var marker := LoadU16(false, file[pos - 2..pos]);
    if !IsAppMarker(marker) then NotFound
    else if pos + 2 > |file| then Failed(ReadFile)
    else
      var len := LoadU16(false, file[pos..pos + 2]) as nat;
      if marker == APP1 && pos + 7 > |file| then Failed(ReadFile)
      else if marker == APP1 && file[pos + 2..pos + 7] == EXIF_ID then Found(pos - 2)
      else if pos + len + 2 > |file| then Failed(ReadFile)
      else ScanSegments(file, pos + len + 2)
  }

  /** getApp1StartOffset, reading each big-endian field natively and swapping on a little-endian host. */
  method GetApp1StartOffset(file: seq<uint8>, hostLittle: bool) returns (r: Located)
    ensures r == LocateExifSegment(file)
  {
    // the file must open with the start-of-image marker FF D8
    if |file| < 2 {
      return Failed(ReadFile);
    }
    var marker := LoadU16(hostLittle, file[0..2]);
    if hostLittle {
      Swab16OfLoad(true, file[0..2]);
      marker := Swab16(marker);
    }
    if marker != SOI {
      return Failed(InvalidJpeg);
    }
    if |file| < 4 {
      return Failed(ReadFile);
    }
    marker := LoadU16(hostLittle, file[2..4]);
    if hostLittle {
      Swab16OfLoad(true, file[2..4]);
      marker := Swab16(marker);
    }
    // a DQT marker right after SOI: there is no application segment
    if marker == DQT {
      return NotFound;
    }
    var pos := 4;
    while true
      invariant 4 <= pos <= |file|
      invariant marker == LoadU16(false, file[pos - 2..pos])
      invariant ScanSegments(file, pos) == LocateExifSegment(file)
      decreases |file| - pos
    {
      if !IsAppMarker(marker) {
        break;
      }
      // the big-endian length field that follows the marker
      if pos + 2 > |file| {
        return Failed(ReadFile);
      }
      var len := LoadU16(hostLittle, file[pos..pos + 2]);
      if hostLittle {
        Swab16OfLoad(true, file[pos..pos + 2]);
        len := Swab16(len);
      }
      var next: int;
      if marker != APP1 {
        // skip the rest of the segment: fseek(len - 2, SEEK_CUR) after the length field
        next := pos + 2 + (len as int - 2);
      } else {
        if pos + 7 > |file| {
          return Failed(ReadFile);
        }
        if file[pos + 2..pos + 7] == EXIF_ID {
          return Found(pos - 2);
        }
        // not the Exif segment: back to `pos`, then `len` bytes on
        next := pos + len as int;
      }
      // the marker that follows the skipped bytes
      if next + 2 > |file| {
        return Failed(ReadFile);
      }
      marker := LoadU16(hostLittle, file[next..next + 2]);
      if hostLittle {
        Swab16OfLoad(true, file[next..next + 2]);
        marker := Swab16(marker);
      }
      pos := next + 2;
    }
    return NotFound;
  }

  /** A big-endian 16-bit field equals `m` exactly when its bytes are m's high and low bytes. */
  lemma BigEndianFieldBytes(b: seq<uint8>, m: uint16)
    requires |b| == 2
    ensures LoadU16(false, b) == m <==> b == [(m / 0x100) as uint8, (m % 0x100) as uint8]
  {
    DivMod256(b[1] as int, b[0] as int);
  }

  /** The walk itself fails only on a short read; in particular it never reports ERR_INVALID_JPEG. */
  lemma {:induction false} ScanFailsOnlyOnShortRead(file: seq<uint8>, pos: nat)
    requires 4 <= pos <= |file|
    ensures ScanSegments(file, pos).Failed? ==> ScanSegments(file, pos) == Failed(ReadFile)
    decreases |file| - pos
  {
    var marker := LoadU16(false, file[pos - 2..pos]);
    if IsAppMarker(marker) && pos + 2 <= |file| {
      var len := LoadU16(false, file[pos..pos + 2]) as nat;
      if pos + len + 2 <= |file| {
        ScanFailsOnlyOnShortRead(file, pos + len + 2);
      }
    }
  }

  /** ERR_INVALID_JPEG is reported exactly when the first two bytes are present and are not FF D8. */
  lemma LocateInvalidJpegIff(file: seq<uint8>)
    ensures LocateExifSegment(file) == Failed(InvalidJpeg) <==> |file| >= 2 && file[0..2] != [0xFF, 0xD8]
  {
    if |file| >= 2 {
      BigEndianFieldBytes(file[0..2], SOI);
    }
    if |file| >= 4 {
      ScanFailsOnlyOnShortRead(file, 4);
    }
  }

  /** The only errors the locator reports are a bad start-of-image marker and a short read. */
  lemma LocateErrors(file: seq<uint8>)
    requires LocateExifSegment(file).Failed?
    ensures LocateExifSegment(file).error == InvalidJpeg || LocateExifSegment(file).error == ReadFile
  {
    if |file| >= 4 {
      ScanFailsOnlyOnShortRead(file, 4);
    }
  }

  /** A file whose first marker after SOI is not an application marker (DQT among them) has no Exif segment. */
  lemma LocateWithoutAppSegments(file: seq<uint8>)
    requires |file| >= 4 && file[0..2] == [0xFF, 0xD8]
    requires !IsAppMarker(LoadU16(false, file[2..4]))
    ensures LocateExifSegment(file) == NotFound
  {
    BigEndianFieldBytes(file[0..2], SOI);
  }

  /**
   * Whatever the walk finds is an FF E1 marker, after its two-byte length,
   * followed by the Exif identifier, all inside the file and at or after `pos - 2`.
   */
  lemma {:induction false} ScanFoundIsExifApp1(file: seq<uint8>, pos: nat)
    requires 4 <= pos <= |file|
    requires ScanSegments(file, pos).Found?
    ensures var o := ScanSegments(file, pos).offset;
      pos - 2 <= o && o + 9 <= |file| && file[o..o + 2] == [0xFF, 0xE1] && file[o + 4..o + 9] == EXIF_ID
    decreases |file| - pos
  {
    var marker := LoadU16(false, file[pos - 2..pos]);
    var len := LoadU16(false, file[pos..pos + 2]) as nat;
    if marker == APP1 && file[pos + 2..pos + 7] == EXIF_ID {
      BigEndianFieldBytes(file[pos - 2..pos], APP1);
    } else {
      ScanFoundIsExifApp1(file, pos + len + 2);
    }
  }

  /** A success result is the offset of an FF E1 marker whose payload begins "Exif\0", hence at least 2. */
  lemma LocateFoundIsExifApp1(file: seq<uint8>)
    requires LocateExifSegment(file).Found?
    ensures var o := LocateExifSegment(file).offset;
      2 <= o && o + 9 <= |file| && file[o..o + 2] == [0xFF, 0xE1] && file[o + 4..o + 9] == EXIF_ID
  {
    ScanFoundIsExifApp1(file, 4);
  }

  /** Any outcome but a short read is decided by bytes inside the file: appending bytes keeps it. */
  lemma {:induction false} ScanOfExtension(file: seq<uint8>, ext: seq<uint8>, pos: nat)
    requires 4 <= pos <= |file|
    requires ScanSegments(file, pos) != Failed(ReadFile)
    ensures ScanSegments(file + ext, pos) == ScanSegments(file, pos)
    decreases |file| - pos
  {
    var f := file + ext;
    assert f[pos - 2..pos] == file[pos - 2..pos];
    var marker := LoadU16(false, file[pos - 2..pos]);
    if IsAppMarker(marker) {
      assert f[pos..pos + 2] == file[pos..pos + 2];
      var len := LoadU16(false, file[pos..pos + 2]) as nat;
      if marker == APP1 {
        assert f[pos + 2..pos + 7] == file[pos + 2..pos + 7];
      }
      if !(marker == APP1 && file[pos + 2..pos + 7] == EXIF_ID) {
        ScanOfExtension(file, ext, pos + len + 2);
      }
    }
  }

  /** The locator's answer, unless it is a short read, does not change when the file grows. */
  lemma LocateOfExtension(file: seq<uint8>, ext: seq<uint8>)
    requires LocateExifSegment(file) != Failed(ReadFile)
    ensures LocateExifSegment(file + ext) == LocateExifSegment(file)
  {
    var f := file + ext;
    if |file| >= 2 {
      assert f[0..2] == file[0..2];
    }
    if |file| >= 4 {
      assert f[2..4] == file[2..4];
      if LoadU16(false, file[0..2]) == SOI && LoadU16(false, file[2..4]) != DQT {
        ScanOfExtension(file, ext, 4);
      }
    }
  }

  /** Moves a found offset at or after `from` in one file to the same place after `to` in another. */
  function Relocate(r: Located, from: nat, to: nat): Located
    requires r.Found? ==> from <= r.offset
  {
    match r
    case Found(o) => Found(o - from + to)
    case _ => r
  }

  /** The walk from a marker onwards depends only on the bytes from that marker on. */
  lemma {:induction false} ScanDependsOnTail(f: seq<uint8>, g: seq<uint8>, i: nat, j: nat)
    requires 2 <= i && 2 <= j && i + 2 <= |f| && j + 2 <= |g| && f[i..] == g[j..]
    ensures ScanSegments(f, i + 2) == Relocate(ScanSegments(g, j + 2), j, i)
    decreases |f| - i
  {
    assert |f| - i == |g| - j;
    assert f[i..i + 2] == g[j..j + 2] by { assert f[i..][..2] == g[j..][..2]; }
    var marker := LoadU16(false, f[i..i + 2]);
    if IsAppMarker(marker) && i + 4 <= |f| {
      assert f[i + 2..i + 4] == g[j + 2..j + 4] by { assert f[i..][2..4] == g[j..][2..4]; }
      var len := LoadU16(false, f[i + 2..i + 4]) as nat;
      if marker == APP1 && i + 9 <= |f| {
        assert f[i + 4..i + 9] == g[j + 4..j + 9] by { assert f[i..][4..9] == g[j..][4..9]; }
      }
      if !(marker == APP1 && (i + 9 > |f| || f[i + 4..i + 9] == EXIF_ID)) && i + len + 4 <= |f| {
        assert f[i + len + 2..] == g[j + len + 2..] by { assert f[i..][len + 2..] == g[j..][len + 2..]; }
        ScanDependsOnTail(f, g, i + len + 2, j + len + 2);
      }
    }
  }

  /** The big-endian encoding of a 16-bit length field. */
  function BigEndianBytes(n: uint16): seq<uint8>
  {
    [(n / 0x100) as uint8, (n % 0x100) as uint8]
  }

  /**
   * An application segment that is not an Exif APP1 is skipped by its
   * big-endian length, which counts the length field itself: inserting it
   * right after SOI moves the found offset by the segment's size and changes
   * nothing else.
   */
  lemma LocateSkipsAppSegment(n: uint8, payload: seq<uint8>, rest: seq<uint8>)
    requires n < 0x10 && |payload| + 2 < 0x1_0000 && |rest| >= 2
    requires n == 1 ==> |payload| >= 5 && payload[..5] != EXIF_ID
    ensures var segment := [0xFF, 0xE0 + n] + BigEndianBytes((|payload| + 2) as uint16) + payload;
      LocateExifSegment([0xFF, 0xD8] + segment + rest)
        == Relocate(LocateExifSegment([0xFF, 0xD8] + rest), 2, 2 + |segment|)
  {
    var segment := [0xFF, 0xE0 + n] + BigEndianBytes((|payload| + 2) as uint16) + payload;
    var f := [0xFF, 0xD8] + segment + rest;
    var g := [0xFF, 0xD8] + rest;
    var len := |payload| + 2;
    assert f[0..2] == g[0..2] == [0xFF, 0xD8];
    BigEndianFieldBytes(f[0..2], SOI);
    assert f[2..4] == [0xFF, 0xE0 + n];
    assert LoadU16(false, f[2..4]) == 0xFFE0 + n as uint16;
    assert f[4..6] == BigEndianBytes(len as uint16);
    BigEndianFieldBytes(f[4..6], len as uint16);
    assert LoadU16(false, f[4..6]) as nat == len;
    if n == 1 {
      assert f[6..11] == payload[..5];
    }
    var i := 2 + |segment|;
    assert i == 4 + len;
    assert f[i..] == g[2..];
    assert f[i..i + 2] == g[2..4];
    if LoadU16(false, g[2..4]) == DQT {
      assert ScanSegments(f, i + 2) == NotFound;
      assert ScanSegments(f, 4) == ScanSegments(f, i + 2);
    } else {
      ScanDependsOnTail(f, g, i, 2);
    }
  }
}
