/**
 * parseIFD: decodes one image file directory. It reads the tag count at the
 * TIFF-relative start offset, for the 0th IFD also the next-IFD offset, then
 * each 12-byte record (id, type, count, value-or-offset; TIFF Revision 6.0,
 * section 2). Each record's value is taken inline or from its offset by type,
 * normalised to the host order, widened into 32-bit slots and handed to
 * addTagNodeToIfd. Records with a type code it does not know are skipped.
 */
module IfdDecoder {
  import opened ByteOrder
  import opened FileAccess
  import opened TiffHeader
  import opened TagList

  /** sizeof(IFD_TAG) */
  const IFD_TAG_SIZE: nat := 12
  /** sizeof(TIFF_HEADER) */
  const TIFF_HEADER_SIZE: nat := 8
  /** sizeof(buf): the scratch buffer of parseIFD */
  const SCRATCH_SIZE: nat := 8192

  /** An IFD_TAG after fix_short/fix_int, with the raw bytes of its value field kept as `data`. */
  datatype IfdEntry = IfdEntry(tag: uint16, tagType: uint16, count: uint32, offset: uint32, data: seq<uint8>)

  /** The arguments one record hands to addTagNodeToIfd. */
  datatype TagValue = TagValue(tagId: uint16, tagType: uint16, count: uint32,
                               numData: Option<seq<uint32>>, byteData: Option<seq<uint8>>)

  function DecodeEntry(little: bool, rec: seq<uint8>): (e: IfdEntry)
    requires |rec| == IFD_TAG_SIZE
    ensures |e.data| == 4
  {
    IfdEntry(LoadU16(little, rec[0..2]), LoadU16(little, rec[2..4]),
             LoadU32(little, rec[4..8]), LoadU32(little, rec[8..12]), rec[8..12])
  }

  predicate IsByteArrayType(tagType: uint16)
  {
    tagType == TYPE_ASCII || tagType == TYPE_UNDEFINED
  }

  predicate IsIntegerType(tagType: uint16)
  {
    tagType == TYPE_BYTE || tagType == TYPE_SHORT || tagType == TYPE_LONG
    || tagType == TYPE_SBYTE || tagType == TYPE_SSHORT || tagType == TYPE_SLONG
  }

  /** The on-disk width of one element of an integer type. */
  function ElementSize(tagType: uint16): (size: nat)
    ensures size == 1 || size == 2 || size == 4
  {
    if tagType == TYPE_BYTE || tagType == TYPE_SBYTE then 1
    else if tagType == TYPE_SHORT || tagType == TYPE_SSHORT then 2
    else 4
  }

  /** What addTagNodeToIfd needs: at least `Slots` numbers, or else at least `count` bytes. */
  predicate Fits(v: TagValue)
  {
    && (v.count > 0 && v.numData.Some? ==> |v.numData.value| >= Slots(v.tagType, v.count))
    && (v.count > 0 && v.numData.None? && v.byteData.Some? ==> |v.byteData.value| >= v.count as nat)
  }

  function TagOf(v: TagValue): Tag
    requires Fits(v)
  {
    NewTagNode(v.tagId, v.tagType, v.count, v.numData, v.byteData)
  }

  /** A record the decoder flags as errored: no data is passed. */
  function Errored(e: IfdEntry): TagValue
  {
    TagValue(e.tag, e.tagType, e.count, None, None)
  }

  /**
   * The oversize guards, compared with the segment length of the APP1 header:
   * ASCII/UNDEFINED only above the 8192-byte scratch buffer; rationals at
   * 8 bytes per value; integer arrays of more than one value at one 4-byte
   * slot per value. Single integer values are never rejected.
   */
  predicate Oversized(e: IfdEntry, segmentLength: uint16)
  {
    if IsByteArrayType(e.tagType) then e.count as nat > SCRATCH_SIZE && e.count as nat >= segmentLength as nat
    else if IsRationalType(e.tagType) then 8 * e.count as nat >= segmentLength as nat
    else IsIntegerType(e.tagType) && e.count > 1 && 4 * e.count as nat >= segmentLength as nat
  }

  /**
   * `n` elements of `size` bytes each, decoded in the data order and widened
   * (zero-extended) into 32-bit slots.
   */
  function ElementsOf(little: bool, b: seq<uint8>, size: nat, n: nat): (r: seq<uint32>)
    requires size == 1 || size == 2 || size == 4
    requires |b| >= size * n
    ensures |r| == n
    ensures size == 1 ==> forall i :: 0 <= i < n ==> r[i] < 0x100
    ensures size == 2 ==> forall i :: 0 <= i < n ==> r[i] < 0x1_0000
  {
    if size == 1 then seq(n, i requires 0 <= i < n => b[i] as uint32)
    else if size == 2 then seq(n, i requires 0 <= i < n => LoadU16(little, b[2 * i..2 * i + 2]) as uint32)
    else seq(n, i requires 0 <= i < n => LoadU32(little, b[4 * i..4 * i + 4]))
  }

  /** ASCII and UNDEFINED: up to 4 bytes inline and unswapped, otherwise `count` bytes at the offset. */
  function ByteArrayValue(file: seq<uint8>, s: Session, e: IfdEntry): (v: TagValue)
    requires |e.data| == 4 && IsByteArrayType(e.tagType)
    ensures Fits(v)
    ensures v.numData.None?
  {
    if e.count <= 4 then TagValue(e.tag, e.tagType, e.count, None, Some(e.data))
    else if Oversized(e, s.header.length) then Errored(e)
    else
      match Read(file, s.SeekPosition(e.offset as nat), e.count as nat)
      case None => Errored(e)
      case Some(b) => TagValue(e.tag, e.tagType, e.count, None, Some(b))
  }

  /** RATIONAL and SRATIONAL: always `2 * count` words at the offset, each in data order. */
  function RationalValue(file: seq<uint8>, s: Session, e: IfdEntry): (v: TagValue)
    requires IsRationalType(e.tagType)
    ensures Fits(v)
    ensures v.byteData.None?
    ensures v.numData.Some? ==> |v.numData.value| == 2 * e.count as nat && 8 * e.count as nat < s.header.length as nat
  {
    var len := 8 * e.count as nat;
    if Oversized(e, s.header.length) then Errored(e)
    else
      match Read(file, s.SeekPosition(e.offset as nat), len)
      case None => Errored(e)
      case Some(b) => TagValue(e.tag, e.tagType, e.count, Some(ElementsOf(s.DataIsLittle(), b, 4, 2 * e.count as nat)), None)
  }

  /**
   * BYTE, SHORT, LONG and their signed forms. A count of at most one is taken
   * from the value field at the type's width. Larger counts are decoded from
   * the value field when `count * width` is at most 4, else from the offset;
   * each element gets one 32-bit slot.
   */
  function IntegerValue(file: seq<uint8>, s: Session, e: IfdEntry): (v: TagValue)
    requires |e.data| == 4 && IsIntegerType(e.tagType)
    ensures Fits(v)
    ensures v.byteData.None?
    ensures e.count > 1 && v.numData.Some? ==>
      |v.numData.value| == e.count as nat && 4 * e.count as nat < s.header.length as nat
  {
    var little := s.DataIsLittle();
    if e.count <= 1 then
      var val :=
        if ElementSize(e.tagType) == 1 then e.data[0] as uint32
        else if ElementSize(e.tagType) == 2 then LoadU16(little, e.data[0..2]) as uint32
        else e.offset;
      TagValue(e.tag, e.tagType, e.count, Some([val]), None)
    else
      var size := ElementSize(e.tagType);
      if Oversized(e, s.header.length) then Errored(e)
      else if size * e.count as nat <= 4 then
        TagValue(e.tag, e.tagType, e.count, Some(ElementsOf(little, e.data, size, e.count as nat)), None)
      else
        match Read(file, s.SeekPosition(e.offset as nat), size * e.count as nat)
        case None => Errored(e)
        case Some(b) => TagValue(e.tag, e.tagType, e.count, Some(ElementsOf(little, b, size, e.count as nat)), None)
  }

  /** The type dispatch of parseIFD: `None` for a type code it does not handle. */
  function DecodeTagValue(file: seq<uint8>, s: Session, rec: seq<uint8>): (r: Option<TagValue>)
    requires |rec| == IFD_TAG_SIZE
    ensures r.Some? ==> Fits(r.value)
    ensures var t := DecodeEntry(s.DataIsLittle(), rec).tagType;
      r.Some? <==> IsByteArrayType(t) || IsRationalType(t) || IsIntegerType(t)
  {
    var e := DecodeEntry(s.DataIsLittle(), rec);
    if IsByteArrayType(e.tagType) then Some(ByteArrayValue(file, s, e))
    else if IsRationalType(e.tagType) then Some(RationalValue(file, s, e))
    else if IsIntegerType(e.tagType) then Some(IntegerValue(file, s, e))
    else None
  }

  /** The node a record adds to its table, if any. */
  function DecodeTag(file: seq<uint8>, s: Session, rec: seq<uint8>): (r: Option<Tag>)
    requires |rec| == IFD_TAG_SIZE
    ensures r.Some? ==> ConsistentPayload(r.value)
  {
    match DecodeTagValue(file, s, rec)
    case None => None
    case Some(v) => Some(TagOf(v))
  }

  /** The nodes a decoded record contributes: none for a skipped record. */
  function Listed(t: Option<Tag>): seq<Tag>
  {
    if t.Some? then [t.value] else []
  }

  /** The nodes of a run of decoded records, in order, with the skipped records left out. */
  function Compact(ts: seq<Option<Tag>>): (r: seq<Tag>)
    ensures |r| <= |ts|
    ensures forall t :: t in r ==> Some(t) in ts
    decreases |ts|
  {
    if |ts| == 0 then [] else Compact(ts[..|ts| - 1]) + Listed(ts[|ts| - 1])
  }

  /** The `i`-th 12-byte record of a directory whose records start at `base`. */
  function RecordAt(file: seq<uint8>, base: nat, i: nat): (rec: seq<uint8>)
    requires base + IFD_TAG_SIZE * (i + 1) <= |file|
    ensures |rec| == IFD_TAG_SIZE
  {
    file[base + IFD_TAG_SIZE * i..base + IFD_TAG_SIZE * (i + 1)]
  }

  /** Each of the `n` records from `base`, decoded on its own. */
  function RecordTags(file: seq<uint8>, s: Session, base: nat, n: nat): (ts: seq<Option<Tag>>)
    requires n == 0 || base + IFD_TAG_SIZE * n <= |file|
    ensures |ts| == n
  {
    seq(n, i requires 0 <= i < n => DecodeTag(file, s, RecordAt(file, base, i)))
  }

  /**
   * The records of a directory, `n` of them from absolute position `base`:
   * `None` when one of them cannot be read, otherwise the nodes they produce.
   */
  function DecodeRecords(file: seq<uint8>, s: Session, base: nat, n: nat): (r: Option<seq<Tag>>)
    ensures r.Some? <==> n == 0 || base + IFD_TAG_SIZE * n <= |file|
    ensures r.Some? ==> |r.value| <= n
    ensures r.Some? ==> forall t :: t in r.value ==> ConsistentPayload(t)
  {
    if n == 0 || base + IFD_TAG_SIZE * n <= |file| then Some(Compact(RecordTags(file, s, base, n))) else None
  }

  /** One more readable record extends the decoded list by what that record contributes. */
  lemma DecodeRecordsStep(file: seq<uint8>, s: Session, base: nat, n: nat)
    requires base + IFD_TAG_SIZE * (n + 1) <= |file|
    ensures DecodeRecords(file, s, base, n).Some?
    ensures DecodeRecords(file, s, base, n + 1) ==
      Some(DecodeRecords(file, s, base, n).value + Listed(DecodeTag(file, s, RecordAt(file, base, n))))
  {
    var ts := RecordTags(file, s, base, n + 1);
    RecordTagsPrefix(file, s, base, n);
    assert Compact(ts) == Compact(ts[..n]) + Listed(ts[n]);
  }

  /** The first `n` of `n + 1` decoded records are the `n` decoded records. */
  lemma RecordTagsPrefix(file: seq<uint8>, s: Session, base: nat, n: nat)
    requires base + IFD_TAG_SIZE * (n + 1) <= |file|
    ensures RecordTags(file, s, base, n + 1)[..n] == RecordTags(file, s, base, n)
    ensures RecordTags(file, s, base, n + 1)[n] == DecodeTag(file, s, RecordAt(file, base, n))
  {
    var ts := RecordTags(file, s, base, n + 1);
    var us := RecordTags(file, s, base, n);
    assert forall i :: 0 <= i < n ==> ts[i] == us[i];
  }

  /** The TIFF-relative offset at which parseIFD reads the 0th IFD's next-IFD offset. */
  function NextIfdFieldOffset(tagCount: uint16): nat
  {
    TIFF_HEADER_SIZE + 2 + IFD_TAG_SIZE * tagCount as nat
  }

  /** The next-IFD offset: read for the 0th IFD only, 0 for every other kind. */
  function DecodeNextIfdOffset(file: seq<uint8>, s: Session, tagCount: uint16, ifdType: IfdType): Option<uint32>
  {
    if ifdType != Ifd0th then Some(0)
    else
      match Read(file, s.SeekPosition(NextIfdFieldOffset(tagCount)), 4)
      case None => None
      case Some(b) => Some(LoadU32(s.DataIsLittle(), b))
  }

  /**
   * The table parseIFD builds at a TIFF-relative offset, or `None` (NULL) when
   * the tag count, the next-IFD offset or any record cannot be read. A record
   * whose value cannot be read does not fail the directory.
   */
  function DecodeIfd(file: seq<uint8>, s: Session, startOffset: uint32, ifdType: IfdType): (r: Option<Ifd>)
    ensures r.Some? ==> r.value.ifdType == ifdType
    ensures r.Some? ==> |r.value.tags| <= r.value.tagCount as nat
    ensures r.Some? ==> forall t :: t in r.value.tags ==> ConsistentPayload(t)
    ensures r.Some? && ifdType != Ifd0th ==> r.value.nextIfdOffset == 0
  {
    var start := s.SeekPosition(startOffset as nat);
    match Read(file, start, 2)
    case None => None
    case Some(cb) =>
      var tagCount := LoadU16(s.DataIsLittle(), cb);
      match DecodeNextIfdOffset(file, s, tagCount, ifdType)
      case None => None
      case Some(next) =>
        match DecodeRecords(file, s, start + 2, tagCount as nat)
        case None => None
        case Some(tags) => Some(Ifd(ifdType, tagCount, tags, next))
  }


  /** The body of parseIFD's loop for one record: fix the fields, then decode the value by type. */
  method ParseTagRecord(file: seq<uint8>, hostLittle: bool, s: Session, rec: seq<uint8>) returns (r: Option<TagValue>)
    requires |rec| == IFD_TAG_SIZE
    ensures r == DecodeTagValue(file, s, rec)
  {
    var little := s.DataIsLittle();
    var data := rec[8..12]; // the value field as stored, for inline values
    var tagId := FixShort(little, hostLittle, LoadU16(hostLittle, rec[0..2]));
    var tagType := FixShort(little, hostLittle, LoadU16(hostLittle, rec[2..4]));
    var count := FixInt(little, hostLittle, LoadU32(hostLittle, rec[4..8]));
    var offset := FixInt(little, hostLittle, LoadU32(hostLittle, rec[8..12]));
    FixShortOfLoad(little, hostLittle, rec[0..2]);
    FixShortOfLoad(little, hostLittle, rec[2..4]);
    FixIntOfLoad(little, hostLittle, rec[4..8]);
    FixIntOfLoad(little, hostLittle, rec[8..12]);
    var e := IfdEntry(tagId, tagType, count, offset, data);
    assert e == DecodeEntry(little, rec);

    if IsByteArrayType(tagType) {
      return Some(ByteArrayValue(file, s, e));
    } else if IsRationalType(tagType) {
      var v := ParseRationalValue(file, hostLittle, s, e);
      return Some(v);
    } else if IsIntegerType(tagType) {
      var v := ParseIntegerValue(file, hostLittle, s, e);
      return Some(v);
    } else {
      // a type code parseIFD does not handle: the record is skipped
      return None;
    }
  }

  /** The RATIONAL/SRATIONAL case of parseIFD: read the words, then fix_int each in place. */
  method ParseRationalValue(file: seq<uint8>, hostLittle: bool, s: Session, e: IfdEntry) returns (v: TagValue)
    requires IsRationalType(e.tagType)
    ensures v == RationalValue(file, s, e)
  {
    var little := s.DataIsLittle();
    var realCount := 2 * e.count as nat; // two words per rational: numerator and denominator
    var len := 4 * realCount;
    if len >= s.header.length as nat {
      return Errored(e);
    }
    var pos := s.SeekPosition(e.offset as nat);
    if pos + len > |file| {
      return Errored(e);
    }
    var b := file[pos..pos + len];
    var words := new uint32[realCount];
    for i := 0 to realCount
      invariant forall j :: 0 <= j < i ==> words[j] == LoadU32(little, b[4 * j..4 * j + 4])
    {
      // the word fread left in words[i], then fix_int
      var raw := LoadU32(hostLittle, b[4 * i..4 * i + 4]);
      FixIntOfLoad(little, hostLittle, b[4 * i..4 * i + 4]);
      words[i] := FixInt(little, hostLittle, raw);
    }
    assert words[..] == ElementsOf(little, b, 4, realCount);
    return TagValue(e.tag, e.tagType, e.count, Some(words[..]), None);
  }

  /** The integer-type cases of parseIFD. */
  method ParseIntegerValue(file: seq<uint8>, hostLittle: bool, s: Session, e: IfdEntry) returns (v: TagValue)
    requires |e.data| == 4 && IsIntegerType(e.tagType)
    ensures v == IntegerValue(file, s, e)
  {
    var little := s.DataIsLittle();
    if e.count <= 1 {
      // a count of at most one: the value sits in the value field itself
      var val := e.offset;
      if e.tagType == TYPE_BYTE || e.tagType == TYPE_SBYTE {
        val := e.data[0] as uint32;
      } else if e.tagType == TYPE_SHORT || e.tagType == TYPE_SSHORT {
        var us := FixShort(little, hostLittle, LoadU16(hostLittle, e.data[0..2]));
        FixShortOfLoad(little, hostLittle, e.data[0..2]);
        val := us as uint32;
      }
      return TagValue(e.tag, e.tagType, e.count, Some([val]), None);
    }
    var size := ElementSize(e.tagType);
    // one 4-byte slot for each value
    var allocSize := 4 * e.count as nat;
    if allocSize >= s.header.length as nat {
      return Errored(e);
    }
    var n := e.count as nat;
    var len := size * n;
    var words;
    if len <= 4 {
      // all values fit in the 4-byte value field
      words := InlineElements(little, hostLittle, e.data, size, n);
    } else {
      var pos := s.SeekPosition(e.offset as nat);
      if pos + len > |file| {
        return Errored(e);
      }
      words := FixedElements(little, hostLittle, file[pos..pos + len], size, n);
    }
    return TagValue(e.tag, e.tagType, e.count, Some(words), None);
  }

  /** Two or more values inside the 4-byte value field: bytes as they are, shorts through fix_short. */
  method InlineElements(little: bool, hostLittle: bool, data: seq<uint8>, size: nat, n: nat) returns (words: seq<uint32>)
    requires |data| == 4 && (size == 1 || size == 2 || size == 4) && n >= 2 && size * n <= 4
    ensures words == ElementsOf(little, data, size, n)
  {
    var a := new uint32[n];
    if size == 1 {
      for i := 0 to n
        invariant forall j :: 0 <= j < i ==> a[j] == data[j] as uint32
      {
        a[i] := data[i] as uint32;
      }
    } else {
      assert size == 2 && n == 2;
      for i := 0 to 2
        invariant forall j :: 0 <= j < i ==> a[j] == LoadU16(little, data[2 * j..2 * j + 2]) as uint32
      {
        var us := FixShort(little, hostLittle, LoadU16(hostLittle, data[2 * i..2 * i + 2]));
        FixShortOfLoad(little, hostLittle, data[2 * i..2 * i + 2]);
        a[i] := us as uint32;
      }
    }
    words := a[..];
  }

  /** Values read from the offset: each element loaded natively, fixed to the data order and widened. */
  method FixedElements(little: bool, hostLittle: bool, buf: seq<uint8>, size: nat, n: nat) returns (words: seq<uint32>)
    requires (size == 1 || size == 2 || size == 4) && |buf| == size * n
    ensures words == ElementsOf(little, buf, size, n)
  {
    var a := new uint32[n];
    for i := 0 to n
      invariant forall j :: 0 <= j < i ==> a[j] == ElementsOf(little, buf, size, n)[j]
    {
      var val: uint32;
      if size == 4 {
        val := FixInt(little, hostLittle, LoadU32(hostLittle, buf[4 * i..4 * i + 4]));
        FixIntOfLoad(little, hostLittle, buf[4 * i..4 * i + 4]);
      } else if size == 2 {
        val := FixShort(little, hostLittle, LoadU16(hostLittle, buf[2 * i..2 * i + 2])) as uint32;
        FixShortOfLoad(little, hostLittle, buf[2 * i..2 * i + 2]);
      } else {
        val := buf[i] as uint32;
      }
      a[i] := val;
    }
    words := a[..];
  }

  /** parseIFD: NULL exactly when the specification says `None`; otherwise a fresh table with the decoded tags. */
  method ParseIfd(file: seq<uint8>, hostLittle: bool, s: Session, startOffset: uint32, ifdType: IfdType)
    returns (ifd: IfdTable?)
    ensures ifd == null <==> DecodeIfd(file, s, startOffset, ifdType).None?
    ensures ifd != null ==> fresh(ifd) && ifd.Valid() && ifd.Value() == DecodeIfd(file, s, startOffset, ifdType).value
  {
    var little := s.DataIsLittle();
    // the 16-bit number of records at the start of the directory
    var start := s.SeekPosition(startOffset as nat);
    if start + 2 > |file| {
      return null;
    }
    assert Read(file, start, 2) == Some(file[start..start + 2]);
    var tagCount := FixShort(little, hostLittle, LoadU16(hostLittle, file[start..start + 2]));
    FixShortOfLoad(little, hostLittle, file[start..start + 2]);
    var pos := start + 2;

    var next := ReadNextIfdOffset(file, hostLittle, s, tagCount, ifdType);
    if next.None? {
      return null;
    }
    var nextOffset := next.value;

    ifd := new IfdTable(ifdType, tagCount, nextOffset);
    var ok := ReadTagRecords(file, hostLittle, s, ifd, pos);
    if !ok {
      return null;
    }
    assert DecodeIfd(file, s, startOffset, ifdType) == Some(Ifd(ifdType, tagCount, ifd.tags, nextOffset));
  }

  /**
   * The next-IFD link of parseIFD: only the 0th IFD reads one, at a fixed
   * position after its records; the other kinds get 0. None on a short read.
   */
  method ReadNextIfdOffset(file: seq<uint8>, hostLittle: bool, s: Session, tagCount: uint16, ifdType: IfdType)
    returns (next: Option<uint32>)
    ensures next == DecodeNextIfdOffset(file, s, tagCount, ifdType)
    ensures next.None? ==> ifdType == Ifd0th
  {
    if ifdType != Ifd0th {
      return Some(0);
    }
    var q := s.SeekPosition(NextIfdFieldOffset(tagCount));
    if q + 4 > |file| {
      return None;
    }
    var v := FixInt(s.DataIsLittle(), hostLittle, LoadU32(hostLittle, file[q..q + 4]));
    FixIntOfLoad(s.DataIsLittle(), hostLittle, file[q..q + 4]);
    return Some(v);
  }

  /**
   * One pass of parseIFD's record loop: read record `cnt`, decode it and,
   * unless its type is skipped, add its node at the tail of the table, which
   * then holds the nodes of the first `cnt + 1` records.
   */
  method AddRecordAt(file: seq<uint8>, hostLittle: bool, s: Session, ifd: IfdTable, base: nat, cnt: nat)
    requires base + IFD_TAG_SIZE * (cnt + 1) <= |file|
    requires ifd.Valid() && DecodeRecords(file, s, base, cnt) == Some(ifd.tags)
    modifies ifd
    ensures ifd.Valid() && DecodeRecords(file, s, base, cnt + 1) == Some(ifd.tags)
  {
    var pos := base + IFD_TAG_SIZE * cnt;
    var rec := file[pos..pos + IFD_TAG_SIZE];
    assert rec == RecordAt(file, base, cnt);
    AddTagRecord(file, hostLittle, s, ifd, rec);
    DecodeRecordsStep(file, s, base, cnt);
  }

  /** Decodes one record and, unless its type is skipped, adds its node at the tail of the table. */
  method AddTagRecord(file: seq<uint8>, hostLittle: bool, s: Session, ifd: IfdTable, rec: seq<uint8>)
    requires |rec| == IFD_TAG_SIZE && ifd.Valid()
    modifies ifd
    ensures ifd.Valid()
    ensures ifd.tags == old(ifd.tags) + Listed(DecodeTag(file, s, rec))
  {
    var v := ParseTagRecord(file, hostLittle, s, rec);
    if v.Some? {
      var _ := ifd.AddTagNodeToIfd(v.value.tagId, v.value.tagType, v.value.count, v.value.numData, v.value.byteData);
    }
  }

  /**
   * The record loop of parseIFD: each of the table's `tagCount` records is read
   * from `base` on and, unless skipped, added to the table. False on a short read.
   */
  method ReadTagRecords(file: seq<uint8>, hostLittle: bool, s: Session, ifd: IfdTable, base: nat) returns (ok: bool)
    requires ifd.Valid() && ifd.tags == []
    modifies ifd
    ensures ifd.Valid()
    ensures ok <==> DecodeRecords(file, s, base, ifd.tagCount as nat).Some?
    ensures ok ==> DecodeRecords(file, s, base, ifd.tagCount as nat) == Some(ifd.tags)
  {
    var pos := base;
    var cnt := 0;
    while cnt < ifd.tagCount as nat
      invariant 0 <= cnt <= ifd.tagCount as nat
      invariant pos == base + IFD_TAG_SIZE * cnt
      invariant ifd.Valid()
      invariant DecodeRecords(file, s, base, cnt) == Some(ifd.tags)
    {
      if pos + IFD_TAG_SIZE > |file| {
        return false;
      }
      AddRecordAt(file, hostLittle, s, ifd, base, cnt);
      pos := pos + IFD_TAG_SIZE;
      cnt := cnt + 1;
    }
    return true;
  }

  /**
   * A directory decodes exactly when its tag count, its next-IFD offset (0th
   * IFD only) and all of its records can be read; values that cannot be read
   * only flag their own tags.
   */
  lemma DecodeIfdSucceedsIff(file: seq<uint8>, s: Session, startOffset: uint32, ifdType: IfdType)
    ensures var start := s.SeekPosition(startOffset as nat);
      DecodeIfd(file, s, startOffset, ifdType).Some? <==>
        && start + 2 <= |file|
        && var n := LoadU16(s.DataIsLittle(), file[start..start + 2]);
           && (ifdType == Ifd0th ==> s.SeekPosition(NextIfdFieldOffset(n)) + 4 <= |file|)
           && (n == 0 || start + 2 + IFD_TAG_SIZE * n as nat <= |file|)
  {
    var start := s.SeekPosition(startOffset as nat);
    if start + 2 <= |file| {
      assert Read(file, start, 2) == Some(file[start..start + 2]);
    }
  }

  /** A run of records that are all kept compacts to their nodes, one per record, in order. */
  lemma {:induction false} CompactAllPresent(ts: seq<Option<Tag>>)
    requires forall i :: 0 <= i < |ts| ==> ts[i].Some?
    ensures |Compact(ts)| == |ts|
    ensures forall i :: 0 <= i < |ts| ==> Compact(ts)[i] == ts[i].value
  {
    if |ts| > 0 {
      var init := ts[..|ts| - 1];
      CompactAllPresent(init);
      assert Compact(ts) == Compact(init) + [ts[|ts| - 1].value];
    }
  }

  /** A run with a skipped record compacts to fewer nodes than records. */
  lemma {:induction false} CompactShortOnSkip(ts: seq<Option<Tag>>, i: nat)
    requires i < |ts| && ts[i].None?
    ensures |Compact(ts)| < |ts|
  {
    var init := ts[..|ts| - 1];
    if i < |ts| - 1 {
      assert init[i] == ts[i];
      CompactShortOnSkip(init, i);
    }
  }

  /**
   * When every record has a type parseIFD handles, the table holds one node
   * per record, in file order, each built from its own record.
   */
  lemma DecodeRecordsInOrder(file: seq<uint8>, s: Session, base: nat, n: nat)
    requires base + IFD_TAG_SIZE * n <= |file|
    requires forall i :: 0 <= i < n ==> DecodeTag(file, s, RecordAt(file, base, i)).Some?
    ensures DecodeRecords(file, s, base, n).Some?
    ensures |DecodeRecords(file, s, base, n).value| == n
    ensures forall i :: 0 <= i < n ==>
      DecodeRecords(file, s, base, n).value[i] == DecodeTag(file, s, RecordAt(file, base, i)).value
  {
    CompactAllPresent(RecordTags(file, s, base, n));
  }

  /**
   * A record with a type parseIFD does not handle is skipped silently: the
   * table then holds fewer nodes than its tag count. With DecodeRecordsInOrder
   * this makes "one node per record" hold exactly when every type is handled.
   */
  lemma DecodeRecordsShortOnSkip(file: seq<uint8>, s: Session, base: nat, n: nat, i: nat)
    requires base + IFD_TAG_SIZE * n <= |file| && i < n
    requires DecodeTag(file, s, RecordAt(file, base, i)).None?
    ensures DecodeRecords(file, s, base, n).Some?
    ensures |DecodeRecords(file, s, base, n).value| < n
  {
    CompactShortOnSkip(RecordTags(file, s, base, n), i);
  }

  /**
   * ASCII and UNDEFINED: a zero count is an error; up to 4 bytes are the raw
   * value-field bytes; an oversized count is an error; otherwise the tag holds
   * the `count` bytes at the offset, or is flagged when they cannot be read.
   */
  lemma ByteArrayPlacement(file: seq<uint8>, s: Session, rec: seq<uint8>)
    requires |rec| == IFD_TAG_SIZE && IsByteArrayType(DecodeEntry(s.DataIsLittle(), rec).tagType)
    ensures var e := DecodeEntry(s.DataIsLittle(), rec);
      var t := DecodeTag(file, s, rec).value;
      && (e.count == 0 ==> t.error)
      && (0 < e.count <= 4 ==> !t.error && t.payload == Bytes(rec[8..8 + e.count as nat]))
      && (Oversized(e, s.header.length) ==> t.error)
      && (e.count > 4 && !Oversized(e, s.header.length) ==>
            var p := s.SeekPosition(e.offset as nat);
            && (t.error <==> p + e.count as nat > |file|)
            && (!t.error ==> t.payload == Bytes(file[p..p + e.count as nat])))
  {
    var e := DecodeEntry(s.DataIsLittle(), rec);
    if 0 < e.count <= 4 {
      assert rec[8..12][..e.count] == rec[8..8 + e.count as nat];
    }
  }

  /**
   * RATIONAL and SRATIONAL never use the value field: unless the count is zero
   * or oversized, the tag holds the `2 * count` words at the offset, or is
   * flagged when they cannot be read.
   */
  lemma RationalPlacement(file: seq<uint8>, s: Session, rec: seq<uint8>)
    requires |rec| == IFD_TAG_SIZE && IsRationalType(DecodeEntry(s.DataIsLittle(), rec).tagType)
    ensures var e := DecodeEntry(s.DataIsLittle(), rec);
      var t := DecodeTag(file, s, rec).value;
      && (e.count == 0 || Oversized(e, s.header.length) ==> t.error)
      && (e.count > 0 && !Oversized(e, s.header.length) ==>
            var p := s.SeekPosition(e.offset as nat);
            var len := 8 * e.count as nat;
            && (t.error <==> p + len > |file|)
            && (!t.error ==> t.payload == Nums(ElementsOf(s.DataIsLittle(), file[p..p + len], 4, 2 * e.count as nat))))
  {
  }

  /**
   * Integer types: values whose total width fits the 4-byte value field are
   * decoded from it (a single value always is); an oversized array is an
   * error; otherwise the values are decoded from the offset, or the tag is
   * flagged when they cannot be read.
   */
  lemma IntegerPlacement(file: seq<uint8>, s: Session, rec: seq<uint8>)
    requires |rec| == IFD_TAG_SIZE && IsIntegerType(DecodeEntry(s.DataIsLittle(), rec).tagType)
    ensures var e := DecodeEntry(s.DataIsLittle(), rec);
      var t := DecodeTag(file, s, rec).value;
      var size := ElementSize(e.tagType);
      && (e.count == 0 || Oversized(e, s.header.length) ==> t.error)
      && (e.count == 1 ==> !Oversized(e, s.header.length))
      && (e.count > 0 && !Oversized(e, s.header.length) && size * e.count as nat <= 4 ==>
            !t.error && t.payload == Nums(ElementsOf(s.DataIsLittle(), rec[8..12], size, e.count as nat)))
      && (e.count > 0 && !Oversized(e, s.header.length) && size * e.count as nat > 4 ==>
            var p := s.SeekPosition(e.offset as nat);
            var len := size * e.count as nat;
            && (t.error <==> p + len > |file|)
            && (!t.error ==> t.payload == Nums(ElementsOf(s.DataIsLittle(), file[p..p + len], size, e.count as nat))))
  {
    var little := s.DataIsLittle();
    var e := DecodeEntry(little, rec);
    var size := ElementSize(e.tagType);
    if e.count == 1 {
      var one := ElementsOf(little, e.data, size, 1);
      if size == 1 {
        assert one[0] == e.data[0] as uint32;
      } else if size == 2 {
        assert one[0] == LoadU16(little, e.data[0..2]) as uint32;
      } else {
        assert one[0] == LoadU32(little, e.data[0..4]);
        assert e.data[0..4] == rec[8..12];
      }
      assert one == [one[0]];
    }
  }

  /**
   * Oversized values and values held in the value field are decided without
   * reading the file: any two files give the same tag for the same record.
   */
  lemma DecidedWithoutRead(file1: seq<uint8>, file2: seq<uint8>, s: Session, rec: seq<uint8>)
    requires |rec| == IFD_TAG_SIZE
    requires var e := DecodeEntry(s.DataIsLittle(), rec);
      || Oversized(e, s.header.length)
      || (IsByteArrayType(e.tagType) && e.count <= 4)
      || (IsIntegerType(e.tagType) && ElementSize(e.tagType) * e.count as nat <= 4)
    ensures DecodeTag(file1, s, rec) == DecodeTag(file2, s, rec)
    ensures Oversized(DecodeEntry(s.DataIsLittle(), rec), s.header.length) ==> DecodeTag(file1, s, rec).value.error
  {
  }

  /**
   * The value field of a record written in the opposite byte order: inline
   * bytes stay where they are, inline 16-bit values are swapped one by one,
   * and anything else (an inline 32-bit value or an offset) is reversed whole.
   */
  function MirrorValueField(tagType: uint16, count: uint32, f: seq<uint8>): (m: seq<uint8>)
    requires |f| == 4
    ensures |m| == 4
  {
    if (IsByteArrayType(tagType) || (IsIntegerType(tagType) && ElementSize(tagType) == 1)) && count <= 4 then f
    else if IsIntegerType(tagType) && ElementSize(tagType) == 2 && count <= 2 then [f[1], f[0], f[3], f[2]]
    else [f[3], f[2], f[1], f[0]]
  }

  /**
   * A 12-byte record rewritten for the opposite byte-order mark: the tag,
   * type and count fields reversed, the value field mirrored by its type.
   */
  function MirrorRecord(little: bool, rec: seq<uint8>): (m: seq<uint8>)
    requires |rec| == IFD_TAG_SIZE
    ensures |m| == IFD_TAG_SIZE
  {
    var e := DecodeEntry(little, rec);
    [rec[1], rec[0], rec[3], rec[2], rec[7], rec[6], rec[5], rec[4]] + MirrorValueField(e.tagType, e.count, rec[8..12])
  }

  /**
   * Mirroring a file's byte order: flipping the mark (dataIsLittleEndian) and
   * rewriting a record's bytes accordingly leaves its tag id, type and count
   * unchanged, and its offset unless the value field holds inline bytes or
   * 16-bit values. Every outcome decided without reading elsewhere in the
   * file (inline values, oversized and unhandled records) is the same decoded
   * value.
   */
  lemma MirroredRecordDecodesAlike(file: seq<uint8>, s: Session, s2: Session, rec: seq<uint8>)
    requires |rec| == IFD_TAG_SIZE
    requires s2.DataIsLittle() == !s.DataIsLittle() && s2.header.length == s.header.length
    ensures var e := DecodeEntry(s.DataIsLittle(), rec);
      var m := DecodeEntry(s2.DataIsLittle(), MirrorRecord(s.DataIsLittle(), rec));
      && m.tag == e.tag && m.tagType == e.tagType && m.count == e.count
      && (MirrorValueField(e.tagType, e.count, e.data) == [e.data[3], e.data[2], e.data[1], e.data[0]] ==> m.offset == e.offset)
    ensures var e := DecodeEntry(s.DataIsLittle(), rec);
      (|| Oversized(e, s.header.length)
       || (IsByteArrayType(e.tagType) && e.count <= 4)
       || (IsIntegerType(e.tagType) && ElementSize(e.tagType) * e.count as nat <= 4)
       || !(IsByteArrayType(e.tagType) || IsRationalType(e.tagType) || IsIntegerType(e.tagType)))
      ==> DecodeTagValue(file, s2, MirrorRecord(s.DataIsLittle(), rec)) == DecodeTagValue(file, s, rec)
  {
    var little := s.DataIsLittle();
    var e := DecodeEntry(little, rec);
    var mr := MirrorRecord(little, rec);
    var m := DecodeEntry(!little, mr);
    var f := rec[8..12];
    var mf := MirrorValueField(e.tagType, e.count, f);
    MirroredFieldsDecodeAlike(little, rec[0..2], rec[4..8]);
    MirroredFieldsDecodeAlike(little, rec[2..4], f);
    assert mr[0..2] == [rec[1], rec[0]] && mr[2..4] == [rec[3], rec[2]];
    assert mr[4..8] == [rec[7], rec[6], rec[5], rec[4]] && mr[8..12] == mf;
    assert m.tag == e.tag && m.tagType == e.tagType && m.count == e.count;
    if IsIntegerType(e.tagType) && ElementSize(e.tagType) == 2 && e.count <= 2 {
      MirroredFieldsDecodeAlike(little, f[0..2], f);
      MirroredFieldsDecodeAlike(little, f[2..4], f);
      assert mf[0..2] == [f[1], f[0]] && mf[2..4] == [f[3], f[2]];
      assert LoadU16(!little, mf[0..2]) == LoadU16(little, f[0..2]);
      assert LoadU16(!little, mf[2..4]) == LoadU16(little, f[2..4]);
      assert ElementsOf(!little, mf, 2, e.count as nat) == ElementsOf(little, f, 2, e.count as nat);
    }
  }

  /** Signed types are not sign-extended: SBYTE and SSHORT values keep their unsigned 8- and 16-bit ranges. */
  lemma SignedValuesZeroExtended(file: seq<uint8>, s: Session, rec: seq<uint8>)
    requires |rec| == IFD_TAG_SIZE && DecodeTag(file, s, rec).Some?
    ensures var t := DecodeTag(file, s, rec).value;
      t.payload.Nums? ==>
        && (ElementSize(t.tagType) == 1 && IsIntegerType(t.tagType) ==> forall i :: 0 <= i < |t.payload.nums| ==> t.payload.nums[i] < 0x100)
        && (ElementSize(t.tagType) == 2 && IsIntegerType(t.tagType) ==> forall i :: 0 <= i < |t.payload.nums| ==> t.payload.nums[i] < 0x1_0000)
  {
    var t := DecodeTag(file, s, rec).value;
    var v := DecodeTagValue(file, s, rec).value;
    if t.payload.Nums? && IsIntegerType(t.tagType) {
      assert t.payload.nums <= v.numData.value;
      forall i | 0 <= i < |t.payload.nums|
        ensures ElementSize(t.tagType) == 1 ==> t.payload.nums[i] < 0x100
        ensures ElementSize(t.tagType) == 2 ==> t.payload.nums[i] < 0x1_0000
      {
        assert t.payload.nums[i] == v.numData.value[i];
      }
    }
  }

  /**
   * The 0th IFD's next-IFD offset is read at TIFF-relative 10 + 12 * tagCount,
   * which is the word after the records only when the directory starts at
   * TIFF-relative offset 8, right after the TIFF header.
   */
  lemma NextIfdFieldFollowsRecordsOnlyAt8(s: Session, startOffset: uint32, tagCount: uint16)
    requires s.app1StartOffset + TIFF_HEADER_START + startOffset as nat + 2 + IFD_TAG_SIZE * tagCount as nat < 0x1_0000_0000
    requires s.app1StartOffset + TIFF_HEADER_START + NextIfdFieldOffset(tagCount) < 0x1_0000_0000
    ensures s.SeekPosition(NextIfdFieldOffset(tagCount)) == s.SeekPosition(startOffset as nat) + 2 + IFD_TAG_SIZE * tagCount as nat
      <==> startOffset as nat == TIFF_HEADER_SIZE
  {
  }

  // ---- Findings: parseIFD's value decoding as written ----

  /**
   * The rational branch as written: the doubled count is formed in 32-bit
   * unsigned arithmetic before the length guard (assuming malloc(0) returns a
   * usable pointer).
   */
  function RationalValueAsWritten(file: seq<uint8>, s: Session, e: IfdEntry): (v: TagValue)
    requires IsRationalType(e.tagType)
    ensures v.numData.Some? ==> |v.numData.value| == (2 * e.count as nat) % 0x1_0000_0000
  {
    var realCount := (2 * e.count as nat) % 0x1_0000_0000;
    var len := 4 * realCount;
    if len >= s.header.length as nat then Errored(e)
    else
      match Read(file, s.SeekPosition(e.offset as nat), len)
      case None => Errored(e)
      case Some(b) => TagValue(e.tag, e.tagType, e.count, Some(ElementsOf(s.DataIsLittle(), b, 4, realCount)), None)
  }

  /**
   * A rational count of 2^31 wraps the doubled count to zero: the as-written
   * guard lets it through with no words, so addTagNodeToIfd gets a count whose
   * slots the array does not hold. The unwrapped guard rejects it.
   */
  lemma RationalCountWrapAsWritten(file: seq<uint8>, s: Session, e: IfdEntry)
    requires IsRationalType(e.tagType) && e.count == 0x8000_0000
    requires s.header.length > 0 && s.SeekPosition(e.offset as nat) <= |file|
    ensures RationalValueAsWritten(file, s, e).numData == Some([])
    ensures !Fits(RationalValueAsWritten(file, s, e))
    ensures RationalValue(file, s, e) == Errored(e)
  {
    assert (2 * e.count as nat) % 0x1_0000_0000 == 0;
  }

  /**
   * How many bytes a multi-value integer tag reads into the 8192-byte scratch
   * buffer as written, where both the guard's 4-byte-per-value size and the
   * read length `size * count` are formed in 32-bit unsigned arithmetic;
   * `None` when nothing is read into it.
   */
  function ScratchReadAsWritten(tagType: uint16, count: uint32, segmentLength: uint16): (r: Option<nat>)
    requires IsIntegerType(tagType)
    ensures r.Some? ==> r.value == (ElementSize(tagType) * count as nat) % 0x1_0000_0000 && r.value > 4
    ensures r.Some? ==> (4 * count as nat) % 0x1_0000_0000 < segmentLength as nat
  {
    var allocSize := (4 * count as nat) % 0x1_0000_0000;
    var len := (ElementSize(tagType) * count as nat) % 0x1_0000_0000;
    if count <= 1 || allocSize >= segmentLength as nat || len <= 4 then None else Some(len)
  }

  /**
   * The number of 32-bit words the as-written allocation for a multi-value
   * integer tag holds: its byte size is 4 * count truncated to 32 bits.
   */
  function AllocatedWordsAsWritten(count: uint32): (n: nat)
    ensures count as nat < 0x4000_0000 ==> n == count as nat
    ensures n < 0x4000_0000
  {
    ((4 * count as nat) % 0x1_0000_0000) / 4
  }

  /**
   * Two inputs the as-written integer branch mishandles. 5000 SHORTs in a
   * segment of 65535 bytes pass the guard and read 10000 bytes into the
   * 8192-byte buffer. 2^30 + 1 LONGs wrap both the guard's size and the read
   * length to 4: nothing is read, the inline branch fills nothing for 4-byte
   * values, and addTagNodeToIfd is asked for 2^30 + 1 words of an allocation
   * that holds one. The corrected decoding flags both tags as errors.
   */
  lemma ScratchBufferOverrunAsWritten(file: seq<uint8>, s: Session, e: IfdEntry)
    requires |e.data| == 4 && s.header.length == 0xFFFF
    ensures ScratchReadAsWritten(TYPE_SHORT, 5000, 0xFFFF) == Some(10000) && 10000 > SCRATCH_SIZE
    ensures ScratchReadAsWritten(TYPE_LONG, 0x4000_0001, 0xFFFF).None?
    ensures (ElementSize(TYPE_LONG) * 0x4000_0001) % 0x1_0000_0000 <= 4
    ensures AllocatedWordsAsWritten(0x4000_0001) == 1 < Slots(TYPE_LONG, 0x4000_0001)
    ensures e.tagType == TYPE_LONG && e.count == 0x4000_0001 ==> IntegerValue(file, s, e) == Errored(e)
  {
    assert (4 * 0x4000_0001) % 0x1_0000_0000 == 4;
  }

  /**
   * One element of an integer array read from the offset, as written: `size`
   * bytes are copied over the low-addressed bytes of the 32-bit `val`, whose
   * other bytes keep whatever it held before (`stale`), then the word is fixed.
   */
  function OffsetElementAsWritten(little: bool, hostLittle: bool, stale: uint32, b: seq<uint8>): uint32
    requires |b| == 1 || |b| == 2 || |b| == 4
  {
    var val := LoadU32(hostLittle, b + StoreU32(hostLittle, stale)[|b|..]);
    if |b| == 4 then FixInt(little, hostLittle, val)
    else if |b| == 2 then FixShort(little, hostLittle, (val % 0x1_0000) as uint16) as uint32
    else val
  }

  /**
   * The stale bytes show: on a big-endian host the SHORT 5 (bytes 00 05)
   * decodes as 0; on a little-endian host the BYTE 7 after a `val` of 0x100
   * decodes as 0x107. The decoded elements are 5 and 7.
   */
  lemma StaleElementAsWritten()
    ensures OffsetElementAsWritten(false, false, 0, [0x00, 0x05]) == 0
    ensures ElementsOf(false, [0x00, 0x05], 2, 1) == [5]
    ensures OffsetElementAsWritten(true, true, 0x100, [0x07]) == 0x107
    ensures ElementsOf(true, [0x07], 1, 1) == [7]
  {
    assert StoreU32(false, 0) == [0, 0, 0, 0];
    assert [0x00, 0x05] + StoreU32(false, 0)[2..] == [0x00, 0x05, 0x00, 0x00];
    assert StoreU32(true, 0x100) == [0x00, 0x01, 0x00, 0x00];
    assert [0x07] + StoreU32(true, 0x100)[1..] == [0x07, 0x01, 0x00, 0x00];
    var five: seq<uint8> := [0x00, 0x05];
    assert five[0..2] == five;
  }
}
