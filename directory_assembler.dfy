/**
 * createIfdTableArray and getTagInfo. The array collects the 0th IFD, then
 * the Exif IFD its pointer tag names, the Interoperability IFD the Exif IFD's
 * pointer names, the GPS IFD, and the 1st IFD the 0th IFD links to. The
 * NULL-terminated array of the source is a sequence here; an empty sequence
 * stands for the NULL array.
 */
module DirectoryAssembler {
  import opened ByteOrder
  import opened FileAccess
  import opened SegmentLocator
  import opened TiffHeader
  import opened TagList
  import opened IfdDecoder

  // Pointer tags of Exif 2.3, section 4.6.3.
  const TAG_EXIF_IFD_POINTER: uint16 := 0x8769
  const TAG_GPS_INFO_IFD_POINTER: uint16 := 0x8825
  const TAG_INTEROPERABILITY_IFD_POINTER: uint16 := 0xA005

  /** The status createIfdTableArray stores in `*result`. */
  datatype ArrayResult =
    | TableCount(count: nat)  // n > 0: every IFD that was looked for decoded
    | NoExifFound             // 0: the file has no Exif segment
    | ArrayFailed(error: Error)

  /** `*result` with the tables of the returned array. */
  datatype TableArray = TableArray(result: ArrayResult, tables: seq<Ifd>)

  /** What following one optional pointer yields: the table, if any, and whether decoding it failed. */
  datatype Branch = Branch(tables: seq<Ifd>, failed: bool)

  /**
   * The offset a pointer tag names: only a present, unflagged tag with a
   * numeric payload is followed, and its first slot is the offset.
   */
  function PointerTarget(t: Option<Tag>): (r: Option<uint32>)
    requires t.Some? ==> ConsistentPayload(t.value)
    ensures r.Some? <==> t.Some? && !t.value.error && t.value.payload.Nums?
    ensures r.Some? ==> r.value == t.value.payload.nums[0]
  {
    if t.Some? && !t.value.error && t.value.payload.Nums? then Some(t.value.payload.nums[0]) else None
  }

  /** Decoding the IFD at an optional offset: nothing when there is no offset, a failure when parseIFD gives NULL. */
  function Follow(file: seq<uint8>, s: Session, ofs: Option<uint32>, ifdType: IfdType): (b: Branch)
    ensures |b.tables| <= 1 && !(b.failed && |b.tables| == 1)
    ensures forall i :: 0 <= i < |b.tables| ==> b.tables[i].ifdType == ifdType
    ensures AllConsistent(b.tables)
  {
    match ofs
    case None => Branch([], false)
    case Some(o) =>
      match DecodeIfd(file, s, o, ifdType)
      case None => Branch([], true)
      case Some(t) => Branch([t], false)
  }

  /** The pointer tag with the given id in a decoded table, followed. */
  function PointerIn(t: Ifd, tagId: uint16): Option<uint32>
    requires forall x :: x in t.tags ==> ConsistentPayload(x)
  {
    PointerTarget(TagById(t.tags, tagId))
  }

  /** The 1st IFD is looked for only when the 0th IFD's next-IFD offset is non-zero. */
  function NextLink(t: Ifd): Option<uint32>
  {
    if t.nextIfdOffset != 0 then Some(t.nextIfdOffset) else None
  }

  /** The Interoperability IFD is looked for only inside a decoded Exif IFD. */
  function FollowIo(file: seq<uint8>, s: Session, exif: Branch): Branch
  {
    if |exif.tables| == 1 && (forall x :: x in exif.tables[0].tags ==> ConsistentPayload(x))
    then Follow(file, s, PointerIn(exif.tables[0], TAG_INTEROPERABILITY_IFD_POINTER), IfdIo)
    else Branch([], false)
  }

  /**
   * The array in the order createIfdTableArray fills it, and its status: a
   * failure in any followed pointer reports ERR_INVALID_IFD, although the
   * tables that did decode are still returned.
   */
  function Combine(ifd0: Ifd, exif: Branch, io: Branch, gps: Branch, first: Branch): TableArray
  {
    var tables := [ifd0] + exif.tables + io.tables + gps.tables + first.tables;
    var failed := exif.failed || io.failed || gps.failed || first.failed;
    TableArray(if failed then ArrayFailed(InvalidIfd) else TableCount(|tables|), tables)
  }

  /** The tables of a ready session: the 0th IFD is required, a failure elsewhere only marks the status. */
  function AssembleTables(file: seq<uint8>, s: Session): TableArray
  {
    match DecodeIfd(file, s, s.header.ifd0thOffset, Ifd0th)
    case None => TableArray(ArrayFailed(InvalidIfd), [])
    case Some(ifd0) =>
      var exif := Follow(file, s, PointerIn(ifd0, TAG_EXIF_IFD_POINTER), IfdExif);
      Combine(ifd0, exif, FollowIo(file, s, exif),
              Follow(file, s, PointerIn(ifd0, TAG_GPS_INFO_IFD_POINTER), IfdGps),
              Follow(file, s, NextLink(ifd0), Ifd1st))
  }

  /** createIfdTableArray on a file that cannot be opened (`None`) or on its bytes. */
  function IfdTableArray(input: Option<seq<uint8>>): TableArray
  {
    match input
    case None => TableArray(ArrayFailed(ReadFile), [])
    case Some(file) =>
      match InitSession(file)
      case NoExif => TableArray(NoExifFound, [])
      case InitFailed(e) => TableArray(ArrayFailed(e), [])
      case Ready(s) => AssembleTables(file, s)
  }

  /** createIfdTableArray */
  method CreateIfdTableArray(input: Option<seq<uint8>>, hostLittle: bool) returns (result: ArrayResult, tables: seq<IfdTable>)
    ensures forall i :: 0 <= i < |tables| ==> fresh(tables[i]) && tables[i].Valid()
    ensures result == IfdTableArray(input).result
    ensures |tables| == |IfdTableArray(input).tables|
    ensures forall i :: 0 <= i < |tables| ==> tables[i].Value() == IfdTableArray(input).tables[i]
  {
    if input.None? {
      return ArrayFailed(ReadFile), [];
    }
    var file := input.value;
    var sts := Init(file, hostLittle);
    match sts {
      case NoExif =>
        return NoExifFound, [];
      case InitFailed(e) =>
        return ArrayFailed(e), [];
      case Ready(s) =>
        result, tables := ParseIfdTables(file, hostLittle, s);
    }
  }

  /** The body of createIfdTableArray after a successful init. */
  method ParseIfdTables(file: seq<uint8>, hostLittle: bool, s: Session) returns (result: ArrayResult, tables: seq<IfdTable>)
    ensures forall i :: 0 <= i < |tables| ==> fresh(tables[i])
    ensures forall i :: 0 <= i < |tables| ==> tables[i].Valid()
    ensures result == AssembleTables(file, s).result
    ensures |tables| == |AssembleTables(file, s).tables|
    ensures forall i :: 0 <= i < |tables| ==> tables[i].Value() == AssembleTables(file, s).tables[i]
  {
    // the 0th IFD is required
    var ifd0 := ParseIfd(file, hostLittle, s, s.header.ifd0thOffset, Ifd0th);
    if ifd0 == null {
      return ArrayFailed(InvalidIfd), []; // nothing else is looked for without it
    }
    ghost var t0 := ifd0.Value();
    tables := [ifd0];
    ghost var spec := [t0];
    ghost var made: set<object> := {ifd0};

    // the Exif IFD, then the Interoperability IFD its pointer names
    var exifFailed, ioFailed;
    ghost var bExif: Branch, bIo: Branch;
    exifFailed, ioFailed, tables, bExif, bIo, spec, made := FollowExif(file, hostLittle, s, ifd0, tables, spec, made);
    assert fresh(made);

    // the GPS IFD, then the 1st IFD the next-IFD link names
    var gpsFailed, firstFailed;
    ghost var bGps: Branch, bFirst: Branch;
    gpsFailed, firstFailed, tables, bGps, bFirst, spec, made := FollowGpsAndFirst(file, hostLittle, s, ifd0, tables, spec, made);
    assert fresh(made);

    var failed := exifFailed || ioFailed || gpsFailed || firstFailed;
    result := if failed then ArrayFailed(InvalidIfd) else TableCount(|tables|);
    assert spec == Combine(t0, bExif, bIo, bGps, bFirst).tables;
    AssembleFromBranches(file, s, t0, bExif, bIo, bGps, bFirst);
  }

  /**
   * The Exif IFD the 0th IFD's pointer tag names and, only when it decodes,
   * the Interoperability IFD its own pointer tag names.
   */
  method FollowExif(file: seq<uint8>, hostLittle: bool, s: Session, ifd0: IfdTable,
                    tables: seq<IfdTable>, ghost spec: seq<Ifd>, ghost made: set<object>)
    returns (exifFailed: bool, ioFailed: bool, tables': seq<IfdTable>, ghost bExif: Branch, ghost bIo: Branch,
             ghost spec': seq<Ifd>, ghost made': set<object>)
    requires ifd0.Valid()
    requires |tables| == |spec| && forall i :: 0 <= i < |tables| ==> tables[i].Value() == spec[i]
    requires forall i :: 0 <= i < |tables| ==> tables[i].Valid() && tables[i] in made
    ensures bExif == Follow(file, s, PointerIn(ifd0.Value(), TAG_EXIF_IFD_POINTER), IfdExif)
    ensures bIo == FollowIo(file, s, bExif)
    ensures exifFailed == bExif.failed && ioFailed == bIo.failed
    ensures spec' == spec + bExif.tables + bIo.tables
    ensures made <= made' && fresh(made' - made)
    ensures |tables'| == |spec'| && forall i :: 0 <= i < |tables'| ==> tables'[i].Value() == spec'[i]
    ensures forall i :: 0 <= i < |tables'| ==> tables'[i].Valid() && tables'[i] in made'
  {
    var exif;
    exif, exifFailed, tables', bExif, spec', made' := FollowAndAdd(file, hostLittle, s, PointerTarget(GetTagNodePtrFromIfd(ifd0, TAG_EXIF_IFD_POINTER)), IfdExif, tables, spec, made);
    bIo := Branch([], false);
    ioFailed := false;
    if exif != null {
      var io;
      io, ioFailed, tables', bIo, spec', made' := FollowAndAdd(file, hostLittle, s, PointerTarget(GetTagNodePtrFromIfd(exif, TAG_INTEROPERABILITY_IFD_POINTER)), IfdIo, tables', spec', made');
    } else {
      assert spec' + bIo.tables == spec';
    }
  }

  /** The GPS IFD the 0th IFD's pointer tag names, then the 1st IFD its next-IFD offset names. */
  method FollowGpsAndFirst(file: seq<uint8>, hostLittle: bool, s: Session, ifd0: IfdTable,
                           tables: seq<IfdTable>, ghost spec: seq<Ifd>, ghost made: set<object>)
    returns (gpsFailed: bool, firstFailed: bool, tables': seq<IfdTable>, ghost bGps: Branch, ghost bFirst: Branch,
             ghost spec': seq<Ifd>, ghost made': set<object>)
    requires ifd0.Valid()
    requires |tables| == |spec| && forall i :: 0 <= i < |tables| ==> tables[i].Value() == spec[i]
    requires forall i :: 0 <= i < |tables| ==> tables[i].Valid() && tables[i] in made
    ensures bGps == Follow(file, s, PointerIn(ifd0.Value(), TAG_GPS_INFO_IFD_POINTER), IfdGps)
    ensures bFirst == Follow(file, s, NextLink(ifd0.Value()), Ifd1st)
    ensures gpsFailed == bGps.failed && firstFailed == bFirst.failed
    ensures spec' == spec + bGps.tables + bFirst.tables
    ensures made <= made' && fresh(made' - made)
    ensures |tables'| == |spec'| && forall i :: 0 <= i < |tables'| ==> tables'[i].Value() == spec'[i]
    ensures forall i :: 0 <= i < |tables'| ==> tables'[i].Valid() && tables'[i] in made'
  {
    var gps, first;
    gps, gpsFailed, tables', bGps, spec', made' := FollowAndAdd(file, hostLittle, s, PointerTarget(GetTagNodePtrFromIfd(ifd0, TAG_GPS_INFO_IFD_POINTER)), IfdGps, tables, spec, made);
    first, firstFailed, tables', bFirst, spec', made' := FollowAndAdd(file, hostLittle, s, if ifd0.nextIfdOffset != 0 then Some(ifd0.nextIfdOffset) else None, Ifd1st, tables', spec', made');
  }

  /** The tables of a ready session, from the 0th IFD and the four branches followed from it. */
  lemma AssembleFromBranches(file: seq<uint8>, s: Session, t0: Ifd, exif: Branch, io: Branch, gps: Branch, first: Branch)
    requires DecodeIfd(file, s, s.header.ifd0thOffset, Ifd0th) == Some(t0)
    requires exif == Follow(file, s, PointerIn(t0, TAG_EXIF_IFD_POINTER), IfdExif)
    requires io == FollowIo(file, s, exif)
    requires gps == Follow(file, s, PointerIn(t0, TAG_GPS_INFO_IFD_POINTER), IfdGps)
    requires first == Follow(file, s, NextLink(t0), Ifd1st)
    ensures AssembleTables(file, s) == Combine(t0, exif, io, gps, first)
  {
  }

  /**
   * Follows one optional pointer and, when the IFD decodes, stores it in the
   * next array slot (`ifdArray[ifdCount++] = ifd`). The ghost `spec` follows
   * the array with the tables' values and `made` holds the tables created.
   */
  method FollowAndAdd(file: seq<uint8>, hostLittle: bool, s: Session, ofs: Option<uint32>, ifdType: IfdType,
                      tables: seq<IfdTable>, ghost spec: seq<Ifd>, ghost made: set<object>)
    returns (ifd: IfdTable?, failed: bool, tables': seq<IfdTable>, ghost b: Branch, ghost spec': seq<Ifd>, ghost made': set<object>)
    requires |tables| == |spec| && forall i :: 0 <= i < |tables| ==> tables[i].Value() == spec[i]
    requires forall i :: 0 <= i < |tables| ==> tables[i].Valid() && tables[i] in made
    ensures b == Follow(file, s, ofs, ifdType) && failed == b.failed
    ensures ifd == null <==> b.tables == []
    ensures ifd != null ==> fresh(ifd) && ifd.Valid() && b.tables == [ifd.Value()]
    ensures tables' == if ifd != null then tables + [ifd] else tables
    ensures spec' == spec + b.tables
    ensures made <= made' && fresh(made' - made)
    ensures |tables'| == |spec'| && forall i :: 0 <= i < |tables'| ==> tables'[i].Value() == spec'[i]
    ensures forall i :: 0 <= i < |tables'| ==> tables'[i].Valid() && tables'[i] in made'
  {
    b := Follow(file, s, ofs, ifdType);
    if ofs.None? {
      return null, false, tables, b, spec, made;
    }
    ifd := ParseIfd(file, hostLittle, s, ofs.value, ifdType);
    failed := ifd == null;
    tables' := if ifd != null then tables + [ifd] else tables;
    spec' := spec + b.tables;
    made' := if ifd != null then made + {ifd} else made;
  }

  /** The values of an array of tables. */
  function Values(tables: seq<IfdTable>): (r: seq<Ifd>)
    reads tables
    ensures |r| == |tables| && forall i :: 0 <= i < |tables| ==> r[i] == tables[i].Value()
  {
    if |tables| == 0 then [] else Values(tables[..|tables| - 1]) + [tables[|tables| - 1].Value()]
  }

  /** Every tag of every table satisfies the node invariant. */
  predicate AllConsistent(tables: seq<Ifd>)
  {
    forall i :: 0 <= i < |tables| ==> forall t :: t in tables[i].tags ==> ConsistentPayload(t)
  }

  /** The index of the first table of the given kind. */
  function FirstOfType(tables: seq<Ifd>, ifdType: IfdType): (r: Option<nat>)
    ensures r.Some? ==> r.value < |tables| && tables[r.value].ifdType == ifdType
    ensures r.Some? ==> forall j :: 0 <= j < r.value ==> tables[j].ifdType != ifdType
    ensures r.None? ==> forall j :: 0 <= j < |tables| ==> tables[j].ifdType != ifdType
  {
    if |tables| == 0 then None
    else if tables[0].ifdType == ifdType then Some(0)
    else
      match FirstOfType(tables[1..], ifdType)
      case None => None
      case Some(k) => Some(k + 1)
  }

  /**
   * What getTagInfo returns: only the first table of the requested kind is
   * searched, and a tag found there is duplicated (NULL for a zero count).
   */
  function TagInfo(tables: seq<Ifd>, ifdType: IfdType, tagId: uint16): (r: Option<Tag>)
    requires AllConsistent(tables)
    ensures r.Some? ==> r.value.tagId == tagId && r.value.count > 0 && ConsistentPayload(r.value)
    ensures r.Some? ==> exists i :: 0 <= i < |tables| && tables[i].ifdType == ifdType && r.value in tables[i].tags
    ensures (forall i :: 0 <= i < |tables| ==> tables[i].ifdType != ifdType) ==> r.None?
  {
    match FirstOfType(tables, ifdType)
    case None => None
    case Some(i) =>
      match TagById(tables[i].tags, tagId)
      case None => None
      case Some(t) => DuplicateTagNode(t)
  }

  /** getTagInfo: the array is walked up to its end; an empty array stands for NULL. */
  method GetTagInfo(tables: seq<IfdTable>, ifdType: IfdType, tagId: uint16) returns (r: Option<Tag>)
    requires forall i :: 0 <= i < |tables| ==> tables[i].Valid()
    ensures AllConsistent(Values(tables))
    ensures r == TagInfo(Values(tables), ifdType, tagId)
  {
    ghost var vals := Values(tables);
    assert AllConsistent(vals) by {
      forall i, t | 0 <= i < |tables| && t in vals[i].tags
        ensures ConsistentPayload(t)
      {
        assert tables[i].Valid();
      }
    }
    var i := 0;
    while i < |tables|
      invariant 0 <= i <= |tables|
      invariant forall j :: 0 <= j < i ==> vals[j].ifdType != ifdType
    {
      if GetIfdType(tables[i]) == ifdType {
        assert FirstOfType(vals, ifdType) == Some(i);
        var targetTag := GetTagNodePtrFromIfd(tables[i], tagId);
        if targetTag.None? {
          return None;
        }
        return DuplicateTagNode(targetTag.value);
      }
      i := i + 1;
    }
    return None;
  }

  /** The position of each kind in the array createIfdTableArray fills. */
  function Rank(k: IfdType): nat
  {
    match k
    case Ifd0th => 0
    case IfdExif => 1
    case IfdIo => 2
    case IfdGps => 3
    case Ifd1st => 4
    case IfdUnknown => 5
  }

  /** Kinds strictly in array order, hence each kind at most once. */
  predicate InArrayOrder(tables: seq<Ifd>)
  {
    forall i, j :: 0 <= i < j < |tables| ==> Rank(tables[i].ifdType) < Rank(tables[j].ifdType)
  }

  /** The shape of a combined array, given what each branch can yield. */
  lemma CombineShape(t0: Ifd, exif: Branch, io: Branch, gps: Branch, first: Branch)
    requires t0.ifdType == Ifd0th && AllConsistent([t0])
    requires |exif.tables| <= 1 && forall i :: 0 <= i < |exif.tables| ==> exif.tables[i].ifdType == IfdExif
    requires |io.tables| <= 1 && forall i :: 0 <= i < |io.tables| ==> io.tables[i].ifdType == IfdIo
    requires |gps.tables| <= 1 && forall i :: 0 <= i < |gps.tables| ==> gps.tables[i].ifdType == IfdGps
    requires |first.tables| <= 1 && forall i :: 0 <= i < |first.tables| ==> first.tables[i].ifdType == Ifd1st
    requires io.tables != [] ==> exif.tables != []
    requires AllConsistent(exif.tables) && AllConsistent(io.tables) && AllConsistent(gps.tables) && AllConsistent(first.tables)
    ensures var ts := Combine(t0, exif, io, gps, first).tables;
      && 1 <= |ts| <= 5 && ts[0] == t0
      && InArrayOrder(ts)
      && (forall i :: 0 <= i < |ts| && ts[i].ifdType == IfdIo ==> i == 2 && ts[1].ifdType == IfdExif)
      && AllConsistent(ts)
  {
    var a := [t0] + exif.tables;
    AppendBranch([t0], exif.tables, IfdExif);
    var b := a + io.tables;
    AppendBranch(a, io.tables, IfdIo);
    var c := b + gps.tables;
    AppendBranch(b, gps.tables, IfdGps);
    var ts := c + first.tables;
    AppendBranch(c, first.tables, Ifd1st);
    assert ts == Combine(t0, exif, io, gps, first).tables;
    forall i | 0 <= i < |ts| && ts[i].ifdType == IfdIo
      ensures i == 2 && ts[1].ifdType == IfdExif
    {
      // only the Interoperability branch holds that kind, and it follows a decoded Exif IFD
      assert ts[i] == b[i] && i >= |a|;
      assert ts[1] == a[1];
    }
  }

  /** Appending a branch of one kind after tables of lower rank keeps the array in order and consistent. */
  lemma AppendBranch(xs: seq<Ifd>, ys: seq<Ifd>, k: IfdType)
    requires InArrayOrder(xs) && AllConsistent(xs)
    requires forall i :: 0 <= i < |xs| ==> Rank(xs[i].ifdType) < Rank(k)
    requires |ys| <= 1 && (forall i :: 0 <= i < |ys| ==> ys[i].ifdType == k) && AllConsistent(ys)
    ensures InArrayOrder(xs + ys) && AllConsistent(xs + ys)
    ensures forall i :: 0 <= i < |xs + ys| ==> Rank((xs + ys)[i].ifdType) <= Rank(k)
    ensures forall i :: 0 <= i < |xs| ==> (xs + ys)[i] == xs[i]
    ensures forall i :: |xs| <= i < |xs + ys| ==> (xs + ys)[i].ifdType == k
    ensures |xs + ys| <= |xs| + 1
  {
  }

  /**
   * The array of a ready session: empty exactly when the 0th IFD does not
   * decode, and then the status is ERR_INVALID_IFD; otherwise it starts with
   * the 0th IFD, holds at most the five kinds each once in array order, an
   * Interoperability IFD only directly after an Exif IFD, and a count status
   * that equals its length.
   */
  lemma AssembledShape(file: seq<uint8>, s: Session)
    ensures var r := AssembleTables(file, s);
      && (r.tables == [] <==> DecodeIfd(file, s, s.header.ifd0thOffset, Ifd0th).None?)
      && (r.tables == [] ==> r.result == ArrayFailed(InvalidIfd))
      && (r.tables != [] ==> r.tables[0].ifdType == Ifd0th)
      && |r.tables| <= 5
      && InArrayOrder(r.tables)
      && (forall i :: 0 <= i < |r.tables| && r.tables[i].ifdType == IfdIo ==> i == 2 && r.tables[1].ifdType == IfdExif)
      && (r.result.TableCount? ==> r.result.count == |r.tables|)
      && (r.result.TableCount? || r.result == ArrayFailed(InvalidIfd))
      && AllConsistent(r.tables)
  {
    match DecodeIfd(file, s, s.header.ifd0thOffset, Ifd0th)
    case None =>
    case Some(t0) =>
      var exif := Follow(file, s, PointerIn(t0, TAG_EXIF_IFD_POINTER), IfdExif);
      var io := FollowIo(file, s, exif);
      var gps := Follow(file, s, PointerIn(t0, TAG_GPS_INFO_IFD_POINTER), IfdGps);
      var first := Follow(file, s, NextLink(t0), Ifd1st);
      AssembleFromBranches(file, s, t0, exif, io, gps, first);
      CombineShape(t0, exif, io, gps, first);
  }

  /**
   * The status and array of createIfdTableArray: ERR_READ_FILE for a file that
   * cannot be opened, 0 exactly when no Exif segment is found, a count equal
   * to the number of tables on full success; a non-empty array is always in
   * array order and starts with the 0th IFD, and when it comes with an error
   * status that status is ERR_INVALID_IFD.
   */
  lemma IfdTableArrayStatus(input: Option<seq<uint8>>)
    ensures var r := IfdTableArray(input);
      && (input.None? ==> r == TableArray(ArrayFailed(ReadFile), []))
      && (r.result == NoExifFound <==> input.Some? && LocateExifSegment(input.value) == NotFound)
      && (r.result == NoExifFound ==> r.tables == [])
      && (r.result.TableCount? ==> 1 <= r.result.count == |r.tables| <= 5)
      && (r.tables != [] ==> r.tables[0].ifdType == Ifd0th && InArrayOrder(r.tables) && AllConsistent(r.tables))
      && (r.tables != [] && !r.result.TableCount? ==> r.result == ArrayFailed(InvalidIfd))
      && (input.Some? && InitSession(input.value).Ready? ==> PartialOutcome(input.value, InitSession(input.value).session))
  {
    if input.Some? {
      match InitSession(input.value)
      case NoExif =>
      case InitFailed(e) =>
      case Ready(s) =>
        AssembledShape(input.value, s);
        if DecodeIfd(input.value, s, s.header.ifd0thOffset, Ifd0th).Some? {
          PartialFailureStatus(input.value, s);
        }
    }
  }

  /** Some table of the array has the given kind. */
  predicate HasKind(tables: seq<Ifd>, k: IfdType)
  {
    exists i :: 0 <= i < |tables| && tables[i].ifdType == k
  }

  /** The IFD at an optional offset is there and decodes. */
  predicate Decodes(file: seq<uint8>, s: Session, ofs: Option<uint32>, k: IfdType)
  {
    ofs.Some? && DecodeIfd(file, s, ofs.value, k).Some?
  }

  /** A kind occurs in a concatenation exactly when it occurs in one of the parts. */
  lemma HasKindAppend(xs: seq<Ifd>, ys: seq<Ifd>, k: IfdType)
    ensures HasKind(xs + ys, k) <==> HasKind(xs, k) || HasKind(ys, k)
  {
    if HasKind(xs + ys, k) {
      var i :| 0 <= i < |xs + ys| && (xs + ys)[i].ifdType == k;
      if i < |xs| {
        assert xs[i] == (xs + ys)[i];
      } else {
        assert ys[i - |xs|] == (xs + ys)[i];
      }
    }
    if HasKind(xs, k) {
      var i :| 0 <= i < |xs| && xs[i].ifdType == k;
      assert (xs + ys)[i] == xs[i];
    }
    if HasKind(ys, k) {
      var i :| 0 <= i < |ys| && ys[i].ifdType == k;
      assert (xs + ys)[|xs| + i] == ys[i];
    }
  }

  /**
   * Partial failure: once the 0th IFD decodes, the status is ERR_INVALID_IFD
   * exactly when one of the four followed IFDs fails to decode, and a full
   * count otherwise. The GPS IFD and the 1st IFD are in the array exactly when
   * their own pointer leads to a directory that decodes, whatever became of
   * the other branches: a GPS pointer aimed past the end of the file leaves
   * the 1st IFD in the array and only sets the error status.
   */
  predicate PartialOutcome(file: seq<uint8>, s: Session)
  {
    match DecodeIfd(file, s, s.header.ifd0thOffset, Ifd0th)
    case None => true
    case Some(t0) =>
      var exifOfs := PointerIn(t0, TAG_EXIF_IFD_POINTER);
      var exif := Follow(file, s, exifOfs, IfdExif);
      var io := FollowIo(file, s, exif);
      var gpsOfs := PointerIn(t0, TAG_GPS_INFO_IFD_POINTER);
      var gps := Follow(file, s, gpsOfs, IfdGps);
      var first := Follow(file, s, NextLink(t0), Ifd1st);
      var r := AssembleTables(file, s);
      && (r.result == ArrayFailed(InvalidIfd) <==> exif.failed || io.failed || gps.failed || first.failed)
      && (r.result == TableCount(|r.tables|) <==> !(exif.failed || io.failed || gps.failed || first.failed))
      && |r.tables| > 0 && r.tables[0] == t0
      && (exif.failed <==> exifOfs.Some? && !Decodes(file, s, exifOfs, IfdExif))
      && (HasKind(r.tables, IfdExif) <==> Decodes(file, s, exifOfs, IfdExif))
      && (Decodes(file, s, exifOfs, IfdExif) ==> DecodeIfd(file, s, exifOfs.value, IfdExif).value in r.tables)
      && (io.failed <==>
            |exif.tables| == 1 && PointerIn(exif.tables[0], TAG_INTEROPERABILITY_IFD_POINTER).Some? &&
            !Decodes(file, s, PointerIn(exif.tables[0], TAG_INTEROPERABILITY_IFD_POINTER), IfdIo))
      && (HasKind(r.tables, IfdIo) <==>
            |exif.tables| == 1 && Decodes(file, s, PointerIn(exif.tables[0], TAG_INTEROPERABILITY_IFD_POINTER), IfdIo))
      && (|exif.tables| == 1 && Decodes(file, s, PointerIn(exif.tables[0], TAG_INTEROPERABILITY_IFD_POINTER), IfdIo) ==>
            DecodeIfd(file, s, PointerIn(exif.tables[0], TAG_INTEROPERABILITY_IFD_POINTER).value, IfdIo).value in r.tables)
      && (gps.failed <==> gpsOfs.Some? && !Decodes(file, s, gpsOfs, IfdGps))
      && (first.failed <==> NextLink(t0).Some? && !Decodes(file, s, NextLink(t0), Ifd1st))
      && (HasKind(r.tables, IfdGps) <==> Decodes(file, s, gpsOfs, IfdGps))
      && (HasKind(r.tables, Ifd1st) <==> Decodes(file, s, NextLink(t0), Ifd1st))
      && (Decodes(file, s, gpsOfs, IfdGps) ==> DecodeIfd(file, s, gpsOfs.value, IfdGps).value in r.tables)
      && (Decodes(file, s, NextLink(t0), Ifd1st) ==> DecodeIfd(file, s, NextLink(t0).value, Ifd1st).value in r.tables)
  }

  /** A sequence whose tables all have kind `k'` has kind `k` exactly when it is non-empty and `k == k'`. */
  lemma UniformHasKind(xs: seq<Ifd>, k': IfdType, k: IfdType)
    requires forall i :: 0 <= i < |xs| ==> xs[i].ifdType == k'
    ensures HasKind(xs, k) <==> |xs| > 0 && k == k'
  {
    if |xs| > 0 && k == k' {
      assert xs[0].ifdType == k;
    }
  }

  /** The kinds of a combined array, part by part: the 0th IFD, then one uniform part per branch. */
  lemma KindsOfCombine(t0: Ifd, e: seq<Ifd>, io: seq<Ifd>, g: seq<Ifd>, f: seq<Ifd>, k: IfdType)
    requires t0.ifdType == Ifd0th
    requires forall i :: 0 <= i < |e| ==> e[i].ifdType == IfdExif
    requires forall i :: 0 <= i < |io| ==> io[i].ifdType == IfdIo
    requires forall i :: 0 <= i < |g| ==> g[i].ifdType == IfdGps
    requires forall i :: 0 <= i < |f| ==> f[i].ifdType == Ifd1st
    ensures HasKind([t0] + e + io + g + f, k) <==>
      k == Ifd0th || (k == IfdExif && |e| > 0) || (k == IfdIo && |io| > 0) ||
      (k == IfdGps && |g| > 0) || (k == Ifd1st && |f| > 0)
  {
    UniformHasKind([t0], Ifd0th, k);
    UniformHasKind(e, IfdExif, k);
    UniformHasKind(io, IfdIo, k);
    UniformHasKind(g, IfdGps, k);
    UniformHasKind(f, Ifd1st, k);
    HasKindAppend([t0], e, k);
    HasKindAppend([t0] + e, io, k);
    HasKindAppend([t0] + e + io, g, k);
    HasKindAppend([t0] + e + io + g, f, k);
  }

  /**
   * In a combined array the Exif, Interoperability, GPS and 1st kinds come
   * only from their own branches: each is present exactly when its branch
   * yielded a table, and that table is in the array.
   */
  lemma {:induction false} CombineKinds(t0: Ifd, exif: Branch, io: Branch, gps: Branch, first: Branch)
    requires t0.ifdType == Ifd0th
    requires forall i :: 0 <= i < |exif.tables| ==> exif.tables[i].ifdType == IfdExif
    requires forall i :: 0 <= i < |io.tables| ==> io.tables[i].ifdType == IfdIo
    requires forall i :: 0 <= i < |gps.tables| ==> gps.tables[i].ifdType == IfdGps
    requires forall i :: 0 <= i < |first.tables| ==> first.tables[i].ifdType == Ifd1st
    requires |exif.tables| <= 1 && |io.tables| <= 1 && |gps.tables| <= 1 && |first.tables| <= 1
    ensures var ts := Combine(t0, exif, io, gps, first).tables;
      && (HasKind(ts, IfdExif) <==> |exif.tables| == 1)
      && (HasKind(ts, IfdIo) <==> |io.tables| == 1)
      && (|exif.tables| == 1 ==> exif.tables[0] in ts)
      && (|io.tables| == 1 ==> io.tables[0] in ts)
      && (HasKind(ts, IfdGps) <==> |gps.tables| == 1)
      && (HasKind(ts, Ifd1st) <==> |first.tables| == 1)
      && (|gps.tables| == 1 ==> gps.tables[0] in ts)
      && (|first.tables| == 1 ==> first.tables[0] in ts)
  {
    var c := [t0] + exif.tables + io.tables;
    var ts := c + gps.tables + first.tables;
    assert Combine(t0, exif, io, gps, first).tables == ts;
    KindsOfCombine(t0, exif.tables, io.tables, gps.tables, first.tables, IfdExif);
    KindsOfCombine(t0, exif.tables, io.tables, gps.tables, first.tables, IfdIo);
    KindsOfCombine(t0, exif.tables, io.tables, gps.tables, first.tables, IfdGps);
    KindsOfCombine(t0, exif.tables, io.tables, gps.tables, first.tables, Ifd1st);
    if |exif.tables| == 1 {
      assert ts[1] == exif.tables[0];
    }
    if |io.tables| == 1 {
      assert ts[1 + |exif.tables|] == io.tables[0];
    }
    if |gps.tables| == 1 {
      assert ts[|c|] == gps.tables[0];
    }
    if |first.tables| == 1 {
      assert ts[|c| + |gps.tables|] == first.tables[0];
    }
  }

  /** The partial-failure outcome holds for every session whose 0th IFD decodes. */
  lemma {:induction false} PartialFailureStatus(file: seq<uint8>, s: Session)
    requires DecodeIfd(file, s, s.header.ifd0thOffset, Ifd0th).Some?
    ensures PartialOutcome(file, s)
  {
    var t0 := DecodeIfd(file, s, s.header.ifd0thOffset, Ifd0th).value;
    var exif := Follow(file, s, PointerIn(t0, TAG_EXIF_IFD_POINTER), IfdExif);
    var io := FollowIo(file, s, exif);
    var gps := Follow(file, s, PointerIn(t0, TAG_GPS_INFO_IFD_POINTER), IfdGps);
    var first := Follow(file, s, NextLink(t0), Ifd1st);
    AssembleFromBranches(file, s, t0, exif, io, gps, first);
    CombineKinds(t0, exif, io, gps, first);
  }

  /**
   * What getTagInfo returns is a copy of a tag with the requested id and a
   * positive count, held by a table of the requested kind; it is the first
   * tag with that id in that table.
   */
  lemma TagInfoFound(tables: seq<Ifd>, ifdType: IfdType, tagId: uint16)
    requires AllConsistent(tables)
    ensures var r := TagInfo(tables, ifdType, tagId);
      r.Some? ==>
        exists i :: 0 <= i < |tables| && tables[i].ifdType == ifdType && TagById(tables[i].tags, tagId) == r && r.value.count > 0
  {
    match FirstOfType(tables, ifdType)
    case None =>
    case Some(i) =>
      assert 0 <= i < |tables| && tables[i].ifdType == ifdType;
  }

  /**
   * In an array whose kinds are in array order, as createIfdTableArray builds
   * it, getTagInfo looks up the tag in the one table of the requested kind:
   * the first tag with the id there unless its count is zero, and NULL when
   * no table has that kind.
   */
  lemma TagInfoOfOrderedArray(tables: seq<Ifd>, ifdType: IfdType, tagId: uint16)
    requires AllConsistent(tables) && InArrayOrder(tables)
    ensures (forall i :: 0 <= i < |tables| ==> tables[i].ifdType != ifdType) ==> TagInfo(tables, ifdType, tagId).None?
    ensures forall i :: 0 <= i < |tables| && tables[i].ifdType == ifdType ==>
      TagInfo(tables, ifdType, tagId) ==
        match TagById(tables[i].tags, tagId)
        case None => None
        case Some(t) => if t.count == 0 then None else Some(t)
  {
    forall i | 0 <= i < |tables| && tables[i].ifdType == ifdType
      ensures FirstOfType(tables, ifdType) == Some(i)
    {
      // an earlier table of the same kind would break the strict order
      var f := FirstOfType(tables, ifdType);
      assert f.Some? && f.value <= i;
    }
  }

  /** What createIfdTableArray does with a pointer tag's numData. */
  datatype PointerUse = NotFollowed | FollowedTo(offset: uint32) | NullDereference

  /**
   * The pointer tests as written: a present, unflagged tag is followed through
   * `numData[0]`, which is a NULL dereference when the node holds bytes
   * (an ASCII or UNDEFINED pointer tag).
   */
  function PointerUseAsWritten(t: Option<Tag>): (u: PointerUse)
    requires t.Some? ==> ConsistentPayload(t.value)
    ensures u == NullDereference <==> t.Some? && !t.value.error && t.value.payload.Bytes?
    ensures u.FollowedTo? <==> PointerTarget(t).Some?
    ensures u.FollowedTo? ==> PointerTarget(t) == Some(u.offset)
  {
    if t.None? || t.value.error then NotFollowed
    else
      match t.value.payload
      case Nums(ns) => FollowedTo(ns[0])
      case _ => NullDereference
  }

  /** An Exif IFD pointer record of type ASCII with four inline bytes, in big-endian order. */
  function AsciiPointerRecord(): (rec: seq<uint8>)
    ensures |rec| == IFD_TAG_SIZE
  {
    [0x87, 0x69, 0x00, 0x02, 0x00, 0x00, 0x00, 0x04, 0x00, 0x00, 0x00, 0x08]
  }

  /**
   * In a big-endian session the record decodes into an unflagged node holding
   * bytes, which the source dereferences as numbers; the corrected pointer
   * test does not follow it.
   */
  lemma AsciiPointerDereferencesNull(file: seq<uint8>, s: Session)
    requires !s.DataIsLittle()
    ensures DecodeTag(file, s, AsciiPointerRecord()) ==
      Some(Tag(TAG_EXIF_IFD_POINTER, TYPE_ASCII, 4, Bytes([0x00, 0x00, 0x00, 0x08]), false))
    ensures PointerUseAsWritten(DecodeTag(file, s, AsciiPointerRecord())) == NullDereference
    ensures PointerTarget(DecodeTag(file, s, AsciiPointerRecord())) == None
  {
    var rec := AsciiPointerRecord();
    var e := DecodeEntry(false, rec);
    assert rec[0..2] == [0x87, 0x69] && rec[2..4] == [0x00, 0x02] && rec[4..8] == [0x00, 0x00, 0x00, 0x04];
    assert e.tag == TAG_EXIF_IFD_POINTER && e.tagType == TYPE_ASCII && e.count == 4;
    assert e.data == [0x00, 0x00, 0x00, 0x08] && e.data[..4] == e.data;
    assert DecodeTagValue(file, s, rec) == Some(TagValue(TAG_EXIF_IFD_POINTER, TYPE_ASCII, 4, None, Some(e.data)));
  }
}
