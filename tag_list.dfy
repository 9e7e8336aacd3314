/**
 * The in-memory IFD table and its tag nodes: createIfdTable, addTagNodeToIfd,
 * getTagNodePtrFromIfd, duplicateTagNode and getIfdType. The source keeps the
 * tags of a table in a doubly linked list that addTagNodeToIfd extends at the
 * tail; here the list is the table's `tags` sequence, in insertion order.
 */
module TagList {
  import opened ByteOrder
  import opened FileAccess

  // Field types of TIFF Revision 6.0, section 2 and section 18 (exif.h TYPE_*).
  const TYPE_BYTE: uint16 := 1
  const TYPE_ASCII: uint16 := 2
  const TYPE_SHORT: uint16 := 3
  const TYPE_LONG: uint16 := 4
  const TYPE_RATIONAL: uint16 := 5
  const TYPE_SBYTE: uint16 := 6
  const TYPE_UNDEFINED: uint16 := 7
  const TYPE_SSHORT: uint16 := 8
  const TYPE_SLONG: uint16 := 9
  const TYPE_SRATIONAL: uint16 := 10

  /** IFD_TYPE */
  datatype IfdType = IfdUnknown | Ifd0th | Ifd1st | IfdExif | IfdGps | IfdIo

  /** A node holds numeric slots (numData), raw bytes (byteData), or nothing. */
  datatype Payload = NoPayload | Nums(nums: seq<uint32>) | Bytes(bytes: seq<uint8>)

  /** TagNode without its list links. */
  datatype Tag = Tag(tagId: uint16, tagType: uint16, count: uint32, payload: Payload, error: bool)

  /** One IFD table as a value: IfdTable of the source. */
  datatype Ifd = Ifd(ifdType: IfdType, tagCount: uint16, tags: seq<Tag>, nextIfdOffset: uint32)

  predicate IsRationalType(tagType: uint16)
  {
    tagType == TYPE_RATIONAL || tagType == TYPE_SRATIONAL
  }

  /** The number of 32-bit slots a numeric payload of `count` values takes: two per rational. */
  function Slots(tagType: uint16, count: uint32): nat
  {
    if IsRationalType(tagType) then 2 * count as nat else count as nat
  }

  /**
   * The node invariant: an errored node has no payload; any other node has a
   * positive count and a payload of exactly `Slots` numbers or `count` bytes.
   */
  predicate ConsistentPayload(t: Tag)
  {
    && (t.error <==> t.payload.NoPayload?)
    && (!t.error ==> t.count > 0)
    && (t.payload.Nums? ==> |t.payload.nums| == Slots(t.tagType, t.count))
    && (t.payload.Bytes? ==> |t.payload.bytes| == t.count as nat)
  }

  /**
   * The node addTagNodeToIfd builds. A zero count or the absence of both data
   * pointers flags the node as errored without a payload; otherwise the first
   * `Slots` numbers, or else the first `count` bytes, are copied.
   */
  function NewTagNode(tagId: uint16, tagType: uint16, count: uint32,
                      numData: Option<seq<uint32>>, byteData: Option<seq<uint8>>): (t: Tag)
    requires count > 0 && numData.Some? ==> |numData.value| >= Slots(tagType, count)
    requires count > 0 && numData.None? && byteData.Some? ==> |byteData.value| >= count as nat
    ensures ConsistentPayload(t)
    ensures t.tagId == tagId && t.tagType == tagType && t.count == count
    ensures t.error <==> count == 0 || (numData.None? && byteData.None?)
    ensures !t.error && numData.Some? ==> t.payload.Nums? && t.payload.nums <= numData.value
    ensures !t.error && numData.None? ==> t.payload.Bytes? && t.payload.bytes <= byteData.value
  {
    if count > 0 then
      if numData.Some? then Tag(tagId, tagType, count, Nums(numData.value[..Slots(tagType, count)]), false)
      else if byteData.Some? then Tag(tagId, tagType, count, Bytes(byteData.value[..count]), false)
      else Tag(tagId, tagType, count, NoPayload, true)
    else Tag(tagId, tagType, count, NoPayload, true)
  }

  /** getTagNodePtrFromIfd as a search: the index of the first tag with the given id. */
  function FindTag(tags: seq<Tag>, tagId: uint16): (r: Option<nat>)
    ensures r.Some? ==> r.value < |tags| && tags[r.value].tagId == tagId
    ensures r.Some? ==> forall j :: 0 <= j < r.value ==> tags[j].tagId != tagId
    ensures r.None? ==> forall j :: 0 <= j < |tags| ==> tags[j].tagId != tagId
  {
    if |tags| == 0 then None
    else if tags[0].tagId == tagId then Some(0)
    else
      match FindTag(tags[1..], tagId)
      case None => None
      case Some(k) => Some(k + 1)
  }

  /** Appending a tag leaves the result of an earlier successful search unchanged. */
  lemma {:induction false} FindTagAfterAppend(tags: seq<Tag>, t: Tag, tagId: uint16)
    ensures FindTag(tags + [t], tagId) ==
      if FindTag(tags, tagId).Some? then FindTag(tags, tagId)
      else if t.tagId == tagId then Some(|tags|) else None
  {
    var r := FindTag(tags + [t], tagId);
    var q := FindTag(tags, tagId);
    assert (tags + [t])[|tags|] == t;
    if q.Some? {
      assert (tags + [t])[q.value] == tags[q.value];
      assert r.Some? && r.value <= q.value;
      assert r.value < |tags| ==> (tags + [t])[r.value] == tags[r.value];
    }
  }

  /**
   * duplicateTagNode: NULL for a zero count; otherwise a copy of the node's
   * fields and of exactly `Slots` numbers or `count` bytes.
   */
  function DuplicateTagNode(src: Tag): (dup: Option<Tag>)
    requires ConsistentPayload(src)
    ensures dup.None? <==> src.count == 0
    ensures dup.Some? ==> dup.value == src
  {
    if src.count == 0 then None
    else
      var payload := match src.payload
        case Nums(ns) => Nums(ns[..Slots(src.tagType, src.count)])
        case Bytes(bs) => Bytes(bs[..src.count])
        case NoPayload => NoPayload;
      Some(Tag(src.tagId, src.tagType, src.count, payload, src.error))
  }

  /** IfdTable: a table whose tag list addTagNodeToIfd extends in place. */
  class IfdTable {
    const ifdType: IfdType
    const tagCount: uint16
    const nextIfdOffset: uint32
    var tags: seq<Tag>

    /** Every node in the table satisfies the node invariant. */
    ghost predicate Valid()
      reads this
    {
      forall i :: 0 <= i < |tags| ==> ConsistentPayload(tags[i])
    }

    function Value(): Ifd
      reads this
    {
      Ifd(ifdType, tagCount, tags, nextIfdOffset)
    }

    /** createIfdTable */
    constructor (ifdType: IfdType, tagCount: uint16, nextOfs: uint32)
      ensures Valid()
      ensures Value() == Ifd(ifdType, tagCount, [], nextOfs)
    {
      this.ifdType := ifdType;
      this.tagCount := tagCount;
      this.nextIfdOffset := nextOfs;
      this.tags := [];
    }

    /**
     * addTagNodeToIfd: builds the node and links it at the tail, so that list
     * order is call order and the nodes already present do not change.
     */
    method AddTagNodeToIfd(tagId: uint16, tagType: uint16, count: uint32,
                           numData: Option<seq<uint32>>, byteData: Option<seq<uint8>>) returns (tag: Tag)
      requires Valid()
      requires count > 0 && numData.Some? ==> |numData.value| >= Slots(tagType, count)
      requires count > 0 && numData.None? && byteData.Some? ==> |byteData.value| >= count as nat
      modifies this
      ensures Valid()
      ensures tag == NewTagNode(tagId, tagType, count, numData, byteData)
      ensures tags == old(tags) + [tag]
    {
      tag := NewTagNode(tagId, tagType, count, numData, byteData);
      tags := tags + [tag];
    }
  }

  /** No tag before index `i` has the given id. */
  predicate NoneBefore(tags: seq<Tag>, i: nat, tagId: uint16)
    requires i <= |tags|
  {
    forall j :: 0 <= j < i ==> tags[j].tagId != tagId
  }

  /** The first tag with the given id in a tag list, if any. */
  function TagById(tags: seq<Tag>, tagId: uint16): (r: Option<Tag>)
    ensures r.Some? ==> r.value in tags && r.value.tagId == tagId
    ensures r.Some? ==> exists i :: 0 <= i < |tags| && tags[i] == r.value && NoneBefore(tags, i, tagId)
    ensures r.None? ==> forall t :: t in tags ==> t.tagId != tagId
  {
    match FindTag(tags, tagId)
    case None => None
    case Some(i) => Some(tags[i])
  }

  /** getTagNodePtrFromIfd: the first tag of the table with the given id, or NULL. */
  function GetTagNodePtrFromIfd(ifd: IfdTable?, tagId: uint16): (r: Option<Tag>)
    reads ifd
    ensures r.Some? ==> ifd != null && r.value in ifd.tags && r.value.tagId == tagId
    ensures r.Some? ==> exists i :: 0 <= i < |ifd.tags| && ifd.tags[i] == r.value && NoneBefore(ifd.tags, i, tagId)
    ensures r.None? ==> ifd == null || forall t :: t in ifd.tags ==> t.tagId != tagId
  {
    if ifd == null then None else TagById(ifd.tags, tagId)
  }

  /** getIfdType: IFD_UNKNOWN for a NULL table. */
  function GetIfdType(ifd: IfdTable?): (r: IfdType)
    ensures ifd == null ==> r == IfdUnknown
    ensures ifd != null ==> r == ifd.ifdType
  {
    if ifd == null then IfdUnknown else ifd.ifdType
  }
}
