/**
 * removeExifSegmentFromJPEGFile: copies a JPEG file to an output file with the
 * located Exif APP1 segment (its marker, and the bytes its big-endian length
 * field counts) left out. The bytes before the segment are copied in one
 * block; the rest is streamed in chunks of at most 8192 bytes.
 */
module SegmentRewriter {
  import opened ByteOrder
  import opened FileAccess
  import opened SegmentLocator
  import opened TiffHeader

  /** sizeof(buf): the chunk size of the copy loop. */
  const CHUNK_SIZE: nat := 8192
  /** sizeof(App1Header.marker) */
  const MARKER_SIZE: nat := 2

  /** The return value: 1, 0, or an error code. */
  datatype StripStatus = Stripped | NoExifSegment | StripFailed(error: Error)

  /**
   * The output file, opened for writing. It accepts at most `capacity` bytes
   * in all; fwrite stores as many bytes as still fit and reports that number.
   */
  class OutputFile {
    const capacity: nat
    var data: seq<uint8>

    ghost predicate Valid()
      reads this
    {
      |data| <= capacity
    }

    constructor (capacity: nat)
      ensures Valid() && this.capacity == capacity && data == []
    {
      this.capacity := capacity;
      data := [];
    }

    /** fopen in "wb" mode truncates the file. */
    method Truncate()
      modifies this
      ensures Valid() && data == []
    {
      data := [];
    }

    /** fwrite: a short count when the file is full. */
    method Fwrite(buf: seq<uint8>) returns (n: nat)
      requires Valid()
      modifies this
      ensures Valid()
      ensures n == if |buf| <= capacity - |old(data)| then |buf| else capacity - |old(data)|
      ensures data == old(data) + buf[..n]
    {
      n := if |buf| <= capacity - |data| then |buf| else capacity - |data|;
      data := data + buf[..n];
    }
  }

  /** The file position just past the Exif segment: marker, then the bytes the length field counts. */
  function SegmentEnd(s: Session): nat
  {
    s.app1StartOffset + MARKER_SIZE + s.header.length as nat
  }

  /**
   * The bytes of the file with the segment of the session cut out: all bytes
   * before its marker, then all bytes from its end (none when the declared
   * length runs past the end of the file).
   */
  function WithoutSegment(file: seq<uint8>, s: Session): (r: seq<uint8>)
    requires s.app1StartOffset <= |file|
    ensures s.app1StartOffset <= |r| <= |file|
    ensures r[..s.app1StartOffset] == file[..s.app1StartOffset]
    ensures SegmentEnd(s) <= |file| ==> |r| == |file| - (MARKER_SIZE + s.header.length as nat)
    ensures SegmentEnd(s) <= |file| ==> r[s.app1StartOffset..] == file[SegmentEnd(s)..]
    ensures SegmentEnd(s) > |file| ==> r == file[..s.app1StartOffset]
  {
    file[..s.app1StartOffset] + file[if SegmentEnd(s) <= |file| then SegmentEnd(s) else |file|..]
  }

  /** The status and, when the output file was opened, its final contents. */
  datatype Removal = Removal(status: StripStatus, output: Option<seq<uint8>>)

  /**
   * removeExifSegmentFromJPEGFile on an input that cannot be opened (`None`) or
   * on its bytes, an output file that opens or not, and the room it has. A
   * failure to open the output file is reported as ERR_READ_FILE; an output
   * without room for all bytes ends with ERR_WRITE_FILE after the bytes that fit.
   */
  function RemoveExifSegment(input: Option<seq<uint8>>, outputOpens: bool, capacity: nat): (r: Removal)
    ensures r.output.Some? ==> outputOpens && |r.output.value| <= capacity
    ensures r.output.Some? <==> r.status == Stripped || r.status == StripFailed(WriteFile)
    ensures r.status == StripFailed(WriteFile) ==> r.output.Some? && |r.output.value| == capacity
  {
    match input
    case None => Removal(StripFailed(ReadFile), None)
    case Some(file) =>
      match InitSession(file)
      case NoExif => Removal(NoExifSegment, None)
      case InitFailed(e) => Removal(StripFailed(e), None)
      case Ready(s) =>
        if !outputOpens then Removal(StripFailed(ReadFile), None)
        else if s.app1StartOffset > |file| then Removal(StripFailed(ReadFile), None)
        else
          var full := WithoutSegment(file, s);
          if |full| <= capacity then Removal(Stripped, Some(full))
          else Removal(StripFailed(WriteFile), Some(full[..capacity]))
  }

  /**
   * removeExifSegmentFromJPEGFile. `out` is null when the output file cannot
   * be opened; it is truncated only once an Exif segment has been found.
   */
  method RemoveExifSegmentFromJpegFile(input: Option<seq<uint8>>, hostLittle: bool, out: OutputFile?)
    returns (sts: StripStatus)
    requires out != null ==> out.Valid()
    modifies out
    ensures var r := RemoveExifSegment(input, out != null, if out != null then out.capacity else 0);
      && sts == r.status
      && (out != null && r.output.Some? ==> out.data == r.output.value)
      && (out != null && r.output.None? ==> out.data == old(out.data))
  {
    if input.None? {
      return StripFailed(ReadFile);
    }
    var file := input.value;
    var init := Init(file, hostLittle);
    if init.NoExif? {
      return NoExifSegment;
    } else if init.InitFailed? {
      return StripFailed(init.error);
    }
    var s := init.session;
    if out == null {
      return StripFailed(ReadFile);
    }
    InitReadyIsValid(file);
    out.Truncate();
    ghost var full := WithoutSegment(file, s);
    // everything before the APP1 marker goes out in one write
    var a := s.app1StartOffset;
    var written := out.Fwrite(file[..a]);
    assert file[..a] == full[..a];
    if written < a {
      return StripFailed(WriteFile);
    }
    // continue past the marker and the bytes its length counts; a position beyond the end yields no bytes
    var pos := SegmentEnd(s);
    sts := CopyRest(file, pos, out, full);
  }

  /**
   * The read-and-write loop: chunks from `pos` to the end of the file are
   * appended until one is not written in full.
   */
  method CopyRest(file: seq<uint8>, pos: nat, out: OutputFile, ghost full: seq<uint8>) returns (sts: StripStatus)
    requires out.Valid()
    requires |out.data| <= |full| && out.data == full[..|out.data|]
    requires full[|out.data|..] == if pos <= |file| then file[pos..] else []
    modifies out
    ensures out.Valid()
    ensures |full| <= out.capacity ==> sts == Stripped && out.data == full
    ensures |full| > out.capacity ==> sts == StripFailed(WriteFile) && out.data == full[..out.capacity]
  {
    var p := pos;
    while true
      invariant out.Valid()
      invariant |out.data| <= |full| && out.data == full[..|out.data|]
      invariant full[|out.data|..] == if p <= |file| then file[p..] else []
      decreases |file| - p
    {
      var readLen := if p < |file| then Min(CHUNK_SIZE, |file| - p) else 0;
      if readLen == 0 {
        break;
      }
      var buf := file[p..p + readLen];
      ghost var before := out.data;
      assert buf == full[|before|..|before| + readLen];
      var writeLen := out.Fwrite(buf);
      assert out.data == full[..|before| + writeLen];
      if writeLen != readLen {
        return StripFailed(WriteFile);
      }
      p := p + readLen;
    }
    assert out.data == full;
    return Stripped;
  }

  /**
   * Splicing the removed bytes back in at the segment's offset gives the
   * original file back, and those bytes begin with the APP1 marker.
   */
  lemma ReinsertSegment(file: seq<uint8>)
    requires InitSession(file).Ready?
    ensures var s := InitSession(file).session;
      var out := WithoutSegment(file, s);
      var a := s.app1StartOffset;
      && file[a..a + 2] == [0xFF, 0xE1]
      && (SegmentEnd(s) <= |file| ==> file == out[..a] + file[a..SegmentEnd(s)] + out[a..])
      && (SegmentEnd(s) > |file| ==> file == out + file[a..])
  {
    var s := InitSession(file).session;
    InitReadyIsValid(file);
    var a := s.app1StartOffset;
    var out := WithoutSegment(file, s);
    if SegmentEnd(s) <= |file| {
      assert file == file[..a] + file[a..SegmentEnd(s)] + file[SegmentEnd(s)..];
    } else {
      assert file == file[..a] + file[a..];
    }
  }

  /**
   * The outcomes: not found exactly when no Exif segment is located (and the
   * output is not touched); stripped exactly when the output opens and has
   * room for the file without the segment, and then it holds exactly those bytes.
   */
  lemma RemovalOutcomes(input: Option<seq<uint8>>, outputOpens: bool, capacity: nat)
    ensures var r := RemoveExifSegment(input, outputOpens, capacity);
      && (r.status == NoExifSegment <==> input.Some? && LocateExifSegment(input.value) == NotFound)
      && (r.output.Some? <==> input.Some? && InitSession(input.value).Ready? && outputOpens)
      && (r.status == Stripped <==>
            && input.Some? && InitSession(input.value).Ready? && outputOpens
            && |WithoutSegment(input.value, InitSession(input.value).session)| <= capacity)
      && (r.status == Stripped ==> r.output == Some(WithoutSegment(input.value, InitSession(input.value).session)))
      && (r.output.Some? ==> |r.output.value| <= capacity)
  {
    if input.Some? && InitSession(input.value).Ready? {
      InitReadyIsValid(input.value);
    }
  }

  function Min(x: nat, y: nat): nat
  {
    if x <= y then x else y
  }
}
