/**
 * The JPEG file as an immutable byte sequence, and the outcomes the library
 * reports. A `fread` of `k` bytes at position `pos` either delivers all `k`
 * bytes or is short; an `fseek` to a non-negative position always succeeds
 * (positions past the end of the file only make the next read short).
 */
module FileAccess {
  import opened ByteOrder

  datatype Option<+T> = None | Some(value: T)

  /** The negative status codes of exif.h. */
  datatype Error =
    | ReadFile           // ERR_READ_FILE: a file could not be opened or a read was short
    | WriteFile          // ERR_WRITE_FILE: a write was short
    | InvalidJpeg        // ERR_INVALID_JPEG: no start-of-image marker
    | InvalidApp1Header  // ERR_INVALID_APP1HEADER: the Exif/TIFF header is malformed
    | InvalidIfd         // ERR_INVALID_IFD: one or more directories failed to decode

  /** Reading `k` bytes at absolute position `pos`: `None` is a short read. */
  function Read(file: seq<uint8>, pos: nat, k: nat): (r: Option<seq<uint8>>)
    ensures r.Some? <==> pos + k <= |file|
    ensures r.Some? ==> |r.value| == k && forall i :: 0 <= i < k ==> r.value[i] == file[pos + i]
  {
    if pos + k <= |file| then Some(file[pos..pos + k]) else None
  }
}
