/**
 * Wire-level vocabulary of the camera stream: the proprietary record header,
 * the JPEG markers the reassembler looks for (SOI = FF D8 and EOI = FF D9, as
 * defined in Annex B.1.1.3, Table B.1 of ITU-T T.81), and the search for the
 * end of a frame inside an accumulated slot.
 */
module Protocol {

  newtype byte = b: int | 0 <= b < 0x100

  datatype Option<T> = None | Some(value: T)

  /** Length of the proprietary record header stripped from every chunk. */
  const HEADER_SIZE: nat := 12
  /** A would-be frame shorter than this is treated as spurious. */
  const MIN_JPEG_SIZE: nat := 1000
  /** Capacity of a slot, and size of the read loop's transfer buffer (BUFFER_SIZE). */
  const BUFFER_SIZE: nat := 64 * 1024
  /** Safety valve: a slot longer than this without a frame end is discarded. */
  const MAX_JPEG_SIZE: nat := BUFFER_SIZE - 4096
  /** Number of slots in the frame ring (MAX_FRAMES). */
  const SLOT_COUNT: nat := 12

  /** A chunk is a record only if it starts with AA BB 07. */
  predicate HasMagic(chunk: seq<byte>)
  {
    |chunk| >= 3 && chunk[0] == 0xAA && chunk[1] == 0xBB && chunk[2] == 0x07
  }

  /** The bytes begin with the JPEG start-of-image marker FF D8. */
  predicate StartsWithSOI(s: seq<byte>)
  {
    |s| >= 2 && s[0] == 0xFF && s[1] == 0xD8
  }

  /** An end-of-image marker FF D9 whose second byte sits at index i. */
  predicate IsEOIAt(s: seq<byte>, i: nat)
  {
    1 <= i < |s| && s[i - 1] == 0xFF && s[i] == 0xD9
  }

  /** The bytes end with the JPEG end-of-image marker FF D9. */
  predicate EndsWithEOI(s: seq<byte>)
  {
    |s| >= 2 && IsEOIAt(s, |s| - 1)
  }

  /**
   * An EOI at index i ends a frame: the prefix through it is at least
   * MIN_JPEG_SIZE bytes long and the slot starts with SOI.
   */
  predicate Qualifies(s: seq<byte>, i: nat)
  {
    IsEOIAt(s, i) && i + 1 >= MIN_JPEG_SIZE && StartsWithSOI(s)
  }

  /** What a ready slot holds: one SOI..EOI span of acceptable length. */
  predicate IsFrame(s: seq<byte>)
  {
    MIN_JPEG_SIZE <= |s| <= BUFFER_SIZE && StartsWithSOI(s) && EndsWithEOI(s)
  }

  /**
   * The first index at or after `from` where a qualifying EOI ends; the search
   * does not stop at an EOI that fails to qualify.
   */
  function FindFrameEnd(s: seq<byte>, from: nat): (r: Option<nat>)
    requires 1 <= from
    decreases |s| - from
    ensures r.Some? ==> from <= r.value < |s| && Qualifies(s, r.value)
    ensures r.Some? ==> forall j :: from <= j < r.value ==> !Qualifies(s, j)
    ensures r.None? ==> forall j :: from <= j < |s| ==> !Qualifies(s, j)
  {
    if from >= |s| then None
    else if Qualifies(s, from) then Some(from)
    else FindFrameEnd(s, from + 1)
  }

  /** The index of the EOI that ends the frame held in a slot, if there is one. */
  function FrameEnd(s: seq<byte>): Option<nat>
  {
    FindFrameEnd(s, 1)
  }

  /**
   * The prefix of a slot up to its first qualifying EOI is a frame, and no
   * shorter prefix of the slot is.
   */
  lemma FrameEndGivesFrame(s: seq<byte>)
    requires |s| <= BUFFER_SIZE
    requires FrameEnd(s).Some?
    ensures IsFrame(s[..FrameEnd(s).value + 1])
    ensures forall n :: 2 <= n <= FrameEnd(s).value ==> !IsFrame(s[..n])
  {
    var e := FrameEnd(s).value;
    forall n | 2 <= n <= e
      ensures !IsFrame(s[..n])
    {
      if IsFrame(s[..n]) {
        assert Qualifies(s, n - 1);
        assert false;
      }
    }
  }

  /**
   * The EOI search of process_data: every index from 1 on is tested for
   * FF D9, and the search stops only at an EOI whose prefix is long enough
   * and whose slot starts with SOI.
   */
  method ScanForFrameEnd(data: seq<byte>) returns (r: Option<nat>)
    ensures r == FrameEnd(data)
    ensures r.Some? ==> IsEOIAt(data, r.value) && r.value + 1 >= MIN_JPEG_SIZE && StartsWithSOI(data)
  {
    var i := 1;
    while i < |data|
      invariant 1 <= i
      invariant FindFrameEnd(data, i) == FrameEnd(data)
    {
      if data[i - 1] == 0xFF && data[i] == 0xD9 {
        var completeFrameSize := i + 1;
        if completeFrameSize >= MIN_JPEG_SIZE && data[0] == 0xFF && data[1] == 0xD8 {
          return Some(i);
        }
      }
      i := i + 1;
    }
    return None;
  }
}
