/** The content fingerprint used to detect duplicate uploads
  (backend/app/utils.py): small contents are hashed whole, large ones
  through three 1 MiB windows plus their decimal size. SHA-1 itself is a
  parameter: any function from bytes to a digest.
 */
module Sha1Sampling {
  import Text

  newtype Byte = b: int | 0 <= b < 256

  /** `hashlib.sha1(data).hexdigest()`, fed `data` in one piece; feeding a
      hasher several `update` calls digests their concatenation. */
  type Hasher = seq<Byte> -> string

  /** `LARGE_FILE_THRESHOLD`, 10 MiB. */
  const LargeFileThreshold: nat := 10 * 1024 * 1024

  /** `CHUNK_SIZE`, 1 MiB. */
  const ChunkSize: nat := 1 * 1024 * 1024

  /** `str(size).encode()`: the ASCII bytes of the decimal size. */
  function SizeBytes(size: nat): (r: seq<Byte>)
    ensures |r| == |Text.NatToString(size)|
    ensures forall k :: 0 <= k < |r| ==> r[k] as int == Text.NatToString(size)[k] as int
  {
    var s := Text.NatToString(size);
    seq(|s|, k requires 0 <= k < |s| => s[k] as int as Byte)
  }

  /** `mid_start`: half the size, less half a chunk (floor division). */
  function MidStart(size: nat): int {
    size / 2 - ChunkSize / 2
  }

  /** Above the threshold the three windows lie inside the content, in
      order and without overlapping: the first chunk, the middle chunk, the
      last chunk. */
  lemma WindowsInside(size: nat)
    requires size > LargeFileThreshold
    ensures ChunkSize <= MidStart(size)
    ensures MidStart(size) + ChunkSize <= size - ChunkSize
  {
  }

  /** What the hasher is fed for a large content: the first chunk, the
      chunk starting at `mid_start`, the last chunk, then the size digits. */
  function Sampled(content: seq<Byte>): (data: seq<Byte>)
    requires |content| > LargeFileThreshold
    ensures |data| == 3 * ChunkSize + |Text.NatToString(|content|)|
    ensures data[..ChunkSize] == content[..ChunkSize]
    ensures data[ChunkSize..2 * ChunkSize] == content[MidStart(|content|)..MidStart(|content|) + ChunkSize]
    ensures data[2 * ChunkSize..3 * ChunkSize] == content[|content| - ChunkSize..]
    ensures data[3 * ChunkSize..] == SizeBytes(|content|)
  {
    var size := |content|;
    var mid := MidStart(size);
    WindowsInside(size);
    content[..ChunkSize] + content[mid..mid + ChunkSize] + content[size - ChunkSize..] + SizeBytes(size)
  }

  /** `calculate_sha1(content, len(content))`. */
  function CalculateSha1(content: seq<Byte>, sha1: Hasher): (digest: string)
    ensures |content| <= LargeFileThreshold ==> digest == sha1(content)
    ensures |content| > LargeFileThreshold ==> digest == sha1(Sampled(content))
  {
    if |content| <= LargeFileThreshold then sha1(content) else sha1(Sampled(content))
  }

  /** The bytes a large content's fingerprint depends on agree. */
  predicate SameSamples(a: seq<Byte>, b: seq<Byte>)
    requires |a| == |b| > LargeFileThreshold
  {
    var size := |a|;
    var mid := MidStart(size);
    WindowsInside(size);
    && a[..ChunkSize] == b[..ChunkSize]
    && a[mid..mid + ChunkSize] == b[mid..mid + ChunkSize]
    && a[size - ChunkSize..] == b[size - ChunkSize..]
  }

  /** Two large contents of the same size that agree on the three windows
      get the same fingerprint, whatever they hold elsewhere. */
  lemma SameSamplesSameDigest(a: seq<Byte>, b: seq<Byte>, sha1: Hasher)
    requires |a| == |b| > LargeFileThreshold
    requires SameSamples(a, b)
    ensures CalculateSha1(a, sha1) == CalculateSha1(b, sha1)
  {
    assert Sampled(a) == Sampled(b);
  }

  /** So some distinct contents always share a fingerprint, whichever hash
      function is used: one byte just past the first window is not read. */
  lemma BlindSpot(sha1: Hasher)
    ensures exists a: seq<Byte>, b: seq<Byte> :: a != b && CalculateSha1(a, sha1) == CalculateSha1(b, sha1)
  {
    var size := LargeFileThreshold + 2;
    var a: seq<Byte> := seq(size, k => 0);
    var b := a[ChunkSize := 1];
    var mid := MidStart(size);
    assert a[ChunkSize] != b[ChunkSize];
    assert a[..ChunkSize] == b[..ChunkSize];
    assert a[mid..mid + ChunkSize] == b[mid..mid + ChunkSize];
    assert a[size - ChunkSize..] == b[size - ChunkSize..];
    SameSamplesSameDigest(a, b, sha1);
  }
}
