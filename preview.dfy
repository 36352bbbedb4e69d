/**
  How extracted text and stored chunks are shown back to the user: the
  truncation `s[:n] + "..." if len(s) > n else s` with n = 1000 for the
  extracted content, 100 for a chunk preview and 200 for decoded chunk
  content; and the reading of a stored hex chunk, which falls back to a
  "Binary content: " line when `bytes.fromhex` rejects it.
*/
module Preview {
  import opened Hex
  import Chunking

  const ExtractedContentLimit: nat := 1000
  const ChunkPreviewLimit: nat := 100
  const DecodedContentLimit: nat := 200
  const FallbackPrefixLimit: nat := 100

  /** `s[:limit] + "..." if len(s) > limit else s`. */
  function Truncate(s: string, limit: nat): (shown: string)
    ensures |shown| <= limit + 3
    ensures |shown| <= |s| + 3
  {
    if |s| > limit then s[..limit] + "..." else s
  }

  /**
    A string within the limit is shown unchanged; a longer one is cut to its
    first `limit` characters and marked with "...", so a preview is never
    more than three characters over the limit.
  */
  lemma TruncateBounded(s: string, limit: nat)
    ensures |s| <= limit ==> Truncate(s, limit) == s
    ensures |s| > limit ==> Truncate(s, limit)[limit..] == "..."
    ensures |Truncate(s, limit)| <= limit + 3
    ensures |Truncate(s, limit)| >= Chunking.Min(|s|, limit)
    ensures Truncate(s, limit)[..Chunking.Min(|s|, limit)] == s[..Chunking.Min(|s|, limit)]
  {
  }

  /** Truncating a preview again with the same limit changes nothing. */
  lemma TruncateIdempotent(s: string, limit: nat)
    ensures Truncate(Truncate(s, limit), limit) == Truncate(s, limit)
  {
  }

  /** The line shown for a chunk that is not valid hex: `f"Binary content: {chunk[:100]}..."`. */
  function BinaryFallback(chunk: string): (line: string)
    ensures 16 + 3 <= |line| <= 16 + FallbackPrefixLimit + 3
    ensures line[..16] == "Binary content: "
  {
    "Binary content: " + chunk[..Chunking.Min(FallbackPrefixLimit, |chunk|)] + "..."
  }

  /**
    `bytes.fromhex(chunk).decode('utf-8', errors='ignore')`, or the binary
    fallback line when the chunk is not hex. The UTF-8 decoder is a parameter.
  */
  function DecodeChunk(chunk: string, utf8: seq<byte> -> string): (shown: string)
    ensures IsLowerHex(chunk) && |chunk| % 2 == 0 ==> FromHex(chunk).Some? && shown == utf8(FromHex(chunk).value)
    ensures IsLowerHex(chunk) && |chunk| % 2 == 1 ==> shown == BinaryFallback(chunk)
  {
    LowerHexDecodesIffEven(chunk);
    match FromHex(chunk)
    case Some(bytes) => utf8(bytes)
    case None => BinaryFallback(chunk)
  }

  /**
    The search results truncate every decoded chunk to 200 characters; the
    fallback line is at most 119 characters, so it is shown whole there too,
    just as the upload view shows it.
  */
  lemma FallbackShownWhole(chunk: string)
    ensures Truncate(BinaryFallback(chunk), DecodedContentLimit) == BinaryFallback(chunk)
  {
  }

  /**
    The three previews the upload and search views show: the extracted text
    cut at 1000 characters, a stored chunk at 100 and a decoded chunk at
    200, each at most three characters longer than its limit.
  */
  lemma PreviewLimits(content: string, chunk: string, decoded: string)
    ensures |Truncate(content, ExtractedContentLimit)| <= 1003
    ensures |Truncate(chunk, ChunkPreviewLimit)| <= 103
    ensures |Truncate(decoded, DecodedContentLimit)| <= 203
  {
  }

  /** A chunk written as `bytes.hex()` is always decoded, never shown through the fallback. */
  lemma DecodeWrittenChunk(window: seq<byte>, utf8: seq<byte> -> string)
    ensures DecodeChunk(ToHex(window), utf8) == utf8(window)
  {
    FromHexToHex(window);
  }
}
