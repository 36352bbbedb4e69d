/**
  Fixed-size windowing of a file's content, as done by both revisions of
  process_and_upload_file: `for i in range(0, len(content), chunk_size)`
  visits the offsets 0, n, 2n, ... below the length, and each window is the
  slice `content[i:i + n]`, which Python clamps to the end of the content.
  Here that is stated as "the first window, then the windows of what follows
  it". The element type is generic so that one definition serves the
  character windows of the text revision and the byte windows of the binary
  revision.
*/
module Chunking {

  function Min(a: int, b: int): int {
    if a <= b then a else b
  }

  /** Number of offsets `range(0, length, size)` visits: the ceiling of length / size. */
  function WindowCount(length: nat, size: nat): (k: nat)
    requires size > 0
    ensures length <= k * size
    ensures k > 0 ==> (k - 1) * size < length
    ensures k == 0 <==> length == 0
  {
    var q := (length + size - 1) / size;
    var r := (length + size - 1) % size;
    assert length + size - 1 == q * size + r;
    assert q * size == length + size - 1 - r;
    assert q > 0 ==> (q - 1) * size == q * size - size;
    q
  }

  /** The windows the chunking loop visits, in creation order. */
  function Chunk<T>(content: seq<T>, size: nat): (chunks: seq<seq<T>>)
    requires size > 0
    ensures chunks == [] <==> content == []
    decreases |content|
  {
    if content == [] then []
    else
      var cut := Min(size, |content|);
      [content[..cut]] + Chunk(content[cut..], size)
  }

  /** The concatenation of a sequence of chunks, in order. */
  function Concat<T>(chunks: seq<seq<T>>): seq<T> {
    if chunks == [] then [] else chunks[0] + Concat(chunks[1..])
  }

  /** Every chunk is non-empty and at most `size` long; every chunk but the last is exactly `size` long. */
  lemma {:induction false} ChunkSizes<T>(content: seq<T>, size: nat)
    requires size > 0
    ensures content == [] <==> Chunk(content, size) == []
    ensures forall k :: 0 <= k < |Chunk(content, size)| ==> 0 < |Chunk(content, size)[k]| <= size
    ensures forall k :: 0 <= k < |Chunk(content, size)| - 1 ==> |Chunk(content, size)[k]| == size
  {
    if content != [] {
      var cut := Min(size, |content|);
      var chunks, rest := Chunk(content, size), Chunk(content[cut..], size);
      ChunkSizes(content[cut..], size);
      assert chunks == [content[..cut]] + rest;
      forall k | 0 <= k < |chunks|
        ensures 0 < |chunks[k]| <= size
        ensures k < |chunks| - 1 ==> |chunks[k]| == size
      {
        if k > 0 {
          assert chunks[k] == rest[k - 1];
        } else if |chunks| > 1 {
          assert cut < |content|;
        }
      }
    }
  }

  /** Concatenating the chunks in creation order gives back the content exactly. */
  lemma {:induction false} ChunkReconstructs<T>(content: seq<T>, size: nat)
    requires size > 0
    ensures Concat(Chunk(content, size)) == content
  {
    if content != [] {
      var cut := Min(size, |content|);
      var chunks := Chunk(content, size);
      ChunkReconstructs(content[cut..], size);
      assert chunks[0] == content[..cut] && chunks[1..] == Chunk(content[cut..], size);
      assert content[..cut] + content[cut..] == content;
    }
  }

  /** The window at `lo` of `content[size..]` is the window at `lo + size` of `content`. */
  lemma WindowShift<T>(content: seq<T>, size: nat, lo: nat, off: nat)
    requires size <= |content| && lo + size == off && lo < |content| - size
    ensures content[size..][lo..Min(lo + size, |content| - size)] == content[off..Min(off + size, |content|)]
  {
  }

  lemma MulPred(k: nat, size: nat)
    requires k > 0
    ensures (k - 1) * size + size == k * size
  {
  }

  lemma MulMonotonic(a: nat, b: nat, c: nat)
    requires a <= b
    ensures a * c <= b * c
  {
  }

  /** A count that meets the ceiling's two bounds is the ceiling. */
  lemma WindowCountUnique(length: nat, size: nat, k: nat)
    requires size > 0
    requires length <= k * size
    requires k > 0 ==> (k - 1) * size < length
    ensures k == WindowCount(length, size)
  {
    var w := WindowCount(length, size);
    if k < w {
      MulMonotonic(k, w - 1, size);
    } else if w < k {
      MulMonotonic(w, k - 1, size);
    }
  }

  /** There are ceil(|content| / size) chunks, one per offset the loop visits. */
  lemma {:induction false} ChunkCount<T>(content: seq<T>, size: nat)
    requires size > 0
    ensures |Chunk(content, size)| == WindowCount(|content|, size)
  {
    if content != [] {
      var cut := Min(size, |content|);
      var rest := content[cut..];
      ChunkCount(rest, size);
      var c := |Chunk(content, size)|;
      assert c == |Chunk(rest, size)| + 1;
      MulPred(c, size);
      if rest != [] {
        MulPred(c - 1, size);
      }
      WindowCountUnique(|content|, size, c);
    }
  }

  /**
    The k-th chunk is the slice `content[k * size : k * size + size]` the
    loop takes at the k-th offset it visits, clamped to the end of the content.
  */
  lemma {:induction false} ChunkAt<T>(content: seq<T>, size: nat, k: nat)
    requires size > 0
    requires k < |Chunk(content, size)|
    ensures k * size < |content|
    ensures Chunk(content, size)[k] == content[k * size..Min(k * size + size, |content|)]
  {
    var cut := Min(size, |content|);
    var rest := content[cut..];
    if k == 0 {
      assert Chunk(content, size)[0] == content[..cut];
    } else {
      assert Chunk(content, size)[k] == Chunk(rest, size)[k - 1];
      ChunkAt(rest, size, k - 1);
      MulPred(k, size);
      WindowShift(content, size, (k - 1) * size, k * size);
    }
  }
}
