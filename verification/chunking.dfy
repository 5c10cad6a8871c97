/**
 Fixed-size chunking of chat messages: the shared definition behind every
 copy of `split_message`.
 */
module Chunking {
  import opened Outcomes

  /** The chat transport's message-size limit, `split_message`'s default `max_length`. */
  const DefaultMaxLength: int := 4096

  function Concat(chunks: seq<string>): string
    decreases |chunks|
  {
    if |chunks| == 0 then "" else chunks[0] + Concat(chunks[1..])
  }

  function Min(a: int, b: int): int {
    if a <= b then a else b
  }

  /**
   `[text[i:i+n] for i in range(0, len(text), n)]` for `n > 0`: no chunk is
   empty or longer than `n`, and every chunk but the last is exactly `n` long.
   */
  function Chunks(text: string, n: int): (chunks: seq<string>)
    requires n > 0
    ensures forall k :: 0 <= k < |chunks| ==> 0 < |chunks[k]| <= n
    ensures forall k :: 0 <= k < |chunks| - 1 ==> |chunks[k]| == n
    decreases |text|
  {
    if |text| == 0 then []
    else if |text| <= n then [text]
    else
      [text[..n]] + Chunks(text[n..], n)
  }

  /** The chunks concatenate back to exactly the input text. */
  lemma {:induction false} ChunksConcat(text: string, n: int)
    requires n > 0
    ensures Concat(Chunks(text, n)) == text
    decreases |text|
  {
    if |text| > n {
      ChunksConcat(text[n..], n);
      assert text == text[..n] + text[n..];
    }
  }

  /**
   There are ceil(len/n) chunks: the least count `c` with `len <= c * n`.
   */
  lemma {:induction false} ChunksCount(text: string, n: int)
    requires n > 0
    ensures |text| <= |Chunks(text, n)| * n
    ensures |Chunks(text, n)| > 0 ==> (|Chunks(text, n)| - 1) * n < |text|
    decreases |text|
  {
    if |text| > n {
      var c := |Chunks(text[n..], n)|;
      ChunksCount(text[n..], n);
      assert (c + 1) * n == c * n + n;
    }
  }

  lemma SliceOfSuffix(text: string, n: nat, a: nat, b: nat)
    requires n <= |text| && a <= b <= |text| - n
    ensures text[n..][a..b] == text[n + a..n + b]
  {
  }

  /** Chunk `k` is `text[i:i+n]` for the `k`-th value `i` of `range(0, len(text), n)`. */
  predicate ChunkIsRangeSlice(text: string, n: int, k: nat)
    requires n > 0 && k < |Chunks(text, n)|
  {
    0 <= k * n < |text| &&
    Chunks(text, n)[k] == text[k * n..Min(k * n + n, |text|)]
  }

  lemma {:induction false} ChunkIsSlice(text: string, n: int, k: nat)
    requires n > 0 && k < |Chunks(text, n)|
    ensures ChunkIsRangeSlice(text, n, k)
    decreases k
  {
    if k > 0 {
      assert |text| > n;
      var rest := text[n..];
      assert Chunks(text, n)[k] == Chunks(rest, n)[k - 1];
      ChunkIsSlice(rest, n, k - 1);
      var m := (k - 1) * n;
      assert m + n == k * n;
      var e := Min(m + n, |rest|);
      assert e + n == Min(k * n + n, |text|);
      SliceOfSuffix(text, n, m, e);
    }
  }

  /**
   Every chunk is the slice the Python comprehension takes at the
   corresponding value of `range(0, len(text), n)`.
   */
  lemma ChunksAreSlices(text: string, n: int)
    requires n > 0
    ensures forall k: nat :: k < |Chunks(text, n)| ==> ChunkIsRangeSlice(text, n, k)
  {
    forall k: nat | k < |Chunks(text, n)|
      ensures ChunkIsRangeSlice(text, n, k)
    {
      ChunkIsSlice(text, n, k);
    }
  }

  /**
   `split_message(text, max_length)`: a zero step makes `range` raise
   ValueError, a negative step yields no chunks, a positive one chunks the text.
   */
  function SplitMessage(text: string, maxLength: int): (r: Result<seq<string>>)
    ensures maxLength == 0 <==> r.Failure?
    ensures r.Success? && maxLength > 0 ==> Concat(r.value) == text
    ensures r.Success? ==> forall k :: 0 <= k < |r.value| ==> 0 < |r.value[k]| <= maxLength
    ensures r.Success? ==> forall k :: 0 <= k < |r.value| - 1 ==> |r.value[k]| == maxLength
    ensures maxLength > 0 ==> |text| <= |r.value| * maxLength
    ensures maxLength > 0 && |r.value| > 0 ==> (|r.value| - 1) * maxLength < |text|
    ensures r.Success? && text == "" ==> r.value == []
  {
    if maxLength == 0 then Failure(ValueError)
    else if maxLength < 0 then Success([])
    else
      ChunksConcat(text, maxLength);
      ChunksCount(text, maxLength);
      Success(Chunks(text, maxLength))
  }
}
