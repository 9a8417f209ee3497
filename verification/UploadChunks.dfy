/** Splitting a bundle for upload (packages/test-sentry/src/sourcemaps.ts). */
module UploadChunks {
  import opened Wrappers

  /** Full chunks, then a shorter one if anything is left. */
  ghost predicate Chunked(chunks: seq<seq<byte>>, chunkSize: nat) {
    && (forall k | 0 <= k < |chunks| :: 0 < |chunks[k]| <= chunkSize)
    && (forall k | 0 <= k < |chunks| - 1 :: |chunks[k]| == chunkSize)
  }

  lemma NoChunks(chunks: seq<seq<byte>>, chunkSize: nat)
    requires Chunked(chunks, chunkSize)
    ensures Flatten(chunks) == [] <==> chunks == []
  {
    if chunks != [] { assert |Flatten(chunks)| >= |chunks[0]|; }
  }

  /** There is one way to cut a bundle like that: a receiver that joins the chunks and cuts
      again gets the same chunks. */
  lemma {:induction false} ChunkingUnique(a: seq<seq<byte>>, b: seq<seq<byte>>, chunkSize: nat)
    requires Chunked(a, chunkSize) && Chunked(b, chunkSize) && Flatten(a) == Flatten(b)
    ensures a == b
    decreases |a|
  {
    NoChunks(a, chunkSize);
    NoChunks(b, chunkSize);
    if a != [] {
      FirstChunk(a, chunkSize);
      FirstChunk(b, chunkSize);
      assert |a[0]| == |b[0]|;
      assert a[0] == Flatten(a)[..|a[0]|] && b[0] == Flatten(b)[..|b[0]|];
      assert Flatten(a[1..]) == Flatten(a)[|a[0]|..] && Flatten(b[1..]) == Flatten(b)[|b[0]|..];
      ChunkedTail(a, chunkSize);
      ChunkedTail(b, chunkSize);
      ChunkingUnique(a[1..], b[1..], chunkSize);
      assert a == [a[0]] + a[1..] && b == [b[0]] + b[1..];
    }
  }

  lemma FirstChunk(chunks: seq<seq<byte>>, chunkSize: nat)
    requires Chunked(chunks, chunkSize) && chunks != []
    ensures |chunks[0]| == if |Flatten(chunks)| < chunkSize then |Flatten(chunks)| else chunkSize
  {
    if |chunks| == 1 {
      assert chunks[1..] == [];
      assert Flatten(chunks) == chunks[0] + Flatten(chunks[1..]);
    }
  }

  lemma ChunkedTail(chunks: seq<seq<byte>>, chunkSize: nat)
    requires Chunked(chunks, chunkSize) && chunks != []
    ensures Chunked(chunks[1..], chunkSize)
  {
    forall k | 0 <= k < |chunks[1..]| ensures chunks[1..][k] == chunks[k + 1] {
    }
  }

  /** Where the loop stands after so many turns. */
  function Offset(chunkSize: nat, turns: nat): nat {
    if turns == 0 then 0 else Offset(chunkSize, turns - 1) + chunkSize
  }

  lemma {:induction false} NoProgress(chunkSize: nat, turns: nat)
    requires chunkSize == 0
    ensures Offset(chunkSize, turns) == 0
  {
    if turns > 0 { NoProgress(chunkSize, turns - 1); }
  }

  lemma {:induction false} Progress(chunkSize: nat, turns: nat)
    requires chunkSize > 0
    ensures Offset(chunkSize, turns) >= turns
  {
    if turns > 0 { Progress(chunkSize, turns - 1); }
  }

  /** The loop reaches the end of the bundle exactly when chunks have a size, or there is
      nothing to cut. */
  lemma EndsExactly(length: nat, chunkSize: nat)
    ensures (exists turns :: Offset(chunkSize, turns) >= length) <==> chunkSize > 0 || length == 0
  {
    if chunkSize > 0 {
      Progress(chunkSize, length);
    } else if length == 0 {
      NoProgress(chunkSize, 0);
    } else {
      forall turns: nat ensures Offset(chunkSize, turns) == 0 { NoProgress(chunkSize, turns); }
    }
  }

  /** The loop, on the inputs on which it ends. */
  method Split(bundle: seq<byte>, chunkSize: nat) returns (chunks: seq<seq<byte>>)
    requires chunkSize > 0 || bundle == []
    ensures Flatten(chunks) == bundle
    ensures Chunked(chunks, chunkSize)
    ensures Offset(chunkSize, |chunks|) >= |bundle|
    ensures chunks != [] ==> Offset(chunkSize, |chunks| - 1) < |bundle|
  {
    chunks := [];
    var i := 0;
    ghost var done: nat := 0;
    while i < |bundle|
      invariant i == Offset(chunkSize, |chunks|)
      invariant chunks != [] ==> Offset(chunkSize, |chunks| - 1) < |bundle|
      invariant done == if i < |bundle| then i else |bundle|
      invariant Flatten(chunks) == bundle[..done]
      invariant Chunked(chunks, chunkSize)
      invariant i < |bundle| ==> forall k | 0 <= k < |chunks| :: |chunks[k]| == chunkSize
      decreases |bundle| - i
    {
      var end := if i + chunkSize < |bundle| then i + chunkSize else |bundle|;
      FlattenSnoc(chunks, bundle[i..end]);
      assert bundle[..i] + bundle[i..end] == bundle[..end];
      chunks := chunks + [bundle[i..end]];
      done := end;
      i := i + chunkSize;
    }
    assert bundle[..|bundle|] == bundle;
  }
}
