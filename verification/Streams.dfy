/** What a run of `Read` calls delivers, whatever the sizes of the slices they were given. */
module Streams {
  import opened Bytes

  function Flatten(chunks: seq<bytes>): bytes {
    if chunks == [] then [] else chunks[0] + Flatten(chunks[1..])
  }

  lemma {:induction false} FlattenAppend(chunks: seq<bytes>, c: bytes)
    ensures Flatten(chunks + [c]) == Flatten(chunks) + c
  {
    if chunks == [] {
      assert [c][1..] == [] && c + [] == c && [] + c == c;
    } else {
      assert (chunks + [c])[0] == chunks[0] && (chunks + [c])[1..] == chunks[1..] + [c];
      FlattenAppend(chunks[1..], c);
      Assoc(chunks[0], Flatten(chunks[1..]), c);
    }
  }

  lemma FlattenNext(chunks: seq<bytes>, k: nat)
    requires k < |chunks|
    ensures Flatten(chunks[..k + 1]) == Flatten(chunks[..k]) + chunks[k]
  {
    assert chunks[..k + 1] == chunks[..k] + [chunks[k]];
    FlattenAppend(chunks[..k], chunks[k]);
  }

  /** The room in the first `n` slices. */
  function Room(sizes: seq<nat>, n: nat): nat
    requires n <= |sizes|
  {
    if n == 0 then 0 else Room(sizes, n - 1) + sizes[n - 1]
  }

  /** How many of the first `n` slices are not empty. */
  function NonEmpty(sizes: seq<nat>, n: nat): nat
    requires n <= |sizes|
  {
    if n == 0 then 0 else NonEmpty(sizes, n - 1) + if sizes[n - 1] > 0 then 1 else 0
  }

  // ---------- machines that take one byte at a time ----------

  /** The state of a machine after the first `n` bytes of its input. */
  function Fold<S>(step: (S, byte) -> S, s: S, p: bytes, n: nat): S
    requires n <= |p|
  {
    if n == 0 then s else step(Fold(step, s, p, n - 1), p[n - 1])
  }

  lemma {:induction false} FoldPrefix<S>(step: (S, byte) -> S, s: S, p: bytes, q: bytes, n: nat)
    requires p <= q && n <= |p|
    ensures Fold(step, s, p, n) == Fold(step, s, q, n)
  {
    if n > 0 {
      FoldPrefix(step, s, p, q, n - 1);
    }
  }

  /** Feeding an input in two pieces is feeding it at once. */
  lemma {:induction false} FoldConcat<S>(step: (S, byte) -> S, s: S, p: bytes, q: bytes, n: nat)
    requires n <= |q|
    ensures Fold(step, s, p + q, |p| + n) == Fold(step, Fold(step, s, p, |p|), q, n)
  {
    if n == 0 {
      FoldPrefix(step, s, p, p + q, |p|);
    } else {
      FoldConcat(step, s, p, q, n - 1);
    }
  }

  /** A batch taken out of the middle of the input. */
  lemma {:induction false} FoldBatch<S>(step: (S, byte) -> S, s: S, p: bytes, n: nat, k: nat, m: nat)
    requires n <= k <= |p| && m <= k - n
    ensures Fold(step, Fold(step, s, p, n), p[n..k], m) == Fold(step, s, p, n + m)
  {
    if m > 0 {
      FoldBatch(step, s, p, n, k, m - 1);
    }
  }
}
