/** `batched_iterable`: cut a sequence into consecutive batches of `size`
    elements, the last one possibly shorter. The generator is modelled as
    the sequence of all batches it yields. */
module Batching {

  /** The batches joined back together, in order. */
  function Concat<T>(batches: seq<seq<T>>): (r: seq<T>)
  {
    if batches == [] then [] else batches[0] + Concat(batches[1..])
  }

  /** `batches` is a batching of `s` into batches of `size`: every batch is
      non-empty and at most `size` long, all but the last are exactly `size`
      long, and together they are `s`. */
  ghost predicate IsBatching<T>(batches: seq<seq<T>>, s: seq<T>, size: nat)
  {
    && Concat(batches) == s
    && (forall i | 0 <= i < |batches| :: 0 < |batches[i]| <= size)
    && (forall i | 0 <= i < |batches| - 1 :: |batches[i]| == size)
  }

  /** Joining one more batch appends it to the joined sequence. */
  lemma {:induction false} ConcatAppend<T>(batches: seq<seq<T>>, b: seq<T>)
    ensures Concat(batches + [b]) == Concat(batches) + b
  {
    if batches != [] {
      assert (batches + [b])[1..] == batches[1..] + [b];
      ConcatAppend(batches[1..], b);
    } else {
      assert Concat([b]) == b + Concat([]);
    }
  }

  /** `k` batches, all full except the last, hold more than `(k - 1) * size`
      and at most `k * size` elements. */
  lemma {:induction false} ConcatLength<T>(batches: seq<seq<T>>, size: nat)
    requires size >= 1
    requires forall i | 0 <= i < |batches| :: 0 < |batches[i]| <= size
    requires forall i | 0 <= i < |batches| - 1 :: |batches[i]| == size
    ensures (|batches| - 1) * size < |Concat(batches)| <= |batches| * size
  {
    if batches != [] {
      var n := |batches| - 1;
      var m := |Concat(batches[1..])|;
      ConcatLength(batches[1..], size);
      assert |Concat(batches)| == |batches[0]| + m;
      assert n * size + size == |batches| * size;
      if n > 0 {
        assert |batches[0]| == size;
        assert (n - 1) * size + size == n * size;
      } else {
        assert m == 0;
      }
    }
  }

  /** A non-zero multiple of `size` is at least `size` away from zero. */
  lemma MulAwayFromZero(d: int, size: nat)
    ensures d >= 1 ==> d * size >= size
    ensures d <= -1 ==> d * size <= -(size as int)
  {
    if d >= 1 {
      assert d * size == size + (d - 1) * size;
    } else if d <= -1 {
      assert d * size == -(size as int) + (d + 1) * size;
    }
  }

  /** `n` elements in batches of `size` with `(k - 1) * size < n <= k * size`
      make `k` batches: the ceiling of `n / size`. */
  lemma CeilDiv(n: nat, size: nat, k: nat)
    requires size >= 1
    requires (k - 1) * size < n <= k * size
    ensures k == (n + size - 1) / size
  {
    var x := n + size - 1;
    var q, r := x / size, x % size;
    assert x == q * size + r && 0 <= r < size;
    assert (k - 1) * size == k * size - size;
    var d := q - k;
    assert d * size == q * size - k * size;
    MulAwayFromZero(d, size);
  }

  /** `batched_iterable(s, size)`: take up to `size` elements at a time and
      stop at the first empty batch. */
  method BatchedIterable<T>(s: seq<T>, size: nat) returns (batches: seq<seq<T>>)
    requires size >= 1
    ensures Concat(batches) == s
    ensures forall i | 0 <= i < |batches| :: 0 < |batches[i]| <= size
    ensures forall i | 0 <= i < |batches| - 1 :: |batches[i]| == size
    ensures |batches| == (|s| + size - 1) / size
  {
    batches := [];
    var i := 0;
    while true
      invariant 0 <= i <= |s|
      invariant Concat(batches) == s[..i]
      invariant forall j | 0 <= j < |batches| :: 0 < |batches[j]| <= size
      invariant forall j | 0 <= j < |batches| - 1 :: |batches[j]| == size
      invariant i < |s| ==> forall j | 0 <= j < |batches| :: |batches[j]| == size
      decreases |s| - i
    {
      var batch := s[i..if i + size <= |s| then i + size else |s|];
      if batch == [] {
        break;
      }
      ConcatAppend(batches, batch);
      assert s[..i] + batch == s[..i + |batch|];
      batches := batches + [batch];
      i := i + |batch|;
    }
    assert s[..i] == s;
    ConcatLength(batches, size);
    CeilDiv(|s|, size, |batches|);
  }

  /** The batching of a sequence is unique: any sequence of batches with the
      properties `BatchedIterable` promises is the one it returns. */
  lemma {:induction false} BatchingUnique<T>(b1: seq<seq<T>>, b2: seq<seq<T>>, s: seq<T>, size: nat)
    requires size >= 1
    requires IsBatching(b1, s, size) && IsBatching(b2, s, size)
    ensures b1 == b2
    decreases |s|
  {
    if b1 != [] && b2 != [] {
      var first := if |s| <= size then s else s[..size];
      FirstBatch(b1, s, size);
      FirstBatch(b2, s, size);
      assert IsBatching(b1[1..], s[|first|..], size);
      assert IsBatching(b2[1..], s[|first|..], size);
      BatchingUnique(b1[1..], b2[1..], s[|first|..], size);
      assert b1 == [b1[0]] + b1[1..];
      assert b2 == [b2[0]] + b2[1..];
    }
  }

  /** The first batch is the first `size` elements, or all of `s` when it is
      shorter. */
  lemma FirstBatch<T>(batches: seq<seq<T>>, s: seq<T>, size: nat)
    requires size >= 1 && batches != []
    requires IsBatching(batches, s, size)
    ensures batches[0] == if |s| <= size then s else s[..size]
    ensures Concat(batches[1..]) == s[|batches[0]|..]
  {
    assert s == batches[0] + Concat(batches[1..]);
    if |batches| > 1 {
      assert |batches[0]| == size;
      assert |Concat(batches[1..])| > 0 by {
        assert batches[1..][0] == batches[1];
      }
    }
  }
}
