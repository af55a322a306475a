/** First-wins removal of duplicates under a key, the scheme behind `dedupeByUrlAndTitle` and the
    `Set`-based de-duplication of the host patterns. */
module Dedupe {

  /** The keys of the elements of `xs`. */
  function Keys<T, K(==)>(xs: seq<T>, key: T -> K): set<K> {
    set i | 0 <= i < |xs| :: key(xs[i])
  }

  /** The keys of a sequence grown by one element. */
  lemma KeysSnoc<T, K>(xs: seq<T>, x: T, key: T -> K)
    ensures Keys(xs + [x], key) == Keys(xs, key) + {key(x)}
  {
    var l, r := Keys(xs + [x], key), Keys(xs, key) + {key(x)};
    forall k | k in r ensures k in l {
      if k == key(x) {
        assert key((xs + [x])[|xs|]) == k;
      } else {
        var i :| 0 <= i < |xs| && key(xs[i]) == k;
        assert key((xs + [x])[i]) == k;
      }
    }
  }

  /** Keeps every element whose key does not occur earlier in `xs`, in order. */
  function DedupeBy<T, K(==)>(xs: seq<T>, key: T -> K): seq<T>
    decreases |xs|
  {
    if |xs| == 0 then []
    else
      var init := xs[..|xs| - 1];
      var last := xs[|xs| - 1];
      DedupeBy(init, key) + (if key(last) in Keys(init, key) then [] else [last])
  }

  /** `xs[i]` is the first element of `xs` carrying its key. */
  predicate IsFirst<T, K(==)>(xs: seq<T>, key: T -> K, i: nat)
    requires i < |xs|
  {
    forall j :: 0 <= j < i ==> key(xs[j]) != key(xs[i])
  }

  /** The indices below `n` that hold the first element with their key, in increasing order. */
  function FirstIndices<T, K(==)>(xs: seq<T>, key: T -> K, n: nat): (r: seq<nat>)
    requires n <= |xs|
    ensures forall k :: 0 <= k < |r| ==> r[k] < n
  {
    if n == 0 then []
    else FirstIndices(xs, key, n - 1) + (if IsFirst(xs, key, n - 1) then [n - 1] else [])
  }

  /** The first indices are strictly increasing and are exactly the indices where `IsFirst` holds. */
  lemma {:induction false} FirstIndicesSpec<T, K>(xs: seq<T>, key: T -> K, n: nat)
    requires n <= |xs|
    ensures forall a, b :: 0 <= a < b < |FirstIndices(xs, key, n)| ==>
              FirstIndices(xs, key, n)[a] < FirstIndices(xs, key, n)[b]
    ensures forall i :: 0 <= i < n ==> (i in FirstIndices(xs, key, n) <==> IsFirst(xs, key, i))
  {
    if n > 0 {
      FirstIndicesSpec(xs, key, n - 1);
    }
  }

  /** Whether an index is a first occurrence depends only on the elements up to it. */
  lemma FirstIndicesPrefix<T, K>(xs: seq<T>, key: T -> K, n: nat)
    requires n < |xs|
    ensures FirstIndices(xs[..n], key, n) == FirstIndices(xs, key, n)
    decreases n
  {
    if n > 0 {
      FirstIndicesPrefix(xs[..n], key, n - 1);
      FirstIndicesPrefix(xs, key, n - 1);
      assert xs[..n][..n - 1] == xs[..n - 1];
      assert IsFirst(xs[..n], key, n - 1) == IsFirst(xs, key, n - 1);
    }
  }

  /** `r` is `xs` with every element dropped whose key occurs earlier: the elements at the
      first-occurrence indices, in their input order (see `FirstIndicesSpec`). */
  ghost predicate FirstOccurrences<T, K>(r: seq<T>, xs: seq<T>, key: T -> K) {
    var f := FirstIndices(xs, key, |xs|);
    |r| == |f| && forall k :: 0 <= k < |r| ==> r[k] == xs[f[k]]
  }

  /** The de-duplicated sequence is exactly the elements at the first-occurrence indices, and its
      keys are the keys of the input. */
  lemma {:induction false} DedupeSpec<T, K>(xs: seq<T>, key: T -> K)
    ensures |DedupeBy(xs, key)| == |FirstIndices(xs, key, |xs|)|
    ensures forall k :: 0 <= k < |DedupeBy(xs, key)| ==>
              DedupeBy(xs, key)[k] == xs[FirstIndices(xs, key, |xs|)[k]]
    ensures Keys(DedupeBy(xs, key), key) == Keys(xs, key)
    decreases |xs|
  {
    if |xs| > 0 {
      var n := |xs| - 1;
      var init, last := xs[..n], xs[n];
      assert xs == init + [last];
      DedupeSpec(init, key);
      FirstIndicesPrefix(xs, key, n);
      KeysSnoc(init, last, key);
      var d := DedupeBy(init, key);
      if key(last) !in Keys(init, key) {
        KeysSnoc(d, last, key);
        assert IsFirst(xs, key, n) by {
          forall j | 0 <= j < n ensures key(xs[j]) != key(xs[n]) {
            assert key(init[j]) in Keys(init, key);
          }
        }
      } else {
        var j :| 0 <= j < n && key(init[j]) == key(last);
        assert xs[j] == init[j];
        assert !IsFirst(xs, key, n);
        assert DedupeBy(xs, key) == d;
      }
    }
  }

  /** No two elements of the result share a key. */
  predicate DistinctKeys<T, K(==)>(xs: seq<T>, key: T -> K) {
    forall a, b :: 0 <= a < b < |xs| ==> key(xs[a]) != key(xs[b])
  }

  /** The result has distinct keys, and each of its elements is the first input element with that
      key. */
  lemma DedupeDistinct<T, K>(xs: seq<T>, key: T -> K)
    ensures DistinctKeys(DedupeBy(xs, key), key)
    ensures forall k :: 0 <= k < |DedupeBy(xs, key)| ==>
              exists i :: 0 <= i < |xs| && IsFirst(xs, key, i) && DedupeBy(xs, key)[k] == xs[i]
  {
    DedupeSpec(xs, key);
    FirstIndicesSpec(xs, key, |xs|);
    var r, f := DedupeBy(xs, key), FirstIndices(xs, key, |xs|);
    forall a, b | 0 <= a < b < |r| ensures key(r[a]) != key(r[b]) {
      assert f[a] < f[b] && f[b] in f;
    }
    forall k | 0 <= k < |r|
      ensures exists i :: 0 <= i < |xs| && IsFirst(xs, key, i) && r[k] == xs[i]
    {
      assert f[k] in f;
    }
  }

  /** Every kept element comes from the input, and every input key is represented in the result. */
  lemma DedupeMembers<T, K>(xs: seq<T>, key: T -> K)
    ensures forall y :: y in DedupeBy(xs, key) ==> y in xs
    ensures forall i :: 0 <= i < |xs| ==> key(xs[i]) in Keys(DedupeBy(xs, key), key)
  {
    DedupeDistinct(xs, key);
    DedupeSpec(xs, key);
    forall i | 0 <= i < |xs| ensures key(xs[i]) in Keys(DedupeBy(xs, key), key) {
      assert key(xs[i]) in Keys(xs, key);
    }
  }

  lemma {:induction false} DedupeShorter<T, K>(xs: seq<T>, key: T -> K)
    ensures |DedupeBy(xs, key)| <= |xs|
    decreases |xs|
  {
    if |xs| > 0 {
      DedupeShorter(xs[..|xs| - 1], key);
    }
  }

  /** A sequence whose keys are already distinct is left unchanged. */
  lemma {:induction false} DedupeDistinctNoop<T, K>(xs: seq<T>, key: T -> K)
    requires DistinctKeys(xs, key)
    ensures DedupeBy(xs, key) == xs
    decreases |xs|
  {
    if |xs| > 0 {
      var n := |xs| - 1;
      var init := xs[..n];
      assert DistinctKeys(init, key) by {
        forall a, b | 0 <= a < b < n ensures key(init[a]) != key(init[b]) {
          assert init[a] == xs[a] && init[b] == xs[b];
        }
      }
      DedupeDistinctNoop(init, key);
      forall i | 0 <= i < n ensures key(init[i]) != key(xs[n]) {
        assert init[i] == xs[i];
      }
      assert key(xs[n]) !in Keys(init, key);
      assert DedupeBy(xs, key) == init + [xs[n]];
      assert xs == init + [xs[n]];
    }
  }

  /** De-duplicating twice is de-duplicating once. */
  lemma DedupeIdempotent<T, K>(xs: seq<T>, key: T -> K)
    ensures DedupeBy(DedupeBy(xs, key), key) == DedupeBy(xs, key)
  {
    DedupeDistinct(xs, key);
    DedupeDistinctNoop(DedupeBy(xs, key), key);
  }

  /** The source's loop: a set of keys already seen, and an output that receives each element whose
      key is new. */
  method DedupeLoop<T, K(==)>(xs: seq<T>, key: T -> K) returns (results: seq<T>)
    ensures results == DedupeBy(xs, key)
  {
    var seen: set<K> := {};
    results := [];
    for i := 0 to |xs|
      invariant seen == Keys(xs[..i], key)
      invariant results == DedupeBy(xs[..i], key)
    {
      assert xs[..i + 1][..i] == xs[..i];
      KeysSnoc(xs[..i], xs[i], key);
      assert xs[..i + 1] == xs[..i] + [xs[i]];
      var k := key(xs[i]);
      if k in seen {
        continue;
      }
      seen := seen + {k};
      results := results + [xs[i]];
    }
    assert xs[..|xs|] == xs;
  }
}
