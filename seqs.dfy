/** The JavaScript array methods the store and the screens are written with
    (`some`, `filter`, `find`, `map`, and `map` used to replace by id),
    defined on sequences, with the facts the rest of the model relies on. */
module Seqs {
  import opened Wrappers

  /** `xs.some(p)`. */
  function Any<T>(xs: seq<T>, p: T -> bool): (b: bool)
    ensures b <==> exists i :: 0 <= i < |xs| && p(xs[i])
  {
    if xs == [] then false
    else if p(xs[0]) then true
    else
      var b := Any(xs[1..], p);
      assert forall i :: 1 <= i < |xs| ==> xs[i] == xs[1..][i - 1];
      b
  }

  /** `xs.filter(p)`: the elements that satisfy `p`, in their original order. */
  function Filter<T(!new)>(xs: seq<T>, p: T -> bool): (r: seq<T>)
    ensures |r| <= |xs|
    ensures forall i :: 0 <= i < |r| ==> p(r[i])
    ensures forall y :: y in r <==> y in xs && p(y)
  {
    if xs == [] then []
    else
      assert xs == [xs[0]] + xs[1..];
      if p(xs[0]) then [xs[0]] + Filter(xs[1..], p) else Filter(xs[1..], p)
  }

  /** `xs.filter(p).length`. */
  function Count<T(!new)>(xs: seq<T>, p: T -> bool): nat
  {
    |Filter(xs, p)|
  }

  /** The index of the first element that satisfies `p`, or `|xs|` when none does
      (`findIndex`, with "not found" written as the length). */
  function FirstIndex<T>(xs: seq<T>, p: T -> bool): (k: nat)
    ensures k <= |xs|
    ensures forall j :: 0 <= j < k ==> !p(xs[j])
    ensures k < |xs| ==> p(xs[k])
  {
    if xs == [] then 0
    else if p(xs[0]) then 0
    else
      var k := FirstIndex(xs[1..], p);
      assert forall j :: 1 <= j < |xs| ==> xs[j] == xs[1..][j - 1];
      k + 1
  }

  /** `xs.find(p)`: the first element that satisfies `p`, if any. */
  function Find<T>(xs: seq<T>, p: T -> bool): (r: Option<T>)
    ensures r.None? <==> forall i :: 0 <= i < |xs| ==> !p(xs[i])
    ensures r.Some? ==> exists k :: 0 <= k < |xs| && xs[k] == r.value && p(xs[k])
                                    && forall j :: 0 <= j < k ==> !p(xs[j])
  {
    var k := FirstIndex(xs, p);
    if k < |xs| then Some(xs[k]) else None
  }

  /** `xs.map(f)`. */
  function Map<T, U>(xs: seq<T>, f: T -> U): (r: seq<U>)
    ensures |r| == |xs|
    ensures forall i :: 0 <= i < |xs| ==> r[i] == f(xs[i])
  {
    if xs == [] then [] else [f(xs[0])] + Map(xs[1..], f)
  }

  /** `xs.map(y => p(y) ? x : y)`: every element that satisfies `p` is replaced by `x`. */
  function ReplaceWhere<T>(xs: seq<T>, p: T -> bool, x: T): (r: seq<T>)
    ensures |r| == |xs|
    ensures forall i :: 0 <= i < |xs| ==> r[i] == if p(xs[i]) then x else xs[i]
  {
    if xs == [] then [] else [if p(xs[0]) then x else xs[0]] + ReplaceWhere(xs[1..], p, x)
  }

  /** No two elements of `xs` have the same key. */
  predicate DistinctBy<T, K(==)>(xs: seq<T>, key: T -> K)
  {
    forall i, j :: 0 <= i < j < |xs| ==> key(xs[i]) != key(xs[j])
  }

  /** Filtering keeps the elements in their order: it distributes over concatenation. */
  lemma {:induction false} FilterAppend<T(!new)>(xs: seq<T>, ys: seq<T>, p: T -> bool)
    ensures Filter(xs + ys, p) == Filter(xs, p) + Filter(ys, p)
  {
    if xs == [] {
      assert xs + ys == ys;
    } else {
      assert (xs + ys)[1..] == xs[1..] + ys;
      FilterAppend(xs[1..], ys, p);
    }
  }

  /** A filter keeps every satisfying element as often as it occurs and drops every other. */
  lemma {:induction false} FilterMultiset<T(!new)>(xs: seq<T>, p: T -> bool)
    ensures forall y :: multiset(Filter(xs, p))[y] == if p(y) then multiset(xs)[y] else 0
  {
    if xs != [] {
      FilterMultiset(xs[1..], p);
      assert xs == [xs[0]] + xs[1..];
    }
  }

  /** Where an element kept by a filter sits in the original sequence. */
  lemma {:induction false} FilterSource<T(!new)>(xs: seq<T>, p: T -> bool, k: int) returns (a: int)
    requires 0 <= k < |Filter(xs, p)|
    ensures 0 <= a < |xs| && xs[a] == Filter(xs, p)[k]
  {
    var rest := Filter(xs[1..], p);
    if p(xs[0]) {
      assert Filter(xs, p) == [xs[0]] + rest;
      if k == 0 {
        a := 0;
      } else {
        a := FilterSource(xs[1..], p, k - 1);
        assert xs[a + 1] == xs[1..][a];
        a := a + 1;
      }
    } else {
      assert Filter(xs, p) == rest;
      a := FilterSource(xs[1..], p, k);
      assert xs[a + 1] == xs[1..][a];
      a := a + 1;
    }
  }

  /** An element that passes the filter survives it. */
  lemma FilterKeeps<T(!new)>(xs: seq<T>, p: T -> bool, a: int) returns (k: int)
    requires 0 <= a < |xs| && p(xs[a])
    ensures 0 <= k < |Filter(xs, p)| && Filter(xs, p)[k] == xs[a]
  {
    assert xs[a] in Filter(xs, p);
    k :| 0 <= k < |Filter(xs, p)| && Filter(xs, p)[k] == xs[a];
  }

  /** `idx` picks out `ys` from `xs` at strictly increasing positions. */
  ghost predicate Embedding<T>(idx: seq<int>, ys: seq<T>, xs: seq<T>)
  {
    && |idx| == |ys|
    && (forall i :: 0 <= i < |idx| ==> 0 <= idx[i] < |xs| && xs[idx[i]] == ys[i])
    && (forall i, j :: 0 <= i < j < |idx| ==> idx[i] < idx[j])
  }

  /** `ys` is `xs` with some elements left out and the rest in their order. */
  ghost predicate SubsequenceOf<T>(ys: seq<T>, xs: seq<T>)
  {
    exists idx :: Embedding(idx, ys, xs)
  }

  /** Positions in `xs[1..]`, moved one place right, are positions in `xs`; with the
      first position put in front they also pick out `xs[0]` first. */
  lemma EmbedInTail<T>(idx: seq<int>, ys: seq<T>, xs: seq<T>) returns (shifted: seq<int>)
    requires xs != [] && Embedding(idx, ys, xs[1..])
    ensures Embedding(shifted, ys, xs)
    ensures Embedding([0] + shifted, [xs[0]] + ys, xs)
  {
    shifted := seq(|idx|, i requires 0 <= i < |idx| => idx[i] + 1);
    forall i | 0 <= i < |idx| ensures xs[shifted[i]] == ys[i] {
      assert xs[shifted[i]] == xs[1..][idx[i]];
    }
    var idx0, ys0 := [0] + shifted, [xs[0]] + ys;
    forall i | 0 < i < |idx0| ensures 0 < idx0[i] < |xs| && xs[idx0[i]] == ys0[i] {
      assert idx0[i] == shifted[i - 1] && ys0[i] == ys[i - 1];
    }
  }

  /** A filter keeps the elements it keeps in their original order: the positions it
      keeps them from. */
  lemma {:induction false} FilterEmbeds<T(!new)>(xs: seq<T>, p: T -> bool) returns (idx: seq<int>)
    ensures Embedding(idx, Filter(xs, p), xs)
  {
    if xs == [] {
      idx := [];
    } else {
      var rest := FilterEmbeds(xs[1..], p);
      var shifted := EmbedInTail(rest, Filter(xs[1..], p), xs);
      if p(xs[0]) {
        assert Filter(xs, p) == [xs[0]] + Filter(xs[1..], p);
        idx := [0] + shifted;
      } else {
        assert Filter(xs, p) == Filter(xs[1..], p);
        idx := shifted;
      }
    }
  }

  /** The first element kept by a filter is the first element that satisfies the predicate. */
  lemma {:induction false} FilterHead<T(!new)>(xs: seq<T>, p: T -> bool)
    requires Filter(xs, p) != []
    ensures FirstIndex(xs, p) < |xs| && Filter(xs, p)[0] == xs[FirstIndex(xs, p)]
  {
    if !p(xs[0]) {
      FilterHead(xs[1..], p);
    }
  }

  /** Filtering changes nothing exactly when every element already satisfies the predicate. */
  lemma FilterUnchangedIff<T(!new)>(xs: seq<T>, p: T -> bool)
    ensures Filter(xs, p) == xs <==> forall i :: 0 <= i < |xs| ==> p(xs[i])
  {
    if forall i :: 0 <= i < |xs| ==> p(xs[i]) {
      FilterKeepsAll(xs, p);
    }
  }

  /** When every element satisfies the predicate, filtering keeps them all. */
  lemma {:induction false} FilterKeepsAll<T(!new)>(xs: seq<T>, p: T -> bool)
    requires forall i :: 0 <= i < |xs| ==> p(xs[i])
    ensures Filter(xs, p) == xs
  {
    if xs != [] {
      assert forall i :: 0 <= i < |xs[1..]| ==> p(xs[1..][i]) by {
        forall i | 0 <= i < |xs[1..]| ensures p(xs[1..][i]) {
          assert xs[1..][i] == xs[i + 1];
        }
      }
      FilterKeepsAll(xs[1..], p);
      assert p(xs[0]);
      assert xs == [xs[0]] + xs[1..];
    }
  }

  /** Filtering twice with the same predicate is filtering once. */
  lemma FilterIdempotent<T(!new)>(xs: seq<T>, p: T -> bool)
    ensures Filter(Filter(xs, p), p) == Filter(xs, p)
  {
    FilterUnchangedIff(Filter(xs, p), p);
  }

  /** Counting is positive exactly when `some` holds. */
  lemma CountPositiveIffAny<T(!new)>(xs: seq<T>, p: T -> bool)
    ensures Count(xs, p) > 0 <==> Any(xs, p)
  {
    if Any(xs, p) {
      var i :| 0 <= i < |xs| && p(xs[i]);
      assert xs[i] in Filter(xs, p);
    }
  }

  /** In a sequence with distinct keys, the tail has distinct keys and none of them is the head's. */
  lemma DistinctTail<T, K>(xs: seq<T>, key: T -> K)
    requires xs != [] && DistinctBy(xs, key)
    ensures DistinctBy(xs[1..], key)
    ensures forall y :: y in xs[1..] ==> key(y) != key(xs[0])
  {
    var rest := xs[1..];
    forall i, j | 0 <= i < j < |rest| ensures key(rest[i]) != key(rest[j]) {
      assert rest[i] == xs[i + 1] && rest[j] == xs[j + 1];
    }
    forall y | y in rest ensures key(y) != key(xs[0]) {
      var k :| 0 <= k < |rest| && rest[k] == y;
      assert rest[k] == xs[k + 1];
    }
  }

  /** A sequence whose head's key differs from every key in its tail, and whose tail has
      distinct keys, has distinct keys. */
  lemma DistinctCons<T, K>(x: T, ys: seq<T>, key: T -> K)
    requires DistinctBy(ys, key)
    requires forall y :: y in ys ==> key(y) != key(x)
    ensures DistinctBy([x] + ys, key)
  {
    var r := [x] + ys;
    forall i, j | 0 <= i < j < |r| ensures key(r[i]) != key(r[j]) {
      assert r[j] == ys[j - 1];
      if i > 0 {
        assert r[i] == ys[i - 1];
      } else {
        assert ys[j - 1] in ys;
      }
    }
  }

  /** A filtered sequence keeps distinct keys distinct. */
  lemma {:induction false} FilterDistinct<T(!new), K>(xs: seq<T>, p: T -> bool, key: T -> K)
    requires DistinctBy(xs, key)
    ensures DistinctBy(Filter(xs, p), key)
  {
    if xs != [] {
      DistinctTail(xs, key);
      FilterDistinct(xs[1..], p, key);
      if p(xs[0]) {
        DistinctCons(xs[0], Filter(xs[1..], p), key);
      }
    }
  }

  /** Appending keeps keys distinct exactly when the new key is not already present. */
  lemma AppendDistinct<T, K>(xs: seq<T>, x: T, key: T -> K)
    ensures DistinctBy(xs + [x], key) <==> DistinctBy(xs, key) && forall i :: 0 <= i < |xs| ==> key(xs[i]) != key(x)
  {
    var ys := xs + [x];
    if DistinctBy(xs, key) && forall i :: 0 <= i < |xs| ==> key(xs[i]) != key(x) {
      forall i, j | 0 <= i < j < |ys| ensures key(ys[i]) != key(ys[j]) {
        if j == |xs| {
          assert ys[j] == x && ys[i] == xs[i];
        } else {
          assert ys[i] == xs[i] && ys[j] == xs[j];
        }
      }
    }
    if DistinctBy(ys, key) {
      forall i | 0 <= i < |xs| ensures key(xs[i]) != key(x) {
        assert ys[i] == xs[i] && ys[|xs|] == x;
      }
      forall i, j | 0 <= i < j < |xs| ensures key(xs[i]) != key(xs[j]) {
        assert ys[i] == xs[i] && ys[j] == xs[j];
      }
    }
  }

  /** Replacing the (at most one) matching element by `x` keeps keys distinct when `x`'s key
      differs from every element that is not replaced. */
  lemma ReplaceDistinct<T, K>(xs: seq<T>, p: T -> bool, x: T, key: T -> K)
    requires DistinctBy(xs, key)
    requires forall i, j :: 0 <= i < j < |xs| ==> !(p(xs[i]) && p(xs[j]))
    requires forall i :: 0 <= i < |xs| && !p(xs[i]) ==> key(xs[i]) != key(x)
    ensures DistinctBy(ReplaceWhere(xs, p, x), key)
  {
  }
}
