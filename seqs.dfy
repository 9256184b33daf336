/**
  Two collection idioms shared by the collector and the brand inference: the
  "seen-set" loop that keeps the first element of each key, and counting the
  occurrences of a value.
 */
module Seqs {

  /** The keys of the elements of `s`. */
  function KeysOf<T, K(==)>(s: seq<T>, key: T -> K): set<K>
  {
    set i | 0 <= i < |s| :: key(s[i])
  }

  lemma KeysOfAppend<T, K>(p: seq<T>, x: T, key: T -> K)
    ensures KeysOf(p + [x], key) == KeysOf(p, key) + {key(x)}
  {
    var q := p + [x];
    forall k | k in KeysOf(q, key)
      ensures k in KeysOf(p, key) + {key(x)}
    {
      var i :| 0 <= i < |q| && key(q[i]) == k;
      if i < |p| {
        assert q[i] == p[i];
      }
    }
    forall k | k in KeysOf(p, key) + {key(x)}
      ensures k in KeysOf(q, key)
    {
      if k == key(x) {
        assert q[|p|] == x;
      } else {
        var i :| 0 <= i < |p| && key(p[i]) == k;
        assert q[i] == p[i];
      }
    }
  }

  /**
    The loop `for x in s: if key(x) in seen: continue; seen.add(key(x));
    kept.append(x)`: keeps each element whose key is not among the keys of
    the elements kept before it.
   */
  function DedupBy<T, K(==)>(s: seq<T>, key: T -> K): seq<T>
    decreases |s|
  {
    if s == [] then []
    else
      var kept := DedupBy(s[..|s| - 1], key);
      if key(s[|s| - 1]) in KeysOf(kept, key) then kept else kept + [s[|s| - 1]]
  }

  /** One more step of the loop: `DedupBy` on `p + [x]` unfolds to a step on `DedupBy(p)`. */
  lemma DedupStep<T, K>(p: seq<T>, x: T, key: T -> K)
    ensures DedupBy(p + [x], key) ==
            if key(x) in KeysOf(DedupBy(p, key), key) then DedupBy(p, key) else DedupBy(p, key) + [x]
  {
    assert (p + [x])[..|p|] == p;
  }

  /** The seen-set is the set of keys of the input scanned so far. */
  lemma {:induction false} DedupKeys<T, K>(s: seq<T>, key: T -> K)
    ensures KeysOf(DedupBy(s, key), key) == KeysOf(s, key)
    decreases |s|
  {
    if s != [] {
      var p, x := s[..|s| - 1], s[|s| - 1];
      assert s == p + [x];
      DedupKeys(p, key);
      KeysOfAppend(p, x, key);
      KeysOfAppend(DedupBy(p, key), x, key);
    }
  }

  /** No two kept elements share a key. */
  lemma {:induction false} DedupDistinct<T, K>(s: seq<T>, key: T -> K)
    ensures forall i, j :: 0 <= i < j < |DedupBy(s, key)| ==> key(DedupBy(s, key)[i]) != key(DedupBy(s, key)[j])
    decreases |s|
  {
    if s != [] {
      var p, x := s[..|s| - 1], s[|s| - 1];
      DedupDistinct(p, key);
      var kept := DedupBy(p, key);
      if key(x) !in KeysOf(kept, key) {
        var r := kept + [x];
        forall i, j | 0 <= i < j < |r|
          ensures key(r[i]) != key(r[j])
        {
          if j == |kept| {
            assert key(r[i]) == key(kept[i]) && key(kept[i]) in KeysOf(kept, key);
          }
        }
      }
    }
  }

  /** Position `i` holds the first element of `s` that has its key. */
  ghost predicate IsFirstOfKey<T, K>(s: seq<T>, key: T -> K, i: int)
    requires 0 <= i < |s|
  {
    forall k :: 0 <= k < i ==> key(s[k]) != key(s[i])
  }

  /** Appending an element does not change which earlier positions are first of their key. */
  lemma FirstOfKeyPrefix<T, K>(p: seq<T>, x: T, key: T -> K, i: int)
    requires 0 <= i < |p|
    ensures IsFirstOfKey(p + [x], key, i) == IsFirstOfKey(p, key, i)
  {
    assert forall k :: 0 <= k <= i ==> (p + [x])[k] == p[k];
  }

  /** An appended element is first of its key exactly when no earlier element has that key. */
  lemma FirstOfKeyLast<T, K>(p: seq<T>, x: T, key: T -> K)
    ensures IsFirstOfKey(p + [x], key, |p|) <==> key(x) !in KeysOf(p, key)
  {
    var s := p + [x];
    if key(x) in KeysOf(p, key) {
      var k :| 0 <= k < |p| && key(p[k]) == key(x);
      assert s[k] == p[k];
    } else {
      forall k | 0 <= k < |p|
        ensures key(s[k]) != key(s[|p|])
      {
        assert s[k] == p[k] && key(p[k]) in KeysOf(p, key);
      }
    }
  }

  /** The positions of `s` holding the first element with their key, in increasing order. */
  function FirstIndices<T, K(==)>(s: seq<T>, key: T -> K): seq<nat>
    decreases |s|
  {
    if s == [] then []
    else
      var p := s[..|s| - 1];
      FirstIndices(p, key) + if key(s[|s| - 1]) in KeysOf(p, key) then [] else [|p|]
  }

  lemma {:induction false} FirstIndicesIncreasing<T, K>(s: seq<T>, key: T -> K)
    ensures forall j :: 0 <= j < |FirstIndices(s, key)| ==> FirstIndices(s, key)[j] < |s|
    ensures forall j, j' :: 0 <= j < j' < |FirstIndices(s, key)| ==> FirstIndices(s, key)[j] < FirstIndices(s, key)[j']
    decreases |s|
  {
    if s != [] {
      FirstIndicesIncreasing(s[..|s| - 1], key);
    }
  }

  lemma {:induction false} FirstIndicesExact<T, K>(s: seq<T>, key: T -> K)
    ensures forall i :: 0 <= i < |s| ==> (i in FirstIndices(s, key) <==> IsFirstOfKey(s, key, i))
    decreases |s|
  {
    if s != [] {
      var p, x := s[..|s| - 1], s[|s| - 1];
      assert s == p + [x];
      FirstIndicesExact(p, key);
      FirstIndicesIncreasing(p, key);
      FirstOfKeyLast(p, x, key);
      forall i | 0 <= i < |p|
        ensures IsFirstOfKey(s, key, i) == IsFirstOfKey(p, key, i)
      {
        FirstOfKeyPrefix(p, x, key, i);
      }
    }
  }

  lemma {:induction false} FirstIndicesKept<T, K>(s: seq<T>, key: T -> K)
    ensures |FirstIndices(s, key)| == |DedupBy(s, key)|
    ensures forall j :: 0 <= j < |FirstIndices(s, key)| ==>
              FirstIndices(s, key)[j] < |s| && DedupBy(s, key)[j] == s[FirstIndices(s, key)[j]]
    decreases |s|
  {
    if s != [] {
      var p, x := s[..|s| - 1], s[|s| - 1];
      assert s == p + [x];
      FirstIndicesKept(p, key);
      FirstIndicesIncreasing(p, key);
      DedupStep(p, x, key);
      DedupKeys(p, key);
      var pre, idx := FirstIndices(p, key), FirstIndices(s, key);
      forall j | 0 <= j < |pre|
        ensures idx[j] == pre[j] && s[pre[j]] == p[pre[j]]
      { }
    }
  }

  /**
    The kept elements are exactly the first occurrences of each key, in their
    input order: `FirstIndices` lists their positions in `s`.
   */
  lemma DedupFirstOccurrences<T, K>(s: seq<T>, key: T -> K)
    ensures var idx := FirstIndices(s, key);
            && |idx| == |DedupBy(s, key)|
            && (forall j :: 0 <= j < |idx| ==> idx[j] < |s| && DedupBy(s, key)[j] == s[idx[j]])
            && (forall j, j' :: 0 <= j < j' < |idx| ==> idx[j] < idx[j'])
            && (forall i :: 0 <= i < |s| ==> (i in idx <==> IsFirstOfKey(s, key, i)))
  {
    FirstIndicesIncreasing(s, key);
    FirstIndicesExact(s, key);
    FirstIndicesKept(s, key);
  }

  /** What is kept from `a` is still kept, first, once more input follows. */
  lemma {:induction false} DedupPrefix<T, K>(a: seq<T>, b: seq<T>, key: T -> K)
    ensures |DedupBy(a, key)| <= |DedupBy(a + b, key)|
    ensures DedupBy(a + b, key)[..|DedupBy(a, key)|] == DedupBy(a, key)
    decreases |b|
  {
    if b == [] {
      assert a + b == a;
    } else {
      var b', y := b[..|b| - 1], b[|b| - 1];
      DedupPrefix(a, b', key);
      assert a + b == (a + b') + [y];
      DedupStep(a + b', y, key);
    }
  }

  /** The number of occurrences of `x` in `s`. */
  function Count<T(==)>(s: seq<T>, x: T): (n: nat)
    ensures n <= |s|
    ensures n == 0 <==> x !in s
    decreases |s|
  {
    if s == [] then 0
    else
      assert s == s[..|s| - 1] + [s[|s| - 1]];
      Count(s[..|s| - 1], x) + if s[|s| - 1] == x then 1 else 0
  }

  lemma CountStep<T>(p: seq<T>, y: T, x: T)
    ensures Count(p + [y], x) == Count(p, x) + if y == x then 1 else 0
  {
    assert (p + [y])[..|p|] == p;
  }
}
