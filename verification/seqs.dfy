/** Sequence operations that the stores use in place of the JavaScript array
    methods `some`, `findIndex`, `filter` and `splice(i, 1)`. */
module Seqs {
  import opened ApiResult

  /** `s.some(p)`. */
  predicate Any<T>(s: seq<T>, p: T -> bool) {
    exists i :: 0 <= i < |s| && p(s[i])
  }

  /** `i` is the index `s.findIndex(p)` returns when it finds a match. */
  predicate IsFirst<T>(s: seq<T>, p: T -> bool, i: int) {
    0 <= i < |s| && p(s[i]) && forall j :: 0 <= j < i ==> !p(s[j])
  }

  /** No value occurs twice. */
  predicate Distinct<T(==)>(s: seq<T>) {
    forall i, j :: 0 <= i < j < |s| ==> s[i] != s[j]
  }

  /** No two elements share a key. */
  predicate DistinctBy<T, K(==)>(s: seq<T>, key: T -> K) {
    forall i, j :: 0 <= i < j < |s| ==> key(s[i]) != key(s[j])
  }

  /** `s.findIndex(p)`, with `None` for `-1`. */
  function FindIndex<T>(s: seq<T>, p: T -> bool): (r: Option<nat>)
    ensures r.Some? ==> IsFirst(s, p, r.value)
    ensures r.None? <==> !Any(s, p)
  {
    if |s| == 0 then None
    else if p(s[0]) then Some(0)
    else
      match FindIndex(s[1..], p)
      case None =>
        assert forall i :: 1 <= i < |s| ==> s[i] == s[1..][i - 1];
        None
      case Some(k) =>
        assert forall j :: 1 <= j < k + 1 ==> s[j] == s[1..][j - 1];
        Some(k + 1)
  }

  /** `x` is what `s.find(p)` returns: the first element that matches. */
  ghost predicate Found<T>(s: seq<T>, p: T -> bool, x: T) {
    exists i :: 0 <= i < |s| && IsFirst(s, p, i) && s[i] == x
  }

  /** A lookup that returns the element at every first match returns the
      element `find` returns. */
  lemma FoundFirst<T>(s: seq<T>, p: T -> bool, x: T)
    requires Any(s, p)
    requires forall i :: IsFirst(s, p, i) ==> s[i] == x
    ensures Found(s, p, x)
  {
    var i := FindIndex(s, p).value;
    assert IsFirst(s, p, i);
  }

  /** The first match is unique. */
  lemma FirstIsUnique<T>(s: seq<T>, p: T -> bool, i: int, j: int)
    requires IsFirst(s, p, i) && IsFirst(s, p, j)
    ensures i == j
  {
  }

  /** `s.splice(i, 1)`. */
  function RemoveAt<T>(s: seq<T>, i: nat): (r: seq<T>)
    requires i < |s|
    ensures |r| == |s| - 1
    ensures forall j :: 0 <= j < i ==> r[j] == s[j]
    ensures forall j :: i <= j < |r| ==> r[j] == s[j + 1]
  {
    s[..i] + s[i + 1..]
  }

  /** Removing the only occurrence of `s[i]` leaves exactly the other values. */
  lemma RemoveAtDistinct<T>(s: seq<T>, i: nat)
    requires i < |s| && Distinct(s)
    ensures Distinct(RemoveAt(s, i))
    ensures forall x :: x in RemoveAt(s, i) <==> x in s && x != s[i]
  {
    var r := RemoveAt(s, i);
    forall x | x in s && x != s[i]
      ensures x in r
    {
      var k :| 0 <= k < |s| && s[k] == x;
      if k < i { assert r[k] == x; } else { assert r[k - 1] == x; }
    }
  }

  /** `s.filter(p)`. */
  function Filter<T(==)>(s: seq<T>, p: T -> bool): (r: seq<T>)
    ensures |r| <= |s|
    ensures forall i :: 0 <= i < |r| ==> r[i] in s && p(r[i])
    ensures forall i :: 0 <= i < |s| && p(s[i]) ==> s[i] in r
  {
    if |s| == 0 then []
    else (if p(s[0]) then [s[0]] else []) + Filter(s[1..], p)
  }

  /** Filtering distributes over concatenation, so `Filter` keeps the
      elements in their original order. */
  lemma {:induction false} FilterConcat<T>(s: seq<T>, t: seq<T>, p: T -> bool)
    ensures Filter(s + t, p) == Filter(s, p) + Filter(t, p)
  {
    if |s| == 0 {
      assert s + t == t;
    } else {
      assert (s + t)[1..] == s[1..] + t;
      FilterConcat(s[1..], t, p);
    }
  }

  /** Filtering the store after appending `x`: the characterisation of `Filter`
      from the other end of the sequence. */
  lemma FilterSnoc<T>(s: seq<T>, x: T, p: T -> bool)
    ensures Filter(s + [x], p) == Filter(s, p) + (if p(x) then [x] else [])
  {
    FilterConcat(s, [x], p);
    FilterSingle(x, p);
  }

  /** Removing an element that fails `p` does not change `Filter(_, p)`. */
  lemma FilterRemoveAt<T>(s: seq<T>, i: nat, p: T -> bool)
    requires i < |s| && !p(s[i])
    ensures Filter(RemoveAt(s, i), p) == Filter(s, p)
  {
    var a, b := s[..i], s[i + 1..];
    assert s[i..] == [s[i]] + b;
    assert s == a + s[i..];
    FilterAround(a, s[i], b, p);
  }

  /** Dropping one element that fails `p` from between `a` and `b`. */
  lemma FilterAround<T>(a: seq<T>, x: T, b: seq<T>, p: T -> bool)
    requires !p(x)
    ensures Filter(a + ([x] + b), p) == Filter(a + b, p)
  {
    FilterSingle(x, p);
    FilterConcat(a, [x] + b, p);
    FilterConcat([x], b, p);
    FilterConcat(a, b, p);
  }

  lemma FilterSingle<T>(x: T, p: T -> bool)
    ensures Filter([x], p) == if p(x) then [x] else []
  {
    assert [x][1..] == [];
  }

  /** Replacing an element that fails `p` by another that fails `p` does not
      change `Filter(_, p)`. */
  lemma FilterUpdate<T>(s: seq<T>, i: nat, x: T, p: T -> bool)
    requires i < |s| && !p(s[i]) && !p(x)
    ensures Filter(s[i := x], p) == Filter(s, p)
  {
    var a, b := s[..i], s[i + 1..];
    FilterAround(a, s[i], b, p);
    FilterAround(a, x, b, p);
    assert s == a + ([s[i]] + b);
    assert s[i := x] == a + ([x] + b);
  }

  /** Filtering keeps distinct keys distinct. */
  lemma {:induction false} FilterDistinctBy<T, K>(s: seq<T>, p: T -> bool, key: T -> K)
    requires DistinctBy(s, key)
    ensures DistinctBy(Filter(s, p), key)
    ensures forall x :: x in Filter(s, p) ==> exists i :: 0 <= i < |s| && s[i] == x
  {
    if |s| > 0 {
      var t := s[1..];
      assert DistinctBy(t, key) by {
        forall i, j | 0 <= i < j < |t| ensures key(t[i]) != key(t[j]) {
          assert t[i] == s[i + 1] && t[j] == s[j + 1];
        }
      }
      FilterDistinctBy(t, p, key);
      var f := Filter(t, p);
      var h: seq<T> := if p(s[0]) then [s[0]] else [];
      assert Filter(s, p) == h + f;
      forall y | y in f ensures key(y) != key(s[0]) {
        var k :| 0 <= k < |t| && t[k] == y;
        assert t[k] == s[k + 1];
      }
    }
  }

  /** Filtering keeps distinct values distinct. */
  lemma {:induction false} FilterDistinct<T>(s: seq<T>, p: T -> bool)
    requires Distinct(s)
    ensures Distinct(Filter(s, p))
  {
    if |s| > 0 {
      var t := s[1..];
      assert Distinct(t) by {
        forall i, j | 0 <= i < j < |t| ensures t[i] != t[j] {
          assert t[i] == s[i + 1] && t[j] == s[j + 1];
        }
      }
      FilterDistinct(t, p);
      assert s[0] !in t by {
        forall k | 0 <= k < |t| ensures t[k] != s[0] { assert t[k] == s[k + 1]; }
      }
    }
  }

  /** Membership in a filtered sequence. */
  lemma FilterHas<T>(s: seq<T>, p: T -> bool, x: T)
    ensures x in Filter(s, p) <==> x in s && p(x)
  {
    if x in s && p(x) {
      var i :| 0 <= i < |s| && s[i] == x;
    }
  }

  /** Nothing passes, nothing is kept. */
  lemma FilterNone<T>(s: seq<T>, p: T -> bool)
    requires forall i :: 0 <= i < |s| ==> !p(s[i])
    ensures Filter(s, p) == []
  {
  }

  /** The tail of a sequence with distinct keys has distinct keys, none of
      them the head's. */
  lemma DistinctByTail<T, K>(s: seq<T>, key: T -> K)
    requires |s| > 0 && DistinctBy(s, key)
    ensures DistinctBy(s[1..], key)
    ensures forall k :: 0 <= k < |s| - 1 ==> key(s[1..][k]) != key(s[0])
  {
    var t := s[1..];
    forall a, b | 0 <= a < b < |t| ensures key(t[a]) != key(t[b]) {
      assert t[a] == s[a + 1] && t[b] == s[b + 1];
    }
    forall k | 0 <= k < |t| ensures key(t[k]) != key(s[0]) {
      assert t[k] == s[k + 1];
    }
  }

  /** Removing the head before an appended element. */
  lemma RemoveHeadOfSnoc<T>(xs: seq<T>, y: T)
    requires |xs| > 0
    ensures RemoveAt(xs + [y], 0) == xs[1..] + [y]
  {
    assert (xs + [y])[1..] == xs[1..] + [y];
  }

  /** Everything passes, everything is kept. */
  lemma {:induction false} FilterAll<T>(s: seq<T>, p: T -> bool)
    requires forall i :: 0 <= i < |s| ==> p(s[i])
    ensures Filter(s, p) == s
  {
    if |s| > 0 {
      FilterAll(s[1..], p);
    }
  }

  /** A relation that holds between every earlier and later element still
      holds after filtering, because filtering keeps the order. */
  lemma {:induction false} FilterPairwise<T>(s: seq<T>, p: T -> bool, rel: (T, T) -> bool)
    requires forall i, j :: 0 <= i < j < |s| ==> rel(s[i], s[j])
    ensures forall i, j :: 0 <= i < j < |Filter(s, p)| ==> rel(Filter(s, p)[i], Filter(s, p)[j])
  {
    if |s| > 0 {
      var t := s[1..];
      forall i, j | 0 <= i < j < |t| ensures rel(t[i], t[j]) {
        assert t[i] == s[i + 1] && t[j] == s[j + 1];
      }
      FilterPairwise(t, p, rel);
      var f := Filter(t, p);
      if p(s[0]) {
        var r := Filter(s, p);
        assert r == [s[0]] + f;
        forall i, j | 0 <= i < j < |r| ensures rel(r[i], r[j]) {
          if i == 0 {
            assert r[j] == f[j - 1];
            var k :| 0 <= k < |t| && t[k] == f[j - 1];
            assert t[k] == s[k + 1] && rel(s[0], s[k + 1]);
          } else {
            assert r[i] == f[i - 1] && r[j] == f[j - 1];
          }
        }
      }
    }
  }

  /** How many elements of `s` satisfy `p`. */
  function CountIf<T>(s: seq<T>, p: T -> bool): nat
    decreases |s|
  {
    if |s| == 0 then 0 else (if p(s[0]) then 1 else 0) + CountIf(s[1..], p)
  }

  /** `r` lists the elements of `s` that satisfy `p`, each once, in their
      order in `s`: the `k`-th element of `s` that passes sits at the position
      given by how many passed before it. */
  predicate KeepsInOrder<T(==)>(s: seq<T>, p: T -> bool, r: seq<T>) {
    && |r| == CountIf(s, p)
    && forall k :: 0 <= k < |s| && p(s[k]) ==> CountIf(s[..k], p) < |r| && r[CountIf(s[..k], p)] == s[k]
  }

  /** Counting over a prefix of `s` that starts with the head. */
  lemma CountIfPrefix<T>(s: seq<T>, p: T -> bool, k: nat)
    requires 0 < k <= |s|
    ensures CountIf(s[..k], p) == (if p(s[0]) then 1 else 0) + CountIf(s[1..][..k - 1], p)
  {
    assert s[..k][1..] == s[1..][..k - 1];
  }

  /** `Filter` keeps exactly the passing elements, in order. */
  lemma {:induction false} FilterInOrder<T>(s: seq<T>, p: T -> bool)
    ensures KeepsInOrder(s, p, Filter(s, p))
    decreases |s|
  {
    if |s| > 0 {
      var t := s[1..];
      var f := Filter(t, p);
      FilterInOrder(t, p);
      var h := if p(s[0]) then 1 else 0;
      var r := Filter(s, p);
      assert r == (if p(s[0]) then [s[0]] else []) + f;
      forall k | 0 <= k < |s| && p(s[k])
        ensures CountIf(s[..k], p) < |r| && r[CountIf(s[..k], p)] == s[k]
      {
        if k == 0 {
          assert s[..0] == [];
        } else {
          CountIfPrefix(s, p, k);
          assert t[k - 1] == s[k];
          assert r[h + CountIf(t[..k - 1], p)] == f[CountIf(t[..k - 1], p)];
        }
      }
    }
  }

  /** Every position below the count is the rank of some passing element. */
  lemma {:induction false} RankHit<T>(s: seq<T>, p: T -> bool, j: nat)
    requires j < CountIf(s, p)
    ensures exists k :: 0 <= k < |s| && p(s[k]) && CountIf(s[..k], p) == j
    decreases |s|
  {
    var t := s[1..];
    if p(s[0]) && j == 0 {
      assert s[..0] == [];
      assert p(s[0]) && CountIf(s[..0], p) == 0;
    } else {
      var h := if p(s[0]) then 1 else 0;
      RankHit(t, p, j - h);
      var k' :| 0 <= k' < |t| && p(t[k']) && CountIf(t[..k'], p) == j - h;
      CountIfPrefix(s, p, k' + 1);
      assert s[k' + 1] == t[k'];
    }
  }

  /** `KeepsInOrder` pins the result: two sequences that both keep the
      passing elements in order are equal. */
  lemma KeepsInOrderUnique<T>(s: seq<T>, p: T -> bool, r1: seq<T>, r2: seq<T>)
    requires KeepsInOrder(s, p, r1) && KeepsInOrder(s, p, r2)
    ensures r1 == r2
  {
    forall j | 0 <= j < |r1| ensures r1[j] == r2[j] {
      RankHit(s, p, j);
    }
  }
}
