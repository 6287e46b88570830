/**
 * Sequence operations behind the LINQ queries of the repositories (`Where`,
 * `FirstOrDefault`) and the ordinal `string.Contains` they use.
 */
module Seqs {
  import opened Wrappers

  /** `r` is `s` with some elements deleted and the rest kept in order. */
  ghost predicate IsSubsequence<T>(r: seq<T>, s: seq<T>)
    decreases |s|
  {
    if r == [] then true
    else if s == [] then false
    else (r[0] == s[0] && IsSubsequence(r[1..], s[1..])) || IsSubsequence(r, s[1..])
  }

  /** `Where(p)`: the elements of `s` that satisfy `p`, in their original order. */
  function Filter<T(!new)>(s: seq<T>, p: T -> bool): (r: seq<T>)
    ensures |r| <= |s|
    ensures forall x :: x in r <==> x in s && p(x)
    ensures forall x {:trigger multiset(r)[x]} :: multiset(r)[x] == if p(x) then multiset(s)[x] else 0
    ensures IsSubsequence(r, s)
    decreases |s|
  {
    if s == [] then []
    else
      assert s == [s[0]] + s[1..];
      if p(s[0]) then [s[0]] + Filter(s[1..], p) else Filter(s[1..], p)
  }

  /** A filter that every element passes keeps the sequence as it is. */
  lemma {:induction false} FilterAllPass<T(!new)>(s: seq<T>, p: T -> bool)
    requires forall i :: 0 <= i < |s| ==> p(s[i])
    ensures Filter(s, p) == s
    decreases |s|
  {
    if s != [] {
      FilterAllPass(s[1..], p);
    }
  }

  /** Filtering distributes over appending one element. */
  lemma {:induction false} FilterAppend<T(!new)>(s: seq<T>, x: T, p: T -> bool)
    ensures Filter(s + [x], p) == Filter(s, p) + (if p(x) then [x] else [])
    decreases |s|
  {
    if s == [] {
      assert [] + [x] == [x];
    } else {
      assert (s + [x])[1..] == s[1..] + [x];
      FilterAppend(s[1..], x, p);
    }
  }

  /** Filtering by `p` and then by `q` gives what filtering by `q` and then by `p` gives. */
  lemma {:induction false} FilterCommutes<T(!new)>(s: seq<T>, p: T -> bool, q: T -> bool)
    ensures Filter(Filter(s, p), q) == Filter(Filter(s, q), p)
    decreases |s|
  {
    if s != [] {
      FilterCommutes(s[1..], p, q);
    }
  }

  /** `key` grows strictly along `s`; in particular no two elements share a key. */
  ghost predicate StrictlyIncreasing<T>(s: seq<T>, key: T -> int)
  {
    forall i, j :: 0 <= i < j < |s| ==> key(s[i]) < key(s[j])
  }

  /** Filtering keeps keys strictly increasing. */
  lemma {:induction false} FilterKeepsIncreasing<T(!new)>(s: seq<T>, p: T -> bool, key: T -> int)
    requires StrictlyIncreasing(s, key)
    ensures StrictlyIncreasing(Filter(s, p), key)
    decreases |s|
  {
    if s != [] {
      FilterKeepsIncreasing(s[1..], p, key);
      var rest := Filter(s[1..], p);
      if p(s[0]) {
        forall j | 0 <= j < |rest| ensures key(s[0]) < key(rest[j]) {
          assert rest[j] in s[1..];
        }
      }
    }
  }

  /** Under strictly increasing keys no element occurs twice. */
  lemma {:induction false} IncreasingHasNoRepeats<T>(s: seq<T>, key: T -> int, x: T)
    requires StrictlyIncreasing(s, key)
    ensures multiset(s)[x] <= 1
    decreases |s|
  {
    if s != [] {
      var tail := s[1..];
      assert s == [s[0]] + tail;
      assert StrictlyIncreasing(tail, key) by {
        forall i, j | 0 <= i < j < |tail| ensures key(tail[i]) < key(tail[j]) {
          assert tail[i] == s[i + 1] && tail[j] == s[j + 1];
        }
      }
      IncreasingHasNoRepeats(tail, key, x);
      if x == s[0] {
        forall j | 0 <= j < |tail| ensures tail[j] != s[0] {
          assert tail[j] == s[j + 1];
          assert key(s[0]) < key(tail[j]);
        }
        assert x !in tail;
      }
    }
  }

  /** A sequence whose every element is `h` holds `h` once per position. */
  lemma {:induction false} ConstantCount<T>(r: seq<T>, h: T)
    requires forall x :: x in r ==> x == h
    ensures multiset(r)[h] == |r|
    decreases |r|
  {
    if r != [] {
      assert r == [r[0]] + r[1..];
      assert r[0] in r && forall x :: x in r[1..] ==> x in r;
      ConstantCount(r[1..], h);
    }
  }

  /**
   * Under strictly increasing keys, a filter that at most the element `h`
   * passes keeps at most one element.
   */
  lemma FilterSoleMatch<T(!new)>(s: seq<T>, p: T -> bool, key: T -> int, h: T)
    requires StrictlyIncreasing(s, key)
    requires forall x :: x in s && p(x) ==> x == h
    ensures |Filter(s, p)| <= 1
  {
    var r := Filter(s, p);
    ConstantCount(r, h);
    IncreasingHasNoRepeats(s, key, h);
  }

  /** Under strictly increasing keys an element is determined by its key. */
  lemma KeysAreUnique<T>(s: seq<T>, key: T -> int)
    ensures StrictlyIncreasing(s, key) ==>
              forall x, y :: x in s && y in s && key(x) == key(y) ==> x == y
  {
    if StrictlyIncreasing(s, key) {
      forall x, y | x in s && y in s && key(x) == key(y) ensures x == y {
        var i :| 0 <= i < |s| && s[i] == x;
        var j :| 0 <= j < |s| && s[j] == y;
      }
    }
  }

  /** `FirstOrDefault(p)` as an index: the first position whose element satisfies `p`. */
  function FirstIndex<T>(s: seq<T>, p: T -> bool): (r: Option<nat>)
    ensures r.Some? ==> r.value < |s| && p(s[r.value])
    ensures r.Some? ==> forall j :: 0 <= j < r.value ==> !p(s[j])
    ensures r.None? <==> forall j :: 0 <= j < |s| ==> !p(s[j])
    decreases |s|
  {
    if s == [] then None
    else if p(s[0]) then Some(0)
    else match FirstIndex(s[1..], p)
      case None => None
      case Some(k) => Some(k + 1)
  }

  /** `sub` occurs in `s` starting at position `i`. */
  ghost predicate OccursAt<T>(s: seq<T>, sub: seq<T>, i: int)
  {
    0 <= i && i + |sub| <= |s| && s[i..i + |sub|] == sub
  }

  /** Ordinal, case-sensitive `string.Contains`: `sub` is a contiguous part of `s`. */
  predicate Contains<T(==)>(s: seq<T>, sub: seq<T>)
    ensures Contains(s, sub) ==> |sub| <= |s|
    decreases |s|
  {
    (|sub| <= |s| && s[..|sub|] == sub) || (s != [] && Contains(s[1..], sub))
  }

  /** `Contains` holds exactly when `sub` occurs at some position of `s`. */
  lemma {:induction false} ContainsIffOccurs<T>(s: seq<T>, sub: seq<T>)
    ensures Contains(s, sub) <==> exists i :: OccursAt(s, sub, i)
    decreases |s|
  {
    if s != [] {
      ContainsIffOccurs(s[1..], sub);
      if exists i :: OccursAt(s[1..], sub, i) {
        var i :| OccursAt(s[1..], sub, i);
        assert s[i + 1..i + 1 + |sub|] == s[1..][i..i + |sub|];
        assert OccursAt(s, sub, i + 1);
      }
      if exists i :: OccursAt(s, sub, i) {
        var i :| OccursAt(s, sub, i);
        if i > 0 {
          assert s[1..][i - 1..i - 1 + |sub|] == s[i..i + |sub|];
          assert OccursAt(s[1..], sub, i - 1);
        } else {
          assert s[..|sub|] == s[i..i + |sub|];
        }
      }
    }
    if |sub| <= |s| && s[..|sub|] == sub {
      assert OccursAt(s, sub, 0);
    }
  }

  /** The empty string is contained in every string. */
  lemma EmptyIsContained<T>(s: seq<T>)
    ensures Contains(s, [])
  {
  }
}
