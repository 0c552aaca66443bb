/**
 * Small vocabulary shared by the whole model: an optional value (JavaScript's
 * `null`/`undefined` versus a value), the `Array.prototype.filter` operation the
 * resolvers are written with, and the concatenation of a list of batches.
 */
module Base {

  datatype Option<T> = None | Some(value: T)

  /** `r` can be obtained from `s` by deleting elements: it keeps `s`'s order. */
  ghost predicate IsSubsequence<T>(r: seq<T>, s: seq<T>)
    decreases |s|
  {
    r == [] ||
    (s != [] &&
     ((r[0] == s[0] && IsSubsequence(r[1..], s[1..])) || IsSubsequence(r, s[1..])))
  }

  /**
   * The independent description of "the elements of `s` that satisfy `p`, in `s`'s
   * order": a subsequence of `s` that holds every occurrence of every element
   * satisfying `p` and nothing else.
   */
  ghost predicate IsFilterOf<T(!new)>(r: seq<T>, s: seq<T>, p: T -> bool)
  {
    IsSubsequence(r, s) &&
    forall x :: multiset(r)[x] == if p(x) then multiset(s)[x] else 0
  }

  /** `s.filter(p)` */
  function Filter<T(!new)>(s: seq<T>, p: T -> bool): (r: seq<T>)
    ensures |r| <= |s|
    ensures forall x :: x in r <==> x in s && p(x)
    ensures IsFilterOf(r, s, p)
  {
    if s == [] then []
    else
      var rest := Filter(s[1..], p);
      assert s == [s[0]] + s[1..];
      if p(s[0]) then
        assert ([s[0]] + rest)[1..] == rest;
        [s[0]] + rest
      else
        rest
  }

  lemma {:induction false} SubsequenceMultiset<T>(r: seq<T>, s: seq<T>)
    requires IsSubsequence(r, s)
    ensures multiset(r) <= multiset(s)
    decreases |s|
  {
    if r == [] {
    } else if r[0] == s[0] && IsSubsequence(r[1..], s[1..]) {
      SubsequenceMultiset(r[1..], s[1..]);
      assert r == [r[0]] + r[1..];
      assert s == [s[0]] + s[1..];
    } else {
      SubsequenceMultiset(r, s[1..]);
      assert s == [s[0]] + s[1..];
    }
  }

  /** The filter is the ONLY sequence meeting its description. */
  lemma {:induction false} FilterUnique<T(!new)>(r: seq<T>, s: seq<T>, p: T -> bool)
    requires IsFilterOf(r, s, p)
    ensures r == Filter(s, p)
    decreases |s|
  {
    if s == [] {
      assert r == [];
    } else {
      var x, s' := s[0], s[1..];
      assert s == [x] + s';
      if r == [] {
        forall y | p(y) ensures multiset(s')[y] == 0 {
          assert multiset(r)[y] == 0;
        }
        assert multiset(r) == multiset{};
        assert IsFilterOf(r, s', p);
        FilterUnique(r, s', p);
      } else if p(x) {
        // r must take x from the head of s: skipping it would lose an occurrence of x.
        if !(r[0] == x && IsSubsequence(r[1..], s')) {
          SubsequenceMultiset(r, s');
          assert false;
        }
        var r' := r[1..];
        assert r == [x] + r';
        forall y ensures multiset(r')[y] == if p(y) then multiset(s')[y] else 0 {
          assert multiset(r)[y] == multiset(r')[y] + (if y == x then 1 else 0);
          assert multiset(s)[y] == multiset(s')[y] + (if y == x then 1 else 0);
        }
        FilterUnique(r', s', p);
      } else {
        assert multiset(r)[x] == 0;
        assert r[0] != x by { assert r[0] in multiset(r); }
        forall y ensures multiset(r)[y] == if p(y) then multiset(s')[y] else 0 {
          assert multiset(s)[y] == multiset(s')[y] + (if y == x then 1 else 0);
        }
        FilterUnique(r, s', p);
      }
    }
  }

  /** Filtering with two predicates that agree on `s` gives the same result. */
  lemma {:induction false} FilterAgree<T(!new)>(s: seq<T>, p: T -> bool, q: T -> bool)
    requires forall i :: 0 <= i < |s| ==> p(s[i]) == q(s[i])
    ensures Filter(s, p) == Filter(s, q)
    decreases |s|
  {
    if s != [] {
      FilterAgree(s[1..], p, q);
    }
  }

  /** Filtering twice with the same predicate changes nothing the second time. */
  lemma {:induction false} FilterIdempotent<T(!new)>(s: seq<T>, p: T -> bool)
    ensures Filter(Filter(s, p), p) == Filter(s, p)
    decreases |s|
  {
    if s != [] {
      FilterIdempotent(s[1..], p);
      if p(s[0]) {
        var rest := Filter(s[1..], p);
        assert ([s[0]] + rest)[1..] == rest;
      }
    }
  }

  /** The filter is shorter than `s` exactly when `s` holds an element rejected by `p`. */
  lemma {:induction false} FilterShorter<T(!new)>(s: seq<T>, p: T -> bool)
    ensures |Filter(s, p)| < |s| <==> exists i :: 0 <= i < |s| && !p(s[i])
    decreases |s|
  {
    if s != [] {
      FilterShorter(s[1..], p);
      if exists i :: 0 <= i < |s| - 1 && !p(s[1..][i]) {
        var i :| 0 <= i < |s| - 1 && !p(s[1..][i]);
        assert !p(s[i + 1]);
      }
      if exists i :: 0 <= i < |s| && !p(s[i]) {
        var i :| 0 <= i < |s| && !p(s[i]);
        if i > 0 { assert !p(s[1..][i - 1]); }
      }
    }
  }

  /** The concatenation of a list of batches, in order. */
  function Flatten<T>(batches: seq<seq<T>>): (r: seq<T>)
    ensures |batches| == 0 ==> r == []
  {
    if batches == [] then [] else Flatten(batches[..|batches| - 1]) + batches[|batches| - 1]
  }

  lemma FlattenAppend<T>(batches: seq<seq<T>>, b: seq<T>)
    ensures Flatten(batches + [b]) == Flatten(batches) + b
  {
    assert (batches + [b])[..|batches|] == batches;
  }
}
