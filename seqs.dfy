/**
  Order-preserving filtering of sequences, the shape shared by the three
  detectors (a Python list comprehension `[x for x in s if keep(x)]`).
 */
module Seqs {

  /** `a` can be obtained from `b` by deleting elements, without reordering. */
  predicate IsSubseq<T(==,!new)>(a: seq<T>, b: seq<T>)
    decreases |b|
  {
    if a == [] then true
    else if b == [] then false
    else if a[|a| - 1] == b[|b| - 1] then IsSubseq(a[..|a| - 1], b[..|b| - 1])
    else IsSubseq(a, b[..|b| - 1])
  }

  /** The elements of `s` that satisfy `keep`, in the order they have in `s`. */
  function Filter<T(==,!new)>(s: seq<T>, keep: T -> bool): (r: seq<T>)
    ensures |r| <= |s|
    ensures forall x {:trigger x in r} :: x in r <==> x in s && keep(x)
    ensures IsSubseq(r, s)
    ensures forall x {:trigger multiset(r)[x]} :: keep(x) ==> multiset(r)[x] == multiset(s)[x]
  {
    if s == [] then []
    else
      var n := |s| - 1;
      var r' := Filter(s[..n], keep);
      assert s == s[..n] + [s[n]];
      if keep(s[n]) then
        assert (r' + [s[n]])[..|r'|] == r';
        r' + [s[n]]
      else
        assert r' != [] ==> r'[|r'| - 1] in r';
        r'
  }

  /** A subsequence takes no element more often than the sequence holds it. */
  lemma {:induction false} SubseqMultiset<T(!new)>(a: seq<T>, b: seq<T>)
    requires IsSubseq(a, b)
    ensures multiset(a) <= multiset(b)
    decreases |b|
  {
    if a != [] {
      var n := |b| - 1;
      assert b == b[..n] + [b[n]];
      if a[|a| - 1] == b[n] {
        SubseqMultiset(a[..|a| - 1], b[..n]);
        assert a == a[..|a| - 1] + [a[|a| - 1]];
      } else {
        SubseqMultiset(a, b[..n]);
      }
    }
  }

  /**
    Filter is the only subsequence of `s` that holds only kept elements and
    every kept element as often as `s` does: its contract determines it.
   */
  lemma {:induction false} FilterUnique<T(!new)>(r: seq<T>, s: seq<T>, keep: T -> bool)
    requires IsSubseq(r, s)
    requires forall x :: x in r ==> keep(x)
    requires forall x :: keep(x) ==> multiset(r)[x] == multiset(s)[x]
    ensures r == Filter(s, keep)
    decreases |s|
  {
    if s == [] {
    } else {
      var n := |s| - 1;
      var last := s[n];
      assert s == s[..n] + [last];
      if r != [] && r[|r| - 1] == last {
        var r0 := r[..|r| - 1];
        assert r == r0 + [last];
        assert keep(last);
        forall x | x in r0 ensures keep(x) {
          assert x in r;
        }
        FilterUnique(r0, s[..n], keep);
      } else {
        assert r != [] ==> IsSubseq(r, s[..n]);
        if keep(last) {
          SubseqMultiset(r, s[..n]);
          assert false;
        }
        forall x | keep(x) ensures multiset(r)[x] == multiset(s[..n])[x] {
          assert x != last;
        }
        FilterUnique(r, s[..n], keep);
      }
    }
  }

  lemma AppendAssoc<T>(a: seq<T>, b: seq<T>, c: seq<T>)
    ensures a + (b + c) == (a + b) + c
  {
  }

  /** Splitting the last element off the second part of a concatenation. */
  lemma SplitLast<T>(a: seq<T>, b: seq<T>)
    requires b != []
    ensures b == b[..|b| - 1] + [b[|b| - 1]]
    ensures a + b == (a + b[..|b| - 1]) + [b[|b| - 1]]
  {
    assert b == b[..|b| - 1] + [b[|b| - 1]];
  }

  /** The two parts of a concatenation, read back by position. */
  lemma ConcatParts<T>(a: seq<T>, b: seq<T>)
    ensures (a + b)[..|a|] == a
    ensures forall i :: |a| <= i < |a + b| ==> (a + b)[i] == b[i - |a|]
  {
  }

  /** Filtering keeps everything when every element is kept. */
  lemma {:induction false} FilterAll<T(!new)>(s: seq<T>, keep: T -> bool)
    requires forall x :: x in s ==> keep(x)
    ensures Filter(s, keep) == s
  {
    if s != [] {
      var n := |s| - 1;
      var init := s[..n];
      assert keep(s[n]) by {
        assert s[n] in s;
      }
      forall x | x in init ensures keep(x) {
        assert x in s;
      }
      FilterAll(init, keep);
      assert s == init + [s[n]];
    }
  }

  /** Filtering keeps nothing when no element is kept. */
  lemma {:induction false} FilterNone<T(!new)>(s: seq<T>, keep: T -> bool)
    requires forall x :: x in s ==> !keep(x)
    ensures Filter(s, keep) == []
  {
    if s != [] {
      var n := |s| - 1;
      assert s[n] in s;
      assert forall x :: x in s[..n] ==> x in s;
      FilterNone(s[..n], keep);
    }
  }
}
