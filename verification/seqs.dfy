/** Order-preserving selection from sequences: the shape shared by every list
    comprehension and append loop of the modelled code. */
module Seqs {
  import opened Wrappers

  /** `s` can be obtained from `t` by deleting elements (greedy matching is complete). */
  predicate IsSubsequence<T(==)>(s: seq<T>, t: seq<T>)
    decreases |t|
  {
    if |s| == 0 then true
    else if |t| == 0 then false
    else if s[0] == t[0] then IsSubsequence(s[1..], t[1..])
    else IsSubsequence(s, t[1..])
  }

  /** The elements of `s` satisfying `keep`, in their original order. */
  function Filter<T(==,!new)>(s: seq<T>, keep: T -> bool): (r: seq<T>)
    ensures |r| <= |s|
    ensures forall x :: x in r <==> x in s && keep(x)
    ensures forall x :: multiset(r)[x] == if keep(x) then multiset(s)[x] else 0
  {
    if |s| == 0 then []
    else
      var rest := Filter(s[1..], keep);
      assert s == [s[0]] + s[1..];
      if keep(s[0]) then [s[0]] + rest else rest
  }

  /** The values `f` yields on the elements of `s`, in order, skipping the elements
      on which `f` yields nothing. */
  function FilterMap<A, B(==,!new)>(s: seq<A>, f: A -> Option<B>): (r: seq<B>)
    ensures |r| <= |s|
    ensures forall b :: b in r <==> exists i :: 0 <= i < |s| && f(s[i]) == Some(b)
  {
    if |s| == 0 then []
    else
      var rest := FilterMap(s[1..], f);
      assert forall i :: 1 <= i < |s| ==> s[i] == s[1..][i - 1];
      match f(s[0])
      case Some(b) => [b] + rest
      case None => rest
  }

  /** The positions of `s` on which `f` yields a value, in increasing order. */
  function Kept<A, B>(s: seq<A>, f: A -> Option<B>): (idx: seq<nat>)
    ensures forall j :: 0 <= j < |idx| ==> idx[j] < |s| && f(s[idx[j]]).Some?
    ensures forall j, k :: 0 <= j < k < |idx| ==> idx[j] < idx[k]
    ensures forall i :: 0 <= i < |s| && f(s[i]).Some? ==> i in idx
  {
    if |s| == 0 then []
    else
      var n := |s| - 1;
      var init := Kept(s[..n], f);
      assert forall i :: 0 <= i < n ==> s[i] == s[..n][i];
      if f(s[n]).Some? then init + [n] else init
  }

  /** `FilterMap` distributes over concatenation. */
  lemma {:induction false} FilterMapAppend<A, B(!new)>(a: seq<A>, b: seq<A>, f: A -> Option<B>)
    ensures FilterMap(a + b, f) == FilterMap(a, f) + FilterMap(b, f)
  {
    if |a| > 0 {
      assert (a + b)[1..] == a[1..] + b;
      FilterMapAppend(a[1..], b, f);
    } else {
      assert a + b == b;
    }
  }

  /** Appending one element appends what `f` yields on it, if anything. */
  lemma FilterMapSnoc<A, B(!new)>(init: seq<A>, x: A, f: A -> Option<B>)
    ensures FilterMap(init + [x], f) == FilterMap(init, f) + (if f(x).Some? then [f(x).value] else [])
  {
    FilterMapAppend(init, [x], f);
    assert [x][1..] == [];
  }

  /** `FilterMap` selects exactly the positions `Kept` lists: its j-th value is what
      `f` yields on the j-th kept element. */
  lemma {:induction false} FilterMapAtKept<A, B(!new)>(s: seq<A>, f: A -> Option<B>)
    ensures |FilterMap(s, f)| == |Kept(s, f)|
    ensures forall j :: 0 <= j < |Kept(s, f)| ==> FilterMap(s, f)[j] == f(s[Kept(s, f)[j]]).value
  {
    if |s| > 0 {
      var n := |s| - 1;
      var init := s[..n];
      var ki := Kept(init, f);
      FilterMapAtKept(init, f);
      assert FilterMap(s, f) == FilterMap(init, f) + (if f(s[n]).Some? then [f(s[n]).value] else []) by {
        assert s == init + [s[n]];
        FilterMapSnoc(init, s[n], f);
      }
      var fi := FilterMap(init, f);
      var ks := Kept(s, f);
      var fs := FilterMap(s, f);
      assert ks == if f(s[n]).Some? then ki + [n] else ki;
      forall j | 0 <= j < |ks|
        ensures fs[j] == f(s[ks[j]]).value
      {
        if j < |ki| {
          assert ks[j] == ki[j] && fs[j] == fi[j];
          assert s[ki[j]] == init[ki[j]];
        } else {
          assert ks[j] == n && fs[j] == f(s[n]).value;
        }
      }
    }
  }

  /** A filter deletes elements and keeps the rest in order. */
  lemma {:induction false} FilterIsSubsequence<T(!new)>(s: seq<T>, keep: T -> bool)
    ensures IsSubsequence(Filter(s, keep), s)
  {
    if |s| > 0 {
      FilterIsSubsequence(s[1..], keep);
      if !keep(s[0]) {
        SubsequenceOfTail(Filter(s[1..], keep), s);
      }
    }
  }

  /** Dropping the head of the longer sequence keeps a subsequence a subsequence. */
  lemma {:induction false} SubsequenceOfTail<T>(r: seq<T>, t: seq<T>)
    requires |t| > 0 && IsSubsequence(r, t[1..])
    ensures IsSubsequence(r, t)
    decreases |t|, 1
  {
    if |r| > 0 && r[0] == t[0] {
      DropHead(r, t[1..]);
    }
  }

  /** A subsequence stays one when its own first element is dropped. */
  lemma {:induction false} DropHead<T>(r: seq<T>, t: seq<T>)
    requires |r| > 0 && IsSubsequence(r, t)
    ensures IsSubsequence(r[1..], t)
    decreases |t|, 2
  {
    if r[0] != t[0] {
      DropHead(r, t[1..]);
    }
    SubsequenceOfTail(r[1..], t);
  }

  /** Filtering twice by the same test is filtering once. */
  lemma {:induction false} FilterIdempotent<T(!new)>(s: seq<T>, keep: T -> bool)
    ensures Filter(Filter(s, keep), keep) == Filter(s, keep)
  {
    if |s| > 0 {
      FilterIdempotent(s[1..], keep);
      var rest := Filter(s[1..], keep);
      if keep(s[0]) {
        assert ([s[0]] + rest)[1..] == rest;
      }
    }
  }
}
