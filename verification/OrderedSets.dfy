/** Sequences used as ordered sets, as `lo.Uniq`, `lo.Filter` and seen-set loops build them. */
module OrderedSets {

  ghost predicate Distinct<T>(s: seq<T>) {
    forall i, j :: 0 <= i < j < |s| ==> s[i] != s[j]
  }

  /** `lo.Uniq`: first occurrences, in order. */
  function Uniq<T(==)>(s: seq<T>): seq<T> {
    if s == [] then []
    else
      var n := |s| - 1;
      var u := Uniq(s[..n]);
      if s[n] in u then u else u + [s[n]]
  }

  /** `lo.Filter`. */
  function Filter<T>(s: seq<T>, keep: T -> bool): seq<T> {
    if s == [] then []
    else
      var n := |s| - 1;
      Filter(s[..n], keep) + if keep(s[n]) then [s[n]] else []
  }

  /** The elements of `s` not in `t`, in order. */
  function Minus<T(==)>(s: seq<T>, t: seq<T>): seq<T> {
    Filter(s, x => x !in t)
  }

  /** The elements of `s` also in `t`, in order. */
  function Only<T(==)>(s: seq<T>, t: seq<T>): seq<T> {
    Filter(s, x => x in t)
  }

  /** `a` arises from `b` by leaving elements out. */
  predicate Subsequence<T(==)>(a: seq<T>, b: seq<T>)
    decreases |b|
  {
    if a == [] then true
    else if b == [] then false
    else
      var m, n := |a| - 1, |b| - 1;
      if a[m] == b[n] then Subsequence(a[..m], b[..n]) else Subsequence(a, b[..n])
  }

  lemma {:induction false} UniqSpec<T>(s: seq<T>)
    ensures Distinct(Uniq(s)) && forall x :: x in Uniq(s) <==> x in s
  {
    if s != [] {
      var n := |s| - 1;
      UniqSpec(s[..n]);
      assert s == s[..n] + [s[n]];
    }
  }

  lemma {:induction false} UniqFixed<T>(s: seq<T>)
    requires Distinct(s)
    ensures Uniq(s) == s
  {
    if s != [] {
      var n := |s| - 1;
      UniqFixed(s[..n]);
      assert s == s[..n] + [s[n]];
    }
  }

  lemma SubsequenceSnoc<T>(a: seq<T>, b: seq<T>, x: T)
    requires Subsequence(a, b)
    ensures Subsequence(a + [x], b + [x])
    ensures x !in a ==> Subsequence(a, b + [x])
  {
    assert (a + [x])[..|a|] == a && (b + [x])[..|b|] == b;
    if a != [] {
      assert a[|a| - 1] in a;
    }
  }

  lemma {:induction false} FilterMembers<T>(s: seq<T>, keep: T -> bool)
    ensures forall x :: x in Filter(s, keep) <==> x in s && keep(x)
  {
    if s != [] {
      var n := |s| - 1;
      FilterMembers(s[..n], keep);
      assert s == s[..n] + [s[n]];
    }
  }

  lemma {:induction false} FilterOrder<T>(s: seq<T>, keep: T -> bool)
    requires Distinct(s)
    ensures Distinct(Filter(s, keep)) && Subsequence(Filter(s, keep), s)
  {
    if s != [] {
      var n := |s| - 1;
      var front, x, m := s[..n], s[n], Filter(s[..n], keep);
      assert Filter(s, keep) == m + if keep(x) then [x] else [];
      hide Filter, Subsequence;
      assert s == front + [x];
      DistinctSnoc(front, x);
      FilterOrder(front, keep);
      FilterMembers(front, keep);
      DistinctSnoc(m, x);
      SubsequenceSnoc(m, front, x);
      assert m + [] == m;
    }
  }

  lemma DistinctSnoc<T>(s: seq<T>, x: T)
    ensures Distinct(s + [x]) <==> Distinct(s) && x !in s
  {
    var t := s + [x];
    assert t[..|s|] == s && t[|s|] == x;
    assert forall i :: 0 <= i < |s| ==> t[i] == s[i];
  }

  /** A filter keeps exactly the elements that pass, in their order. */
  lemma FilterSpec<T>(s: seq<T>, keep: T -> bool)
    ensures forall x :: x in Filter(s, keep) <==> x in s && keep(x)
    ensures Distinct(s) ==> Distinct(Filter(s, keep)) && Subsequence(Filter(s, keep), s)
  {
    hide Filter;
    FilterMembers(s, keep);
    if Distinct(s) {
      FilterOrder(s, keep);
    }
  }

  lemma {:induction false} FilterAll<T>(s: seq<T>, keep: T -> bool)
    requires forall x :: x in s ==> keep(x)
    ensures Filter(s, keep) == s
  {
    if s != [] {
      var n := |s| - 1;
      assert s == s[..n] + [s[n]];
      assert s[n] in s;
      FilterAll(s[..n], keep);
    }
  }

  lemma {:induction false} FilterAgree<T>(s: seq<T>, p: T -> bool, q: T -> bool)
    requires forall x :: x in s ==> p(x) == q(x)
    ensures Filter(s, p) == Filter(s, q)
  {
    if s != [] {
      var n := |s| - 1;
      assert s[n] in s;
      FilterAgree(s[..n], p, q);
    }
  }

  lemma {:induction false} FilterNone<T>(s: seq<T>, keep: T -> bool)
    requires forall x :: x in s ==> !keep(x)
    ensures Filter(s, keep) == []
  {
    if s != [] {
      var n := |s| - 1;
      assert s[n] in s;
      FilterNone(s[..n], keep);
    }
  }

  lemma ConcatDistinct<T>(a: seq<T>, b: seq<T>)
    requires Distinct(a) && Distinct(b) && forall x :: x in b ==> x !in a
    ensures Distinct(a + b)
  {
    forall i, j | 0 <= i < j < |a + b|
      ensures (a + b)[i] != (a + b)[j]
    {
      if i < |a| <= j {
        assert b[j - |a|] in b;
      }
    }
  }
}
