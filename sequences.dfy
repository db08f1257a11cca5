/**
 * Sequence facts shared by the scan and the batch loop: ordered partitions
 * (`c` is a merge of `a` and `b` when every element of `c` comes, in order,
 * from exactly one of the two), sequences without repeats, and the in-order
 * selection a list comprehension with a filter computes.
 */
module Sequences {

  predicate Interleaves<T(==)>(a: seq<T>, b: seq<T>, c: seq<T>)
    decreases |c|
  {
    if c == [] then a == [] && b == []
    else
      || (a != [] && a[|a| - 1] == c[|c| - 1] && Interleaves(a[..|a| - 1], b, c[..|c| - 1]))
      || (b != [] && b[|b| - 1] == c[|c| - 1] && Interleaves(a, b[..|b| - 1], c[..|c| - 1]))
  }

  /** One more element, taken from the first part or from the second. */
  lemma MergeStep<T>(a: seq<T>, b: seq<T>, c: seq<T>, x: T, first: bool)
    requires Interleaves(a, b, c)
    ensures first ==> Interleaves(a + [x], b, c + [x])
    ensures !first ==> Interleaves(a, b + [x], c + [x])
  {
    assert (a + [x])[..|a|] == a && (b + [x])[..|b|] == b && (c + [x])[..|c|] == c;
  }

  predicate Distinct<T(==)>(s: seq<T>) {
    forall i, j :: 0 <= i < j < |s| ==> s[i] != s[j]
  }

  /** A merge holds every element exactly as often as the two parts together. */
  lemma {:induction false} InterleavesMultiset<T>(a: seq<T>, b: seq<T>, c: seq<T>)
    requires Interleaves(a, b, c)
    ensures multiset(a) + multiset(b) == multiset(c)
    decreases |c|
  {
    if c != [] {
      var x := c[|c| - 1];
      assert c == c[..|c| - 1] + [x];
      if a != [] && a[|a| - 1] == x && Interleaves(a[..|a| - 1], b, c[..|c| - 1]) {
        InterleavesMultiset(a[..|a| - 1], b, c[..|c| - 1]);
        assert a == a[..|a| - 1] + [x];
      } else {
        InterleavesMultiset(a, b[..|b| - 1], c[..|c| - 1]);
        assert b == b[..|b| - 1] + [x];
      }
    }
  }

  /** Splitting a sequence without repetitions gives two disjoint parts without repetitions. */
  lemma {:induction false} InterleavesDistinct<T>(a: seq<T>, b: seq<T>, c: seq<T>)
    requires Interleaves(a, b, c) && Distinct(c)
    ensures Distinct(a) && Distinct(b)
    ensures forall x :: x in a ==> x !in b
    decreases |c|
  {
    if c != [] {
      var x := c[|c| - 1];
      var c' := c[..|c| - 1];
      assert x !in c' by {
        forall i | 0 <= i < |c'| ensures c'[i] != x {
          assert c'[i] == c[i];
        }
      }
      assert Distinct(c') by {
        forall i, j | 0 <= i < j < |c'| ensures c'[i] != c'[j] {
          assert c'[i] == c[i] && c'[j] == c[j];
        }
      }
      if a != [] && a[|a| - 1] == x && Interleaves(a[..|a| - 1], b, c') {
        var a' := a[..|a| - 1];
        InterleavesDistinct(a', b, c');
        InterleavesMultiset(a', b, c');
        assert a == a' + [x];
        assert x !in a' && x !in b by {
          assert x !in multiset(c');
        }
        AppendFreshDistinct(a', x);
      } else {
        var b' := b[..|b| - 1];
        InterleavesDistinct(a, b', c');
        InterleavesMultiset(a, b', c');
        assert b == b' + [x];
        assert x !in a && x !in b' by {
          assert x !in multiset(c');
        }
        AppendFreshDistinct(b', x);
      }
    }
  }

  lemma AppendFreshDistinct<T>(s: seq<T>, x: T)
    requires Distinct(s) && x !in s
    ensures Distinct(s + [x])
  {
    var t := s + [x];
    forall i, j | 0 <= i < j < |t| ensures t[i] != t[j] {
      if j == |s| {
        assert t[i] == s[i];
      } else {
        assert t[i] == s[i] && t[j] == s[j];
      }
    }
  }

  lemma InConcat<T>(a: seq<T>, b: seq<T>, x: T)
    ensures x in a + b <==> x in a || x in b
  {
  }

  /** The first components of a sequence of pairs. */
  function Firsts<U, V>(pairs: seq<(U, V)>): seq<U> {
    seq(|pairs|, i requires 0 <= i < |pairs| => pairs[i].0)
  }

  /** `[f(x) for x in s if keep(x)]`, built from the front. */
  function Select<T, U>(s: seq<T>, keep: T -> bool, f: T -> U): seq<U> {
    if s == [] then []
    else
      var n := |s| - 1;
      Select(s[..n], keep, f) + if keep(s[n]) then [f(s[n])] else []
  }

  /** The last element adds its image when it is kept, and nothing otherwise. */
  lemma SelectStep<T, U>(s: seq<T>, keep: T -> bool, f: T -> U)
    requires s != []
    ensures var n := |s| - 1;
      Select(s, keep, f) == Select(s[..n], keep, f) + if keep(s[n]) then [f(s[n])] else []
  {
  }

  /** Something is selected iff it is the image of a kept element. */
  lemma {:induction false} SelectMembership<T, U>(s: seq<T>, keep: T -> bool, f: T -> U, y: U)
    ensures y in Select(s, keep, f) <==> exists i :: 0 <= i < |s| && keep(s[i]) && f(s[i]) == y
  {
    if s != [] {
      var n := |s| - 1;
      var before := Select(s[..n], keep, f);
      var last := if keep(s[n]) then [f(s[n])] else [];
      assert Select(s, keep, f) == before + last;
      assert y in before + last <==> y in before || y in last;
      SelectMembership(s[..n], keep, f, y);
      if y in before {
        var i :| 0 <= i < n && keep(s[..n][i]) && f(s[..n][i]) == y;
        assert s[..n][i] == s[i];
      }
      if exists i :: 0 <= i < |s| && keep(s[i]) && f(s[i]) == y {
        var i :| 0 <= i < |s| && keep(s[i]) && f(s[i]) == y;
        if i < n {
          assert s[..n][i] == s[i];
        }
      }
    }
  }

  /** Selecting pairs and keeping their first components is selecting the first components. */
  lemma {:induction false} SelectFirsts<T, U, V>(s: seq<T>, keep: T -> bool, g: T -> (U, V), f: T -> U)
    requires forall i :: 0 <= i < |s| ==> g(s[i]).0 == f(s[i])
    ensures Firsts(Select(s, keep, g)) == Select(s, keep, f)
  {
    if s != [] {
      var n := |s| - 1;
      assert forall i :: 0 <= i < n ==> s[..n][i] == s[i];
      SelectFirsts(s[..n], keep, g, f);
      var before := Select(s[..n], keep, g);
      if keep(s[n]) {
        assert Firsts(before + [g(s[n])]) == Firsts(before) + [f(s[n])];
      } else {
        assert Select(s, keep, g) == before;
      }
    }
  }

  /**
   * Splitting the kept elements by two exclusive tests splits the selection
   * into an ordered partition.
   */
  lemma {:induction false} SelectPartition<T, U>(s: seq<T>, keep: T -> bool, first: T -> bool, second: T -> bool, f: T -> U)
    requires forall i :: 0 <= i < |s| ==> keep(s[i]) == (first(s[i]) || second(s[i])) && !(first(s[i]) && second(s[i]))
    ensures Interleaves(Select(s, first, f), Select(s, second, f), Select(s, keep, f))
  {
    if s != [] {
      var n := |s| - 1;
      var init := s[..n];
      assert forall i :: 0 <= i < n ==> init[i] == s[i];
      SelectPartition(init, keep, first, second, f);
      var a, b, c := Select(init, first, f), Select(init, second, f), Select(init, keep, f);
      if first(s[n]) {
        assert Select(s, first, f) == a + [f(s[n])] && Select(s, second, f) == b && Select(s, keep, f) == c + [f(s[n])];
        MergeStep(a, b, c, f(s[n]), true);
      } else if second(s[n]) {
        assert Select(s, first, f) == a && Select(s, second, f) == b + [f(s[n])] && Select(s, keep, f) == c + [f(s[n])];
        MergeStep(a, b, c, f(s[n]), false);
      } else {
        assert Select(s, first, f) == a && Select(s, second, f) == b && Select(s, keep, f) == c;
      }
    }
  }

  /** Elements without repeats whose kept images never collide give images without repeats. */
  lemma {:induction false} SelectDistinct<T, U>(s: seq<T>, keep: T -> bool, f: T -> U)
    requires forall i, j :: 0 <= i < j < |s| && keep(s[i]) && keep(s[j]) ==> f(s[i]) != f(s[j])
    ensures Distinct(Select(s, keep, f))
  {
    if s != [] {
      var n := |s| - 1;
      var init := s[..n];
      assert forall i :: 0 <= i < n ==> init[i] == s[i];
      SelectDistinct(init, keep, f);
      if keep(s[n]) {
        SelectMembership(init, keep, f, f(s[n]));
        AppendFreshDistinct(Select(init, keep, f), f(s[n]));
      }
    }
  }

  /** Selection from three elements, element by element. */
  lemma SelectThree<T, U>(a: T, b: T, c: T, keep: T -> bool, f: T -> U)
    ensures Select([a, b, c], keep, f)
         == (if keep(a) then [f(a)] else []) + (if keep(b) then [f(b)] else []) + (if keep(c) then [f(c)] else [])
  {
    assert [a, b, c][..2] == [a, b] && [a, b][..1] == [a] && [a][..0] == [];
    SelectStep([a], keep, f);
    SelectStep([a, b], keep, f);
    SelectStep([a, b, c], keep, f);
  }
}
