/** Optional values: a missing cell of a data frame column. */
module Wrappers {
  datatype Option<+T> = None | Some(value: T)
}

/**
  Sequence vocabulary shared by the crash-query model: the elements of a
  list, duplicate freedom, occurrence counts, an order-preserving filter
  (a boolean row mask), subsequences, and `list(set(xs))`.
*/
module Seqs {

  /** The elements of `s`, collected from the back as the loops collect their lists. */
  function Elems<T(==,!new)>(s: seq<T>): (r: set<T>)
    ensures forall x :: x in r <==> x in s
    ensures |r| <= |s|
  {
    if s == [] then {}
    else
      var init := s[..|s| - 1];
      assert s == init + [s[|s| - 1]];
      Elems(init) + {s[|s| - 1]}
  }

  predicate NoDuplicates<T(==)>(s: seq<T>) {
    forall i, j :: 0 <= i < j < |s| ==> s[i] != s[j]
  }

  /** A list without repeats has exactly as many distinct elements as entries. */
  lemma {:induction false} DistinctCardinality<T(!new)>(s: seq<T>)
    requires NoDuplicates(s)
    ensures |Elems(s)| == |s|
  {
    if s != [] {
      var init := s[..|s| - 1];
      assert NoDuplicates(init);
      DistinctCardinality(init);
      forall i | 0 <= i < |init| ensures init[i] != s[|s| - 1] {
        assert s[i] == init[i];
      }
      assert s[|s| - 1] !in Elems(init);
    }
  }

  /** Number of entries of `s` equal to `x`. */
  function Occurrences<T(==)>(s: seq<T>, x: T): (n: nat)
    ensures n <= |s|
    ensures n > 0 <==> x in s
  {
    if s == [] then 0
    else (if s[0] == x then 1 else 0) + Occurrences(s[1..], x)
  }

  lemma {:induction false} OccurrencesAppend<T>(a: seq<T>, b: seq<T>, x: T)
    ensures Occurrences(a + b, x) == Occurrences(a, x) + Occurrences(b, x)
  {
    if a != [] {
      assert (a + b)[0] == a[0];
      assert (a + b)[1..] == a[1..] + b;
      OccurrencesAppend(a[1..], b, x);
    } else {
      assert a + b == b;
    }
  }

  /** In a list without repeats every value occurs at most once. */
  lemma {:induction false} DistinctOccurrences<T>(s: seq<T>, x: T)
    requires NoDuplicates(s)
    ensures Occurrences(s, x) == if x in s then 1 else 0
  {
    if s != [] {
      assert NoDuplicates(s[1..]);
      DistinctOccurrences(s[1..], x);
      if s[0] == x {
        forall i | 0 <= i < |s[1..]| ensures s[1..][i] != x {
          assert s[1..][i] == s[i + 1];
        }
      }
    }
  }

  /**
    The rows of `s` that satisfy `p`, in their original order: what a
    boolean mask `frame[mask]` keeps.
  */
  function Where<T(==,!new)>(s: seq<T>, p: T -> bool): (r: seq<T>)
    ensures forall x :: x in r <==> x in s && p(x)
    ensures |r| <= |s|
  {
    if s == [] then []
    else
      assert forall x :: x in s <==> x == s[0] || x in s[1..];
      (if p(s[0]) then [s[0]] else []) + Where(s[1..], p)
  }

  /** `a` is `b` with some entries deleted (order kept). */
  ghost predicate Subsequence<T>(a: seq<T>, b: seq<T>)
    decreases |b|
  {
    if a == [] then true
    else if b == [] then false
    else (a[0] == b[0] && Subsequence(a[1..], b[1..])) || Subsequence(a, b[1..])
  }

  lemma {:induction false} WhereIsSubsequence<T(!new)>(s: seq<T>, p: T -> bool)
    ensures Subsequence(Where(s, p), s)
  {
    if s != [] {
      WhereIsSubsequence(s[1..], p);
      var rest := Where(s[1..], p);
      if p(s[0]) {
        assert Where(s, p) == [s[0]] + rest;
        assert ([s[0]] + rest)[1..] == rest;
      } else {
        assert Where(s, p) == rest;
      }
    }
  }

  /** A mask keeps every copy of a row it accepts and no copy of a row it rejects. */
  lemma {:induction false} WhereOccurrences<T(!new)>(s: seq<T>, p: T -> bool, x: T)
    ensures Occurrences(Where(s, p), x) == if p(x) then Occurrences(s, x) else 0
  {
    if s != [] {
      WhereOccurrences(s[1..], p, x);
      var rest := Where(s[1..], p);
      if p(s[0]) {
        assert Where(s, p) == [s[0]] + rest;
        assert ([s[0]] + rest)[0] == s[0];
        assert ([s[0]] + rest)[1..] == rest;
      } else {
        assert Where(s, p) == rest;
      }
    }
  }

  lemma {:induction false} WhereAppend<T(!new)>(a: seq<T>, b: seq<T>, p: T -> bool)
    ensures Where(a + b, p) == Where(a, p) + Where(b, p)
  {
    if a != [] {
      assert (a + b)[0] == a[0];
      assert (a + b)[1..] == a[1..] + b;
      WhereAppend(a[1..], b, p);
    } else {
      assert a + b == b;
    }
  }

  /** Two masks applied one after the other keep what their conjunction keeps. */
  lemma {:induction false} WhereTwice<T(!new)>(s: seq<T>, p: T -> bool, q: T -> bool, both: T -> bool)
    requires forall x :: both(x) == (p(x) && q(x))
    ensures Where(Where(s, p), q) == Where(s, both)
  {
    if s != [] {
      WhereTwice(s[1..], p, q, both);
      var rest := Where(s[1..], p);
      if p(s[0]) {
        assert Where(s, p) == [s[0]] + rest;
        assert ([s[0]] + rest)[0] == s[0];
        assert ([s[0]] + rest)[1..] == rest;
      } else {
        assert Where(s, p) == rest;
      }
    }
  }

  /**
    Masking two lists that correspond entry by entry, with masks that
    agree on corresponding entries, leaves lists that still correspond.
  */
  lemma {:induction false} WhereCorresponds<A(!new), B(!new)>(xs: seq<A>, ys: seq<B>, p: A -> bool, q: B -> bool, rel: (A, B) -> bool)
    requires |xs| == |ys|
    requires forall i :: 0 <= i < |xs| ==> rel(xs[i], ys[i]) && p(xs[i]) == q(ys[i])
    ensures |Where(xs, p)| == |Where(ys, q)|
    ensures forall i :: 0 <= i < |Where(xs, p)| ==> rel(Where(xs, p)[i], Where(ys, q)[i])
  {
    if xs != [] {
      WhereCorresponds(xs[1..], ys[1..], p, q, rel);
    }
  }

  /** A mask that accepts every row keeps the frame as it is. */
  lemma {:induction false} WhereKeepsAll<T(!new)>(s: seq<T>, p: T -> bool)
    requires forall x :: x in s ==> p(x)
    ensures Where(s, p) == s
  {
    if s != [] {
      WhereKeepsAll(s[1..], p);
      assert [s[0]] + s[1..] == s;
    }
  }

  /** A mask that rejects every row leaves an empty frame. */
  lemma WhereKeepsNone<T(!new)>(s: seq<T>, p: T -> bool)
    requires forall x :: x in s ==> !p(x)
    ensures Where(s, p) == []
  {
  }

  /** What `ListOfSet` keeps true: `r` and `pending` split the elements of `s` between them. */
  ghost predicate Picking<T(!new)>(s: seq<T>, r: seq<T>, pending: set<T>) {
    && NoDuplicates(r)
    && pending !! Elems(r)
    && pending + Elems(r) == Elems(s)
    && |r| + |pending| == |Elems(s)|
  }

  lemma PickOne<T(!new)>(s: seq<T>, r: seq<T>, pending: set<T>, x: T)
    requires Picking(s, r, pending) && x in pending
    ensures Picking(s, r + [x], pending - {x})
  {
    var r' := r + [x];
    var pending' := pending - {x};
    assert x !in r by {
      assert x !in Elems(r);
    }
    assert NoDuplicates(r') by {
      assert forall i :: 0 <= i < |r| ==> r'[i] == r[i];
    }
    assert Elems(r') == Elems(r) + {x} by {
      assert r'[..|r|] == r;
    }
    assert |pending'| == |pending| - 1;
  }

  /**
    `list(set(s))`: the distinct elements of `s` in an order the model
    leaves open, picked one at a time from the set.
  */
  method ListOfSet<T(==,!new)>(s: seq<T>) returns (r: seq<T>)
    ensures NoDuplicates(r)
    ensures Elems(r) == Elems(s)
    ensures |r| <= |s|
  {
    var pending := Elems(s);
    r := [];
    while pending != {}
      invariant Picking(s, r, pending)
      decreases |pending|
    {
      var x :| x in pending;
      PickOne(s, r, pending, x);
      r := r + [x];
      pending := pending - {x};
    }
  }
}
