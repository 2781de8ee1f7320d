/**
 * List operations shared by the schedule and layout tools: flattening,
 * duplicate-freedom, first-appearance de-duplication, `list.remove` and
 * filtering by membership.
 */
module Seqs {

  /** No element occurs twice (Python: `len(set(xs)) == len(xs)`). */
  predicate Distinct<T(==)>(s: seq<T>) {
    forall i, j :: 0 <= i < j < |s| ==> s[i] != s[j]
  }

  /** The elements of a list, as a set (`set(xs)`). */
  function Elems<T(!new)>(s: seq<T>): (r: set<T>)
    ensures forall x :: x in r <==> x in s
  {
    set x | x in s
  }

  /** Concatenation of the pieces, in order (`sum(pieces, [])`). */
  function Flatten<T>(ss: seq<seq<T>>): seq<T>
    decreases |ss|
  {
    if |ss| == 0 then [] else Flatten(ss[..|ss| - 1]) + ss[|ss| - 1]
  }

  /** A prefix one longer is the prefix with the next element appended. */
  lemma PrefixSnoc<T>(s: seq<T>, i: nat)
    requires i < |s|
    ensures s[..i + 1] == s[..i] + [s[i]]
  {
  }

  /** The prefix as long as the whole sequence is the sequence. */
  lemma PrefixAll<T>(s: seq<T>, i: nat)
    requires i == |s|
    ensures s[..i] == s
  {
  }

  /** Cutting a longer prefix back gives the shorter prefix. */
  lemma PrefixOfPrefix<T>(s: seq<T>, i: nat)
    requires i < |s|
    ensures s[..i + 1][..i] == s[..i]
  {
  }

  lemma AppendAssoc<T>(a: seq<T>, b: seq<T>, c: seq<T>)
    ensures a + b + c == a + (b + c)
  {
  }

  lemma {:induction false} FlattenAppend<T>(a: seq<seq<T>>, b: seq<seq<T>>)
    ensures Flatten(a + b) == Flatten(a) + Flatten(b)
    decreases |b|
  {
    if |b| > 0 {
      assert (a + b)[..|a + b| - 1] == a + b[..|b| - 1];
      FlattenAppend(a, b[..|b| - 1]);
    } else {
      assert a + b == a;
    }
  }

  lemma FlattenCons<T>(x: seq<T>, rest: seq<seq<T>>)
    ensures Flatten([x] + rest) == x + Flatten(rest)
  {
    FlattenAppend([x], rest);
    assert Flatten([x]) == Flatten([]) + x;
  }

  /** Every element of a piece is an element of the flattening, and conversely. */
  lemma {:induction false} FlattenMembers<T>(ss: seq<seq<T>>, x: T)
    ensures x in Flatten(ss) <==> exists i :: 0 <= i < |ss| && x in ss[i]
    decreases |ss|
  {
    if |ss| > 0 {
      FlattenMembers(ss[..|ss| - 1], x);
      if x in Flatten(ss[..|ss| - 1]) {
        var i :| 0 <= i < |ss| - 1 && x in ss[..|ss| - 1][i];
        assert x in ss[i];
      }
      if exists i :: 0 <= i < |ss| && x in ss[i] {
        var i :| 0 <= i < |ss| && x in ss[i];
        if i < |ss| - 1 {
          assert x in ss[..|ss| - 1][i];
        }
      }
    }
  }

  /**
   * The loop `for x in xs: if x not in acc: acc.append(x)`: extends `acc`
   * with the elements of `xs` it does not already hold.
   */
  function AddNew<T(==,!new)>(acc: seq<T>, xs: seq<T>): (r: seq<T>)
    ensures acc <= r
    ensures forall x :: x in r <==> x in acc || x in xs
    ensures Distinct(acc) ==> Distinct(r)
    decreases |xs|
  {
    if |xs| == 0 then acc
    else AddNew(if xs[0] in acc then acc else acc + [xs[0]], xs[1..])
  }

  /**
   * Reference definition: the elements of `s` at the positions where they
   * occur for the first time, in the order of those positions.
   */
  function FirstOccurrences<T(==,!new)>(s: seq<T>): (r: seq<T>)
    ensures forall x :: x in r <==> x in s
    ensures Distinct(r)
    decreases |s|
  {
    if |s| == 0 then []
    else
      var init := s[..|s| - 1];
      var last := s[|s| - 1];
      FirstOccurrences(init) + (if last in init then [] else [last])
  }

  /** Position of the first occurrence of `x` in `s`. */
  function IndexOf<T(==)>(s: seq<T>, x: T): (k: nat)
    requires x in s
    ensures k < |s| && s[k] == x && x !in s[..k]
    decreases |s|
  {
    if s[0] == x then 0
    else
      var k := IndexOf(s[1..], x);
      assert s[1..][..k] == s[1..k + 1];
      k + 1
  }

  lemma IndexOfPrefix<T>(s: seq<T>, t: seq<T>, x: T)
    requires x in s
    ensures IndexOf(s + t, x) == IndexOf(s, x)
  {
    var u := s + t;
    var k := IndexOf(s, x);
    var k' := IndexOf(u, x);
    assert forall m :: 0 <= m < k ==> u[m] == s[..k][m];
    assert forall m :: 0 <= m < k' ==> u[m] == u[..k'][m];
    assert u[k] == x;
  }

  /**
   * The first occurrences are listed in the order in which they first
   * appear in `s`.
   */
  lemma {:induction false} FirstOccurrencesOrdered<T(!new)>(s: seq<T>, i: int, j: int)
    requires 0 <= i < j < |FirstOccurrences(s)|
    ensures IndexOf(s, FirstOccurrences(s)[i]) < IndexOf(s, FirstOccurrences(s)[j])
    decreases |s|
  {
    var init := s[..|s| - 1];
    var last := s[|s| - 1];
    var f := FirstOccurrences(init);
    assert s == init + [last];
    assert FirstOccurrences(s)[i] == f[i];
    IndexOfPrefix(init, [last], f[i]);
    if j < |f| {
      assert FirstOccurrences(s)[j] == f[j];
      IndexOfPrefix(init, [last], f[j]);
      FirstOccurrencesOrdered(init, i, j);
    } else {
      assert FirstOccurrences(s)[j] == last && last !in init;
      assert forall m :: 0 <= m < |s| - 1 ==> s[m] == init[m];
      assert IndexOf(s, last) == |s| - 1;
    }
  }

  lemma FirstOccurrencesSnoc<T(!new)>(a: seq<T>, x: T)
    ensures FirstOccurrences(a + [x]) == FirstOccurrences(a) + (if x in a then [] else [x])
  {
    assert (a + [x])[..|a + [x]| - 1] == a;
  }

  lemma AddNewStep<T(!new)>(a: seq<T>, b: seq<T>)
    requires |b| > 0
    ensures AddNew(FirstOccurrences(a), b) == AddNew(FirstOccurrences(a + [b[0]]), b[1..])
  {
    var f := FirstOccurrences(a);
    var x := b[0];
    assert x in f <==> x in a;
    var g := if x in f then f else f + [x];
    FirstOccurrencesSnoc(a, x);
    assert FirstOccurrences(a + [x]) == g;
    assert AddNew(f, b) == AddNew(g, b[1..]);
  }

  lemma SnocAppend<T>(a: seq<T>, b: seq<T>)
    requires |b| > 0
    ensures (a + [b[0]]) + b[1..] == a + b
  {
    assert b == [b[0]] + b[1..];
  }

  /** The de-duplicating loop, started from the first occurrences of `a`, yields those of `a + b`. */
  lemma {:induction false} AddNewIsFirstOccurrences<T(!new)>(a: seq<T>, b: seq<T>)
    ensures AddNew(FirstOccurrences(a), b) == FirstOccurrences(a + b)
    decreases |b|
  {
    if |b| == 0 {
      assert a + b == a;
    } else {
      AddNewStep(a, b);
      AddNewIsFirstOccurrences(a + [b[0]], b[1..]);
      SnocAppend(a, b);
    }
  }

  /** Python's `list.remove(x)`: drop the first `x`, or fail when there is none. */
  function RemoveFirst<T(==)>(s: seq<T>, x: T): (r: seq<T>)
    requires x in s
    ensures |r| == |s| - 1
    ensures x in multiset(s) && multiset(r) == multiset(s) - multiset{x}
  {
    var i := IndexOf(s, x);
    assert s == s[..i] + [s[i]] + s[i + 1..];
    s[..i] + s[i + 1..]
  }

  /** The elements of `s` that lie in `keep`, in their original order. */
  function Filter<T(!new)>(s: seq<T>, keep: set<T>): (r: seq<T>)
    ensures |r| <= |s|
    ensures forall x :: x in r <==> x in s && x in keep
    ensures Distinct(s) ==> Distinct(r)
    decreases |s|
  {
    if |s| == 0 then []
    else (if s[0] in keep then [s[0]] else []) + Filter(s[1..], keep)
  }

  /** Filtering by a set that holds every element changes nothing. */
  lemma {:induction false} FilterAll<T(!new)>(s: seq<T>, keep: set<T>)
    requires forall x :: x in s ==> x in keep
    ensures Filter(s, keep) == s
    decreases |s|
  {
    if |s| > 0 {
      FilterAll(s[1..], keep);
    }
  }

  /** Only the members of `keep` that occur in `s` matter. */
  lemma {:induction false} FilterCongruent<T(!new)>(s: seq<T>, a: set<T>, b: set<T>)
    requires forall x :: x in s ==> (x in a <==> x in b)
    ensures Filter(s, a) == Filter(s, b)
    decreases |s|
  {
    if |s| > 0 {
      FilterCongruent(s[1..], a, b);
    }
  }

  /** Filtering twice is filtering once by the intersection. */
  lemma {:induction false} FilterFilter<T(!new)>(s: seq<T>, a: set<T>, b: set<T>)
    ensures Filter(Filter(s, a), b) == Filter(s, a * b)
    decreases |s|
  {
    if |s| > 0 {
      FilterFilter(s[1..], a, b);
      var head := if s[0] in a then [s[0]] else [];
      var f := Filter(s, a);
      assert f == head + Filter(s[1..], a);
      if s[0] in a {
        assert f[0] == s[0] && f[1..] == Filter(s[1..], a);
      } else {
        assert f == Filter(s[1..], a);
      }
    }
  }

  /** In a distinct sequence, removing the first `x` keeps every other element. */
  lemma {:induction false} RemoveFirstIsFilter<T(!new)>(s: seq<T>, x: T)
    requires Distinct(s) && x in s
    ensures RemoveFirst(s, x) == Filter(s, (set y | y in s) - {x})
    decreases |s|
  {
    var keep := (set y | y in s) - {x};
    if s[0] == x {
      assert forall y :: y in s[1..] ==> y in keep by {
        forall y | y in s[1..]
          ensures y in keep
        {
          var k :| 0 <= k < |s[1..]| && s[1..][k] == y;
          assert s[k + 1] == y;
        }
      }
      FilterAll(s[1..], keep);
    } else {
      assert x in s[1..];
      assert Distinct(s[1..]);
      RemoveFirstIsFilter(s[1..], x);
      FilterCongruent(s[1..], (set y | y in s[1..]) - {x}, keep);
      RemoveFirstCons(s, x);
    }
  }

  lemma RemoveFirstCons<T>(s: seq<T>, x: T)
    requires x in s && s[0] != x
    ensures x in s[1..] && RemoveFirst(s, x) == [s[0]] + RemoveFirst(s[1..], x)
  {
    assert x in s[1..];
    var t := s[1..];
    var j := IndexOf(t, x);
    assert IndexOf(s, x) == j + 1;
    assert s[..j + 1] == [s[0]] + t[..j];
    assert s[j + 2..] == t[j + 1..];
    AppendAssoc([s[0]], t[..j], t[j + 1..]);
  }

  /** A distinct sequence has as many elements as its set. */
  lemma {:induction false} DistinctCard<T>(s: seq<T>)
    requires Distinct(s)
    ensures |set x | x in s| == |s|
    decreases |s|
  {
    if |s| > 0 {
      var init := s[..|s| - 1];
      DistinctCard(init);
      assert (set x | x in s) == (set x | x in init) + {s[|s| - 1]};
      assert s[|s| - 1] !in init;
    }
  }

  /** A distinct sequence's multiset is its set, one copy each. */
  lemma DistinctMultiset<T>(s: seq<T>, t: seq<T>)
    requires Distinct(s) && Distinct(t)
    requires forall x :: x in s <==> x in t
    ensures multiset(s) == multiset(t)
  {
    forall x
      ensures multiset(s)[x] == multiset(t)[x]
    {
      DistinctCount(s, x);
      DistinctCount(t, x);
    }
  }

  lemma {:induction false} DistinctCount<T>(s: seq<T>, x: T)
    requires Distinct(s)
    ensures multiset(s)[x] == if x in s then 1 else 0
    decreases |s|
  {
    if |s| > 0 {
      var init := s[..|s| - 1];
      assert s == init + [s[|s| - 1]];
      DistinctCount(init, x);
      assert s[|s| - 1] !in init;
    }
  }
}
