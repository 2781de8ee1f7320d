/**
 * The enumeration behind `get_id_subsets`: the schedule's ids with one, two
 * or three positions popped out, in the order of the source's nested loops.
 * Each branch is modelled as written, loop by loop, and shown equal to one
 * reference: every strictly increasing choice of positions to omit, in
 * lexicographic order.
 */
module Combinations {
  import opened Wrappers
  import opened Seqs

  /** `list.pop(i)` on a copy: `s` without its element at position `i`. */
  function RemoveAt<T>(s: seq<T>, i: int): (r: seq<T>)
    requires 0 <= i < |s|
    ensures |r| == |s| - 1
    ensures forall k :: 0 <= k < i ==> r[k] == s[k]
    ensures forall k :: i <= k < |r| ==> r[k] == s[k + 1]
  {
    s[..i] + s[i + 1..]
  }

  // ---------------------------------------------------------------------
  // Reference: keeping every position outside a set
  // ---------------------------------------------------------------------

  /** The elements of `s[p..]` whose positions are not in `omit`, in order. */
  function KeepFrom<T>(s: seq<T>, omit: set<int>, p: nat): seq<T>
    decreases |s| - p
  {
    if p >= |s| then [] else (if p in omit then [] else [s[p]]) + KeepFrom(s, omit, p + 1)
  }

  /** `s` with the positions in `omit` left out. */
  function Keep<T>(s: seq<T>, omit: set<int>): seq<T>
  {
    KeepFrom(s, omit, 0)
  }

  /** A stretch with no omitted position is copied whole. */
  lemma {:induction false} KeepFromCopies<T>(s: seq<T>, omit: set<int>, a: nat, p: nat)
    requires a <= p <= |s|
    requires forall q :: a <= q < p ==> q !in omit
    ensures KeepFrom(s, omit, a) == s[a..p] + KeepFrom(s, omit, p)
    decreases p - a
  {
    if a < p {
      var rest := KeepFrom(s, omit, p);
      assert a !in omit;
      assert KeepFrom(s, omit, a) == [s[a]] + KeepFrom(s, omit, a + 1);
      KeepFromCopies(s, omit, a + 1, p);
      AppendAssoc([s[a]], s[a + 1..p], rest);
      assert s[a..p] == [s[a]] + s[a + 1..p];
    }
  }

  /** Only the omitted positions at or after `p` matter. */
  lemma {:induction false} KeepFromCongruent<T>(s: seq<T>, x: set<int>, y: set<int>, p: nat)
    requires forall q :: p <= q < |s| ==> (q in x <==> q in y)
    ensures KeepFrom(s, x, p) == KeepFrom(s, y, p)
    decreases |s| - p
  {
    if p < |s| {
      KeepFromCongruent(s, x, y, p + 1);
    }
  }

  lemma KeepNothing<T>(s: seq<T>)
    ensures Keep(s, {}) == s
  {
    KeepFromCopies(s, {}, 0, |s|);
  }

  /**
   * Popping position `i` after omitting only later positions is omitting `i`
   * as well: the pops of the source, innermost index first, build up the
   * omitted set.
   */
  lemma RemoveAtKeep<T>(s: seq<T>, omit: set<int>, i: int)
    requires 0 <= i < |s|
    requires forall q :: q in omit ==> q > i
    ensures i < |Keep(s, omit)|
    ensures RemoveAt(Keep(s, omit), i) == Keep(s, omit + {i})
  {
    var t := KeepFrom(s, omit, i + 1);
    KeepKeptAt(s, omit, i);
    KeepOmittedAt(s, omit, i);
    var k := Keep(s, omit);
    assert k[..i] == s[..i];
    assert k[i + 1..] == t;
  }

  lemma KeepKeptAt<T>(s: seq<T>, omit: set<int>, i: int)
    requires 0 <= i < |s|
    requires forall q :: q in omit ==> q > i
    ensures Keep(s, omit) == s[..i] + [s[i]] + KeepFrom(s, omit, i + 1)
  {
    KeepFromCopies(s, omit, 0, i);
    var rest := KeepFrom(s, omit, i + 1);
    assert i !in omit;
    assert KeepFrom(s, omit, i) == [s[i]] + rest;
    assert s[0..i] == s[..i];
    AppendAssoc(s[..i], [s[i]], rest);
  }

  lemma KeepOmittedAt<T>(s: seq<T>, omit: set<int>, i: int)
    requires 0 <= i < |s|
    requires forall q :: q in omit ==> q > i
    ensures Keep(s, omit + {i}) == s[..i] + KeepFrom(s, omit, i + 1)
  {
    KeepFromCopies(s, omit + {i}, 0, i);
    assert KeepFrom(s, omit + {i}, i) == KeepFrom(s, omit + {i}, i + 1);
    KeepFromCongruent(s, omit + {i}, omit, i + 1);
    assert s[0..i] == s[..i];
  }

  /** The positions listed in `c`. */
  function SetOf(c: seq<int>): set<int>
  {
    set q | q in c
  }

  /** Each list of positions, applied as an omission to `s`. */
  function Omitting<T>(s: seq<T>, cs: seq<seq<int>>): (r: seq<seq<T>>)
    ensures |r| == |cs|
  {
    seq(|cs|, m requires 0 <= m < |cs| => Keep(s, SetOf(cs[m])))
  }

  lemma OmittingAppend<T>(s: seq<T>, a: seq<seq<int>>, b: seq<seq<int>>)
    ensures Omitting(s, a + b) == Omitting(s, a) + Omitting(s, b)
  {
  }

  /** `x` put in front of every list. */
  function Prefixed(x: int, cs: seq<seq<int>>): (r: seq<seq<int>>)
    ensures |r| == |cs|
    ensures forall m :: 0 <= m < |cs| ==> r[m] == [x] + cs[m]
  {
    seq(|cs|, m requires 0 <= m < |cs| => [x] + cs[m])
  }

  lemma PrefixedSingle(x: int, c: seq<int>)
    ensures Prefixed(x, [c]) == [[x] + c]
  {
    assert Prefixed(x, [c])[0] == [x] + c;
  }

  lemma PrefixedAppend(x: int, a: seq<seq<int>>, b: seq<seq<int>>)
    ensures Prefixed(x, a + b) == Prefixed(x, a) + Prefixed(x, b)
  {
  }

  /**
   * Every strictly increasing list of `k` positions drawn from `[lo, n)`,
   * in lexicographic order.
   */
  function Combos(lo: int, n: int, k: nat): seq<seq<int>>
    decreases n - lo
  {
    if k == 0 then [[]]
    else if lo >= n then []
    else Prefixed(lo, Combos(lo + 1, n, k - 1)) + Combos(lo + 1, n, k)
  }

  lemma CombosOneStep(lo: int, n: int)
    requires lo < n
    ensures Combos(lo, n, 1) == [[lo]] + Combos(lo + 1, n, 1)
  {
    PrefixedSingle(lo, []);
    assert [lo] + [] == [lo];
  }

  /** `m` choose `k`, by Pascal's rule. */
  function Binomial(m: nat, k: nat): nat
  {
    if k == 0 then 1 else if m == 0 then 0 else Binomial(m - 1, k - 1) + Binomial(m - 1, k)
  }

  // ---------------------------------------------------------------------
  // The source's loops, as written
  // ---------------------------------------------------------------------

  /** The single loop of the one-spare-id branch, from index `i` on. */
  function PopOne<T>(ids: seq<T>, i: nat): seq<seq<T>>
    decreases |ids| - i
  {
    if i >= |ids| then [] else [RemoveAt(ids, i)] + PopOne(ids, i + 1)
  }

  /** The inner loop of the two-spare-id branch: pop `j`, then `i`. */
  function PopTwoInner<T>(ids: seq<T>, i: nat, j: nat): seq<seq<T>>
    requires i < j
    decreases |ids| - j
  {
    if j >= |ids| then [] else [RemoveAt(RemoveAt(ids, j), i)] + PopTwoInner(ids, i, j + 1)
  }

  function PopTwo<T>(ids: seq<T>, i: nat): seq<seq<T>>
    decreases |ids| - i
  {
    if i >= |ids| then [] else PopTwoInner(ids, i, i + 1) + PopTwo(ids, i + 1)
  }

  /** The innermost loop of the three-spare-id branch: pop `k`, `j`, then `i`. */
  function PopThreeInnermost<T>(ids: seq<T>, i: nat, j: nat, k: nat): seq<seq<T>>
    requires i < j < k
    decreases |ids| - k
  {
    if k >= |ids| then []
    else [RemoveAt(RemoveAt(RemoveAt(ids, k), j), i)] + PopThreeInnermost(ids, i, j, k + 1)
  }

  function PopThreeMiddle<T>(ids: seq<T>, i: nat, j: nat): seq<seq<T>>
    requires i < j
    decreases |ids| - j
  {
    if j >= |ids| then [] else PopThreeInnermost(ids, i, j, j + 1) + PopThreeMiddle(ids, i, j + 1)
  }

  function PopThree<T>(ids: seq<T>, i: nat): seq<seq<T>>
    decreases |ids| - i
  {
    if i >= |ids| then [] else PopThreeMiddle(ids, i, i + 1) + PopThree(ids, i + 1)
  }

  /**
   * The subsets `get_id_subsets(ids, limit)` yields, in order, or None when
   * it raises because more than three ids would have to be left out (or
   * fewer than none).
   */
  function IdSubsets<T>(ids: seq<T>, limit: int): (r: Option<seq<seq<T>>>)
    ensures r.Some? <==> 0 <= |ids| - limit <= 3
    ensures r.Some? ==> forall m :: 0 <= m < |r.value| ==> |r.value[m]| == limit
    ensures r.Some? && limit == |ids| ==> r.value == [ids]
  {
    var extra := |ids| - limit;
    if extra == 0 then Some([ids])
    else if extra == 1 then PopOneLength(ids, 0); Some(PopOne(ids, 0))
    else if extra == 2 then PopTwoLength(ids, 0); Some(PopTwo(ids, 0))
    else if extra == 3 then PopThreeLength(ids, 0); Some(PopThree(ids, 0))
    else None
  }

  lemma {:induction false} PopOneLength<T>(ids: seq<T>, i: nat)
    ensures forall m :: 0 <= m < |PopOne(ids, i)| ==> |PopOne(ids, i)[m]| == |ids| - 1
    decreases |ids| - i
  {
    if i < |ids| {
      PopOneLength(ids, i + 1);
    }
  }

  lemma {:induction false} PopTwoInnerLength<T>(ids: seq<T>, i: nat, j: nat)
    requires i < j
    ensures forall m :: 0 <= m < |PopTwoInner(ids, i, j)| ==> |PopTwoInner(ids, i, j)[m]| == |ids| - 2
    decreases |ids| - j
  {
    if j < |ids| {
      PopTwoInnerLength(ids, i, j + 1);
    }
  }

  lemma {:induction false} PopTwoLength<T>(ids: seq<T>, i: nat)
    ensures forall m :: 0 <= m < |PopTwo(ids, i)| ==> |PopTwo(ids, i)[m]| == |ids| - 2
    decreases |ids| - i
  {
    if i < |ids| {
      PopTwoInnerLength(ids, i, i + 1);
      PopTwoLength(ids, i + 1);
    }
  }

  lemma {:induction false} PopThreeInnermostLength<T>(ids: seq<T>, i: nat, j: nat, k: nat)
    requires i < j < k
    ensures forall m :: 0 <= m < |PopThreeInnermost(ids, i, j, k)| ==>
              |PopThreeInnermost(ids, i, j, k)[m]| == |ids| - 3
    decreases |ids| - k
  {
    if k < |ids| {
      PopThreeInnermostLength(ids, i, j, k + 1);
    }
  }

  lemma {:induction false} PopThreeMiddleLength<T>(ids: seq<T>, i: nat, j: nat)
    requires i < j
    ensures forall m :: 0 <= m < |PopThreeMiddle(ids, i, j)| ==> |PopThreeMiddle(ids, i, j)[m]| == |ids| - 3
    decreases |ids| - j
  {
    if j < |ids| {
      PopThreeInnermostLength(ids, i, j, j + 1);
      PopThreeMiddleLength(ids, i, j + 1);
    }
  }

  lemma {:induction false} PopThreeLength<T>(ids: seq<T>, i: nat)
    ensures forall m :: 0 <= m < |PopThree(ids, i)| ==> |PopThree(ids, i)[m]| == |ids| - 3
    decreases |ids| - i
  {
    if i < |ids| {
      PopThreeMiddleLength(ids, i, i + 1);
      PopThreeLength(ids, i + 1);
    }
  }

  // ---------------------------------------------------------------------
  // The loops enumerate the reference
  // ---------------------------------------------------------------------

  lemma PopOneIsKeep<T>(ids: seq<T>, k: int)
    requires 0 <= k < |ids|
    ensures RemoveAt(ids, k) == Keep(ids, {k})
  {
    KeepNothing(ids);
    RemoveAtKeep(ids, {}, k);
    assert {} + {k} == {k};
  }

  lemma PopTwoIsKeep<T>(ids: seq<T>, j: int, k: int)
    requires 0 <= j < k < |ids|
    ensures RemoveAt(RemoveAt(ids, k), j) == Keep(ids, {j, k})
  {
    PopOneIsKeep(ids, k);
    RemoveAtKeep(ids, {k}, j);
    assert {k} + {j} == {j, k};
  }

  lemma PopThreeIsKeep<T>(ids: seq<T>, i: int, j: int, k: int)
    requires 0 <= i < j < k < |ids|
    ensures RemoveAt(RemoveAt(RemoveAt(ids, k), j), i) == Keep(ids, {i, j, k})
  {
    PopTwoIsKeep(ids, j, k);
    RemoveAtKeep(ids, {j, k}, i);
    assert {j, k} + {i} == {i, j, k};
  }

  lemma {:induction false} PopOneEnumerates<T>(ids: seq<T>, i: nat)
    ensures PopOne(ids, i) == Omitting(ids, Combos(i, |ids|, 1))
    decreases |ids| - i
  {
    if i < |ids| {
      PopOneEnumerates(ids, i + 1);
      CombosOneStep(i, |ids|);
      OmittingAppend(ids, [[i]], Combos(i + 1, |ids|, 1));
      PopOneIsKeep(ids, i);
      assert SetOf([i]) == {i};
    }
  }

  lemma {:induction false} PopTwoInnerEnumerates<T>(ids: seq<T>, i: nat, j: nat)
    requires i < j
    ensures PopTwoInner(ids, i, j) == Omitting(ids, Prefixed(i, Combos(j, |ids|, 1)))
    decreases |ids| - j
  {
    if j < |ids| {
      PopTwoInnerEnumerates(ids, i, j + 1);
      CombosOneStep(j, |ids|);
      PrefixedAppend(i, [[j]], Combos(j + 1, |ids|, 1));
      PrefixedSingle(i, [j]);
      assert [i] + [j] == [i, j];
      OmittingAppend(ids, [[i, j]], Prefixed(i, Combos(j + 1, |ids|, 1)));
      PopTwoIsKeep(ids, i, j);
      assert SetOf([i, j]) == {i, j};
    }
  }

  lemma {:induction false} PopTwoEnumerates<T>(ids: seq<T>, i: nat)
    ensures PopTwo(ids, i) == Omitting(ids, Combos(i, |ids|, 2))
    decreases |ids| - i
  {
    if i < |ids| {
      PopTwoEnumerates(ids, i + 1);
      PopTwoInnerEnumerates(ids, i, i + 1);
      OmittingAppend(ids, Prefixed(i, Combos(i + 1, |ids|, 1)), Combos(i + 1, |ids|, 2));
    }
  }

  lemma {:induction false} PopThreeInnermostEnumerates<T>(ids: seq<T>, i: nat, j: nat, k: nat)
    requires i < j < k
    ensures PopThreeInnermost(ids, i, j, k) == Omitting(ids, Prefixed(i, Prefixed(j, Combos(k, |ids|, 1))))
    decreases |ids| - k
  {
    if k < |ids| {
      PopThreeInnermostEnumerates(ids, i, j, k + 1);
      var rest := Combos(k + 1, |ids|, 1);
      CombosOneStep(k, |ids|);
      PrefixedAppend(j, [[k]], rest);
      PrefixedSingle(j, [k]);
      assert [j] + [k] == [j, k];
      PrefixedAppend(i, [[j, k]], Prefixed(j, rest));
      PrefixedSingle(i, [j, k]);
      assert [i] + [j, k] == [i, j, k];
      var tail := Prefixed(i, Prefixed(j, rest));
      assert Prefixed(i, Prefixed(j, Combos(k, |ids|, 1))) == [[i, j, k]] + tail;
      OmittingAppend(ids, [[i, j, k]], tail);
      PopThreeIsKeep(ids, i, j, k);
      assert SetOf([i, j, k]) == {i, j, k};
      assert Omitting(ids, [[i, j, k]]) == [Keep(ids, {i, j, k})];
    }
  }

  lemma {:induction false} PopThreeMiddleEnumerates<T>(ids: seq<T>, i: nat, j: nat)
    requires i < j
    ensures PopThreeMiddle(ids, i, j) == Omitting(ids, Prefixed(i, Combos(j, |ids|, 2)))
    decreases |ids| - j
  {
    if j < |ids| {
      PopThreeMiddleEnumerates(ids, i, j + 1);
      PopThreeInnermostEnumerates(ids, i, j, j + 1);
      var a := Prefixed(j, Combos(j + 1, |ids|, 1));
      var b := Combos(j + 1, |ids|, 2);
      assert Combos(j, |ids|, 2) == a + b;
      PrefixedAppend(i, a, b);
      OmittingAppend(ids, Prefixed(i, a), Prefixed(i, b));
    }
  }

  lemma {:induction false} PopThreeEnumerates<T>(ids: seq<T>, i: nat)
    ensures PopThree(ids, i) == Omitting(ids, Combos(i, |ids|, 3))
    decreases |ids| - i
  {
    if i < |ids| {
      PopThreeEnumerates(ids, i + 1);
      PopThreeMiddleEnumerates(ids, i, i + 1);
      OmittingAppend(ids, Prefixed(i, Combos(i + 1, |ids|, 2)), Combos(i + 1, |ids|, 3));
    }
  }

  /**
   * Whenever `get_id_subsets` does not raise, it yields `ids` with each
   * increasing choice of `|ids| - limit` positions left out, in
   * lexicographic order of the chosen positions.
   */
  lemma IdSubsetsEnumerate<T>(ids: seq<T>, limit: int)
    requires 0 <= |ids| - limit <= 3
    ensures IdSubsets(ids, limit) == Some(Omitting(ids, Combos(0, |ids|, |ids| - limit)))
  {
    var extra := |ids| - limit;
    if extra == 0 {
      KeepNothing(ids);
      assert SetOf([]) == {};
      assert Omitting(ids, [[]]) == [Keep(ids, SetOf([]))];
    } else if extra == 1 {
      PopOneEnumerates(ids, 0);
    } else if extra == 2 {
      PopTwoEnumerates(ids, 0);
    } else {
      PopThreeEnumerates(ids, 0);
    }
  }

  // ---------------------------------------------------------------------
  // Properties of the reference enumeration
  // ---------------------------------------------------------------------

  predicate Increasing(c: seq<int>) {
    forall a, b :: 0 <= a < b < |c| ==> c[a] < c[b]
  }

  /** A list of `k` increasing positions inside `[lo, n)`. */
  predicate IsChoice(c: seq<int>, lo: int, n: int, k: nat) {
    |c| == k && Increasing(c) && forall a :: 0 <= a < |c| ==> lo <= c[a] < n
  }

  lemma {:induction false} CombosAreChoices(lo: int, n: int, k: nat)
    ensures forall c :: c in Combos(lo, n, k) ==> IsChoice(c, lo, n, k)
    decreases n - lo
  {
    if k > 0 && lo < n {
      CombosAreChoices(lo + 1, n, k - 1);
      CombosAreChoices(lo + 1, n, k);
      forall c | c in Prefixed(lo, Combos(lo + 1, n, k - 1))
        ensures IsChoice(c, lo, n, k)
      {
        var m :| 0 <= m < |Combos(lo + 1, n, k - 1)| && c == Prefixed(lo, Combos(lo + 1, n, k - 1))[m];
        assert IsChoice(Combos(lo + 1, n, k - 1)[m], lo + 1, n, k - 1);
      }
    }
  }

  /** A choice starting at `lo` continues with a choice from `[lo + 1, n)`. */
  lemma ChoiceTail(c: seq<int>, lo: int, n: int, k: nat)
    requires IsChoice(c, lo, n, k) && k > 0 && c[0] == lo
    ensures IsChoice(c[1..], lo + 1, n, k - 1)
  {
    forall a | 0 <= a < |c[1..]|
      ensures lo + 1 <= c[1..][a] < n
    {
      assert c[1..][a] == c[a + 1] > c[0];
    }
  }

  /** A choice not starting at `lo` is a choice from `[lo + 1, n)`. */
  lemma ChoiceRaise(c: seq<int>, lo: int, n: int, k: nat)
    requires IsChoice(c, lo, n, k) && k > 0 && c[0] != lo
    ensures IsChoice(c, lo + 1, n, k)
  {
    forall a | 0 <= a < |c|
      ensures lo + 1 <= c[a]
    {
      if a > 0 {
        assert c[0] < c[a];
      }
    }
  }

  /** Every increasing choice of `k` positions in `[lo, n)` is enumerated. */
  lemma {:induction false} CombosComplete(c: seq<int>, lo: int, n: int, k: nat)
    requires IsChoice(c, lo, n, k)
    ensures c in Combos(lo, n, k)
    decreases n - lo
  {
    if k > 0 {
      assert lo <= c[0] < n;
      var rest := Combos(lo + 1, n, k - 1);
      assert Combos(lo, n, k) == Prefixed(lo, rest) + Combos(lo + 1, n, k);
      if c[0] == lo {
        ChoiceTail(c, lo, n, k);
        CombosComplete(c[1..], lo + 1, n, k - 1);
        var m :| 0 <= m < |rest| && rest[m] == c[1..];
        assert [lo] + c[1..] == c;
        assert Prefixed(lo, rest)[m] == c;
      } else {
        ChoiceRaise(c, lo, n, k);
        CombosComplete(c, lo + 1, n, k);
      }
    }
  }

  /** No choice of positions is enumerated twice. */
  lemma {:induction false} CombosDistinct(lo: int, n: int, k: nat)
    ensures Distinct(Combos(lo, n, k))
    decreases n - lo
  {
    if k > 0 && lo < n {
      var a := Prefixed(lo, Combos(lo + 1, n, k - 1));
      var b := Combos(lo + 1, n, k);
      CombosDistinct(lo + 1, n, k - 1);
      CombosDistinct(lo + 1, n, k);
      CombosAreChoices(lo + 1, n, k);
      assert Distinct(a) by {
        forall x, y | 0 <= x < y < |a|
          ensures a[x] != a[y]
        {
          assert a[x][1..] == Combos(lo + 1, n, k - 1)[x];
          assert a[y][1..] == Combos(lo + 1, n, k - 1)[y];
        }
      }
      forall x, y | 0 <= x < |a| && 0 <= y < |b|
        ensures a[x] != b[y]
      {
        assert a[x][0] == lo;
        assert b[y] in b;
        assert IsChoice(b[y], lo + 1, n, k);
      }
      var ab := a + b;
      forall x, y | 0 <= x < y < |ab|
        ensures ab[x] != ab[y]
      {
        if y < |a| {
          assert ab[x] == a[x] && ab[y] == a[y];
        } else if x >= |a| {
          assert ab[x] == b[x - |a|] && ab[y] == b[y - |a|];
        } else {
          assert ab[x] == a[x] && ab[y] == b[y - |a|];
        }
      }
    }
  }

  /** There are `(n - lo)` choose `k` of them. */
  lemma {:induction false} CombosCount(lo: int, n: int, k: nat)
    requires lo <= n
    ensures |Combos(lo, n, k)| == Binomial(n - lo, k)
    decreases n - lo
  {
    if k > 0 && lo < n {
      CombosCount(lo + 1, n, k - 1);
      CombosCount(lo + 1, n, k);
    }
  }

  lemma {:induction false} BinomialOne(m: nat)
    ensures Binomial(m, 1) == m
    decreases m
  {
    if m > 0 {
      BinomialOne(m - 1);
    }
  }

  lemma {:induction false} BinomialTwo(m: nat)
    ensures 2 * Binomial(m, 2) == m * (m - 1)
    decreases m
  {
    if m > 0 {
      BinomialTwo(m - 1);
      BinomialOne(m - 1);
      assert (m - 1) * (m - 2) + 2 * (m - 1) == m * (m - 1);
    }
  }

  lemma {:induction false} BinomialThree(m: nat)
    ensures 6 * Binomial(m, 3) == m * (m - 1) * (m - 2)
    decreases m
  {
    if m > 0 {
      BinomialThree(m - 1);
      BinomialTwo(m - 1);
      var a := (m - 1) * (m - 2);
      assert 6 * Binomial(m - 1, 3) == a * (m - 3);
      assert 6 * Binomial(m - 1, 2) == 3 * a;
      assert 6 * Binomial(m, 3) == a * (m - 3) + 3 * a;
      assert a * (m - 3) + 3 * a == a * m;
      assert a * m == m * (m - 1) * (m - 2);
    }
  }

  lemma SetOfEmpty(c: seq<int>)
    ensures SetOf(c) == {} <==> |c| == 0
  {
    if |c| > 0 {
      assert c[0] in SetOf(c);
    }
  }

  /** The first of an increasing list is its least position ... */
  lemma IncreasingHead(c: seq<int>, q: int)
    requires Increasing(c) && q in SetOf(c)
    ensures |c| > 0 && c[0] <= q
  {
    var x :| 0 <= x < |c| && c[x] == q;
    if x > 0 {
      assert c[0] < c[x];
    }
  }

  /** ... and the rest is increasing and holds the other positions. */
  lemma IncreasingTail(c: seq<int>)
    requires Increasing(c) && |c| > 0
    ensures Increasing(c[1..]) && SetOf(c[1..]) == SetOf(c) - {c[0]}
  {
    forall q | q in c[1..]
      ensures q != c[0]
    {
      var x :| 0 <= x < |c[1..]| && c[1..][x] == q;
      assert c[x + 1] > c[0];
    }
    assert c == [c[0]] + c[1..];
  }

  /** Two increasing position lists with the same positions are the same list. */
  lemma {:induction false} IncreasingBySet(c: seq<int>, d: seq<int>)
    requires Increasing(c) && Increasing(d) && SetOf(c) == SetOf(d)
    ensures c == d
    decreases |c|
  {
    SetOfEmpty(c);
    SetOfEmpty(d);
    if |c| > 0 {
      assert c[0] in SetOf(c) && d[0] in SetOf(d);
      IncreasingHead(c, d[0]);
      IncreasingHead(d, c[0]);
      IncreasingTail(c);
      IncreasingTail(d);
      IncreasingBySet(c[1..], d[1..]);
      assert c == [c[0]] + c[1..] && d == [d[0]] + d[1..];
    }
  }

  /**
   * The source's own tests, in general form: with `e = |ids| - limit` spare
   * ids (at most three), there are `|ids|` choose `e` subsets; each leaves out
   * exactly `e` positions; no two leave out the same positions; and every
   * set of `e` positions is left out by one of them.
   */
  lemma IdSubsetsExplore<T>(ids: seq<T>, limit: int)
    requires 0 <= |ids| - limit <= 3
    ensures var e := |ids| - limit;
            var subsets := IdSubsets(ids, limit).value;
            var cs := Combos(0, |ids|, e);
            && subsets == Omitting(ids, cs)
            && |subsets| == Binomial(|ids|, e)
            && (forall m :: 0 <= m < |subsets| ==>
                  IsChoice(cs[m], 0, |ids|, e) && subsets[m] == Keep(ids, SetOf(cs[m])))
            && (forall x, y :: 0 <= x < y < |cs| ==> SetOf(cs[x]) != SetOf(cs[y]))
            && (forall c :: IsChoice(c, 0, |ids|, e) ==> exists m :: 0 <= m < |cs| && cs[m] == c)
  {
    var e := |ids| - limit;
    var cs := Combos(0, |ids|, e);
    IdSubsetsEnumerate(ids, limit);
    var subsets := IdSubsets(ids, limit).value;
    assert subsets == Omitting(ids, cs);
    CombosCount(0, |ids|, e);
    CombosAllChoices(|ids|, e);
    forall m | 0 <= m < |subsets|
      ensures IsChoice(cs[m], 0, |ids|, e) && subsets[m] == Keep(ids, SetOf(cs[m]))
    {
    }
    CombosSetsDistinct(|ids|, e);
    CombosCompleteAll(|ids|, e);
  }

  /**
   * How many subsets `get_id_subsets` yields, in closed form: one with no
   * spare id, `n` with one, `n(n-1)/2` with two and `n(n-1)(n-2)/6` with three.
   */
  lemma IdSubsetsCount<T>(ids: seq<T>, limit: int)
    requires 0 <= |ids| - limit <= 3
    ensures var n := |ids|;
            var count := |IdSubsets(ids, limit).value|;
            && (n - limit == 0 ==> count == 1)
            && (n - limit == 1 ==> count == n)
            && (n - limit == 2 ==> 2 * count == n * (n - 1))
            && (n - limit == 3 ==> 6 * count == n * (n - 1) * (n - 2))
  {
    IdSubsetsExplore(ids, limit);
    BinomialOne(|ids|);
    BinomialTwo(|ids|);
    BinomialThree(|ids|);
  }

  /** The counts the source's tests expect: three subsets of three ids for two teams, six of four. */
  lemma IdSubsetsTestCounts(three: seq<int>, four: seq<int>)
    requires |three| == 3 && |four| == 4
    ensures |IdSubsets(three, 2).value| == 3
    ensures |IdSubsets(four, 2).value| == 6
  {
    IdSubsetsCount(three, 2);
    IdSubsetsCount(four, 2);
  }

  lemma CombosAllChoices(n: int, e: nat)
    ensures forall m :: 0 <= m < |Combos(0, n, e)| ==> IsChoice(Combos(0, n, e)[m], 0, n, e)
  {
    var cs := Combos(0, n, e);
    CombosAreChoices(0, n, e);
    forall m | 0 <= m < |cs|
      ensures IsChoice(cs[m], 0, n, e)
    {
      assert cs[m] in cs;
    }
  }

  lemma CombosSetsDistinct(n: int, e: nat)
    ensures forall x, y :: 0 <= x < y < |Combos(0, n, e)| ==> SetOf(Combos(0, n, e)[x]) != SetOf(Combos(0, n, e)[y])
  {
    var cs := Combos(0, n, e);
    CombosAllChoices(n, e);
    CombosDistinct(0, n, e);
    forall x, y | 0 <= x < y < |cs|
      ensures SetOf(cs[x]) != SetOf(cs[y])
    {
      if SetOf(cs[x]) == SetOf(cs[y]) {
        IncreasingBySet(cs[x], cs[y]);
      }
    }
  }

  lemma CombosCompleteAll(n: int, e: nat)
    ensures forall c :: IsChoice(c, 0, n, e) ==> exists m :: 0 <= m < |Combos(0, n, e)| && Combos(0, n, e)[m] == c
  {
    forall c | IsChoice(c, 0, n, e)
      ensures exists m :: 0 <= m < |Combos(0, n, e)| && Combos(0, n, e)[m] == c
    {
      var m := CombosIndex(c, n, e);
    }
  }

  /** Where a choice of positions sits in the enumeration. */
  lemma CombosIndex(c: seq<int>, n: int, e: nat) returns (m: nat)
    requires IsChoice(c, 0, n, e)
    ensures m < |Combos(0, n, e)| && Combos(0, n, e)[m] == c
  {
    CombosComplete(c, 0, n, e);
    m := IndexOf(Combos(0, n, e), c);
  }

  /** Keeping positions of a distinct list yields a distinct list of its elements. */
  lemma {:induction false} KeepFromDistinct<T>(s: seq<T>, omit: set<int>, p: nat)
    requires Distinct(s)
    ensures Distinct(KeepFrom(s, omit, p))
    ensures forall x :: x in KeepFrom(s, omit, p) ==> x in s[p..]
    decreases |s| - p
  {
    if p < |s| {
      KeepFromDistinct(s, omit, p + 1);
      var rest := KeepFrom(s, omit, p + 1);
      forall x | x in rest
        ensures x != s[p]
      {
        var q :| p + 1 <= q < |s| && s[q] == x by {
          var y :| 0 <= y < |s[p + 1..]| && s[p + 1..][y] == x;
          assert s[p + 1 + y] == x;
        }
      }
      forall x | x in rest
        ensures x in s[p..]
      {
        var y :| 0 <= y < |s[p + 1..]| && s[p + 1..][y] == x;
        assert s[p..][y + 1] == x;
      }
      assert s[p..][0] == s[p];
      var r := KeepFrom(s, omit, p);
      if p !in omit {
        assert r == [s[p]] + rest;
        forall x, y | 0 <= x < y < |r|
          ensures r[x] != r[y]
        {
          assert r[y] == rest[y - 1];
          if x > 0 {
            assert r[x] == rest[x - 1];
          } else {
            assert rest[y - 1] in rest;
          }
        }
      }
    }
  }
}
