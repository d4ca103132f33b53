/** `slice::sort_by` with a comparator: a stable sort. The model sorts by
    insertion, which produces the one stable ordering that any stable sort
    produces; the lemmas show that the result is a permutation of the input and
    is ordered by the comparator. */
module Sorting {
  import opened Prelude

  /** What `sort_by` expects of its comparator: flipping the arguments flips
      the answer, and "not greater" is transitive. */
  ghost predicate TotalPreorder<T(!new)>(cmp: (T, T) -> Ordering) {
    && (forall a, b :: cmp(b, a) == cmp(a, b).Flip())
    && (forall a, b, c :: cmp(a, b) != Greater && cmp(b, c) != Greater ==> cmp(a, c) != Greater)
  }

  ghost predicate SortedBy<T>(cmp: (T, T) -> Ordering, s: seq<T>) {
    forall i, j :: 0 <= i < j < |s| ==> cmp(s[i], s[j]) != Greater
  }

  /** Put `x` before the first element it is not greater than. */
  function Insert<T>(x: T, s: seq<T>, cmp: (T, T) -> Ordering): (r: seq<T>)
    ensures multiset(r) == multiset(s) + multiset{x}
  {
    if s == [] then [x]
    else if cmp(x, s[0]) == Greater then
      assert s == [s[0]] + s[1..];
      [s[0]] + Insert(x, s[1..], cmp)
    else [x] + s
  }

  /** The stable sort of `s` by `cmp`. */
  function SortBy<T>(s: seq<T>, cmp: (T, T) -> Ordering): (r: seq<T>)
    ensures multiset(r) == multiset(s)
  {
    if s == [] then []
    else
      assert s == [s[0]] + s[1..];
      Insert(s[0], SortBy(s[1..], cmp), cmp)
  }

  lemma {:induction false} InsertSorted<T(!new)>(x: T, s: seq<T>, cmp: (T, T) -> Ordering)
    requires TotalPreorder(cmp)
    requires SortedBy(cmp, s)
    ensures SortedBy(cmp, Insert(x, s, cmp))
    decreases |s|
  {
    if s != [] {
      if cmp(x, s[0]) == Greater {
        var tail := Insert(x, s[1..], cmp);
        InsertSorted(x, s[1..], cmp);
        SortedTail(cmp, s);
        assert cmp(s[0], x) == Less;
        forall e | e in tail ensures cmp(s[0], e) != Greater {
          assert e in multiset(tail);
          if e != x {
            assert e in multiset(s[1..]);
            var j :| 0 <= j < |s[1..]| && s[1..][j] == e;
            assert s[j + 1] == e;
          }
        }
        ConsSorted(s[0], tail, cmp);
      } else {
        forall e | e in s ensures cmp(x, e) != Greater {
          var j :| 0 <= j < |s| && s[j] == e;
          if j > 0 {
            assert cmp(s[0], s[j]) != Greater;
          }
        }
        ConsSorted(x, s, cmp);
      }
    }
  }

  /** An element not above any element of a sorted sequence can go first. */
  lemma ConsSorted<T>(h: T, t: seq<T>, cmp: (T, T) -> Ordering)
    requires SortedBy(cmp, t)
    requires forall e :: e in t ==> cmp(h, e) != Greater
    ensures SortedBy(cmp, [h] + t)
  {
    var r := [h] + t;
    forall i, j | 0 <= i < j < |r| ensures cmp(r[i], r[j]) != Greater {
      if i == 0 {
        assert r[j] == t[j - 1] && t[j - 1] in t;
      } else {
        assert r[i] == t[i - 1] && r[j] == t[j - 1];
      }
    }
  }

  /** The output of the sort is ordered by the comparator. */
  lemma {:induction false} SortBySorted<T(!new)>(s: seq<T>, cmp: (T, T) -> Ordering)
    requires TotalPreorder(cmp)
    ensures SortedBy(cmp, SortBy(s, cmp))
  {
    if s != [] {
      SortBySorted(s[1..], cmp);
      InsertSorted(s[0], SortBy(s[1..], cmp), cmp);
    }
  }

  lemma MultisetOfTail<T>(s: seq<T>)
    requires s != []
    ensures multiset(s[1..]) == multiset(s) - multiset{s[0]}
  {
    assert s == [s[0]] + s[1..];
  }

  lemma SortedTail<T>(cmp: (T, T) -> Ordering, s: seq<T>)
    requires SortedBy(cmp, s) && s != []
    ensures SortedBy(cmp, s[1..])
  {
    forall i, j | 0 <= i < j < |s| - 1 ensures cmp(s[1..][i], s[1..][j]) != Greater {
      assert s[1..][i] == s[i + 1] && s[1..][j] == s[j + 1];
    }
  }

  lemma HeadsAgree<T(!new)>(s: seq<T>, t: seq<T>, cmp: (T, T) -> Ordering)
    requires TotalPreorder(cmp)
    requires forall a, b :: a in s && b in s && cmp(a, b) == Equal ==> a == b
    requires SortedBy(cmp, s) && SortedBy(cmp, t)
    requires multiset(s) == multiset(t)
    requires s != []
    ensures t != [] && s[0] == t[0]
  {
    assert s[0] in multiset(t);
    var i :| 0 <= i < |t| && t[i] == s[0];
    assert t[0] in multiset(s);
    var j :| 0 <= j < |s| && s[j] == t[0];
    assert cmp(t[0], s[0]) != Greater by { if i > 0 { assert cmp(t[0], t[i]) != Greater; } }
    assert cmp(s[0], t[0]) != Greater by { if j > 0 { assert cmp(s[0], s[j]) != Greater; } }
    assert cmp(t[0], s[0]) == cmp(s[0], t[0]).Flip();
    assert t[0] in s;
  }

  /** When the comparator calls only identical elements equal, there is one
      ordered arrangement of a multiset of elements. */
  lemma {:induction false} SortedUnique<T(!new)>(s: seq<T>, t: seq<T>, cmp: (T, T) -> Ordering)
    requires TotalPreorder(cmp)
    requires forall a, b :: a in s && b in s && cmp(a, b) == Equal ==> a == b
    requires SortedBy(cmp, s) && SortedBy(cmp, t)
    requires multiset(s) == multiset(t)
    ensures s == t
    decreases |s|
  {
    if s == [] {
      assert |t| == |multiset(t)| == 0;
    } else {
      HeadsAgree(s, t, cmp);
      var s', t' := s[1..], t[1..];
      assert multiset(s') == multiset(t') by {
        MultisetOfTail(s);
        MultisetOfTail(t);
      }
      assert SortedBy(cmp, s') && SortedBy(cmp, t') by {
        SortedTail(cmp, s);
        SortedTail(cmp, t);
      }
      assert forall a, b :: a in s' && b in s' && cmp(a, b) == Equal ==> a == b by {
        assert forall a :: a in s' ==> a in s;
      }
      SortedUnique(s', t', cmp);
      assert s == [s[0]] + s' && t == [t[0]] + t';
    }
  }

  /** Each element strictly below the next. */
  ghost predicate StrictChain<T>(cmp: (T, T) -> Ordering, s: seq<T>) {
    forall i :: 0 <= i < |s| - 1 ==> cmp(s[i], s[i + 1]) == Less
  }

  /** Under a total preorder a strict chain is strictly increasing throughout. */
  lemma {:induction false} ChainIncreasing<T(!new)>(cmp: (T, T) -> Ordering, s: seq<T>, i: nat, j: nat)
    requires TotalPreorder(cmp) && StrictChain(cmp, s)
    requires i < j < |s|
    ensures cmp(s[i], s[j]) == Less
    decreases j - i
  {
    if i + 1 < j {
      ChainIncreasing(cmp, s, i + 1, j);
      assert cmp(s[i], s[i + 1]) == Less;
    }
  }

  /** Only an element compares equal to itself in a strict chain. */
  lemma ChainEqualSame<T(!new)>(cmp: (T, T) -> Ordering, s: seq<T>, i: nat, j: nat)
    requires TotalPreorder(cmp) && StrictChain(cmp, s)
    requires i < |s| && j < |s|
    ensures cmp(s[i], s[j]) == Equal ==> i == j
  {
    if i < j {
      ChainIncreasing(cmp, s, i, j);
    } else if j < i {
      ChainIncreasing(cmp, s, j, i);
      assert cmp(s[i], s[j]) == cmp(s[j], s[i]).Flip();
    }
  }

  /** The one ordered arrangement of a strict chain's elements is the chain:
      sorting any permutation of it gives it back. */
  lemma SortChain<T(!new)>(cmp: (T, T) -> Ordering, s: seq<T>, t: seq<T>)
    requires TotalPreorder(cmp) && StrictChain(cmp, t)
    requires multiset(s) == multiset(t)
    ensures SortBy(s, cmp) == t
  {
    forall a, b | a in t && b in t && cmp(a, b) == Equal ensures a == b {
      var i :| 0 <= i < |t| && t[i] == a;
      var j :| 0 <= j < |t| && t[j] == b;
      ChainEqualSame(cmp, t, i, j);
    }
    forall i, j | 0 <= i < j < |t| ensures cmp(t[i], t[j]) != Greater {
      ChainIncreasing(cmp, t, i, j);
    }
    SortBySorted(s, cmp);
    SortedUnique(t, SortBy(s, cmp), cmp);
  }
}
