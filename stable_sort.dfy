/**
 * Python's `sorted(xs, key=k, reverse=True)` and `xs.sort(key=k, reverse=True)`:
 * a stable sort, highest key first, in which elements with equal keys keep the
 * order they had in the input.  The key comparison is a parameter `leq`
 * ("the key of a is at most the key of b").
 */
module StableSort {

  /** Totality of `leq` at a and b. */
  predicate TotalAt<T>(leq: (T, T) -> bool, a: T, b: T) {
    leq(a, b) || leq(b, a)
  }

  /** Transitivity of `leq` through b. */
  predicate TransitiveAt<T>(leq: (T, T) -> bool, a: T, b: T, c: T) {
    leq(a, b) && leq(b, c) ==> leq(a, c)
  }

  /**
   * `leq` compares keys: it is total and transitive.  The two facts are
   * stated pointwise so that a proof uses them only where it names them.
   */
  ghost predicate TotalPreorder<T(!new)>(leq: (T, T) -> bool) {
    && (forall a, b :: TotalAt(leq, a, b))
    && (forall a, b, c :: TransitiveAt(leq, a, b, c))
  }

  /** Highest key first: no later element has a higher key than an earlier one. */
  ghost predicate Descending<T>(s: seq<T>, leq: (T, T) -> bool) {
    forall i, j :: 0 <= i < j < |s| ==> leq(s[j], s[i])
  }

  /** Inserts `x` after every element whose key is at least its own. */
  function Insert<T>(x: T, s: seq<T>, leq: (T, T) -> bool): (r: seq<T>)
    ensures |r| == |s| + 1
    ensures multiset(r) == multiset(s) + multiset{x}
  {
    if s == [] then [x]
    else if leq(x, s[0]) then
      assert s == [s[0]] + s[1..];
      [s[0]] + Insert(x, s[1..], leq)
    else [x] + s
  }

  /** Insertion sort, left to right, which is stable. */
  function SortDesc<T>(s: seq<T>, leq: (T, T) -> bool): (r: seq<T>)
    ensures |r| == |s|
    ensures multiset(r) == multiset(s)
  {
    if s == [] then []
    else
      assert s == s[..|s| - 1] + [s[|s| - 1]];
      Insert(s[|s| - 1], SortDesc(s[..|s| - 1], leq), leq)
  }

  /** Python's slice `s[:stop]`; a negative `stop` counts from the end. */
  function SlicePrefix<T>(s: seq<T>, stop: int): (r: seq<T>)
    ensures r <= s
    ensures stop >= 0 ==> |r| == (if stop < |s| then stop else |s|)
    ensures stop < 0 ==> |r| == (if |s| + stop > 0 then |s| + stop else 0)
  {
    if stop >= 0 then s[..if stop < |s| then stop else |s|]
    else s[..if |s| + stop > 0 then |s| + stop else 0]
  }

  /** Every element of the insertion is `x` or an element of `s`. */
  lemma InsertFrom<T>(x: T, s: seq<T>, leq: (T, T) -> bool, e: T)
    requires e in Insert(x, s, leq)
    ensures e == x || e in s
  {
    assert e in multiset(Insert(x, s, leq));
  }

  lemma {:induction false} InsertDescending<T(!new)>(x: T, s: seq<T>, leq: (T, T) -> bool)
    requires TotalPreorder(leq)
    requires Descending(s, leq)
    ensures Descending(Insert(x, s, leq), leq)
  {
    if s == [] {
    } else if leq(x, s[0]) {
      var rest := Insert(x, s[1..], leq);
      InsertDescending(x, s[1..], leq);
      forall j | 0 <= j < |rest| ensures leq(rest[j], s[0]) {
        InsertFrom(x, s[1..], leq, rest[j]);
        if rest[j] != x {
          var k :| 0 <= k < |s[1..]| && s[1..][k] == rest[j];
          assert s[k + 1] == rest[j];
        }
      }
      var r := [s[0]] + rest;
      forall i, j | 0 <= i < j < |r| ensures leq(r[j], r[i]) {
        if i == 0 {
          assert r[j] == rest[j - 1];
        } else {
          assert r[i] == rest[i - 1] && r[j] == rest[j - 1];
        }
      }
    } else {
      assert TotalAt(leq, x, s[0]);
      var r := [x] + s;
      forall i, j | 0 <= i < j < |r| ensures leq(r[j], r[i]) {
        if i == 0 {
          assert r[j] == s[j - 1];
          if j > 1 {
            assert leq(s[j - 1], s[0]);
            assert TransitiveAt(leq, s[j - 1], s[0], x);
          }
        } else {
          assert r[i] == s[i - 1] && r[j] == s[j - 1];
        }
      }
    }
  }

  /** The result of SortDesc has the highest key first. */
  lemma {:induction false} SortDescending<T(!new)>(s: seq<T>, leq: (T, T) -> bool)
    requires TotalPreorder(leq)
    ensures Descending(SortDesc(s, leq), leq)
  {
    if s != [] {
      SortDescending(s[..|s| - 1], leq);
      InsertDescending(s[|s| - 1], SortDesc(s[..|s| - 1], leq), leq);
    }
  }

  /** a and b have equal keys. */
  predicate Equivalent<T>(a: T, b: T, leq: (T, T) -> bool) {
    leq(a, b) && leq(b, a)
  }

  /** The elements of `s` whose key equals that of `k`, in their order in `s`. */
  function Ties<T>(s: seq<T>, k: T, leq: (T, T) -> bool): seq<T> {
    if s == [] then []
    else (if Equivalent(s[0], k, leq) then [s[0]] else []) + Ties(s[1..], k, leq)
  }

  lemma {:induction false} TiesAppend<T>(a: seq<T>, b: seq<T>, k: T, leq: (T, T) -> bool)
    ensures Ties(a + b, k, leq) == Ties(a, k, leq) + Ties(b, k, leq)
  {
    if a != [] {
      assert (a + b)[1..] == a[1..] + b;
      TiesAppend(a[1..], b, k, leq);
    } else {
      assert a + b == b;
    }
  }

  lemma {:induction false} TiesNone<T>(s: seq<T>, k: T, leq: (T, T) -> bool)
    requires forall j :: 0 <= j < |s| ==> !Equivalent(s[j], k, leq)
    ensures Ties(s, k, leq) == []
  {
    if s != [] {
      assert !Equivalent(s[0], k, leq);
      TiesNone(s[1..], k, leq);
    }
  }

  lemma TiesSingle<T>(x: T, k: T, leq: (T, T) -> bool)
    ensures Ties([x], k, leq) == if Equivalent(x, k, leq) then [x] else []
  {
    assert [x][1..] == [];
  }

  lemma TiesCons<T>(x: T, s: seq<T>, k: T, leq: (T, T) -> bool)
    ensures Ties([x] + s, k, leq) == (if Equivalent(x, k, leq) then [x] else []) + Ties(s, k, leq)
  {
    assert ([x] + s)[1..] == s;
  }

  /** An element placed ahead of `s` for its higher key shares that key with none of `s`. */
  lemma AboveAllNotEquivalent<T(!new)>(x: T, s: seq<T>, k: T, leq: (T, T) -> bool)
    requires TotalPreorder(leq)
    requires Descending(s, leq)
    requires s != [] && !leq(x, s[0])
    requires Equivalent(x, k, leq)
    ensures forall j :: 0 <= j < |s| ==> !Equivalent(s[j], k, leq)
  {
    forall j | 0 <= j < |s| ensures !Equivalent(s[j], k, leq) {
      assert TransitiveAt(leq, x, k, s[j]);
      assert j == 0 || leq(s[j], s[0]);
      assert TransitiveAt(leq, x, s[j], s[0]);
    }
  }

  lemma {:induction false} InsertStable<T(!new)>(x: T, s: seq<T>, k: T, leq: (T, T) -> bool)
    requires TotalPreorder(leq)
    requires Descending(s, leq)
    ensures Ties(Insert(x, s, leq), k, leq)
         == Ties(s, k, leq) + (if Equivalent(x, k, leq) then [x] else [])
  {
    if s == [] {
      TiesSingle(x, k, leq);
    } else if leq(x, s[0]) {
      var rest := Insert(x, s[1..], leq);
      assert Ties(rest, k, leq)
          == Ties(s[1..], k, leq) + (if Equivalent(x, k, leq) then [x] else []) by {
        assert Descending(s[1..], leq) by {
          forall i, j | 0 <= i < j < |s[1..]| ensures leq(s[1..][j], s[1..][i]) {
            assert s[1..][j] == s[j + 1] && s[1..][i] == s[i + 1];
          }
        }
        InsertStable(x, s[1..], k, leq);
      }
      assert Insert(x, s, leq) == [s[0]] + rest;
      TiesCons(s[0], rest, k, leq);
      assert s == [s[0]] + s[1..];
      TiesCons(s[0], s[1..], k, leq);
    } else {
      assert Insert(x, s, leq) == [x] + s;
      TiesCons(x, s, k, leq);
      if Equivalent(x, k, leq) {
        AboveAllNotEquivalent(x, s, k, leq);
        TiesNone(s, k, leq);
      }
    }
  }

  /**
   * Stability: for every key, the elements carrying it appear in the sorted
   * result in the same order as in the input.
   */
  lemma {:induction false} SortStable<T(!new)>(s: seq<T>, k: T, leq: (T, T) -> bool)
    requires TotalPreorder(leq)
    ensures Ties(SortDesc(s, leq), k, leq) == Ties(s, k, leq)
  {
    if s != [] {
      var init, last := s[..|s| - 1], s[|s| - 1];
      var tail := if Equivalent(last, k, leq) then [last] else [];
      assert Ties(SortDesc(s, leq), k, leq) == Ties(SortDesc(init, leq), k, leq) + tail by {
        assert SortDesc(s, leq) == Insert(last, SortDesc(init, leq), leq);
        SortDescending(init, leq);
        InsertStable(last, SortDesc(init, leq), k, leq);
      }
      assert Ties(SortDesc(init, leq), k, leq) == Ties(init, k, leq) by {
        SortStable(init, k, leq);
      }
      assert Ties(s, k, leq) == Ties(init, k, leq) + tail by {
        assert s == init + [last];
        TiesAppend(init, [last], k, leq);
        TiesSingle(last, k, leq);
      }
    }
  }

  /** Every element of the sorted sequence comes from the input. */
  lemma SortedFromInput<T>(s: seq<T>, leq: (T, T) -> bool, x: T)
    requires x in SortDesc(s, leq)
    ensures x in s
  {
    assert x in multiset(SortDesc(s, leq));
  }

  /** An element left out of the first n of a descending sequence ranks no higher than any kept. */
  lemma PrefixDominates<T>(s: seq<T>, n: nat, leq: (T, T) -> bool, e: T, t: T)
    requires Descending(s, leq)
    requires n <= |s|
    requires e in s && e !in s[..n] && t in s[..n]
    ensures leq(e, t)
  {
    var j :| 0 <= j < |s| && s[j] == e;
    var i :| 0 <= i < n && s[..n][i] == t;
    assert s[i] == t;
  }

  /**
   * `sorted(xs, key=k, reverse=True)[:n]`: highest key first, made of input
   * elements, and no input element left out has a higher key than one kept.
   */
  lemma TopSelection<T(!new)>(s: seq<T>, n: nat, leq: (T, T) -> bool)
    requires TotalPreorder(leq)
    ensures var top := SlicePrefix(SortDesc(s, leq), n);
      && Descending(top, leq)
      && (forall t :: t in top ==> t in s)
      && multiset(top) <= multiset(s)
      && (forall e, t :: e in s && e !in top && t in top ==> leq(e, t))
  {
    var sorted := SortDesc(s, leq);
    var top := SlicePrefix(sorted, n);
    var m := |top|;
    assert top == sorted[..m];
    assert multiset(top) <= multiset(s) by {
      assert sorted == top + sorted[m..];
    }
    assert Descending(sorted, leq) by {
      SortDescending(s, leq);
    }
    forall t | t in top ensures t in s {
      SortedFromInput(s, leq, t);
    }
    forall e, t | e in s && e !in top && t in top ensures leq(e, t) {
      assert e in sorted by {
        assert e in multiset(s);
      }
      PrefixDominates(sorted, m, leq, e, t);
    }
  }
}
