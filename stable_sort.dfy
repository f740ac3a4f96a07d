/**
 * Stable sorting with a three-way comparator, as `Array.prototype.sort` does it
 * (ECMA-262, section 23.1.3.30: the sort is stable since ES2019). A comparator
 * returns a negative number, zero or a positive number, like the callbacks
 * handed to `.sort` and like `Intl.Collator.prototype.compare`.
 *
 * The order produced is specified by `SortBy`, an insertion sort on sequences.
 * `SortByIsTheStableSort` shows that for a consistent comparator there is only
 * one sorted, stable arrangement of a sequence, so `SortBy` is what every
 * conforming engine returns. `SortInPlace` is the in-place array version.
 */
module StableSort {

  /** The comparator is consistent: its sign flips with its arguments and "not greater" is transitive. */
  ghost predicate TotalPreorder<T(!new)>(cmp: (T, T) -> int) {
    && (forall a, b :: cmp(a, b) < 0 <==> cmp(b, a) > 0)
    && (forall a, b, c {:trigger Chain(cmp, a, b, c)} :: Chain(cmp, a, b, c) ==> cmp(a, c) <= 0)
  }

  /** `a` is not greater than `b`, and `b` is not greater than `c`. */
  ghost predicate Chain<T>(cmp: (T, T) -> int, a: T, b: T, c: T) {
    cmp(a, b) <= 0 && cmp(b, c) <= 0
  }

  /** Every entry is ranked no greater than every later entry. */
  ghost predicate IsSortedBy<T>(s: seq<T>, cmp: (T, T) -> int) {
    forall i, j :: 0 <= i < j < |s| ==> cmp(s[i], s[j]) <= 0
  }

  /** The entries of `s` that `cmp` ranks equal to `y`, in their order in `s`. */
  ghost function Ties<T>(s: seq<T>, y: T, cmp: (T, T) -> int): seq<T> {
    if s == [] then []
    else Ties(s[..|s| - 1], y, cmp) + (if cmp(s[|s| - 1], y) == 0 then [s[|s| - 1]] else [])
  }

  /** Entries that `cmp` ranks equal appear in the order `inner` gives them. */
  ghost predicate TiesOrderedBy<T>(s: seq<T>, cmp: (T, T) -> int, inner: (T, T) -> int) {
    forall i, j :: 0 <= i < j < |s| && cmp(s[i], s[j]) == 0 ==> inner(s[i], s[j]) <= 0
  }

  /** Every entry is related by `r` to every later entry. */
  ghost predicate OrderedBy<T>(s: seq<T>, r: (T, T) -> bool) {
    forall i, j :: 0 <= i < j < |s| ==> r(s[i], s[j])
  }

  /** Any two entries at different positions are related by `r`. */
  ghost predicate AllPairs<T>(s: seq<T>, r: (T, T) -> bool) {
    forall i, j :: 0 <= i < |s| && 0 <= j < |s| && i != j ==> r(s[i], s[j])
  }

  /** Compares by `first`, and by `second` where `first` ranks two values equal. */
  function Lexicographic<T>(first: (T, T) -> int, second: (T, T) -> int): (T, T) -> int {
    (a: T, b: T) => if first(a, b) != 0 then first(a, b) else second(a, b)
  }

  /** Inserts `x` after every entry of `s` that is not greater than it. */
  function Insert<T>(s: seq<T>, x: T, cmp: (T, T) -> int): (r: seq<T>)
    ensures |r| == |s| + 1
  {
    if s != [] && cmp(s[|s| - 1], x) > 0 then
      assert s == s[..|s| - 1] + [s[|s| - 1]];
      Insert(s[..|s| - 1], x, cmp) + [s[|s| - 1]]
    else
      s + [x]
  }

  /** The result of a stable sort of `s` by `cmp`. */
  function SortBy<T>(s: seq<T>, cmp: (T, T) -> int): (r: seq<T>)
    ensures |r| == |s|
  {
    if s == [] then []
    else
      assert s == s[..|s| - 1] + [s[|s| - 1]];
      Insert(SortBy(s[..|s| - 1], cmp), s[|s| - 1], cmp)
  }

  /** A non-empty sequence is the rest of it followed by its last element. */
  lemma InitLast<T>(s: seq<T>)
    requires s != []
    ensures s[..|s| - 1] + [s[|s| - 1]] == s
  {
  }

  /** A non-empty sequence holds its last element once more than the rest of it. */
  lemma MultisetLast<T>(s: seq<T>)
    requires s != []
    ensures multiset(s) == multiset(s[..|s| - 1]) + multiset{s[|s| - 1]}
  {
    InitLast(s);
  }

  /** Insertion adds `x` and keeps every entry of `s`. */
  lemma {:induction false} InsertPermutes<T>(s: seq<T>, x: T, cmp: (T, T) -> int)
    ensures multiset(Insert(s, x, cmp)) == multiset(s) + multiset{x}
  {
    if s != [] && cmp(s[|s| - 1], x) > 0 {
      var init := s[..|s| - 1];
      InsertPermutes(init, x, cmp);
      MultisetLast(s);
    }
  }

  /** The sorted sequence is a permutation of the input. */
  lemma {:induction false} SortByPermutes<T>(s: seq<T>, cmp: (T, T) -> int)
    ensures multiset(SortBy(s, cmp)) == multiset(s)
  {
    if s != [] {
      var init := s[..|s| - 1];
      SortByPermutes(init, cmp);
      InsertPermutes(SortBy(init, cmp), s[|s| - 1], cmp);
      MultisetLast(s);
    }
  }

  lemma TotalPreorderFacts<T(!new)>(cmp: (T, T) -> int, a: T, b: T)
    requires TotalPreorder(cmp)
    ensures cmp(a, a) == 0
    ensures cmp(a, b) == 0 <==> cmp(b, a) == 0
    ensures cmp(a, b) > 0 <==> cmp(b, a) < 0
  {
  }

  lemma Transitive<T(!new)>(cmp: (T, T) -> int, a: T, b: T, c: T)
    requires TotalPreorder(cmp) && cmp(a, b) <= 0 && cmp(b, c) <= 0
    ensures cmp(a, c) <= 0
  {
    assert Chain(cmp, a, b, c);
  }

  lemma InSeqAt<T>(s: seq<T>, e: T) returns (k: nat)
    requires e in s
    ensures k < |s| && s[k] == e
  {
    k :| 0 <= k < |s| && s[k] == e;
  }

  /** Appending an entry that no entry of a sorted sequence exceeds keeps it sorted. */
  lemma SortedSnoc<T>(s: seq<T>, x: T, cmp: (T, T) -> int)
    requires IsSortedBy(s, cmp)
    requires forall i :: 0 <= i < |s| ==> cmp(s[i], x) <= 0
    ensures IsSortedBy(s + [x], cmp)
  {
    var r := s + [x];
    forall i, j | 0 <= i < j < |r|
      ensures cmp(r[i], r[j]) <= 0
    {
      assert r[i] == s[i];
      if j < |s| {
        assert r[j] == s[j];
      }
    }
  }

  lemma {:induction false} InsertSorted<T(!new)>(t: seq<T>, x: T, cmp: (T, T) -> int)
    requires TotalPreorder(cmp) && IsSortedBy(t, cmp)
    ensures IsSortedBy(Insert(t, x, cmp), cmp)
  {
    if t != [] && cmp(t[|t| - 1], x) > 0 {
      var t', l := t[..|t| - 1], t[|t| - 1];
      assert IsSortedBy(t', cmp);
      InsertSorted(t', x, cmp);
      var r' := Insert(t', x, cmp);
      InsertPermutes(t', x, cmp);
      forall i | 0 <= i < |r'|
        ensures cmp(r'[i], l) <= 0
      {
        assert r'[i] in multiset(t') + multiset{x};
        if r'[i] == x {
          TotalPreorderFacts(cmp, l, x);
        } else {
          var k := InSeqAt(t', r'[i]);
          assert t[k] == r'[i];
        }
      }
      SortedSnoc(r', l, cmp);
    } else if t != [] {
      forall i | 0 <= i < |t|
        ensures cmp(t[i], x) <= 0
      {
        if i < |t| - 1 {
          Transitive(cmp, t[i], t[|t| - 1], x);
        }
      }
      SortedSnoc(t, x, cmp);
    }
  }

  /** `SortBy` orders its result by the comparator. */
  lemma {:induction false} SortBySorted<T(!new)>(s: seq<T>, cmp: (T, T) -> int)
    requires TotalPreorder(cmp)
    ensures IsSortedBy(SortBy(s, cmp), cmp)
  {
    if s != [] {
      SortBySorted(s[..|s| - 1], cmp);
      InsertSorted(SortBy(s[..|s| - 1], cmp), s[|s| - 1], cmp);
    }
  }

  lemma TiesSnoc<T>(s: seq<T>, x: T, y: T, cmp: (T, T) -> int)
    ensures Ties(s + [x], y, cmp) == Ties(s, y, cmp) + (if cmp(x, y) == 0 then [x] else [])
  {
    assert (s + [x])[..|s|] == s;
  }

  lemma {:induction false} InsertTies<T(!new)>(t: seq<T>, x: T, y: T, cmp: (T, T) -> int)
    requires TotalPreorder(cmp)
    ensures Ties(Insert(t, x, cmp), y, cmp) == Ties(t, y, cmp) + (if cmp(x, y) == 0 then [x] else [])
  {
    if t != [] && cmp(t[|t| - 1], x) > 0 {
      var t', l := t[..|t| - 1], t[|t| - 1];
      InsertTies(t', x, y, cmp);
      TiesSnoc(Insert(t', x, cmp), l, y, cmp);
      if cmp(x, y) == 0 && cmp(l, y) == 0 {
        TotalPreorderFacts(cmp, x, y);
        Transitive(cmp, l, y, x);
        assert false;
      }
    } else {
      TiesSnoc(t, x, y, cmp);
    }
  }

  /** Entries that the comparator ranks equal keep their relative order. */
  lemma {:induction false} SortByStable<T(!new)>(s: seq<T>, y: T, cmp: (T, T) -> int)
    requires TotalPreorder(cmp)
    ensures Ties(SortBy(s, cmp), y, cmp) == Ties(s, y, cmp)
  {
    if s != [] {
      SortByStable(s[..|s| - 1], y, cmp);
      InsertTies(SortBy(s[..|s| - 1], cmp), s[|s| - 1], y, cmp);
    }
  }

  lemma {:induction false} TiesMembers<T>(s: seq<T>, y: T, cmp: (T, T) -> int, e: T)
    requires e in Ties(s, y, cmp)
    ensures e in s && cmp(e, y) == 0
  {
    if s != [] {
      if e in Ties(s[..|s| - 1], y, cmp) {
        TiesMembers(s[..|s| - 1], y, cmp, e);
      }
    }
  }

  lemma SortedLastIsGreatest<T(!new)>(s: seq<T>, cmp: (T, T) -> int, e: T)
    requires TotalPreorder(cmp) && IsSortedBy(s, cmp) && e in s
    ensures cmp(e, s[|s| - 1]) <= 0
  {
    var k := InSeqAt(s, e);
    if k == |s| - 1 {
      TotalPreorderFacts(cmp, e, e);
    }
  }

  lemma LastIsOwnTie<T(!new)>(s: seq<T>, cmp: (T, T) -> int)
    requires TotalPreorder(cmp) && s != []
    ensures Ties(s, s[|s| - 1], cmp) != []
  {
    TotalPreorderFacts(cmp, s[|s| - 1], s[|s| - 1]);
  }

  /** Two non-empty sorted sequences with the same ties for both last entries end with the same entry. */
  lemma SortedSameTiesSameLast<T(!new)>(p: seq<T>, q: seq<T>, cmp: (T, T) -> int)
    requires TotalPreorder(cmp) && IsSortedBy(p, cmp) && IsSortedBy(q, cmp)
    requires p != [] && q != []
    requires Ties(p, p[|p| - 1], cmp) == Ties(q, p[|p| - 1], cmp)
    requires Ties(p, q[|q| - 1], cmp) == Ties(q, q[|q| - 1], cmp)
    ensures p[|p| - 1] == q[|q| - 1]
  {
    var p', a := p[..|p| - 1], p[|p| - 1];
    var q', b := q[..|q| - 1], q[|q| - 1];
    TotalPreorderFacts(cmp, a, b);
    TotalPreorderFacts(cmp, b, b);
    // `a` is among its own ties in `p`, hence in `q`, so it is not above `q`'s last entry
    assert Ties(p, a, cmp) == Ties(p', a, cmp) + [a];
    assert a in Ties(q, a, cmp);
    TiesMembers(q, a, cmp, a);
    SortedLastIsGreatest(q, cmp, a);
    // and symmetrically for `b`
    assert Ties(q, b, cmp) == Ties(q', b, cmp) + [b];
    assert b in Ties(p, b, cmp);
    TiesMembers(p, b, cmp, b);
    SortedLastIsGreatest(p, cmp, b);
    assert cmp(b, a) == 0;
    // the ties of `a` end with `a` in `p` and with `b` in `q`
    var tp, tq := Ties(p, a, cmp), Ties(q, a, cmp);
    assert tp == Ties(p', a, cmp) + [a];
    assert tq == Ties(q', a, cmp) + [b];
    assert tp[|tp| - 1] == a && tq[|tq| - 1] == b;
  }

  /** Dropping the same last entry from two sequences with the same ties leaves the same ties. */
  lemma TiesOfInitsAgree<T>(p': seq<T>, q': seq<T>, a: T, cmp: (T, T) -> int)
    requires forall y :: Ties(p' + [a], y, cmp) == Ties(q' + [a], y, cmp)
    ensures forall y :: Ties(p', y, cmp) == Ties(q', y, cmp)
  {
    forall y
      ensures Ties(p', y, cmp) == Ties(q', y, cmp)
    {
      TiesSnoc(p', a, y, cmp);
      TiesSnoc(q', a, y, cmp);
      var tail := if cmp(a, y) == 0 then [a] else [];
      assert Ties(p', y, cmp) == Ties(p' + [a], y, cmp)[..|Ties(p' + [a], y, cmp)| - |tail|];
    }
  }

  /** What remains of a sorted sequence without its last element is sorted. */
  lemma SortedInit<T>(s: seq<T>, cmp: (T, T) -> int)
    requires s != [] && IsSortedBy(s, cmp)
    ensures IsSortedBy(s[..|s| - 1], cmp)
  {
  }

  /**
   * Two sorted sequences with the same ties for every value are equal: a
   * consistent comparator leaves a stable sort no choice.
   */
  lemma {:induction false} SortedStableUnique<T(!new)>(p: seq<T>, q: seq<T>, cmp: (T, T) -> int)
    requires TotalPreorder(cmp) && IsSortedBy(p, cmp) && IsSortedBy(q, cmp)
    requires forall y :: Ties(p, y, cmp) == Ties(q, y, cmp)
    ensures p == q
  {
    if p == [] || q == [] {
      if p != [] {
        LastIsOwnTie(p, cmp);
        assert false;
      } else if q != [] {
        LastIsOwnTie(q, cmp);
        assert false;
      }
    } else {
      var p', q' := p[..|p| - 1], q[..|q| - 1];
      SortedSameTiesSameLast(p, q, cmp);
      InitLast(p);
      InitLast(q);
      TiesOfInitsAgree(p', q', p[|p| - 1], cmp);
      SortedInit(p, cmp);
      SortedInit(q, cmp);
      SortedStableUnique(p', q', cmp);
    }
  }

  /**
   * A sequence that is ordered by `cmp` and keeps the order of every group
   * of ties of `s` is exactly `SortBy(s, cmp)`.
   */
  lemma SortByIsTheStableSort<T(!new)>(s: seq<T>, r: seq<T>, cmp: (T, T) -> int)
    requires TotalPreorder(cmp) && IsSortedBy(r, cmp)
    requires forall y :: Ties(r, y, cmp) == Ties(s, y, cmp)
    ensures r == SortBy(s, cmp)
  {
    SortBySorted(s, cmp);
    forall y
      ensures Ties(r, y, cmp) == Ties(SortBy(s, cmp), y, cmp)
    {
      SortByStable(s, y, cmp);
    }
    SortedStableUnique(r, SortBy(s, cmp), cmp);
  }

  lemma {:induction false} InsertKeepsTieOrder<T(!new)>(t: seq<T>, x: T, cmp: (T, T) -> int, inner: (T, T) -> int)
    requires TotalPreorder(cmp) && TiesOrderedBy(t, cmp, inner)
    requires forall e :: e in t && cmp(e, x) == 0 ==> inner(e, x) <= 0
    ensures TiesOrderedBy(Insert(t, x, cmp), cmp, inner)
  {
    if t != [] && cmp(t[|t| - 1], x) > 0 {
      var t', l := t[..|t| - 1], t[|t| - 1];
      InsertKeepsTieOrder(t', x, cmp, inner);
      var r' := Insert(t', x, cmp);
      InsertPermutes(t', x, cmp);
      assert Insert(t, x, cmp) == r' + [l];
      forall i | 0 <= i < |r'| && cmp(r'[i], l) == 0
        ensures inner(r'[i], l) <= 0
      {
        assert r'[i] in multiset(t') + multiset{x};
        if r'[i] == x {
          TotalPreorderFacts(cmp, l, x);
        } else {
          var k := InSeqAt(t', r'[i]);
          assert t[k] == r'[i];
        }
      }
    } else {
      forall i | 0 <= i < |t| && cmp(t[i], x) == 0
        ensures inner(t[i], x) <= 0
      {
        assert t[i] in t;
      }
    }
  }

  lemma TiesStep<T>(s: seq<T>, y: T, c: (T, T) -> int)
    requires s != []
    ensures c(s[|s| - 1], y) == 0 ==> Ties(s, y, c) == Ties(s[..|s| - 1], y, c) + [s[|s| - 1]]
    ensures c(s[|s| - 1], y) != 0 ==> Ties(s, y, c) == Ties(s[..|s| - 1], y, c)
  {
  }

  lemma {:induction false} TiesCommute<T>(s: seq<T>, y: T, c1: (T, T) -> int, c2: (T, T) -> int)
    ensures Ties(Ties(s, y, c1), y, c2) == Ties(Ties(s, y, c2), y, c1)
  {
    if s != [] {
      var s', x := s[..|s| - 1], s[|s| - 1];
      TiesCommute(s', y, c1, c2);
      TiesStep(s, y, c1);
      TiesStep(s, y, c2);
      if c1(x, y) == 0 {
        TiesSnoc(Ties(s', y, c1), x, y, c2);
      }
      if c2(x, y) == 0 {
        TiesSnoc(Ties(s', y, c2), x, y, c1);
      }
    }
  }

  lemma {:induction false} TiesOfLexicographic<T>(s: seq<T>, y: T, first: (T, T) -> int, second: (T, T) -> int)
    ensures Ties(s, y, Lexicographic(first, second)) == Ties(Ties(s, y, first), y, second)
  {
    if s != [] {
      var s', x := s[..|s| - 1], s[|s| - 1];
      TiesOfLexicographic(s', y, first, second);
      TiesStep(s, y, first);
      TiesStep(s, y, Lexicographic(first, second));
      if first(x, y) == 0 {
        TiesSnoc(Ties(s', y, first), x, y, second);
      }
    }
  }

  /** Comparing by one consistent comparator and then another is consistent. */
  lemma LexicographicTotalPreorder<T(!new)>(first: (T, T) -> int, second: (T, T) -> int)
    requires TotalPreorder(first) && TotalPreorder(second)
    ensures TotalPreorder(Lexicographic(first, second))
  {
    var lex := Lexicographic(first, second);
    forall a, b
      ensures lex(a, b) < 0 <==> lex(b, a) > 0
    {
      TotalPreorderFacts(first, a, b);
      TotalPreorderFacts(second, a, b);
    }
    forall a, b, c | Chain(lex, a, b, c)
      ensures lex(a, c) <= 0
    {
      TotalPreorderFacts(first, a, b);
      TotalPreorderFacts(first, b, c);
      TotalPreorderFacts(first, a, c);
      Transitive(first, a, b, c);
      if first(a, c) == 0 {
        if first(a, b) < 0 {
          Transitive(first, b, c, a);
          assert false;
        }
        if first(b, c) < 0 {
          Transitive(first, c, a, b);
          assert false;
        }
        Transitive(second, a, b, c);
      }
    }
  }

  /**
   * A stable sort keeps whatever order the entries it ranks equal had before:
   * sorting by a second key after a first keeps the first key's order within
   * each group of the second.
   */
  lemma {:induction false} SortByKeepsTieOrder<T(!new)>(s: seq<T>, cmp: (T, T) -> int, inner: (T, T) -> int)
    requires TotalPreorder(cmp) && TiesOrderedBy(s, cmp, inner)
    ensures TiesOrderedBy(SortBy(s, cmp), cmp, inner)
  {
    if s != [] {
      var s', x := s[..|s| - 1], s[|s| - 1];
      SortByKeepsTieOrder(s', cmp, inner);
      SortByPermutes(s', cmp);
      forall e | e in SortBy(s', cmp) && cmp(e, x) == 0
        ensures inner(e, x) <= 0
      {
        assert e in multiset(SortBy(s', cmp));
        var k := InSeqAt(s', e);
        assert s[k] == e;
      }
      InsertKeepsTieOrder(SortBy(s', cmp), x, cmp, inner);
    }
  }

  /**
   * Sorting stably by `second` and then stably by `first` sorts by `first`
   * and, within the ties of `first`, by `second`.
   */
  lemma SortTwiceIsLexicographic<T(!new)>(s: seq<T>, first: (T, T) -> int, second: (T, T) -> int)
    requires TotalPreorder(first) && TotalPreorder(second)
    ensures SortBy(SortBy(s, second), first) == SortBy(s, Lexicographic(first, second))
  {
    var lex := Lexicographic(first, second);
    var s1 := SortBy(s, second);
    var s2 := SortBy(s1, first);
    LexicographicTotalPreorder(first, second);
    SortBySorted(s, second);
    SortBySorted(s1, first);
    SortByKeepsTieOrder(s1, first, second);
    forall i, j | 0 <= i < j < |s2|
      ensures lex(s2[i], s2[j]) <= 0
    {
    }
    forall y
      ensures Ties(s2, y, lex) == Ties(s, y, lex)
    {
      TiesOfLexicographic(s2, y, first, second);
      TiesOfLexicographic(s, y, first, second);
      SortByStable(s1, y, first);
      TiesCommute(s1, y, first, second);
      SortByStable(s, y, second);
      TiesCommute(s, y, first, second);
    }
    SortByIsTheStableSort(s, s2, lex);
  }

  lemma {:induction false} InsertKeepsAllPairs<T>(t: seq<T>, x: T, cmp: (T, T) -> int, r: (T, T) -> bool)
    requires AllPairs(t, r)
    requires forall e :: e in t ==> r(e, x) && r(x, e)
    ensures AllPairs(Insert(t, x, cmp), r)
  {
    if t != [] && cmp(t[|t| - 1], x) > 0 {
      var t', l := t[..|t| - 1], t[|t| - 1];
      InsertKeepsAllPairs(t', x, cmp, r);
      var r' := Insert(t', x, cmp);
      InsertPermutes(t', x, cmp);
      assert Insert(t, x, cmp) == r' + [l];
      forall i | 0 <= i < |r'|
        ensures r(r'[i], l) && r(l, r'[i])
      {
        assert r'[i] in multiset(t') + multiset{x};
        if r'[i] != x {
          var k := InSeqAt(t', r'[i]);
          assert t[k] == r'[i];
        }
      }
    } else {
      forall i | 0 <= i < |t|
        ensures r(t[i], x) && r(x, t[i])
      {
        assert t[i] in t;
      }
    }
  }

  /** A relation that holds between any two entries of `s` holds between any two entries of its sorted form. */
  lemma {:induction false} SortByKeepsAllPairs<T>(s: seq<T>, cmp: (T, T) -> int, r: (T, T) -> bool)
    requires AllPairs(s, r)
    ensures AllPairs(SortBy(s, cmp), r)
  {
    if s != [] {
      var s', x := s[..|s| - 1], s[|s| - 1];
      SortByKeepsAllPairs(s', cmp, r);
      SortByPermutes(s', cmp);
      forall e | e in SortBy(s', cmp)
        ensures r(e, x) && r(x, e)
      {
        assert e in multiset(SortBy(s', cmp));
        var k := InSeqAt(s', e);
        assert s[k] == e;
      }
      InsertKeepsAllPairs(SortBy(s', cmp), x, cmp, r);
    }
  }

  lemma SplicedAt<T>(r: seq<T>, s: seq<T>, j: nat, x: T)
    requires j <= |s| && |r| == |s| + 1 && r[j] == x
    requires forall k :: 0 <= k < j ==> r[k] == s[k]
    requires forall k :: j < k < |r| ==> r[k] == s[k - 1]
    ensures r == s[..j] + [x] + s[j..]
  {
    var expected := s[..j] + [x] + s[j..];
    forall k | 0 <= k < |r|
      ensures r[k] == expected[k]
    {
      if k > j {
        assert expected[k] == s[j..][k - j - 1];
      }
    }
  }

  /**
   * `x` goes right after the last entry not greater than it, when all the
   * entries from position `j` on are greater than `x`.
   */
  lemma {:induction false} InsertPlaced<T>(s: seq<T>, j: nat, x: T, cmp: (T, T) -> int)
    requires j <= |s| && (j == 0 || cmp(s[j - 1], x) <= 0)
    requires forall k :: j <= k < |s| ==> cmp(s[k], x) > 0
    ensures Insert(s, x, cmp) == s[..j] + [x] + s[j..]
    decreases |s|
  {
    var n := |s|;
    if j < n {
      var init := s[..n - 1];
      assert cmp(s[n - 1], x) > 0;
      assert Insert(s, x, cmp) == Insert(init, x, cmp) + [s[n - 1]];
      assert forall k :: j <= k < |init| ==> cmp(init[k], x) > 0 by {
        forall k | j <= k < |init|
          ensures cmp(init[k], x) > 0
        {
          assert init[k] == s[k];
        }
      }
      assert j > 0 ==> init[j - 1] == s[j - 1];
      InsertPlaced(init, j, x, cmp);
      assert init[..j] == s[..j];
      assert s[j..] == init[j..] + [s[n - 1]];
      calc {
        Insert(s, x, cmp);
        Insert(init, x, cmp) + [s[n - 1]];
        (s[..j] + [x] + init[j..]) + [s[n - 1]];
        s[..j] + [x] + (init[j..] + [s[n - 1]]);
      }
    } else {
      assert s[..j] == s;
    }
  }

  /**
   * Moves `a[i]` left past the greater entries of the prefix `a[..i]`,
   * shifting them one place right: one step of insertion sort.
   */
  method InsertInPlace<T>(a: array<T>, i: nat, cmp: (T, T) -> int)
    requires i < a.Length
    modifies a
    ensures a[..i + 1] == Insert(old(a[..i]), old(a[i]), cmp)
    ensures forall k :: i < k < a.Length ==> a[k] == old(a[k])
  {
    var x := a[i];
    ghost var sorted := a[..i];
    var j := i;
    while j > 0 && cmp(a[j - 1], x) > 0
      invariant 0 <= j <= i
      invariant forall k {:trigger a[k]} :: 0 <= k < j ==> a[k] == sorted[k]
      invariant forall k {:trigger a[k]} :: j < k <= i ==> a[k] == sorted[k - 1]
      invariant forall k :: i < k < a.Length ==> a[k] == old(a[k])
      invariant forall k :: j <= k < i ==> cmp(sorted[k], x) > 0
    {
      a[j] := a[j - 1];
      j := j - 1;
    }
    a[j] := x;
    InsertPlaced(sorted, j, x, cmp);
    SplicedAt(a[..i + 1], sorted, j, x);
  }

  lemma SortByStep<T>(s: seq<T>, i: nat, cmp: (T, T) -> int)
    requires i < |s|
    ensures SortBy(s[..i + 1], cmp) == Insert(SortBy(s[..i], cmp), s[i], cmp)
  {
    assert s[..i + 1][..i] == s[..i];
  }

  /** Sorts `a` in place, stably: insertion sort, shifting greater entries right. */
  method SortInPlace<T>(a: array<T>, cmp: (T, T) -> int)
    modifies a
    ensures a[..] == SortBy(old(a[..]), cmp)
  {
    ghost var input := a[..];
    var i := 0;
    while i < a.Length
      invariant 0 <= i <= a.Length
      invariant a[..i] == SortBy(input[..i], cmp)
      invariant forall k :: i <= k < a.Length ==> a[k] == input[k]
    {
      SortByStep(input, i, cmp);
      InsertInPlace(a, i, cmp);
      i := i + 1;
    }
    assert input[..a.Length] == input;
  }
}
