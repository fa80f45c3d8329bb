/**
 * The `Array.prototype.filter` / `Array.prototype.sort` pipeline the in-memory
 * stores run over a snapshot of their values. `SortBy` is a stable insertion
 * sort, as JavaScript's `sort` is stable: elements with equal keys keep their
 * relative order.
 */
module Listing {
  import opened Text

  /** `s.filter(p)`. */
  function Where<T>(s: seq<T>, p: T -> bool): (r: seq<T>)
    ensures |r| <= |s|
    ensures forall i :: 0 <= i < |r| ==> p(r[i])
  {
    if s == [] then []
    else (if p(s[0]) then [s[0]] else []) + Where(s[1..], p)
  }

  /** The filter keeps exactly the elements that satisfy `p`, each as often as before. */
  lemma {:induction false} WhereMembers<T(!new)>(s: seq<T>, p: T -> bool)
    ensures forall x :: x in Where(s, p) <==> x in s && p(x)
    ensures multiset(Where(s, p)) <= multiset(s)
    ensures forall x :: p(x) ==> multiset(Where(s, p))[x] == multiset(s)[x]
  {
    if s != [] {
      WhereMembers(s[1..], p);
      assert s == [s[0]] + s[1..];
    }
  }

  lemma {:induction false} WhereAppend<T>(a: seq<T>, b: seq<T>, p: T -> bool)
    ensures Where(a + b, p) == Where(a, p) + Where(b, p)
  {
    if a != [] {
      assert (a + b)[1..] == a[1..] + b;
      WhereAppend(a[1..], b, p);
    } else {
      assert a + b == b;
    }
  }

  lemma WhereCons<T>(x: T, s: seq<T>, p: T -> bool)
    ensures Where([x] + s, p) == (if p(x) then [x] else []) + Where(s, p)
  {
    var a := [x] + s;
    assert a[0] == x && a[1..] == s;
  }

  /** Filtering twice is filtering once by the conjunction. */
  lemma {:induction false} WhereWhere<T>(s: seq<T>, p: T -> bool, q: T -> bool, pq: T -> bool)
    requires forall x :: pq(x) == (p(x) && q(x))
    ensures Where(Where(s, p), q) == Where(s, pq)
  {
    if s != [] {
      WhereWhere(s[1..], p, q, pq);
      assert s == [s[0]] + s[1..];
      WhereCons(s[0], s[1..], p);
      WhereCons(s[0], s[1..], pq);
      assert pq(s[0]) == (p(s[0]) && q(s[0]));
      if p(s[0]) {
        WhereCons(s[0], Where(s[1..], p), q);
        assert Where(s, p) == [s[0]] + Where(s[1..], p);
        assert Where(Where(s, p), q) == (if q(s[0]) then [s[0]] else []) + Where(Where(s[1..], p), q);
      } else {
        assert Where(s, p) == Where(s[1..], p);
        assert Where(s, pq) == Where(s[1..], pq);
      }
    }
  }

  /** Predicates that agree everywhere filter alike. */
  lemma {:induction false} WhereExt<T>(s: seq<T>, p: T -> bool, q: T -> bool)
    requires forall x :: p(x) == q(x)
    ensures Where(s, p) == Where(s, q)
  {
    if s != [] {
      WhereExt(s[1..], p, q);
    }
  }

  /** Filtering with a predicate that keeps everything leaves the sequence as it is. */
  lemma {:induction false} WhereAll<T>(s: seq<T>, p: T -> bool)
    requires forall x :: x in s ==> p(x)
    ensures Where(s, p) == s
  {
    if s != [] {
      WhereAll(s[1..], p);
    }
  }

  /** Filtering with a predicate that rejects everything leaves nothing. */
  lemma {:induction false} WhereNone<T>(s: seq<T>, p: T -> bool)
    requires forall i :: 0 <= i < |s| ==> !p(s[i])
    ensures Where(s, p) == []
  {
    if s != [] {
      WhereNone(s[1..], p);
    }
  }

  /** Removing an element the predicate rejects does not change the filtered result. */
  lemma {:induction false} WhereSkip<T>(s: seq<T>, i: nat, p: T -> bool)
    requires i < |s| && !p(s[i])
    ensures Where(s[..i] + s[i + 1..], p) == Where(s, p)
  {
    if i == 0 {
      assert s[..0] + s[1..] == s[1..];
    } else {
      WhereSkip(s[1..], i - 1, p);
      var t := s[..i] + s[i + 1..];
      assert t[0] == s[0];
      assert t[1..] == s[1..][..i - 1] + s[1..][i..];
    }
  }

  /** Filtering around one element: the parts before and after are filtered on their own. */
  lemma WhereAround<T>(a: seq<T>, x: T, b: seq<T>, p: T -> bool)
    ensures Where(a + [x] + b, p) == Where(a, p) + (if p(x) then [x] else []) + Where(b, p)
  {
    WhereAppend(a + [x], b, p);
    WhereAppend(a, [x], p);
    WhereCons(x, [], p);
    assert [x] + [] == [x];
  }

  /** The elements of `[x]` that pass `p`, as a multiset. */
  function Passing<T>(x: T, p: T -> bool): multiset<T> {
    if p(x) then multiset{x} else multiset{}
  }

  /** The filtered result around one element, as a multiset. */
  lemma WhereAroundMultiset<T>(a: seq<T>, x: T, b: seq<T>, p: T -> bool)
    ensures multiset(Where(a + [x] + b, p)) == multiset(Where(a, p)) + multiset(Where(b, p)) + Passing(x, p)
  {
    WhereAround(a, x, b, p);
    var mid := if p(x) then [x] else [];
    assert multiset(mid) == Passing(x, p);
    assert multiset(Where(a, p) + mid + Where(b, p)) == multiset(Where(a, p)) + multiset(mid) + multiset(Where(b, p));
  }

  /**
   * Replacing one element swaps it for the new one in the filtered result,
   * as far as each passes the filter.
   */
  lemma WhereUpdate<T>(s: seq<T>, i: nat, u: T, p: T -> bool)
    requires i < |s|
    ensures multiset(Where(s[i := u], p)) + Passing(s[i], p) == multiset(Where(s, p)) + Passing(u, p)
  {
    var a := s[..i];
    var b := s[i + 1..];
    assert s == a + [s[i]] + b;
    assert s[i := u] == a + [u] + b;
    WhereAroundMultiset(a, s[i], b, p);
    WhereAroundMultiset(a, u, b, p);
  }

  /**
   * Sorting the filtered values: exactly the elements satisfying `p` are
   * listed, each as often as in the input.
   */
  lemma SortedFilterMembers<T(!new)>(s: seq<T>, p: T -> bool, key: T -> string, desc: bool)
    ensures var r := SortBy(Where(s, p), key, desc);
      && multiset(r) == multiset(Where(s, p))
      && (forall x :: x in r <==> x in s && p(x))
  {
    var w := Where(s, p);
    var r := SortBy(w, key, desc);
    WhereMembers(s, p);
    forall x
      ensures x in r <==> x in w
    {
      assert x in r <==> x in multiset(r);
      assert x in w <==> x in multiset(w);
    }
  }

  /** Every element of the filtered sequence comes from the input, at some index `k`. */
  lemma {:induction false} WhereIndex<T>(s: seq<T>, p: T -> bool, j: nat) returns (k: nat)
    requires j < |Where(s, p)|
    ensures k < |s| && Where(s, p)[j] == s[k] && p(s[k])
  {
    var w := Where(s[1..], p);
    if p(s[0]) {
      if j == 0 {
        k := 0;
      } else {
        assert Where(s, p)[j] == w[j - 1];
        var k' := WhereIndex(s[1..], p, j - 1);
        k := k' + 1;
      }
    } else {
      var k' := WhereIndex(s[1..], p, j);
      k := k' + 1;
    }
  }

  // ---- stable sort by a string key ----

  /** `a` may stand before `b`: keys ascending, or descending when `desc` holds. */
  predicate InOrder<T>(key: T -> string, desc: bool, a: T, b: T) {
    if desc then LexLe(key(b), key(a)) else LexLe(key(a), key(b))
  }

  predicate SortedBy<T>(s: seq<T>, key: T -> string, desc: bool) {
    forall i, j :: 0 <= i < j < |s| ==> InOrder(key, desc, s[i], s[j])
  }

  lemma InOrderTotal<T>(key: T -> string, desc: bool, a: T, b: T)
    ensures InOrder(key, desc, a, b) || InOrder(key, desc, b, a)
  {
    LexLeTotal(key(a), key(b));
  }

  lemma InOrderTrans<T>(key: T -> string, desc: bool, a: T, b: T, c: T)
    requires InOrder(key, desc, a, b) && InOrder(key, desc, b, c)
    ensures InOrder(key, desc, a, c)
  {
    if desc {
      LexLeTrans(key(c), key(b), key(a));
    } else {
      LexLeTrans(key(a), key(b), key(c));
    }
  }

  /** Puts `x` in front of the first element it may precede, so it lands before its equals. */
  function Insert<T>(x: T, s: seq<T>, key: T -> string, desc: bool): (r: seq<T>)
    ensures multiset(r) == multiset(s) + multiset{x}
    ensures |r| == |s| + 1
  {
    if s == [] then [x]
    else if InOrder(key, desc, x, s[0]) then [x] + s
    else
      assert s == [s[0]] + s[1..];
      [s[0]] + Insert(x, s[1..], key, desc)
  }

  lemma {:induction false} InsertSorted<T>(x: T, s: seq<T>, key: T -> string, desc: bool)
    requires SortedBy(s, key, desc)
    ensures SortedBy(Insert(x, s, key, desc), key, desc)
  {
    var r := Insert(x, s, key, desc);
    if s == [] {
    } else if InOrder(key, desc, x, s[0]) {
      forall j | 1 <= j < |r|
        ensures InOrder(key, desc, x, r[j])
      {
        if j > 1 {
          InOrderTrans(key, desc, x, s[0], s[j - 1]);
        }
      }
    } else {
      var t := Insert(x, s[1..], key, desc);
      InsertSorted(x, s[1..], key, desc);
      InOrderTotal(key, desc, x, s[0]);
      forall j | 0 <= j < |t|
        ensures InOrder(key, desc, s[0], t[j])
      {
        HeadBeforeInserted(x, s, key, desc, t[j]);
      }
    }
  }

  /** In a sorted sequence the head may precede whatever ends up in its tail after an insertion. */
  lemma HeadBeforeInserted<T>(x: T, s: seq<T>, key: T -> string, desc: bool, y: T)
    requires s != [] && SortedBy(s, key, desc) && InOrder(key, desc, s[0], x)
    requires y in multiset(Insert(x, s[1..], key, desc))
    ensures InOrder(key, desc, s[0], y)
  {
    if y != x {
      assert y in multiset(s[1..]);
      var k :| 0 <= k < |s[1..]| && s[1..][k] == y;
      assert s[k + 1] == y;
    }
  }

  /** `s.sort(...)` with a comparator on `key`: a stable insertion sort. */
  function SortBy<T>(s: seq<T>, key: T -> string, desc: bool): (r: seq<T>)
    ensures multiset(r) == multiset(s)
    ensures |r| == |s|
    ensures SortedBy(r, key, desc)
  {
    if s == [] then []
    else
      var t := SortBy(s[1..], key, desc);
      SortByStep(s, t, key, desc);
      Insert(s[0], t, key, desc)
  }

  /** Inserting the head into the sorted tail sorts the whole sequence. */
  lemma SortByStep<T>(s: seq<T>, t: seq<T>, key: T -> string, desc: bool)
    requires s != [] && multiset(t) == multiset(s[1..]) && SortedBy(t, key, desc)
    ensures var r := Insert(s[0], t, key, desc);
      multiset(r) == multiset(s) && |r| == |s| && SortedBy(r, key, desc)
  {
    InsertSorted(s[0], t, key, desc);
    assert s == [s[0]] + s[1..];
    var r := Insert(s[0], t, key, desc);
    assert |r| == |multiset(r)| == |multiset(s)| == |s|;
  }

  /** On a sorted sequence, filtering and inserting commute. */
  lemma {:induction false} WhereInsert<T>(x: T, t: seq<T>, p: T -> bool, key: T -> string, desc: bool)
    requires SortedBy(t, key, desc)
    ensures Where(Insert(x, t, key, desc), p)
         == if p(x) then Insert(x, Where(t, p), key, desc) else Where(t, p)
  {
    if t == [] {
      assert Insert(x, t, key, desc) == [x];
    } else {
      assert t == [t[0]] + t[1..];
      WhereCons(t[0], t[1..], p);
      if InOrder(key, desc, x, t[0]) {
        WhereCons(x, t, p);
        if p(x) {
          InsertBeforeSorted(x, t, Where(t, p), p, key, desc);
        }
      } else {
        WhereCons(t[0], Insert(x, t[1..], key, desc), p);
        WhereInsert(x, t[1..], p, key, desc);
        var w1 := Where(t[1..], p);
        if p(t[0]) {
          assert Where(t, p) == [t[0]] + w1;
          assert ([t[0]] + w1)[0] == t[0] && ([t[0]] + w1)[1..] == w1;
        } else {
          assert Where(t, p) == w1;
          assert Where(Insert(x, t, key, desc), p) == Where(Insert(x, t[1..], key, desc), p);
        }
      }
    }
  }

  /** If `x` may precede the head of a sorted `t`, it goes in front of any filtered part of `t`. */
  lemma InsertBeforeSorted<T>(x: T, t: seq<T>, w: seq<T>, p: T -> bool, key: T -> string, desc: bool)
    requires SortedBy(t, key, desc) && t != [] && InOrder(key, desc, x, t[0])
    requires w == Where(t, p)
    ensures Insert(x, w, key, desc) == [x] + w
  {
    if w != [] {
      var k := WhereIndex(t, p, 0);
      if k > 0 {
        InOrderTrans(key, desc, x, t[0], t[k]);
      }
    }
  }

  /**
   * Stability: filtering the sorted sequence gives the sorted filtered sequence,
   * element for element, ties included.
   */
  lemma SortByCons<T>(x: T, s: seq<T>, key: T -> string, desc: bool)
    ensures SortBy([x] + s, key, desc) == Insert(x, SortBy(s, key, desc), key, desc)
  {
    var a := [x] + s;
    assert a[0] == x && a[1..] == s;
  }

  lemma {:induction false} WhereSortBy<T>(s: seq<T>, p: T -> bool, key: T -> string, desc: bool)
    ensures Where(SortBy(s, key, desc), p) == SortBy(Where(s, p), key, desc)
  {
    if s != [] {
      var w1 := Where(s[1..], p);
      assert s == [s[0]] + s[1..];
      SortByCons(s[0], s[1..], key, desc);
      WhereSortBy(s[1..], p, key, desc);
      WhereInsert(s[0], SortBy(s[1..], key, desc), p, key, desc);
      WhereCons(s[0], s[1..], p);
      if p(s[0]) {
        SortByCons(s[0], w1, key, desc);
      } else {
        assert Where(s, p) == w1;
      }
    }
  }

  // ---- duplicates ----

  ghost predicate NoDuplicates<T(!new)>(s: seq<T>) {
    forall x :: multiset(s)[x] <= 1
  }

  lemma {:induction false} DistinctNoDuplicates<T(!new)>(s: seq<T>)
    requires forall i, j :: 0 <= i < j < |s| ==> s[i] != s[j]
    ensures NoDuplicates(s)
  {
    if s != [] {
      DistinctNoDuplicates(s[1..]);
      assert s == [s[0]] + s[1..];
      assert s[0] !in s[1..];
      assert multiset(s[1..])[s[0]] == 0;
    }
  }

  lemma NoDuplicatesSub<T(!new)>(a: seq<T>, b: seq<T>)
    requires multiset(a) <= multiset(b) && NoDuplicates(b)
    ensures NoDuplicates(a)
  {
    forall x ensures multiset(a)[x] <= 1 {
      assert multiset(a)[x] <= multiset(b)[x];
    }
  }
}
