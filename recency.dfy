/**
 * The recency ranker of `get_latest_messages`: fetched messages carry an
 * integer timestamp, are sorted newest first by a stable sort and are cut
 * to the requested count with Python slice semantics.
 */
module Recency {
  import opened Wrappers
  import opened Gmail

  /** A fetched message together with the `internalDateInt` key the fetch loop adds to it. */
  datatype Stamped = Stamped(message: Message, internalDateInt: int)

  /** `int(full_msg.get('internalDate', '0'))`: a missing timestamp counts as 0. */
  function Stamp(m: Message): (r: Stamped)
    ensures r.message == m
    ensures m.internalDate.Some? ==> r.internalDateInt == m.internalDate.value
    ensures m.internalDate.None? ==> r.internalDateInt == 0
  {
    Stamped(m, m.internalDate.GetOr(0))
  }

  /** Timestamps never increase along `s`. */
  predicate NewestFirstOrdered(s: seq<Stamped>) {
    forall i, j :: 0 <= i < j < |s| ==> s[i].internalDateInt >= s[j].internalDateInt
  }

  /** Puts `x` after every element of `s` whose timestamp is at least `x`'s. */
  function Insert(x: Stamped, s: seq<Stamped>): seq<Stamped> {
    if s == [] || s[0].internalDateInt < x.internalDateInt then [x] + s
    else [s[0]] + Insert(x, s[1..])
  }

  /**
   * `list.sort(key=lambda m: m['internalDateInt'], reverse=True)`: newest
   * first, and messages with equal timestamps stay in their original order.
   */
  function NewestFirst(s: seq<Stamped>): (r: seq<Stamped>)
    ensures multiset(r) == multiset(s)
    ensures NewestFirstOrdered(r)
  {
    if s == [] then []
    else
      var init, last := s[..|s| - 1], s[|s| - 1];
      var t := NewestFirst(init);
      InsertElements(last, t);
      InsertOrdered(last, t);
      assert s == init + [last];
      Insert(last, t)
  }

  /** The elements of `s` with timestamp `k`, in their order in `s`. */
  function WithDate(s: seq<Stamped>, k: int): seq<Stamped> {
    if s == [] then [] else (if s[0].internalDateInt == k then [s[0]] else []) + WithDate(s[1..], k)
  }

  /** Python's `s[:n]`; a negative `n` drops `-n` elements from the end. */
  function Take<T>(s: seq<T>, n: int): (r: seq<T>)
    ensures r <= s
    ensures 0 <= n ==> |r| == if n < |s| then n else |s|
    ensures n < 0 ==> |r| == if |s| + n < 0 then 0 else |s| + n
  {
    if |s| <= n then s
    else if 0 <= n then s[..n]
    else if 0 <= |s| + n then s[..|s| + n]
    else []
  }

  // ---- Lemmas about the sort ----

  lemma {:induction false} InsertElements(x: Stamped, s: seq<Stamped>)
    ensures multiset(Insert(x, s)) == multiset(s) + multiset{x}
  {
    if s != [] && s[0].internalDateInt >= x.internalDateInt {
      InsertElements(x, s[1..]);
      assert s == [s[0]] + s[1..];
    }
  }

  lemma {:induction false} InsertOrdered(x: Stamped, s: seq<Stamped>)
    requires NewestFirstOrdered(s)
    ensures NewestFirstOrdered(Insert(x, s))
  {
    if s != [] && s[0].internalDateInt >= x.internalDateInt {
      var tail := Insert(x, s[1..]);
      InsertOrdered(x, s[1..]);
      InsertElements(x, s[1..]);
      forall j | 0 <= j < |tail| ensures s[0].internalDateInt >= tail[j].internalDateInt {
        assert tail[j] in multiset(tail);
        assert tail[j] == x || tail[j] in multiset(s[1..]);
      }
    }
  }

  lemma {:induction false} WithDateAppend(a: seq<Stamped>, b: seq<Stamped>, k: int)
    ensures WithDate(a + b, k) == WithDate(a, k) + WithDate(b, k)
  {
    if a == [] {
      assert a + b == b;
    } else {
      assert (a + b)[0] == a[0];
      assert (a + b)[1..] == a[1..] + b;
      WithDateAppend(a[1..], b, k);
      assert WithDate(a + b, k) == (if a[0].internalDateInt == k then [a[0]] else []) + WithDate(a[1..] + b, k);
    }
  }

  lemma {:induction false} WithDateNone(s: seq<Stamped>, k: int)
    requires forall i :: 0 <= i < |s| ==> s[i].internalDateInt != k
    ensures WithDate(s, k) == []
  {
    if s != [] {
      WithDateNone(s[1..], k);
    }
  }

  /** Inserting `x` puts it after every element that shares its timestamp. */
  lemma {:induction false} InsertWithDate(x: Stamped, s: seq<Stamped>, k: int)
    requires NewestFirstOrdered(s)
    ensures WithDate(Insert(x, s), k) == WithDate(s, k) + (if x.internalDateInt == k then [x] else [])
  {
    if s == [] || s[0].internalDateInt < x.internalDateInt {
      if x.internalDateInt == k {
        WithDateNone(s, k);
      }
    } else {
      InsertWithDate(x, s[1..], k);
    }
  }

  /** Stability: among messages with one timestamp, the sort keeps the original order. */
  lemma {:induction false} NewestFirstStable(s: seq<Stamped>, k: int)
    ensures WithDate(NewestFirst(s), k) == WithDate(s, k)
  {
    if s != [] {
      var init, last := s[..|s| - 1], s[|s| - 1];
      NewestFirstStable(init, k);
      assert s == init + [last];
      StableStep(init, last, k);
    }
  }

  /** Adding one message at the end keeps the sort stable for timestamp `k`. */
  lemma StableStep(init: seq<Stamped>, last: Stamped, k: int)
    requires WithDate(NewestFirst(init), k) == WithDate(init, k)
    ensures WithDate(NewestFirst(init + [last]), k) == WithDate(init + [last], k)
  {
    var s := init + [last];
    assert s[..|s| - 1] == init && s[|s| - 1] == last;
    var t := NewestFirst(init);
    assert NewestFirst(s) == Insert(last, t);
    InsertWithDate(last, t, k);
    assert WithDate([last], k) == if last.internalDateInt == k then [last] else [];
    WithDateAppend(init, [last], k);
  }

  /** The sort is a permutation, ordered newest first, and stable. */
  lemma NewestFirstCorrect(s: seq<Stamped>)
    ensures multiset(NewestFirst(s)) == multiset(s)
    ensures NewestFirstOrdered(NewestFirst(s))
    ensures forall k :: WithDate(NewestFirst(s), k) == WithDate(s, k)
  {
    forall k ensures WithDate(NewestFirst(s), k) == WithDate(s, k) {
      NewestFirstStable(s, k);
    }
  }

  // ---- Uniqueness: any stable newest-first sort gives the same list ----

  lemma {:induction false} WithDateHas(s: seq<Stamped>, i: nat)
    requires i < |s|
    ensures s[i] in WithDate(s, s[i].internalDateInt)
  {
    if i > 0 {
      WithDateHas(s[1..], i - 1);
    }
  }

  lemma {:induction false} WithDateFrom(s: seq<Stamped>, k: int, x: Stamped)
    requires x in WithDate(s, k)
    ensures x in s && x.internalDateInt == k
  {
    if s != [] && !(s[0].internalDateInt == k && x == s[0]) {
      WithDateFrom(s[1..], k, x);
    }
  }

  lemma {:induction false} OrderedSameGroupsEqual(r: seq<Stamped>, t: seq<Stamped>)
    requires NewestFirstOrdered(r) && NewestFirstOrdered(t)
    requires forall k :: WithDate(r, k) == WithDate(t, k)
    ensures r == t
    decreases |r|
  {
    if r == [] || t == [] {
      if r != [] {
        WithDateHas(r, 0);
      } else if t != [] {
        WithDateHas(t, 0);
      }
    } else {
      var a, b := r[0], t[0];
      WithDateHas(r, 0);
      WithDateHas(t, 0);
      assert WithDate(t, a.internalDateInt) == WithDate(r, a.internalDateInt);
      assert WithDate(r, b.internalDateInt) == WithDate(t, b.internalDateInt);
      WithDateFrom(t, a.internalDateInt, a);
      WithDateFrom(r, b.internalDateInt, b);
      assert b.internalDateInt >= a.internalDateInt;
      assert a.internalDateInt >= b.internalDateInt;
      var key := a.internalDateInt;
      assert WithDate(r, key)[0] == a;
      assert WithDate(t, key)[0] == b;
      assert WithDate(r, key) == WithDate(t, key);
      assert a == b;
      forall k ensures WithDate(r[1..], k) == WithDate(t[1..], k) {
        var head := if a.internalDateInt == k then [a] else [];
        assert WithDate(r, k) == head + WithDate(r[1..], k);
        assert WithDate(t, k) == head + WithDate(t[1..], k);
        assert WithDate(r, k) == WithDate(t, k);
        assert WithDate(r[1..], k) == WithDate(r, k)[|head|..];
      }
      OrderedSameGroupsEqual(r[1..], t[1..]);
      assert r == [a] + r[1..] && t == [b] + t[1..];
    }
  }

  /**
   * Any list that is ordered newest first and keeps the original order within
   * each timestamp is the result of `NewestFirst`: the outcome of the source's
   * stable library sort does not depend on the sorting algorithm.
   */
  lemma NewestFirstUnique(s: seq<Stamped>, r: seq<Stamped>)
    requires NewestFirstOrdered(r)
    requires forall k :: WithDate(r, k) == WithDate(s, k)
    ensures r == NewestFirst(s)
  {
    NewestFirstCorrect(s);
    OrderedSameGroupsEqual(r, NewestFirst(s));
  }

  // ---- Truncation ----

  lemma {:induction false} WithDatePrefix(p: seq<Stamped>, s: seq<Stamped>, k: int)
    requires p <= s
    ensures WithDate(p, k) <= WithDate(s, k)
  {
    if p != [] {
      assert p[1..] <= s[1..];
      WithDatePrefix(p[1..], s[1..], k);
    }
  }

  /**
   * The truncated ranking: at most `n` messages (when `n` is not negative),
   * none more than were fetched, each a fetched one, newest first, and equal
   * timestamps in fetch order.
   */
  lemma TopNewest(s: seq<Stamped>, n: int)
    ensures 0 <= n ==> |Take(NewestFirst(s), n)| <= n
    ensures |Take(NewestFirst(s), n)| <= |s|
    ensures multiset(Take(NewestFirst(s), n)) <= multiset(s)
    ensures NewestFirstOrdered(Take(NewestFirst(s), n))
    ensures forall k :: WithDate(Take(NewestFirst(s), n), k) <= WithDate(s, k)
  {
    var sorted := NewestFirst(s);
    var top := Take(sorted, n);
    NewestFirstCorrect(s);
    assert sorted == top + sorted[|top|..];
    assert multiset(sorted) == multiset(top) + multiset(sorted[|top|..]);
    assert |multiset(sorted)| == |sorted|;
    forall k ensures WithDate(top, k) <= WithDate(s, k) {
      WithDatePrefix(top, sorted, k);
    }
  }
}
