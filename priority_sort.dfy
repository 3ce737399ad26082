/** The ordering `prioWalker` imposes on `children` and `parents` arrays:
    `arr.sort((a, b) => (a.priority || 0) - (b.priority || 0))`.
    `Array.prototype.sort` is stable, so the result is the stable sort by that key,
    written here as an insertion sort over arena indices. */
module PrioritySort {
  import opened Nodes

  /** `(x.priority || 0)`: an undefined priority (and priority 0) sorts as 0. */
  function Key(prio: seq<Option<nat>>, x: nat): (r: nat)
    ensures x < |prio| && prio[x].Some? ==> r == prio[x].value
    ensures x >= |prio| || prio[x].None? ==> r == 0
  {
    if x < |prio| then
      match prio[x]
      case None => 0
      case Some(v) => v
    else 0
  }

  /** Non-decreasing in the key. */
  ghost predicate Sorted(prio: seq<Option<nat>>, s: seq<nat>) {
    forall i, j :: 0 <= i < j < |s| ==> Key(prio, s[i]) <= Key(prio, s[j])
  }

  /** Puts `x` before the first element whose key is not smaller. */
  function Insert(prio: seq<Option<nat>>, x: nat, s: seq<nat>): (r: seq<nat>)
    ensures multiset(r) == multiset(s) + multiset{x}
  {
    if s == [] || Key(prio, x) <= Key(prio, s[0]) then
      [x] + s
    else
      assert s == [s[0]] + s[1..];
      [s[0]] + Insert(prio, x, s[1..])
  }

  lemma {:induction false} InsertSorted(prio: seq<Option<nat>>, x: nat, s: seq<nat>)
    requires Sorted(prio, s)
    ensures Sorted(prio, Insert(prio, x, s))
  {
    var r := Insert(prio, x, s);
    if s == [] || Key(prio, x) <= Key(prio, s[0]) {
      forall i, j | 0 <= i < j < |r|
        ensures Key(prio, r[i]) <= Key(prio, r[j])
      {
        assert r[j] == s[j - 1];
        if i > 0 {
          assert r[i] == s[i - 1];
        } else if j > 1 {
          assert Key(prio, s[0]) <= Key(prio, s[j - 1]);
        }
      }
    } else {
      var t := Insert(prio, x, s[1..]);
      InsertSorted(prio, x, s[1..]);
      assert r == [s[0]] + t;
      forall i, j | 0 <= i < j < |r|
        ensures Key(prio, r[i]) <= Key(prio, r[j])
      {
        assert r[j] == t[j - 1];
        if i > 0 {
          assert r[i] == t[i - 1];
        } else {
          assert t[j - 1] in multiset(t);
          assert t[j - 1] == x || t[j - 1] in multiset(s[1..]);
          if t[j - 1] != x {
            var k :| 0 <= k < |s[1..]| && s[1..][k] == t[j - 1];
            assert s[k + 1] == t[j - 1];
          }
        }
      }
    }
  }

  /** The stable sort of `s` by priority key. */
  function SortByPriority(prio: seq<Option<nat>>, s: seq<nat>): (r: seq<nat>)
    ensures multiset(r) == multiset(s)
    ensures Sorted(prio, r)
  {
    if s == [] then []
    else
      assert s == [s[0]] + s[1..];
      InsertSorted(prio, s[0], SortByPriority(prio, s[1..]));
      Insert(prio, s[0], SortByPriority(prio, s[1..]))
  }

  /** Same members, same length. */
  lemma SortMembers(prio: seq<Option<nat>>, s: seq<nat>)
    ensures |SortByPriority(prio, s)| == |s|
    ensures forall x :: x in SortByPriority(prio, s) <==> x in s
  {
    var r := SortByPriority(prio, s);
    assert |multiset(r)| == |multiset(s)|;
    assert forall x :: x in r <==> x in multiset(r);
    assert forall x :: x in s <==> x in multiset(s);
  }

  /** Sorting a sorted array changes nothing. */
  lemma {:induction false} SortOfSorted(prio: seq<Option<nat>>, s: seq<nat>)
    requires Sorted(prio, s)
    ensures SortByPriority(prio, s) == s
  {
    if s != [] {
      SortOfSorted(prio, s[1..]);
      assert s == [s[0]] + s[1..];
    }
  }

  /** Sorting twice is sorting once. */
  lemma SortIdempotent(prio: seq<Option<nat>>, s: seq<nat>)
    ensures SortByPriority(prio, SortByPriority(prio, s)) == SortByPriority(prio, s)
  {
    SortOfSorted(prio, SortByPriority(prio, s));
  }

  /** No entry occurs twice. */
  ghost predicate Distinct(s: seq<nat>) {
    forall j, k :: 0 <= j < k < |s| ==> s[j] != s[k]
  }

  /** A distinct list with a new element in front stays distinct. */
  lemma DistinctCons(x: nat, s: seq<nat>)
    requires Distinct(s) && x !in s
    ensures Distinct([x] + s)
  {
    var t := [x] + s;
    forall j, k | 0 <= j < k < |t|
      ensures t[j] != t[k]
    {
      assert t[k] == s[k - 1];
      if j > 0 {
        assert t[j] == s[j - 1];
      }
    }
  }

  lemma {:induction false} InsertDistinct(prio: seq<Option<nat>>, x: nat, s: seq<nat>)
    requires Distinct(s) && x !in s
    ensures Distinct(Insert(prio, x, s))
  {
    if s == [] || Key(prio, x) <= Key(prio, s[0]) {
      DistinctCons(x, s);
    } else {
      var t := Insert(prio, x, s[1..]);
      assert s == [s[0]] + s[1..];
      InsertDistinct(prio, x, s[1..]);
      assert s[0] !in multiset(t);
      DistinctCons(s[0], t);
    }
  }

  /** Sorting a list without repeats gives a list without repeats: no entry is
      duplicated, so each copy stays one entry. */
  lemma {:induction false} SortDistinct(prio: seq<Option<nat>>, s: seq<nat>)
    requires Distinct(s)
    ensures Distinct(SortByPriority(prio, s))
  {
    if s != [] {
      var t := SortByPriority(prio, s[1..]);
      SortDistinct(prio, s[1..]);
      assert s[0] !in multiset(s[1..]);
      InsertDistinct(prio, s[0], t);
    }
  }

  /** The entries of `s` whose key is `v`, in order. */
  function WithKey(prio: seq<Option<nat>>, s: seq<nat>, v: nat): seq<nat> {
    if s == [] then []
    else (if Key(prio, s[0]) == v then [s[0]] else []) + WithKey(prio, s[1..], v)
  }

  lemma WithKeyCons(prio: seq<Option<nat>>, x: nat, s: seq<nat>, v: nat)
    ensures WithKey(prio, [x] + s, v) == (if Key(prio, x) == v then [x] else []) + WithKey(prio, s, v)
  {
    assert ([x] + s)[1..] == s;
  }

  /** Inserting `x` puts it ahead of every entry with the same key. */
  lemma {:induction false} InsertWithKey(prio: seq<Option<nat>>, x: nat, s: seq<nat>, v: nat)
    ensures WithKey(prio, Insert(prio, x, s), v) ==
              if Key(prio, x) == v then [x] + WithKey(prio, s, v) else WithKey(prio, s, v)
  {
    if s == [] || Key(prio, x) <= Key(prio, s[0]) {
      WithKeyCons(prio, x, s, v);
    } else {
      var t := Insert(prio, x, s[1..]);
      assert Insert(prio, x, s) == [s[0]] + t;
      WithKeyCons(prio, s[0], t, v);
      InsertWithKey(prio, x, s[1..], v);
      assert s == [s[0]] + s[1..];
      WithKeyCons(prio, s[0], s[1..], v);
    }
  }

  /** Stability: among entries with equal keys, the sort keeps the input order. */
  lemma {:induction false} SortStable(prio: seq<Option<nat>>, s: seq<nat>, v: nat)
    ensures WithKey(prio, SortByPriority(prio, s), v) == WithKey(prio, s, v)
  {
    if s != [] {
      SortStable(prio, s[1..], v);
      InsertWithKey(prio, s[0], SortByPriority(prio, s[1..]), v);
    }
  }

  /** Entry `x` of table `src`, or 0 outside it. */
  function At(src: seq<nat>, x: nat): nat {
    if x < |src| then src[x] else 0
  }

  /** Every index of `s` looked up in `src`. */
  function MapIndices(src: seq<nat>, s: seq<nat>): (r: seq<nat>)
    ensures |r| == |s|
  {
    if s == [] then [] else [At(src, s[0])] + MapIndices(src, s[1..])
  }

  lemma {:induction false} MapIndicesAt(src: seq<nat>, s: seq<nat>, k: nat)
    requires k < |s|
    ensures MapIndices(src, s)[k] == At(src, s[k])
  {
    if k > 0 {
      MapIndicesAt(src, s[1..], k - 1);
    }
  }

  lemma {:induction false} MapIndicesAppend(src: seq<nat>, s: seq<nat>, x: nat)
    ensures MapIndices(src, s + [x]) == MapIndices(src, s) + [At(src, x)]
  {
    if s != [] {
      assert (s + [x])[1..] == s[1..] + [x];
      MapIndicesAppend(src, s[1..], x);
    } else {
      assert MapIndices(src, [x]) == [At(src, x)] + MapIndices(src, []);
    }
  }

  /** Relabelling with a key-preserving table commutes with inserting. */
  lemma {:induction false} InsertCommutes(cp: seq<Option<nat>>, gp: seq<Option<nat>>, src: seq<nat>, x: nat, t: seq<nat>)
    requires Key(cp, x) == Key(gp, At(src, x))
    requires forall y :: y in t ==> Key(cp, y) == Key(gp, At(src, y))
    ensures MapIndices(src, Insert(cp, x, t)) == Insert(gp, At(src, x), MapIndices(src, t))
  {
    if t != [] {
      assert t[0] in t;
      if Key(cp, x) > Key(cp, t[0]) {
        assert forall y :: y in t[1..] ==> y in t;
        InsertCommutes(cp, gp, src, x, t[1..]);
      }
    }
  }

  /** Relabelling with a key-preserving table commutes with sorting: the sorted copy
      of a list corresponds entry by entry to the sorted original. */
  lemma {:induction false} SortCommutes(cp: seq<Option<nat>>, gp: seq<Option<nat>>, src: seq<nat>, s: seq<nat>)
    requires forall y :: y in s ==> Key(cp, y) == Key(gp, At(src, y))
    ensures MapIndices(src, SortByPriority(cp, s)) == SortByPriority(gp, MapIndices(src, s))
  {
    if s != [] {
      var t := SortByPriority(cp, s[1..]);
      assert forall y :: y in s[1..] ==> y in s;
      SortCommutes(cp, gp, src, s[1..]);
      assert s[0] in s;
      assert forall y :: y in t ==> y in multiset(s[1..]);
      InsertCommutes(cp, gp, src, s[0], t);
    }
  }

  /** With a key-preserving table, a list is sorted exactly when its relabelling is. */
  lemma SortedMapIndices(cp: seq<Option<nat>>, gp: seq<Option<nat>>, src: seq<nat>, s: seq<nat>)
    requires forall y :: y in s ==> Key(cp, y) == Key(gp, At(src, y))
    ensures Sorted(cp, s) <==> Sorted(gp, MapIndices(src, s))
  {
    var ms := MapIndices(src, s);
    forall k | 0 <= k < |s|
      ensures Key(gp, ms[k]) == Key(cp, s[k])
    {
      MapIndicesAt(src, s, k);
    }
  }
}
