/** Sequence operations that stand for the Python list behaviour the GUI relies
    on: filtering, `list.remove`, a `for` loop over a list that its own body
    shrinks, and the stable `sorted(..., key=...)`. Everything here is generic
    and works on values; the GUI module instantiates it with its block objects. */
module Seqs {

  /** No element occurs twice. */
  ghost predicate Distinct<T>(s: seq<T>) {
    forall i, j :: 0 <= i < j < |s| ==> s[i] != s[j]
  }

  lemma {:induction false} DistinctTail<T>(s: seq<T>)
    requires Distinct(s) && s != []
    ensures Distinct(s[1..])
  {
    forall i, j | 0 <= i < j < |s| - 1 ensures s[1..][i] != s[1..][j] {
      assert s[1..][i] == s[i + 1] && s[1..][j] == s[j + 1];
    }
  }

  // ---------------------------------------------------------------------------
  // Filtering and `list.remove`
  // ---------------------------------------------------------------------------

  /** `s` with every element of `gone` left out, the rest in their order. */
  function Without<T(==)>(s: seq<T>, gone: set<T>): (r: seq<T>)
    ensures forall i :: 0 <= i < |r| ==> r[i] in s && r[i] !in gone
    ensures |r| <= |s|
  {
    if s == [] then []
    else (if s[0] in gone then [] else [s[0]]) + Without(s[1..], gone)
  }

  /** Exactly the elements outside `gone` survive the filter. */
  lemma {:induction false} WithoutHas<T>(s: seq<T>, gone: set<T>, x: T)
    ensures x in Without(s, gone) <==> x in s && x !in gone
  {
    if s != [] {
      WithoutHas(s[1..], gone, x);
      assert s == [s[0]] + s[1..];
    }
  }

  /** Filtering keeps a list free of duplicates. */
  lemma {:induction false} WithoutDistinct<T>(s: seq<T>, gone: set<T>)
    requires Distinct(s)
    ensures Distinct(Without(s, gone))
  {
    if s != [] {
      DistinctTail(s);
      WithoutDistinct(s[1..], gone);
      var rest := Without(s[1..], gone);
      WithoutHas(s[1..], gone, s[0]);
      assert s[0] !in s[1..] by {
        forall k | 0 <= k < |s| - 1 ensures s[1..][k] != s[0] { assert s[1..][k] == s[k + 1]; }
      }
      if s[0] !in gone {
        var r := [s[0]] + rest;
        forall a, b | 0 <= a < b < |r| ensures r[a] != r[b] {
          if a == 0 { assert r[b] == rest[b - 1]; }
        }
      }
    }
  }

  lemma {:induction false} WithoutAppend<T>(a: seq<T>, b: seq<T>, gone: set<T>)
    ensures Without(a + b, gone) == Without(a, gone) + Without(b, gone)
  {
    if a != [] {
      assert (a + b)[0] == a[0];
      assert (a + b)[1..] == a[1..] + b;
      WithoutAppend(a[1..], b, gone);
      var head := if a[0] in gone then [] else [a[0]];
      assert Without(a + b, gone) == head + (Without(a[1..], gone) + Without(b, gone));
      assert Without(a, gone) == head + Without(a[1..], gone);
    } else {
      assert a + b == b;
    }
  }

  /** Filtering twice is filtering once by the union. */
  lemma {:induction false} WithoutWithout<T>(s: seq<T>, a: set<T>, b: set<T>)
    ensures Without(Without(s, a), b) == Without(s, a + b)
  {
    if s != [] {
      WithoutWithout(s[1..], a, b);
      var head := if s[0] in a then [] else [s[0]];
      WithoutAppend(head, Without(s[1..], a), b);
    }
  }

  /** Filtering out elements that do not occur changes nothing. */
  lemma {:induction false} WithoutNothing<T>(s: seq<T>, gone: set<T>)
    requires forall x :: x in gone ==> x !in s
    ensures Without(s, gone) == s
  {
    if s != [] {
      WithoutNothing(s[1..], gone);
    }
  }

  /** Growing the filtered prefix by one position. */
  lemma {:induction false} WithoutPrefixStep<T>(s: seq<T>, p: nat, gone: set<T>)
    requires p < |s|
    ensures Without(s[..p + 1], gone) == Without(s[..p], gone) + (if s[p] in gone then [] else [s[p]])
  {
    assert s[..p + 1] == s[..p] + [s[p]];
    WithoutAppend(s[..p], [s[p]], gone);
  }

  /** Adding an element that does not occur to the filter changes nothing. */
  lemma {:induction false} WithoutAbsent<T>(s: seq<T>, gone: set<T>, x: T)
    requires x !in s
    ensures Without(s, gone + {x}) == Without(s, gone)
  {
    WithoutWithout(s, gone, {x});
    WithoutNothing(Without(s, gone), {x});
  }

  /** One step of a loop that keeps a filtered prefix of `s` followed by the
      untouched rest, the element at `p` being kept or dropped. */
  lemma {:induction false} KeptPrefixStep<T>(s: seq<T>, p: nat, gone: set<T>)
    requires Distinct(s) && p < |s|
    requires forall q :: p <= q < |s| ==> s[q] !in gone
    ensures Without(s[..p + 1], gone) + s[p + 1..] == Without(s[..p], gone) + s[p..]
    ensures |Without(s[..p + 1], gone)| == |Without(s[..p], gone)| + 1
    ensures Without(s[..p + 1], gone + {s[p]}) == Without(s[..p], gone)
    ensures p + 2 <= |s| ==>
              Without(s[..p + 2], gone + {s[p]}) + s[p + 2..] == Without(s[..p], gone) + s[p + 1..] &&
              |Without(s[..p + 2], gone + {s[p]})| == |Without(s[..p], gone)| + 1
  {
    var x := s[p];
    WithoutPrefixStep(s, p, gone);
    assert s[p..] == [x] + s[p + 1..];
    WithoutPrefixStep(s, p, gone + {x});
    assert x !in s[..p] by {
      forall q | 0 <= q < p ensures s[..p][q] != x { assert s[..p][q] == s[q]; }
    }
    WithoutAbsent(s[..p], gone, x);
    if p + 2 <= |s| {
      assert s[p + 1] != x;
      WithoutPrefixStep(s, p + 1, gone + {x});
      assert s[p + 1..] == [s[p + 1]] + s[p + 2..];
    }
  }

  /** The list a loop walks, while its body may `remove` the element it is
      at: the kept prefix of `s[..p]` followed by `s[p..]`, the loop index `i`
      at `s[p]`. After the step the same shape holds further on; a removal
      moves the next element under the index, which the loop then passes by. */
  lemma {:induction false} KeptRemoveStep<T>(s: seq<T>, p: nat, gone: set<T>, dropped: bool,
                                             i: nat, items: seq<T>, items': seq<T>)
    requires Distinct(s) && p < |s|
    requires forall q :: p <= q < |s| ==> s[q] !in gone
    requires items == Without(s[..p], gone) + s[p..] && i == |Without(s[..p], gone)|
    requires Distinct(items)
    requires items' == if dropped then RemoveFirst(items, s[p]) else items
    ensures var p' := if dropped && p + 2 <= |s| then p + 2 else p + 1;
            var gone' := if dropped then gone + {s[p]} else gone;
            items' == Without(s[..p'], gone') + s[p'..] &&
            (i + 1 == |Without(s[..p'], gone')| || (p' == |s| && i + 1 == |Without(s, gone')| + 1))
  {
    KeptPrefixStep(s, p, gone);
    var w := Without(s[..p], gone);
    if dropped {
      assert items[i] == s[p];
      RemoveFirstAt(items, i);
      assert items[..i] == w && items[i + 1..] == s[p + 1..];
      if p + 2 > |s| {
        assert s == s[..p + 1] && s[p + 1..] == [];
      }
    }
  }

  /** Python's `list.index(x)`: the first position of `x`. Python raises
      `ValueError` when `x` is absent; callers establish `x in s`. */
  function IndexOf<T(==)>(s: seq<T>, x: T): (i: nat)
    requires x in s
    ensures i < |s| && s[i] == x
    ensures forall j :: 0 <= j < i ==> s[j] != x
  {
    if s[0] == x then 0
    else
      assert x in s[1..] by {
        var k :| 0 <= k < |s| && s[k] == x;
        assert s[1..][k - 1] == x;
      }
      1 + IndexOf(s[1..], x)
  }

  /** Python's `list.remove(x)`: the first occurrence of `x` is taken out.
      Python raises `ValueError` when `x` is absent; callers check `x in s`. */
  function RemoveFirst<T(==)>(s: seq<T>, x: T): (r: seq<T>)
    requires x in s
    ensures |r| == |s| - 1
  {
    var i := IndexOf(s, x);
    s[..i] + s[i + 1..]
  }

  /** In a list without repeats, removing the element at position `i` closes the gap there. */
  lemma {:induction false} RemoveFirstAt<T>(s: seq<T>, i: nat)
    requires Distinct(s) && i < |s|
    ensures RemoveFirst(s, s[i]) == s[..i] + s[i + 1..]
  {
    var j := IndexOf(s, s[i]);
    assert j <= i;
    assert s[j] == s[i];
  }

  /** In a list without repeats, `remove(x)` is filtering `x` out. */
  lemma {:induction false} RemoveFirstIsWithout<T>(s: seq<T>, x: T)
    requires Distinct(s) && x in s
    ensures RemoveFirst(s, x) == Without(s, {x})
  {
    var i := IndexOf(s, x);
    RemoveFirstAt(s, i);
    var after := s[i + 1..];
    assert x !in after by {
      forall k | 0 <= k < |after| ensures after[k] != x {
        assert after[k] == s[i + 1 + k];
      }
    }
    assert s == s[..i] + [x] + after;
    WithoutAround(s[..i], x, after);
  }

  lemma {:induction false} WithoutAround<T>(before: seq<T>, x: T, after: seq<T>)
    requires x !in before && x !in after
    ensures Without(before + [x] + after, {x}) == before + after
  {
    var s := before + [x] + after;
    if before == [] {
      assert s[0] == x && s[1..] == after;
      WithoutNothing(after, {x});
    } else {
      assert s[0] == before[0] && s[1..] == before[1..] + [x] + after;
      WithoutAround(before[1..], x, after);
    }
  }

  // ---------------------------------------------------------------------------
  // A `for` loop whose body removes the current element from the list
  // ---------------------------------------------------------------------------

  /** The elements that `for x in s: ... s.remove(x) ...` visits when the body
      removes exactly the visited elements that lie in `drop`. The loop walks
      by position; a removal shifts the tail one place to the left under that
      position, so the element right after a removed one is passed over. */
  function Sweep<T(==)>(s: seq<T>, drop: set<T>): (v: seq<T>)
    ensures |v| <= |s|
    ensures forall i :: 0 <= i < |v| ==> v[i] in s
    ensures s != [] ==> v != [] && v[0] == s[0]
    decreases |s|
  {
    if s == [] then []
    else if s[0] in drop && |s| >= 2 then [s[0]] + Sweep(s[2..], drop)
    else [s[0]] + Sweep(s[1..], drop)
  }

  /** A loop that has reached `visited` and would go on to reach the sweep of
      `s[p..]` reaches `s[p]` next and then goes on past the neighbour it
      skips when `s[p]` is dropped. */
  lemma {:induction false} SweepStep<T>(s: seq<T>, p: nat, drop: set<T>, visited: seq<T>)
    requires p < |s|
    requires visited + Sweep(s[p..], drop) == Sweep(s, drop)
    ensures visited + [s[p]] + Sweep(s[if s[p] in drop && p + 2 <= |s| then p + 2 else p + 1..], drop) ==
              Sweep(s, drop)
  {
    var next := if s[p] in drop && p + 2 <= |s| then p + 2 else p + 1;
    var rest := Sweep(s[next..], drop);
    assert Sweep(s[p..], drop) == [s[p]] + rest by {
      var t := s[p..];
      assert t[0] == s[p] && |t| == |s| - p;
      assert t[next - p..] == s[next..];
    }
    assert visited + [s[p]] + rest == visited + ([s[p]] + rest);
  }

  /** With nothing removed every element is visited, in order. */
  lemma {:induction false} SweepNoDrop<T>(s: seq<T>, drop: set<T>)
    requires forall x :: x in s ==> x !in drop
    ensures Sweep(s, drop) == s
  {
    if s != [] {
      SweepNoDrop(s[1..], drop);
    }
  }

  /** Exactly which elements are visited: the first one, and any later one
      unless its predecessor was visited and removed. */
  lemma {:induction false} SweepVisits<T>(s: seq<T>, drop: set<T>, k: nat)
    requires Distinct(s) && k < |s|
    ensures s[k] in Sweep(s, drop) <==>
              k == 0 || !(s[k - 1] in Sweep(s, drop) && s[k - 1] in drop)
    decreases |s|
  {
    var v := Sweep(s, drop);
    if k == 0 {
    } else if s[0] in drop && |s| >= 2 {
      var t := s[2..];
      assert v == [s[0]] + Sweep(t, drop);
      assert s[1] !in t by {
        forall j | 0 <= j < |t| ensures t[j] != s[1] { assert t[j] == s[j + 2]; }
      }
      if k == 1 {
        assert s[1] != s[0];
        assert s[1] !in Sweep(t, drop);
      } else {
        assert t[k - 2] == s[k];
        assert s[k] != s[0];
        if k == 2 {
          assert s[1] !in v;
        } else {
          assert t[k - 3] == s[k - 1];
          assert s[k - 1] != s[0];
          assert Distinct(t) by {
            forall i, j | 0 <= i < j < |t| ensures t[i] != t[j] { assert t[i] == s[i + 2] && t[j] == s[j + 2]; }
          }
          SweepVisits(t, drop, k - 2);
        }
      }
    } else {
      var t := s[1..];
      assert v == [s[0]] + Sweep(t, drop);
      assert t[k - 1] == s[k];
      assert s[k] != s[0];
      assert Distinct(t) by {
        forall i, j | 0 <= i < j < |t| ensures t[i] != t[j] { assert t[i] == s[i + 1] && t[j] == s[j + 1]; }
      }
      if k == 1 {
        assert s[0] in v;
      } else {
        assert t[k - 2] == s[k - 1];
        assert s[k - 1] != s[0];
        SweepVisits(t, drop, k - 1);
      }
    }
  }

  // ---------------------------------------------------------------------------
  // Stable sort by an integer key, on (key, value) pairs
  // ---------------------------------------------------------------------------

  ghost predicate SortedByKey<T>(s: seq<(int, T)>) {
    forall i, j :: 0 <= i < j < |s| ==> s[i].0 <= s[j].0
  }

  /** The entries of `s` whose key is `k`, in their order in `s`. */
  function WithKey<T>(s: seq<(int, T)>, k: int): (r: seq<(int, T)>)
    ensures |r| <= |s|
  {
    if s == [] then []
    else (if s[0].0 == k then [s[0]] else []) + WithKey(s[1..], k)
  }

  lemma {:induction false} WithKeyHas<T>(s: seq<(int, T)>, k: int, e: (int, T))
    ensures e in WithKey(s, k) <==> e in s && e.0 == k
  {
    if s != [] {
      WithKeyHas(s[1..], k, e);
      assert s == [s[0]] + s[1..];
    }
  }

  /** Puts `x` in front of the first entry whose key is not below `x`'s, so
      that `x` precedes the entries with an equal key already in `s`. */
  function Insert<T>(x: (int, T), s: seq<(int, T)>): (r: seq<(int, T)>)
    ensures |r| == |s| + 1
    ensures multiset(r) == multiset(s) + multiset{x}
  {
    if s == [] || x.0 <= s[0].0 then [x] + s
    else
      assert s == [s[0]] + s[1..];
      [s[0]] + Insert(x, s[1..])
  }

  /** Stable sort by key (insertion sort from the back). */
  function SortByKey<T>(s: seq<(int, T)>): (r: seq<(int, T)>)
    ensures |r| == |s|
    ensures multiset(r) == multiset(s)
  {
    if s == [] then []
    else
      assert s == [s[0]] + s[1..];
      Insert(s[0], SortByKey(s[1..]))
  }

  lemma {:induction false} InsertSorted<T>(x: (int, T), s: seq<(int, T)>)
    requires SortedByKey(s)
    ensures SortedByKey(Insert(x, s))
    ensures Insert(x, s)[0] == x || (s != [] && Insert(x, s)[0] == s[0])
  {
    if s != [] && x.0 > s[0].0 {
      var tail := s[1..];
      assert SortedByKey(tail) by {
        forall i, j | 0 <= i < j < |tail| ensures tail[i].0 <= tail[j].0 {
          assert tail[i] == s[i + 1] && tail[j] == s[j + 1];
        }
      }
      InsertSorted(x, tail);
      var r := Insert(x, tail);
      assert s[0].0 <= r[0].0 by {
        if r[0] != x {
          assert r[0] == s[1];
        }
      }
      var t := [s[0]] + r;
      assert Insert(x, s) == t;
      forall i, j | 0 <= i < j < |t| ensures t[i].0 <= t[j].0 {
        assert t[j] == r[j - 1];
        if i > 0 {
          assert t[i] == r[i - 1];
        } else if j > 1 {
          assert r[0].0 <= r[j - 1].0;
        }
      }
    }
  }

  /** The result is ordered by key. */
  lemma {:induction false} SortByKeySorted<T>(s: seq<(int, T)>)
    ensures SortedByKey(SortByKey(s))
  {
    if s != [] {
      SortByKeySorted(s[1..]);
      InsertSorted(s[0], SortByKey(s[1..]));
    }
  }

  lemma {:induction false} InsertWithKey<T>(x: (int, T), s: seq<(int, T)>, k: int)
    ensures WithKey(Insert(x, s), k) == (if x.0 == k then [x] else []) + WithKey(s, k)
  {
    if s == [] || x.0 <= s[0].0 {
      assert ([x] + s)[1..] == s;
    } else {
      InsertWithKey(x, s[1..], k);
      assert ([s[0]] + Insert(x, s[1..]))[1..] == Insert(x, s[1..]);
    }
  }

  /** Stability: among entries with one key, the input order is kept. */
  lemma {:induction false} SortByKeyStable<T>(s: seq<(int, T)>, k: int)
    ensures WithKey(SortByKey(s), k) == WithKey(s, k)
  {
    if s != [] {
      SortByKeyStable(s[1..], k);
      InsertWithKey(s[0], SortByKey(s[1..]), k);
    }
  }

  lemma {:induction false} SortedTail<T>(r: seq<(int, T)>)
    requires SortedByKey(r) && r != []
    ensures SortedByKey(r[1..])
  {
    forall i, j | 0 <= i < j < |r| - 1 ensures r[1..][i].0 <= r[1..][j].0 {
      assert r[1..][i] == r[i + 1] && r[1..][j] == r[j + 1];
    }
  }

  /** The first entry of a key-ordered sequence has the least key. */
  lemma {:induction false} SortedHeadLeast<T>(r: seq<(int, T)>, e: (int, T))
    requires SortedByKey(r) && e in r
    ensures r[0].0 <= e.0
  {
    var j :| 0 <= j < |r| && r[j] == e;
    assert j == 0 || r[0].0 <= r[j].0;
  }

  lemma {:induction false} WithKeyCons<T>(r: seq<(int, T)>, k: int)
    requires r != []
    ensures WithKey(r, k) == (if r[0].0 == k then [r[0]] else []) + WithKey(r[1..], k)
  {
  }

  /** Key-ordered sequences that agree key by key start with the same entry. */
  lemma {:induction false} AgreeingHeads<T>(r: seq<(int, T)>, t: seq<(int, T)>)
    requires SortedByKey(r) && SortedByKey(t) && r != []
    requires forall k :: WithKey(r, k) == WithKey(t, k)
    ensures t != [] && r[0] == t[0]
  {
    var k := r[0].0;
    WithKeyCons(r, k);
    assert WithKey(t, k) == WithKey(r, k);
    WithKeyHas(t, k, r[0]);
    assert r[0] in t;
    SortedHeadLeast(t, r[0]);
    var k1 := t[0].0;
    WithKeyHas(t, k1, t[0]);
    assert WithKey(r, k1) == WithKey(t, k1);
    WithKeyHas(r, k1, t[0]);
    SortedHeadLeast(r, t[0]);
    assert k1 == k;
    WithKeyCons(t, k);
    assert WithKey(r, k)[0] == r[0] && WithKey(t, k)[0] == t[0];
  }

  /** Dropping a common first entry keeps the key-by-key agreement. */
  lemma {:induction false} AgreeingTails<T>(r: seq<(int, T)>, t: seq<(int, T)>)
    requires r != [] && t != [] && r[0] == t[0]
    requires forall k :: WithKey(r, k) == WithKey(t, k)
    ensures forall k :: WithKey(r[1..], k) == WithKey(t[1..], k)
  {
    forall k ensures WithKey(r[1..], k) == WithKey(t[1..], k) {
      WithKeyCons(r, k);
      WithKeyCons(t, k);
      assert WithKey(r, k) == WithKey(t, k);
      var a, b := WithKey(r[1..], k), WithKey(t[1..], k);
      if r[0].0 == k {
        assert [r[0]] + a == [t[0]] + b;
        assert ([r[0]] + a)[1..] == a;
        assert ([t[0]] + b)[1..] == b;
      } else {
        assert [] + a == a && [] + b == b;
      }
    }
  }

  /** Two key-ordered sequences that agree key by key are equal. */
  lemma {:induction false} SortedAgreeingEqual<T>(r: seq<(int, T)>, t: seq<(int, T)>)
    requires SortedByKey(r) && SortedByKey(t)
    requires forall k :: WithKey(r, k) == WithKey(t, k)
    ensures r == t
    decreases |r|
  {
    if r == [] {
      if t != [] {
        AgreeingHeads(t, r);
      }
    } else {
      AgreeingHeads(r, t);
      AgreeingTails(r, t);
      SortedTail(r);
      SortedTail(t);
      SortedAgreeingEqual(r[1..], t[1..]);
      assert r == [r[0]] + r[1..] && t == [t[0]] + t[1..];
    }
  }

  /** Any key-ordered rearrangement that keeps the input order within each key
      is exactly `SortByKey`: the result does not depend on the sorting
      algorithm, only on sortedness and stability. */
  lemma {:induction false} SortByKeyUnique<T>(s: seq<(int, T)>, r: seq<(int, T)>)
    requires SortedByKey(r)
    requires forall k :: WithKey(r, k) == WithKey(s, k)
    ensures r == SortByKey(s)
  {
    SortByKeySorted(s);
    forall k ensures WithKey(r, k) == WithKey(SortByKey(s), k) {
      SortByKeyStable(s, k);
    }
    SortedAgreeingEqual(r, SortByKey(s));
  }

  /** The values of (key, value) pairs, in order. */
  function Values<T>(s: seq<(int, T)>): (r: seq<T>)
    ensures |r| == |s|
    ensures forall i :: 0 <= i < |s| ==> r[i] == s[i].1
  {
    if s == [] then [] else [s[0].1] + Values(s[1..])
  }
}
