/** The ranking done at the end of a run: the items of a result dictionary
    sorted by value with Python's stable `sorted`, ascending for the risk
    dictionary and with `reverse=True` for the profit dictionary, and the
    full records of the first five of them (borrow_check.py:337-357). */
module Ranking {
  import opened Pricing

  /** `sorted(...)` or `sorted(..., reverse=True)`. */
  datatype Order = Ascending | Descending

  /** Key `a` goes strictly before key `b`. Equal keys never do, which is
      what makes the sort stable in both directions: `reverse=True` keeps
      equal items in their original order rather than reversing them. */
  predicate Precedes(o: Order, a: real, b: real) {
    match o
    case Ascending => a < b
    case Descending => a > b
  }

  /** No item goes strictly before one that is listed ahead of it. */
  ghost predicate Ordered<T>(s: seq<T>, key: T -> real, o: Order) {
    forall i, j :: 0 <= i < j < |s| ==> !Precedes(o, key(s[j]), key(s[i]))
  }

  /** The items whose key is `v`, in the order they are listed. */
  function WithKey<T>(s: seq<T>, key: T -> real, v: real): seq<T>
    decreases |s|
  {
    if s == [] then []
    else (if key(s[0]) == v then [s[0]] else []) + WithKey(s[1..], key, v)
  }

  /** Insertion of `x` into a sorted list: after every item it does not go
      strictly before. */
  function Insert<T>(x: T, s: seq<T>, key: T -> real, o: Order): (r: seq<T>)
    ensures |r| == |s| + 1
    decreases |s|
  {
    if s == [] then [x]
    else if Precedes(o, key(x), key(s[0])) then [x] + s
    else [s[0]] + Insert(x, s[1..], key, o)
  }

  /** Python's stable `sorted` on `key`, as an insertion sort taking the
      items in their original order. */
  function SortBy<T>(xs: seq<T>, key: T -> real, o: Order): (r: seq<T>)
    ensures |r| == |xs|
    decreases |xs|
  {
    if xs == [] then [] else Insert(xs[|xs| - 1], SortBy(xs[..|xs| - 1], key, o), key, o)
  }

  /** The sort key of the risk dictionary's items: days to profit. */
  function RiskKey<K>(item: (K, int)): real {
    item.1 as real
  }

  /** The sort key of the profit dictionary's items: the estimated payout. */
  function ProfitKey<K>(item: (K, real)): real {
    item.1
  }

  // ----- the three properties of the sort -----

  lemma {:induction false} InsertOrdered<T>(x: T, s: seq<T>, key: T -> real, o: Order)
    requires Ordered(s, key, o)
    ensures Ordered(Insert(x, s, key, o), key, o)
    decreases |s|
  {
    if s != [] && !Precedes(o, key(x), key(s[0])) {
      var tail := s[1..];
      OrderedTail(s, key, o);
      InsertOrdered(x, tail, key, o);
      var r := Insert(x, s, key, o);
      var rt := Insert(x, tail, key, o);
      assert r == [s[0]] + rt;
      // Every item of the inserted tail is `x` or an item of `tail`; neither goes before s[0].
      InsertMembers(x, tail, key, o);
      forall j | 0 < j < |r| ensures !Precedes(o, key(r[j]), key(r[0])) {
        assert r[j] == rt[j - 1];
        assert rt[j - 1] in multiset(tail) + multiset{x};
        if rt[j - 1] != x {
          var k :| 0 <= k < |tail| && tail[k] == rt[j - 1];
          assert tail[k] == s[k + 1];
        }
      }
    }
  }

  lemma {:induction false} InsertMembers<T>(x: T, s: seq<T>, key: T -> real, o: Order)
    ensures multiset(Insert(x, s, key, o)) == multiset(s) + multiset{x}
    decreases |s|
  {
    if s != [] && !Precedes(o, key(x), key(s[0])) {
      InsertMembers(x, s[1..], key, o);
      assert s == [s[0]] + s[1..];
    }
  }

  /** The sort is ordered by its key. */
  lemma {:induction false} SortOrdered<T>(xs: seq<T>, key: T -> real, o: Order)
    ensures Ordered(SortBy(xs, key, o), key, o)
    decreases |xs|
  {
    if xs != [] {
      SortOrdered(xs[..|xs| - 1], key, o);
      InsertOrdered(xs[|xs| - 1], SortBy(xs[..|xs| - 1], key, o), key, o);
    }
  }

  /** The sort rearranges the items and nothing else. */
  lemma {:induction false} SortPermutes<T>(xs: seq<T>, key: T -> real, o: Order)
    ensures multiset(SortBy(xs, key, o)) == multiset(xs)
    decreases |xs|
  {
    if xs != [] {
      var pre := xs[..|xs| - 1];
      SortPermutes(pre, key, o);
      InsertMembers(xs[|xs| - 1], SortBy(pre, key, o), key, o);
      assert xs == pre + [xs[|xs| - 1]];
    }
  }

  lemma {:induction false} WithKeyAppend<T>(a: seq<T>, b: seq<T>, key: T -> real, v: real)
    ensures WithKey(a + b, key, v) == WithKey(a, key, v) + WithKey(b, key, v)
    decreases |a|
  {
    if a != [] {
      assert (a + b)[1..] == a[1..] + b;
      WithKeyAppend(a[1..], b, key, v);
    } else {
      assert a + b == b;
    }
  }

  /** Nothing in a sorted list that `x` goes strictly before carries `x`'s key. */
  lemma {:induction false} WithKeyAfter<T>(x: T, s: seq<T>, key: T -> real, o: Order)
    requires Ordered(s, key, o)
    requires s != [] && Precedes(o, key(x), key(s[0]))
    ensures WithKey(s, key, key(x)) == []
    decreases |s|
  {
    var tail := s[1..];
    if tail != [] {
      assert tail[0] == s[1];
      assert !Precedes(o, key(s[1]), key(s[0]));
      OrderedTail(s, key, o);
      WithKeyAfter(x, tail, key, o);
    }
  }

  lemma {:induction false} InsertWithKey<T>(x: T, s: seq<T>, key: T -> real, o: Order, v: real)
    requires Ordered(s, key, o)
    ensures WithKey(Insert(x, s, key, o), key, v)
            == WithKey(s, key, v) + (if key(x) == v then [x] else [])
    decreases |s|
  {
    if s == [] {
    } else if Precedes(o, key(x), key(s[0])) {
      assert ([x] + s)[1..] == s;
      if key(x) == v {
        WithKeyAfter(x, s, key, o);
      }
    } else {
      var tail := s[1..];
      OrderedTail(s, key, o);
      InsertWithKey(x, tail, key, o, v);
      var ins := Insert(x, tail, key, o);
      var head := if key(s[0]) == v then [s[0]] else [];
      var extra := if key(x) == v then [x] else [];
      assert Insert(x, s, key, o) == [s[0]] + ins;
      assert ([s[0]] + ins)[1..] == ins;
      assert WithKey([s[0]] + ins, key, v) == head + (WithKey(tail, key, v) + extra);
      assert head + (WithKey(tail, key, v) + extra) == (head + WithKey(tail, key, v)) + extra;
    }
  }

  /** Dropping the first item keeps a list in order. */
  lemma OrderedTail<T>(s: seq<T>, key: T -> real, o: Order)
    requires s != [] && Ordered(s, key, o)
    ensures Ordered(s[1..], key, o)
  {
    var tail := s[1..];
    forall i, j | 0 <= i < j < |tail| ensures !Precedes(o, key(tail[j]), key(tail[i])) {
      assert tail[i] == s[i + 1] && tail[j] == s[j + 1];
    }
  }

  /** The sort is stable: items with the same key keep their relative order. */
  lemma {:induction false} SortStable<T>(xs: seq<T>, key: T -> real, o: Order, v: real)
    ensures WithKey(SortBy(xs, key, o), key, v) == WithKey(xs, key, v)
    decreases |xs|
  {
    if xs != [] {
      var pre := xs[..|xs| - 1];
      var x := xs[|xs| - 1];
      SortStable(pre, key, o, v);
      SortOrdered(pre, key, o);
      InsertWithKey(x, SortBy(pre, key, o), key, o, v);
      assert xs == pre + [x];
      WithKeyAppend(pre, [x], key, v);
      assert [x][1..] == [];
    }
  }

  // ----- the two properties pin the sort down -----

  lemma {:induction false} WithKeyHas<T>(s: seq<T>, key: T -> real, i: int)
    requires 0 <= i < |s|
    ensures WithKey(s, key, key(s[i])) != []
    decreases |s|
  {
    if i > 0 {
      assert s[1..][i - 1] == s[i];
      WithKeyHas(s[1..], key, i - 1);
    }
  }

  lemma {:induction false} WithKeyFrom<T>(s: seq<T>, key: T -> real, v: real, n: int)
    requires 0 <= n < |WithKey(s, key, v)|
    ensures exists i :: 0 <= i < |s| && s[i] == WithKey(s, key, v)[n] && key(s[i]) == v
    decreases |s|
  {
    if s != [] {
      if key(s[0]) == v && n == 0 {
        assert s[0] == WithKey(s, key, v)[0];
      } else {
        var m := if key(s[0]) == v then n - 1 else n;
        assert WithKey(s, key, v)[n] == WithKey(s[1..], key, v)[m];
        WithKeyFrom(s[1..], key, v, m);
        var i :| 0 <= i < |s[1..]| && s[1..][i] == WithKey(s[1..], key, v)[m] && key(s[1..][i]) == v;
        assert s[i + 1] == s[1..][i];
      }
    }
  }

  /** Total order: of two keys, one goes before the other, or neither does
      and they are equal. */
  lemma PrecedesTotal(o: Order, a: real, b: real)
    ensures !Precedes(o, a, b) && !Precedes(o, b, a) ==> a == b
  {
  }

  /** Any ordered list that keeps, for every key, the items with that key in
      their original order is the one `sorted` returns. */
  lemma {:induction false} SortUnique<T>(xs: seq<T>, r: seq<T>, key: T -> real, o: Order)
    requires Ordered(r, key, o)
    requires forall v :: WithKey(r, key, v) == WithKey(xs, key, v)
    ensures r == SortBy(xs, key, o)
  {
    var q := SortBy(xs, key, o);
    SortOrdered(xs, key, o);
    forall v ensures WithKey(q, key, v) == WithKey(r, key, v) {
      SortStable(xs, key, o, v);
    }
    OrderedEqual(r, q, key, o);
  }

  lemma {:induction false} OrderedEqual<T>(r: seq<T>, q: seq<T>, key: T -> real, o: Order)
    requires Ordered(r, key, o) && Ordered(q, key, o)
    requires forall v :: WithKey(r, key, v) == WithKey(q, key, v)
    ensures r == q
    decreases |r| + |q|
  {
    if r == [] && q != [] {
      WithKeyHas(q, key, 0);
    } else if r != [] && q == [] {
      WithKeyHas(r, key, 0);
    } else if r != [] {
      var v, w := key(r[0]), key(q[0]);
      // q holds an item keyed v and r one keyed w, so neither key goes first.
      WithKeyHas(r, key, 0);
      WithKeyFrom(q, key, v, 0);
      var i :| 0 <= i < |q| && q[i] == WithKey(q, key, v)[0] && key(q[i]) == v;
      assert i == 0 || !Precedes(o, key(q[i]), key(q[0]));
      WithKeyHas(q, key, 0);
      WithKeyFrom(r, key, w, 0);
      var j :| 0 <= j < |r| && r[j] == WithKey(r, key, w)[0] && key(r[j]) == w;
      assert j == 0 || !Precedes(o, key(r[j]), key(r[0]));
      PrecedesTotal(o, v, w);
      assert v == w;
      assert r[0] == WithKey(r, key, v)[0] == WithKey(q, key, v)[0] == q[0];
      var rt, qt := r[1..], q[1..];
      assert Ordered(rt, key, o) by {
        forall a, b | 0 <= a < b < |rt| ensures !Precedes(o, key(rt[b]), key(rt[a])) {
          assert rt[a] == r[a + 1] && rt[b] == r[b + 1];
        }
      }
      assert Ordered(qt, key, o) by {
        forall a, b | 0 <= a < b < |qt| ensures !Precedes(o, key(qt[b]), key(qt[a])) {
          assert qt[a] == q[a + 1] && qt[b] == q[b + 1];
        }
      }
      forall u ensures WithKey(rt, key, u) == WithKey(qt, key, u) {
        var head := if key(r[0]) == u then [r[0]] else [];
        assert WithKey(r, key, u) == head + WithKey(rt, key, u);
        assert WithKey(q, key, u) == head + WithKey(qt, key, u);
        assert WithKey(rt, key, u) == WithKey(r, key, u)[|head|..];
        assert WithKey(qt, key, u) == WithKey(q, key, u)[|head|..];
      }
      OrderedEqual(rt, qt, key, o);
      assert r == [r[0]] + rt && q == [q[0]] + qt;
    }
  }

  // ----- the top five -----

  /** How many ranked items a report shows. */
  const TopCount := 5

  function Min(a: int, b: int): int {
    if a <= b then a else b
  }

  /** The loop that walks a ranking, appends the overall record of each key
      and stops once it has five. Only the keys it reaches are looked up. */
  method TopFive<K, V>(ranked: seq<(K, V)>, records: map<K, CollarRecord>) returns (top: seq<CollarRecord>)
    requires forall i :: 0 <= i < |ranked| && i < TopCount ==> ranked[i].0 in records
    ensures |top| == Min(TopCount, |ranked|)
    ensures forall i :: 0 <= i < |top| ==> top[i] == records[ranked[i].0]
  {
    top := [];
    var count := 0;
    while count < |ranked|
      invariant 0 <= count <= |ranked| && count < TopCount
      invariant |top| == count
      invariant forall i :: 0 <= i < count ==> top[i] == records[ranked[i].0]
    {
      top := top + [records[ranked[count].0]];
      count := count + 1;
      if count == TopCount {
        break;
      }
    }
  }
}
