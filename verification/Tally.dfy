/** Grouping by key into an insertion-ordered table, as a Python dict of running totals does, and stable sorting. */
module Tally {

  datatype Entry<K, V> = Entry(key: K, value: V)

  /** A way to add values up. */
  datatype Adder<!V> = Adder(zero: V, plus: (V, V) -> V)

  // ----- Tables -----

  /** `table[k] += v` on a table whose missing entries are zero. */
  function Bump<K(==), V>(t: seq<Entry<K, V>>, a: Adder<V>, k: K, v: V): (u: seq<Entry<K, V>>)
    ensures u != []
  {
    if t == [] then [Entry(k, a.plus(a.zero, v))]
    else if t[0].key == k then [Entry(k, a.plus(t[0].value, v))] + t[1..]
    else [t[0]] + Bump(t[1..], a, k, v)
  }

  /** The value under a key, zero when there is none. */
  function Lookup<K(==), V>(t: seq<Entry<K, V>>, a: Adder<V>, k: K): V {
    if t == [] then a.zero else if t[0].key == k then t[0].value else Lookup(t[1..], a, k)
  }

  ghost predicate HasKey<K, V>(t: seq<Entry<K, V>>, k: K) {
    exists i :: 0 <= i < |t| && t[i].key == k
  }

  ghost predicate Distinct<K, V>(t: seq<Entry<K, V>>) {
    forall i, j :: 0 <= i < j < |t| ==> t[i].key != t[j].key
  }

  /** The table of all the items, taken in order. */
  function Group<K(==), V>(items: seq<Entry<K, V>>, a: Adder<V>): seq<Entry<K, V>> {
    if items == [] then []
    else
      var n := |items| - 1;
      Bump(Group(items[..n], a), a, items[n].key, items[n].value)
  }

  /** The items under one key, added up in order. */
  function AddUp<K(==), V>(items: seq<Entry<K, V>>, a: Adder<V>, k: K): V {
    if items == [] then a.zero
    else
      var n := |items| - 1;
      var before := AddUp(items[..n], a, k);
      if items[n].key == k then a.plus(before, items[n].value) else before
  }

  lemma {:induction false} HasKeyTail<K, V>(t: seq<Entry<K, V>>, k: K)
    requires t != []
    ensures HasKey(t, k) <==> t[0].key == k || HasKey(t[1..], k)
  {
    if HasKey(t, k) {
      var i :| 0 <= i < |t| && t[i].key == k;
      if i > 0 {
        assert t[1..][i - 1].key == k;
      }
    }
    if HasKey(t[1..], k) {
      var i :| 0 <= i < |t| - 1 && t[1..][i].key == k;
      assert t[i + 1].key == k;
    }
  }

  lemma {:induction false} BumpKeys<K, V>(t: seq<Entry<K, V>>, a: Adder<V>, k: K, v: V, j: K)
    ensures HasKey(Bump(t, a, k, v), j) <==> j == k || HasKey(t, j)
  {
    var u := Bump(t, a, k, v);
    HasKeyTail(u, j);
    if t != [] {
      HasKeyTail(t, j);
      if t[0].key == k {
        assert u[1..] == t[1..];
      } else {
        assert u[1..] == Bump(t[1..], a, k, v);
        BumpKeys(t[1..], a, k, v, j);
      }
    }
  }

  lemma {:induction false} BumpDistinct<K, V>(t: seq<Entry<K, V>>, a: Adder<V>, k: K, v: V)
    requires Distinct(t)
    ensures Distinct(Bump(t, a, k, v))
  {
    if t != [] && t[0].key != k {
      var u := Bump(t[1..], a, k, v);
      BumpDistinct(t[1..], a, k, v);
      BumpKeys(t[1..], a, k, v, t[0].key);
      forall i | 0 <= i < |u| ensures u[i].key != t[0].key {
        assert HasKey(u, u[i].key);
      }
    }
  }

  lemma {:induction false} BumpLookup<K, V>(t: seq<Entry<K, V>>, a: Adder<V>, k: K, v: V, j: K)
    ensures Lookup(Bump(t, a, k, v), a, j) == if j == k then a.plus(Lookup(t, a, k), v) else Lookup(t, a, j)
  {
    if t != [] {
      var u := Bump(t, a, k, v);
      if t[0].key == k {
        assert u[1..] == t[1..];
      } else {
        assert u[1..] == Bump(t[1..], a, k, v);
        BumpLookup(t[1..], a, k, v, j);
      }
    }
  }

  /** Every key of the items has one entry, which holds exactly the items under that key. */
  lemma {:induction false} GroupIsExact<K, V>(items: seq<Entry<K, V>>, a: Adder<V>, k: K)
    ensures Distinct(Group(items, a))
    ensures HasKey(Group(items, a), k) <==> HasKey(items, k)
    ensures Lookup(Group(items, a), a, k) == AddUp(items, a, k)
  {
    if items != [] {
      var n := |items| - 1;
      var init, last := items[..n], items[n];
      GroupIsExact(init, a, k);
      BumpDistinct(Group(init, a), a, last.key, last.value);
      BumpKeys(Group(init, a), a, last.key, last.value, k);
      BumpLookup(Group(init, a), a, last.key, last.value, k);
      HasKeyLast(items, k);
    }
  }

  lemma HasKeyLast<K, V>(t: seq<Entry<K, V>>, k: K)
    requires t != []
    ensures HasKey(t, k) <==> t[|t| - 1].key == k || HasKey(t[..|t| - 1], k)
  {
    var init := t[..|t| - 1];
    if HasKey(init, k) {
      var i :| 0 <= i < |init| && init[i].key == k;
      assert t[i].key == k;
    }
    if HasKey(t, k) && t[|t| - 1].key != k {
      var i :| 0 <= i < |t| && t[i].key == k;
      assert init[i].key == k;
    }
  }

  function Keys<K, V>(t: seq<Entry<K, V>>): (ks: seq<K>)
    ensures |ks| == |t| && forall i :: 0 <= i < |t| ==> ks[i] == t[i].key
  {
    seq(|t|, i requires 0 <= i < |t| => t[i].key)
  }

  /** The keys of the items, each where it comes first. */
  function FirstKeys<K(==), V>(items: seq<Entry<K, V>>): seq<K> {
    if items == [] then []
    else
      var before, k := FirstKeys(items[..|items| - 1]), items[|items| - 1].key;
      if k in before then before else before + [k]
  }

  lemma {:induction false} BumpOrder<K, V>(t: seq<Entry<K, V>>, a: Adder<V>, k: K, v: V)
    ensures Keys(Bump(t, a, k, v)) == if k in Keys(t) then Keys(t) else Keys(t) + [k]
  {
    if t != [] {
      assert Keys(t) == [t[0].key] + Keys(t[1..]);
      if t[0].key == k {
        assert Keys(Bump(t, a, k, v)) == Keys(t);
      } else {
        BumpOrder(t[1..], a, k, v);
        assert Keys(Bump(t, a, k, v)) == [t[0].key] + Keys(Bump(t[1..], a, k, v));
      }
    }
  }

  /** The table keeps its keys in the order in which they first came. */
  lemma {:induction false} GroupOrder<K, V>(items: seq<Entry<K, V>>, a: Adder<V>)
    ensures Keys(Group(items, a)) == FirstKeys(items)
  {
    if items != [] {
      var n := |items| - 1;
      GroupOrder(items[..n], a);
      BumpOrder(Group(items[..n], a), a, items[n].key, items[n].value);
    }
  }

  /** The entry of a table with distinct keys is what a lookup finds. */
  lemma {:induction false} LookupAt<K, V>(t: seq<Entry<K, V>>, a: Adder<V>, i: nat)
    requires Distinct(t) && i < |t|
    ensures Lookup(t, a, t[i].key) == t[i].value
  {
    if i > 0 {
      assert t[0].key != t[i].key;
      assert Distinct(t[1..]);
      LookupAt(t[1..], a, i - 1);
    }
  }

  /** `table[k] = v` */
  function Put<K(==), V>(t: seq<Entry<K, V>>, k: K, v: V): seq<Entry<K, V>> {
    if t == [] then [Entry(k, v)]
    else if t[0].key == k then [Entry(k, v)] + t[1..]
    else [t[0]] + Put(t[1..], k, v)
  }

  /** `table[k] += v` reads, adds and stores. */
  lemma {:induction false} BumpIsPut<K, V>(t: seq<Entry<K, V>>, a: Adder<V>, k: K, v: V)
    ensures Bump(t, a, k, v) == Put(t, k, a.plus(Lookup(t, a, k), v))
  {
    if t != [] {
      BumpIsPut(t[1..], a, k, v);
    }
  }

  // ----- Sums -----

  function Sum<T>(s: seq<T>, m: T -> int): int {
    if s == [] then 0 else Sum(s[..|s| - 1], m) + m(s[|s| - 1])
  }

  lemma {:induction false} SumConcat<T>(s: seq<T>, t: seq<T>, m: T -> int)
    ensures Sum(s + t, m) == Sum(s, m) + Sum(t, m)
  {
    if t == [] {
      assert s + t == s;
    } else {
      assert (s + t)[..|s + t| - 1] == s + t[..|t| - 1];
      SumConcat(s, t[..|t| - 1], m);
    }
  }

  lemma SumFirst<T>(s: seq<T>, m: T -> int)
    requires s != []
    ensures Sum(s, m) == m(s[0]) + Sum(s[1..], m)
  {
    assert s == [s[0]] + s[1..];
    SumConcat([s[0]], s[1..], m);
    assert Sum([s[0]], m) == m(s[0]) by {
      assert [s[0]][..0] == [];
    }
  }

  lemma {:induction false} SumPointwise<S, T>(s: seq<S>, t: seq<T>, m: S -> int, n: T -> int)
    requires |s| == |t| && forall i :: 0 <= i < |s| ==> m(s[i]) == n(t[i])
    ensures Sum(s, m) == Sum(t, n)
  {
    if s != [] {
      SumPointwise(s[..|s| - 1], t[..|t| - 1], m, n);
    }
  }

  function Ones<T>(): T -> int {
    (x: T) => 1
  }

  lemma {:induction false} SumOnes<T>(s: seq<T>)
    ensures Sum(s, Ones()) == |s|
  {
    if s != [] {
      SumOnes(s[..|s| - 1]);
    }
  }

  /** One for an element of this name, zero for others. */
  function Named<T>(name: T -> string, n: string): T -> int {
    (x: T) => if name(x) == n then 1 else 0
  }

  /** Counts by name over elements whose names are those of a table with distinct keys. */
  lemma {:induction false} NamedOnce<T, V>(t: seq<Entry<string, V>>, s: seq<T>, name: T -> string, n: string)
    requires Distinct(t) && |s| == |t| && forall i :: 0 <= i < |t| ==> name(s[i]) == t[i].key
    ensures Sum(s, Named(name, n)) == if HasKey(t, n) then 1 else 0
  {
    if t != [] {
      var k := |t| - 1;
      NamedOnce(t[..k], s[..k], name, n);
      HasKeyLast(t, n);
      if HasKey(t[..k], n) {
        var i :| 0 <= i < k && t[..k][i].key == n;
        assert t[i].key == n;
      }
    }
  }

  /** `m` measures values so that adding values adds measures. */
  ghost predicate Additive<V(!new)>(a: Adder<V>, m: V -> int) {
    m(a.zero) == 0 && forall x, y :: m(a.plus(x, y)) == m(x) + m(y)
  }

  function OfValue<K, V>(m: V -> int): Entry<K, V> -> int {
    (e: Entry<K, V>) => m(e.value)
  }

  lemma {:induction false} BumpSum<K, V(!new)>(t: seq<Entry<K, V>>, a: Adder<V>, k: K, v: V, m: V -> int)
    requires Additive(a, m)
    ensures Sum(Bump(t, a, k, v), OfValue(m)) == Sum(t, OfValue(m)) + m(v)
  {
    var u := Bump(t, a, k, v);
    SumFirst(u, OfValue(m));
    if t == [] {
      assert u[1..] == [];
    } else {
      SumFirst(t, OfValue(m));
      if t[0].key == k {
        assert u[1..] == t[1..];
      } else {
        assert u[1..] == Bump(t[1..], a, k, v);
        BumpSum(t[1..], a, k, v, m);
      }
    }
  }

  /** Grouping conserves every additive measure. */
  lemma {:induction false} GroupConserves<K, V(!new)>(items: seq<Entry<K, V>>, a: Adder<V>, m: V -> int)
    requires Additive(a, m)
    ensures Sum(Group(items, a), OfValue(m)) == Sum(items, OfValue(m))
  {
    if items != [] {
      var n := |items| - 1;
      GroupConserves(items[..n], a, m);
      BumpSum(Group(items[..n], a), a, items[n].key, items[n].value, m);
    }
  }

  // ----- sort(key=..., reverse=True) -----

  /** `x` goes in front of the first element with a strictly smaller key, so behind its equals. */
  function Insert<T>(s: seq<T>, x: T, key: T -> int): seq<T> {
    if s == [] then [x]
    else if key(s[0]) < key(x) then [x] + s
    else [s[0]] + Insert(s[1..], x, key)
  }

  function SortDown<T>(s: seq<T>, key: T -> int): seq<T> {
    if s == [] then [] else Insert(SortDown(s[..|s| - 1], key), s[|s| - 1], key)
  }

  ghost predicate Descending<T>(s: seq<T>, key: T -> int) {
    forall i, j :: 0 <= i < j < |s| ==> key(s[i]) >= key(s[j])
  }

  /** The elements with one key, in order. */
  function WithKey<T>(s: seq<T>, key: T -> int, v: int): seq<T> {
    if s == [] then []
    else
      var init := WithKey(s[..|s| - 1], key, v);
      if key(s[|s| - 1]) == v then init + [s[|s| - 1]] else init
  }

  lemma {:induction false} WithKeyConcat<T>(s: seq<T>, t: seq<T>, key: T -> int, v: int)
    ensures WithKey(s + t, key, v) == WithKey(s, key, v) + WithKey(t, key, v)
  {
    if t == [] {
      assert s + t == s;
    } else {
      assert (s + t)[..|s + t| - 1] == s + t[..|t| - 1];
      WithKeyConcat(s, t[..|t| - 1], key, v);
    }
  }

  lemma {:induction false} NoneWithKey<T>(s: seq<T>, key: T -> int, v: int)
    requires forall i :: 0 <= i < |s| ==> key(s[i]) < v
    ensures WithKey(s, key, v) == []
  {
    if s != [] {
      NoneWithKey(s[..|s| - 1], key, v);
    }
  }

  lemma OneWithKey<T>(x: T, key: T -> int, v: int)
    ensures WithKey([x], key, v) == if key(x) == v then [x] else []
  {
    assert [x][..0] == [];
  }

  lemma {:induction false} InsertIsStable<T>(s: seq<T>, x: T, key: T -> int, v: int)
    requires Descending(s, key)
    ensures WithKey(Insert(s, x, key), key, v) == WithKey(s + [x], key, v)
  {
    hide WithKey;
    if s == [] {
      assert s + [x] == [x];
    } else if key(s[0]) < key(x) {
      GoesFirst(s, x, key, v);
    } else {
      assert Descending(s[1..], key);
      InsertIsStable(s[1..], x, key, v);
      assert s + [x] == [s[0]] + (s[1..] + [x]);
      WithKeyConcat([s[0]], s[1..] + [x], key, v);
      WithKeyConcat([s[0]], Insert(s[1..], x, key), key, v);
    }
  }

  lemma GoesFirst<T>(s: seq<T>, x: T, key: T -> int, v: int)
    requires forall i :: 0 <= i < |s| ==> key(s[i]) < key(x)
    ensures WithKey([x] + s, key, v) == WithKey(s + [x], key, v)
  {
    hide WithKey;
    WithKeyConcat([x], s, key, v);
    WithKeyConcat(s, [x], key, v);
    OneWithKey(x, key, v);
    if key(x) == v {
      NoneWithKey(s, key, v);
    }
  }

  lemma {:induction false} InsertMember<T>(s: seq<T>, x: T, key: T -> int, y: T)
    ensures y in Insert(s, x, key) <==> y == x || y in s
  {
    if s != [] && key(s[0]) >= key(x) {
      InsertMember(s[1..], x, key, y);
      assert s == [s[0]] + s[1..];
    }
  }

  lemma {:induction false} InsertDescends<T>(s: seq<T>, x: T, key: T -> int)
    requires Descending(s, key)
    ensures Descending(Insert(s, x, key), key)
  {
    if s != [] && key(s[0]) >= key(x) {
      assert Descending(s[1..], key);
      InsertDescends(s[1..], x, key);
      var u := Insert(s[1..], x, key);
      forall i | 0 <= i < |u| ensures key(s[0]) >= key(u[i]) {
        InsertMember(s[1..], x, key, u[i]);
        if u[i] in s[1..] {
          var j :| 0 <= j < |s| - 1 && s[1..][j] == u[i];
          assert s[j + 1] == u[i];
        }
      }
    }
  }

  lemma {:induction false} SortDescends<T>(s: seq<T>, key: T -> int)
    ensures Descending(SortDown(s, key), key)
  {
    if s != [] {
      SortDescends(s[..|s| - 1], key);
      InsertDescends(SortDown(s[..|s| - 1], key), s[|s| - 1], key);
    }
  }

  lemma {:induction false} SortMembers<T>(s: seq<T>, key: T -> int, x: T)
    ensures x in SortDown(s, key) <==> x in s
  {
    if s != [] {
      var init, last := s[..|s| - 1], s[|s| - 1];
      SortMembers(init, key, x);
      InsertMember(SortDown(init, key), last, key, x);
      assert s == init + [last];
    }
  }

  /** Sorting gives a descending sequence with, for each key, the same elements in the same order. */
  lemma {:induction false} SortIsStable<T>(s: seq<T>, key: T -> int, v: int)
    ensures Descending(SortDown(s, key), key)
    ensures WithKey(SortDown(s, key), key, v) == WithKey(s, key, v)
  {
    hide Descending, Insert;
    SortDescends(s, key);
    if s != [] {
      var init, last := s[..|s| - 1], s[|s| - 1];
      SortIsStable(init, key, v);
      InsertIsStable(SortDown(init, key), last, key, v);
      WithKeyConcat(SortDown(init, key), [last], key, v);
      WithKeyConcat(init, [last], key, v);
      assert s == init + [last];
    }
  }

  lemma {:induction false} PairInWithKey<T>(s: seq<T>, key: T -> int, i: nat, j: nat) returns (p: nat, q: nat)
    requires i < j < |s| && key(s[i]) == key(s[j])
    ensures var w := WithKey(s, key, key(s[j])); p < q < |w| && w[p] == s[i] && w[q] == s[j]
  {
    var init := s[..|s| - 1];
    if j < |s| - 1 {
      p, q := PairInWithKey(init, key, i, j);
    } else {
      p := OneInWithKey(init, key, i);
      q := |WithKey(init, key, key(s[j]))|;
    }
  }

  lemma {:induction false} OneInWithKey<T>(s: seq<T>, key: T -> int, i: nat) returns (p: nat)
    requires i < |s|
    ensures var w := WithKey(s, key, key(s[i])); p < |w| && w[p] == s[i]
  {
    if i < |s| - 1 {
      p := OneInWithKey(s[..|s| - 1], key, i);
    } else {
      p := |WithKey(s[..|s| - 1], key, key(s[i]))|;
    }
  }

  lemma {:induction false} OneFromWithKey<T>(s: seq<T>, key: T -> int, v: int, p: nat) returns (i: nat)
    requires p < |WithKey(s, key, v)|
    ensures i < |s| && s[i] == WithKey(s, key, v)[p]
  {
    var w := WithKey(s[..|s| - 1], key, v);
    if p < |w| {
      i := OneFromWithKey(s[..|s| - 1], key, v, p);
    } else {
      i := |s| - 1;
    }
  }

  lemma {:induction false} PairFromWithKey<T>(s: seq<T>, key: T -> int, v: int, p: nat, q: nat)
    returns (i: nat, j: nat)
    requires p < q < |WithKey(s, key, v)|
    ensures i < j < |s| && s[i] == WithKey(s, key, v)[p] && s[j] == WithKey(s, key, v)[q]
  {
    var w := WithKey(s[..|s| - 1], key, v);
    if q < |w| {
      i, j := PairFromWithKey(s[..|s| - 1], key, v, p, q);
    } else {
      i := OneFromWithKey(s[..|s| - 1], key, v, p);
      j := |s| - 1;
    }
  }

  /** Of two elements with equal keys, the one in front after sorting was in front before. */
  lemma SortKeepsOrder<T>(s: seq<T>, key: T -> int, i: nat, j: nat) returns (p: nat, q: nat)
    requires i < j < |SortDown(s, key)| && key(SortDown(s, key)[i]) == key(SortDown(s, key)[j])
    ensures p < q < |s| && s[p] == SortDown(s, key)[i] && s[q] == SortDown(s, key)[j]
  {
    hide SortDown, WithKey;
    var u := SortDown(s, key);
    var a, b := PairInWithKey(u, key, i, j);
    SortIsStable(s, key, key(u[j]));
    p, q := PairFromWithKey(s, key, key(u[j]), a, b);
  }

  lemma {:induction false} InsertSum<T>(s: seq<T>, x: T, key: T -> int, m: T -> int)
    ensures Sum(Insert(s, x, key), m) == Sum(s, m) + m(x) && |Insert(s, x, key)| == |s| + 1
  {
    SumFirst(Insert(s, x, key), m);
    if s != [] {
      SumFirst(s, m);
      if key(s[0]) < key(x) {
        assert ([x] + s)[1..] == s;
      } else {
        assert Insert(s, x, key)[1..] == Insert(s[1..], x, key);
        InsertSum(s[1..], x, key, m);
      }
    } else {
      assert [x][1..] == [];
    }
  }

  lemma {:induction false} SortConserves<T>(s: seq<T>, key: T -> int, m: T -> int)
    ensures Sum(SortDown(s, key), m) == Sum(s, m) && |SortDown(s, key)| == |s|
  {
    if s != [] {
      SortConserves(s[..|s| - 1], key, m);
      InsertSum(SortDown(s[..|s| - 1], key), s[|s| - 1], key, m);
    }
  }
}
