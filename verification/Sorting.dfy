/** Sorting: strings without repeats, and the stable sort by a recency key. */
module Sorting {
  import opened Wrappers
  import opened Digits

  // ----- Strings in order -----

  ghost predicate IsSorted(s: seq<string>) {
    forall i, j | 0 <= i < j < |s| :: LexLess(s[i], s[j])
  }

  ghost predicate Lists(s: seq<string>, names: set<string>) {
    IsSorted(s) && forall n :: n in s <==> n in names
  }

  lemma NoRepeats(s: seq<string>, i: nat)
    requires IsSorted(s) && i < |s|
    ensures s[i] !in s[..i]
  {
    LexIrreflexive(s[i]);
  }

  function Inserted(s: seq<string>, n: string): seq<string> {
    if s == [] || LexLess(n, s[0]) then [n] + s else [s[0]] + Inserted(s[1..], n)
  }

  lemma {:induction false} InsertedIsSorted(s: seq<string>, n: string)
    requires IsSorted(s) && n !in s
    ensures IsSorted(Inserted(s, n))
    ensures forall m :: m in Inserted(s, n) <==> m in s || m == n
  {
    if s == [] {
    } else if LexLess(n, s[0]) {
      forall j | 0 <= j < |s| ensures LexLess(n, s[j]) {
        if j > 0 {
          LexTransitive(n, s[0], s[j]);
        }
      }
    } else {
      LexTotal(n, s[0]);
      InsertedIsSorted(s[1..], n);
      var t := Inserted(s[1..], n);
      forall j | 0 <= j < |t| ensures LexLess(s[0], t[j]) {
        assert t[j] in t;
      }
      assert s == [s[0]] + s[1..];
    }
  }

  /** The strings of a set in order, as a sorted map iterates its keys. */
  method InOrder(names: set<string>) returns (s: seq<string>)
    ensures Lists(s, names)
  {
    s := [];
    var left := names;
    while left != {}
      invariant left <= names
      invariant Lists(s, names - left)
      decreases |left|
    {
      var n :| n in left;
      InsertedIsSorted(s, n);
      s := Inserted(s, n);
      left := left - {n};
    }
  }

  // ----- Stable, newest first -----

  /** Rust's order on optional times, reversed: a time before none, later before earlier. */
  predicate Newer(a: Option<nat>, b: Option<nat>) {
    a.Some? && (b.None? || a.value > b.value)
  }

  ghost predicate NewestFirst<T(!new)>(s: seq<T>, key: T -> Option<nat>) {
    forall i, j | 0 <= i < j < |s| :: !Newer(key(s[j]), key(s[i]))
  }

  /** The elements with one key, in their order. */
  function With<T>(s: seq<T>, key: T -> Option<nat>, k: Option<nat>): seq<T> {
    if s == [] then [] else (if key(s[0]) == k then [s[0]] else []) + With(s[1..], key, k)
  }

  /** `x` put in front of the first element that is no newer. */
  function PutIn<T>(x: T, s: seq<T>, key: T -> Option<nat>): (r: seq<T>)
    ensures |r| == |s| + 1
  {
    if s == [] || !Newer(key(s[0]), key(x)) then [x] + s else [s[0]] + PutIn(x, s[1..], key)
  }

  function StableSort<T>(s: seq<T>, key: T -> Option<nat>): (r: seq<T>)
    ensures |r| == |s|
  {
    if s == [] then [] else PutIn(s[0], StableSort(s[1..], key), key)
  }

  /** `t` is `s` sorted: newest first, and equally new elements in their old order. */
  ghost predicate IsStableSort<T(!new)>(t: seq<T>, s: seq<T>, key: T -> Option<nat>) {
    NewestFirst(t, key) && forall k: Option<nat> :: With(t, key, k) == With(s, key, k)
  }

  lemma {:induction false} PutInMembers<T>(x: T, s: seq<T>, key: T -> Option<nat>, y: T)
    ensures y in PutIn(x, s, key) <==> y == x || y in s
  {
    if s != [] && Newer(key(s[0]), key(x)) {
      PutInMembers(x, s[1..], key, y);
      assert s == [s[0]] + s[1..];
    }
  }

  lemma {:induction false} PutInKeepsOrder<T(!new)>(x: T, s: seq<T>, key: T -> Option<nat>)
    requires NewestFirst(s, key)
    ensures NewestFirst(PutIn(x, s, key), key)
  {
    if s != [] && Newer(key(s[0]), key(x)) {
      PutInKeepsOrder(x, s[1..], key);
      var rest := PutIn(x, s[1..], key);
      forall j | 0 <= j < |rest| ensures !Newer(key(rest[j]), key(s[0])) {
        PutInMembers(x, s[1..], key, rest[j]);
        assert rest[j] in rest;
      }
    }
  }

  lemma {:induction false} PutInWith<T>(x: T, s: seq<T>, key: T -> Option<nat>, k: Option<nat>)
    ensures With(PutIn(x, s, key), key, k) == (if key(x) == k then [x] else []) + With(s, key, k)
  {
    if s != [] && Newer(key(s[0]), key(x)) {
      PutInWith(x, s[1..], key, k);
    } else {
      assert ([x] + s)[1..] == s;
    }
  }

  lemma {:induction false} StableSortSorts<T(!new)>(s: seq<T>, key: T -> Option<nat>)
    ensures IsStableSort(StableSort(s, key), s, key)
  {
    if s != [] {
      var rest := StableSort(s[1..], key);
      StableSortSorts(s[1..], key);
      PutInKeepsOrder(s[0], rest, key);
      forall k: Option<nat> ensures With(StableSort(s, key), key, k) == With(s, key, k) {
        PutInWith(s[0], rest, key, k);
      }
    }
  }

  lemma {:induction false} WithMembers<T>(s: seq<T>, key: T -> Option<nat>, k: Option<nat>, x: T)
    ensures x in With(s, key, k) <==> x in s && key(x) == k
  {
    if s != [] {
      WithMembers(s[1..], key, k, x);
      assert s == [s[0]] + s[1..];
    }
  }

  lemma SomethingWith<T>(s: seq<T>, key: T -> Option<nat>)
    requires s != []
    ensures With(s, key, key(s[0])) != []
  {
  }

  lemma WithRest<T>(s: seq<T>, key: T -> Option<nat>, k: Option<nat>)
    requires s != []
    ensures With(s[1..], key, k) == if key(s[0]) == k then With(s, key, k)[1..] else With(s, key, k)
  {
  }

  lemma NewestIsFirst<T(!new)>(s: seq<T>, key: T -> Option<nat>, x: T)
    requires NewestFirst(s, key) && x in s
    ensures !Newer(key(x), key(s[0]))
  {
  }

  /** Being newest first and stable leaves one order. */
  lemma {:induction false} OneStableSort<T(!new)>(t: seq<T>, u: seq<T>, key: T -> Option<nat>)
    requires NewestFirst(t, key) && NewestFirst(u, key)
    requires forall k: Option<nat> :: With(t, key, k) == With(u, key, k)
    ensures t == u
  {
    if t == [] {
      if u != [] {
        SomethingWith(u, key);
      }
    } else {
      var k := key(t[0]);
      WithMembers(t, key, k, t[0]);
      WithMembers(u, key, k, t[0]);
      assert t[0] in u;
      NewestIsFirst(u, key, t[0]);
      WithMembers(u, key, key(u[0]), u[0]);
      WithMembers(t, key, key(u[0]), u[0]);
      assert u[0] in t;
      NewestIsFirst(t, key, u[0]);
      assert key(u[0]) == k;
      assert With(t, key, k)[0] == t[0] && With(u, key, k)[0] == u[0];
      forall j: Option<nat> ensures With(t[1..], key, j) == With(u[1..], key, j) {
        WithRest(t, key, j);
        WithRest(u, key, j);
      }
      OneStableSort(t[1..], u[1..], key);
      assert t == [t[0]] + t[1..] && u == [u[0]] + u[1..];
    }
  }

  lemma {:induction false} StableSortKeepsElements<T>(s: seq<T>, key: T -> Option<nat>)
    ensures multiset(StableSort(s, key)) == multiset(s)
  {
    if s != [] {
      StableSortKeepsElements(s[1..], key);
      PutInKeepsElements(s[0], StableSort(s[1..], key), key);
      assert s == [s[0]] + s[1..];
    }
  }

  lemma {:induction false} PutInKeepsElements<T>(x: T, s: seq<T>, key: T -> Option<nat>)
    ensures multiset(PutIn(x, s, key)) == multiset{x} + multiset(s)
  {
    if s != [] && Newer(key(s[0]), key(x)) {
      PutInKeepsElements(x, s[1..], key);
      assert s == [s[0]] + s[1..];
    }
  }
}
