/** Strictly sorted lists: what `sorted(set(...))` gives, for any order. */
module Sorting {
  import opened Basics

  /** A strict total order. */
  ghost predicate Orders<T(!new)>(less: (T, T) -> bool) {
    && (forall x, y :: less(x, y) || x == y || less(y, x))
    && (forall x, y | less(x, y) :: !less(y, x))
    && (forall x, y, z | less(x, y) && less(y, z) :: less(x, z))
  }

  /** Sorted, and nothing twice. */
  predicate Strict<T>(less: (T, T) -> bool, list: seq<T>) {
    forall i, j | 0 <= i < j < |list| :: less(list[i], list[j])
  }

  ghost predicate SameMembers<T(!new)>(xs: seq<T>, ys: seq<T>) {
    forall x :: x in xs <==> x in ys
  }

  function Insert<T(==)>(less: (T, T) -> bool, x: T, list: seq<T>): seq<T> {
    if list == [] || less(x, list[0]) then [x] + list
    else if x == list[0] then list
    else [list[0]] + Insert(less, x, list[1..])
  }

  lemma {:induction false} InsertKeeps<T(!new)>(less: (T, T) -> bool, x: T, list: seq<T>)
    requires Orders(less) && Strict(less, list)
    ensures Strict(less, Insert(less, x, list))
    ensures forall y :: y in Insert(less, x, list) <==> y == x || y in list
  {
    if list != [] && !less(x, list[0]) && x != list[0] {
      var rest := Insert(less, x, list[1..]);
      InsertKeeps(less, x, list[1..]);
      assert list == [list[0]] + list[1..];
      forall k | 0 <= k < |rest| ensures less(list[0], rest[k]) {
        assert rest[k] in rest;
      }
    }
  }

  lemma StrictTail<T(!new)>(less: (T, T) -> bool, list: seq<T>)
    requires Orders(less) && Strict(less, list) && list != []
    ensures Strict(less, list[1..])
    ensures forall x :: x in list[1..] <==> x in list && x != list[0]
  {
    assert list == [list[0]] + list[1..];
    forall k | 0 < k < |list| ensures list[k] != list[0] {
      assert less(list[0], list[k]);
    }
  }

  lemma SameHead<T(!new)>(less: (T, T) -> bool, xs: seq<T>, ys: seq<T>)
    requires Orders(less) && Strict(less, xs) && Strict(less, ys) && xs != [] && ys != [] && SameMembers(xs, ys)
    ensures xs[0] == ys[0]
  {
    assert ys[0] in ys && xs[0] in xs;
    var i :| 0 <= i < |xs| && xs[i] == ys[0];
    var j :| 0 <= j < |ys| && ys[j] == xs[0];
    assert i > 0 ==> less(xs[0], xs[i]);
    assert j > 0 ==> less(ys[0], ys[j]);
  }

  /** A set has one sorted list. */
  lemma {:induction false} StrictIsUnique<T(!new)>(less: (T, T) -> bool, xs: seq<T>, ys: seq<T>)
    requires Orders(less) && Strict(less, xs) && Strict(less, ys) && SameMembers(xs, ys)
    ensures xs == ys
  {
    assert (xs != [] ==> xs[0] in ys) && (ys != [] ==> ys[0] in xs);
    if xs != [] && ys != [] {
      SameHead(less, xs, ys);
      StrictTail(less, xs);
      StrictTail(less, ys);
      StrictIsUnique(less, xs[1..], ys[1..]);
      assert xs == [xs[0]] + xs[1..] && ys == [ys[0]] + ys[1..];
    }
  }

  lemma {:induction false} SortedExists<T(!new)>(less: (T, T) -> bool, members: set<T>) returns (list: seq<T>)
    requires Orders(less)
    ensures Strict(less, list) && forall x :: x in list <==> x in members
    decreases |members|
  {
    if members == {} {
      list := [];
    } else {
      var x :| x in members;
      var rest := SortedExists(less, members - {x});
      InsertKeeps(less, x, rest);
      list := Insert(less, x, rest);
    }
  }

  /** The set as a sorted list. */
  ghost function Sorted<T(!new)>(less: (T, T) -> bool, members: set<T>): (list: seq<T>)
    requires Orders(less)
    ensures Strict(less, list) && forall x :: x in list <==> x in members
  {
    assert exists list: seq<T> :: Strict(less, list) && forall x :: x in list <==> x in members by {
      var list := SortedExists(less, members);
    }
    var list: seq<T> :| Strict(less, list) && forall x :: x in list <==> x in members;
    list
  }

  method SortedList<T(==, !new)>(less: (T, T) -> bool, members: set<T>) returns (list: seq<T>)
    requires Orders(less)
    ensures list == Sorted(less, members)
  {
    list := [];
    var rest := members;
    while rest != {}
      invariant rest <= members && Strict(less, list)
      invariant forall x :: x in list <==> x in members && x !in rest
      decreases |rest|
    {
      var x :| x in rest;
      InsertKeeps(less, x, list);
      list := Insert(less, x, list);
      rest := rest - {x};
    }
    StrictIsUnique(less, list, Sorted(less, members));
  }

  // ------------------------------------------------------------------ the orders in use

  lemma StringsOrder()
    ensures Orders(StringLess)
  {
    forall x, y ensures StringLess(x, y) || x == y || StringLess(y, x) {
      LessTrichotomy(x, y);
    }
    forall x, y | StringLess(x, y) ensures !StringLess(y, x) {
      LessTrichotomy(x, y);
    }
    forall x, y, z | StringLess(x, y) && StringLess(y, z) ensures StringLess(x, z) {
      LessTransitive(x, y, z);
    }
  }

  /** Pairs of a name and a number, by the name first. */
  predicate PairLess(x: (string, nat), y: (string, nat)) {
    StringLess(x.0, y.0) || (x.0 == y.0 && x.1 < y.1)
  }

  lemma PairsOrder()
    ensures Orders(PairLess)
  {
    StringsOrder();
    forall x: (string, nat), y: (string, nat) ensures PairLess(x, y) || x == y || PairLess(y, x) {
      LessTrichotomy(x.0, y.0);
    }
    forall x: (string, nat), y: (string, nat) | PairLess(x, y) ensures !PairLess(y, x) {
      LessTrichotomy(x.0, y.0);
      LessTrichotomy(x.0, x.0);
    }
    forall x: (string, nat), y: (string, nat), z: (string, nat) | PairLess(x, y) && PairLess(y, z) ensures PairLess(x, z) {
      if StringLess(x.0, y.0) && StringLess(y.0, z.0) {
        LessTransitive(x.0, y.0, z.0);
      }
    }
  }

  predicate NatLess(x: nat, y: nat) {
    x < y
  }

  lemma NatsOrder()
    ensures Orders(NatLess)
  {
  }
}
