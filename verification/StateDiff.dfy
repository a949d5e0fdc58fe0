/** `statediff`: two sorted maps of state fields merged into the list of fields that differ (src/cpp/commands_state.cpp). */
module StateDiff {
  import opened Basics

  datatype Field = Field(key: string, value: string)

  datatype Change = Change(key: string, a: string, b: string)

  const ABSENT := "(absent)"

  // ------------------------------------------------------------------ sorted maps

  predicate Sorted(rows: seq<Field>) {
    forall i, j | 0 <= i < j < |rows| :: StringLess(rows[i].key, rows[j].key)
  }

  function Find(rows: seq<Field>, key: string): Option<string> {
    if rows == [] then None else if rows[0].key == key then Some(rows[0].value) else Find(rows[1..], key)
  }

  /** What the difference shows for a key on one side. */
  function Shown(rows: seq<Field>, key: string): string {
    match Find(rows, key) case None => ABSENT case Some(value) => value
  }

  lemma {:induction false} FindAt(rows: seq<Field>, i: nat)
    requires Sorted(rows) && i < |rows|
    ensures Find(rows, rows[i].key) == Some(rows[i].value)
  {
    if i > 0 {
      LessTrichotomy(rows[0].key, rows[i].key);
      FindAt(rows[1..], i - 1);
    }
  }

  lemma {:induction false} FindNone(rows: seq<Field>, key: string)
    requires forall i | 0 <= i < |rows| :: rows[i].key != key
    ensures Find(rows, key) == None
  {
    if rows != [] {
      FindNone(rows[1..], key);
    }
  }

  /** Every row before `n` comes before `key`, every row from `n` on does not. */
  predicate SplitAt(rows: seq<Field>, n: nat, key: string) {
    n <= |rows| && (forall i | 0 <= i < n :: StringLess(rows[i].key, key))
    && forall i | n <= i < |rows| :: rows[i].key == key || StringLess(key, rows[i].key)
  }

  lemma FindSplit(rows: seq<Field>, n: nat, key: string)
    requires Sorted(rows) && SplitAt(rows, n, key)
    ensures Find(rows, key) == if n < |rows| && rows[n].key == key then Some(rows[n].value) else None
  {
    if n < |rows| && rows[n].key == key {
      FindAt(rows, n);
    } else {
      forall i | 0 <= i < |rows| ensures rows[i].key != key {
        LessTrichotomy(rows[i].key, key);
        if n < i {
          LessTrichotomy(key, rows[n].key);
          LessTrichotomy(rows[n].key, rows[i].key);
        }
      }
      FindNone(rows, key);
    }
  }

  // ------------------------------------------------------------------ the merge

  predicate Ordered(changes: seq<Change>) {
    forall i, j | 0 <= i < j < |changes| :: StringLess(changes[i].key, changes[j].key)
  }

  /** What the first keys of both sides have come to: every field among them that differs, and no other. */
  predicate Reported(a: seq<Field>, b: seq<Field>, changes: seq<Change>) {
    forall c | c in changes :: c.a == Shown(a, c.key) && c.b == Shown(b, c.key) && c.a != c.b
  }

  predicate Names(changes: seq<Change>, key: string) {
    exists k :: 0 <= k < |changes| && changes[k].key == key
  }

  predicate Complete(a: seq<Field>, b: seq<Field>, keys: seq<Field>, n: nat, changes: seq<Change>)
    requires n <= |keys|
  {
    forall i | 0 <= i < n && Shown(a, keys[i].key) != Shown(b, keys[i].key) :: Names(changes, keys[i].key)
  }

  /** The first `n` keys come before all keys of the other side from `m` on. */
  predicate Before(rows: seq<Field>, n: nat, other: seq<Field>, m: nat)
    requires n <= |rows| && m <= |other|
  {
    forall i, j | 0 <= i < n && m <= j < |other| :: StringLess(rows[i].key, other[j].key)
  }

  predicate ChangesBefore(changes: seq<Change>, rows: seq<Field>, n: nat)
    requires n <= |rows|
  {
    forall k, i | 0 <= k < |changes| && n <= i < |rows| :: StringLess(changes[k].key, rows[i].key)
  }

  /** The smaller of the two next keys. */
  predicate IsNext(key: string, a: seq<Field>, ia: nat, b: seq<Field>, ib: nat)
    requires ia <= |a| && ib <= |b|
  {
    (ia < |a| ==> a[ia].key == key || StringLess(key, a[ia].key)) && (ib < |b| ==> b[ib].key == key || StringLess(key, b[ib].key))
    && ((ia < |a| && a[ia].key == key) || (ib < |b| && b[ib].key == key))
  }

  lemma NextSplits(key: string, a: seq<Field>, ia: nat, b: seq<Field>, ib: nat)
    requires ia <= |a| && ib <= |b| && Sorted(a) && Sorted(b) && IsNext(key, a, ia, b, ib) && Before(a, ia, b, ib)
    ensures SplitAt(a, ia, key)
  {
    forall i | ia <= i < |a| ensures a[i].key == key || StringLess(key, a[i].key) {
      if ia < i && a[ia].key != key {
        LessTransitive(key, a[ia].key, a[i].key);
      }
    }
  }

  /** After the step, the keys passed on one side still come before those left on the other. */
  lemma StillBefore(key: string, a: seq<Field>, ia: nat, b: seq<Field>, ib: nat)
    requires Sorted(a) && Sorted(b) && SplitAt(a, ia, key) && SplitAt(b, ib, key) && Before(a, ia, b, ib)
    ensures Before(a, if ia < |a| && a[ia].key == key then ia + 1 else ia, b, if ib < |b| && b[ib].key == key then ib + 1 else ib)
  {
    var ja, jb := if ia < |a| && a[ia].key == key then ia + 1 else ia, if ib < |b| && b[ib].key == key then ib + 1 else ib;
    forall i, j | 0 <= i < ja && jb <= j < |b| ensures StringLess(a[i].key, b[j].key) {
      if i == ia && b[j].key == key {
        LessTrichotomy(b[ib].key, key);
      }
    }
  }

  lemma ChangesStillBefore(key: string, changes: seq<Change>, rows: seq<Field>, n: nat, more: seq<Change>)
    requires Sorted(rows) && SplitAt(rows, n, key) && ChangesBefore(changes, rows, n)
    requires more == changes || (|more| == |changes| + 1 && more[..|changes|] == changes && more[|changes|].key == key)
    ensures ChangesBefore(more, rows, if n < |rows| && rows[n].key == key then n + 1 else n)
  {
    var m := if n < |rows| && rows[n].key == key then n + 1 else n;
    forall k, i | 0 <= k < |more| && m <= i < |rows| ensures StringLess(more[k].key, rows[i].key) {
      if k == |changes| {
        LessTrichotomy(rows[n].key, key);
        if n < i {
          LessTrichotomy(key, rows[n].key);
          LessTrichotomy(rows[n].key, rows[i].key);
        }
      } else {
        assert more[k] == changes[k];
      }
    }
  }

  method Merge(a: seq<Field>, b: seq<Field>) returns (changes: seq<Change>)
    requires Sorted(a) && Sorted(b)
    ensures Ordered(changes) && Reported(a, b, changes)
    ensures forall key :: Shown(a, key) != Shown(b, key) <==> Names(changes, key)
  {
    changes := [];
    var ia, ib := 0, 0;
    while ia < |a| || ib < |b|
      invariant ia <= |a| && ib <= |b|
      invariant Before(a, ia, b, ib) && Before(b, ib, a, ia)
      invariant ChangesBefore(changes, a, ia) && ChangesBefore(changes, b, ib)
      invariant Ordered(changes) && Reported(a, b, changes)
      invariant Complete(a, b, a, ia, changes) && Complete(a, b, b, ib, changes)
      decreases |a| + |b| - ia - ib
    {
      var aFirst := ib == |b| || (ia < |a| && StringLess(a[ia].key, b[ib].key));
      var key := if aFirst then a[ia].key else b[ib].key;
      if ia < |a| && ib < |b| {
        LessTrichotomy(a[ia].key, b[ib].key);
      }
      NextSplits(key, a, ia, b, ib);
      NextSplits(key, b, ib, a, ia);
      FindSplit(a, ia, key);
      FindSplit(b, ib, key);
      var fa, fb := Find(a, key), Find(b, key);
      var va, vb := Shown(a, key), Shown(b, key);
      ghost var was := changes;
      if va != vb {
        changes := changes + [Change(key, va, vb)];
        assert changes[|was|].key == key;
      }
      StillBefore(key, a, ia, b, ib);
      StillBefore(key, b, ib, a, ia);
      ChangesStillBefore(key, was, a, ia, changes);
      ChangesStillBefore(key, was, b, ib, changes);
      CompleteNext(a, b, a, ia, was, key, changes);
      CompleteNext(a, b, b, ib, was, key, changes);
      if fa.Some? {
        ia := ia + 1;
      }
      if fb.Some? {
        ib := ib + 1;
      }
    }
    forall key ensures Shown(a, key) != Shown(b, key) <==> Names(changes, key) {
      MergeEnds(a, b, changes, key);
    }
  }

  lemma CompleteNext(a: seq<Field>, b: seq<Field>, keys: seq<Field>, n: nat, changes: seq<Change>, key: string,
                     more: seq<Change>)
    requires n <= |keys| && Complete(a, b, keys, n, changes) && changes <= more
    requires Shown(a, key) != Shown(b, key) ==> Names(more, key)
    ensures Complete(a, b, keys, if n < |keys| && keys[n].key == key then n + 1 else n, more)
  {
    forall i | 0 <= i < n && Shown(a, keys[i].key) != Shown(b, keys[i].key) ensures Names(more, keys[i].key) {
      var k :| 0 <= k < |changes| && changes[k].key == keys[i].key;
      assert more[k] == changes[k];
    }
  }

  lemma MergeEnds(a: seq<Field>, b: seq<Field>, changes: seq<Change>, key: string)
    requires Reported(a, b, changes) && Complete(a, b, a, |a|, changes) && Complete(a, b, b, |b|, changes)
    ensures Shown(a, key) != Shown(b, key) <==> Names(changes, key)
  {
    if Shown(a, key) != Shown(b, key) {
      if i :| 0 <= i < |a| && a[i].key == key {
      } else if j :| 0 <= j < |b| && b[j].key == key {
      } else {
        FindNone(a, key);
        FindNone(b, key);
      }
    }
    if Names(changes, key) {
      var k :| 0 <= k < |changes| && changes[k].key == key;
      assert changes[k] in changes;
    }
  }

  // ------------------------------------------------------------------ what is shown of a key

  /** Of a key that a side has its value is shown, of any other that it is absent. */
  lemma {:induction false} ShownIs(rows: seq<Field>, key: string)
    requires Sorted(rows)
    ensures forall i | 0 <= i < |rows| && rows[i].key == key :: Shown(rows, key) == rows[i].value
    ensures (forall i | 0 <= i < |rows| :: rows[i].key != key) ==> Shown(rows, key) == "(absent)"
  {
    if rows != [] {
      assert forall i | 0 <= i < |rows| - 1 :: rows[1..][i] == rows[i + 1];
      ShownIs(rows[1..], key);
      forall i | 0 < i < |rows| && rows[i].key == key ensures rows[0].key != key && Shown(rows, key) == rows[i].value {
        LessTrichotomy(rows[0].key, rows[i].key);
        assert rows[1..][i - 1] == rows[i];
      }
    }
  }
}
