/**
 Matching two lists by equal keys in occurrence order: the k-th unmatched left entry that carries a
 key meets the k-th unmatched right entry that carries it.  Every rule of the pass alignment is an
 instance, so what is proved here is proved of all four.
 */
module Occurrence {
  import opened Basics

  type Pairs = set<(nat, nat)>

  ghost function Lefts(pairs: Pairs): set<nat> {
    set p | p in pairs :: p.0
  }

  ghost function Rights(pairs: Pairs): set<nat> {
    set p | p in pairs :: p.1
  }

  ghost function Swap(pairs: Pairs): Pairs {
    set p | p in pairs :: (p.1, p.0)
  }

  /** No entry of either list is matched twice. */
  ghost predicate OneToOne(pairs: Pairs) {
    forall p, q | p in pairs && q in pairs :: p.0 == q.0 <==> p.1 == q.1
  }

  /** Entry `i` carries `key` and is not matched yet; the empty key means "no key at all". */
  ghost predicate Free(keys: seq<string>, used: set<nat>, key: string, i: nat) {
    i < |keys| && key != "" && keys[i] == key && i !in used
  }

  /** The free entries below `n` that carry `key`, in list order. */
  ghost function Queue(keys: seq<string>, used: set<nat>, key: string, n: nat): (queue: seq<nat>)
    requires n <= |keys|
    ensures forall t | 0 <= t < |queue| :: queue[t] < n && Free(keys, used, key, queue[t])
    ensures forall t, u | 0 <= t < u < |queue| :: queue[t] < queue[u]
  {
    if n == 0 then []
    else Queue(keys, used, key, n - 1) + (if Free(keys, used, key, n - 1) then [n - 1] else [])
  }

  /** How many free entries before `i` carry `key`: the occurrence number of `i` when it carries it. */
  ghost function Rank(keys: seq<string>, used: set<nat>, key: string, i: nat): nat
    requires i <= |keys|
  {
    |Queue(keys, used, key, i)|
  }

  /** The pairing rule: equal keys and equal occurrence numbers. */
  ghost predicate Meets(ka: seq<string>, kb: seq<string>, prev: Pairs, i: nat, j: nat) {
    && i < |ka| && j < |kb|
    && Free(ka, Lefts(prev), ka[i], i)
    && Free(kb, Rights(prev), ka[i], j)
    && Rank(ka, Lefts(prev), ka[i], i) == Rank(kb, Rights(prev), ka[i], j)
  }

  /** What one rule adds to what the earlier rules matched. */
  ghost function Fresh(ka: seq<string>, kb: seq<string>, prev: Pairs): Pairs {
    set i: nat, j: nat | i < |ka| && j < |kb| && Meets(ka, kb, prev, i, j) :: (i, j)
  }

  /** ... as far as the right entries below `n` are concerned. */
  ghost function FreshBelow(ka: seq<string>, kb: seq<string>, prev: Pairs, n: nat): Pairs {
    set p | p in Fresh(ka, kb, prev) && p.1 < n
  }

  ghost function RuleStep(ka: seq<string>, kb: seq<string>, prev: Pairs): Pairs {
    prev + Fresh(ka, kb, prev)
  }

  // ------------------------------------------------------------------ queues and ranks

  lemma {:induction false} QueuePrefix(keys: seq<string>, used: set<nat>, key: string, m: nat, n: nat)
    requires m <= n <= |keys|
    ensures Queue(keys, used, key, m) <= Queue(keys, used, key, n)
    decreases n
  {
    if m < n {
      QueuePrefix(keys, used, key, m, n - 1);
    }
  }

  /** A free entry stands in the queue at the place its rank says. */
  lemma RankIsPosition(keys: seq<string>, used: set<nat>, key: string, i: nat, n: nat)
    requires i < n <= |keys| && Free(keys, used, key, i)
    ensures Rank(keys, used, key, i) < |Queue(keys, used, key, n)|
    ensures Queue(keys, used, key, n)[Rank(keys, used, key, i)] == i
  {
    QueuePrefix(keys, used, key, i + 1, n);
  }

  /** ... and every place in the queue is the rank of the entry standing there. */
  lemma PositionIsRank(keys: seq<string>, used: set<nat>, key: string, n: nat, t: nat)
    requires n <= |keys| && t < |Queue(keys, used, key, n)|
    ensures Rank(keys, used, key, Queue(keys, used, key, n)[t]) == t
  {
    var queue := Queue(keys, used, key, n);
    RankIsPosition(keys, used, key, queue[t], n);
  }

  lemma RanksDiffer(keys: seq<string>, used: set<nat>, key: string, i: nat, j: nat)
    requires Free(keys, used, key, i) && Free(keys, used, key, j)
    requires Rank(keys, used, key, i) == Rank(keys, used, key, j)
    ensures i == j
  {
    RankIsPosition(keys, used, key, i, |keys|);
    RankIsPosition(keys, used, key, j, |keys|);
  }

  /** `j` meets exactly the left entry standing at its own occurrence number in the left queue. */
  lemma MeetsByQueue(ka: seq<string>, kb: seq<string>, prev: Pairs, i: nat, j: nat)
    requires j < |kb|
    ensures Meets(ka, kb, prev, i, j) <==>
            var queue := Queue(ka, Lefts(prev), kb[j], |ka|);
            var r := Rank(kb, Rights(prev), kb[j], j);
            Free(kb, Rights(prev), kb[j], j) && r < |queue| && queue[r] == i
  {
    var queue := Queue(ka, Lefts(prev), kb[j], |ka|);
    var r := Rank(kb, Rights(prev), kb[j], j);
    if Meets(ka, kb, prev, i, j) {
      RankIsPosition(ka, Lefts(prev), kb[j], i, |ka|);
    }
    if Free(kb, Rights(prev), kb[j], j) && r < |queue| && queue[r] == i {
      PositionIsRank(ka, Lefts(prev), kb[j], |ka|, r);
    }
  }

  /** The left entry that right entry `j` meets, as a set of at most one pair. */
  ghost function PartnerOf(ka: seq<string>, kb: seq<string>, prev: Pairs, j: nat): Pairs
    requires j < |kb|
  {
    var queue := Queue(ka, Lefts(prev), kb[j], |ka|);
    var r := Rank(kb, Rights(prev), kb[j], j);
    if Free(kb, Rights(prev), kb[j], j) && r < |queue| then {(queue[r], j)} else {}
  }

  lemma FreshBelowNext(ka: seq<string>, kb: seq<string>, prev: Pairs, j: nat)
    requires j < |kb|
    ensures FreshBelow(ka, kb, prev, j + 1) == FreshBelow(ka, kb, prev, j) + PartnerOf(ka, kb, prev, j)
  {
    forall i: nat {
      MeetsByQueue(ka, kb, prev, i, j);
    }
  }

  // ------------------------------------------------------------------ serving from queues

  function QueueOf(queues: map<string, seq<nat>>, key: string): seq<nat> {
    if key in queues then queues[key] else []
  }

  ghost function Drop(s: seq<nat>, n: nat): seq<nat> {
    if n < |s| then s[n..] else []
  }

  /** Every queue holds what the entries of B below `index` left of it. */
  ghost predicate Served(queues: map<string, seq<nat>>, ka: seq<string>, kb: seq<string>, prev: Pairs, index: nat)
    requires index <= |kb|
  {
    forall key | key != "" ::
      QueueOf(queues, key) == Drop(Queue(ka, Lefts(prev), key, |ka|), Rank(kb, Rights(prev), key, index))
  }

  lemma ServedNext(queues: map<string, seq<nat>>, ka: seq<string>, kb: seq<string>, prev: Pairs, index: nat)
    requires index < |kb| && Served(queues, ka, kb, prev, index)
    ensures !Free(kb, Rights(prev), kb[index], index) ==> Served(queues, ka, kb, prev, index + 1)
    ensures Free(kb, Rights(prev), kb[index], index) ==>
              var queue := QueueOf(queues, kb[index]);
              if queue == []
              then Served(queues, ka, kb, prev, index + 1) && PartnerOf(ka, kb, prev, index) == {}
              else && Served(queues[kb[index] := queue[1..]], ka, kb, prev, index + 1)
                   && PartnerOf(ka, kb, prev, index) == {(queue[0], index)}
  {
    RankNext(kb, Rights(prev), index);
    if Free(kb, Rights(prev), kb[index], index) {
      ServedFree(queues, ka, kb, prev, index, kb[index]);
    }
  }

  lemma RankNext(keys: seq<string>, used: set<nat>, index: nat)
    requires index < |keys|
    ensures forall key | key != "" ::
              Rank(keys, used, key, index + 1) == Rank(keys, used, key, index) + if Free(keys, used, key, index) then 1 else 0
  {
  }

  lemma ServedFree(queues: map<string, seq<nat>>, ka: seq<string>, kb: seq<string>, prev: Pairs, index: nat, k: string)
    requires index < |kb| && Served(queues, ka, kb, prev, index) && k == kb[index] && Free(kb, Rights(prev), k, index)
    ensures var queue := QueueOf(queues, k);
            if queue == []
            then Served(queues, ka, kb, prev, index + 1) && PartnerOf(ka, kb, prev, index) == {}
            else && Served(queues[k := queue[1..]], ka, kb, prev, index + 1)
                 && PartnerOf(ka, kb, prev, index) == {(queue[0], index)}
  {
    var queue, all, r := QueueOf(queues, k), Queue(ka, Lefts(prev), k, |ka|), Rank(kb, Rights(prev), k, index);
    assert queue == Drop(all, r);
    DropNext(all, r);
    if queue == [] {
      ServedOn(queues, queues, ka, kb, prev, index, k);
    } else {
      var rest := queues[k := queue[1..]];
      assert forall key :: QueueOf(rest, key) == if key == k then queue[1..] else QueueOf(queues, key);
      ServedOn(queues, rest, ka, kb, prev, index, k);
    }
  }

  lemma ServedOn(queues: map<string, seq<nat>>, rest: map<string, seq<nat>>, ka: seq<string>, kb: seq<string>, prev: Pairs,
                 index: nat, k: string)
    requires index < |kb| && Served(queues, ka, kb, prev, index) && k == kb[index] && Free(kb, Rights(prev), k, index)
    requires QueueOf(rest, k) == Drop(Queue(ka, Lefts(prev), k, |ka|), Rank(kb, Rights(prev), k, index) + 1)
    requires forall key | key != k :: QueueOf(rest, key) == QueueOf(queues, key)
    ensures Served(rest, ka, kb, prev, index + 1)
  {
    RankNext(kb, Rights(prev), index);
  }

  lemma DropNext(s: seq<nat>, n: nat)
    ensures Drop(s, n) == [] <==> |s| <= n
    ensures n < |s| ==> Drop(s, n)[0] == s[n] && Drop(s, n)[1..] == Drop(s, n + 1)
    ensures |s| <= n ==> Drop(s, n + 1) == []
  {
  }

  /** The left entry about to be matched was matched neither by an earlier rule nor in this one. */
  lemma NotYetPaired(ka: seq<string>, kb: seq<string>, prev: Pairs, j: nat)
    requires j < |kb|
    ensures forall p | p in PartnerOf(ka, kb, prev, j) ::
              p.0 !in Lefts(prev + FreshBelow(ka, kb, prev, j))
  {
    forall p, q | p in PartnerOf(ka, kb, prev, j) && q in FreshBelow(ka, kb, prev, j)
      ensures p.0 != q.0
    {
      MeetsByQueue(ka, kb, prev, p.0, j);
      if p.0 == q.0 {
        RanksDiffer(kb, Rights(prev), ka[p.0], p.1, q.1);
      }
    }
  }

  /** The members of `list` that carry `key`, in list order. */
  ghost function WithKey(list: seq<nat>, keys: seq<string>, key: string): seq<nat> {
    if list == [] then []
    else (if list[0] < |keys| && keys[list[0]] == key then [list[0]] else []) + WithKey(list[1..], keys, key)
  }

  lemma {:induction false} WithKeyAppend(list: seq<nat>, e: nat, keys: seq<string>, key: string)
    ensures WithKey(list + [e], keys, key)
            == WithKey(list, keys, key) + if e < |keys| && keys[e] == key then [e] else []
  {
    if list == [] {
      assert list + [e] == [e];
    } else {
      assert (list + [e])[1..] == list[1..] + [e];
      WithKeyAppend(list[1..], e, keys, key);
    }
  }

  lemma {:induction false} WithKeyNone(list: seq<nat>, keys: seq<string>, key: string)
    requires forall t | 0 <= t < |list| :: list[t] < |keys| && keys[list[t]] != key
    ensures WithKey(list, keys, key) == []
  {
    if list != [] {
      WithKeyNone(list[1..], keys, key);
    }
  }

  /** Taking the first member with its key off the list shortens that key's queue and no other. */
  lemma {:induction false} WithKeyRemove(list: seq<nat>, t: nat, keys: seq<string>, key: string)
    requires t < |list| && forall u | 0 <= u < |list| :: list[u] < |keys|
    requires forall u | 0 <= u < t :: keys[list[u]] != keys[list[t]]
    ensures var rest := WithKey(list[..t] + list[t + 1..], keys, key);
            WithKey(list, keys, key) == if key == keys[list[t]] then [list[t]] + rest else rest
  {
    if t == 0 {
      assert list[..t] + list[t + 1..] == list[1..];
    } else {
      var tail := list[1..];
      WithKeyRemove(tail, t - 1, keys, key);
      assert (list[..t] + list[t + 1..])[1..] == tail[..t - 1] + tail[t..];
    }
  }

  /** `list` holds exactly the free entries below `n`, each key's in queue order. */
  ghost predicate Listed(list: seq<nat>, keys: seq<string>, used: set<nat>, n: nat)
    requires n <= |keys|
  {
    forall key | key != "" :: WithKey(list, keys, key) == Queue(keys, used, key, n)
  }

  lemma ListedNext(list: seq<nat>, keys: seq<string>, used: set<nat>, n: nat)
    requires n < |keys| && Listed(list, keys, used, n)
    ensures Listed(if n !in used && keys[n] != "" then list + [n] else list, keys, used, n + 1)
  {
    forall key | key != ""
      ensures WithKey(list + [n], keys, key)
              == Queue(keys, used, key, n) + if keys[n] == key then [n] else []
    {
      WithKeyAppend(list, n, keys, key);
    }
  }

  /** `list` holds what the askers below `index` left of the free entries. */
  ghost predicate ListServed(list: seq<nat>, ka: seq<string>, kb: seq<string>, prev: Pairs, index: nat)
    requires index <= |kb|
  {
    forall key | key != "" ::
      WithKey(list, ka, key) == Drop(Queue(ka, Lefts(prev), key, |ka|), Rank(kb, Rights(prev), key, index))
  }

  lemma ListServedNext(list: seq<nat>, rest: seq<nat>, ka: seq<string>, kb: seq<string>, prev: Pairs, index: nat)
    requires index < |kb| && ListServed(list, ka, kb, prev, index)
    requires var queue := WithKey(list, ka, kb[index]);
             if !Free(kb, Rights(prev), kb[index], index) || queue == [] then rest == list
             else forall key :: WithKey(list, ka, key)
                                == (if key == kb[index] then [queue[0]] else []) + WithKey(rest, ka, key)
    ensures ListServed(rest, ka, kb, prev, index + 1)
    ensures var queue := WithKey(list, ka, kb[index]);
            PartnerOf(ka, kb, prev, index)
            == if Free(kb, Rights(prev), kb[index], index) && queue != [] then {(queue[0], index)} else {}
  {
    var asks := Free(kb, Rights(prev), kb[index], index);
    forall key | key != ""
      ensures WithKey(rest, ka, key)
              == Drop(Queue(ka, Lefts(prev), key, |ka|), Rank(kb, Rights(prev), key, index + 1))
    {
      assert Rank(kb, Rights(prev), key, index + 1)
             == Rank(kb, Rights(prev), key, index) + if asks && key == kb[index] then 1 else 0;
    }
  }

  // ------------------------------------------------------------------ what a rule keeps

  lemma SwapSides(pairs: Pairs)
    ensures Lefts(Swap(pairs)) == Rights(pairs)
    ensures Rights(Swap(pairs)) == Lefts(pairs)
  {
    forall p | p in pairs
      ensures p.1 in Lefts(Swap(pairs)) && p.0 in Rights(Swap(pairs))
    {
      assert (p.1, p.0) in Swap(pairs);
    }
    forall x | x in Lefts(Swap(pairs))
      ensures x in Rights(pairs)
    {
      var p :| p in Swap(pairs) && p.0 == x;
      assert (p.1, p.0) in pairs;
    }
    forall x | x in Rights(Swap(pairs))
      ensures x in Lefts(pairs)
    {
      var p :| p in Swap(pairs) && p.1 == x;
      assert (p.1, p.0) in pairs;
    }
  }

  lemma MeetsIsSymmetric(ka: seq<string>, kb: seq<string>, prev: Pairs, i: nat, j: nat)
    ensures Meets(ka, kb, prev, i, j) <==> Meets(kb, ka, Swap(prev), j, i)
  {
    SwapSides(prev);
  }

  /** A rule run with the lists exchanged finds the inverse pairs. */
  lemma RuleStepIsSymmetric(ka: seq<string>, kb: seq<string>, prev: Pairs)
    ensures RuleStep(kb, ka, Swap(prev)) == Swap(RuleStep(ka, kb, prev))
  {
    var forth, back := RuleStep(ka, kb, prev), RuleStep(kb, ka, Swap(prev));
    forall p | p in back
      ensures p in Swap(forth)
    {
      MeetsIsSymmetric(ka, kb, prev, p.1, p.0);
      assert (p.1, p.0) in forth;
    }
    forall p | p in forth
      ensures (p.1, p.0) in back
    {
      MeetsIsSymmetric(ka, kb, prev, p.0, p.1);
    }
  }

  /** A rule keeps the matching one-to-one. */
  lemma RuleStepKeepsOneToOne(ka: seq<string>, kb: seq<string>, prev: Pairs)
    requires OneToOne(prev)
    ensures OneToOne(RuleStep(ka, kb, prev))
  {
    forall p, q | p in RuleStep(ka, kb, prev) && q in RuleStep(ka, kb, prev)
      ensures p.0 == q.0 <==> p.1 == q.1
    {
      if p in Fresh(ka, kb, prev) && q in Fresh(ka, kb, prev) {
        if p.0 == q.0 {
          RanksDiffer(kb, Rights(prev), ka[p.0], p.1, q.1);
        }
        if p.1 == q.1 {
          RanksDiffer(ka, Lefts(prev), ka[p.0], p.0, q.0);
        }
      }
    }
  }

  /** After a rule no unmatched left and unmatched right entry share a key of that rule. */
  lemma RuleStepIsMaximal(ka: seq<string>, kb: seq<string>, prev: Pairs, i: nat, j: nat)
    requires i < |ka| && j < |kb| && ka[i] == kb[j] != ""
    ensures i in Lefts(RuleStep(ka, kb, prev)) || j in Rights(RuleStep(ka, kb, prev))
  {
    var next, key := RuleStep(ka, kb, prev), ka[i];
    if i !in Lefts(prev) && j !in Rights(prev) {
      var qa, qb := Queue(ka, Lefts(prev), key, |ka|), Queue(kb, Rights(prev), key, |kb|);
      var ri, rj := Rank(ka, Lefts(prev), key, i), Rank(kb, Rights(prev), key, j);
      RankIsPosition(ka, Lefts(prev), key, i, |ka|);
      RankIsPosition(kb, Rights(prev), key, j, |kb|);
      if ri <= rj {
        PositionIsRank(kb, Rights(prev), key, |kb|, ri);
        assert Meets(ka, kb, prev, i, qb[ri]);
        assert (i, qb[ri]) in next;
      } else {
        PositionIsRank(ka, Lefts(prev), key, |ka|, rj);
        assert Meets(ka, kb, prev, qa[rj], j);
        assert (qa[rj], j) in next;
      }
    }
  }

  // ------------------------------------------------------------------ how many pairs

  /** The first `n` pairs two queues make, position by position. */
  ghost function Zip(qa: seq<nat>, qb: seq<nat>, n: nat): Pairs
    requires n <= |qa| && n <= |qb|
  {
    set t: nat | t < n :: (qa[t], qb[t])
  }

  lemma {:induction false} ZipSize(qa: seq<nat>, qb: seq<nat>, n: nat)
    requires n <= |qa| && n <= |qb|
    requires forall t, u | 0 <= t < u < |qa| :: qa[t] < qa[u]
    ensures |Zip(qa, qb, n)| == n
  {
    if n > 0 {
      ZipSize(qa, qb, n - 1);
      assert Zip(qa, qb, n) == Zip(qa, qb, n - 1) + {(qa[n - 1], qb[n - 1])};
    }
  }

  ghost function FreshWithKey(ka: seq<string>, kb: seq<string>, prev: Pairs, key: string): Pairs {
    set p | p in Fresh(ka, kb, prev) && ka[p.0] == key
  }

  /** One rule makes exactly min(count left, count right) pairs for each key, k-th with k-th. */
  lemma RuleStepCount(ka: seq<string>, kb: seq<string>, prev: Pairs, key: string)
    requires key != ""
    ensures var qa := Queue(ka, Lefts(prev), key, |ka|);
            var qb := Queue(kb, Rights(prev), key, |kb|);
            && FreshWithKey(ka, kb, prev, key) == Zip(qa, qb, Least(|qa|, |qb|))
            && |FreshWithKey(ka, kb, prev, key)| == Least(|qa|, |qb|)
  {
    var qa, qb := Queue(ka, Lefts(prev), key, |ka|), Queue(kb, Rights(prev), key, |kb|);
    var n := Least(|qa|, |qb|);
    ZipSize(qa, qb, n);
    forall p | p in FreshWithKey(ka, kb, prev, key)
      ensures p in Zip(qa, qb, n)
    {
      RankIsPosition(ka, Lefts(prev), key, p.0, |ka|);
      RankIsPosition(kb, Rights(prev), key, p.1, |kb|);
      var t := Rank(ka, Lefts(prev), key, p.0);
      assert p == (qa[t], qb[t]);
    }
    forall p | p in Zip(qa, qb, n)
      ensures p in FreshWithKey(ka, kb, prev, key)
    {
      var t: nat :| t < n && p == (qa[t], qb[t]);
      PositionIsRank(ka, Lefts(prev), key, |ka|, t);
      PositionIsRank(kb, Rights(prev), key, |kb|, t);
      assert Meets(ka, kb, prev, p.0, p.1);
    }
  }

  // ------------------------------------------------------------------ a list against itself

  ghost function Diagonal(n: nat): Pairs {
    set i: nat | i < n :: (i, i)
  }

  /** Matched against itself, a list pairs every entry that has a key with itself and nothing else. */
  lemma RuleStepOnSelf(keys: seq<string>, prev: Pairs)
    requires prev <= Diagonal(|keys|)
    ensures RuleStep(keys, keys, prev) <= Diagonal(|keys|)
    ensures forall i: nat | i < |keys| && keys[i] != "" :: (i, i) in RuleStep(keys, keys, prev)
  {
    assert Lefts(prev) == Rights(prev) by {
      forall i | i in Lefts(prev) ensures i in Rights(prev) {
        var p :| p in prev && p.0 == i;
        assert p in Diagonal(|keys|);
      }
      forall i | i in Rights(prev) ensures i in Lefts(prev) {
        var p :| p in prev && p.1 == i;
        assert p in Diagonal(|keys|);
      }
    }
    forall p | p in Fresh(keys, keys, prev)
      ensures p in Diagonal(|keys|)
    {
      RanksDiffer(keys, Lefts(prev), keys[p.0], p.0, p.1);
    }
    forall i: nat | i < |keys| && keys[i] != ""
      ensures (i, i) in RuleStep(keys, keys, prev)
    {
      if i in Lefts(prev) {
        var p :| p in prev && p.0 == i;
        assert p in Diagonal(|keys|);
      } else {
        assert Meets(keys, keys, prev, i, i);
      }
    }
  }
}
