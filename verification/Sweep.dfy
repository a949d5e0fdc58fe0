/** The sweep over event ids and the rules that stop it (src/cpp/common.cpp, src/cpp/bundle.cpp). */
module Sweep {

  datatype Step = Continue | StopEmptyRun | StopMaxEvents | StopIdBudget

  const EMPTY_RUN_STOP := 256
  const HARD_CAP := 200000

  // ------------------------------------------------------------------ the contract of a whole run

  /** The ids from `from` up to, not including, `till` with something bound. */
  function Found(has: int -> bool, from: int, till: int): seq<int>
    decreases till - from
  {
    if till <= from then []
    else Found(has, from, till - 1) + if has(till - 1) then [till - 1] else []
  }

  /** What the rules say on `e`, when they let the sweep go on at every id before it. */
  function StepAt(has: int -> bool, since: int, maxEvents: int, idBudget: nat, e: int): Step {
    var before := Found(has, since, e);
    if !has(e) then
      if before != [] && e - before[|before| - 1] >= EMPTY_RUN_STOP then StopEmptyRun else Continue
    else if maxEvents > 0 && |before| + 1 >= maxEvents then StopMaxEvents
    else if |before| + 1 >= idBudget then StopIdBudget
    else Continue
  }

  /** The first id the sweep does not look at, when it has come to `e`. */
  function End(has: int -> bool, since: int, until: int, maxEvents: int, idBudget: nat, e: int): int
    decreases until - e
  {
    if e > until then e
    else if StepAt(has, since, maxEvents, idBudget, e) != Continue then e + 1
    else End(has, since, until, maxEvents, idBudget, e + 1)
  }

  function LastOf(ids: seq<int>): int {
    if ids == [] then 0 else ids[|ids| - 1]
  }

  class SweepRules {
    var emptyRun: nat
    var lastEid: int
    var count: nat
    const maxEvents: int
    const idBudget: nat

    constructor (maxEvents: int, idBudget: nat)
      ensures this.maxEvents == maxEvents && this.idBudget == idBudget
      ensures emptyRun == 0 && lastEid == 0 && count == 0
    {
      this.maxEvents, this.idBudget := maxEvents, idBudget;
      emptyRun, lastEid, count := 0, 0, 0;
    }

    /** The rules have seen every id from `since` up to, not including, `e`. */
    ghost predicate Seen(has: int -> bool, since: int, e: int)
      reads this
    {
      var found := Found(has, since, e);
      count == |found|
      && if found == [] then emptyRun == 0 && lastEid == 0
         else lastEid == found[|found| - 1] && lastEid > 0 && emptyRun == e - 1 - lastEid
    }

    method Feed(hasState: bool, eid: int, ghost has: int -> bool, ghost since: int) returns (step: Step)
      requires 1 <= since <= eid && hasState == has(eid)
      requires Seen(has, since, eid)
      modifies this
      ensures step == StepAt(has, since, maxEvents, idBudget, eid)
      ensures Seen(has, since, eid + 1)
    {
      if !hasState {
        if lastEid > 0 {
          emptyRun := emptyRun + 1;
          if emptyRun >= EMPTY_RUN_STOP {
            return StopEmptyRun;
          }
        }
        return Continue;
      }
      emptyRun := 0;
      lastEid := eid;
      count := count + 1;
      if maxEvents > 0 && count >= maxEvents {
        return StopMaxEvents;
      }
      if count >= idBudget {
        return StopIdBudget;
      }
      return Continue;
    }
  }

  /** One id of the sweep. */
  method LookAt(rules: SweepRules, has: int -> bool, ghost since: int, eid: int, ids: seq<int>)
    returns (more: seq<int>, step: Step)
    requires 1 <= since <= eid && ids == Found(has, since, eid) && rules.Seen(has, since, eid)
    modifies rules
    ensures more == Found(has, since, eid + 1) && rules.Seen(has, since, eid + 1) && rules.lastEid == LastOf(more)
    ensures step == StepAt(has, since, rules.maxEvents, rules.idBudget, eid)
  {
    more := ids;
    var hasState := has(eid);
    if hasState {
      more := more + [eid];
    }
    step := rules.Feed(hasState, eid, has, since);
  }

  /** Why a sweep stopped that looked at `scanned` ids. */
  function StopOf(has: int -> bool, since: int, maxEvents: int, idBudget: nat, scanned: nat): Step {
    if scanned == 0 then Continue else StepAt(has, since, maxEvents, idBudget, since + scanned - 1)
  }

  /** The sweep found `ids` and did not stop before `eid`. */
  ghost predicate Running(has: int -> bool, since: int, until: int, maxEvents: int, idBudget: nat, eid: int, ids: seq<int>) {
    && since <= eid && ids == Found(has, since, eid)
    && End(has, since, until, maxEvents, idBudget, since) == End(has, since, until, maxEvents, idBudget, eid)
    && StopOf(has, since, maxEvents, idBudget, eid - since) == Continue
  }

  /** The sweep is over: it looked at `scanned` ids, found `ids` and says why it stopped. */
  ghost predicate Over(has: int -> bool, since: int, until: int, maxEvents: int, idBudget: nat, scanned: nat, ids: seq<int>,
                       stopped: Step) {
    && since + scanned == End(has, since, until, maxEvents, idBudget, since)
    && ids == Found(has, since, since + scanned) && stopped == StopOf(has, since, maxEvents, idBudget, scanned)
  }

  /** The sweep; `has` is the engine's answer at an id reached by walking forward from `since`. */
  method SweepForEvents(has: int -> bool, since: int, until: int, maxEvents: int, idBudget: nat)
    returns (ids: seq<int>, scanned: nat, lastEid: int, stopped: Step)
    requires since >= 1
    ensures since + scanned == End(has, since, until, maxEvents, idBudget, since)
    ensures ids == Found(has, since, since + scanned)
    ensures lastEid == LastOf(ids)
    ensures stopped == StopOf(has, since, maxEvents, idBudget, scanned)
  {
    var rules := new SweepRules(maxEvents, idBudget);
    ids, scanned, stopped := Walk(rules, has, since, until);
    lastEid := rules.lastEid;
  }

  /** The walk over the ids, until a rule stops it. */
  method Walk(rules: SweepRules, has: int -> bool, since: int, until: int)
    returns (ids: seq<int>, scanned: nat, stopped: Step)
    requires since >= 1 && rules.Seen(has, since, since) && rules.lastEid == 0
    modifies rules
    ensures Over(has, since, until, rules.maxEvents, rules.idBudget, scanned, ids, stopped) && rules.lastEid == LastOf(ids)
  {
    ids, scanned, stopped := [], 0, Continue;
    var eid := since;
    while eid <= until
      invariant eid == since + scanned && stopped == Continue
      invariant rules.Seen(has, since, eid) && rules.lastEid == LastOf(ids)
      invariant Running(has, since, until, rules.maxEvents, rules.idBudget, eid, ids)
    {
      scanned := scanned + 1;
      ids, stopped := LookAt(rules, has, since, eid, ids);
      Goes(has, since, until, rules.maxEvents, rules.idBudget, eid, ids, stopped);
      if stopped != Continue {
        return;
      }
      eid := eid + 1;
    }
  }

  /** A step that stops ends the sweep; after any other the sweep goes on. */
  lemma Goes(has: int -> bool, since: int, until: int, maxEvents: int, idBudget: nat, e: int, ids: seq<int>, step: Step)
    requires since <= e <= until && ids == Found(has, since, e + 1) && step == StepAt(has, since, maxEvents, idBudget, e)
    requires End(has, since, until, maxEvents, idBudget, since) == End(has, since, until, maxEvents, idBudget, e)
    ensures step != Continue ==> Over(has, since, until, maxEvents, idBudget, e - since + 1, ids, step)
    ensures step == Continue ==> Running(has, since, until, maxEvents, idBudget, e + 1, ids)
  {
  }

  /** How far a sweep goes, and the count of ids it may collect, from the frame's last event or else its chunks. */
  function ComputeSweepBounds(lastEvent: int, chunks: nat, optUntil: int): (bounds: (int, nat))
    ensures bounds.0 <= bounds.1 && (optUntil > 0 ==> bounds.0 <= optUntil)
  {
    var idBudget: nat := if lastEvent > 0 then lastEvent else chunks;
    var until := if optUntil > 0 then optUntil else HARD_CAP;
    (if idBudget < until then idBudget else until, idBudget)
  }

  // ------------------------------------------------------------------ what the contract means

  /** The ids collected are those with state among the ids looked at, in increasing order. */
  lemma {:induction false} FoundIsExact(has: int -> bool, from: int, till: int)
    ensures forall e :: e in Found(has, from, till) <==> from <= e < till && has(e)
    ensures forall i, j | 0 <= i < j < |Found(has, from, till)| :: Found(has, from, till)[i] < Found(has, from, till)[j]
    decreases till - from
  {
    if from < till {
      FoundIsExact(has, from, till - 1);
      var init := Found(has, from, till - 1);
      assert forall i | 0 <= i < |init| :: init[i] in init;
    }
  }

  /** A stop for emptiness is the first run of 256 empty ids after a hit. */
  lemma EmptyStopMeans(has: int -> bool, since: int, maxEvents: int, idBudget: nat, e: int)
    ensures StepAt(has, since, maxEvents, idBudget, e) == StopEmptyRun
            <==> (exists hit :: since <= hit <= e - EMPTY_RUN_STOP && has(hit))
                 && forall x | e - EMPTY_RUN_STOP < x <= e && since <= x :: !has(x)
  {
    FoundIsExact(has, since, e);
    var before := Found(has, since, e);
    if before != [] {
      var last := before[|before| - 1];
      assert last in before;
      assert forall i | 0 <= i < |before| :: before[i] <= last;
      assert forall x | last < x < e :: has(x) ==> x in before;
    }
  }

  /** Where a sweep ends: no rule stops it before its last id, and only a rule stops it before `until`. */
  lemma {:induction false} EndIsFirstStop(has: int -> bool, since: int, until: int, maxEvents: int, idBudget: nat, e: int)
    requires since <= e <= until + 1
    ensures var end := End(has, since, until, maxEvents, idBudget, e);
            e <= end <= until + 1
            && (forall x | e <= x < end - 1 :: StepAt(has, since, maxEvents, idBudget, x) == Continue)
            && (end <= until ==> end > e && StepAt(has, since, maxEvents, idBudget, end - 1) != Continue)
    decreases until - e
  {
    if e <= until && StepAt(has, since, maxEvents, idBudget, e) == Continue {
      EndIsFirstStop(has, since, until, maxEvents, idBudget, e + 1);
    }
  }

  lemma {:induction false} FoundGrows(has: int -> bool, from: int, till: int, later: int)
    requires till <= later
    ensures Found(has, from, till) <= Found(has, from, later)
    decreases later - till
  {
    if till < later {
      FoundGrows(has, from, till, later - 1);
    }
  }

  /** A capped sweep collects exactly the first ids of the uncapped one, as many as the cap allows. */
  lemma {:induction false} CappedFrom(has: int -> bool, since: int, until: int, maxEvents: int, idBudget: nat, e: int)
    requires maxEvents > 0 && since <= e && |Found(has, since, e)| < maxEvents
    ensures var all := Found(has, since, End(has, since, until, 0, idBudget, e));
            Found(has, since, End(has, since, until, maxEvents, idBudget, e))
            == if |all| <= maxEvents then all else all[..maxEvents]
    decreases until - e
  {
    if e <= until {
      if StepAt(has, since, maxEvents, idBudget, e) == Continue {
        CappedFrom(has, since, until, maxEvents, idBudget, e + 1);
      } else if StepAt(has, since, maxEvents, idBudget, e) == StopMaxEvents {
        var end := End(has, since, until, 0, idBudget, e);
        EndAfter(has, since, until, 0, idBudget, e);
        FoundGrows(has, since, e + 1, end);
        assert |Found(has, since, e + 1)| == maxEvents;
      }
    }
  }

  lemma {:induction false} EndAfter(has: int -> bool, since: int, until: int, maxEvents: int, idBudget: nat, e: int)
    requires e <= until
    ensures End(has, since, until, maxEvents, idBudget, e) > e
    decreases until - e
  {
    if e + 1 <= until {
      EndAfter(has, since, until, maxEvents, idBudget, e + 1);
    }
  }

  lemma CappedIsPrefix(has: int -> bool, since: int, until: int, maxEvents: int, idBudget: nat)
    requires maxEvents > 0
    ensures var all := Found(has, since, End(has, since, until, 0, idBudget, since));
            Found(has, since, End(has, since, until, maxEvents, idBudget, since))
            == if |all| <= maxEvents then all else all[..maxEvents]
  {
    CappedFrom(has, since, until, maxEvents, idBudget, since);
  }

  /** A sweep that `--max-events` stopped has collected exactly that many ids. */
  lemma CapStopMeans(has: int -> bool, since: int, until: int, maxEvents: int, idBudget: nat)
    requires maxEvents > 0
    requires var end := End(has, since, until, maxEvents, idBudget, since);
             end > since && StepAt(has, since, maxEvents, idBudget, end - 1) == StopMaxEvents
    ensures |Found(has, since, End(has, since, until, maxEvents, idBudget, since))| == maxEvents
  {
    CappedIsPrefix(has, since, until, maxEvents, idBudget);
  }

  lemma {:induction false} FoundFits(has: int -> bool, from: int, till: int)
    requires from <= till
    ensures |Found(has, from, till)| <= till - from
    ensures |Found(has, from, till)| == till - from <==> forall e | from <= e < till :: has(e)
    decreases till - from
  {
    if from < till {
      FoundFits(has, from, till - 1);
    }
  }

  /** With the bounds a sweep is given, the id budget never cuts it short: it can only stop it at its very last id. */
  lemma BudgetStopsAtTheEnd(has: int -> bool, since: int, lastEvent: int, chunks: nat, optUntil: int, maxEvents: int, e: int)
    requires 1 <= since <= e <= ComputeSweepBounds(lastEvent, chunks, optUntil).0
    requires StepAt(has, since, maxEvents, ComputeSweepBounds(lastEvent, chunks, optUntil).1, e) == StopIdBudget
    ensures since == 1 && e == ComputeSweepBounds(lastEvent, chunks, optUntil).0
    ensures forall x | since <= x <= e :: has(x)
  {
    FoundFits(has, since, e);
    FoundFits(has, since, e + 1);
  }

  /** The rules one by one: the cap asked for stops a sweep at a hit that makes it as many, the id budget at one that
      makes it as many when the cap does not, and 256 empty ids stop it behind a hit. */
  lemma StepMeans(has: int -> bool, since: int, maxEvents: int, idBudget: nat, e: int)
    requires since <= e
    ensures var step, hits := StepAt(has, since, maxEvents, idBudget, e), |Found(has, since, e + 1)|;
            && (step == StopMaxEvents <==> has(e) && maxEvents > 0 && hits >= maxEvents)
            && (step == StopIdBudget <==> has(e) && !(maxEvents > 0 && hits >= maxEvents) && hits >= idBudget)
            && (step == StopEmptyRun <==> (exists hit :: since <= hit <= e - 256 && has(hit))
                                          && forall x | e - 256 < x <= e && since <= x :: !has(x))
  {
    EmptyStopMeans(has, since, maxEvents, idBudget, e);
    assert Found(has, since, e + 1) == Found(has, since, e) + if has(e) then [e] else [];
  }

  /** The bounds of a sweep: the budget is the frame's last event, or else its chunks; the ids scanned are those within
      the budget and within the end asked for, or else 200000. */
  lemma BoundsAre(lastEvent: int, chunks: nat, optUntil: int, eid: int)
    requires eid > 0
    ensures ComputeSweepBounds(lastEvent, chunks, optUntil).1 == if lastEvent > 0 then lastEvent else chunks
    ensures eid <= ComputeSweepBounds(lastEvent, chunks, optUntil).0
            <==> eid <= (if lastEvent > 0 then lastEvent else chunks) && eid <= if optUntil > 0 then optUntil else 200000
  {
  }
}
