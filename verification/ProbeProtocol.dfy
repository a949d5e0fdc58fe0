/**
 `probe` and its cache over whole runs: processes come and go, sweep cold or warm, answer from the
 file, are killed between any two ids or in the middle of a write, and run other commands in between
 (src/cpp/commands_frame.cpp, src/cpp/bundle.cpp, src/cpp/capture.cpp).
 */
module ProbeProtocol {
  import opened Basics
  import opened Decimal
  import opened ProbeCut
  import opened ProbeFile

  // ------------------------------------------------------------------ the engine

  /** What a process asks of its engine: to move to an event, or other replay work (counters). */
  datatype Op = Move(eid: int) | Work

  datatype Shown = Shown(shaders: int, rootSig: string, params: int)

  /** The state the engine shows depends on everything the process made it do. */
  type Engine = seq<Op> -> Option<Shown>

  predicate Fits(shown: Shown) {
    Word(shown.rootSig) && 0 <= shown.shaders < 0x8000_0000 && 0 <= shown.params < 0x8000_0000
  }

  ghost predicate Sane(engine: Engine) {
    forall history: seq<Op> :: engine(history).Some? ==> Fits(engine(history).value)
  }

  function RowAt(engine: Engine, history: seq<Op>, eid: int): seq<Row> {
    match engine(history)
    case None => []
    case Some(shown) => [Row(eid, shown.shaders, shown.rootSig, shown.params)]
  }

  function Moves(n: nat): seq<Op> {
    if n == 0 then [] else Moves(n - 1) + [Move(n)]
  }

  /** The answer of a fresh process that sweeps the ids 1..n in order. */
  function ColdRows(engine: Engine, n: nat): seq<Row> {
    if n == 0 then [] else ColdRows(engine, n - 1) + RowAt(engine, Moves(n), n)
  }

  function ProbeUntil(cap: int, lastEvent: int): int {
    if cap <= 0 then if lastEvent > 0 then lastEvent else 0
    else if lastEvent <= 0 then cap
    else if cap < lastEvent then cap else lastEvent
  }

  /** The rows up to the range a run asked about: the loop stops at the first id past it. */
  function Shows(rows: seq<Row>, until: int): seq<Row> {
    if rows == [] || rows[0].eid > until then [] else [rows[0]] + Shows(rows[1..], until)
  }

  // ------------------------------------------------------------------ the file

  /** A write puts the new file in place, leaves the old one, or dies between removing and renaming; or it fails
      unnoticed and puts in place what it had written of the new file. */
  datatype Write = Written | Kept | Lost | Short(n: nat)

  const FLUSH_EVERY := 1024

  datatype Env = Env(engine: Engine, id: Identity)

  ghost predicate ValidEnv(env: Env) {
    Sane(env.engine) && env.id.bound < 0x8000_0000
  }

  function Store(env: Env, file: Option<string>, cache: Cache, write: Write): Option<string> {
    if cache.scanned <= 0 then file
    else match write
      case Written => Some(FileText(env.id, cache))
      case Kept => file
      case Lost => None
      case Short(n) => Some(FileText(env.id, cache)[..Least(n, |FileText(env.id, cache)|)])
  }

  function Cached(env: Env, file: Option<string>): Cache {
    match file
    case None => Cache([], 0)
    case Some(text) =>
      match ReadFile(env.id, text)
      case Some(cache) => cache
      case None => Cache([], 0)
  }

  /** What the file answers, if it answers at all, is a cold sweep's answer for the prefix it names. */
  predicate Truthful(env: Env, file: Option<string>) {
    var cache := Cached(env, file);
    cache.scanned > 0 ==> cache.rows == ColdRows(env.engine, cache.scanned)
  }

  /** A write that fails unnoticed leaves a file that is refused, or one that lacks nothing but its end, or one whose
      scanned number is cut to a prefix in which the engine, untouched, has nothing to show either. */
  predicate Harmless(env: Env, cache: Cache, write: Write) {
    write.Short? && CleanIdentity(env.id) && cache.scanned > 0 ==>
      CutInside(env.id, cache, write.n) || write.n + 1 >= |FileText(env.id, cache)|
      || (InNumber(env.id, cache, write.n) && ColdRows(env.engine, ShortScan(env.id, cache, write.n)) == [])
  }

  // ------------------------------------------------------------------ the runs

  datatype Phase = Idle | Sweeping(until: int, cold: bool, done: nat, rows: seq<Row>)

  /** The cache file, and what the running process has made its engine do. */
  datatype Sys = Sys(file: Option<string>, history: seq<Op>, replayed: bool, phase: Phase)

  datatype Event = Begin(cap: int) | Scan(write: Write) | End(write: Write) | OtherMove(eid: int) | OtherWork | Restart

  predicate Enabled(s: Sys, e: Event) {
    match e
    case Begin(cap) => s.phase.Idle? && cap < 0x8000_0000
    case Scan(_) => s.phase.Sweeping? && s.phase.done < s.phase.until
    case End(_) => s.phase.Sweeping? && s.phase.done >= s.phase.until
    case OtherMove(_) => s.phase.Idle?
    case OtherWork => s.phase.Idle?
    case Restart => true
  }

  function Next(env: Env, s: Sys, e: Event): Sys
    requires Enabled(s, e)
  {
    match e
    case Begin(cap) =>
      var until := ProbeUntil(cap, env.id.bound);
      if Cached(env, s.file).scanned >= until then s
      else s.(phase := Sweeping(until, !s.replayed, 0, []))
    case Scan(write) =>
      var eid := s.phase.done + 1;
      var history := s.history + [Move(eid)];
      var rows := s.phase.rows + RowAt(env.engine, history, eid);
      s.(history := history, replayed := true, phase := s.phase.(done := eid, rows := rows),
         file := if s.phase.cold && eid % FLUSH_EVERY == 0 then Store(env, s.file, Cache(rows, eid), write) else s.file)
    case End(write) =>
      s.(phase := Idle,
         file := if s.phase.cold then Store(env, s.file, Cache(s.phase.rows, s.phase.until), write) else s.file)
    case OtherMove(eid) => s.(history := s.history + [Move(eid)], replayed := true)
    case OtherWork => s.(history := s.history + [Work])
    case Restart => s.(history := [], replayed := false, phase := Idle)
  }

  ghost predicate Legal(env: Env, s: Sys, events: seq<Event>)
    decreases |events|
  {
    events == [] || (Enabled(s, events[0]) && Legal(env, Next(env, s, events[0]), events[1..]))
  }

  ghost function Run(env: Env, s: Sys, events: seq<Event>): Sys
    requires Legal(env, s, events)
    decreases |events|
  {
    if events == [] then s else Run(env, Next(env, s, events[0]), events[1..])
  }

  // ------------------------------------------------------------------ what every step keeps

  /** A sweep that the process takes for a cold one starts on an engine that has done nothing, and no write that
      fails unnoticed does harm. */
  predicate Fair(env: Env, s: Sys, e: Event)
    requires Enabled(s, e)
  {
    match e
    case Begin(cap) => Cached(env, s.file).scanned >= ProbeUntil(cap, env.id.bound) || s.replayed || s.history == []
    case Scan(write) =>
      var eid := s.phase.done + 1;
      var rows := s.phase.rows + RowAt(env.engine, s.history + [Move(eid)], eid);
      s.phase.cold && eid % FLUSH_EVERY == 0 ==> Harmless(env, Cache(rows, eid), write)
    case End(write) => s.phase.cold ==> Harmless(env, Cache(s.phase.rows, s.phase.until), write)
    case _ => true
  }

  ghost predicate Guarded(env: Env, s: Sys, events: seq<Event>)
    requires Legal(env, s, events)
    decreases |events|
  {
    events == [] || (Fair(env, s, events[0]) && Guarded(env, Next(env, s, events[0]), events[1..]))
  }

  ghost predicate Inv(env: Env, s: Sys) {
    && Truthful(env, s.file)
    && (s.phase.Sweeping? ==> s.phase.done <= s.phase.until < 0x8000_0000)
    && (s.phase.Sweeping? && s.phase.cold ==>
          s.history == Moves(s.phase.done) && s.phase.rows == ColdRows(env.engine, s.phase.done))
  }

  lemma ColdCacheIsClean(env: Env, n: nat)
    requires ValidEnv(env) && 0 < n < 0x8000_0000
    ensures CleanCache(Cache(ColdRows(env.engine, n), n))
  {
    ColdRowsAreClean(env, n);
  }

  /** A cold sweep's file is read back as what was written. */
  lemma ColdFileIsRead(env: Env, n: nat)
    requires ValidEnv(env) && 0 < n < 0x8000_0000
    ensures var cache := Cache(ColdRows(env.engine, n), n);
            Cached(env, Some(FileText(env.id, cache))) == if CleanIdentity(env.id) then cache else Cache([], 0)
  {
    ColdCacheIsClean(env, n);
    OwnFileReadsBack(env.id, Cache(ColdRows(env.engine, n), n));
  }

  lemma StoreIsTruthful(env: Env, file: Option<string>, n: nat, write: Write)
    requires ValidEnv(env) && Truthful(env, file) && n < 0x8000_0000
    requires Harmless(env, Cache(ColdRows(env.engine, n), n), write)
    ensures Truthful(env, Store(env, file, Cache(ColdRows(env.engine, n), n), write))
  {
    if n > 0 {
      match write
      case Written => ColdFileIsRead(env, n);
      case Kept =>
      case Lost =>
      case Short(m) => ShortStoreIsTruthful(env, n, m);
    }
  }

  lemma ShortStoreIsTruthful(env: Env, n: nat, m: nat)
    requires ValidEnv(env) && 0 < n < 0x8000_0000
    requires Harmless(env, Cache(ColdRows(env.engine, n), n), Short(m))
    ensures var text := FileText(env.id, Cache(ColdRows(env.engine, n), n));
            Truthful(env, Some(text[..Least(m, |text|)]))
  {
    var text := FileText(env.id, Cache(ColdRows(env.engine, n), n));
    if !CleanIdentity(env.id) {
      UncleanAcceptsNothing(env.id, text[..Least(m, |text|)]);
    } else if m <= |text| {
      ShortIsTruthful(env, n, m);
    } else {
      ColdFileIsRead(env, n);
      assert text[..|text|] == text;
    }
  }

  /** A short file tells the truth exactly when it does no harm: when it is refused, when nothing is missing but its
      end, or when it was cut in its scanned number and the shorter prefix has no rows either. */
  lemma ShortIsTruthful(env: Env, n: nat, m: nat)
    requires ValidEnv(env) && CleanIdentity(env.id) && 0 < n < 0x8000_0000
    requires m <= |FileText(env.id, Cache(ColdRows(env.engine, n), n))|
    ensures var cache := Cache(ColdRows(env.engine, n), n);
            Truthful(env, Some(FileText(env.id, cache)[..m])) <==> Harmless(env, cache, Short(m))
  {
    var cache := Cache(ColdRows(env.engine, n), n);
    ColdCacheIsClean(env, n);
    var answer := CutAnswer(env.id, env.id, cache, m);
  }

  lemma ColdNext(engine: Engine, history: seq<Op>, rows: seq<Row>, n: nat)
    requires n > 0 && history == Moves(n - 1) && rows == ColdRows(engine, n - 1)
    ensures history + [Move(n)] == Moves(n) && rows + RowAt(engine, history + [Move(n)], n) == ColdRows(engine, n)
  {
  }

  lemma ScanKeepsFile(env: Env, s: Sys, write: Write)
    requires ValidEnv(env) && Inv(env, s) && Enabled(s, Scan(write)) && Fair(env, s, Scan(write))
    ensures Truthful(env, Next(env, s, Scan(write)).file)
  {
    var eid := s.phase.done + 1;
    var rows := s.phase.rows + RowAt(env.engine, s.history + [Move(eid)], eid);
    if s.phase.cold {
      ColdNext(env.engine, s.history, s.phase.rows, eid);
      FlushIsTruthful(env, s.file, eid, rows, write);
    }
    ScanFile(env, s, write, eid, rows);
  }

  /** The file after a scan. */
  lemma ScanFile(env: Env, s: Sys, write: Write, eid: nat, rows: seq<Row>)
    requires Enabled(s, Scan(write)) && eid == s.phase.done + 1
    requires rows == s.phase.rows + RowAt(env.engine, s.history + [Move(eid)], eid)
    ensures Next(env, s, Scan(write)).file
            == if s.phase.cold && eid % FLUSH_EVERY == 0 then Store(env, s.file, Cache(rows, eid), write) else s.file
  {
  }

  lemma FlushIsTruthful(env: Env, file: Option<string>, eid: nat, rows: seq<Row>, write: Write)
    requires ValidEnv(env) && Truthful(env, file) && eid < 0x8000_0000 && rows == ColdRows(env.engine, eid)
    requires eid % FLUSH_EVERY == 0 ==> Harmless(env, Cache(rows, eid), write)
    ensures Truthful(env, if eid % FLUSH_EVERY == 0 then Store(env, file, Cache(rows, eid), write) else file)
  {
    if eid % FLUSH_EVERY == 0 {
      StoreIsTruthful(env, file, eid, write);
    }
  }

  lemma ScanKeepsRows(env: Env, s: Sys, write: Write)
    requires Inv(env, s) && Enabled(s, Scan(write)) && s.phase.cold
    ensures var t := Next(env, s, Scan(write));
            t.history == Moves(t.phase.done) && t.phase.rows == ColdRows(env.engine, t.phase.done)
  {
    ColdNext(env.engine, s.history, s.phase.rows, s.phase.done + 1);
  }

  lemma ScanKeepsInv(env: Env, s: Sys, write: Write)
    requires ValidEnv(env) && Inv(env, s) && Enabled(s, Scan(write)) && Fair(env, s, Scan(write))
    ensures Inv(env, Next(env, s, Scan(write)))
  {
    ScanKeepsFile(env, s, write);
    if s.phase.cold {
      ScanKeepsRows(env, s, write);
    }
  }

  lemma EndKeepsInv(env: Env, s: Sys, write: Write)
    requires ValidEnv(env) && Inv(env, s) && Enabled(s, End(write)) && Fair(env, s, End(write))
    ensures Inv(env, Next(env, s, End(write)))
  {
    if s.phase.cold {
      StoreIsTruthful(env, s.file, s.phase.done, write);
    }
  }

  /** Every step keeps the invariant, unless it begins a sweep that is only taken for a cold one, or puts in place a
      short file that does harm. */
  lemma InvKept(env: Env, s: Sys, e: Event)
    requires ValidEnv(env) && Inv(env, s) && Enabled(s, e) && Fair(env, s, e)
    ensures Inv(env, Next(env, s, e))
  {
    match e
    case Begin(_) =>
    case Scan(write) => ScanKeepsInv(env, s, write);
    case End(write) => EndKeepsInv(env, s, write);
    case OtherMove(_) =>
    case OtherWork =>
    case Restart =>
  }

  lemma {:induction false} InvOverRuns(env: Env, s: Sys, events: seq<Event>)
    requires ValidEnv(env) && Inv(env, s) && Legal(env, s, events) && Guarded(env, s, events)
    ensures Inv(env, Run(env, s, events))
    decreases |events|
  {
    if events != [] {
      InvKept(env, s, events[0]);
      InvOverRuns(env, Next(env, s, events[0]), events[1..]);
    }
  }

  const FRESH := Sys(None, [], false, Idle)

  /** Over every run of probes, kills, restarts, failing writes and other commands the file stays truthful, as long as
      every sweep that passes for a cold one starts on an untouched engine and no short file does harm. */
  lemma FileStaysTruthful(env: Env, events: seq<Event>)
    requires ValidEnv(env) && Legal(env, FRESH, events) && Guarded(env, FRESH, events)
    ensures Truthful(env, Run(env, FRESH, events).file)
  {
    InvOverRuns(env, FRESH, events);
  }

  // ------------------------------------------------------------------ what a probe answers

  lemma RowIsClean(env: Env, history: seq<Op>, eid: nat)
    requires ValidEnv(env) && eid < 0x8000_0000
    ensures forall i | 0 <= i < |RowAt(env.engine, history, eid)| :: CleanRow(RowAt(env.engine, history, eid)[i])
  {
    var shown := env.engine(history);
    if shown.Some? {
      assert Power10(10) == 10 * Power10(9) && Power10(9) == 1000000000;
      DigitsOf(eid, 10);
      DigitsOf(shown.value.shaders, 10);
      DigitsOf(shown.value.params, 10);
    }
  }

  lemma {:induction false} ColdRowsAreClean(env: Env, n: nat)
    requires ValidEnv(env) && n < 0x8000_0000
    ensures forall i | 0 <= i < |ColdRows(env.engine, n)| ::
              CleanRow(ColdRows(env.engine, n)[i]) && 0 < ColdRows(env.engine, n)[i].eid <= n
  {
    if n > 0 {
      ColdRowsAreClean(env, n - 1);
      RowIsClean(env, Moves(n), n);
    }
  }

  lemma {:induction false} ShowsConcat(rows: seq<Row>, more: seq<Row>, until: int)
    requires forall i | 0 <= i < |rows| :: rows[i].eid <= until
    requires more == [] || more[0].eid > until
    ensures Shows(rows + more, until) == rows
  {
    if rows == [] {
      assert rows + more == more;
    } else {
      assert (rows + more)[1..] == rows[1..] + more;
      ShowsConcat(rows[1..], more, until);
    }
  }

  /** The cold rows of a longer sweep begin with those of a shorter one; the others lie past it. */
  lemma {:induction false} ColdRowsPrefix(env: Env, m: nat, n: nat) returns (more: seq<Row>)
    requires m <= n
    ensures ColdRows(env.engine, n) == ColdRows(env.engine, m) + more
    ensures forall i | 0 <= i < |more| :: more[i].eid > m
    decreases n
  {
    if m == n {
      more := [];
    } else {
      more := ColdRowsPrefix(env, m, n - 1);
      more := more + RowAt(env.engine, Moves(n), n);
    }
  }

  lemma PrefixShows(env: Env, m: nat, n: nat)
    requires ValidEnv(env) && m <= n < 0x8000_0000
    ensures Shows(ColdRows(env.engine, n), m) == ColdRows(env.engine, m)
  {
    ColdRowsAreClean(env, m);
    var more := ColdRowsPrefix(env, m, n);
    ShowsConcat(ColdRows(env.engine, m), more, m);
  }

  /** A cached answer is a fresh cold sweep's answer, also for a smaller range than the file holds. */
  lemma CachedAnswerIsCold(env: Env, file: Option<string>, until: int)
    requires ValidEnv(env) && Truthful(env, file) && Cached(env, file).scanned >= until
    ensures Shows(Cached(env, file).rows, until) == ColdRows(env.engine, if until > 0 then until else 0)
  {
    if file != None {
      ReadScans(env.id, file.value);
      if Cached(env, file).scanned > 0 {
        ColdRowsAreClean(env, Cached(env, file).scanned);
        if until > 0 {
          PrefixShows(env, until, Cached(env, file).scanned);
        }
      }
    }
  }

  /** A cold sweep's own answer is the cold answer too, wherever in a run it ends. */
  lemma SweptAnswerIsCold(env: Env, s: Sys)
    requires ValidEnv(env) && Inv(env, s)
    requires s.phase.Sweeping? && s.phase.cold && s.phase.done >= s.phase.until
    ensures Shows(s.phase.rows, s.phase.until) == ColdRows(env.engine, s.phase.until)
  {
    ColdRowsAreClean(env, s.phase.done);
    ShowsConcat(s.phase.rows, [], s.phase.until);
    assert s.phase.rows + [] == s.phase.rows;
  }

  // ------------------------------------------------------------------ work before the first move

  /** An engine that shows state at an event only behind counter work. */
  function WarmedByWork(history: seq<Op>): Option<Shown> {
    if history != [] && history[0] == Work then Some(Shown(1, "7", 0)) else None
  }

  /** The flag that says "cold" is set by moves alone: counters first, then `probe 1`, and the file holds
      rows that no fresh process would report. */
  lemma EarlyWorkBreaksTheFile(id: Identity)
    requires CleanIdentity(id) && 0 < id.bound < 0x8000_0000
    ensures var env := Env(WarmedByWork, id);
            var events := [OtherWork, Begin(1), Scan(Kept), End(Written)];
            ValidEnv(env) && Legal(env, FRESH, events) && !Truthful(env, Run(env, FRESH, events).file)
  {
    var env := Env(WarmedByWork, id);
    var cache := EarlyFile(id);
    FileReadsBack(id, id, cache);
    NothingCold(id, cache.scanned);
  }

  /** What that run writes. */
  lemma EarlyFile(id: Identity) returns (cache: Cache)
    requires CleanIdentity(id) && 0 < id.bound < 0x8000_0000
    ensures var env := Env(WarmedByWork, id);
            var events := [OtherWork, Begin(1), Scan(Kept), End(Written)];
            ValidEnv(env) && Legal(env, FRESH, events) && Run(env, FRESH, events).file == Some(FileText(id, cache))
    ensures CleanCache(cache) && cache.rows != []
  {
    var env := Env(WarmedByWork, id);
    assert Word("7");
    var s1 := Next(env, FRESH, OtherWork);
    var s2 := Next(env, s1, Begin(1));
    var s3 := Next(env, s2, Scan(Kept));
    var s4 := Next(env, s3, End(Written));
    var row := Row(1, 1, "7", 0);
    cache := Cache([row], 1);
    assert s3.history == [Work, Move(1)] && s3.phase.rows == [row];
    assert s4.file == Some(FileText(id, cache));
    EarlyRun(env, s1, s2, s3, s4);
    EarlyRow(row);
  }

  lemma EarlyRow(row: Row)
    requires row == Row(1, 1, "7", 0)
    ensures CleanRow(row)
  {
    assert NatText(1) == "1" && NatText(0) == "0";
  }

  lemma EarlyRun(env: Env, s1: Sys, s2: Sys, s3: Sys, s4: Sys)
    requires Enabled(FRESH, OtherWork) && s1 == Next(env, FRESH, OtherWork)
    requires Enabled(s1, Begin(1)) && s2 == Next(env, s1, Begin(1))
    requires Enabled(s2, Scan(Kept)) && s3 == Next(env, s2, Scan(Kept))
    requires Enabled(s3, End(Written)) && s4 == Next(env, s3, End(Written))
    ensures var events := [OtherWork, Begin(1), Scan(Kept), End(Written)];
            Legal(env, FRESH, events) && Run(env, FRESH, events) == s4
  {
    var e3, e2, e1 := [End(Written)], [Scan(Kept), End(Written)], [Begin(1), Scan(Kept), End(Written)];
    assert e3[1..] == [] && e2[1..] == e3 && e1[1..] == e2;
    assert [OtherWork, Begin(1), Scan(Kept), End(Written)][1..] == e1;
    assert Legal(env, s3, e3) && Run(env, s3, e3) == s4;
    assert Legal(env, s2, e2) && Run(env, s2, e2) == s4;
    assert Legal(env, s1, e1) && Run(env, s1, e1) == s4;
  }

  lemma {:induction false} NothingCold(id: Identity, n: nat)
    ensures ColdRows(WarmedByWork, n) == []
    ensures n > 0 ==> Moves(n) != [] && Moves(n)[0] == Move(1)
  {
    if n > 0 {
      NothingCold(id, n - 1);
    }
  }

  /** The rows of a sweep of 1..n by a process that has done `before` already. */
  function RowsAfter(engine: Engine, before: seq<Op>, n: nat): seq<Row> {
    if n == 0 then [] else RowsAfter(engine, before, n - 1) + RowAt(engine, before + Moves(n), n)
  }

  /** An engine that shows state at one point only: at the first id, behind `before`. */
  function ShownOnceAfter(before: seq<Op>): Engine {
    history => if history == before + [Move(1)] then Some(Shown(1, "7", 0)) else None
  }

  /** A sweep is a cold sweep, whatever the engine, exactly when its process has done nothing before it. */
  lemma ColdWhenUntouched(before: seq<Op>, n: nat)
    requires n > 0
    ensures (forall engine: Engine | Sane(engine) :: RowsAfter(engine, before, n) == ColdRows(engine, n)) <==> before == []
  {
    if before == [] {
      forall engine: Engine ensures RowsAfter(engine, before, n) == ColdRows(engine, n) {
        UntouchedIsCold(engine, n);
      }
    } else {
      var engine := ShownOnceAfter(before);
      assert Word("7");
      assert Sane(engine);
      TouchedShows(before, n);
    }
  }

  lemma {:induction false} UntouchedIsCold(engine: Engine, n: nat)
    ensures RowsAfter(engine, [], n) == ColdRows(engine, n)
  {
    if n > 0 {
      UntouchedIsCold(engine, n - 1);
      assert [] + Moves(n) == Moves(n);
    }
  }

  lemma {:induction false} TouchedShows(before: seq<Op>, n: nat)
    requires before != []
    ensures ColdRows(ShownOnceAfter(before), n) == []
    ensures n > 0 ==> RowsAfter(ShownOnceAfter(before), before, n) != []
  {
    if n > 0 {
      TouchedShows(before, n - 1);
      MovesLast(before, n);
      FirstMove();
    }
  }

  lemma FirstMove()
    ensures Moves(1) == [Move(1)]
  {
    assert Moves(0) == [];
  }

  lemma MovesLast(before: seq<Op>, n: nat)
    requires n > 0 && before != []
    ensures Moves(n) != before + [Move(1)]
  {
    assert Moves(n)[|Moves(n)| - 1] == Move(n);
    assert (before + [Move(1)])[|before|] == Move(1);
    FirstMove();
  }

  /** Whatever a process did before it, a sweep's rows are those of its whole history. */
  ghost predicate SweepsFrom(env: Env, s: Sys, before: seq<Op>) {
    s.phase.Sweeping? && s.history == before + Moves(s.phase.done)
    && s.phase.rows == RowsAfter(env.engine, before, s.phase.done)
  }

  lemma ScanFollows(env: Env, s: Sys, before: seq<Op>, write: Write)
    requires SweepsFrom(env, s, before) && Enabled(s, Scan(write))
    ensures SweepsFrom(env, Next(env, s, Scan(write)), before)
  {
    var n := s.phase.done + 1;
    assert s.history + [Move(n)] == before + Moves(n);
  }

  /** What a finished sweep stores is truthful, whatever the engine, exactly when nothing came before the sweep. */
  lemma StoredWhenUntouched(id: Identity, before: seq<Op>, n: nat)
    requires CleanIdentity(id) && id.bound < 0x8000_0000 && 0 < n < 0x8000_0000
    ensures (forall engine: Engine | Sane(engine) ::
               Truthful(Env(engine, id), Some(FileText(id, Cache(RowsAfter(engine, before, n), n)))))
            <==> before == []
  {
    if before == [] {
      forall engine: Engine | Sane(engine)
        ensures Truthful(Env(engine, id), Some(FileText(id, Cache(RowsAfter(engine, before, n), n))))
      {
        UntouchedIsCold(engine, n);
        ColdFileIsRead(Env(engine, id), n);
      }
    } else {
      var engine := ShownOnceAfter(before);
      assert Word("7");
      assert Sane(engine);
      TouchedShows(before, n);
      RowsOfTouched(before, n);
      UntruthfulFile(Env(engine, id), Cache(RowsAfter(engine, before, n), n), before);
    }
  }

  lemma UntruthfulFile(env: Env, cache: Cache, before: seq<Op>)
    requires CleanIdentity(env.id) && ValidEnv(env) && CleanCache(cache) && cache.rows != [] && before != []
    requires env.engine == ShownOnceAfter(before)
    ensures !Truthful(env, Some(FileText(env.id, cache)))
  {
    FileReadsBack(env.id, env.id, cache);
    TouchedShows(before, cache.scanned);
  }

  lemma {:induction false} RowsOfTouched(before: seq<Op>, n: nat)
    requires n < 0x8000_0000
    ensures forall i | 0 <= i < |RowsAfter(ShownOnceAfter(before), before, n)| ::
              CleanRow(RowsAfter(ShownOnceAfter(before), before, n)[i])
  {
    if n > 0 {
      RowsOfTouched(before, n - 1);
      DigitsOf(n, 10);
      assert Word("7") && NatText(1) == "1" && NatText(0) == "0";
    }
  }

  // ------------------------------------------------------------------ the command

  /** One process: the cache file it shares with the others, and its own engine. */
  class Session {
    var file: Option<string>
    var history: seq<Op>
    var replayed: bool

    constructor (file: Option<string>)
      ensures this.file == file && history == [] && !replayed
    {
      this.file, history, replayed := file, [], false;
    }

    method MoveToEvent(eid: int)
      modifies this`history, this`replayed
      ensures history == old(history) + [Move(eid)] && replayed
    {
      replayed := true;
      history := history + [Move(eid)];
    }

    /** `counters`: the engine works, and the flag that says "cold" does not notice. */
    method FetchCounters()
      modifies this`history
      ensures history == old(history) + [Work]
    {
      history := history + [Work];
    }

    method WriteProbeCache(env: Env, cache: Cache, write: Write)
      modifies this`file
      ensures file == Store(env, old(file), cache, write)
    {
      if cache.scanned <= 0 {
        return;
      }
      var text := PrintCache(env.id, cache);
      match write {
        case Written => file := Some(text);
        case Kept =>
        case Lost => file := None;
        case Short(n) => file := Some(text[..Least(n, |text|)]);
      }
    }

    /** `writes` says what becomes of the write after each id. */
    method CmdProbe(env: Env, cap: int, writes: int -> Write) returns (answer: seq<Row>, cached: bool)
      requires ValidEnv(env) && cap < 0x8000_0000
      modifies this
      ensures var until, stored := ProbeUntil(cap, env.id.bound), Cached(env, old(file));
              if stored.scanned >= until
              then file == old(file) && history == old(history) && answer == Shows(stored.rows, until)
              else history == old(history) + Moves(until) && answer == RowsAfter(env.engine, old(history), until)
                   && (old(replayed) ==> file == old(file))
      ensures var until, stored := ProbeUntil(cap, env.id.bound), Cached(env, old(file));
              Truthful(env, old(file)) && (stored.scanned >= until || old(history) == [])
              ==> answer == ColdRows(env.engine, if until > 0 then until else 0)
      ensures var until, stored := ProbeUntil(cap, env.id.bound), Cached(env, old(file));
              Truthful(env, old(file))
              && (stored.scanned >= until || old(replayed) || (old(history) == [] && NoHarm(env, until, writes)))
              ==> Truthful(env, file)
      ensures var until := ProbeUntil(cap, env.id.bound);
              !old(replayed) && Cached(env, old(file)).scanned < until ==> file == FileAfter(env, old(file), old(history), until, writes)
      ensures cached == (Cached(env, old(file)).scanned > 0)
      ensures cached && history != old(history) <==> 0 < Cached(env, old(file)).scanned < ProbeUntil(cap, env.id.bound)
    {
      var until := ProbeUntil(cap, env.id.bound);
      var cold := !replayed;
      var cache := Cache([], 0);
      cached := false;
      if file.Some? {
        cached, cache := ReadProbeCache(env.id, file.value);
        ReadScans(env.id, file.value);
      }
      if cache.scanned >= until {
        if Truthful(env, file) {
          CachedAnswerIsCold(env, file, until);
        }
      } else {
        var rows := SweepAll(env, until, cold, writes);
        cache := Cache(rows, until);
        RowsStayWithin(env.engine, old(history), until);
        ShowsConcat(rows, [], until);
        assert rows + [] == rows;
        if old(history) == [] {
          UntouchedIsCold(env.engine, until);
        }
        assert |history| > |old(history)|;
      }
      answer := Shows(cache.rows, until);
    }

    /** One id: the engine walks to it, what it shows is a row, and every 1024 ids a cold sweep stores its rows. */
    method ScanOne(env: Env, eid: nat, rows: seq<Row>, cold: bool, write: Write) returns (more: seq<Row>)
      modifies this
      ensures history == old(history) + [Move(eid)] && more == rows + RowAt(env.engine, history, eid)
      ensures file == if cold && eid % 1024 == 0 then Store(env, old(file), Cache(more, eid), write) else old(file)
    {
      MoveToEvent(eid);
      more := rows + RowAt(env.engine, history, eid);
      if cold && eid % FLUSH_EVERY == 0 {
        WriteProbeCache(env, Cache(more, eid), write);
      }
    }

    /** The ids one after the other; a sweep taken for a cold one stores its prefix as it goes and at the end. */
    method SweepAll(env: Env, until: nat, cold: bool, writes: int -> Write) returns (rows: seq<Row>)
      requires ValidEnv(env) && 0 < until < 0x8000_0000
      modifies this
      ensures history == old(history) + Moves(until) && |history| > |old(history)|
      ensures rows == RowsAfter(env.engine, old(history), until)
      ensures file == if cold then FileAfter(env, old(file), old(history), until, writes) else old(file)
      ensures Truthful(env, old(file)) && (cold ==> old(history) == [] && NoHarm(env, until, writes)) ==> Truthful(env, file)
    {
      rows := [];
      ghost var before := history;
      assert before + Moves(0) == before;
      for eid: nat := 1 to until + 1
        invariant history == before + Moves(eid - 1) && rows == RowsAfter(env.engine, before, eid - 1)
        invariant file == if cold then FileDuring(env, old(file), before, eid - 1, writes) else old(file)
        invariant Truthful(env, old(file)) && (cold ==> before == [] && NoHarm(env, until, writes)) ==> Truthful(env, file)
      {
        Assoc(before, Moves(eid - 1), [Move(eid)]);
        PrefixIsTruthful(env, file, before, eid, writes(eid));
        rows := ScanOne(env, eid, rows, cold, writes(eid));
      }
      assert Moves(until) != [];
      if cold {
        PrefixIsTruthful(env, file, before, until, writes(until + 1));
        WriteProbeCache(env, Cache(rows, until), writes(until + 1));
      }
    }
  }

  /** The file while a cold sweep runs, when it has looked at `n` ids: it is stored every 1024 of them. */
  function FileDuring(env: Env, file: Option<string>, before: seq<Op>, n: nat, writes: int -> Write): Option<string> {
    if n == 0 then file
    else
      var now := FileDuring(env, file, before, n - 1, writes);
      if n % 1024 == 0 then Store(env, now, Cache(RowsAfter(env.engine, before, n), n), writes(n)) else now
  }

  /** The file when it has ended: stored once more, with all its rows. */
  function FileAfter(env: Env, file: Option<string>, before: seq<Op>, n: nat, writes: int -> Write): Option<string> {
    Store(env, FileDuring(env, file, before, n, writes), Cache(RowsAfter(env.engine, before, n), n), writes(n + 1))
  }

  /** A sweep that is killed keeps the prefix it had established: when its writes succeed, the last full 1024 ids. */
  lemma {:induction false} KilledSweepKeepsPrefix(env: Env, file: Option<string>, before: seq<Op>, n: nat, writes: int -> Write)
    requires forall k | 0 < k <= n :: writes(k) == Written
    ensures FileDuring(env, file, before, n, writes)
            == if n < 1024 then file
               else Some(FileText(env.id, Cache(RowsAfter(env.engine, before, n - n % 1024), n - n % 1024)))
  {
    if n > 0 {
      KilledSweepKeepsPrefix(env, file, before, n - 1, writes);
      LastFull(n);
    }
  }

  lemma LastFull(n: nat)
    requires n > 0
    ensures n % 1024 == 0 ==> n >= 1024
    ensures n % 1024 != 0 ==> n - n % 1024 == n - 1 - (n - 1) % 1024 && (n < 1024 <==> n - 1 < 1024)
  {
  }

  lemma {:induction false} RowsAfterAreClean(env: Env, before: seq<Op>, n: nat)
    requires ValidEnv(env) && n < 0x8000_0000
    ensures forall i | 0 <= i < |RowsAfter(env.engine, before, n)| :: CleanRow(RowsAfter(env.engine, before, n)[i])
  {
    if n > 0 {
      RowsAfterAreClean(env, before, n - 1);
      RowIsClean(env, before + Moves(n), n);
    }
  }

  /** And what the last write of a sweep stores is the answer of the next probe: the rows it found, and no sweep. */
  lemma RepeatIsCached(env: Env, file: Option<string>, before: seq<Op>, n: nat, writes: int -> Write)
    requires ValidEnv(env) && CleanIdentity(env.id) && 0 < n < 0x8000_0000 && writes(n + 1) == Written
    ensures Cached(env, FileAfter(env, file, before, n, writes)) == Cache(RowsAfter(env.engine, before, n), n)
    ensures Shows(RowsAfter(env.engine, before, n), n) == RowsAfter(env.engine, before, n)
  {
    RowsAfterAreClean(env, before, n);
    FileReadsBack(env.id, env.id, Cache(RowsAfter(env.engine, before, n), n));
    RowsStayWithin(env.engine, before, n);
    ShowsConcat(RowsAfter(env.engine, before, n), [], n);
    assert RowsAfter(env.engine, before, n) + [] == RowsAfter(env.engine, before, n);
  }

  /** The range of a probe: the ids within the cap, if one is given, and within the frame, if its end is known. */
  lemma RangeIs(cap: int, lastEvent: int, eid: int)
    requires eid > 0
    ensures eid <= ProbeUntil(cap, lastEvent)
            <==> (cap > 0 || lastEvent > 0) && (cap > 0 ==> eid <= cap) && (lastEvent > 0 ==> eid <= lastEvent)
    ensures lastEvent > 0 ==> ProbeUntil(cap, lastEvent) <= lastEvent
    ensures cap > 0 && (lastEvent > 0 ==> cap <= lastEvent) ==> ProbeUntil(cap, lastEvent) == cap
  {
  }

  lemma {:induction false} MovesAre(n: nat)
    ensures |Moves(n)| == n && forall i | 0 <= i < n :: Moves(n)[i] == Move(i + 1)
  {
    if n > 0 {
      MovesAre(n - 1);
    }
  }

  /** The row of one id: what the engine shows there when it has walked to it from the first. */
  ghost predicate RowOf(engine: Engine, before: seq<Op>, eid: nat, row: Row) {
    var shown := engine(before + Moves(eid));
    shown.Some? && row == Row(eid, shown.value.shaders, shown.value.rootSig, shown.value.params)
  }

  /** A sweep's rows are those of the ids that show something, each with what it shows, in the order of the ids. */
  lemma {:induction false} RowsAre(engine: Engine, before: seq<Op>, n: nat)
    ensures forall row :: row in RowsAfter(engine, before, n) <==> 0 < row.eid <= n && RowOf(engine, before, row.eid, row)
    ensures forall i, j | 0 <= i < j < |RowsAfter(engine, before, n)| ::
              RowsAfter(engine, before, n)[i].eid < RowsAfter(engine, before, n)[j].eid
  {
    if n > 0 {
      RowsAre(engine, before, n - 1);
      RowsAreNext(engine, before, n, RowsAfter(engine, before, n - 1));
    }
  }

  lemma RowsAreNext(engine: Engine, before: seq<Op>, n: nat, rows: seq<Row>)
    requires n > 0 && forall row :: row in rows <==> 0 < row.eid <= n - 1 && RowOf(engine, before, row.eid, row)
    requires forall i, j | 0 <= i < j < |rows| :: rows[i].eid < rows[j].eid
    ensures var more := rows + RowAt(engine, before + Moves(n), n);
            && (forall row :: row in more <==> 0 < row.eid <= n && RowOf(engine, before, row.eid, row))
            && forall i, j | 0 <= i < j < |more| :: more[i].eid < more[j].eid
  {
    var last := RowAt(engine, before + Moves(n), n);
    forall row ensures row in last <==> row.eid == n && RowOf(engine, before, n, row) {
    }
    if last != [] {
      assert forall i | 0 <= i < |rows| :: rows[i] in rows;
      RowBehind(rows, last[0]);
      assert last == [last[0]];
    } else {
      assert rows + last == rows;
    }
  }

  lemma RowBehind(rows: seq<Row>, last: Row)
    requires (forall i, j | 0 <= i < j < |rows| :: rows[i].eid < rows[j].eid) && forall i | 0 <= i < |rows| :: rows[i].eid < last.eid
    ensures forall i, j | 0 <= i < j < |rows + [last]| :: (rows + [last])[i].eid < (rows + [last])[j].eid
    ensures forall row :: row in rows + [last] <==> row in rows || row == last
  {
  }

  /** None of a cold sweep's writes does harm. */
  predicate NoHarm(env: Env, until: int, writes: int -> Write) {
    && (forall eid: nat | eid <= until && eid % FLUSH_EVERY == 0 ::
          Harmless(env, Cache(ColdRows(env.engine, eid), eid), writes(eid)))
    && (until > 0 ==> Harmless(env, Cache(ColdRows(env.engine, until), until), writes(until + 1)))
  }

  lemma PrefixIsTruthful(env: Env, file: Option<string>, before: seq<Op>, n: nat, write: Write)
    requires ValidEnv(env) && n < 0x8000_0000
    ensures Truthful(env, file) && before == [] && Harmless(env, Cache(ColdRows(env.engine, n), n), write)
            ==> Truthful(env, Store(env, file, Cache(RowsAfter(env.engine, before, n), n), write))
  {
    if Truthful(env, file) && before == [] && Harmless(env, Cache(ColdRows(env.engine, n), n), write) {
      UntouchedIsCold(env.engine, n);
      StoreIsTruthful(env, file, n, write);
    }
  }

  lemma {:induction false} RowsStayWithin(engine: Engine, before: seq<Op>, n: nat)
    ensures forall i | 0 <= i < |RowsAfter(engine, before, n)| :: RowsAfter(engine, before, n)[i].eid <= n
  {
    if n > 0 {
      RowsStayWithin(engine, before, n - 1);
    }
  }

  /** An input for which `cached` misleads: the file holds the first id, the run asks for two and sweeps. */
  lemma CachedMisleads(env: Env)
    requires ValidEnv(env) && CleanIdentity(env.id) && env.id.bound >= 2
    ensures var file := Some(FileText(env.id, Cache(ColdRows(env.engine, 1), 1)));
            Truthful(env, file) && 0 < Cached(env, file).scanned < ProbeUntil(2, env.id.bound)
  {
    ColdFileIsRead(env, 1);
  }

  /** An accepted file names a prefix of at least one id. */
  lemma ReadScans(want: Identity, file: string)
    ensures ReadFile(want, file).Some? ==> 0 < ReadFile(want, file).value.scanned < 0x8000_0000
  {
    ScannedStaysPositive(BLANK, want, file);
  }

  lemma {:induction false} ScannedStaysPositive(r: Reading, want: Identity, file: string)
    requires r.scannedSeen ==> 0 < r.cache.scanned < 0x8000_0000
    ensures FeedAll(r, want, file).scannedSeen ==> 0 < FeedAll(r, want, file).cache.scanned < 0x8000_0000
    decreases |file|
  {
    if file != "" {
      var n := ReadLength(file, 1023);
      var text := TrimEnd(file[..n]);
      var line := Classify(want, text);
      assert line.IsScanned? ==> 0 < line.n < 0x8000_0000;
      ApplyKeepsScanned(r, line);
      ScannedStaysPositive(Apply(r, line), want, file[n..]);
    }
  }

  lemma ApplyKeepsScanned(r: Reading, line: Line)
    requires (r.scannedSeen ==> 0 < r.cache.scanned < 0x8000_0000) && (line.IsScanned? ==> 0 < line.n < 0x8000_0000)
    ensures Apply(r, line).scannedSeen ==> 0 < Apply(r, line).cache.scanned < 0x8000_0000
  {
  }

  /** A probe that must sweep begins a cold one in a new process, and not behind another command's move. */
  lemma ColdOrNot(env: Env, s: Sys, cap: int, eid: int)
    requires cap < 0x8000_0000 && Cached(env, s.file).scanned < ProbeUntil(cap, env.id.bound)
    ensures var started := Next(env, Next(env, s, Restart), Begin(cap));
            started == Sys(s.file, [], false, Sweeping(ProbeUntil(cap, env.id.bound), true, 0, []))
    ensures s.phase.Idle? ==>
              var moved := Next(env, Next(env, s, OtherMove(eid)), Begin(cap));
              moved.history == s.history + [Move(eid)] && moved.file == s.file && moved.phase.Sweeping? && !moved.phase.cold
  {
  }
}
