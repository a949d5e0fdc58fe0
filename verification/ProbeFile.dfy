/**
 The probe cache's file: five header lines and one line per id with state, as it is written and as it
 is read back (src/cpp/bundle.cpp).  File text is without NUL characters.
 */
module ProbeFile {
  import opened Basics
  import opened Decimal

  datatype Row = Row(eid: int, shaders: int, rootSig: string, params: int)

  /** Every id with state over the prefix 1..`scanned`. */
  datatype Cache = Cache(rows: seq<Row>, scanned: int)

  /** Whose answer the file is: the capture, the engine, and the frame's own last event. */
  datatype Identity = Identity(capture: string, engine: string, bound: int)

  // ------------------------------------------------------------------ writing

  function RowLine(row: Row): string {
    IntText(row.eid) + (" " + (IntText(row.shaders) + (" " + (row.rootSig + (" " + IntText(row.params))))))
  }

  const TITLE := "# rdc-tools probe cache v1"

  function CaptureLine(id: Identity): string { "# capture: " + id.capture }
  function EngineLine(id: Identity): string { "# engine: " + id.engine }
  function BoundLine(id: Identity): string { "# bound: " + IntText(id.bound) }
  function ScannedLine(scanned: int): string { "# scanned: " + IntText(scanned) }

  function HeaderLines(id: Identity, scanned: int): (lines: seq<string>)
    ensures |lines| == 5
  {
    [TITLE, CaptureLine(id), EngineLine(id), BoundLine(id), ScannedLine(scanned)]
  }

  function FileLines(id: Identity, cache: Cache): seq<string> {
    HeaderLines(id, cache.scanned) + RowLines(cache.rows)
  }

  function RowLines(rows: seq<Row>): seq<string> {
    if rows == [] then [] else [RowLine(rows[0])] + RowLines(rows[1..])
  }

  function Joined(lines: seq<string>): string {
    if lines == [] then "" else lines[0] + ("\n" + Joined(lines[1..]))
  }

  function FileText(id: Identity, cache: Cache): string {
    Joined(FileLines(id, cache))
  }

  /** The file, printed line by line. */
  method PrintCache(id: Identity, cache: Cache) returns (text: string)
    ensures text == FileText(id, cache)
  {
    text := "";
    var header := HeaderLines(id, cache.scanned);
    for i: nat := 0 to 5
      invariant text == Joined(header[..i])
    {
      JoinedNext(header, i);
      text := text + (header[i] + "\n");
    }
    assert header[..5] == header;
    ghost var rows := RowLines(cache.rows);
    RowLineCount(cache.rows);
    for i: nat := 0 to |cache.rows|
      invariant text == Joined(header) + Joined(rows[..i])
    {
      RowLineAt(cache.rows, i);
      JoinedNext(rows, i);
      Assoc(Joined(header), Joined(rows[..i]), rows[i] + "\n");
      text := text + (RowLine(cache.rows[i]) + "\n");
    }
    assert rows[..|cache.rows|] == rows;
    JoinedConcat(header, rows);
  }

  lemma {:induction false} JoinedConcat(xs: seq<string>, ys: seq<string>)
    ensures Joined(xs + ys) == Joined(xs) + Joined(ys)
  {
    if xs == [] {
      assert xs + ys == ys;
    } else {
      assert (xs + ys)[1..] == xs[1..] + ys;
      JoinedConcat(xs[1..], ys);
      Assoc("\n", Joined(xs[1..]), Joined(ys));
      Assoc(xs[0], "\n" + Joined(xs[1..]), Joined(ys));
    }
  }

  lemma JoinedNext(lines: seq<string>, i: nat)
    requires i < |lines|
    ensures Joined(lines[..i + 1]) == Joined(lines[..i]) + (lines[i] + "\n")
  {
    assert lines[..i + 1] == lines[..i] + [lines[i]];
    JoinedConcat(lines[..i], [lines[i]]);
    assert [lines[i]][1..] == [];
  }

  // ------------------------------------------------------------------ reading

  /** How many characters one read takes: up to and with the newline, at most `room`. */
  function ReadLength(s: string, room: nat): (n: nat)
    ensures n <= |s| && n <= room && (s != "" && room > 0 ==> n > 0)
    ensures forall i | 0 <= i < n - 1 :: s[i] != '\n'
  {
    if s == "" || room == 0 then 0 else if s[0] == '\n' then 1 else 1 + ReadLength(s[1..], room - 1)
  }

  function TrimEnd(s: string): (trimmed: string)
    ensures trimmed <= s && (trimmed != "" ==> trimmed[|trimmed| - 1] != '\n' && trimmed[|trimmed| - 1] != '\r')
  {
    if s != "" && (s[|s| - 1] == '\n' || s[|s| - 1] == '\r') then TrimEnd(s[..|s| - 1]) else s
  }

  function SkipBlank(s: string): (rest: string)
    ensures |rest| <= |s|
  {
    if s != "" && IsBlank(s[0]) then SkipBlank(s[1..]) else s
  }

  function SkipSpaces(s: string): string {
    if s != "" && s[0] == ' ' then SkipSpaces(s[1..]) else s
  }

  /** `%d`: blanks, an optional sign, digits; and what is left. */
  function ScanInt(s: string): Option<(int, string)> {
    var t := SkipBlank(s);
    var negative := t != "" && t[0] == '-';
    var u := if t != "" && (t[0] == '-' || t[0] == '+') then t[1..] else t;
    var n := DigitRun(u);
    var value: int := NatValue(u[..n]);
    if n == 0 then None else Some((if negative then -value else value, u[n..]))
  }

  function WordLength(s: string, room: nat): (n: nat)
    ensures n <= |s|
  {
    if s == "" || room == 0 || IsBlank(s[0]) then 0 else 1 + WordLength(s[1..], room - 1)
  }

  /** `%63s`. */
  function ScanWord(s: string): Option<(string, string)> {
    var t := SkipBlank(s);
    var n := WordLength(t, 63);
    if n == 0 then None else Some((t[..n], t[n..]))
  }

  /** `"%d %d %63s %d"`: all four or nothing. */
  function ScanRow(s: string): Option<Row> {
    match ScanInt(s)
    case None => None
    case Some((eid, s1)) =>
      match ScanInt(s1)
      case None => None
      case Some((shaders, s2)) =>
        match ScanWord(s2)
        case None => None
        case Some((rootSig, s3)) =>
          match ScanInt(s3)
          case None => None
          case Some((params, _)) => Some(Row(eid, shaders, rootSig, params))
  }

  /** The whole text as a 32-bit integer. */
  function ParseInt(s: string): Option<int> {
    var digits := if s != "" && s[0] == '-' then s[1..] else s;
    if digits == "" || !AllDigits(digits) then None
    else
      var magnitude: int := NatValue(digits);
      var value := if s[0] == '-' then -magnitude else magnitude;
      if -0x8000_0000 <= value < 0x8000_0000 then Some(value) else None
  }

  /** What the reader knows after some of the lines. */
  datatype Reading = Reading(capture: bool, engine: bool, bound: bool, scannedSeen: bool, refused: bool, cache: Cache)

  /** What one line is to a reader that wants one identity's answer. */
  datatype Line = IsCapture | IsEngine | IsBound | IsScanned(n: int) | Ignored | IsRow(row: Row) | NoRow

  function Classify(want: Identity, text: string): (line: Line)
    ensures line.IsScanned? ==> 0 < line.n < 0x8000_0000
    ensures line.IsCapture? ==> text == CaptureLine(want)
    ensures line.IsEngine? ==> text == EngineLine(want)
    ensures line.IsBound? ==> text == BoundLine(want)
  {
    if "# " <= text then
      if text == CaptureLine(want) then IsCapture
      else if text == EngineLine(want) then IsEngine
      else if text == BoundLine(want) then IsBound
      else if "# scanned:" <= text then
        match ParseInt(SkipSpaces(text[10..]))
        case Some(n) => if n > 0 then IsScanned(n) else Ignored
        case None => Ignored
      else Ignored
    else if text == "" then Ignored
    else match ScanRow(text)
         case Some(row) => IsRow(row)
         case None => NoRow
  }

  function Apply(r: Reading, line: Line): Reading {
    if r.refused then r
    else match line
      case IsCapture => r.(capture := true)
      case IsEngine => r.(engine := true)
      case IsBound => r.(bound := true)
      case IsScanned(n) => r.(cache := r.cache.(scanned := n), scannedSeen := true)
      case Ignored => r
      case IsRow(row) => r.(cache := r.cache.(rows := r.cache.rows + [row]))
      case NoRow => r.(refused := true)
  }

  function FeedAll(r: Reading, want: Identity, file: string): Reading
    decreases |file|
  {
    if file == "" then r
    else
      var n := ReadLength(file, 1023);
      FeedAll(Apply(r, Classify(want, TrimEnd(file[..n]))), want, file[n..])
  }

  const BLANK := Reading(false, false, false, false, false, Cache([], 0))

  /** The file's answer, or nothing: then the caller sweeps. */
  function Accept(r: Reading): Option<Cache> {
    if !r.refused && r.capture && r.engine && r.bound && r.scannedSeen then Some(r.cache) else None
  }

  function ReadFile(want: Identity, file: string): Option<Cache> {
    Accept(FeedAll(BLANK, want, file))
  }

  method ReadProbeCache(want: Identity, file: string) returns (hit: bool, cache: Cache)
    ensures hit == ReadFile(want, file).Some?
    ensures cache == if hit then ReadFile(want, file).value else Cache([], 0)
  {
    var rest := file;
    var capture, engine, bound, scanned := false, false, false, false;
    cache := Cache([], 0);
    while rest != ""
      invariant FeedAll(BLANK, want, file)
                == FeedAll(Reading(capture, engine, bound, scanned, false, cache), want, rest)
      decreases |rest|
    {
      var n := ReadLength(rest, 1023);
      var line := Classify(want, TrimEnd(rest[..n]));
      rest := rest[n..];
      match line {
        case IsCapture => capture := true;
        case IsEngine => engine := true;
        case IsBound => bound := true;
        case IsScanned(count) => cache, scanned := cache.(scanned := count), true;
        case Ignored =>
        case IsRow(row) => cache := cache.(rows := cache.rows + [row]);
        case NoRow =>
          RefusedStays(Reading(capture, engine, bound, scanned, true, cache), want, rest);
          return false, Cache([], 0);
      }
    }
    hit := capture && engine && bound && scanned;
    if !hit {
      cache := Cache([], 0);
    }
  }

  lemma {:induction false} RefusedStays(r: Reading, want: Identity, file: string)
    requires r.refused
    ensures FeedAll(r, want, file).refused
    decreases |file|
  {
    if file != "" {
      RefusedStays(r, want, file[ReadLength(file, 1023)..]);
    }
  }

  // ------------------------------------------------------------------ a written file reads back

  /** A line one read takes whole and gives back as it was written. */
  predicate Clean(line: string) {
    |line| <= 1023 && '\n' !in line && (line == "" || line[|line| - 1] != '\r')
  }

  predicate Word(s: string) {
    0 < |s| <= 63 && forall i | 0 <= i < |s| :: !IsBlank(s[i])
  }

  /** The two names of the identity fit their lines. */
  predicate CleanIdentity(id: Identity) {
    Clean(CaptureLine(id)) && Clean(EngineLine(id)) && Clean(BoundLine(id))
  }

  /** A resource id is one word, and the row's line is short enough for one read. */
  predicate CleanRow(row: Row) {
    Word(row.rootSig) && |RowLine(row)| < 1023
  }

  predicate CleanCache(cache: Cache) {
    0 < cache.scanned < 0x8000_0000 && forall i | 0 <= i < |cache.rows| :: CleanRow(cache.rows[i])
  }

  lemma {:induction false} ReadLengthOf(line: string, rest: string, room: nat)
    requires '\n' !in line && |line| <= room
    ensures ReadLength(line + ("\n" + rest), room) == if |line| < room then |line| + 1 else |line|
  {
    var s := line + ("\n" + rest);
    if line == "" {
      assert s == "\n" + rest;
    } else {
      assert s[1..] == line[1..] + ("\n" + rest);
      ReadLengthOf(line[1..], rest, room - 1);
    }
  }

  /** One line read is one line fed. */
  lemma FeedLine(r: Reading, want: Identity, line: string, rest: string)
    requires Clean(line)
    ensures FeedAll(r, want, line + ("\n" + rest)) == FeedAll(Apply(r, Classify(want, line)), want, rest)
  {
    var file := line + ("\n" + rest);
    ReadLengthOf(line, rest, 1023);
    assert TrimEnd(line) == line;
    if |line| < 1023 {
      assert file[..|line| + 1] == line + "\n" && file[|line| + 1..] == rest;
      assert (line + "\n")[..|line|] == line;
    } else {
      // The newline is left for a read of its own, and that line is empty.
      assert file[..|line|] == line && file[|line|..] == "\n" + rest;
      EmptyLine(Apply(r, Classify(want, line)), want, rest);
    }
  }

  lemma EmptyLine(r: Reading, want: Identity, rest: string)
    ensures FeedAll(r, want, "\n" + rest) == FeedAll(r, want, rest)
  {
    var file := "\n" + rest;
    assert ReadLength(file, 1023) == 1 && file[..1] == "\n" && file[1..] == rest;
    assert TrimEnd("\n") == "";
  }

  lemma ScanNatOf(n: nat, rest: string)
    requires rest == "" || !IsDigit(rest[0])
    ensures var t := NatText(n) + rest;
            DigitRun(t) == |NatText(n)| && NatValue(t[..|NatText(n)|]) == n && t[|NatText(n)|..] == rest
  {
    var digits := NatText(n);
    NatTextValue(n);
    DigitRunOf(digits, rest);
    assert (digits + rest)[..|digits|] == digits;
  }

  lemma ScanIntOf(n: int, rest: string)
    requires rest == "" || !IsDigit(rest[0])
    ensures ScanInt(IntText(n) + rest) == Some((n, rest))
  {
    if n < 0 {
      ScanNegative(n, rest);
    } else {
      ScanPositive(n, rest);
    }
  }

  lemma ScanPositive(n: nat, rest: string)
    requires rest == "" || !IsDigit(rest[0])
    ensures ScanInt(NatText(n) + rest) == Some((n, rest))
  {
    var t := NatText(n) + rest;
    NatTextValue(n);
    assert t[0] == NatText(n)[0] && IsDigit(t[0]) && SkipBlank(t) == t;
    ScanNatOf(n, rest);
  }

  lemma ScanNegative(n: int, rest: string)
    requires n < 0 && (rest == "" || !IsDigit(rest[0]))
    ensures ScanInt(IntText(n) + rest) == Some((n, rest))
  {
    ScanMinus(n, rest);
    SignedText(n, rest, NatText(-n) + rest);
  }

  lemma ScanMinus(n: int, rest: string)
    requires n < 0 && (rest == "" || !IsDigit(rest[0]))
    ensures ScanInt(['-'] + (NatText(-n) + rest)) == Some((n, rest))
  {
    ScanNatOf(-n, rest);
    ScanSigned(n, NatText(-n) + rest, |NatText(-n)|, rest);
  }

  lemma SignedText(n: int, rest: string, digits: string)
    requires n < 0 && digits == NatText(-n) + rest
    ensures IntText(n) + rest == ['-'] + digits
  {
  }

  lemma ScanSigned(n: int, u: string, d: nat, rest: string)
    requires DigitRun(u) == d > 0 && NatValue(u[..d]) == -n && u[d..] == rest
    ensures ScanInt(['-'] + u) == Some((n, rest))
  {
    assert (['-'] + u)[1..] == u;
  }

  lemma ScanIntBlank(s: string)
    ensures ScanInt(" " + s) == ScanInt(s)
  {
    assert (" " + s)[1..] == s;
  }

  lemma {:induction false} WordLengthOf(word: string, rest: string, room: nat)
    requires |word| <= room && (forall i | 0 <= i < |word| :: !IsBlank(word[i])) && rest != "" && IsBlank(rest[0])
    ensures WordLength(word + rest, room) == |word|
  {
    if word == "" {
      assert word + rest == rest;
    } else {
      assert (word + rest)[1..] == word[1..] + rest;
      WordLengthOf(word[1..], rest, room - 1);
    }
  }

  lemma ScanWordOf(word: string, rest: string)
    requires Word(word) && rest != "" && IsBlank(rest[0])
    ensures ScanWord(" " + (word + rest)) == Some((word, rest))
  {
    var t := word + rest;
    assert (" " + t)[1..] == t && SkipBlank(t) == t;
    WordLengthOf(word, rest, 63);
  }

  lemma RowReadsBack(row: Row)
    requires CleanRow(row)
    ensures ScanRow(RowLine(row)) == Some(row)
  {
    var s4 := " " + IntText(row.params);
    var s3 := " " + (row.rootSig + s4);
    var s2 := " " + (IntText(row.shaders) + s3);
    ScanIntOf(row.eid, s2);
    ScanIntOf(row.shaders, s3);
    ScanIntBlank(IntText(row.shaders) + s3);
    ScanWordOf(row.rootSig, s4);
    ScanIntOf(row.params, "");
    assert IntText(row.params) + "" == IntText(row.params);
    ScanIntBlank(IntText(row.params));
  }

  predicate InLine(s: string) {
    forall i | 0 <= i < |s| :: s[i] != '\n' && s[i] != '\r'
  }

  lemma IntInLine(n: int)
    ensures InLine(IntText(n)) && IntText(n)[0] != '#'
  {
  }

  /** A row's line is clean and cannot be taken for a header line. */
  lemma RowLineIsClean(row: Row)
    requires CleanRow(row)
    ensures Clean(RowLine(row)) && RowLine(row) != "" && !("# " <= RowLine(row))
  {
    IntInLine(row.eid);
    IntInLine(row.shaders);
    IntInLine(row.params);
    assert InLine(row.rootSig);
    assert InLine(RowLine(row));
    assert RowLine(row)[0] == IntText(row.eid)[0];
  }

  function AddRows(r: Reading, rows: seq<Row>): Reading {
    r.(cache := r.cache.(rows := r.cache.rows + rows))
  }

  function Fold(r: Reading, lines: seq<Line>): Reading
    decreases |lines|
  {
    if lines == [] then r else Fold(Apply(r, lines[0]), lines[1..])
  }

  function Classified(want: Identity, lines: seq<string>): (kinds: seq<Line>)
    ensures |kinds| == |lines|
  {
    seq(|lines|, i requires 0 <= i < |lines| => Classify(want, lines[i]))
  }

  lemma FoldFirst(r: Reading, want: Identity, lines: seq<string>)
    requires lines != []
    ensures Fold(r, Classified(want, lines)) == Fold(Apply(r, Classify(want, lines[0])), Classified(want, lines[1..]))
  {
    ClassifiedRest(want, lines);
  }

  lemma ClassifiedRest(want: Identity, lines: seq<string>)
    requires lines != []
    ensures Classified(want, lines)[1..] == Classified(want, lines[1..])
  {
  }

  /** Reading clean lines is applying them one by one; what follows them is read with what they leave known. */
  lemma {:induction false} LinesAreRead(r: Reading, want: Identity, lines: seq<string>, rest: string)
    requires forall i | 0 <= i < |lines| :: Clean(lines[i])
    ensures FeedAll(r, want, Joined(lines) + rest) == FeedAll(Fold(r, Classified(want, lines)), want, rest)
    decreases |lines|
  {
    if lines == [] {
      assert Joined(lines) + rest == rest;
    } else {
      FirstLineThen(lines, rest);
      FeedLine(r, want, lines[0], Joined(lines[1..]) + rest);
      LinesAreRead(Apply(r, Classify(want, lines[0])), want, lines[1..], rest);
      FoldFirst(r, want, lines);
    }
  }

  lemma FirstLineThen(lines: seq<string>, rest: string)
    requires lines != []
    ensures Joined(lines) + rest == lines[0] + ("\n" + (Joined(lines[1..]) + rest))
  {
    Assoc("\n", Joined(lines[1..]), rest);
    Assoc(lines[0], "\n" + Joined(lines[1..]), rest);
  }

  lemma {:induction false} RowLineAt(rows: seq<Row>, i: nat)
    requires i < |rows|
    ensures |RowLines(rows)| == |rows| && RowLines(rows)[i] == RowLine(rows[i])
  {
    if i > 0 {
      RowLineAt(rows[1..], i - 1);
    } else {
      RowLineCount(rows);
    }
  }

  lemma {:induction false} RowLineCount(rows: seq<Row>)
    ensures |RowLines(rows)| == |rows|
  {
    if rows != [] {
      RowLineCount(rows[1..]);
    }
  }

  /** Every row's line is clean and is read as that row. */
  lemma RowLinesAreRows(want: Identity, rows: seq<Row>)
    requires forall i | 0 <= i < |rows| :: CleanRow(rows[i])
    ensures |RowLines(rows)| == |rows|
    ensures forall i | 0 <= i < |rows| :: Clean(RowLines(rows)[i]) && Classify(want, RowLines(rows)[i]) == IsRow(rows[i])
  {
    RowLineCount(rows);
    forall i | 0 <= i < |rows|
      ensures Clean(RowLines(rows)[i]) && Classify(want, RowLines(rows)[i]) == IsRow(rows[i])
    {
      RowLineAt(rows, i);
      RowLineIsRow(want, rows[i]);
    }
  }

  lemma RowLineIsRow(want: Identity, row: Row)
    requires CleanRow(row)
    ensures Clean(RowLine(row)) && Classify(want, RowLine(row)) == IsRow(row)
  {
    RowLineIsClean(row);
    RowReadsBack(row);
  }

  lemma {:induction false} FoldRows(r: Reading, rows: seq<Row>, lines: seq<Line>)
    requires !r.refused && |lines| == |rows| && forall i | 0 <= i < |rows| :: lines[i] == IsRow(rows[i])
    ensures Fold(r, lines) == AddRows(r, rows)
    decreases |rows|
  {
    if rows == [] {
      assert r.cache.rows + rows == r.cache.rows;
    } else {
      FoldRows(AddRows(r, [rows[0]]), rows[1..], lines[1..]);
      assert (r.cache.rows + [rows[0]]) + rows[1..] == r.cache.rows + rows;
    }
  }

  // ------------------------------------------------------------------ the header

  lemma {:induction false} IntTextIsInjective(m: int, n: int)
    requires IntText(m) == IntText(n)
    ensures m == n
  {
    NatTextValue(if m < 0 then -m else m);
    NatTextValue(if n < 0 then -n else n);
    if m < 0 {
      assert IntText(m)[1..] == NatText(-m);
    }
    if n < 0 {
      assert IntText(n)[1..] == NatText(-n);
    }
  }

  lemma HeaderLinesDiffer(want: Identity, id: Identity)
    ensures CaptureLine(id) == CaptureLine(want) <==> id.capture == want.capture
    ensures EngineLine(id) == EngineLine(want) <==> id.engine == want.engine
    ensures BoundLine(id) == BoundLine(want) <==> id.bound == want.bound
  {
    assert CaptureLine(id)[11..] == id.capture && CaptureLine(want)[11..] == want.capture;
    assert EngineLine(id)[10..] == id.engine && EngineLine(want)[10..] == want.engine;
    assert BoundLine(id)[9..] == IntText(id.bound) && BoundLine(want)[9..] == IntText(want.bound);
    if BoundLine(id) == BoundLine(want) {
      IntTextIsInjective(id.bound, want.bound);
    }
  }

  /** The third character tells the header lines apart. */
  lemma Marks(want: Identity, scanned: int)
    ensures CaptureLine(want)[2] == 'c' && EngineLine(want)[2] == 'e' && BoundLine(want)[2] == 'b'
    ensures TITLE[2] == 'r' && ScannedLine(scanned)[2] == 's'
    ensures "# " <= TITLE && "# " <= CaptureLine(want) && "# " <= EngineLine(want) && "# " <= BoundLine(want)
  {
  }

  lemma ScannedReadsBack(scanned: int)
    requires 0 < scanned < 0x8000_0000
    ensures var line := ScannedLine(scanned);
            "# scanned:" <= line && ParseInt(SkipSpaces(line[10..])) == Some(scanned)
  {
    NatTextValue(scanned);
    LabelCut(NatText(scanned));
    BlankSkipped(NatText(scanned));
  }

  lemma LabelCut(text: string)
    ensures "# scanned:" <= "# scanned: " + text && ("# scanned: " + text)[10..] == " " + text
  {
  }

  lemma BlankSkipped(text: string)
    requires text != "" && text[0] != ' '
    ensures SkipSpaces(" " + text) == text
  {
    assert (" " + text)[1..] == text;
    assert SkipSpaces(text) == text;
  }

  /** How a reader that wants `want` takes the header written for `id`. */
  lemma HeaderIsRead(want: Identity, id: Identity, scanned: int)
    requires 0 < scanned < 0x8000_0000
    ensures Classify(want, TITLE) == Ignored
    ensures Classify(want, CaptureLine(id)) == if id.capture == want.capture then IsCapture else Ignored
    ensures Classify(want, EngineLine(id)) == if id.engine == want.engine then IsEngine else Ignored
    ensures Classify(want, BoundLine(id)) == if id.bound == want.bound then IsBound else Ignored
    ensures Classify(want, ScannedLine(scanned)) == IsScanned(scanned)
  {
    HeaderLinesDiffer(want, id);
    Marks(want, scanned);
    Marks(id, scanned);
    ScannedReadsBack(scanned);
    assert "# scanned:"[2] == 's';
  }

  lemma FoldHeader(want: Identity, id: Identity, scanned: int, kinds: seq<Line>)
    requires |kinds| >= 5 && kinds[0] == Ignored && kinds[4] == IsScanned(scanned)
    requires kinds[1] == if id.capture == want.capture then IsCapture else Ignored
    requires kinds[2] == if id.engine == want.engine then IsEngine else Ignored
    requires kinds[3] == if id.bound == want.bound then IsBound else Ignored
    ensures Fold(BLANK, kinds)
            == Fold(Reading(id.capture == want.capture, id.engine == want.engine, id.bound == want.bound, true, false,
                            Cache([], scanned)), kinds[5..])
  {
    assert kinds[1..][1..] == kinds[2..] && kinds[2..][1..] == kinds[3..];
    assert kinds[3..][1..] == kinds[4..] && kinds[4..][1..] == kinds[5..];
    var r2 := Apply(Apply(BLANK, kinds[0]), kinds[1]);
    assert Fold(BLANK, kinds) == Fold(Apply(BLANK, kinds[0]), kinds[1..]) == Fold(r2, kinds[2..]);
    var r4 := Apply(Apply(r2, kinds[2]), kinds[3]);
    assert Fold(r2, kinds[2..]) == Fold(Apply(r2, kinds[2]), kinds[3..]) == Fold(r4, kinds[4..]);
  }

  lemma ScannedIsClean(scanned: int)
    requires 0 < scanned < 0x8000_0000
    ensures Clean(ScannedLine(scanned))
  {
    IntInLine(scanned);
    DigitsOf(scanned, 10);
    assert InLine(ScannedLine(scanned));
  }

  function Power10(k: nat): nat {
    if k == 0 then 1 else 10 * Power10(k - 1)
  }

  lemma {:induction false} DigitsOf(n: nat, k: nat)
    requires n < Power10(k)
    ensures |NatText(n)| <= if k == 0 then 1 else k
  {
    if n >= 10 {
      DigitsOf(n / 10, k - 1);
    }
  }

  lemma HeaderIsClean(id: Identity, scanned: int)
    requires CleanIdentity(id) && 0 < scanned < 0x8000_0000
    ensures forall i | 0 <= i < 5 :: Clean(HeaderLines(id, scanned)[i])
  {
    ScannedIsClean(scanned);
    assert Clean(TITLE);
  }

  lemma FileLinesAreClean(want: Identity, id: Identity, cache: Cache)
    requires CleanIdentity(id) && CleanCache(cache)
    ensures forall i | 0 <= i < |FileLines(id, cache)| :: Clean(FileLines(id, cache)[i])
    ensures |FileLines(id, cache)| == 5 + |cache.rows|
    ensures forall i | 0 <= i < |cache.rows| :: Classify(want, FileLines(id, cache)[5 + i]) == IsRow(cache.rows[i])
  {
    var header, rows, lines := HeaderLines(id, cache.scanned), RowLines(cache.rows), FileLines(id, cache);
    HeaderIsClean(id, cache.scanned);
    RowLinesAreRows(want, cache.rows);
    forall i | 0 <= i < |lines|
      ensures lines[i] == if i < 5 then header[i] else rows[i - 5]
    {
    }
  }

  /** What a reader that wants `want` knows behind a file written for `id`. */
  function Known(want: Identity, id: Identity, cache: Cache): Reading {
    Reading(id.capture == want.capture, id.engine == want.engine, id.bound == want.bound, true, false, cache)
  }

  lemma FileIsFolded(want: Identity, id: Identity, cache: Cache)
    requires CleanIdentity(id) && CleanCache(cache)
    ensures Fold(BLANK, Classified(want, FileLines(id, cache))) == Known(want, id, cache)
  {
    var kinds := KindsOf(want, id, cache);
    FoldHeader(want, id, cache.scanned, kinds);
    FoldRows(Known(want, id, Cache([], cache.scanned)), cache.rows, kinds[5..]);
    assert [] + cache.rows == cache.rows;
  }

  /** What was written is what is read, by the same capture, engine and bound; by any other it is refused. */
  lemma FileReadsBack(want: Identity, id: Identity, cache: Cache)
    requires CleanIdentity(id) && CleanCache(cache)
    ensures ReadFile(want, FileText(id, cache)) == if want == id then Some(cache) else None
  {
    FileLinesAreClean(want, id, cache);
    LinesAreRead(BLANK, want, FileLines(id, cache), "");
    FileIsFolded(want, id, cache);
    assert FileText(id, cache) + "" == FileText(id, cache);
  }

  /** An identity whose lines one read cannot take whole is never recognised, whatever the file. */
  lemma {:induction false} UncleanIsNeverRead(r: Reading, want: Identity, file: string)
    ensures !Clean(CaptureLine(want)) ==> FeedAll(r, want, file).capture == r.capture
    ensures !Clean(EngineLine(want)) ==> FeedAll(r, want, file).engine == r.engine
    ensures !Clean(BoundLine(want)) ==> FeedAll(r, want, file).bound == r.bound
    decreases |file|
  {
    if file != "" {
      var n := ReadLength(file, 1023);
      LineIsClean(file, n);
      UncleanLine(r, want, TrimEnd(file[..n]), Classify(want, TrimEnd(file[..n])));
      UncleanIsNeverRead(Apply(r, Classify(want, TrimEnd(file[..n]))), want, file[n..]);
    }
  }

  /** So a process with such an identity accepts no file. */
  lemma UncleanAcceptsNothing(id: Identity, file: string)
    requires !CleanIdentity(id)
    ensures ReadFile(id, file) == None
  {
    UncleanIsNeverRead(BLANK, id, file);
  }

  lemma UncleanLine(r: Reading, want: Identity, text: string, line: Line)
    requires Clean(text) && line == Classify(want, text)
    ensures !Clean(CaptureLine(want)) ==> Apply(r, line).capture == r.capture
    ensures !Clean(EngineLine(want)) ==> Apply(r, line).engine == r.engine
    ensures !Clean(BoundLine(want)) ==> Apply(r, line).bound == r.bound
  {
  }

  lemma LineIsClean(file: string, n: nat)
    requires file != "" && n == ReadLength(file, 1023)
    ensures Clean(TrimEnd(file[..n]))
  {
    var text := TrimEnd(file[..n]);
    forall i | 0 <= i < |text| ensures text[i] != '\n' {
      assert text[i] == file[i];
    }
  }

  /** A process reads its own file back exactly when its identity's lines can be read whole. */
  lemma OwnFileReadsBack(id: Identity, cache: Cache)
    requires CleanCache(cache)
    ensures ReadFile(id, FileText(id, cache)) == if CleanIdentity(id) then Some(cache) else None
  {
    if CleanIdentity(id) {
      FileReadsBack(id, id, cache);
    } else {
      UncleanAcceptsNothing(id, FileText(id, cache));
    }
  }

  /** An input: a capture behind a path of more than a thousand characters, whose cache is never used. */
  lemma LongPathIsNeverRead(engine: string, bound: int, cache: Cache)
    requires CleanCache(cache)
    ensures var id := Identity(seq(1100, _ => 'a'), engine, bound); ReadFile(id, FileText(id, cache)) == None
  {
    var id := Identity(seq(1100, _ => 'a'), engine, bound);
    assert |CaptureLine(id)| > 1023;
    OwnFileReadsBack(id, cache);
  }

  lemma FileTextSplit(id: Identity, scanned: int, first: seq<Row>, more: seq<Row>)
    ensures FileText(id, Cache(first + more, scanned)) == FileText(id, Cache(first, scanned)) + Joined(RowLines(more))
  {
    var header := HeaderLines(id, scanned);
    RowLinesConcat(first, more);
    JoinedConcat(header, RowLines(first) + RowLines(more));
    JoinedConcat(header, RowLines(first));
    JoinedConcat(RowLines(first), RowLines(more));
    Assoc(Joined(header), Joined(RowLines(first)), Joined(RowLines(more)));
  }

  lemma {:induction false} RowLinesConcat(xs: seq<Row>, ys: seq<Row>)
    ensures RowLines(xs + ys) == RowLines(xs) + RowLines(ys)
  {
    if xs == [] {
      assert xs + ys == ys;
    } else {
      assert (xs + ys)[1..] == xs[1..] + ys;
      RowLinesConcat(xs[1..], ys);
      Assoc([RowLine(xs[0])], RowLines(xs[1..]), RowLines(ys));
    }
  }

  lemma KindsOf(want: Identity, id: Identity, cache: Cache) returns (kinds: seq<Line>)
    requires CleanIdentity(id) && CleanCache(cache)
    ensures kinds == Classified(want, FileLines(id, cache)) && |kinds| == 5 + |cache.rows|
    ensures kinds[0] == Ignored && kinds[4] == IsScanned(cache.scanned)
    ensures kinds[1] == if id.capture == want.capture then IsCapture else Ignored
    ensures kinds[2] == if id.engine == want.engine then IsEngine else Ignored
    ensures kinds[3] == if id.bound == want.bound then IsBound else Ignored
    ensures forall i | 0 <= i < |cache.rows| :: kinds[5..][i] == IsRow(cache.rows[i])
  {
    FileLinesAreClean(want, id, cache);
    HeaderIsRead(want, id, cache.scanned);
    FirstLines(id, cache);
    kinds := Classified(want, FileLines(id, cache));
    forall i | 0 <= i < |cache.rows| ensures kinds[5..][i] == IsRow(cache.rows[i]) {
      assert kinds[5..][i] == kinds[5 + i];
    }
  }

  lemma FirstLines(id: Identity, cache: Cache)
    ensures |FileLines(id, cache)| >= 5
    ensures FileLines(id, cache)[0] == TITLE && FileLines(id, cache)[1] == CaptureLine(id)
    ensures FileLines(id, cache)[2] == EngineLine(id) && FileLines(id, cache)[3] == BoundLine(id)
    ensures FileLines(id, cache)[4] == ScannedLine(cache.scanned)
  {
    var header := HeaderLines(id, cache.scanned);
    assert forall i | 0 <= i < 5 :: FileLines(id, cache)[i] == header[i];
  }

  // ------------------------------------------------------------------ numbers and lines as they may stand in a file

  lemma {:induction false} BlankRun(blanks: string, s: string)
    requires (forall i | 0 <= i < |blanks| :: IsBlank(blanks[i])) && (s == "" || !IsBlank(s[0]))
    ensures SkipBlank(blanks + s) == s
  {
    if blanks == "" {
      assert blanks + s == s;
    } else {
      assert (blanks + s)[1..] == blanks[1..] + s;
      BlankRun(blanks[1..], s);
    }
  }

  /** A number: any blanks, a sign or none, and digits; what follows it is left. */
  lemma NumberScans(blanks: string, sign: string, digits: string, rest: string)
    requires forall i | 0 <= i < |blanks| :: IsBlank(blanks[i])
    requires sign in ["", "+", "-"] && digits != "" && AllDigits(digits) && (rest == "" || !IsDigit(rest[0]))
    ensures var value: int := NatValue(digits);
            ScanInt(blanks + (sign + (digits + rest))) == Some((if sign == "-" then -value else value, rest))
  {
    DigitRunOf(digits, rest);
    DigitsCut(digits, rest);
    SignedScans(sign, digits + rest, digits, rest);
    BlanksBefore(blanks, sign + (digits + rest));
  }

  lemma DigitsCut(digits: string, rest: string)
    ensures (digits + rest)[..|digits|] == digits && (digits + rest)[|digits|..] == rest
  {
  }

  lemma BlanksBefore(blanks: string, s: string)
    requires (forall i | 0 <= i < |blanks| :: IsBlank(blanks[i])) && s != "" && !IsBlank(s[0])
    ensures ScanInt(blanks + s) == ScanInt(s)
  {
    BlankRun(blanks, s);
    assert SkipBlank(s) == s;
  }

  lemma SignedScans(sign: string, u: string, digits: string, rest: string)
    requires sign in ["", "+", "-"] && AllDigits(digits) && DigitRun(u) == |digits| > 0
    requires u[..|digits|] == digits && u[|digits|..] == rest
    ensures var value: int := NatValue(digits);
            ScanInt(sign + u) == Some((if sign == "-" then -value else value, rest))
    ensures sign + u != "" && !IsBlank((sign + u)[0])
  {
    if sign == "" {
      assert sign + u == u;
    } else {
      assert (sign + u)[0] == sign[0] && (sign + u)[1..] == u;
    }
  }

  lemma {:induction false} WordRuns(word: string, rest: string, room: nat)
    requires (forall i | 0 <= i < |word| :: !IsBlank(word[i])) && (rest == "" || IsBlank(rest[0]))
    ensures WordLength(word + rest, room) == if |word| < room then |word| else room
  {
    if word == "" {
      assert word + rest == rest;
    } else if room > 0 {
      assert (word + rest)[1..] == word[1..] + rest;
      WordRuns(word[1..], rest, room - 1);
    }
  }

  /** A word: any blanks, and what is not blank, but 63 characters at the most. */
  lemma WordScans(blanks: string, word: string, rest: string)
    requires forall i | 0 <= i < |blanks| :: IsBlank(blanks[i])
    requires word != "" && (forall i | 0 <= i < |word| :: !IsBlank(word[i])) && (rest == "" || IsBlank(rest[0]))
    ensures |word| <= 63 ==> ScanWord(blanks + (word + rest)) == Some((word, rest))
    ensures |word| > 63 ==> ScanWord(blanks + (word + rest)) == Some((word[..63], word[63..] + rest))
  {
    assert (word + rest)[0] == word[0];
    BlankRun(blanks, word + rest);
    WordRuns(word, rest, 63);
    if |word| <= 63 {
      assert (word + rest)[..|word|] == word && (word + rest)[|word|..] == rest;
    } else {
      assert (word + rest)[..63] == word[..63] && (word + rest)[63..] == word[63..] + rest;
    }
  }

  /** The lines of a file, on an example. */
  lemma LineTexts(id: Identity)
    requires id.bound == 9
    ensures FileLines(id, Cache([Row(1, 2, "7", 3)], 5))
            == ["# rdc-tools probe cache v1", "# capture: " + id.capture, "# engine: " + id.engine, "# bound: 9",
                "# scanned: 5", "1 2 7 3"]
  {
    OneDigit(9);
    OneDigit(5);
    OneDigit(1);
    OneDigit(2);
    OneDigit(3);
    assert "# bound: " + "9" == "# bound: 9" && "# scanned: " + "5" == "# scanned: 5";
    assert "7" + (" " + "3") == "7 3" && "2" + (" " + "7 3") == "2 7 3" && "1" + (" " + "2 7 3") == "1 2 7 3";
    assert [Row(1, 2, "7", 3)][1..] == [] && RowLines([]) == [] && RowLines([Row(1, 2, "7", 3)]) == ["1 2 7 3"] + [];
  }

  lemma OneDigit(n: nat)
    requires n < 10
    ensures IntText(n) == [DigitOf(n)] && DigitOf(n) as int == 48 + n
  {
  }

  /** A file is its lines, each with a newline behind it. */
  lemma {:induction false} JoinedIs(lines: seq<string>, line: string)
    ensures Joined([]) == "" && Joined([line] + lines) == line + ("\n" + Joined(lines))
  {
    assert ([line] + lines)[1..] == lines;
  }

  /** The other lines: an empty one and any comment that the reader does not ask for are passed over, and so is a prefix
      that is no positive number; anything else that is no row refuses the file. */
  lemma OtherLines(want: Identity, text: string)
    ensures Classify(want, "") == Ignored
    ensures "# " <= text && text !in [CaptureLine(want), EngineLine(want), BoundLine(want)] && !("# scanned:" <= text)
            ==> Classify(want, text) == Ignored
    ensures text != "" && !("# " <= text) && ScanRow(text) == None ==> Classify(want, text) == NoRow
    ensures Apply(BLANK, NoRow).refused && !Apply(BLANK, Ignored).refused
  {
    assert !("# " <= "");
  }

  /** An empty line changes nothing, wherever it stands; nor does it matter whether a line ends in one newline or has a
      carriage return in front of it. */
  lemma EmptyLineIsNothing(r: Reading, want: Identity, file: string)
    ensures FeedAll(r, want, "\n" + file) == FeedAll(r, want, file)
  {
    var text := "\n" + file;
    assert text[0] == '\n' && text[..1] == "\n" && text[1..] == file;
    assert ReadLength(text, 1023) == 1;
    assert TrimEnd("\n") == TrimEnd("\n"[..0]) == "" && !("# " <= "");
  }

  lemma LineEnds(line: string)
    requires line == "" || (line[|line| - 1] != '\n' && line[|line| - 1] != '\r')
    ensures TrimEnd(line + "\n") == TrimEnd(line + "\r\n") == line
  {
    EndIsTrimmed(line, '\n');
    EndIsTrimmed(line, '\r');
    EndIsTrimmed(line + "\r", '\n');
    assert (line + "\r") + "\n" == line + "\r\n" && TrimEnd(line) == line;
  }

  lemma EndIsTrimmed(s: string, c: char)
    requires c == '\n' || c == '\r'
    ensures TrimEnd(s + [c]) == TrimEnd(s)
  {
    assert (s + [c])[..|s|] == s;
  }
}
