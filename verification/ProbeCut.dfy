/**
 A probe cache file that stops short: the writer ignores the errors of its writes and puts the file in place all the
 same (src/cpp/bundle.cpp).  What the reader makes of every cut.
 */
module ProbeCut {
  import opened Basics
  import opened Decimal
  import opened ProbeFile

  // ------------------------------------------------------------------ the places of a file

  const SCANNED := "# scanned: "

  function FirstFour(id: Identity): seq<string> {
    [TITLE, CaptureLine(id), EngineLine(id), BoundLine(id)]
  }

  /** Where the first digit of the scanned number stands. */
  function ScannedAt(id: Identity): nat {
    |Joined(FirstFour(id))| + |SCANNED|
  }

  function Upto(cache: Cache, k: nat): Cache
    requires k <= |cache.rows|
  {
    Cache(cache.rows[..k], cache.scanned)
  }

  /** Where piece `k` begins, and behind the last one the end. */
  function Place(first: nat, sizes: seq<nat>, k: nat): nat
    requires k <= |sizes|
  {
    if k == 0 then first else Place(first, sizes, k - 1) + sizes[k - 1]
  }

  /** The rows' lines with their newlines. */
  function Sizes(rows: seq<Row>): (sizes: seq<nat>)
    ensures |sizes| == |rows| && forall i | 0 <= i < |rows| :: sizes[i] == |RowLine(rows[i])| + 1
  {
    seq(|rows|, i requires 0 <= i < |rows| => |RowLine(rows[i])| + 1)
  }

  function HeaderEnd(id: Identity, scanned: int): nat {
    |Joined(FirstFour(id))| + |ScannedLine(scanned)| + 1
  }

  /** Where row `k` begins, and behind the last row the end of the file. */
  function RowStart(id: Identity, cache: Cache, k: nat): nat
    requires k <= |cache.rows|
  {
    Place(HeaderEnd(id, cache.scanned), Sizes(cache.rows), k)
  }

  function Magnitude(n: int): nat {
    if n < 0 then -n else n
  }

  function Sign(n: int): string {
    if n < 0 then "-" else ""
  }

  /** A row's line up to the first digit of its last field. */
  function RowHead(row: Row): string {
    IntText(row.eid) + (" " + (IntText(row.shaders) + (" " + (row.rootSig + (" " + Sign(row.params))))))
  }

  /** In front of the scanned number's first digit, or in a row in front of its last field's first digit. */
  predicate CutInside(id: Identity, cache: Cache, n: nat) {
    n <= ScannedAt(id)
    || exists k: nat | k < |cache.rows| ::
         RowStart(id, cache, k) < n <= RowStart(id, cache, k) + |RowHead(cache.rows[k])|
  }

  /** The file of `cache`, with or without its last newline. */
  predicate IsFileOf(text: string, id: Identity, cache: Cache) {
    text == FileText(id, cache) || text + "\n" == FileText(id, cache)
  }

  /** A text of two parts, cut in the first or in the second. */
  lemma CutFirst(x: string, y: string, n: nat)
    requires n <= |x|
    ensures (x + y)[..n] == x[..n]
  {
  }

  lemma CutSecond(x: string, y: string, n: nat)
    requires |x| <= n <= |x| + |y|
    ensures (x + y)[..n] == x + y[..n - |x|]
  {
  }

  predicate AllPositive(sizes: seq<nat>) {
    forall i | 0 <= i < |sizes| :: sizes[i] > 0
  }

  lemma {:induction false} PlacesGrow(first: nat, sizes: seq<nat>, j: nat, k: nat)
    requires j <= k <= |sizes| && AllPositive(sizes)
    ensures Place(first, sizes, j) + (k - j) <= Place(first, sizes, k)
    decreases k
  {
    if j < k {
      PlacesGrow(first, sizes, j, k - 1);
    }
  }

  /** The piece a place lies in; behind the last piece there is only the end. */
  lemma {:induction false} PieceOf(first: nat, sizes: seq<nat>, n: nat, k: nat) returns (p: nat)
    requires k <= |sizes| && first <= n <= Place(first, sizes, k)
    ensures p <= k && Place(first, sizes, p) <= n
    ensures if p < k then n < Place(first, sizes, p + 1) else n == Place(first, sizes, k)
  {
    if n == Place(first, sizes, k) || k == 0 {
      p := k;
    } else if Place(first, sizes, k - 1) <= n {
      p := k - 1;
    } else {
      p := PieceOf(first, sizes, n, k - 1);
    }
  }

  /** Only the last place of all lies next to the end. */
  lemma LastPlace(first: nat, sizes: seq<nat>, n: nat, p: nat)
    requires p < |sizes| && AllPositive(sizes) && Place(first, sizes, p) <= n < Place(first, sizes, p + 1)
    ensures n + 1 >= Place(first, sizes, |sizes|) <==> p + 1 == |sizes| && n + 1 == Place(first, sizes, p) + sizes[p]
  {
    PlacesGrow(first, sizes, p + 1, |sizes|);
  }

  /** A place of piece `p`, or its beginning, is in no other piece. */
  lemma NotInPiece(first: nat, sizes: seq<nat>, n: nat, p: nat, k: nat)
    requires p <= |sizes| && k < |sizes| && k != p && AllPositive(sizes) && Place(first, sizes, p) <= n
    requires p < |sizes| ==> n < Place(first, sizes, p + 1)
    ensures n <= Place(first, sizes, k) || Place(first, sizes, k) + sizes[k] <= n
  {
    if k < p {
      PlacesGrow(first, sizes, k + 1, p);
    } else {
      PlacesGrow(first, sizes, p + 1, k);
    }
  }

  // ------------------------------------------------------------------ a number that stops short

  /** What the first `d` digits of a number denote. */
  function FirstDigits(n: nat, d: nat): nat
    requires d <= |NatText(n)|
  {
    NatValue(NatText(n)[..d])
  }

  /** The first digits of a number are those of a number, and of a smaller one unless they are all. */
  lemma ShortNumber(n: nat, d: nat) returns (v: nat)
    requires 0 < d <= |NatText(n)|
    ensures NatText(v) == NatText(n)[..d] && v <= n && (n > 0 ==> v > 0) && (v == n <==> d == |NatText(n)|)
    ensures v == FirstDigits(n, d)
  {
    v := ShorterNumber(n, d);
    NatTextValue(v);
  }

  lemma {:induction false} ShorterNumber(n: nat, d: nat) returns (v: nat)
    requires 0 < d <= |NatText(n)|
    ensures NatText(v) == NatText(n)[..d] && v <= n && (n > 0 ==> v > 0) && (v == n <==> d == |NatText(n)|)
  {
    if d == |NatText(n)| {
      v := n;
    } else {
      v := ShorterNumber(n / 10, d);
      assert NatText(n)[..d] == NatText(n / 10)[..d];
    }
  }

  /** The number with the sign of `n`. */
  function Signed(n: int, magnitude: nat): int {
    if n < 0 then 0 - magnitude else magnitude
  }

  lemma SignedNumber(n: int)
    ensures IntText(n) == Sign(n) + NatText(Magnitude(n))
  {
  }

  lemma RowLineParts(row: Row)
    ensures RowLine(row) == RowHead(row) + NatText(Magnitude(row.params))
  {
    var sign, digits := Sign(row.params), NatText(Magnitude(row.params));
    SignedNumber(row.params);
    Assoc(" ", sign, digits);
    Assoc(row.rootSig, " " + sign, digits);
    Assoc(" ", row.rootSig + (" " + sign), digits);
    Assoc(IntText(row.shaders), " " + (row.rootSig + (" " + sign)), digits);
    Assoc(" ", IntText(row.shaders) + (" " + (row.rootSig + (" " + sign))), digits);
    Assoc(IntText(row.eid), " " + (IntText(row.shaders) + (" " + (row.rootSig + (" " + sign)))), digits);
  }

  lemma SignedIs(n: int, v: nat)
    requires Magnitude(n) > 0 ==> v > 0
    ensures Sign(Signed(n, v)) == Sign(n) && Magnitude(Signed(n, v)) == v && (Signed(n, v) == n <==> v == Magnitude(n))
  {
  }

  lemma SameHead(row: Row, short: Row)
    requires short == row.(params := short.params) && Sign(short.params) == Sign(row.params)
    ensures RowLine(short) == RowHead(row) + NatText(Magnitude(short.params))
  {
    RowLineParts(short);
  }

  /** A row's line that stops behind the first digit of its last field is the line of a row. */
  lemma ShortRow(row: Row, m: nat) returns (short: Row)
    requires |RowHead(row)| < m <= |RowLine(row)|
    ensures RowLine(short) == RowLine(row)[..m] && short == row.(params := short.params)
    ensures short == row <==> m == |RowLine(row)|
  {
    RowLineParts(row);
    var d := m - |RowHead(row)|;
    var v := ShortNumber(Magnitude(row.params), d);
    short := row.(params := Signed(row.params, v));
    SignedIs(row.params, v);
    SameHead(row, short);
    CutSecond(RowHead(row), NatText(Magnitude(row.params)), m);
  }

  // ------------------------------------------------------------------ a row that stops before its last field

  /** The scans of a row's fields, from the last one back: nothing comes of the text. */
  predicate NoLast(s: string) {
    ScanInt(s) == None
  }

  predicate NoWord(s: string) {
    ScanWord(s) == None || NoLast(ScanWord(s).value.1)
  }

  predicate NoShaders(s: string) {
    ScanInt(s) == None || NoWord(ScanInt(s).value.1)
  }

  lemma ScanRowFails(s: string)
    requires ScanInt(s) == None || NoShaders(ScanInt(s).value.1)
    ensures ScanRow(s) == None
  {
  }

  /** The first characters of a number are no number, or one with nothing behind it. */
  lemma ShortInt(n: int, m: nat)
    requires m <= |IntText(n)|
    ensures ScanInt(IntText(n)[..m]) == None || ScanInt(IntText(n)[..m]).value.1 == ""
    ensures m <= |Sign(n)| ==> ScanInt(IntText(n)[..m]) == None
  {
    SignedNumber(n);
    if m <= |Sign(n)| {
      CutFirst(Sign(n), NatText(Magnitude(n)), m);
      NoDigits(IntText(n)[..m]);
    } else {
      var value := ShortSigned(n, m);
      ScanWhole(value);
    }
  }

  lemma ShortSigned(n: int, m: nat) returns (value: int)
    requires |Sign(n)| < m <= |IntText(n)|
    ensures IntText(value) == IntText(n)[..m]
  {
    SignedNumber(n);
    var v := ShortNumber(Magnitude(n), m - |Sign(n)|);
    value := Signed(n, v);
    SignedNumber(value);
    CutSecond(Sign(n), NatText(Magnitude(n)), m);
  }

  lemma ScanWhole(n: int)
    ensures ScanInt(IntText(n)) == Some((n, ""))
  {
    ScanIntOf(n, "");
    assert IntText(n) + "" == IntText(n);
  }

  lemma NoDigits(s: string)
    requires s == "" || s == "-"
    ensures ScanInt(s) == None && ScanInt(" " + s) == None
  {
    ScanIntBlank(s);
  }

  lemma NothingLeft()
    ensures NoLast("") && NoWord("") && NoShaders("")
  {
  }

  lemma ShortLast(p: int, m: nat)
    requires m <= 1 + |Sign(p)|
    ensures |IntText(p)| >= |Sign(p)| && NoLast((" " + IntText(p))[..m])
  {
    SignedNumber(p);
    var s := (" " + IntText(p))[..m];
    if m > 0 {
      assert s == " " + IntText(p)[..m - 1];
      NoDigits(IntText(p)[..m - 1]);
    }
  }

  /** The first characters of a word are a word with nothing behind it. */
  lemma {:induction false} ShortWordLength(word: string, room: nat)
    requires |word| <= room && forall i | 0 <= i < |word| :: !IsBlank(word[i])
    ensures WordLength(word, room) == |word|
  {
    if word != "" {
      ShortWordLength(word[1..], room - 1);
    }
  }

  lemma ShortWord(word: string, p: int, m: nat)
    requires Word(word) && m <= |word| + 2 + |Sign(p)|
    ensures m <= |" " + (word + (" " + IntText(p)))| && NoWord((" " + (word + (" " + IntText(p))))[..m])
  {
    var whole := " " + (word + (" " + IntText(p)));
    SignedNumber(p);
    if m <= 1 + |word| {
      if m > 1 {
        var short := word[..m - 1];
        assert whole[..m] == " " + short;
        assert (" " + short)[1..] == short && SkipBlank(short) == short;
        ShortWordLength(short, 63);
      } else {
        BlankIsNoWord(whole[..m]);
      }
    } else {
      var rest := (" " + IntText(p))[..m - 1 - |word|];
      assert whole[..m] == " " + (word + rest);
      ScanWordOf(word, rest);
      ShortLast(p, m - 1 - |word|);
    }
  }

  lemma BlankIsNoWord(s: string)
    requires |s| <= 1 && (s != "" ==> s[0] == ' ')
    ensures ScanWord(s) == None
  {
    if s != "" {
      assert s[1..] == "";
    }
  }

  /** A number with something behind it, cut. */
  lemma ScanShort(n: int, tail: string, m: nat)
    requires tail != "" && !IsDigit(tail[0]) && m <= |IntText(n)| + |tail|
    ensures var s := (IntText(n) + tail)[..m];
            if m <= |IntText(n)| then ScanInt(s) == None || ScanInt(s).value.1 == ""
            else ScanInt(s) == Some((n, tail[..m - |IntText(n)|]))
  {
    if m <= |IntText(n)| {
      CutFirst(IntText(n), tail, m);
      ShortInt(n, m);
    } else {
      CutSecond(IntText(n), tail, m);
      ScanIntOf(n, tail[..m - |IntText(n)|]);
    }
  }

  lemma ShortShaders(n: int, tail: string, m: nat)
    requires tail != "" && !IsDigit(tail[0]) && m <= 1 + |IntText(n)| + |tail|
    requires m > 1 + |IntText(n)| ==> NoWord(tail[..m - 1 - |IntText(n)|])
    ensures NoShaders((" " + (IntText(n) + tail))[..m])
  {
    if m > 0 {
      ShadersCut(n, tail, m - 1);
      BlankAndShaders(IntText(n) + tail, m);
    } else {
      NothingLeft();
    }
  }

  lemma BlankAndShaders(text: string, m: nat)
    requires 0 < m <= 1 + |text| && NoShaders(text[..m - 1])
    ensures NoShaders((" " + text)[..m])
  {
    CutSecond(" ", text, m);
    BehindBlank(text[..m - 1]);
  }

  lemma ShadersCut(n: int, tail: string, m: nat)
    requires tail != "" && !IsDigit(tail[0]) && m <= |IntText(n)| + |tail|
    requires m > |IntText(n)| ==> NoWord(tail[..m - |IntText(n)|])
    ensures NoShaders((IntText(n) + tail)[..m])
  {
    NothingLeft();
    ScanShort(n, tail, m);
  }

  lemma BehindBlank(s: string)
    requires NoShaders(s)
    ensures NoShaders(" " + s)
  {
    ScanIntBlank(s);
  }

  /** A row's line that stops in front of its last field's first digit is no row. */
  lemma ShortRowFails(row: Row, m: nat)
    requires Word(row.rootSig) && m <= |RowHead(row)|
    ensures m <= |RowLine(row)| && ScanRow(RowLine(row)[..m]) == None
  {
    var tail := " " + (row.rootSig + (" " + IntText(row.params)));
    var more := " " + (IntText(row.shaders) + tail);
    RowLineParts(row);
    NothingLeft();
    ScanShort(row.eid, more, m);
    if m > |IntText(row.eid)| {
      var left := m - |IntText(row.eid)|;
      if left > 1 + |IntText(row.shaders)| {
        ShortWord(row.rootSig, row.params, left - 1 - |IntText(row.shaders)|);
      }
      ShortShaders(row.shaders, tail, left);
    }
    ScanRowFails(RowLine(row)[..m]);
  }

  // ------------------------------------------------------------------ a file's last piece

  lemma {:induction false} WholeLength(piece: string, room: nat)
    requires '\n' !in piece && |piece| <= room
    ensures ReadLength(piece, room) == |piece|
  {
    if piece != "" {
      WholeLength(piece[1..], room - 1);
    }
  }

  /** A piece of a line at the end of a file is one read. */
  lemma PieceIsRead(r: Reading, want: Identity, piece: string)
    requires '\n' !in piece && |piece| <= 1023
    ensures FeedAll(r, want, piece) == if piece == "" then r else Apply(r, Classify(want, TrimEnd(piece)))
  {
    if piece != "" {
      WholeLength(piece, 1023);
      assert piece[..|piece|] == piece && piece[|piece|..] == "";
    }
  }

  /** No beginning of the line names a scanned prefix. */
  predicate Unscanned(want: Identity, line: string) {
    forall m | 0 <= m <= |line| :: !Classify(want, TrimEnd(line[..m])).IsScanned?
  }

  lemma NotScanned(want: Identity, line: string)
    requires |line| >= 3 && line[2] != 's'
    ensures Unscanned(want, line)
  {
    forall m | 0 <= m <= |line| ensures !Classify(want, TrimEnd(line[..m])).IsScanned? {
      var text := TrimEnd(line[..m]);
      assert "# scanned:"[2] == 's';
      assert |text| > 2 ==> text[2] == line[2];
    }
  }

  predicate AllUnscanned(want: Identity, lines: seq<string>) {
    forall i | 0 <= i < |lines| :: Clean(lines[i]) && Unscanned(want, lines[i])
  }

  lemma UnscannedWhole(want: Identity, line: string)
    requires Clean(line) && Unscanned(want, line)
    ensures !Classify(want, line).IsScanned?
  {
    assert line[..|line|] == line && TrimEnd(line) == line;
    assert !Classify(want, TrimEnd(line[..|line|])).IsScanned?;
  }

  lemma {:induction false} NothingFolded(r: Reading, kinds: seq<Line>)
    requires !r.scannedSeen && forall i | 0 <= i < |kinds| :: !kinds[i].IsScanned?
    ensures !Fold(r, kinds).scannedSeen
    decreases |kinds|
  {
    if kinds != [] {
      NothingFolded(Apply(r, kinds[0]), kinds[1..]);
    }
  }

  /** A cut leaves some whole lines and the beginning of one. */
  lemma {:induction false} CutLines(lines: seq<string>, n: nat) returns (k: nat, m: nat)
    requires n < |Joined(lines)|
    ensures k < |lines| && m <= |lines[k]| && Joined(lines)[..n] == Joined(lines[..k]) + lines[k][..m]
    decreases |lines|
  {
    var line, rest := lines[0], Joined(lines[1..]);
    if n <= |line| {
      k, m := 0, n;
      CutFirst(line, "\n" + rest, n);
      assert Joined(lines[..0]) == "";
    } else {
      k, m := CutLines(lines[1..], n - |line| - 1);
      CutSecond(line, "\n" + rest, n);
      CutSecond("\n", rest, n - |line|);
      FirstOf(lines, k);
      FirstLineThen(lines[..k + 1], lines[k + 1][..m]);
      k := k + 1;
    }
  }

  lemma FirstOf(lines: seq<string>, k: nat)
    requires k < |lines| - 1
    ensures lines[..k + 1] != [] && lines[..k + 1][0] == lines[0] && lines[..k + 1][1..] == lines[1..][..k]
  {
  }

  /** A cut through lines that name no scanned prefix is not accepted. */
  lemma NothingScanned(want: Identity, lines: seq<string>, n: nat)
    requires n < |Joined(lines)| && AllUnscanned(want, lines)
    ensures ReadFile(want, Joined(lines)[..n]) == None
  {
    var k, m := CutLines(lines, n);
    var kinds := Classified(want, lines[..k]);
    forall i | 0 <= i < k ensures !kinds[i].IsScanned? {
      UnscannedWhole(want, lines[i]);
    }
    NothingFolded(BLANK, kinds);
    LinesAreRead(BLANK, want, lines[..k], lines[k][..m]);
    PieceScansNothing(Fold(BLANK, kinds), want, lines[k], m);
  }

  lemma PieceScansNothing(r: Reading, want: Identity, line: string, n: nat)
    requires !r.scannedSeen && Clean(line) && Unscanned(want, line) && n <= |line|
    ensures Accept(FeedAll(r, want, line[..n])) == None
  {
    PieceIsRead(r, want, line[..n]);
    assert !Classify(want, TrimEnd(line[..n])).IsScanned?;
  }

  // ------------------------------------------------------------------ the cut in the header

  lemma HeaderParts(id: Identity, cache: Cache)
    ensures FileText(id, cache)
            == Joined(FirstFour(id)) + (ScannedLine(cache.scanned) + ("\n" + Joined(RowLines(cache.rows))))
  {
    var four, rows := FirstFour(id), RowLines(cache.rows);
    assert FileLines(id, cache) == four + ([ScannedLine(cache.scanned)] + rows);
    JoinedConcat(four, [ScannedLine(cache.scanned)] + rows);
    assert ([ScannedLine(cache.scanned)] + rows)[1..] == rows;
  }

  lemma FourAreClean(want: Identity, id: Identity)
    requires CleanIdentity(id)
    ensures AllUnscanned(want, FirstFour(id))
  {
    Marks(id, 1);
    NotScanned(want, TITLE);
    NotScanned(want, CaptureLine(id));
    NotScanned(want, EngineLine(id));
    NotScanned(want, BoundLine(id));
    assert Clean(TITLE);
  }

  /** Nothing is accepted that was cut before the scanned line. */
  lemma CutBeforeScanned(want: Identity, id: Identity, cache: Cache, n: nat)
    requires CleanIdentity(id) && n < |Joined(FirstFour(id))|
    ensures n <= |FileText(id, cache)| && ReadFile(want, FileText(id, cache)[..n]) == None
  {
    HeaderParts(id, cache);
    FourAreClean(want, id);
    NothingScanned(want, FirstFour(id), n);
    CutFirst(Joined(FirstFour(id)), ScannedLine(cache.scanned) + ("\n" + Joined(RowLines(cache.rows))), n);
  }

  /** What the first four lines leave known. */
  function FourKnown(want: Identity, id: Identity): Reading {
    Known(want, id, Cache([], 0)).(scannedSeen := false)
  }

  lemma FourThenPiece(want: Identity, id: Identity, piece: string)
    requires CleanIdentity(id) && '\n' !in piece && |piece| <= 1023
    ensures FeedAll(BLANK, want, Joined(FirstFour(id)) + piece)
            == if piece == "" then FourKnown(want, id) else Apply(FourKnown(want, id), Classify(want, TrimEnd(piece)))
  {
    var kinds := Classified(want, FirstFour(id));
    FourAreClean(want, id);
    LinesAreRead(BLANK, want, FirstFour(id), piece);
    HeaderIsRead(want, id, 1);
    FoldFour(want, id, kinds);
    PieceIsRead(FourKnown(want, id), want, piece);
  }

  lemma FoldFour(want: Identity, id: Identity, kinds: seq<Line>)
    requires |kinds| == 4 && kinds[0] == Ignored
    requires kinds[1] == if id.capture == want.capture then IsCapture else Ignored
    requires kinds[2] == if id.engine == want.engine then IsEngine else Ignored
    requires kinds[3] == if id.bound == want.bound then IsBound else Ignored
    ensures Fold(BLANK, kinds) == FourKnown(want, id)
  {
    assert kinds[1..][1..] == kinds[2..] && kinds[2..][1..] == kinds[3..] && kinds[3..][1..] == [];
    var r2 := Apply(Apply(BLANK, kinds[0]), kinds[1]);
    assert Fold(BLANK, kinds) == Fold(Apply(BLANK, kinds[0]), kinds[1..]) == Fold(r2, kinds[2..]);
    var r4 := Apply(Apply(r2, kinds[2]), kinds[3]);
    assert Fold(r2, kinds[2..]) == Fold(Apply(r2, kinds[2]), kinds[3..]) == Fold(r4, []);
  }

  lemma CutBehindFour(id: Identity, cache: Cache, n: nat)
    requires |Joined(FirstFour(id))| <= n < RowStart(id, cache, 0)
    ensures n < |FileText(id, cache)|
    ensures FileText(id, cache)[..n] == Joined(FirstFour(id)) + ScannedLine(cache.scanned)[..n - |Joined(FirstFour(id))|]
  {
    HeaderParts(id, cache);
    CutOfThree(Joined(FirstFour(id)), ScannedLine(cache.scanned), "\n" + Joined(RowLines(cache.rows)),
               n - |Joined(FirstFour(id))|);
  }

  lemma CutOfThree(x: string, y: string, z: string, m: nat)
    requires m <= |y|
    ensures (x + (y + z))[..|x| + m] == x + y[..m]
  {
  }

  /** The scanned line stopped before its number: it names no prefix. */
  lemma NoNumber(want: Identity, scanned: int, m: nat)
    requires m <= |SCANNED|
    ensures m <= |ScannedLine(scanned)| && !Classify(want, TrimEnd(ScannedLine(scanned)[..m])).IsScanned?
  {
    assert ScannedLine(scanned)[..m] == SCANNED[..m];
    Bare(want, SCANNED[..m]);
  }

  lemma Bare(want: Identity, text: string)
    requires text <= SCANNED
    ensures !Classify(want, TrimEnd(text)).IsScanned?
  {
    var t := TrimEnd(text);
    if "# scanned:" <= t {
      assert |t| <= 11;
      assert t[10..] == "" || t[10..] == " ";
      assert " "[1..] == "";
      assert SkipSpaces(t[10..]) == "";
    }
  }

  /** The scanned line stopped in its number: it names the prefix of the digits that are there. */
  lemma ShortScanned(scanned: int, m: nat) returns (short: int)
    requires 0 < scanned < 0x8000_0000 && |SCANNED| < m <= |ScannedLine(scanned)|
    ensures 0 < short <= scanned && ScannedLine(short) == ScannedLine(scanned)[..m]
    ensures m - |SCANNED| <= |NatText(scanned)| && short == FirstDigits(scanned, m - |SCANNED|)
    ensures short == scanned <==> m == |ScannedLine(scanned)|
  {
    var v := ShortNumber(scanned, m - |SCANNED|);
    short := v;
    assert ScannedLine(scanned)[..m] == SCANNED + NatText(scanned)[..m - |SCANNED|];
  }

  lemma CutInScanned(want: Identity, id: Identity, cache: Cache, n: nat)
    requires CleanIdentity(id) && CleanCache(cache) && |Joined(FirstFour(id))| <= n <= ScannedAt(id)
    ensures n <= |FileText(id, cache)| && ReadFile(want, FileText(id, cache)[..n]) == None
  {
    var m := n - |Joined(FirstFour(id))|;
    NoNumber(want, cache.scanned, m);
    CutBehindFour(id, cache, n);
    ScannedIsClean(cache.scanned);
    FourThenUnscanned(want, id, ScannedLine(cache.scanned)[..m]);
  }

  lemma FourThenUnscanned(want: Identity, id: Identity, piece: string)
    requires CleanIdentity(id) && '\n' !in piece && |piece| <= 1023 && !Classify(want, TrimEnd(piece)).IsScanned?
    ensures ReadFile(want, Joined(FirstFour(id)) + piece) == None
  {
    FourThenPiece(want, id, piece);
    StaysUnscanned(FourKnown(want, id), Classify(want, TrimEnd(piece)));
  }

  lemma StaysUnscanned(r: Reading, line: Line)
    requires !r.scannedSeen && !line.IsScanned?
    ensures Accept(r) == None && Accept(Apply(r, line)) == None
  {
  }

  /** A cut in the scanned number is the file of a sweep that found nothing, over a shorter prefix. */
  lemma CutInNumber(want: Identity, id: Identity, cache: Cache, m: nat, text: string) returns (answer: Cache)
    requires CleanIdentity(id) && CleanCache(cache) && |SCANNED| < m <= |ScannedLine(cache.scanned)|
    requires text == Joined(FirstFour(id)) + ScannedLine(cache.scanned)[..m]
    ensures text + "\n" == FileText(id, answer) && ReadFile(want, text) == if want == id then Some(answer) else None
    ensures CleanCache(answer) && answer.rows == []
    ensures m - |SCANNED| <= |NatText(cache.scanned)| && answer.scanned == FirstDigits(cache.scanned, m - |SCANNED|)
    ensures answer.scanned == cache.scanned <==> m == |ScannedLine(cache.scanned)|
  {
    var short := ShortScanned(cache.scanned, m);
    answer := Cache([], short);
    FileOfNone(id, short);
    NumberIsRead(want, id, short);
  }

  lemma FileOfNone(id: Identity, scanned: int)
    ensures FileText(id, Cache([], scanned)) == (Joined(FirstFour(id)) + ScannedLine(scanned)) + "\n"
  {
    HeaderParts(id, Cache([], scanned));
    assert "\n" + Joined(RowLines([])) == "\n";
    Assoc(Joined(FirstFour(id)), ScannedLine(scanned), "\n");
  }

  lemma NumberIsRead(want: Identity, id: Identity, scanned: int)
    requires CleanIdentity(id) && 0 < scanned < 0x8000_0000
    ensures ReadFile(want, Joined(FirstFour(id)) + ScannedLine(scanned)) == if want == id then Some(Cache([], scanned)) else None
  {
    ScannedIsClean(scanned);
    HeaderIsRead(want, id, scanned);
    FourThenPiece(want, id, ScannedLine(scanned));
    assert TrimEnd(ScannedLine(scanned)) == ScannedLine(scanned);
  }

  // ------------------------------------------------------------------ the cut among the rows

  /** A whole file with a piece of a line behind it. */
  lemma FileThenPiece(want: Identity, id: Identity, cache: Cache, piece: string, kind: Line)
    requires CleanIdentity(id) && CleanCache(cache) && '\n' !in piece && |piece| <= 1023
    requires piece != "" && kind == Classify(want, TrimEnd(piece))
    ensures ReadFile(want, FileText(id, cache) + piece) == Accept(Apply(Known(want, id, cache), kind))
  {
    FileLinesAreClean(want, id, cache);
    LinesAreRead(BLANK, want, FileLines(id, cache), piece);
    FileIsFolded(want, id, cache);
    PieceIsRead(Known(want, id, cache), want, piece);
  }

  /** A row's line stopped before its last field has the whole file refused. */
  lemma CutInRow(want: Identity, id: Identity, cache: Cache, row: Row, m: nat, piece: string)
    requires CleanIdentity(id) && CleanCache(cache) && CleanRow(row)
    requires 0 < m <= |RowHead(row)| && m <= |RowLine(row)| && piece == RowLine(row)[..m]
    ensures ReadFile(want, FileText(id, cache) + piece) == None
  {
    PieceIsNoRow(want, row, m, piece);
    FileThenPiece(want, id, cache, piece, NoRow);
  }

  lemma PieceIsNoRow(want: Identity, row: Row, m: nat, piece: string)
    requires CleanRow(row) && 0 < m <= |RowHead(row)| && m <= |RowLine(row)| && piece == RowLine(row)[..m]
    ensures '\n' !in piece && |piece| <= 1023 && piece != "" && Classify(want, TrimEnd(piece)) == NoRow
  {
    RowLineParts(row);
    PieceOfRow(row, m);
    ShortRowFails(row, m);
  }

  lemma PieceOfRow(row: Row, m: nat)
    requires CleanRow(row) && 0 < m <= |RowLine(row)|
    ensures var piece := RowLine(row)[..m];
            '\n' !in piece && |piece| <= 1023 && TrimEnd(piece) == piece && piece != "" && !("# " <= piece)
  {
    RowLineIsClean(row);
    RowInLine(row);
    IntInLine(row.eid);
    assert RowLine(row)[0] == IntText(row.eid)[0];
  }

  lemma RowInLine(row: Row)
    requires CleanRow(row)
    ensures InLine(RowLine(row))
  {
    IntInLine(row.eid);
    IntInLine(row.shaders);
    IntInLine(row.params);
    assert InLine(row.rootSig);
  }

  /** One stopped behind a digit of it is read as a row: its own only when nothing of it is missing. */
  lemma CutInLastField(want: Identity, id: Identity, cache: Cache, row: Row, m: nat) returns (short: Row)
    requires CleanIdentity(id) && CleanCache(cache) && CleanRow(row) && |RowHead(row)| < m <= |RowLine(row)|
    ensures CleanRow(short) && RowLine(short) == RowLine(row)[..m] && (short == row <==> m == |RowLine(row)|)
    ensures ReadFile(want, FileText(id, cache) + RowLine(row)[..m])
            == if want == id then Some(Cache(cache.rows + [short], cache.scanned)) else None
  {
    short := ShortRow(row, m);
    PieceOfRow(row, m);
    RowLineIsRow(want, short);
    FileThenPiece(want, id, cache, RowLine(short), IsRow(short));
  }

  // ------------------------------------------------------------------ any cut

  lemma FileNext(id: Identity, cache: Cache, k: nat)
    requires k < |cache.rows|
    ensures FileText(id, Upto(cache, k + 1)) == FileText(id, Upto(cache, k)) + (RowLine(cache.rows[k]) + "\n")
  {
    var row := cache.rows[k];
    assert cache.rows[..k + 1] == cache.rows[..k] + [row];
    FileTextSplit(id, cache.scanned, cache.rows[..k], [row]);
    assert [row][1..] == [] && RowLines([]) == [] && RowLines([row]) == [RowLine(row)];
    assert [RowLine(row)][1..] == [] && Joined([]) == "";
    assert "\n" + "" == "\n";
  }

  lemma FileGrows(id: Identity, cache: Cache, k: nat)
    requires 0 < k <= |cache.rows|
    ensures |FileText(id, Upto(cache, k))| == |FileText(id, Upto(cache, k - 1))| + |RowLine(cache.rows[k - 1])| + 1
  {
    FileNext(id, cache, k - 1);
  }

  lemma {:induction false} PlaceIs(first: nat, sizes: seq<nat>, ends: seq<nat>, k: nat)
    requires |ends| == |sizes| + 1 && k <= |sizes| && ends[0] == first
    requires forall j | 0 < j <= |sizes| :: ends[j] == ends[j - 1] + sizes[j - 1]
    ensures ends[k] == Place(first, sizes, k)
  {
    if k > 0 {
      PlaceIs(first, sizes, ends, k - 1);
    }
  }

  /** The file of the first `k` rows ends where row `k` begins. */
  lemma RowStartIs(id: Identity, cache: Cache, k: nat)
    requires k <= |cache.rows|
    ensures |FileText(id, Upto(cache, k))| == RowStart(id, cache, k)
  {
    var ends: seq<nat> := seq(|cache.rows| + 1, j requires 0 <= j <= |cache.rows| => |FileText(id, Upto(cache, j))|);
    var sizes := Sizes(cache.rows);
    HeaderParts(id, Upto(cache, 0));
    forall j | 0 < j <= |sizes| ensures ends[j] == ends[j - 1] + sizes[j - 1] {
      FileGrows(id, cache, j);
    }
    PlaceIs(HeaderEnd(id, cache.scanned), sizes, ends, k);
  }

  lemma RowsBegin(id: Identity, cache: Cache, k: nat)
    requires k <= |cache.rows|
    ensures HeaderEnd(id, cache.scanned) + k <= RowStart(id, cache, k)
  {
    PlacesGrow(HeaderEnd(id, cache.scanned), Sizes(cache.rows), 0, k);
  }

  /** No place of row `p`, nor its beginning, lies in another row. */
  lemma InOneRow(id: Identity, cache: Cache, n: nat, p: nat)
    requires p <= |cache.rows| && n > ScannedAt(id) && RowStart(id, cache, p) <= n
    requires p < |cache.rows| ==> n < RowStart(id, cache, p + 1)
    requires p == |cache.rows| ==> n == RowStart(id, cache, p)
    ensures CutInside(id, cache, n)
            <==> p < |cache.rows| && RowStart(id, cache, p) < n <= RowStart(id, cache, p) + |RowHead(cache.rows[p])|
  {
    forall k: nat | k < |cache.rows| && k != p
      ensures !(RowStart(id, cache, k) < n <= RowStart(id, cache, k) + |RowHead(cache.rows[k])|)
    {
      NotInPiece(HeaderEnd(id, cache.scanned), Sizes(cache.rows), n, p, k);
      RowLineParts(cache.rows[k]);
    }
  }

  lemma CleanUpto(cache: Cache, k: nat)
    requires CleanCache(cache) && k <= |cache.rows|
    ensures CleanCache(Upto(cache, k))
  {
  }

  /** The cut text behind the header. */
  lemma CutAmongRows(id: Identity, cache: Cache, n: nat, p: nat, m: nat)
    requires p < |cache.rows| && n == RowStart(id, cache, p) + m && m <= |RowLine(cache.rows[p])|
    ensures n <= |FileText(id, cache)|
    ensures FileText(id, cache)[..n] == FileText(id, Upto(cache, p)) + RowLine(cache.rows[p])[..m]
  {
    var line := RowLine(cache.rows[p]);
    FileNext(id, cache, p);
    RowStartIs(id, cache, p);
    var more := RestBehind(id, cache, p + 1);
    CutFirst(FileText(id, Upto(cache, p + 1)), more, n);
    CutSecond(FileText(id, Upto(cache, p)), line + "\n", n);
    CutFirst(line, "\n", m);
  }

  lemma RestBehind(id: Identity, cache: Cache, k: nat) returns (more: string)
    requires k <= |cache.rows|
    ensures FileText(id, cache) == FileText(id, Upto(cache, k)) + more
  {
    assert cache.rows == cache.rows[..k] + cache.rows[k..];
    FileTextSplit(id, cache.scanned, cache.rows[..k], cache.rows[k..]);
    more := Joined(RowLines(cache.rows[k..]));
  }

  lemma WholeStart(id: Identity, cache: Cache)
    ensures RowStart(id, cache, |cache.rows|) == |FileText(id, cache)| && Upto(cache, |cache.rows|) == cache
  {
    RowStartIs(id, cache, |cache.rows|);
    assert cache.rows[..|cache.rows|] == cache.rows;
  }

  /** What a file cut behind its `n`th character answers. */
  lemma CutAnswer(want: Identity, id: Identity, cache: Cache, n: nat) returns (answer: Option<Cache>)
    requires CleanIdentity(id) && CleanCache(cache) && n <= |FileText(id, cache)|
    ensures ReadFile(want, FileText(id, cache)[..n]) == if want == id then answer else None
    ensures answer == None <==> CutInside(id, cache, n)
    ensures answer.Some? ==> CleanCache(answer.value) && IsFileOf(FileText(id, cache)[..n], id, answer.value)
    ensures answer == Some(cache) <==> n + 1 >= |FileText(id, cache)|
    ensures answer.Some? ==> answer.value == (if InNumber(id, cache, n) then Cache([], ShortScan(id, cache, n))
                                              else Cache(answer.value.rows, cache.scanned))
  {
    WholeStart(id, cache);
    RowsBegin(id, cache, |cache.rows|);
    if n < RowStart(id, cache, 0) {
      answer := AnswerInHeader(want, id, cache, n);
    } else {
      answer := AnswerAmongRows(want, id, cache, n);
    }
  }

  /** Behind the scanned number's first digit and before the first row. */
  predicate InNumber(id: Identity, cache: Cache, n: nat) {
    ScannedAt(id) < n < RowStart(id, cache, 0)
  }

  /** The scanned number that is left then. */
  function ShortScan(id: Identity, cache: Cache, n: nat): nat
    requires cache.scanned > 0 && InNumber(id, cache, n)
  {
    FirstDigits(cache.scanned, n - ScannedAt(id))
  }

  lemma AnswerInHeader(want: Identity, id: Identity, cache: Cache, n: nat) returns (answer: Option<Cache>)
    requires CleanIdentity(id) && CleanCache(cache) && n < RowStart(id, cache, 0)
    ensures n <= |FileText(id, cache)|
    ensures ReadFile(want, FileText(id, cache)[..n]) == if want == id then answer else None
    ensures answer == None <==> CutInside(id, cache, n)
    ensures answer.Some? ==> CleanCache(answer.value) && IsFileOf(FileText(id, cache)[..n], id, answer.value)
    ensures answer == Some(cache) <==> n + 1 >= |FileText(id, cache)|
    ensures answer.Some? ==> InNumber(id, cache, n) && answer.value == Cache([], ShortScan(id, cache, n))
  {
    HeaderInside(id, cache, n);
    if n <= ScannedAt(id) {
      NoAnswerBefore(want, id, cache, n);
      answer := None;
    } else {
      answer := AnswerInNumber(want, id, cache, n);
    }
  }

  lemma NoAnswerBefore(want: Identity, id: Identity, cache: Cache, n: nat)
    requires CleanIdentity(id) && CleanCache(cache) && n <= ScannedAt(id)
    ensures n <= |FileText(id, cache)| && ReadFile(want, FileText(id, cache)[..n]) == None
  {
    var four := |Joined(FirstFour(id))|;
    if n < four {
      CutBeforeScanned(want, id, cache, n);
    } else {
      CutInScanned(want, id, cache, n);
    }
  }

  lemma HeaderInside(id: Identity, cache: Cache, n: nat)
    requires n < RowStart(id, cache, 0)
    ensures n < |FileText(id, cache)|
    ensures n <= ScannedAt(id) ==> n + 1 < |FileText(id, cache)| && CutInside(id, cache, n)
  {
    WholeStart(id, cache);
    RowsBegin(id, cache, |cache.rows|);
  }

  lemma AnswerInNumber(want: Identity, id: Identity, cache: Cache, n: nat) returns (answer: Option<Cache>)
    requires CleanIdentity(id) && CleanCache(cache) && ScannedAt(id) < n < RowStart(id, cache, 0)
    requires n <= |FileText(id, cache)|
    ensures ReadFile(want, FileText(id, cache)[..n]) == if want == id then answer else None
    ensures answer == None <==> CutInside(id, cache, n)
    ensures answer.Some? ==> CleanCache(answer.value) && IsFileOf(FileText(id, cache)[..n], id, answer.value)
    ensures answer == Some(cache) <==> n + 1 >= |FileText(id, cache)|
    ensures answer == Some(Cache([], ShortScan(id, cache, n)))
  {
    CutBehindFour(id, cache, n);
    var short := CutInNumber(want, id, cache, n - |Joined(FirstFour(id))|, FileText(id, cache)[..n]);
    NotAmongRows(id, cache, n);
    LastOfHeader(id, cache, n, short);
    answer := Some(short);
  }

  lemma NotAmongRows(id: Identity, cache: Cache, n: nat)
    requires ScannedAt(id) < n < RowStart(id, cache, 0)
    ensures !CutInside(id, cache, n)
  {
    forall k: nat | k < |cache.rows| ensures n <= RowStart(id, cache, k) {
      RowsBegin(id, cache, k);
    }
  }

  /** In the header the whole answer is left only when there is no row, and the cut takes the last newline alone. */
  lemma LastOfHeader(id: Identity, cache: Cache, n: nat, short: Cache)
    requires n < RowStart(id, cache, 0) && short.rows == []
    requires short.scanned == cache.scanned <==> n + 1 == RowStart(id, cache, 0)
    ensures short == cache <==> n + 1 >= |FileText(id, cache)|
  {
    WholeStart(id, cache);
    RowsBegin(id, cache, |cache.rows|);
  }

  lemma AnswerAmongRows(want: Identity, id: Identity, cache: Cache, n: nat) returns (answer: Option<Cache>)
    requires CleanIdentity(id) && CleanCache(cache) && RowStart(id, cache, 0) <= n <= |FileText(id, cache)|
    ensures ReadFile(want, FileText(id, cache)[..n]) == if want == id then answer else None
    ensures answer == None <==> CutInside(id, cache, n)
    ensures answer.Some? ==> CleanCache(answer.value) && IsFileOf(FileText(id, cache)[..n], id, answer.value)
    ensures answer == Some(cache) <==> n + 1 >= |FileText(id, cache)|
    ensures answer.Some? ==> answer.value.scanned == cache.scanned
  {
    WholeStart(id, cache);
    var p := PieceOf(HeaderEnd(id, cache.scanned), Sizes(cache.rows), n, |cache.rows|);
    if p == |cache.rows| {
      answer := AnswerOfWhole(want, id, cache);
    } else {
      answer := AnswerAt(want, id, cache, n, p);
    }
  }

  lemma AnswerOfWhole(want: Identity, id: Identity, cache: Cache) returns (answer: Option<Cache>)
    requires CleanIdentity(id) && CleanCache(cache)
    ensures var n := |FileText(id, cache)|;
            && ReadFile(want, FileText(id, cache)[..n]) == (if want == id then answer else None)
            && FileText(id, cache)[..n] == FileText(id, cache) && !CutInside(id, cache, n)
    ensures answer == Some(cache)
  {
    var text := FileText(id, cache);
    assert text[..|text|] == text;
    FileReadsBack(want, id, cache);
    WholeStart(id, cache);
    RowsBegin(id, cache, |cache.rows|);
    InOneRow(id, cache, |text|, |cache.rows|);
    answer := Some(cache);
  }

  lemma AnswerAt(want: Identity, id: Identity, cache: Cache, n: nat, p: nat) returns (answer: Option<Cache>)
    requires CleanIdentity(id) && CleanCache(cache) && p < |cache.rows| && n <= |FileText(id, cache)|
    requires RowStart(id, cache, p) <= n < RowStart(id, cache, p + 1)
    ensures ReadFile(want, FileText(id, cache)[..n]) == if want == id then answer else None
    ensures answer == None <==> CutInside(id, cache, n)
    ensures answer.Some? ==> CleanCache(answer.value) && IsFileOf(FileText(id, cache)[..n], id, answer.value)
    ensures answer == Some(cache) <==> n + 1 >= |FileText(id, cache)|
    ensures answer.Some? ==> answer.value.scanned == cache.scanned
  {
    answer := ReadAt(want, id, cache, n, p, n - RowStart(id, cache, p));
    LastOfRows(id, cache, n, p);
    PlaceInRow(id, cache, n, p);
  }

  lemma ReadAt(want: Identity, id: Identity, cache: Cache, n: nat, p: nat, m: nat) returns (answer: Option<Cache>)
    requires CleanIdentity(id) && CleanCache(cache) && p < |cache.rows| && n <= |FileText(id, cache)|
    requires n == RowStart(id, cache, p) + m && m <= |RowLine(cache.rows[p])|
    ensures ReadFile(want, FileText(id, cache)[..n]) == if want == id then answer else None
    ensures answer.Some? ==> CleanCache(answer.value) && answer.value.scanned == cache.scanned
    ensures answer.Some? ==> IsFileOf(FileText(id, cache)[..n], id, answer.value)
    ensures answer == None <==> 0 < m <= |RowHead(cache.rows[p])|
    ensures answer == Some(cache) <==> p + 1 == |cache.rows| && m == |RowLine(cache.rows[p])|
  {
    CutAmongRows(id, cache, n, p, m);
    answer := AnswerInRow(want, id, cache, p, m, FileText(id, cache)[..n]);
  }

  lemma PlaceInRow(id: Identity, cache: Cache, n: nat, p: nat)
    requires p < |cache.rows| && RowStart(id, cache, p) <= n < RowStart(id, cache, p + 1)
    ensures CutInside(id, cache, n) <==> 0 < n - RowStart(id, cache, p) <= |RowHead(cache.rows[p])|
  {
    RowsBegin(id, cache, p);
    InOneRow(id, cache, n, p);
  }

  /** Only the last row can be whole without its newline. */
  lemma LastOfRows(id: Identity, cache: Cache, n: nat, p: nat)
    requires p < |cache.rows| && RowStart(id, cache, p) <= n < RowStart(id, cache, p + 1)
    ensures n + 1 >= |FileText(id, cache)|
            <==> p + 1 == |cache.rows| && n - RowStart(id, cache, p) == |RowLine(cache.rows[p])|
  {
    WholeStart(id, cache);
    LastPlace(HeaderEnd(id, cache.scanned), Sizes(cache.rows), n, p);
  }

  lemma AnswerInRow(want: Identity, id: Identity, cache: Cache, p: nat, m: nat, text: string) returns (answer: Option<Cache>)
    requires CleanIdentity(id) && CleanCache(cache) && p < |cache.rows| && m <= |RowLine(cache.rows[p])|
    requires text == FileText(id, Upto(cache, p)) + RowLine(cache.rows[p])[..m]
    ensures ReadFile(want, text) == if want == id then answer else None
    ensures answer.Some? ==>
              CleanCache(answer.value) && answer.value.scanned == cache.scanned && IsFileOf(text, id, answer.value)
    ensures answer == None <==> 0 < m <= |RowHead(cache.rows[p])|
    ensures answer == Some(cache) <==> p + 1 == |cache.rows| && m == |RowLine(cache.rows[p])|
  {
    var row, before := cache.rows[p], Upto(cache, p);
    CleanUpto(cache, p);
    RowLineParts(row);
    if m == 0 {
      FileReadsBack(want, id, before);
      assert text == FileText(id, before);
      answer := Some(before);
    } else if m <= |RowHead(row)| {
      CutInRow(want, id, before, row, m, RowLine(row)[..m]);
      answer := None;
    } else {
      var short := CutInLastField(want, id, before, row, m);
      OneMore(id, before, short);
      SameRows(cache, p, short);
      answer := Some(Cache(before.rows + [short], cache.scanned));
    }
  }

  lemma OneMore(id: Identity, cache: Cache, row: Row)
    ensures FileText(id, Cache(cache.rows + [row], cache.scanned)) == (FileText(id, cache) + RowLine(row)) + "\n"
  {
    var more := Cache(cache.rows + [row], cache.scanned);
    FileNext(id, more, |cache.rows|);
    assert more.rows[..|cache.rows|] == cache.rows && more.rows[..|more.rows|] == more.rows;
    Assoc(FileText(id, cache), RowLine(row), "\n");
  }

  lemma SameRows(cache: Cache, p: nat, row: Row)
    requires p < |cache.rows|
    ensures cache.rows[..p] + [row] == cache.rows <==> p + 1 == |cache.rows| && row == cache.rows[p]
  {
    if cache.rows[..p] + [row] == cache.rows {
      assert (cache.rows[..p] + [row])[p] == row;
    }
  }

  // ------------------------------------------------------------------ the results

  /** A short file is refused exactly when it was cut in front of the first digit of its scanned number, or inside a
      row in front of the first digit of its last field; or when the reader wants another identity's answer. */
  lemma CutFileIsRefused(want: Identity, id: Identity, cache: Cache, n: nat)
    requires CleanIdentity(id) && CleanCache(cache) && n <= |FileText(id, cache)|
    ensures ReadFile(want, FileText(id, cache)[..n]) == None <==> want != id || CutInside(id, cache, n)
  {
    var answer := CutAnswer(want, id, cache, n);
  }

  /** What it answers when it is not: the cache whose own file it is, but for a last newline. */
  lemma CutFileAnswers(id: Identity, cache: Cache, n: nat, answer: Cache)
    requires CleanIdentity(id) && CleanCache(cache) && n <= |FileText(id, cache)|
    ensures ReadFile(id, FileText(id, cache)[..n]) == Some(answer)
            <==> CleanCache(answer) && IsFileOf(FileText(id, cache)[..n], id, answer)
  {
    var given := CutAnswer(id, id, cache, n);
    if CleanCache(answer) && IsFileOf(FileText(id, cache)[..n], id, answer) {
      FileMeans(id, FileText(id, cache)[..n], answer);
    }
  }

  lemma FileMeans(id: Identity, text: string, cache: Cache)
    requires CleanIdentity(id) && CleanCache(cache) && IsFileOf(text, id, cache)
    ensures ReadFile(id, text) == Some(cache)
  {
    var whole := FileText(id, cache);
    if text == whole {
      FileReadsBack(id, id, cache);
    } else {
      var given := CutAnswer(id, id, cache, |text|);
      assert whole[..|text|] == text;
    }
  }

  /** It gives the answer that was written exactly when at most the last newline is missing. */
  lemma CutFileIsWhole(id: Identity, cache: Cache, n: nat)
    requires CleanIdentity(id) && CleanCache(cache) && n <= |FileText(id, cache)|
    ensures ReadFile(id, FileText(id, cache)[..n]) == Some(cache) <==> n + 1 >= |FileText(id, cache)|
  {
    var answer := CutAnswer(id, id, cache, n);
  }

  lemma TwoDigits(n: nat, d: nat)
    requires 0 < n < 10 && d < 10
    ensures NatText(10 * n + d) == NatText(n) + [DigitOf(d)]
  {
  }

  /** An input: two characters short, and the last row has another number of parameters. */
  lemma ShortRowMisleads(id: Identity)
    requires CleanIdentity(id)
    ensures var text := FileText(id, Cache([Row(1, 1, "7", 15)], 1));
            ReadFile(id, text[..|text| - 2]) == Some(Cache([Row(1, 1, "7", 1)], 1))
  {
    var row, short := Row(1, 1, "7", 15), Row(1, 1, "7", 1);
    var text := FileText(id, Cache([row], 1));
    assert [] + [row] == [row] && [] + [short] == [short];
    OneMore(id, Cache([], 1), row);
    OneMore(id, Cache([], 1), short);
    LongerRow(row, short);
    TwoShort(FileText(id, Cache([], 1)), RowLine(short), '5', text);
    FileMeans(id, text[..|text| - 2], Cache([short], 1));
  }

  lemma TwoShort(before: string, line: string, last: char, text: string)
    requires text == (before + (line + [last])) + "\n"
    ensures |text| >= 2 && text[..|text| - 2] + "\n" == (before + line) + "\n"
  {
    assert text[..|text| - 2] == before + line;
  }

  lemma LongerRow(row: Row, short: Row)
    requires row == Row(1, 1, "7", 15) && short == Row(1, 1, "7", 1)
    ensures RowLine(row) == RowLine(short) + ['5'] && CleanRow(short)
  {
    RowLineParts(row);
    RowLineParts(short);
    TwoDigits(1, 5);
    assert RowHead(row) == RowHead(short);
    Assoc(RowHead(short), NatText(1), ['5']);
    assert |IntText(1)| == 1 && |RowLine(short)| == 7;
  }

  lemma TwelveIsLonger()
    ensures ScannedLine(12) == ScannedLine(1) + ['2'] && |ScannedLine(1)| == 12
  {
    TwoDigits(1, 2);
    assert ScannedLine(12) == "# scanned: " + (NatText(1) + ['2']);
  }

  /** Another: cut in the scanned number, and the file claims that the sweep ended with the first id. */
  lemma ShortNumberMisleads(id: Identity, rows: seq<Row>)
    requires CleanIdentity(id) && CleanCache(Cache(rows, 12))
    ensures var text := FileText(id, Cache(rows, 12));
            ScannedAt(id) + 1 <= |text| && ReadFile(id, text[..ScannedAt(id) + 1]) == Some(Cache([], 1))
  {
    TwelveIsLonger();
    CutBehindFour(id, Cache(rows, 12), ScannedAt(id) + 1);
    FileOfNone(id, 1);
    FileMeans(id, FileText(id, Cache(rows, 12))[..ScannedAt(id) + 1], Cache([], 1));
  }

  /** A file with no rows is accepted. */
  lemma NoRowsAreAccepted(id: Identity, scanned: int)
    requires CleanIdentity(id) && 0 < scanned < 0x8000_0000
    ensures ReadFile(id, FileText(id, Cache([], scanned))) == Some(Cache([], scanned))
  {
    FileReadsBack(id, id, Cache([], scanned));
  }
}
