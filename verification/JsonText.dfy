/**
 A reader of JSON texts after RFC 8259, sections 2 to 7, and the escaping of strings.  What the reader
 accepts it reads as the standard says.  It refuses what the writer never prints: fractions, exponents
 and `\u` escapes above 007F.  One `char` stands for one byte of the text.
 */
module JsonText {
  import opened Decimal

  datatype Json =
    | JString(text: string)
    | JNumber(value: int)
    | JBool(holds: bool)
    | JNull
    | JArray(items: seq<Json>)
    | JObject(members: seq<(string, Json)>)

  datatype Parsed<+T> = Refused | Read(value: T, rest: string)

  predicate IsSpace(c: char) {
    c == ' ' || c == '\t' || c == '\n' || c == '\r'
  }

  function SkipSpace(s: string): (rest: string)
    ensures |rest| <= |s| && (rest != "" ==> !IsSpace(rest[0]))
  {
    if s != "" && IsSpace(s[0]) then SkipSpace(s[1..]) else s
  }

  function HexValue(c: char): int {
    if IsDigit(c) then DigitValue(c)
    else if 'a' <= c <= 'f' then c as int - 87
    else if 'A' <= c <= 'F' then c as int - 55
    else -1
  }

  /** The character a two-character escape stands for. */
  function Unescape(c: char): Parsed<char> {
    match c
    case '"' => Read('"', "") case '\\' => Read('\\', "") case '/' => Read('/', "")
    case 'b' => Read('\U{0008}', "") case 'f' => Read('\U{000C}', "") case 'n' => Read('\n', "")
    case 'r' => Read('\r', "") case 't' => Read('\t', "")
    case _ => Refused
  }

  /** The characters of a string up to its closing quotation mark (section 7). */
  function ReadChars(s: string): (r: Parsed<string>)
    ensures r.Read? ==> |r.rest| < |s|
  {
    if s == "" || s[0] < ' ' then Refused
    else if s[0] == '"' then Read("", s[1..])
    else if s[0] != '\\' then Prefixed(s[0], ReadChars(s[1..]))
    else if |s| >= 6 && s[1] == 'u' then
      if s[2] == '0' && s[3] == '0' && 0 <= HexValue(s[4]) < 8 && 0 <= HexValue(s[5])
      then Prefixed((HexValue(s[4]) * 16 + HexValue(s[5])) as char, ReadChars(s[6..]))
      else Refused
    else if |s| >= 2 && Unescape(s[1]).Read? then Prefixed(Unescape(s[1]).value, ReadChars(s[2..]))
    else Refused
  }

  function Prefixed(c: char, r: Parsed<string>): Parsed<string> {
    if r.Read? then Read([c] + r.value, r.rest) else Refused
  }

  /** An integer without leading zeros that is not the start of a fraction (section 6). */
  function ReadNat(s: string): (r: Parsed<int>)
    ensures r.Read? ==> |r.rest| < |s|
  {
    var n := DigitRun(s);
    if n == 0 || (n > 1 && s[0] == '0') || (n < |s| && s[n] in ".eE") then Refused
    else Read(NatValue(s[..n]), s[n..])
  }

  function ReadNumber(s: string): (r: Parsed<int>)
    ensures r.Read? ==> |r.rest| < |s|
  {
    if s != "" && s[0] == '-' then
      var r := ReadNat(s[1..]);
      if r.Read? then Read(-r.value, r.rest) else Refused
    else ReadNat(s)
  }

  /** A value, with no whitespace in front of it (section 3). */
  function ReadValue(s: string): (r: Parsed<Json>)
    ensures r.Read? ==> |r.rest| < |s|
    decreases |s|, 0
  {
    if s == "" then Refused
    else match s[0]
      case '"' =>
        var r := ReadChars(s[1..]);
        if r.Read? then Read(JString(r.value), r.rest) else Refused
      case '{' =>
        var inner := SkipSpace(s[1..]);
        if inner != "" && inner[0] == '}' then Read(JObject([]), inner[1..])
        else
          var r := ReadMembers(inner);
          if r.Read? then Read(JObject(r.value), r.rest) else Refused
      case '[' =>
        var inner := SkipSpace(s[1..]);
        if inner != "" && inner[0] == ']' then Read(JArray([]), inner[1..])
        else
          var r := ReadItems(inner);
          if r.Read? then Read(JArray(r.value), r.rest) else Refused
      case 't' => if "true" <= s then Read(JBool(true), s[4..]) else Refused
      case 'f' => if "false" <= s then Read(JBool(false), s[5..]) else Refused
      case 'n' => if "null" <= s then Read(JNull, s[4..]) else Refused
      case _ =>
        var r := ReadNumber(s);
        if r.Read? then Read(JNumber(r.value), r.rest) else Refused
  }

  /** One or more values separated by commas, and the closing bracket (section 5). */
  function ReadItems(s: string): (r: Parsed<seq<Json>>)
    ensures r.Read? ==> |r.rest| < |s|
    decreases |s|, 1
  {
    var first := ReadValue(s);
    if first.Refused? then Refused else MoreItems(first.value, SkipSpace(first.rest))
  }

  /** What follows an item: the closing bracket, or a comma and more of them. */
  function MoreItems(first: Json, after: string): (r: Parsed<seq<Json>>)
    ensures r.Read? ==> |r.rest| < |after|
    decreases |after|, 2
  {
    if after == "" then Refused
    else if after[0] == ']' then Read([first], after[1..])
    else if after[0] != ',' then Refused
    else
      var more := ReadItems(SkipSpace(after[1..]));
      if more.Read? then Read([first] + more.value, more.rest) else Refused
  }

  /** One or more members separated by commas, and the closing brace (section 4). */
  function ReadMembers(s: string): (r: Parsed<seq<(string, Json)>>)
    ensures r.Read? ==> |r.rest| < |s|
    decreases |s|, 1
  {
    if s == "" || s[0] != '"' then Refused
    else
      var key := ReadChars(s[1..]);
      if key.Refused? then Refused
      else
        var colon := SkipSpace(key.rest);
        if colon == "" || colon[0] != ':' then Refused
        else
          var value := ReadValue(SkipSpace(colon[1..]));
          if value.Refused? then Refused else MoreMembers((key.value, value.value), SkipSpace(value.rest))
  }

  /** What follows a member: the closing brace, or a comma and more of them. */
  function MoreMembers(first: (string, Json), after: string): (r: Parsed<seq<(string, Json)>>)
    ensures r.Read? ==> |r.rest| < |after|
    decreases |after|, 2
  {
    if after == "" then Refused
    else if after[0] == '}' then Read([first], after[1..])
    else if after[0] != ',' then Refused
    else
      var more := ReadMembers(SkipSpace(after[1..]));
      if more.Read? then Read([first] + more.value, more.rest) else Refused
  }

  /** A JSON text: one value with whitespace around it (section 2). */
  function ReadText(s: string): Parsed<Json> {
    var r := ReadValue(SkipSpace(s));
    if r.Read? && SkipSpace(r.rest) == "" then r.(rest := "") else Refused
  }

  // ------------------------------------------------------------------ escaping

  function HexDigit(d: nat): (c: char)
    requires d < 16
    ensures HexValue(c) == d && c >= ' '
  {
    if d < 10 then DigitOf(d) else (87 + d) as char
  }

  function EscapeChar(c: char): (s: string)
    ensures s != ""
  {
    if c == '"' then "\\\"" else if c == '\\' then "\\\\" else if c == '\n' then "\\n"
    else if c == '\r' then "\\r" else if c == '\t' then "\\t"
    else if c < ' ' then "\\u00" + [HexDigit(c as nat / 16), HexDigit(c as nat % 16)]
    else [c]
  }

  /** The escaped text up to the first NUL: the writer walks NUL-terminated text. */
  function Escape(s: string): string {
    if s == "" || s[0] == '\0' then "" else EscapeChar(s[0]) + Escape(s[1..])
  }

  /** What a NUL-terminated walk sees of a string. */
  function CText(s: string): string {
    if s == "" || s[0] == '\0' then "" else [s[0]] + CText(s[1..])
  }

  method JsonEscape(s: string) returns (out: string)
    ensures out == Escape(s)
  {
    out := "";
    var i := 0;
    while i < |s| && s[i] != '\0'
      invariant i <= |s| && Escape(s) == out + Escape(s[i..])
      decreases |s| - i
    {
      out := out + EscapeChar(s[i]);
      i := i + 1;
    }
  }

  lemma EscapedCharReadsBack(c: char, tail: string)
    ensures ReadChars(EscapeChar(c) + tail) == Prefixed(c, ReadChars(tail))
  {
    var head := EscapeChar(c);
    if |head| == 6 {
      HexEscapeReads(head[4], head[5], tail);
      assert head == "\\u00" + [head[4], head[5]];
    } else {
      assert (head + tail)[|head|..] == tail;
    }
  }

  lemma HexEscapeReads(high: char, low: char, tail: string)
    requires 0 <= HexValue(high) < 8 && 0 <= HexValue(low)
    ensures ReadChars("\\u00" + [high, low] + tail)
            == Prefixed((HexValue(high) * 16 + HexValue(low)) as char, ReadChars(tail))
  {
    var s := "\\u00" + [high, low] + tail;
    assert s[6..] == tail;
  }

  lemma {:induction false} EscapeReadsBack(s: string, rest: string)
    ensures ReadChars(Escape(s) + "\"" + rest) == Read(CText(s), rest)
  {
    if s == "" || s[0] == '\0' {
      assert Escape(s) + "\"" + rest == "\"" + rest;
    } else {
      var head, tail := EscapeChar(s[0]), Escape(s[1..]) + "\"" + rest;
      assert Escape(s) + "\"" + rest == head + tail;
      EscapedCharReadsBack(s[0], tail);
      EscapeReadsBack(s[1..], rest);
    }
  }

  lemma {:induction false} CTextKeepsNulFree(s: string)
    ensures CText(s) == s <==> '\0' !in s
  {
    if s != "" && s[0] != '\0' {
      CTextKeepsNulFree(s[1..]);
      assert s == [s[0]] + s[1..];
      assert '\0' in s <==> '\0' in s[1..];
    }
  }

  /** A string reads back as itself exactly when it holds no NUL. */
  lemma StringRoundTrip(s: string, rest: string)
    ensures ReadValue("\"" + Escape(s) + "\"" + rest) == Read(JString(s), rest) <==> '\0' !in s
  {
    var text := "\"" + Escape(s) + "\"" + rest;
    assert text[1..] == Escape(s) + "\"" + rest;
    EscapeReadsBack(s, rest);
    CTextKeepsNulFree(s);
  }

  // ------------------------------------------------------------------ numbers

  predicate EndsNumber(rest: string) {
    rest == "" || (!IsDigit(rest[0]) && rest[0] !in ".eE")
  }

  lemma NatReadsBack(n: nat, rest: string)
    requires EndsNumber(rest)
    ensures ReadNat(NatText(n) + rest) == Read(n, rest)
  {
    var digits := NatText(n);
    NatTextValue(n);
    DigitRunOf(digits, rest);
    assert (digits + rest)[..|digits|] == digits && (digits + rest)[|digits|..] == rest;
    assert (digits + rest)[0] == digits[0];
  }

  lemma NumberReadsBack(n: int, rest: string)
    requires EndsNumber(rest)
    ensures ReadNumber(IntText(n) + rest) == Read(n, rest)
    ensures IsDigit((IntText(n) + rest)[0]) || (IntText(n) + rest)[0] == '-'
  {
    if n < 0 {
      NatReadsBack(-n, rest);
      SignedReads(n, NatText(-n), rest);
    } else {
      PositiveReads(n, rest);
    }
  }

  lemma PositiveReads(n: nat, rest: string)
    requires EndsNumber(rest)
    ensures ReadNumber(NatText(n) + rest) == Read(n, rest) && IsDigit((NatText(n) + rest)[0])
  {
    NatReadsBack(n, rest);
    assert (NatText(n) + rest)[0] == NatText(n)[0];
  }

  lemma SignedReads(n: int, digits: string, rest: string)
    requires n < 0 && digits == NatText(-n)
    ensures IntText(n) + rest == ['-'] + (digits + rest)
    ensures ReadNumber(['-'] + (digits + rest))
            == if ReadNat(digits + rest).Read? then Read(-ReadNat(digits + rest).value, ReadNat(digits + rest).rest)
               else Refused
  {
    assert (['-'] + (digits + rest))[1..] == digits + rest;
  }

  /** How a character stands in a string: the six that have a short escape or must not stand for themselves, the other
      control characters by their code, and all others as they are. */
  lemma EscapesAre(c: char)
    ensures EscapeChar('"') == "\\\"" && EscapeChar('\\') == "\\\\" && EscapeChar('\n') == "\\n"
    ensures EscapeChar('\r') == "\\r" && EscapeChar('\t') == "\\t" && EscapeChar('\U{001F}') == "\\u001f"
    ensures c >= ' ' && c != '"' && c != '\\' ==> EscapeChar(c) == [c]
  {
    assert 0x1f / 16 == 1 && 0x1f % 16 == 15 && HexDigit(1) == '1' && HexDigit(15) == 'f';
    assert "\\u00" + ['1', 'f'] == "\\u001f";
  }
}
