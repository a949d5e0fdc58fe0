/**
 Documents as trees: the calls that follow a tree's shape, the text they print, and the proof that a
 reader of that text gets the tree back (src/cpp/output.cpp).
 */
module JsonDocument {
  import opened Basics
  import opened Decimal
  import opened JsonText
  import opened JsonWriter

  datatype Scalar = Str(text: string) | Int(value: int) | Truth(holds: bool)

  /** A member's value.  The rows of an array are strings, one-line objects or objects of their own. */
  datatype Node = Leaf(value: Scalar) | Object(members: seq<Member>) | Array(items: seq<Item>)

  datatype Member = Member(key: string, node: Node)

  datatype Item = TextRow(text: string) | FlatRow(fields: seq<(string, Scalar)>) | Nested(members: seq<Member>)

  // ------------------------------------------------------------------ what a tree means

  function ScalarJson(value: Scalar): Json {
    match value case Str(text) => JString(CText(text)) case Int(n) => JNumber(n) case Truth(b) => JBool(b)
  }

  function NodeJson(node: Node): Json {
    match node
    case Leaf(value) => ScalarJson(value)
    case Object(members) => JObject(MembersJson(members))
    case Array(items) => JArray(ItemsJson(items))
  }

  function MembersJson(members: seq<Member>): seq<(string, Json)> {
    if members == [] then [] else [(members[0].key, NodeJson(members[0].node))] + MembersJson(members[1..])
  }

  function FieldsJson(fields: seq<(string, Scalar)>): seq<(string, Json)> {
    if fields == [] then [] else [(fields[0].0, ScalarJson(fields[0].1))] + FieldsJson(fields[1..])
  }

  function ItemJson(item: Item): Json {
    match item
    case TextRow(text) => JString(CText(text))
    case FlatRow(fields) => JObject(FieldsJson(fields))
    case Nested(members) => JObject(MembersJson(members))
  }

  function ItemsJson(items: seq<Item>): seq<Json> {
    if items == [] then [] else [ItemJson(items[0])] + ItemsJson(items[1..])
  }

  // ------------------------------------------------------------------ the calls that follow its shape

  function NodeCalls(key: string, node: Node, last: bool): seq<Call>
    decreases node
  {
    match node
    case Leaf(Str(text)) => [FieldText(key, text, last)]
    case Leaf(Int(value)) => [FieldInt(key, value, last)]
    case Leaf(Truth(holds)) => [Flag(key, holds, last)]
    case Object(members) => [ObjectOpenKey(key)] + (MemberCalls(members) + [ObjectClose(last)])
    case Array(items) => [ArrayOpen(key)] + (ItemCalls(items) + [ArrayClose(last)])
  }

  function MemberCalls(members: seq<Member>): seq<Call>
    decreases members
  {
    if members == [] then []
    else NodeCalls(members[0].key, members[0].node, |members| == 1) + MemberCalls(members[1..])
  }

  function ItemCall(item: Item): seq<Call>
    decreases item
  {
    match item
    case TextRow(text) => [Row(text)]
    case FlatRow(fields) => [ObjectRow("{" + FlatText(fields, "}"))]
    case Nested(members) => [ObjectOpen] + (MemberCalls(members) + [ObjectClose(true)])
  }

  function ItemCalls(items: seq<Item>): seq<Call>
    decreases items
  {
    if items == [] then [] else ItemCall(items[0]) + ItemCalls(items[1..])
  }

  // ------------------------------------------------------------------ the text they print

  function ScalarText(value: Scalar, rest: string): string {
    match value
    case Str(text) => QuoteText(text, rest)
    case Int(n) => IntText(n) + rest
    case Truth(b) => BoolText(b) + rest
  }

  function FlatText(fields: seq<(string, Scalar)>, rest: string): string {
    if fields == [] then rest
    else KeyText(fields[0].0, ScalarText(fields[0].1, (if |fields| == 1 then "" else ", ") + FlatText(fields[1..], rest)))
  }

  function NodeText(node: Node, n: int, rest: string): string {
    match node
    case Leaf(value) => ScalarText(value, rest)
    case Object(members) => "{\n" + MembersText(members, n + 1, Indent(n) + ("}" + rest))
    case Array(items) => "[\n" + ItemsText(items, true, n + 1, Indent(n) + ("]" + rest))
  }

  function MembersText(members: seq<Member>, n: int, rest: string): string {
    if members == [] then rest
    else Indent(n) + KeyText(members[0].key,
           NodeText(members[0].node, n, (Comma(|members| == 1) + "\n") + MembersText(members[1..], n, rest)))
  }

  function ItemText(item: Item, n: int, rest: string): string {
    match item
    case TextRow(text) => QuoteText(text, rest)
    case FlatRow(fields) => "{" + FlatText(fields, "}" + rest)
    case Nested(members) => "{\n" + MembersText(members, n + 1, Indent(n) + ("}" + rest))
  }

  function ItemsText(items: seq<Item>, firstRow: bool, n: int, rest: string): string {
    if items == [] then rest
    else Indent(n) + (Separator(firstRow) + ItemText(items[0], n, "\n" + ItemsText(items[1..], false, n, rest)))
  }

  // ------------------------------------------------------------------ reading it back

  /** A key is printed as it stands, so it must not need escaping: the keys are the program's own names. */
  predicate PlainKey(key: string) {
    forall i | 0 <= i < |key| :: key[i] >= ' ' && key[i] != '"' && key[i] != '\\'
  }

  predicate PlainKeys(node: Node) {
    match node
    case Leaf(_) => true
    case Object(members) => PlainMembers(members)
    case Array(items) => PlainItems(items)
  }

  predicate PlainMembers(members: seq<Member>) {
    members == [] || (PlainKey(members[0].key) && PlainKeys(members[0].node) && PlainMembers(members[1..]))
  }

  predicate PlainFields(fields: seq<(string, Scalar)>) {
    forall i | 0 <= i < |fields| :: PlainKey(fields[i].0)
  }

  predicate PlainItems(items: seq<Item>) {
    items == []
    || ((match items[0]
         case TextRow(_) => true
         case FlatRow(fields) => PlainFields(fields)
         case Nested(members) => PlainMembers(members))
        && PlainItems(items[1..]))
  }

  lemma {:induction false} SkipIndent(n: int, s: string)
    ensures SkipSpace(Indent(n) + s) == SkipSpace(s)
  {
    if n <= 0 {
      assert Indent(n) + s == s;
    } else {
      var t := Indent(n - 1) + s;
      assert Indent(n) + s == [' '] + ([' '] + t);
      SkipIndent(n - 1, s);
    }
  }

  lemma {:induction false} KeyReadsBack(key: string, rest: string)
    requires PlainKey(key)
    ensures ReadChars(key + ("\"" + rest)) == Read(key, rest)
  {
    if key == "" {
      assert key + ("\"" + rest) == "\"" + rest;
    } else {
      var s := key + ("\"" + rest);
      assert s[1..] == key[1..] + ("\"" + rest);
      KeyReadsBack(key[1..], rest);
      assert [key[0]] + key[1..] == key;
    }
  }

  lemma TextReadsBack(text: string, rest: string)
    ensures ReadValue(QuoteText(text, rest)) == Read(JString(CText(text)), rest)
  {
    EscapeReadsBack(text, rest);
    Assoc(Escape(text), "\"", rest);
    QuotedValue(Escape(text) + ("\"" + rest), CText(text), rest);
  }

  lemma QuotedValue(inside: string, text: string, rest: string)
    requires ReadChars(inside) == Read(text, rest)
    ensures ReadValue("\"" + inside) == Read(JString(text), rest)
  {
    assert ("\"" + inside)[1..] == inside;
  }

  lemma TruthReadsBack(b: bool, rest: string)
    ensures ReadValue(BoolText(b) + rest) == Read(JBool(b), rest)
  {
    assert (BoolText(b) + rest)[|BoolText(b)|..] == rest;
  }

  /** A value as an array or member holds it: it reads back, and no whitespace or bracket comes first. */
  ghost predicate ReadsBack(text: string, value: Json, rest: string) {
    text != "" && !IsSpace(text[0]) && text[0] != ']' && text[0] != '}' && ReadValue(text) == Read(value, rest)
  }

  lemma ScalarReadsBack(value: Scalar, rest: string)
    requires EndsNumber(rest)
    ensures ReadsBack(ScalarText(value, rest), ScalarJson(value), rest)
  {
    match value
    case Str(text) => TextReadsBack(text, rest);
    case Int(n) => NumberReadsBack(n, rest);
    case Truth(b) => TruthReadsBack(b, rest);
  }

  lemma ColonThen(text: string)
    requires text != "" && !IsSpace(text[0])
    ensures SkipSpace(": " + text) == ": " + text && SkipSpace((": " + text)[1..]) == text
  {
    var spaced := [' '] + text;
    assert spaced[1..] == text && SkipSpace(spaced) == text;
    assert ": " + text == [':'] + spaced && ([':'] + spaced)[1..] == spaced;
  }

  /** Up to its value, a printed member reads as its key and a colon. */
  lemma KeyThenValue(key: string, text: string)
    requires PlainKey(key)
    ensures ReadChars(KeyText(key, text)[1..]) == Read(key, ": " + text)
  {
    KeyReadsBack(key, ": " + text);
    assert "\": " + text == "\"" + (": " + text);
    assert KeyText(key, text)[1..] == key + ("\": " + text);
  }

  lemma MemberReadsBack(key: string, text: string, value: Json, rest: string)
    requires PlainKey(key) && ReadsBack(text, value, rest)
    ensures ReadMembers(KeyText(key, text)) == MoreMembers((key, value), SkipSpace(rest))
  {
    KeyThenValue(key, text);
    ColonThen(text);
  }

  /** A comma, whitespace and further members after a member. */
  lemma NextMember(first: (string, Json), after: string, more: string, members: seq<(string, Json)>, rest: string)
    requires after != "" && after[0] == ',' && SkipSpace(after[1..]) == more
    requires ReadMembers(more) == Read(members, rest)
    ensures MoreMembers(first, SkipSpace(after)) == Read([first] + members, rest)
  {
  }

  lemma FieldReadsBack(key: string, value: Scalar, after: string)
    requires PlainKey(key) && EndsNumber(after)
    ensures ReadMembers(KeyText(key, ScalarText(value, after))) == MoreMembers((key, ScalarJson(value)), SkipSpace(after))
  {
    ScalarReadsBack(value, after);
    MemberReadsBack(key, ScalarText(value, after), ScalarJson(value), after);
  }

  lemma CommaThen(more: string)
    requires more != "" && more[0] == '"'
    ensures (", " + more)[0] == ',' && SkipSpace((", " + more)[1..]) == more
  {
    assert (", " + more)[1..] == [' '] + more;
  }

  lemma {:induction false} FlatReadsBack(fields: seq<(string, Scalar)>, rest: string)
    requires fields != [] && PlainFields(fields)
    ensures ReadMembers(FlatText(fields, "}" + rest)) == Read(FieldsJson(fields), rest)
  {
    var key, value := fields[0].0, fields[0].1;
    var more := FlatText(fields[1..], "}" + rest);
    var after := (if |fields| == 1 then "" else ", ") + more;
    FieldReadsBack(key, value, after);
    if |fields| == 1 {
      assert after == "}" + rest;
      assert FieldsJson(fields) == [(key, ScalarJson(value))];
    } else {
      assert more[0] == '"';
      CommaThen(more);
      FlatReadsBack(fields[1..], rest);
      NextMember((key, ScalarJson(value)), after, more, FieldsJson(fields[1..]), rest);
    }
  }

  lemma NextItem(first: Json, after: string, more: string, items: seq<Json>, rest: string)
    requires after != "" && after[0] == ',' && SkipSpace(after[1..]) == more
    requires ReadItems(more) == Read(items, rest)
    ensures MoreItems(first, SkipSpace(after)) == Read([first] + items, rest)
  {
  }

  /** Braces around members: what an object value and an object row have in common. */
  lemma ObjectReadsBack(inner: string, members: seq<(string, Json)>, rest: string)
    requires if members == [] then SkipSpace(inner) == "}" + rest
             else ReadMembers(SkipSpace(inner)) == Read(members, rest) && SkipSpace(inner)[0] == '"'
    ensures ReadsBack("{\n" + inner, JObject(members), rest)
  {
    var text := "{\n" + inner;
    assert text[1..] == ['\n'] + inner;
    assert SkipSpace(text[1..]) == SkipSpace(inner);
  }

  lemma ArrayReadsBack(inner: string, items: seq<Json>, rest: string)
    requires if items == [] then SkipSpace(inner) == "]" + rest
             else ReadItems(SkipSpace(inner)) == Read(items, rest) && SkipSpace(inner) != "" && SkipSpace(inner)[0] != ']'
    ensures ReadsBack("[\n" + inner, JArray(items), rest)
  {
    var text := "[\n" + inner;
    assert text[1..] == ['\n'] + inner;
    assert SkipSpace(text[1..]) == SkipSpace(inner);
  }

  lemma {:induction false} NodeReadsBack(node: Node, n: int, rest: string)
    requires PlainKeys(node) && EndsNumber(rest)
    ensures ReadsBack(NodeText(node, n, rest), NodeJson(node), rest)
    decreases node, 0
  {
    match node
    case Leaf(value) => ScalarReadsBack(value, rest);
    case Object(members) =>
      ClosingReadsBack(n, '}', rest);
      MembersReadBack(members, n + 1, Indent(n) + ("}" + rest), rest);
      ObjectReadsBack(MembersText(members, n + 1, Indent(n) + ("}" + rest)), MembersJson(members), rest);
    case Array(items) =>
      ClosingReadsBack(n, ']', rest);
      ItemsReadBack(items, n + 1, Indent(n) + ("]" + rest), rest);
      ArrayReadsBack(ItemsText(items, true, n + 1, Indent(n) + ("]" + rest)), ItemsJson(items), rest);
  }

  lemma ClosingReadsBack(n: int, bracket: char, rest: string)
    requires !IsSpace(bracket)
    ensures SkipSpace(Indent(n) + ([bracket] + rest)) == [bracket] + rest
  {
    SkipIndent(n, [bracket] + rest);
  }

  lemma {:induction false} MembersReadBack(members: seq<Member>, n: int, tail: string, rest: string)
    requires PlainMembers(members) && SkipSpace(tail) == "}" + rest
    ensures var text := SkipSpace(MembersText(members, n, tail));
            if members == [] then text == "}" + rest
            else text != "" && text[0] == '"' && ReadMembers(text) == Read(MembersJson(members), rest)
    decreases members, 1
  {
    if members != [] {
      var key, node := members[0].key, members[0].node;
      var more := MembersText(members[1..], n, tail);
      var after := (Comma(|members| == 1) + "\n") + more;
      NodeReadsBack(node, n, after);
      MembersReadBack(members[1..], n, tail, rest);
      MemberThenRest(key, NodeText(node, n, after), NodeJson(node), |members| == 1, more, MembersJson(members[1..]), rest);
      SkipIndent(n, KeyText(key, NodeText(node, n, after)));
    }
  }

  /** A member followed by the closing brace or by further members. */
  lemma MemberThenRest(key: string, text: string, value: Json, last: bool, more: string,
                       members: seq<(string, Json)>, rest: string)
    requires PlainKey(key) && ReadsBack(text, value, (Comma(last) + "\n") + more)
    requires if last then members == [] && SkipSpace(more) == "}" + rest
             else ReadMembers(SkipSpace(more)) == Read(members, rest)
    ensures ReadMembers(KeyText(key, text)) == Read([(key, value)] + members, rest)
  {
    LineEnd(last, more);
    MemberReadsBack(key, text, value, (Comma(last) + "\n") + more);
    if last {
      assert [(key, value)] + members == [(key, value)];
    } else {
      NextMember((key, value), (Comma(last) + "\n") + more, SkipSpace(more), members, rest);
    }
  }

  lemma LineEnd(last: bool, more: string)
    ensures var text := (Comma(last) + "\n") + more;
            if last then SkipSpace(text) == SkipSpace(more)
            else text != "" && text[0] == ',' && SkipSpace(text[1..]) == SkipSpace(more)
  {
    var text := (Comma(last) + "\n") + more;
    if last {
      assert text == ['\n'] + more;
    } else {
      assert text[1..] == ['\n'] + more;
    }
  }

  lemma {:induction false} ItemReadsBack(item: Item, n: int, rest: string)
    requires PlainItems([item]) && EndsNumber(rest)
    ensures ReadsBack(ItemText(item, n, rest), ItemJson(item), rest)
    decreases item, 0
  {
    match item
    case TextRow(text) => TextReadsBack(text, rest);
    case FlatRow(fields) => FlatRowReadsBack(fields, rest);
    case Nested(members) =>
      ClosingReadsBack(n, '}', rest);
      MembersReadBack(members, n + 1, Indent(n) + ("}" + rest), rest);
      ObjectReadsBack(MembersText(members, n + 1, Indent(n) + ("}" + rest)), MembersJson(members), rest);
  }

  lemma FlatRowReadsBack(fields: seq<(string, Scalar)>, rest: string)
    requires PlainFields(fields)
    ensures ReadsBack("{" + FlatText(fields, "}" + rest), JObject(FieldsJson(fields)), rest)
  {
    var inner := FlatText(fields, "}" + rest);
    assert ("{" + inner)[1..] == inner;
    if fields != [] {
      FlatReadsBack(fields, rest);
      assert inner[0] == '"';
    }
  }

  lemma {:induction false} ItemsReadBack(items: seq<Item>, n: int, tail: string, rest: string)
    requires PlainItems(items) && SkipSpace(tail) == "]" + rest
    ensures var text := SkipSpace(ItemsText(items, true, n, tail));
            if items == [] then text == "]" + rest
            else text != "" && text[0] != ']' && ReadItems(text) == Read(ItemsJson(items), rest)
    decreases items, 2
  {
    if items != [] {
      RowsReadBack(items, n, tail, rest);
      var text := ItemText(items[0], n, "\n" + ItemsText(items[1..], false, n, tail));
      SkipIndent(n, Separator(true) + text);
      assert Separator(true) + text == text;
    }
  }

  /** From the first character of a row on: the separator in front of the next row is read as one comma. */
  lemma {:induction false} RowsReadBack(items: seq<Item>, n: int, tail: string, rest: string)
    requires items != [] && PlainItems(items) && SkipSpace(tail) == "]" + rest
    ensures var after := "\n" + ItemsText(items[1..], false, n, tail);
            && ReadsBack(ItemText(items[0], n, after), ItemJson(items[0]), after)
            && ReadItems(ItemText(items[0], n, after)) == Read(ItemsJson(items), rest)
    decreases items, 1
  {
    var more := ItemsText(items[1..], false, n, tail);
    var text := ItemText(items[0], n, "\n" + more);
    ItemReadsBack(items[0], n, "\n" + more);
    if |items| == 1 {
      LastRow(text, ItemJson(items[0]), tail, rest);
      assert more == tail && ItemsJson(items) == [ItemJson(items[0])];
    } else {
      RowsReadBack(items[1..], n, tail, rest);
      assert items[1..][1..] == items[2..];
      var next := ItemText(items[1], n, "\n" + ItemsText(items[2..], false, n, tail));
      RowThenRows(text, ItemJson(items[0]), n, next, ItemsJson(items[1..]), rest);
    }
  }

  lemma LastRow(text: string, value: Json, tail: string, rest: string)
    requires ReadsBack(text, value, "\n" + tail) && SkipSpace(tail) == "]" + rest
    ensures ReadItems(text) == Read([value], rest)
  {
    assert ("\n" + tail)[1..] == tail;
  }

  lemma CommaLine(rest: string)
    ensures (",\n" + rest)[0] == ',' && SkipSpace(",\n" + rest) == ",\n" + rest
    ensures SkipSpace((",\n" + rest)[1..]) == SkipSpace(rest)
  {
    assert (",\n" + rest)[1..] == ['\n'] + rest;
  }

  lemma RowThenRows(text: string, value: Json, n: int, next: string, items: seq<Json>, rest: string)
    requires ReadsBack(text, value, "\n" + (Indent(n) + (",\n" + next)))
    requires next != "" && !IsSpace(next[0]) && ReadItems(next) == Read(items, rest)
    ensures ReadItems(text) == Read([value] + items, rest)
  {
    var more := Indent(n) + (",\n" + next);
    assert ("\n" + more)[1..] == more;
    SkipIndent(n, ",\n" + next);
    CommaLine(next);
    NextItem(value, ",\n" + next, next, items, rest);
  }

  // ------------------------------------------------------------------ the calls print the text

  lemma {:induction false} RunConcat(st: State, xs: seq<Call>, ys: seq<Call>)
    ensures Run(st, xs + ys) == Run(Run(st, xs), ys)
    decreases |xs|
  {
    if xs == [] {
      assert xs + ys == ys;
    } else {
      assert (xs + ys)[1..] == xs[1..] + ys;
      RunConcat(Step(st, xs[0]), xs[1..], ys);
    }
  }

  lemma KeyTextThen(key: string, text: string, rest: string)
    ensures KeyText(key, text) + rest == KeyText(key, text + rest)
  {
    Assoc("\"", key + ("\": " + text), rest);
    Assoc(key, "\": " + text, rest);
    Assoc("\": ", text, rest);
  }

  lemma ScalarTextThen(value: Scalar, text: string, rest: string)
    ensures ScalarText(value, text) + rest == ScalarText(value, text + rest)
  {
    match value
    case Str(s) =>
      Assoc("\"", Escape(s) + ("\"" + text), rest);
      Assoc(Escape(s), "\"" + text, rest);
      Assoc("\"", text, rest);
    case Int(n) => Assoc(IntText(n), text, rest);
    case Truth(b) => Assoc(BoolText(b), text, rest);
  }

  lemma {:induction false} FlatTextThen(fields: seq<(string, Scalar)>, text: string, rest: string)
    ensures FlatText(fields, text) + rest == FlatText(fields, text + rest)
  {
    if fields != [] {
      var comma := if |fields| == 1 then "" else ", ";
      var tail := FlatText(fields[1..], text);
      FlatTextThen(fields[1..], text, rest);
      Assoc(comma, tail, rest);
      ScalarTextThen(fields[0].1, comma + tail, rest);
      KeyTextThen(fields[0].0, ScalarText(fields[0].1, comma + tail), rest);
    }
  }

  /** `end` is `st` with `text` printed in front of `rest`, everything else as it was. */
  ghost predicate Printed(st: State, end: State, text: string, rest: string) {
    end.out + rest == st.out + text && end == st.(out := end.out)
  }

  /** One line printed: what follows it goes behind the line's own text. */
  lemma LinePrints(st: State, text: string, rest: string)
    ensures Line(st, text).out + rest == st.out + (Indent(st.indent) + (text + rest))
  {
    Assoc(st.out, Indent(st.indent) + text, rest);
    Assoc(Indent(st.indent), text, rest);
  }

  /** Text between two indented brackets: what the closing one is followed by moves inside. */
  lemma Nest(out: string, indent: string, open: string, text: string, within: string, close: string, rest: string)
    requires within + (indent + (close + rest)) == (out + (indent + open)) + text
    ensures (within + (indent + close)) + rest == out + (indent + (open + text))
  {
    Assoc(within, indent + close, rest);
    Assoc(indent, close, rest);
    Assoc(out, indent + open, text);
    Assoc(indent, open, text);
  }

  lemma {:induction false} NodePrints(st: State, key: string, node: Node, last: bool, rest: string)
    ensures Printed(st, Run(st, NodeCalls(key, node, last)),
                    Indent(st.indent) + KeyText(key, NodeText(node, st.indent, (Comma(last) + "\n") + rest)), rest)
    decreases node, 0
  {
    match node
    case Leaf(value) =>
      LeafPrints(st, key, value, last, rest);
    case Object(members) =>
      var inside, closing := Step(st, ObjectOpenKey(key)), Indent(st.indent) + ("}" + ((Comma(last) + "\n") + rest));
      MembersPrint(inside, members, closing);
      Enclosed(st, ObjectOpenKey(key), MemberCalls(members), ObjectClose(last));
      CloseObject(st, Run(inside, MemberCalls(members)), last);
      var text := MembersText(members, st.indent + 1, closing);
      assert NodeText(node, st.indent, (Comma(last) + "\n") + rest) == "{\n" + text;
      BracketsPrint(st, inside.out, Run(inside, MemberCalls(members)).out, Run(st, NodeCalls(key, node, last)),
                    KeyText(key, "{\n"), text, "}", Comma(last) + "\n", rest);
      KeyTextThen(key, "{\n", text);
    case Array(items) =>
      var inside, closing := Step(st, ArrayOpen(key)), Indent(st.indent) + ("]" + ((Comma(last) + "\n") + rest));
      ItemsPrint(inside, items, closing);
      Enclosed(st, ArrayOpen(key), ItemCalls(items), ArrayClose(last));
      CloseArray(st, Run(inside, ItemCalls(items)), last);
      var text := ItemsText(items, true, st.indent + 1, closing);
      assert NodeText(node, st.indent, (Comma(last) + "\n") + rest) == "[\n" + text;
      BracketsPrint(st, inside.out, Run(inside, ItemCalls(items)).out, Run(st, NodeCalls(key, node, last)),
                    KeyText(key, "[\n"), text, "]", Comma(last) + "\n", rest);
      KeyTextThen(key, "[\n", text);
  }

  lemma Enclosed(st: State, open: Call, inner: seq<Call>, close: Call)
    ensures Run(st, [open] + (inner + [close])) == Step(Run(Step(st, open), inner), close)
  {
    var calls := [open] + (inner + [close]);
    assert calls[1..] == inner + [close];
    RunConcat(Step(st, open), inner, [close]);
    assert [close][1..] == [];
  }

  lemma CloseObject(st: State, within: State, last: bool)
    requires within == st.(out := within.out, indent := st.indent + 1)
    ensures Step(within, ObjectClose(last))
            == st.(out := within.out + (Indent(st.indent) + ("}" + (Comma(last) + "\n"))))
  {
  }

  lemma CloseArray(st: State, within: State, last: bool)
    requires within == State(within.out, st.indent + 1, within.firstRow, st.stack + [st.firstRow])
    ensures Step(within, ArrayClose(last))
            == st.(out := within.out + (Indent(st.indent) + ("]" + (Comma(last) + "\n"))))
  {
    assert within.stack[..|within.stack| - 1] == st.stack;
  }

  /** `close` ends what `open` began: with the rest behind it, the whole is one nest of text. */
  lemma BracketsPrint(st: State, inside: string, within: string, end: State, open: string, text: string,
                      bracket: string, line: string, rest: string)
    requires inside == st.out + (Indent(st.indent) + open)
    requires within + (Indent(st.indent) + (bracket + (line + rest))) == inside + text
    requires end == st.(out := within + (Indent(st.indent) + (bracket + line)))
    ensures Printed(st, end, Indent(st.indent) + (open + text), rest)
  {
    Assoc(bracket, line, rest);
    Nest(st.out, Indent(st.indent), open, text, within, bracket + line, rest);
  }

  lemma LeafPrints(st: State, key: string, value: Scalar, last: bool, rest: string)
    ensures Printed(st, Run(st, NodeCalls(key, Leaf(value), last)),
                    Indent(st.indent) + KeyText(key, ScalarText(value, (Comma(last) + "\n") + rest)), rest)
  {
    var calls, end := NodeCalls(key, Leaf(value), last), Comma(last) + "\n";
    assert calls[1..] == [];
    match value {
      case Str(text) =>
      case Int(n) =>
      case Truth(b) =>
    }
    assert Run(st, calls) == Line(st, KeyText(key, ScalarText(value, end)));
    LinePrints(st, KeyText(key, ScalarText(value, end)), rest);
    KeyTextThen(key, ScalarText(value, end), rest);
    ScalarTextThen(value, end, rest);
  }

  lemma {:induction false} MembersPrint(st: State, members: seq<Member>, rest: string)
    ensures Printed(st, Run(st, MemberCalls(members)), MembersText(members, st.indent, rest), rest)
    decreases members, 1
  {
    if members != [] {
      var key, node, last := members[0].key, members[0].node, |members| == 1;
      var more := MembersText(members[1..], st.indent, rest);
      NodePrints(st, key, node, last, more);
      RunConcat(st, NodeCalls(key, node, last), MemberCalls(members[1..]));
      MembersPrint(Run(st, NodeCalls(key, node, last)), members[1..], rest);
    }
  }

  /** After the rows the flag says that a row has been written, if one was. */
  lemma {:induction false} ItemsPrint(st: State, items: seq<Item>, rest: string)
    ensures var end := Run(st, ItemCalls(items));
            Printed(st.(firstRow := end.firstRow), end, ItemsText(items, st.firstRow, st.indent, rest), rest)
    decreases items, 1
  {
    if items != [] {
      var calls := ItemCall(items[0]);
      var more := ItemsText(items[1..], false, st.indent, rest);
      ItemPrints(st, items[0], more);
      RunConcat(st, calls, ItemCalls(items[1..]));
      ItemsPrint(Run(st, calls), items[1..], rest);
    }
  }

  lemma {:induction false} ItemPrints(st: State, item: Item, rest: string)
    ensures Printed(st.(firstRow := false), Run(st, ItemCall(item)),
                    Indent(st.indent) + (Separator(st.firstRow) + ItemText(item, st.indent, "\n" + rest)), rest)
    decreases item, 0
  {
    var separator := Separator(st.firstRow);
    match item
    case TextRow(text) =>
      OneCall(st, item, Row(text));
      LinePrints(st, separator + QuoteText(text, "\n"), rest);
      Assoc(separator, QuoteText(text, "\n"), rest);
      ScalarTextThen(Str(text), "\n", rest);
    case FlatRow(fields) =>
      FlatRowPrints(st, fields, rest);
    case Nested(members) =>
      var inside, closing := Step(st, ObjectOpen), Indent(st.indent) + ("}" + ("\n" + rest));
      MembersPrint(inside, members, closing);
      Enclosed(st, ObjectOpen, MemberCalls(members), ObjectClose(true));
      ObjectEnds(st, inside, Run(inside, MemberCalls(members)), MembersText(members, st.indent + 1, closing), rest);
  }

  /** An object in a list, what is in it printed. */
  lemma ObjectEnds(st: State, inside: State, within: State, text: string, rest: string)
    requires inside == Step(st, ObjectOpen)
    requires Printed(inside, within, text, Indent(st.indent) + ("}" + ("\n" + rest)))
    ensures Printed(st.(firstRow := false), Step(within, ObjectClose(true)),
                    Indent(st.indent) + (Separator(st.firstRow) + ("{\n" + text)), rest)
  {
    var open := Separator(st.firstRow) + "{\n";
    CloseObject(st.(firstRow := false), within, true);
    assert Comma(true) + "\n" == "\n";
    BracketsPrint(st.(firstRow := false), inside.out, within.out, Step(within, ObjectClose(true)), open, text, "}", "\n", rest);
    Assoc(Separator(st.firstRow), "{\n", text);
  }

  lemma OneCall(st: State, item: Item, call: Call)
    requires ItemCall(item) == [call]
    ensures Run(st, ItemCall(item)) == Step(st, call)
  {
    assert [call][1..] == [];
  }

  lemma FlatRowPrints(st: State, fields: seq<(string, Scalar)>, rest: string)
    ensures Printed(st.(firstRow := false), Run(st, ItemCall(FlatRow(fields))),
                    Indent(st.indent)
                    + (Separator(st.firstRow) + ItemText(FlatRow(fields), st.indent, "\n" + rest)), rest)
  {
    var text := "{" + FlatText(fields, "}");
    OneCall(st, FlatRow(fields), ObjectRow(text));
    RowPrints(st, text, rest);
    FlatRowThen(fields, st.indent, "\n" + rest);
  }

  /** A row printed ready-made. */
  lemma RowPrints(st: State, text: string, rest: string)
    ensures Printed(st.(firstRow := false), Step(st, ObjectRow(text)),
                    Indent(st.indent) + (Separator(st.firstRow) + (text + ("\n" + rest))), rest)
  {
    LinePrints(st, Separator(st.firstRow) + (text + "\n"), rest);
    Assoc(Separator(st.firstRow), text + "\n", rest);
    Assoc(text, "\n", rest);
  }

  lemma FlatRowThen(fields: seq<(string, Scalar)>, n: int, rest: string)
    ensures ItemText(FlatRow(fields), n, rest) == ("{" + FlatText(fields, "}")) + rest
  {
    Assoc("{", FlatText(fields, "}"), rest);
    FlatTextThen(fields, "}", rest);
  }

  // ------------------------------------------------------------------ whole documents

  /** The state behind the header's opening brace. */
  const OPENED := State("{\n", 1, true, [])

  /** Whatever a document's tree, its calls print a text that reads back as that tree, and leave the
      indentation, the flag and the flag stack as they found them. */
  lemma DocumentReadsBack(members: seq<Member>)
    requires PlainMembers(members)
    ensures var end := Run(OPENED, MemberCalls(members));
            && end == OPENED.(out := end.out)
            && ReadText(end.out + "}\n") == Read(JObject(MembersJson(members)), "")
  {
    MembersPrint(OPENED, members, "}\n");
    MembersReadBack(members, 1, "}\n", "\n");
    assert "}\n" == "}" + "\n";
    ObjectReadsBack(MembersText(members, 1, "}\n"), MembersJson(members), "\n");
  }

  // ------------------------------------------------------------------ the shaders document

  /** A bound stage: with its reflection's members, or with none, and then its row object stays open. */
  datatype Stage = Reflected(members: seq<Member>) | Bare(key: string, id: string)

  function StageCalls(stage: Stage): seq<Call> {
    match stage
    case Reflected(members) => ItemCall(Nested(members))
    case Bare(key, id) => [ObjectOpen, FieldText(key, id, false)]
  }

  function StagesCalls(stages: seq<Stage>): seq<Call> {
    if stages == [] then [] else StageCalls(stages[0]) + StagesCalls(stages[1..])
  }

  /** Members that more members follow. */
  function OpenCalls(members: seq<Member>): seq<Call> {
    if members == [] then [] else NodeCalls(members[0].key, members[0].node, false) + OpenCalls(members[1..])
  }

  /** The header's members, then the array of stages, under its name, as the last one. */
  function ShadersCalls(header: seq<Member>, name: string, stages: seq<Stage>): seq<Call> {
    OpenCalls(header) + ([ArrayOpen(name)] + (StagesCalls(stages) + [ArrayClose(true)]))
  }

  predicate PlainStages(stages: seq<Stage>) {
    forall i | 0 <= i < |stages| ::
      match stages[i] case Reflected(members) => PlainMembers(members) case Bare(key, _) => PlainKey(key)
  }

  predicate AnyBare(stages: seq<Stage>) {
    exists i :: 0 <= i < |stages| && stages[i].Bare?
  }

  function BareCount(stages: seq<Stage>): nat {
    if stages == [] then 0 else (if stages[0].Bare? then 1 else 0) + BareCount(stages[1..])
  }

  // What the calls print.  A bare stage leaves everything behind it one deeper.

  function StagesText(stages: seq<Stage>, firstRow: bool, n: int, rest: string): string {
    if stages == [] then rest
    else StageText(stages[0], firstRow, n, StagesText(stages[1..], false, if stages[0].Bare? then n + 1 else n, rest))
  }

  function StageText(stage: Stage, firstRow: bool, n: int, rest: string): string {
    match stage
    case Reflected(members) => Indent(n) + (Separator(firstRow) + ItemText(Nested(members), n, "\n" + rest))
    case Bare(key, id) => Indent(n) + (Separator(firstRow) + BareText(key, id, n, rest))
  }

  function BareText(key: string, id: string, n: int, rest: string): string {
    "{\n" + (Indent(n + 1) + KeyText(key, QuoteText(id, ",\n" + rest)))
  }

  function OpenText(members: seq<Member>, n: int, rest: string): string {
    if members == [] then rest
    else Indent(n) + KeyText(members[0].key, NodeText(members[0].node, n, ",\n" + OpenText(members[1..], n, rest)))
  }

  lemma TwoCalls(st: State, first: Call, second: Call)
    ensures Run(st, [first, second]) == Step(Step(st, first), second)
  {
    assert [first, second][1..] == [second] && [second][1..] == [];
    assert Run(Step(st, first), [second]) == Step(Step(st, first), second);
  }

  lemma BareField(st: State, key: string, id: string, rest: string)
    ensures var end := Step(st, FieldText(key, id, false));
            Printed(st, end, Indent(st.indent) + KeyText(key, QuoteText(id, ",\n" + rest)), rest)
  {
    assert Comma(false) + "\n" == ",\n";
    LinePrints(st, KeyText(key, QuoteText(id, ",\n")), rest);
    KeyTextThen(key, QuoteText(id, ",\n"), rest);
    ScalarTextThen(Str(id), ",\n", rest);
  }

  lemma BarePrints(st: State, key: string, id: string, rest: string)
    ensures var end := Run(st, StageCalls(Bare(key, id)));
            end.out + rest == st.out + (Indent(st.indent) + (Separator(st.firstRow) + BareText(key, id, st.indent, rest)))
            && end == State(end.out, st.indent + 1, false, st.stack)
  {
    var separator, s1 := Separator(st.firstRow), Step(st, ObjectOpen);
    TwoCalls(st, ObjectOpen, FieldText(key, id, false));
    BareField(s1, key, id, rest);
    var line := Indent(st.indent + 1) + KeyText(key, QuoteText(id, ",\n" + rest));
    LinePrints(st, separator + "{\n", line);
    Assoc(separator, "{\n", line);
  }

  lemma StagePrints(st: State, stage: Stage, rest: string)
    ensures var end := Run(st, StageCalls(stage));
            end.out + rest == st.out + StageText(stage, st.firstRow, st.indent, rest)
            && end == State(end.out, if stage.Bare? then st.indent + 1 else st.indent, false, st.stack)
  {
    match stage
    case Reflected(members) => ItemPrints(st, Nested(members), rest);
    case Bare(key, id) => BarePrints(st, key, id, rest);
  }

  lemma {:induction false} StagesPrint(st: State, stages: seq<Stage>, rest: string)
    ensures var end := Run(st, StagesCalls(stages));
            end.out + rest == st.out + StagesText(stages, st.firstRow, st.indent, rest)
            && end.indent == st.indent + BareCount(stages) && end.stack == st.stack
    decreases |stages|
  {
    if stages != [] {
      var n := if stages[0].Bare? then st.indent + 1 else st.indent;
      var more := StagesText(stages[1..], false, n, rest);
      StagePrints(st, stages[0], more);
      RunConcat(st, StageCalls(stages[0]), StagesCalls(stages[1..]));
      StagesPrint(Run(st, StageCalls(stages[0])), stages[1..], rest);
    }
  }

  lemma {:induction false} OpenPrints(st: State, members: seq<Member>, rest: string)
    ensures Printed(st, Run(st, OpenCalls(members)), OpenText(members, st.indent, rest), rest)
    decreases |members|
  {
    if members != [] {
      var key, node := members[0].key, members[0].node;
      var more := OpenText(members[1..], st.indent, rest);
      assert Comma(false) + "\n" == ",\n";
      NodePrints(st, key, node, false, more);
      RunConcat(st, NodeCalls(key, node, false), OpenCalls(members[1..]));
      OpenPrints(Run(st, NodeCalls(key, node, false)), members[1..], rest);
    }
  }

  function ClosingText(depth: int): string {
    Indent(depth) + ("]" + ("\n" + "}\n"))
  }

  /** The whole document, as it is printed. */
  function ShadersText(header: seq<Member>, name: string, stages: seq<Stage>): string {
    OPENED.out + OpenText(header, 1, ArrayText(name, StagesText(stages, true, 2, ClosingText(1 + BareCount(stages)))))
  }

  function ArrayText(name: string, rows: string): string {
    Indent(1) + KeyText(name, "[\n" + rows)
  }

  lemma ShadersEnd(st: State, header: seq<Member>, name: string, stages: seq<Stage>)
    ensures Run(st, ShadersCalls(header, name, stages))
            == Step(Run(Step(Run(st, OpenCalls(header)), ArrayOpen(name)), StagesCalls(stages)), ArrayClose(true))
  {
    RunConcat(st, OpenCalls(header), [ArrayOpen(name)] + (StagesCalls(stages) + [ArrayClose(true)]));
    Enclosed(Run(st, OpenCalls(header)), ArrayOpen(name), StagesCalls(stages), ArrayClose(true));
  }

  lemma ShadersPrint(st: State, header: seq<Member>, name: string, stages: seq<Stage>)
    requires st == OPENED
    ensures Run(st, ShadersCalls(header, name, stages)).out + "}\n" == ShadersText(header, name, stages)
  {
    var s1 := Run(st, OpenCalls(header));
    var s2 := Step(s1, ArrayOpen(name));
    var closing := ClosingText(1 + BareCount(stages));
    var text := StagesText(stages, true, 2, closing);
    ShadersEnd(st, header, name, stages);
    OpenPrints(st, header, ArrayText(name, text));
    ArrayThen(s1, name, text);
    StagesPrint(s2, stages, closing);
    ClosesPrint(Run(s2, StagesCalls(stages)), 1 + BareCount(stages));
  }

  lemma ArrayThen(st: State, name: string, text: string)
    ensures Step(st, ArrayOpen(name)).out + text == st.out + (Indent(st.indent) + KeyText(name, "[\n" + text))
  {
    LinePrints(st, KeyText(name, "[\n"), text);
    KeyTextThen(name, "[\n", text);
  }

  lemma ClosesPrint(st: State, depth: int)
    requires st.indent == depth + 1
    ensures Step(st, ArrayClose(true)).out + "}\n" == st.out + ClosingText(depth)
  {
    LinePrints(st.(indent := depth), "]" + ("" + "\n"), "}\n");
    assert "" + "\n" == "\n";
    Assoc("]", "\n", "}\n");
  }

  // How it is read.

  /** A value, a comma, and then something else than a key. */
  lemma UnclosedObject(key: string, id: string, n: int, rest: string)
    requires PlainKey(key) && SkipSpace(rest) != "" && SkipSpace(rest)[0] != '"'
    ensures ReadValue(BareText(key, id, n, rest)).Refused?
  {
    var after, member := ",\n" + rest, KeyText(key, QuoteText(id, ",\n" + rest));
    TextReadsBack(id, after);
    MemberReadsBack(key, QuoteText(id, after), JString(CText(id)), after);
    CommaLine(rest);
    NextMemberRefused((key, JString(CText(id))), after, SkipSpace(rest));
    RefusedObject(n + 1, member);
  }

  lemma RefusedInner(inner: string)
    requires SkipSpace(inner) != "" && SkipSpace(inner)[0] != '}' && ReadMembers(SkipSpace(inner)).Refused?
    ensures ReadValue(['{'] + inner).Refused?
  {
    assert (['{'] + inner)[1..] == inner;
  }

  lemma RefusedObject(indent: int, member: string)
    requires member != "" && member[0] == '"' && ReadMembers(member).Refused?
    ensures ReadValue("{\n" + (Indent(indent) + member)).Refused?
  {
    var inner := ['\n'] + (Indent(indent) + member);
    SkipIndent(indent, member);
    assert "{\n" + (Indent(indent) + member) == ['{'] + inner;
    RefusedInner(inner);
  }

  /** What follows a bare stage is a comma or the closing bracket, one deeper. */
  lemma BehindBare(stages: seq<Stage>, n: int, tail: string)
    requires SkipSpace(tail) != "" && SkipSpace(tail)[0] == ']'
    ensures var text := SkipSpace(StagesText(stages, false, n, tail)); text != "" && text[0] != '"'
  {
    if stages != [] {
      var row := match stages[0]
        case Reflected(members) => ItemText(Nested(members), n, "\n" + StagesText(stages[1..], false, n, tail))
        case Bare(key, id) => BareText(key, id, n, StagesText(stages[1..], false, n + 1, tail));
      SkipIndent(n, ",\n" + row);
    }
  }

  /** The text of the first stage on, without what stands in front of it. */
  function RowText(stages: seq<Stage>, n: int, tail: string): string
    requires stages != []
  {
    match stages[0]
    case Reflected(members) => ItemText(Nested(members), n, "\n" + StagesText(stages[1..], false, n, tail))
    case Bare(key, id) => BareText(key, id, n, StagesText(stages[1..], false, n + 1, tail))
  }

  /** From the first stage on, a list with a bare stage is no list of values. */
  lemma {:induction false} BareRowsRefused(stages: seq<Stage>, n: int, tail: string)
    requires stages != [] && PlainStages(stages) && AnyBare(stages)
    requires SkipSpace(tail) != "" && SkipSpace(tail)[0] == ']'
    ensures RowText(stages, n, tail) != "" && RowText(stages, n, tail)[0] == '{'
    ensures ReadItems(RowText(stages, n, tail)).Refused?
    decreases |stages|
  {
    match stages[0]
    case Bare(key, id) =>
      BehindBare(stages[1..], n + 1, tail);
      UnclosedObject(key, id, n, StagesText(stages[1..], false, n + 1, tail));
    case Reflected(members) =>
      var i :| 0 <= i < |stages| && stages[i].Bare?;
      assert stages[1..][i - 1].Bare?;
      BareRowsRefused(stages[1..], n, tail);
      var next := RowText(stages[1..], n, tail);
      var more := Indent(n) + (",\n" + next);
      assert StagesText(stages[1..], false, n, tail) == more;
      ItemReadsBack(Nested(members), n, "\n" + more);
      CommaThenRefused(RowText(stages, n, tail), ItemJson(Nested(members)), n, next);
  }

  lemma CommaThenRefused(text: string, value: Json, n: int, next: string)
    requires ReadsBack(text, value, "\n" + (Indent(n) + (",\n" + next)))
    requires next != "" && !IsSpace(next[0]) && ReadItems(next).Refused?
    ensures ReadItems(text).Refused?
  {
    var more := Indent(n) + (",\n" + next);
    assert ("\n" + more)[1..] == more;
    SkipIndent(n, ",\n" + next);
    CommaLine(next);
    NextItemRefused(value, ",\n" + next, next);
  }

  lemma NextItemRefused(first: Json, after: string, more: string)
    requires after != "" && after[0] == ',' && SkipSpace(after[1..]) == more && ReadItems(more).Refused?
    ensures MoreItems(first, SkipSpace(after)).Refused?
  {
  }

  lemma NextMemberRefused(first: (string, Json), after: string, more: string)
    requires after != "" && after[0] == ',' && SkipSpace(after[1..]) == more && ReadMembers(more).Refused?
    ensures MoreMembers(first, SkipSpace(after)).Refused?
  {
  }

  lemma RefusedArray(rows: string)
    requires SkipSpace(rows) != "" && SkipSpace(rows)[0] == '{' && ReadItems(SkipSpace(rows)).Refused?
    ensures ReadValue("[\n" + rows).Refused?
  {
    assert ("[\n" + rows)[1..] == ['\n'] + rows;
  }

  lemma RefusedMember(key: string, text: string)
    requires PlainKey(key) && text != "" && !IsSpace(text[0]) && ReadValue(text).Refused?
    ensures ReadMembers(KeyText(key, text)).Refused?
  {
    KeyThenValue(key, text);
    ColonThen(text);
  }

  /** Members in front of what is refused do not help. */
  lemma {:induction false} OpenRefused(members: seq<Member>, n: int, rest: string)
    requires PlainMembers(members) && SkipSpace(rest) != "" && SkipSpace(rest)[0] == '"'
    requires ReadMembers(SkipSpace(rest)).Refused?
    ensures var text := SkipSpace(OpenText(members, n, rest));
            text != "" && text[0] == '"' && ReadMembers(text).Refused?
    decreases |members|
  {
    if members != [] {
      var key, node, more := members[0].key, members[0].node, OpenText(members[1..], n, rest);
      OpenRefused(members[1..], n, rest);
      var after := ",\n" + more;
      NodeReadsBack(node, n, after);
      MemberReadsBack(key, NodeText(node, n, after), NodeJson(node), after);
      CommaLine(more);
      NextMemberRefused((key, NodeJson(node)), after, SkipSpace(more));
      SkipIndent(n, KeyText(key, NodeText(node, n, after)));
    }
  }

  /** The stages' own member, when one of them is bare. */
  lemma BareMemberRefused(name: string, stages: seq<Stage>, depth: int)
    requires PlainKey(name) && PlainStages(stages) && AnyBare(stages)
    ensures ReadMembers(KeyText(name, "[\n" + StagesText(stages, true, 2, ClosingText(depth)))).Refused?
  {
    var closing := ClosingText(depth);
    var rows := StagesText(stages, true, 2, closing);
    var row := RowText(stages, 2, closing);
    ClosingReadsBack(depth, ']', "\n" + "}\n");
    BareRowsRefused(stages, 2, closing);
    assert Separator(true) + row == row;
    assert rows == Indent(2) + row;
    SkipIndent(2, row);
    RefusedArray(rows);
    RefusedMember(name, "[\n" + rows);
  }

  /** A document about bound shaders with a stage that has no reflection is not JSON. */
  lemma BareStageIsRefused(header: seq<Member>, name: string, stages: seq<Stage>)
    requires PlainMembers(header) && PlainKey(name) && PlainStages(stages) && AnyBare(stages)
    ensures ReadText(Run(OPENED, ShadersCalls(header, name, stages)).out + "}\n").Refused?
  {
    ShadersPrint(OPENED, header, name, stages);
    BareTextRefused(header, name, stages);
  }

  lemma BareTextRefused(header: seq<Member>, name: string, stages: seq<Stage>)
    requires PlainMembers(header) && PlainKey(name) && PlainStages(stages) && AnyBare(stages)
    ensures ReadText(ShadersText(header, name, stages)).Refused?
  {
    var rows := StagesText(stages, true, 2, ClosingText(1 + BareCount(stages)));
    BareMemberRefused(name, stages, 1 + BareCount(stages));
    SkipIndent(1, KeyText(name, "[\n" + rows));
    OpenRefused(header, 1, ArrayText(name, rows));
    RefusedMembers(OpenText(header, 1, ArrayText(name, rows)));
  }

  lemma RefusedMembers(inner: string)
    requires SkipSpace(inner) != "" && SkipSpace(inner)[0] == '"' && ReadMembers(SkipSpace(inner)).Refused?
    ensures ReadText("{\n" + inner).Refused?
  {
    assert ("{\n" + inner)[1..] == ['\n'] + inner;
  }

  // Without a bare stage the document is a tree's.

  function StageItems(stages: seq<Stage>): seq<Item>
    requires !AnyBare(stages)
  {
    seq(|stages|, i requires 0 <= i < |stages| => assert stages[i].Reflected?; Nested(stages[i].members))
  }

  lemma ItemsRest(stages: seq<Stage>)
    requires stages != [] && !AnyBare(stages)
    ensures !AnyBare(stages[1..]) && StageItems(stages)[1..] == StageItems(stages[1..])
  {
  }

  lemma {:induction false} StagesAreItems(stages: seq<Stage>)
    requires !AnyBare(stages)
    ensures StagesCalls(stages) == ItemCalls(StageItems(stages))
    ensures PlainStages(stages) ==> PlainItems(StageItems(stages))
    decreases |stages|
  {
    if stages != [] {
      assert forall i | 0 <= i < |stages| - 1 :: stages[1..][i] == stages[i + 1];
      StagesAreItems(stages[1..]);
      ItemsRest(stages);
    }
  }

  lemma {:induction false} OpenThenLast(header: seq<Member>, last: Member)
    ensures MemberCalls(header + [last]) == OpenCalls(header) + NodeCalls(last.key, last.node, true)
    ensures PlainMembers(header) && PlainKey(last.key) && PlainKeys(last.node) ==> PlainMembers(header + [last])
    decreases |header|
  {
    var all := header + [last];
    if header == [] {
      assert all == [last] && all[1..] == [];
    } else {
      assert all[1..] == header[1..] + [last];
      OpenThenLast(header[1..], last);
      Assoc(NodeCalls(header[0].key, header[0].node, false), OpenCalls(header[1..]), NodeCalls(last.key, last.node, true));
    }
  }

  /** Whatever its header and its stages, the document is read exactly when every bound stage has its
      reflection; and then it is read as the tree it stands for. */
  lemma ShadersReadBack(header: seq<Member>, name: string, stages: seq<Stage>)
    requires PlainMembers(header) && PlainKey(name) && PlainStages(stages)
    ensures var text := Run(OPENED, ShadersCalls(header, name, stages)).out + "}\n";
            (ReadText(text).Read? <==> !AnyBare(stages))
            && (!AnyBare(stages) ==>
                  ReadText(text) == Read(JObject(MembersJson(header + [Member(name, Array(StageItems(stages)))])), ""))
  {
    if AnyBare(stages) {
      BareStageIsRefused(header, name, stages);
    } else {
      var last := Member(name, Array(StageItems(stages)));
      StagesAreItems(stages);
      OpenThenLast(header, last);
      DocumentReadsBack(header + [last]);
    }
  }

  /** The smallest such document: one bare stage alone. */
  lemma AbandonedObjectIsRefused(key: string, id: string)
    requires PlainKey(key)
    ensures ReadText(Run(OPENED, ShadersCalls([], "stages", [Bare(key, id)])).out + "}\n").Refused?
  {
    assert [Bare(key, id)][0].Bare?;
    BareStageIsRefused([], "stages", [Bare(key, id)]);
  }
}
