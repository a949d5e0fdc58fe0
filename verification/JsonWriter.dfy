/**
 The JSON writer every command prints through: an indent counter, a first-row flag and a stack of saved
 flags (src/cpp/output.cpp).  `Step` says what one call does to that state; the class is the writer
 itself; and the text that the calls of a document tree print is shown to read back as that tree.
 The writer's text mode is not part of this model.
 */
module JsonWriter {
  import opened Basics
  import opened Decimal
  import opened JsonText

  // ------------------------------------------------------------------ the calls and their effect

  datatype Call =
    | FieldText(key: string, text: string, last: bool)
    | FieldInt(key: string, value: int, last: bool)
    | Flag(key: string, holds: bool, last: bool)
    | ArrayOpen(key: string)
    | ArrayClose(last: bool)
    | Row(text: string)
    | ObjectRow(text: string)
    | ObjectOpen
    | ObjectOpenKey(key: string)
    | ObjectClose(last: bool)

  datatype State = State(out: string, indent: int, firstRow: bool, stack: seq<bool>)

  function Indent(n: int): string {
    if n <= 0 then "" else "  " + Indent(n - 1)
  }

  function Comma(last: bool): string {
    if last then "" else ","
  }

  function BoolText(holds: bool): string {
    if holds then "true" else "false"
  }

  function Separator(firstRow: bool): string {
    if firstRow then "" else ",\n"
  }

  // A text function takes the text that follows, so that a text is a nest of "this, then the rest".

  /** A quoted string. */
  function QuoteText(text: string, rest: string): string {
    "\"" + (Escape(text) + ("\"" + rest))
  }

  /** A key, printed as it stands. */
  function KeyText(key: string, rest: string): string {
    "\"" + (key + ("\": " + rest))
  }

  function Line(st: State, text: string): State {
    st.(out := st.out + (Indent(st.indent) + text))
  }

  function Step(st: State, call: Call): State {
    match call
    case FieldText(key, text, last) =>
      Line(st, KeyText(key, QuoteText(text, Comma(last) + "\n")))
    case FieldInt(key, value, last) =>
      Line(st, KeyText(key, IntText(value) + (Comma(last) + "\n")))
    case Flag(key, holds, last) =>
      Line(st, KeyText(key, BoolText(holds) + (Comma(last) + "\n")))
    case ArrayOpen(key) =>
      var printed := Line(st, KeyText(key, "[\n"));
      State(printed.out, st.indent + 1, true, st.stack + [st.firstRow])
    case ArrayClose(last) =>
      var n := |st.stack|;
      var printed := Line(st.(indent := st.indent - 1), "]" + (Comma(last) + "\n"));
      if n == 0 then printed else printed.(firstRow := st.stack[n - 1], stack := st.stack[..n - 1])
    case Row(text) =>
      Line(st, Separator(st.firstRow) + QuoteText(text, "\n")).(firstRow := false)
    case ObjectRow(text) =>
      Line(st, Separator(st.firstRow) + (text + "\n")).(firstRow := false)
    case ObjectOpen =>
      Line(st, Separator(st.firstRow) + "{\n").(indent := st.indent + 1, firstRow := false)
    case ObjectOpenKey(key) =>
      Line(st, KeyText(key, "{\n")).(indent := st.indent + 1)
    case ObjectClose(last) =>
      Line(st.(indent := st.indent - 1), "}" + (Comma(last) + "\n"))
  }

  function Run(st: State, calls: seq<Call>): State
    decreases |calls|
  {
    if calls == [] then st else Run(Step(st, calls[0]), calls[1..])
  }

  // ------------------------------------------------------------------ the writer

  class Writer {
    var stdout: string
    var indent: int
    var firstRow: bool
    var firstRowStack: seq<bool>

    constructor ()
      ensures St() == State("", 0, true, [])
    {
      stdout, indent, firstRow, firstRowStack := "", 0, true, [];
    }

    function St(): State
      reads this
    {
      State(stdout, indent, firstRow, firstRowStack)
    }

    method PrintIndent()
      modifies this`stdout
      ensures stdout == old(stdout) + Indent(indent)
    {
      var i := indent;
      while i > 0
        invariant stdout + Indent(i) == old(stdout) + Indent(indent)
      {
        stdout := stdout + "  ";
        i := i - 1;
      }
    }

    /** Every print of the writer: the indentation, then the text. */
    method Print(text: string)
      modifies this`stdout
      ensures stdout == old(stdout) + (Indent(indent) + text)
    {
      PrintIndent();
      Assoc(old(stdout), Indent(indent), text);
      stdout := stdout + text;
    }

    method FieldText(key: string, value: string, last: bool)
      modifies this
      ensures St() == Step(old(St()), Call.FieldText(key, value, last))
    {
      var escaped := JsonEscape(value);
      Print(KeyText(key, "\"" + (escaped + ("\"" + (Comma(last) + "\n")))));
    }

    method FieldInt(key: string, value: int, last: bool)
      modifies this
      ensures St() == Step(old(St()), Call.FieldInt(key, value, last))
    {
      Print(KeyText(key, IntText(value) + (Comma(last) + "\n")));
    }

    method Flag(key: string, holds: bool, last: bool)
      modifies this
      ensures St() == Step(old(St()), Call.Flag(key, holds, last))
    {
      Print(KeyText(key, BoolText(holds) + (Comma(last) + "\n")));
    }

    method ArrayOpen(key: string)
      modifies this
      ensures St() == Step(old(St()), Call.ArrayOpen(key))
    {
      Print(KeyText(key, "[\n"));
      firstRowStack := firstRowStack + [firstRow];
      indent := indent + 1;
      firstRow := true;
    }

    method ArrayClose(last: bool)
      modifies this
      ensures St() == Step(old(St()), Call.ArrayClose(last))
    {
      indent := indent - 1;
      Print("]" + (Comma(last) + "\n"));
      if firstRowStack != [] {
        firstRow := firstRowStack[|firstRowStack| - 1];
        firstRowStack := firstRowStack[..|firstRowStack| - 1];
      }
    }

    /** The separator in front of the next item, and the bookkeeping for the one after it. */
    method TakeSeparator() returns (separator: string)
      modifies this`firstRow
      ensures separator == Separator(old(firstRow)) && !firstRow
    {
      separator := if firstRow then "" else ",\n";
      firstRow := false;
    }

    method Row(text: string)
      modifies this
      ensures St() == Step(old(St()), Call.Row(text))
    {
      var separator := TakeSeparator();
      var escaped := JsonEscape(text);
      Print(separator + ("\"" + (escaped + ("\"" + "\n"))));
    }

    method ObjectRow(text: string)
      modifies this
      ensures St() == Step(old(St()), Call.ObjectRow(text))
    {
      var separator := TakeSeparator();
      Print(separator + (text + "\n"));
    }

    method ObjectOpen()
      modifies this
      ensures St() == Step(old(St()), Call.ObjectOpen)
    {
      var separator := TakeSeparator();
      Print(separator + "{\n");
      indent := indent + 1;
    }

    method ObjectOpenKey(key: string)
      modifies this
      ensures St() == Step(old(St()), Call.ObjectOpenKey(key))
    {
      Print(KeyText(key, "{\n"));
      indent := indent + 1;
    }

    method ObjectClose(last: bool)
      modifies this
      ensures St() == Step(old(St()), Call.ObjectClose(last))
    {
      indent := indent - 1;
      Print("}" + (Comma(last) + "\n"));
    }
  }

  // ------------------------------------------------------------------ the texts themselves

  lemma OneIndent()
    ensures Indent(0) == "" && Indent(1) == "  " && Indent(2) == "    "
  {
    assert Indent(1) == "  " + Indent(0) == "  ";
    assert Indent(2) == "  " + Indent(1) == "    ";
  }

  lemma PlainTexts()
    ensures Escape("b") == "b" && IntText(7) == "7"
  {
    assert "b"[1..] == "" && EscapeChar('b') == "b" && Escape("") == "";
    assert "b" + "" == "b" && DigitOf(7) == '7';
  }

  /** What a string member prints, one level in; a number and a flag; and the openings. */
  lemma TextMember()
    ensures Step(State("", 1, true, []), FieldText("a", "b", false)).out == "  \"a\": \"b\",\n"
  {
    OneIndent();
    PlainTexts();
    assert Comma(false) + "\n" == ",\n";
    assert "\"" + ("b" + ("\"" + ",\n")) == "\"b\",\n" && "\"" + ("a" + ("\": " + "\"b\",\n")) == "\"a\": \"b\",\n";
  }

  lemma NumberMember()
    ensures Step(State("", 1, true, []), FieldInt("n", 7, true)).out == "  \"n\": 7\n"
  {
    OneIndent();
    PlainTexts();
    assert Comma(true) + "\n" == "\n";
    assert "7" + "\n" == "7\n" && "\"" + ("n" + ("\": " + "7\n")) == "\"n\": 7\n";
  }

  lemma FlagMember()
    ensures Step(State("", 1, true, []), Flag("f", true, false)).out == "  \"f\": true,\n"
  {
    OneIndent();
    assert Comma(false) + "\n" == ",\n";
    assert "true" + ",\n" == "true,\n" && "\"" + ("f" + ("\": " + "true,\n")) == "\"f\": true,\n";
  }

  lemma Openings()
    ensures Step(State("", 1, true, []), ArrayOpen("x")).out == "  \"x\": [\n"
    ensures Step(State("", 1, true, []), ObjectOpenKey("o")).out == "  \"o\": {\n"
  {
    OneIndent();
    assert "\"" + ("x" + ("\": " + "[\n")) == "\"x\": [\n" && "\"" + ("o" + ("\": " + "{\n")) == "\"o\": {\n";
  }

  /** And what the items of an array print: the first one without a separator, the next one with it, and the closings. */
  lemma ItemTexts()
    ensures Step(State("", 1, true, []), Row("b")).out == "  \"b\"\n"
    ensures Step(State("", 1, false, []), Row("b")).out == "  ,\n\"b\"\n"
    ensures Step(State("", 1, false, []), ObjectRow("{}")).out == "  ,\n{}\n"
    ensures Step(State("", 1, true, []), ObjectOpen).out == "  {\n"
    ensures Step(State("", 2, false, []), ObjectClose(false)).out == "  },\n"
    ensures Step(State("", 2, false, []), ArrayClose(true)).out == "  ]\n"
  {
    OneIndent();
    PlainTexts();
    assert Comma(false) + "\n" == ",\n" && Comma(true) + "\n" == "\n";
    assert "\"" + ("b" + ("\"" + "\n")) == "\"b\"\n" && "" + "\"b\"\n" == "\"b\"\n" && ",\n" + "\"b\"\n" == ",\n\"b\"\n";
    assert "{}" + "\n" == "{}\n" && ",\n" + "{}\n" == ",\n{}\n" && "" + "{\n" == "{\n";
    assert "}" + ",\n" == "},\n" && "]" + "\n" == "]\n";
  }
}
