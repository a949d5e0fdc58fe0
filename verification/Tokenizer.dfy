/** The command line of an interactive session, split into arguments (src/cpp/replay_dump.cpp). */
module Tokenizer {
  import opened Basics

  const JSON_FLAG := "--json"
  const DISASM_FLAG := "--disasm"
  const SAVE_FLAG := "--save"

  /** The splitter between two characters. */
  datatype State =
    State(token: string, quoted: bool, wantSaveDir: bool, args: seq<string>, json: bool, disasm: bool, saveDir: string)

  predicate Blank(c: char) { c == ' ' || c == '\t' }

  /** A finished token: an option, the directory an option waits for, or an argument. */
  function Finish(s: State): State {
    if s.token == "" then s
    else if s.token == JSON_FLAG then s.(token := "", json := true)
    else if s.token == DISASM_FLAG then s.(token := "", disasm := true)
    else if s.token == SAVE_FLAG then s.(token := "", wantSaveDir := true)
    else if s.wantSaveDir then s.(token := "", wantSaveDir := false, saveDir := s.token)
    else s.(token := "", args := s.args + [s.token])
  }

  function Step(s: State, c: char): State {
    if c == '"' then s.(quoted := !s.quoted)
    else if !s.quoted && Blank(c) then Finish(s)
    else s.(token := s.token + [c])
  }

  function Steps(s: State, line: string): State {
    if line == "" then s else Step(Steps(s, line[..|line| - 1]), line[|line| - 1])
  }

  /** The line splits as if a blank followed it; so what an open quote at its end has gathered is lost. */
  method SplitLine(line: string, args: seq<string>, json: bool, disasm: bool, saveDir: string)
    returns (newArgs: seq<string>, newJson: bool, newDisasm: bool, newSaveDir: string)
    ensures var s := Steps(State("", false, false, args, json, disasm, saveDir), line + [' ']);
            newArgs == s.args && newJson == s.json && newDisasm == s.disasm && newSaveDir == s.saveDir
    ensures var s := Steps(State("", false, false, args, json, disasm, saveDir), line); s.quoted ==> newArgs == s.args
  {
    newArgs, newJson, newDisasm, newSaveDir := args, json, disasm, saveDir;
    var token, quoted, wantSaveDir := "", false, false;
    ghost var start := State("", false, false, args, json, disasm, saveDir);
    ghost var all := line + [' '];
    for i := 0 to |line| + 1
      invariant State(token, quoted, wantSaveDir, newArgs, newJson, newDisasm, newSaveDir) == Steps(start, all[..i])
    {
      assert all[..i + 1][..i] == all[..i];
      var c := if i < |line| then line[i] else ' ';
      if c == '"' {
        quoted := !quoted;
        continue;
      }
      if !quoted && Blank(c) {
        if token == "" {
          continue;
        }
        if token == JSON_FLAG {
          newJson := true;
        } else if token == DISASM_FLAG {
          newDisasm := true;
        } else if token == SAVE_FLAG {
          wantSaveDir := true;
        } else if wantSaveDir {
          newSaveDir, wantSaveDir := token, false;
        } else {
          newArgs := newArgs + [token];
        }
        token := "";
        continue;
      }
      token := token + [c];
    }
    assert all[..|line| + 1] == all;
  }

  // ------------------------------------------------------------------ quoting, then splitting

  function Quoted(arg: string): string {
    ['"'] + arg + ['"']
  }

  /** Every argument quoted, with one blank between two. */
  function JoinQuoted(args: seq<string>): string {
    if args == [] then ""
    else if |args| == 1 then Quoted(args[0])
    else JoinQuoted(args[..|args| - 1]) + [' '] + Quoted(args[|args| - 1])
  }

  /** An argument that a line can carry. */
  predicate Plain(arg: string) {
    arg != "" && '"' !in arg && arg != JSON_FLAG && arg != DISASM_FLAG && arg != SAVE_FLAG
  }

  lemma {:induction false} StepsConcat(s: State, a: string, b: string)
    ensures Steps(s, a + b) == Steps(Steps(s, a), b)
  {
    if b == "" {
      assert a + b == a;
    } else {
      StepsConcat(s, a, b[..|b| - 1]);
      assert (a + b)[..|a + b| - 1] == a + b[..|b| - 1];
    }
  }

  lemma {:induction false} InsideQuotes(s: State, text: string)
    requires s.quoted && '"' !in text
    ensures Steps(s, text) == s.(token := s.token + text)
  {
    if text == "" {
      assert s.token + text == s.token;
    } else {
      InsideQuotes(s, text[..|text| - 1]);
      assert text == text[..|text| - 1] + [text[|text| - 1]];
    }
  }

  lemma One(s: State, c: char)
    ensures Steps(s, [c]) == Step(s, c)
  {
    assert Steps(s, [c][..0]) == s;
  }

  lemma QuotedIsToken(s: State, arg: string)
    requires !s.quoted && s.token == "" && '"' !in arg
    ensures Steps(s, Quoted(arg)) == s.(token := arg)
  {
    var open := s.(quoted := true);
    One(s, '"');
    StepsConcat(s, ['"'], arg);
    InsideQuotes(open, arg);
    StepsConcat(s, ['"'] + arg, ['"']);
    One(open.(token := arg), '"');
  }

  lemma QuotedIsArgument(s: State, arg: string)
    requires !s.quoted && s.token == "" && !s.wantSaveDir && Plain(arg)
    ensures Steps(s, Quoted(arg) + [' ']) == s.(args := s.args + [arg])
  {
    QuotedIsToken(s, arg);
    StepsConcat(s, Quoted(arg), [' ']);
    One(s.(token := arg), ' ');
  }

  lemma NothingSplits(s: State)
    requires !s.quoted && s.token == ""
    ensures Steps(s, JoinQuoted([]) + [' ']) == s
  {
    assert JoinQuoted([]) + [' '] == [' '];
    One(s, ' ');
  }

  lemma NextSplits(s: State, text: string, init: seq<string>, last: string)
    requires !s.quoted && s.token == "" && !s.wantSaveDir && Plain(last) && Steps(s, text) == s.(args := s.args + init)
    ensures Steps(s, (text + Quoted(last)) + [' ']) == s.(args := (s.args + init) + [last])
  {
    QuotedIsArgument(s.(args := s.args + init), last);
    StepsConcat(s, text, Quoted(last) + [' ']);
    Assoc(text, Quoted(last), [' ']);
  }

  lemma {:induction false} JoinedSplits(s: State, args: seq<string>)
    requires !s.quoted && s.token == "" && !s.wantSaveDir && forall a | a in args :: Plain(a)
    ensures Steps(s, JoinQuoted(args) + [' ']) == s.(args := s.args + args)
  {
    if args == [] {
      NothingSplits(s);
      assert s.args + args == s.args;
    } else {
      var init, last := args[..|args| - 1], args[|args| - 1];
      if |args| == 1 {
        QuotedIsArgument(s, last);
      } else {
        JoinedSplits(s, init);
        NextSplits(s, JoinQuoted(init) + [' '], init, last);
        Reassemble(s.args, args);
      }
    }
  }

  lemma Reassemble<T>(before: seq<T>, s: seq<T>)
    requires s != []
    ensures (before + s[..|s| - 1]) + [s[|s| - 1]] == before + s
  {
  }

  /** What every state keeps: no token or argument holds a quote, and no argument is empty or an option. */
  predicate Clean(s: State) {
    '"' !in s.token && forall a | a in s.args :: Plain(a)
  }

  lemma {:induction false} StaysClean(s: State, line: string)
    requires Clean(s)
    ensures Clean(Steps(s, line))
  {
    if line != "" {
      StaysClean(s, line[..|line| - 1]);
    }
  }

  /** A list of arguments survives quoting and splitting exactly when every one is plain; then no option changes. */
  lemma RoundTrip(args: seq<string>, json: bool, disasm: bool, saveDir: string)
    ensures var s := Steps(State("", false, false, [], json, disasm, saveDir), JoinQuoted(args) + [' ']);
            s.args == args <==> forall a | a in args :: Plain(a)
    ensures (forall a | a in args :: Plain(a)) ==>
              Steps(State("", false, false, [], json, disasm, saveDir), JoinQuoted(args) + [' '])
              == State("", false, false, args, json, disasm, saveDir)
  {
    var start := State("", false, false, [], json, disasm, saveDir);
    StaysClean(start, JoinQuoted(args) + [' ']);
    if forall a | a in args :: Plain(a) {
      JoinedSplits(start, args);
      assert [] + args == args;
    }
  }

  // ------------------------------------------------------------------ words and options

  /** A word: not empty, without blanks or quotes. */
  predicate Word(s: string) {
    s != "" && forall i | 0 <= i < |s| :: s[i] != ' ' && s[i] != '\t' && s[i] != '"'
  }

  lemma {:induction false} WordIsToken(s: State, word: string)
    requires !s.quoted && forall i | 0 <= i < |word| :: word[i] != ' ' && word[i] != '\t' && word[i] != '"'
    ensures Steps(s, word) == s.(token := s.token + word)
  {
    if word == "" {
      assert s.token + word == s.token;
    } else {
      var n := |word| - 1;
      WordIsToken(s, word[..n]);
      assert s.token + word == (s.token + word[..n]) + [word[n]];
    }
  }

  /** What one word behind the last blank does: the three options are taken, the directory behind `--save` is taken,
      anything else is an argument. */
  function Taken(s: State, word: string): State {
    if word == "--json" then s.(json := true)
    else if word == "--disasm" then s.(disasm := true)
    else if word == "--save" then s.(wantSaveDir := true)
    else if s.wantSaveDir then s.(wantSaveDir := false, saveDir := word)
    else s.(args := s.args + [word])
  }

  lemma WordIsTaken(s: State, word: string, blank: char)
    requires !s.quoted && s.token == "" && Word(word) && (blank == ' ' || blank == '\t')
    ensures Steps(s, word + [blank]) == Taken(s, word)
  {
    WordIsToken(s, word);
    assert "" + word == word;
    StepsConcat(s, word, [blank]);
    One(s.(token := word), blank);
    WordFinishes(s, s.(token := word), word);
  }

  lemma WordFinishes(s: State, with: State, word: string)
    requires s.token == "" && word != "" && with == s.(token := word)
    ensures Finish(with) == Taken(s, word)
  {
    assert "--json"[2] == 'j' && "--disasm"[2] == 'd' && "--save"[2] == 's';
  }

  /** The words of a line, each with a blank or a tab behind it. */
  function Line(words: seq<string>, blanks: string): string
    requires |blanks| == |words|
  {
    if words == [] then ""
    else Line(words[..|words| - 1], blanks[..|words| - 1]) + (words[|words| - 1] + [blanks[|words| - 1]])
  }

  function TakenAll(s: State, words: seq<string>): State {
    if words == [] then s else Taken(TakenAll(s, words[..|words| - 1]), words[|words| - 1])
  }

  lemma {:induction false} WordsAreTaken(s: State, words: seq<string>, blanks: string)
    requires |blanks| == |words| && !s.quoted && s.token == "" && (forall w | w in words :: Word(w))
    requires forall i | 0 <= i < |blanks| :: blanks[i] == ' ' || blanks[i] == '\t'
    ensures Steps(s, Line(words, blanks)) == TakenAll(s, words)
    ensures !TakenAll(s, words).quoted && TakenAll(s, words).token == ""
  {
    if words != [] {
      var n := |words| - 1;
      WordsAreTaken(s, words[..n], blanks[..n]);
      StepsConcat(s, Line(words[..n], blanks[..n]), words[n] + [blanks[n]]);
      WordIsTaken(TakenAll(s, words[..n]), words[n], blanks[n]);
    }
  }

  function Others(words: seq<string>): seq<string> {
    if words == [] then []
    else
      var last := words[|words| - 1];
      Others(words[..|words| - 1]) + if last == "--json" || last == "--disasm" then [] else [last]
  }

  /** A line of unquoted words without `--save`: each flag is up exactly when it was or stands in the line, and the
      arguments are the other words in their order. */
  lemma {:induction false} FlagsAreTaken(s: State, words: seq<string>)
    requires !s.wantSaveDir && "--save" !in words
    ensures TakenAll(s, words)
            == s.(args := s.args + Others(words), json := s.json || "--json" in words, disasm := s.disasm || "--disasm" in words)
  {
    if words == [] {
      assert s.args + [] == s.args;
    } else {
      var init, last := words[..|words| - 1], words[|words| - 1];
      assert words == init + [last];
      FlagsAreTaken(s, init);
      Assoc(s.args, Others(init), [last]);
      assert s.args + (Others(init) + []) == s.args + Others(init);
      assert "--json"[2] == 'j' && "--disasm"[2] == 'd' && "--save"[2] == 's';
    }
  }

  /** `--save` takes the word behind it for the directory, and that word is no argument. */
  lemma SaveTakesNext(s: State, dir: string)
    requires !s.wantSaveDir && dir !in ["--json", "--disasm", "--save"]
    ensures TakenAll(s, ["--save", dir]) == s.(saveDir := dir)
  {
    assert ["--save", dir][..1] == ["--save"] && ["--save"][..0] == [];
    assert "--json"[2] == 'j' && "--disasm"[2] == 'd' && "--save"[2] == 's';
    assert TakenAll(s, ["--save"]) == Taken(s, "--save") == s.(wantSaveDir := true);
  }
}
