/** What the text of a watched value tells of the value (src/cpp/text.cpp, src/cpp/commands_watch.cpp). */
module WatchValues {
  import opened Basics
  import opened Watch

  // ------------------------------------------------------------------ what a text shows

  /** What is printed of a value: its first sixteen components, its members, or nothing of a struct nested too deep. */
  datatype Shown = Components(texts: seq<string>) | Members(list: seq<(string, Shown)>) | Hidden

  function ShownOf(v: Variable, depth: nat): Shown
    decreases v
  {
    if v.members == [] then Components(if |v.components| < 16 then v.components else v.components[..16])
    else if depth >= 16 then Hidden
    else Members(MembersOf(v.members, depth))
  }

  function MembersOf(members: seq<Variable>, depth: nat): (list: seq<(string, Shown)>)
    decreases members
  {
    if members == [] then [] else [(members[0].name, ShownOf(members[0], depth + 1))] + MembersOf(members[1..], depth)
  }

  /** A character that no separator holds. */
  predicate Token(c: char) {
    c !in "=,|{} "
  }

  /** A name, or a component as numbers print: not empty, no separator in it, and not the dash that stands for none. */
  predicate Tidy(s: string) {
    s != "" && s != "-" && forall i | 0 <= i < |s| :: Token(s[i])
  }

  /** Every name and every component is tidy. */
  predicate AllTidy(v: Variable)
    decreases v
  {
    Tidy(v.name) && (forall i | 0 <= i < |v.components| :: Tidy(v.components[i])) && TidyMembers(v.members)
  }

  predicate TidyMembers(members: seq<Variable>)
    decreases members
  {
    members == [] || (AllTidy(members[0]) && TidyMembers(members[1..]))
  }

  // ------------------------------------------------------------------ reading a text from the left

  /** Behind a token: nothing, or a character of a separator. */
  predicate Broken(s: string) {
    s == "" || !Token(s[0])
  }

  lemma {:induction false} TokensTell(x: string, a: string, y: string, b: string)
    requires (forall i | 0 <= i < |x| :: Token(x[i])) && (forall i | 0 <= i < |y| :: Token(y[i]))
    requires Broken(a) && Broken(b) && x + a == y + b
    ensures x == y && a == b
  {
    assert if x == "" then x + a == a else (x + a)[0] == x[0];
    assert if y == "" then y + b == b else (y + b)[0] == y[0];
    if x != "" && y != "" {
      assert (x + a)[1..] == x[1..] + a && (y + b)[1..] == y[1..] + b;
      TokensTell(x[1..], a, y[1..], b);
      assert x == [x[0]] + x[1..] && y == [y[0]] + y[1..];
    }
  }

  lemma HeadsTell(head: string, a: string, b: string)
    ensures head + a == head + b <==> a == b
  {
    if head + a == head + b {
      assert a == (head + a)[|head|..] && b == (head + b)[|head|..];
    }
  }

  /** What may stand behind a value: the end, the end of its struct, or the next member. */
  ghost predicate Stops(s: string) {
    s == "" || " }" <= s || exists name: string, rest: string :: Tidy(name) && s == ", " + (name + ("=" + rest))
  }

  lemma StopsBreak(s: string)
    requires Stops(s)
    ensures Broken(s)
  {
  }

  // ------------------------------------------------------------------ the components of a leaf

  function Between(v: Variable, k: nat): string {
    if v.columns > 0 && k % v.columns == 0 then " | " else ", "
  }

  /** The components from the `k`-th on, each behind its separator. */
  function TailText(v: Variable, k: nat, n: nat): string
    requires k <= n <= |v.components|
    decreases n - k
  {
    if k == n then "" else Between(v, k) + (v.components[k] + TailText(v, k + 1, n))
  }

  lemma {:induction false} TailNext(v: Variable, k: nat, n: nat)
    requires k <= n < |v.components|
    ensures TailText(v, k, n + 1) == TailText(v, k, n) + (Between(v, n) + v.components[n])
    decreases n - k
  {
    if k == n {
      assert v.components[n] + "" == v.components[n];
      assert "" + (Between(v, n) + v.components[n]) == Between(v, n) + v.components[n];
    } else {
      TailNext(v, k + 1, n);
      Assoc(v.components[k], TailText(v, k + 1, n), Between(v, n) + v.components[n]);
      Assoc(Between(v, k), v.components[k] + TailText(v, k + 1, n), Between(v, n) + v.components[n]);
    }
  }

  lemma {:induction false} TextFromLeft(v: Variable, n: nat)
    requires 0 < n <= |v.components|
    ensures ComponentsText(v, n) == v.components[0] + TailText(v, 1, n)
  {
    if n == 1 {
      assert ComponentsText(v, 0) + "" + v.components[0] == v.components[0] == v.components[0] + "";
    } else {
      TextFromLeft(v, n - 1);
      TailNext(v, 1, n - 1);
      Assoc(v.components[0], TailText(v, 1, n - 1), Between(v, n - 1) + v.components[n - 1]);
      Assoc(ComponentsText(v, n - 1), Between(v, n - 1), v.components[n - 1]);
    }
  }

  lemma TailBreaks(v: Variable, k: nat, n: nat, s: string)
    requires k <= n <= |v.components| && Stops(s)
    ensures Broken(TailText(v, k, n) + s)
    ensures k < n ==> TailText(v, k, n) != "" && TailText(v, k, n)[0] in ", "
  {
    StopsBreak(s);
    if k == n {
      assert "" + s == s;
    }
  }

  /** No component reads like the next member of a struct. */
  lemma NoMember(c: string, a: string, t: string)
    requires Tidy(c) && (a == "" || a[0] in ", ")
    requires Stops(t)
    ensures ", " + (c + a) != t && " | " + (c + a) != t
  {
    var other := " | " + (c + a);
    assert other[0] == ' ' && other[1] == '|';
    if ", " + (c + a) == t {
      assert t[0] == ',';
      var name: string, rest: string :| Tidy(name) && t == ", " + (name + ("=" + rest));
      HeadsTell(", ", c + a, name + ("=" + rest));
      TokensTell(c, a, name, "=" + rest);
    }
  }

  lemma BetweenTells(v: Variable, w: Variable, k: nat, a: string, b: string)
    requires Between(v, k) + a == Between(w, k) + b
    ensures Between(v, k) == Between(w, k) && a == b
  {
    assert (Between(v, k) + a)[0] == Between(v, k)[0] && (Between(w, k) + b)[0] == Between(w, k)[0];
    assert ", "[0] == ',' && " | "[0] == ' ';
    HeadsTell(Between(v, k), a, b);
  }

  /** One tail goes on where the other has ended: their texts differ. */
  lemma TailGoesOn(v: Variable, k: nat, n: nat, s: string, t: string)
    requires k < n <= |v.components| && Tidy(v.components[k]) && Stops(s) && Stops(t)
    ensures TailText(v, k, n) + s != t
  {
    var rest := TailText(v, k + 1, n) + s;
    TailBreaks(v, k + 1, n, s);
    if k + 1 == n {
      assert rest == s;
    }
    Assoc(v.components[k], TailText(v, k + 1, n), s);
    Assoc(Between(v, k), v.components[k] + TailText(v, k + 1, n), s);
    NoMember(v.components[k], rest, t);
  }

  lemma FirstAndRest(list: seq<string>, k: nat, n: nat)
    requires k < n <= |list|
    ensures list[k..n] == [list[k]] + list[k + 1..n]
  {
  }

  lemma TailFirst(v: Variable, n: nat, s: string, k: nat)
    requires k < n <= |v.components|
    ensures TailText(v, k, n) + s == Between(v, k) + (v.components[k] + (TailText(v, k + 1, n) + s))
  {
    Assoc(v.components[k], TailText(v, k + 1, n), s);
    Assoc(Between(v, k), v.components[k] + TailText(v, k + 1, n), s);
  }

  lemma TailStep(v: Variable, n: nat, s: string, w: Variable, m: nat, t: string, k: nat)
    requires k < n <= |v.components| && k < m <= |w.components| && Stops(s) && Stops(t)
    requires Tidy(v.components[k]) && Tidy(w.components[k])
    requires TailText(v, k, n) + s == TailText(w, k, m) + t
    ensures v.components[k] == w.components[k] && TailText(v, k + 1, n) + s == TailText(w, k + 1, m) + t
  {
    var a, b := TailText(v, k + 1, n) + s, TailText(w, k + 1, m) + t;
    TailFirst(v, n, s, k);
    TailFirst(w, m, t, k);
    TailBreaks(v, k + 1, n, s);
    TailBreaks(w, k + 1, m, t);
    BetweenTells(v, w, k, v.components[k] + a, w.components[k] + b);
    TokensTell(v.components[k], a, w.components[k], b);
  }

  lemma {:induction false} TailsTell(v: Variable, n: nat, s: string, w: Variable, m: nat, t: string, k: nat)
    requires k <= n <= |v.components| && k <= m <= |w.components| && Stops(s) && Stops(t)
    requires forall i | 0 <= i < |v.components| :: Tidy(v.components[i])
    requires forall i | 0 <= i < |w.components| :: Tidy(w.components[i])
    requires TailText(v, k, n) + s == TailText(w, k, m) + t
    ensures v.components[k..n] == w.components[k..m] && s == t
    decreases n - k
  {
    if k == n || k == m {
      assert "" + s == s && "" + t == t;
      if k < m {
        TailGoesOn(w, k, m, t, s);
      }
      if k < n {
        TailGoesOn(v, k, n, s, t);
      }
    } else {
      TailStep(v, n, s, w, m, t, k);
      TailsTell(v, n, s, w, m, t, k + 1);
      FirstAndRest(v.components, k, n);
      FirstAndRest(w.components, k, m);
    }
  }

  /** How many components are printed. */
  function Printed(v: Variable): (n: nat)
    ensures n <= |v.components|
  {
    if |v.components| < 16 then |v.components| else 16
  }

  lemma LeafText(v: Variable)
    requires v.members == [] && forall i | 0 <= i < |v.components| :: Tidy(v.components[i])
    ensures FormatValue(v, 0) == if v.components == [] then "-" else v.components[0] + TailText(v, 1, Printed(v))
  {
    if v.components != [] {
      TextFromLeft(v, Printed(v));
    }
  }

  lemma LeafDepth(v: Variable, depth: nat)
    requires v.members == []
    ensures FormatValue(v, depth) == FormatValue(v, 0)
  {
  }

  lemma DashTells(v: Variable, s: string, t: string)
    requires v.components != [] && Tidy(v.components[0]) && Stops(s) && Stops(t)
    ensures "-" + s != (v.components[0] + TailText(v, 1, Printed(v))) + t
  {
    var c, rest := v.components[0], TailText(v, 1, Printed(v)) + t;
    Assoc(c, TailText(v, 1, Printed(v)), t);
    TailBreaks(v, 1, Printed(v), t);
    StopsBreak(s);
    if "-" + s == c + rest {
      TokensTell("-", s, c, rest);
    }
  }

  /** Two leaves and what stands behind them. */
  lemma LeavesTell(v: Variable, s: string, w: Variable, t: string)
    requires v.members == [] && w.members == [] && AllTidy(v) && AllTidy(w) && Stops(s) && Stops(t)
    requires FormatValue(v, 0) + s == FormatValue(w, 0) + t
    ensures ShownOf(v, 0) == ShownOf(w, 0) && s == t
  {
    LeafText(v);
    LeafText(w);
    if v.components == [] && w.components == [] {
      HeadsTell("-", s, t);
    } else if v.components == [] {
      DashTells(w, s, t);
    } else if w.components == [] {
      DashTells(v, t, s);
    } else {
      FullLeavesTell(v, s, w, t);
      PrintedAll(v);
      PrintedAll(w);
    }
  }

  lemma PrintedAll(v: Variable)
    requires v.members == []
    ensures ShownOf(v, 0) == Components(v.components[..Printed(v)])
  {
    assert v.components[..|v.components|] == v.components;
  }

  lemma FullLeavesTell(v: Variable, s: string, w: Variable, t: string)
    requires AllTidy(v) && AllTidy(w) && v.components != [] && w.components != [] && Stops(s) && Stops(t)
    requires (v.components[0] + TailText(v, 1, Printed(v))) + s == (w.components[0] + TailText(w, 1, Printed(w))) + t
    ensures v.components[..Printed(v)] == w.components[..Printed(w)] && s == t
  {
    var n, m := Printed(v), Printed(w);
    Assoc(v.components[0], TailText(v, 1, n), s);
    Assoc(w.components[0], TailText(w, 1, m), t);
    TailBreaks(v, 1, n, s);
    TailBreaks(w, 1, m, t);
    TokensTell(v.components[0], TailText(v, 1, n) + s, w.components[0], TailText(w, 1, m) + t);
    TailsTell(v, n, s, w, m, t, 1);
    FirstAndRest(v.components, 0, n);
    FirstAndRest(w.components, 0, m);
  }

  // ------------------------------------------------------------------ structs

  /** The members from the left: the first one's name and value, and what comes behind it. */
  lemma MembersFromLeft(members: seq<Variable>, depth: nat, s: string)
    requires members != []
    ensures MembersText(members, depth) + (" }" + s)
            == members[0].name + ("=" + (FormatValue(members[0], depth + 1) + MembersRest(members, depth, s)))
  {
    var name, value := members[0].name, FormatValue(members[0], depth + 1);
    var tail := MembersText(members[1..], depth);
    if |members| == 1 {
      assert tail == "" && ((name + "=" + value) + "") + "" == name + "=" + value;
      SplitText(name, "=", value, " }" + s);
    } else {
      assert MembersText(members, depth) == (name + "=" + value) + (", " + tail) by {
        Assoc(name + "=" + value, ", ", tail);
      }
      Assoc(name + "=" + value, ", " + tail, " }" + s);
      Assoc(", ", tail, " }" + s);
      SplitText(name, "=", value, MembersRest(members, depth, s));
    }
  }

  lemma SplitText(a: string, b: string, c: string, d: string)
    ensures (a + b + c) + d == a + (b + (c + d))
  {
  }

  function MembersRest(members: seq<Variable>, depth: nat, s: string): string
    requires members != []
  {
    if |members| == 1 then " }" + s else ", " + (MembersText(members[1..], depth) + (" }" + s))
  }

  lemma RestStops(members: seq<Variable>, depth: nat, s: string)
    requires members != [] && TidyMembers(members)
    ensures Stops(MembersRest(members, depth, s))
  {
    if |members| > 1 {
      var more := members[1..];
      assert TidyMembers(more) && AllTidy(more[0]) && Tidy(more[0].name);
      MembersFromLeft(more, depth, s);
      assert MembersRest(members, depth, s)
             == ", " + (more[0].name + ("=" + (FormatValue(more[0], depth + 1) + MembersRest(more, depth, s))));
    } else {
      assert (" }" + s)[..2] == " }";
    }
  }

  lemma RestsTell(ms: seq<Variable>, s: string, ns: seq<Variable>, t: string, depth: nat)
    requires ms != [] && ns != [] && MembersRest(ms, depth, s) == MembersRest(ns, depth, t)
    ensures |ms| == 1 <==> |ns| == 1
    ensures |ms| == 1 ==> s == t
    ensures |ms| > 1 && |ns| > 1 ==>
              MembersText(ms[1..], depth) + (" }" + s) == MembersText(ns[1..], depth) + (" }" + t)
  {
    assert (if |ms| == 1 then " " else ",")[0] == MembersRest(ms, depth, s)[0];
    assert (if |ns| == 1 then " " else ",")[0] == MembersRest(ns, depth, t)[0];
    if |ms| == 1 {
      HeadsTell(" }", s, t);
    } else {
      HeadsTell(", ", MembersText(ms[1..], depth) + (" }" + s), MembersText(ns[1..], depth) + (" }" + t));
    }
  }

  lemma StructText(v: Variable, depth: nat, s: string)
    requires v.members != []
    ensures depth < 16 ==> FormatValue(v, depth) + s == "{ " + (MembersText(v.members, depth) + (" }" + s))
    ensures depth >= 16 ==> FormatValue(v, depth) + s == "{...}" + s
  {
    if depth < 16 {
      Assoc("{ " + MembersText(v.members, depth), " }", s);
      Assoc("{ ", MembersText(v.members, depth), " }" + s);
    }
  }

  lemma LeafNoStruct(v: Variable, s: string)
    requires v.members == [] && AllTidy(v)
    ensures (FormatValue(v, 0) + s)[0] != '{'
  {
    LeafText(v);
    if v.components != [] {
      assert (FormatValue(v, 0) + s)[0] == v.components[0][0];
    }
  }

  lemma {:induction false} ValuesTell(v: Variable, s: string, w: Variable, t: string, depth: nat)
    requires AllTidy(v) && AllTidy(w) && Stops(s) && Stops(t)
    requires FormatValue(v, depth) + s == FormatValue(w, depth) + t
    ensures ShownOf(v, depth) == ShownOf(w, depth) && s == t
    decreases v
  {
    if v.members == [] {
      LeafDepth(v, depth);
      LeafNoStruct(v, s);
    }
    if w.members == [] {
      LeafDepth(w, depth);
      LeafNoStruct(w, t);
    }
    if v.members != [] {
      StructText(v, depth, s);
    }
    if w.members != [] {
      StructText(w, depth, t);
    }
    if v.members == [] && w.members == [] {
      LeavesTell(v, s, w, t);
    } else if depth >= 16 {
      HeadsTell("{...}", s, t);
    } else {
      HeadsTell("{ ", MembersText(v.members, depth) + (" }" + s), MembersText(w.members, depth) + (" }" + t));
      MembersTell(v.members, s, w.members, t, depth);
    }
  }

  lemma {:induction false} MembersTell(ms: seq<Variable>, s: string, ns: seq<Variable>, t: string, depth: nat)
    requires ms != [] && ns != [] && TidyMembers(ms) && TidyMembers(ns) && Stops(s) && Stops(t)
    requires MembersText(ms, depth) + (" }" + s) == MembersText(ns, depth) + (" }" + t)
    ensures MembersOf(ms, depth) == MembersOf(ns, depth) && s == t
    decreases ms
  {
    MembersFromLeft(ms, depth, s);
    MembersFromLeft(ns, depth, t);
    var a, b := FormatValue(ms[0], depth + 1) + MembersRest(ms, depth, s), FormatValue(ns[0], depth + 1) + MembersRest(ns, depth, t);
    TokensTell(ms[0].name, "=" + a, ns[0].name, "=" + b);
    HeadsTell("=", a, b);
    RestStops(ms, depth, s);
    RestStops(ns, depth, t);
    ValuesTell(ms[0], MembersRest(ms, depth, s), ns[0], MembersRest(ns, depth, t), depth + 1);
    RestsTell(ms, s, ns, t, depth);
    if |ms| > 1 {
      MembersTell(ms[1..], s, ns[1..], t, depth);
    } else {
      assert ms[1..] == [] && ns[1..] == [];
    }
  }

  // ------------------------------------------------------------------ the results

  /** Equal texts are of equal values, as far as they are printed: for any nesting the same members with the same
      names, and in every leaf the same first sixteen components. */
  lemma TextTellsValue(v: Variable, w: Variable, depth: nat)
    requires AllTidy(v) && AllTidy(w)
    ensures FormatValue(v, depth) == FormatValue(w, depth) ==> ShownOf(v, depth) == ShownOf(w, depth)
  {
    if FormatValue(v, depth) == FormatValue(w, depth) {
      assert FormatValue(v, depth) + "" == FormatValue(w, depth) + "";
      ValuesTell(v, "", w, "", depth);
    }
  }

  /** Two readings of one variable: leaves where the other has leaves, with as many columns. */
  predicate Kin(v: Variable, w: Variable)
    decreases v
  {
    (v.members == [] <==> w.members == []) && v.columns == w.columns && KinMembers(v.members, w.members)
  }

  predicate KinMembers(ms: seq<Variable>, ns: seq<Variable>)
    decreases ms
  {
    |ms| == |ns| && (ms == [] || (ms[0].name == ns[0].name && Kin(ms[0], ns[0]) && KinMembers(ms[1..], ns[1..])))
  }

  lemma {:induction false} SameComponents(v: Variable, w: Variable, n: nat)
    requires n <= |v.components| && n <= |w.components| && v.columns == w.columns
    requires v.components[..n] == w.components[..n]
    ensures ComponentsText(v, n) == ComponentsText(w, n)
  {
    if n > 0 {
      assert v.components[..n][..n - 1] == v.components[..n - 1] && w.components[..n][..n - 1] == w.components[..n - 1];
      assert v.components[..n][n - 1] == w.components[..n][n - 1];
      SameComponents(v, w, n - 1);
    }
  }

  lemma {:induction false} ShownDecides(v: Variable, w: Variable, depth: nat)
    requires Kin(v, w) && ShownOf(v, depth) == ShownOf(w, depth)
    ensures FormatValue(v, depth) == FormatValue(w, depth)
    decreases v
  {
    if v.members == [] {
      var n := Printed(v);
      assert n == Printed(w) && v.components[..n] == w.components[..n];
      SameComponents(v, w, n);
    } else if depth < 16 {
      MembersDecide(v.members, w.members, depth);
    }
  }

  lemma {:induction false} MembersDecide(ms: seq<Variable>, ns: seq<Variable>, depth: nat)
    requires KinMembers(ms, ns) && MembersOf(ms, depth) == MembersOf(ns, depth)
    ensures MembersText(ms, depth) == MembersText(ns, depth)
    decreases ms
  {
    if ms != [] {
      assert MembersOf(ms, depth)[0] == MembersOf(ns, depth)[0] && MembersOf(ms, depth)[1..] == MembersOf(ns, depth)[1..];
      ShownDecides(ms[0], ns[0], depth + 1);
      MembersDecide(ms[1..], ns[1..], depth);
    }
  }

  /** Two readings of one variable have one text exactly when nothing that is printed changed between them. */
  lemma ReadingsTell(v: Variable, w: Variable, depth: nat)
    requires AllTidy(v) && AllTidy(w) && Kin(v, w)
    ensures FormatValue(v, depth) == FormatValue(w, depth) <==> ShownOf(v, depth) == ShownOf(w, depth)
  {
    TextTellsValue(v, w, depth);
    if ShownOf(v, depth) == ShownOf(w, depth) {
      ShownDecides(v, w, depth);
    }
  }

  /** So a reading is a row exactly when one of the first sixteen components changed somewhere since the last one. */
  lemma ChangeIsRow(log: seq<Reading>, key: Key, eid: int, v: Variable, w: Variable)
    requires AllTidy(v) && AllTidy(w) && Kin(v, w) && Latest(log, key) == FormatValue(v, 0)
    ensures var more := log + [Reading(eid, key, FormatValue(w, 0))];
            RowsOf(more, false) == RowsOf(log, false) + (if ShownOf(v, 0) == ShownOf(w, 0) then []
                                                         else [Reading(eid, key, FormatValue(w, 0))])
  {
    ReadingsTell(v, w, 0);
    LogNext(log, Reading(eid, key, FormatValue(w, 0)), false);
    assert RowsOf(log, false) + [] == RowsOf(log, false);
  }

  /** A matrix of two by two. */
  lemma MatrixText(m: Variable)
    requires m.members == [] && m.columns == 2 && m.components == ["1", "2", "3", "4"]
    ensures FormatValue(m, 0) == "1, 2 | 3, 4"
  {
    TextFromLeft(m, 4);
    assert TailText(m, 4, 4) == "" && TailText(m, 3, 4) == ", " + ("4" + "") == ", 4";
    assert TailText(m, 2, 4) == " | " + ("3" + ", 4") == " | 3, 4";
    assert TailText(m, 1, 4) == ", " + ("2" + " | 3, 4") == ", 2 | 3, 4";
    assert "1" + ", 2 | 3, 4" == "1, 2 | 3, 4";
  }

  lemma OneMember(v: Variable)
    requires v.members == []
    ensures v.components == ["7"] ==> FormatValue(v, 1) == "7"
    ensures v.components == [] ==> FormatValue(v, 1) == "-"
  {
    if v.components == ["7"] {
      assert ComponentsText(v, 1) == (ComponentsText(v, 0) + "") + "7" == "7";
    }
  }

  /** A struct of a number and of a value without components. */
  lemma StructExample(s: Variable)
    requires s.members == [Variable("a", [], 1, ["7"]), Variable("b", [], 1, [])]
    ensures FormatValue(s, 0) == "{ a=7, b=- }"
  {
    var a, b := s.members[0], s.members[1];
    OneMember(a);
    OneMember(b);
    assert s.members[1..] == [b] && [b][1..] == [];
    assert MembersText([], 0) == "" && MembersText([b], 0) == (("b" + "=" + "-") + "") + "" == "b=-";
    assert MembersText(s.members, 0) == (("a" + "=" + "7") + ", ") + "b=-" == "a=7, b=-";
    assert ("{ " + "a=7, b=-") + " }" == "{ a=7, b=- }";
  }

  // ------------------------------------------------------------------ names and paths

  /** Case is ignored of the letters A to Z and of nothing else. */
  lemma CaseIsIgnored(c: char, d: char)
    ensures Lower(c) == Lower(d)
            <==> c == d || ('A' <= c <= 'Z' && d as int == c as int + 32) || ('A' <= d <= 'Z' && c as int == d as int + 32)
  {
  }

  lemma {:induction false} JoinNext(names: seq<string>, name: string)
    requires names != []
    ensures Join(".", names + [name]) == Join(".", names) + "." + name
  {
    if |names| == 1 {
      assert (names + [name])[1..] == [name];
    } else {
      JoinNext(names[1..], name);
      assert (names + [name])[1..] == names[1..] + [name];
      Assoc(names[0] + ".", Join(".", names[1..]), "." + name);
      Assoc(Join(".", names[1..]), ".", name);
      Assoc(Join(".", names), ".", name);
    }
  }

  /** A path is the names from the outermost variable inwards, with dots between them. */
  lemma PathJoinsNames(names: seq<string>, name: string)
    requires names != [] && Join(".", names) != ""
    ensures Under(Join(".", names), name) == Join(".", names + [name]) && Under("", name) == name
  {
    JoinNext(names, name);
  }

  /** What is listed by itself below a struct that answers: a leaf up to seventeen structs down, a struct exactly
      seventeen down. */
  lemma ListedMeans(node: Node)
    ensures Listed(node) <==> node.below.Some? && if node.leaf then node.below.value <= 17 else node.below.value == 17
  {
  }

  // ------------------------------------------------------------------ what a run reads

  /** Block `b` of stage `s` is looked at in event `eid`, and holds these variables. */
  predicate Looked(engine: Engine, only: int, eid: int, s: nat, b: nat, vars: seq<Variable>) {
    && engine.hasState(eid) && s < engine.stages && (only < 0 || s == only)
    && engine.blocks(eid, s).Some? && b < 64 && b < |engine.blocks(eid, s).value| && engine.blocks(eid, s).value[b] == vars
  }

  /** The reading of one variable in one block of one event. */
  ghost predicate ReadAt(engine: Engine, only: int, want: string, r: Reading) {
    exists vars :: Looked(engine, only, r.eid, r.key.stage, r.key.block, vars)
                   && Watched(r.key.path, r.value) in WatchedOf(vars, "", want)
  }

  lemma BlockReads(eid: int, stage: nat, block: nat, found: seq<Watched>)
    ensures forall r: Reading :: r in BlockLog(eid, stage, block, found)
              <==> r.eid == eid && r.key.stage == stage && r.key.block == block && Watched(r.key.path, r.value) in found
  {
    var log := BlockLog(eid, stage, block, found);
    forall r: Reading | r.eid == eid && r.key.stage == stage && r.key.block == block && Watched(r.key.path, r.value) in found
      ensures r in log
    {
      var i :| 0 <= i < |found| && found[i] == Watched(r.key.path, r.value);
      assert log[i] == r;
    }
  }

  lemma {:induction false} BlocksRead1(eid: int, stage: nat, blocks: seq<seq<Variable>>, n: nat, want: string)
    requires n <= |blocks|
    ensures forall r: Reading :: r in BlocksLog(eid, stage, blocks, n, want)
              <==> r.eid == eid && r.key.stage == stage && r.key.block < n
                   && Watched(r.key.path, r.value) in WatchedOf(blocks[r.key.block], "", want)
  {
    if n > 0 {
      BlocksRead1(eid, stage, blocks, n - 1, want);
      BlockReads(eid, stage, n - 1, WatchedOf(blocks[n - 1], "", want));
    }
  }

  lemma StageReads(engine: Engine, eid: int, stage: nat, only: int, want: string, r: Reading)
    requires engine.hasState(eid) && stage < engine.stages
    ensures r in StageLog(engine, eid, stage, only, want)
            <==> r.eid == eid && r.key.stage == stage && ReadAt(engine, only, want, r)
  {
    if !(only >= 0 && stage != only) && engine.blocks(eid, stage).Some? {
      var blocks := engine.blocks(eid, stage).value;
      BlocksRead1(eid, stage, blocks, Least(MAX_BLOCKS, |blocks|), want);
      if r.eid == eid && r.key.stage == stage && r.key.block < Least(MAX_BLOCKS, |blocks|) {
        assert Looked(engine, only, r.eid, r.key.stage, r.key.block, blocks[r.key.block]);
      }
    }
  }

  predicate StageRead(engine: Engine, eid: int, s: nat, only: int, want: string, r: Reading, read: bool) {
    r in StageLog(engine, eid, s, only, want) <==> r.eid == eid && r.key.stage == s && read
  }

  /** An event reads what its stages read. */
  lemma {:induction false} EventReads(engine: Engine, eid: int, n: nat, only: int, want: string, r: Reading, read: bool)
    requires forall s: nat | s < n :: StageRead(engine, eid, s, only, want, r, read)
    ensures r in EventLog(engine, eid, n, only, want) <==> r.eid == eid && r.key.stage < n && read
    decreases n
  {
    if n > 0 {
      EventReads(engine, eid, n - 1, only, want, r, read);
      EventSplits(engine, eid, n, only, want);
      assert StageRead(engine, eid, n - 1, only, want, r, read);
      ReadInEither(EventLog(engine, eid, n - 1, only, want), StageLog(engine, eid, n - 1, only, want),
                   EventLog(engine, eid, n, only, want), eid, n, r, read);
    } else {
      NoStages(engine, eid, only, want);
    }
  }

  lemma NoStages(engine: Engine, eid: int, only: int, want: string)
    ensures EventLog(engine, eid, 0, only, want) == []
  {
  }

  lemma ReadInEither(log: seq<Reading>, more: seq<Reading>, all: seq<Reading>, eid: int, n: nat, r: Reading, read: bool)
    requires n > 0 && all == log + more
    requires r in log <==> r.eid == eid && r.key.stage < n - 1 && read
    requires r in more <==> r.eid == eid && r.key.stage == n - 1 && read
    ensures r in all <==> r.eid == eid && r.key.stage < n && read
  {
  }

  lemma EventSplits(engine: Engine, eid: int, n: nat, only: int, want: string)
    requires n > 0
    ensures EventLog(engine, eid, n, only, want)
            == EventLog(engine, eid, n - 1, only, want) + StageLog(engine, eid, n - 1, only, want)
  {
  }

  /** A run reads exactly what answers to the name in the blocks it looks at: in every event with state of its range,
      of the one stage asked for or of all, the first 64 blocks of each. */
  lemma {:induction false} RunReads(engine: Engine, since: int, till: int, only: int, want: string, r: Reading)
    ensures r in RunLog(engine, since, till, only, want) <==> since <= r.eid < till && ReadAt(engine, only, want, r)
    decreases till - since
  {
    if since < till {
      RunReads(engine, since, till - 1, only, want, r);
      if engine.hasState(till - 1) {
        forall s: nat {:trigger StageLog(engine, till - 1, s, only, want)} | s < engine.stages
          ensures StageRead(engine, till - 1, s, only, want, r, ReadAt(engine, only, want, r))
        {
          StageReads(engine, till - 1, s, only, want, r);
        }
        EventReads(engine, till - 1, engine.stages, only, want, r, ReadAt(engine, only, want, r));
      }
    }
  }

  /** In reading order: by event, stage and block. */
  predicate NotAfter(r: Reading, s: Reading) {
    r.eid < s.eid
    || (r.eid == s.eid && (r.key.stage < s.key.stage || (r.key.stage == s.key.stage && r.key.block <= s.key.block)))
  }

  predicate InOrder(log: seq<Reading>) {
    forall i, j | 0 <= i < j < |log| :: NotAfter(log[i], log[j])
  }

  lemma OrderConcat(xs: seq<Reading>, ys: seq<Reading>)
    requires InOrder(xs) && InOrder(ys) && forall i, j | 0 <= i < |xs| && 0 <= j < |ys| :: NotAfter(xs[i], ys[j])
    ensures InOrder(xs + ys)
  {
  }

  lemma {:induction false} BlocksInOrder(eid: int, stage: nat, blocks: seq<seq<Variable>>, n: nat, want: string)
    requires n <= |blocks|
    ensures InOrder(BlocksLog(eid, stage, blocks, n, want))
    ensures forall i | 0 <= i < |BlocksLog(eid, stage, blocks, n, want)| ::
              var r := BlocksLog(eid, stage, blocks, n, want)[i]; r.eid == eid && r.key.stage == stage && r.key.block < n
  {
    if n > 0 {
      BlocksInOrder(eid, stage, blocks, n - 1, want);
      OrderConcat(BlocksLog(eid, stage, blocks, n - 1, want), BlockLog(eid, stage, n - 1, WatchedOf(blocks[n - 1], "", want)));
    }
  }

  lemma StageInOrder(engine: Engine, eid: int, stage: nat, only: int, want: string)
    ensures InOrder(StageLog(engine, eid, stage, only, want))
    ensures forall i | 0 <= i < |StageLog(engine, eid, stage, only, want)| ::
              StageLog(engine, eid, stage, only, want)[i].eid == eid && StageLog(engine, eid, stage, only, want)[i].key.stage == stage
  {
    if engine.blocks(eid, stage).Some? {
      var blocks := engine.blocks(eid, stage).value;
      BlocksInOrder(eid, stage, blocks, Least(MAX_BLOCKS, |blocks|), want);
    }
  }

  lemma {:induction false} EventInOrder(engine: Engine, eid: int, n: nat, only: int, want: string)
    ensures OfEvent(EventLog(engine, eid, n, only, want), eid, n)
    decreases n
  {
    if n > 0 {
      EventInOrder(engine, eid, n - 1, only, want);
      StageInOrder(engine, eid, n - 1, only, want);
      NextStage(EventLog(engine, eid, n - 1, only, want), StageLog(engine, eid, n - 1, only, want), eid, n);
    }
  }

  /** In order, of one event and of the stages below `n`. */
  predicate OfEvent(log: seq<Reading>, eid: int, n: nat) {
    InOrder(log) && forall i | 0 <= i < |log| :: log[i].eid == eid && log[i].key.stage < n
  }

  lemma NextStage(log: seq<Reading>, more: seq<Reading>, eid: int, n: nat)
    requires n > 0 && OfEvent(log, eid, n - 1) && InOrder(more)
    requires forall i | 0 <= i < |more| :: more[i].eid == eid && more[i].key.stage == n - 1
    ensures OfEvent(log + more, eid, n)
  {
    OrderConcat(log, more);
  }

  /** Event by event, and in each event stage by stage and block by block. */
  lemma {:induction false} RunInOrder(engine: Engine, since: int, till: int, only: int, want: string)
    ensures InOrder(RunLog(engine, since, till, only, want))
    ensures forall i | 0 <= i < |RunLog(engine, since, till, only, want)| ::
              RunLog(engine, since, till, only, want)[i].eid < till
    decreases till - since
  {
    if since < till {
      RunInOrder(engine, since, till - 1, only, want);
      if engine.hasState(till - 1) {
        EventInOrder(engine, till - 1, engine.stages, only, want);
        OrderConcat(RunLog(engine, since, till - 1, only, want), EventLog(engine, till - 1, engine.stages, only, want));
      }
    }
  }

  // ------------------------------------------------------------------ the counters

  /** The blocks looked at in one event, of the stages below `n`. */
  ghost function LookedIn(engine: Engine, eid: int, n: nat, only: int): set<(nat, nat)> {
    set s: nat, b: nat | s < n && b < 64 && engine.blocks(eid, s).Some? && (only < 0 || s == only)
                         && b < |engine.blocks(eid, s).value| :: (s, b)
  }

  lemma {:induction false} Cells(s: nat, n: nat) returns (cells: set<(nat, nat)>)
    ensures |cells| == n && forall c :: c in cells <==> c.0 == s && c.1 < n
  {
    if n == 0 {
      cells := {};
    } else {
      cells := Cells(s, n - 1);
      cells := cells + {(s, n - 1)};
    }
  }

  lemma LookedNext(engine: Engine, eid: int, n: nat, only: int)
    ensures |LookedIn(engine, eid, n + 1, only)|
            == |LookedIn(engine, eid, n, only)|
               + if engine.blocks(eid, n).Some? && (only < 0 || n == only)
                 then (if |engine.blocks(eid, n).value| < 64 then |engine.blocks(eid, n).value| else 64) else 0
  {
    var before, after := LookedIn(engine, eid, n, only), LookedIn(engine, eid, n + 1, only);
    if engine.blocks(eid, n).Some? && (only < 0 || n == only) {
      var count := |engine.blocks(eid, n).value|;
      var cells := Cells(n, if count < 64 then count else 64);
      assert after == before + cells;
      assert before !! cells;
    } else {
      assert after == before;
    }
  }

  /** One event's blocks read are the blocks looked at in it. */
  lemma {:induction false} BlocksReadCount(engine: Engine, eid: int, n: nat, only: int)
    ensures BlocksRead(engine, eid, n, only) == |LookedIn(engine, eid, n, only)|
  {
    if n == 0 {
      assert LookedIn(engine, eid, 0, only) == {};
    } else {
      BlocksReadCount(engine, eid, n - 1, only);
      LookedNext(engine, eid, n - 1, only);
    }
  }

  /** A run's count of blocks is that of its two parts, and for one event that of its blocks if it has state. */
  lemma {:induction false} BlocksAdd(engine: Engine, since: int, mid: int, till: int, only: int)
    requires since <= mid <= till
    ensures AllBlocksRead(engine, since, till, only) == AllBlocksRead(engine, since, mid, only) + AllBlocksRead(engine, mid, till, only)
    ensures AllBlocksRead(engine, since, since, only) == 0
    ensures AllBlocksRead(engine, since, since + 1, only)
            == if engine.hasState(since) then |LookedIn(engine, since, engine.stages, only)| else 0
    decreases till - mid
  {
    BlocksReadCount(engine, since, engine.stages, only);
    if mid < till {
      BlocksAdd(engine, since, mid, till - 1, only);
    }
  }

  /** The events of a run that have a stage with reflection bound, of those looked at. */
  ghost function EventsBound(engine: Engine, since: int, till: int, only: int): set<int> {
    set e | since <= e < till && IsEvent(engine, e, only)
  }

  lemma {:induction false} AnyIsSome(engine: Engine, eid: int, n: nat, only: int)
    ensures AnyBound(engine, eid, n, only)
            <==> exists s: nat :: s < n && (only < 0 || s == only) && engine.blocks(eid, s).Some?
  {
    if n > 0 {
      AnyIsSome(engine, eid, n - 1, only);
      assert IsBound(engine, eid, n - 1, only) <==> (only < 0 || n - 1 == only) && engine.blocks(eid, n - 1).Some?;
    }
  }

  lemma {:induction false} WithStateCount(engine: Engine, since: int, till: int, only: int)
    ensures WithState(engine, since, till, only) == |EventsBound(engine, since, till, only)|
    decreases till - since
  {
    if till <= since {
      assert EventsBound(engine, since, till, only) == {};
    } else {
      WithStateCount(engine, since, till - 1, only);
      BoundNext(engine, since, till, only);
    }
  }

  predicate IsEvent(engine: Engine, e: int, only: int) {
    engine.hasState(e) && exists s: nat :: s < engine.stages && (only < 0 || s == only) && engine.blocks(e, s).Some?
  }

  lemma EventIsCounted(engine: Engine, e: int, only: int)
    ensures EventCounts(engine, e, only).0 == if IsEvent(engine, e, only) then 1 else 0
  {
    AnyIsSome(engine, e, engine.stages, only);
  }

  lemma BoundNext(engine: Engine, since: int, till: int, only: int)
    requires since < till
    ensures |EventsBound(engine, since, till, only)|
            == |EventsBound(engine, since, till - 1, only)| + EventCounts(engine, till - 1, only).0
  {
    EventIsCounted(engine, till - 1, only);
    var before := EventsBound(engine, since, till - 1, only);
    assert till - 1 !in before;
    assert EventsBound(engine, since, till, only) == if IsEvent(engine, till - 1, only) then before + {till - 1} else before;
  }

  /** How many events a run looks at: all from the first to the last, or as many as `--max-events` allows. */
  lemma ScannedIs(since: int, until: int, maxEvents: int)
    ensures var scanned, whole := EndOf(since, until, maxEvents) - since, if since <= until then until - since + 1 else 0;
            scanned == if maxEvents > 0 && maxEvents < whole then maxEvents else whole
  {
  }
}
