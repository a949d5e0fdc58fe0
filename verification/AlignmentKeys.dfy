/** What the keys of a pass are, in terms of the rows and names it carries, and what that makes of an alignment
    (src/py/rdc_ab.py). */
module AlignmentKeys {
  import opened Basics
  import opened Decimal
  import opened Sorting
  import opened Occurrence
  import opened Alignment

  // ------------------------------------------------------------------ blanks around a text

  predicate Blanks(s: string) {
    forall i | 0 <= i < |s| :: IsBlank(s[i])
  }

  /** Nothing blank in it. */
  predicate Solid(s: string) {
    forall i | 0 <= i < |s| :: !IsBlank(s[i])
  }

  lemma CutFront(c: char, s: string, t: string)
    ensures (([c] + s) + t)[1..] == s + t && (([c] + s) + t)[0] == c
  {
  }

  lemma CutBack(s: string, t: string, c: char)
    ensures (s + (t + [c]))[..|s + (t + [c])| - 1] == s + t && (s + (t + [c]))[|s + (t + [c])| - 1] == c
  {
  }

  /** Stripping takes off the blanks in front, and leaves what comes then to be stripped at its end. */
  lemma {:induction false} StripFront(blanks: string, s: string)
    requires Blanks(blanks)
    ensures Strip(blanks + s) == Strip(s)
  {
    if blanks == "" {
      assert blanks + s == s;
    } else {
      CutFront(blanks[0], blanks[1..], s);
      assert blanks == [blanks[0]] + blanks[1..];
      StripFront(blanks[1..], s);
    }
  }

  lemma {:induction false} StripBack(s: string, blanks: string)
    requires s != "" && !IsBlank(s[0]) && Blanks(blanks)
    ensures Strip(s + blanks) == Strip(s)
  {
    if blanks == "" {
      assert s + blanks == s;
    } else {
      var n := |blanks| - 1;
      CutBack(s, blanks[..n], blanks[n]);
      assert blanks == blanks[..n] + [blanks[n]];
      StripBack(s, blanks[..n]);
    }
  }

  /** `strip()`: the blanks at both ends go, and nothing else does. */
  lemma StripIs(front: string, core: string, back: string)
    requires Blanks(front) && Blanks(back) && (core != "" ==> !IsBlank(core[0]) && !IsBlank(core[|core| - 1]))
    ensures Strip(front + (core + back)) == core
  {
    StripFront(front, core + back);
    if core == "" {
      assert core + back == back + "";
      StripFront(back, "");
    } else {
      StripBack(core, back);
    }
  }

  /** The leaf of a path: what follows its last separator, or all of it, without the blanks around. */
  lemma LeafOfPath(front: string, core: string, back: string)
    requires Blanks(front) && Blanks(back) && (core != "" ==> !IsBlank(core[0]) && !IsBlank(core[|core| - 1]))
    requires forall k :: !SeparatorAt(front + (core + back), k)
    ensures Leaf(front + (core + back)) == core
  {
    StripIs(front, core, back);
  }

  // ------------------------------------------------------------------ the id that a target row starts with

  /** Behind a token: nothing, or a blank first. */
  predicate Ends(rest: string) {
    rest == "" || IsBlank(rest[0])
  }

  lemma {:induction false} TokenOf(token: string, rest: string)
    requires Solid(token) && Ends(rest)
    ensures FirstToken(token + rest) == token
  {
    if token == "" {
      assert token + rest == rest;
    } else {
      assert (token + rest)[1..] == token[1..] + rest;
      TokenOf(token[1..], rest);
    }
  }

  /** Whatever stripping takes off the end, the first token stays. */
  lemma {:induction false} TokenStays(token: string, rest: string)
    requires token != "" && Solid(token) && Ends(rest)
    ensures FirstToken(Strip(token + rest)) == token
    decreases |rest|
  {
    var s := token + rest;
    if rest != "" && IsBlank(rest[|rest| - 1]) {
      var n := |rest| - 1;
      CutBack(token, rest[..n], rest[n]);
      assert rest == rest[..n] + [rest[n]];
      TokenStays(token, rest[..n]);
    } else {
      assert s[|s| - 1] == if rest == "" then token[|token| - 1] else rest[|rest| - 1];
      TokenOf(token, rest);
    }
  }

  /** A target row that starts with an id, blanks or not in front and whatever behind: the resource of that id, be it
      written with `res` or without. */
  lemma TargetIdOf(blanks: string, id: string, rest: string)
    requires Blanks(blanks) && id != "" && Solid(id) && Ends(rest)
    ensures !("res" <= id) ==> TargetId(blanks + (id + rest)) == "res" + id
    ensures TargetId(blanks + (("res" + id) + rest)) == "res" + id
  {
    StripFront(blanks, id + rest);
    TokenStays(id, rest);
    StripFront(blanks, ("res" + id) + rest);
    TokenStays("res" + id, rest);
    assert ("res" + id)[3..] == id;
  }

  /** A row that starts with this id. */
  ghost predicate StartsWith(target: string, id: string) {
    id != "" && Solid(id)
    && exists blanks: string, rest: string :: Blanks(blanks) && Ends(rest)
         && ((target == blanks + (id + rest) && !("res" <= id)) || target == blanks + (("res" + id) + rest))
  }

  /** Every row starts with its id. */
  ghost predicate StartWith(targets: seq<string>, ids: seq<string>) {
    |targets| == |ids| && forall i | 0 <= i < |ids| :: StartsWith(targets[i], ids[i])
  }

  /** The names of the ids that have one. */
  ghost function NamesOfIds(names: map<string, string>, ids: seq<string>): set<string> {
    set i | 0 <= i < |ids| && "res" + ids[i] in names :: names["res" + ids[i]]
  }

  lemma StartsWithId(target: string, id: string)
    requires StartsWith(target, id)
    ensures TargetId(target) == "res" + id
  {
    var blanks: string, rest: string :| Blanks(blanks) && Ends(rest)
      && ((target == blanks + (id + rest) && !("res" <= id)) || target == blanks + (("res" + id) + rest));
    TargetIdOf(blanks, id, rest);
  }

  lemma NamedById(names: map<string, string>, targets: seq<string>, ids: seq<string>)
    requires StartWith(targets, ids)
    ensures NamedTargets(names, targets) == NamesOfIds(names, ids)
  {
    forall i | 0 <= i < |ids| ensures TargetId(targets[i]) == "res" + ids[i] && targets[i] in targets {
      StartsWithId(targets[i], ids[i]);
    }
    forall x | x in NamedTargets(names, targets) ensures x in NamesOfIds(names, ids) {
      var target :| target in targets && TargetId(target) != "" && TargetId(target) in names && names[TargetId(target)] == x;
      var i :| 0 <= i < |targets| && targets[i] == target;
      assert names["res" + ids[i]] == x;
    }
    forall x | x in NamesOfIds(names, ids) ensures x in NamedTargets(names, targets) {
      var i :| 0 <= i < |ids| && "res" + ids[i] in names && names["res" + ids[i]] == x;
      assert names[TargetId(targets[i])] == x;
    }
  }

  /** Two passes of one kind, no dispatches, whose rows start with ids of the same named resources have one key,
      whatever follows the ids; a pass without a named resource has none. */
  lemma SameResourcesSameKey(side: Side, p: Pass, ids: seq<string>, other: Side, q: Pass, otherIds: seq<string>)
    requires StartWith(p.targets, ids) && StartWith(q.targets, otherIds) && p.kind == q.kind != "compute"
    ensures TargetKey(side, p) == "" <==> NamesOfIds(side.names, ids) == {}
    ensures NamesOfIds(side.names, ids) == NamesOfIds(other.names, otherIds) ==> TargetKey(side, p) == TargetKey(other, q)
  {
    NamedById(side.names, p.targets, ids);
    NamedById(other.names, q.targets, otherIds);
    TargetKeyGoesByNames(side, p, other, q);
  }

  // ------------------------------------------------------------------ what a pair goes by

  predicate SamePath(a: Keys, b: Keys, i: nat, j: nat) {
    i < |a.paths| && j < |b.paths| && a.paths[i] == b.paths[j] != ""
  }

  predicate SameLeaf(a: Keys, b: Keys, i: nat, j: nat) {
    i < |a.paths| && j < |b.paths| && a.leaves[i] == b.leaves[j] != ""
  }

  predicate SameTargets(a: Keys, b: Keys, i: nat, j: nat) {
    i < |a.paths| && j < |b.paths| && a.targets[i] == b.targets[j] != ""
  }

  predicate BothLoose(a: Keys, b: Keys, i: nat, j: nat) {
    i < |a.paths| && j < |b.paths| && a.paths[i] == b.paths[j] == "" && a.kinds[i] == b.kinds[j]
  }

  /** The two passes share evidence of the first `n` kinds. */
  predicate Evident(a: Keys, b: Keys, n: nat, i: nat, j: nat) {
    SamePath(a, b, i, j) || (n >= 2 && SameLeaf(a, b, i, j)) || (n >= 3 && SameTargets(a, b, i, j))
  }

  function KeysAt(a: Keys, n: nat): seq<string> {
    if n == 1 then a.paths else if n == 2 then a.leaves else a.targets
  }

  /** Whatever shares the key of the `n`-th kind with `i` or with `j` is itself matched by evidence as strong. */
  ghost predicate Spent(a: Keys, b: Keys, pairs: Pairs, n: nat, i: nat, j: nat) {
    && (forall k: nat | k < |b.paths| && i < |a.paths| && KeysAt(b, n)[k] == KeysAt(a, n)[i] != "" ::
          exists l: nat :: (l, k) in pairs && Evident(a, b, n, l, k))
    && (forall k: nat | k < |a.paths| && j < |b.paths| && KeysAt(a, n)[k] == KeysAt(b, n)[j] != "" ::
          exists l: nat :: (k, l) in pairs && Evident(a, b, n, k, l))
  }

  lemma SpentByRule(a: Keys, b: Keys, prev: Pairs, all: Pairs, n: nat, i: nat, j: nat)
    requires var now := RuleStep(KeysAt(a, n), KeysAt(b, n), prev);
             i !in Lefts(now) && j !in Rights(now) && now <= all && forall p | p in now :: Evident(a, b, n, p.0, p.1)
    ensures Spent(a, b, all, n, i, j)
  {
    var ka, kb, now := KeysAt(a, n), KeysAt(b, n), RuleStep(KeysAt(a, n), KeysAt(b, n), prev);
    forall k: nat | k < |b.paths| && i < |a.paths| && kb[k] == ka[i] != ""
      ensures exists l: nat :: (l, k) in all && Evident(a, b, n, l, k)
    {
      RuleStepIsMaximal(ka, kb, prev, i, k);
      var p :| p in now && p.1 == k;
      assert (p.0, k) in all && Evident(a, b, n, p.0, k);
    }
    forall k: nat | k < |a.paths| && j < |b.paths| && ka[k] == kb[j] != ""
      ensures exists l: nat :: (k, l) in all && Evident(a, b, n, k, l)
    {
      RuleStepIsMaximal(ka, kb, prev, k, j);
      var p :| p in now && p.0 == k;
      assert (k, p.1) in all && Evident(a, b, n, k, p.1);
    }
  }

  lemma NewPair(ka: seq<string>, kb: seq<string>, prev: Pairs, i: nat, j: nat)
    requires (i, j) in RuleStep(ka, kb, prev) && (i, j) !in prev
    ensures i < |ka| && j < |kb| && ka[i] == kb[j] != "" && i !in Lefts(prev) && j !in Rights(prev)
  {
  }

  /** The pairs of the first `n` rules. */
  ghost function Stage(a: Keys, b: Keys, n: nat): Pairs {
    if n == 0 then {} else if n == 1 then ByPath(a, b) else if n == 2 then ByLeaf(a, b) else ByTargets(a, b)
  }

  lemma StageNext(a: Keys, b: Keys, n: nat)
    requires 1 <= n <= 3
    ensures Stage(a, b, n) == RuleStep(KeysAt(a, n), KeysAt(b, n), Stage(a, b, n - 1))
  {
  }

  lemma {:induction false} StageIsEvident(a: Keys, b: Keys, n: nat)
    requires n <= 3
    ensures forall p | p in Stage(a, b, n) :: Evident(a, b, n, p.0, p.1)
    decreases n
  {
    if n > 0 {
      StageIsEvident(a, b, n - 1);
      StageNext(a, b, n);
      forall p | p in Stage(a, b, n) ensures Evident(a, b, n, p.0, p.1) {
        if p !in Stage(a, b, n - 1) {
          NewPair(KeysAt(a, n), KeysAt(b, n), Stage(a, b, n - 1), p.0, p.1);
        }
      }
    }
  }

  lemma StagesGrow(a: Keys, b: Keys, n: nat)
    requires n <= 3
    ensures Stage(a, b, n) <= Aligned(a, b) && OneToOne(Aligned(a, b))
  {
    AlignedIsOneToOne(a, b);
  }

  lemma OldPair(prev: Pairs, next: Pairs, i: nat, j: nat)
    requires prev <= next && OneToOne(next) && (i, j) in next && (i, j) !in prev
    ensures i !in Lefts(prev) && j !in Rights(prev)
  {
  }

  lemma LoosePair(a: Keys, b: Keys, i: nat, j: nat)
    requires (i, j) in Aligned(a, b) && (i, j) !in Stage(a, b, 3)
    ensures BothLoose(a, b, i, j)
  {
    NewPair(CallKeys(a.paths, a.kinds), CallKeys(b.paths, b.kinds), ByTargets(a, b), i, j);
    assert KindKey(a.kinds[i])[1..] == a.kinds[i] && KindKey(b.kinds[j])[1..] == b.kinds[j];
  }

  /** The strongest evidence comes first.  A pair goes by the marker path, the leaf, the targets or the call kind; and
      for each of the first three kinds, a pair that does not share it, nor any stronger, leaves nothing behind: all
      that share it with either of its passes are matched with others by evidence as strong. */
  lemma StrongerEvidenceFirst(a: Keys, b: Keys, n: nat, i: nat, j: nat)
    requires (i, j) in Aligned(a, b) && 1 <= n <= 3
    ensures Evident(a, b, 3, i, j) || BothLoose(a, b, i, j)
    ensures Evident(a, b, n, i, j) || Spent(a, b, Aligned(a, b), n, i, j)
  {
    StageIsEvident(a, b, 3);
    if (i, j) !in Stage(a, b, 3) {
      LoosePair(a, b, i, j);
    }
    StageIsEvident(a, b, n);
    StagesGrow(a, b, n);
    if (i, j) !in Stage(a, b, n) {
      OldPair(Stage(a, b, n), Aligned(a, b), i, j);
      StageNext(a, b, n);
      SpentByRule(a, b, Stage(a, b, n - 1), Aligned(a, b), n, i, j);
    }
  }

  /** What a side is aligned by: of every pass the marker of its first marked event, that marker's leaf, the key of
      its targets, and its call kind. */
  lemma KeysAre(side: Side, i: nat)
    requires i < |side.passes|
    ensures SideKeysOf(side).paths[i] == Markers(side)[i] && SideKeysOf(side).leaves[i] == Leaf(Markers(side)[i])
    ensures SideKeysOf(side).targets[i] == TargetKey(side, side.passes[i])
    ensures SideKeysOf(side).kinds[i] == side.passes[i].kind
  {
  }

  /** Two sides whose rows carry sizes and formats behind the ids: passes left over on both never write the same
      named resources. */
  lemma LeftOverPassesDiffer(a: Side, b: Side, i: nat, ids: seq<string>, j: nat, otherIds: seq<string>)
    requires i < |a.passes| && i !in Lefts(Aligned(SideKeysOf(a), SideKeysOf(b)))
    requires j < |b.passes| && j !in Rights(Aligned(SideKeysOf(a), SideKeysOf(b)))
    requires StartWith(a.passes[i].targets, ids) && StartWith(b.passes[j].targets, otherIds)
    requires a.passes[i].kind == b.passes[j].kind != "compute" && NamesOfIds(a.names, ids) != {}
    ensures NamesOfIds(a.names, ids) != NamesOfIds(b.names, otherIds)
    ensures Markers(a)[i] == Markers(b)[j] ==> Markers(a)[i] == ""
    ensures Leaf(Markers(a)[i]) == Leaf(Markers(b)[j]) ==> Leaf(Markers(a)[i]) == ""
  {
    KeysAre(a, i);
    KeysAre(b, j);
    AlignedIsMaximal(SideKeysOf(a), SideKeysOf(b), i, j);
    SameResourcesSameKey(a, a.passes[i], ids, b, b.passes[j], otherIds);
  }

  // ------------------------------------------------------------------ what a row says

  lemma FirstAndSecond()
    ensures NatText(1) == "1" && NatText(2) == "2"
  {
    assert DigitOf(1) == '1' && DigitOf(2) == '2';
  }

  /** The numbers in a row's texts count from one, A's in front of B's. */
  lemma RowTexts(path: string)
    requires path != ""
    ensures PathOr(path, 0, "A") == path && PathOr("", 0, "A") == "pass 1 of A" && PathOr("", 1, "B") == "pass 2 of B"
  {
    FirstAndSecond();
    assert "pass " + "1" + " of " + "A" == "pass 1 of A";
    assert "pass " + "2" + " of " + "B" == "pass 2 of B";
  }

  lemma MovedTexts()
    ensures MovedNote(0, 0) == "" && MovedNote(0, 1) == "moved: pass 1 of A is pass 2 of B"
  {
    FirstAndSecond();
    assert "moved: pass " + "1" + " of A is pass " + "2" + " of B" == "moved: pass 1 of A is pass 2 of B";
  }

  /** The note says which rule made a pair, and by which key. */
  lemma NoteTexts()
    ensures NoteOf(PathRule, "L") == ""
    ensures NoteOf(LeafRule, "L") == "aligned by the innermost marker name `L`: the full paths differ"
    ensures NoteOf(TargetRule, "T") == "aligned by the resources both passes write (T)"
  {
    assert "aligned by the innermost marker name `" + "L" + "`: the full paths differ"
           == "aligned by the innermost marker name `L`: the full paths differ";
    assert "aligned by the resources both passes write (" + "T" + ")" == "aligned by the resources both passes write (T)";
  }
}
