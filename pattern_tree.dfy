/**
 * The pattern tree of the command-line tool: each pattern holds a regular
 * expression, a label, the cursors (line, match end) of the lines it
 * matched, and sub-patterns that are meant to refine it. `resolve_pattern`
 * pushes, for every cursor of a pattern and every sub-pattern, the match of
 * the sub-pattern's expression on that cursor's line, and recurses into the
 * sub-pattern right after each push.
 *
 * The tree is owned and only ever reached through one `&mut`, so it is
 * modelled as a value: `ResolvePattern` returns the updated tree.
 */
module PatternTree {
  import opened Wrappers

  /** A search cursor: a line number and the offset of the match in that line. */
  datatype Cursor = Cursor(line: nat, index: nat)

  datatype Pattern = Pattern(regex: string, displayLabel: string, index: seq<Cursor>, sub: seq<Pattern>)

  /**
   * Compiling `regex` and asking for the end of its shortest match in
   * `line`, as `Regex::new(..).unwrap().shortest_match(..)` does.
   */
  type ShortestMatch = (string, string) -> Option<nat>

  /** `Pattern::new`: an expression and a label, no cursors, no sub-patterns. */
  function PatternNew(regex: string, displayLabel: string): (p: Pattern)
    ensures p.regex == regex && p.displayLabel == displayLabel
    ensures p.index == [] && p.sub == []
  {
    Pattern(regex, displayLabel, [], [])
  }

  /** `get_patterns`: the preset list of sub-patterns of the root. */
  function GetPatterns(): (ps: seq<Pattern>)
    ensures |ps| == 1 && ps[0] == PatternNew("xxx", "xxx")
  {
    [PatternNew("xxx", "xxx")]
  }

  /** The root pattern `main` builds: one cursor `(i, 0)` per line `i`, in line order. */
  function RootPattern(lines: seq<string>, sub: seq<Pattern>): (root: Pattern)
    ensures root.regex == "" && root.displayLabel == "parent" && root.sub == sub
    ensures |root.index| == |lines|
    ensures forall i :: 0 <= i < |lines| ==> root.index[i] == Cursor(i, 0)
  {
    Pattern("", "parent", seq(|lines|, i requires 0 <= i => Cursor(i, 0)), sub)
  }

  /** The number of patterns in a tree; it does not depend on the cursors. */
  function Nodes(p: Pattern): nat
    decreases p, 1
  {
    1 + NodesOf(p.sub)
  }

  function NodesOf(ps: seq<Pattern>): nat
    decreases ps, 0
  {
    if ps == [] then 0 else NodesOf(ps[..|ps| - 1]) + Nodes(ps[|ps| - 1])
  }

  lemma {:induction false} NodesOfAt(ps: seq<Pattern>, j: nat)
    requires j < |ps|
    ensures Nodes(ps[j]) <= NodesOf(ps)
    decreases |ps|
  {
    if j < |ps| - 1 {
      NodesOfAt(ps[..|ps| - 1], j);
    }
  }

  /** Every cursor of the tree names a line of `lines`. */
  ghost predicate CursorsIn(p: Pattern, n: nat)
    decreases p, 1
  {
    && (forall k :: 0 <= k < |p.index| ==> p.index[k].line < n)
    && AllCursorsIn(p.sub, n)
  }

  ghost predicate AllCursorsIn(ps: seq<Pattern>, n: nat)
    decreases ps, 0
  {
    forall j :: 0 <= j < |ps| ==> CursorsIn(ps[j], n)
  }

  /** Pushing the match of `s`'s expression on the line of cursor `c`, if any. */
  function Push(lines: seq<string>, sm: ShortestMatch, s: Pattern, c: Cursor): (t: Pattern)
    requires c.line < |lines|
    ensures t.regex == s.regex && t.displayLabel == s.displayLabel && t.sub == s.sub
    ensures t.index == s.index || (|t.index| == |s.index| + 1 && t.index[..|s.index|] == s.index
                                   && t.index[|s.index|].line == c.line)
    ensures Nodes(t) == Nodes(s) && (CursorsIn(s, |lines|) ==> CursorsIn(t, |lines|))
  {
    match sm(s.regex, lines[c.line])
    case Some(end) => s.(index := s.index + [Cursor(c.line, end)])
    case None => s
  }

  /**
   * What `resolve_pattern` makes of `p`: nothing when it has no cursor;
   * otherwise the sub-patterns after the nested loops over cursors and
   * sub-patterns.
   */
  function Resolve(lines: seq<string>, sm: ShortestMatch, p: Pattern): (r: Pattern)
    requires CursorsIn(p, |lines|)
    ensures r.regex == p.regex && r.displayLabel == p.displayLabel && r.index == p.index
    ensures |r.sub| == |p.sub| && Nodes(r) == Nodes(p) && CursorsIn(r, |lines|)
    ensures p.index == [] ==> r == p
    decreases Nodes(p), 0, 0
  {
    if p.index == [] then p
    else p.(sub := ResolveCursors(lines, sm, p.index, p.sub))
  }

  /** The outer loop `for ind in &pattern.index`, over the cursors `cs` in order. */
  function ResolveCursors(lines: seq<string>, sm: ShortestMatch, cs: seq<Cursor>, subs: seq<Pattern>)
    : (r: seq<Pattern>)
    requires forall k :: 0 <= k < |cs| ==> cs[k].line < |lines|
    requires AllCursorsIn(subs, |lines|)
    ensures |r| == |subs| && NodesOf(r) == NodesOf(subs) && AllCursorsIn(r, |lines|)
    decreases NodesOf(subs), 2, |cs|
  {
    if cs == [] then subs
    else
      var before := ResolveCursors(lines, sm, cs[..|cs| - 1], subs);
      ResolveSubs(lines, sm, cs[|cs| - 1], before)
  }

  /**
   * The inner loop `for sub_pattern in &mut pattern.sub` for one cursor `c`:
   * push the match, then resolve the sub-pattern at once.
   */
  function ResolveSubs(lines: seq<string>, sm: ShortestMatch, c: Cursor, subs: seq<Pattern>)
    : (r: seq<Pattern>)
    requires c.line < |lines| && AllCursorsIn(subs, |lines|)
    ensures |r| == |subs| && NodesOf(r) == NodesOf(subs) && AllCursorsIn(r, |lines|)
    decreases NodesOf(subs), 1, |subs|
  {
    if subs == [] then []
    else
      var n := |subs|;
      var s := subs[n - 1];
      var r := ResolveSubs(lines, sm, c, subs[..n - 1]) + [Resolve(lines, sm, Push(lines, sm, s, c))];
      assert r[..n - 1] == ResolveSubs(lines, sm, c, subs[..n - 1]);
      r
  }

  /** Sub-pattern `j` after one cursor: pushed, then resolved; the others do not affect it. */
  lemma {:induction false} ResolveSubsAt(lines: seq<string>, sm: ShortestMatch, c: Cursor, subs: seq<Pattern>, j: nat)
    requires c.line < |lines| && AllCursorsIn(subs, |lines|) && j < |subs|
    ensures ResolveSubs(lines, sm, c, subs)[j] == Resolve(lines, sm, Push(lines, sm, subs[j], c))
    decreases |subs|
  {
    var n := |subs|;
    if j < n - 1 {
      ResolveSubsAt(lines, sm, c, subs[..n - 1], j);
    }
  }

  /** The cursors the loop pushes onto a sub-pattern with expression `regex`, one per matching parent cursor. */
  function Appended(lines: seq<string>, sm: ShortestMatch, regex: string, cs: seq<Cursor>): (pushed: seq<Cursor>)
    requires forall k :: 0 <= k < |cs| ==> cs[k].line < |lines|
    ensures |pushed| <= |cs|
    ensures forall k :: 0 <= k < |pushed| ==> pushed[k].line < |lines|
  {
    if cs == [] then []
    else
      var c := cs[|cs| - 1];
      Appended(lines, sm, regex, cs[..|cs| - 1])
        + match sm(regex, lines[c.line]) case Some(end) => [Cursor(c.line, end)] case None => []
  }

  lemma {:induction false} ResolveCursorsChild(
    lines: seq<string>, sm: ShortestMatch, cs: seq<Cursor>, subs: seq<Pattern>, j: nat)
    requires forall k :: 0 <= k < |cs| ==> cs[k].line < |lines|
    requires AllCursorsIn(subs, |lines|) && j < |subs|
    ensures ResolveCursors(lines, sm, cs, subs)[j].regex == subs[j].regex
    ensures ResolveCursors(lines, sm, cs, subs)[j].index
         == subs[j].index + Appended(lines, sm, subs[j].regex, cs)
    decreases |cs|
  {
    if cs != [] {
      var init, c := cs[..|cs| - 1], cs[|cs| - 1];
      ResolveCursorsChild(lines, sm, init, subs, j);
      var before := ResolveCursors(lines, sm, init, subs);
      ResolveSubsAt(lines, sm, c, before, j);
    }
  }

  /**
   * After `resolve_pattern`, sub-pattern `j` holds its earlier cursors
   * followed by one cursor per cursor of `p` whose line its expression
   * matches, in the order of `p`'s cursors.
   */
  lemma ResolveChildIndex(lines: seq<string>, sm: ShortestMatch, p: Pattern, j: nat)
    requires CursorsIn(p, |lines|) && j < |p.sub|
    ensures Resolve(lines, sm, p).sub[j].regex == p.sub[j].regex
    ensures Resolve(lines, sm, p).sub[j].index == p.sub[j].index + Appended(lines, sm, p.sub[j].regex, p.index)
  {
    if p.index != [] {
      ResolveCursorsChild(lines, sm, p.index, p.sub, j);
    }
  }

  /**
   * `q` is `p` with cursors appended at any depth: the same shape, the same
   * expressions and labels, and every node's old cursors kept as a prefix.
   */
  ghost predicate Grows(p: Pattern, q: Pattern)
    decreases p
  {
    && q.regex == p.regex && q.displayLabel == p.displayLabel
    && p.index <= q.index
    && |q.sub| == |p.sub|
    && forall j :: 0 <= j < |p.sub| ==> Grows(p.sub[j], q.sub[j])
  }

  lemma {:induction false} GrowsRefl(p: Pattern)
    ensures Grows(p, p)
    decreases p
  {
    forall j | 0 <= j < |p.sub| ensures Grows(p.sub[j], p.sub[j]) {
      GrowsRefl(p.sub[j]);
    }
  }

  lemma {:induction false} GrowsTrans(p: Pattern, q: Pattern, r: Pattern)
    requires Grows(p, q) && Grows(q, r)
    ensures Grows(p, r)
    decreases p
  {
    forall j | 0 <= j < |p.sub| ensures Grows(p.sub[j], r.sub[j]) {
      GrowsTrans(p.sub[j], q.sub[j], r.sub[j]);
    }
  }

  /**
   * `resolve_pattern` only appends: it keeps the shape, every expression and
   * label, and every cursor already present, in order, at every depth.
   */
  lemma {:induction false} ResolveGrows(lines: seq<string>, sm: ShortestMatch, p: Pattern)
    requires CursorsIn(p, |lines|)
    ensures Grows(p, Resolve(lines, sm, p))
    decreases Nodes(p), 0, 0
  {
    if p.index == [] {
      GrowsRefl(p);
    } else {
      ResolveCursorsGrows(lines, sm, p.index, p.sub);
    }
  }

  lemma {:induction false} ResolveCursorsGrows(
    lines: seq<string>, sm: ShortestMatch, cs: seq<Cursor>, subs: seq<Pattern>)
    requires forall k :: 0 <= k < |cs| ==> cs[k].line < |lines|
    requires AllCursorsIn(subs, |lines|)
    ensures forall j :: 0 <= j < |subs| ==> Grows(subs[j], ResolveCursors(lines, sm, cs, subs)[j])
    decreases NodesOf(subs), 2, |cs|
  {
    var r := ResolveCursors(lines, sm, cs, subs);
    if cs == [] {
      forall j | 0 <= j < |subs| ensures Grows(subs[j], r[j]) {
        GrowsRefl(subs[j]);
      }
    } else {
      var before := ResolveCursors(lines, sm, cs[..|cs| - 1], subs);
      ResolveCursorsGrows(lines, sm, cs[..|cs| - 1], subs);
      ResolveSubsGrows(lines, sm, cs[|cs| - 1], before);
      forall j | 0 <= j < |subs| ensures Grows(subs[j], r[j]) {
        GrowsTrans(subs[j], before[j], r[j]);
      }
    }
  }

  lemma {:induction false} ResolveSubsGrows(lines: seq<string>, sm: ShortestMatch, c: Cursor, subs: seq<Pattern>)
    requires c.line < |lines| && AllCursorsIn(subs, |lines|)
    ensures forall j :: 0 <= j < |subs| ==> Grows(subs[j], ResolveSubs(lines, sm, c, subs)[j])
    decreases NodesOf(subs), 1, |subs|
  {
    forall j | 0 <= j < |subs| ensures Grows(subs[j], ResolveSubs(lines, sm, c, subs)[j]) {
      var pushed := Push(lines, sm, subs[j], c);
      ResolveSubsAt(lines, sm, c, subs, j);
      NodesOfAt(subs, j);
      GrowsRefl(subs[j]);
      assert Grows(subs[j], pushed);
      ResolveGrows(lines, sm, pushed);
      GrowsTrans(subs[j], pushed, Resolve(lines, sm, pushed));
    }
  }

  /** A pattern with no cursor resolves to itself, so a fresh `Pattern::new` is left as it is. */
  lemma ResolveFresh(lines: seq<string>, sm: ShortestMatch, regex: string, displayLabel: string)
    ensures CursorsIn(PatternNew(regex, displayLabel), |lines|)
    ensures Resolve(lines, sm, PatternNew(regex, displayLabel)) == PatternNew(regex, displayLabel)
  {
  }

  /** Every cursor of the root names a line, so `main` may call `resolve_pattern` on it. */
  lemma RootCursorsIn(lines: seq<string>, sub: seq<Pattern>)
    requires AllCursorsIn(sub, |lines|)
    ensures CursorsIn(RootPattern(lines, sub), |lines|)
    ensures IncreasingLines(RootPattern(lines, sub).index)
  {
  }

  /** The cursor lines strictly increase: no line is listed twice. */
  ghost predicate IncreasingLines(cs: seq<Cursor>)
  {
    forall k, l :: 0 <= k < l < |cs| ==> cs[k].line < cs[l].line
  }

  lemma {:induction false} AppendedBelow(lines: seq<string>, sm: ShortestMatch, regex: string, cs: seq<Cursor>, bound: nat)
    requires forall k :: 0 <= k < |cs| ==> cs[k].line < |lines|
    requires forall k :: 0 <= k < |cs| ==> cs[k].line < bound
    ensures forall k :: 0 <= k < |Appended(lines, sm, regex, cs)| ==> Appended(lines, sm, regex, cs)[k].line < bound
    decreases |cs|
  {
    if cs != [] {
      AppendedBelow(lines, sm, regex, cs[..|cs| - 1], bound);
    }
  }

  /** Filtering cursors keeps their order, so it keeps lines distinct. */
  lemma {:induction false} AppendedIncreasing(lines: seq<string>, sm: ShortestMatch, regex: string, cs: seq<Cursor>)
    requires forall k :: 0 <= k < |cs| ==> cs[k].line < |lines|
    requires IncreasingLines(cs)
    ensures IncreasingLines(Appended(lines, sm, regex, cs))
    decreases |cs|
  {
    if cs != [] {
      var init, c := cs[..|cs| - 1], cs[|cs| - 1];
      AppendedIncreasing(lines, sm, regex, init);
      AppendedBelow(lines, sm, regex, init, c.line);
    }
  }

  /** The concrete run that shows the repeated recursion, over two lines where every expression matches at 0. */
  function EverywhereAtZero(): ShortestMatch
  {
    (regex: string, line: string) => Some(0)
  }

  function TwoLevelTree(): (p: Pattern)
    ensures p.sub == [Pattern("x", "x", [], [PatternNew("y", "y")])]
  {
    RootPattern(["a", "b"], [Pattern("x", "x", [], [PatternNew("y", "y")])])
  }

  /**
   * Because `resolve_pattern` recurses into a child after every parent
   * cursor, and each recursion walks the child's whole accumulated index, a
   * grandchild receives line 0 twice: once when the child holds line 0, and
   * again when it holds lines 0 and 1.
   */
  lemma DuplicateCursors()
    ensures CursorsIn(TwoLevelTree(), 2)
    ensures Resolve(["a", "b"], EverywhereAtZero(), TwoLevelTree()).sub[0].index == [Cursor(0, 0), Cursor(1, 0)]
    ensures Resolve(["a", "b"], EverywhereAtZero(), TwoLevelTree()).sub[0].sub[0].index
         == [Cursor(0, 0), Cursor(0, 0), Cursor(1, 0)]
    ensures !IncreasingLines(Resolve(["a", "b"], EverywhereAtZero(), TwoLevelTree()).sub[0].sub[0].index)
  {
    var lines: seq<string>, sm := ["a", "b"], EverywhereAtZero();
    var root := TwoLevelTree();
    var c0, c1 := Cursor(0, 0), Cursor(1, 0);
    assert root.index == [c0, c1];
    var grand := PatternNew("y", "y");
    var child := Pattern("x", "x", [], [grand]);
    RootCursorsIn(lines, root.sub);
    // After the first parent cursor: the child holds line 0, and so does the grandchild.
    var first := ResolveCursors(lines, sm, [c0], root.sub);
    assert [c0][..0] == [];
    assert ResolveCursors(lines, sm, [], root.sub) == root.sub;
    assert first == ResolveSubs(lines, sm, c0, root.sub);
    ResolveSubsAt(lines, sm, c0, root.sub, 0);
    var child1 := Push(lines, sm, child, c0);
    assert child1.index == [c0];
    ResolveChildIndex(lines, sm, child1, 0);
    assert Appended(lines, sm, "y", [c0]) == [c0];
    assert first[0] == Resolve(lines, sm, child1);
    assert first[0].index == [c0];
    assert first[0].sub[0].index == [c0];
    // After the second: the child holds lines 0 and 1 and is walked again from the start.
    assert [c0, c1][..1] == [c0];
    ResolveSubsAt(lines, sm, c1, first, 0);
    var child2 := Push(lines, sm, first[0], c1);
    assert child2.index == [c0, c1];
    ResolveChildIndex(lines, sm, child2, 0);
    assert Appended(lines, sm, "y", [c0, c1]) == [c0, c1];
    var g := Resolve(lines, sm, root).sub[0].sub[0].index;
    assert g[0].line == g[1].line;
  }

  /** `q` with cursors `cs` filtered into its own index: what the parent's loop should give a child. */
  function Extend(lines: seq<string>, sm: ShortestMatch, s: Pattern, cs: seq<Cursor>): (t: Pattern)
    requires forall k :: 0 <= k < |cs| ==> cs[k].line < |lines|
    ensures t.regex == s.regex && t.displayLabel == s.displayLabel && t.sub == s.sub
    ensures Nodes(t) == Nodes(s) && (CursorsIn(s, |lines|) ==> CursorsIn(t, |lines|))
  {
    s.(index := s.index + Appended(lines, sm, s.regex, cs))
  }

  /**
   * The evidently intended resolution: every child first receives the
   * matches for all parent cursors, and only then is resolved, once.
   */
  function ResolveOnce(lines: seq<string>, sm: ShortestMatch, p: Pattern): (r: Pattern)
    requires CursorsIn(p, |lines|)
    ensures r.regex == p.regex && r.displayLabel == p.displayLabel && r.index == p.index
    ensures |r.sub| == |p.sub| && Nodes(r) == Nodes(p) && CursorsIn(r, |lines|)
    decreases Nodes(p), 0
  {
    if p.index == [] then p
    else p.(sub := ResolveOnceSubs(lines, sm, p.index, p.sub))
  }

  function ResolveOnceSubs(lines: seq<string>, sm: ShortestMatch, cs: seq<Cursor>, subs: seq<Pattern>)
    : (r: seq<Pattern>)
    requires forall k :: 0 <= k < |cs| ==> cs[k].line < |lines|
    requires AllCursorsIn(subs, |lines|)
    ensures |r| == |subs| && NodesOf(r) == NodesOf(subs) && AllCursorsIn(r, |lines|)
    decreases NodesOf(subs), 1, |subs|
  {
    if subs == [] then []
    else
      var n := |subs|;
      var r := ResolveOnceSubs(lines, sm, cs, subs[..n - 1]) + [ResolveOnce(lines, sm, Extend(lines, sm, subs[n - 1], cs))];
      assert r[..n - 1] == ResolveOnceSubs(lines, sm, cs, subs[..n - 1]);
      r
  }

  lemma {:induction false} ResolveOnceSubsAt(
    lines: seq<string>, sm: ShortestMatch, cs: seq<Cursor>, subs: seq<Pattern>, j: nat)
    requires forall k :: 0 <= k < |cs| ==> cs[k].line < |lines|
    requires AllCursorsIn(subs, |lines|) && j < |subs|
    ensures ResolveOnceSubs(lines, sm, cs, subs)[j] == ResolveOnce(lines, sm, Extend(lines, sm, subs[j], cs))
    decreases |subs|
  {
    if j < |subs| - 1 {
      ResolveOnceSubsAt(lines, sm, cs, subs[..|subs| - 1], j);
    }
  }

  /** No cursor below the node itself yet, as for a tree built from `Pattern::new`. */
  ghost predicate Unresolved(p: Pattern)
    decreases p
  {
    forall j :: 0 <= j < |p.sub| ==> p.sub[j].index == [] && Unresolved(p.sub[j])
  }

  /** Every child holds exactly the matches of its expression on its parent's cursors, at every depth. */
  ghost predicate Consistent(lines: seq<string>, sm: ShortestMatch, p: Pattern)
    requires CursorsIn(p, |lines|)
    decreases p
  {
    assert AllCursorsIn(p.sub, |lines|);
    forall j :: 0 <= j < |p.sub| ==>
      && p.sub[j].index == Appended(lines, sm, p.sub[j].regex, p.index)
      && Consistent(lines, sm, p.sub[j])
  }

  /** No node lists a line twice. */
  ghost predicate NoDuplicateLines(p: Pattern)
    decreases p
  {
    IncreasingLines(p.index) && forall j :: 0 <= j < |p.sub| ==> NoDuplicateLines(p.sub[j])
  }

  lemma {:induction false} UnresolvedIsConsistent(lines: seq<string>, sm: ShortestMatch, p: Pattern)
    requires CursorsIn(p, |lines|) && Unresolved(p) && p.index == []
    ensures Consistent(lines, sm, p)
    decreases p
  {
    forall j | 0 <= j < |p.sub| ensures Consistent(lines, sm, p.sub[j]) {
      UnresolvedIsConsistent(lines, sm, p.sub[j]);
    }
  }

  /** Resolved once, a tree with no cursors below its root is consistent at every depth. */
  lemma {:induction false} ResolveOnceConsistent(lines: seq<string>, sm: ShortestMatch, p: Pattern)
    requires CursorsIn(p, |lines|) && Unresolved(p)
    ensures Consistent(lines, sm, ResolveOnce(lines, sm, p))
    decreases Nodes(p)
  {
    if p.index == [] {
      UnresolvedIsConsistent(lines, sm, p);
    } else {
      var r := ResolveOnce(lines, sm, p);
      forall j | 0 <= j < |p.sub|
        ensures r.sub[j].index == Appended(lines, sm, r.sub[j].regex, r.index)
        ensures Consistent(lines, sm, r.sub[j])
      {
        var e := Extend(lines, sm, p.sub[j], p.index);
        ResolveOnceSubsAt(lines, sm, p.index, p.sub, j);
        assert e.index == Appended(lines, sm, p.sub[j].regex, p.index);
        NodesOfAt(p.sub, j);
        ResolveOnceConsistent(lines, sm, e);
      }
    }
  }

  /** In a consistent tree, a root without repeated lines has none at any depth. */
  lemma {:induction false} ConsistentNoDuplicates(lines: seq<string>, sm: ShortestMatch, p: Pattern)
    requires CursorsIn(p, |lines|) && Consistent(lines, sm, p) && IncreasingLines(p.index)
    ensures NoDuplicateLines(p)
    decreases p
  {
    forall j | 0 <= j < |p.sub| ensures NoDuplicateLines(p.sub[j]) {
      AppendedIncreasing(lines, sm, p.sub[j].regex, p.index);
      ConsistentNoDuplicates(lines, sm, p.sub[j]);
    }
  }

  /**
   * The corrected resolution of the root `main` builds lists every line at
   * most once in every pattern, and each child exactly the matching lines
   * of its parent.
   */
  lemma ResolveOnceNoDuplicates(lines: seq<string>, sm: ShortestMatch, sub: seq<Pattern>)
    requires AllCursorsIn(sub, |lines|) && Unresolved(RootPattern(lines, sub))
    ensures CursorsIn(RootPattern(lines, sub), |lines|)
    ensures Consistent(lines, sm, ResolveOnce(lines, sm, RootPattern(lines, sub)))
    ensures NoDuplicateLines(ResolveOnce(lines, sm, RootPattern(lines, sub)))
  {
    var root := RootPattern(lines, sub);
    RootCursorsIn(lines, sub);
    ResolveOnceConsistent(lines, sm, root);
    ConsistentNoDuplicates(lines, sm, ResolveOnce(lines, sm, root));
  }

  /**
   * When no child has sub-patterns of its own, the repeated recursion finds
   * nothing to repeat: the code as written and the corrected resolution agree.
   */
  lemma ResolveAgreesWhenShallow(lines: seq<string>, sm: ShortestMatch, p: Pattern)
    requires CursorsIn(p, |lines|)
    requires forall j :: 0 <= j < |p.sub| ==> p.sub[j].sub == []
    ensures Resolve(lines, sm, p) == ResolveOnce(lines, sm, p)
  {
    if p.index != [] {
      var r, o := Resolve(lines, sm, p), ResolveOnce(lines, sm, p);
      ResolveGrows(lines, sm, p);
      forall j | 0 <= j < |p.sub| ensures r.sub[j] == o.sub[j] {
        ResolveChildIndex(lines, sm, p, j);
        ResolveOnceSubsAt(lines, sm, p.index, p.sub, j);
        var e := Extend(lines, sm, p.sub[j], p.index);
        assert ResolveOnceSubs(lines, sm, e.index, []) == [];
        assert o.sub[j] == e;
        assert Grows(p.sub[j], r.sub[j]);
      }
    }
  }

  /**
   * The run `main` makes: the root over all lines with the preset pattern
   * below it. The preset has no sub-patterns, so it receives the matching
   * lines once each, in line order.
   */
  lemma MainResolve(lines: seq<string>, sm: ShortestMatch)
    ensures CursorsIn(RootPattern(lines, GetPatterns()), |lines|)
    ensures Resolve(lines, sm, RootPattern(lines, GetPatterns()))
         == ResolveOnce(lines, sm, RootPattern(lines, GetPatterns()))
    ensures Resolve(lines, sm, RootPattern(lines, GetPatterns())).sub[0].index
         == Appended(lines, sm, "xxx", RootPattern(lines, GetPatterns()).index)
    ensures NoDuplicateLines(Resolve(lines, sm, RootPattern(lines, GetPatterns())))
  {
    var root := RootPattern(lines, GetPatterns());
    assert AllCursorsIn(GetPatterns(), |lines|);
    ResolveOnceNoDuplicates(lines, sm, GetPatterns());
    ResolveAgreesWhenShallow(lines, sm, root);
    ResolveChildIndex(lines, sm, root, 0);
  }

  /** One more sub-pattern handled by the inner loop, for a fixed cursor `c`. */
  lemma ResolveSubsStep(lines: seq<string>, sm: ShortestMatch, c: Cursor, subs: seq<Pattern>, j: nat)
    requires c.line < |lines| && AllCursorsIn(subs, |lines|) && j < |subs|
    ensures AllCursorsIn(subs[..j], |lines|) && AllCursorsIn(subs[..j + 1], |lines|)
    ensures CursorsIn(subs[j], |lines|)
    ensures ResolveSubs(lines, sm, c, subs[..j + 1])
         == ResolveSubs(lines, sm, c, subs[..j]) + [Resolve(lines, sm, Push(lines, sm, subs[j], c))]
  {
    assert subs[..j + 1][..j] == subs[..j];
  }

  /** One more cursor handled by the outer loop. */
  lemma ResolveCursorsStep(lines: seq<string>, sm: ShortestMatch, cs: seq<Cursor>, subs: seq<Pattern>, i: nat)
    requires forall k :: 0 <= k < |cs| ==> cs[k].line < |lines|
    requires AllCursorsIn(subs, |lines|) && i < |cs|
    ensures ResolveCursors(lines, sm, cs[..i + 1], subs)
         == ResolveSubs(lines, sm, cs[i], ResolveCursors(lines, sm, cs[..i], subs))
  {
    assert cs[..i + 1][..i] == cs[..i];
  }

  lemma ReplaceAt<T>(done: seq<T>, rest: seq<T>, x: T)
    requires rest != []
    ensures (done + rest)[|done| := x] == (done + [x]) + rest[1..]
  {
  }

  /** The method form of `resolve_pattern`, with its two nested loops and the recursion inside the inner one. */
  method ResolvePattern(lines: seq<string>, sm: ShortestMatch, p: Pattern) returns (q: Pattern)
    requires CursorsIn(p, |lines|)
    ensures q == Resolve(lines, sm, p)
    decreases Nodes(p)
  {
    q := p;
    if p.index != [] {
      var subs := p.sub;
      for i := 0 to |p.index|
        invariant subs == ResolveCursors(lines, sm, p.index[..i], p.sub)
      {
        var ind := p.index[i];
        ResolveCursorsStep(lines, sm, p.index, p.sub, i);
        ghost var before := subs;
        for j := 0 to |subs|
          invariant |subs| == |before|
          invariant subs == ResolveSubs(lines, sm, ind, before[..j]) + before[j..]
        {
          ResolveSubsStep(lines, sm, ind, before, j);
          NodesOfAt(before, j);
          var sub := subs[j];
          assert sub == before[j];
          var line := lines[ind.line];
          match sm(sub.regex, line) {
            case Some(end) =>
              sub := sub.(index := sub.index + [Cursor(ind.line, end)]);
            case None =>
          }
          assert sub == Push(lines, sm, before[j], ind);
          sub := ResolvePattern(lines, sm, sub);
          ReplaceAt(ResolveSubs(lines, sm, ind, before[..j]), before[j..], sub);
          assert before[j..][1..] == before[j + 1..];
          subs := subs[j := sub];
        }
        assert before[..|before|] == before;
      }
      assert p.index[..|p.index|] == p.index;
      q := p.(sub := subs);
    }
  }
}
