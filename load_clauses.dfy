/**
 * The load-clause generator of `SchemaNodeLoadClauseBuilder` as values and
 * functions: the state of `RelationshipIterator`, one breadth-first step of
 * it, the clauses a step writes, a whole drained run, and the text
 * `createExplicitMatchAndReturnClauses` assembles from it. The class and the
 * loop in module LoadClauseBuilder are proved against these definitions.
 */
module LoadClauses {
  import opened Text
  import opened SchemaModel

  // ---------------------------------------------------------------------------
  // Iterator state
  // ---------------------------------------------------------------------------

  /** The fields `RelationshipIterator.next` updates, as one value. */
  datatype IterState = IterState(
    frontier: seq<Relationship>,  // traversableRelationships
    visited: set<Label>,          // visitedSourceNode
    depth: nat,
    pathCounter: nat,
    varCounter: nat)

  /** The state a fresh iterator starts from: the start node's relationships, nothing visited. */
  function Init(schema: Schema, startNode: Label): (st: IterState)
    ensures st.frontier == ExtractRelationships(schema, startNode)
    ensures st.visited == {} && st.depth == 0 && st.pathCounter == 0 && st.varCounter == 0
  {
    IterState(ExtractRelationships(schema, startNode), {}, 0, 0, 0)
  }

  /** `hasNext`: the depth bound (absent when `maxDepth` is negative) and a non-empty frontier. */
  predicate HasMore(maxDepth: int, st: IterState) {
    (maxDepth < 0 || st.depth < maxDepth) && |st.frontier| > 0
  }

  // ---------------------------------------------------------------------------
  // Partitioning the frontier
  // ---------------------------------------------------------------------------

  /** The relationships of `rs` whose self-referential flag is `flag`, in order. */
  function WithFlag(rs: seq<Relationship>, flag: bool): seq<Relationship> {
    if rs == [] then []
    else (if rs[0].selfReferential == flag then [rs[0]] else []) + WithFlag(rs[1..], flag)
  }

  /** The group written as one `*0..1` clause: everything in bounded mode, the non-self-referential part otherwise. */
  function StandardGroup(maxDepth: int, frontier: seq<Relationship>): seq<Relationship> {
    if maxDepth < 0 then WithFlag(frontier, false) else frontier
  }

  /** The group written as one `*0..` clause each: empty in bounded mode. */
  function SelfReferentialGroup(maxDepth: int, frontier: seq<Relationship>): seq<Relationship> {
    if maxDepth < 0 then WithFlag(frontier, true) else []
  }

  // ---------------------------------------------------------------------------
  // Clauses and their text
  // ---------------------------------------------------------------------------

  /** `toTypePattern`: the relationship type in back-quotes after a colon. */
  function ToTypePattern(r: Relationship): string {
    ":`" + r.relType + "`"
  }

  /** The type reads back from its pattern, so distinct types give distinct patterns. */
  lemma TypePatternReadsBack(r: Relationship)
    ensures var p := ToTypePattern(r);
      |p| == |r.relType| + 3 && p[..2] == ":`" && p[|p| - 1] == '`' && p[2..|p| - 1] == r.relType
  {
  }

  function TypePatterns(rs: seq<Relationship>): seq<string> {
    seq(|rs|, i requires 0 <= i < |rs| => ToTypePattern(rs[i]))
  }

  /**
   * The name of the node variable with counter value `x`: `variable`,
   * `variable1`, `variable2`, ... The counter reads back from the digits
   * after the root variable.
   */
  function VariableName(variable: string, x: nat): (name: string)
    ensures |name| >= |variable| && name[..|variable|] == variable
    ensures |name| == |variable| <==> x == 0
    ensures x > 0 ==> AllDigits(name[|variable|..]) && DecimalValue(name[|variable|..]) == x
  {
    if x == 0 then variable
    else
      var digits := NatToString(x);
      DecimalRoundTrip(x);
      assert (variable + digits)[|variable|..] == digits;
      variable + digits
  }

  /**
   * One `MATCH` clause. `path` is the path-variable number; `source` and
   * `target` are node-variable counter values (see `VariableName`).
   */
  datatype Clause =
    | StandardMatch(path: nat, source: nat, patterns: seq<string>, target: nat)
    | SelfLoopMatch(path: nat, source: nat, pattern: string)

  /** The path variable numbered `k`: `p` and the decimal digits of `k`. */
  function PathName(k: nat): string {
    "p" + NatToString(k)
  }

  /** The opening of every clause: `MATCH p<path>=(<source>)-[`. */
  function MatchPrefix(path: nat, source: string): string {
    "MATCH " + PathName(path) + "=(" + source + ")-["
  }

  /** The closing of a standard clause: a zero-or-one hop to the variable with counter `target`. */
  function StandardSuffix(variable: string, target: nat): string {
    "*0..1]-(" + variable + NatToString(target) + ")"
  }

  /** The closing of a self-referential clause: any number of hops to an anonymous node. */
  const SelfLoopSuffix := "*0..]-()"

  function Render(variable: string, c: Clause): string {
    match c
    case StandardMatch(k, src, ps, tgt) =>
      MatchPrefix(k, VariableName(variable, src)) + Join("|", ps) + StandardSuffix(variable, tgt)
    case SelfLoopMatch(k, src, p) =>
      MatchPrefix(k, VariableName(variable, src)) + p + SelfLoopSuffix
  }

  function Texts(variable: string, cs: seq<Clause>): seq<string> {
    seq(|cs|, i requires 0 <= i < |cs| => Render(variable, cs[i]))
  }

  /** The clauses' text, back to back, as `next` appends them to one builder. */
  function RenderClauses(variable: string, cs: seq<Clause>): string {
    Concat(Texts(variable, cs))
  }

  lemma RenderClausesConcat(variable: string, a: seq<Clause>, b: seq<Clause>)
    ensures RenderClauses(variable, a + b) == RenderClauses(variable, a) + RenderClauses(variable, b)
  {
    assert Texts(variable, a + b) == Texts(variable, a) + Texts(variable, b);
    ConcatAppend(Texts(variable, a), Texts(variable, b));
  }

  lemma RenderClausesAppend(variable: string, cs: seq<Clause>, c: Clause)
    ensures RenderClauses(variable, cs + [c]) == RenderClauses(variable, cs) + Render(variable, c)
  {
    var text := Render(variable, c);
    RenderClausesConcat(variable, cs, [c]);
    assert Texts(variable, [c]) == [text];
    ConcatSingleton(text);
  }

  function SelfLoopClauses(firstPath: nat, source: nat, rs: seq<Relationship>): seq<Clause> {
    seq(|rs|, i requires 0 <= i < |rs| => SelfLoopMatch(firstPath + i, source, ToTypePattern(rs[i])))
  }

  lemma SelfLoopClausesSnoc(first: nat, source: nat, rs: seq<Relationship>, i: nat)
    requires i < |rs|
    ensures SelfLoopClauses(first, source, rs[..i + 1])
         == SelfLoopClauses(first, source, rs[..i]) + [SelfLoopMatch(first + i, source, ToTypePattern(rs[i]))]
  {
  }

  /** Appending the text of the next self-referential clause extends the rendered prefix by one clause. */
  lemma RenderSelfLoopStep(variable: string, first: nat, source: nat, rs: seq<Relationship>, i: nat)
    requires i < |rs|
    ensures RenderClauses(variable, SelfLoopClauses(first, source, rs[..i + 1]))
         == RenderClauses(variable, SelfLoopClauses(first, source, rs[..i]))
            + Render(variable, SelfLoopMatch(first + i, source, ToTypePattern(rs[i])))
  {
    SelfLoopClausesSnoc(first, source, rs, i);
    RenderClausesAppend(variable, SelfLoopClauses(first, source, rs[..i]), SelfLoopMatch(first + i, source, ToTypePattern(rs[i])));
  }

  /** The standard clause of a step from `st`, if its standard group is non-empty. */
  function StandardClauses(maxDepth: int, st: IterState): seq<Clause> {
    var standard := StandardGroup(maxDepth, st.frontier);
    if |standard| > 0 then
      [StandardMatch(st.pathCounter, st.varCounter, SortStrings(TypePatterns(standard)), st.varCounter + 1)]
    else []
  }

  lemma StandardClausesOf(maxDepth: int, st: IterState)
    requires |StandardGroup(maxDepth, st.frontier)| > 0
    ensures StandardClauses(maxDepth, st)
         == [StandardMatch(st.pathCounter, st.varCounter,
                           SortStrings(TypePatterns(StandardGroup(maxDepth, st.frontier))), st.varCounter + 1)]
  {
  }

  /** The clauses one step writes from `st`: the standard clause, then one per self-referential relationship. */
  function LayerClauses(maxDepth: int, st: IterState): seq<Clause> {
    var std := StandardClauses(maxDepth, st);
    std + SelfLoopClauses(st.pathCounter + |std|, st.varCounter, SelfReferentialGroup(maxDepth, st.frontier))
  }

  /** The text of a lone standard clause: prefix, the patterns joined by `|`, suffix. */
  lemma RenderStandard(variable: string, path: nat, x: nat, ps: seq<string>)
    ensures RenderClauses(variable, [StandardMatch(path, x, ps, x + 1)])
         == MatchPrefix(path, VariableName(variable, x)) + Join("|", ps) + StandardSuffix(variable, x + 1)
  {
    var c := StandardMatch(path, x, ps, x + 1);
    RenderClausesAppend(variable, [], c);
    assert [] + [c] == [c];
  }

  lemma LayerClausesParts(maxDepth: int, st: IterState)
    ensures LayerClauses(maxDepth, st)
         == StandardClauses(maxDepth, st)
            + SelfLoopClauses(st.pathCounter + |StandardClauses(maxDepth, st)|, st.varCounter,
                              SelfReferentialGroup(maxDepth, st.frontier))
  {
  }

  /**
   * A layer's text is the standard clause's text `m` followed by the text of
   * the self-referential clauses `loops`, numbered from `first`.
   */
  lemma RenderLayer(variable: string, maxDepth: int, st: IterState, m: string, first: nat, loops: seq<Clause>)
    requires m == RenderClauses(variable, StandardClauses(maxDepth, st))
    requires first == st.pathCounter + |StandardClauses(maxDepth, st)|
    requires loops == SelfLoopClauses(first, st.varCounter, SelfReferentialGroup(maxDepth, st.frontier))
    ensures RenderClauses(variable, LayerClauses(maxDepth, st)) == m + RenderClauses(variable, loops)
  {
    var std := StandardClauses(maxDepth, st);
    LayerClausesParts(maxDepth, st);
    assert LayerClauses(maxDepth, st) == std + loops;
    RenderClausesConcat(variable, std, loops);
  }

  // ---------------------------------------------------------------------------
  // The digits of `String.format`
  // ---------------------------------------------------------------------------

  /** `String.format("MATCH p%d=(%s)-[", path, source)` in a default locale whose zero digit is `zero`. */
  function FormattedMatchPrefix(zero: char, path: nat, source: string): string
    requires ZeroDigit(zero)
  {
    "MATCH " + ("p" + FormatDecimal(zero, path)) + "=(" + source + ")-["
  }

  /** `String.format("*0..1]-(%s%d)", variable, target)` in a default locale whose zero digit is `zero`. */
  function FormattedStandardSuffix(zero: char, variable: string, target: nat): string
    requires ZeroDigit(zero)
  {
    "*0..1]-(" + variable + FormatDecimal(zero, target) + ")"
  }

  /**
   * The text `next` writes for `c` as the code stands: `String.format`
   * writes the path number and the standard clause's target counter in the
   * digits of the default locale, whose zero digit is `zero`, while the
   * source variable goes through `Integer.toString` and stays ASCII.
   */
  function FormattedRender(zero: char, variable: string, c: Clause): string
    requires ZeroDigit(zero)
  {
    match c
    case StandardMatch(k, src, ps, tgt) =>
      FormattedMatchPrefix(zero, k, VariableName(variable, src)) + Join("|", ps) + FormattedStandardSuffix(zero, variable, tgt)
    case SelfLoopMatch(k, src, p) =>
      FormattedMatchPrefix(zero, k, VariableName(variable, src)) + p + SelfLoopSuffix
  }

  /** Under a default locale with ASCII digits the code writes exactly `Render`'s text. */
  lemma FormattedRenderAscii(variable: string, c: Clause)
    ensures FormattedRender('0', variable, c) == Render(variable, c)
  {
    FormatDecimalAscii(c.path);
    if c.StandardMatch? {
      FormatDecimalAscii(c.target);
    }
  }

  /** The path variable the text `s` of a clause for path `k` binds. */
  function BoundPath(s: string, k: nat): string
    requires |s| >= 6 + |PathName(k)|
  {
    s[6..6 + |PathName(k)|]
  }

  /** The node variable the text `s` of a standard clause binds, when its target counter is `x`. */
  function BoundTarget(variable: string, s: string, x: nat): string
    requires |s| >= |VariableName(variable, x)| + 1
  {
    s[|s| - 1 - |VariableName(variable, x)|..|s| - 1]
  }

  /** The path name written after `MATCH `, in the digits of zero digit `zero`. */
  lemma PrefixPath(zero: char, path: nat, source: string)
    requires ZeroDigit(zero)
    ensures |FormattedMatchPrefix(zero, path, source)| >= 6 + |PathName(path)|
    ensures FormattedMatchPrefix(zero, path, source)[6..6 + |PathName(path)|] == "p" + FormatDecimal(zero, path)
  {
    var name := "p" + FormatDecimal(zero, path);
    var n := |name|;
    SliceLeft("MATCH " + name + "=(" + source, ")-[", 6, 6 + n);
    SliceLeft("MATCH " + name + "=(", source, 6, 6 + n);
    SliceLeft("MATCH " + name, "=(", 6, 6 + n);
    SliceRight("MATCH ", name, 0, n);
  }

  /** The target variable written inside the standard suffix, in the digits of zero digit `zero`. */
  lemma SuffixTarget(zero: char, variable: string, target: nat)
    requires ZeroDigit(zero)
    ensures var suffix := FormattedStandardSuffix(zero, variable, target);
      |suffix| == 9 + |variable| + |FormatDecimal(zero, target)|
      && suffix[8..|suffix| - 1] == variable + FormatDecimal(zero, target)
  {
    var d := FormatDecimal(zero, target);
    var v := variable + d;
    SliceLeft("*0..1]-(" + variable + d, ")", 8, 8 + |v|);
    assert "*0..1]-(" + variable + d == "*0..1]-(" + v;
    SliceRight("*0..1]-(", v, 0, |v|);
  }

  /** The path name a clause's text binds is the one its prefix writes. */
  lemma FormattedPath(zero: char, variable: string, c: Clause)
    requires ZeroDigit(zero)
    ensures |FormattedRender(zero, variable, c)| >= 6 + |PathName(c.path)|
    ensures BoundPath(FormattedRender(zero, variable, c), c.path) == "p" + FormatDecimal(zero, c.path)
  {
    var prefix := FormattedMatchPrefix(zero, c.path, VariableName(variable, c.source));
    var n := |PathName(c.path)|;
    PrefixPath(zero, c.path, VariableName(variable, c.source));
    match c
    case StandardMatch(_, _, ps, tgt) =>
      SliceLeft(prefix + Join("|", ps), FormattedStandardSuffix(zero, variable, tgt), 6, 6 + n);
      SliceLeft(prefix, Join("|", ps), 6, 6 + n);
    case SelfLoopMatch(_, _, p) =>
      SliceLeft(prefix + p, SelfLoopSuffix, 6, 6 + n);
      SliceLeft(prefix, p, 6, 6 + n);
  }

  /** The target name a standard clause's text binds is the one its suffix writes. */
  lemma FormattedTarget(zero: char, variable: string, c: Clause)
    requires ZeroDigit(zero) && c.StandardMatch? && c.target > 0
    ensures |FormattedRender(zero, variable, c)| >= |VariableName(variable, c.target)| + 1
    ensures BoundTarget(variable, FormattedRender(zero, variable, c), c.target) == variable + FormatDecimal(zero, c.target)
  {
    var front := FormattedMatchPrefix(zero, c.path, VariableName(variable, c.source)) + Join("|", c.patterns);
    var suffix := FormattedStandardSuffix(zero, variable, c.target);
    SuffixTarget(zero, variable, c.target);
    SliceRight(front, suffix, 8, |suffix| - 1);
  }

  /**
   * With ASCII digits the names agree: a clause binds the path that
   * `CollectTerm` names, and a standard clause binds the variable the next
   * layer starts from.
   */
  lemma RenderedNames(variable: string, c: Clause)
    ensures |Render(variable, c)| >= 6 + |PathName(c.path)|
    ensures BoundPath(Render(variable, c), c.path) == PathName(c.path)
    ensures CollectTerm(c.path)[8..|CollectTerm(c.path)| - 1] == PathName(c.path)
    ensures c.StandardMatch? && c.target > 0 ==>
      |Render(variable, c)| >= |VariableName(variable, c.target)| + 1 &&
      BoundTarget(variable, Render(variable, c), c.target) == VariableName(variable, c.target)
  {
    FormattedRenderAscii(variable, c);
    FormattedPath('0', variable, c);
    if c.StandardMatch? && c.target > 0 {
      FormattedTarget('0', variable, c);
    }
    FormatDecimalAscii(c.path);
    if c.StandardMatch? {
      FormatDecimalAscii(c.target);
    }
    SliceLeft("collect(" + PathName(c.path), ")", 8, 8 + |PathName(c.path)|);
    SliceRight("collect(", PathName(c.path), 0, |PathName(c.path)|);
  }

  /**
   * With any other zero digit they disagree: the clause binds a path the
   * return clause never collects, and a standard clause binds a variable
   * other than the one the next layer starts from.
   */
  lemma LocalisedNamesDisagree(zero: char, variable: string, c: Clause)
    requires ZeroDigit(zero) && zero != '0'
    ensures |FormattedRender(zero, variable, c)| >= 6 + |PathName(c.path)|
    ensures BoundPath(FormattedRender(zero, variable, c), c.path) != PathName(c.path)
    ensures c.StandardMatch? && c.target > 0 ==>
      |FormattedRender(zero, variable, c)| >= |VariableName(variable, c.target)| + 1 &&
      BoundTarget(variable, FormattedRender(zero, variable, c), c.target) != VariableName(variable, c.target)
  {
    FormattedPath(zero, variable, c);
    FormatDecimalDiffers(zero, c.path);
    assert ("p" + FormatDecimal(zero, c.path))[1] != PathName(c.path)[1];
    if c.StandardMatch? && c.target > 0 {
      FormattedTarget(zero, variable, c);
      FormatDecimalDiffers(zero, c.target);
      var i := |variable|;
      assert (variable + FormatDecimal(zero, c.target))[i] != VariableName(variable, c.target)[i];
    }
  }

  // ---------------------------------------------------------------------------
  // Recomputing the frontier
  // ---------------------------------------------------------------------------

  function Starts(rs: seq<Relationship>): set<Label> {
    set r | r in rs :: r.start
  }

  /** `r.other(r.start())` of each relationship, in order. */
  function Ends(rs: seq<Relationship>): seq<Label> {
    seq(|rs|, i requires 0 <= i < |rs| => Other(rs[i], rs[i].start))
  }

  /** `Stream.distinct`: the first occurrence of each element, in order (see `DistinctHead`). */
  function Distinct(s: seq<Label>): (r: seq<Label>)
    ensures forall x :: x in r <==> x in s
    ensures forall i, j :: 0 <= i < j < |r| ==> r[i] != r[j]
  {
    if s == [] then []
    else
      var init := Distinct(s[..|s| - 1]);
      assert forall x :: x in s <==> x in s[..|s| - 1] || x == s[|s| - 1];
      if s[|s| - 1] in init then init else init + [s[|s| - 1]]
  }

  /** The elements of `s` not in `visited`, in order. */
  function Unvisited(s: seq<Label>, visited: set<Label>): (r: seq<Label>)
    ensures forall x :: x in r <==> x in s && x !in visited
    ensures |s| == 1 ==> r == if s[0] in visited then [] else s
  {
    if s == [] then []
    else (if s[0] in visited then [] else [s[0]]) + Unvisited(s[1..], visited)
  }

  /** The relationships of the nodes `ns`, node after node (`flatMap`). */
  function RelationshipsOf(schema: Schema, ns: seq<Label>): (rs: seq<Relationship>)
    ensures forall r :: r in rs <==> exists n :: n in ns && r in ExtractRelationships(schema, n)
    ensures |ns| == 1 ==> rs == ExtractRelationships(schema, ns[0])
  {
    if ns == [] then []
    else
      var init := ns[..|ns| - 1];
      var rest := RelationshipsOf(schema, init);
      assert forall n :: n in ns <==> n in init || n == ns[|ns| - 1];
      rest + ExtractRelationships(schema, ns[|ns| - 1])
  }

  /** `filter` keeps order and multiplicity: filtering a concatenation filters each part. */
  lemma {:induction false} UnvisitedAppend(a: seq<Label>, b: seq<Label>, visited: set<Label>)
    ensures Unvisited(a + b, visited) == Unvisited(a, visited) + Unvisited(b, visited)
  {
    if a == [] {
      assert a + b == b;
    } else {
      assert (a + b)[1..] == a[1..] + b;
      UnvisitedAppend(a[1..], b, visited);
    }
  }

  /** `flatMap` keeps the order of the nodes: the relationships of a concatenation are those of each part in turn. */
  lemma {:induction false} RelationshipsOfAppend(schema: Schema, a: seq<Label>, b: seq<Label>)
    ensures RelationshipsOf(schema, a + b) == RelationshipsOf(schema, a) + RelationshipsOf(schema, b)
  {
    if b == [] {
      assert a + b == a;
    } else {
      var init := b[..|b| - 1];
      RelationshipsOfAppend(schema, a, init);
      assert (a + b)[..|a + b| - 1] == a + init;
    }
  }

  /**
   * `distinct` keeps the first occurrence: the head `x` stays in front, and
   * the rest is the distinct elements of the tail `t` with `x`'s copies removed.
   */
  lemma {:induction false} DistinctHead(x: Label, t: seq<Label>)
    ensures Distinct([x] + t) == [x] + Distinct(Unvisited(t, {x}))
  {
    if t == [] {
      assert ([x] + t)[..0] == [];
    } else {
      var t', y := t[..|t| - 1], t[|t| - 1];
      DistinctHead(x, t');
      var init := [x] + t';
      assert init[0] == x && init[1..] == t';
      SnocParts(x, t);
      UnvisitedSnoc(t', y, x);
      assert y in init <==> y == x || y in t';
      DistinctHeadStep(x, y, init, Unvisited(t', {x}));
    }
  }

  lemma SnocParts(x: Label, t: seq<Label>)
    requires t != []
    ensures t == t[..|t| - 1] + [t[|t| - 1]]
    ensures [x] + t == ([x] + t[..|t| - 1]) + [t[|t| - 1]]
  {
  }

  lemma UnvisitedSnoc(a: seq<Label>, y: Label, x: Label)
    ensures Unvisited(a + [y], {x}) == if y == x then Unvisited(a, {x}) else Unvisited(a, {x}) + [y]
    ensures y in Unvisited(a, {x}) <==> y in a && y != x
  {
    UnvisitedAppend(a, [y], {x});
  }

  lemma DistinctHeadStep(x: Label, y: Label, init: seq<Label>, rest: seq<Label>)
    requires init != [] && init[0] == x
    requires Distinct(init) == [x] + Distinct(rest)
    requires y in rest <==> y in init && y != x
    ensures Distinct(init + [y]) == [x] + Distinct(if y == x then rest else rest + [y])
  {
    DistinctSnoc(init, y);
    if y == x {
      assert y in init;
    } else {
      DistinctSnoc(rest, y);
      if y in init {
        assert Distinct(rest + [y]) == Distinct(rest);
      } else {
        assert Distinct(init + [y]) == ([x] + Distinct(rest)) + [y];
        assert Distinct(rest + [y]) == Distinct(rest) + [y];
      }
    }
  }

  lemma DistinctSnoc(s: seq<Label>, y: Label)
    ensures Distinct(s + [y]) == if y in s then Distinct(s) else Distinct(s) + [y]
  {
    assert (s + [y])[..|s|] == s;
  }

  /**
   * The next frontier: the other endpoint of each relationship, duplicates
   * and visited nodes removed, then every relationship of what is left.
   */
  function NextFrontier(schema: Schema, frontier: seq<Relationship>, visited: set<Label>): seq<Relationship> {
    RelationshipsOf(schema, Unvisited(Distinct(Ends(frontier)), visited))
  }

  // ---------------------------------------------------------------------------
  // One step and a drained run
  // ---------------------------------------------------------------------------

  /** The state after `next`. */
  function StepState(schema: Schema, maxDepth: int, st: IterState): IterState {
    var visited := st.visited + Starts(st.frontier);
    IterState(
      NextFrontier(schema, st.frontier, visited),
      visited,
      st.depth + 1,
      st.pathCounter + |LayerClauses(maxDepth, st)|,
      st.varCounter + |StandardClauses(maxDepth, st)|)
  }

  lemma StepStateCounters(schema: Schema, maxDepth: int, st: IterState)
    ensures StepState(schema, maxDepth, st).pathCounter == st.pathCounter + |LayerClauses(maxDepth, st)|
    ensures StepState(schema, maxDepth, st).varCounter == st.varCounter + |StandardClauses(maxDepth, st)|
  {
  }

  /**
   * `next` takes one path number for the standard group's clause, if that
   * group is non-empty, and one per self-referential relationship; it takes
   * one variable number only for the standard clause.
   */
  lemma StepCounters(schema: Schema, maxDepth: int, st: IterState)
    ensures var std := if |StandardGroup(maxDepth, st.frontier)| > 0 then 1 else 0;
      && StepState(schema, maxDepth, st).pathCounter
         == st.pathCounter + std + |SelfReferentialGroup(maxDepth, st.frontier)|
      && StepState(schema, maxDepth, st).varCounter == st.varCounter + std
  {
    LayerClausesParts(maxDepth, st);
  }

  /**
   * What keeps a run finite: the depth bound in bounded mode; in unbounded
   * mode, that every relationship a node owns starts there and that every
   * frontier relationship starts at a known node not yet visited.
   */
  predicate RunInv(schema: Schema, maxDepth: int, st: IterState) {
    && (maxDepth >= 0 ==> st.depth <= maxDepth)
    && (maxDepth < 0 ==>
          && StartsOwned(schema)
          && forall r :: r in st.frontier ==> r.start in schema && r.start !in st.visited)
  }

  /** Steps left: depth to go in bounded mode, known nodes not yet visited otherwise. */
  function Measure(schema: Schema, maxDepth: int, st: IterState): nat {
    if maxDepth < 0 then |schema.Keys - st.visited|
    else if st.depth <= maxDepth then maxDepth - st.depth
    else 0
  }

  /** Under `StartsOwned`, every relationship of the next frontier starts at a known, unvisited node. */
  lemma NextFrontierStartsUnvisited(schema: Schema, frontier: seq<Relationship>, visited: set<Label>)
    requires StartsOwned(schema)
    ensures forall r :: r in NextFrontier(schema, frontier, visited) ==> r.start in schema && r.start !in visited
  {
    forall r | r in NextFrontier(schema, frontier, visited)
      ensures r.start in schema && r.start !in visited
    {
      var n :| n in Unvisited(Distinct(Ends(frontier)), visited) && r in ExtractRelationships(schema, n);
      var i :| 0 <= i < |schema[n]| && schema[n][i] == r;
    }
  }

  lemma UnvisitedShrinks(keys: set<Label>, visited: set<Label>, visited': set<Label>, x: Label)
    requires visited <= visited' && x in keys && x !in visited && x in visited'
    ensures |keys - visited'| < |keys - visited|
  {
    var before, after := keys - visited, keys - visited';
    var rest := before - after - {x};
    assert before == (after + {x}) + rest && (after + {x}) !! rest && x !in after;
    assert |before| == |after + {x}| + |rest|;
  }

  /** A step keeps `RunInv` and lowers `Measure`. */
  lemma StepDecreasesMeasure(schema: Schema, maxDepth: int, st: IterState)
    requires RunInv(schema, maxDepth, st) && HasMore(maxDepth, st)
    ensures RunInv(schema, maxDepth, StepState(schema, maxDepth, st))
    ensures Measure(schema, maxDepth, StepState(schema, maxDepth, st)) < Measure(schema, maxDepth, st)
  {
    var st' := StepState(schema, maxDepth, st);
    assert st'.depth == st.depth + 1;
    if maxDepth < 0 {
      assert st'.visited == st.visited + Starts(st.frontier);
      assert st'.frontier == NextFrontier(schema, st.frontier, st'.visited);
      NextFrontierStartsUnvisited(schema, st.frontier, st'.visited);
      var x := st.frontier[0].start;
      assert x in Starts(st.frontier);
      UnvisitedShrinks(schema.Keys, st.visited, st'.visited, x);
    }
  }

  /** The clauses of every step of a drained run, layer by layer, and the state it ends in. */
  datatype Trace = Trace(layers: seq<seq<Clause>>, final: IterState)

  /** Steps from `st` while `HasMore` holds, as `createExplicitMatchAndReturnClauses` does. */
  function Run(schema: Schema, maxDepth: int, st: IterState): (t: Trace)
    requires RunInv(schema, maxDepth, st)
    ensures !HasMore(maxDepth, t.final)
    decreases Measure(schema, maxDepth, st)
  {
    if !HasMore(maxDepth, st) then Trace([], st)
    else
      StepDecreasesMeasure(schema, maxDepth, st);
      var rest := Run(schema, maxDepth, StepState(schema, maxDepth, st));
      Trace([LayerClauses(maxDepth, st)] + rest.layers, rest.final)
  }

  /** A run that can step is that step's layer followed by the run from the next state. */
  lemma RunStep(schema: Schema, maxDepth: int, st: IterState)
    requires RunInv(schema, maxDepth, st) && HasMore(maxDepth, st)
    ensures RunInv(schema, maxDepth, StepState(schema, maxDepth, st))
    ensures Run(schema, maxDepth, st).layers
         == [LayerClauses(maxDepth, st)] + Run(schema, maxDepth, StepState(schema, maxDepth, st)).layers
    ensures Run(schema, maxDepth, st).final == Run(schema, maxDepth, StepState(schema, maxDepth, st)).final
  {
    StepDecreasesMeasure(schema, maxDepth, st);
  }

  /** Each layer's text after one space, as the drain loop appends it. */
  function LoadText(variable: string, layers: seq<seq<Clause>>): string {
    if layers == [] then ""
    else " " + RenderClauses(variable, layers[0]) + LoadText(variable, layers[1..])
  }

  function CollectTerm(i: nat): string {
    "collect(" + PathName(i) + ")"
  }

  /** `collect(p0)`, ..., `collect(p<paths-1>)`: one aggregation per generated path. */
  function CollectTerms(paths: nat): seq<string> {
    seq(paths, i requires 0 <= i < paths => CollectTerm(i))
  }

  /** `collect(p<i>)` contains no `+`, so the aggregation list splits back into its terms. */
  lemma CollectTermsSplit(paths: nat)
    requires paths > 0
    ensures Split(Join("+", CollectTerms(paths)), '+') == CollectTerms(paths)
    ensures forall i :: 0 <= i < paths ==> DecimalValue(CollectTerms(paths)[i][9..|CollectTerms(paths)[i]| - 1]) == i
  {
    var terms := CollectTerms(paths);
    forall i | 0 <= i < paths
      ensures '+' !in terms[i]
      ensures DecimalValue(terms[i][9..|terms[i]| - 1]) == i
    {
      var digits := NatToString(i);
      assert terms[i] == "collect(p" + digits + ")";
      assert terms[i][9..|terms[i]| - 1] == digits;
      DecimalRoundTrip(i);
      assert !IsDigit('+');
      assert '+' !in digits;
    }
    JoinSplitRoundTrip('+', terms);
  }

  /**
   * The return clause for `paths` generated paths: the root variable alone,
   * or the literal node `n` and a `+`-separated list that splits back into
   * one `collect` term per path.
   */
  function ReturnClause(variable: string, paths: nat): (r: string)
    ensures paths == 0 ==> r == " RETURN " + variable
    ensures paths > 0 ==> |r| >= 11 && r[..11] == " RETURN n, " && Split(r[11..], '+') == CollectTerms(paths)
  {
    if paths == 0 then " RETURN " + variable
    else
      CollectTermsSplit(paths);
      var r := " RETURN n, " + Join("+", CollectTerms(paths));
      assert r[11..] == Join("+", CollectTerms(paths));
      r
  }

  /** The text `createExplicitMatchAndReturnClauses(nodeLabel, variable, maxDepth)` returns. */
  function ExplicitClauses(schema: Schema, nodeLabel: Label, variable: string, maxDepth: int): string
    requires nodeLabel in schema
    requires maxDepth < 0 ==> StartsOwned(schema)
  {
    var t := Run(schema, maxDepth, Init(schema, nodeLabel));
    LoadText(variable, t.layers) + ReturnClause(variable, t.final.pathCounter)
  }
}
