/**
 * What the load-clause generator promises, proved about the definitions of
 * module LoadClauses: how many layers a drained iterator writes, how each
 * layer covers its frontier, how paths are numbered and collected, which node
 * variables the clauses bind, and how the frontier is recomputed.
 */
module LoadProperties {
  import opened Text
  import opened SchemaModel
  import opened LoadClauses

  // ---------------------------------------------------------------------------
  // How many layers a run writes
  // ---------------------------------------------------------------------------

  /** Each step raises the depth by one, and a run takes no more steps than `Measure` allows. */
  lemma {:induction false} RunLength(schema: Schema, maxDepth: int, st: IterState)
    requires RunInv(schema, maxDepth, st)
    ensures Run(schema, maxDepth, st).final.depth == st.depth + |Run(schema, maxDepth, st).layers|
    ensures |Run(schema, maxDepth, st).layers| <= Measure(schema, maxDepth, st)
    decreases Measure(schema, maxDepth, st)
  {
    if HasMore(maxDepth, st) {
      RunStep(schema, maxDepth, st);
      StepDecreasesMeasure(schema, maxDepth, st);
      RunLength(schema, maxDepth, StepState(schema, maxDepth, st));
    }
  }

  /** With a depth bound, at most `maxDepth` layers are written and the iterator ends at the depth it reached. */
  lemma BoundedRunLayers(schema: Schema, nodeLabel: Label, maxDepth: nat)
    ensures |Run(schema, maxDepth, Init(schema, nodeLabel)).layers| <= maxDepth
    ensures Run(schema, maxDepth, Init(schema, nodeLabel)).final.depth
         == |Run(schema, maxDepth, Init(schema, nodeLabel)).layers|
  {
    RunLength(schema, maxDepth, Init(schema, nodeLabel));
  }

  /** Without a depth bound, each layer visits a new node, so there are at most as many layers as schema nodes. */
  lemma UnboundedRunLayers(schema: Schema, nodeLabel: Label, maxDepth: int)
    requires nodeLabel in schema && maxDepth < 0 && StartsOwned(schema)
    ensures |Run(schema, maxDepth, Init(schema, nodeLabel)).layers| <= |schema.Keys|
  {
    RunLength(schema, maxDepth, Init(schema, nodeLabel));
    assert schema.Keys - {} == schema.Keys;
  }

  /** A zero depth, or a start node without relationships, writes no clause and returns the node alone. */
  lemma EmptyLoad(schema: Schema, nodeLabel: Label, variable: string, maxDepth: int)
    requires nodeLabel in schema && (maxDepth < 0 ==> StartsOwned(schema))
    requires maxDepth == 0 || schema[nodeLabel] == []
    ensures ExplicitClauses(schema, nodeLabel, variable, maxDepth) == " RETURN " + variable
  {
    var st := Init(schema, nodeLabel);
    assert !HasMore(maxDepth, st);
    assert Run(schema, maxDepth, st) == Trace([], st);
  }

  // ---------------------------------------------------------------------------
  // Partitioning by the self-referential flag
  // ---------------------------------------------------------------------------

  /** `WithFlag` keeps exactly the relationships that carry the flag. */
  lemma {:induction false} WithFlagMembers(rs: seq<Relationship>, flag: bool)
    ensures forall r :: r in WithFlag(rs, flag) <==> r in rs && r.selfReferential == flag
  {
    if rs != [] {
      WithFlagMembers(rs[1..], flag);
      assert forall r :: r in rs <==> r == rs[0] || r in rs[1..];
    }
  }

  lemma TypePatternsAppend(a: seq<Relationship>, b: seq<Relationship>)
    ensures TypePatterns(a + b) == TypePatterns(a) + TypePatterns(b)
  {
  }

  /** The two groups together hold every relationship's pattern exactly as often as the frontier does. */
  lemma {:induction false} WithFlagPartition(rs: seq<Relationship>)
    ensures multiset(TypePatterns(WithFlag(rs, false))) + multiset(TypePatterns(WithFlag(rs, true)))
         == multiset(TypePatterns(rs))
  {
    if rs != [] {
      WithFlagPartition(rs[1..]);
      var head := [rs[0]];
      assert rs == head + rs[1..];
      TypePatternsAppend(head, rs[1..]);
      var f := if rs[0].selfReferential then [] else head;
      var t := if rs[0].selfReferential then head else [];
      assert WithFlag(rs, false) == f + WithFlag(rs[1..], false);
      assert WithFlag(rs, true) == t + WithFlag(rs[1..], true);
      TypePatternsAppend(f, WithFlag(rs[1..], false));
      TypePatternsAppend(t, WithFlag(rs[1..], true));
    }
  }

  // ---------------------------------------------------------------------------
  // The clauses of one layer
  // ---------------------------------------------------------------------------

  /** The type patterns a clause writes. */
  function ClausePatterns(c: Clause): seq<string> {
    match c
    case StandardMatch(_, _, ps, _) => ps
    case SelfLoopMatch(_, _, p) => [p]
  }

  /** The type patterns of `cs`, clause after clause. */
  function Patterns(cs: seq<Clause>): seq<string> {
    if cs == [] then [] else Patterns(cs[..|cs| - 1]) + ClausePatterns(cs[|cs| - 1])
  }

  lemma {:induction false} PatternsAppend(a: seq<Clause>, b: seq<Clause>)
    ensures Patterns(a + b) == Patterns(a) + Patterns(b)
    decreases |b|
  {
    if b == [] {
      assert a + b == a;
    } else {
      var init, last := b[..|b| - 1], b[|b| - 1];
      assert (a + b)[..|a + b| - 1] == a + init;
      calc {
        Patterns(a + b);
        Patterns(a + init) + ClausePatterns(last);
        { PatternsAppend(a, init); }
        (Patterns(a) + Patterns(init)) + ClausePatterns(last);
        Patterns(a) + (Patterns(init) + ClausePatterns(last));
        Patterns(a) + Patterns(b);
      }
    }
  }

  lemma {:induction false} SelfLoopPatterns(first: nat, source: nat, rs: seq<Relationship>)
    ensures Patterns(SelfLoopClauses(first, source, rs)) == TypePatterns(rs)
    decreases |rs|
  {
    if rs != [] {
      var init := rs[..|rs| - 1];
      SelfLoopPatterns(first, source, init);
      assert SelfLoopClauses(first, source, rs)[..|rs| - 1] == SelfLoopClauses(first, source, init);
      assert TypePatterns(rs) == TypePatterns(init) + [ToTypePattern(rs[|rs| - 1])];
    }
  }

  /**
   * A standard clause (if any) followed by self-referential clauses numbered
   * on from it: paths are consecutive, every clause starts from `x`, and
   * only the first clause can be standard.
   */
  lemma LayerShape(std: seq<Clause>, p: nat, x: nat, rs: seq<Relationship>)
    requires |std| <= 1
    requires forall c :: c in std ==> c.StandardMatch? && c.path == p && c.source == x && c.target == x + 1
    ensures var layer := std + SelfLoopClauses(p + |std|, x, rs);
      && Consecutive(layer, p)
      && (forall i :: 0 <= i < |layer| ==> layer[i].source == x)
      && (forall i :: 0 <= i < |layer| && layer[i].StandardMatch? ==> i == 0 && layer[i].target == x + 1)
  {
    var layer := std + SelfLoopClauses(p + |std|, x, rs);
    forall i | 0 <= i < |layer|
      ensures layer[i].path == p + i && layer[i].source == x
      ensures layer[i].StandardMatch? ==> i == 0 && layer[i].target == x + 1
    {
      if i < |std| {
        assert layer[i] in std;
      }
    }
  }

  /**
   * Paths are numbered consecutively from the path counter; every clause
   * starts from the current variable; only the first clause can be the
   * standard one, and it binds the next variable.
   */
  lemma LayerNumbering(maxDepth: int, st: IterState)
    ensures Consecutive(LayerClauses(maxDepth, st), st.pathCounter)
    ensures var layer := LayerClauses(maxDepth, st);
      forall i :: 0 <= i < |layer| ==> layer[i].source == st.varCounter
    ensures var layer := LayerClauses(maxDepth, st);
      forall i :: 0 <= i < |layer| && layer[i].StandardMatch? ==> i == 0 && layer[i].target == st.varCounter + 1
    ensures |LayerClauses(maxDepth, st)|
         == |StandardClauses(maxDepth, st)| + |SelfReferentialGroup(maxDepth, st.frontier)|
  {
    var std := StandardClauses(maxDepth, st);
    LayerShape(std, st.pathCounter, st.varCounter, SelfReferentialGroup(maxDepth, st.frontier));
  }

  lemma StandardPatterns(maxDepth: int, st: IterState)
    ensures multiset(Patterns(StandardClauses(maxDepth, st))) == multiset(TypePatterns(StandardGroup(maxDepth, st.frontier)))
  {
    var standard := StandardGroup(maxDepth, st.frontier);
    var std := StandardClauses(maxDepth, st);
    if |standard| > 0 {
      assert std[1..] == [];
      assert Patterns(std) == SortStrings(TypePatterns(standard)) + [];
    } else {
      assert TypePatterns(standard) == [];
    }
  }

  lemma LayerPatterns(maxDepth: int, st: IterState)
    ensures Patterns(LayerClauses(maxDepth, st))
         == Patterns(StandardClauses(maxDepth, st)) + TypePatterns(SelfReferentialGroup(maxDepth, st.frontier))
  {
    var std := StandardClauses(maxDepth, st);
    var first: nat := st.pathCounter + |std|;
    var rs := SelfReferentialGroup(maxDepth, st.frontier);
    var loops := SelfLoopClauses(first, st.varCounter, rs);
    calc {
      Patterns(LayerClauses(maxDepth, st));
      { LayerClausesParts(maxDepth, st); }
      Patterns(std + loops);
      { SplitPatterns(std, loops, first, st.varCounter, rs); }
      Patterns(std) + TypePatterns(rs);
    }
  }

  lemma SplitPatterns(std: seq<Clause>, loops: seq<Clause>, first: nat, x: nat, rs: seq<Relationship>)
    requires loops == SelfLoopClauses(first, x, rs)
    ensures Patterns(std + loops) == Patterns(std) + TypePatterns(rs)
  {
    PatternsAppend(std, loops);
    SelfLoopPatterns(first, x, rs);
  }

  /** Every frontier relationship's pattern is written exactly once in its layer, in either mode. */
  lemma LayerCoversFrontier(maxDepth: int, st: IterState)
    ensures multiset(Patterns(LayerClauses(maxDepth, st))) == multiset(TypePatterns(st.frontier))
  {
    var selfRef := SelfReferentialGroup(maxDepth, st.frontier);
    LayerPatterns(maxDepth, st);
    StandardPatterns(maxDepth, st);
    if maxDepth < 0 {
      WithFlagPartition(st.frontier);
    } else {
      assert TypePatterns(selfRef) == [];
    }
  }

  /** With a depth bound, a layer is at most one standard clause holding the sorted patterns of the whole frontier. */
  lemma BoundedLayerIsOneClause(maxDepth: int, st: IterState)
    requires maxDepth >= 0
    ensures |LayerClauses(maxDepth, st)| == (if st.frontier == [] then 0 else 1)
    ensures forall c :: c in LayerClauses(maxDepth, st) ==>
      c.StandardMatch? && Sorted(c.patterns) && multiset(c.patterns) == multiset(TypePatterns(st.frontier))
  {
    var std := StandardClauses(maxDepth, st);
    LayerClausesParts(maxDepth, st);
    assert SelfLoopClauses(st.pathCounter + |std|, st.varCounter, []) == [];
    assert std + [] == std;
  }

  /** Without a depth bound, every `*0..` clause is made from a self-referential frontier relationship. */
  lemma UnboundedSelfLoopClauses(maxDepth: int, st: IterState)
    requires maxDepth < 0
    ensures forall c :: c in LayerClauses(maxDepth, st) && c.SelfLoopMatch? ==>
      exists r :: r in st.frontier && r.selfReferential && c.pattern == ToTypePattern(r)
  {
    var std := StandardClauses(maxDepth, st);
    var selfRef := WithFlag(st.frontier, true);
    LayerClausesParts(maxDepth, st);
    assert SelfReferentialGroup(maxDepth, st.frontier) == selfRef;
    SelfLoopOrigins(st.pathCounter + |std|, st.varCounter, selfRef);
    WithFlagMembers(st.frontier, true);
  }

  /** Without a depth bound, the standard clause holds only patterns of non-self-referential frontier relationships. */
  lemma UnboundedStandardClause(maxDepth: int, st: IterState)
    requires maxDepth < 0
    ensures forall c, p :: c in LayerClauses(maxDepth, st) && c.StandardMatch? && p in c.patterns ==>
      exists r :: r in st.frontier && !r.selfReferential && p == ToTypePattern(r)
  {
    var std := StandardClauses(maxDepth, st);
    var standard := WithFlag(st.frontier, false);
    var loops := SelfLoopClauses(st.pathCounter + |std|, st.varCounter, SelfReferentialGroup(maxDepth, st.frontier));
    LayerClausesParts(maxDepth, st);
    SelfLoopOrigins(st.pathCounter + |std|, st.varCounter, SelfReferentialGroup(maxDepth, st.frontier));
    WithFlagMembers(st.frontier, false);
    forall c: Clause, p: string | c in std + loops && c.StandardMatch? && p in c.patterns
      ensures exists r :: r in st.frontier && !r.selfReferential && p == ToTypePattern(r)
    {
      assert c in std;
      assert p in multiset(SortStrings(TypePatterns(standard)));
      PatternOrigin(standard, p);
    }
  }

  /** Each self-referential clause writes the pattern of one of the relationships it was made from. */
  lemma SelfLoopOrigins(first: nat, x: nat, rs: seq<Relationship>)
    ensures forall c :: c in SelfLoopClauses(first, x, rs) ==>
      c.SelfLoopMatch? && exists r :: r in rs && c.pattern == ToTypePattern(r)
  {
    var loops := SelfLoopClauses(first, x, rs);
    forall c | c in loops
      ensures c.SelfLoopMatch? && exists r :: r in rs && c.pattern == ToTypePattern(r)
    {
      var k :| 0 <= k < |loops| && loops[k] == c;
      assert rs[k] in rs;
    }
  }

  lemma PatternOrigin(rs: seq<Relationship>, p: string)
    requires p in TypePatterns(rs)
    ensures exists r :: r in rs && p == ToTypePattern(r)
  {
    var k :| 0 <= k < |rs| && TypePatterns(rs)[k] == p;
    assert rs[k] in rs;
  }


  // ---------------------------------------------------------------------------
  // Path numbering and the return clause
  // ---------------------------------------------------------------------------

  /** A run's clauses in the order they are written. */
  function Flatten(layers: seq<seq<Clause>>): seq<Clause> {
    if layers == [] then [] else layers[0] + Flatten(layers[1..])
  }

  lemma FlattenCons(layer: seq<Clause>, layers: seq<seq<Clause>>)
    ensures Flatten([layer] + layers) == layer + Flatten(layers)
  {
    assert ([layer] + layers)[1..] == layers;
  }

  /** The clauses of `cs` are numbered `first`, `first + 1`, ... */
  predicate Consecutive(cs: seq<Clause>, first: nat) {
    forall i :: 0 <= i < |cs| ==> cs[i].path == first + i
  }

  lemma ConsecutiveAppend(a: seq<Clause>, b: seq<Clause>, first: nat)
    requires Consecutive(a, first) && Consecutive(b, first + |a|)
    ensures Consecutive(a + b, first)
  {
    forall i | |a| <= i < |a + b|
      ensures (a + b)[i].path == first + i
    {
      assert (a + b)[i] == b[i - |a|];
    }
  }

  /** The clauses of a run carry consecutive path numbers, and the path counter ends just past the last. */
  lemma {:induction false} RunNumbering(schema: Schema, maxDepth: int, st: IterState)
    requires RunInv(schema, maxDepth, st)
    ensures Run(schema, maxDepth, st).final.pathCounter == st.pathCounter + |Flatten(Run(schema, maxDepth, st).layers)|
    ensures Consecutive(Flatten(Run(schema, maxDepth, st).layers), st.pathCounter)
    decreases Measure(schema, maxDepth, st)
  {
    if HasMore(maxDepth, st) {
      var next := StepState(schema, maxDepth, st);
      RunStep(schema, maxDepth, st);
      StepDecreasesMeasure(schema, maxDepth, st);
      RunNumbering(schema, maxDepth, next);
      LayerNumbering(maxDepth, st);
      var layer := LayerClauses(maxDepth, st);
      var rest := Run(schema, maxDepth, next).layers;
      FlattenCons(layer, rest);
      assert next.pathCounter == st.pathCounter + |layer|;
      ConsecutiveAppend(layer, Flatten(rest), st.pathCounter);
    }
  }

  /**
   * The aggregate return clause collects exactly the paths the `MATCH`
   * clauses bind: `p0` ... `p<N-1>` with N the number of clauses, each
   * path number bound by the clause at that position.
   */
  lemma CollectedPathsAreBound(schema: Schema, nodeLabel: Label, variable: string, maxDepth: int)
    requires nodeLabel in schema && (maxDepth < 0 ==> StartsOwned(schema))
    ensures Consecutive(Flatten(Run(schema, maxDepth, Init(schema, nodeLabel)).layers), 0)
    ensures var t := Run(schema, maxDepth, Init(schema, nodeLabel));
      ExplicitClauses(schema, nodeLabel, variable, maxDepth)
      == LoadText(variable, t.layers) + ReturnClause(variable, |Flatten(t.layers)|)
  {
    var t := Run(schema, maxDepth, Init(schema, nodeLabel));
    RunNumbering(schema, maxDepth, Init(schema, nodeLabel));
    assert t.final.pathCounter == |Flatten(t.layers)|;
  }

  // ---------------------------------------------------------------------------
  // Node variables
  // ---------------------------------------------------------------------------

  /** Distinct counter values name distinct node variables. */
  lemma VariableNameInjective(variable: string, a: nat, b: nat)
    requires VariableName(variable, a) == VariableName(variable, b)
    ensures a == b
  {
    var s := VariableName(variable, a);
    if a != 0 && b != 0 {
      assert NatToString(a) == s[|variable|..] == NatToString(b);
      NatToStringInjective(a, b);
    }
  }

  /** Clause `c` binds node variable `x` as its target. */
  predicate Binds(c: Clause, x: nat) {
    c.StandardMatch? && c.target == x
  }

  /** Variable `x` is the root variable or one that a clause of `cs` binds. */
  predicate Bound(cs: seq<Clause>, x: nat) {
    x == 0 || exists j :: 0 <= j < |cs| && Binds(cs[j], x)
  }

  /** Every clause starts from a variable bound before it. */
  predicate Scoped(cs: seq<Clause>) {
    forall i :: 0 <= i < |cs| ==> Bound(cs[..i], cs[i].source)
  }

  /** Every variable `c` mentions is below `x`. */
  predicate Below(c: Clause, x: nat) {
    c.source < x && (c.StandardMatch? ==> c.target < x)
  }

  /** Every standard clause binds a variable that no earlier clause mentions. */
  predicate FreshTargets(cs: seq<Clause>) {
    forall i, j :: 0 <= j < i < |cs| && cs[i].StandardMatch? ==> Below(cs[j], cs[i].target)
  }

  /** What holds of the clauses written before a step whose variable counter is `x`. */
  predicate ScopeInv(cs: seq<Clause>, x: nat) {
    && Scoped(cs)
    && FreshTargets(cs)
    && Bound(cs, x)
    && (forall j :: 0 <= j < |cs| ==> Below(cs[j], x + 1))
    && (forall j :: 0 <= j < |cs| && cs[j].StandardMatch? ==> cs[j].target > 0)
  }

  /**
   * Appending clauses that all start from variable `x`, of which only the
   * first may be standard and binds `x + 1`, keeps the invariant; the counter
   * moves to `x + 1` exactly when that first clause is standard.
   */
  lemma ExtendScope(before: seq<Clause>, layer: seq<Clause>, x: nat, x': nat)
    requires ScopeInv(before, x)
    requires forall i :: 0 <= i < |layer| ==> layer[i].source == x
    requires forall i :: 0 <= i < |layer| && layer[i].StandardMatch? ==> i == 0 && layer[i].target == x + 1
    requires x' == if |layer| > 0 && layer[0].StandardMatch? then x + 1 else x
    ensures ScopeInv(before + layer, x')
  {
    var cs := before + layer;
    forall i | 0 <= i < |cs|
      ensures Bound(cs[..i], cs[i].source)
    {
      if i < |before| {
        assert cs[..i] == before[..i];
      } else {
        assert cs[i] == layer[i - |before|];
        if x != 0 {
          var j :| 0 <= j < |before| && Binds(before[j], x);
          assert cs[..i][j] == before[j];
        }
      }
    }
    forall i, j | 0 <= j < i < |cs| && cs[i].StandardMatch?
      ensures Below(cs[j], cs[i].target)
    {
      if i >= |before| {
        assert cs[i] == layer[i - |before|];
        assert cs[j] == before[j];
      }
    }
    if x' != x {
      assert Binds(cs[|before|], x');
    } else if x != 0 {
      var j :| 0 <= j < |before| && Binds(before[j], x);
      assert cs[j] == before[j];
    }
    forall j | 0 <= j < |cs|
      ensures Below(cs[j], x' + 1)
      ensures cs[j].StandardMatch? ==> cs[j].target > 0
    {
      if j >= |before| {
        assert cs[j] == layer[j - |before|];
      }
    }
  }

  lemma LayerKeepsScope(maxDepth: int, st: IterState, before: seq<Clause>, x': nat)
    requires ScopeInv(before, st.varCounter)
    requires x' == st.varCounter + |StandardClauses(maxDepth, st)|
    ensures ScopeInv(before + LayerClauses(maxDepth, st), x')
  {
    var layer := LayerClauses(maxDepth, st);
    var std := StandardClauses(maxDepth, st);
    LayerNumbering(maxDepth, st);
    if |std| > 0 {
      assert layer[0] == std[0];
    } else if |layer| > 0 {
      assert !layer[0].StandardMatch?;
    }
    ExtendScope(before, layer, st.varCounter, x');
  }

  lemma StepKeepsScope(schema: Schema, maxDepth: int, st: IterState, before: seq<Clause>)
    requires ScopeInv(before, st.varCounter)
    ensures ScopeInv(before + LayerClauses(maxDepth, st), StepState(schema, maxDepth, st).varCounter)
  {
    StepStateCounters(schema, maxDepth, st);
    LayerKeepsScope(maxDepth, st, before, StepState(schema, maxDepth, st).varCounter);
  }

  /** Grouping of clause sequences, stated apart so that `RunKeepsScope` does not prove it in its own larger context. */
  lemma ClausesAssociate(a: seq<Clause>, b: seq<Clause>, c: seq<Clause>)
    ensures a + (b + c) == (a + b) + c
  {
  }

  lemma {:induction false} RunKeepsScope(schema: Schema, maxDepth: int, st: IterState, before: seq<Clause>)
    requires RunInv(schema, maxDepth, st)
    requires ScopeInv(before, st.varCounter)
    ensures Scoped(before + Flatten(Run(schema, maxDepth, st).layers))
    ensures FreshTargets(before + Flatten(Run(schema, maxDepth, st).layers))
    decreases Measure(schema, maxDepth, st)
  {
    var layers := Run(schema, maxDepth, st).layers;
    if !HasMore(maxDepth, st) {
      assert before + Flatten(layers) == before;
    } else {
      var next := StepState(schema, maxDepth, st);
      RunStep(schema, maxDepth, st);
      StepDecreasesMeasure(schema, maxDepth, st);
      var layer := LayerClauses(maxDepth, st);
      var rest := Run(schema, maxDepth, next).layers;
      StepKeepsScope(schema, maxDepth, st, before);
      RunKeepsScope(schema, maxDepth, next, before + layer);
      assert before + Flatten(layers) == (before + layer) + Flatten(rest) by {
        FlattenCons(layer, rest);
        ClausesAssociate(before, layer, Flatten(rest));
      }
    }
  }

  /**
   * Every clause of a load starts from the root variable or from one an
   * earlier clause bound, and every standard clause binds a variable no
   * earlier clause mentions.
   */
  lemma RunVariables(schema: Schema, nodeLabel: Label, maxDepth: int)
    requires nodeLabel in schema && (maxDepth < 0 ==> StartsOwned(schema))
    ensures Scoped(Flatten(Run(schema, maxDepth, Init(schema, nodeLabel)).layers))
    ensures FreshTargets(Flatten(Run(schema, maxDepth, Init(schema, nodeLabel)).layers))
  {
    RunKeepsScope(schema, maxDepth, Init(schema, nodeLabel), []);
    assert [] + Flatten(Run(schema, maxDepth, Init(schema, nodeLabel)).layers)
        == Flatten(Run(schema, maxDepth, Init(schema, nodeLabel)).layers);
  }

  // ---------------------------------------------------------------------------
  // The frontier and the visited set
  // ---------------------------------------------------------------------------

  lemma EndsMembers(rs: seq<Relationship>)
    ensures forall n :: n in Ends(rs) <==> exists r :: r in rs && n == Other(r, r.start)
  {
    forall n | n in Ends(rs)
      ensures exists r :: r in rs && n == Other(r, r.start)
    {
      var i :| 0 <= i < |rs| && Ends(rs)[i] == n;
      assert rs[i] in rs;
    }
    forall r | r in rs
      ensures Other(r, r.start) in Ends(rs)
    {
      var i :| 0 <= i < |rs| && rs[i] == r;
      assert Ends(rs)[i] == Other(r, r.start);
    }
  }

  /**
   * A relationship is in the next frontier exactly when it belongs to the far
   * end of some frontier relationship and that end is not visited: none is
   * drawn in through a visited node.
   */
  lemma NextFrontierMembers(schema: Schema, frontier: seq<Relationship>, visited: set<Label>)
    ensures forall r :: r in NextFrontier(schema, frontier, visited) <==>
      exists r0 :: r0 in frontier && Other(r0, r0.start) !in visited
                && r in ExtractRelationships(schema, Other(r0, r0.start))
  {
    EndsMembers(frontier);
    var nodes := Unvisited(Distinct(Ends(frontier)), visited);
    assert forall n :: n in nodes <==> n in Ends(frontier) && n !in visited;
    forall r | r in NextFrontier(schema, frontier, visited)
      ensures exists r0 :: r0 in frontier && Other(r0, r0.start) !in visited
                        && r in ExtractRelationships(schema, Other(r0, r0.start))
    {
      var n :| n in nodes && r in ExtractRelationships(schema, n);
      var r0 :| r0 in frontier && n == Other(r0, r0.start);
    }
    forall r, r0 | r0 in frontier && Other(r0, r0.start) !in visited
                && r in ExtractRelationships(schema, Other(r0, r0.start))
      ensures r in NextFrontier(schema, frontier, visited)
    {
      assert Other(r0, r0.start) in nodes;
    }
  }

  /** The visited set only grows during a run, and a step that runs marks every frontier start visited. */
  lemma {:induction false} RunVisited(schema: Schema, maxDepth: int, st: IterState)
    requires RunInv(schema, maxDepth, st)
    ensures st.visited <= Run(schema, maxDepth, st).final.visited
    ensures HasMore(maxDepth, st) ==> Starts(st.frontier) <= Run(schema, maxDepth, st).final.visited
    decreases Measure(schema, maxDepth, st)
  {
    if HasMore(maxDepth, st) {
      RunStep(schema, maxDepth, st);
      StepDecreasesMeasure(schema, maxDepth, st);
      RunVisited(schema, maxDepth, StepState(schema, maxDepth, st));
    }
  }

  // ---------------------------------------------------------------------------
  // Without owned starts the unbounded walk need not end
  // ---------------------------------------------------------------------------

  /** A relationship of type `t` from `b` to `a`. */
  function Shared(a: Label, b: Label, t: string): Relationship {
    Relationship(t, b, a, false)
  }

  /** A schema in which both `a` and `b` list the relationship from `b` to `a`. */
  function SharedSchema(a: Label, b: Label, t: string): (schema: Schema)
    requires a != b
    ensures !StartsOwned(schema)
  {
    var schema := map[a := [Shared(a, b, t)], b := [Shared(a, b, t)]];
    assert schema[a][0].start != a;
    schema
  }

  lemma SharedFrontier(a: Label, b: Label, t: string)
    requires a != b
    ensures NextFrontier(SharedSchema(a, b, t), [Shared(a, b, t)], {b}) == [Shared(a, b, t)]
  {
    var schema := SharedSchema(a, b, t);
    assert Ends([Shared(a, b, t)]) == [a];
    assert Distinct([a]) == [a];
    assert Unvisited([a], {b}) == [a];
    assert RelationshipsOf(schema, [a]) == [Shared(a, b, t)] by {
      assert [a][..0] == [];
    }
  }

  /**
   * From `a` without a depth bound, the first step reaches the frontier
   * holding the shared relationship, with `b` visited ...
   */
  lemma SharedSchemaEntersLoop(a: Label, b: Label, t: string)
    requires a != b
    ensures StepState(SharedSchema(a, b, t), -1, Init(SharedSchema(a, b, t), a)).frontier == [Shared(a, b, t)]
    ensures StepState(SharedSchema(a, b, t), -1, Init(SharedSchema(a, b, t), a)).visited == {b}
  {
    var schema := SharedSchema(a, b, t);
    var init := Init(schema, a);
    assert init.frontier == [Shared(a, b, t)] && init.visited == {};
    assert Starts([Shared(a, b, t)]) == {b};
    var visited := init.visited + Starts(init.frontier);
    assert visited == {b};
    SharedFrontier(a, b, t);
    assert StepState(schema, -1, init).frontier == NextFrontier(schema, [Shared(a, b, t)], visited);
  }

  /** ... and every further step reproduces that frontier and visited set while `hasNext` stays true. */
  lemma SharedSchemaNeverDrains(a: Label, b: Label, t: string, st: IterState)
    requires a != b
    requires st.frontier == [Shared(a, b, t)] && st.visited == {b}
    ensures HasMore(-1, st)
    ensures StepState(SharedSchema(a, b, t), -1, st).frontier == [Shared(a, b, t)]
    ensures StepState(SharedSchema(a, b, t), -1, st).visited == {b}
  {
    var schema := SharedSchema(a, b, t);
    assert Starts([Shared(a, b, t)]) == {b};
    var visited := st.visited + Starts(st.frontier);
    assert visited == {b};
    SharedFrontier(a, b, t);
    assert StepState(schema, -1, st).frontier == NextFrontier(schema, [Shared(a, b, t)], visited);
  }

  // ---------------------------------------------------------------------------
  // A worked example
  // ---------------------------------------------------------------------------

  /**
   * Node `a` with one relationship of type `t` to node `b`, which has none,
   * loaded without a depth bound: one layer holding one standard clause from
   * the root variable to variable 1, and one generated path.
   */
  lemma SingleRelationshipRun(a: Label, b: Label, t: string)
    requires a != b
    ensures var schema := map[a := [Relationship(t, a, b, false)], b := []];
      && Run(schema, -1, Init(schema, a)).layers == [[StandardMatch(0, 0, [ToTypePattern(Relationship(t, a, b, false))], 1)]]
      && Run(schema, -1, Init(schema, a)).final.pathCounter == 1
  {
    var r := Relationship(t, a, b, false);
    var schema := map[a := [r], b := []];
    var st0 := Init(schema, a);
    assert st0.frontier == [r];
    assert WithFlag([r], false) == [r];
    assert WithFlag([r], true) == [];
    assert TypePatterns([r]) == [ToTypePattern(r)];
    SortSingleton(ToTypePattern(r));
    var c := StandardMatch(0, 0, [ToTypePattern(r)], 1);
    assert StandardClauses(-1, st0) == [c];
    assert LayerClauses(-1, st0) == [c] by {
      assert SelfLoopClauses(1, 0, []) == [];
    }
    var visited := st0.visited + Starts([r]);
    assert visited == {a};
    assert Ends([r]) == [b];
    assert Distinct([b]) == [b];
    assert Unvisited([b], visited) == [b];
    assert RelationshipsOf(schema, [b]) == [] by {
      assert [b][..0] == [];
    }
    var st1 := StepState(schema, -1, st0);
    assert st1.frontier == [];
    assert st1.pathCounter == 1;
    assert Run(schema, -1, st1) == Trace([], st1);
    RunStep(schema, -1, st0);
  }

  /** The text of that clause for type `REL` and variable `n`. */
  lemma RenderExample()
    ensures Render("n", StandardMatch(0, 0, [":`REL`"], 1)) == "MATCH p0=(n)-[:`REL`*0..1]-(n1)"
  {
  }

  /**
   * The same clause as the code writes it under a default locale with
   * Arabic-Indic digits (zero digit U+0660): path `p٠` and target `n١`,
   * while the return clause below still collects `p0`.
   */
  lemma LocalisedRenderExample()
    ensures FormattedRender('\U{0660}', "n", StandardMatch(0, 0, [":`REL`"], 1))
         == "MATCH p\U{0660}=(n)-[:`REL`*0..1]-(n\U{0661})"
  {
  }

  /** The return clause after one generated path. */
  lemma ReturnExample()
    ensures ReturnClause("n", 1) == " RETURN n, collect(p0)"
  {
  }

  /** The text of that load: the clause after one space, then the aggregate return clause. */
  lemma SingleRelationshipLoad(a: Label, b: Label, t: string, v: string)
    requires a != b
    ensures ExplicitClauses(map[a := [Relationship(t, a, b, false)], b := []], a, v, -1)
         == " " + Render(v, StandardMatch(0, 0, [ToTypePattern(Relationship(t, a, b, false))], 1)) + ReturnClause(v, 1)
  {
    SingleRelationshipRun(a, b, t);
    OneClauseText(v, StandardMatch(0, 0, [ToTypePattern(Relationship(t, a, b, false))], 1));
  }

  lemma OneClauseText(v: string, c: Clause)
    ensures LoadText(v, [[c]]) == " " + Render(v, c)
  {
    RenderClausesAppend(v, [], c);
    assert [] + [c] == [c];
    assert Texts(v, []) == [];
    assert [[c]][1..] == [];
  }
}
