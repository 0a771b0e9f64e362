/**
 * `SchemaNodeLoadClauseBuilder`: the stateful `RelationshipIterator`, the
 * loop of `createExplicitMatchAndReturnClauses` that drains it, and the
 * `build` dispatch. Each is proved against the definitions of module
 * LoadClauses. The builder object itself only carries the schema, which is
 * passed here as a parameter.
 */
module LoadClauseBuilder {
  import opened Text
  import opened SchemaModel
  import opened LoadClauses

  /** One breadth-first layer of the schema per call of `Next`. */
  class RelationshipIterator {
    const schema: Schema
    const variable: string
    const maxDepth: int
    const infiniteDepth: bool

    var visitedSourceNode: set<Label>
    var traversableRelationships: seq<Relationship>
    var depth: nat
    var pathCounter: nat
    var varCounter: nat

    ghost predicate Valid()
      reads this
    {
      infiniteDepth == (maxDepth < 0)
    }

    /** The iterator's state as a value of module LoadClauses. */
    ghost function State(): IterState
      reads this
    {
      IterState(traversableRelationships, visitedSourceNode, depth, pathCounter, varCounter)
    }

    constructor (schema: Schema, startNode: Label, variable: string, maxDepth: int)
      ensures Valid()
      ensures this.schema == schema && this.variable == variable && this.maxDepth == maxDepth
      ensures State() == Init(schema, startNode)
    {
      this.schema := schema;
      traversableRelationships := ExtractRelationships(schema, startNode);
      this.variable := variable;
      infiniteDepth := maxDepth < 0;
      this.maxDepth := maxDepth;
      visitedSourceNode := {};
      depth, pathCounter, varCounter := 0, 0, 0;
    }

    function GetNumberOfGeneratedPaths(): (n: nat)
      reads this
      ensures n == State().pathCounter
    {
      pathCounter
    }

    predicate HasNext()
      requires Valid()
      reads this
      ensures HasNext() == HasMore(maxDepth, State())
    {
      (infiniteDepth || depth < maxDepth) && |traversableRelationships| > 0
    }

    /** `next`: writes the clauses of the current layer and moves to the next one. */
    method Next() returns (m: string)
      requires Valid()
      modifies this
      ensures Valid()
      ensures m == RenderClauses(variable, LayerClauses(maxDepth, old(State())))
      ensures State() == StepState(schema, maxDepth, old(State()))
    {
      m := WriteLayer();
      Advance();
    }

    /**
     * The first part of `next`: one `*0..1` clause for the standard group and
     * one `*0..` clause per self-referential relationship, counting paths and
     * the target variable.
     */
    method WriteLayer() returns (m: string)
      requires Valid()
      modifies this
      ensures Valid()
      ensures m == RenderClauses(variable, LayerClauses(maxDepth, old(State())))
      ensures pathCounter == old(pathCounter) + |LayerClauses(maxDepth, old(State()))|
      ensures varCounter == old(varCounter) + |StandardClauses(maxDepth, old(State()))|
      ensures traversableRelationships == old(traversableRelationships)
      ensures visitedSourceNode == old(visitedSourceNode) && depth == old(depth)
    {
      ghost var st := State();
      ghost var std := StandardClauses(maxDepth, st);
      var standard := traversableRelationships;
      var selfReferential: seq<Relationship> := [];
      if infiniteDepth {
        standard := WithFlag(traversableRelationships, false);
        selfReferential := WithFlag(traversableRelationships, true);
      }
      assert standard == StandardGroup(maxDepth, st.frontier);
      assert selfReferential == SelfReferentialGroup(maxDepth, st.frontier);
      var x := varCounter;
      m := "";
      if |standard| > 0 {
        m := WriteStandard(standard);
      } else {
        assert Texts(variable, std) == [];
      }
      assert pathCounter == st.pathCounter + |std| && x == st.varCounter;
      ghost var loops := SelfLoopClauses(pathCounter, x, selfReferential);
      RenderLayer(variable, maxDepth, st, m, pathCounter, loops);
      m := AppendSelfLoopClauses(m, variable, x, pathCounter, selfReferential);
      pathCounter := pathCounter + |selfReferential|;
    }

    /**
     * The standard group's clause: from the current variable, every type
     * pattern in sorted order, zero or one hop to a new variable.
     */
    method WriteStandard(standard: seq<Relationship>) returns (m: string)
      requires Valid()
      requires standard == StandardGroup(maxDepth, traversableRelationships) && |standard| > 0
      modifies this
      ensures Valid()
      ensures m == RenderClauses(variable, StandardClauses(maxDepth, old(State())))
      ensures pathCounter == old(pathCounter) + 1 && varCounter == old(varCounter) + 1
      ensures traversableRelationships == old(traversableRelationships)
      ensures visitedSourceNode == old(visitedSourceNode) && depth == old(depth)
    {
      StandardClausesOf(maxDepth, State());
      RenderStandard(variable, pathCounter, varCounter, SortStrings(TypePatterns(standard)));
      var currentVariable := VariableName(variable, varCounter);
      varCounter := varCounter + 1;
      var suffix := StandardSuffix(variable, varCounter);
      var prefix := MatchPrefix(pathCounter, currentVariable);
      pathCounter := pathCounter + 1;
      m := prefix + Join("|", SortStrings(TypePatterns(standard))) + suffix;
    }

    /** The second part of `next`: marks the frontier's start nodes visited and recomputes the frontier. */
    method Advance()
      requires Valid()
      modifies this
      ensures Valid()
      ensures visitedSourceNode == old(visitedSourceNode) + Starts(old(traversableRelationships))
      ensures traversableRelationships == NextFrontier(schema, old(traversableRelationships), visitedSourceNode)
      ensures depth == old(depth) + 1
      ensures pathCounter == old(pathCounter) && varCounter == old(varCounter)
    {
      visitedSourceNode := visitedSourceNode + Starts(traversableRelationships);
      traversableRelationships := NextFrontier(schema, traversableRelationships, visitedSourceNode);
      depth := depth + 1;
    }
  }

  /**
   * The `forEach` of `next` over the self-referential group: appends one
   * `*0..` clause per relationship to `m`, numbering the paths from `first`.
   */
  method AppendSelfLoopClauses(m: string, variable: string, source: nat, first: nat, selfReferential: seq<Relationship>)
    returns (m': string)
    ensures m' == m + RenderClauses(variable, SelfLoopClauses(first, source, selfReferential))
  {
    var currentVariable := VariableName(variable, source);
    var pathCounter := first;
    m' := m;
    assert Texts(variable, SelfLoopClauses(first, source, selfReferential[..0])) == [];
    for i := 0 to |selfReferential|
      invariant pathCounter == first + i
      invariant m' == m + RenderClauses(variable, SelfLoopClauses(first, source, selfReferential[..i]))
    {
      var clause := MatchPrefix(pathCounter, currentVariable) + ToTypePattern(selfReferential[i]) + SelfLoopSuffix;
      assert clause == Render(variable, SelfLoopMatch(first + i, source, ToTypePattern(selfReferential[i])));
      RenderSelfLoopStep(variable, first, source, selfReferential, i);
      ghost var done := RenderClauses(variable, SelfLoopClauses(first, source, selfReferential[..i]));
      StringAppendAssociates(m, done, clause);
      m' := m' + clause;
      pathCounter := pathCounter + 1;
    }
    assert selfReferential[..|selfReferential|] == selfReferential;
  }

  /**
   * Drains an iterator started at `nodeLabel`, each layer after one space,
   * then appends the return clause.
   */
  method CreateExplicitMatchAndReturnClauses(schema: Schema, nodeLabel: Label, variable: string, maxDepth: int)
    returns (clause: string)
    requires nodeLabel in schema
    requires maxDepth < 0 ==> StartsOwned(schema)
    ensures clause == ExplicitClauses(schema, nodeLabel, variable, maxDepth)
  {
    var loadClause := "";
    var relIterator := new RelationshipIterator(schema, nodeLabel, variable, maxDepth);
    ghost var run := Run(schema, maxDepth, relIterator.State());
    while relIterator.HasNext()
      invariant relIterator.Valid()
      invariant relIterator.schema == schema && relIterator.variable == variable && relIterator.maxDepth == maxDepth
      invariant RunInv(schema, maxDepth, relIterator.State())
      invariant Run(schema, maxDepth, relIterator.State()).final == run.final
      invariant loadClause + LoadText(variable, Run(schema, maxDepth, relIterator.State()).layers)
             == LoadText(variable, run.layers)
      decreases Measure(schema, maxDepth, relIterator.State())
    {
      ghost var st := relIterator.State();
      StepDecreasesMeasure(schema, maxDepth, st);
      RunStep(schema, maxDepth, st);
      ghost var rest := Run(schema, maxDepth, StepState(schema, maxDepth, st)).layers;
      var layer := relIterator.Next();
      ghost var tail := LoadText(variable, rest);
      assert ([LayerClauses(maxDepth, st)] + rest)[1..] == rest;
      assert LoadText(variable, [LayerClauses(maxDepth, st)] + rest) == " " + layer + tail;
      AppendAssociates(loadClause, " ", layer, tail);
      loadClause := loadClause + " " + layer;
    }
    assert Run(schema, maxDepth, relIterator.State()).layers == [];
    assert loadClause == LoadText(variable, run.layers);
    var numberOfGeneratedPaths := relIterator.GetNumberOfGeneratedPaths();
    clause := loadClause + ReturnClause(variable, numberOfGeneratedPaths);
  }

  // Grouping of strings, stated apart so that the loops above do not prove it in their larger contexts.

  lemma StringAppendAssociates(a: string, b: string, c: string)
    ensures (a + b) + c == a + (b + c)
  {
  }

  lemma AppendAssociates(a: string, b: string, c: string, d: string)
    ensures a + (b + c + d) == (a + b + c) + d
  {
  }

  /**
   * `build(variable, label, depth)`: a negative depth goes to the explicit
   * clauses; otherwise the return clause comes first and `expansion` stands
   * for what the fixed-depth `expand` appends after it.
   */
  method Build(schema: Schema, variable: string, nodeLabel: Label, depth: int, expansion: string)
    returns (clause: string)
    requires nodeLabel in schema
    requires depth < 0 ==> StartsOwned(schema)
    ensures depth < 0 ==> clause == ExplicitClauses(schema, nodeLabel, variable, depth)
    ensures depth >= 0 ==> clause == " RETURN " + variable + expansion
  {
    if depth < 0 {
      clause := CreateExplicitMatchAndReturnClauses(schema, nodeLabel, variable, depth);
      return;
    }
    var sb := "";
    sb := sb + " RETURN ";
    sb := sb + variable;
    sb := sb + expansion;
    clause := sb;
  }
}
