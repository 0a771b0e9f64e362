# Schema-based load clauses for nodes

A Dafny model of `SchemaNodeLoadClauseBuilder` from neo4j-ogm. Given a
schema, a start label, a root variable and a depth, the builder writes the
Cypher text that loads a node together with its neighbourhood.

- With a negative depth it builds one `RelationshipIterator` and drains it.
  Each call of `next` expands one breadth-first layer of schema
  relationships and writes its `MATCH` clauses:
  - one `*0..1` clause for the standard group, with the sorted type patterns
    joined by `|`;
  - in unbounded mode, one `*0..` clause per self-referential relationship.
- The text ends in a `RETURN` clause. With no paths it is the variable
  alone; otherwise it is `RETURN n, collect(p0)+...+collect(pN-1)`, with
  the literal `n`.
- With a non-negative depth the text is `" RETURN " + variable` followed by
  what `expand` appends.

The project has five modules:

- `Text` (text.dfy): decimal rendering of counters, the natural string order
  and sorting by it, and joining and splitting at a delimiter.
- `SchemaModel` (schema.dfy): labels, relationships, `other` and the lookup
  of a node's relationships.
- `LoadClauses` (load_clauses.dfy): the iterator state as a value, one step,
  the clauses a step writes and their text, a drained run, and the text of
  the whole load.
- `LoadClauseBuilder` (builder.dfy): the `RelationshipIterator` class, whose
  methods update its fields in place; the draining `while` loop; and
  `build`. Each is proved against `LoadClauses`.
- `LoadProperties` (properties.dfy): what a run promises. It covers:
  - the number of layers;
  - how each layer covers its frontier;
  - consecutive path numbers, all collected by the return clause;
  - node variables that are bound before use and never reused;
  - how the frontier and the visited set evolve;
  - a schema on which the unbounded walk never ends;
  - a worked one-relationship load.

Clauses are kept as values (`Clause`: path number, source and target
variable counters, type patterns) and rendered to text by `Render`, so
properties of a whole run can be stated about numbers rather than
characters. A schema node is identified by its label.

Two behaviours of the code matter for what the model can promise:

- Type patterns inside the standard clause are sorted but not
  deduplicated: `[B, A, A]` is written `A|A|B`.
- Unbounded traversal need not terminate. Only the start of each frontier
  relationship is marked visited, while the walk continues from its other
  end. `SharedSchemaEntersLoop` and `SharedSchemaNeverDrains` exhibit a
  two-node schema on which `hasNext` stays true forever. The model proves
  that the unbounded loop terminates under the hypothesis `StartsOwned`:
  every relationship a node lists starts at that node.

The path number and the new target variable are written with
`String.format("%d")` (lines 144 and 148), which uses the digits of the
JVM's default locale. The current variable (line 141) and the `collect`
terms (line 79) always use ASCII digits. The model writes ASCII digits
everywhere; `FormattedRender` writes the text as the code does under any
locale, and "## Findings" records the mismatch.

## Model

| member | source | states |
|---|---|---|
| SchemaModel.Other | core/src/main/java/org/neo4j/ogm/session/request/strategy/impl/SchemaNodeLoadClauseBuilder.java:166 | `other(x)` is the end when `x` is the start and the start otherwise |
| SchemaModel.OtherInvolution | core/src/main/java/org/neo4j/ogm/session/request/strategy/impl/SchemaNodeLoadClauseBuilder.java:166 | for either endpoint, `other` gives an endpoint, taking `other` twice returns the node started from, and for a relationship between two different nodes it never returns its argument |
| SchemaModel.ExtractRelationships | core/src/main/java/org/neo4j/ogm/session/request/strategy/impl/SchemaNodeLoadClauseBuilder.java:108-110 | a known node yields exactly its listed relationships; an unknown label yields none |
| Text.NatToString | core/src/main/java/org/neo4j/ogm/session/request/strategy/impl/SchemaNodeLoadClauseBuilder.java:141 | a counter is rendered as a non-empty string of decimal digits |
| Text.DecimalRoundTrip | core/src/main/java/org/neo4j/ogm/session/request/strategy/impl/SchemaNodeLoadClauseBuilder.java:141 | the rendered digits denote the counter they were made from |
| Text.NatToStringInjective | core/src/main/java/org/neo4j/ogm/session/request/strategy/impl/SchemaNodeLoadClauseBuilder.java:141 | distinct counters are rendered as distinct strings |
| Text.FormatDecimal | core/src/main/java/org/neo4j/ogm/session/request/strategy/impl/SchemaNodeLoadClauseBuilder.java:144 | `%d` in a locale with zero digit `zero` writes as many digits as `Integer.toString`, each shifted from `0` to `zero` |
| Text.FormatDecimalAscii | core/src/main/java/org/neo4j/ogm/session/request/strategy/impl/SchemaNodeLoadClauseBuilder.java:144 | with the zero digit `0`, `%d` writes exactly what `Integer.toString` writes |
| Text.FormatDecimalDiffers | core/src/main/java/org/neo4j/ogm/session/request/strategy/impl/SchemaNodeLoadClauseBuilder.java:148 | with any other zero digit, `%d` and `Integer.toString` differ in the first character |
| Text.StrLeqTotal | core/src/main/java/org/neo4j/ogm/session/request/strategy/impl/SchemaNodeLoadClauseBuilder.java:149 | any two strings are comparable in the natural order used by `sorted()` |
| Text.StrLeqAntisymmetric | core/src/main/java/org/neo4j/ogm/session/request/strategy/impl/SchemaNodeLoadClauseBuilder.java:149 | strings ordered both ways are equal |
| Text.StrLeqTransitive | core/src/main/java/org/neo4j/ogm/session/request/strategy/impl/SchemaNodeLoadClauseBuilder.java:149 | the natural order is transitive |
| Text.InsertSorted | core/src/main/java/org/neo4j/ogm/session/request/strategy/impl/SchemaNodeLoadClauseBuilder.java:149 | inserting into a sorted sequence keeps it sorted |
| Text.InsertMultiset | core/src/main/java/org/neo4j/ogm/session/request/strategy/impl/SchemaNodeLoadClauseBuilder.java:149 | inserting adds exactly the new string and loses none |
| Text.SortStrings | core/src/main/java/org/neo4j/ogm/session/request/strategy/impl/SchemaNodeLoadClauseBuilder.java:149 | the type patterns come out sorted and as a permutation of the input, duplicates kept |
| Text.SortedPermutationUnique | core/src/main/java/org/neo4j/ogm/session/request/strategy/impl/SchemaNodeLoadClauseBuilder.java:149 | two sorted permutations of the same strings are equal |
| Text.SortStringsIsTheSortedPermutation | core/src/main/java/org/neo4j/ogm/session/request/strategy/impl/SchemaNodeLoadClauseBuilder.java:149 | any sorted permutation of the patterns, including the one `Stream.sorted` produces, is what `SortStrings` yields |
| Text.JoinSplitRoundTrip | core/src/main/java/org/neo4j/ogm/session/request/strategy/impl/SchemaNodeLoadClauseBuilder.java:78-80 | joining parts with a delimiter none of them contains is undone by splitting at it |
| LoadClauses.Init | core/src/main/java/org/neo4j/ogm/session/request/strategy/impl/SchemaNodeLoadClauseBuilder.java:91-106 | a fresh iterator's frontier is the start node's relationships; nothing is visited; depth and both counters are 0 |
| LoadClauses.HasMore | core/src/main/java/org/neo4j/ogm/session/request/strategy/impl/SchemaNodeLoadClauseBuilder.java:121-123 | `hasNext` on the state value: unbounded or below `maxDepth`, and a non-empty frontier; `Run` ends exactly where it fails |
| LoadClauses.WithFlag | core/src/main/java/org/neo4j/ogm/session/request/strategy/impl/SchemaNodeLoadClauseBuilder.java:133-137 | the `partitioningBy` group for one flag, in frontier order; `WithFlagMembers` and `WithFlagPartition` state its contents |
| LoadClauses.ToTypePattern | core/src/main/java/org/neo4j/ogm/session/request/strategy/impl/SchemaNodeLoadClauseBuilder.java:112-114 | `toTypePattern`: a colon and the type in back-quotes; `TypePatternReadsBack` states that the type reads back |
| LoadClauses.TypePatternReadsBack | core/src/main/java/org/neo4j/ogm/session/request/strategy/impl/SchemaNodeLoadClauseBuilder.java:112-114 | the pattern is `:` and a back-quote, the relationship type, and a back-quote, so the type can be read back from it |
| LoadClauses.VariableName | core/src/main/java/org/neo4j/ogm/session/request/strategy/impl/SchemaNodeLoadClauseBuilder.java:140-141 | the name starts with the root variable; it is the root variable alone exactly for counter 0; otherwise the digits after it denote the counter |
| LoadClauses.Distinct | core/src/main/java/org/neo4j/ogm/session/request/strategy/impl/SchemaNodeLoadClauseBuilder.java:167 | `distinct()` keeps exactly the same elements and no element twice; `DistinctHead` fixes the order |
| LoadClauses.Unvisited | core/src/main/java/org/neo4j/ogm/session/request/strategy/impl/SchemaNodeLoadClauseBuilder.java:168 | the filter keeps exactly the nodes that are not visited; a single node is kept exactly when it is not visited |
| LoadClauses.RelationshipsOf | core/src/main/java/org/neo4j/ogm/session/request/strategy/impl/SchemaNodeLoadClauseBuilder.java:169 | the `flatMap` yields exactly the relationships of the given nodes; for one node, exactly its list |
| LoadClauses.UnvisitedAppend | core/src/main/java/org/neo4j/ogm/session/request/strategy/impl/SchemaNodeLoadClauseBuilder.java:168 | the filter keeps order and multiplicity: filtering a concatenation is filtering each part and concatenating |
| LoadClauses.RelationshipsOfAppend | core/src/main/java/org/neo4j/ogm/session/request/strategy/impl/SchemaNodeLoadClauseBuilder.java:169 | the `flatMap` keeps node order: the relationships of a concatenation are those of each part, one part after the other |
| LoadClauses.DistinctHead | core/src/main/java/org/neo4j/ogm/session/request/strategy/impl/SchemaNodeLoadClauseBuilder.java:167 | `distinct()` keeps the first occurrence in encounter order: the head stays first, followed by the distinct rest with the head's later copies removed |
| LoadClauses.NextFrontier | core/src/main/java/org/neo4j/ogm/session/request/strategy/impl/SchemaNodeLoadClauseBuilder.java:165-170 | the `map`/`distinct`/`filter`/`flatMap` chain as one composition; its members are characterised by `NextFrontierMembers` |
| LoadClauses.StandardGroup | core/src/main/java/org/neo4j/ogm/session/request/strategy/impl/SchemaNodeLoadClauseBuilder.java:128-138 | the relationships written as one `*0..1` clause: the whole frontier when bounded, the non-self-referential part (`partitioningBy` false) when unbounded; `WithFlagMembers`, `WithFlagPartition` and `StandardPatterns` state its contents |
| LoadClauses.SelfReferentialGroup | core/src/main/java/org/neo4j/ogm/session/request/strategy/impl/SchemaNodeLoadClauseBuilder.java:128-138 | the relationships written as one `*0..` clause each: none when bounded, the self-referential part (`partitioningBy` true) when unbounded; `WithFlagMembers`, `WithFlagPartition` and `LayerCoversFrontier` state that the two groups split the frontier |
| LoadClauses.Render | core/src/main/java/org/neo4j/ogm/session/request/strategy/impl/SchemaNodeLoadClauseBuilder.java:143-158 | one clause's text with ASCII digits: the `MATCH p<k>=(<cur>)-[` prefix, its patterns, then `*0..1]-(<variable><x>)` or `*0..]-()`; `RenderStandard`, `RenderSelfLoopStep`, `FormattedRenderAscii` and `RenderedNames` state its properties |
| LoadClauses.LoadText | core/src/main/java/org/neo4j/ogm/session/request/strategy/impl/SchemaNodeLoadClauseBuilder.java:69-71 | the text the drain loop appends: each layer's clauses after one space, in run order; `OneClauseText` and the loop invariant of `CreateExplicitMatchAndReturnClauses` state it |
| LoadClauses.RenderClausesConcat | core/src/main/java/org/neo4j/ogm/session/request/strategy/impl/SchemaNodeLoadClauseBuilder.java:131-158 | appending clause texts to one builder writes the concatenation of the parts |
| LoadClauses.StandardClauses | core/src/main/java/org/neo4j/ogm/session/request/strategy/impl/SchemaNodeLoadClauseBuilder.java:146-151 | the standard clause of a step, present exactly when the standard group is non-empty; `StandardPatterns` states its patterns |
| LoadClauses.LayerClauses | core/src/main/java/org/neo4j/ogm/session/request/strategy/impl/SchemaNodeLoadClauseBuilder.java:143-158 | the clauses `next` writes, standard first; `LayerNumbering` and `LayerCoversFrontier` state their numbering and coverage |
| LoadClauses.RenderStandard | core/src/main/java/org/neo4j/ogm/session/request/strategy/impl/SchemaNodeLoadClauseBuilder.java:143-150 | the standard clause is the `MATCH p<k>=(<cur>)-[` prefix, the patterns joined by a vertical bar, then `*0..1]-(<variable><x+1>)` |
| LoadClauses.RenderSelfLoopStep | core/src/main/java/org/neo4j/ogm/session/request/strategy/impl/SchemaNodeLoadClauseBuilder.java:153-158 | each self-referential relationship extends the text by one `*0..]-()` clause numbered on from the previous one |
| LoadClauses.RenderLayer | core/src/main/java/org/neo4j/ogm/session/request/strategy/impl/SchemaNodeLoadClauseBuilder.java:146-158 | a layer's text is the standard clause followed by the self-referential clauses, numbered after it |
| LoadClauses.FormattedRender | core/src/main/java/org/neo4j/ogm/session/request/strategy/impl/SchemaNodeLoadClauseBuilder.java:143-150 | a clause's text as the code writes it when the default locale's zero digit is `zero`: `%d` digits for the path and target, ASCII for the source |
| LoadClauses.FormattedRenderAscii | core/src/main/java/org/neo4j/ogm/session/request/strategy/impl/SchemaNodeLoadClauseBuilder.java:143-150 | under a locale with ASCII digits, the code's text is exactly `Render`'s |
| LoadClauses.RenderedNames | core/src/main/java/org/neo4j/ogm/session/request/strategy/impl/SchemaNodeLoadClauseBuilder.java:143-150 | with ASCII digits, a clause binds the path its `collect` term names, and a standard clause binds the variable the next layer starts from |
| LoadClauses.LocalisedNamesDisagree | core/src/main/java/org/neo4j/ogm/session/request/strategy/impl/SchemaNodeLoadClauseBuilder.java:143-150 | with any other zero digit, a clause binds a path name no `collect` term names, and a standard clause binds a name the next layer never uses |
| LoadClauses.StepCounters | core/src/main/java/org/neo4j/ogm/session/request/strategy/impl/SchemaNodeLoadClauseBuilder.java:143-148 | a step takes one path number for a non-empty standard group plus one per self-referential relationship, and one variable number only for a non-empty standard group |
| LoadClauses.StepState | core/src/main/java/org/neo4j/ogm/session/request/strategy/impl/SchemaNodeLoadClauseBuilder.java:160-174 | the state after `next`: starts added to `visited`, frontier recomputed against the new set, depth plus one; `StepCounters`, `RunVisited` and `NextFrontierMembers` state its properties |
| LoadClauses.NextFrontierStartsUnvisited | core/src/main/java/org/neo4j/ogm/session/request/strategy/impl/SchemaNodeLoadClauseBuilder.java:161-170 | under owned starts, every relationship of the next frontier starts at a known node that is not yet visited |
| LoadClauses.StepDecreasesMeasure | core/src/main/java/org/neo4j/ogm/session/request/strategy/impl/SchemaNodeLoadClauseBuilder.java:69-71 | each `next` lowers the steps left: depth to go when bounded, unvisited known nodes when unbounded under owned starts |
| LoadClauses.Run | core/src/main/java/org/neo4j/ogm/session/request/strategy/impl/SchemaNodeLoadClauseBuilder.java:69-71 | the drain loop ends in a state where `hasNext` is false |
| LoadClauses.CollectTermsSplit | core/src/main/java/org/neo4j/ogm/session/request/strategy/impl/SchemaNodeLoadClauseBuilder.java:78-80 | the `+`-joined aggregation splits back into its `collect(p<i>)` terms, and term i names path i |
| LoadClauses.ReturnClause | core/src/main/java/org/neo4j/ogm/session/request/strategy/impl/SchemaNodeLoadClauseBuilder.java:73-81 | no paths gives ` RETURN ` and the variable; otherwise ` RETURN n, ` and a list that splits back into one `collect` term per path |
| LoadClauses.ExplicitClauses | core/src/main/java/org/neo4j/ogm/session/request/strategy/impl/SchemaNodeLoadClauseBuilder.java:65-85 | the drained run's layers, each after one space, then the return clause for the final path counter; what `CreateExplicitMatchAndReturnClauses` is proved to return |
| LoadClauseBuilder.RelationshipIterator.constructor | core/src/main/java/org/neo4j/ogm/session/request/strategy/impl/SchemaNodeLoadClauseBuilder.java:99-106 | the new iterator's state is `Init` of the start node, with unbounded mode exactly when `maxDepth < 0` |
| LoadClauseBuilder.RelationshipIterator.GetNumberOfGeneratedPaths | core/src/main/java/org/neo4j/ogm/session/request/strategy/impl/SchemaNodeLoadClauseBuilder.java:116-118 | returns the path counter of the current state |
| LoadClauseBuilder.RelationshipIterator.HasNext | core/src/main/java/org/neo4j/ogm/session/request/strategy/impl/SchemaNodeLoadClauseBuilder.java:120-123 | true exactly when the depth is unbounded or below `maxDepth`, and the frontier is non-empty |
| LoadClauseBuilder.RelationshipIterator.Next | core/src/main/java/org/neo4j/ogm/session/request/strategy/impl/SchemaNodeLoadClauseBuilder.java:125-176 | returns the text of the current layer's clauses; the new state is one step on from the old |
| LoadClauseBuilder.RelationshipIterator.WriteLayer | core/src/main/java/org/neo4j/ogm/session/request/strategy/impl/SchemaNodeLoadClauseBuilder.java:128-158 | partitions the frontier, writes the layer's text and advances both counters; frontier, visited set and depth are unchanged |
| LoadClauseBuilder.RelationshipIterator.WriteStandard | core/src/main/java/org/neo4j/ogm/session/request/strategy/impl/SchemaNodeLoadClauseBuilder.java:140-151 | writes the standard clause from the current variable to a fresh one; both counters rise by one |
| LoadClauseBuilder.RelationshipIterator.Advance | core/src/main/java/org/neo4j/ogm/session/request/strategy/impl/SchemaNodeLoadClauseBuilder.java:160-174 | adds the frontier's start nodes to the visited set, recomputes the frontier from it and raises the depth by one |
| LoadClauseBuilder.AppendSelfLoopClauses | core/src/main/java/org/neo4j/ogm/session/request/strategy/impl/SchemaNodeLoadClauseBuilder.java:153-158 | the `forEach` appends exactly the self-referential clauses, numbered consecutively from the given path |
| LoadClauseBuilder.CreateExplicitMatchAndReturnClauses | core/src/main/java/org/neo4j/ogm/session/request/strategy/impl/SchemaNodeLoadClauseBuilder.java:65-85 | the loop's text is every layer of the run after one space, then the return clause for the paths generated |
| LoadClauseBuilder.Build | core/src/main/java/org/neo4j/ogm/session/request/strategy/impl/SchemaNodeLoadClauseBuilder.java:45-63 | a negative depth gives the explicit clauses; otherwise `" RETURN " + variable` and then the expansion |
| LoadProperties.RunLength | core/src/main/java/org/neo4j/ogm/session/request/strategy/impl/SchemaNodeLoadClauseBuilder.java:121-123 | every layer raises the depth by exactly one; a run has at most `Measure` layers |
| LoadProperties.BoundedRunLayers | core/src/main/java/org/neo4j/ogm/session/request/strategy/impl/SchemaNodeLoadClauseBuilder.java:122 | with `maxDepth >= 0`, at most `maxDepth` layers are written, and the final depth is their number |
| LoadProperties.UnboundedRunLayers | core/src/main/java/org/neo4j/ogm/session/request/strategy/impl/SchemaNodeLoadClauseBuilder.java:161-170 | without a bound and under owned starts, there are at most as many layers as schema nodes |
| LoadProperties.EmptyLoad | core/src/main/java/org/neo4j/ogm/session/request/strategy/impl/SchemaNodeLoadClauseBuilder.java:74-76 | depth 0, or a start node without relationships, gives exactly `" RETURN " + variable` |
| LoadProperties.WithFlagMembers | core/src/main/java/org/neo4j/ogm/session/request/strategy/impl/SchemaNodeLoadClauseBuilder.java:133-137 | a relationship is in the group for a flag exactly when it is in the frontier with that flag |
| LoadProperties.WithFlagPartition | core/src/main/java/org/neo4j/ogm/session/request/strategy/impl/SchemaNodeLoadClauseBuilder.java:133-137 | the two groups' patterns together are the frontier's patterns, counted with multiplicity |
| LoadProperties.SelfLoopPatterns | core/src/main/java/org/neo4j/ogm/session/request/strategy/impl/SchemaNodeLoadClauseBuilder.java:153-158 | the self-referential clauses write the group's patterns, one each, in list order |
| LoadProperties.LayerNumbering | core/src/main/java/org/neo4j/ogm/session/request/strategy/impl/SchemaNodeLoadClauseBuilder.java:140-158 | a layer's paths are consecutive from the counter; every clause starts at the current variable; only the first clause can be standard, and it targets the next variable |
| LoadProperties.StandardPatterns | core/src/main/java/org/neo4j/ogm/session/request/strategy/impl/SchemaNodeLoadClauseBuilder.java:146-150 | the standard clause writes the standard group's patterns, with multiplicity |
| LoadProperties.LayerPatterns | core/src/main/java/org/neo4j/ogm/session/request/strategy/impl/SchemaNodeLoadClauseBuilder.java:146-158 | a layer writes the standard patterns, then the self-referential group's patterns |
| LoadProperties.LayerCoversFrontier | core/src/main/java/org/neo4j/ogm/session/request/strategy/impl/SchemaNodeLoadClauseBuilder.java:128-158 | in either mode, each frontier relationship's pattern is written exactly once per occurrence in its layer |
| LoadProperties.BoundedLayerIsOneClause | core/src/main/java/org/neo4j/ogm/session/request/strategy/impl/SchemaNodeLoadClauseBuilder.java:128-129 | with a bound, a layer is one standard clause holding the whole frontier's sorted patterns, or nothing for an empty frontier |
| LoadProperties.UnboundedSelfLoopClauses | core/src/main/java/org/neo4j/ogm/session/request/strategy/impl/SchemaNodeLoadClauseBuilder.java:132-137 | without a bound, every `*0..` clause comes from a self-referential frontier relationship |
| LoadProperties.UnboundedStandardClause | core/src/main/java/org/neo4j/ogm/session/request/strategy/impl/SchemaNodeLoadClauseBuilder.java:132-137 | without a bound, the standard clause holds only patterns of non-self-referential frontier relationships |
| LoadProperties.RunNumbering | core/src/main/java/org/neo4j/ogm/session/request/strategy/impl/SchemaNodeLoadClauseBuilder.java:143-144 | all clauses of a run are numbered consecutively, and the path counter ends just past the last |
| LoadProperties.CollectedPathsAreBound | core/src/main/java/org/neo4j/ogm/session/request/strategy/impl/SchemaNodeLoadClauseBuilder.java:74-80 | the return clause collects `p0`..`p<N-1>` for the N clauses written, each bound by the clause at that position |
| LoadProperties.VariableNameInjective | core/src/main/java/org/neo4j/ogm/session/request/strategy/impl/SchemaNodeLoadClauseBuilder.java:140-141 | distinct counter values name distinct node variables |
| LoadProperties.LayerKeepsScope | core/src/main/java/org/neo4j/ogm/session/request/strategy/impl/SchemaNodeLoadClauseBuilder.java:140-148 | appending a layer keeps every clause's source bound before it and every target fresh |
| LoadProperties.RunKeepsScope | core/src/main/java/org/neo4j/ogm/session/request/strategy/impl/SchemaNodeLoadClauseBuilder.java:140-148 | the scoping invariant holds across a whole run |
| LoadProperties.RunVariables | core/src/main/java/org/neo4j/ogm/session/request/strategy/impl/SchemaNodeLoadClauseBuilder.java:140-148 | every clause of a load starts at the root or at a variable bound earlier; every standard clause binds a variable not mentioned before |
| LoadProperties.EndsMembers | core/src/main/java/org/neo4j/ogm/session/request/strategy/impl/SchemaNodeLoadClauseBuilder.java:166 | the mapped endpoints are exactly `other(start)` of the frontier relationships |
| LoadProperties.NextFrontierMembers | core/src/main/java/org/neo4j/ogm/session/request/strategy/impl/SchemaNodeLoadClauseBuilder.java:165-170 | a relationship is in the next frontier exactly when it belongs to the unvisited far end of a frontier relationship |
| LoadProperties.RunVisited | core/src/main/java/org/neo4j/ogm/session/request/strategy/impl/SchemaNodeLoadClauseBuilder.java:161-162 | the visited set only grows, and a step marks every start node of its frontier visited |
| LoadProperties.SharedSchema | core/src/main/java/org/neo4j/ogm/session/request/strategy/impl/SchemaNodeLoadClauseBuilder.java:108-110 | a schema in which both endpoints list one relationship breaks the owned-starts hypothesis |
| LoadProperties.SharedFrontier | core/src/main/java/org/neo4j/ogm/session/request/strategy/impl/SchemaNodeLoadClauseBuilder.java:165-170 | on that schema, recomputing the frontier reproduces it |
| LoadProperties.SharedSchemaEntersLoop | core/src/main/java/org/neo4j/ogm/session/request/strategy/impl/SchemaNodeLoadClauseBuilder.java:161-170 | the first unbounded step reaches the shared frontier with only the start of that relationship visited |
| LoadProperties.SharedSchemaNeverDrains | core/src/main/java/org/neo4j/ogm/session/request/strategy/impl/SchemaNodeLoadClauseBuilder.java:121-123 | from there `hasNext` stays true, and every step reproduces the same frontier and visited set |
| LoadProperties.SingleRelationshipRun | core/src/main/java/org/neo4j/ogm/session/request/strategy/impl/SchemaNodeLoadClauseBuilder.java:126-176 | one relationship `a -> b`, unbounded: one layer with one standard clause from variable 0 to 1, and one path |
| LoadProperties.RenderExample | core/src/main/java/org/neo4j/ogm/session/request/strategy/impl/SchemaNodeLoadClauseBuilder.java:143-150 | that clause for type `REL` and variable `n` reads ``MATCH p0=(n)-[:`REL`*0..1]-(n1)`` |
| LoadProperties.LocalisedRenderExample | core/src/main/java/org/neo4j/ogm/session/request/strategy/impl/SchemaNodeLoadClauseBuilder.java:143-150 | under a locale whose zero digit is U+0660, the code writes that clause with path `p٠` and target `n١` |
| LoadProperties.ReturnExample | core/src/main/java/org/neo4j/ogm/session/request/strategy/impl/SchemaNodeLoadClauseBuilder.java:78-80 | after one path the return clause reads ` RETURN n, collect(p0)` |
| LoadProperties.SingleRelationshipLoad | core/src/main/java/org/neo4j/ogm/session/request/strategy/impl/SchemaNodeLoadClauseBuilder.java:65-85 | that load's text is one space, the clause, then the aggregate return clause for one path |

## Left out

- LoadClauseBuilder.Build: only the `" RETURN " + variable` prefix of the non-negative-depth branch is specified. `expand` and `findNode` live in `AbstractSchemaLoadClauseBuilder` and the schema implementation, which are not part of this model, so `expand`'s text is the parameter `expansion`.
- `newLine` is taken to append nothing. It lives in `AbstractSchemaLoadClauseBuilder`, which is not part of this model.
- `findNode` on an unknown label returns null, and the code then fails. The model instead requires `nodeLabel in schema` of `Build` and `CreateExplicitMatchAndReturnClauses`.
- Schema nodes are identified by their label. `Node` equality in the `HashSet` and in `distinct()` is assumed to agree with label equality.
- LoadClauseBuilder.CreateExplicitMatchAndReturnClauses: with a negative depth it requires `StartsOwned(schema)`. The code promises nothing there, and `SharedSchemaNeverDrains` shows a schema on which the loop never ends.
- LoadClauseBuilder.Build: with a negative depth it requires `StartsOwned(schema)` too, because it calls `CreateExplicitMatchAndReturnClauses`.
- LoadClauses.RenderStandard: writes `p<k>` and the target in ASCII digits. The code uses the default locale's digits (`FormattedRender`, see "## Findings").
- LoadClauses.RenderSelfLoopStep: writes the path number in ASCII digits. The code uses the default locale's digits (see "## Findings").
- LoadClauseBuilder.RelationshipIterator.WriteStandard: writes the path number and target in ASCII digits. The code uses the default locale's digits (see "## Findings").
- LoadClauseBuilder.AppendSelfLoopClauses: writes each path number in ASCII digits. The code uses the default locale's digits (see "## Findings").
- LoadProperties.RenderExample: shows the ASCII text. `LocalisedRenderExample` shows the code's text under an Arabic locale.
- LoadProperties.CollectedPathsAreBound: holds for the code only when the default locale's zero digit is `0`. `LocalisedNamesDisagree` shows that otherwise no clause binds the collected names.
- LoadProperties.RunVariables: holds for the code's text only when the default locale's zero digit is `0`. `LocalisedNamesDisagree` shows that otherwise the target a standard clause binds is not the name the next layer starts from.
- LoadClauses.Render: writes path numbers and target variables in ASCII digits. The code formats them with `%d` at :144 and :148, which uses the default locale's digits; `FormattedRender` models that text and `LocalisedNamesDisagree` (see "## Findings") shows where it differs.
- LoadClauses.ExplicitClauses: writes path numbers and target variables in ASCII digits. The code formats them with `%d` at :144 and :148, which uses the default locale's digits; `FormattedRender` models that text and `LocalisedNamesDisagree` (see "## Findings") shows where it differs.
- LoadClauseBuilder.RelationshipIterator.Next: writes path numbers and target variables in ASCII digits. The code formats them with `%d` at :144 and :148, which uses the default locale's digits; `FormattedRender` models that text and `LocalisedNamesDisagree` (see "## Findings") shows where it differs.
- LoadClauseBuilder.RelationshipIterator.WriteLayer: writes path numbers and target variables in ASCII digits. The code formats them with `%d` at :144 and :148, which uses the default locale's digits; `FormattedRender` models that text and `LocalisedNamesDisagree` (see "## Findings") shows where it differs.
- LoadClauseBuilder.CreateExplicitMatchAndReturnClauses: writes path numbers and target variables in ASCII digits. The code formats them with `%d` at :144 and :148, which uses the default locale's digits; `FormattedRender` models that text and `LocalisedNamesDisagree` (see "## Findings") shows where it differs.
- LoadClauseBuilder.Build: writes path numbers and target variables in ASCII digits. The code formats them with `%d` at :144 and :148, which uses the default locale's digits; `FormattedRender` models that text and `LocalisedNamesDisagree` (see "## Findings") shows where it differs.
- The counters are unbounded `nat`s. The 32-bit wrap-around of `AtomicInteger` after 2^31 paths or variables is not modelled.
- The counters' atomicity and thread-safety are not modelled. The iterator is used by one thread only.
- String order: `Text.StrLeq` compares Unicode scalar values. Java's `compareTo` compares UTF-16 code units, so the two orders differ only for characters outside the Basic Multilingual Plane.
- Sorting: `Text.SortStrings` is an insertion sort, not the library's merge sort. `SortStringsIsTheSortedPermutation` shows that every sorted permutation is the same sequence, so the choice of algorithm does not change the result.
- Not part of this model: SingleUseEntityMapper, EntityPopulator, DefaultFieldConversions, FieldTransformations, EntityInstantiator, PropertyWriter, DefaultPropertyWriter, RestModelResponse, RelationshipDescription and the test domain classes. They are reflection-based mapping, type coercion, driver plumbing and annotated beans, which are outside the load-clause builder.

## Findings

| source | as written | input that shows it | evidently intended | confidence | as-written member | corrected member |
|---|---|---|---|---|---|---|
| core/src/main/java/org/neo4j/ogm/session/request/strategy/impl/SchemaNodeLoadClauseBuilder.java:143-150 | `String.format("%d")` writes the path number and the new target variable in the default locale's digits, while `Integer.toString` (line 141) and `"collect(p" + i + ")"` (line 79) write ASCII digits | default locale `ar-EG` (zero digit U+0660), one relationship `a -> b`, depth -1, variable `n`: the clause binds `p٠` and `n١`, and the return clause collects `p0` | ASCII digits everywhere, for example `String.format(Locale.ROOT, ...)` | medium, not executed | LoadClauses.LocalisedNamesDisagree | LoadClauses.RenderedNames |
