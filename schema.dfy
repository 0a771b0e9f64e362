/**
 * The schema the load-clause builder reads: node labels, each owning a list
 * of typed relationships. A node is identified by its label; a relationship
 * names its two endpoints by label, so that cyclic schemas are plain values.
 */
module SchemaModel {

  type Label = string

  /** A schema relationship: its type, its two endpoints and whether it is self-referential. */
  datatype Relationship = Relationship(
    relType: string,
    start: Label,
    end: Label,
    selfReferential: bool)

  /** Every known label with the relationships its node owns, in iteration order. */
  type Schema = map<Label, seq<Relationship>>

  /** `Relationship.other(x)`: the endpoint that is not `x` (the start, unless `x` is the start). */
  function Other(r: Relationship, x: Label): (o: Label)
    ensures x == r.start ==> o == r.end
    ensures x != r.start ==> o == r.start
  {
    if x == r.start then r.end else r.start
  }

  /** From either endpoint, `other` leads to an endpoint and back again; it moves whenever the endpoints differ. */
  lemma OtherInvolution(r: Relationship, x: Label)
    requires x == r.start || x == r.end
    ensures Other(r, x) == r.start || Other(r, x) == r.end
    ensures Other(r, Other(r, x)) == x
    ensures r.start != r.end ==> Other(r, x) != x
  {
  }

  /**
   * `Node.relationships().values()` for the node with label `node`. A label
   * the schema does not know owns no relationships.
   */
  function ExtractRelationships(schema: Schema, node: Label): (rs: seq<Relationship>)
    ensures node in schema ==> rs == schema[node]
    ensures node !in schema ==> rs == []
  {
    if node in schema then schema[node] else []
  }

  /**
   * Every relationship a node owns starts at that node. Under this hypothesis
   * the unbounded traversal terminates; without it, it need not.
   */
  predicate StartsOwned(schema: Schema) {
    forall n, i :: n in schema && 0 <= i < |schema[n]| ==> schema[n][i].start == n
  }
}
