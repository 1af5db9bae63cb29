/** Directed dependency graphs and walks along their edges. */
module GraphSpec {
  import opened Ordering
  import opened TextOrder

  datatype EntityRef = EntityRef(kind: string, id: string)

  /** The canonical order of entities: by kind, then by identifier. */
  predicate EntityBefore(a: EntityRef, b: EntityRef) {
    TextBefore(a.kind, b.kind) || (a.kind == b.kind && TextBefore(a.id, b.id))
  }

  function EntityRow(e: EntityRef): Row {
    [TextField(e.kind), TextField(e.id)]
  }

  lemma EntityOrder(a: EntityRef, b: EntityRef)
    ensures Less(EntityRow(a), EntityRow(b)) <==> EntityBefore(a, b)
    ensures EntityRow(a) == EntityRow(b) <==> a == b
  {
    hide FieldLess, Less, TextBefore, TextField;
    TextFieldOrder(a.kind, b.kind);
    TextFieldOrder(a.id, b.id);
    OneFieldOrder(TextField(a.id), TextField(b.id));
    RowOrder(TextField(a.kind), [TextField(a.id)], TextField(b.kind), [TextField(b.id)]);
    assert EntityRow(a) == [TextField(a.kind)] + [TextField(a.id)];
    assert EntityRow(b) == [TextField(b.kind)] + [TextField(b.id)];
    assert EntityRow(a)[0] == TextField(a.kind) && EntityRow(a)[1] == TextField(a.id);
    assert EntityRow(b)[0] == TextField(b.kind) && EntityRow(b)[1] == TextField(b.id);
  }

  lemma EntityLaws(a: EntityRef, b: EntityRef, c: EntityRef)
    ensures !EntityBefore(a, a)
    ensures a == b || EntityBefore(a, b) || EntityBefore(b, a)
    ensures EntityBefore(a, b) && EntityBefore(b, c) ==> EntityBefore(a, c)
  {
    TextBeforeLaws(a.kind, b.kind, c.kind);
    TextBeforeLaws(a.id, b.id, c.id);
  }

  datatype Edge = Edge(source: EntityRef, target: EntityRef, relationship: string)

  datatype Direction = Forward | Reverse

  /** The entity an edge is followed from, in the direction being traversed. */
  function Near(e: Edge, d: Direction): EntityRef {
    if d.Forward? then e.source else e.target
  }

  /** The entity an edge leads to. */
  function Far(e: Edge, d: Direction): EntityRef {
    if d.Forward? then e.target else e.source
  }

  function Leaving(g: seq<Edge>, entity: EntityRef, d: Direction): seq<Edge> {
    if g == [] then []
    else (if Near(g[0], d) == entity then [g[0]] else []) + Leaving(g[1..], entity, d)
  }

  function EdgeRow(d: Direction): Edge -> Row {
    (e: Edge) => EntityRow(Far(e, d)) + [TextField(e.relationship)]
  }

  /** The edges to follow from an entity, in the canonical order of their neighbours. */
  function EdgesFrom(g: seq<Edge>, entity: EntityRef, d: Direction): seq<Edge> {
    Sort(EdgeRow(d), Leaving(g, entity, d))
  }

  lemma {:induction false} LeavingMembers(g: seq<Edge>, entity: EntityRef, d: Direction, e: Edge)
    ensures e in Leaving(g, entity, d) <==> e in g && Near(e, d) == entity
  {
    if g != [] {
      LeavingMembers(g[1..], entity, d, e);
      assert g == [g[0]] + g[1..];
    }
  }

  lemma EdgesFromMembers(g: seq<Edge>, entity: EntityRef, d: Direction)
    ensures forall e :: e in EdgesFrom(g, entity, d) <==> e in g && Near(e, d) == entity
  {
    SortFacts(EdgeRow(d), Leaving(g, entity, d));
    forall e ensures e in EdgesFrom(g, entity, d) <==> e in g && Near(e, d) == entity {
      LeavingMembers(g, entity, d, e);
      assert e in EdgesFrom(g, entity, d) <==> e in multiset(EdgesFrom(g, entity, d));
      assert e in Leaving(g, entity, d) <==> e in multiset(Leaving(g, entity, d));
    }
  }

  /** `edges`, followed one after the other, lead from `start` to `end`. */
  ghost predicate Leads(g: seq<Edge>, d: Direction, start: EntityRef, edges: seq<Edge>, end: EntityRef)
    decreases |edges|
  {
    if edges == [] then start == end
    else
      var last := edges[|edges| - 1];
      last in g && Far(last, d) == end && Leads(g, d, start, edges[..|edges| - 1], Near(last, d))
  }

  /** Some walk of at most `n` edges leads from `start` to `end`. */
  ghost predicate Within(g: seq<Edge>, d: Direction, start: EntityRef, end: EntityRef, n: nat) {
    exists edges :: |edges| <= n && Leads(g, d, start, edges, end)
  }

  ghost predicate Reachable(g: seq<Edge>, d: Direction, start: EntityRef, end: EntityRef) {
    exists edges :: Leads(g, d, start, edges, end)
  }

  /** The entities strictly between the ends of a walk. */
  function Between(edges: seq<Edge>, d: Direction): seq<EntityRef> {
    if edges == [] then [] else seq(|edges| - 1, i requires 0 <= i < |edges| - 1 => Far(edges[i], d))
  }

  lemma LeadsFurther(g: seq<Edge>, d: Direction, start: EntityRef, edges: seq<Edge>, last: Edge)
    requires Leads(g, d, start, edges, Near(last, d)) && last in g
    ensures Leads(g, d, start, edges + [last], Far(last, d))
  {
    assert (edges + [last])[..|edges|] == edges;
  }
}
