/** The graph assembler behind the `/graph` endpoint: every row of the browse
    query (a movie title and the names of its cast) becomes one fresh "movie"
    node, each cast name becomes an "actor" node the first time it is seen, and
    every cast entry becomes a link from the actor's node to the movie's node.
    Nodes are identified by their position in the node list.

    This module is the functional specification: the assembler's state after a
    sequence of rows is defined by processing the rows one at a time. */
module Graph {

  /** The kind of a node. The response carries it as the string in the `label` field. */
  datatype Label = MovieLabel | ActorLabel

  /** A node of the browse response: a title (movie title or actor name) and its kind. */
  datatype Node = Node(title: string, kind: Label)

  /** A link from the node at index `source` (an actor) to the node at index `target` (a movie). */
  datatype Link = Link(source: nat, target: nat)

  /** One row of the browse query, already decoded. */
  datatype Row = Row(movie: string, cast: seq<string>)

  /** The assembler's working state: the node arena, the link list and the
      actor-name index that maps a name to the position of its node. */
  datatype Assembly = Assembly(nodes: seq<Node>, links: seq<Link>, actors: map<string, nat>)

  /** The state before the first row. */
  const Start: Assembly := Assembly([], [], map[])

  /** What the assembler maintains between steps. */
  ghost predicate Valid(a: Assembly) {
    LinksWellFormed(a.nodes, a.links) && IndexSound(a) && ActorsIndexed(a)
  }

  /** Every link points inside the node list, from an actor node to a movie node. */
  ghost predicate LinksWellFormed(nodes: seq<Node>, links: seq<Link>) {
    forall k :: 0 <= k < |links| ==>
      && links[k].source < |nodes|
      && links[k].target < |nodes|
      && nodes[links[k].source].kind == ActorLabel
      && nodes[links[k].target].kind == MovieLabel
  }

  /** The index maps each name to the actor node carrying that name. */
  ghost predicate IndexSound(a: Assembly) {
    forall name :: name in a.actors ==>
      a.actors[name] < |a.nodes| && a.nodes[a.actors[name]] == Node(name, ActorLabel)
  }

  /** Every actor node is the one the index records for its title. */
  ghost predicate ActorsIndexed(a: Assembly) {
    forall i :: 0 <= i < |a.nodes| && a.nodes[i].kind == ActorLabel ==>
      a.nodes[i].title in a.actors && a.actors[a.nodes[i].title] == i
  }

  /** No two distinct actor nodes carry the same title. */
  ghost predicate UniqueActors(nodes: seq<Node>) {
    forall i, j :: 0 <= i < j < |nodes| && nodes[i].kind == ActorLabel && nodes[j].kind == ActorLabel ==>
      nodes[i].title != nodes[j].title
  }

  /** The set of names that occur in a cast list. */
  function Elems(cast: seq<string>): set<string> {
    set name | name in cast
  }

  /** Every cast name over all rows. */
  function Names(rows: seq<Row>): set<string>
    decreases |rows|
  {
    if |rows| == 0 then {} else Names(rows[..|rows| - 1]) + Elems(rows[|rows| - 1].cast)
  }

  /** The total length of the cast lists of all rows. */
  function CastTotal(rows: seq<Row>): nat
    decreases |rows|
  {
    if |rows| == 0 then 0 else CastTotal(rows[..|rows| - 1]) + |rows[|rows| - 1].cast|
  }

  /** One cast entry: reuse the actor's node when the name is already indexed,
      otherwise append a new actor node and index it; then link it to `target`. */
  function AddActor(a: Assembly, name: string, target: nat): (r: Assembly)
    ensures a.nodes <= r.nodes && a.links <= r.links
    ensures |r.links| == |a.links| + 1
    ensures name in r.actors && r.links[|a.links|] == Link(r.actors[name], target)
    ensures name in a.actors ==> r.nodes == a.nodes && r.actors == a.actors
    ensures name !in a.actors ==> r.nodes == a.nodes + [Node(name, ActorLabel)] && r.actors == a.actors[name := |a.nodes|]
    ensures forall i :: |a.nodes| <= i < |r.nodes| ==> r.nodes[i] == Node(name, ActorLabel)
    ensures r.actors.Keys == a.actors.Keys + {name}
    ensures |r.nodes| - |r.actors.Keys| == |a.nodes| - |a.actors.Keys|
  {
    if name in a.actors then
      a.(links := a.links + [Link(a.actors[name], target)])
    else
      var source := |a.nodes|;
      var actors := a.actors[name := source];
      assert actors.Keys == a.actors.Keys + {name};
      Assembly(a.nodes + [Node(name, ActorLabel)], a.links + [Link(source, target)], actors)
  }

  /** The cast entries of one row, in order, all linked to the movie node `target`. */
  function AddCast(a: Assembly, cast: seq<string>, target: nat): (r: Assembly)
    ensures a.nodes <= r.nodes && a.links <= r.links
    ensures |r.links| == |a.links| + |cast|
    ensures forall i :: |a.nodes| <= i < |r.nodes| ==> r.nodes[i].kind == ActorLabel
    decreases |cast|
  {
    if |cast| == 0 then a
    else AddActor(AddCast(a, cast[..|cast| - 1], target), cast[|cast| - 1], target)
  }

  /** Adding the first `j + 1` entries of a cast is adding the first `j`, then entry `j`. */
  lemma AddCastSnoc(a: Assembly, cast: seq<string>, j: nat, target: nat)
    requires j < |cast|
    ensures AddCast(a, cast[..j + 1], target) == AddActor(AddCast(a, cast[..j], target), cast[j], target)
  {
    assert cast[..j + 1][..j] == cast[..j];
  }

  /** One row: append a fresh movie node (titles are never deduplicated), then its cast. */
  function AddRow(a: Assembly, row: Row): (r: Assembly)
    ensures a.nodes <= r.nodes && a.links <= r.links
    ensures |a.nodes| < |r.nodes| && r.nodes[|a.nodes|] == Node(row.movie, MovieLabel)
    ensures forall i :: |a.nodes| < i < |r.nodes| ==> r.nodes[i].kind == ActorLabel
    ensures |r.links| == |a.links| + |row.cast|
  {
    AddCast(a.(nodes := a.nodes + [Node(row.movie, MovieLabel)]), row.cast, |a.nodes|)
  }

  /** The assembler's state after all `rows`, processed first to last. */
  function Assemble(rows: seq<Row>): (r: Assembly)
    ensures |rows| <= |r.nodes|
    ensures |r.links| == CastTotal(rows)
    decreases |rows|
  {
    if |rows| == 0 then Start
    else AddRow(Assemble(rows[..|rows| - 1]), rows[|rows| - 1])
  }

  /** The links at positions `from` to `from + |cast|` are one per entry of `cast`,
      in order, each from the actor node carrying that name to `target`. */
  ghost predicate CastLinked(nodes: seq<Node>, links: seq<Link>, from: nat, cast: seq<string>, target: nat) {
    && from + |cast| <= |links|
    && forall k :: from <= k < from + |cast| ==>
         && links[k].target == target
         && links[k].source < |nodes|
         && nodes[links[k].source] == Node(cast[k - from], ActorLabel)
  }

  /** Appending one cast entry's link, without disturbing earlier nodes and links,
      extends the linked cast by that entry. */
  lemma CastLinkedExtend(before: Assembly, r: Assembly, from: nat, cast: seq<string>, target: nat)
    requires |cast| > 0 && |before.links| == from + |cast| - 1
    requires CastLinked(before.nodes, before.links, from, cast[..|cast| - 1], target)
    requires before.nodes <= r.nodes && before.links <= r.links
    requires |r.links| == |before.links| + 1
    requires r.links[|before.links|].target == target
    requires r.links[|before.links|].source < |r.nodes|
    requires r.nodes[r.links[|before.links|].source] == Node(cast[|cast| - 1], ActorLabel)
    ensures CastLinked(r.nodes, r.links, from, cast, target)
  {
  }

  /** A linked cast stays linked when nodes and links are only appended to. */
  lemma CastLinkedGrow(nodes: seq<Node>, links: seq<Link>, nodes': seq<Node>, links': seq<Link>,
                       from: nat, cast: seq<string>, target: nat)
    requires CastLinked(nodes, links, from, cast, target)
    requires nodes <= nodes' && links <= links'
    ensures CastLinked(nodes', links', from, cast, target)
  {
  }

  /** One cast entry keeps the index sound, and its link starts at the node named `name`. */
  lemma AddActorSound(a: Assembly, name: string, target: nat)
    requires IndexSound(a)
    ensures var r := AddActor(a, name, target);
      && IndexSound(r)
      && r.links[|a.links|].source < |r.nodes|
      && r.nodes[r.links[|a.links|].source] == Node(name, ActorLabel)
  {
  }

  /** A cast keeps the index sound and links each entry, in order, from the actor
      node carrying that name to the movie node. */
  lemma {:induction false} AddCastSound(a: Assembly, cast: seq<string>, target: nat)
    requires IndexSound(a)
    ensures IndexSound(AddCast(a, cast, target))
    ensures CastLinked(AddCast(a, cast, target).nodes, AddCast(a, cast, target).links, |a.links|, cast, target)
    decreases |cast|
  {
    if |cast| > 0 {
      var n := |cast| - 1;
      var before := AddCast(a, cast[..n], target);
      AddCastSound(a, cast[..n], target);
      AddActorSound(before, cast[n], target);
      CastLinkedExtend(before, AddCast(a, cast, target), |a.links|, cast, target);
    }
  }

  /** The names a cast indexes are those already indexed plus its entries. */
  lemma {:induction false} AddCastKeys(a: Assembly, cast: seq<string>, target: nat)
    ensures AddCast(a, cast, target).actors.Keys == a.actors.Keys + Elems(cast)
    decreases |cast|
  {
    if |cast| > 0 {
      AddCastKeys(a, cast[..|cast| - 1], target);
    }
  }

  /** A cast appends exactly one node per name it adds to the index. */
  lemma {:induction false} AddCastFresh(a: Assembly, cast: seq<string>, target: nat)
    ensures |AddCast(a, cast, target).nodes| - |AddCast(a, cast, target).actors.Keys| == |a.nodes| - |a.actors.Keys|
    decreases |cast|
  {
    if |cast| > 0 {
      AddCastFresh(a, cast[..|cast| - 1], target);
    }
  }

  /** Adding one cast entry keeps the whole assembler invariant. */
  lemma AddActorKeepsValid(a: Assembly, name: string, target: nat)
    requires Valid(a)
    requires target < |a.nodes| && a.nodes[target].kind == MovieLabel
    ensures Valid(AddActor(a, name, target))
  {
  }

  /** Adding a whole cast keeps the assembler invariant. */
  lemma {:induction false} AddCastKeepsValid(a: Assembly, cast: seq<string>, target: nat)
    requires Valid(a)
    requires target < |a.nodes| && a.nodes[target].kind == MovieLabel
    ensures Valid(AddCast(a, cast, target))
    decreases |cast|
  {
    if |cast| > 0 {
      var n := |cast| - 1;
      AddCastKeepsValid(a, cast[..n], target);
      AddActorKeepsValid(AddCast(a, cast[..n], target), cast[n], target);
    }
  }

  /** Adding a row keeps the assembler invariant. */
  lemma AddRowKeepsValid(a: Assembly, row: Row)
    requires Valid(a)
    ensures Valid(AddRow(a, row))
  {
    var withMovie := a.(nodes := a.nodes + [Node(row.movie, MovieLabel)]);
    assert Valid(withMovie);
    AddCastKeepsValid(withMovie, row.cast, |a.nodes|);
  }

  /** The assembled state always satisfies the assembler invariant. */
  lemma {:induction false} AssembleValid(rows: seq<Row>)
    ensures Valid(Assemble(rows))
    decreases |rows|
  {
    if |rows| > 0 {
      AssembleValid(rows[..|rows| - 1]);
      AddRowKeepsValid(Assemble(rows[..|rows| - 1]), rows[|rows| - 1]);
    }
  }

  /** A row keeps the index sound and links each cast entry, in order, from the
      actor node carrying that name to the row's own movie node. */
  lemma AddRowSound(a: Assembly, row: Row)
    requires IndexSound(a)
    ensures IndexSound(AddRow(a, row))
    ensures CastLinked(AddRow(a, row).nodes, AddRow(a, row).links, |a.links|, row.cast, |a.nodes|)
  {
    AddCastSound(a.(nodes := a.nodes + [Node(row.movie, MovieLabel)]), row.cast, |a.nodes|);
  }

  /** A row indexes its cast names and appends one movie node plus one node per
      name it adds to the index. */
  lemma AddRowKeys(a: Assembly, row: Row)
    ensures AddRow(a, row).actors.Keys == a.actors.Keys + Elems(row.cast)
    ensures |AddRow(a, row).nodes| - |AddRow(a, row).actors.Keys| == |a.nodes| - |a.actors.Keys| + 1
  {
    var withMovie := a.(nodes := a.nodes + [Node(row.movie, MovieLabel)]);
    AddCastKeys(withMovie, row.cast, |a.nodes|);
    AddCastFresh(withMovie, row.cast, |a.nodes|);
  }

  /** The assembled state indexes exactly the cast names of all rows, and holds one
      movie node per row plus one actor node per distinct cast name. */
  lemma {:induction false} AssembleCounts(rows: seq<Row>)
    ensures Assemble(rows).actors.Keys == Names(rows)
    ensures |Assemble(rows).nodes| == |rows| + |Names(rows)|
    decreases |rows|
  {
    if |rows| > 0 {
      var n := |rows| - 1;
      AssembleCounts(rows[..n]);
      AddRowKeys(Assemble(rows[..n]), rows[n]);
    }
  }

  /** Assembling is append-only: the nodes and links produced for the first `k` rows
      are never changed by the rows after them. */
  lemma {:induction false} AppendOnly(rows: seq<Row>, k: nat)
    requires k <= |rows|
    ensures Assemble(rows[..k]).nodes <= Assemble(rows).nodes
    ensures Assemble(rows[..k]).links <= Assemble(rows).links
    decreases |rows| - k
  {
    if k == |rows| {
      assert rows[..k] == rows;
    } else {
      var n := |rows| - 1;
      assert rows[..n][..k] == rows[..k];
      AppendOnly(rows[..n], k);
    }
  }

  /** Assembling one more row is one more AddRow step. */
  lemma AssembleSnoc(rows: seq<Row>, k: nat)
    requires k < |rows|
    ensures Assemble(rows[..k + 1]) == AddRow(Assemble(rows[..k]), rows[k])
  {
    assert rows[..k + 1][..k] == rows[..k];
  }

  /** Index of the movie node that row `k` appends. */
  function MovieIndex(rows: seq<Row>, k: nat): nat
    requires k < |rows|
  {
    |Assemble(rows[..k]).nodes|
  }

  /** Index of the first link that row `k` appends. */
  function FirstLink(rows: seq<Row>, k: nat): nat
    requires k < |rows|
  {
    |Assemble(rows[..k]).links|
  }

  /** Row `k` owns a movie node carrying its title, and the `|cast|` links from
      FirstLink(rows, k) on go, one per cast entry in order, from the actor node of
      that name to that movie node. */
  lemma RowSegment(rows: seq<Row>, k: nat)
    requires k < |rows|
    ensures var a := Assemble(rows);
      && MovieIndex(rows, k) < |a.nodes|
      && a.nodes[MovieIndex(rows, k)] == Node(rows[k].movie, MovieLabel)
      && CastLinked(a.nodes, a.links, FirstLink(rows, k), rows[k].cast, MovieIndex(rows, k))
  {
    var before := Assemble(rows[..k]);
    var after := AddRow(before, rows[k]);
    AssembleSnoc(rows, k);
    AssembleSound(rows[..k]);
    AddRowSound(before, rows[k]);
    AppendOnly(rows, k + 1);
    var a := Assemble(rows);
    CastLinkedGrow(after.nodes, after.links, a.nodes, a.links, |before.links|, rows[k].cast, |before.nodes|);
  }

  /** The assembled state's index is sound. */
  lemma {:induction false} AssembleSound(rows: seq<Row>)
    ensures IndexSound(Assemble(rows))
    decreases |rows|
  {
    if |rows| > 0 {
      AssembleSound(rows[..|rows| - 1]);
      AddRowSound(Assemble(rows[..|rows| - 1]), rows[|rows| - 1]);
    }
  }

  /** Movie nodes are never deduplicated: distinct rows own distinct movie nodes,
      even when they carry the same title. */
  lemma MovieNodesDistinct(rows: seq<Row>, k1: nat, k2: nat)
    requires k1 < k2 < |rows|
    ensures MovieIndex(rows, k1) < MovieIndex(rows, k2)
  {
    AssembleSnoc(rows, k1);
    assert rows[..k2][..k1 + 1] == rows[..k1 + 1];
    AppendOnly(rows[..k2], k1 + 1);
  }

  /** An actor is one node: the links for two cast entries with the same name,
      in the same row or in different rows, start at the same node. */
  lemma SharedActor(rows: seq<Row>, k1: nat, j1: nat, k2: nat, j2: nat)
    requires k1 < |rows| && j1 < |rows[k1].cast|
    requires k2 < |rows| && j2 < |rows[k2].cast|
    requires rows[k1].cast[j1] == rows[k2].cast[j2]
    ensures FirstLink(rows, k1) + j1 < |Assemble(rows).links|
    ensures FirstLink(rows, k2) + j2 < |Assemble(rows).links|
    ensures Assemble(rows).links[FirstLink(rows, k1) + j1].source
         == Assemble(rows).links[FirstLink(rows, k2) + j2].source
  {
    var a := Assemble(rows);
    RowSegment(rows, k1);
    RowSegment(rows, k2);
    AssembleValid(rows);
    var s1 := a.links[FirstLink(rows, k1) + j1].source;
    var s2 := a.links[FirstLink(rows, k2) + j2].source;
    assert a.nodes[s1].kind == ActorLabel && a.nodes[s2].kind == ActorLabel;
  }

  /** The response the assembler hands back is well formed: every link points inside
      the node list from an actor node to a movie node, and no two actor nodes share
      a title. */
  lemma AssembleWellFormed(rows: seq<Row>)
    ensures LinksWellFormed(Assemble(rows).nodes, Assemble(rows).links)
    ensures UniqueActors(Assemble(rows).nodes)
  {
    AssembleValid(rows);
    var a := Assemble(rows);
    forall i, j | 0 <= i < j < |a.nodes| && a.nodes[i].kind == ActorLabel && a.nodes[j].kind == ActorLabel
      ensures a.nodes[i].title != a.nodes[j].title
    {
      assert a.actors[a.nodes[i].title] == i;
    }
  }

  /** Two movies sharing the actor "B": B gets one node, linked to both movies. */
  lemma SharedCastExample()
    ensures var a := Assemble([Row("M1", ["A", "B"]), Row("M2", ["B"])]);
      && a.nodes == [Node("M1", MovieLabel), Node("A", ActorLabel), Node("B", ActorLabel), Node("M2", MovieLabel)]
      && a.links == [Link(1, 0), Link(2, 0), Link(2, 3)]
  {
    var rows := [Row("M1", ["A", "B"]), Row("M2", ["B"])];
    assert rows[..0] == [] && rows[..2] == rows;
    AssembleSnoc(rows, 0);
    ExampleFirstRow();
    assert Assemble(rows[..1]) == ExampleFirst;
    AssembleSnoc(rows, 1);
    ExampleSecondRow();
  }

  /** The state after the example's first row. */
  const ExampleFirst: Assembly :=
    Assembly([Node("M1", MovieLabel), Node("A", ActorLabel), Node("B", ActorLabel)],
             [Link(1, 0), Link(2, 0)], map["A" := 1, "B" := 2])

  /** The example's first row appends its movie node, then a node for each new actor. */
  lemma ExampleFirstRow()
    ensures AddRow(Start, Row("M1", ["A", "B"])) == ExampleFirst
  {
    var withM1 := Assembly([Node("M1", MovieLabel)], [], map[]);
    var withA := Assembly([Node("M1", MovieLabel), Node("A", ActorLabel)], [Link(1, 0)], map["A" := 1]);
    assert ["A", "B"][..1] == ["A"] && ["A"][..0] == [];
    assert AddActor(withM1, "A", 0) == withA;
    assert "B" !in withA.actors;
  }

  /** The example's second row reuses the node of the actor already seen. */
  lemma ExampleSecondRow()
    ensures AddRow(ExampleFirst, Row("M2", ["B"])).nodes
         == [Node("M1", MovieLabel), Node("A", ActorLabel), Node("B", ActorLabel), Node("M2", MovieLabel)]
    ensures AddRow(ExampleFirst, Row("M2", ["B"])).links == [Link(1, 0), Link(2, 0), Link(2, 3)]
  {
  }
}
