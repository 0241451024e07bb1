/** The service facade: the movie lookup, the vote, and the browse operation that
    feeds the row stream of the graph query through the assembler. The datastore
    is not modelled; each operation takes what the driver answered as a parameter. */
module Service {
  import opened Results
  import opened Graph
  import opened Rows

  /** Rust's `i32`, the type of the browse limit. */
  newtype int32 = x: int | -0x8000_0000 <= x < 0x8000_0000

  /** Rust's `u32`, the type of a movie's release year. */
  newtype uint32 = x: int | 0 <= x < 0x1_0000_0000

  /** The browse request: an optional bound on the number of movies. */
  datatype Browse = Browse(limit: Option<int32>)

  /** The browse response: the node list and the links between its positions. */
  datatype BrowseResponse = BrowseResponse(nodes: seq<Node>, links: seq<Link>)

  /** A cast member as the movie lookup returns it. */
  datatype Person = Person(job: string, role: Option<seq<string>>, name: string)

  /** A movie as the lookup returns it; every field is optional. */
  datatype Movie = Movie(released: Option<uint32>, title: Option<string>, tagline: Option<string>,
                         votes: Option<nat>, cast: Option<seq<Person>>)

  /** The vote response. */
  datatype Voted = Voted(updates: nat)

  /** The movie with no field set. */
  const EmptyMovie: Movie := Movie(None, None, None, None, None)

  /** True when no field of `m` is set. */
  predicate Blank(m: Movie) {
    m.released.None? && m.title.None? && m.tagline.None? && m.votes.None? && m.cast.None?
  }

  /** The limit passed to the graph query: the requested one, or 100 when absent. */
  function BrowseLimit(browse: Browse): (limit: int32)
    ensures browse.limit.Some? ==> limit == browse.limit.value
    ensures browse.limit.None? ==> limit == 100
  {
    match browse.limit
    case Some(l) => l
    case None => 100
  }

  /** The movie lookup, given the driver's answer: the failure of the statement or
      of the first pull, or else the first row (absent when no movie matched)
      together with the outcome of decoding it. A missing row is not an error: it
      yields the movie with no field set. */
  function FindMovie(answer: Result<Option<Result<Movie>>>): (r: Result<Movie>)
    ensures r.Err? <==> answer.Err? || (answer.value.Some? && answer.value.value.Err?)
    ensures answer.Err? ==> r.error == answer.error
    ensures answer.Ok? && answer.value.Some? ==> r == answer.value.value
    ensures answer == Ok(None) ==> r.Ok? && Blank(r.value)
  {
    match answer
    case Err(e) => Err(e)
    case Ok(None) => Ok(EmptyMovie)
    case Ok(Some(decoded)) => decoded
  }

  /** The vote, given the outcome of running the update statement: a successful
      run always reports one update, whether or not a movie matched. */
  function Vote(run: Result<()>): (r: Result<Voted>)
    ensures r.Ok? <==> run.Ok?
    ensures r.Ok? ==> r.value.updates == 1
    ensures r.Err? ==> r.error == run.error
  {
    match run
    case Err(e) => Err(e)
    case Ok(_) => Ok(Voted(1))
  }

  /** The browse response a row stream specifies: the assembly of its decoded rows,
      or the stream's first failure. */
  function BrowseOf(pulls: seq<Pull>): Result<BrowseResponse> {
    match DecodeStream(pulls)
    case Err(e) => Err(e)
    case Ok(rows) => Ok(BrowseResponse(Assemble(rows).nodes, Assemble(rows).links))
  }

  /** The assembly loop: pulls rows until the stream ends, appending a movie node
      per row and an actor node per name not seen before, and a link per cast
      entry. Any failure abandons everything assembled so far. */
  method AssembleStream(pulls: seq<Pull>) returns (r: Result<BrowseResponse>)
    ensures r == BrowseOf(pulls)
    ensures r.Ok? <==> forall k :: 0 <= k < |pulls| ==> PullRow(pulls[k]).Ok?
    ensures r.Ok? ==> LinksWellFormed(r.value.nodes, r.value.links) && UniqueActors(r.value.nodes)
  {
    var actors: map<string, nat> := map[];
    var nodes: seq<Node> := [];
    var links: seq<Link> := [];
    ghost var rows: seq<Row> := [];
    var i := 0;
    while i < |pulls|
      invariant i <= |pulls|
      invariant DecodeStream(pulls[..i]) == Ok(rows)
      invariant Assembly(nodes, links, actors) == Assemble(rows)
    {
      DecodeSnoc(pulls, i);
      if pulls[i].Fault? {
        FailureIsFinal(pulls, i + 1);
        return Err(QueryError);
      }
      var raw := pulls[i].row;
      if raw.movie.None? {
        FailureIsFinal(pulls, i + 1);
        return Err(DecodeError("movie"));
      }
      var target := |nodes|;
      ghost var before := Assembly(nodes, links, actors);
      nodes := nodes + [Node(raw.movie.value, MovieLabel)];
      if raw.cast.None? {
        FailureIsFinal(pulls, i + 1);
        return Err(DecodeError("cast"));
      }
      var cast := raw.cast.value;
      nodes, links, actors := LinkCast(nodes, links, actors, cast, target);
      assert Assembly(nodes, links, actors) == AddRow(before, Row(raw.movie.value, cast));
      AssembleSnoc(rows + [Row(raw.movie.value, cast)], |rows|);
      assert (rows + [Row(raw.movie.value, cast)])[..|rows|] == rows;
      rows := rows + [Row(raw.movie.value, cast)];
      i := i + 1;
    }
    assert pulls[..i] == pulls;
    AssembleWellFormed(rows);
    r := Ok(BrowseResponse(nodes, links));
  }

  /** The loop over one row's cast: reuse the node of a name already in `actors`,
      otherwise append an actor node and record its position; then link it to
      the movie node `target`. */
  method LinkCast(nodes: seq<Node>, links: seq<Link>, actors: map<string, nat>, cast: seq<string>, target: nat)
    returns (nodes': seq<Node>, links': seq<Link>, actors': map<string, nat>)
    ensures Assembly(nodes', links', actors') == AddCast(Assembly(nodes, links, actors), cast, target)
  {
    nodes', links', actors' := nodes, links, actors;
    var j := 0;
    while j < |cast|
      invariant j <= |cast|
      invariant Assembly(nodes', links', actors') == AddCast(Assembly(nodes, links, actors), cast[..j], target)
    {
      ghost var prev := Assembly(nodes', links', actors');
      var name := cast[j];
      var source;
      if name in actors' {
        source := actors'[name];
      } else {
        source := |nodes'|;
        actors' := actors'[name := source];
        nodes' := nodes' + [Node(name, ActorLabel)];
      }
      links' := links' + [Link(source, target)];
      assert Assembly(nodes', links', actors') == AddActor(prev, name, target);
      AddCastSnoc(Assembly(nodes, links, actors), cast, j, target);
      j := j + 1;
    }
    assert cast[..j] == cast;
  }

  /** The browse operation: the limit defaults to 100 and is passed to the graph
      query, whose row stream is then assembled. A failed query yields its error. */
  method BrowseGraph(browse: Browse, execute: int32 -> Result<seq<Pull>>) returns (r: Result<BrowseResponse>)
    ensures execute(BrowseLimit(browse)).Err? ==> r == Err(execute(BrowseLimit(browse)).error)
    ensures execute(BrowseLimit(browse)).Ok? ==> r == BrowseOf(execute(BrowseLimit(browse)).value)
  {
    var limit := BrowseLimit(browse);
    var rowsOrError := execute(limit);
    if rowsOrError.Err? {
      return Err(rowsOrError.error);
    }
    r := AssembleStream(rowsOrError.value);
  }
}
