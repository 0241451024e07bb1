# Movies graph service — Dafny model

A model of the query service of the Rust "movies" example application
(`src/main.rs`), centred on the graph assembler behind the `/graph` endpoint.

The browse query returns one row per distinct movie title that has at least
one actor, at most `limit` rows: the title and the list of names of its cast
(movies sharing a title are grouped into one row by the query itself). The
assembler turns this row stream into a node list and a link list for a
force-directed view:

- every row appends one fresh `"movie"` node; the assembler never merges two
  rows' movie nodes, even when their titles are equal;
- every cast name gets one `"actor"` node, created the first time the name is
  seen and found again through a name → position map afterwards;
- every cast entry appends one link `{source: actor position, target: movie position}`.

Nodes are identified by their position in the node list. A failure while
pulling or decoding a row abandons the whole response.

Next to it sit three small decisions of the service facade: the default browse
limit (100), the movie lookup that answers a missing movie with an all-empty
record rather than an error, and the vote that always reports one update.

Files:

- `results.dfy` — `Option`, the error kinds (`QueryError`, `DecodeError(column)`) and `Result`.
- `graph.dfy` — module `Graph`: the node, link and row types, the assembler as a
  functional specification (`AddActor`, `AddCast`, `AddRow`, `Assemble`), its
  invariant and the lemmas about it.
- `rows.dfy` — module `Rows`: decoding of one row and of the whole row stream,
  first failure wins.
- `service.dfy` — module `Service`: the imperative assembly loop
  (`AssembleStream`, `LinkCast`) proved equal to the specification, and the
  facade operations (`BrowseLimit`, `BrowseGraph`, `FindMovie`, `Vote`).

The node's `label` field is named `kind` in the model (`label` is a Dafny
keyword) and holds a two-valued datatype standing for `"movie"` and
`"actor"`, the only two strings the code ever stores there.

## Model

| member | source | states |
|---|---|---|
| Graph.AddActor | src/main.rs:231-245 | One cast entry appends exactly one link, to `target`, whose source is the position the map records for the name; a name already in the map adds no node and leaves the map alone; otherwise exactly one actor node carrying the name is appended and the map gains that name at the new node's position, every other name keeping its position; earlier nodes and links are kept. |
| Graph.AddCast | src/main.rs:230-246 | A cast appends exactly one link per entry and never changes earlier nodes or links. |
| Graph.AddRow | src/main.rs:221-247 | A row appends a fresh movie node carrying its title at the old end of the node list, then one link per cast entry, keeping earlier nodes and links. |
| Graph.Assemble | src/main.rs:216-249 | The links are exactly as many as the cast entries over all rows (so an empty stream gives no links), and there is at least one node per row. |
| Graph.AddActorKeepsValid | src/main.rs:232-245 | Reusing or appending an actor node keeps the map consistent with the nodes (each key maps to the actor node with that title, each actor node is the one its title maps to) and every link in bounds from an actor node to a movie node. |
| Graph.AddCastKeepsValid | src/main.rs:231-246 | The whole cast loop keeps that invariant. |
| Graph.AddRowKeepsValid | src/main.rs:221-247 | Processing a row keeps that invariant. |
| Graph.AssembleValid | src/main.rs:216-249 | After any sequence of rows the map and nodes are consistent and every link is in bounds, from an actor node to a movie node. |
| Graph.AddCastSound | src/main.rs:230-246 | The cast's links, in order, go from the actor node carrying each entry's name to the movie node, and the map stays sound. |
| Graph.AddCastKeys | src/main.rs:232-243 | After a cast the map's keys are the earlier keys plus the cast's names. |
| Graph.AddCastFresh | src/main.rs:232-243 | A cast appends exactly one node per name it adds to the map. |
| Graph.AddRowSound | src/main.rs:223-246 | A row's links, one per cast entry in order, go from the actor node of that name to the row's own movie node. |
| Graph.AddRowKeys | src/main.rs:223-243 | A row adds its cast names to the map and appends one movie node plus one node per new name. |
| Graph.AssembleCounts | src/main.rs:216-249 | The map's keys are exactly the cast names of all rows, and the node count is the number of rows plus the number of distinct cast names (so an empty stream gives no nodes). |
| Graph.AppendOnly | src/main.rs:221-247 | The nodes and links built for the first k rows are a prefix of those built for all rows. |
| Graph.RowSegment | src/main.rs:223-245 | Row k owns a movie node carrying its title, and its links, one per cast entry in order (repeated names included), go from the actor node of that name to that movie node. |
| Graph.MovieNodesDistinct | src/main.rs:223-228 | Different rows own different movie nodes, even when their titles are equal. |
| Graph.SharedActor | src/main.rs:232-243 | Two cast entries with the same name, in one row or in two rows, are linked from the same node. |
| Graph.AssembleWellFormed | src/main.rs:223-245 | Every link's source and target are positions in the node list, from an actor node to a movie node, and no two actor nodes share a title. |
| Graph.SharedCastExample | src/main.rs:216-249 | Rows M1 with cast A, B and M2 with cast B give nodes M1, A, B, M2 and links (1,0), (2,0), (2,3). |
| Rows.DecodeRow | src/main.rs:222-230 | A row decodes if and only if both columns are present with the right type, the decoded row carries exactly those values, and a missing `movie` column is reported before a missing `cast` column. |
| Rows.DecodeStream | src/main.rs:221-230 | The stream decodes if and only if every pull succeeds, and then to one row per pull, in order. |
| Rows.FirstFailure | src/main.rs:221-230 | A failing stream's error is that of its first failing pull: a fault, a missing `movie` column or a missing `cast` column. |
| Rows.FailureIsFinal | src/main.rs:221-230 | Once a prefix of the stream has failed, further pulls do not change the outcome. |
| Service.LinkCast | src/main.rs:231-246 | The imperative cast loop over the mutable map, node list and link list computes exactly `AddCast`. |
| Service.AssembleStream | src/main.rs:216-250 | The imperative `while let` loop returns exactly the assembly of the decoded rows, succeeds if and only if every pull succeeds, returns no partial result on failure, and its response is well formed with unique actor titles. |
| Service.BrowseGraph | src/main.rs:203-251 | The graph query is run with the browse limit; its failure is returned as is, otherwise the response is that of its row stream. |
| Service.BrowseLimit | src/main.rs:209 | The limit is the requested one when present, otherwise 100. |
| Service.FindMovie | src/main.rs:144-155 | A failed statement, pull or decode is an error; a missing row yields a movie with every field empty, not an error; a present row yields its decoded movie. |
| Service.Vote | src/main.rs:173-180 | A successful update reports exactly one update, whatever the datastore changed; a failed one reports its error. |

## Left out

- HTTP routing, the handlers and static asset serving (src/main.rs:19-56, 96-122): transport plumbing with no logic of its own.
- Connection configuration (`db()`, the `PORT` and `NEO4J_*` variables, src/main.rs:44-48, 58-94): environment reads and a network connect.
- The datastore and its driver: executing a statement, pulling rows and running the update are inputs to the model (`execute`, the pulls, the lookup's answer, the vote's outcome), not modelled calls.
- The Cypher texts (src/main.rs:132-142, 168-171, 185-188, 204-207): the database evaluates them, so the grouping of the browse rows by title string (`collect(a.name)` next to `m.title`), the dropping of movies without actors, the case-insensitive title search, `coalesce(votes, 0) + 1`, the job derived from the relationship type and the enforcement of `LIMIT` are not modelled. The assembler trusts the stream to be bounded, as the code does.
- The search operation (src/main.rs:184-200): its only logic is the search query and collecting its stream.
- Decoding a movie row into `Movie` (serde, src/main.rs:153): `FindMovie` takes the decode outcome as given.
- Tracing, logging and the mapping of errors to a 500 response (src/main.rs:309-330).
- Concurrency and async scheduling: each call is modelled as a sequential computation.
- Graph.Assemble: positions are unbounded `nat`s rather than `usize`; a node list longer than `usize` can index is not modelled.
- Service.Movie, Service.Voted: `votes` and `updates` (`usize` in the code) are unbounded `nat`s, while `released` keeps the code's `u32` as the `uint32` newtype; the model never does arithmetic on either, so a `usize` bound would constrain nothing.
- Service.BrowseLimit: the limit is any `i32`, as in the code; a non-positive limit is passed to the query unchanged. The code performs no check that the limit is positive, so none is modelled.
