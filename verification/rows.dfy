/** Decoding the browse query's row stream. The driver hands rows over one pull
    at a time; a pull can fail (a network or driver fault), and a row can lack a
    column or hold it with the wrong type. The first failure, whichever it is,
    is the outcome of the whole stream. */
module Rows {
  import opened Results
  import opened Graph

  /** A browse row as the driver returns it: each column is present with the
      expected type (`Some`) or is not (`None`). */
  datatype RawRow = RawRow(movie: Option<string>, cast: Option<seq<string>>)

  /** One pull on the row stream: the next row, or a driver fault. The stream
      ends, without error, after the last pull. */
  datatype Pull = Fetched(row: RawRow) | Fault

  /** Reads the `movie` column, then the `cast` column, of one row. */
  function DecodeRow(raw: RawRow): (r: Result<Row>)
    ensures r.Ok? <==> raw.movie.Some? && raw.cast.Some?
    ensures r.Ok? ==> RawRow(Some(r.value.movie), Some(r.value.cast)) == raw
    ensures raw.movie.None? ==> r == Err(DecodeError("movie"))
    ensures raw.movie.Some? && raw.cast.None? ==> r == Err(DecodeError("cast"))
  {
    match raw.movie
    case None => Err(DecodeError("movie"))
    case Some(movie) =>
      match raw.cast
      case None => Err(DecodeError("cast"))
      case Some(cast) => Ok(Row(movie, cast))
  }

  /** The outcome of one pull: its decoded row, or why it failed. */
  function PullRow(pull: Pull): Result<Row> {
    match pull
    case Fault => Err(QueryError)
    case Fetched(raw) => DecodeRow(raw)
  }

  /** The whole stream: all rows in order when every pull succeeds, otherwise the
      error of the first pull that fails. */
  function DecodeStream(pulls: seq<Pull>): (r: Result<seq<Row>>)
    ensures r.Ok? <==> forall k :: 0 <= k < |pulls| ==> PullRow(pulls[k]).Ok?
    ensures r.Ok? ==> |r.value| == |pulls| && forall k :: 0 <= k < |pulls| ==> PullRow(pulls[k]) == Ok(r.value[k])
    decreases |pulls|
  {
    if |pulls| == 0 then Ok([])
    else
      var n := |pulls| - 1;
      match DecodeStream(pulls[..n])
      case Err(e) => Err(e)
      case Ok(rows) =>
        match PullRow(pulls[n])
        case Err(e) => Err(e)
        case Ok(row) => Ok(rows + [row])
  }

  /** Pull `k` is the first to fail, and fails with `e`. */
  ghost predicate FailsFirstAt(pulls: seq<Pull>, k: nat, e: Error) {
    && k < |pulls|
    && PullRow(pulls[k]) == Err(e)
    && forall j :: 0 <= j < k ==> PullRow(pulls[j]).Ok?
  }

  /** A failing stream fails with the error of its first failing pull. */
  lemma {:induction false} FirstFailure(pulls: seq<Pull>) returns (k: nat)
    requires DecodeStream(pulls).Err?
    ensures FailsFirstAt(pulls, k, DecodeStream(pulls).error)
    decreases |pulls|
  {
    var n := |pulls| - 1;
    var prefix := pulls[..n];
    if DecodeStream(prefix).Err? {
      k := FirstFailure(prefix);
      assert forall j :: 0 <= j <= k ==> PullRow(pulls[j]) == PullRow(prefix[j]);
    } else {
      k := n;
      assert forall j :: 0 <= j < n ==> PullRow(pulls[j]) == PullRow(prefix[j]);
    }
  }

  /** A failure is final: once a prefix of the stream has failed, pulling further
      rows cannot change the outcome. */
  lemma {:induction false} FailureIsFinal(pulls: seq<Pull>, i: nat)
    requires i <= |pulls| && DecodeStream(pulls[..i]).Err?
    ensures DecodeStream(pulls) == DecodeStream(pulls[..i])
    decreases |pulls| - i
  {
    if i == |pulls| {
      assert pulls[..i] == pulls;
    } else {
      var n := |pulls| - 1;
      assert pulls[..n][..i] == pulls[..i];
      FailureIsFinal(pulls[..n], i);
    }
  }

  /** Decoding one more pull extends the decoded prefix by that pull's outcome. */
  lemma DecodeSnoc(pulls: seq<Pull>, i: nat)
    requires i < |pulls|
    ensures DecodeStream(pulls[..i + 1]) ==
      match DecodeStream(pulls[..i])
      case Err(e) => Err(e)
      case Ok(rows) => (match PullRow(pulls[i]) case Err(e) => Err(e) case Ok(row) => Ok(rows + [row]))
  {
    assert pulls[..i + 1][..i] == pulls[..i];
  }
}
