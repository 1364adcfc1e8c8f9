/** `search_once_google.py`'s `main`: exactly one argument, the table's path;
    then one HEAD request per query of `iter_cells` with its default
    de-duplication, and "Finished.". The network is recorded as events; a
    failed request is ignored, so it leaves no trace beyond the event. */
module SearchOnce {
  import opened Text
  import opened QueryCells

  /** What `main` does to the outside world, in order. */
  datatype Event =
    | HeadRequest(query: string)   // `head_google(query)`
    | Usage                        // the usage line on a wrong argument count
    | NotFound(path: string)       // the message on a missing table
    | Finished                     // the closing "Finished."

  /** One HEAD request per query, in the order of the queries. */
  function Requests(qs: seq<string>): (r: seq<Event>)
    ensures |r| == |qs|
    ensures forall k :: 0 <= k < |qs| ==> r[k] == HeadRequest(qs[k])
  {
    if qs == [] then [] else Requests(qs[..|qs| - 1]) + [HeadRequest(qs[|qs| - 1])]
  }

  /** `main` with the argument vector `argv` (program name first) on a file
      system that maps each existing path to the rows the reader gives for
      it. */
  method Run(argv: seq<string>, files: map<string, seq<seq<string>>>)
    returns (status: int, trace: seq<Event>)
    ensures |argv| != 2 ==> status == 1 && trace == [Usage]
    ensures |argv| == 2 && argv[1] !in files ==> status == 1 && trace == [NotFound(argv[1])]
    ensures |argv| == 2 && argv[1] in files ==>
      status == 0 && trace == Requests(Queries(files[argv[1]], true)) + [Finished]
  {
    if |argv| != 2 {
      return 1, [Usage];
    }
    var path := argv[1];
    if path !in files {
      return 1, [NotFound(path)];
    }
    var queries := IterCells(files[path], true);
    trace := [];
    var i := 0;
    while i < |queries|
      invariant 0 <= i <= |queries|
      invariant trace == Requests(queries[..i])
    {
      assert queries[..i + 1][..i] == queries[..i];
      trace := trace + [HeadRequest(queries[i])];
      i := i + 1;
    }
    assert queries[..i] == queries;
    status := 0;
    trace := trace + [Finished];
  }

  // ---------------------------------------------------------------------------
  // Properties of what is sent

  /** Each query is requested as often as it occurs among the queries. */
  lemma {:induction false} RequestsCount(qs: seq<string>, x: string)
    ensures multiset(Requests(qs))[HeadRequest(x)] == multiset(qs)[x]
  {
    if qs != [] {
      var init := qs[..|qs| - 1];
      RequestsCount(init, x);
      assert qs == init + [qs[|qs| - 1]];
    }
  }

  /** Every request carries a non-empty query without leading or trailing
      whitespace. */
  lemma SentWellFormed(rows: seq<seq<string>>)
    ensures forall e :: e in Requests(Queries(rows, true)) ==>
      e.HeadRequest? && e.query != [] && IsTrimmed(e.query)
  {
    QueriesWellFormed(rows, true);
  }

  /** A value is requested exactly once when it is the non-empty strip of some
      cell, and never otherwise: no request is repeated and no cell is
      missed. */
  lemma SentOnce(rows: seq<seq<string>>, x: string)
    ensures multiset(Requests(Queries(rows, true)))[HeadRequest(x)] ==
      if x != [] && exists i, j :: 0 <= i < |rows| && 0 <= j < |rows[i]| && Strip(rows[i][j]) == x
      then 1 else 0
  {
    RequestsCount(Queries(rows, true), x);
    DedupOccursOnce(AllCandidates(rows), x);
    QueriesExact(rows, false, x);
  }

  /** The requests follow the first occurrences of their queries among the
      trimmed non-empty cells in row-major order. */
  lemma SentInFirstOccurrenceOrder(rows: seq<seq<string>>)
    ensures var sent := Requests(Queries(rows, true));
      forall i, j :: 0 <= i < j < |sent| ==>
        sent[i].query in AllCandidates(rows) && sent[j].query in AllCandidates(rows) &&
        FirstIndex(AllCandidates(rows), sent[i].query) < FirstIndex(AllCandidates(rows), sent[j].query)
  {
    DedupFirstOccurrenceOrder(AllCandidates(rows));
  }
}
