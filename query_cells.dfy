/** `iter_cells`: the queries read out of a delimited table. The reader's rows
    are given as a value; each cell is stripped, empty cells are skipped and,
    when de-duplication is on, so is every value already produced. */
module QueryCells {
  import opened Text

  // ---------------------------------------------------------------------------
  // Specification

  /** The cells of `rows` in row-major order. */
  function Flatten(rows: seq<seq<string>>): (cells: seq<string>)
  {
    if rows == [] then [] else Flatten(rows[..|rows| - 1]) + rows[|rows| - 1]
  }

  /** The number of cells in the rows before row `i`: where row `i` starts in
      `Flatten(rows)`. */
  function Offset(rows: seq<seq<string>>, i: nat): nat
    requires i <= |rows|
  {
    if i == 0 then 0 else Offset(rows, i - 1) + |rows[i - 1]|
  }

  /** The stripped, non-empty cells among the first `n` cells, in order,
      duplicates kept. */
  function Candidates(cells: seq<string>, n: nat): (qs: seq<string>)
    requires n <= |cells|
  {
    if n == 0 then []
    else
      var q := Strip(cells[n - 1]);
      Candidates(cells, n - 1) + (if q == [] then [] else [q])
  }

  /** The first occurrence of every value of `s`, in the order of `s`. */
  function Dedup<T(==)>(s: seq<T>): (d: seq<T>)
  {
    if s == [] then []
    else
      var d := Dedup(s[..|s| - 1]);
      if s[|s| - 1] in d then d else d + [s[|s| - 1]]
  }

  /** The candidates, de-duplicated when `dedupe` is on. */
  function Select(qs: seq<string>, dedupe: bool): seq<string>
  {
    if dedupe then Dedup(qs) else qs
  }

  /** All candidates of a table: the trimmed non-empty cells in row-major order. */
  function AllCandidates(rows: seq<seq<string>>): seq<string>
  {
    var cells := Flatten(rows);
    Candidates(cells, |cells|)
  }

  /** What `iter_cells(rows, dedupe)` yields. */
  function Queries(rows: seq<seq<string>>, dedupe: bool): seq<string>
  {
    Select(AllCandidates(rows), dedupe)
  }

  /** The set of the values of a sequence. */
  function Elements<T(==)>(s: seq<T>): set<T>
  {
    set x | x in s
  }

  /** No value occurs twice. */
  predicate Distinct<T(==)>(s: seq<T>)
  {
    forall i, j :: 0 <= i < j < |s| ==> s[i] != s[j]
  }

  /** The index of the first occurrence of `x` in `s`. */
  function FirstIndex<T(==)>(s: seq<T>, x: T): (k: nat)
    requires x in s
    ensures k < |s| && s[k] == x && x !in s[..k]
  {
    if x in s[..|s| - 1] then FirstIndex(s[..|s| - 1], x) else |s| - 1
  }

  /** `idx` picks the elements of `a` out of `b` at strictly increasing positions. */
  predicate Embeds<T(==)>(a: seq<T>, b: seq<T>, idx: seq<nat>)
  {
    && |idx| == |a|
    && (forall k :: 0 <= k < |idx| ==> idx[k] < |b| && a[k] == b[idx[k]])
    && (forall k1, k2 :: 0 <= k1 < k2 < |idx| ==> idx[k1] < idx[k2])
  }

  /** `a` is `b` with some elements left out, the rest kept in order. */
  ghost predicate IsSubsequence<T>(a: seq<T>, b: seq<T>)
  {
    exists idx :: Embeds(a, b, idx)
  }

  // ---------------------------------------------------------------------------
  // The generator, as a loop

  /** The nested row/cell loop of `iter_cells`, with its `seen` set shared by
      all rows. */
  method IterCells(rows: seq<seq<string>>, dedupe: bool) returns (queries: seq<string>)
    ensures !dedupe ==> queries == AllCandidates(rows)
    ensures dedupe ==> queries == Dedup(AllCandidates(rows))
  {
    ghost var cells := Flatten(rows);
    FlattenLength(rows);
    var seen: set<string> := {};
    queries := [];
    var i := 0;
    while i < |rows|
      invariant 0 <= i <= |rows|
      invariant Scanned(cells, Offset(rows, i), dedupe, queries, seen)
    {
      forall j | 0 <= j < |rows[i]|
        ensures Offset(rows, i) + j < |cells| && cells[Offset(rows, i) + j] == rows[i][j]
      {
        FlattenAt(rows, i, j);
      }
      ghost var next := Offset(rows, i + 1);
      assert next == Offset(rows, i) + |rows[i]|;
      OffsetMonotone(rows, i + 1, |rows|);
      queries, seen := ScanRow(cells, Offset(rows, i), next, rows[i], dedupe, queries, seen);
      i := i + 1;
    }
  }

  /** The inner loop of `iter_cells` over one row, whose cells stand at
      `start` onwards in `cells`. */
  method ScanRow(ghost cells: seq<string>, ghost start: nat, ghost stop: nat, row: seq<string>,
                 dedupe: bool, queries0: seq<string>, seen0: set<string>)
    returns (queries: seq<string>, seen: set<string>)
    requires stop == start + |row| <= |cells|
    requires forall j :: 0 <= j < |row| ==> cells[start + j] == row[j]
    requires Scanned(cells, start, dedupe, queries0, seen0)
    ensures Scanned(cells, stop, dedupe, queries, seen)
  {
    queries, seen := queries0, seen0;
    ghost var pos := start;
    var j := 0;
    while j < |row|
      invariant 0 <= j <= |row| && pos == start + j
      invariant Scanned(cells, pos, dedupe, queries, seen)
    {
      queries, seen := Visit(cells, pos, row[j], dedupe, queries, seen);
      pos := pos + 1;
      j := j + 1;
    }
  }

  /** `queries` and `seen` are what `iter_cells` holds after the first `n`
      cells: the candidates so far, de-duplicated when asked to, and the set of
      the values yielded. */
  ghost predicate Scanned(cells: seq<string>, n: nat, dedupe: bool, queries: seq<string>, seen: set<string>)
  {
    n <= |cells| && queries == Select(Candidates(cells, n), dedupe) && seen == Elements(queries)
  }

  /** The body of the inner loop for the cell at index `n` of `cells`. */
  method Visit(ghost cells: seq<string>, ghost n: nat, cell: string, dedupe: bool,
               queries0: seq<string>, seen0: set<string>)
    returns (queries: seq<string>, seen: set<string>)
    requires n < |cells| && cells[n] == cell
    requires Scanned(cells, n, dedupe, queries0, seen0)
    ensures Scanned(cells, n + 1, dedupe, queries, seen)
  {
    CellStep(cells, n, dedupe, queries0, seen0);
    queries, seen := queries0, seen0;
    var q := Strip(cell);
    if q == "" {
    } else if dedupe && q in seen {
    } else {
      seen := seen + {q};
      queries := queries + [q];
    }
  }

  /** What one more cell does to what is yielded and to the `seen` set:
      nothing for an empty cell, nothing for a value already seen when
      de-duplicating, and otherwise its stripped value is appended to the one
      and added to the other. */
  lemma CellStep(cells: seq<string>, n: nat, dedupe: bool, queries: seq<string>, seen: set<string>)
    requires n < |cells|
    requires queries == Select(Candidates(cells, n), dedupe) && seen == Elements(queries)
    ensures var q := Strip(cells[n]);
      if q == [] || (dedupe && q in seen) then Select(Candidates(cells, n + 1), dedupe) == queries
      else Select(Candidates(cells, n + 1), dedupe) == queries + [q] && Elements(queries + [q]) == seen + {q}
  {
    var q := Strip(cells[n]);
    var qs := Candidates(cells, n);
    if q != [] {
      var next := qs + [q];
      assert Candidates(cells, n + 1) == next;
      assert next[..|next| - 1] == qs && next[|next| - 1] == q;
      assert q in seen <==> q in queries;
      if dedupe {
        assert Dedup(next) == if q in Dedup(qs) then Dedup(qs) else Dedup(qs) + [q];
      }
      ElementsAppend(queries, q);
    } else {
      assert Candidates(cells, n + 1) == qs + [] == qs;
    }
  }

  /** The values of a sequence grown by one element. */
  lemma ElementsAppend<T>(s: seq<T>, x: T)
    ensures Elements(s + [x]) == Elements(s) + {x}
  {
  }

  // ---------------------------------------------------------------------------
  // Properties of the specification

  /** Rows before `i` are the same in `rows` and in any longer table that
      starts with them. */
  lemma {:induction false} OffsetPrefix(rows: seq<seq<string>>, init: seq<seq<string>>, i: nat)
    requires |init| <= |rows| && init == rows[..|init|] && i <= |init|
    ensures Offset(rows, i) == Offset(init, i)
  {
    if i > 0 {
      OffsetPrefix(rows, init, i - 1);
      assert rows[i - 1] == init[i - 1];
    }
  }

  /** Offsets grow with the row index. */
  lemma {:induction false} OffsetMonotone(rows: seq<seq<string>>, i: nat, k: nat)
    requires i <= k <= |rows|
    ensures Offset(rows, i) <= Offset(rows, k)
  {
    if i < k {
      OffsetMonotone(rows, i, k - 1);
    }
  }

  /** All the cells are counted by the offset past the last row. */
  lemma {:induction false} FlattenLength(rows: seq<seq<string>>)
    ensures |Flatten(rows)| == Offset(rows, |rows|)
  {
    if rows != [] {
      var init := rows[..|rows| - 1];
      FlattenLength(init);
      OffsetPrefix(rows, init, |init|);
    }
  }

  /** Cell `j` of row `i` stands at `Offset(rows, i) + j` in `Flatten(rows)`. */
  lemma {:induction false} FlattenAt(rows: seq<seq<string>>, i: nat, j: nat)
    requires i < |rows| && j < |rows[i]|
    ensures Offset(rows, i) + j < |Flatten(rows)|
    ensures Flatten(rows)[Offset(rows, i) + j] == rows[i][j]
  {
    var init := rows[..|rows| - 1];
    FlattenLength(init);
    OffsetPrefix(rows, init, |init|);
    if i < |init| {
      FlattenAt(init, i, j);
      OffsetPrefix(rows, init, i);
      assert rows[i] == init[i];
    }
  }

  /** A cell is in `Flatten(rows)` exactly when it stands in some row. */
  lemma {:induction false} FlattenMembers(rows: seq<seq<string>>, c: string)
    ensures c in Flatten(rows) <==>
      exists i, j :: 0 <= i < |rows| && 0 <= j < |rows[i]| && rows[i][j] == c
  {
    if rows != [] {
      var init := rows[..|rows| - 1];
      FlattenMembers(init, c);
      if c in Flatten(rows) {
        if c in Flatten(init) {
          var i, j :| 0 <= i < |init| && 0 <= j < |init[i]| && init[i][j] == c;
          assert rows[i][j] == c;
        } else {
          var j :| 0 <= j < |rows[|rows| - 1]| && rows[|rows| - 1][j] == c;
        }
      } else {
        forall i, j | 0 <= i < |rows| && 0 <= j < |rows[i]| ensures rows[i][j] != c {
          if i < |rows| - 1 {
            assert rows[i] == init[i];
          } else {
            assert rows[i][j] in rows[|rows| - 1];
          }
        }
      }
    }
  }

  /** Every candidate is non-empty and trimmed. */
  lemma {:induction false} CandidatesWellFormed(cells: seq<string>, n: nat)
    requires n <= |cells|
    ensures forall k :: 0 <= k < |Candidates(cells, n)| ==>
      Candidates(cells, n)[k] != [] && IsTrimmed(Candidates(cells, n)[k])
  {
    if n > 0 {
      CandidatesWellFormed(cells, n - 1);
    }
  }

  /** A value is a candidate exactly when it is non-empty and is the strip of
      one of the first `n` cells. */
  lemma {:induction false} CandidatesMembers(cells: seq<string>, n: nat, x: string)
    requires n <= |cells|
    ensures x in Candidates(cells, n) <==>
      x != [] && exists k :: 0 <= k < n && Strip(cells[k]) == x
  {
    if n > 0 {
      CandidatesMembers(cells, n - 1, x);
      var q := Strip(cells[n - 1]);
      assert Candidates(cells, n) == Candidates(cells, n - 1) + (if q == [] then [] else [q]);
      if x in Candidates(cells, n - 1) {
        var k :| 0 <= k < n - 1 && Strip(cells[k]) == x;
        assert 0 <= k < n && Strip(cells[k]) == x;
      } else if x != [] && x == q {
        assert Strip(cells[n - 1]) == x;
      } else {
        forall k | 0 <= k < n && x != [] ensures Strip(cells[k]) != x {
          if k == n - 1 {
            assert x != q;
          }
        }
      }
    }
  }

  /** De-duplication keeps exactly the values of its input. */
  lemma {:induction false} DedupElements<T>(s: seq<T>)
    ensures Elements(Dedup(s)) == Elements(s)
  {
    if s != [] {
      var init := s[..|s| - 1];
      DedupElements(init);
      assert s == init + [s[|s| - 1]];
      assert Elements(s) == Elements(init) + {s[|s| - 1]};
    }
  }

  /** De-duplication leaves no value twice. */
  lemma {:induction false} DedupDistinct<T>(s: seq<T>)
    ensures Distinct(Dedup(s))
  {
    if s != [] {
      DedupDistinct(s[..|s| - 1]);
    }
  }

  /** Every value of the input is in the output exactly once, every other
      value not at all. */
  lemma {:induction false} DedupOccursOnce<T>(s: seq<T>, x: T)
    ensures multiset(Dedup(s))[x] == if x in s then 1 else 0
  {
    if s != [] {
      var init := s[..|s| - 1];
      DedupOccursOnce(init, x);
      assert s == init + [s[|s| - 1]];
      DedupElements(init);
      assert x in Dedup(init) <==> x in Elements(Dedup(init));
    }
  }

  /** The output lists the values in the order of their first occurrences in
      the input. */
  lemma {:induction false} DedupFirstOccurrenceOrder<T>(s: seq<T>)
    ensures forall i :: 0 <= i < |Dedup(s)| ==> Dedup(s)[i] in s
    ensures forall i, j :: 0 <= i < j < |Dedup(s)| ==>
      FirstIndex(s, Dedup(s)[i]) < FirstIndex(s, Dedup(s)[j])
  {
    if s != [] {
      var init := s[..|s| - 1];
      var x := s[|s| - 1];
      var d := Dedup(init);
      DedupFirstOccurrenceOrder(init);
      assert s == init + [x];
      forall y | y in init ensures y in s && FirstIndex(s, y) == FirstIndex(init, y) {
        FirstIndexExtend(init, x, y);
      }
      if x !in d {
        DedupElements(init);
        assert x !in Elements(init);
        assert x !in init;
      }
    }
  }

  /** Appending to a sequence does not move the first occurrence of a value
      that is already there. */
  lemma FirstIndexExtend<T>(s: seq<T>, x: T, y: T)
    requires y in s
    ensures y in s + [x] && FirstIndex(s + [x], y) == FirstIndex(s, y)
  {
    assert (s + [x])[..|s|] == s;
  }

  /** The output of de-duplication is a subsequence of its input. */
  lemma DedupSubsequence<T>(s: seq<T>)
    ensures IsSubsequence(Dedup(s), s)
  {
    var d := Dedup(s);
    DedupFirstOccurrenceOrder(s);
    var idx := seq(|d|, k requires 0 <= k < |d| => FirstIndex(s, d[k]));
    assert Embeds(d, s, idx);
  }

  /** Every query is non-empty and has no leading or trailing whitespace. */
  lemma QueriesWellFormed(rows: seq<seq<string>>, dedupe: bool)
    ensures forall k :: 0 <= k < |Queries(rows, dedupe)| ==>
      Queries(rows, dedupe)[k] != [] && IsTrimmed(Queries(rows, dedupe)[k])
  {
    var cells := Flatten(rows);
    var qs := AllCandidates(rows);
    CandidatesWellFormed(cells, |cells|);
    if dedupe {
      forall k | 0 <= k < |Dedup(qs)|
        ensures Dedup(qs)[k] != [] && IsTrimmed(Dedup(qs)[k])
      {
        DedupElements(qs);
        assert Dedup(qs)[k] in Elements(qs);
      }
    }
  }

  /** A value is a query exactly when it is non-empty and is the strip of some
      cell of some row: no query comes from nowhere and no cell is missed. */
  lemma QueriesExact(rows: seq<seq<string>>, dedupe: bool, x: string)
    ensures x in Queries(rows, dedupe) <==>
      x != [] && exists i, j :: 0 <= i < |rows| && 0 <= j < |rows[i]| && Strip(rows[i][j]) == x
  {
    var cells := Flatten(rows);
    var qs := AllCandidates(rows);
    DedupElements(qs);
    assert x in Queries(rows, dedupe) <==> x in Elements(qs);
    CandidatesMembers(cells, |cells|, x);
    if x in qs {
      var k :| 0 <= k < |cells| && Strip(cells[k]) == x;
      FlattenMembers(rows, cells[k]);
    } else if x != [] && exists i, j :: 0 <= i < |rows| && 0 <= j < |rows[i]| && Strip(rows[i][j]) == x {
      var i, j :| 0 <= i < |rows| && 0 <= j < |rows[i]| && Strip(rows[i][j]) == x;
      FlattenAt(rows, i, j);
      assert false;
    }
  }

  /** The queries keep the row-major order of the candidates: with
      de-duplication they are a subsequence of them, without it they are them. */
  lemma QueriesSubsequence(rows: seq<seq<string>>, dedupe: bool)
    ensures IsSubsequence(Queries(rows, dedupe), AllCandidates(rows))
  {
    var qs := AllCandidates(rows);
    if dedupe {
      DedupSubsequence(qs);
    } else {
      var idx := seq(|qs|, k => k);
      assert Embeds(qs, qs, idx);
    }
  }
}
