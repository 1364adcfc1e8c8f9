/** `batch_search.py`'s `main`: after the existence check on the table, every
    query is acted on `times` times in a row (an HTTP request or a browser
    open, each followed by a delay), and every query ends with a longer delay.
    The network, the browser and the clock are recorded as events. */
module BatchSearch {
  import opened QueryCells

  /** The `--method` choice. */
  datatype SearchMethod = Head | Get | Browser

  /** The HTTP verb `hit_google_http` uses. */
  datatype Verb = HEAD | GET

  /** What `main` does to the outside world, in order. */
  datatype Event =
    | HttpRequest(query: string, verb: Verb)       // `hit_google_http(query, method)`
    | OpenBrowser(query: string, newMode: int)     // `open_google_browser(query, new)`
    | Delay                                        // the jittered sleep after every action
    | QueryDelay                                   // the jittered sleep after every query
    | NotFound(path: string)                       // the message on a missing table
    | Finished                                     // the closing "Finished."

  /** How often `range(times)` runs: never for a negative count. */
  function Reps(times: int): (n: nat)
    ensures times >= 0 ==> n == times
    ensures times < 0 ==> n == 0
  {
    if times < 0 then 0 else times
  }

  /** The one action taken for a query: a browser open in mode 1 (new window)
      or 2 (new tab) for BROWSER, otherwise an HTTP request with the chosen verb. */
  function Action(query: string, m: SearchMethod, newWindow: bool): (e: Event)
    ensures IsAction(e) && e.query == query
    ensures e.OpenBrowser? <==> m == Browser
    ensures e.OpenBrowser? ==> e.newMode == (if newWindow then 1 else 2)
    ensures e.HttpRequest? ==> (e.verb == HEAD <==> m == Head)
  {
    if m == Browser then OpenBrowser(query, if newWindow then 1 else 2)
    else HttpRequest(query, if m == Head then HEAD else GET)
  }

  /** `n` rounds of the inner loop for one query. */
  function Repeat(query: string, n: nat, m: SearchMethod, newWindow: bool): seq<Event>
  {
    if n == 0 then [] else Repeat(query, n - 1, m, newWindow) + [Action(query, m, newWindow), Delay]
  }

  /** Everything done for the queries `qs`, in order. */
  function Schedule(qs: seq<string>, times: int, m: SearchMethod, newWindow: bool): seq<Event>
  {
    if qs == [] then []
    else
      Schedule(qs[..|qs| - 1], times, m, newWindow)
      + Repeat(qs[|qs| - 1], Reps(times), m, newWindow) + [QueryDelay]
  }

  predicate IsAction(e: Event)
  {
    e.HttpRequest? || e.OpenBrowser?
  }

  /** The actions of a trace, with the delays and messages left out. */
  function Actions(t: seq<Event>): (a: seq<Event>)
  {
    if t == [] then []
    else Actions(t[..|t| - 1]) + (if IsAction(t[|t| - 1]) then [t[|t| - 1]] else [])
  }

  // ---------------------------------------------------------------------------
  // The driver, as a loop

  /** `main` on a file system that maps each existing path to the rows the
      reader gives for it: exit status 1 and a message for a missing table,
      otherwise the schedule over the queries of `iter_cells`. */
  method Run(files: map<string, seq<seq<string>>>, csv: string, times: int, noDedupe: bool,
             m: SearchMethod, newWindow: bool)
    returns (status: int, trace: seq<Event>)
    ensures csv !in files ==> status == 1 && trace == [NotFound(csv)]
    ensures csv in files ==>
      status == 0 && trace == Schedule(Queries(files[csv], !noDedupe), times, m, newWindow) + [Finished]
  {
    if csv !in files {
      return 1, [NotFound(csv)];
    }
    var queries := IterCells(files[csv], !noDedupe);
    trace := [];
    var i := 0;
    while i < |queries|
      invariant 0 <= i <= |queries|
      invariant trace == Schedule(queries[..i], times, m, newWindow)
    {
      var block := Rounds(queries[i], times, m, newWindow);
      assert queries[..i + 1][..i] == queries[..i];
      trace := trace + block + [QueryDelay];
      i := i + 1;
    }
    assert queries[..i] == queries;
    status := 0;
    trace := trace + [Finished];
  }

  /** The inner loop of `main` for one query: `times` actions, each followed
      by a delay. */
  method Rounds(query: string, times: int, m: SearchMethod, newWindow: bool) returns (block: seq<Event>)
    ensures block == Repeat(query, Reps(times), m, newWindow)
  {
    block := [];
    var r := 0;
    while r < times
      invariant 0 <= r <= Reps(times)
      invariant block == Repeat(query, r, m, newWindow)
    {
      var action := if m == Browser then OpenBrowser(query, if newWindow then 1 else 2)
                    else HttpRequest(query, if m == Head then HEAD else GET);
      block := block + [action, Delay];
      r := r + 1;
    }
  }

  // ---------------------------------------------------------------------------
  // Properties of the schedule

  /** The actions of two traces one after the other. */
  lemma {:induction false} ActionsAppend(s: seq<Event>, t: seq<Event>)
    ensures Actions(s + t) == Actions(s) + Actions(t)
  {
    if t == [] {
      assert s + t == s;
    } else {
      var init := t[..|t| - 1];
      ActionsAppend(s, init);
      assert (s + t)[..|s + t| - 1] == s + init;
      assert (s + t)[|s + t| - 1] == t[|t| - 1];
    }
  }

  /** `n` copies of `e`. */
  function Copies(e: Event, n: nat): (c: seq<Event>)
    ensures |c| == n
  {
    if n == 0 then [] else Copies(e, n - 1) + [e]
  }

  /** Nothing but `e` is among `n` copies of `e`. */
  lemma {:induction false} CopiesOnly(e: Event, n: nat, x: Event)
    requires x in Copies(e, n)
    ensures x == e
  {
    if x != e {
      CopiesOnly(e, n - 1, x);
    }
  }

  /** A single event acts or not. */
  lemma ActionsOne(e: Event)
    ensures Actions([e]) == if IsAction(e) then [e] else []
  {
    assert [e][..0] == [];
  }

  /** One query's rounds hold `n` copies of its action and nothing else that
      acts. */
  lemma {:induction false} RepeatActions(query: string, n: nat, m: SearchMethod, newWindow: bool)
    ensures Actions(Repeat(query, n, m, newWindow)) == Copies(Action(query, m, newWindow), n)
  {
    if n > 0 {
      var a := Action(query, m, newWindow);
      var before := Repeat(query, n - 1, m, newWindow);
      RepeatActions(query, n - 1, m, newWindow);
      assert Repeat(query, n, m, newWindow) == before + ([a] + [Delay]);
      ActionsAppend(before, [a] + [Delay]);
      ActionsAppend([a], [Delay]);
      ActionsOne(a);
      ActionsOne(Delay);
    }
  }

  /** Where block `i` starts when every block has `n` elements: `i * n`,
      counted up so that the block proofs stay linear. */
  function BlockStart(i: nat, n: nat): nat
  {
    if i == 0 then 0 else BlockStart(i - 1, n) + n
  }

  lemma {:induction false} BlockStartIsProduct(i: nat, n: nat)
    ensures BlockStart(i, n) == i * n
  {
    if i > 0 {
      BlockStartIsProduct(i - 1, n);
      assert i * n == (i - 1) * n + n;
    }
  }

  /** Block `i` ends no later than block `k` starts, for `i < k`. */
  lemma {:induction false} BlockStartMonotone(i: nat, k: nat, n: nat)
    requires i < k
    ensures BlockStart(i, n) + n <= BlockStart(k, n)
  {
    if i < k - 1 {
      BlockStartMonotone(i, k - 1, n);
    }
  }

  /** `n` copies of the action of each query, query after query. */
  function Expected(qs: seq<string>, n: nat, m: SearchMethod, newWindow: bool): (e: seq<Event>)
    ensures |e| == BlockStart(|qs|, n)
  {
    if qs == [] then []
    else Expected(qs[..|qs| - 1], n, m, newWindow) + Copies(Action(qs[|qs| - 1], m, newWindow), n)
  }

  /** A slice that ends inside the left operand of a concatenation. */
  lemma SliceLeft(a: seq<Event>, b: seq<Event>, x: nat, y: nat)
    requires x <= y <= |a|
    ensures (a + b)[x..y] == a[x..y]
  {
  }

  /** The right operand of a concatenation, sliced back out. */
  lemma SliceRight(a: seq<Event>, b: seq<Event>)
    ensures (a + b)[|a|..|a| + |b|] == b
  {
  }

  /** Block `i` of `Expected(qs, n, ...)` is `n` copies of the action for `qs[i]`. */
  lemma {:induction false} ExpectedBlock(qs: seq<string>, n: nat, m: SearchMethod, newWindow: bool, i: nat)
    requires i < |qs|
    ensures BlockStart(i, n) + n <= BlockStart(|qs|, n)
    ensures Expected(qs, n, m, newWindow)[BlockStart(i, n) .. BlockStart(i, n) + n]
      == Copies(Action(qs[i], m, newWindow), n)
  {
    var init := qs[..|qs| - 1];
    var head := Expected(init, n, m, newWindow);
    var tail := Copies(Action(qs[|qs| - 1], m, newWindow), n);
    var start := BlockStart(i, n);
    assert Expected(qs, n, m, newWindow) == head + tail;
    BlockStartMonotone(i, |qs|, n);
    if i < |init| {
      ExpectedBlock(init, n, m, newWindow, i);
      SliceLeft(head, tail, start, start + n);
      assert qs[i] == init[i];
    } else {
      SliceRight(head, tail);
    }
  }

  /** The actions of the schedule are `Expected`. */
  lemma {:induction false} ScheduleExpected(qs: seq<string>, times: int, m: SearchMethod, newWindow: bool)
    ensures Actions(Schedule(qs, times, m, newWindow)) == Expected(qs, Reps(times), m, newWindow)
  {
    if qs != [] {
      var n := Reps(times);
      var init := qs[..|qs| - 1];
      var q := qs[|qs| - 1];
      ScheduleExpected(init, times, m, newWindow);
      var before := Schedule(init, times, m, newWindow);
      var rep := Repeat(q, n, m, newWindow);
      ActionsAppend(before + rep, [QueryDelay]);
      ActionsAppend(before, rep);
      RepeatActions(q, n, m, newWindow);
      assert Actions([QueryDelay]) == [] by {
        assert [QueryDelay][..0] == [];
      }
    }
  }

  /** The schedule performs exactly `times` actions per query, none for a
      non-positive `times`. */
  lemma ScheduleActionCount(qs: seq<string>, times: int, m: SearchMethod, newWindow: bool)
    ensures |Actions(Schedule(qs, times, m, newWindow))| == |qs| * Reps(times)
  {
    ScheduleExpected(qs, times, m, newWindow);
    BlockStartIsProduct(|qs|, Reps(times));
  }

  /** The actions come query after query, in query order: actions
      `i * times` up to `(i + 1) * times` are all the action for query `i`. */
  lemma ScheduleActionBlock(qs: seq<string>, times: int, m: SearchMethod, newWindow: bool, i: nat)
    requires i < |qs|
    ensures i * Reps(times) + Reps(times) <= |Actions(Schedule(qs, times, m, newWindow))|
    ensures Actions(Schedule(qs, times, m, newWindow))[i * Reps(times) .. i * Reps(times) + Reps(times)]
      == Copies(Action(qs[i], m, newWindow), Reps(times))
  {
    ScheduleExpected(qs, times, m, newWindow);
    ExpectedBlock(qs, Reps(times), m, newWindow, i);
    BlockStartIsProduct(i, Reps(times));
  }

  /** Every action comes from one of the queries, with the method's kind. */
  lemma {:induction false} ActionsFromQueries(qs: seq<string>, times: int, m: SearchMethod, newWindow: bool, e: Event)
    requires e in Actions(Schedule(qs, times, m, newWindow))
    ensures exists q :: q in qs && e == Action(q, m, newWindow)
  {
    var init := qs[..|qs| - 1];
    var q := qs[|qs| - 1];
    var before := Schedule(init, times, m, newWindow);
    var rep := Repeat(q, Reps(times), m, newWindow);
    ActionsAppend(before + rep, [QueryDelay]);
    ActionsAppend(before, rep);
    RepeatActions(q, Reps(times), m, newWindow);
    assert Actions([QueryDelay]) == [] by {
      assert [QueryDelay][..0] == [];
    }
    if e in Actions(before) {
      ActionsFromQueries(init, times, m, newWindow, e);
      var p :| p in init && e == Action(p, m, newWindow);
      assert p in qs;
    } else {
      CopiesOnly(Action(q, m, newWindow), Reps(times), e);
    }
  }

  /** Every action is immediately followed by a delay. */
  predicate DelayAfterActions(t: seq<Event>)
  {
    forall i :: 0 <= i < |t| && IsAction(t[i]) ==> i + 1 < |t| && t[i + 1] == Delay
  }

  lemma DelayAfterActionsAppend(s: seq<Event>, t: seq<Event>)
    requires DelayAfterActions(s) && DelayAfterActions(t)
    ensures DelayAfterActions(s + t)
  {
    forall i | 0 <= i < |s + t| && IsAction((s + t)[i])
      ensures i + 1 < |s + t| && (s + t)[i + 1] == Delay
    {
      if i < |s| {
        assert (s + t)[i] == s[i];
      } else {
        assert (s + t)[i] == t[i - |s|];
      }
    }
  }

  /** Inside one query's rounds every action is followed by a delay. */
  lemma {:induction false} RepeatDelays(query: string, n: nat, m: SearchMethod, newWindow: bool)
    ensures DelayAfterActions(Repeat(query, n, m, newWindow))
  {
    if n > 0 {
      RepeatDelays(query, n - 1, m, newWindow);
      var a := Action(query, m, newWindow);
      assert DelayAfterActions([a, Delay]);
      DelayAfterActionsAppend(Repeat(query, n - 1, m, newWindow), [a, Delay]);
    }
  }

  /** Every action of the schedule is followed by a delay, and the schedule
      of a non-empty query list ends with the per-query delay. */
  lemma {:induction false} ScheduleDelays(qs: seq<string>, times: int, m: SearchMethod, newWindow: bool)
    ensures DelayAfterActions(Schedule(qs, times, m, newWindow))
    ensures qs != [] ==> Schedule(qs, times, m, newWindow)[|Schedule(qs, times, m, newWindow)| - 1] == QueryDelay
  {
    if qs != [] {
      var init := qs[..|qs| - 1];
      ScheduleDelays(init, times, m, newWindow);
      var before := Schedule(init, times, m, newWindow);
      var rep := Repeat(qs[|qs| - 1], Reps(times), m, newWindow);
      RepeatDelays(qs[|qs| - 1], Reps(times), m, newWindow);
      DelayAfterActionsAppend(before, rep);
      assert DelayAfterActions([QueryDelay]);
      DelayAfterActionsAppend(before + rep, [QueryDelay]);
    }
  }
}
