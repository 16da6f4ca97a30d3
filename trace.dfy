/** The event stream of the traced solver. Each event is the tuple
    (row, col, value, kind) the solver yields: an `Attempt` ('tentativa')
    right after a legal value is written, a `Backtrack` right after that
    value is taken back. A consumer that applies the events in order to the
    starting board sees exactly the solver's board (`Replay`); stopping after
    k events leaves the board `Replay(start, events[..k])`. */
module Trace {
  import opened Board

  datatype EventKind = Attempt | Backtrack

  datatype Event = Event(row: int, col: int, value: int, kind: EventKind)

  /** The board after one event: the cell takes the event's value. */
  function Apply(g: Grid, e: Event): Grid
  {
    if 0 <= e.row < |g| && 0 <= e.col < |g[e.row]| then Update(g, e.row, e.col, e.value) else g
  }

  /** The board after the events `es`, applied in order to `g`. */
  function Replay(g: Grid, es: seq<Event>): Grid
  {
    if es == [] then g else Apply(Replay(g, es[..|es| - 1]), es[|es| - 1])
  }

  /** Event `e` is one the solver may yield when the board before it is
      `before`: an attempt writes a legal value 1..N into an empty cell, a
      backtrack empties a filled cell. */
  predicate StepOk(before: Grid, b: nat, e: Event)
    requires b > 0
  {
    0 <= e.row < |before| && 0 <= e.col < |before[e.row]| &&
    match e.kind
    case Attempt =>
      before[e.row][e.col] == 0 && 1 <= e.value <= b * b && IsLegal(before, b, e.row, e.col, e.value)
    case Backtrack =>
      before[e.row][e.col] != 0 && e.value == 0
  }

  /** Every event of `es` is allowed on the board it is applied to. */
  predicate ValidTrace(g: Grid, b: nat, es: seq<Event>)
    requires b > 0
  {
    es == [] || (ValidTrace(g, b, es[..|es| - 1]) && StepOk(Replay(g, es[..|es| - 1]), b, es[|es| - 1]))
  }

  /** Every event of `es` is about a cell that is empty in `g`: the givens of
      `g` are never touched. */
  predicate TouchesOnlyEmpty(g: Grid, es: seq<Event>)
  {
    forall e :: e in es ==> 0 <= e.row < |g| && 0 <= e.col < |g[e.row]| && g[e.row][e.col] == 0
  }

  /** The number of events of `es` of the given kind about cell (r, c). */
  function Count(es: seq<Event>, kind: EventKind, r: int, c: int): nat
  {
    if es == [] then 0
    else
      var e := es[|es| - 1];
      Count(es[..|es| - 1], kind, r, c) + (if e.kind == kind && e.row == r && e.col == c then 1 else 0)
  }

  /** Every attempt at every cell is matched by a backtrack. */
  ghost predicate Balanced(es: seq<Event>)
  {
    forall r, c :: Count(es, Attempt, r, c) == Count(es, Backtrack, r, c)
  }

  /** Every cell empty in `g` has exactly one attempt more than backtracks,
      every given of `g` as many attempts as backtracks. */
  predicate OpenAtEmpty(g: Grid, es: seq<Event>)
  {
    forall r, c :: 0 <= r < |g| && 0 <= c < |g[r]| ==>
      Count(es, Attempt, r, c) == Count(es, Backtrack, r, c) + Indicator(g[r][c], true)
  }

  // ---------------------------------------------------------------------
  // Appending events

  lemma ReplaySnoc(g: Grid, es: seq<Event>, e: Event)
    ensures Replay(g, es + [e]) == Apply(Replay(g, es), e)
  {
    assert (es + [e])[..|es|] == es;
  }

  lemma ValidTraceSnoc(g: Grid, b: nat, es: seq<Event>, e: Event)
    requires b > 0
    ensures ValidTrace(g, b, es + [e]) <==> ValidTrace(g, b, es) && StepOk(Replay(g, es), b, e)
  {
    assert (es + [e])[..|es|] == es;
  }

  lemma CountSnoc(es: seq<Event>, e: Event)
    ensures forall kind, r, c ::
              Count(es + [e], kind, r, c)
              == Count(es, kind, r, c) + (if e.kind == kind && e.row == r && e.col == c then 1 else 0)
  {
    assert (es + [e])[..|es|] == es;
  }

  /** Replaying two pieces of a trace one after the other. */
  lemma {:induction false} ReplayAppend(g: Grid, x: seq<Event>, y: seq<Event>)
    ensures Replay(g, x + y) == Replay(Replay(g, x), y)
  {
    if y == [] {
      assert x + y == x;
    } else {
      var y', e := y[..|y| - 1], y[|y| - 1];
      assert y == y' + [e];
      assert x + y == (x + y') + [e];
      ReplaySnoc(g, x + y', e);
      ReplayAppend(g, x, y');
      ReplaySnoc(Replay(g, x), y', e);
    }
  }

  /** A trace is valid exactly when its first piece is valid from the start
      and its second piece is valid from the board the first one leaves. */
  lemma {:induction false} ValidTraceAppend(g: Grid, b: nat, x: seq<Event>, y: seq<Event>)
    requires b > 0
    ensures ValidTrace(g, b, x + y) <==> ValidTrace(g, b, x) && ValidTrace(Replay(g, x), b, y)
  {
    if y == [] {
      assert x + y == x;
    } else {
      var y', e := y[..|y| - 1], y[|y| - 1];
      assert y == y' + [e];
      assert x + y == (x + y') + [e];
      ValidTraceSnoc(g, b, x + y', e);
      ValidTraceAppend(g, b, x, y');
      ReplayAppend(g, x, y');
      ValidTraceSnoc(Replay(g, x), b, y', e);
    }
  }

  /** Event counts add up over concatenation. */
  lemma {:induction false} CountAppend(x: seq<Event>, y: seq<Event>)
    ensures forall kind, r, c :: Count(x + y, kind, r, c) == Count(x, kind, r, c) + Count(y, kind, r, c)
  {
    if y == [] {
      assert x + y == x;
    } else {
      var y', e := y[..|y| - 1], y[|y| - 1];
      assert y == y' + [e];
      assert x + y == (x + y') + [e];
      CountSnoc(x + y', e);
      CountAppend(x, y');
      CountSnoc(y', e);
    }
  }

  // ---------------------------------------------------------------------
  // What a valid trace guarantees about every board it passes through

  /** Events never change the shape of the board. */
  lemma {:induction false} ReplayKeepsShape(g: Grid, es: seq<Event>)
    ensures |Replay(g, es)| == |g|
    ensures forall r :: 0 <= r < |g| ==> |Replay(g, es)[r]| == |g[r]|
  {
    if es != [] {
      ReplayKeepsShape(g, es[..|es| - 1]);
    }
  }

  /** Replaying a valid trace from a consistent board leaves a consistent
      board: no row, column or block ever holds a duplicate. */
  lemma {:induction false} TraceKeepsConsistent(g: Grid, b: nat, es: seq<Event>)
    requires b > 0 && Consistent(g, b) && ValidTrace(g, b, es)
    ensures Consistent(Replay(g, es), b)
  {
    if es != [] {
      var es', e := es[..|es| - 1], es[|es| - 1];
      TraceKeepsConsistent(g, b, es');
      var before := Replay(g, es');
      match e.kind
      case Attempt => PlaceKeepsConsistent(before, b, e.row, e.col, e.value);
      case Backtrack => ClearKeepsConsistent(before, b, e.row, e.col);
    }
  }

  /** Replaying a valid trace keeps every value within [0, N]. */
  lemma {:induction false} TraceKeepsDomain(g: Grid, b: nat, es: seq<Event>)
    requires b > 0 && InDomain(g, b * b) && ValidTrace(g, b, es)
    ensures InDomain(Replay(g, es), b * b)
  {
    if es != [] {
      TraceKeepsDomain(g, b, es[..|es| - 1]);
    }
  }

  /** Every prefix of a valid trace is a valid trace. */
  lemma ValidTracePrefix(g: Grid, b: nat, es: seq<Event>, k: nat)
    requires b > 0 && ValidTrace(g, b, es) && k <= |es|
    ensures ValidTrace(g, b, es[..k])
  {
    assert es == es[..k] + es[k..];
    ValidTraceAppend(g, b, es[..k], es[k..]);
  }

  /** At every point of a valid trace from a consistent board -- in
      particular wherever a consumer stops pulling events -- the board is
      consistent. */
  lemma ConsistentAtEveryEvent(g: Grid, b: nat, es: seq<Event>, k: nat)
    requires b > 0 && Consistent(g, b) && ValidTrace(g, b, es) && k <= |es|
    ensures Consistent(Replay(g, es[..k]), b)
  {
    ValidTracePrefix(g, b, es, k);
    TraceKeepsConsistent(g, b, es[..k]);
  }

  /** What a consumer that has pulled k + 1 events sees: event k was allowed
      on the board the first k events left (an attempt of a legal value
      1..N into an empty cell, or a backtrack of a filled cell), and the
      board now shows the event's value in its cell. */
  lemma EventAsSeen(g: Grid, b: nat, es: seq<Event>, k: nat)
    requires b > 0 && ValidTrace(g, b, es) && k < |es|
    ensures StepOk(Replay(g, es[..k]), b, es[k])
    ensures Replay(g, es[..k + 1]) == Update(Replay(g, es[..k]), es[k].row, es[k].col, es[k].value)
  {
    ValidTracePrefix(g, b, es, k + 1);
    assert es[..k + 1][..k] == es[..k];
  }

  /** A trace that touches only empty cells keeps every given of `g`. */
  lemma {:induction false} UntouchedGivensKept(g: Grid, es: seq<Event>)
    requires TouchesOnlyEmpty(g, es)
    ensures Extends(Replay(g, es), g)
  {
    if es != [] {
      var es', e := es[..|es| - 1], es[|es| - 1];
      assert forall x :: x in es' ==> x in es;
      UntouchedGivensKept(g, es');
      ReplayKeepsShape(g, es');
      assert e in es;
    }
  }

  /** A valid trace from a consistent board with values in [0, N] that ends
      on a full board ends on a solution extending the start. */
  lemma SolvedTraceIsSolution(g: Grid, b: nat, es: seq<Event>)
    requires b > 0 && IsSquare(g, b * b) && InDomain(g, b * b) && Consistent(g, b)
    requires ValidTrace(g, b, es) && TouchesOnlyEmpty(g, es) && IsComplete(Replay(g, es))
    ensures IsSolution(Replay(g, es), b) && Extends(Replay(g, es), g)
  {
    ReplayKeepsShape(g, es);
    TraceKeepsConsistent(g, b, es);
    TraceKeepsDomain(g, b, es);
    UntouchedGivensKept(g, es);
  }

  // ---------------------------------------------------------------------
  // Bookkeeping for one candidate of the traced solver

  /** Attempt `v` at the empty cell (i, j), run a sub-search that fails and
      restores the board, then take `v` back: the trace stays valid and
      the board is as before. */
  lemma FailedCandidate(g: Grid, b: nat, es: seq<Event>, i: nat, j: nat, v: int, sub: seq<Event>)
    requires b > 0 && i < |g| && j < |g[i]| && g[i][j] == 0 && 1 <= v <= b * b && IsLegal(g, b, i, j, v)
    requires ValidTrace(g, b, es) && Replay(g, es) == g
    requires ValidTrace(Update(g, i, j, v), b, sub) && Replay(Update(g, i, j, v), sub) == Update(g, i, j, v)
    ensures var es' := es + [Event(i, j, v, Attempt)] + sub + [Event(i, j, 0, Backtrack)];
      ValidTrace(g, b, es') && Replay(g, es') == g
  {
    var p := Update(g, i, j, v);
    var attempt, undo := Event(i, j, v, Attempt), Event(i, j, 0, Backtrack);
    var pre := es + [attempt];
    ValidTraceSnoc(g, b, es, attempt);
    ReplaySnoc(g, es, attempt);
    ValidTraceAppend(g, b, pre, sub);
    ReplayAppend(g, pre, sub);
    ValidTraceSnoc(g, b, pre + sub, undo);
    ReplaySnoc(g, pre + sub, undo);
    UndoRestores(g, i, j, v);
  }

  /** The same candidate, counted: it touches only cells empty in `g`, and
      its attempt and backtrack cancel, so attempts stay matched by
      backtracks. */
  lemma FailedCandidateCounts(g: Grid, es: seq<Event>, i: nat, j: nat, v: int, sub: seq<Event>)
    requires i < |g| && j < |g[i]| && g[i][j] == 0
    requires TouchesOnlyEmpty(g, es) && Balanced(es)
    requires TouchesOnlyEmpty(Update(g, i, j, v), sub) && Balanced(sub)
    ensures var es' := es + [Event(i, j, v, Attempt)] + sub + [Event(i, j, 0, Backtrack)];
      TouchesOnlyEmpty(g, es') && Balanced(es')
  {
    var attempt, undo := Event(i, j, v, Attempt), Event(i, j, 0, Backtrack);
    var pre := es + [attempt];
    CountSnoc(es, attempt);
    CountAppend(pre, sub);
    CountSnoc(pre + sub, undo);
  }

  /** Attempt `v` at the empty cell (i, j) and run a sub-search that
      succeeds: the trace stays valid and ends where the sub-search ends. */
  lemma SuccessfulCandidate(g: Grid, b: nat, es: seq<Event>, i: nat, j: nat, v: int, sub: seq<Event>)
    requires b > 0 && i < |g| && j < |g[i]| && g[i][j] == 0 && 1 <= v <= b * b && IsLegal(g, b, i, j, v)
    requires ValidTrace(g, b, es) && Replay(g, es) == g
    requires ValidTrace(Update(g, i, j, v), b, sub)
    ensures var es' := es + [Event(i, j, v, Attempt)] + sub;
      ValidTrace(g, b, es') && Replay(g, es') == Replay(Update(g, i, j, v), sub)
  {
    var attempt := Event(i, j, v, Attempt);
    var pre := es + [attempt];
    ValidTraceSnoc(g, b, es, attempt);
    ReplaySnoc(g, es, attempt);
    ValidTraceAppend(g, b, pre, sub);
    ReplayAppend(g, pre, sub);
  }

  /** The same candidate, counted: every cell empty in `g` ends with exactly
      one attempt more than backtracks, every given with as many. */
  lemma SuccessfulCandidateCounts(g: Grid, es: seq<Event>, i: nat, j: nat, v: int, sub: seq<Event>)
    requires i < |g| && j < |g[i]| && g[i][j] == 0 && v != 0
    requires TouchesOnlyEmpty(g, es) && Balanced(es)
    requires TouchesOnlyEmpty(Update(g, i, j, v), sub) && OpenAtEmpty(Update(g, i, j, v), sub)
    ensures var es' := es + [Event(i, j, v, Attempt)] + sub;
      TouchesOnlyEmpty(g, es') && OpenAtEmpty(g, es')
  {
    var attempt := Event(i, j, v, Attempt);
    var pre := es + [attempt];
    var p := Update(g, i, j, v);
    CountSnoc(es, attempt);
    CountAppend(pre, sub);
    forall r, c | 0 <= r < |g| && 0 <= c < |g[r]|
      ensures Count(pre + sub, Attempt, r, c) == Count(pre + sub, Backtrack, r, c) + Indicator(g[r][c], true)
    {
      if r == i && c == j {
        assert p[r][c] == v;
      } else {
        assert p[r][c] == g[r][c];
      }
    }
  }

  // ---------------------------------------------------------------------
  // The traced solver as a function: which events it yields, in which order

  /** The outcome of the traced solver on `g` and the events it yields: it
      works on the first empty cell in row-major order and tries 1..N there
      in ascending order; a full board succeeds with no events. */
  ghost function Search(g: Grid, b: nat): (r: (bool, seq<Event>))
    requires b > 0 && IsSquare(g, b * b)
    decreases CountCells(g, true), 1, 0
    ensures r.0 && r.1 == [] <==> IsComplete(g)
  {
    if IsComplete(g) then (true, [])
    else
      FirstEmptyExists(g);
      var i, j :| IsFirstEmpty(g, i, j);
      TryFrom(g, b, i, j, 1)
  }

  /** The traced solver at its first empty cell (i, j), from candidate `v`
      on: an illegal value is skipped silently; a legal one is attempted and
      searched below; a failed sub-search is backtracked and the next value
      tried; past N the cell has no candidate left. */
  ghost function TryFrom(g: Grid, b: nat, i: nat, j: nat, v: int): (r: (bool, seq<Event>))
    requires b > 0 && IsSquare(g, b * b) && i < b * b && j < b * b && g[i][j] == 0 && 1 <= v
    decreases CountCells(g, true), 0, b * b + 1 - v
    ensures r.0 ==> r.1 != []
  {
    if v > b * b then (false, [])
    else
      var rest := TryFrom(g, b, i, j, v + 1);
      if !IsLegal(g, b, i, j, v) then rest
      else
        CountCellsUpdate(g, i, j, v, true);
        var sub := Search(Update(g, i, j, v), b);
        if sub.0 then (true, [Event(i, j, v, Attempt)] + sub.1)
        else (rest.0, [Event(i, j, v, Attempt)] + sub.1 + [Event(i, j, 0, Backtrack)] + rest.1)
  }

  /** `r` with the events `es` yielded before it. */
  function After(es: seq<Event>, r: (bool, seq<Event>)): (bool, seq<Event>)
  {
    (r.0, es + r.1)
  }

  /** At the first empty cell the search starts with candidate 1. */
  lemma SearchAtFirstEmpty(g: Grid, b: nat, i: nat, j: nat)
    requires b > 0 && IsSquare(g, b * b) && i < b * b && j < b * b && g[i][j] == 0
    requires forall r, c :: 0 <= r < b * b && 0 <= c < b * b && (r < i || (r == i && c < j)) ==> g[r][c] != 0
    ensures Search(g, b) == TryFrom(g, b, i, j, 1)
  {
    assert IsFirstEmpty(g, i, j);
    var i', j' :| IsFirstEmpty(g, i', j') && Search(g, b) == TryFrom(g, b, i', j', 1);
    FirstEmptyUnique(g, i, j, i', j');
  }

  /** An illegal candidate yields nothing and moves on to the next. */
  lemma TryFromIllegal(g: Grid, b: nat, i: nat, j: nat, v: int)
    requires b > 0 && IsSquare(g, b * b) && i < b * b && j < b * b && g[i][j] == 0
    requires 1 <= v <= b * b && !IsLegal(g, b, i, j, v)
    ensures TryFrom(g, b, i, j, v) == TryFrom(g, b, i, j, v + 1)
  {
  }

  /** A legal candidate whose sub-search fails yields the attempt, the
      sub-search's events and the backtrack, then moves on. */
  lemma TryFromFailed(g: Grid, b: nat, i: nat, j: nat, v: int, es: seq<Event>)
    requires b > 0 && IsSquare(g, b * b) && i < b * b && j < b * b && g[i][j] == 0
    requires 1 <= v <= b * b && IsLegal(g, b, i, j, v) && !Search(Update(g, i, j, v), b).0
    ensures TryFrom(g, b, i, j, v)
         == (TryFrom(g, b, i, j, v + 1).0,
             [Event(i, j, v, Attempt)] + Search(Update(g, i, j, v), b).1 + [Event(i, j, 0, Backtrack)] + TryFrom(g, b, i, j, v + 1).1)
    ensures After(es, TryFrom(g, b, i, j, v))
         == After(es + [Event(i, j, v, Attempt)] + Search(Update(g, i, j, v), b).1 + [Event(i, j, 0, Backtrack)],
                  TryFrom(g, b, i, j, v + 1))
  {
    var sub := Search(Update(g, i, j, v), b).1;
    var rest := TryFrom(g, b, i, j, v + 1).1;
    var attempt, undo := Event(i, j, v, Attempt), Event(i, j, 0, Backtrack);
    assert TryFrom(g, b, i, j, v).1 == [attempt] + sub + [undo] + rest;
    assert es + ([attempt] + sub + [undo] + rest) == es + [attempt] + sub + [undo] + rest;
  }

  /** A legal candidate whose sub-search succeeds ends the search with the
      attempt followed by the sub-search's events. */
  lemma TryFromSolved(g: Grid, b: nat, i: nat, j: nat, v: int, es: seq<Event>)
    requires b > 0 && IsSquare(g, b * b) && i < b * b && j < b * b && g[i][j] == 0
    requires 1 <= v <= b * b && IsLegal(g, b, i, j, v) && Search(Update(g, i, j, v), b).0
    ensures TryFrom(g, b, i, j, v) == (true, [Event(i, j, v, Attempt)] + Search(Update(g, i, j, v), b).1)
    ensures After(es, TryFrom(g, b, i, j, v)) == (true, es + [Event(i, j, v, Attempt)] + Search(Update(g, i, j, v), b).1)
  {
    var sub := Search(Update(g, i, j, v), b).1;
    assert es + ([Event(i, j, v, Attempt)] + sub) == es + [Event(i, j, v, Attempt)] + sub;
  }

  /** Past N the search fails with the events already yielded. */
  lemma TryFromExhausted(g: Grid, b: nat, i: nat, j: nat, es: seq<Event>)
    requires b > 0 && IsSquare(g, b * b) && i < b * b && j < b * b && g[i][j] == 0
    ensures After(es, TryFrom(g, b, i, j, b * b + 1)) == (false, es)
  {
    assert es + [] == es;
  }

  /** What the traced solver guarantees about its outcome `r` on `g`: its
      events form a valid trace that touches only empty cells; on success
      they lead to a full board, leaving every empty cell with one attempt
      more than backtracks; on failure they restore the board and match
      every attempt with a backtrack. */
  ghost predicate Guaranteed(g: Grid, b: nat, r: (bool, seq<Event>))
    requires b > 0
  {
    ValidTrace(g, b, r.1) && TouchesOnlyEmpty(g, r.1) &&
    (r.0 ==> IsComplete(Replay(g, r.1)) && OpenAtEmpty(g, r.1)) &&
    (!r.0 ==> Replay(g, r.1) == g && Balanced(r.1))
  }

  /** The traced solver keeps its guarantees. */
  lemma {:induction false} SearchFacts(g: Grid, b: nat)
    requires b > 0 && IsSquare(g, b * b)
    decreases CountCells(g, true), 1, 0
    ensures Guaranteed(g, b, Search(g, b))
  {
    if IsComplete(g) {
      forall r, c | 0 <= r < |g| && 0 <= c < |g[r]|
        ensures Count([], Attempt, r, c) == Count([], Backtrack, r, c) + Indicator(g[r][c], true)
      {
      }
    } else {
      FirstEmptyExists(g);
      var i, j :| IsFirstEmpty(g, i, j);
      SearchAtFirstEmpty(g, b, i, j);
      TryFromFacts(g, b, i, j, 1);
    }
  }

  /** The same for the candidates from `v` on at the empty cell (i, j). */
  lemma {:induction false} TryFromFacts(g: Grid, b: nat, i: nat, j: nat, v: int)
    requires b > 0 && IsSquare(g, b * b) && i < b * b && j < b * b && g[i][j] == 0 && 1 <= v
    decreases CountCells(g, true), 0, b * b + 1 - v
    ensures Guaranteed(g, b, TryFrom(g, b, i, j, v))
  {
    if v > b * b {
      assert Balanced([]);
    } else {
      TryFromFacts(g, b, i, j, v + 1);
      if !IsLegal(g, b, i, j, v) {
        TryFromIllegal(g, b, i, j, v);
      } else {
        CountCellsUpdate(g, i, j, v, true);
        SearchFacts(Update(g, i, j, v), b);
        var sub := Search(Update(g, i, j, v), b);
        if sub.0 {
          TryFromSolved(g, b, i, j, v, []);
          CandidateSolvedFacts(g, b, i, j, v, sub.1);
        } else {
          TryFromFailed(g, b, i, j, v, []);
          CandidateFailedFacts(g, b, i, j, v, sub.1, TryFrom(g, b, i, j, v + 1));
        }
      }
    }
  }

  /** The traced solver is complete: when it fails, no solution agrees with
      the board. */
  lemma {:induction false} SearchRefutes(g: Grid, b: nat)
    requires b > 0 && IsSquare(g, b * b)
    decreases CountCells(g, true), 1, 0
    ensures !Search(g, b).0 ==> !Completable(g, b)
  {
    if !IsComplete(g) {
      FirstEmptyExists(g);
      var i, j :| IsFirstEmpty(g, i, j);
      SearchAtFirstEmpty(g, b, i, j);
      TryFromRefutes(g, b, i, j, 1);
      if !Search(g, b).0 {
        NoCandidateNotCompletable(g, b, i, j);
      }
    }
  }

  /** When the candidates from `v` on at the empty cell (i, j) all fail,
      none of them leads to a solution. */
  lemma {:induction false} TryFromRefutes(g: Grid, b: nat, i: nat, j: nat, v: int)
    requires b > 0 && IsSquare(g, b * b) && i < b * b && j < b * b && g[i][j] == 0 && 1 <= v
    decreases CountCells(g, true), 0, b * b + 1 - v
    ensures !TryFrom(g, b, i, j, v).0 ==> forall w :: v <= w <= b * b ==> !Completable(Update(g, i, j, w), b)
  {
    if v <= b * b {
      TryFromRefutes(g, b, i, j, v + 1);
      if !IsLegal(g, b, i, j, v) {
        TryFromIllegal(g, b, i, j, v);
        IllegalNotCompletable(g, b, i, j, v);
      } else {
        CountCellsUpdate(g, i, j, v, true);
        SearchRefutes(Update(g, i, j, v), b);
        if !Search(Update(g, i, j, v), b).0 {
          TryFromFailed(g, b, i, j, v, []);
        }
      }
    }
  }

  /** A legal candidate whose sub-search succeeds with the events `sub`:
      the attempt followed by `sub` keeps the guarantees. */
  lemma CandidateSolvedFacts(g: Grid, b: nat, i: nat, j: nat, v: int, sub: seq<Event>)
    requires b > 0 && i < |g| && j < |g[i]| && g[i][j] == 0 && 1 <= v <= b * b && IsLegal(g, b, i, j, v)
    requires Guaranteed(Update(g, i, j, v), b, (true, sub))
    ensures Guaranteed(g, b, (true, [Event(i, j, v, Attempt)] + sub))
  {
    assert [] + [Event(i, j, v, Attempt)] + sub == [Event(i, j, v, Attempt)] + sub;
    assert Balanced([]);
    SuccessfulCandidate(g, b, [], i, j, v, sub);
    SuccessfulCandidateCounts(g, [], i, j, v, sub);
  }

  /** A legal candidate whose sub-search fails with the events `sub`,
      followed by the remaining candidates' outcome `rest`: the attempt,
      `sub`, the backtrack and the rest keep the guarantees. */
  lemma CandidateFailedFacts(g: Grid, b: nat, i: nat, j: nat, v: int, sub: seq<Event>, rest: (bool, seq<Event>))
    requires b > 0 && i < |g| && j < |g[i]| && g[i][j] == 0 && 1 <= v <= b * b && IsLegal(g, b, i, j, v)
    requires Guaranteed(Update(g, i, j, v), b, (false, sub)) && Guaranteed(g, b, rest)
    ensures Guaranteed(g, b, (rest.0, [Event(i, j, v, Attempt)] + sub + [Event(i, j, 0, Backtrack)] + rest.1))
  {
    var step := [Event(i, j, v, Attempt)] + sub + [Event(i, j, 0, Backtrack)];
    assert [] + [Event(i, j, v, Attempt)] + sub + [Event(i, j, 0, Backtrack)] == step;
    assert Balanced([]);
    FailedCandidate(g, b, [], i, j, v, sub);
    FailedCandidateCounts(g, [], i, j, v, sub);
    ValidTraceAppend(g, b, step, rest.1);
    ReplayAppend(g, step, rest.1);
    CountAppend(step, rest.1);
  }

  // ---------------------------------------------------------------------
  // The order of the traced solver's attempts

  /** Every attempt in `es` is at the first empty cell, in row-major order,
      of the board the consumer sees just before it. */
  ghost predicate AttemptsAtFirstEmpty(g: Grid, es: seq<Event>)
  {
    forall p :: 0 <= p < |es| && es[p].kind == Attempt ==> IsFirstEmpty(Replay(g, es[..p]), es[p].row, es[p].col)
  }

  /** Attempts at the first empty cell, over two pieces of a trace. */
  lemma AttemptsAppend(g: Grid, x: seq<Event>, y: seq<Event>)
    requires AttemptsAtFirstEmpty(g, x) && AttemptsAtFirstEmpty(Replay(g, x), y)
    ensures AttemptsAtFirstEmpty(g, x + y)
  {
    forall p | 0 <= p < |x + y| && (x + y)[p].kind == Attempt
      ensures IsFirstEmpty(Replay(g, (x + y)[..p]), (x + y)[p].row, (x + y)[p].col)
    {
      if p < |x| {
        assert (x + y)[..p] == x[..p];
      } else {
        var q := p - |x|;
        assert (x + y)[..p] == x + y[..q];
        ReplayAppend(g, x, y[..q]);
      }
    }
  }

  /** Every attempt of the traced solver is at the first empty cell of the
      board it is made on. */
  lemma {:induction false} SearchAttempts(g: Grid, b: nat)
    requires b > 0 && IsSquare(g, b * b)
    decreases CountCells(g, true), 1, 0
    ensures AttemptsAtFirstEmpty(g, Search(g, b).1)
  {
    if !IsComplete(g) {
      FirstEmptyExists(g);
      var i, j :| IsFirstEmpty(g, i, j);
      SearchAtFirstEmpty(g, b, i, j);
      TryFromAttempts(g, b, i, j, 1);
    }
  }

  /** The same for the candidate loop at the first empty cell (i, j). */
  lemma {:induction false} TryFromAttempts(g: Grid, b: nat, i: nat, j: nat, v: int)
    requires b > 0 && IsSquare(g, b * b) && i < b * b && j < b * b && IsFirstEmpty(g, i, j) && 1 <= v
    decreases CountCells(g, true), 0, b * b + 1 - v
    ensures AttemptsAtFirstEmpty(g, TryFrom(g, b, i, j, v).1)
  {
    if v <= b * b {
      TryFromAttempts(g, b, i, j, v + 1);
      if !IsLegal(g, b, i, j, v) {
        TryFromIllegal(g, b, i, j, v);
      } else {
        var attempt := Event(i, j, v, Attempt);
        CountCellsUpdate(g, i, j, v, true);
        SearchAttempts(Update(g, i, j, v), b);
        var sub := Search(Update(g, i, j, v), b);
        assert [attempt][..0] == [];
        assert AttemptsAtFirstEmpty(g, [attempt]);
        assert Replay(g, [attempt]) == Update(g, i, j, v) by {
          ReplaySnoc(g, [], attempt);
        }
        AttemptsAppend(g, [attempt], sub.1);
        if sub.0 {
          TryFromSolved(g, b, i, j, v, []);
        } else {
          TryFromFailed(g, b, i, j, v, []);
          SearchFacts(Update(g, i, j, v), b);
          var undo := Event(i, j, 0, Backtrack);
          ReplayCandidate(g, [], i, j, v, sub.1);
          assert [] + [attempt] + sub.1 == [attempt] + sub.1;
          AttemptsAppend(g, [attempt] + sub.1, [undo]);
          assert [] + [attempt] + sub.1 + [undo] == [attempt] + sub.1 + [undo];
          AttemptsAppend(g, [attempt] + sub.1 + [undo], TryFrom(g, b, i, j, v + 1).1);
        }
      }
    }
  }

  /** At a cell, the first attempt from candidate `v` on is at the smallest
      legal value from `v` on: smaller values are skipped only when illegal.
      After a failed candidate the loop resumes at the next value, so the
      attempted values at a cell are the legal ones in ascending order. */
  lemma {:induction false} TryFromFirstAttempt(g: Grid, b: nat, i: nat, j: nat, v: int)
    requires b > 0 && IsSquare(g, b * b) && i < b * b && j < b * b && g[i][j] == 0 && 1 <= v
    decreases b * b + 1 - v
    ensures var es := TryFrom(g, b, i, j, v).1;
      es != [] ==>
        es[0] == Event(i, j, es[0].value, Attempt) && v <= es[0].value <= b * b &&
        IsLegal(g, b, i, j, es[0].value) && forall w :: v <= w < es[0].value ==> !IsLegal(g, b, i, j, w)
    ensures (exists w :: v <= w <= b * b && IsLegal(g, b, i, j, w)) ==> TryFrom(g, b, i, j, v).1 != []
  {
    if v <= b * b {
      TryFromFirstAttempt(g, b, i, j, v + 1);
      if !IsLegal(g, b, i, j, v) {
        TryFromIllegal(g, b, i, j, v);
      } else if Search(Update(g, i, j, v), b).0 {
        TryFromSolved(g, b, i, j, v, []);
      } else {
        TryFromFailed(g, b, i, j, v, []);
      }
    }
  }

  /** The board a consumer sees after the events of a candidate, given that
      the events before it left the board unchanged. */
  lemma ReplayCandidate(g: Grid, es: seq<Event>, i: nat, j: nat, v: int, sub: seq<Event>)
    requires i < |g| && j < |g[i]| && Replay(g, es) == g
    ensures Replay(g, es + [Event(i, j, v, Attempt)] + sub) == Replay(Update(g, i, j, v), sub)
    ensures g[i][j] == 0 && Replay(Update(g, i, j, v), sub) == Update(g, i, j, v) ==>
      Replay(g, es + [Event(i, j, v, Attempt)] + sub + [Event(i, j, 0, Backtrack)]) == g
  {
    var attempt := Event(i, j, v, Attempt);
    ReplaySnoc(g, es, attempt);
    ReplayAppend(g, es + [attempt], sub);
    ReplaySnoc(g, es + [attempt] + sub, Event(i, j, 0, Backtrack));
    if g[i][j] == 0 {
      UndoRestores(g, i, j, v);
    }
  }
}
