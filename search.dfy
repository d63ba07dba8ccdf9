/**
 * What `AlphaBetaAI` (js/alphabeta.js) computes, as functions on game values: scores with the
 * two infinities, the centre-first move order, the minimax value of a position, the fail-soft
 * contract that alpha-beta pruning keeps, and the move `findBestMove` picks. The engine class
 * in alphabeta.dfy is proved against these.
 */
module SearchModel {
  import opened Wrappers
  import opened Board
  import opened GameModel
  import opened Evaluation

  /** A search score: a number, or -Infinity / +Infinity as the source uses for open bounds. */
  datatype Score = NegInf | Fin(n: int) | PosInf

  predicate Le(a: Score, b: Score) {
    a == NegInf || b == PosInf || (a.Fin? && b.Fin? && a.n <= b.n)
  }

  predicate Lt(a: Score, b: Score) {
    !Le(b, a)
  }

  /** `Math.max`. */
  function Max(a: Score, b: Score): (m: Score)
    ensures Le(a, m) && Le(b, m) && (m == a || m == b)
  {
    if Le(a, b) then b else a
  }

  /** `Math.min`. */
  function Min(a: Score, b: Score): (m: Score)
    ensures Le(m, a) && Le(m, b) && (m == a || m == b)
  {
    if Le(a, b) then a else b
  }

  /** The order on scores is total and transitive, with -Infinity below and +Infinity above every number. */
  lemma ScoreOrder(a: Score, b: Score, c: Score)
    ensures Le(a, a) && (Le(a, b) || Le(b, a))
    ensures Le(a, b) && Le(b, a) ==> a == b
    ensures Le(a, b) && Le(b, c) ==> Le(a, c)
    ensures Le(NegInf, a) && Le(a, PosInf)
  {
  }

  // ----- Move ordering -----

  /** The sort key of `orderMoves`: the distance of a column from the centre column 3. */
  function CentreDistance(c: int): nat {
    if c < 3 then 3 - c else c - 3
  }

  predicate SortedByKey(s: seq<int>) {
    forall i, j :: 0 <= i < j < |s| ==> CentreDistance(s[i]) <= CentreDistance(s[j])
  }

  /** The elements of s whose key is k, in their order in s. */
  function Filter(s: seq<int>, k: nat): seq<int> {
    if s == [] then [] else Filter(s[..|s| - 1], k) + (if CentreDistance(s[|s| - 1]) == k then [s[|s| - 1]] else [])
  }

  /** Places x after every element whose key is at most CentreDistance(x): the step of a stable sort. */
  function Insert(s: seq<int>, x: int): (t: seq<int>)
    ensures |t| == |s| + 1
  {
    if s == [] || CentreDistance(s[|s| - 1]) <= CentreDistance(x) then s + [x]
    else Insert(s[..|s| - 1], x) + [s[|s| - 1]]
  }

  /**
   * `orderMoves`: `Array.prototype.sort` with the comparator |a-3| - |b-3|. The sort is
   * stable, so it is modelled by insertion sort, which keeps equal keys in input order.
   */
  function OrderMoves(ms: seq<int>): (out: seq<int>)
    ensures |out| == |ms|
  {
    if ms == [] then [] else Insert(OrderMoves(ms[..|ms| - 1]), ms[|ms| - 1])
  }

  lemma {:induction false} InsertPermutes(s: seq<int>, x: int)
    ensures multiset(Insert(s, x)) == multiset(s) + multiset{x}
  {
    if s != [] && CentreDistance(s[|s| - 1]) > CentreDistance(x) {
      InsertPermutes(s[..|s| - 1], x);
      assert s == s[..|s| - 1] + [s[|s| - 1]];
    }
  }

  lemma {:induction false} InsertBelow(s: seq<int>, x: int, b: nat)
    requires forall i :: 0 <= i < |s| ==> CentreDistance(s[i]) <= b
    requires CentreDistance(x) <= b
    ensures forall i :: 0 <= i < |Insert(s, x)| ==> CentreDistance(Insert(s, x)[i]) <= b
  {
    if s != [] && CentreDistance(s[|s| - 1]) > CentreDistance(x) {
      InsertBelow(s[..|s| - 1], x, b);
    }
  }

  lemma {:induction false} InsertSorted(s: seq<int>, x: int)
    requires SortedByKey(s)
    ensures SortedByKey(Insert(s, x))
  {
    if s != [] && CentreDistance(s[|s| - 1]) > CentreDistance(x) {
      var init, y := s[..|s| - 1], s[|s| - 1];
      InsertSorted(init, x);
      InsertBelow(init, x, CentreDistance(y));
    }
  }

  lemma {:induction false} FilterAppend(a: seq<int>, b: seq<int>, k: nat)
    ensures Filter(a + b, k) == Filter(a, k) + Filter(b, k)
    decreases |b|
  {
    if b == [] {
      assert a + b == a;
    } else {
      var b' := b[..|b| - 1];
      FilterAppend(a, b', k);
      assert (a + b)[..|a + b| - 1] == a + b';
    }
  }

  lemma {:induction false} InsertFilter(s: seq<int>, x: int, k: nat)
    ensures Filter(Insert(s, x), k) == Filter(s, k) + (if CentreDistance(x) == k then [x] else [])
  {
    if s == [] || CentreDistance(s[|s| - 1]) <= CentreDistance(x) {
      FilterAppend(s, [x], k);
      assert Filter([x], k) == Filter([], k) + (if CentreDistance(x) == k then [x] else []);
    } else {
      var init, y := s[..|s| - 1], s[|s| - 1];
      InsertFilter(init, x, k);
      FilterAppend(Insert(init, x), [y], k);
      assert Filter([y], k) == Filter([], k) + (if CentreDistance(y) == k then [y] else []);
      assert s == init + [y];
      FilterAppend(init, [y], k);
    }
  }

  /**
   * `orderMoves` returns the same moves, centre columns first, and moves at the same distance
   * from the centre keep their relative order.
   */
  lemma {:induction false} OrderMovesSpec(ms: seq<int>)
    ensures multiset(OrderMoves(ms)) == multiset(ms)
    ensures SortedByKey(OrderMoves(ms))
    ensures forall k :: Filter(OrderMoves(ms), k) == Filter(ms, k)
  {
    if ms != [] {
      var init, x := ms[..|ms| - 1], ms[|ms| - 1];
      OrderMovesSpec(init);
      InsertPermutes(OrderMoves(init), x);
      InsertSorted(OrderMoves(init), x);
      assert ms == init + [x];
      forall k
        ensures Filter(OrderMoves(ms), k) == Filter(ms, k)
      {
        InsertFilter(OrderMoves(init), x, k);
      }
    }
  }


  // ----- Maximum, minimum and the root pick over a list of scores -----

  /** `Math.max` folded over vs from -Infinity: `maxScore` of a maximizing node. */
  function MaxOf(vs: seq<Score>): Score {
    if vs == [] then NegInf else Max(MaxOf(vs[..|vs| - 1]), vs[|vs| - 1])
  }

  /** `Math.min` folded over vs from +Infinity: `minScore` of a minimizing node. */
  function MinOf(vs: seq<Score>): Score {
    if vs == [] then PosInf else Min(MinOf(vs[..|vs| - 1]), vs[|vs| - 1])
  }

  /** The fold is the maximum: every score is at most it, and it is one of them (or -Infinity for none). */
  lemma {:induction false} MaxOfIsMax(vs: seq<Score>)
    ensures forall i :: 0 <= i < |vs| ==> Le(vs[i], MaxOf(vs))
    ensures MaxOf(vs) == NegInf || MaxOf(vs) in vs
  {
    if vs != [] {
      var init := vs[..|vs| - 1];
      MaxOfIsMax(init);
      forall i | 0 <= i < |init|
        ensures Le(vs[i], MaxOf(vs))
      {
        ScoreOrder(init[i], MaxOf(init), MaxOf(vs));
      }
      if MaxOf(vs) != vs[|vs| - 1] && MaxOf(vs) != NegInf {
        assert MaxOf(init) in init;
      }
    }
  }

  /** The fold is the minimum: every score is at least it, and it is one of them (or +Infinity for none). */
  lemma {:induction false} MinOfIsMin(vs: seq<Score>)
    ensures forall i :: 0 <= i < |vs| ==> Le(MinOf(vs), vs[i])
    ensures MinOf(vs) == PosInf || MinOf(vs) in vs
  {
    if vs != [] {
      var init := vs[..|vs| - 1];
      MinOfIsMin(init);
      forall i | 0 <= i < |init|
        ensures Le(MinOf(vs), vs[i])
      {
        ScoreOrder(MinOf(vs), MinOf(init), init[i]);
      }
      if MinOf(vs) != vs[|vs| - 1] && MinOf(vs) != PosInf {
        assert MinOf(init) in init;
      }
    }
  }

  /** Looking at more scores can only raise the maximum. */
  lemma {:induction false} MaxOfPrefix(vs: seq<Score>, i: nat)
    requires i <= |vs|
    ensures Le(MaxOf(vs[..i]), MaxOf(vs))
    decreases |vs| - i
  {
    if i == |vs| {
      assert vs[..i] == vs;
      ScoreOrder(MaxOf(vs), NegInf, NegInf);
    } else {
      MaxOfPrefix(vs, i + 1);
      assert vs[..i + 1][..i] == vs[..i];
      ScoreOrder(MaxOf(vs[..i]), MaxOf(vs[..i + 1]), MaxOf(vs));
    }
  }

  /** Looking at more scores can only lower the minimum. */
  lemma {:induction false} MinOfPrefix(vs: seq<Score>, i: nat)
    requires i <= |vs|
    ensures Le(MinOf(vs), MinOf(vs[..i]))
    decreases |vs| - i
  {
    if i == |vs| {
      assert vs[..i] == vs;
      ScoreOrder(MinOf(vs), NegInf, NegInf);
    } else {
      MinOfPrefix(vs, i + 1);
      assert vs[..i + 1][..i] == vs[..i];
      ScoreOrder(MinOf(vs), MinOf(vs[..i + 1]), MinOf(vs[..i]));
    }
  }

  /** One more score in the maximizing fold. */
  lemma MaxOfSnoc(vs: seq<Score>, i: nat)
    requires i < |vs|
    ensures MaxOf(vs[..i + 1]) == Max(MaxOf(vs[..i]), vs[i])
  {
    assert vs[..i + 1][..i] == vs[..i];
  }

  /** One more score in the minimizing fold. */
  lemma MinOfSnoc(vs: seq<Score>, i: nat)
    requires i < |vs|
    ensures MinOf(vs[..i + 1]) == Min(MinOf(vs[..i]), vs[i])
  {
    assert vs[..i + 1][..i] == vs[..i];
  }

  /**
   * The root loop of `findBestMove`: walking the moves ms with their scores vs, keep the
   * (move, score) pair whose score is strictly above every earlier one, starting from
   * (first, -Infinity) where `first` is `validMoves[0]`.
   */
  function Best(ms: seq<int>, vs: seq<Score>, first: int): (int, Score)
    requires |ms| == |vs|
  {
    if ms == [] then (first, NegInf)
    else
      var best := Best(ms[..|ms| - 1], vs[..|vs| - 1], first);
      if Lt(best.1, vs[|vs| - 1]) then (ms[|ms| - 1], vs[|vs| - 1]) else best
  }

  /** One more move in the root loop. */
  lemma BestSnoc(ms: seq<int>, vs: seq<Score>, k: nat, first: int)
    requires |ms| == |vs| && k < |ms|
    ensures var best := Best(ms[..k], vs[..k], first);
            Best(ms[..k + 1], vs[..k + 1], first) == if Lt(best.1, vs[k]) then (ms[k], vs[k]) else best
  {
    assert ms[..k + 1][..k] == ms[..k] && vs[..k + 1][..k] == vs[..k];
  }

  /** The root loop over all the moves. */
  lemma BestWhole(ms: seq<int>, vs: seq<Score>, first: int)
    requires |ms| == |vs|
    ensures Best(ms[..|ms|], vs[..|vs|], first) == Best(ms, vs, first)
  {
    assert ms[..|ms|] == ms && vs[..|vs|] == vs;
  }

  /**
   * The root loop finds the maximum score and the first move that reaches it; it keeps
   * `first` only when every score is -Infinity.
   */
  lemma {:induction false} BestIsFirstMax(ms: seq<int>, vs: seq<Score>, first: int)
    requires |ms| == |vs|
    ensures Best(ms, vs, first).1 == MaxOf(vs)
    ensures MaxOf(vs) == NegInf ==> Best(ms, vs, first).0 == first
    ensures MaxOf(vs) != NegInf ==>
            exists i :: 0 <= i < |ms| && ms[i] == Best(ms, vs, first).0 && vs[i] == MaxOf(vs) &&
                        forall j :: 0 <= j < i ==> Lt(vs[j], MaxOf(vs))
  {
    if ms != [] {
      var init, vinit := ms[..|ms| - 1], vs[..|vs| - 1];
      var best := Best(init, vinit, first);
      var m := MaxOf(vs);
      BestIsFirstMax(init, vinit, first);
      MaxOfIsMax(vinit);
      ScoreOrder(best.1, vs[|vs| - 1], NegInf);
      if Lt(best.1, vs[|vs| - 1]) {
        forall j | 0 <= j < |init|
          ensures Lt(vs[j], m)
        {
          assert vs[j] == vinit[j];
          ScoreOrder(vs[j], best.1, m);
        }
      } else if m != NegInf {
        var i :| 0 <= i < |init| && init[i] == best.0 && vinit[i] == best.1 &&
                 forall j :: 0 <= j < i ==> Lt(vinit[j], best.1);
        assert ms[i] == init[i] && vs[i] == vinit[i];
        assert forall j :: 0 <= j < i ==> vs[j] == vinit[j];
      }
    }
  }

  // ----- The minimax value -----

  /** The engine reads a hard-coded 7-by-6 board: the game must be at least that large. */
  predicate Fits7x6(s: State) {
    WF(s) && s.cols >= 7 && s.rows >= 6
  }

  /** The score of a finished game at the given remaining depth: 10000 + depth for a win, its negation for a loss, 0 for a draw. */
  function Terminal(s: State, depth: int, ai: Player): (v: int)
    ensures s.winner == Some(ai) ==> v == 10000 + depth
    ensures s.winner.Some? && s.winner != Some(ai) ==> v == -10000 - depth
    ensures s.winner == None ==> v == 0
  {
    if s.winner == Some(ai) then 10000 + depth
    else if s.winner != None then -10000 - depth
    else 0
  }

  /**
   * A win found with more depth left (sooner) scores higher than one found later, a loss found
   * sooner scores lower, and at any remaining depth a win beats a draw, which beats a loss.
   */
  lemma TerminalPrefersSooner(s: State, t: State, d1: int, d2: int, ai: Player)
    requires 0 <= d1 < d2
    ensures s.winner == Some(ai) ==> Terminal(s, d1, ai) < Terminal(s, d2, ai)
    ensures s.winner.Some? && s.winner != Some(ai) ==> Terminal(s, d1, ai) > Terminal(s, d2, ai)
    ensures s.winner == Some(ai) && t.winner == None ==> Terminal(s, d1, ai) > Terminal(t, d2, ai)
    ensures s.winner == None && t.winner.Some? && t.winner != Some(ai) ==> Terminal(s, d1, ai) > Terminal(t, d2, ai)
  {
  }

  /**
   * The plain minimax value that `minimax(state, depth, alpha, beta, maximizing, ai)` searches
   * for, without any pruning: what the pruned search is proved to agree with.
   */
  function Value(z: Zobrist, s: State, depth: nat, maximizing: bool, ai: Player): Score
    requires Fits7x6(s)
    decreases depth, 1
  {
    if s.gameOver then Fin(Terminal(s, depth, ai))
    else if depth == 0 then Fin(Evaluation.BoardScore(s.grid, ai))
    else if maximizing then MaxOf(Children(z, s, OrderMoves(ValidMoves(s)), depth - 1, false, ai))
    else MinOf(Children(z, s, OrderMoves(ValidMoves(s)), depth - 1, true, ai))
  }

  /** The values, searched to depth d, of the positions after each of the moves ms. */
  function Children(z: Zobrist, s: State, ms: seq<int>, d: nat, maximizing: bool, ai: Player): (vs: seq<Score>)
    requires Fits7x6(s)
    ensures |vs| == |ms|
    decreases d + 1, 0, |ms|
  {
    if ms == [] then []
    else Children(z, s, ms[..|ms| - 1], d, maximizing, ai) + [Value(z, Apply(z, s, ms[|ms| - 1]), d, maximizing, ai)]
  }

  /** Entry i of `Children` is the value of the position after move ms[i]. */
  lemma {:induction false} ChildrenAt(z: Zobrist, s: State, ms: seq<int>, d: nat, maximizing: bool, ai: Player)
    requires Fits7x6(s)
    ensures forall i :: 0 <= i < |ms| ==> Children(z, s, ms, d, maximizing, ai)[i] == Value(z, Apply(z, s, ms[i]), d, maximizing, ai)
  {
    if ms != [] {
      var init := ms[..|ms| - 1];
      var vs, vinit := Children(z, s, ms, d, maximizing, ai), Children(z, s, init, d, maximizing, ai);
      ChildrenAt(z, s, init, d, maximizing, ai);
      assert vs == vinit + [Value(z, Apply(z, s, ms[|ms| - 1]), d, maximizing, ai)];
      forall i | 0 <= i < |ms|
        ensures vs[i] == Value(z, Apply(z, s, ms[i]), d, maximizing, ai)
      {
        if i < |init| {
          assert ms[i] == init[i] && vs[i] == vinit[i];
          assert vinit[i] == Value(z, Apply(z, s, init[i]), d, maximizing, ai);
        } else {
          assert i == |ms| - 1;
        }
      }
    }
  }

  /** Entry i of `Children`, one index at a time. */
  lemma ChildAt(z: Zobrist, s: State, ms: seq<int>, d: nat, maximizing: bool, ai: Player, i: int)
    requires Fits7x6(s) && 0 <= i < |ms|
    ensures Children(z, s, ms, d, maximizing, ai)[i] == Value(z, Apply(z, s, ms[i]), d, maximizing, ai)
  {
    ChildrenAt(z, s, ms, d, maximizing, ai);
  }

  /** The value after move i is at most the fold of a maximizing node, and equals it where entry i is the maximum. */
  lemma MaxChild(z: Zobrist, s: State, ms: seq<int>, d: nat, ai: Player, i: int)
    requires Fits7x6(s) && 0 <= i < |ms|
    ensures var vs := Children(z, s, ms, d, false, ai);
            Le(Value(z, Apply(z, s, ms[i]), d, false, ai), MaxOf(vs)) &&
            (vs[i] == MaxOf(vs) ==> Value(z, Apply(z, s, ms[i]), d, false, ai) == MaxOf(vs))
  {
    ChildAt(z, s, ms, d, false, ai, i);
    MaxOfIsMax(Children(z, s, ms, d, false, ai));
  }

  /** The value after move i is at least the fold of a minimizing node, and equals it where entry i is the minimum. */
  lemma MinChild(z: Zobrist, s: State, ms: seq<int>, d: nat, ai: Player, i: int)
    requires Fits7x6(s) && 0 <= i < |ms|
    ensures var vs := Children(z, s, ms, d, true, ai);
            Le(MinOf(vs), Value(z, Apply(z, s, ms[i]), d, true, ai)) &&
            (vs[i] == MinOf(vs) ==> Value(z, Apply(z, s, ms[i]), d, true, ai) == MinOf(vs))
  {
    ChildAt(z, s, ms, d, true, ai, i);
    MinOfIsMin(Children(z, s, ms, d, true, ai));
  }

  /**
   * Over any ordering of the moves ms, the maximizing fold is at least the value after each
   * move and, for a nonempty ms, equal to the value after one of them.
   */
  lemma MaxOverMoves(z: Zobrist, s: State, ms: seq<int>, ordered: seq<int>, d: nat, ai: Player)
    requires Fits7x6(s) && multiset(ordered) == multiset(ms)
    ensures forall c :: c in ms ==> Le(Value(z, Apply(z, s, c), d, false, ai), MaxOf(Children(z, s, ordered, d, false, ai)))
    ensures ms != [] ==> exists c :: c in ms && MaxOf(Children(z, s, ordered, d, false, ai)) == Value(z, Apply(z, s, c), d, false, ai)
  {
    var vs := Children(z, s, ordered, d, false, ai);
    forall c | c in ms
      ensures Le(Value(z, Apply(z, s, c), d, false, ai), MaxOf(vs))
    {
      assert c in multiset(ordered);
      var i :| 0 <= i < |ordered| && ordered[i] == c;
      MaxChild(z, s, ordered, d, ai, i);
    }
    if ms != [] {
      assert ms[0] in multiset(ordered);
      MaxOfIsMax(vs);
      var i := 0;
      if MaxOf(vs) != NegInf {
        i :| 0 <= i < |vs| && vs[i] == MaxOf(vs);
      } else {
        ScoreOrder(vs[0], NegInf, NegInf);
      }
      MaxChild(z, s, ordered, d, ai, i);
      assert ordered[i] in multiset(ms);
    }
  }

  /**
   * Over any ordering of the moves ms, the minimizing fold is at most the value after each
   * move and, for a nonempty ms, equal to the value after one of them.
   */
  lemma MinOverMoves(z: Zobrist, s: State, ms: seq<int>, ordered: seq<int>, d: nat, ai: Player)
    requires Fits7x6(s) && multiset(ordered) == multiset(ms)
    ensures forall c :: c in ms ==> Le(MinOf(Children(z, s, ordered, d, true, ai)), Value(z, Apply(z, s, c), d, true, ai))
    ensures ms != [] ==> exists c :: c in ms && MinOf(Children(z, s, ordered, d, true, ai)) == Value(z, Apply(z, s, c), d, true, ai)
  {
    var vs := Children(z, s, ordered, d, true, ai);
    forall c | c in ms
      ensures Le(MinOf(vs), Value(z, Apply(z, s, c), d, true, ai))
    {
      assert c in multiset(ordered);
      var i :| 0 <= i < |ordered| && ordered[i] == c;
      MinChild(z, s, ordered, d, ai, i);
    }
    if ms != [] {
      assert ms[0] in multiset(ordered);
      MinOfIsMin(vs);
      var i := 0;
      if MinOf(vs) != PosInf {
        i :| 0 <= i < |vs| && vs[i] == MinOf(vs);
      } else {
        ScoreOrder(vs[0], PosInf, PosInf);
      }
      MinChild(z, s, ordered, d, ai, i);
      assert ordered[i] in multiset(ms);
    }
  }

  /**
   * At an unfinished maximizing node with depth d + 1, the value is at least the value after
   * every valid move and equal to the value after one of them; with no valid move it is -Infinity.
   */
  lemma ValueAtMaxNode(z: Zobrist, s: State, d: nat, ai: Player)
    requires Fits7x6(s) && !s.gameOver
    ensures forall c :: c in ValidMoves(s) ==> Le(Value(z, Apply(z, s, c), d, false, ai), Value(z, s, d + 1, true, ai))
    ensures ValidMoves(s) == [] ==> Value(z, s, d + 1, true, ai) == NegInf
    ensures ValidMoves(s) != [] ==>
              exists c :: c in ValidMoves(s) && Value(z, s, d + 1, true, ai) == Value(z, Apply(z, s, c), d, false, ai)
  {
    OrderMovesSpec(ValidMoves(s));
    MaxOverMoves(z, s, ValidMoves(s), OrderMoves(ValidMoves(s)), d, ai);
  }

  /**
   * At an unfinished minimizing node with depth d + 1, the value is at most the value after
   * every valid move and equal to the value after one of them; with no valid move it is +Infinity.
   */
  lemma ValueAtMinNode(z: Zobrist, s: State, d: nat, ai: Player)
    requires Fits7x6(s) && !s.gameOver
    ensures forall c :: c in ValidMoves(s) ==> Le(Value(z, s, d + 1, false, ai), Value(z, Apply(z, s, c), d, true, ai))
    ensures ValidMoves(s) == [] ==> Value(z, s, d + 1, false, ai) == PosInf
    ensures ValidMoves(s) != [] ==>
              exists c :: c in ValidMoves(s) && Value(z, s, d + 1, false, ai) == Value(z, Apply(z, s, c), d, true, ai)
  {
    OrderMovesSpec(ValidMoves(s));
    MinOverMoves(z, s, ValidMoves(s), OrderMoves(ValidMoves(s)), d, ai);
  }

  // ----- The fail-soft contract of alpha-beta -----

  /**
   * What a fail-soft alpha-beta search returns for a position of true value v searched with the
   * window (alpha, beta): a result at or below alpha is an upper bound on v, a result inside the
   * window is v itself, and a result at or above beta is a lower bound on v.
   */
  predicate FailSoft(r: Score, v: Score, alpha: Score, beta: Score) {
    (Le(r, alpha) ==> Le(v, r)) &&
    (Lt(alpha, r) && Lt(r, beta) ==> v == r) &&
    (Le(beta, r) ==> Le(r, v))
  }

  /** Searched with the full window (-Infinity, +Infinity), the result is the exact value. */
  lemma FullWindow(r: Score, v: Score)
    requires FailSoft(r, v, NegInf, PosInf)
    ensures r == v
  {
    if r == NegInf {
      assert Le(v, r);
    } else if r == PosInf {
      assert Le(r, v);
    }
  }

  /**
   * One child of a maximizing node: r is `maxScore`, a is `alpha`, p the true maximum over the
   * children searched so far, and the child searched with (a, beta) returned `score` for a true
   * value vi. Without a cut-off the loop facts carry over; with one, the result is a lower bound.
   */
  lemma MaxStep(alpha: Score, beta: Score, a: Score, r: Score, p: Score, vi: Score, score: Score)
    requires a == Max(alpha, r) && Lt(a, beta)
    requires Le(p, r) && (Lt(alpha, r) ==> p == r)
    requires FailSoft(score, vi, a, beta)
    ensures Max(a, score) == Max(alpha, Max(r, score))
    ensures Lt(Max(a, score), beta) ==> Le(Max(p, vi), Max(r, score))
    ensures Lt(alpha, Max(r, score)) && Lt(Max(a, score), beta) ==> Max(p, vi) == Max(r, score)
    ensures Le(beta, Max(a, score)) ==> Le(beta, Max(r, score)) && Le(Max(r, score), vi)
  {
    ScoreOrder(alpha, beta, r);
    ScoreOrder(a, score, beta);
    ScoreOrder(r, score, a);
    ScoreOrder(p, vi, score);
    ScoreOrder(alpha, r, score);
  }

  /** One child of a minimizing node: the mirror image of `MaxStep`, with b for `beta`. */
  lemma MinStep(alpha: Score, beta: Score, b: Score, r: Score, p: Score, vi: Score, score: Score)
    requires b == Min(beta, r) && Lt(alpha, b)
    requires Le(r, p) && (Lt(r, beta) ==> p == r)
    requires FailSoft(score, vi, alpha, b)
    ensures Min(b, score) == Min(beta, Min(r, score))
    ensures Lt(alpha, Min(b, score)) ==> Le(Min(r, score), Min(p, vi))
    ensures Lt(Min(r, score), beta) && Lt(alpha, Min(b, score)) ==> Min(p, vi) == Min(r, score)
    ensures Le(Min(b, score), alpha) ==> Le(Min(r, score), alpha) && Le(vi, Min(r, score))
  {
    ScoreOrder(alpha, beta, r);
    ScoreOrder(b, score, alpha);
    ScoreOrder(r, score, b);
    ScoreOrder(p, vi, score);
    ScoreOrder(beta, r, score);
  }

  /** A cut-off at or above beta is a fail-soft answer. */
  lemma CutHigh(alpha: Score, beta: Score, r: Score, v: Score)
    requires Lt(alpha, beta) && Le(beta, r) && Le(r, v)
    ensures FailSoft(r, v, alpha, beta)
  {
    ScoreOrder(alpha, beta, r);
  }

  /** A cut-off at or below alpha is a fail-soft answer. */
  lemma CutLow(alpha: Score, beta: Score, r: Score, v: Score)
    requires Lt(alpha, beta) && Le(r, alpha) && Le(v, r)
    ensures FailSoft(r, v, alpha, beta)
  {
    ScoreOrder(r, alpha, beta);
  }

  /** A maximizing loop that ran to the end without a cut-off gives a fail-soft answer. */
  lemma MaxDone(alpha: Score, beta: Score, a: Score, r: Score, v: Score)
    requires a == Max(alpha, r) && Lt(a, beta)
    requires Le(v, r) && (Lt(alpha, r) ==> v == r)
    ensures FailSoft(r, v, alpha, beta)
  {
    ScoreOrder(alpha, r, beta);
    ScoreOrder(a, r, beta);
  }

  /** A minimizing loop that ran to the end without a cut-off gives a fail-soft answer. */
  lemma MinDone(alpha: Score, beta: Score, b: Score, r: Score, v: Score)
    requires b == Min(beta, r) && Lt(alpha, b)
    requires Le(r, v) && (Lt(r, beta) ==> v == r)
    ensures FailSoft(r, v, alpha, beta)
  {
    ScoreOrder(alpha, r, beta);
    ScoreOrder(alpha, b, r);
  }

  /**
   * The invariant of the maximizing loop of `minimax` after i children with true values vs:
   * `alpha` has been raised to `maxScore` (a == max(alpha, r)), the window is still open, and r
   * bounds the true maximum so far, equalling it once r is above the original alpha.
   */
  predicate MaxLoop(alpha: Score, beta: Score, a: Score, r: Score, vs: seq<Score>, i: nat) {
    i <= |vs| && a == Max(alpha, r) && Lt(a, beta) &&
    Le(MaxOf(vs[..i]), r) && (Lt(alpha, r) ==> MaxOf(vs[..i]) == r)
  }

  lemma MaxLoopStart(alpha: Score, beta: Score, vs: seq<Score>)
    requires Lt(alpha, beta)
    ensures MaxLoop(alpha, beta, alpha, NegInf, vs, 0)
  {
    assert vs[..0] == [];
    ScoreOrder(alpha, NegInf, NegInf);
  }

  /**
   * Searching child i with the window (a, beta) keeps the invariant, or cuts the node off with
   * a fail-soft answer for the whole node.
   */
  lemma MaxLoopStep(alpha: Score, beta: Score, a: Score, r: Score, vs: seq<Score>, i: nat, score: Score)
    requires MaxLoop(alpha, beta, a, r, vs, i) && i < |vs|
    requires FailSoft(score, vs[i], a, beta)
    ensures Lt(Max(a, score), beta) ==> MaxLoop(alpha, beta, Max(a, score), Max(r, score), vs, i + 1)
    ensures Le(beta, Max(a, score)) ==> FailSoft(Max(r, score), MaxOf(vs), alpha, beta)
  {
    MaxOfSnoc(vs, i);
    MaxStep(alpha, beta, a, r, MaxOf(vs[..i]), vs[i], score);
    if Le(beta, Max(a, score)) {
      var r' := Max(r, score);
      MaxOfPrefix(vs, i + 1);
      ScoreOrder(r', vs[i], MaxOf(vs[..i + 1]));
      ScoreOrder(r', MaxOf(vs[..i + 1]), MaxOf(vs));
      ScoreOrder(alpha, r, beta);
      CutHigh(alpha, beta, r', MaxOf(vs));
    }
  }

  /** A maximizing loop that visited every child without a cut-off answers fail-soft. */
  lemma MaxLoopEnd(alpha: Score, beta: Score, a: Score, r: Score, vs: seq<Score>)
    requires MaxLoop(alpha, beta, a, r, vs, |vs|)
    ensures FailSoft(r, MaxOf(vs), alpha, beta)
  {
    assert vs[..|vs|] == vs;
    MaxDone(alpha, beta, a, r, MaxOf(vs));
  }

  /** The invariant of the minimizing loop: the mirror image of `MaxLoop`, with b for `beta`. */
  predicate MinLoop(alpha: Score, beta: Score, b: Score, r: Score, vs: seq<Score>, i: nat) {
    i <= |vs| && b == Min(beta, r) && Lt(alpha, b) &&
    Le(r, MinOf(vs[..i])) && (Lt(r, beta) ==> MinOf(vs[..i]) == r)
  }

  lemma MinLoopStart(alpha: Score, beta: Score, vs: seq<Score>)
    requires Lt(alpha, beta)
    ensures MinLoop(alpha, beta, beta, PosInf, vs, 0)
  {
    assert vs[..0] == [];
    ScoreOrder(beta, PosInf, PosInf);
  }

  lemma MinLoopStep(alpha: Score, beta: Score, b: Score, r: Score, vs: seq<Score>, i: nat, score: Score)
    requires MinLoop(alpha, beta, b, r, vs, i) && i < |vs|
    requires FailSoft(score, vs[i], alpha, b)
    ensures Lt(alpha, Min(b, score)) ==> MinLoop(alpha, beta, Min(b, score), Min(r, score), vs, i + 1)
    ensures Le(Min(b, score), alpha) ==> FailSoft(Min(r, score), MinOf(vs), alpha, beta)
  {
    MinOfSnoc(vs, i);
    MinStep(alpha, beta, b, r, MinOf(vs[..i]), vs[i], score);
    if Le(Min(b, score), alpha) {
      var r' := Min(r, score);
      MinOfPrefix(vs, i + 1);
      ScoreOrder(MinOf(vs[..i + 1]), vs[i], r');
      ScoreOrder(MinOf(vs), MinOf(vs[..i + 1]), r');
      ScoreOrder(alpha, b, beta);
      CutLow(alpha, beta, r', MinOf(vs));
    }
  }

  lemma MinLoopEnd(alpha: Score, beta: Score, b: Score, r: Score, vs: seq<Score>)
    requires MinLoop(alpha, beta, b, r, vs, |vs|)
    ensures FailSoft(r, MinOf(vs), alpha, beta)
  {
    assert vs[..|vs|] == vs;
    MinDone(alpha, beta, b, r, MinOf(vs));
  }

  // ----- The move findBestMove picks -----

  /** Moving in column m as player p wins the game at once. */
  predicate WinningMove(z: Zobrist, s: State, m: int, p: Player)
    requires WF(s)
  {
    Apply(z, s.(current := p), m).winner == Some(p)
  }

  /** None of the first i moves of ms wins at once for p. */
  predicate NoWinBefore(z: Zobrist, s: State, ms: seq<int>, i: int, p: Player)
    requires WF(s) && 0 <= i <= |ms|
  {
    forall j :: 0 <= j < i ==> !WinningMove(z, s, ms[j], p)
  }

  /** A move that does not win extends `NoWinBefore` by one. */
  lemma NoWinStep(z: Zobrist, s: State, ms: seq<int>, i: int, p: Player)
    requires WF(s) && 0 <= i < |ms| && NoWinBefore(z, s, ms, i, p) && !WinningMove(z, s, ms[i], p)
    ensures NoWinBefore(z, s, ms, i + 1, p)
  {
  }

  /** The first of the moves ms that wins at once for p: the win and block checks of `findBestMove`. */
  function FirstWinning(z: Zobrist, s: State, ms: seq<int>, p: Player): Option<int>
    requires WF(s)
  {
    if ms == [] then None
    else if WinningMove(z, s, ms[0], p) then Some(ms[0])
    else FirstWinning(z, s, ms[1..], p)
  }

  /** The checks find nothing exactly when no move wins at once, and what they find is a winning move of ms. */
  lemma {:induction false} FirstWinningSpec(z: Zobrist, s: State, ms: seq<int>, p: Player)
    requires WF(s)
    ensures FirstWinning(z, s, ms, p) == None <==> forall i :: 0 <= i < |ms| ==> !WinningMove(z, s, ms[i], p)
    ensures FirstWinning(z, s, ms, p).Some? ==> FirstWinning(z, s, ms, p).value in ms &&
                                                 WinningMove(z, s, FirstWinning(z, s, ms, p).value, p)
  {
    if ms != [] && !WinningMove(z, s, ms[0], p) {
      FirstWinningSpec(z, s, ms[1..], p);
      assert forall i :: 1 <= i < |ms| ==> ms[i] == ms[1..][i - 1];
    }
  }

  /** If no move before index i wins and ms[i] does, the checks stop at ms[i]. */
  lemma {:induction false} FirstWinningAt(z: Zobrist, s: State, ms: seq<int>, i: int, p: Player)
    requires WF(s) && 0 <= i < |ms|
    requires forall j :: 0 <= j < i ==> !WinningMove(z, s, ms[j], p)
    requires WinningMove(z, s, ms[i], p)
    ensures FirstWinning(z, s, ms, p) == Some(ms[i])
  {
    if i > 0 {
      assert forall j :: 0 <= j < i - 1 ==> ms[1..][j] == ms[j + 1];
      FirstWinningAt(z, s, ms[1..], i - 1, p);
    }
  }

  /** Over strictly increasing moves, no move smaller than the one the checks find wins at once. */
  lemma {:induction false} FirstWinningLeast(z: Zobrist, s: State, ms: seq<int>, p: Player)
    requires WF(s)
    requires forall i, j :: 0 <= i < j < |ms| ==> ms[i] < ms[j]
    ensures FirstWinning(z, s, ms, p).Some? ==>
              forall c :: c in ms && c < FirstWinning(z, s, ms, p).value ==> !WinningMove(z, s, c, p)
  {
    if ms != [] {
      if !WinningMove(z, s, ms[0], p) {
        FirstWinningLeast(z, s, ms[1..], p);
        forall c | c in ms && FirstWinning(z, s, ms, p).Some? && c < FirstWinning(z, s, ms, p).value
          ensures !WinningMove(z, s, c, p)
        {
          if c != ms[0] {
            var i :| 0 <= i < |ms| && ms[i] == c;
            assert ms[1..][i - 1] == c;
          }
        }
      }
    }
  }

  /** The move the root loop keeps is one of the moves it was given. */
  lemma BestInMoves(moves: seq<int>, vs: seq<Score>)
    requires moves != [] && |vs| == |moves|
    ensures Best(OrderMoves(moves), vs, moves[0]).0 in moves
  {
    var ordered := OrderMoves(moves);
    BestIsFirstMax(ordered, vs, moves[0]);
    OrderMovesSpec(moves);
    if MaxOf(vs) != NegInf {
      var i :| 0 <= i < |ordered| && ordered[i] == Best(ordered, vs, moves[0]).0;
      assert ordered[i] in multiset(ordered);
    }
  }

  /**
   * `findBestMove` on a position s with search depth `depth`: a move that wins at once for the
   * side to move, else one that blocks the opponent's immediate win, else the best-scoring
   * move of a search to depth - 1 below the root; None where the source returns `undefined`,
   * which happens exactly when there is no valid move. Any move returned is valid.
   */
  function Decide(z: Zobrist, s: State, depth: int): (r: Option<int>)
    requires Fits7x6(s) && depth >= 1
    ensures r == None <==> ValidMoves(s) == []
    ensures r.Some? ==> r.value in ValidMoves(s)
  {
    var moves := ValidMoves(s);
    FirstWinningSpec(z, s, moves, s.current);
    FirstWinningSpec(z, s, moves, Other(s.current));
    var win := FirstWinning(z, s, moves, s.current);
    if win.Some? then win
    else
      var block := FirstWinning(z, s, moves, Other(s.current));
      if block.Some? then block
      else if moves == [] then None
      else
        var ordered := OrderMoves(moves);
        var vs := Children(z, s, ordered, depth - 1, false, s.current);
        BestInMoves(moves, vs);
        Some(Best(ordered, vs, moves[0]).0)
  }

  /** A move that wins at once is always taken, before any block or search: the smallest such column. */
  lemma DecideWins(z: Zobrist, s: State, depth: int, m: int)
    requires Fits7x6(s) && depth >= 1
    requires m in ValidMoves(s) && WinningMove(z, s, m, s.current)
    ensures Decide(z, s, depth).Some? && WinningMove(z, s, Decide(z, s, depth).value, s.current)
    ensures forall c :: c in ValidMoves(s) && c < Decide(z, s, depth).value ==> !WinningMove(z, s, c, s.current)
  {
    FirstWinningLeast(z, s, ValidMoves(s), s.current);
    var moves := ValidMoves(s);
    var i :| 0 <= i < |moves| && moves[i] == m;
    FirstWinningSpec(z, s, moves, s.current);
    assert FirstWinning(z, s, moves, s.current).Some?;
  }

  /**
   * Without an immediate win, a move that stops the opponent's immediate win is taken: the
   * returned move is the smallest column the opponent would have won with.
   */
  lemma DecideBlocks(z: Zobrist, s: State, depth: int, m: int)
    requires Fits7x6(s) && depth >= 1
    requires forall c :: c in ValidMoves(s) ==> !WinningMove(z, s, c, s.current)
    requires m in ValidMoves(s) && WinningMove(z, s, m, Other(s.current))
    ensures Decide(z, s, depth).Some? && WinningMove(z, s, Decide(z, s, depth).value, Other(s.current))
    ensures forall c :: c in ValidMoves(s) && c < Decide(z, s, depth).value ==> !WinningMove(z, s, c, Other(s.current))
  {
    FirstWinningLeast(z, s, ValidMoves(s), Other(s.current));
    var moves := ValidMoves(s);
    var i :| 0 <= i < |moves| && moves[i] == m;
    assert forall j :: 0 <= j < |moves| ==> moves[j] in moves;
    FirstWinningSpec(z, s, moves, s.current);
    FirstWinningSpec(z, s, moves, Other(s.current));
    assert FirstWinning(z, s, moves, s.current) == None;
    assert FirstWinning(z, s, moves, Other(s.current)).Some?;
  }

  /** The move the root loop keeps sits at an index whose score is at least every other score. */
  lemma BestDominates(ms: seq<int>, vs: seq<Score>, first: int)
    requires |ms| == |vs| && first in ms
    ensures exists k :: 0 <= k < |ms| && ms[k] == Best(ms, vs, first).0 &&
                        forall i :: 0 <= i < |vs| ==> Le(vs[i], vs[k])
  {
    BestIsFirstMax(ms, vs, first);
    MaxOfIsMax(vs);
    var k :| 0 <= k < |ms| && ms[k] == Best(ms, vs, first).0 && (MaxOf(vs) != NegInf ==> vs[k] == MaxOf(vs));
    forall i | 0 <= i < |vs|
      ensures Le(vs[i], vs[k])
    {
      ScoreOrder(vs[i], MaxOf(vs), vs[k]);
    }
  }

  /** With no immediate win or block, the move is the one the root loop keeps. */
  lemma DecideSearches(z: Zobrist, s: State, depth: int)
    requires Fits7x6(s) && depth >= 1 && ValidMoves(s) != []
    requires forall c :: c in ValidMoves(s) ==> !WinningMove(z, s, c, s.current) && !WinningMove(z, s, c, Other(s.current))
    ensures var moves := ValidMoves(s);
            var ordered := OrderMoves(moves);
            Decide(z, s, depth) == Some(Best(ordered, Children(z, s, ordered, depth - 1, false, s.current), moves[0]).0)
  {
    var moves := ValidMoves(s);
    assert forall j :: 0 <= j < |moves| ==> moves[j] in moves;
    FirstWinningSpec(z, s, moves, s.current);
    FirstWinningSpec(z, s, moves, Other(s.current));
  }

  /**
   * With no immediate win or block, the move taken has the largest minimax value (with the
   * opponent to move, searched to depth - 1) among the valid moves: stated over the values of
   * the ordered moves, where `ChildrenAt` gives entry i as the value after move i and
   * `OrderMovesSpec` shows the ordered moves are the valid moves.
   */
  lemma DecideMaximizes(z: Zobrist, s: State, depth: int)
    requires Fits7x6(s) && depth >= 1 && ValidMoves(s) != []
    requires forall c :: c in ValidMoves(s) ==> !WinningMove(z, s, c, s.current) && !WinningMove(z, s, c, Other(s.current))
    ensures var ordered := OrderMoves(ValidMoves(s));
            var vs := Children(z, s, ordered, depth - 1, false, s.current);
            exists k :: 0 <= k < |ordered| && Decide(z, s, depth) == Some(ordered[k]) &&
                        forall i :: 0 <= i < |vs| ==> Le(vs[i], vs[k])
  {
    var moves := ValidMoves(s);
    var ordered := OrderMoves(moves);
    var vs := Children(z, s, ordered, depth - 1, false, s.current);
    DecideSearches(z, s, depth);
    OrderMovesSpec(moves);
    assert moves[0] in multiset(ordered);
    BestDominates(ordered, vs, moves[0]);
    var k :| 0 <= k < |ordered| && ordered[k] == Best(ordered, vs, moves[0]).0 &&
             forall i :: 0 <= i < |vs| ==> Le(vs[i], vs[k]);
  }
}
