/** A 3 × 3 tic-tac-toe engine: board queries (whose turn, legal moves,
    winner, terminal, utility), the move transition, and an exhaustive
    minimax search whose evaluators stop early once the best value a player
    can hope for is reached.

    Boards are values: a move builds a new board and never changes its input. */
module TicTacToe {

  datatype Option<T> = None | Some(value: T)

  /** One square: a mark of the first player, of the second, or nothing. */
  datatype Cell = X | O | Empty

  /** A grid of any shape, as a caller may hand it to the engine. */
  type Grid = seq<seq<Cell>>

  /** The engine's shape guard: three rows of three cells. That every cell is
      X, O or Empty is already guaranteed by the type `Cell`. */
  predicate IsBoard(g: Grid)
  {
    |g| == 3 && |g[0]| == 3 && |g[1]| == 3 && |g[2]| == 3
  }

  type Board = g: Grid | IsBoard(g)
    witness [[Empty, Empty, Empty], [Empty, Empty, Empty], [Empty, Empty, Empty]]

  /** A move (row, column). Any pair may be asked for; only empty squares on
      the board are legal. */
  type Action = (int, int)

  predicate OnBoard(a: Action)
  {
    0 <= a.0 < 3 && 0 <= a.1 < 3
  }

  function At(b: Board, a: Action): Cell
    requires OnBoard(a)
  {
    b[a.0][a.1]
  }

  // ---------------------------------------------------------------------
  // The starting position

  function InitialState(): (r: Board)
    ensures forall a | OnBoard(a) :: At(r, a) == Empty
  {
    [[Empty, Empty, Empty], [Empty, Empty, Empty], [Empty, Empty, Empty]]
  }

  // ---------------------------------------------------------------------
  // Whose turn it is

  function Ind(c: Cell, m: Cell): nat
  {
    if c == m then 1 else 0
  }

  /** Number of squares of `row` holding `m`. */
  function CountRow(row: seq<Cell>, m: Cell): nat
  {
    if row == [] then 0 else CountRow(row[..|row| - 1], m) + Ind(row[|row| - 1], m)
  }

  /** Number of squares of `g` holding `m`. */
  function Count(g: Grid, m: Cell): nat
  {
    if g == [] then 0 else Count(g[..|g| - 1], m) + CountRow(g[|g| - 1], m)
  }

  /** The mark of the player to move: X unless X has placed more marks than O. */
  function NextMark(b: Board): Cell
  {
    if Count(b, X) <= Count(b, O) then X else O
  }

  /** `player`: None stands for the error raised on a grid that is not 3 × 3. */
  method Player(g: Grid) returns (r: Option<Cell>)
    ensures r.None? <==> !IsBoard(g)
    ensures r.Some? ==> (r.value == X <==> Count(g, X) <= Count(g, O))
    ensures r.Some? ==> (r.value == O <==> Count(g, O) < Count(g, X))
  {
    if !IsBoard(g) {
      return None;
    }
    var x, o := 0, 0;
    for i := 0 to |g|
      invariant x == Count(g[..i], X) && o == Count(g[..i], O)
    {
      for j := 0 to |g[i]|
        invariant x == Count(g[..i], X) + CountRow(g[i][..j], X)
        invariant o == Count(g[..i], O) + CountRow(g[i][..j], O)
      {
        if g[i][j] == X {
          x := x + 1;
        } else if g[i][j] == O {
          o := o + 1;
        }
        assert g[i][..j + 1][..j] == g[i][..j];
      }
      assert g[i][..|g[i]|] == g[i];
      assert g[..i + 1][..i] == g[..i];
    }
    assert g[..|g|] == g;
    r := Some(if x <= o then X else O);
  }

  lemma CountRowOfThree(r: seq<Cell>, m: Cell)
    requires |r| == 3
    ensures CountRow(r, m) == Ind(r[0], m) + Ind(r[1], m) + Ind(r[2], m)
  {
    assert r[..2][..1] == r[..1];
    assert r[..1][..0] == [];
    assert CountRow(r[..1], m) == Ind(r[0], m);
    assert CountRow(r[..2], m) == Ind(r[0], m) + Ind(r[1], m);
  }

  lemma CountOfBoard(b: Board, m: Cell)
    ensures Count(b, m) == CountRow(b[0], m) + CountRow(b[1], m) + CountRow(b[2], m)
  {
    assert b[..2][..1] == b[..1];
    assert b[..1][..0] == [];
    assert Count(b[..1], m) == CountRow(b[0], m);
    assert Count(b[..2], m) == CountRow(b[0], m) + CountRow(b[1], m);
  }

  /** Mark counts consistent with alternating play started by X. */
  predicate Balanced(b: Board)
  {
    Count(b, O) <= Count(b, X) <= Count(b, O) + 1
  }

  // ---------------------------------------------------------------------
  // Legal moves

  /** The empty squares of `b`. */
  function EmptyCells(b: Board): (s: set<Action>)
    ensures forall a :: a in s <==> OnBoard(a) && At(b, a) == Empty
  {
    set i, j | 0 <= i < 3 && 0 <= j < 3 && b[i][j] == Empty :: (i, j)
  }

  /** `actions`: scans the board row by row and collects the empty squares. */
  method Actions(b: Board) returns (s: set<Action>)
    ensures forall a :: a in s <==> OnBoard(a) && At(b, a) == Empty
    ensures s == EmptyCells(b)
  {
    s := {};
    var rows, columns := |b|, |b[0]|;
    for i := 0 to rows
      invariant forall a :: a in s <==> 0 <= a.0 < i && 0 <= a.1 < 3 && At(b, a) == Empty
    {
      for j := 0 to columns
        invariant forall a :: a in s <==>
          ((0 <= a.0 < i && 0 <= a.1 < 3) || (a.0 == i && 0 <= a.1 < j)) && At(b, a) == Empty
      {
        if b[i][j] == Empty {
          s := s + {(i, j)};
        }
      }
    }
  }

  // ---------------------------------------------------------------------
  // The move transition

  /** `result`: None stands for the error raised when `a` is not a legal move
      (an occupied square or a pair off the board). Otherwise the board is the
      input with the player to move's mark on `a`. */
  function Result(b: Board, a: Action): (r: Option<Board>)
    ensures r.None? <==> !(OnBoard(a) && At(b, a) == Empty)
    ensures r.Some? ==> forall c | OnBoard(c) :: At(r.value, c) == if c == a then NextMark(b) else At(b, c)
    ensures r.Some? ==> EmptyCells(r.value) == EmptyCells(b) - {a}
    ensures r.Some? ==> |EmptyCells(r.value)| == |EmptyCells(b)| - 1
  {
    if a in EmptyCells(b) then
      var next: Board := b[a.0 := b[a.0][a.1 := NextMark(b)]];
      assert EmptyCells(next) == EmptyCells(b) - {a};
      assert EmptyCells(b) == EmptyCells(next) + {a};
      Some(next)
    else
      None
  }

  lemma CountRowUpdate(r: seq<Cell>, j: int, c: Cell, m: Cell)
    requires |r| == 3 && 0 <= j < 3
    ensures CountRow(r[j := c], m) == CountRow(r, m) - Ind(r[j], m) + Ind(c, m)
  {
    CountRowOfThree(r, m);
    CountRowOfThree(r[j := c], m);
  }

  lemma CountUpdate(b: Board, a: Action, c: Cell, m: Cell)
    requires OnBoard(a)
    ensures Count(b[a.0 := b[a.0][a.1 := c]], m) == Count(b, m) - Ind(At(b, a), m) + Ind(c, m)
  {
    var r: Board := b[a.0 := b[a.0][a.1 := c]];
    CountOfBoard(b, m);
    CountOfBoard(r, m);
    CountRowUpdate(b[a.0], a.1, c, m);
  }

  /** A legal move adds one mark of the player to move and removes one empty
      square; the other counts stay. */
  lemma ResultCounts(b: Board, a: Action, m: Cell)
    requires a in EmptyCells(b)
    ensures Count(Result(b, a).value, m) == Count(b, m) + Ind(NextMark(b), m) - Ind(Empty, m)
  {
    CountUpdate(b, a, NextMark(b), m);
  }

  /** Legal moves keep the counts consistent with alternating play and hand
      the turn to the other player. */
  lemma ResultAlternates(b: Board, a: Action)
    requires Balanced(b) && a in EmptyCells(b)
    ensures Balanced(Result(b, a).value)
    ensures NextMark(Result(b, a).value) != NextMark(b)
  {
    ResultCounts(b, a, X);
    ResultCounts(b, a, O);
  }

  /** The starting position: X to move, all nine squares free. */
  lemma InitialStateFacts()
    ensures Count(InitialState(), X) == 0 && Count(InitialState(), O) == 0
    ensures Balanced(InitialState()) && NextMark(InitialState()) == X
    ensures EmptyCells(InitialState()) ==
      {(0, 0), (0, 1), (0, 2), (1, 0), (1, 1), (1, 2), (2, 0), (2, 1), (2, 2)}
    ensures |EmptyCells(InitialState())| == 9
  {
    var b := InitialState();
    CountOfBoard(b, X);
    CountOfBoard(b, O);
    CountRowOfThree(b[0], X);
    CountRowOfThree(b[0], O);
    assert b[0] == b[1] == b[2];
  }

  // ---------------------------------------------------------------------
  // Lines and the winner

  /** The eight lines: rows 0-2, columns 3-5, the main diagonal 6 and the
      anti-diagonal 7. */
  function Line(k: int): (l: seq<Action>)
    requires 0 <= k < 8
    ensures |l| == 3 && OnBoard(l[0]) && OnBoard(l[1]) && OnBoard(l[2])
  {
    if k < 3 then [(k, 0), (k, 1), (k, 2)]
    else if k < 6 then [(0, k - 3), (1, k - 3), (2, k - 3)]
    else if k == 6 then [(0, 0), (1, 1), (2, 2)]
    else [(0, 2), (1, 1), (2, 0)]
  }

  /** Line `k` holds three copies of the non-empty mark `m`. */
  predicate Holds(b: Board, m: Cell, k: int)
    requires 0 <= k < 8
  {
    var l := Line(k);
    m != Empty && At(b, l[0]) == m && At(b, l[1]) == m && At(b, l[2]) == m
  }

  predicate HasLine(b: Board, m: Cell)
  {
    exists k | 0 <= k < 8 :: Holds(b, m, k)
  }

  predicate RowWon(b: Board, i: int)
    requires 0 <= i < 3
  {
    b[i][0] != Empty && b[i][0] == b[i][1] && b[i][0] == b[i][2]
  }

  predicate ColumnWon(b: Board, i: int)
    requires 0 <= i < 3
  {
    b[0][i] != Empty && b[0][i] == b[1][i] && b[0][i] == b[2][i]
  }

  /** The diagonal test grouped as the source groups it, `(A and B) or C`:
      the emptiness guard covers only the main diagonal. */
  predicate DiagonalTest(b: Board)
  {
    (b[1][1] != Empty && (b[1][1] == b[0][0] && b[1][1] == b[2][2]))
    || (b[1][1] == b[0][2] && b[1][1] == b[2][0])
  }

  /** The winner scan from step `i` on: row i, then column i, for each i in
      turn, then the diagonals. Empty stands for "no winner". */
  function ScanFrom(b: Board, i: nat): Cell
    requires i <= 3
    decreases 3 - i
  {
    if i == 3 then (if DiagonalTest(b) then b[1][1] else Empty)
    else if RowWon(b, i) then b[i][0]
    else if ColumnWon(b, i) then b[0][i]
    else ScanFrom(b, i + 1)
  }

  function WinnerOf(b: Board): Cell
  {
    ScanFrom(b, 0)
  }

  /** `winner`: the scan as a loop with early returns. */
  method Winner(b: Board) returns (w: Cell)
    ensures w == WinnerOf(b)
  {
    var h := |b|;
    for i := 0 to h
      invariant ScanFrom(b, i) == WinnerOf(b)
    {
      if b[i][0] != Empty && b[i][0] == b[i][1] && b[i][0] == b[i][2] {
        return b[i][0];
      } else if b[0][i] != Empty && b[0][i] == b[1][i] && b[0][i] == b[2][i] {
        return b[0][i];
      }
    }
    if (b[1][1] != Empty && (b[1][1] == b[0][0] && b[1][1] == b[2][2]))
       || (b[1][1] == b[0][2] && b[1][1] == b[2][0])
    {
      return b[1][1];
    }
    return Empty;
  }

  lemma {:induction false} ScanSound(b: Board, i: nat)
    requires i <= 3
    ensures ScanFrom(b, i) != Empty ==> HasLine(b, ScanFrom(b, i))
    decreases 3 - i
  {
    if i == 3 {
      if DiagonalTest(b) && b[1][1] != Empty {
        if b[1][1] == b[0][0] && b[1][1] == b[2][2] {
          assert Holds(b, b[1][1], 6);
        } else {
          assert Holds(b, b[1][1], 7);
        }
      }
    } else if RowWon(b, i) {
      assert Holds(b, b[i][0], i);
    } else if ColumnWon(b, i) {
      assert Holds(b, b[0][i], i + 3);
    } else {
      ScanSound(b, i + 1);
    }
  }

  lemma {:induction false} ScanComplete(b: Board, i: nat, m: Cell, k: int)
    requires i <= 3 && 0 <= k < 8 && Holds(b, m, k)
    requires k < 3 ==> i <= k
    requires 3 <= k < 6 ==> i <= k - 3
    ensures ScanFrom(b, i) != Empty
    decreases 3 - i
  {
    if i < 3 && !RowWon(b, i) && !ColumnWon(b, i) {
      ScanComplete(b, i + 1, m, k);
    }
  }

  /** A winner is reported only for a complete line of its mark. */
  lemma WinnerSound(b: Board)
    ensures WinnerOf(b) != Empty ==> HasLine(b, WinnerOf(b))
  {
    ScanSound(b, 0);
  }

  /** No winner is reported exactly when no line is complete. */
  lemma WinnerNone(b: Board)
    ensures WinnerOf(b) == Empty <==> !HasLine(b, X) && !HasLine(b, O)
  {
    ScanSound(b, 0);
    forall m, k | 0 <= k < 8 && Holds(b, m, k)
      ensures WinnerOf(b) != Empty
    {
      ScanComplete(b, 0, m, k);
    }
  }

  function Opponent(m: Cell): Cell
  {
    match m
    case X => O
    case O => X
    case Empty => Empty
  }

  /** When only one player has completed a line, that player is the winner,
      whatever the order of the checks. */
  lemma WinnerOnly(b: Board, m: Cell)
    requires HasLine(b, m) && !HasLine(b, Opponent(m))
    ensures WinnerOf(b) == m
  {
    WinnerNone(b);
    WinnerSound(b);
  }

  // ---------------------------------------------------------------------
  // End of the game

  function Terminal(b: Board): bool
  {
    |EmptyCells(b)| == 0 || WinnerOf(b) != Empty
  }

  /** The game is over exactly when every square is taken or some line is complete. */
  lemma TerminalIff(b: Board)
    ensures Terminal(b) <==>
      (forall a | OnBoard(a) :: At(b, a) != Empty) || HasLine(b, X) || HasLine(b, O)
  {
    WinnerNone(b);
    if forall a | OnBoard(a) :: At(b, a) != Empty {
      assert EmptyCells(b) == {};
    } else {
      var a :| OnBoard(a) && At(b, a) == Empty;
      assert a in EmptyCells(b);
    }
  }

  /** `utility`: None on a board where the game is not over. */
  function Utility(b: Board): (r: Option<int>)
    ensures r.None? <==> !Terminal(b)
    ensures r.Some? ==> -1 <= r.value <= 1
  {
    if !Terminal(b) then None
    else if WinnerOf(b) == X then Some(1)
    else if WinnerOf(b) == O then Some(-1)
    else Some(0)
  }

  /** What the score of a finished game means: 1 exactly when X is reported
      as winner, -1 exactly when O is, 0 exactly for a full board with no
      complete line. */
  lemma UtilityMeaning(b: Board)
    ensures Utility(b) == Some(1) <==> Terminal(b) && WinnerOf(b) == X
    ensures Utility(b) == Some(-1) <==> Terminal(b) && WinnerOf(b) == O
    ensures Utility(b) == Some(1) ==> HasLine(b, X)
    ensures Utility(b) == Some(-1) ==> HasLine(b, O)
    ensures Utility(b) == Some(0) <==> EmptyCells(b) == {} && !HasLine(b, X) && !HasLine(b, O)
  {
    WinnerSound(b);
    WinnerNone(b);
  }

  // ---------------------------------------------------------------------
  // Minimax values, as recursive definitions over the set of legal moves

  function Max(x: int, y: int): int
  {
    if x < y then y else x
  }

  function Min(x: int, y: int): int
  {
    if y < x then y else x
  }

  /** Value of `b` for X (the maximiser) under optimal play by both sides. */
  ghost function MaxValueOf(b: Board): (v: int)
    ensures -1 <= v <= 1
    decreases |EmptyCells(b)|, 1, 0
  {
    if Terminal(b) then Utility(b).value else MaxOver(b, EmptyCells(b))
  }

  /** Value of `b` when O (the minimiser) is to choose. */
  ghost function MinValueOf(b: Board): (v: int)
    ensures -1 <= v <= 1
    decreases |EmptyCells(b)|, 1, 0
  {
    if Terminal(b) then Utility(b).value else MinOver(b, EmptyCells(b))
  }

  /** The best value X can reach by one of the moves in `acts`; -2 (below
      every value) for no move. */
  ghost function MaxOver(b: Board, acts: set<Action>): (v: int)
    requires acts <= EmptyCells(b)
    ensures acts == {} ==> v == -2
    ensures acts != {} ==> -1 <= v <= 1
    ensures forall a {:trigger MinValueOf(Result(b, a).value)} | a in acts ::
      MinValueOf(Result(b, a).value) <= v
    decreases |EmptyCells(b)|, 0, |acts|
  {
    if acts == {} then -2
    else
      var a :| a in acts;
      Max(MinValueOf(Result(b, a).value), MaxOver(b, acts - {a}))
  }

  /** The best value O can reach by one of the moves in `acts`; 2 (above
      every value) for no move. */
  ghost function MinOver(b: Board, acts: set<Action>): (v: int)
    requires acts <= EmptyCells(b)
    ensures acts == {} ==> v == 2
    ensures acts != {} ==> -1 <= v <= 1
    ensures forall a {:trigger MaxValueOf(Result(b, a).value)} | a in acts ::
      v <= MaxValueOf(Result(b, a).value)
    decreases |EmptyCells(b)|, 0, |acts|
  {
    if acts == {} then 2
    else
      var a :| a in acts;
      Min(MaxValueOf(Result(b, a).value), MinOver(b, acts - {a}))
  }

  /** X's best value over a non-empty set of moves is reached by one of them. */
  lemma {:induction false} MaxOverAttained(b: Board, acts: set<Action>)
    requires acts <= EmptyCells(b) && acts != {}
    ensures exists a | a in acts :: MaxOver(b, acts) == MinValueOf(Result(b, a).value)
    decreases |acts|
  {
    forall x | x in acts && acts - {x} != {}
      ensures exists a | a in acts - {x} :: MaxOver(b, acts - {x}) == MinValueOf(Result(b, a).value)
    {
      MaxOverAttained(b, acts - {x});
    }
  }

  /** O's best value over a non-empty set of moves is reached by one of them. */
  lemma {:induction false} MinOverAttained(b: Board, acts: set<Action>)
    requires acts <= EmptyCells(b) && acts != {}
    ensures exists a | a in acts :: MinOver(b, acts) == MaxValueOf(Result(b, a).value)
    decreases |acts|
  {
    forall x | x in acts && acts - {x} != {}
      ensures exists a | a in acts - {x} :: MinOver(b, acts - {x}) == MaxValueOf(Result(b, a).value)
    {
      MinOverAttained(b, acts - {x});
    }
  }

  /** Adding moves can only raise X's best value. */
  lemma MaxOverMonotone(b: Board, s: set<Action>, t: set<Action>)
    requires s <= t <= EmptyCells(b)
    ensures MaxOver(b, s) <= MaxOver(b, t)
  {
    if s != {} {
      MaxOverAttained(b, s);
      var x :| x in s && MaxOver(b, s) == MinValueOf(Result(b, x).value);
      assert x in t;
    }
  }

  /** Adding moves can only lower O's best value. */
  lemma MinOverMonotone(b: Board, s: set<Action>, t: set<Action>)
    requires s <= t <= EmptyCells(b)
    ensures MinOver(b, t) <= MinOver(b, s)
  {
    if s != {} {
      MinOverAttained(b, s);
      var x :| x in s && MinOver(b, s) == MaxValueOf(Result(b, x).value);
      assert x in t;
    }
  }

  /** The fold does not depend on which move `:|` picks first: one more move
      is one more `max`, whichever order the moves come in. */
  lemma MaxOverAdd(b: Board, s: set<Action>, a: Action)
    requires s <= EmptyCells(b) && a in EmptyCells(b) && a !in s
    ensures MaxOver(b, s + {a}) == Max(MaxOver(b, s), MinValueOf(Result(b, a).value))
  {
    var t := s + {a};
    var w, u, fa := MaxOver(b, t), MaxOver(b, s), MinValueOf(Result(b, a).value);
    MaxOverMonotone(b, s, t);
    assert a in t;
    assert fa <= w;
    MaxOverAttained(b, t);
    var y :| y in t && w == MinValueOf(Result(b, y).value);
    if y != a {
      assert y in s;
      assert w <= u;
    }
    assert w == Max(u, fa);
  }

  lemma MinOverAdd(b: Board, s: set<Action>, a: Action)
    requires s <= EmptyCells(b) && a in EmptyCells(b) && a !in s
    ensures MinOver(b, s + {a}) == Min(MinOver(b, s), MaxValueOf(Result(b, a).value))
  {
    var t := s + {a};
    var w, u, fa := MinOver(b, t), MinOver(b, s), MaxValueOf(Result(b, a).value);
    MinOverMonotone(b, s, t);
    assert a in t;
    assert w <= fa;
    MinOverAttained(b, t);
    var y :| y in t && w == MaxValueOf(Result(b, y).value);
    if y != a {
      assert y in s;
      assert u <= w;
    }
    assert w == Min(u, fa);
  }

  /** Once some of the moves reach 1 no further move can do better: the early
      exit of the maximiser returns the value of the full fold. */
  lemma MaxOverTop(b: Board, s: set<Action>, t: set<Action>)
    requires s <= t <= EmptyCells(b) && MaxOver(b, s) == 1
    ensures MaxOver(b, t) == 1
  {
    MaxOverMonotone(b, s, t);
  }

  /** Once some of the moves reach -1 the minimiser's early exit is sound. */
  lemma MinOverBottom(b: Board, s: set<Action>, t: set<Action>)
    requires s <= t <= EmptyCells(b) && MinOver(b, s) == -1
    ensures MinOver(b, t) == -1
  {
    MinOverMonotone(b, s, t);
  }

  // ---------------------------------------------------------------------
  // The search as the source runs it: loops over the legal moves in an
  // arbitrary order, with an early exit. Each loop step is justified by a
  // lemma that carries the loop's invariant over one more move.

  /** Moving one action from the untried to the tried moves. */
  lemma TryOne(acts: set<Action>, rest: set<Action>, done: set<Action>, a: Action)
    requires done + rest == acts && done !! rest && a in rest
    ensures (done + {a}) + (rest - {a}) == acts && (done + {a}) !! (rest - {a})
    ensures a !in done && |rest - {a}| < |rest|
  {
  }

  lemma MaxValueStep(b: Board, done: set<Action>, a: Action, v: int, w: int)
    requires done <= EmptyCells(b) && a in EmptyCells(b) && a !in done
    requires v == MaxOver(b, done) && w == MinValueOf(Result(b, a).value)
    ensures Max(v, w) == MaxOver(b, done + {a})
    ensures Max(v, w) == 1 ==> MaxOver(b, EmptyCells(b)) == 1
  {
    MaxOverAdd(b, done, a);
    if Max(v, w) == 1 {
      MaxOverTop(b, done + {a}, EmptyCells(b));
    }
  }

  lemma MinValueStep(b: Board, done: set<Action>, a: Action, v: int, w: int)
    requires done <= EmptyCells(b) && a in EmptyCells(b) && a !in done
    requires v == MinOver(b, done) && w == MaxValueOf(Result(b, a).value)
    ensures Min(v, w) == MinOver(b, done + {a})
    ensures Min(v, w) == -1 ==> MinOver(b, EmptyCells(b)) == -1
  {
    MinOverAdd(b, done, a);
    if Min(v, w) == -1 {
      MinOverBottom(b, done + {a}, EmptyCells(b));
    }
  }

  /** `max_value`: the fold over the legal moves, stopping as soon as X is
      sure of a win. Whatever order the moves come in, the result is the
      value of the full fold. */
  method MaxValue(b: Board) returns (v: int)
    ensures v == MaxValueOf(b)
    decreases |EmptyCells(b)|
  {
    if Terminal(b) {
      return Utility(b).value;
    }
    v := -2;
    var acts := Actions(b);
    var rest, done := acts, {};
    while rest != {}
      invariant acts == EmptyCells(b) && done + rest == acts && done !! rest
      invariant v == MaxOver(b, done)
      decreases |rest|
    {
      var a :| a in rest;
      var w := MinValue(Result(b, a).value);
      TryOne(acts, rest, done, a);
      MaxValueStep(b, done, a, v, w);
      v := Max(v, w);
      rest, done := rest - {a}, done + {a};
      if v == 1 {
        return;
      }
    }
  }

  /** `min_value`: the fold over the legal moves, stopping as soon as O is
      sure of a win. Whatever order the moves come in, the result is the
      value of the full fold. */
  method MinValue(b: Board) returns (v: int)
    ensures v == MinValueOf(b)
    decreases |EmptyCells(b)|
  {
    if Terminal(b) {
      return Utility(b).value;
    }
    v := 2;
    var acts := Actions(b);
    var rest, done := acts, {};
    while rest != {}
      invariant acts == EmptyCells(b) && done + rest == acts && done !! rest
      invariant v == MinOver(b, done)
      decreases |rest|
    {
      var a :| a in rest;
      var w := MaxValue(Result(b, a).value);
      TryOne(acts, rest, done, a);
      MinValueStep(b, done, a, v, w);
      v := Min(v, w);
      rest, done := rest - {a}, done + {a};
      if v == -1 {
        return;
      }
    }
  }

  predicate Distinct(s: seq<Action>)
  {
    forall p, q | 0 <= p < q < |s| :: s[p] != s[q]
  }

  /** `order` lists the moves of `done`, each once. */
  ghost predicate Enumerates(order: seq<Action>, done: set<Action>)
  {
    Distinct(order) && forall x :: x in order <==> x in done
  }

  lemma EnumeratesAdd(order: seq<Action>, done: set<Action>, a: Action)
    requires Enumerates(order, done) && a !in done
    ensures Enumerates(order + [a], done + {a})
  {
    var order' := order + [a];
    assert forall p | 0 <= p < |order| :: order'[p] == order[p];
    assert order'[|order|] == a;
  }

  /** Moves of `order` that are all among the legal moves of `b`. */
  predicate Legal(b: Board, order: seq<Action>)
  {
    forall p | 0 <= p < |order| :: order[p] in EmptyCells(b)
  }

  /** `m` occurs in `order`, and every move listed before it gives X less
      than `res`. */
  ghost predicate FirstReachingMax(b: Board, order: seq<Action>, res: int, m: Action)
    requires Legal(b, order)
  {
    exists k | 0 <= k < |order| :: order[k] == m &&
      forall p | 0 <= p < k :: MinValueOf(Result(b, order[p]).value) < res
  }

  /** `m` occurs in `order`, and every move listed before it gives O more
      than `res`. */
  ghost predicate FirstReachingMin(b: Board, order: seq<Action>, res: int, m: Action)
    requires Legal(b, order)
  {
    exists k | 0 <= k < |order| :: order[k] == m &&
      forall p | 0 <= p < k :: res < MaxValueOf(Result(b, order[p]).value)
  }

  lemma FirstReachingMaxKeep(b: Board, order: seq<Action>, res: int, m: Action, a: Action)
    requires Legal(b, order) && a in EmptyCells(b)
    requires FirstReachingMax(b, order, res, m)
    ensures Legal(b, order + [a]) && FirstReachingMax(b, order + [a], res, m)
  {
    var order' := order + [a];
    assert forall p | 0 <= p < |order| :: order'[p] == order[p];
    var k :| 0 <= k < |order| && order[k] == m &&
      forall p | 0 <= p < k :: MinValueOf(Result(b, order[p]).value) < res;
    assert order'[k] == m;
  }

  lemma FirstReachingMinKeep(b: Board, order: seq<Action>, res: int, m: Action, a: Action)
    requires Legal(b, order) && a in EmptyCells(b)
    requires FirstReachingMin(b, order, res, m)
    ensures Legal(b, order + [a]) && FirstReachingMin(b, order + [a], res, m)
  {
    var order' := order + [a];
    assert forall p | 0 <= p < |order| :: order'[p] == order[p];
    var k :| 0 <= k < |order| && order[k] == m &&
      forall p | 0 <= p < k :: res < MaxValueOf(Result(b, order[p]).value);
    assert order'[k] == m;
  }

  lemma FirstReachingMaxNew(b: Board, order: seq<Action>, val: int, a: Action)
    requires Legal(b, order) && a in EmptyCells(b)
    requires forall p | 0 <= p < |order| :: MinValueOf(Result(b, order[p]).value) < val
    ensures Legal(b, order + [a]) && FirstReachingMax(b, order + [a], val, a)
  {
    var order' := order + [a];
    assert forall p | 0 <= p < |order| :: order'[p] == order[p];
    assert order'[|order|] == a;
  }

  lemma FirstReachingMinNew(b: Board, order: seq<Action>, val: int, a: Action)
    requires Legal(b, order) && a in EmptyCells(b)
    requires forall p | 0 <= p < |order| :: val < MaxValueOf(Result(b, order[p]).value)
    ensures Legal(b, order + [a]) && FirstReachingMin(b, order + [a], val, a)
  {
    var order' := order + [a];
    assert forall p | 0 <= p < |order| :: order'[p] == order[p];
    assert order'[|order|] == a;
  }

  /** What X's scan in `minimax` knows after trying the moves `done` in the
      order `order`: `res` is the best value among them and `move` the first
      move in that order to reach it. */
  ghost predicate MaxScan(b: Board, done: set<Action>, order: seq<Action>, res: int, move: Option<Action>)
    requires done <= EmptyCells(b)
  {
    && Enumerates(order, done)
    && Legal(b, order)
    && res == MaxOver(b, done)
    && (move.None? <==> done == {})
    && (move.Some? ==> move.value in done && MinValueOf(Result(b, move.value).value) == res)
    && (move.Some? ==> FirstReachingMax(b, order, res, move.value))
  }

  /** The same for O's scan, which looks for the smallest value. */
  ghost predicate MinScan(b: Board, done: set<Action>, order: seq<Action>, res: int, move: Option<Action>)
    requires done <= EmptyCells(b)
  {
    && Enumerates(order, done)
    && Legal(b, order)
    && res == MinOver(b, done)
    && (move.None? <==> done == {})
    && (move.Some? ==> move.value in done && MaxValueOf(Result(b, move.value).value) == res)
    && (move.Some? ==> FirstReachingMin(b, order, res, move.value))
  }

  /** One iteration of X's scan: the move replaces the running best only when
      it is strictly better. */
  lemma MaxScanStep(b: Board, done: set<Action>, order: seq<Action>, res: int, move: Option<Action>,
                    a: Action, val: int)
    requires done <= EmptyCells(b) && a in EmptyCells(b) && a !in done
    requires MaxScan(b, done, order, res, move)
    requires val == MinValueOf(Result(b, a).value)
    ensures MaxScan(b, done + {a}, order + [a],
                    if val > res then val else res, if val > res then Some(a) else move)
  {
    MaxOverAdd(b, done, a);
    EnumeratesAdd(order, done, a);
    if val > res {
      forall p | 0 <= p < |order|
        ensures MinValueOf(Result(b, order[p]).value) < val
      {
        assert order[p] in done;
      }
      FirstReachingMaxNew(b, order, val, a);
    } else {
      FirstReachingMaxKeep(b, order, res, move.value, a);
    }
  }

  lemma MinScanStep(b: Board, done: set<Action>, order: seq<Action>, res: int, move: Option<Action>,
                    a: Action, val: int)
    requires done <= EmptyCells(b) && a in EmptyCells(b) && a !in done
    requires MinScan(b, done, order, res, move)
    requires val == MaxValueOf(Result(b, a).value)
    ensures MinScan(b, done + {a}, order + [a],
                    if val < res then val else res, if val < res then Some(a) else move)
  {
    MinOverAdd(b, done, a);
    EnumeratesAdd(order, done, a);
    if val < res {
      forall p | 0 <= p < |order|
        ensures val < MaxValueOf(Result(b, order[p]).value)
      {
        assert order[p] in done;
      }
      FirstReachingMinNew(b, order, val, a);
    } else {
      FirstReachingMinKeep(b, order, res, move.value, a);
    }
  }

  /** At the end of X's scan the move found is optimal for X, and the first
      optimal one in the order tried. */
  lemma MaxScanDone(b: Board, order: seq<Action>, res: int, move: Option<Action>)
    requires MaxScan(b, EmptyCells(b), order, res, move)
    ensures move.None? <==> EmptyCells(b) == {}
    ensures move.Some? ==> move.value in EmptyCells(b)
    ensures Distinct(order) && forall a :: a in order <==> a in EmptyCells(b)
    ensures move.Some? ==>
      forall a | a in EmptyCells(b) ::
        MinValueOf(Result(b, a).value) <= MinValueOf(Result(b, move.value).value)
    ensures move.Some? ==>
      exists k | 0 <= k < |order| :: order[k] == move.value &&
        forall p | 0 <= p < k ::
          MinValueOf(Result(b, order[p]).value) < MinValueOf(Result(b, move.value).value)
    ensures !Terminal(b) ==>
      move.Some? && MinValueOf(Result(b, move.value).value) == MaxValueOf(b)
  {
    if move.Some? {
      assert FirstReachingMax(b, order, res, move.value);
    }
  }

  /** At the end of O's scan the move found is optimal for O, and the first
      optimal one in the order tried. */
  lemma MinScanDone(b: Board, order: seq<Action>, res: int, move: Option<Action>)
    requires MinScan(b, EmptyCells(b), order, res, move)
    ensures move.None? <==> EmptyCells(b) == {}
    ensures move.Some? ==> move.value in EmptyCells(b)
    ensures Distinct(order) && forall a :: a in order <==> a in EmptyCells(b)
    ensures move.Some? ==>
      forall a | a in EmptyCells(b) ::
        MaxValueOf(Result(b, move.value).value) <= MaxValueOf(Result(b, a).value)
    ensures move.Some? ==>
      exists k | 0 <= k < |order| :: order[k] == move.value &&
        forall p | 0 <= p < k ::
          MaxValueOf(Result(b, move.value).value) < MaxValueOf(Result(b, order[p]).value)
    ensures !Terminal(b) ==>
      move.Some? && MaxValueOf(Result(b, move.value).value) == MinValueOf(b)
  {
    if move.Some? {
      assert FirstReachingMin(b, order, res, move.value);
    }
  }

  /** The X branch of `minimax`: try every legal move, keep the first one
      whose value (O to move next) beats everything tried before it. */
  method MaximisingMove(b: Board) returns (move: Option<Action>, ghost order: seq<Action>)
    ensures move.None? <==> EmptyCells(b) == {}
    ensures move.Some? ==> move.value in EmptyCells(b)
    ensures MaxScan(b, EmptyCells(b), order, MaxOver(b, EmptyCells(b)), move)
  {
    move, order := None, [];
    var res := -2;
    var acts := Actions(b);
    var rest, done := acts, {};
    while rest != {}
      invariant acts == EmptyCells(b) && done + rest == acts && done !! rest
      invariant MaxScan(b, done, order, res, move)
      decreases |rest|
    {
      var a :| a in rest;
      var val := MinValue(Result(b, a).value);
      TryOne(acts, rest, done, a);
      MaxScanStep(b, done, order, res, move, a, val);
      if val > res {
        res, move := val, Some(a);
      }
      order := order + [a];
      rest, done := rest - {a}, done + {a};
    }
  }

  /** The O branch of `minimax`: try every legal move, keep the first one
      whose value (X to move next) is below everything tried before it. */
  method MinimisingMove(b: Board) returns (move: Option<Action>, ghost order: seq<Action>)
    ensures move.None? <==> EmptyCells(b) == {}
    ensures move.Some? ==> move.value in EmptyCells(b)
    ensures MinScan(b, EmptyCells(b), order, MinOver(b, EmptyCells(b)), move)
  {
    move, order := None, [];
    var res := 2;
    var acts := Actions(b);
    var rest, done := acts, {};
    while rest != {}
      invariant acts == EmptyCells(b) && done + rest == acts && done !! rest
      invariant MinScan(b, done, order, res, move)
      decreases |rest|
    {
      var a :| a in rest;
      var val := MaxValue(Result(b, a).value);
      TryOne(acts, rest, done, a);
      MinScanStep(b, done, order, res, move, a, val);
      if val < res {
        res, move := val, Some(a);
      }
      order := order + [a];
      rest, done := rest - {a}, done + {a};
    }
  }

  /** `minimax`: the optimal move for the player to move, None when no square
      is free. `order` is the order in which the moves were tried; the move
      returned is the first in that order to reach the optimal value. */
  method Minimax(b: Board) returns (move: Option<Action>, ghost order: seq<Action>)
    ensures move.None? <==> EmptyCells(b) == {}
    ensures move.Some? ==> move.value in EmptyCells(b)
    ensures Distinct(order) && forall a :: a in order <==> a in EmptyCells(b)
    ensures NextMark(b) == X && move.Some? ==>
      forall a | a in EmptyCells(b) ::
        MinValueOf(Result(b, a).value) <= MinValueOf(Result(b, move.value).value)
    ensures NextMark(b) == X && move.Some? ==>
      exists k | 0 <= k < |order| :: order[k] == move.value &&
        forall p | 0 <= p < k ::
          MinValueOf(Result(b, order[p]).value) < MinValueOf(Result(b, move.value).value)
    ensures NextMark(b) == X && !Terminal(b) ==>
      move.Some? && MinValueOf(Result(b, move.value).value) == MaxValueOf(b)
    ensures NextMark(b) == O && move.Some? ==>
      forall a | a in EmptyCells(b) ::
        MaxValueOf(Result(b, move.value).value) <= MaxValueOf(Result(b, a).value)
    ensures NextMark(b) == O && move.Some? ==>
      exists k | 0 <= k < |order| :: order[k] == move.value &&
        forall p | 0 <= p < k ::
          MaxValueOf(Result(b, move.value).value) < MaxValueOf(Result(b, order[p]).value)
    ensures NextMark(b) == O && !Terminal(b) ==>
      move.Some? && MaxValueOf(Result(b, move.value).value) == MinValueOf(b)
  {
    var plr := Player(b);
    // On a board `player` never fails and names X or O, so `else` is the O branch.
    if plr == Some(X) {
      move, order := MaximisingMove(b);
      MaxScanDone(b, order, MaxOver(b, EmptyCells(b)), move);
    } else {
      move, order := MinimisingMove(b);
      MinScanDone(b, order, MinOver(b, EmptyCells(b)), move);
    }
  }

  // ---------------------------------------------------------------------
  // Worked positions

  /** X X X on the main diagonal of a board with one free square. */
  lemma DiagonalWinScenario()
    ensures var b: Board := [[X, O, X], [O, X, O], [O, Empty, X]];
      WinnerOf(b) == X && Terminal(b) && Utility(b) == Some(1)
  {
  }

  /** A full board with no line: a draw. */
  lemma DrawScenario()
    ensures var b: Board := [[X, O, X], [X, O, O], [O, X, X]];
      WinnerOf(b) == Empty && Terminal(b) && Utility(b) == Some(0)
  {
    var b: Board := [[X, O, X], [X, O, O], [O, X, X]];
    assert EmptyCells(b) == {} by {
      forall a | OnBoard(a) ensures At(b, a) != Empty {
      }
    }
  }

  /** Playing on an occupied square is refused. */
  lemma OccupiedMoveScenario()
    ensures Result([[X, Empty, Empty], [Empty, O, Empty], [Empty, Empty, Empty]], (1, 1)).None?
    ensures Result([[X, Empty, Empty], [Empty, O, Empty], [Empty, Empty, Empty]], (3, 0)).None?
  {
  }
}
