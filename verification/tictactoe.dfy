/**
 Tic-tac-toe (tictactoe.py): the board as a state machine (whose turn it
 is, the legal moves, the board after a move), the end of the game and its
 value, and the exhaustive minimax search over the game tree.
 */
module TicTacToe {
  import opened Wrappers

  datatype Mark = X | O

  /** None is an empty square. */
  type Cell = Option<Mark>

  /**
   The nine squares in reading order: square (i, j) of the source's list of
   rows is entry 3 * i + j.
   */
  type Board = b: seq<Cell> | |b| == 9
    witness [None, None, None, None, None, None, None, None, None]

  /** A move: the row and the column of a square. */
  type Action = (int, int)

  predicate OnBoard(i: int, j: int) {
    0 <= i < 3 && 0 <= j < 3
  }

  /** Square (i, j), the source's board[i][j]. */
  function At(b: Board, i: int, j: int): Cell
    requires OnBoard(i, j)
  {
    b[3 * i + j]
  }

  /** The square at reading position k. */
  lemma SquareOf(k: int)
    requires 0 <= k < 9
    ensures OnBoard(k / 3, k % 3) && 3 * (k / 3) + k % 3 == k
  {
  }

  /** The empty board (tictactoe.py:13-19). */
  function InitialState(): (b: Board)
    ensures forall i, j :: OnBoard(i, j) ==> At(b, i, j).None?
  {
    [None, None, None, None, None, None, None, None, None]
  }

  /** How many squares hold c. */
  function Count(b: Board, c: Cell): nat {
    multiset(b)[c]
  }

  function Other(m: Mark): Mark {
    if m == X then O else X
  }

  /** X moves when both marks are equally many, O otherwise (tictactoe.py:22-31). */
  function Player(b: Board): Mark {
    if Count(b, Some(X)) == Count(b, Some(O)) then X else O
  }

  /** The mark that moved last, judged from the counts (tictactoe.py:62-66). */
  function Last(b: Board): Mark {
    Other(Player(b))
  }

  /** Every empty square (tictactoe.py:34-43). */
  function Actions(b: Board): (r: set<Action>)
    ensures forall a :: a in r <==> OnBoard(a.0, a.1) && At(b, a.0, a.1).None?
  {
    set i, j | 0 <= i < 3 && 0 <= j < 3 && At(b, i, j).None? :: (i, j)
  }

  /**
   The move of the player to move on an empty square (tictactoe.py:53-55):
   that square gets the mover's mark, every other square is unchanged, one
   empty square fewer remains and the mover has one mark more.
   */
  function Move(b: Board, a: Action): (r: Board)
    requires a in Actions(b)
    ensures At(r, a.0, a.1) == Some(Player(b))
    ensures forall i, j :: OnBoard(i, j) && (i, j) != a ==> At(r, i, j) == At(b, i, j)
    ensures Count(r, None) == Count(b, None) - 1
    ensures Count(r, Some(Player(b))) == Count(b, Some(Player(b))) + 1
    ensures Count(r, Some(Other(Player(b)))) == Count(b, Some(Other(Player(b))))
  {
    b[3 * a.0 + a.1 := Some(Player(b))]
  }

  /**
   The checked move (tictactoe.py:46-55): a move on a square that is not
   empty, or off the board, is refused (the source raises an exception).
   */
  function Result(b: Board, a: Action): (r: Option<Board>)
    ensures r.None? <==> !(OnBoard(a.0, a.1) && At(b, a.0, a.1).None?)
    ensures r.Some? ==> r.value == Move(b, a)
  {
    if a in Actions(b) then Some(Move(b, a)) else None
  }

  /** Mark counts of a game played from the empty board with alternating turns. */
  predicate Balanced(b: Board) {
    Count(b, Some(X)) == Count(b, Some(O)) || Count(b, Some(X)) == Count(b, Some(O)) + 1
  }

  /** X opens on the empty board, which has nine empty squares. */
  lemma InitialPlayer()
    ensures Balanced(InitialState()) && Player(InitialState()) == X
    ensures Count(InitialState(), None) == 9
  {
    var b := InitialState();
    assert multiset(b) == multiset{None, None, None, None, None, None, None, None, None};
  }

  /** On a balanced board the turn passes to the other mark and the board stays balanced. */
  lemma MoveAlternates(b: Board, a: Action)
    requires Balanced(b) && a in Actions(b)
    ensures Balanced(Move(b, a))
    ensures Player(Move(b, a)) == Other(Player(b))
  {
  }

  /** The winning lines: three rows, three columns and the two diagonals. */
  datatype Line = RowLine(r: int) | ColLine(c: int) | Diagonal | AntiDiagonal

  predicate ValidLine(l: Line) {
    match l
    case RowLine(r) => 0 <= r < 3
    case ColLine(c) => 0 <= c < 3
    case _ => true
  }

  /** The t-th square of line l. */
  function Square(l: Line, t: int): (s: Action)
    requires ValidLine(l) && 0 <= t < 3
    ensures OnBoard(s.0, s.1)
  {
    match l
    case RowLine(r) => (r, t)
    case ColLine(c) => (t, c)
    case Diagonal => (t, t)
    case AntiDiagonal => (t, 2 - t)
  }

  /** m holds all three squares of l. */
  predicate Filled(b: Board, l: Line, m: Mark)
    requires ValidLine(l)
  {
    forall t :: 0 <= t < 3 ==> At(b, Square(l, t).0, Square(l, t).1) == Some(m)
  }

  /** The reference definition of a win: m fills some line. */
  ghost predicate HasLine(b: Board, m: Mark) {
    exists l :: ValidLine(l) && Filled(b, l, m)
  }

  /** Rows and columns from i on, in the order of the source's loop (tictactoe.py:68-78). */
  function WinnerFrom(b: Board, m: Mark, i: int): Option<Mark>
    requires 0 <= i <= 3
    decreases 3 - i
  {
    if i == 3 then
      if Filled(b, Diagonal, m) then Some(m)
      else if At(b, 0, 2) == At(b, 1, 1) == At(b, 2, 0) == Some(m) then Some(m)
      else None
    else if Filled(b, RowLine(i), m) then Some(m)
    else if Filled(b, ColLine(i), m) then Some(m)
    else WinnerFrom(b, m, i + 1)
  }

  /**
   The winner check (tictactoe.py:58-79): only the mark that moved last is
   looked for, rows and columns first, then the diagonals.
   */
  function Winner(b: Board): Option<Mark> {
    WinnerFrom(b, Last(b), 0)
  }

  /** Rows or columns from i on that m fills. */
  ghost predicate StraightFrom(b: Board, m: Mark, i: int) {
    exists r :: 0 <= r < 3 && i <= r && (Filled(b, RowLine(r), m) || Filled(b, ColLine(r), m))
  }

  /** The anti-diagonal test of the source is Filled on the anti-diagonal. */
  lemma AntiDiagonalTest(b: Board, m: Mark)
    ensures Filled(b, AntiDiagonal, m) <==> At(b, 0, 2) == At(b, 1, 1) == At(b, 2, 0) == Some(m)
  {
    assert Square(AntiDiagonal, 0) == (0, 2) && Square(AntiDiagonal, 1) == (1, 1) && Square(AntiDiagonal, 2) == (2, 0);
  }

  /** The loop from i finds m exactly when a line it has yet to examine is filled. */
  lemma {:induction false} WinnerFromLines(b: Board, m: Mark, i: int)
    requires 0 <= i <= 3
    ensures WinnerFrom(b, m, i) == Some(m) || WinnerFrom(b, m, i) == None
    ensures WinnerFrom(b, m, i) == Some(m) <==>
      StraightFrom(b, m, i) || Filled(b, Diagonal, m) || Filled(b, AntiDiagonal, m)
    decreases 3 - i
  {
    if i == 3 {
      AntiDiagonalTest(b, m);
    } else {
      WinnerFromLines(b, m, i + 1);
      if StraightFrom(b, m, i) {
        var r :| i <= r < 3 && (Filled(b, RowLine(r), m) || Filled(b, ColLine(r), m));
        if r != i {
          assert StraightFrom(b, m, i + 1);
        }
      }
    }
  }

  /** The source's winner is the last mover exactly when that mark fills a line, and no one otherwise. */
  lemma WinnerIsLine(b: Board)
    ensures Winner(b) == if HasLine(b, Last(b)) then Some(Last(b)) else None
  {
    var m := Last(b);
    WinnerFromLines(b, m, 0);
    if HasLine(b, m) {
      var l :| ValidLine(l) && Filled(b, l, m);
      match l
      case RowLine(r) => assert StraightFrom(b, m, 0);
      case ColLine(c) => assert StraightFrom(b, m, 0);
      case _ =>
    }
    if StraightFrom(b, m, 0) {
      var r :| 0 <= r < 3 && (Filled(b, RowLine(r), m) || Filled(b, ColLine(r), m));
      assert ValidLine(RowLine(r)) && ValidLine(ColLine(r));
    }
    assert ValidLine(Diagonal) && ValidLine(AntiDiagonal);
  }

  /** The game is over when no square is empty or someone has won (tictactoe.py:82-92). */
  function Terminal(b: Board): bool {
    None !in b || Winner(b).Some?
  }

  /** A board that still has an empty square has a legal move. */
  lemma EmptySquareIsAction(b: Board)
    requires None in b
    ensures Actions(b) != {}
  {
    var k :| 0 <= k < 9 && b[k] == None;
    SquareOf(k);
    assert (k / 3, k % 3) in Actions(b);
  }

  /** A board is terminal exactly when there is no legal move or the last mover has a line. */
  lemma TerminalIff(b: Board)
    ensures Terminal(b) <==> Actions(b) == {} || HasLine(b, Last(b))
  {
    WinnerIsLine(b);
    if None in b {
      EmptySquareIsAction(b);
    }
  }

  /** 1 when X has won, -1 when O has, 0 otherwise (tictactoe.py:95-104). */
  function Utility(b: Board): (u: int)
    ensures -1 <= u <= 1
    ensures u == 1 <==> Winner(b) == Some(X)
    ensures u == -1 <==> Winner(b) == Some(O)
  {
    match Winner(b)
    case Some(X) => 1
    case Some(O) => -1
    case None => 0
  }

  /** The empty squares from reading position k on, in reading order. */
  function ActionsFrom(b: Board, k: int): seq<Action>
    requires 0 <= k <= 9
    decreases 9 - k
  {
    if k == 9 then []
    else if b[k] == None then [(k / 3, k % 3)] + ActionsFrom(b, k + 1)
    else ActionsFrom(b, k + 1)
  }

  /** The scan from k lists exactly the empty squares from k on, in increasing reading position. */
  lemma {:induction false} ActionsFromMembers(b: Board, k: int)
    requires 0 <= k <= 9
    ensures forall a :: a in ActionsFrom(b, k) <==> a in Actions(b) && 3 * a.0 + a.1 >= k
    ensures forall p, q :: 0 <= p < q < |ActionsFrom(b, k)| ==>
      3 * ActionsFrom(b, k)[p].0 + ActionsFrom(b, k)[p].1 < 3 * ActionsFrom(b, k)[q].0 + ActionsFrom(b, k)[q].1
    ensures forall p :: 0 <= p < |ActionsFrom(b, k)| ==> 3 * ActionsFrom(b, k)[p].0 + ActionsFrom(b, k)[p].1 >= k
    decreases 9 - k
  {
    if k < 9 {
      ActionsFromMembers(b, k + 1);
      SquareOf(k);
    }
  }

  /** The scan from k has one entry per empty square from k on. */
  lemma {:induction false} ActionsFromCount(b: Board, k: int)
    requires 0 <= k <= 9
    ensures |ActionsFrom(b, k)| == multiset(b[k..])[None]
    decreases 9 - k
  {
    if k < 9 {
      ActionsFromCount(b, k + 1);
      assert b[k..] == [b[k]] + b[k + 1..];
    }
  }

  /** The empty squares listed once each, in the order the source's loop meets them. */
  function ActionList(b: Board): (r: seq<Action>)
    ensures forall a :: a in r <==> a in Actions(b)
    ensures forall p, q :: 0 <= p < q < |r| ==> r[p] != r[q]
    ensures |r| == Count(b, None)
  {
    ActionsFromMembers(b, 0);
    ActionsFromCount(b, 0);
    assert b[0..] == b;
    ActionsFrom(b, 0)
  }

  /** A sequence without repeats has as many distinct elements as entries. */
  lemma {:induction false} DistinctSize<T>(s: seq<T>)
    requires forall p, q :: 0 <= p < q < |s| ==> s[p] != s[q]
    ensures |set x | x in s| == |s|
  {
    if s != [] {
      DistinctSize(s[1..]);
      assert (set x | x in s) == {s[0]} + (set x | x in s[1..]);
      assert s[0] !in s[1..];
    }
  }

  /** There are as many legal moves as empty squares. */
  lemma ActionCount(b: Board)
    ensures |Actions(b)| == Count(b, None)
  {
    var l := ActionList(b);
    DistinctSize(l);
    assert (set x | x in l) == Actions(b);
  }

  /** A board that is not over has a legal move. */
  lemma NonterminalHasMoves(b: Board)
    requires !Terminal(b)
    ensures ActionList(b) != []
  {
    EmptySquareIsAction(b);
    var a :| a in Actions(b);
    assert a in ActionList(b);
  }

  /**
   The value of the board for X when X is to move (tictactoe.py:125-131):
   the utility of a finished game, otherwise the best value among the
   boards one move away, as valued for O. The sentinel -2 is never the
   answer: it lies in [-1, 1], every child is at most it, and one child
   reaches it.
   */
  function MaxValue(b: Board): (v: int)
    ensures -1 <= v <= 1
    ensures Terminal(b) ==> v == Utility(b)
    ensures !Terminal(b) ==> forall a :: a in Actions(b) ==> MinValue(Move(b, a)) <= v
    ensures !Terminal(b) ==> exists a :: a in Actions(b) && MinValue(Move(b, a)) == v
    decreases Count(b, None), 1
  {
    if Terminal(b) then Utility(b)
    else
      NonterminalHasMoves(b);
      MaxOver(b, ActionList(b), -2)
  }

  /** The value of the board for O when O is to move (tictactoe.py:134-140). */
  function MinValue(b: Board): (v: int)
    ensures -1 <= v <= 1
    ensures Terminal(b) ==> v == Utility(b)
    ensures !Terminal(b) ==> forall a :: a in Actions(b) ==> v <= MaxValue(Move(b, a))
    ensures !Terminal(b) ==> exists a :: a in Actions(b) && MaxValue(Move(b, a)) == v
    decreases Count(b, None), 1
  {
    if Terminal(b) then Utility(b)
    else
      NonterminalHasMoves(b);
      MinOver(b, ActionList(b), 2)
  }

  /** The loop of max_value from accumulator v over the moves acts. */
  function MaxOver(b: Board, acts: seq<Action>, v: int): (r: int)
    requires forall a :: a in acts ==> a in Actions(b)
    ensures v <= r
    ensures forall a :: a in acts ==> MinValue(Move(b, a)) <= r
    ensures r == v || exists a :: a in acts && MinValue(Move(b, a)) == r
    decreases Count(b, None), 0, |acts|
  {
    if acts == [] then v
    else
      var w := MinValue(Move(b, acts[0]));
      MaxOver(b, acts[1..], if w > v then w else v)
  }

  /** The loop of min_value from accumulator v over the moves acts. */
  function MinOver(b: Board, acts: seq<Action>, v: int): (r: int)
    requires forall a :: a in acts ==> a in Actions(b)
    ensures r <= v
    ensures forall a :: a in acts ==> r <= MaxValue(Move(b, a))
    ensures r == v || exists a :: a in acts && MaxValue(Move(b, a)) == r
    decreases Count(b, None), 0, |acts|
  {
    if acts == [] then v
    else
      var w := MaxValue(Move(b, acts[0]));
      MinOver(b, acts[1..], if w < v then w else v)
  }

  /** Lexicographic order on (value, row, column), the order of the source's tuples. */
  predicate KeyLess(p: (int, int, int), q: (int, int, int)) {
    p.0 < q.0 || (p.0 == q.0 && (p.1 < q.1 || (p.1 == q.1 && p.2 < q.2)))
  }

  /**
   The sort key of move a (tictactoe.py:114-119): the value of the board it
   leads to, as the opponent will play it, then the square.
   */
  function Key(b: Board, a: Action): (int, int, int)
    requires a in Actions(b)
  {
    (if Player(b) == X then MinValue(Move(b, a)) else MaxValue(Move(b, a)), a.0, a.1)
  }

  /** p sorts before q: descending for X (tictactoe.py:116), ascending for O (tictactoe.py:120). */
  predicate Before(descending: bool, p: (int, int, int), q: (int, int, int)) {
    if descending then KeyLess(q, p) else KeyLess(p, q)
  }

  /** Move a comes before move c in the source's sorted list. */
  predicate Ahead(b: Board, a: Action, c: Action)
    requires a in Actions(b) && c in Actions(b)
  {
    Before(Player(b) == X, Key(b, a), Key(b, c))
  }

  /** The first of best and keys in sorted order. */
  function First(descending: bool, keys: seq<(int, int, int)>, best: (int, int, int)): (r: (int, int, int))
    ensures r == best || r in keys
    ensures r == best || Before(descending, r, best)
    ensures forall k :: k in keys && k != r ==> Before(descending, r, k)
    decreases |keys|
  {
    if keys == [] then best
    else
      var next := if Before(descending, keys[0], best) then keys[0] else best;
      var r := First(descending, keys[1..], next);
      assert forall k :: k in keys ==> k == keys[0] || k in keys[1..];
      r
  }

  /** The (value, row, column) keys of the moves acts, the source's list of pairs. */
  function Scores(b: Board, acts: seq<Action>): (keys: seq<(int, int, int)>)
    requires forall a :: a in acts ==> a in Actions(b)
    ensures |keys| == |acts|
    ensures forall i :: 0 <= i < |acts| ==> keys[i] == Key(b, acts[i])
  {
    seq(|acts|, i requires 0 <= i < |acts| => Key(b, acts[i]))
  }

  /**
   The move minimax picks (tictactoe.py:107-122): none on a finished board;
   otherwise the move the source's sorted list of (value, move) pairs puts
   first, which comes before every other legal move.
   */
  function Minimax(b: Board): (r: Option<Action>)
    ensures r.None? <==> Terminal(b)
    ensures r.Some? ==> r.value in Actions(b)
    ensures r.Some? ==> forall a :: a in Actions(b) && a != r.value ==> Ahead(b, r.value, a)
  {
    if Terminal(b) then None
    else
      NonterminalHasMoves(b);
      var acts := ActionList(b);
      var keys := Scores(b, acts);
      var best := First(Player(b) == X, keys[1..], keys[0]);
      ChosenMove(b, acts, keys, best);
      Some((best.1, best.2))
  }

  /**
   The chosen move is optimal: for X it reaches the value max_value gives
   the board, for O the value min_value gives it, and no legal move does
   better for the player to move.
   */
  lemma MinimaxOptimal(b: Board)
    requires !Terminal(b)
    ensures Player(b) == X ==> MinValue(Move(b, Minimax(b).value)) == MaxValue(b)
    ensures Player(b) == O ==> MaxValue(Move(b, Minimax(b).value)) == MinValue(b)
  {
    var r := Minimax(b).value;
    if Player(b) == X {
      var a :| a in Actions(b) && MinValue(Move(b, a)) == MaxValue(b);
      assert a == r || Ahead(b, r, a);
    } else {
      var a :| a in Actions(b) && MaxValue(Move(b, a)) == MinValue(b);
      assert a == r || Ahead(b, r, a);
    }
  }

  /** The key First picks belongs to a legal move that sorts before every other one. */
  lemma ChosenMove(b: Board, acts: seq<Action>, keys: seq<(int, int, int)>, best: (int, int, int))
    requires forall a :: a in acts <==> a in Actions(b)
    requires acts != [] && keys == Scores(b, acts)
    requires best == keys[0] || best in keys[1..]
    requires forall k :: k in keys && k != best ==> Before(Player(b) == X, best, k)
    ensures (best.1, best.2) in Actions(b) && Key(b, (best.1, best.2)) == best
    ensures forall a :: a in Actions(b) && a != (best.1, best.2) ==> Ahead(b, (best.1, best.2), a)
  {
    var i :| 0 <= i < |keys| && keys[i] == best;
    assert acts[i] == (best.1, best.2);
    forall a | a in Actions(b) && a != (best.1, best.2)
      ensures Ahead(b, (best.1, best.2), a)
    {
      var j :| 0 <= j < |acts| && acts[j] == a;
      assert keys[j] in keys && keys[j] != best;
    }
  }
}
