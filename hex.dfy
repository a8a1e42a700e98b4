/**
 * The Hex game (examples/hex/env.rs): an N x N board with six-neighbour hex
 * adjacency, win detection by depth-first search with backtracking, and a
 * game object that plays moves in place and undoes them from a move stack.
 *
 * The board size N is a const generic in the source; here it is the size of
 * the board's grid. The game object `Hex` changes its fields in place; the
 * same fields as a value (`HexState`) are what a clone of it is, and the
 * `State` operations (`take`, `reward`, `value`, ...) work on that value.
 */
module HexEnv {
  import opened Wrappers
  import opened Env

  datatype Player = Red | Blue
  {
    /** `other`: the opponent. */
    function Other(): (o: Player)
      ensures o != this
    {
      match this
      case Red => Blue
      case Blue => Red
    }

    /** `occupies`: this player holds the (in-bounds) cell. */
    predicate Occupies(b: Board, c: Cell)
      requires b.WellFormed() && b.InBounds(c)
    {
      b.At(c) == Some(this)
    }

    /**
     * `start_cell_iter`: the start-edge cells this player holds, in order of
     * k = 0 .. N-1 (Red: `Cell(k, 0)`, Blue: `Cell(0, k)`).
     */
    function StartCellIter(b: Board): (starts: seq<Cell>)
      requires b.WellFormed()
      ensures forall k :: 0 <= k < |starts| ==> b.InBounds(starts[k]) && IsStart(this, starts[k]) && Occupies(b, starts[k])
      ensures forall c :: b.InBounds(c) && IsStart(this, c) && Occupies(b, c) ==> c in starts
    {
      StartCellsBelow(b, b.Size())
    }

    /** The held start-edge cells with k below `bound`. */
    function StartCellsBelow(b: Board, bound: nat): (starts: seq<Cell>)
      requires b.WellFormed() && bound <= b.Size()
      ensures forall k :: 0 <= k < |starts| ==> b.InBounds(starts[k]) && IsStart(this, starts[k]) && Occupies(b, starts[k])
      ensures forall c :: b.InBounds(c) && IsStart(this, c) && Occupies(b, c) && (if this == Red then c.i else c.j) < bound
                 ==> c in starts
    {
      if bound == 0 then []
      else
        var k := bound - 1;
        var cell := match this case Red => Cell(k, 0) case Blue => Cell(0, k);
        StartCellsBelow(b, k) + (if Occupies(b, cell) then [cell] else [])
    }

    /** `is_end`: Red ends on row j == N-1, Blue on column i == N-1. */
    predicate IsEnd(n: nat, c: Cell)
    {
      match this
      case Red => c.j == n - 1
      case Blue => c.i == n - 1
    }

    /** `connect_iter`: the neighbours of `c` this player holds. */
    function ConnectIter(b: Board, c: Cell): (cs: seq<Cell>)
      requires b.WellFormed() && b.InBounds(c)
      ensures forall k :: 0 <= k < |cs| ==> b.InBounds(cs[k]) && Adjacent(c, cs[k]) && Occupies(b, cs[k])
      ensures forall d :: b.InBounds(d) && Adjacent(c, d) && Occupies(b, d) ==> d in cs
    {
      OccupiedBy(b, this, b.AdjIter(c))
    }

    /**
     * What `wins_from` computes: false on a seen or foreign cell, true on a
     * held end-edge cell, otherwise whether some held neighbour succeeds with
     * `c` added to the seen set.
     */
    predicate ReachesEnd(b: Board, c: Cell, seen: set<Cell>)
      requires b.WellFormed() && b.InBounds(c) && seen <= b.Cells()
      decreases |b.Cells() - seen|, 0
    {
      if c in seen then false
      else if !Occupies(b, c) then false
      else if IsEnd(b.Size(), c) then true
      else
        InCells(b, c);
        assert b.Cells() - (seen + {c}) == (b.Cells() - seen) - {c};
        AnyReachesEnd(b, ConnectIter(b, c), seen + {c})
    }

    /** `any` of `ReachesEnd` over `cs`, front to back. */
    predicate AnyReachesEnd(b: Board, cs: seq<Cell>, seen: set<Cell>)
      requires b.WellFormed() && seen <= b.Cells()
      requires forall k :: 0 <= k < |cs| ==> b.InBounds(cs[k])
      decreases |b.Cells() - seen|, 1, |cs|
    {
      |cs| > 0 && (ReachesEnd(b, cs[0], seen) || AnyReachesEnd(b, cs[1..], seen))
    }

    /** What `wins` computes: some held start-edge cell reaches the end edge. */
    predicate HasWon(b: Board)
      requires b.WellFormed()
    {
      AnyReachesEnd(b, StartCellIter(b), {})
    }

    /**
     * `wins_from`: depth-first search that inserts `c` into the seen set on
     * entry and removes it again when every neighbour fails. `seen` is the
     * set passed by mutable reference: `seenOut` is its value on return.
     */
    method WinsFrom(b: Board, c: Cell, seen: set<Cell>) returns (won: bool, seenOut: set<Cell>)
      requires b.WellFormed() && b.InBounds(c) && seen <= b.Cells()
      ensures won == ReachesEnd(b, c, seen)
      ensures !won ==> seenOut == seen
      decreases |b.Cells() - seen|
    {
      if c in seen {
        return false, seen;
      }
      if !Occupies(b, c) {
        return false, seen;
      }
      if IsEnd(b.Size(), c) {
        return true, seen;
      }
      InCells(b, c);
      assert b.Cells() - (seen + {c}) == (b.Cells() - seen) - {c};
      seenOut := seen + {c};
      var next := ConnectIter(b, c);
      var k := 0;
      while k < |next|
        invariant 0 <= k <= |next|
        invariant seenOut == seen + {c}
        invariant AnyReachesEnd(b, next, seenOut) == AnyReachesEnd(b, next[k..], seenOut)
      {
        var found;
        found, seenOut := WinsFrom(b, next[k], seenOut);
        if found {
          return true, seenOut;
        }
        assert next[k..][1..] == next[k + 1..];
        k := k + 1;
      }
      seenOut := seenOut - {c};
      won := false;
    }

    /**
     * `wins`: `any` over the held start-edge cells of `wins_from`, all calls
     * sharing one seen set (which every failing call leaves empty again).
     */
    method Wins(b: Board) returns (won: bool)
      requires b.WellFormed()
      ensures won == HasWon(b)
    {
      var seen: set<Cell> := {};
      var starts := StartCellIter(b);
      var k := 0;
      while k < |starts|
        invariant 0 <= k <= |starts|
        invariant seen == {}
        invariant AnyReachesEnd(b, starts, {}) == AnyReachesEnd(b, starts[k..], {})
      {
        var found;
        found, seen := WinsFrom(b, starts[k], seen);
        if found {
          return true;
        }
        assert starts[k..][1..] == starts[k + 1..];
        k := k + 1;
      }
      won := false;
    }
  }

  lemma OtherIsInvolution(p: Player)
    ensures p.Other().Other() == p
  {
  }

  /** `Cell(i, j)`: column i, row j. */
  datatype Cell = Cell(i: nat, j: nat)

  /** `cell(i, j_plus_one)`: a cell from a one-based row number; row 0 underflows in the source. */
  function CellOneBased(i: nat, jPlusOne: nat): (c: Cell)
    requires jPlusOne >= 1
    ensures c.i == i && c.j + 1 == jPlusOne
  {
    Cell(i, jPlusOne - 1)
  }

  /** The six hex neighbour offsets, as a relation between cells. */
  predicate Adjacent(c: Cell, d: Cell)
  {
    || (d.i == c.i + 1 && d.j + 1 == c.j)
    || (d.i == c.i && d.j + 1 == c.j)
    || (d.i + 1 == c.i && d.j == c.j)
    || (d.i == c.i + 1 && d.j == c.j)
    || (d.i + 1 == c.i && d.j == c.j + 1)
    || (d.i == c.i && d.j == c.j + 1)
  }

  /** Hex adjacency is symmetric and irreflexive. */
  lemma AdjacentSymmetric(c: Cell, d: Cell)
    ensures Adjacent(c, d) <==> Adjacent(d, c)
    ensures !Adjacent(c, c)
  {
  }

  /** `as_array`'s encoding of one cell. */
  function Encode(o: Option<Player>): int
  {
    match o
    case None => 0
    case Some(Red) => 1
    case Some(Blue) => -1
  }

  /** `Board<N>`: `grid[i][j]` is the occupant of `Cell(i, j)`. */
  datatype Board = Board(grid: seq<seq<Option<Player>>>)
  {
    predicate WellFormed()
    {
      forall i :: 0 <= i < |grid| ==> |grid[i]| == |grid|
    }

    function Size(): nat { |grid| }

    predicate InBounds(c: Cell) { c.i < |grid| && c.j < |grid| }

    function Cells(): set<Cell>
    {
      set i, j | 0 <= i < |grid| && 0 <= j < |grid| :: Cell(i, j)
    }

    /** `at`: the occupant of an in-bounds cell (out of range panics). */
    function At(c: Cell): Option<Player>
      requires WellFormed() && InBounds(c)
    {
      grid[c.i][c.j]
    }

    /** `set`: `c` now holds `p`; nothing else changes. */
    function Set(c: Cell, p: Player): (b: Board)
      requires WellFormed() && InBounds(c)
      ensures b.WellFormed() && b.Size() == Size()
      ensures b.At(c) == Some(p)
      ensures forall d :: InBounds(d) && d != c ==> b.At(d) == At(d)
    {
      Board(grid[c.i := grid[c.i][c.j := Some(p)]])
    }

    /** `clear`: `c` is empty now; nothing else changes. */
    function Clear(c: Cell): (b: Board)
      requires WellFormed() && InBounds(c)
      ensures b.WellFormed() && b.Size() == Size()
      ensures b.At(c) == None
      ensures forall d :: InBounds(d) && d != c ==> b.At(d) == At(d)
    {
      Board(grid[c.i := grid[c.i][c.j := None]])
    }

    /**
     * `adj_iter`: the in-bounds neighbours among up-right, up, left, right,
     * down-left and down, in that order.
     */
    function AdjIter(c: Cell): (cs: seq<Cell>)
      requires InBounds(c)
      ensures |cs| <= 6
      ensures forall k :: 0 <= k < |cs| ==> InBounds(cs[k]) && Adjacent(c, cs[k]) && cs[k] != c
      ensures forall d :: InBounds(d) && Adjacent(c, d) ==> d in cs
    {
      var n := |grid|;
      (if c.i < n - 1 && c.j > 0 then [Cell(c.i + 1, c.j - 1)] else [])
      + (if c.j > 0 then [Cell(c.i, c.j - 1)] else [])
      + (if c.i > 0 then [Cell(c.i - 1, c.j)] else [])
      + (if c.i < n - 1 then [Cell(c.i + 1, c.j)] else [])
      + (if c.i > 0 && c.j < n - 1 then [Cell(c.i - 1, c.j + 1)] else [])
      + (if c.j < n - 1 then [Cell(c.i, c.j + 1)] else [])
    }

    /** `as_array`: the occupancy grid as integers, Red 1, Blue -1, empty 0. */
    function AsArray(): (a: seq<seq<int>>)
      requires WellFormed()
      ensures |a| == Size()
      ensures forall i :: 0 <= i < |a| ==> |a[i]| == Size()
      ensures forall i, j :: 0 <= i < Size() && 0 <= j < Size() ==> a[i][j] == Encode(At(Cell(i, j)))
    {
      seq(|grid|, i requires 0 <= i < |grid| => seq(|grid|, j requires 0 <= j < |grid| => Encode(grid[i][j])))
    }
  }

  function EmptyBoard(n: nat): (b: Board)
    ensures b.WellFormed() && b.Size() == n
    ensures forall c :: b.InBounds(c) ==> b.At(c) == None
  {
    Board(seq(n, _ => seq(n, _ => None)))
  }

  lemma InCells(b: Board, c: Cell)
    requires b.InBounds(c)
    ensures c in b.Cells()
  {
    assert c == Cell(c.i, c.j);
  }

  /** Two well-formed boards of one size that agree on every cell are equal. */
  lemma BoardExtensionality(b1: Board, b2: Board)
    requires b1.WellFormed() && b2.WellFormed() && b1.Size() == b2.Size()
    requires forall c :: b1.InBounds(c) ==> b1.At(c) == b2.At(c)
    ensures b1 == b2
  {
    forall i | 0 <= i < b1.Size()
      ensures b1.grid[i] == b2.grid[i]
    {
      forall j | 0 <= j < b1.Size()
        ensures b1.grid[i][j] == b2.grid[i][j]
      {
        assert b1.At(Cell(i, j)) == b2.At(Cell(i, j));
      }
    }
  }

  /** `as_array` loses nothing: boards with the same array are the same board. */
  lemma AsArrayInjective(b1: Board, b2: Board)
    requires b1.WellFormed() && b2.WellFormed() && b1.Size() == b2.Size()
    requires b1.AsArray() == b2.AsArray()
    ensures b1 == b2
  {
    forall c | b1.InBounds(c)
      ensures b1.At(c) == b2.At(c)
    {
      assert b1.AsArray()[c.i][c.j] == b2.AsArray()[c.i][c.j];
    }
    BoardExtensionality(b1, b2);
  }

  /** The neighbour relation `adj_iter` produces is symmetric. */
  lemma AdjIterSymmetric(b: Board, c: Cell, d: Cell)
    requires b.InBounds(c) && b.InBounds(d)
    ensures d in b.AdjIter(c) <==> c in b.AdjIter(d)
  {
    if d in b.AdjIter(c) {
      var k :| 0 <= k < |b.AdjIter(c)| && b.AdjIter(c)[k] == d;
      AdjacentSymmetric(c, d);
    }
    if c in b.AdjIter(d) {
      var k :| 0 <= k < |b.AdjIter(d)| && b.AdjIter(d)[k] == c;
      AdjacentSymmetric(c, d);
    }
  }

  /** The cells of `cs` that `p` occupies, in order (`filter`). */
  function OccupiedBy(b: Board, p: Player, cs: seq<Cell>): (r: seq<Cell>)
    requires b.WellFormed()
    requires forall k :: 0 <= k < |cs| ==> b.InBounds(cs[k])
    ensures forall k :: 0 <= k < |r| ==> b.InBounds(r[k]) && b.At(r[k]) == Some(p)
    ensures forall d :: d in r <==> d in cs && b.At(d) == Some(p)
    decreases |cs|
  {
    if |cs| == 0 then []
    else (if b.At(cs[0]) == Some(p) then [cs[0]] else []) + OccupiedBy(b, p, cs[1..])
  }

  /** Where a player's chain has to start: Red on column j == 0, Blue on row i == 0. */
  predicate IsStart(p: Player, c: Cell)
  {
    match p
    case Red => c.j == 0
    case Blue => c.i == 0
  }

  /** A chain: distinct adjacent cells, all held by `p`. */
  ghost predicate IsChain(b: Board, p: Player, path: seq<Cell>)
    requires b.WellFormed()
  {
    && |path| >= 1
    && (forall k :: 0 <= k < |path| ==> b.InBounds(path[k]) && b.At(path[k]) == Some(p))
    && (forall k :: 0 <= k < |path| - 1 ==> Adjacent(path[k], path[k + 1]))
    && (forall k, l :: 0 <= k < l < |path| ==> path[k] != path[l])
  }

  /** A chain of `p` that joins its start edge to its end edge. */
  ghost predicate IsWinningPath(b: Board, p: Player, path: seq<Cell>)
    requires b.WellFormed()
  {
    IsChain(b, p, path) && IsStart(p, path[0]) && p.IsEnd(b.Size(), path[|path| - 1])
  }

  /** The position of a cell of `cs` that reaches the end edge, when `any` holds. */
  lemma {:induction false} AnyReachesEndWitness(p: Player, b: Board, cs: seq<Cell>, seen: set<Cell>) returns (k: nat)
    requires b.WellFormed() && seen <= b.Cells()
    requires forall l :: 0 <= l < |cs| ==> b.InBounds(cs[l])
    requires p.AnyReachesEnd(b, cs, seen)
    ensures k < |cs| && p.ReachesEnd(b, cs[k], seen)
    decreases |cs|
  {
    if p.ReachesEnd(b, cs[0], seen) {
      k := 0;
    } else {
      var k' := AnyReachesEndWitness(p, b, cs[1..], seen);
      k := k' + 1;
    }
  }

  /** One cell of `cs` that reaches the end edge makes `any` hold. */
  lemma {:induction false} AnyReachesEndOf(p: Player, b: Board, cs: seq<Cell>, seen: set<Cell>, k: nat)
    requires b.WellFormed() && seen <= b.Cells()
    requires forall l :: 0 <= l < |cs| ==> b.InBounds(cs[l])
    requires k < |cs| && p.ReachesEnd(b, cs[k], seen)
    ensures p.AnyReachesEnd(b, cs, seen)
    decreases |cs|
  {
    if k > 0 {
      AnyReachesEndOf(p, b, cs[1..], seen, k - 1);
    }
  }

  /**
   * Soundness of the search: when `wins_from` succeeds from `c`, there is a
   * chain of `p` from `c` to the end edge that avoids every seen cell.
   */
  lemma {:induction false} ReachesEndSound(p: Player, b: Board, c: Cell, seen: set<Cell>) returns (path: seq<Cell>)
    requires b.WellFormed() && b.InBounds(c) && seen <= b.Cells()
    requires p.ReachesEnd(b, c, seen)
    ensures IsChain(b, p, path) && path[0] == c && p.IsEnd(b.Size(), path[|path| - 1])
    ensures forall k :: 0 <= k < |path| ==> path[k] !in seen
    decreases |b.Cells() - seen|
  {
    if p.IsEnd(b.Size(), c) {
      path := [c];
    } else {
      InCells(b, c);
      assert b.Cells() - (seen + {c}) == (b.Cells() - seen) - {c};
      var next := p.ConnectIter(b, c);
      var k := AnyReachesEndWitness(p, b, next, seen + {c});
      var rest := ReachesEndSound(p, b, next[k], seen + {c});
      ChainCons(b, p, c, rest);
      path := [c] + rest;
    }
  }

  /** A held cell adjacent to the head of a chain, and not on it, extends it. */
  lemma ChainCons(b: Board, p: Player, c: Cell, rest: seq<Cell>)
    requires b.WellFormed() && IsChain(b, p, rest)
    requires b.InBounds(c) && b.At(c) == Some(p) && Adjacent(c, rest[0])
    requires forall k :: 0 <= k < |rest| ==> rest[k] != c
    ensures IsChain(b, p, [c] + rest)
  {
    var path := [c] + rest;
    assert forall l :: 1 <= l < |path| ==> path[l] == rest[l - 1];
  }

  /**
   * Completeness of the search with backtracking: a chain of `p` from a cell
   * to the end edge that avoids every seen cell makes `wins_from` succeed.
   */
  lemma {:induction false} ReachesEndComplete(p: Player, b: Board, path: seq<Cell>, seen: set<Cell>)
    requires b.WellFormed() && seen <= b.Cells()
    requires IsChain(b, p, path) && p.IsEnd(b.Size(), path[|path| - 1])
    requires forall k :: 0 <= k < |path| ==> path[k] !in seen
    ensures p.ReachesEnd(b, path[0], seen)
    decreases |path|
  {
    var c := path[0];
    if !p.IsEnd(b.Size(), c) {
      InCells(b, c);
      var rest := path[1..];
      assert forall k :: 0 <= k < |rest| ==> rest[k] == path[k + 1];
      assert forall k :: 0 <= k < |rest| ==> rest[k] !in seen + {c};
      ReachesEndComplete(p, b, rest, seen + {c});
      var next := p.ConnectIter(b, c);
      assert Adjacent(c, path[1]);
      assert path[1] in next;
      var k :| 0 <= k < |next| && next[k] == path[1];
      AnyReachesEndOf(p, b, next, seen + {c}, k);
    }
  }

  /** `wins` holding means a winning chain of `p` exists on the board. */
  lemma HasWonSound(p: Player, b: Board) returns (path: seq<Cell>)
    requires b.WellFormed() && p.HasWon(b)
    ensures IsWinningPath(b, p, path)
  {
    var starts := p.StartCellIter(b);
    var k := AnyReachesEndWitness(p, b, starts, {});
    path := ReachesEndSound(p, b, starts[k], {});
  }

  /** Any winning chain of `p` on the board makes `wins` hold. */
  lemma HasWonComplete(p: Player, b: Board, path: seq<Cell>)
    requires b.WellFormed() && IsWinningPath(b, p, path)
    ensures p.HasWon(b)
  {
    ReachesEndComplete(p, b, path, {});
    var starts := p.StartCellIter(b);
    assert path[0] in starts;
    var k :| 0 <= k < |starts| && starts[k] == path[0];
    AnyReachesEndOf(p, b, starts, {}, k);
  }

  /** The cells of a sequence, as a set. */
  function Elems(cs: seq<Cell>): set<Cell>
  {
    set c | c in cs
  }

  /** The elements of a non-empty sequence are those of its front plus its last one. */
  lemma ElemsLast(cs: seq<Cell>)
    requires |cs| > 0
    ensures Elems(cs) == Elems(cs[..|cs| - 1]) + {cs[|cs| - 1]}
  {
    assert cs == cs[..|cs| - 1] + [cs[|cs| - 1]];
  }

  /** `p` with `other` applied `k` times. */
  function FlipTimes(p: Player, k: nat): (q: Player)
    ensures q == if k % 2 == 0 then p else p.Other()
  {
    if k == 0 then p else FlipTimes(p, k - 1).Other()
  }

  /** Passing the turn first and then k more times is passing it k + 1 times. */
  lemma {:induction false} FlipTimesShift(p: Player, k: nat)
    ensures FlipTimes(p.Other(), k) == FlipTimes(p, k + 1)
  {
    if k > 0 {
      FlipTimesShift(p, k - 1);
    }
  }

  /** `board.clear` applied to the cells of `cs`, last one first (the order of `pop`). */
  function ClearCells(b: Board, cs: seq<Cell>): (r: Board)
    requires b.WellFormed()
    requires forall k :: 0 <= k < |cs| ==> b.InBounds(cs[k])
    ensures r.WellFormed() && r.Size() == b.Size()
    ensures forall d :: r.InBounds(d) ==> r.At(d) == if d in cs then None else b.At(d)
    decreases |cs|
  {
    if |cs| == 0 then b
    else ClearCells(b.Clear(cs[|cs| - 1]), cs[..|cs| - 1])
  }

  /** The cells `Cell(k, k)`: what `(0..N).zip(0..N)` yields. */
  function Diagonal(n: nat): set<Cell>
  {
    set k | 0 <= k < n :: Cell(k, k)
  }

  /**
   * The fields of the game object `Hex<N>` as a value: the board, the set of
   * empty cells, the stack of taken cells, the player to move and the cached
   * winner. This is what `clone` produces, and what the `State` operations
   * read.
   */
  datatype HexState = HexState(
    board: Board,
    emptyCells: set<Cell>,
    taken: seq<Cell>,
    next: Player,
    winner: Option<Player>)
  {
    ghost predicate Valid()
    {
      board.WellFormed() && forall k :: 0 <= k < |taken| ==> board.InBounds(taken[k])
    }

    /** `action_count`: the number of moves on the stack, not the number of empty cells. */
    function ActionCount(): nat
    {
      |taken|
    }

    /** `is_draw`: no winner and no empty cell left. */
    predicate IsDraw()
    {
      winner.None? && emptyCells == {}
    }

    /** `reward`: 0.1 for a draw, 1.0 when Red has won, -1.0 when Blue has, else none. */
    function Reward(): (r: Option<real>)
      ensures r == Some(0.1) <==> IsDraw()
      ensures r == Some(1.0) <==> !IsDraw() && winner == Some(Red)
      ensures r == Some(-1.0) <==> !IsDraw() && winner == Some(Blue)
      ensures r.None? <==> !IsDraw() && winner.None?
    {
      if IsDraw() then Some(0.1)
      else match winner
        case Some(Red) => Some(1.0)
        case Some(Blue) => Some(-1.0)
        case None => None
    }

    /** `as_array`: the board's integer grid. */
    function AsArray(): seq<seq<int>>
      requires board.WellFormed()
    {
      board.AsArray()
    }
  }

  /** `Hex::default()` (and `State::init`): empty board, Red to move, only the diagonal listed as empty. */
  function Init(n: nat): (h: HexState)
    ensures h.Valid() && h.board == EmptyBoard(n)
    ensures forall c :: c in h.emptyCells <==> c.i == c.j && c.i < n
    ensures h.taken == [] && h.ActionCount() == 0
    ensures h.next == Red && h.winner == None
  {
    var h := HexState(EmptyBoard(n), Diagonal(n), [], Red, None);
    assert forall c :: c in Diagonal(n) ==> c.i == c.j && c.i < n;
    assert forall c: Cell :: c.i == c.j && c.i < n ==> c == Cell(c.i, c.i);
    h
  }

  /**
   * The part of `next_take_cell` that does not look for a winner: `c` leaves
   * the empty set, gets the player to move and goes on the stack, and the
   * turn passes; the cached winner is left as it was.
   */
  function Move(h: HexState, c: Cell): (h': HexState)
    requires h.Valid() && h.board.InBounds(c)
    ensures h'.Valid() && h'.board.Size() == h.board.Size()
    ensures h'.board.At(c) == Some(h.next)
    ensures forall d :: h.board.InBounds(d) && d != c ==> h'.board.At(d) == h.board.At(d)
    ensures h'.emptyCells == h.emptyCells - {c}
    ensures h'.taken == h.taken + [c]
    ensures h'.next == h.next.Other()
    ensures h'.winner == h.winner
  {
    HexState(h.board.Set(c, h.next), h.emptyCells - {c}, h.taken + [c], h.next.Other(), h.winner)
  }

  /**
   * `next_take_cell` on a value: the move above, after which the winner is the
   * player who moved when that player now wins, none otherwise.
   */
  function TakeCell(h: HexState, c: Cell): (h': HexState)
    requires h.Valid() && h.board.InBounds(c)
    ensures h'.Valid() && h'.board.Size() == h.board.Size()
    ensures h'.board.At(c) == Some(h.next)
    ensures forall d :: h.board.InBounds(d) && d != c ==> h'.board.At(d) == h.board.At(d)
    ensures h'.emptyCells == h.emptyCells - {c}
    ensures h'.taken == h.taken + [c]
    ensures h'.next == h.next.Other()
    ensures h'.winner == Some(h.next) <==> h.next.HasWon(h'.board)
    ensures h'.winner.None? <==> !h.next.HasWon(h'.board)
  {
    var m := Move(h, c);
    m.(winner := if h.next.HasWon(m.board) then Some(h.next) else None)
  }

  /**
   * The winner `next_take_cell` records is exactly the player who moved when
   * a winning chain of theirs is on the board afterwards.
   */
  lemma TakeCellWinner(h: HexState, c: Cell) returns (path: seq<Cell>)
    requires h.Valid() && h.board.InBounds(c)
    requires TakeCell(h, c).winner.Some?
    ensures TakeCell(h, c).winner == Some(h.next)
    ensures IsWinningPath(TakeCell(h, c).board, h.next, path)
  {
    path := HasWonSound(h.next, TakeCell(h, c).board);
  }

  /** A winning chain of the mover after the move means the move is recorded as winning. */
  lemma TakeCellWins(h: HexState, c: Cell, path: seq<Cell>)
    requires h.Valid() && h.board.InBounds(c)
    requires IsWinningPath(TakeCell(h, c).board, h.next, path)
    ensures TakeCell(h, c).winner == Some(h.next)
  {
    HasWonComplete(h.next, TakeCell(h, c).board, path);
  }

  /**
   * `State::take`: the k-th cell of the move stack is played again on a
   * copy; the receiver is a value and stays as it was.
   */
  function Take(h: HexState, a: Action): (h': HexState)
    requires h.Valid() && a.index < h.ActionCount()
    ensures h'.Valid() && h'.board.Size() == h.board.Size()
    ensures h'.ActionCount() == h.ActionCount() + 1
    ensures h'.taken == h.taken + [h.taken[a.index]]
    ensures h'.board.At(h.taken[a.index]) == Some(h.next)
    ensures h'.next == h.next.Other()
  {
    TakeCell(h, h.taken[a.index])
  }

  /** `State::value`: the child's value negated, except the draw value 0.1, which passes through. */
  function Value(h: HexState, taken: Action, v: real): (w: real)
    ensures v == 0.1 ==> w == v
    ensures v != 0.1 ==> w == -v
  {
    if v != 0.1 then -v else v
  }

  /**
   * Seen from the parent, a win is a loss and a draw stays a draw; and
   * `value` undoes itself on every input except -0.1, which it sends to the
   * draw value.
   */
  lemma ValueFlipsRewards(h: HexState, a: Action, v: real)
    ensures h.Reward().Some? && !h.IsDraw() ==> Value(h, a, h.Reward().value) == -h.Reward().value
    ensures h.IsDraw() ==> Value(h, a, h.Reward().value) == h.Reward().value
    ensures Value(h, a, Value(h, a, v)) == v <==> v != -0.1
  {
  }

  /** One round of `undo`'s loop: pop the last cell, clear it, list it as empty again, pass the turn back. */
  function Pop(h: HexState): (h': HexState)
    requires h.Valid() && |h.taken| > 0
    ensures h'.Valid() && h'.board.Size() == h.board.Size()
    ensures h'.taken == h.taken[..|h.taken| - 1]
  {
    var c := h.taken[|h.taken| - 1];
    HexState(h.board.Clear(c), h.emptyCells + {c}, h.taken[..|h.taken| - 1], h.next.Other(), h.winner)
  }

  /** `undo` on a value: pop until the stack is empty. */
  function Undone(h: HexState): (h': HexState)
    requires h.Valid()
    ensures h'.Valid() && h'.taken == []
    decreases |h.taken|
  {
    if |h.taken| == 0 then h else Undone(Pop(h))
  }

  /**
   * Undoing clears every cell on the stack, lists them all as empty again,
   * passes the turn back once per move and keeps the cached winner.
   */
  lemma {:induction false} UndoneRestores(h: HexState)
    requires h.Valid()
    ensures Undone(h).board == ClearCells(h.board, h.taken)
    ensures Undone(h).emptyCells == h.emptyCells + Elems(h.taken)
    ensures Undone(h).next == FlipTimes(h.next, |h.taken|)
    ensures Undone(h).winner == h.winner
  {
    UndoneClears(h);
    UndoneRelists(h);
  }

  /** Undoing clears exactly the cells on the stack. */
  lemma {:induction false} UndoneClears(h: HexState)
    requires h.Valid()
    ensures Undone(h).board == ClearCells(h.board, h.taken)
    decreases |h.taken|
  {
    if |h.taken| > 0 {
      UndoneClears(Pop(h));
    }
  }

  /** Undoing lists the stacked cells as empty, passes the turn back once per move and keeps the winner. */
  lemma {:induction false} UndoneRelists(h: HexState)
    requires h.Valid()
    ensures Undone(h).emptyCells == h.emptyCells + Elems(h.taken)
    ensures Undone(h).next == FlipTimes(h.next, |h.taken|)
    ensures Undone(h).winner == h.winner
    decreases |h.taken|
  {
    if |h.taken| > 0 {
      var rest := h.taken[..|h.taken| - 1];
      UndoneRelists(Pop(h));
      ElemsLast(h.taken);
      FlipTimesShift(h.next, |rest|);
    }
  }

  /** The game object `Hex<N>`: its fields change in place. */
  class Hex
  {
    var board: Board
    var emptyCells: set<Cell>
    var taken: seq<Cell>
    var next: Player
    var winner: Option<Player>

    /** The fields as a value, i.e. what `clone` yields. */
    function Snapshot(): HexState
      reads this
    {
      HexState(board, emptyCells, taken, next, winner)
    }

    ghost predicate Valid()
      reads this
    {
      Snapshot().Valid()
    }

    /** `Hex::default()`. */
    constructor Default(n: nat)
      ensures Valid() && Snapshot() == Init(n)
    {
      board := EmptyBoard(n);
      emptyCells := Diagonal(n);
      taken := [];
      next := Red;
      winner := None;
    }

    /** `next_take_cell`: plays `c` for the player to move and reports whether that won. */
    method NextTakeCell(c: Cell) returns (won: bool)
      requires Valid() && board.InBounds(c)
      modifies this
      ensures Valid() && Snapshot() == TakeCell(old(Snapshot()), c)
      ensures won <==> winner.Some?
    {
      emptyCells := emptyCells - {c};
      board := board.Set(c, next);
      taken := taken + [c];
      var wins := next.Wins(board);
      winner := if wins then Some(next) else None;
      next := next.Other();
      won := winner.Some?;
    }

    /**
     * `undo`: pops the whole move stack, clearing each cell, listing it as
     * empty again and passing the turn back; the cached winner is left alone.
     */
    method Undo()
      requires Valid()
      modifies this
      ensures Valid() && Snapshot() == Undone(old(Snapshot()))
    {
      ghost var h0 := Snapshot();
      while |taken| > 0
        invariant Valid() && Undone(Snapshot()) == Undone(h0)
        decreases |taken|
      {
        var cell := taken[|taken| - 1];
        ghost var before := Snapshot();
        taken := taken[..|taken| - 1];
        board := board.Clear(cell);
        emptyCells := emptyCells + {cell};
        next := next.Other();
        assert Snapshot() == Pop(before);
      }
    }
  }

  /** The moves `cells` played one after the other with `next_take_cell`. */
  function Play(h: HexState, cells: seq<Cell>): HexState
    requires h.Valid()
    requires forall k :: 0 <= k < |cells| ==> h.board.InBounds(cells[k])
    decreases |cells|
  {
    if |cells| == 0 then h
    else Play(TakeCell(h, cells[0]), cells[1..])
  }

  /** The same moves without the winner search. */
  function PlayMoves(h: HexState, cells: seq<Cell>): HexState
    requires h.Valid()
    requires forall k :: 0 <= k < |cells| ==> h.board.InBounds(cells[k])
    decreases |cells|
  {
    if |cells| == 0 then h
    else PlayMoves(Move(h, cells[0]), cells[1..])
  }

  /** The winner search only decides the winner field: the rest of a game is the same with or without it. */
  lemma {:induction false} PlayMatchesMoves(h: HexState, cells: seq<Cell>)
    requires h.Valid()
    requires forall k :: 0 <= k < |cells| ==> h.board.InBounds(cells[k])
    ensures Play(h, cells).(winner := h.winner) == PlayMoves(h, cells)
    decreases |cells|
  {
    if |cells| > 0 {
      var m := Move(h, cells[0]);
      var t := TakeCell(h, cells[0]);
      assert t == m.(winner := t.winner);
      PlayMatchesMoves(t, cells[1..]);
      PlayMovesIgnoresWinner(m, t.winner, cells[1..]);
      PlayMovesKeepsWinner(m, cells[1..]);
    }
  }

  /** Moves carry the cached winner along untouched. */
  lemma {:induction false} PlayMovesKeepsWinner(h: HexState, cells: seq<Cell>)
    requires h.Valid()
    requires forall k :: 0 <= k < |cells| ==> h.board.InBounds(cells[k])
    ensures PlayMoves(h, cells).winner == h.winner
    decreases |cells|
  {
    if |cells| > 0 {
      PlayMovesKeepsWinner(Move(h, cells[0]), cells[1..]);
    }
  }

  /** Starting the moves from another cached winner only changes the final winner. */
  lemma {:induction false} PlayMovesIgnoresWinner(h: HexState, w: Option<Player>, cells: seq<Cell>)
    requires h.Valid()
    requires forall k :: 0 <= k < |cells| ==> h.board.InBounds(cells[k])
    ensures PlayMoves(h.(winner := w), cells) == PlayMoves(h, cells).(winner := w)
    decreases |cells|
  {
    if |cells| > 0 {
      assert Move(h.(winner := w), cells[0]) == Move(h, cells[0]).(winner := w);
      PlayMovesIgnoresWinner(Move(h, cells[0]), w, cells[1..]);
    }
  }

  /** A sequence of moves keeps the game well formed and the board size unchanged. */
  lemma {:induction false} PlayValid(h: HexState, cells: seq<Cell>)
    requires h.Valid()
    requires forall k :: 0 <= k < |cells| ==> h.board.InBounds(cells[k])
    ensures PlayMoves(h, cells).Valid() && PlayMoves(h, cells).board.Size() == h.board.Size()
    decreases |cells|
  {
    if |cells| > 0 {
      PlayValid(Move(h, cells[0]), cells[1..]);
    }
  }

  /** A sequence of moves pushes its cells on the stack. */
  lemma {:induction false} PlayStack(h: HexState, cells: seq<Cell>)
    requires h.Valid()
    requires forall k :: 0 <= k < |cells| ==> h.board.InBounds(cells[k])
    ensures PlayMoves(h, cells).taken == h.taken + cells
    decreases |cells|
  {
    if |cells| > 0 {
      var h1 := Move(h, cells[0]);
      PlayStack(h1, cells[1..]);
      assert h.taken + cells == h1.taken + cells[1..];
    }
  }

  /** A sequence of moves passes the turn once per move. */
  lemma {:induction false} PlayTurn(h: HexState, cells: seq<Cell>)
    requires h.Valid()
    requires forall k :: 0 <= k < |cells| ==> h.board.InBounds(cells[k])
    ensures PlayMoves(h, cells).next == FlipTimes(h.next, |cells|)
    decreases |cells|
  {
    if |cells| > 0 {
      PlayTurn(Move(h, cells[0]), cells[1..]);
      FlipTimesShift(h.next, |cells| - 1);
    }
  }

  /** A sequence of moves removes its cells from the empty set. */
  lemma {:induction false} PlayEmptyCells(h: HexState, cells: seq<Cell>)
    requires h.Valid()
    requires forall k :: 0 <= k < |cells| ==> h.board.InBounds(cells[k])
    ensures PlayMoves(h, cells).emptyCells == h.emptyCells - Elems(cells)
    decreases |cells|
  {
    if |cells| > 0 {
      PlayEmptyCells(Move(h, cells[0]), cells[1..]);
      assert Elems(cells) == {cells[0]} + Elems(cells[1..]);
    }
  }

  /** A sequence of moves leaves every cell it does not play as it was. */
  lemma {:induction false} PlayBoard(h: HexState, cells: seq<Cell>)
    requires h.Valid()
    requires forall k :: 0 <= k < |cells| ==> h.board.InBounds(cells[k])
    ensures PlayMoves(h, cells).Valid() && PlayMoves(h, cells).board.Size() == h.board.Size()
    ensures forall d :: h.board.InBounds(d) && d !in cells ==> PlayMoves(h, cells).board.At(d) == h.board.At(d)
    decreases |cells|
  {
    if |cells| > 0 {
      PlayValid(h, cells);
      PlayBoard(Move(h, cells[0]), cells[1..]);
    }
  }

  /**
   * Playing moves from the initial position and undoing them all leaves an
   * empty board, an empty stack and Red to move; the empty set keeps the
   * played cells on top of the diagonal it started with, and the winner
   * stays whatever the last move recorded.
   */
  lemma UndoAfterPlay(n: nat, cells: seq<Cell>)
    requires forall k :: 0 <= k < |cells| ==> cells[k].i < n && cells[k].j < n
    ensures var h := Play(Init(n), cells);
      h.Valid() && Undone(h) == HexState(EmptyBoard(n), Diagonal(n) + Elems(cells), [], Red, h.winner)
  {
    var h0 := Init(n);
    PlayMatchesMoves(h0, cells);
    UndoAfterMoves(n, cells);
    UndoneRestores(Play(h0, cells));
  }

  /** `UndoAfterPlay` for the moves without the winner search. */
  lemma UndoAfterMoves(n: nat, cells: seq<Cell>)
    requires forall k :: 0 <= k < |cells| ==> cells[k].i < n && cells[k].j < n
    ensures var h := PlayMoves(Init(n), cells);
      h.Valid() &&
      HexState(ClearCells(h.board, h.taken), h.emptyCells + Elems(h.taken), [], FlipTimes(h.next, |h.taken|), h.winner)
      == HexState(EmptyBoard(n), Diagonal(n) + Elems(cells), [], Red, None)
  {
    var h0 := Init(n);
    PlayValid(h0, cells);
    PlayStack(h0, cells);
    PlayTurn(h0, cells);
    PlayEmptyCells(h0, cells);
    PlayMovesKeepsWinner(h0, cells);
    UndoClearsPlayedBoard(n, cells);
    var h := PlayMoves(h0, cells);
    assert h.emptyCells + Elems(h.taken) == Diagonal(n) + Elems(cells);
    assert FlipTimes(h.next, |h.taken|) == Red;
  }

  /** Clearing the played cells of a game started from the initial position empties the board. */
  lemma UndoClearsPlayedBoard(n: nat, cells: seq<Cell>)
    requires forall k :: 0 <= k < |cells| ==> cells[k].i < n && cells[k].j < n
    ensures PlayMoves(Init(n), cells).Valid()
    ensures ClearCells(PlayMoves(Init(n), cells).board, PlayMoves(Init(n), cells).taken) == EmptyBoard(n)
  {
    var h0 := Init(n);
    PlayValid(h0, cells);
    PlayStack(h0, cells);
    PlayBoard(h0, cells);
    var h := PlayMoves(h0, cells);
    var cleared := ClearCells(h.board, h.taken);
    forall d | cleared.InBounds(d)
      ensures cleared.At(d) == EmptyBoard(n).At(d)
    {
    }
    BoardExtensionality(cleared, EmptyBoard(n));
  }
}
