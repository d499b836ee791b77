/** The board engine as the game component runs it: the loops of moveLeft and
    isGameOver, addRandomTile writing into a board in place, and the game
    state (grid, score, gameOver, won) that move and resetGame update. Each
    loop is proved to compute the reference definition of module Board. */
module Engine {
  import opened Wrappers
  import opened Board

  /** The merge pass of moveLeft: walk the tiles left to right, doubling a
      tile equal to its right neighbour and skipping that neighbour. */
  method MergePass(filtered: seq<int>) returns (merged: seq<int>)
    ensures merged == Merge(filtered)
  {
    merged := [];
    var i := 0;
    while i < |filtered|
      invariant 0 <= i <= |filtered|
      invariant merged + Merge(filtered[i..]) == Merge(filtered)
    {
      MergeStep(filtered, i, merged);
      if i < |filtered| - 1 && filtered[i] == filtered[i + 1] {
        merged := merged + [filtered[i] * 2];
        i := i + 2;
      } else {
        merged := merged + [filtered[i]];
        i := i + 1;
      }
    }
  }

  /** moveLeft for one row: filter out zeros, merge pairs, then push zeros
      until the row has Size cells again. */
  method MoveLeftRow(row: seq<int>) returns (merged: seq<int>)
    ensures merged == Compact(row)
  {
    merged := MergePass(NonZero(row));
    ghost var m := merged;
    while |merged| < Size
      invariant |m| <= |merged| && merged == m + Zeros(|merged| - |m|)
      invariant |merged| == |m| || |merged| <= Size
      decreases Size - |merged|
    {
      merged := merged + [0];
    }
    if |m| >= Size {
      assert m + Zeros(0) == m;
    }
  }

  /** moveLeft for the whole board, row by row. */
  method MoveLeft(g: Grid) returns (moved: Grid)
    ensures moved == CompactGrid(g)
  {
    moved := [];
    for i := 0 to |g|
      invariant |moved| == i
      invariant forall k :: 0 <= k < i ==> moved[k] == Compact(g[k])
    {
      var row := MoveLeftRow(g[i]);
      moved := moved + [row];
    }
  }

  /** isGameOver: any empty cell, then any cell equal to its lower or right
      neighbour, means the game goes on. */
  method IsGameOver(g: Grid) returns (over: bool)
    requires IsGrid(g)
    ensures over <==> Terminal(g)
  {
    for i := 0 to Size
      invariant forall r, c :: 0 <= r < i && 0 <= c < Size ==> g[r][c] != 0
    {
      for j := 0 to Size
        invariant forall r, c :: (0 <= r < i && 0 <= c < Size) || (r == i && 0 <= c < j) ==> g[r][c] != 0
      {
        if g[i][j] == 0 {
          return false;
        }
      }
    }
    NeighboursDifferEverywhere(g);
    for i := 0 to Size
      invariant forall r, c :: 0 <= r < i && 0 <= c < Size ==> NeighboursDiffer(g, r, c)
    {
      for j := 0 to Size
        invariant forall r, c :: (0 <= r < i && 0 <= c < Size) || (r == i && 0 <= c < j) ==> NeighboursDiffer(g, r, c)
      {
        var current := g[i][j];
        if (i < Size - 1 && g[i + 1][j] == current) || (j < Size - 1 && g[i][j + 1] == current) {
          assert !NeighboursDiffer(g, i, j);
          return false;
        }
      }
    }
    return true;
  }

  /** The cells of a board held in a two-dimensional array. */
  function Contents(a: array2<int>): (g: Grid)
    reads a
    ensures |g| == a.Length0
    ensures forall i :: 0 <= i < a.Length0 ==> |g[i]| == a.Length1
    ensures forall i, j :: 0 <= i < a.Length0 && 0 <= j < a.Length1 ==> g[i][j] == a[i, j]
  {
    seq(a.Length0, i requires 0 <= i < a.Length0 reads a =>
      seq(a.Length1, j requires 0 <= j < a.Length1 reads a => a[i, j]))
  }

  /** The first half of addRandomTile: the empty cells of the board, row by
      row. */
  method CollectEmptyCells(a: array2<int>) returns (emptyCells: seq<Cell>)
    requires a.Length0 == Size && a.Length1 == Size
    ensures emptyCells == EmptyCells(Contents(a))
  {
    ghost var g := Contents(a);
    emptyCells := [];
    for i := 0 to Size
      invariant emptyCells == EmptyInRows(g[..i])
    {
      ghost var before := emptyCells;
      for j := 0 to Size
        invariant emptyCells == before + EmptyInRow(g[i][..j], i)
      {
        EmptyInRowStep(g[i], i, j);
        ghost var found := if g[i][j] == 0 then [Cell(i, j)] else [];
        AppendAssoc(before, EmptyInRow(g[i][..j], i), found);
        assert a[i, j] == g[i][j];
        if a[i, j] == 0 {
          emptyCells := emptyCells + [Cell(i, j)];
        }
      }
      assert g[i][..Size] == g[i];
      EmptyInRowsStep(g, i);
    }
    assert g[..Size] == g;
  }

  /** addRandomTile: collect the empty cells row by row, then write a 2 or a
      4 into the one the draw picks. The board is changed in place; a full
      board is left as it is. */
  method AddRandomTile(a: array2<int>, cellDraw: real, valueDraw: real)
    requires a.Length0 == Size && a.Length1 == Size
    requires 0.0 <= cellDraw < 1.0
    modifies a
    ensures Contents(a) == Spawned(old(Contents(a)), cellDraw, valueDraw)
  {
    ghost var g := Contents(a);
    var emptyCells := CollectEmptyCells(a);
    if |emptyCells| > 0 {
      var k := Pick(cellDraw, |emptyCells|);
      var cell := emptyCells[k];
      a[cell.row, cell.col] := TileValue(valueDraw);
      ghost var spawned := Spawn(g, k, TileValue(valueDraw));
      forall i, j | 0 <= i < Size && 0 <= j < Size
        ensures Contents(a)[i][j] == spawned[i][j]
      {
        if Cell(i, j) != cell {
          assert a[i, j] == old(a[i, j]) == g[i][j];
        }
      }
      SameCells(Contents(a), spawned);
    } else {
      SameCells(Contents(a), g);
    }
  }

  /** initializeGrid: an empty board with two tiles added. */
  method InitializeGrid(cellDraw1: real, valueDraw1: real, cellDraw2: real, valueDraw2: real)
    returns (g: Grid)
    requires 0.0 <= cellDraw1 < 1.0 && 0.0 <= cellDraw2 < 1.0
    ensures g == InitialGrid(cellDraw1, valueDraw1, cellDraw2, valueDraw2)
  {
    var a := new int[Size, Size]((_, _) => 0);
    SameCells(Contents(a), EmptyGrid());
    AddRandomTile(a, cellDraw1, valueDraw1);
    AddRandomTile(a, cellDraw2, valueDraw2);
    g := Contents(a);
  }

  /** The spawn step of move: addRandomTile applied to a fresh copy of the
      slid board. */
  method SpawnOnCopy(g: Grid, cellDraw: real, valueDraw: real) returns (next: Grid)
    requires IsGrid(g) && 0.0 <= cellDraw < 1.0
    ensures next == Spawned(g, cellDraw, valueDraw)
  {
    var a := new int[Size, Size]((i, j) requires 0 <= i < Size && 0 <= j < Size => g[i][j]);
    SameCells(Contents(a), g);
    AddRandomTile(a, cellDraw, valueDraw);
    next := Contents(a);
  }

  /** The part of move that applies a direction: moveLeft wrapped in the
      quarter turns the direction names. */
  method Slide(d: Direction, g: Grid) returns (newGrid: Grid)
    requires IsGrid(g)
    ensures newGrid == Transform(d, g)
  {
    TransformNesting(d, g);
    match d {
      case Left =>
        newGrid := MoveLeft(g);
      case Right =>
        var moved := MoveLeft(Rotate(Rotate(g)));
        newGrid := Rotate(Rotate(moved));
      case Up =>
        var moved := MoveLeft(Rotate(g));
        newGrid := Rotate(Rotate(Rotate(moved)));
      case Down =>
        var moved := MoveLeft(Rotate(Rotate(Rotate(g))));
        newGrid := Rotate(moved);
    }
  }

  /** The scoring loop of move: the sum of all cells, and whether some cell
      reaches WinningTile. */
  method Tally(g: Grid) returns (total: int, reachedWin: bool)
    requires IsGrid(g)
    ensures total == GridSum(g)
    ensures reachedWin == HasWinningTile(g)
  {
    total := 0;
    reachedWin := false;
    for i := 0 to Size
      invariant total == GridSum(g[..i])
      invariant reachedWin <==> exists r, c :: 0 <= r < i && 0 <= c < Size && g[r][c] >= WinningTile
    {
      for j := 0 to Size
        invariant total == GridSum(g[..i]) + Sum(g[i][..j])
        invariant reachedWin <==>
          || (exists r, c :: 0 <= r < i && 0 <= c < Size && g[r][c] >= WinningTile)
          || (exists c :: 0 <= c < j && g[i][c] >= WinningTile)
      {
        if g[i][j] >= WinningTile {
          reachedWin := true;
        }
        SumPrefix(g[i], j);
        total := total + g[i][j];
      }
      assert g[i][..Size] == g[i];
      GridSumPrefix(g, i);
    }
    assert g[..Size] == g;
  }

  /** The rest of a move that changed the board: spawn a tile on the slid
      board, then compute the new score, whether a winning tile is present,
      and whether the game is over. */
  method SpawnAndScore(d: Direction, g: Grid, slid: Grid, cellDraw: real, valueDraw: real)
    returns (next: Grid, total: int, reachedWin: bool, over: bool)
    requires IsGrid(g) && TilesValid(g) && 0.0 <= cellDraw < 1.0
    requires slid == Transform(d, g) && slid != g
    ensures next == Spawned(slid, cellDraw, valueDraw)
    ensures IsGrid(next) && TilesValid(next)
    ensures GridCount(next) == GridCount(slid) + 1
    ensures total == GridSum(next) == GridSum(g) + TileValue(valueDraw)
    ensures reachedWin == HasWinningTile(next)
    ensures over == Terminal(next)
  {
    ChangedMoveOutcome(d, g, cellDraw, valueDraw);
    TransformKeepsTiles(d, g);
    SpawnedKeepsTiles(slid, cellDraw, valueDraw);
    next := SpawnOnCopy(slid, cellDraw, valueDraw);
    total, reachedWin := Tally(next);
    over := IsGameOver(next);
  }

  /** The state of one game: the board, the score shown, and the two flags
      that end play. */
  class Game {
    var grid: Grid
    var score: int
    var gameOver: bool
    var won: bool

    /** The board is Size x Size and every cell is 0 or a power of two no
        smaller than 2. */
    ghost predicate Valid()
      reads this
    {
      IsGrid(grid) && TilesValid(grid)
    }

    /** The first render: a new board, score 0, both flags cleared. */
    constructor (cellDraw1: real, valueDraw1: real, cellDraw2: real, valueDraw2: real)
      requires 0.0 <= cellDraw1 < 1.0 && 0.0 <= cellDraw2 < 1.0
      ensures Valid()
      ensures grid == InitialGrid(cellDraw1, valueDraw1, cellDraw2, valueDraw2)
      ensures GridCount(grid) == 2
      ensures score == 0 && !gameOver && !won
    {
      var g := InitializeGrid(cellDraw1, valueDraw1, cellDraw2, valueDraw2);
      InitialGridHasTwoTiles(cellDraw1, valueDraw1, cellDraw2, valueDraw2);
      grid := g;
      score := 0;
      gameOver := false;
      won := false;
    }

    /** resetGame: report a positive score to the listener when there is
        one, then start over with a new board. */
    method ResetGame(hasListener: bool, cellDraw1: real, valueDraw1: real, cellDraw2: real, valueDraw2: real)
      returns (reported: Option<int>)
      requires 0.0 <= cellDraw1 < 1.0 && 0.0 <= cellDraw2 < 1.0
      modifies this
      ensures reported == if hasListener && old(score) > 0 then Some(old(score)) else None
      ensures Valid()
      ensures grid == InitialGrid(cellDraw1, valueDraw1, cellDraw2, valueDraw2)
      ensures GridCount(grid) == 2
      ensures score == 0 && !gameOver && !won
    {
      reported := None;
      if hasListener && score > 0 {
        reported := Some(score);
      }
      var g := InitializeGrid(cellDraw1, valueDraw1, cellDraw2, valueDraw2);
      InitialGridHasTwoTiles(cellDraw1, valueDraw1, cellDraw2, valueDraw2);
      grid := g;
      score := 0;
      gameOver := false;
      won := false;
    }

    /** move: slide the board in the named direction. When the game is over,
        the name is unknown or nothing slides, the state is left as it is.
        Otherwise a tile is spawned, the score becomes the board sum, won is
        raised by any cell of at least WinningTile and gameOver by a terminal
        board. */
    method Move(direction: string, cellDraw: real, valueDraw: real)
      requires Valid()
      requires 0.0 <= cellDraw < 1.0
      modifies this
      ensures Valid()
      ensures var d := ParseDirection(direction);
        if old(gameOver) || d.None? || Transform(d.value, old(grid)) == old(grid) then
          && grid == old(grid) && score == old(score)
          && gameOver == old(gameOver) && won == old(won)
        else
          var next := Spawned(Transform(d.value, old(grid)), cellDraw, valueDraw);
          && grid == next
          && GridCount(next) == GridCount(Transform(d.value, old(grid))) + 1
          && score == GridSum(next) == GridSum(old(grid)) + TileValue(valueDraw)
          && won == (old(won) || HasWinningTile(next))
          && gameOver == Terminal(next)
    {
      if gameOver {
        return;
      }
      var d := ParseDirection(direction);
      if d.None? {
        return;
      }
      var newGrid := Slide(d.value, grid);
      if newGrid == grid {
        return;
      }

      var next, newScore, reachedWin, over := SpawnAndScore(d.value, grid, newGrid, cellDraw, valueDraw);
      grid := next;
      if reachedWin {
        won := true;
      }
      score := newScore;
      if over {
        gameOver := true;
      }
    }
  }
}
