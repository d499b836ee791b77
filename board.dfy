/** The board of the tile-merge game as values: a 4 x 4 grid of integers in
    which 0 is an empty cell. This module holds the reference definitions of
    the engine (the one-row slide and merge, the clockwise rotation, the four
    directions built from them, the terminal test and tile spawning) and the
    laws proved about them. The loops that compute them live in module Engine. */
module Board {
  import opened Wrappers

  /** GRID_SIZE */
  const Size: int := 4
  /** The winning threshold (2405 in this game, not the classic 2048). */
  const WinningTile: int := 2405

  type Grid = seq<seq<int>>

  /** A Size x Size board. */
  predicate IsGrid(g: Grid) {
    |g| == Size && forall r :: 0 <= r < |g| ==> |g[r]| == Size
  }

  // ---------------------------------------------------------------------
  // Sums and counts

  function Sum(s: seq<int>): int {
    if s == [] then 0 else s[0] + Sum(s[1..])
  }

  /** Number of non-zero cells of a row. */
  function CountNonZero(s: seq<int>): (n: nat)
    ensures n <= |s|
  {
    if s == [] then 0 else (if s[0] != 0 then 1 else 0) + CountNonZero(s[1..])
  }

  /** Sum of all cells of a board. */
  function GridSum(g: Grid): int {
    if g == [] then 0 else Sum(g[0]) + GridSum(g[1..])
  }

  /** Number of tiles (non-zero cells) on a board. */
  function GridCount(g: Grid): nat {
    if g == [] then 0 else CountNonZero(g[0]) + GridCount(g[1..])
  }

  function Zeros(n: nat): (z: seq<int>)
    ensures |z| == n && forall i :: 0 <= i < n ==> z[i] == 0
  {
    seq(n, _ => 0)
  }

  lemma {:induction false} SumConcat(a: seq<int>, b: seq<int>)
    ensures Sum(a + b) == Sum(a) + Sum(b)
  {
    if a == [] {
      assert a + b == b;
    } else {
      assert (a + b)[1..] == a[1..] + b;
      SumConcat(a[1..], b);
    }
  }

  lemma {:induction false} GridSumConcat(a: Grid, b: Grid)
    ensures GridSum(a + b) == GridSum(a) + GridSum(b)
  {
    if a == [] {
      assert a + b == b;
    } else {
      assert (a + b)[1..] == a[1..] + b;
      GridSumConcat(a[1..], b);
    }
  }

  lemma {:induction false} ZerosAreEmpty(n: nat)
    ensures Sum(Zeros(n)) == 0 && CountNonZero(Zeros(n)) == 0
  {
    if n > 0 {
      assert Zeros(n)[1..] == Zeros(n - 1);
      ZerosAreEmpty(n - 1);
    }
  }

  /** Padding a zero-free prefix with zeros: the count of tiles is the
      length of the prefix. */
  lemma {:induction false} CountPadded(m: seq<int>, n: nat)
    requires forall i :: 0 <= i < |m| ==> m[i] != 0
    ensures CountNonZero(m + Zeros(n)) == |m|
  {
    if m == [] {
      assert m + Zeros(n) == Zeros(n);
      ZerosAreEmpty(n);
    } else {
      assert (m + Zeros(n))[1..] == m[1..] + Zeros(n);
      CountPadded(m[1..], n);
    }
  }

  lemma {:induction false} SumUpdate(s: seq<int>, i: nat, v: int)
    requires i < |s|
    ensures Sum(s[i := v]) == Sum(s) - s[i] + v
  {
    if i == 0 {
      assert s[i := v][1..] == s[1..];
    } else {
      assert s[i := v][1..] == s[1..][i - 1 := v];
      SumUpdate(s[1..], i - 1, v);
    }
  }

  lemma {:induction false} CountUpdate(s: seq<int>, i: nat, v: int)
    requires i < |s| && s[i] == 0 && v != 0
    ensures CountNonZero(s[i := v]) == CountNonZero(s) + 1
  {
    if i == 0 {
      assert s[i := v][1..] == s[1..];
    } else {
      assert s[i := v][1..] == s[1..][i - 1 := v];
      CountUpdate(s[1..], i - 1, v);
    }
  }

  /** Replacing one row changes the board sum and the tile count by that
      row's difference. */
  lemma {:induction false} GridRowUpdate(g: Grid, r: nat, row: seq<int>)
    requires r < |g|
    ensures GridSum(g[r := row]) == GridSum(g) - Sum(g[r]) + Sum(row)
    ensures GridCount(g[r := row]) == GridCount(g) - CountNonZero(g[r]) + CountNonZero(row)
  {
    if r == 0 {
      assert g[r := row][1..] == g[1..];
    } else {
      assert g[r := row][1..] == g[1..][r - 1 := row];
      GridRowUpdate(g[1..], r - 1, row);
    }
  }

  lemma Sum4(s: seq<int>)
    requires |s| == Size
    ensures Sum(s) == s[0] + s[1] + s[2] + s[3]
  {
    assert s[1..][1..] == s[2..];
    assert s[2..][1..] == s[3..];
    assert s[3..][1..] == [];
    assert Sum(s[3..]) == s[3];
    assert Sum(s[2..]) == s[2] + s[3];
    assert Sum(s[1..]) == s[1] + s[2] + s[3];
  }

  lemma GridSum4(g: Grid)
    requires IsGrid(g)
    ensures GridSum(g) == Sum(g[0]) + Sum(g[1]) + Sum(g[2]) + Sum(g[3])
  {
    assert g[1..][1..] == g[2..];
    assert g[2..][1..] == g[3..];
    assert g[3..][1..] == [];
    assert GridSum(g[3..]) == Sum(g[3]);
    assert GridSum(g[2..]) == Sum(g[2]) + Sum(g[3]);
    assert GridSum(g[1..]) == Sum(g[1]) + Sum(g[2]) + Sum(g[3]);
  }

  /** Extending a prefix by one cell adds that cell to the sum. */
  lemma SumPrefix(s: seq<int>, j: nat)
    requires j < |s|
    ensures Sum(s[..j + 1]) == Sum(s[..j]) + s[j]
  {
    assert s[..j + 1] == s[..j] + [s[j]];
    SumConcat(s[..j], [s[j]]);
  }

  lemma GridSumPrefix(g: Grid, i: nat)
    requires i < |g|
    ensures GridSum(g[..i + 1]) == GridSum(g[..i]) + Sum(g[i])
  {
    assert g[..i + 1] == g[..i] + [g[i]];
    GridSumConcat(g[..i], [g[i]]);
  }

  /** Two boards with the same cells are the same board. */
  lemma SameCells(g: Grid, h: Grid)
    requires IsGrid(g) && IsGrid(h)
    requires forall i, j :: 0 <= i < Size && 0 <= j < Size ==> g[i][j] == h[i][j]
    ensures g == h
  {
    forall i | 0 <= i < Size
      ensures g[i] == h[i]
    {
      assert forall j :: 0 <= j < Size ==> g[i][j] == h[i][j];
    }
  }

  // ---------------------------------------------------------------------
  // moveLeft on one row: drop zeros, merge pairs, pad with zeros

  /** The filter step of moveLeft: the row without its zeros, in order. */
  function NonZero(row: seq<int>): (f: seq<int>)
    ensures |f| == CountNonZero(row)
    ensures forall i :: 0 <= i < |f| ==> f[i] != 0
    ensures forall x :: x in f ==> x in row
    ensures Sum(f) == Sum(row)
  {
    if row == [] then []
    else if row[0] == 0 then NonZero(row[1..])
    else [row[0]] + NonZero(row[1..])
  }

  /** The merge pass over a row without zeros: scanning left to right, a
      value equal to its right neighbour is replaced by their sum and the
      neighbour is skipped, so a tile merges at most once. */
  function Merge(f: seq<int>): (m: seq<int>)
    ensures |m| <= |f|
    ensures Sum(m) == Sum(f)
    ensures (forall i :: 0 <= i < |f| ==> f[i] != 0) ==> forall i :: 0 <= i < |m| ==> m[i] != 0
    decreases |f|
  {
    if f == [] then []
    else if |f| >= 2 && f[0] == f[1] then
      assert f[1..][1..] == f[2..];
      [f[0] * 2] + Merge(f[2..])
    else [f[0]] + Merge(f[1..])
  }

  /** moveLeft applied to one row: the merged values first, then zeros up
      to Size cells. */
  function Compact(row: seq<int>): (r: seq<int>)
    ensures |row| <= Size ==> |r| == Size
  {
    var m := Merge(NonZero(row));
    if |m| < Size then m + Zeros(Size - |m|) else m
  }

  /** A compacted row keeps the length, the sum, never gains tiles, and holds
      all its tiles before all its empty cells. */
  lemma CompactLaws(row: seq<int>)
    requires |row| == Size
    ensures |Compact(row)| == Size
    ensures Sum(Compact(row)) == Sum(row)
    ensures CountNonZero(Compact(row)) <= CountNonZero(row)
    ensures forall i, j :: 0 <= i < j < Size && Compact(row)[j] != 0 ==> Compact(row)[i] != 0
  {
    var m := Merge(NonZero(row));
    if |m| < Size {
      SumConcat(m, Zeros(Size - |m|));
      ZerosAreEmpty(Size - |m|);
      CountPadded(m, Size - |m|);
    } else {
      assert m == m + Zeros(0);
      CountPadded(m, 0);
    }
  }

  /** Worked examples of the merge rule. The leftmost pair merges first. */
  lemma CompactMergesLeftmostPair()
    ensures Compact([2, 2, 2, 0]) == [4, 2, 0, 0]
  {
    assert NonZero([2, 2, 2, 0]) == [2, 2, 2];
    assert Merge([2, 2, 2]) == [4, 2];
  }

  /** A tile merges at most once per move: four equal tiles give two. */
  lemma CompactMergesEachTileOnce()
    ensures Compact([4, 4, 4, 4]) == [8, 8, 0, 0]
  {
    assert NonZero([4, 4, 4, 4]) == [4, 4, 4, 4];
    assert Merge([4, 4]) == [8];
    assert Merge([4, 4, 4, 4]) == [8, 8];
  }

  /** Empty cells are skipped before merging, so tiles slide over gaps. */
  lemma CompactSlidesOverGaps()
    ensures Compact([0, 0, 2, 2]) == [4, 0, 0, 0]
    ensures Compact([2, 0, 2, 0]) == [4, 0, 0, 0]
  {
    assert NonZero([0, 0, 2, 2]) == [2, 2];
    assert Merge([2, 2]) == [4];
    assert NonZero([2, 0, 2, 0]) == [2, 2];
  }

  predicate NoEqualAdjacent(s: seq<int>) {
    forall i :: 0 <= i < |s| - 1 ==> s[i] != s[i + 1]
  }

  /** The merge of the suffix from i, unfolded once. */
  lemma MergeAt(f: seq<int>, i: int)
    requires 0 <= i < |f|
    ensures Merge(f[i..]) ==
      if i < |f| - 1 && f[i] == f[i + 1] then [f[i] * 2] + Merge(f[i + 2..]) else [f[i]] + Merge(f[i + 1..])
  {
    var t := f[i..];
    assert t[0] == f[i] && t[1..] == f[i + 1..];
    if i < |f| - 1 {
      assert t[1] == f[i + 1] && t[2..] == f[i + 2..];
    }
  }

  /** One step of the merge pass at position i: with the output so far in
      done, appending the next merged or copied tile keeps done plus the
      merge of the rest equal to the merge of the whole row. */
  lemma MergeStep(f: seq<int>, i: int, done: seq<int>)
    requires 0 <= i < |f| && done + Merge(f[i..]) == Merge(f)
    ensures i < |f| - 1 && f[i] == f[i + 1] ==> (done + [f[i] * 2]) + Merge(f[i + 2..]) == Merge(f)
    ensures !(i < |f| - 1 && f[i] == f[i + 1]) ==> (done + [f[i]]) + Merge(f[i + 1..]) == Merge(f)
  {
    MergeAt(f, i);
    if i < |f| - 1 && f[i] == f[i + 1] {
      AppendAssoc(done, [f[i] * 2], Merge(f[i + 2..]));
    } else {
      AppendAssoc(done, [f[i]], Merge(f[i + 1..]));
    }
  }

  lemma AppendAssoc<T>(a: seq<T>, b: seq<T>, c: seq<T>)
    ensures (a + b) + c == a + (b + c)
  {
  }

  /** A merge pass that keeps the length merged nothing: it returns its
      input. */
  lemma {:induction false} MergeKeepingLength(f: seq<int>)
    requires |Merge(f)| == |f|
    ensures Merge(f) == f
    decreases |f|
  {
    if f != [] {
      if !(|f| >= 2 && f[0] == f[1]) {
        MergeKeepingLength(f[1..]);
      }
    }
  }

  lemma {:induction false} MergeWithoutPairs(f: seq<int>)
    requires NoEqualAdjacent(f)
    ensures Merge(f) == f
    decreases |f|
  {
    if f != [] {
      MergeWithoutPairs(f[1..]);
    }
  }

  lemma {:induction false} NonZeroOfFullRow(row: seq<int>)
    requires CountNonZero(row) == |row|
    ensures NonZero(row) == row
  {
    if row != [] {
      NonZeroOfFullRow(row[1..]);
    }
  }

  /** A full row with no equal neighbours does not move. */
  lemma CompactFixesBlockedRow(row: seq<int>)
    requires |row| == Size
    requires forall i :: 0 <= i < Size ==> row[i] != 0
    requires NoEqualAdjacent(row)
    ensures Compact(row) == row
  {
    CountAllNonZero(row);
    NonZeroOfFullRow(row);
    MergeWithoutPairs(row);
  }

  lemma {:induction false} CountAllNonZero(row: seq<int>)
    requires forall i :: 0 <= i < |row| ==> row[i] != 0
    ensures CountNonZero(row) == |row|
  {
    if row != [] {
      CountAllNonZero(row[1..]);
    }
  }

  /** A row that moves ends in an empty cell: either a pair merged or there
      was an empty cell to slide into. */
  lemma ChangedRowEndsEmpty(row: seq<int>)
    requires |row| == Size && Compact(row) != row
    ensures Compact(row)[Size - 1] == 0
  {
    var f := NonZero(row);
    var m := Merge(f);
    if |m| >= Size {
      assert |f| == Size;
      NonZeroOfFullRow(row);
      MergeKeepingLength(f);
      assert false;
    }
  }

  // ---------------------------------------------------------------------
  // Whole boards: moveLeft, rotateGrid and the four directions

  /** moveLeft: every row compacted toward column 0. */
  function CompactGrid(g: Grid): (r: Grid)
    ensures IsGrid(g) ==> IsGrid(r)
  {
    seq(|g|, i requires 0 <= i < |g| => Compact(g[i]))
  }

  /** rotateGrid: a quarter turn clockwise, the cell at row i, column j
      moving to row j, column Size - 1 - i. */
  function Rotate(g: Grid): (r: Grid)
    requires IsGrid(g)
    ensures IsGrid(r)
    ensures forall i, j :: 0 <= i < Size && 0 <= j < Size ==> r[j][Size - 1 - i] == g[i][j]
  {
    seq(Size, j requires 0 <= j < Size => seq(Size, k requires 0 <= k < Size => g[Size - 1 - k][j]))
  }

  lemma RotateTwice(g: Grid)
    requires IsGrid(g)
    ensures forall i, j :: 0 <= i < Size && 0 <= j < Size ==>
      Rotate(Rotate(g))[i][j] == g[Size - 1 - i][Size - 1 - j]
  {
  }

  lemma RotateThrice(g: Grid)
    requires IsGrid(g)
    ensures forall i, j :: 0 <= i < Size && 0 <= j < Size ==>
      Rotate(Rotate(Rotate(g)))[i][j] == g[j][Size - 1 - i]
  {
    RotateTwice(g);
  }

  /** Four quarter turns give back the board. */
  lemma RotateFourTimes(g: Grid)
    requires IsGrid(g)
    ensures Rotate(Rotate(Rotate(Rotate(g)))) == g
  {
    var r4 := Rotate(Rotate(Rotate(Rotate(g))));
    RotateTwice(g);
    RotateTwice(Rotate(Rotate(g)));
    forall i | 0 <= i < Size
      ensures r4[i] == g[i]
    {
      assert forall j :: 0 <= j < Size ==> r4[i][j] == g[i][j];
    }
  }

  /** The cells of a board, row after row. */
  function Flatten(g: Grid): seq<int> {
    if g == [] then [] else g[0] + Flatten(g[1..])
  }

  lemma FlattenCells(g: Grid)
    requires IsGrid(g)
    ensures Flatten(g) == g[0] + g[1] + g[2] + g[3]
  {
    assert g[1..][1..] == g[2..];
    assert g[2..][1..] == g[3..];
    assert g[3..][1..] == [];
    assert Flatten(g[3..]) == g[3] + [];
    assert Flatten(g[2..]) == g[2] + g[3];
    assert Flatten(g[1..]) == g[1] + (g[2] + g[3]);
  }

  function RowBag(s: seq<int>): multiset<int>
    requires |s| == Size
  {
    multiset{s[0]} + multiset{s[1]} + multiset{s[2]} + multiset{s[3]}
  }

  lemma RowBagIsMultiset(s: seq<int>)
    requires |s| == Size
    ensures multiset(s) == RowBag(s)
  {
    assert s == [s[0]] + [s[1]] + [s[2]] + [s[3]];
  }

  /** A quarter turn only moves cells: the multiset of cell values is kept. */
  lemma RotatePermutes(g: Grid)
    requires IsGrid(g)
    ensures multiset(Flatten(Rotate(g))) == multiset(Flatten(g))
  {
    var r := Rotate(g);
    FlattenCells(g);
    FlattenCells(r);
    RowBagIsMultiset(g[0]);
    RowBagIsMultiset(g[1]);
    RowBagIsMultiset(g[2]);
    RowBagIsMultiset(g[3]);
    RowBagIsMultiset(r[0]);
    RowBagIsMultiset(r[1]);
    RowBagIsMultiset(r[2]);
    RowBagIsMultiset(r[3]);
  }

  /** A quarter turn keeps the board sum. */
  lemma RotateKeepsSum(g: Grid)
    requires IsGrid(g)
    ensures GridSum(Rotate(g)) == GridSum(g)
  {
    var r := Rotate(g);
    GridSum4(g);
    GridSum4(r);
    Sum4(g[0]); Sum4(g[1]); Sum4(g[2]); Sum4(g[3]);
    Sum4(r[0]); Sum4(r[1]); Sum4(r[2]); Sum4(r[3]);
  }

  /** moveLeft keeps the board sum. */
  lemma CompactGridKeepsSum(g: Grid)
    requires IsGrid(g)
    ensures GridSum(CompactGrid(g)) == GridSum(g)
  {
    var m := CompactGrid(g);
    GridSum4(g);
    GridSum4(m);
    CompactLaws(g[0]); CompactLaws(g[1]); CompactLaws(g[2]); CompactLaws(g[3]);
  }

  /** Column c of a board, read from row 0 down. */
  function Column(g: Grid, c: int): (col: seq<int>)
    requires IsGrid(g) && 0 <= c < Size
    ensures |col| == Size
  {
    seq(Size, r requires 0 <= r < Size => g[r][c])
  }

  function Reverse(s: seq<int>): (r: seq<int>)
    ensures |r| == |s|
  {
    seq(|s|, i requires 0 <= i < |s| => s[|s| - 1 - i])
  }

  /** The four directions of the move command. */
  datatype Direction = Left | Right | Up | Down

  /** The direction named by a move command; any other name is unknown. */
  function ParseDirection(name: string): (d: Option<Direction>)
    ensures d == Some(Left) <==> name == "left"
    ensures d == Some(Right) <==> name == "right"
    ensures d == Some(Up) <==> name == "up"
    ensures d == Some(Down) <==> name == "down"
  {
    if name == "left" then Some(Left)
    else if name == "right" then Some(Right)
    else if name == "up" then Some(Up)
    else if name == "down" then Some(Down)
    else None
  }

  /** The board after k quarter turns clockwise. */
  function Turn(g: Grid, k: nat): (r: Grid)
    requires IsGrid(g)
    ensures IsGrid(r)
  {
    if k == 0 then g else Rotate(Turn(g, k - 1))
  }

  /** The quarter turns move makes before moveLeft, per direction. */
  function TurnsBefore(d: Direction): (n: nat)
    ensures n < 4
    ensures (n + TurnsAfter(d)) % 4 == 0
  {
    match d
    case Left => 0
    case Right => 2
    case Up => 1
    case Down => 3
  }

  /** The quarter turns move makes after moveLeft, per direction. */
  function TurnsAfter(d: Direction): nat {
    match d
    case Left => 0
    case Right => 2
    case Up => 3
    case Down => 1
  }

  /** The board a move produces before a tile is spawned: moveLeft wrapped in
      quarter turns, in the order the move command applies them. */
  function Transform(d: Direction, g: Grid): (r: Grid)
    requires IsGrid(g)
    ensures IsGrid(r)
  {
    Turn(CompactGrid(Turn(g, TurnsBefore(d))), TurnsAfter(d))
  }

  lemma TurnCounts(h: Grid)
    requires IsGrid(h)
    ensures Turn(h, 0) == h
    ensures Turn(h, 1) == Rotate(h)
    ensures Turn(h, 2) == Rotate(Rotate(h))
    ensures Turn(h, 3) == Rotate(Rotate(Rotate(h)))
  {
    assert Turn(h, 1) == Rotate(Turn(h, 0));
    assert Turn(h, 2) == Rotate(Turn(h, 1));
    assert Turn(h, 3) == Rotate(Turn(h, 2));
  }

  /** The composition of move for one direction, spelled out turn by turn. */
  lemma TransformNesting(d: Direction, g: Grid)
    requires IsGrid(g)
    ensures Transform(d, g) == match d
      case Left => CompactGrid(g)
      case Right => Rotate(Rotate(CompactGrid(Rotate(Rotate(g)))))
      case Up => Rotate(Rotate(Rotate(CompactGrid(Rotate(g)))))
      case Down => Rotate(CompactGrid(Rotate(Rotate(Rotate(g)))))
  {
    TurnCounts(g);
    TurnCounts(CompactGrid(Turn(g, TurnsBefore(d))));
  }

  /** "left" compacts every row toward column 0. */
  lemma LeftCompactsRows(g: Grid)
    requires IsGrid(g)
    ensures forall r :: 0 <= r < Size ==> Transform(Left, g)[r] == Compact(g[r])
    ensures forall r, i, j :: 0 <= r < Size && 0 <= i < j < Size && Transform(Left, g)[r][j] != 0 ==>
      Transform(Left, g)[r][i] != 0
  {
    TransformNesting(Left, g);
    forall r | 0 <= r < Size {
      CompactLaws(g[r]);
    }
  }

  /** "right" compacts every row toward column Size - 1: it is the left
      slide of the reversed row, reversed back. */
  lemma RightCompactsRows(g: Grid)
    requires IsGrid(g)
    ensures forall r :: 0 <= r < Size ==> Transform(Right, g)[r] == Reverse(Compact(Reverse(g[r])))
    ensures forall r, i, j :: 0 <= r < Size && 0 <= i < j < Size && Transform(Right, g)[r][i] != 0 ==>
      Transform(Right, g)[r][j] != 0
  {
    TransformNesting(Right, g);
    var m := CompactGrid(Rotate(Rotate(g)));
    forall r | 0 <= r < Size
      ensures Rotate(Rotate(m))[r] == Reverse(Compact(Reverse(g[r])))
      ensures forall i, j :: 0 <= i < j < Size && Rotate(Rotate(m))[r][i] != 0 ==> Rotate(Rotate(m))[r][j] != 0
    {
      RowOfHalfTurn(g, Size - 1 - r);
      CompactLaws(Rotate(Rotate(g))[Size - 1 - r]);
      RowOfHalfTurn(m, r);
    }
  }

  /** Row r of a half turn is row Size - 1 - r read backwards. */
  lemma RowOfHalfTurn(g: Grid, r: int)
    requires IsGrid(g) && 0 <= r < Size
    ensures Rotate(Rotate(g))[r] == Reverse(g[Size - 1 - r])
  {
    RotateTwice(g);
  }

  /** As written, "up" compacts every column toward row Size - 1 (the bottom
      row on screen): the left slide of the column read bottom-up. */
  lemma UpCompactsColumnsDownward(g: Grid)
    requires IsGrid(g)
    ensures forall c :: 0 <= c < Size ==>
      Column(Transform(Up, g), c) == Reverse(Compact(Reverse(Column(g, c))))
    ensures forall c, i, j :: 0 <= c < Size && 0 <= i < j < Size && Transform(Up, g)[i][c] != 0 ==>
      Transform(Up, g)[j][c] != 0
  {
    TransformNesting(Up, g);
    var m := CompactGrid(Rotate(g));
    forall c | 0 <= c < Size
      ensures Column(Rotate(Rotate(Rotate(m))), c) == Reverse(Compact(Reverse(Column(g, c))))
      ensures forall i, j :: 0 <= i < j < Size && Rotate(Rotate(Rotate(m)))[i][c] != 0 ==>
        Rotate(Rotate(Rotate(m)))[j][c] != 0
    {
      RowOfRotate(g, c);
      CompactLaws(Rotate(g)[c]);
      ColumnOfThrice(m, c);
    }
  }

  /** Row c of a quarter turn is column c read bottom-up. */
  lemma RowOfRotate(g: Grid, c: int)
    requires IsGrid(g) && 0 <= c < Size
    ensures Rotate(g)[c] == Reverse(Column(g, c))
  {
    var h := Rotate(g);
    forall k | 0 <= k < Size
      ensures h[c][k] == Reverse(Column(g, c))[k]
    {
      assert h[c][Size - 1 - (Size - 1 - k)] == g[Size - 1 - k][c];
    }
  }

  /** Column c of three quarter turns is row c read backwards; each of its
      cells is a cell of that row. */
  lemma ColumnOfThrice(m: Grid, c: int)
    requires IsGrid(m) && 0 <= c < Size
    ensures Column(Rotate(Rotate(Rotate(m))), c) == Reverse(m[c])
    ensures forall i :: 0 <= i < Size ==> Rotate(Rotate(Rotate(m)))[i][c] == m[c][Size - 1 - i]
  {
    RotateThrice(m);
  }

  /** As written, "down" compacts every column toward row 0 (the top row on
      screen): the left slide of the column read top-down. */
  lemma DownCompactsColumnsUpward(g: Grid)
    requires IsGrid(g)
    ensures forall c :: 0 <= c < Size ==> Column(Transform(Down, g), c) == Compact(Column(g, c))
    ensures forall c, i, j :: 0 <= c < Size && 0 <= i < j < Size && Transform(Down, g)[j][c] != 0 ==>
      Transform(Down, g)[i][c] != 0
  {
    TransformNesting(Down, g);
    var h := Rotate(Rotate(Rotate(g)));
    var m := CompactGrid(h);
    forall c | 0 <= c < Size
      ensures Column(Rotate(m), c) == Compact(Column(g, c))
      ensures forall i, j :: 0 <= i < j < Size && Rotate(m)[j][c] != 0 ==> Rotate(m)[i][c] != 0
    {
      RowOfThrice(g, c);
      CompactLaws(h[Size - 1 - c]);
      ColumnOfRotate(m, c);
    }
  }

  /** Row Size - 1 - c of three quarter turns is column c read top-down. */
  lemma RowOfThrice(g: Grid, c: int)
    requires IsGrid(g) && 0 <= c < Size
    ensures Rotate(Rotate(Rotate(g)))[Size - 1 - c] == Column(g, c)
  {
    RotateThrice(g);
    var h := Rotate(Rotate(Rotate(g)));
    forall k | 0 <= k < Size
      ensures h[Size - 1 - c][k] == Column(g, c)[k]
    {
      assert h[Size - 1 - c][k] == g[k][Size - 1 - (Size - 1 - c)];
    }
  }

  /** Column c of a quarter turn is row Size - 1 - c; each of its cells is a
      cell of that row. */
  lemma ColumnOfRotate(m: Grid, c: int)
    requires IsGrid(m) && 0 <= c < Size
    ensures Column(Rotate(m), c) == m[Size - 1 - c]
    ensures forall i :: 0 <= i < Size ==> Rotate(m)[i][c] == m[Size - 1 - c][i]
  {
    forall i | 0 <= i < Size
      ensures Rotate(m)[i][c] == m[Size - 1 - c][i]
    {
      assert Rotate(m)[i][Size - 1 - (Size - 1 - c)] == m[Size - 1 - c][i];
    }
  }

  /** Every direction keeps the board sum. */
  lemma TransformKeepsSum(d: Direction, g: Grid)
    requires IsGrid(g)
    ensures GridSum(Transform(d, g)) == GridSum(g)
  {
    TransformNesting(d, g);
    match d
    case Left =>
      CompactGridKeepsSum(g);
    case Right =>
      var h := Rotate(Rotate(g));
      RotateKeepsSum(g); RotateKeepsSum(Rotate(g));
      CompactGridKeepsSum(h);
      RotateKeepsSum(CompactGrid(h)); RotateKeepsSum(Rotate(CompactGrid(h)));
    case Up =>
      var h := Rotate(g);
      RotateKeepsSum(g);
      CompactGridKeepsSum(h);
      var m := CompactGrid(h);
      RotateKeepsSum(m); RotateKeepsSum(Rotate(m)); RotateKeepsSum(Rotate(Rotate(m)));
    case Down =>
      var h := Rotate(Rotate(Rotate(g)));
      RotateKeepsSum(g); RotateKeepsSum(Rotate(g)); RotateKeepsSum(Rotate(Rotate(g)));
      CompactGridKeepsSum(h);
      RotateKeepsSum(CompactGrid(h));
  }

  // ---------------------------------------------------------------------
  // The terminal test

  predicate NoEmptyCell(g: Grid)
    requires IsGrid(g)
  {
    forall r, c :: 0 <= r < Size && 0 <= c < Size ==> g[r][c] != 0
  }

  /** No row and no column holds two equal cells side by side. */
  predicate NoEqualNeighbours(g: Grid)
    requires IsGrid(g)
  {
    && (forall r :: 0 <= r < Size ==> NoEqualAdjacent(g[r]))
    && (forall c :: 0 <= c < Size ==> NoEqualAdjacent(Column(g, c)))
  }

  /** isGameOver: the board is full and no two horizontally or vertically
      adjacent cells are equal. */
  predicate Terminal(g: Grid)
    requires IsGrid(g)
    ensures Terminal(g) ==> !HasEmptyCell(g)
  {
    NoEmptyCell(g) && NoEqualNeighbours(g)
  }

  lemma ReverseKeepsNoEqualAdjacent(s: seq<int>)
    requires NoEqualAdjacent(s)
    ensures NoEqualAdjacent(Reverse(s))
  {
    forall i | 0 <= i < |s| - 1
      ensures Reverse(s)[i] != Reverse(s)[i + 1]
    {
      assert s[|s| - 1 - (i + 1)] != s[|s| - 1 - (i + 1) + 1];
    }
  }

  /** The check isGameOver makes at one cell: the cell below and the cell
      to the right, where they exist, differ from it. */
  predicate NeighboursDiffer(g: Grid, r: int, c: int)
    requires IsGrid(g) && 0 <= r < Size && 0 <= c < Size
  {
    && (r < Size - 1 ==> g[r + 1][c] != g[r][c])
    && (c < Size - 1 ==> g[r][c + 1] != g[r][c])
  }

  /** Checking every cell against its lower and right neighbour covers every
      adjacent pair of the board once. */
  lemma NeighboursDifferEverywhere(g: Grid)
    requires IsGrid(g)
    ensures NoEqualNeighbours(g) <==>
      forall r, c :: 0 <= r < Size && 0 <= c < Size ==> NeighboursDiffer(g, r, c)
  {
    if NoEqualNeighbours(g) {
      forall r, c | 0 <= r < Size && 0 <= c < Size
        ensures NeighboursDiffer(g, r, c)
      {
        assert NoEqualAdjacent(g[r]);
        assert NoEqualAdjacent(Column(g, c));
        if r < Size - 1 {
          assert Column(g, c)[r] != Column(g, c)[r + 1];
        }
      }
    }
    if forall r, c :: 0 <= r < Size && 0 <= c < Size ==> NeighboursDiffer(g, r, c) {
      forall r | 0 <= r < Size
        ensures NoEqualAdjacent(g[r])
      {
        forall i | 0 <= i < |g[r]| - 1
          ensures g[r][i] != g[r][i + 1]
        {
          assert NeighboursDiffer(g, r, i);
        }
      }
      forall c | 0 <= c < Size
        ensures NoEqualAdjacent(Column(g, c))
      {
        forall i | 0 <= i < Size - 1
          ensures Column(g, c)[i] != Column(g, c)[i + 1]
        {
          assert NeighboursDiffer(g, i, c);
        }
      }
    }
  }

  /** A quarter turn keeps a board terminal. */
  lemma RotateKeepsTerminal(g: Grid)
    requires IsGrid(g) && Terminal(g)
    ensures Terminal(Rotate(g))
  {
    var r := Rotate(g);
    forall i | 0 <= i < Size
      ensures NoEqualAdjacent(r[i])
    {
      assert r[i] == Reverse(Column(g, i));
      ReverseKeepsNoEqualAdjacent(Column(g, i));
    }
    forall j | 0 <= j < Size
      ensures NoEqualAdjacent(Column(r, j))
    {
      assert Column(r, j) == g[Size - 1 - j];
    }
  }

  lemma CompactGridFixesTerminal(g: Grid)
    requires IsGrid(g) && Terminal(g)
    ensures CompactGrid(g) == g
  {
    forall r | 0 <= r < Size
      ensures CompactGrid(g)[r] == g[r]
    {
      CompactFixesBlockedRow(g[r]);
    }
  }

  /** On a terminal board no direction moves anything, so every move command
      is a no-op. */
  lemma TerminalBlocksEveryMove(d: Direction, g: Grid)
    requires IsGrid(g) && Terminal(g)
    ensures Transform(d, g) == g
  {
    TransformNesting(d, g);
    CompactGridFixesTerminal(g);
    RotateKeepsTerminal(g);
    var r1 := Rotate(g);
    RotateKeepsTerminal(r1);
    var r2 := Rotate(r1);
    RotateKeepsTerminal(r2);
    var r3 := Rotate(r2);
    match d
    case Left =>
    case Right =>
      CompactGridFixesTerminal(r2);
      RotateFourTimes(g);
    case Up =>
      CompactGridFixesTerminal(r1);
      RotateFourTimes(g);
    case Down =>
      CompactGridFixesTerminal(r3);
      RotateFourTimes(g);
  }

  // ---------------------------------------------------------------------
  // Empty cells and tile spawning

  predicate HasEmptyCell(g: Grid)
    requires IsGrid(g)
  {
    exists r, c :: 0 <= r < Size && 0 <= c < Size && g[r][c] == 0
  }

  lemma RotateKeepsEmptyCell(g: Grid)
    requires IsGrid(g) && HasEmptyCell(g)
    ensures HasEmptyCell(Rotate(g))
  {
    var r, c :| 0 <= r < Size && 0 <= c < Size && g[r][c] == 0;
    assert Rotate(g)[c][Size - 1 - r] == 0;
  }

  /** A move that changes the board leaves at least one empty cell, so the
      spawn that follows it always places a tile. */
  lemma ChangedMoveLeavesEmptyCell(d: Direction, g: Grid)
    requires IsGrid(g) && Transform(d, g) != g
    ensures HasEmptyCell(Transform(d, g))
  {
    TransformNesting(d, g);
    var r1 := Rotate(g);
    var r2 := Rotate(r1);
    var r3 := Rotate(r2);
    RotateFourTimes(g);
    match d
    case Left =>
      CompactGridChangedEmpty(g);
    case Right =>
      CompactGridChangedEmpty(r2);
      RotateKeepsEmptyCell(CompactGrid(r2));
      RotateKeepsEmptyCell(Rotate(CompactGrid(r2)));
    case Up =>
      CompactGridChangedEmpty(r1);
      RotateKeepsEmptyCell(CompactGrid(r1));
      RotateKeepsEmptyCell(Rotate(CompactGrid(r1)));
      RotateKeepsEmptyCell(Rotate(Rotate(CompactGrid(r1))));
    case Down =>
      CompactGridChangedEmpty(r3);
      RotateKeepsEmptyCell(CompactGrid(r3));
  }

  lemma CompactGridChangedEmpty(h: Grid)
    requires IsGrid(h) && CompactGrid(h) != h
    ensures HasEmptyCell(CompactGrid(h))
  {
    var m := CompactGrid(h);
    assert exists r :: 0 <= r < Size && m[r] != h[r];
    var r :| 0 <= r < Size && m[r] != h[r];
    ChangedRowEndsEmpty(h[r]);
    assert m[r][Size - 1] == 0;
  }

  /** A cell position, as the emptyCells list of addRandomTile records it. */
  datatype Cell = Cell(row: int, col: int)

  /** The empty cells of a row that sits at index i, left to right. */
  function EmptyInRow(row: seq<int>, i: int): (cells: seq<Cell>)
    ensures forall k :: 0 <= k < |cells| ==>
      cells[k].row == i && 0 <= cells[k].col < |row| && row[cells[k].col] == 0
  {
    if row == [] then []
    else
      var last := |row| - 1;
      EmptyInRow(row[..last], i) + (if row[last] == 0 then [Cell(i, last)] else [])
  }

  /** The empty cells of a board, row by row. */
  function EmptyInRows(g: seq<seq<int>>): (cells: seq<Cell>)
    ensures forall k :: 0 <= k < |cells| ==>
      0 <= cells[k].row < |g| && 0 <= cells[k].col < |g[cells[k].row]| && g[cells[k].row][cells[k].col] == 0
  {
    if g == [] then []
    else
      var last := |g| - 1;
      var before := EmptyInRows(g[..last]);
      assert forall k :: 0 <= k < |before| ==> g[..last][before[k].row] == g[before[k].row];
      before + EmptyInRow(g[last], last)
  }

  /** Scanning one more cell of a row. */
  lemma EmptyInRowStep(row: seq<int>, i: int, j: int)
    requires 0 <= j < |row|
    ensures EmptyInRow(row[..j + 1], i) == EmptyInRow(row[..j], i) + (if row[j] == 0 then [Cell(i, j)] else [])
  {
    assert row[..j + 1][..j] == row[..j];
  }

  /** Scanning one more row of a board. */
  lemma EmptyInRowsStep(g: seq<seq<int>>, i: int)
    requires 0 <= i < |g|
    ensures EmptyInRows(g[..i + 1]) == EmptyInRows(g[..i]) + EmptyInRow(g[i], i)
  {
    assert g[..i + 1][..i] == g[..i];
  }

  /** emptyCells: every empty cell of the board, row by row. */
  function EmptyCells(g: Grid): (cells: seq<Cell>)
    requires IsGrid(g)
    ensures forall k :: 0 <= k < |cells| ==>
      0 <= cells[k].row < Size && 0 <= cells[k].col < Size && g[cells[k].row][cells[k].col] == 0
  {
    EmptyInRows(g)
  }

  lemma {:induction false} EmptyInRowComplete(row: seq<int>, i: int, c: int)
    requires 0 <= c < |row| && row[c] == 0
    ensures Cell(i, c) in EmptyInRow(row, i)
  {
    var last := |row| - 1;
    if c < last {
      EmptyInRowComplete(row[..last], i, c);
    }
  }

  lemma {:induction false} EmptyInRowsComplete(g: seq<seq<int>>, r: int, c: int)
    requires 0 <= r < |g| && 0 <= c < |g[r]| && g[r][c] == 0
    ensures Cell(r, c) in EmptyInRows(g)
  {
    var last := |g| - 1;
    if r < last {
      EmptyInRowsComplete(g[..last], r, c);
    } else {
      EmptyInRowComplete(g[r], r, c);
    }
  }

  /** The list of empty cells holds exactly the cells whose value is 0, so
      the random pick ranges over all of them and nothing else. */
  lemma EmptyCellsExact(g: Grid)
    requires IsGrid(g)
    ensures forall r, c :: 0 <= r < Size && 0 <= c < Size ==> (Cell(r, c) in EmptyCells(g) <==> g[r][c] == 0)
    ensures |EmptyCells(g)| > 0 <==> HasEmptyCell(g)
  {
    forall r, c | 0 <= r < Size && 0 <= c < Size && g[r][c] == 0
      ensures Cell(r, c) in EmptyCells(g)
    {
      EmptyInRowsComplete(g, r, c);
    }
    if HasEmptyCell(g) {
      var r, c :| 0 <= r < Size && 0 <= c < Size && g[r][c] == 0;
      assert Cell(r, c) in EmptyCells(g);
    }
    if |EmptyCells(g)| > 0 {
      var cell := EmptyCells(g)[0];
      assert g[cell.row][cell.col] == 0;
    }
  }

  /** Writes v into the k-th empty cell. */
  function Spawn(g: Grid, k: nat, v: int): (r: Grid)
    requires IsGrid(g) && k < |EmptyCells(g)|
    ensures IsGrid(r)
    ensures var cell := EmptyCells(g)[k];
      && g[cell.row][cell.col] == 0
      && r[cell.row][cell.col] == v
      && forall i, j :: 0 <= i < Size && 0 <= j < Size && Cell(i, j) != cell ==> r[i][j] == g[i][j]
  {
    var cell := EmptyCells(g)[k];
    g[cell.row := g[cell.row][cell.col := v]]
  }

  /** A spawn adds its value to the board sum and, for a real tile, adds
      exactly one tile. */
  lemma SpawnAddsOneTile(g: Grid, k: nat, v: int)
    requires IsGrid(g) && k < |EmptyCells(g)|
    ensures GridSum(Spawn(g, k, v)) == GridSum(g) + v
    ensures v != 0 ==> GridCount(Spawn(g, k, v)) == GridCount(g) + 1
  {
    var cell := EmptyCells(g)[k];
    var row := g[cell.row][cell.col := v];
    SumUpdate(g[cell.row], cell.col, v);
    GridRowUpdate(g, cell.row, row);
    if v != 0 {
      CountUpdate(g[cell.row], cell.col, v);
    }
  }

  /** The index of the chosen empty cell: the draw scaled by n and rounded
      down, which for a draw in [0, 1) is below n. */
  function Pick(draw: real, n: nat): (k: nat)
    requires 0.0 <= draw < 1.0 && n > 0
    ensures k < n
  {
    assert draw * (n as real) < n as real;
    (draw * (n as real)).Floor
  }

  /** The new tile: 2 when the draw is below 0.9, otherwise 4. */
  function TileValue(draw: real): (v: int)
    ensures v == 2 || v == 4
  {
    if draw < 0.9 then 2 else 4
  }

  /** addRandomTile as a function of the two random draws: the board as it
      is when full, else the board with one drawn empty cell set to 2 or 4. */
  function Spawned(g: Grid, cellDraw: real, valueDraw: real): (r: Grid)
    requires IsGrid(g) && 0.0 <= cellDraw < 1.0
    ensures IsGrid(r)
  {
    var empty := EmptyCells(g);
    if |empty| == 0 then g else Spawn(g, Pick(cellDraw, |empty|), TileValue(valueDraw))
  }

  /** addRandomTile changes nothing on a full board; otherwise it turns exactly
      one empty cell into a 2 or a 4, leaves every other cell as it was, and
      adds that value to the board sum. */
  lemma SpawnedChangesOneEmptyCell(g: Grid, cellDraw: real, valueDraw: real)
    requires IsGrid(g) && 0.0 <= cellDraw < 1.0
    ensures !HasEmptyCell(g) ==> Spawned(g, cellDraw, valueDraw) == g
    ensures HasEmptyCell(g) ==>
      && GridCount(Spawned(g, cellDraw, valueDraw)) == GridCount(g) + 1
      && GridSum(Spawned(g, cellDraw, valueDraw)) == GridSum(g) + TileValue(valueDraw)
      && exists r, c :: 0 <= r < Size && 0 <= c < Size && g[r][c] == 0
           && Spawned(g, cellDraw, valueDraw)[r][c] == TileValue(valueDraw)
           && forall i, j :: 0 <= i < Size && 0 <= j < Size && (i, j) != (r, c) ==>
                Spawned(g, cellDraw, valueDraw)[i][j] == g[i][j]
  {
    EmptyCellsExact(g);
    if HasEmptyCell(g) {
      var k := Pick(cellDraw, |EmptyCells(g)|);
      SpawnAddsOneTile(g, k, TileValue(valueDraw));
      var cell := EmptyCells(g)[k];
      assert Spawned(g, cellDraw, valueDraw)[cell.row][cell.col] == TileValue(valueDraw);
    }
  }

  // ---------------------------------------------------------------------
  // Tile values and the winning threshold

  predicate PowerOfTwo(n: int)
    decreases if n > 0 then n else 0
  {
    n == 1 || (n > 1 && n % 2 == 0 && PowerOfTwo(n / 2))
  }

  /** A cell holds 0 (empty) or a power of two no smaller than 2. */
  predicate IsTile(v: int) {
    v == 0 || (v >= 2 && PowerOfTwo(v))
  }

  predicate RowTiles(s: seq<int>) {
    forall i :: 0 <= i < |s| ==> IsTile(s[i])
  }

  /** Every cell of the board holds 0 or a power of two no smaller than 2. */
  predicate TilesValid(g: Grid)
    requires IsGrid(g)
  {
    forall r :: 0 <= r < Size ==> RowTiles(g[r])
  }

  /** Merging two equal tiles gives a tile. */
  lemma {:induction false} MergeKeepsTiles(f: seq<int>)
    requires RowTiles(f)
    ensures RowTiles(Merge(f))
    decreases |f|
  {
    if f != [] {
      var skip := if |f| >= 2 && f[0] == f[1] then 2 else 1;
      var head := if skip == 2 then f[0] * 2 else f[0];
      assert Merge(f) == [head] + Merge(f[skip..]);
      TailTiles(f, skip);
      MergeKeepsTiles(f[skip..]);
      DoubleIsTile(f[0]);
      ConsTiles(head, Merge(f[skip..]));
    }
  }

  /** Twice a tile is a tile. */
  lemma DoubleIsTile(v: int)
    requires IsTile(v)
    ensures IsTile(v * 2)
  {
    if v != 0 {
      assert (v * 2) / 2 == v;
    }
  }

  lemma TailTiles(f: seq<int>, k: int)
    requires RowTiles(f) && 0 <= k <= |f|
    ensures RowTiles(f[k..])
  {
    forall i | 0 <= i < |f[k..]| ensures IsTile(f[k..][i]) {
      assert f[k..][i] == f[i + k];
    }
  }

  lemma ConsTiles(v: int, s: seq<int>)
    requires IsTile(v) && RowTiles(s)
    ensures RowTiles([v] + s)
  {
    forall i | 0 <= i < |[v] + s| ensures IsTile(([v] + s)[i]) {
      if i > 0 {
        assert ([v] + s)[i] == s[i - 1];
      }
    }
  }

  lemma CompactKeepsTiles(row: seq<int>)
    requires RowTiles(row)
    ensures RowTiles(Compact(row))
  {
    var f := NonZero(row);
    forall i | 0 <= i < |f| ensures IsTile(f[i]) {
      assert f[i] in row;
    }
    MergeKeepsTiles(f);
  }

  lemma RotateKeepsTiles(g: Grid)
    requires IsGrid(g) && TilesValid(g)
    ensures TilesValid(Rotate(g))
  {
    var r := Rotate(g);
    forall i, j | 0 <= i < Size && 0 <= j < Size
      ensures IsTile(r[i][j])
    {
      assert r[i][j] == g[Size - 1 - j][i];
    }
  }

  lemma CompactGridKeepsTiles(g: Grid)
    requires IsGrid(g) && TilesValid(g)
    ensures TilesValid(CompactGrid(g))
  {
    forall r | 0 <= r < Size {
      CompactKeepsTiles(g[r]);
    }
  }

  /** Every direction keeps all cells tiles. */
  lemma TransformKeepsTiles(d: Direction, g: Grid)
    requires IsGrid(g) && TilesValid(g)
    ensures TilesValid(Transform(d, g))
  {
    TransformNesting(d, g);
    var r1 := Rotate(g);
    RotateKeepsTiles(g);
    var r2 := Rotate(r1);
    RotateKeepsTiles(r1);
    var r3 := Rotate(r2);
    RotateKeepsTiles(r2);
    match d {
      case Left =>
        CompactGridKeepsTiles(g);
      case Right =>
        var m := CompactGrid(r2);
        CompactGridKeepsTiles(r2);
        RotateKeepsTiles(m);
        RotateKeepsTiles(Rotate(m));
      case Up =>
        var m := CompactGrid(r1);
        CompactGridKeepsTiles(r1);
        RotateKeepsTiles(m);
        RotateKeepsTiles(Rotate(m));
        RotateKeepsTiles(Rotate(Rotate(m)));
      case Down =>
        var m := CompactGrid(r3);
        CompactGridKeepsTiles(r3);
        RotateKeepsTiles(m);
    }
  }

  /** A spawn keeps all cells tiles: it writes a 2 or a 4. */
  lemma SpawnedKeepsTiles(g: Grid, cellDraw: real, valueDraw: real)
    requires IsGrid(g) && TilesValid(g) && 0.0 <= cellDraw < 1.0
    ensures TilesValid(Spawned(g, cellDraw, valueDraw))
  {
    var sp := Spawned(g, cellDraw, valueDraw);
    SpawnedChangesOneEmptyCell(g, cellDraw, valueDraw);
    assert PowerOfTwo(2) && PowerOfTwo(4);
    forall r | 0 <= r < Size ensures RowTiles(sp[r]) {
      forall c | 0 <= c < Size ensures IsTile(sp[r][c]) {
        if sp[r][c] != g[r][c] {
          assert sp[r][c] == TileValue(valueDraw);
        }
      }
    }
  }

  /** A power of two above another power of two is at least its double. */
  lemma {:induction false} PowerGap(v: int, m: int)
    requires PowerOfTwo(v) && PowerOfTwo(m) && v > m
    ensures v >= 2 * m
    decreases if m > 0 then m else 0
  {
    if m != 1 {
      PowerGap(v / 2, m / 2);
    }
  }

  predicate HasWinningTile(g: Grid)
    requires IsGrid(g)
  {
    exists r, c :: 0 <= r < Size && 0 <= c < Size && g[r][c] >= WinningTile
  }

  /** Because every tile is a power of two, the threshold 2405 is first met
      by a 4096 tile: a 2048 tile does not win. */
  lemma WinningNeeds4096(g: Grid)
    requires IsGrid(g) && TilesValid(g)
    ensures HasWinningTile(g) <==> exists r, c :: 0 <= r < Size && 0 <= c < Size && g[r][c] >= 4096
  {
    if HasWinningTile(g) {
      var r, c :| 0 <= r < Size && 0 <= c < Size && g[r][c] >= WinningTile;
      assert IsTile(g[r][c]);
      assert PowerOfTwo(2048);
      PowerGap(g[r][c], 2048);
    }
  }

  // ---------------------------------------------------------------------
  // The initial board

  function EmptyGrid(): (g: Grid)
    ensures IsGrid(g)
  {
    seq(Size, _ => Zeros(Size))
  }

  /** initializeGrid: an empty board with two tiles spawned. */
  function InitialGrid(cellDraw1: real, valueDraw1: real, cellDraw2: real, valueDraw2: real): (g: Grid)
    requires 0.0 <= cellDraw1 < 1.0 && 0.0 <= cellDraw2 < 1.0
    ensures IsGrid(g)
  {
    Spawned(Spawned(EmptyGrid(), cellDraw1, valueDraw1), cellDraw2, valueDraw2)
  }

  lemma GridCount4(g: Grid)
    requires IsGrid(g)
    ensures GridCount(g) == CountNonZero(g[0]) + CountNonZero(g[1]) + CountNonZero(g[2]) + CountNonZero(g[3])
  {
    assert g[1..][1..] == g[2..];
    assert g[2..][1..] == g[3..];
    assert g[3..][1..] == [];
    assert GridCount(g[3..]) == CountNonZero(g[3]);
    assert GridCount(g[2..]) == CountNonZero(g[2]) + CountNonZero(g[3]);
  }

  /** A board with fewer than Size * Size tiles has an empty cell. */
  lemma NotFullHasEmptyCell(g: Grid)
    requires IsGrid(g) && GridCount(g) < Size * Size
    ensures HasEmptyCell(g)
  {
    GridCount4(g);
    if !HasEmptyCell(g) {
      CountAllNonZero(g[0]);
      CountAllNonZero(g[1]);
      CountAllNonZero(g[2]);
      CountAllNonZero(g[3]);
    }
  }

  lemma EmptyGridIsEmpty()
    ensures GridCount(EmptyGrid()) == 0 && GridSum(EmptyGrid()) == 0
    ensures HasEmptyCell(EmptyGrid()) && TilesValid(EmptyGrid())
  {
    var e := EmptyGrid();
    ZerosAreEmpty(Size);
    GridSum4(e);
    GridCount4(e);
    assert e[0][0] == 0;
    assert IsTile(0);
  }

  /** A new board holds exactly two tiles, each a 2 or a 4. */
  lemma InitialGridHasTwoTiles(cellDraw1: real, valueDraw1: real, cellDraw2: real, valueDraw2: real)
    requires 0.0 <= cellDraw1 < 1.0 && 0.0 <= cellDraw2 < 1.0
    ensures GridCount(InitialGrid(cellDraw1, valueDraw1, cellDraw2, valueDraw2)) == 2
    ensures GridSum(InitialGrid(cellDraw1, valueDraw1, cellDraw2, valueDraw2)) == TileValue(valueDraw1) + TileValue(valueDraw2)
    ensures TilesValid(InitialGrid(cellDraw1, valueDraw1, cellDraw2, valueDraw2))
  {
    var e := EmptyGrid();
    EmptyGridIsEmpty();
    SpawnedChangesOneEmptyCell(e, cellDraw1, valueDraw1);
    SpawnedKeepsTiles(e, cellDraw1, valueDraw1);
    var g1 := Spawned(e, cellDraw1, valueDraw1);
    NotFullHasEmptyCell(g1);
    SpawnedChangesOneEmptyCell(g1, cellDraw2, valueDraw2);
    SpawnedKeepsTiles(g1, cellDraw2, valueDraw2);
  }

  // ---------------------------------------------------------------------
  // One accepted move

  /** After a move that changes the board, the new board holds exactly one
      tile more than the slid board, and its sum is the old board sum plus
      the spawned 2 or 4. */
  lemma ChangedMoveOutcome(d: Direction, g: Grid, cellDraw: real, valueDraw: real)
    requires IsGrid(g) && 0.0 <= cellDraw < 1.0 && Transform(d, g) != g
    ensures GridCount(Spawned(Transform(d, g), cellDraw, valueDraw)) == GridCount(Transform(d, g)) + 1
    ensures GridSum(Spawned(Transform(d, g), cellDraw, valueDraw)) == GridSum(g) + TileValue(valueDraw)
  {
    ChangedMoveLeavesEmptyCell(d, g);
    SpawnedChangesOneEmptyCell(Transform(d, g), cellDraw, valueDraw);
    TransformKeepsSum(d, g);
  }
}
