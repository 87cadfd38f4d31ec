/** Whole plays of the 2048 game: a state machine over boards, and what holds of
    every play whatever the moves and the random tiles. */
module Play2048 {
  import opened Boards2048

  // --- The total of a board is conserved by every move ---

  function Total(b: Board): int {
    if b == [] then 0 else Sum(b[0]) + Total(b[1..])
  }

  lemma {:induction false} TotalSlide(b: Board)
    ensures Total(SlideRows(b)) == Total(b)
  {
    if b != [] {
      SlideConservesSum(b[0]);
      assert SlideRows(b)[1..] == SlideRows(b[1..]);
      TotalSlide(b[1..]);
    }
  }

  lemma {:induction false} SumReverse(r: Row)
    ensures Sum(Reverse(r)) == Sum(r)
  {
    if r != [] {
      assert Reverse(r) == Reverse(r[1..]) + [r[0]];
      SumConcat(Reverse(r[1..]), [r[0]]);
      SumReverse(r[1..]);
    }
  }

  lemma {:induction false} TotalMirror(b: Board)
    ensures Total(Mirror(b)) == Total(b)
  {
    if b != [] {
      SumReverse(b[0]);
      assert Mirror(b)[1..] == Mirror(b[1..]);
      TotalMirror(b[1..]);
    }
  }

  /** The sums of the columns from j on, over the rows from i on. */
  function ColumnTotal(b: Board, i: nat, j: nat): int
    requires Square(b) && i <= |b| && j <= |b|
    decreases |b| - j
  {
    if j == |b| then 0 else Sum(Column(b, j)[i..]) + ColumnTotal(b, i, j + 1)
  }

  lemma {:induction false} ColumnsBelow(b: Board, i: nat, j: nat)
    requires Square(b) && i < |b| && j <= |b|
    ensures ColumnTotal(b, i, j) == Sum(b[i][j..]) + ColumnTotal(b, i + 1, j)
    decreases |b| - j
  {
    if j < |b| {
      ColumnsBelow(b, i, j + 1);
      assert Column(b, j)[i..][1..] == Column(b, j)[i + 1..];
      assert b[i][j..][1..] == b[i][j + 1..];
    }
  }

  lemma {:induction false} NoRowsLeft(b: Board, j: nat)
    requires Square(b) && j <= |b|
    ensures ColumnTotal(b, |b|, j) == 0
    decreases |b| - j
  {
    if j < |b| {
      NoRowsLeft(b, j + 1);
      assert Column(b, j)[|b|..] == [];
    }
  }

  lemma {:induction false} RowsByColumns(b: Board, i: nat)
    requires Square(b) && i <= |b|
    ensures Total(b[i..]) == ColumnTotal(b, i, 0)
    decreases |b| - i
  {
    if i == |b| {
      NoRowsLeft(b, 0);
    } else {
      RowsByColumns(b, i + 1);
      ColumnsBelow(b, i, 0);
      assert b[i..][1..] == b[i + 1..] && b[i][0..] == b[i];
    }
  }

  lemma {:induction false} ColumnsAreTransposed(b: Board, j: nat)
    requires Square(b) && j <= |b|
    ensures Total(Transpose(b)[j..]) == ColumnTotal(b, 0, j)
    decreases |b| - j
  {
    if j < |b| {
      ColumnsAreTransposed(b, j + 1);
      assert Transpose(b)[j..][1..] == Transpose(b)[j + 1..];
      assert Column(b, j)[0..] == Column(b, j);
    }
  }

  lemma TotalTranspose(b: Board)
    requires Square(b)
    ensures Total(Transpose(b)) == Total(b)
  {
    RowsByColumns(b, 0);
    ColumnsAreTransposed(b, 0);
    assert b[0..] == b && Transpose(b)[0..] == Transpose(b);
  }

  /** A move conserves the total of the board. */
  lemma MoveConservesTotal(d: Direction, b: Board)
    requires Square(b)
    ensures Total(Move(d, b)) == Total(b)
  {
    var v := View(d, b);
    ViewTotal(d, b);
    TotalSlide(v);
    ViewTotal(d, Move(d, b));
    ViewAndBack(d, SlideRows(v));
  }

  lemma ViewTotal(d: Direction, b: Board)
    requires Square(b)
    ensures Total(View(d, b)) == Total(b)
  {
    TotalMirror(b);
    TotalTranspose(b);
    TotalMirror(Transpose(b));
  }

  // --- The entries of a board after a move ---

  ghost predicate Entry(b: Board, x: int) {
    exists i, j :: 0 <= i < |b| && 0 <= j < |b[i]| && b[i][j] == x
  }

  lemma EntryAt(b: Board, i: nat, j: nat)
    requires i < |b| && j < |b[i]|
    ensures Entry(b, b[i][j])
  {
  }

  lemma SlideRowsEntries(b: Board, x: int)
    requires Entry(SlideRows(b), x)
    ensures x == 0 || Entry(b, x) || exists y :: Entry(b, y) && x == 2 * y
  {
    var i, j :| 0 <= i < |b| && 0 <= j < |SlideRows(b)[i]| && SlideRows(b)[i][j] == x;
    assert x in Slide(b[i]);
    SlideEntries(b[i], x);
    if x in b[i] {
      var k :| 0 <= k < |b[i]| && b[i][k] == x;
    } else if x != 0 {
      var y :| y in b[i] && x == 2 * y;
      var k :| 0 <= k < |b[i]| && b[i][k] == y;
      EntryAt(b, i, k);
    }
  }

  lemma MirrorEntries(b: Board, x: int)
    ensures Entry(Mirror(b), x) <==> Entry(b, x)
  {
    if i, j :| 0 <= i < |b| && 0 <= j < |b[i]| && b[i][j] == x {
      assert Mirror(b)[i][|b[i]| - 1 - j] == x;
    }
    if i, j :| 0 <= i < |b| && 0 <= j < |b[i]| && Mirror(b)[i][j] == x {
      assert b[i][|b[i]| - 1 - j] == x;
    }
  }

  lemma TransposeEntries(b: Board, x: int)
    requires Square(b)
    ensures Entry(Transpose(b), x) <==> Entry(b, x)
  {
    if i, j :| 0 <= i < |b| && 0 <= j < |b[i]| && b[i][j] == x {
      assert Transpose(b)[j][i] == x;
    }
    if i, j :| 0 <= i < |b| && 0 <= j < |b| && Transpose(b)[i][j] == x {
      assert b[j][i] == x;
    }
  }

  lemma ViewEntries(d: Direction, b: Board, x: int)
    requires Square(b)
    ensures Entry(View(d, b), x) <==> Entry(b, x)
  {
    MirrorEntries(b, x);
    TransposeEntries(b, x);
    MirrorEntries(Transpose(b), x);
  }

  lemma MovedEntries(d: Direction, b: Board, x: int)
    requires Square(b)
    ensures Entry(Move(d, b), x) <==> Entry(SlideRows(View(d, b)), x)
  {
    ViewEntries(d, Move(d, b), x);
    ViewAndBack(d, SlideRows(View(d, b)));
  }

  /** A move makes no tile but old ones and doubled old ones. */
  lemma MoveEntries(d: Direction, b: Board, x: int)
    requires Square(b) && Entry(Move(d, b), x)
    ensures x == 0 || Entry(b, x) || exists y :: Entry(b, y) && x == 2 * y
  {
    MovedEntries(d, b, x);
    SlideRowsEntries(View(d, b), x);
    ViewEntries(d, b, x);
    if y :| Entry(View(d, b), y) && x == 2 * y {
      ViewEntries(d, b, y);
    }
  }

  /** A move that changes the board leaves an empty cell. */
  lemma EffectiveMoveLeavesRoom(d: Direction, b: Board)
    requires Square(b) && Move(d, b) != b
    ensures Entry(Move(d, b), 0)
  {
    var v := View(d, b);
    MoveFixed(d, b);
    var k := ChangedRow(v);
    ChangedRowHasRoom(v[k]);
    var i :| 0 <= i < |Slide(v[k])| && Slide(v[k])[i] == 0;
    EntryAt(SlideRows(v), k, i);
    MovedEntries(d, b, 0);
  }

  // --- Turns and plays ---

  const WINNING := 2048

  ghost predicate CheckWin(b: Board) {
    Entry(b, WINNING)
  }

  function Place(b: Board, i: nat, j: nat, v: int): (p: Board)
    requires Square(b) && i < |b| && j < |b|
    ensures Square(p) && |p| == |b|
  {
    b[i := b[i][j := v]]
  }

  lemma PlaceAt(b: Board, i: nat, j: nat, v: int, k: nat, l: nat)
    requires Square(b) && i < |b| && j < |b| && k < |b| && l < |b|
    ensures Place(b, i, j, v)[k][l] == if k == i && l == j then v else b[k][l]
  {
  }

  /** `addRandomTile`: a 2 or a 4 lands on some empty cell, if there is one. */
  ghost predicate TileAdded(b: Board, b': Board)
    requires Square(b)
  {
    if Entry(b, 0)
    then exists i, j, v :: 0 <= i < |b| && 0 <= j < |b| && b[i][j] == 0 && v in {2, 4} && b' == Place(b, i, j, v)
    else b' == b
  }

  function EmptyBoard(n: nat): (b: Board)
    ensures Square(b) && |b| == n && forall i, j :: 0 <= i < n && 0 <= j < n ==> b[i][j] == 0
  {
    seq(n, i => Empty(n))
  }

  /** `initBoard`: two tiles on an empty board. */
  ghost predicate Start(n: nat, b: Board) {
    exists first: Board :: Square(first) && TileAdded(EmptyBoard(n), first) && TileAdded(first, b)
  }

  /** A turn of `gameLoop` that changes the board: the game is not won, a move
      changes the board, and a tile is added. */
  ghost predicate Turn(b: Board, b': Board)
    requires Square(b)
  {
    !CheckWin(b) && exists d :: Move(d, b) != b && TileAdded(Move(d, b), b')
  }

  /** The boards of a play on an n by n board, one for every effective move. */
  ghost predicate Play(n: nat, bs: seq<Board>) {
    && bs != [] && Start(n, bs[0])
    && (forall k :: 0 <= k < |bs| ==> Square(bs[k]) && |bs[k]| == n)
    && forall k :: 0 <= k < |bs| - 1 ==> Turn(bs[k], bs[k + 1])
  }

  /** The tiles that can occur. */
  ghost predicate Legal(b: Board) {
    forall x :: Entry(b, x) ==> x in {0, 2, 4, 8, 16, 32, 64, 128, 256, 512, 1024, 2048}
  }

  lemma PlaceEntries(b: Board, i: nat, j: nat, v: int, x: int)
    requires Square(b) && i < |b| && j < |b| && Entry(Place(b, i, j, v), x)
    ensures x == v || Entry(b, x)
  {
    var p := Place(b, i, j, v);
    var k, l :| 0 <= k < |p| && 0 <= l < |p[k]| && p[k][l] == x;
    if !(k == i && l == j) {
      EntryAt(b, k, l);
    }
  }

  lemma TileAddedLegal(b: Board, b': Board)
    requires Square(b) && Legal(b) && TileAdded(b, b')
    ensures Legal(b')
  {
    if Entry(b, 0) {
      var i, j, v :| 0 <= i < |b| && 0 <= j < |b| && b[i][j] == 0 && v in {2, 4} && b' == Place(b, i, j, v);
      forall x | Entry(b', x) ensures x == v || Entry(b, x) { PlaceEntries(b, i, j, v, x); }
    }
  }

  lemma MoveLegal(d: Direction, b: Board)
    requires Square(b) && Legal(b) && !CheckWin(b)
    ensures Legal(Move(d, b))
  {
    forall x | Entry(Move(d, b), x)
      ensures x in {0, 2, 4, 8, 16, 32, 64, 128, 256, 512, 1024, 2048}
    {
      MoveEntries(d, b, x);
    }
  }

  lemma StartLegal(n: nat, b: Board)
    requires Start(n, b)
    ensures Legal(b)
  {
    var first: Board :| Square(first) && TileAdded(EmptyBoard(n), first) && TileAdded(first, b);
    TileAddedLegal(EmptyBoard(n), first);
    TileAddedLegal(first, b);
  }

  lemma TurnLegal(b: Board, b': Board)
    requires Square(b) && Legal(b) && Turn(b, b')
    ensures Legal(b')
  {
    var d :| Move(d, b) != b && TileAdded(Move(d, b), b');
    MoveLegal(d, b);
    TileAddedLegal(Move(d, b), b');
  }

  /** Every tile of every board of a play is a power of two up to 2048. */
  lemma {:induction false} PlayLegal(n: nat, bs: seq<Board>, k: nat)
    requires Play(n, bs) && k < |bs|
    ensures Legal(bs[k])
  {
    hide Legal, Turn, Start, Square;
    if k == 0 {
      StartLegal(n, bs[0]);
    } else {
      PlayLegal(n, bs, k - 1);
      assert Turn(bs[k - 1], bs[k - 1 + 1]);
      TurnLegal(bs[k - 1], bs[k]);
    }
  }

  /** The test for exactly 2048 misses nothing: on every board of every play it
      agrees with "some tile is at least 2048". */
  lemma WinTestExact(n: nat, bs: seq<Board>, k: nat)
    requires Play(n, bs) && k < |bs|
    ensures CheckWin(bs[k]) <==> exists x :: x >= 2048 && Entry(bs[k], x)
  {
    PlayLegal(n, bs, k);
  }

  // --- Every play is bounded ---

  lemma {:induction false} SumPlace(r: Row, j: nat, v: int)
    requires j < |r|
    ensures Sum(r[j := v]) == Sum(r) - r[j] + v
  {
    if j > 0 {
      assert r[j := v][1..] == r[1..][j - 1 := v];
      SumPlace(r[1..], j - 1, v);
    }
  }

  lemma {:induction false} TotalRow(b: Board, i: nat, r: Row)
    requires i < |b|
    ensures Total(b[i := r]) == Total(b) - Sum(b[i]) + Sum(r)
  {
    if i > 0 {
      assert b[i := r][1..] == b[1..][i - 1 := r];
      TotalRow(b[1..], i - 1, r);
    }
  }

  lemma TileAddedTotal(b: Board, b': Board)
    requires Square(b) && Entry(b, 0) && TileAdded(b, b')
    ensures Total(b) + 2 <= Total(b') <= Total(b) + 4
  {
    var i, j, v :| 0 <= i < |b| && 0 <= j < |b| && b[i][j] == 0 && v in {2, 4} && b' == Place(b, i, j, v);
    SumPlace(b[i], j, v);
    TotalRow(b, i, b[i][j := v]);
  }

  lemma PlacedLeavesRoom(b: Board, i: nat, j: nat, v: int)
    requires Square(b) && |b| >= 2 && i < |b| && j < |b| && v != 0
    requires forall k, l :: 0 <= k < |b| && 0 <= l < |b| ==> b[k][l] == 0
    ensures Entry(Place(b, i, j, v), 0)
  {
    assert Place(b, i, j, v)[i][if j == 0 then 1 else 0] == 0;
  }

  lemma StartTotal(n: nat, b: Board)
    requires n >= 2 && Start(n, b)
    ensures 4 <= Total(b) <= 8
  {
    hide Total;
    var e := EmptyBoard(n);
    var first: Board :| Square(first) && TileAdded(e, first) && TileAdded(first, b);
    NoTilesNoTotal(e, n);
    assert Entry(e, 0) by { assert e[0][0] == 0; }
    TileAddedTotal(e, first);
    var i, j, v :| 0 <= i < n && 0 <= j < n && e[i][j] == 0 && v in {2, 4} && first == Place(e, i, j, v);
    PlacedLeavesRoom(e, i, j, v);
    TileAddedTotal(first, b);
  }

  /** Every effective move adds exactly the new tile, a 2 or a 4, to the total. */
  lemma {:induction false} PlayTotal(n: nat, bs: seq<Board>, k: nat)
    requires n >= 2 && Play(n, bs) && k < |bs|
    ensures 4 + 2 * k <= Total(bs[k]) <= 8 + 4 * k
  {
    if k == 0 {
      StartTotal(n, bs[0]);
    } else {
      PlayTotal(n, bs, k - 1);
      assert Turn(bs[k - 1], bs[k - 1 + 1]);
      var d :| Move(d, bs[k - 1]) != bs[k - 1] && TileAdded(Move(d, bs[k - 1]), bs[k]);
      MoveConservesTotal(d, bs[k - 1]);
      EffectiveMoveLeavesRoom(d, bs[k - 1]);
      TileAddedTotal(Move(d, bs[k - 1]), bs[k]);
    }
  }

  lemma {:induction false} SumBounded(r: Row, limit: int)
    requires forall j :: 0 <= j < |r| ==> r[j] <= limit
    ensures Sum(r) <= |r| * limit
  {
    if r != [] {
      SumBounded(r[1..], limit);
    }
  }

  lemma {:induction false} TotalBounded(b: Board, n: nat, limit: int)
    requires forall i :: 0 <= i < |b| ==> |b[i]| == n
    requires forall i, j :: 0 <= i < |b| && 0 <= j < n ==> b[i][j] <= limit
    ensures Total(b) <= |b| * (n * limit)
  {
    if b != [] {
      SumBounded(b[0], limit);
      TotalBounded(b[1..], n, limit);
    }
  }

  /** Before an effective move every tile is at most 1024. */
  lemma OpenBoardTotal(n: nat, bs: seq<Board>, k: nat)
    requires Play(n, bs) && k < |bs| - 1
    ensures Total(bs[k]) <= n * (n * 1024)
  {
    PlayLegal(n, bs, k);
    assert Turn(bs[k], bs[k + 1]);
    forall i, j | 0 <= i < n && 0 <= j < n ensures bs[k][i][j] <= 1024 {
      EntryAt(bs[k], i, j);
    }
    TotalBounded(bs[k], n, 1024);
  }

  /** A play on an n by n board has at most 512 n^2 - 1 effective moves. */
  lemma PlayBounded(n: nat, bs: seq<Board>)
    requires n >= 2 && Play(n, bs)
    ensures |bs| - 1 <= 512 * (n * n) - 1
  {
    if |bs| >= 2 {
      PlayTotal(n, bs, |bs| - 2);
      OpenBoardTotal(n, bs, |bs| - 2);
      assert n * (n * 1024) == 1024 * (n * n);
    } else {
      assert n * n >= 1;
    }
  }

  // --- A play ends only when it must ---

  lemma {:induction false} NoTilesNoTotal(b: Board, n: nat)
    requires forall i :: 0 <= i < |b| ==> |b[i]| == n
    requires forall i, j :: 0 <= i < |b| && 0 <= j < n ==> b[i][j] == 0
    ensures Total(b) == 0
  {
    if b != [] {
      assert b[0] == Empty(n);
      SumEmpty(n);
      NoTilesNoTotal(b[1..], n);
    }
  }

  lemma RoomForTile(b: Board)
    requires Square(b) && Entry(b, 0)
    ensures exists b' :: TileAdded(b, b')
  {
    var i, j :| 0 <= i < |b| && 0 <= j < |b[i]| && b[i][j] == 0;
    assert TileAdded(b, Place(b, i, j, 2));
  }

  /** On a board of a play that is not won, `canMove` tells exactly whether the
      play can go on. */
  lemma GameOverExact(n: nat, bs: seq<Board>, k: nat)
    requires n >= 2 && Play(n, bs) && k < |bs| && !CheckWin(bs[k])
    ensures CanMove(bs[k]) <==> exists b' :: Turn(bs[k], b')
  {
    var b := bs[k];
    PlayTotal(n, bs, k);
    if !HasTile(b) {
      NoTilesNoTotal(b, n);
      assert false;
    }
    CanMoveExact(b);
    if d :| Move(d, b) != b {
      EffectiveMoveLeavesRoom(d, b);
      RoomForTile(Move(d, b));
      var b' :| TileAdded(Move(d, b), b');
      assert Turn(b, b');
    }
  }

  const SIZE: nat := 4

  /** On the board of the game: at most 8191 effective moves, and the tile 2048
      takes at least 510 of them. */
  lemma GameBounds(bs: seq<Board>)
    requires Play(SIZE, bs)
    ensures |bs| - 1 <= 8191
    ensures CheckWin(bs[|bs| - 1]) ==> |bs| - 1 >= 510
  {
    PlayBounded(SIZE, bs);
    var last := bs[|bs| - 1];
    if CheckWin(last) {
      PlayTotal(SIZE, bs, |bs| - 1);
      PlayLegal(SIZE, bs, |bs| - 1);
      WinningTotal(last);
    }
  }

  lemma WinningTotal(b: Board)
    requires Square(b) && Legal(b) && CheckWin(b)
    ensures Total(b) >= WINNING
  {
    var i, j :| 0 <= i < |b| && 0 <= j < |b[i]| && b[i][j] == WINNING;
    forall k, l | 0 <= k < |b| && 0 <= l < |b[k]| ensures b[k][l] >= 0 { EntryAt(b, k, l); }
    SumAtLeast(b[i], j);
    TotalAtLeast(b, i);
  }

  lemma {:induction false} SumAtLeast(r: Row, j: nat)
    requires j < |r| && forall k :: 0 <= k < |r| ==> r[k] >= 0
    ensures Sum(r) >= r[j]
  {
    if j > 0 {
      SumAtLeast(r[1..], j - 1);
    } else if |r| > 1 {
      SumAtLeast(r[1..], 0);
    }
  }

  lemma {:induction false} TotalAtLeast(b: Board, i: nat)
    requires i < |b| && forall k, l :: 0 <= k < |b| && 0 <= l < |b[k]| ==> b[k][l] >= 0
    ensures Total(b) >= Sum(b[i])
  {
    if b[0] != [] { SumAtLeast(b[0], 0); }
    if i > 0 {
      TotalAtLeast(b[1..], i - 1);
    } else if |b| > 1 {
      TotalAtLeast(b[1..], 0);
      if b[1] != [] { SumAtLeast(b[1], 0); }
    }
  }
}
