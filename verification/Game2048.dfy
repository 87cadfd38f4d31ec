/** The game itself (HW17-2048/src/main.c): the board is an array of rows that the
    moves change in place. The side is symbolic; the program's is Play2048.SIZE. */
module Game2048 {
  import opened Boards2048
  import opened Play2048

  lemma {:induction false} TilesConcat(a: Row, b: Row)
    ensures Tiles(a + b) == Tiles(a) + Tiles(b)
  {
    if a == [] {
      assert a + b == b;
    } else {
      assert (a + b)[1..] == a[1..] + b;
      TilesConcat(a[1..], b);
    }
  }

  lemma TilesSnoc(r: Row, i: nat)
    requires i < |r|
    ensures Tiles(r[..i + 1]) == Tiles(r[..i]) + (if r[i] != 0 then [r[i]] else [])
  {
    assert r[..i + 1] == r[..i] + [r[i]];
    TilesConcat(r[..i], [r[i]]);
  }

  lemma {:induction false} NoTiles(r: Row)
    requires forall k :: 0 <= k < |r| ==> r[k] == 0
    ensures Tiles(r) == []
  {
    if r != [] { NoTiles(r[1..]); }
  }

  /** What the merging pass has done before index i: the tiles to the left are
      final, the merge of the tiles from i on is still to come. */
  ghost predicate MergedUpTo(temp: Row, i: nat, m: Row)
    requires i <= |temp|
  {
    && Tiles(temp[..i]) + Merge(Tiles(temp[i..])) == m
    && forall k, l :: i < k < l < |temp| && temp[k] == 0 ==> temp[l] == 0
  }

  lemma SkipHole(temp: Row, i: nat, m: Row)
    requires i < |temp| && MergedUpTo(temp, i, m) && temp[i] == 0
    ensures MergedUpTo(temp, i + 1, m)
  {
    TilesSnoc(temp, i);
    assert temp[i..][1..] == temp[i + 1..];
    assert Tiles(temp[..i]) + [] == Tiles(temp[..i]);
    assert [] + Tiles(temp[i + 1..]) == Tiles(temp[i + 1..]);
  }

  lemma FinishTile(done: Row, v: int, rest: Row, m: Row)
    requires done + ([v] + rest) == m
    ensures (done + [v]) + rest == m
  {
  }

  lemma KeepTile(temp: Row, i: nat, m: Row)
    requires i + 1 < |temp| && MergedUpTo(temp, i, m) && temp[i] != 0 && temp[i] != temp[i + 1]
    ensures MergedUpTo(temp, i + 1, m)
  {
    TilesSnoc(temp, i);
    var rest := temp[i + 1..];
    assert temp[i..][1..] == rest;
    if temp[i + 1] == 0 {
      NoTiles(rest);
    }
    assert Merge(Tiles(temp[i..])) == [temp[i]] + Merge(Tiles(rest));
    FinishTile(Tiles(temp[..i]), temp[i], Merge(Tiles(rest)), m);
  }

  lemma MergePair(temp: Row, i: nat, m: Row, merged: Row)
    requires i + 1 < |temp| && MergedUpTo(temp, i, m) && temp[i] != 0 && temp[i] == temp[i + 1]
    requires merged == temp[i := 2 * temp[i]][i + 1 := 0]
    ensures MergedUpTo(merged, i + 1, m)
  {
    TilesSnoc(merged, i);
    assert merged[..i] == temp[..i];
    var rest := temp[i + 2..];
    assert temp[i..][1..][1..] == rest && merged[i + 1..][1..] == rest;
    assert Tiles(temp[i..]) == [temp[i]] + ([temp[i]] + Tiles(rest));
    assert Tiles(temp[i..])[2..] == Tiles(rest);
    assert Tiles(merged[i + 1..]) == [] + Tiles(rest) == Tiles(rest);
    FinishTile(Tiles(temp[..i]), 2 * temp[i], Merge(Tiles(rest)), m);
  }

  lemma MergeStarts(t: Row, n: nat)
    requires 0 !in t
    ensures MergedUpTo(t + Empty(n), 0, Merge(t))
  {
    var temp := t + Empty(n);
    TilesOfPadded(t, n);
    assert temp[0..] == temp && temp[..0] == [];
    assert Tiles(temp[..0]) + Merge(t) == Merge(t);
  }

  lemma {:induction false} AllTiles(t: Row)
    requires 0 !in t
    ensures Tiles(t) == t
  {
    if t != [] {
      assert forall x :: x in t[1..] ==> x in t;
      AllTiles(t[1..]);
    }
  }

  lemma MergeEnds(temp: Row, m: Row)
    requires temp != [] && MergedUpTo(temp, |temp| - 1, m)
    ensures Tiles(temp) == m
  {
    var k := |temp| - 1;
    TilesSnoc(temp, k);
    assert temp[..k + 1] == temp;
    assert temp[k..] == [temp[k]];
    var last := if temp[k] != 0 then [temp[k]] else [];
    assert Tiles([temp[k]]) == last + [] == last;
    assert Merge(last) == last;
  }

  lemma MergedRowChanges(r: Row)
    requires |Merge(Tiles(r))| < |Tiles(r)|
    ensures Slide(r) != r
  {
    if Slide(r) == r {
      SettledMerge(r);
    }
  }

  /** The compacting loop, run before and after the merging pass. */
  method Compact(row: array<int>) returns (packed: array<int>)
    ensures fresh(packed) && packed.Length == row.Length
    ensures packed[..] == Tiles(row[..]) + Empty(row.Length - |Tiles(row[..])|)
  {
    var n := row.Length;
    packed := new int[n](_ => 0);
    var t := 0;
    for i := 0 to n
      invariant 0 <= t <= i && packed[..t] == Tiles(row[..i])
      invariant forall k :: t <= k < n ==> packed[k] == 0
    {
      TilesSnoc(row[..], i);
      assert row[..][..i] == row[..i] && row[..][..i + 1] == row[..i + 1];
      if row[i] != 0 {
        packed[t] := row[i];
        t := t + 1;
      }
    }
    assert row[..n] == row[..];
  }

  /** The merging pass over the compacted tiles t, in place: it leaves a hole behind
      every merged pair. */
  method MergePass(temp: array<int>, ghost t: Row) returns (moved: bool)
    requires 0 !in t && |t| <= temp.Length && temp[..] == t + Empty(temp.Length - |t|)
    modifies temp
    ensures Tiles(temp[..]) == Merge(t)
    ensures moved <==> |Merge(t)| < |t|
  {
    hide Merge, Tiles, MergedUpTo;
    var n := temp.Length;
    ghost var m, start := Merge(t), temp[..];
    MergeStarts(t, n - |t|);
    moved := false;
    var i := 0;
    while i < n - 1
      invariant 0 <= i <= n && (n > 0 ==> i <= n - 1)
      invariant MergedUpTo(temp[..], i, m)
      invariant moved ==> |m| < |t|
      invariant !moved ==> temp[..] == start
    {
      ghost var before := temp[..];
      if temp[i] != 0 && temp[i] == temp[i + 1] {
        if !moved {
          assert start[i + 1] != 0;
          MergeShortens(t, i);
        }
        temp[i] := temp[i] * 2;
        temp[i + 1] := 0;
        moved := true;
        assert temp[..] == before[i := 2 * before[i]][i + 1 := 0];
        MergePair(before, i, m, temp[..]);
      } else if temp[i] == 0 {
        SkipHole(before, i, m);
      } else {
        KeepTile(before, i, m);
      }
      i := i + 1;
    }
    if n > 0 {
      MergeEnds(temp[..], m);
    }
    if !moved {
      TilesOfPadded(t, n - |t|);
    }
  }

  lemma TilesOfPadded(t: Row, n: nat)
    requires 0 !in t
    ensures Tiles(t + Empty(n)) == t
  {
    TilesConcat(t, Empty(n));
    NoTiles(Empty(n));
    AllTiles(t);
    assert t + [] == t;
  }

  /** The write-back loop: what differs is overwritten, and whether anything did. */
  method WriteBack(row: array<int>, final: array<int>) returns (changed: bool)
    requires row != final && row.Length == final.Length
    modifies row
    ensures row[..] == final[..]
    ensures changed <==> old(row[..]) != final[..]
  {
    changed := false;
    for i := 0 to row.Length
      invariant forall k :: 0 <= k < i ==> row[k] == final[k]
      invariant forall k :: i <= k < row.Length ==> row[k] == old(row[k])
      invariant changed <==> exists k :: 0 <= k < i && old(row[k]) != final[k]
    {
      if row[i] != final[i] {
        row[i] := final[i];
        changed := true;
      }
    }
    assert row[..] == final[..];
    if changed {
      ghost var k :| 0 <= k < row.Length && old(row[k]) != final[k];
      assert old(row[..])[k] != final[..][k];
    } else {
      assert old(row[..]) == final[..];
    }
  }

  /** `slideAndMergeRow`: compact, merge equal neighbours, compact again, and write
      back what differs. The flag is raised exactly when the row changes. */
  method SlideAndMergeRow(row: array<int>) returns (moved: bool)
    modifies row
    ensures row[..] == Slide(old(row[..]))
    ensures moved <==> row[..] != old(row[..])
  {
    ghost var r := row[..];
    var temp := Compact(row);
    moved := MergePass(temp, Tiles(r));
    if moved {
      MergedRowChanges(r);
    }
    var final := Compact(temp);
    assert final[..] == Slide(r);
    var changed := WriteBack(row, final);
    if changed {
      moved := true;
    }
  }

  // --- Lines of the board as a move sees them ---

  /** One line of the view of a move has been slid. */
  ghost predicate Slid(d: Direction, i: nat, b: Board, g: Board, moved: bool)
    requires Square(b) && i < |b|
  {
    var line := View(d, b)[i];
    && g == Unview(d, View(d, b)[i := Slide(line)])
    && (moved <==> Slide(line) != line)
  }

  /** Place p of line i as a move sees the board: the indices the four move
      functions use when they copy a line out and back. */
  function LineCell(d: Direction, n: nat, i: nat, p: nat): (cell: (nat, nat))
    requires i < n && p < n
    ensures cell.0 < n && cell.1 < n
  {
    match d
    case Left => (i, p)
    case Right => (i, n - 1 - p)
    case Up => (p, i)
    case Down => (n - 1 - p, i)
  }

  lemma ViewCell(d: Direction, b: Board, i: nat, p: nat)
    requires Square(b) && i < |b| && p < |b|
    ensures View(d, b)[i][p] == b[LineCell(d, |b|, i, p).0][LineCell(d, |b|, i, p).1]
  {
  }

  /** Writing one cell of the board writes one place of one line. */
  lemma ViewPlace(d: Direction, b: Board, i: nat, p: nat, x: int)
    requires Square(b) && i < |b| && p < |b|
    ensures var cell := LineCell(d, |b|, i, p);
            View(d, Place(b, cell.0, cell.1, x)) == View(d, b)[i := View(d, b)[i][p := x]]
  {
    var cell := LineCell(d, |b|, i, p);
    var v, w := View(d, b)[i := View(d, b)[i][p := x]], View(d, Place(b, cell.0, cell.1, x));
    forall k | 0 <= k < |b| ensures w[k] == v[k] {
      forall q | 0 <= q < |b| ensures w[k][q] == v[k][q] {
        ViewCell(d, b, k, q);
        ViewCell(d, Place(b, cell.0, cell.1, x), k, q);
      }
    }
  }

  lemma CopiedSoFar(s: Row, r: Row, j: nat)
    requires |s| == |r| && j < |r|
    ensures (s[..j] + r[j..])[j := s[j]] == s[..j + 1] + r[j + 1..]
  {
  }

  function SlideFirst(v: Board, i: nat): (s: Board)
    ensures |s| == |v| && forall k :: 0 <= k < |v| ==> s[k] == if k < i then Slide(v[k]) else v[k]
  {
    seq(|v|, k requires 0 <= k < |v| => if k < i then Slide(v[k]) else v[k])
  }

  /** The first i lines have been slid, and the flag tells whether any changed. */
  ghost predicate LinesSlid(d: Direction, b: Board, g: Board, i: nat, moved: bool)
    requires Square(b)
  {
    && g == Unview(d, SlideFirst(View(d, b), i))
    && (moved <==> SlideFirst(View(d, b), i) != View(d, b))
  }

  lemma LinesStart(d: Direction, b: Board)
    requires Square(b)
    ensures LinesSlid(d, b, b, 0, false)
  {
    ViewAndBack(d, b);
    assert SlideFirst(View(d, b), 0) == View(d, b);
  }

  ghost predicate Settled(v: Board, i: nat)
    requires i <= |v|
  {
    forall k :: 0 <= k < i ==> Slide(v[k]) == v[k]
  }

  lemma SettledLines(v: Board, i: nat)
    requires i <= |v|
    ensures SlideFirst(v, i) == v <==> Settled(v, i)
  {
    var s := SlideFirst(v, i);
    if s == v {
      assert forall k :: 0 <= k < i ==> s[k] == Slide(v[k]);
    }
  }

  lemma SlideFirstStep(v: Board, i: nat)
    requires i < |v|
    ensures SlideFirst(v, i + 1) == SlideFirst(v, i)[i := Slide(v[i])] && SlideFirst(v, i)[i] == v[i]
    ensures SlideFirst(v, i + 1) != v <==> SlideFirst(v, i) != v || Slide(v[i]) != v[i]
  {
    SettledLines(v, i);
    SettledLines(v, i + 1);
  }

  lemma LinesStep(d: Direction, b: Board, before: Board, g: Board, i: nat, moved: bool, lineMoved: bool)
    requires Square(b) && i < |b| && LinesSlid(d, b, before, i, moved)
    requires Square(before) && |before| == |b| && Slid(d, i, before, g, lineMoved)
    ensures LinesSlid(d, b, g, i + 1, moved || lineMoved)
  {
    hide Slide, SlideFirst, View, Unview;
    ViewAndBack(d, SlideFirst(View(d, b), i));
    SlideFirstStep(View(d, b), i);
  }

  lemma LinesEnd(d: Direction, b: Board, g: Board, moved: bool)
    requires Square(b) && LinesSlid(d, b, g, |b|, moved)
    ensures g == Move(d, b)
    ensures moved <==> g != b
  {
    assert SlideFirst(View(d, b), |b|) == SlideRows(View(d, b));
    MoveFixed(d, b);
  }

  // --- The empty cells of a board, in the order the loops meet them ---

  function EmptyFrom(b: Board, i: nat, j: nat): (cells: seq<(nat, nat)>)
    requires Square(b) && i <= |b| && j <= |b|
    ensures forall c :: c in cells ==> c.0 < |b| && c.1 < |b| && b[c.0][c.1] == 0
    decreases |b| - i, |b| - j
  {
    if i == |b| then []
    else if j == |b| then EmptyFrom(b, i + 1, 0)
    else (if b[i][j] == 0 then [(i, j)] else []) + EmptyFrom(b, i, j + 1)
  }

  lemma {:induction false} EmptyFromComplete(b: Board, i: nat, j: nat, k: nat, l: nat)
    requires Square(b) && i <= k < |b| && j <= |b| && l < |b| && (i == k ==> j <= l)
    requires b[k][l] == 0
    ensures (k, l) in EmptyFrom(b, i, j)
    decreases |b| - i, |b| - j
  {
    if j == |b| {
      EmptyFromComplete(b, i + 1, 0, k, l);
    } else if !(i == k && j == l) {
      EmptyFromComplete(b, i, j + 1, k, l);
    }
  }

  /** Cell c comes before cell e when the rows are read one after the other. */
  predicate Before(c: (nat, nat), e: (nat, nat)) {
    c.0 < e.0 || (c.0 == e.0 && c.1 < e.1)
  }

  /** The cells are in that order, and none comes before (i, j). */
  ghost predicate InOrder(cells: seq<(nat, nat)>, i: nat, j: nat) {
    && (forall k :: 0 <= k < |cells| ==> !Before(cells[k], (i, j)))
    && forall k, l :: 0 <= k < l < |cells| ==> Before(cells[k], cells[l])
  }

  lemma InOrderFirst(cells: seq<(nat, nat)>, i: nat, j: nat)
    requires InOrder(cells, i, j + 1)
    ensures InOrder(cells, i, j) && InOrder([(i, j)] + cells, i, j)
  {
    var all := [(i, j)] + cells;
    forall k | 1 <= k < |all| ensures Before((i, j), all[k]) && !Before(all[k], (i, j)) {
      assert all[k] == cells[k - 1];
    }
    forall k, l | 0 <= k < l < |all| ensures Before(all[k], all[l]) {
      if k > 0 {
        assert all[k] == cells[k - 1] && all[l] == cells[l - 1];
      }
    }
  }

  lemma InOrderNextRow(cells: seq<(nat, nat)>, i: nat, j: nat)
    requires InOrder(cells, i + 1, 0)
    ensures InOrder(cells, i, j)
  {
  }

  /** The empty cells are listed row by row, each once. */
  lemma {:induction false} EmptyFromSorted(b: Board, i: nat, j: nat)
    requires Square(b) && i <= |b| && j <= |b|
    ensures InOrder(EmptyFrom(b, i, j), i, j)
    decreases |b| - i, |b| - j
  {
    hide InOrder;
    if i == |b| {
      NothingInOrder(i, j);
    } else if j < |b| {
      EmptyFromSorted(b, i, j + 1);
      InOrderFirst(EmptyFrom(b, i, j + 1), i, j);
      assert [] + EmptyFrom(b, i, j + 1) == EmptyFrom(b, i, j + 1);
    } else {
      EmptyFromSorted(b, i + 1, 0);
      InOrderNextRow(EmptyFrom(b, i + 1, 0), i, j);
    }
  }

  lemma NothingInOrder(i: nat, j: nat)
    ensures InOrder([], i, j)
  {
  }

  /** The tile `addRandomTile` adds when `rand` returns r and then q. */
  function AddTile(b: Board, r: nat, q: nat): (b': Board)
    requires Square(b)
    ensures Square(b') && |b'| == |b|
  {
    var cells := EmptyFrom(b, 0, 0);
    if cells == [] then b
    else
      var cell := cells[r % |cells|];
      Place(b, cell.0, cell.1, if q % 10 == 0 then 4 else 2)
  }

  lemma EmptyCellsMeanRoom(b: Board)
    requires Square(b)
    ensures EmptyFrom(b, 0, 0) != [] <==> Entry(b, 0)
  {
    if k, l :| 0 <= k < |b| && 0 <= l < |b[k]| && b[k][l] == 0 {
      EmptyFromComplete(b, 0, 0, k, l);
    }
    var cells := EmptyFrom(b, 0, 0);
    if cells != [] {
      var c := cells[0];
      assert c in cells;
      EntryAt(b, c.0, c.1);
    }
  }

  /** Where the tile lands and which one it is: the first value of `rand` chooses among the
      empty cells, and the second makes it a 4 when it is a multiple of ten, else a 2. */
  lemma DiceTile(b: Board, r: nat, q: nat) returns (i: nat, j: nat)
    requires Square(b) && Entry(b, 0)
    ensures i < |b| && j < |b| && b[i][j] == 0
    ensures EmptyFrom(b, 0, 0) != [] && EmptyFrom(b, 0, 0)[r % |EmptyFrom(b, 0, 0)|] == (i, j)
    ensures q % 10 == 0 ==> AddTile(b, r, q) == Place(b, i, j, 4)
    ensures q % 10 != 0 ==> AddTile(b, r, q) == Place(b, i, j, 2)
  {
    EmptyCellsMeanRoom(b);
    var cells := EmptyFrom(b, 0, 0);
    var cell := cells[r % |cells|];
    assert cell in cells;
    i, j := cell.0, cell.1;
  }

  /** The two values of `rand` that put v on a given empty cell. */
  lemma DiceFor(b: Board, i: nat, j: nat, v: int) returns (r: nat, q: nat)
    requires Square(b) && i < |b| && j < |b| && b[i][j] == 0 && (v == 2 || v == 4)
    ensures AddTile(b, r, q) == Place(b, i, j, v)
  {
    hide EmptyFrom, Place;
    var cells := EmptyFrom(b, 0, 0);
    EmptyFromComplete(b, 0, 0, i, j);
    r :| 0 <= r < |cells| && cells[r] == (i, j);
    SmallRemainder(r, |cells|);
    q := if v == 4 then 0 else 1;
  }

  lemma FullBoardStays(b: Board)
    requires Square(b) && !Entry(b, 0)
    ensures AddTile(b, 0, 0) == b
  {
    hide EmptyFrom, Entry;
    EmptyCellsMeanRoom(b);
  }

  /** The random choices reach every empty cell with a 2 and with a 4, and nothing else. */
  lemma AddTileIsRandom(b: Board, b': Board)
    requires Square(b)
    ensures TileAdded(b, b') <==> exists r: nat, q: nat :: b' == AddTile(b, r, q)
  {
    hide AddTile, Place, Entry;
    if r: nat, q: nat :| b' == AddTile(b, r, q) {
      TileAddedBy(b, r, q);
    }
    if TileAdded(b, b') {
      if Entry(b, 0) {
        var i, j, v :| 0 <= i < |b| && 0 <= j < |b| && b[i][j] == 0 && v in {2, 4} && b' == Place(b, i, j, v);
        var r, q := DiceFor(b, i, j, v);
      } else {
        FullBoardStays(b);
      }
    }
  }

  lemma SmallRemainder(r: nat, n: nat)
    requires r < n
    ensures r % n == r
  {
  }

  lemma TileAddedBy(b: Board, r: nat, q: nat)
    requires Square(b)
    ensures TileAdded(b, AddTile(b, r, q))
  {
    var cells := EmptyFrom(b, 0, 0);
    EmptyCellsMeanRoom(b);
    if cells != [] {
      assert cells[r % |cells|] in cells;
    }
  }

  lemma EmptyStep(b: Board, i: nat, j: nat, found: seq<(nat, nat)>)
    requires Square(b) && i < |b| && j < |b|
    ensures found + EmptyFrom(b, i, j)
         == (if b[i][j] == 0 then found + [(i, j)] else found) + EmptyFrom(b, i, j + 1)
  {
  }

  datatype Outcome = Won | Lost | Waiting

  /** The board after an attempt to move: a tile is added if the move changed anything. */
  function AfterMove(d: Direction, b: Board, r: nat, q: nat): (b': Board)
    requires Square(b)
    ensures Square(b') && |b'| == |b|
  {
    if Move(d, b) == b then b else AddTile(Move(d, b), r, q)
  }

  /** What a key does to the board. */
  function AfterKey(input: char, b: Board, r: nat, q: nat): (b': Board)
    requires Square(b)
    ensures Square(b') && |b'| == |b|
  {
    if input == 'w' || input == 'W' then AfterMove(Up, b, r, q)
    else if input == 'a' || input == 'A' then AfterMove(Left, b, r, q)
    else if input == 's' || input == 'S' then AfterMove(Down, b, r, q)
    else if input == 'd' || input == 'D' then AfterMove(Right, b, r, q)
    else b
  }

  /** A move that changes the board and adds a tile does not lead back to the board. */
  lemma EffectiveKeyShows(d: Direction, b: Board, r: nat, q: nat)
    requires Square(b) && Move(d, b) != b
    ensures AfterMove(d, b, r, q) == AddTile(Move(d, b), r, q) != b
    ensures TileAdded(Move(d, b), AfterMove(d, b, r, q))
  {
    hide AddTile, Move, TileAdded, Entry, Total;
    var m := Move(d, b);
    EffectiveMoveLeavesRoom(d, b);
    MoveConservesTotal(d, b);
    TileAddedBy(m, r, q);
    TileAddedTotal(m, AddTile(m, r, q));
  }

  // --- A session: the boards behind every key that was read ---

  /** How many times a tile has been added before key k was read. */
  function Throws(history: seq<Board>, k: nat): nat
    requires k < |history|
  {
    if k == 0 then 2 else Throws(history, k - 1) + (if history[k] != history[k - 1] then 1 else 0)
  }

  /** What key k made of its board, with the next pair of values of `rand`; before a key
      is read the game is neither won nor lost. */
  ghost predicate KeyRead(input: char, dice: nat -> (nat, nat), b: Board, thrown: nat, b': Board) {
    Square(b) && !CheckWin(b) && CanMove(b) && b' == AfterKey(input, b, dice(thrown).0, dice(thrown).1)
  }

  /** The board of key k + 1 is what the key makes of the board of key k. */
  ghost predicate Session(n: nat, keys: seq<char>, dice: nat -> (nat, nat), history: seq<Board>) {
    && 1 <= |history| <= |keys| + 1
    && history[0] == AddTile(AddTile(EmptyBoard(n), dice(0).0, dice(0).1), dice(1).0, dice(1).1)
    && forall k :: 0 <= k < |history| - 1 ==> KeyRead(keys[k], dice, history[k], Throws(history, k), history[k + 1])
  }

  lemma {:induction false} ThrowsPrefix(history: seq<Board>, b: Board, k: nat)
    requires k < |history|
    ensures Throws(history + [b], k) == Throws(history, k)
  {
    if k > 0 {
      ThrowsPrefix(history, b, k - 1);
    }
  }

  lemma ThrowsNext(history: seq<Board>, b: Board)
    requires history != []
    ensures Throws(history + [b], |history|)
         == Throws(history, |history| - 1) + (if b != history[|history| - 1] then 1 else 0)
  {
    ThrowsPrefix(history, b, |history| - 1);
  }

  lemma SessionExtends(n: nat, keys: seq<char>, dice: nat -> (nat, nat), history: seq<Board>, b: Board)
    requires Session(n, keys, dice, history) && |history| <= |keys|
    requires KeyRead(keys[|history| - 1], dice, history[|history| - 1], Throws(history, |history| - 1), b)
    ensures Session(n, keys, dice, history + [b])
  {
    hide KeyRead, AddTile, Throws;
    var longer := history + [b];
    forall k | 0 <= k < |longer| - 1 ensures KeyRead(keys[k], dice, longer[k], Throws(longer, k), longer[k + 1]) {
      ThrowsPrefix(history, b, k);
    }
  }

  function Lower(c: char): char {
    if 'A' <= c <= 'Z' then c - 'A' + 'a' else c
  }

  /** The global board. */
  class Game {
    const board: array2<int>

    ghost predicate Valid() {
      board.Length0 == board.Length1
    }

    ghost function Grid(): (b: Board)
      requires Valid()
      reads board
      ensures Square(b) && |b| == board.Length0
      ensures forall i, j :: 0 <= i < |b| && 0 <= j < |b| ==> b[i][j] == board[i, j]
    {
      seq(board.Length0, i requires 0 <= i < board.Length0 reads board => GridRow(i))
    }

    ghost function GridRow(i: nat): (r: Row)
      requires Valid() && i < board.Length0
      reads board
      ensures |r| == board.Length0 && forall j :: 0 <= j < |r| ==> r[j] == board[i, j]
    {
      seq(board.Length1, j requires 0 <= j < board.Length1 reads board => board[i, j])
    }

    /** Copies line i out. */
    method LoadLine(d: Direction, i: nat) returns (temp: array<int>)
      requires Valid() && i < board.Length0
      ensures fresh(temp) && temp[..] == View(d, Grid())[i]
    {
      hide View;
      var n := board.Length0;
      temp := new int[n];
      for j := 0 to n
        invariant temp[..j] == View(d, Grid())[i][..j]
      {
        ViewCell(d, Grid(), i, j);
        var cell := LineCell(d, n, i, j);
        temp[j] := board[cell.0, cell.1];
      }
    }

    /** Copies line i back. */
    method StoreLine(d: Direction, i: nat, temp: array<int>)
      requires Valid() && i < board.Length0 && temp.Length == board.Length0
      modifies board
      ensures View(d, Grid()) == View(d, old(Grid()))[i := temp[..]]
    {
      ghost var v, slid := View(d, Grid()), temp[..];
      assert slid[..0] + v[i][0..] == v[i];
      for j := 0 to board.Length0
        invariant View(d, Grid()) == v[i := slid[..j] + v[i][j..]]
      {
        StoreCell(d, i, j, temp[j]);
        CopiedSoFar(slid, v[i], j);
      }
      assert slid[..|slid|] + v[i][|slid|..] == slid;
    }

    /** One round of a move. */
    method SlideLine(d: Direction, i: nat) returns (moved: bool)
      requires Valid() && i < board.Length0
      modifies board
      ensures Slid(d, i, old(Grid()), Grid(), moved)
    {
      var temp := LoadLine(d, i);
      moved := SlideAndMergeRow(temp);
      StoreLine(d, i, temp);
      ViewAndBack(d, Grid());
    }

    method StoreCell(d: Direction, i: nat, p: nat, x: int)
      requires Valid() && i < board.Length0 && p < board.Length0
      modifies board
      ensures View(d, Grid()) == View(d, old(Grid()))[i := View(d, old(Grid()))[i][p := x]]
    {
      ghost var b := Grid();
      var cell := LineCell(d, board.Length0, i, p);
      ViewPlace(d, b, i, p, x);
      board[cell.0, cell.1] := x;
      ghost var placed := Place(b, cell.0, cell.1, x);
      forall k | 0 <= k < |b| ensures Grid()[k] == placed[k] {
        assert forall l :: 0 <= l < |b| ==> Grid()[k][l] == placed[k][l];
      }
      assert Grid() == placed;
    }

    /** `moveLeft`, `moveRight`, `moveUp` and `moveDown`: every line in turn. */
    method MoveTiles(d: Direction) returns (moved: bool)
      requires Valid()
      modifies board
      ensures Grid() == Move(d, old(Grid()))
      ensures moved <==> Grid() != old(Grid())
    {
      hide LinesSlid, Slid, Move, Grid;
      ghost var b := Grid();
      LinesStart(d, b);
      moved := false;
      for i := 0 to board.Length0
        invariant LinesSlid(d, b, Grid(), i, moved)
      {
        ghost var before, wasMoved := Grid(), moved;
        var lineMoved := SlideLine(d, i);
        if lineMoved {
          moved := true;
        }
        LinesStep(d, b, before, Grid(), i, wasMoved, lineMoved);
      }
      LinesEnd(d, b, Grid(), moved);
    }

    /** The first loop of `addRandomTile`: the empty cells, row by row. */
    method FindEmpty() returns (empty: seq<(nat, nat)>)
      requires Valid()
      ensures empty == EmptyFrom(Grid(), 0, 0)
    {
      var n := board.Length0;
      ghost var b := Grid();
      empty := [];
      for i := 0 to n
        invariant empty + EmptyFrom(b, i, 0) == EmptyFrom(b, 0, 0)
      {
        for j := 0 to n
          invariant empty + EmptyFrom(b, i, j) == EmptyFrom(b, 0, 0)
        {
          EmptyStep(b, i, j, empty);
          if board[i, j] == 0 {
            empty := empty + [(i, j)];
          }
        }
      }
    }

    /** `addRandomTile`, with the two values of `rand` given. */
    method AddRandomTile(r: nat, q: nat)
      requires Valid()
      modifies board
      ensures Grid() == AddTile(old(Grid()), r, q)
    {
      var empty := FindEmpty();
      if |empty| > 0 {
        var cell := empty[r % |empty|];
        assert cell in empty;
        SetCell(cell.0, cell.1, if q % 10 == 0 then 4 else 2);
      }
    }

    method SetCell(i: nat, j: nat, v: int)
      requires Valid() && i < board.Length0 && j < board.Length0
      modifies board
      ensures Grid() == Place(old(Grid()), i, j, v)
    {
      ghost var placed := Place(Grid(), i, j, v);
      board[i, j] := v;
      forall k | 0 <= k < |placed| ensures Grid()[k] == placed[k] {
        assert forall l :: 0 <= l < |placed| ==> Grid()[k][l] == placed[k][l];
      }
      assert Grid() == placed;
    }

    /** `initBoard`. */
    method InitBoard(dice: nat -> (nat, nat))
      requires Valid()
      modifies board
      ensures Start(board.Length0, Grid())
      ensures Grid() == AddTile(AddTile(EmptyBoard(board.Length0), dice(0).0, dice(0).1), dice(1).0, dice(1).1)
    {
      var n := board.Length0;
      for i := 0 to n
        invariant forall k, l :: 0 <= k < i && 0 <= l < n ==> board[k, l] == 0
      {
        for j := 0 to n
          invariant forall k, l :: 0 <= k < n && 0 <= l < n && (k < i || (k == i && l < j)) ==> board[k, l] == 0
        {
          board[i, j] := 0;
        }
      }
      forall k | 0 <= k < n ensures Grid()[k] == EmptyBoard(n)[k] {}
      assert Grid() == EmptyBoard(n);
      AddRandomTile(dice(0).0, dice(0).1);
      ghost var first := Grid();
      TileAddedBy(EmptyBoard(n), dice(0).0, dice(0).1);
      AddRandomTile(dice(1).0, dice(1).1);
      TileAddedBy(first, dice(1).0, dice(1).1);
    }

    /** `canMove`. */
    method TestCanMove() returns (can: bool)
      requires Valid()
      ensures can <==> CanMove(Grid())
    {
      var n := board.Length0;
      for i := 0 to n
        invariant forall k, l :: 0 <= k < i && 0 <= l < n ==> !MovableAt(Grid(), k, l)
      {
        for j := 0 to n
          invariant forall k, l :: 0 <= k < n && 0 <= l < n && (k < i || (k == i && l < j))
                      ==> !MovableAt(Grid(), k, l)
        {
          if board[i, j] == 0 {
            assert MovableAt(Grid(), i, j);
            return true;
          }
          if j < n - 1 && board[i, j] == board[i, j + 1] {
            assert MovableAt(Grid(), i, j);
            return true;
          }
          if i < n - 1 && board[i, j] == board[i + 1, j] {
            assert MovableAt(Grid(), i, j);
            return true;
          }
        }
      }
      return false;
    }

    /** `checkWin`. */
    method TestWin() returns (won: bool)
      requires Valid()
      ensures won <==> CheckWin(Grid())
    {
      var n := board.Length0;
      for i := 0 to n
        invariant forall k, l :: 0 <= k < i && 0 <= l < n ==> board[k, l] != WINNING
      {
        for j := 0 to n
          invariant forall k, l :: 0 <= k < n && 0 <= l < n && (k < i || (k == i && l < j)) ==> board[k, l] != WINNING
        {
          if board[i, j] == WINNING {
            EntryAt(Grid(), i, j);
            return true;
          }
        }
      }
      return false;
    }

    /** The part of `gameLoop` after a key is read: a move, and a tile if it changed
        the board. Other keys do nothing. */
    method PlayKey(input: char, r: nat, q: nat) returns (moved: bool)
      requires Valid()
      modifies board
      ensures input == 'w' || input == 'W' ==> Grid() == AfterMove(Up, old(Grid()), r, q)
      ensures input == 'a' || input == 'A' ==> Grid() == AfterMove(Left, old(Grid()), r, q)
      ensures input == 's' || input == 'S' ==> Grid() == AfterMove(Down, old(Grid()), r, q)
      ensures input == 'd' || input == 'D' ==> Grid() == AfterMove(Right, old(Grid()), r, q)
      ensures input !in "wWaAsSdD" ==> Grid() == old(Grid())
      ensures moved <==> Grid() != old(Grid())
      ensures moved && !CheckWin(old(Grid())) ==> Turn(old(Grid()), Grid())
    {
      hide Move, AddTile, TileAdded, CheckWin, Grid, AfterMove;
      var key := Lower(input);
      moved := false;
      if key == 'w' {
        moved := PlayMove(Up, r, q);
      } else if key == 'a' {
        moved := PlayMove(Left, r, q);
      } else if key == 's' {
        moved := PlayMove(Down, r, q);
      } else if key == 'd' {
        moved := PlayMove(Right, r, q);
      }
    }

    /** One move of `gameLoop` with the tile behind it. */
    method PlayMove(d: Direction, r: nat, q: nat) returns (moved: bool)
      requires Valid()
      modifies board
      ensures Grid() == AfterMove(d, old(Grid()), r, q)
      ensures moved <==> Grid() != old(Grid())
      ensures moved ==> Move(d, old(Grid())) != old(Grid()) && TileAdded(Move(d, old(Grid())), Grid())
    {
      hide Move, AddTile, TileAdded, Grid;
      ghost var b := Grid();
      moved := MoveTiles(d);
      if moved {
        EffectiveKeyShows(d, b, r, q);
        AddRandomTile(r, q);
      }
    }

    /** The two tests at the top of the loop of `gameLoop`. */
    method Status() returns (outcome: Outcome)
      requires Valid()
      ensures outcome.Won? <==> CheckWin(Grid())
      ensures outcome.Lost? <==> !CheckWin(Grid()) && !CanMove(Grid())
    {
      var won := TestWin();
      if won {
        return Won;
      }
      var can := TestCanMove();
      outcome := if can then Waiting else Lost;
    }

    /** `gameLoop`, for the keys typed so far and the pairs of values `rand` returns.
        `history` has the board behind every key that was read, `boards` those that
        changed: they are a play. It ends when the game is won or lost, and else only
        when all keys have been read. */
    method GameLoop(keys: seq<char>, dice: nat -> (nat, nat))
      returns (outcome: Outcome, ghost boards: seq<Board>, ghost history: seq<Board>)
      requires Valid()
      modifies board
      ensures Play(board.Length0, boards) && boards[|boards| - 1] == Grid()
      ensures Session(board.Length0, keys, dice, history) && history[|history| - 1] == Grid()
      ensures outcome.Won? <==> CheckWin(Grid())
      ensures outcome.Lost? <==> !CheckWin(Grid()) && !CanMove(Grid())
      ensures outcome.Waiting? ==> |history| == |keys| + 1
    {
      hide Grid, CanMove, CheckWin, Turn, Session, Start, AfterMove, AddTile, Play;
      InitBoard(dice);
      boards, history := [Grid()], [Grid()];
      SessionStarts(board.Length0, keys, dice, Grid());
      PlayStarts(board.Length0, Grid());
      outcome := Status();
      var thrown, typed := 2, 0;
      while outcome.Waiting? && typed < |keys|
        invariant 0 <= typed <= |keys|
        invariant PlayTo(board.Length0, boards, Grid())
        invariant SessionTo(board.Length0, keys, dice, history, typed, thrown, Grid())
        invariant outcome.Won? <==> CheckWin(Grid())
        invariant outcome.Lost? <==> !CheckWin(Grid()) && !CanMove(Grid())
      {
        ghost var b := Grid();
        var moved := PlayKey(keys[typed], dice(thrown).0, dice(thrown).1);
        SessionGoesOn(board.Length0, keys, dice, history, typed, thrown, b, Grid());
        history := history + [Grid()];
        if moved {
          PlayExtends(board.Length0, boards, Grid());
          boards := boards + [Grid()];
          thrown := thrown + 1;
        }
        typed := typed + 1;
        outcome := Status();
      }
    }
  }

  /** The session so far: `typed` keys were read, tiles added `thrown` times. */
  ghost predicate SessionTo(n: nat, keys: seq<char>, dice: nat -> (nat, nat), history: seq<Board>,
                            typed: nat, thrown: nat, b: Board) {
    && Session(n, keys, dice, history) && |history| == typed + 1 && history[typed] == b
    && Throws(history, typed) == thrown
  }

  lemma SessionStarts(n: nat, keys: seq<char>, dice: nat -> (nat, nat), b: Board)
    requires b == AddTile(AddTile(EmptyBoard(n), dice(0).0, dice(0).1), dice(1).0, dice(1).1)
    ensures SessionTo(n, keys, dice, [b], 0, 2, b)
  {
    hide AddTile;
  }

  lemma SessionGoesOn(n: nat, keys: seq<char>, dice: nat -> (nat, nat), history: seq<Board>,
                      typed: nat, thrown: nat, b: Board, b': Board)
    requires SessionTo(n, keys, dice, history, typed, thrown, b) && typed < |keys|
    requires Square(b) && !CheckWin(b) && CanMove(b) && b' == AfterKey(keys[typed], b, dice(thrown).0, dice(thrown).1)
    ensures SessionTo(n, keys, dice, history + [b'], typed + 1, if b' != b then thrown + 1 else thrown, b')
  {
    hide Session, CheckWin, CanMove, AfterKey, Throws;
    SessionExtends(n, keys, dice, history, b');
    ThrowsNext(history, b');
  }

  lemma PlayStarts(n: nat, b: Board)
    requires Start(n, b) && Square(b) && |b| == n
    ensures PlayTo(n, [b], b)
  {
    hide Start;
  }

  ghost predicate PlayTo(n: nat, boards: seq<Board>, b: Board) {
    Play(n, boards) && boards[|boards| - 1] == b
  }

  lemma PlayExtends(n: nat, boards: seq<Board>, b: Board)
    requires Play(n, boards) && Square(b) && |b| == n && Turn(boards[|boards| - 1], b)
    ensures PlayTo(n, boards + [b], b)
  {
    hide Turn, Start, Square;
  }
}
