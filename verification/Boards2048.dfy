/** Rows and boards of the 2048 game (HW17-2048/src/main.c) as values. A tile is
    an integer, 0 is an empty cell, and the board has any side N. */
module Boards2048 {

  type Row = seq<int>

  /** The tiles of a row, in order. */
  function Tiles(r: Row): (t: Row)
    ensures |t| <= |r|
    ensures forall x :: x in t ==> x != 0 && x in r
  {
    if r == [] then [] else (if r[0] != 0 then [r[0]] else []) + Tiles(r[1..])
  }

  /** Equal neighbours merge once, from the left. */
  function Merge(t: Row): (m: Row)
    ensures |m| <= |t|
    decreases |t|
  {
    if |t| >= 2 && t[0] == t[1] then [2 * t[0]] + Merge(t[2..])
    else if t == [] then []
    else [t[0]] + Merge(t[1..])
  }

  function Empty(n: nat): (r: Row)
    ensures |r| == n && forall i :: 0 <= i < n ==> r[i] == 0
  {
    seq(n, i => 0)
  }

  /** What a move does to a row. */
  function Slide(r: Row): (s: Row)
    ensures |s| == |r|
  {
    var m := Merge(Tiles(r));
    m + Empty(|r| - |m|)
  }

  // --- What merging means ---

  /** A tile of value v made of the tiles of t from i up to j: one tile kept, or
      two equal ones added; a tile is kept alone only if its right neighbour differs. */
  ghost predicate Block(t: Row, i: nat, j: nat, v: int) {
    || (j == i + 1 <= |t| && v == t[i] && (j < |t| ==> t[i] != t[j]))
    || (j == i + 2 <= |t| && v == 2 * t[i] && t[i] == t[i + 1])
  }

  /** Output tile k is the block from starts[k] to starts[k + 1]. Every input tile
      is used exactly once, in order, so a merged tile is never merged again. */
  ghost predicate Pairing(t: Row, m: Row, starts: seq<nat>) {
    && |starts| == |m| + 1 && starts[0] == 0 && starts[|m|] == |t|
    && forall k :: 0 <= k < |m| ==> Block(t, starts[k], starts[k + 1], m[k])
  }

  function Starts(t: Row): (starts: seq<nat>)
    ensures |starts| == |Merge(t)| + 1
    decreases |t|
  {
    if |t| >= 2 && t[0] == t[1] then [0] + Later(Starts(t[2..]), 2)
    else if t == [] then [0]
    else [0] + Later(Starts(t[1..]), 1)
  }

  function Later(starts: seq<nat>, width: nat): (later: seq<nat>)
    ensures |later| == |starts| && forall k :: 0 <= k < |starts| ==> later[k] == starts[k] + width
  {
    seq(|starts|, k requires 0 <= k < |starts| => starts[k] + width)
  }

  lemma BlockLater(t: Row, w: nat, i: nat, j: nat, v: int)
    requires w <= |t|
    ensures Block(t[w..], i, j, v) <==> Block(t, i + w, j + w, v)
  {
  }

  lemma PairingExtends(t: Row, w: nat, v: int, m: Row, rest: seq<nat>)
    requires w <= |t| && Block(t, 0, w, v) && Pairing(t[w..], m, rest)
    ensures Pairing(t, [v] + m, [0] + Later(rest, w))
  {
    var starts, n := [0] + Later(rest, w), [v] + m;
    forall k | 0 <= k < |n|
      ensures Block(t, starts[k], starts[k + 1], n[k])
    {
      if k > 0 {
        assert Block(t[w..], rest[k - 1], rest[k - 1 + 1], m[k - 1]);
        BlockLater(t, w, rest[k - 1], rest[k], m[k - 1]);
      }
    }
  }

  lemma {:induction false} MergePairs(t: Row)
    ensures Pairing(t, Merge(t), Starts(t))
    decreases |t|
  {
    if t != [] {
      var w := if |t| >= 2 && t[0] == t[1] then 2 else 1;
      MergePairs(t[w..]);
      PairingExtends(t, w, Merge(t)[0], Merge(t[w..]), Starts(t[w..]));
    }
  }

  lemma {:induction false} StartsGrow(t: Row, m: Row, starts: seq<nat>, k: nat)
    requires Pairing(t, m, starts) && 1 <= k <= |m|
    ensures 1 <= starts[1] <= starts[k]
  {
    assert Block(t, starts[k - 1], starts[k - 1 + 1], m[k - 1]);
    if k > 1 {
      StartsGrow(t, m, starts, k - 1);
    }
  }

  function Earlier(starts: seq<nat>, width: nat): (earlier: seq<nat>)
    requires forall k :: 0 <= k < |starts| ==> width <= starts[k]
    ensures |earlier| == |starts| && forall k :: 0 <= k < |starts| ==> earlier[k] == starts[k] - width
  {
    seq(|starts|, k requires 0 <= k < |starts| => starts[k] - width)
  }

  lemma PairingTail(t: Row, m: Row, starts: seq<nat>)
    requires Pairing(t, m, starts) && m != []
    ensures 1 <= starts[1] <= |t| && exists rest :: Pairing(t[starts[1]..], m[1..], rest)
  {
    var w := starts[1];
    assert Block(t, starts[0], starts[0 + 1], m[0]);
    forall k | 1 <= k < |starts| ensures w <= starts[k] { StartsGrow(t, m, starts, k); }
    var rest := Earlier(starts[1..], w);
    forall k | 0 <= k < |m| - 1
      ensures Block(t[w..], rest[k], rest[k + 1], m[1..][k])
    {
      assert Block(t, starts[k + 1], starts[k + 1 + 1], m[k + 1]);
      BlockLater(t, w, rest[k], rest[k + 1], m[k + 1]);
    }
    assert Pairing(t[w..], m[1..], rest);
  }

  lemma {:induction false} PairingUnique(t: Row, m: Row, starts: seq<nat>)
    requires Pairing(t, m, starts)
    ensures m == Merge(t)
    decreases |m|
  {
    if m == [] {
      assert t == [];
    } else {
      PairingTail(t, m, starts);
      var w := starts[1];
      var rest :| Pairing(t[w..], m[1..], rest);
      PairingUnique(t[w..], m[1..], rest);
      assert Block(t, starts[0], starts[0 + 1], m[0]);
      assert m == [m[0]] + m[1..];
    }
  }

  /** Merging is characterised by its pairing alone. */
  lemma MergeMeaning(t: Row, m: Row)
    ensures m == Merge(t) <==> exists starts :: Pairing(t, m, starts)
  {
    MergePairs(t);
    if starts :| Pairing(t, m, starts) {
      PairingUnique(t, m, starts);
    }
  }

  /** at lists places of the row, from the left to the right, that hold the tiles t ... */
  ghost predicate Holding(r: Row, t: Row, at: seq<nat>) {
    && |at| == |t| && (forall k :: 0 <= k < |at| ==> at[k] < |r| && r[at[k]] == t[k] != 0)
    && forall j, k :: 0 <= j < k < |at| ==> at[j] < at[k]
  }

  /** ... and no other place holds a tile. */
  ghost predicate Covering(r: Row, at: seq<nat>) {
    forall i :: 0 <= i < |r| && r[i] != 0 ==> i in at
  }

  lemma HoldingLater(r: Row, t: Row, rest: seq<nat>)
    requires r != [] && Holding(r[1..], t, rest)
    ensures Holding(r, t, Later(rest, 1))
  {
    var later := Later(rest, 1);
    forall k | 0 <= k < |later| ensures later[k] < |r| && r[later[k]] == t[k] != 0 {
      assert r[1..][rest[k]] == t[k];
    }
  }

  lemma HoldingFirst(r: Row, t: Row, later: seq<nat>)
    requires r != [] && r[0] != 0 && Holding(r, t, later) && forall k :: 0 <= k < |later| ==> later[k] > 0
    ensures Holding(r, [r[0]] + t, [0] + later)
  {
    var at, tiles := [0] + later, [r[0]] + t;
    assert forall k :: 1 <= k < |at| ==> at[k] == later[k - 1] && tiles[k] == t[k - 1];
  }

  lemma CoveringLater(r: Row, rest: seq<nat>, first: seq<nat>)
    requires r != [] && Covering(r[1..], rest) && (r[0] != 0 ==> 0 in first)
    ensures Covering(r, first + Later(rest, 1))
  {
    forall i | 0 <= i < |r| && r[i] != 0 ensures i in first + Later(rest, 1) {
      if i > 0 {
        assert r[1..][i - 1] == r[i];
        var k :| 0 <= k < |rest| && rest[k] == i - 1;
        assert Later(rest, 1)[k] == i;
      }
    }
  }

  lemma NothingHeld()
    ensures Holding([], [], []) && Covering([], [])
  {
  }

  /** Every non-empty cell of a row gives one tile, and they keep their order. */
  lemma {:induction false} TilesInOrder(r: Row) returns (at: seq<nat>)
    ensures Holding(r, Tiles(r), at) && Covering(r, at)
  {
    hide Holding, Covering;
    if r == [] {
      NothingHeld();
      at := [];
    } else {
      var rest := TilesInOrder(r[1..]);
      var later := Later(rest, 1);
      HoldingLater(r, Tiles(r[1..]), rest);
      if r[0] == 0 {
        CoveringLater(r, rest, []);
        assert [] + later == later && [] + Tiles(r[1..]) == Tiles(r[1..]);
        at := later;
      } else {
        HoldingFirst(r, Tiles(r[1..]), later);
        CoveringLater(r, rest, [0]);
        at := [0] + later;
      }
    }
  }

  /** The row s holds m at its start and is empty behind it. */
  ghost predicate Leading(m: Row, s: Row) {
    |m| <= |s| && s[..|m|] == m && forall i :: |m| <= i < |s| ==> s[i] == 0
  }

  lemma LeadingOnly(m: Row, s: Row)
    requires |m| <= |s|
    ensures Leading(m, s) <==> s == m + Empty(|s| - |m|)
  {
    if Leading(m, s) {
      assert s == s[..|m|] + s[|m|..] && s[|m|..] == Empty(|s| - |m|);
    }
    var e := m + Empty(|s| - |m|);
    assert e[..|m|] == m;
  }

  lemma SlidLeading(r: Row)
    ensures Pairing(Tiles(r), Merge(Tiles(r)), Starts(Tiles(r))) && Leading(Merge(Tiles(r)), Slide(r))
  {
    MergePairs(Tiles(r));
    LeadingOnly(Merge(Tiles(r)), Slide(r));
  }

  lemma LeadingSlid(r: Row, s: Row, m: Row, starts: seq<nat>)
    requires |s| == |r| && Pairing(Tiles(r), m, starts) && Leading(m, s)
    ensures s == Slide(r)
  {
    PairingUnique(Tiles(r), m, starts);
    LeadingOnly(m, s);
  }

  /** A move puts the merged tiles at the start of the row and empties the rest. */
  lemma SlideMeaning(r: Row, s: Row)
    requires |s| == |r|
    ensures s == Slide(r) <==> exists m, starts :: Pairing(Tiles(r), m, starts) && Leading(m, s)
  {
    hide *;
    if s == Slide(r) {
      SlidLeading(r);
      assert Pairing(Tiles(r), Merge(Tiles(r)), Starts(Tiles(r))) && Leading(Merge(Tiles(r)), s);
      assert exists m, starts :: Pairing(Tiles(r), m, starts) && Leading(m, s);
    }
    if m, starts :| Pairing(Tiles(r), m, starts) && Leading(m, s) {
      LeadingSlid(r, s, m, starts);
    }
  }

  // --- Rows: sum, entries, and when a row stays as it is ---

  function Sum(r: Row): int {
    if r == [] then 0 else r[0] + Sum(r[1..])
  }

  lemma {:induction false} SumConcat(a: Row, b: Row)
    ensures Sum(a + b) == Sum(a) + Sum(b)
  {
    if a == [] {
      assert a + b == b;
    } else {
      assert (a + b)[1..] == a[1..] + b;
      SumConcat(a[1..], b);
    }
  }

  lemma {:induction false} SumEmpty(n: nat)
    ensures Sum(Empty(n)) == 0
  {
    if n > 0 {
      assert Empty(n)[1..] == Empty(n - 1);
      SumEmpty(n - 1);
    }
  }

  lemma {:induction false} SumTiles(r: Row)
    ensures Sum(Tiles(r)) == Sum(r)
  {
    if r != [] {
      SumTiles(r[1..]);
      SumConcat(if r[0] != 0 then [r[0]] else [], Tiles(r[1..]));
    }
  }

  lemma {:induction false} SumMerge(t: Row)
    ensures Sum(Merge(t)) == Sum(t)
    decreases |t|
  {
    if |t| >= 2 && t[0] == t[1] {
      SumMerge(t[2..]);
      assert Sum(t) == t[0] + (t[1] + Sum(t[2..])) by { assert t[1..][1..] == t[2..]; }
      assert Merge(t)[1..] == Merge(t[2..]);
    } else if t != [] {
      SumMerge(t[1..]);
      assert Merge(t)[1..] == Merge(t[1..]);
    }
  }

  /** A move conserves the sum of a row. */
  lemma SlideConservesSum(r: Row)
    ensures Sum(Slide(r)) == Sum(r)
  {
    var m := Merge(Tiles(r));
    SumConcat(m, Empty(|r| - |m|));
    SumEmpty(|r| - |m|);
    SumMerge(Tiles(r));
    SumTiles(r);
  }

  lemma {:induction false} MergeEntries(t: Row, x: int)
    requires x in Merge(t)
    ensures x in t || exists y :: y in t && x == 2 * y
    decreases |t|
  {
    if |t| >= 2 && t[0] == t[1] {
      if x == 2 * t[0] {
        assert t[0] in t;
      } else {
        MergeEntries(t[2..], x);
        assert forall y :: y in t[2..] ==> y in t;
      }
    } else {
      if x != t[0] {
        MergeEntries(t[1..], x);
        assert forall y :: y in t[1..] ==> y in t;
      }
    }
  }

  /** A move only keeps tiles, doubles tiles and leaves cells empty. */
  lemma SlideEntries(r: Row, x: int)
    requires x in Slide(r)
    ensures x == 0 || x in r || exists y :: y in r && x == 2 * y
  {
    var m := Merge(Tiles(r));
    if x != 0 {
      var e := Empty(|r| - |m|);
      assert x !in e;
      MergeEntries(Tiles(r), x);
    }
  }

  /** All the tiles are at the front. */
  ghost predicate Packed(r: Row) {
    forall i, j :: 0 <= i < j < |r| && r[i] == 0 ==> r[j] == 0
  }

  ghost predicate PairAt(r: Row, i: nat) {
    i + 1 < |r| && r[i] != 0 && r[i] == r[i + 1]
  }

  /** Two equal tiles stand next to each other. */
  ghost predicate HasPair(r: Row) {
    exists i :: PairAt(r, i)
  }

  lemma {:induction false} TilesOfPacked(r: Row)
    requires Packed(r)
    ensures Tiles(r) + Empty(|r| - |Tiles(r)|) == r
  {
    if r != [] {
      assert Packed(r[1..]) by {
        assert forall i :: 0 <= i < |r[1..]| ==> r[1..][i] == r[i + 1];
      }
      TilesOfPacked(r[1..]);
      if r[0] == 0 {
        assert r[1..] == Empty(|r| - 1);
        AllEmptyTiles(|r| - 1);
      }
    }
  }

  lemma {:induction false} AllEmptyTiles(n: nat)
    ensures Tiles(Empty(n)) == []
  {
    if n > 0 {
      assert Empty(n)[1..] == Empty(n - 1);
      AllEmptyTiles(n - 1);
    }
  }

  lemma {:induction false} MergeWithoutPairs(t: Row)
    requires 0 !in t && !HasPair(t)
    ensures Merge(t) == t
    decreases |t|
  {
    if t != [] {
      assert !PairAt(t, 0);
      forall i: nat ensures !PairAt(t[1..], i) {
        assert !PairAt(t, i + 1);
      }
      MergeWithoutPairs(t[1..]);
    }
  }

  lemma {:induction false} MergeShortens(t: Row, i: nat)
    requires i + 1 < |t| && t[i] == t[i + 1]
    ensures |Merge(t)| < |t|
    decreases |t|
  {
    if t[0] != t[1] {
      MergeShortens(t[1..], i - 1);
    }
  }

  /** The tiles of a packed row are its leading cells. */
  lemma PackedPrefix(r: Row)
    requires Packed(r)
    ensures Tiles(r) == r[..|Tiles(r)|]
    ensures forall i :: 0 <= i < |r| ==> (i < |Tiles(r)| <==> r[i] != 0)
  {
    TilesOfPacked(r);
    var t := Tiles(r);
    var e := Empty(|r| - |t|);
    assert r == t + e;
    assert forall i :: 0 <= i < |t| ==> t[i] in t;
  }

  lemma SettledRowStays(r: Row)
    requires Packed(r) && !HasPair(r)
    ensures Slide(r) == r
  {
    var t := Tiles(r);
    PackedPrefix(r);
    forall i: nat ensures !PairAt(t, i) {
      assert !PairAt(r, i);
    }
    MergeWithoutPairs(t);
    TilesOfPacked(r);
  }

  lemma SettledMerge(r: Row)
    requires Slide(r) == r
    ensures Merge(Tiles(r)) == Tiles(r)
  {
    var t := Tiles(r);
    SlideFixed(r);
    PackedPrefix(r);
    forall i: nat ensures !PairAt(t, i) {
      assert !PairAt(r, i);
    }
    MergeWithoutPairs(t);
  }

  lemma PairMoves(r: Row, i: nat)
    requires Packed(r) && PairAt(r, i)
    ensures Slide(r) != r
  {
    var t := Tiles(r);
    PackedPrefix(r);
    MergeShortens(t, i);
    assert Slide(r)[|t| - 1] == 0 && r[|t| - 1] != 0;
  }

  /** A row stays as it is exactly when its tiles are packed and no pair is left. */
  lemma SlideFixed(r: Row)
    ensures Slide(r) == r <==> Packed(r) && !HasPair(r)
  {
    SlidePacks(r);
    if Packed(r) {
      if HasPair(r) {
        var i: nat :| PairAt(r, i);
        PairMoves(r, i);
      } else {
        SettledRowStays(r);
      }
    }
  }

  lemma {:induction false} MergeNonzero(t: Row)
    requires 0 !in t
    ensures 0 !in Merge(t)
    decreases |t|
  {
    if |t| >= 2 && t[0] == t[1] {
      assert forall x :: x in t[2..] ==> x in t;
      MergeNonzero(t[2..]);
    } else if t != [] {
      assert forall x :: x in t[1..] ==> x in t;
      MergeNonzero(t[1..]);
    }
  }

  lemma SlidePacks(r: Row)
    ensures Packed(Slide(r))
  {
    MergeNonzero(Tiles(r));
  }

  lemma {:induction false} TilesShorten(r: Row)
    requires 0 in r
    ensures |Tiles(r)| < |r|
  {
    if r[0] != 0 {
      TilesShorten(r[1..]);
    }
  }

  /** A row that changes has an empty cell afterwards. */
  lemma ChangedRowHasRoom(r: Row)
    requires Slide(r) != r
    ensures 0 in Slide(r)
  {
    var t := Tiles(r);
    if 0 in r {
      TilesShorten(r);
    } else {
      SlideFixed(r);
      PackedPrefix(r);
      var i: nat :| PairAt(r, i);
      assert |t| > i + 1;
      MergeShortens(t, i);
    }
    assert Slide(r)[|r| - 1] == 0;
  }

  // --- Boards and the four moves ---

  type Board = seq<Row>

  ghost predicate Square(b: Board) {
    forall i :: 0 <= i < |b| ==> |b[i]| == |b|
  }

  function Reverse(r: Row): (s: Row)
    ensures |s| == |r|
  {
    seq(|r|, i requires 0 <= i < |r| => r[|r| - 1 - i])
  }

  function Mirror(b: Board): (m: Board)
    ensures |m| == |b| && forall i :: 0 <= i < |b| ==> m[i] == Reverse(b[i])
  {
    seq(|b|, i requires 0 <= i < |b| => Reverse(b[i]))
  }

  function Column(b: Board, j: nat): (c: Row)
    requires Square(b) && j < |b|
    ensures |c| == |b| && forall i :: 0 <= i < |b| ==> c[i] == b[i][j]
  {
    seq(|b|, i requires 0 <= i < |b| => b[i][j])
  }

  function Transpose(b: Board): (t: Board)
    requires Square(b)
    ensures |t| == |b| && Square(t) && forall j :: 0 <= j < |b| ==> t[j] == Column(b, j)
  {
    seq(|b|, j requires 0 <= j < |b| => Column(b, j))
  }

  function SlideRows(b: Board): (s: Board)
    ensures |s| == |b| && forall i :: 0 <= i < |b| ==> s[i] == Slide(b[i])
  {
    seq(|b|, i requires 0 <= i < |b| => Slide(b[i]))
  }

  datatype Direction = Left | Right | Up | Down

  /** The board as a move to the left sees it ... */
  function View(d: Direction, b: Board): (v: Board)
    requires Square(b)
    ensures Square(v) && |v| == |b|
  {
    match d
    case Left => b
    case Right => Mirror(b)
    case Up => Transpose(b)
    case Down => Mirror(Transpose(b))
  }

  /** ... and back. */
  function Unview(d: Direction, v: Board): (b: Board)
    requires Square(v)
    ensures Square(b) && |b| == |v|
  {
    match d
    case Left => v
    case Right => Mirror(v)
    case Up => Transpose(v)
    case Down => Transpose(Mirror(v))
  }

  /** Every move is the left move seen in a mirror or along the diagonal. */
  function Move(d: Direction, b: Board): (m: Board)
    requires Square(b)
    ensures Square(m) && |m| == |b|
  {
    Unview(d, SlideRows(View(d, b)))
  }

  lemma ReverseTwice(r: Row)
    ensures Reverse(Reverse(r)) == r
  {
  }

  lemma MirrorTwice(b: Board)
    ensures Mirror(Mirror(b)) == b
  {
    forall i | 0 <= i < |b| ensures Mirror(Mirror(b))[i] == b[i] { ReverseTwice(b[i]); }
  }

  lemma TransposeTwice(b: Board)
    requires Square(b)
    ensures Transpose(Transpose(b)) == b
  {
    forall i | 0 <= i < |b| ensures Transpose(Transpose(b))[i] == b[i] {
      assert forall j :: 0 <= j < |b| ==> Transpose(Transpose(b))[i][j] == b[i][j];
    }
  }

  lemma ViewAndBack(d: Direction, b: Board)
    requires Square(b)
    ensures Unview(d, View(d, b)) == b && View(d, Unview(d, b)) == b
  {
    MirrorTwice(b);
    TransposeTwice(b);
    MirrorTwice(Transpose(b));
    TransposeTwice(Mirror(b));
  }

  lemma ReverseAt(r: Row, k: nat)
    requires k < |r|
    ensures Reverse(r)[k] == r[|r| - 1 - k]
  {
  }

  /** The four moves, row by row and column by column: to the left and up the lines are
      slid as they stand, to the right and down they are slid from their other end. */
  lemma MoveLines(b: Board, i: nat)
    requires Square(b) && i < |b|
    ensures Move(Left, b)[i] == Slide(b[i])
    ensures Move(Right, b)[i] == Reverse(Slide(Reverse(b[i])))
    ensures Column(Move(Up, b), i) == Slide(Column(b, i))
    ensures Column(Move(Down, b), i) == Reverse(Slide(Reverse(Column(b, i))))
  {
    hide Slide, Reverse;
    var up, down := SlideRows(Transpose(b)), Mirror(SlideRows(Mirror(Transpose(b))));
    TransposeTwice(up);
    TransposeTwice(down);
    assert Transpose(Move(Up, b))[i] == up[i];
    assert Transpose(Move(Down, b))[i] == down[i];
  }

  /** When a board stays as it is under a move. */
  lemma MoveFixed(d: Direction, b: Board)
    requires Square(b)
    ensures Move(d, b) == b <==> SlideRows(View(d, b)) == View(d, b)
  {
    ViewAndBack(d, b);
    ViewAndBack(d, SlideRows(View(d, b)));
  }

  // --- canMove ---

  /** The test of `canMove`: an empty cell, or two equal cells side by side. */
  ghost predicate CanMove(b: Board)
    requires Square(b)
  {
    exists i, j :: 0 <= i < |b| && 0 <= j < |b| && MovableAt(b, i, j)
  }

  predicate MovableAt(b: Board, i: nat, j: nat)
    requires Square(b) && i < |b| && j < |b|
  {
    || b[i][j] == 0
    || (j < |b| - 1 && b[i][j] == b[i][j + 1])
    || (i < |b| - 1 && b[i][j] == b[i + 1][j])
  }

  ghost predicate HasTile(b: Board)
    requires Square(b)
  {
    exists i, j :: 0 <= i < |b| && 0 <= j < |b| && b[i][j] != 0
  }

  /** A row with an empty cell or a pair moves to the left or to the right,
      unless it is empty altogether. */
  lemma RowMoves(r: Row, i: nat, j: nat)
    requires i < |r| && j < |r| && r[i] == 0 && r[j] != 0
    ensures Slide(r) != r || Slide(Reverse(r)) != Reverse(r)
  {
    SlideFixed(r);
    SlideFixed(Reverse(r));
    assert Reverse(r)[|r| - 1 - i] == 0 && Reverse(r)[|r| - 1 - j] != 0;
    assert Packed(r) ==> j < i;
  }

  /** No row and no column moves in either direction. */
  ghost predicate Stuck(b: Board)
    requires Square(b)
  {
    forall d :: Move(d, b) == b
  }

  lemma StuckLines(b: Board, k: nat)
    requires Square(b) && Stuck(b) && k < |b|
    ensures Slide(b[k]) == b[k] && Slide(Reverse(b[k])) == Reverse(b[k])
    ensures Slide(Column(b, k)) == Column(b, k)
    ensures Slide(Reverse(Column(b, k))) == Reverse(Column(b, k))
  {
    assert Move(Left, b) == b && Move(Right, b) == b && Move(Up, b) == b && Move(Down, b) == b;
    MoveFixed(Left, b);
    MoveFixed(Right, b);
    MoveFixed(Up, b);
    MoveFixed(Down, b);
    assert SlideRows(b)[k] == Slide(b[k]);
    assert SlideRows(Mirror(b))[k] == Slide(Mirror(b)[k]);
    assert SlideRows(Transpose(b))[k] == Slide(Transpose(b)[k]);
    assert SlideRows(Mirror(Transpose(b)))[k] == Slide(Mirror(Transpose(b))[k]);
  }

  lemma StuckBoardIsFull(b: Board, i: nat, j: nat)
    requires Square(b) && Stuck(b) && HasTile(b) && i < |b| && j < |b|
    ensures b[i][j] != 0
  {
    var a, c :| 0 <= a < |b| && 0 <= c < |b| && b[a][c] != 0;
    if b[i][j] == 0 {
      StuckLines(b, a);
      StuckLines(b, j);
      if b[a][j] == 0 {
        RowMoves(b[a], j, c);
      } else {
        RowMoves(Column(b, j), i, a);
      }
      assert false;
    }
  }

  lemma StuckBoardCannotMove(b: Board)
    requires Square(b) && Stuck(b) && HasTile(b)
    ensures !CanMove(b)
  {
    forall i, j | 0 <= i < |b| && 0 <= j < |b|
      ensures !MovableAt(b, i, j)
    {
      StuckBoardIsFull(b, i, j);
      StuckLines(b, i);
      StuckLines(b, j);
      SlideFixed(b[i]);
      SlideFixed(Column(b, j));
      assert !PairAt(b[i], j) && !PairAt(Column(b, j), i);
    }
  }

  /** A row or column that is not stuck shows it to `canMove`. */
  lemma LineShows(r: Row)
    requires Slide(r) != r
    ensures (exists i :: 0 <= i < |r| && r[i] == 0) || HasPair(r)
  {
    SlideFixed(r);
  }

  lemma ReversedLineShows(r: Row)
    requires Slide(Reverse(r)) != Reverse(r)
    ensures (exists i :: 0 <= i < |r| && r[i] == 0) || HasPair(r)
  {
    var s := Reverse(r);
    LineShows(s);
    if i :| 0 <= i < |s| && s[i] == 0 {
      assert r[|r| - 1 - i] == 0;
    } else {
      var i: nat :| PairAt(s, i);
      assert PairAt(r, |r| - 2 - i);
    }
  }

  lemma RowShows(b: Board, k: nat)
    requires Square(b) && k < |b|
    requires (exists i :: 0 <= i < |b[k]| && b[k][i] == 0) || HasPair(b[k])
    ensures CanMove(b)
  {
    if i :| 0 <= i < |b[k]| && b[k][i] == 0 {
      assert MovableAt(b, k, i);
    } else {
      var i: nat :| PairAt(b[k], i);
      assert MovableAt(b, k, i);
    }
  }

  lemma ColumnShows(b: Board, k: nat)
    requires Square(b) && k < |b|
    requires (exists i :: 0 <= i < |b| && Column(b, k)[i] == 0) || HasPair(Column(b, k))
    ensures CanMove(b)
  {
    if i :| 0 <= i < |b| && Column(b, k)[i] == 0 {
      assert MovableAt(b, i, k);
    } else {
      var i: nat :| PairAt(Column(b, k), i);
      assert MovableAt(b, i, k);
    }
  }

  lemma ChangedRow(b: Board) returns (k: nat)
    requires SlideRows(b) != b
    ensures k < |b| && Slide(b[k]) != b[k]
  {
    k :| 0 <= k < |b| && SlideRows(b)[k] != b[k];
  }

  lemma EffectiveMoveShows(d: Direction, b: Board)
    requires Square(b) && Move(d, b) != b
    ensures CanMove(b)
  {
    MoveFixed(d, b);
    match d
    case Left =>
      var k := ChangedRow(b);
      LineShows(b[k]);
      RowShows(b, k);
    case Right =>
      var k := ChangedRow(Mirror(b));
      ReversedLineShows(b[k]);
      RowShows(b, k);
    case Up =>
      var k := ChangedRow(Transpose(b));
      LineShows(Column(b, k));
      ColumnShows(b, k);
    case Down =>
      var k := ChangedRow(Mirror(Transpose(b)));
      ReversedLineShows(Column(b, k));
      ColumnShows(b, k);
  }

  /** `canMove` is exact: it holds if and only if some move changes the board, the
      only exception being a board without any tile. */
  lemma CanMoveExact(b: Board)
    requires Square(b)
    ensures CanMove(b) <==> (|b| > 0 && !HasTile(b)) || exists d :: Move(d, b) != b
  {
    if |b| > 0 && !HasTile(b) {
      assert b[0][0] == 0;
      assert MovableAt(b, 0, 0);
    } else if d :| Move(d, b) != b {
      EffectiveMoveShows(d, b);
    } else if |b| > 0 {
      StuckBoardCannotMove(b);
    }
  }
}
