/**
 * Coordinates, neighbourhoods and the counting facts behind the Minesweeper
 * engine: how many mines a cell sees, how many safe cells a board has, and
 * when the revealed cells cover all of them.
 */
module Grid {

  /** A board coordinate; `x` selects the row, `y` the column. */
  datatype Pos = Pos(x: int, y: int)

  /** Every coordinate of a `size` × `size` board. */
  ghost function Cells(size: nat): set<Pos> {
    set i, j | 0 <= i < size && 0 <= j < size :: Pos(i, j)
  }

  /** `p` lies on a `size` × `size` board. */
  predicate OnBoard(size: int, p: Pos) {
    0 <= p.x < size && 0 <= p.y < size
  }

  lemma CellsMember(size: nat, p: Pos)
    ensures p in Cells(size) <==> OnBoard(size, p)
  {
  }

  lemma OnBoardCells(size: nat, s: set<Pos>)
    requires forall p :: p in s ==> OnBoard(size, p)
    ensures s <= Cells(size)
  {
  }

  /** A set of squares of a `size` × `size` board has at most `size²` members. */
  lemma OnBoardCard(size: nat, s: set<Pos>)
    requires forall p :: p in s ==> OnBoard(size, p)
    ensures |s| <= size * size
  {
    CellsCard(size);
    OnBoardCells(size, s);
    SubsetCard(s, Cells(size));
  }

  /** `q` is one of the up-to-8 cells surrounding `c` (never `c` itself). */
  predicate Adjacent(c: Pos, q: Pos) {
    q != c && -1 <= q.x - c.x <= 1 && -1 <= q.y - c.y <= 1
  }

  /** The Moore neighbourhood of `c`, clipped at the edges of the board. */
  ghost function Neighbours(size: nat, c: Pos): set<Pos> {
    set i, j | c.x - 1 <= i <= c.x + 1 && c.y - 1 <= j <= c.y + 1 && Adjacent(c, Pos(i, j)) &&
               OnBoard(size, Pos(i, j)) :: Pos(i, j)
  }

  /** A square is a neighbour of `c` exactly when it is on the board and adjacent to `c`. */
  lemma NeighboursMember(size: nat, c: Pos, q: Pos)
    ensures q in Neighbours(size, c) <==> OnBoard(size, q) && Adjacent(c, q)
  {
    if OnBoard(size, q) && Adjacent(c, q) {
      assert q == Pos(q.x, q.y);
    }
  }

  /** The eight positions around `c`, whether or not they lie on the board. */
  function Ring(c: Pos): set<Pos> {
    {Pos(c.x - 1, c.y - 1), Pos(c.x - 1, c.y), Pos(c.x - 1, c.y + 1),
     Pos(c.x, c.y - 1), Pos(c.x, c.y + 1),
     Pos(c.x + 1, c.y - 1), Pos(c.x + 1, c.y), Pos(c.x + 1, c.y + 1)}
  }

  /** The neighbours of `c` that are mines. */
  ghost function MineNeighbours(size: nat, mines: set<Pos>, c: Pos): set<Pos> {
    set q | q in Neighbours(size, c) && q in mines
  }

  /** The number a non-mine cell `c` shows: its neighbours that are mines. */
  ghost function MineCount(size: nat, mines: set<Pos>, c: Pos): nat {
    |MineNeighbours(size, mines, c)|
  }

  /** The cells of the board that are not mines. */
  ghost function SafeCells(size: nat, mines: set<Pos>): set<Pos> {
    Cells(size) - mines
  }

  /** No coordinate occurs twice in `s`. */
  ghost predicate Distinct(s: seq<Pos>) {
    forall i, j :: 0 <= i < j < |s| ==> s[i] != s[j]
  }

  ghost function Elems(s: seq<Pos>): set<Pos> {
    set p | p in s
  }

  // ---------------------------------------------------------------------
  // Cardinality helpers

  lemma SubsetCard<T>(a: set<T>, b: set<T>)
    requires a <= b
    ensures |a| <= |b|
    ensures |a| == |b| ==> a == b
  {
    assert b == a + (b - a);
    assert |b| == |a| + |b - a|;
    if |a| == |b| {
      assert |b - a| == 0;
      assert b - a == {};
    }
  }

  /** The first `h` squares of row `i`. */
  ghost function Row(i: int, h: nat): set<Pos> {
    set j | 0 <= j < h :: Pos(i, j)
  }

  /** The squares in the first `w` rows and the first `h` columns. */
  ghost function Rect(w: nat, h: nat): set<Pos> {
    set i, j | 0 <= i < w && 0 <= j < h :: Pos(i, j)
  }

  lemma {:induction false} RowCard(i: int, h: nat)
    ensures |Row(i, h)| == h
  {
    if h > 0 {
      RowCard(i, h - 1);
      assert Row(i, h) == Row(i, h - 1) + {Pos(i, h - 1)};
    }
  }

  /** The first `w` rows are the first `w - 1` rows and row `w - 1`, which do not overlap. */
  lemma RectSplit(w: nat, h: nat)
    requires w > 0
    ensures Rect(w, h) == Rect(w - 1, h) + Row(w - 1, h)
    ensures Rect(w - 1, h) !! Row(w - 1, h)
  {
    forall p | p in Rect(w, h) ensures p in Rect(w - 1, h) + Row(w - 1, h) {
      if p.x < w - 1 {
        assert p in Rect(w - 1, h);
      } else {
        assert p in Row(w - 1, h);
      }
    }
  }

  lemma {:induction false} RectCard(w: nat, h: nat)
    ensures |Rect(w, h)| == w * h
  {
    if w > 0 {
      RectCard(w - 1, h);
      RowCard(w - 1, h);
      RectSplit(w, h);
      assert |Rect(w, h)| == |Rect(w - 1, h)| + |Row(w - 1, h)|;
      assert (w - 1) * h + h == w * h;
    }
  }

  /** A `size` × `size` board has `size²` cells. */
  lemma CellsCard(size: nat)
    ensures |Cells(size)| == size * size
  {
    RectCard(size, size);
    assert Cells(size) == Rect(size, size);
  }

  /**
   * A list has at most as many distinct elements as entries, and exactly as
   * many when no entry repeats.
   */
  lemma {:induction false} DistinctIffCard(s: seq<Pos>)
    ensures |Elems(s)| <= |s|
    ensures Distinct(s) <==> |Elems(s)| == |s|
  {
    if s == [] {
      assert Elems(s) == {};
    } else {
      var t, last := s[..|s| - 1], s[|s| - 1];
      assert s == t + [last];
      DistinctIffCard(t);
      ElemsSnoc(t, last);
      if last in t {
        var k :| 0 <= k < |t| && t[k] == last;
        assert s[k] == s[|s| - 1];
      } else {
        DistinctSnoc(t, last);
      }
    }
  }

  /** Appending an element the list lacks keeps it distinct exactly when it was. */
  lemma DistinctSnoc(s: seq<Pos>, p: Pos)
    requires p !in s
    ensures Distinct(s + [p]) <==> Distinct(s)
  {
    var sp := s + [p];
    if Distinct(sp) {
      forall i, j | 0 <= i < j < |s| ensures s[i] != s[j] {
        assert s[i] == sp[i] && s[j] == sp[j];
      }
    }
  }

  /** Appending an element adds exactly that element to the set of a list. */
  lemma ElemsSnoc(s: seq<Pos>, p: Pos)
    ensures Elems(s + [p]) == Elems(s) + {p}
  {
    assert forall q :: q in s + [p] <==> q in s || q == p;
  }

  // ---------------------------------------------------------------------
  // Neighbourhoods

  /** A cell has at most eight neighbours, so its number lies in 0..8. */
  lemma MineCountBound(size: nat, mines: set<Pos>, c: Pos)
    ensures MineCount(size, mines, c) <= |Neighbours(size, c)| <= 8
  {
    SubsetCard(MineNeighbours(size, mines, c), Neighbours(size, c));
    forall q | q in Neighbours(size, c) ensures q in Ring(c) {
      assert q == Pos(c.x + (q.x - c.x), c.y + (q.y - c.y));
    }
    SubsetCard(Neighbours(size, c), Ring(c));
  }

  /** A cell whose number is 0 has no mine among its neighbours. */
  lemma ZeroCountNoMine(size: nat, mines: set<Pos>, c: Pos, q: Pos)
    requires MineCount(size, mines, c) == 0 && q in Neighbours(size, c)
    ensures q !in mines
  {
    assert MineNeighbours(size, mines, c) == {};
    assert q in mines ==> q in MineNeighbours(size, mines, c);
  }

  /**
   * The mines seen from `c` at offsets scanned before (dx, dy), in the
   * row-major order dx = -1..1, dy = -1..1 of the engine's loops.
   */
  ghost function Scanned(size: nat, mines: set<Pos>, c: Pos, dx: int, dy: int): set<Pos> {
    set q | q in MineNeighbours(size, mines, c) &&
            (q.x - c.x < dx || (q.x - c.x == dx && q.y - c.y < dy))
  }

  /**
   * Scanning offset (dx, dy) counts one more mine exactly when the square
   * there is a neighbour on the board holding a mine.
   */
  lemma ScanStep(size: nat, mines: set<Pos>, c: Pos, dx: int, dy: int)
    requires -1 <= dx <= 1 && -1 <= dy <= 1
    ensures var q := Pos(c.x + dx, c.y + dy);
      |Scanned(size, mines, c, dx, dy + 1)| ==
        |Scanned(size, mines, c, dx, dy)| + if OnBoard(size, q) && (dx, dy) != (0, 0) && q in mines then 1 else 0
  {
    var q := Pos(c.x + dx, c.y + dy);
    var before := Scanned(size, mines, c, dx, dy);
    var after := Scanned(size, mines, c, dx, dy + 1);
    NeighboursMember(size, c, q);
    assert q !in before;
    var added := if OnBoard(size, q) && (dx, dy) != (0, 0) && q in mines then {q} else {};
    forall o | o in after ensures o in before + added {
      if o.x - c.x == dx && o.y - c.y == dy {
        assert o == q;
      }
    }
    assert after == before + added;
  }

  lemma ScanRowEnd(size: nat, mines: set<Pos>, c: Pos, dx: int)
    ensures |Scanned(size, mines, c, dx, 2)| == |Scanned(size, mines, c, dx + 1, -1)|
  {
    assert Scanned(size, mines, c, dx, 2) == Scanned(size, mines, c, dx + 1, -1);
  }

  lemma ScanEnd(size: nat, mines: set<Pos>, c: Pos)
    ensures |Scanned(size, mines, c, 2, -1)| == MineCount(size, mines, c)
  {
    assert Scanned(size, mines, c, 2, -1) == MineNeighbours(size, mines, c);
  }

  // ---------------------------------------------------------------------
  // Winning is a counting identity

  /** With `mines` on the board, the board has `size² − |mines|` safe cells. */
  lemma SafeCellsCard(size: nat, mines: set<Pos>)
    requires forall p :: p in mines ==> OnBoard(size, p)
    ensures |SafeCells(size, mines)| == size * size - |mines|
  {
    CellsCard(size);
    OnBoardCells(size, mines);
    assert Cells(size) == SafeCells(size, mines) + mines;
  }

  /**
   * When every revealed cell is a safe cell of the board, at most
   * `size² − |mines|` cells are revealed, and that many are revealed exactly
   * when all safe cells are.
   */
  lemma WinIffAllSafeRevealed(size: nat, mines: set<Pos>, revealed: set<Pos>)
    requires forall p :: p in mines ==> OnBoard(size, p)
    requires forall p :: p in revealed ==> OnBoard(size, p) && p !in mines
    ensures |revealed| <= size * size - |mines|
    ensures |revealed| == size * size - |mines| <==> revealed == SafeCells(size, mines)
  {
    SafeCellsCard(size, mines);
    assert revealed <= SafeCells(size, mines);
    SubsetCard(revealed, SafeCells(size, mines));
  }

  /** While mines remain to be placed, some cell of the board is still free. */
  lemma FreeCellExists(size: nat, taken: set<Pos>)
    requires (forall p :: p in taken ==> OnBoard(size, p)) && |taken| < size * size
    ensures exists i, j :: 0 <= i < size && 0 <= j < size && Pos(i, j) !in taken
  {
    CellsCard(size);
    OnBoardCells(size, taken);
    SubsetCard(taken, Cells(size));
    assert taken != Cells(size);
    assert !(Cells(size) <= taken);
    var p :| p in Cells(size) && p !in taken;
    assert 0 <= p.x < size && 0 <= p.y < size && Pos(p.x, p.y) !in taken;
  }

  // ---------------------------------------------------------------------
  // Flood fill, stated over sets

  /**
   * Every neighbour of `c` is revealed, flagged or a mine: the flood fill
   * has nothing left to open around `c`.
   */
  ghost predicate Settled(size: nat, mines: set<Pos>, flags: set<Pos>, revealed: set<Pos>, c: Pos) {
    forall q :: q in Neighbours(size, c) ==> q in revealed || q in flags || q in mines
  }

  lemma SettledGrows(size: nat, mines: set<Pos>, flags: set<Pos>, r0: set<Pos>, r1: set<Pos>, c: Pos)
    requires r0 <= r1 && Settled(size, mines, flags, r0, c)
    ensures Settled(size, mines, flags, r1, c)
  {
  }

  /** The neighbours of `c` scanned before offset (dx, dy) are all settled. */
  ghost predicate ScanDone(size: nat, mines: set<Pos>, flags: set<Pos>, revealed: set<Pos>, c: Pos, dx: int, dy: int) {
    forall q :: q in Neighbours(size, c) && (q.x - c.x < dx || (q.x - c.x == dx && q.y - c.y < dy)) ==>
      q in revealed || q in flags || q in mines
  }

  lemma ScanDoneGrows(size: nat, mines: set<Pos>, flags: set<Pos>, r0: set<Pos>, r1: set<Pos>, c: Pos, dx: int, dy: int)
    requires r0 <= r1 && ScanDone(size, mines, flags, r0, c, dx, dy)
    ensures ScanDone(size, mines, flags, r1, c, dx, dy)
  {
  }

  /** Scanning offset (dx, dy) from `c` settles the neighbour at that offset, if it is one. */
  lemma ScanDoneStep(size: nat, mines: set<Pos>, flags: set<Pos>, revealed: set<Pos>, c: Pos, dx: int, dy: int)
    requires ScanDone(size, mines, flags, revealed, c, dx, dy)
    requires var n := Pos(c.x + dx, c.y + dy);
      n in Neighbours(size, c) ==> n in revealed || n in flags || n in mines
    ensures ScanDone(size, mines, flags, revealed, c, dx, dy + 1)
  {
    forall q | q in Neighbours(size, c) && q.x - c.x == dx && q.y - c.y == dy
      ensures q in revealed || q in flags || q in mines
    {
      assert q == Pos(c.x + dx, c.y + dy);
    }
  }

  /** A finished row of offsets starts the next one; the last row settles `c`. */
  lemma ScanDoneRowEnd(size: nat, mines: set<Pos>, flags: set<Pos>, revealed: set<Pos>, c: Pos, dx: int)
    requires ScanDone(size, mines, flags, revealed, c, dx, 2)
    ensures ScanDone(size, mines, flags, revealed, c, dx + 1, -1)
    ensures dx == 1 ==> Settled(size, mines, flags, revealed, c)
  {
  }

  /**
   * Every zero square opened since `before` (in `after`, not in `before`) is
   * settled in `after`: the fill continued from each zero it opened.
   */
  ghost predicate ZerosSettled(size: nat, mines: set<Pos>, flags: set<Pos>, before: set<Pos>, after: set<Pos>) {
    forall c :: c in after && c !in before && MineCount(size, mines, c) == 0 ==> Settled(size, mines, flags, after, c)
  }

  /**
   * Every square other than `start` opened since `before` touches `start` or
   * a zero square opened since `before`: the fill opened nothing it could not
   * reach.
   */
  ghost predicate Supported(size: nat, mines: set<Pos>, start: Pos, before: set<Pos>, after: set<Pos>) {
    forall c :: c in after && c !in before && c != start ==>
      Adjacent(start, c) || exists z :: z in after && z !in before && MineCount(size, mines, z) == 0 && Adjacent(z, c)
  }

  /** Opening a neighbour `n` of `start` keeps the fill supported. */
  lemma SupportedAdd(size: nat, mines: set<Pos>, start: Pos, before: set<Pos>, r: set<Pos>, n: Pos)
    requires Supported(size, mines, start, before, r) && Adjacent(start, n)
    ensures Supported(size, mines, start, before, r + {n})
  {
    forall c | c in r + {n} && c !in before && c != start && !Adjacent(start, c)
      ensures exists z :: z in r + {n} && z !in before && MineCount(size, mines, z) == 0 && Adjacent(z, c)
    {
      var z :| z in r && z !in before && MineCount(size, mines, z) == 0 && Adjacent(z, c);
      assert z in r + {n};
    }
  }

  /**
   * A fill continued from the zero square `n` (opened since `before`, by the
   * time the state was `middle`) keeps the outer fill supported.
   */
  lemma SupportedJoin(size: nat, mines: set<Pos>, start: Pos, before: set<Pos>, middle: set<Pos>, n: Pos, after: set<Pos>)
    requires before <= middle <= after
    requires Supported(size, mines, start, before, middle) && Supported(size, mines, n, middle, after)
    requires n in middle && n !in before && MineCount(size, mines, n) == 0
    ensures Supported(size, mines, start, before, after)
  {
    forall c | c in after && c !in before && c != start && !Adjacent(start, c)
      ensures exists z :: z in after && z !in before && MineCount(size, mines, z) == 0 && Adjacent(z, c)
    {
      if c in middle {
        var z :| z in middle && z !in before && MineCount(size, mines, z) == 0 && Adjacent(z, c);
        assert z in after;
      } else if !Adjacent(n, c) {
        var z :| z in after && z !in middle && MineCount(size, mines, z) == 0 && Adjacent(z, c);
        assert z !in before;
      }
    }
  }

  /** Two supported stretches of one fill, one after the other, make a supported whole. */
  lemma SupportedTrans(size: nat, mines: set<Pos>, start: Pos, r0: set<Pos>, r1: set<Pos>, r2: set<Pos>)
    requires r0 <= r1 <= r2
    requires Supported(size, mines, start, r0, r1) && Supported(size, mines, start, r1, r2)
    ensures Supported(size, mines, start, r0, r2)
  {
    forall c | c in r2 && c !in r0 && c != start && !Adjacent(start, c)
      ensures exists z :: z in r2 && z !in r0 && MineCount(size, mines, z) == 0 && Adjacent(z, c)
    {
      if c in r1 {
        var z :| z in r1 && z !in r0 && MineCount(size, mines, z) == 0 && Adjacent(z, c);
      } else {
        var z :| z in r2 && z !in r1 && MineCount(size, mines, z) == 0 && Adjacent(z, c);
      }
    }
  }

  /** A fill started from `start` just after opening `start` is a fill since before that. */
  lemma SupportedFromStart(size: nat, mines: set<Pos>, start: Pos, before: set<Pos>, after: set<Pos>)
    requires Supported(size, mines, start, before + {start}, after)
    ensures Supported(size, mines, start, before, after)
  {
    forall c | c in after && c !in before && c != start && !Adjacent(start, c)
      ensures exists z :: z in after && z !in before && MineCount(size, mines, z) == 0 && Adjacent(z, c)
    {
      var z :| z in after && z !in before + {start} && MineCount(size, mines, z) == 0 && Adjacent(z, c);
    }
  }

  /** Opening a square `n` that shows a number keeps every opened zero settled. */
  lemma ZerosSettledAdd(size: nat, mines: set<Pos>, flags: set<Pos>, before: set<Pos>, r: set<Pos>, n: Pos)
    requires ZerosSettled(size, mines, flags, before, r) && MineCount(size, mines, n) != 0
    ensures ZerosSettled(size, mines, flags, before, r + {n})
  {
    forall c | c in r + {n} && c !in before && MineCount(size, mines, c) == 0
      ensures Settled(size, mines, flags, r + {n}, c)
    {
      SettledGrows(size, mines, flags, r, r + {n}, c);
    }
  }

  /** Two stretches of a fill that each settle their zeros settle them together. */
  lemma ZerosSettledTrans(size: nat, mines: set<Pos>, flags: set<Pos>, r0: set<Pos>, r1: set<Pos>, r2: set<Pos>)
    requires r0 <= r1 <= r2
    requires ZerosSettled(size, mines, flags, r0, r1) && ZerosSettled(size, mines, flags, r1, r2)
    ensures ZerosSettled(size, mines, flags, r0, r2)
  {
    forall c | c in r2 && c !in r0 && MineCount(size, mines, c) == 0
      ensures Settled(size, mines, flags, r2, c)
    {
      if c in r1 {
        SettledGrows(size, mines, flags, r1, r2, c);
      }
    }
  }

  /**
   * Opening the zero square `n` and continuing the fill from it until `n`
   * is settled keeps every opened zero settled.
   */
  lemma ZerosSettledJoin(size: nat, mines: set<Pos>, flags: set<Pos>, before: set<Pos>, r: set<Pos>, n: Pos, after: set<Pos>)
    requires r + {n} <= after && ZerosSettled(size, mines, flags, before, r)
    requires Settled(size, mines, flags, after, n) && ZerosSettled(size, mines, flags, r + {n}, after)
    ensures ZerosSettled(size, mines, flags, before, after)
  {
    forall c | c in after && c !in before && MineCount(size, mines, c) == 0
      ensures Settled(size, mines, flags, after, c)
    {
      if c in r {
        SettledGrows(size, mines, flags, r, after, c);
      }
    }
  }

  // ---------------------------------------------------------------------
  // Worked boards

  /** On a 3 × 3 board with its one mine in the centre, a corner shows 1. */
  lemma CornerOfThreeByThree()
    ensures MineCount(3, {Pos(1, 1)}, Pos(0, 0)) == 1
  {
    assert Pos(1, 1) in Neighbours(3, Pos(0, 0));
    assert MineNeighbours(3, {Pos(1, 1)}, Pos(0, 0)) == {Pos(1, 1)};
  }

  /** On a 2 × 2 board with a mine at (0, 0), every other cell shows 1. */
  lemma TwoByTwo(c: Pos)
    requires c in SafeCells(2, {Pos(0, 0)})
    ensures MineCount(2, {Pos(0, 0)}, c) == 1
  {
    CellsMember(2, c);
    assert Pos(0, 0) in Neighbours(2, c);
    assert MineNeighbours(2, {Pos(0, 0)}, c) == {Pos(0, 0)};
  }
}
