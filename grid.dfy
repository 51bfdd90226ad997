/**
 * The older grid: a height x widht matrix of cells indexed matrix[row][col],
 * boundary walls closed at construction, a wall setter that mirrors the wall
 * onto the facing side of the neighbour, and a serialiser that writes one
 * line of hex digits per row.
 */
module OldMaze {
  import opened Wrappers
  import opened Cells

  /** A grid as a value: row-major, one cell state per position. */
  type Grid = seq<seq<CellState>>

  /** range(n) is empty for a negative n. */
  function Clamp(n: int): nat
  {
    if n < 0 then 0 else n
  }

  /** Every row has w cells. */
  predicate Rect(g: Grid, w: nat)
  {
    forall i :: 0 <= i < |g| ==> |g[i]| == w
  }

  /** Every cell of g has a complete wall dictionary. */
  predicate AllComplete(g: Grid)
  {
    forall i, j :: 0 <= i < |g| && 0 <= j < |g[i]| ==> Complete(g[i][j].walls)
  }

  /** h rows of w cells, every wall dictionary complete. */
  predicate Shaped(g: Grid, h: nat, w: nat)
  {
    |g| == h && Rect(g, w) && AllComplete(g)
  }

  lemma GridExt(a: Grid, b: Grid)
    requires |a| == |b|
    requires forall i :: 0 <= i < |a| ==> |a[i]| == |b[i]|
    requires forall i, j :: 0 <= i < |a| && 0 <= j < |a[i]| ==> a[i][j] == b[i][j]
    ensures a == b
  {
    forall i | 0 <= i < |a|
      ensures a[i] == b[i]
    {
      assert |a[i]| == |b[i]|;
    }
  }

  // ---------------------------------------------------------------------
  // The wall setter on values.

  /**
   * The neighbour write of set_wall, AS WRITTEN: the match compares the
   * direction's key against "NORTH", "WEST", "SOUTH" and "EAST", so the
   * cells' "EST" key never selects the east arm.
   */
  function Mirror(h: int, w: int, x: int, y: int, d: Direction): (r: Option<(int, int, Direction)>)
    ensures 0 <= x < h && 0 <= y < w && r.Some? ==> 0 <= r.value.0 < h && 0 <= r.value.1 < w
  {
    var name := d.Name();
    if name == "NORTH" then (if x - 1 >= 0 then Some((x - 1, y, South)) else None)
    else if name == "WEST" then (if y - 1 >= 0 then Some((x, y - 1, Est)) else None)
    else if name == "SOUTH" then (if x + 1 < h then Some((x + 1, y, North)) else None)
    else if name == "EAST" then (if y + 1 < w then Some((x, y + 1, West)) else None)
    else None
  }

  /** The neighbour write with the east arm matching the cells' own "EST" key. */
  function MirrorPaired(h: int, w: int, x: int, y: int, d: Direction): (r: Option<(int, int, Direction)>)
    ensures 0 <= x < h && 0 <= y < w && r.Some? ==> 0 <= r.value.0 < h && 0 <= r.value.1 < w
  {
    match d
    case North => if x - 1 >= 0 then Some((x - 1, y, South)) else None
    case West => if y - 1 >= 0 then Some((x, y - 1, Est)) else None
    case South => if x + 1 < h then Some((x + 1, y, North)) else None
    case Est => if y + 1 < w then Some((x, y + 1, West)) else None
  }

  /** The two neighbour rules differ on east writes only, and as written an east write is never mirrored. */
  lemma MirrorDiffersOnEast(h: int, w: int, x: int, y: int, d: Direction)
    ensures d != Est ==> Mirror(h, w, x, y, d) == MirrorPaired(h, w, x, y, d)
    ensures Mirror(h, w, x, y, Est) == None
    ensures y + 1 < w ==> MirrorPaired(h, w, x, y, Est) == Some((x, y + 1, West))
  {
    assert Est.Name() != "EAST";
  }

  /** A cell with wall d set to s and nothing else changed. */
  function Written(c: CellState, d: Direction, s: bool): CellState
  {
    c.(walls := c.walls[d := s])
  }

  /** The grid with cell (i, j) replaced by Written(g[i][j], d, s); every other cell is kept. */
  function WriteWall(g: Grid, i: int, j: int, d: Direction, s: bool): (r: Grid)
    requires 0 <= i < |g| && 0 <= j < |g[i]|
    ensures |r| == |g| && forall k :: 0 <= k < |g| ==> |r[k]| == |g[k]|
    ensures forall k, l :: 0 <= k < |g| && 0 <= l < |g[k]| ==>
      r[k][l] == if k == i && l == j then Written(g[i][j], d, s) else g[k][l]
    ensures AllComplete(g) ==> AllComplete(r)
  {
    g[i := g[i][j := Written(g[i][j], d, s)]]
  }

  function ApplyMirror(g: Grid, t: Option<(int, int, Direction)>, s: bool): Grid
    requires t.Some? ==> 0 <= t.value.0 < |g| && 0 <= t.value.1 < |g[t.value.0]|
  {
    match t
    case None => g
    case Some((i, j, e)) => WriteWall(g, i, j, e, s)
  }

  /** Maze.set_wall on a value grid, as written. */
  function SetWallGrid(g: Grid, h: nat, w: nat, x: int, y: int, d: Direction, s: bool): (r: Grid)
    requires |g| == h && Rect(g, w) && 0 <= x < h && 0 <= y < w
    ensures |r| == h && Rect(r, w)
    ensures AllComplete(g) ==> AllComplete(r)
  {
    ApplyMirror(WriteWall(g, x, y, d, s), Mirror(h, w, x, y, d), s)
  }

  /** Maze.set_wall on a value grid with the east arm corrected. */
  function SetWallGridPaired(g: Grid, h: nat, w: nat, x: int, y: int, d: Direction, s: bool): (r: Grid)
    requires |g| == h && Rect(g, w) && 0 <= x < h && 0 <= y < w
    ensures |r| == h && Rect(r, w)
    ensures AllComplete(g) ==> AllComplete(r)
  {
    ApplyMirror(WriteWall(g, x, y, d, s), MirrorPaired(h, w, x, y, d), s)
  }

  /** Mirror never names the written cell itself. */
  lemma MirrorElsewhere(h: int, w: int, x: int, y: int, d: Direction)
    ensures Mirror(h, w, x, y, d).Some? ==> (Mirror(h, w, x, y, d).value.0, Mirror(h, w, x, y, d).value.1) != (x, y)
    ensures MirrorPaired(h, w, x, y, d).Some? ==> (MirrorPaired(h, w, x, y, d).value.0, MirrorPaired(h, w, x, y, d).value.1) != (x, y)
  {
  }

  /**
   * set_wall changes exactly two cells at most: (x, y) gets wall d, the
   * neighbour Mirror names (if any) gets the facing wall, and every other cell,
   * and every flag, keeps its value.
   */
  lemma SetWallGridEffect(g: Grid, h: nat, w: nat, x: int, y: int, d: Direction, s: bool, i: int, j: int)
    requires |g| == h && Rect(g, w) && 0 <= x < h && 0 <= y < w
    requires 0 <= i < h && 0 <= j < w
    ensures SetWallGrid(g, h, w, x, y, d, s)[i][j]
      == if i == x && j == y then Written(g[x][y], d, s)
         else match Mirror(h, w, x, y, d)
           case Some((mi, mj, e)) => if i == mi && j == mj then Written(g[i][j], e, s) else g[i][j]
           case None => g[i][j]
  {
    MirrorElsewhere(h, w, x, y, d);
  }

  /** The same for the corrected setter. */
  lemma SetWallGridPairedEffect(g: Grid, h: nat, w: nat, x: int, y: int, d: Direction, s: bool, i: int, j: int)
    requires |g| == h && Rect(g, w) && 0 <= x < h && 0 <= y < w
    requires 0 <= i < h && 0 <= j < w
    ensures SetWallGridPaired(g, h, w, x, y, d, s)[i][j]
      == if i == x && j == y then Written(g[x][y], d, s)
         else match MirrorPaired(h, w, x, y, d)
           case Some((mi, mj, e)) => if i == mi && j == mj then Written(g[i][j], e, s) else g[i][j]
           case None => g[i][j]
  {
    MirrorElsewhere(h, w, x, y, d);
  }

  /** The pairing invariant: both sides of every interior edge agree. */
  predicate Paired(g: Grid, h: nat, w: nat)
    requires Shaped(g, h, w)
  {
    (forall i, j :: 0 <= i < h && 0 <= j < w - 1 ==> g[i][j].walls[Est] == g[i][j + 1].walls[West])
    && (forall i, j :: 0 <= i < h - 1 && 0 <= j < w ==> g[i][j].walls[South] == g[i + 1][j].walls[North])
  }

  /** With the east arm corrected, every write keeps both sides of every interior edge equal. */
  lemma SetWallPairedPreserves(g: Grid, h: nat, w: nat, x: int, y: int, d: Direction, s: bool)
    requires Shaped(g, h, w) && 0 <= x < h && 0 <= y < w
    requires Paired(g, h, w)
    ensures Shaped(SetWallGridPaired(g, h, w, x, y, d, s), h, w)
    ensures Paired(SetWallGridPaired(g, h, w, x, y, d, s), h, w)
  {
    var r: Grid := SetWallGridPaired(g, h, w, x, y, d, s);
    forall i, j | 0 <= i < h && 0 <= j < w - 1
      ensures r[i][j].walls[Est] == r[i][j + 1].walls[West]
    {
      EastEdgeKept(g, h, w, x, y, d, s, i, j);
    }
    forall i, j | 0 <= i < h - 1 && 0 <= j < w
      ensures r[i][j].walls[South] == r[i + 1][j].walls[North]
    {
      SouthEdgeKept(g, h, w, x, y, d, s, i, j);
    }
  }

  /** After the corrected write, a wall is s exactly where the write or its mirror put it, and as before elsewhere. */
  lemma PairedWallAt(g: Grid, h: nat, w: nat, x: int, y: int, d: Direction, s: bool, i: int, j: int, e: Direction)
    requires Shaped(g, h, w) && 0 <= x < h && 0 <= y < w && 0 <= i < h && 0 <= j < w
    ensures e in SetWallGridPaired(g, h, w, x, y, d, s)[i][j].walls
    ensures SetWallGridPaired(g, h, w, x, y, d, s)[i][j].walls[e]
      == if (i, j, e) == (x, y, d) || MirrorPaired(h, w, x, y, d) == Some((i, j, e)) then s else g[i][j].walls[e]
  {
    SetWallGridPairedEffect(g, h, w, x, y, d, s, i, j);
    MirrorElsewhere(h, w, x, y, d);
  }

  /** The corrected write keeps the edge between (i, j) and (i, j + 1) paired. */
  lemma EastEdgeKept(g: Grid, h: nat, w: nat, x: int, y: int, d: Direction, s: bool, i: int, j: int)
    requires Shaped(g, h, w) && 0 <= x < h && 0 <= y < w && 0 <= i < h && 0 <= j < w - 1
    requires g[i][j].walls[Est] == g[i][j + 1].walls[West]
    ensures SetWallGridPaired(g, h, w, x, y, d, s)[i][j].walls[Est]
      == SetWallGridPaired(g, h, w, x, y, d, s)[i][j + 1].walls[West]
  {
    PairedWallAt(g, h, w, x, y, d, s, i, j, Est);
    PairedWallAt(g, h, w, x, y, d, s, i, j + 1, West);
    var m := MirrorPaired(h, w, x, y, d);
    assert (i, j, Est) == (x, y, d) <==> m == Some((i, j + 1, West));
    assert (i, j + 1, West) == (x, y, d) <==> m == Some((i, j, Est));
  }

  /** The corrected write keeps the edge between (i, j) and (i + 1, j) paired. */
  lemma SouthEdgeKept(g: Grid, h: nat, w: nat, x: int, y: int, d: Direction, s: bool, i: int, j: int)
    requires Shaped(g, h, w) && 0 <= x < h && 0 <= y < w && 0 <= i < h - 1 && 0 <= j < w
    requires g[i][j].walls[South] == g[i + 1][j].walls[North]
    ensures SetWallGridPaired(g, h, w, x, y, d, s)[i][j].walls[South]
      == SetWallGridPaired(g, h, w, x, y, d, s)[i + 1][j].walls[North]
  {
    PairedWallAt(g, h, w, x, y, d, s, i, j, South);
    PairedWallAt(g, h, w, x, y, d, s, i + 1, j, North);
    var m := MirrorPaired(h, w, x, y, d);
    assert (i, j, South) == (x, y, d) <==> m == Some((i + 1, j, North));
    assert (i + 1, j, North) == (x, y, d) <==> m == Some((i, j, South));
  }

  /**
   * As written, a write keeps the pairing invariant exactly when it is not an
   * east write that changes an interior east wall: NORTH, SOUTH and WEST writes
   * are mirrored, an EST write never is.
   */
  lemma SetWallAsWrittenPairing(g: Grid, h: nat, w: nat, x: int, y: int, d: Direction, s: bool)
    requires Shaped(g, h, w) && 0 <= x < h && 0 <= y < w
    requires Paired(g, h, w)
    ensures Shaped(SetWallGrid(g, h, w, x, y, d, s), h, w)
    ensures Paired(SetWallGrid(g, h, w, x, y, d, s), h, w)
        <==> !(d == Est && y + 1 < w && g[x][y + 1].walls[West] != s)
  {
    var r: Grid := SetWallGrid(g, h, w, x, y, d, s);
    MirrorDiffersOnEast(h, w, x, y, d);
    if d == Est && y + 1 < w && g[x][y + 1].walls[West] != s {
      SetWallGridEffect(g, h, w, x, y, d, s, x, y);
      SetWallGridEffect(g, h, w, x, y, d, s, x, y + 1);
      assert r[x][y].walls[Est] != r[x][y + 1].walls[West];
    } else {
      var p: Grid := SetWallGridPaired(g, h, w, x, y, d, s);
      SetWallPairedPreserves(g, h, w, x, y, d, s);
      forall i, j | 0 <= i < h && 0 <= j < w
        ensures r[i][j] == p[i][j]
      {
        SetWallGridEffect(g, h, w, x, y, d, s, i, j);
        SetWallGridPairedEffect(g, h, w, x, y, d, s, i, j);
        if d == Est && y + 1 < w && i == x && j == y + 1 {
          assert g[x][y + 1].walls[West := s] == g[x][y + 1].walls;
        }
      }
      GridExt(r, p);
    }
  }

  /** A concrete case: in a fresh 1 x 2 grid, closing the east wall of (0, 0) leaves (0, 1)'s west wall open. */
  lemma EastWriteBreaksPairing()
    ensures Shaped(FreshGrid(1, 2), 1, 2) && Paired(FreshGrid(1, 2), 1, 2)
    ensures Shaped(SetWallGrid(FreshGrid(1, 2), 1, 2, 0, 0, Est, true), 1, 2)
    ensures SetWallGrid(FreshGrid(1, 2), 1, 2, 0, 0, Est, true)[0][0].walls[Est]
    ensures !SetWallGrid(FreshGrid(1, 2), 1, 2, 0, 0, Est, true)[0][1].walls[West]
    ensures !Paired(SetWallGrid(FreshGrid(1, 2), 1, 2, 0, 0, Est, true), 1, 2)
  {
    var g := FreshGrid(1, 2);
    FreshGridPaired(g, 1, 2);
    SetWallAsWrittenPairing(g, 1, 2, 0, 0, Est, true);
    SetWallGridEffect(g, 1, 2, 0, 0, Est, true, 0, 0);
    SetWallGridEffect(g, 1, 2, 0, 0, Est, true, 0, 1);
  }

  // ---------------------------------------------------------------------
  // Construction.

  /** Walls of (i, j) after the constructor: closed exactly on the outer boundary. */
  function BoundaryWalls(h: nat, w: nat, i: int, j: int): Walls
  {
    map[North := i == 0, Est := j == w - 1, South := i == h - 1, West := j == 0]
  }

  function FreshGrid(h: nat, w: nat): Grid
  {
    seq(h, i => seq(w, j => FreshState.(walls := BoundaryWalls(h, w, i, j))))
  }

  lemma FreshGridSpec(h: nat, w: nat)
    ensures Shaped(FreshGrid(h, w), h, w)
    ensures forall i, j :: 0 <= i < h && 0 <= j < w ==>
      FreshGrid(h, w)[i][j] == FreshState.(walls := BoundaryWalls(h, w, i, j))
  {
    forall i, j | 0 <= i < h && 0 <= j < w
      ensures Complete(FreshGrid(h, w)[i][j].walls)
    {
      FourKeysComplete(BoundaryWalls(h, w, i, j));
    }
  }

  /** A freshly built grid satisfies the pairing invariant: every interior wall is open on both sides. */
  lemma FreshGridPaired(g: Grid, h: nat, w: nat)
    requires g == FreshGrid(h, w)
    ensures Shaped(g, h, w) && Paired(g, h, w)
  {
    FreshGridSpec(h, w);
  }

  /** The four guarded writes of one iteration of the constructor's boundary loop. */
  function BoundaryWrites(g: Grid, h: nat, w: nat, x: int, y: int): (r: Grid)
    requires |g| == h && Rect(g, w) && 0 <= x < h && 0 <= y < w
    ensures |r| == h && Rect(r, w)
  {
    var g1: Grid := if x == h - 1 then WriteWall(g, x, y, South, true) else g;
    var g2: Grid := if x == 0 then WriteWall(g1, x, y, North, true) else g1;
    var g3: Grid := if y == w - 1 then WriteWall(g2, x, y, Est, true) else g2;
    if y == 0 then WriteWall(g3, x, y, West, true) else g3
  }

  /** On a fresh cell the writes produce exactly the boundary walls of (x, y); every other cell is untouched. */
  lemma BoundaryWritesEffect(g: Grid, h: nat, w: nat, x: int, y: int)
    requires |g| == h && Rect(g, w) && 0 <= x < h && 0 <= y < w
    requires g[x][y] == FreshState
    ensures forall i, j :: 0 <= i < h && 0 <= j < w ==>
      BoundaryWrites(g, h, w, x, y)[i][j]
        == if i == x && j == y then FreshState.(walls := BoundaryWalls(h, w, x, y)) else g[i][j]
  {
    forall i, j | 0 <= i < h && 0 <= j < w
      ensures BoundaryWrites(g, h, w, x, y)[i][j]
        == if i == x && j == y then FreshState.(walls := BoundaryWalls(h, w, x, y)) else g[i][j]
    {
      BoundaryWritesAt(g, h, w, x, y, i, j);
    }
  }

  /** BoundaryWritesEffect at one cell. */
  lemma BoundaryWritesAt(g: Grid, h: nat, w: nat, x: int, y: int, i: int, j: int)
    requires |g| == h && Rect(g, w) && 0 <= x < h && 0 <= y < w
    requires g[x][y] == FreshState && 0 <= i < h && 0 <= j < w
    ensures BoundaryWrites(g, h, w, x, y)[i][j]
      == if i == x && j == y then FreshState.(walls := BoundaryWalls(h, w, x, y)) else g[i][j]
  {
    var g1: Grid := if x == h - 1 then WriteWall(g, x, y, South, true) else g;
    var g2: Grid := if x == 0 then WriteWall(g1, x, y, North, true) else g1;
    var g3: Grid := if y == w - 1 then WriteWall(g2, x, y, Est, true) else g2;
    var r: Grid := if y == 0 then WriteWall(g3, x, y, West, true) else g3;
    assert r == BoundaryWrites(g, h, w, x, y);
    if i != x || j != y {
      assert g1[i][j] == g[i][j];
      assert g2[i][j] == g[i][j];
      assert g3[i][j] == g[i][j];
    } else {
      var c1 := if x == h - 1 then Written(FreshState, South, true) else FreshState;
      var c2 := if x == 0 then Written(c1, North, true) else c1;
      var c3 := if y == w - 1 then Written(c2, Est, true) else c2;
      var c4 := if y == 0 then Written(c3, West, true) else c3;
      assert g1[x][y] == c1;
      assert g2[x][y] == c2;
      assert g3[x][y] == c3;
      assert r[x][y] == c4;
      BoundaryCellBuilt(h, w, x, y);
    }
  }

  /** The four guarded writes turn the fresh cell into the fresh cell with the boundary walls of (x, y). */
  lemma BoundaryCellBuilt(h: nat, w: nat, x: int, y: int)
    ensures
      var c1 := if x == h - 1 then Written(FreshState, South, true) else FreshState;
      var c2 := if x == 0 then Written(c1, North, true) else c1;
      var c3 := if y == w - 1 then Written(c2, Est, true) else c2;
      var c4 := if y == 0 then Written(c3, West, true) else c3;
      c4 == FreshState.(walls := BoundaryWalls(h, w, x, y))
  {
    var m1 := if x == h - 1 then OpenWalls[South := true] else OpenWalls;
    var m2 := if x == 0 then m1[North := true] else m1;
    var m3 := if y == w - 1 then m2[Est := true] else m2;
    var m4 := if y == 0 then m3[West := true] else m3;
    assert m4 == BoundaryWalls(h, w, x, y);
  }

  // ---------------------------------------------------------------------
  // Serialisation.

  function RowDigits(row: seq<CellState>): string
    requires forall k :: 0 <= k < |row| ==> Complete(row[k].walls)
  {
    if row == [] then ""
    else RowDigits(row[..|row| - 1]) + [HexDigit(row[|row| - 1].walls)]
  }

  /** output_in_file's text: each row's hex digits followed by "\n". */
  function Serialize(g: Grid): string
    requires AllComplete(g)
  {
    if g == [] then ""
    else Serialize(g[..|g| - 1]) + RowDigits(g[|g| - 1]) + "\n"
  }

  lemma {:induction false} RowDigitsLength(row: seq<CellState>)
    requires forall k :: 0 <= k < |row| ==> Complete(row[k].walls)
    ensures |RowDigits(row)| == |row|
  {
    if row != [] {
      RowDigitsLength(row[..|row| - 1]);
    }
  }

  /** Digit k of a row is the hex digit of cell k. */
  lemma {:induction false} RowDigitsAt(row: seq<CellState>, k: nat)
    requires forall k :: 0 <= k < |row| ==> Complete(row[k].walls)
    requires k < |row|
    ensures |RowDigits(row)| == |row| && RowDigits(row)[k] == HexDigit(row[k].walls)
  {
    var n := |row| - 1;
    var pre := row[..n];
    RowDigitsLength(row);
    RowDigitsLength(pre);
    if k < n {
      RowDigitsAt(pre, k);
      assert pre[k] == row[k];
    }
  }

  lemma RowDigitsSpec(row: seq<CellState>)
    requires forall k :: 0 <= k < |row| ==> Complete(row[k].walls)
    ensures |RowDigits(row)| == |row|
    ensures forall k :: 0 <= k < |row| ==> RowDigits(row)[k] == HexDigit(row[k].walls)
  {
    RowDigitsLength(row);
    forall k | 0 <= k < |row|
      ensures RowDigits(row)[k] == HexDigit(row[k].walls)
    {
      RowDigitsAt(row, k);
    }
  }

  lemma MulSucc(a: nat, b: nat)
    ensures (a + 1) * b == a * b + b
  {
  }

  lemma {:induction false} SerializeLength(g: Grid, w: nat)
    requires AllComplete(g) && Rect(g, w)
    ensures |Serialize(g)| == |g| * (w + 1)
  {
    if g != [] {
      var p := g[..|g| - 1];
      SerializeLength(p, w);
      RowDigitsSpec(g[|g| - 1]);
      MulSucc(|p|, w + 1);
    }
  }

  /** Position of row i, column j in the text: each line holds w digits and "\n". */
  function Offset(i: nat, j: nat, w: nat): nat
  {
    i * (w + 1) + j
  }

  lemma OffsetBelow(i: nat, j: nat, w: nat, n: nat)
    requires i < n && j <= w
    ensures Offset(i, j, w) < n * (w + 1)
  {
    MulSucc(i, w + 1);
    assert (i + 1) * (w + 1) <= n * (w + 1);
  }

  /** Character Offset(i, j, w) of the text: the digit of cell (i, j) for j < w, "\n" for j == w. */
  lemma {:induction false} SerializeAt(g: Grid, w: nat, i: nat, j: nat)
    requires AllComplete(g) && Rect(g, w) && i < |g| && j <= w
    ensures Offset(i, j, w) < |Serialize(g)|
    ensures Serialize(g)[Offset(i, j, w)] == if j < w then HexDigit(g[i][j].walls) else '\n'
  {
    var n := |g| - 1;
    var p := g[..n];
    SerializeLength(p, w);
    RowDigitsLength(g[n]);
    var sp := Serialize(p);
    var row := RowDigits(g[n]);
    assert Serialize(g) == sp + row + "\n";
    LineStep(sp, row, n, w, i, j);
    if i < n {
      SerializeAt(p, w, i, j);
      assert p[i] == g[i];
    } else if j < w {
      RowDigitsAt(g[n], j);
    }
  }

  /** Appending one line of w digits and "\n" to the text of n rows keeps the earlier characters and puts the new ones at row n. */
  lemma LineStep(sp: string, row: string, n: nat, w: nat, i: nat, j: nat)
    requires |sp| == n * (w + 1) && |row| == w && i <= n && j <= w
    ensures Offset(i, j, w) < |sp + row + "\n"|
    ensures i < n ==> Offset(i, j, w) < |sp| && (sp + row + "\n")[Offset(i, j, w)] == sp[Offset(i, j, w)]
    ensures i == n ==> (sp + row + "\n")[Offset(i, j, w)] == if j < w then row[j] else '\n'
  {
    if i < n {
      OffsetBelow(i, j, w, n);
    }
  }

  /**
   * The text has one line per row: character Offset(i, j, w) is the hex digit
   * of cell (i, j) for j < w, and character Offset(i, w, w) is "\n".
   */
  lemma SerializeLayout(g: Grid, w: nat)
    requires AllComplete(g) && Rect(g, w)
    ensures |Serialize(g)| == |g| * (w + 1)
    ensures forall i, j :: 0 <= i < |g| && 0 <= j < w ==>
      Offset(i, j, w) < |Serialize(g)| && Serialize(g)[Offset(i, j, w)] == HexDigit(g[i][j].walls)
    ensures forall i :: 0 <= i < |g| ==>
      Offset(i, w, w) < |Serialize(g)| && Serialize(g)[Offset(i, w, w)] == '\n'
  {
    SerializeLength(g, w);
    forall i, j | 0 <= i < |g| && 0 <= j <= w
      ensures Offset(i, j, w) < |Serialize(g)|
      ensures Serialize(g)[Offset(i, j, w)] == if j < w then HexDigit(g[i][j].walls) else '\n'
    {
      SerializeAt(g, w, i, j);
    }
  }

  /** Reading the digit at row i, column j back gives exactly the walls of cell (i, j). */
  lemma SerializeDecodes(g: Grid, w: nat, i: nat, j: nat)
    requires AllComplete(g) && Rect(g, w) && i < |g| && j < w
    ensures Offset(i, j, w) < |Serialize(g)|
    ensures ParseHexDigit(Serialize(g)[Offset(i, j, w)]) == Some(g[i][j].walls)
  {
    SerializeAt(g, w, i, j);
    HexRoundTrip(g[i][j].walls);
  }

  // ---------------------------------------------------------------------

  /** The grid object: a matrix of Cell objects, each cell a distinct object. */
  class Maze {
    const widht: int
    const height: int
    const matrix: seq<seq<Cell>>
    /** Where each cell object sits; it makes the cells pairwise distinct. */
    ghost const Pos: map<Cell, (int, int)>
    /** The cells' states, row by row. */
    ghost var grid: Grid

    function Rows(): nat
    {
      Clamp(height)
    }

    function Cols(): nat
    {
      Clamp(widht)
    }

    ghost predicate Valid()
      reads this, Pos.Keys
    {
      |matrix| == Rows() && |grid| == Rows()
      && (forall i :: 0 <= i < Rows() ==> |matrix[i]| == Cols() && |grid[i]| == Cols())
      && (forall i, j :: 0 <= i < Rows() && 0 <= j < Cols() ==>
            matrix[i][j] in Pos && Pos[matrix[i][j]] == (i, j)
            && matrix[i][j].Valid() && matrix[i][j].State() == grid[i][j])
    }

    lemma ValidShaped()
      requires Valid()
      ensures Shaped(grid, Rows(), Cols())
    {
    }

    /** The cells set_wall may write besides (x, y). */
    function MirrorCells(x: int, y: int, d: Direction): set<Cell>
    {
      match Mirror(height, widht, x, y, d)
      case None => {}
      case Some((i, j, _)) =>
        if 0 <= i < |matrix| && 0 <= j < |matrix[i]| then {matrix[i][j]} else {}
    }

    function MirrorPairedCells(x: int, y: int, d: Direction): set<Cell>
    {
      match MirrorPaired(height, widht, x, y, d)
      case None => {}
      case Some((i, j, _)) =>
        if 0 <= i < |matrix| && 0 <= j < |matrix[i]| then {matrix[i][j]} else {}
    }

    /**
     * height rows of widht new cells; NORTH closed exactly on row 0, SOUTH on
     * the last row, WEST on column 0, EST on the last column, everything else
     * open and every flag False.
     */
    constructor (widht: int, height: int)
      ensures this.widht == widht && this.height == height
      ensures Valid() && fresh(Pos.Keys)
      ensures grid == FreshGrid(Clamp(height), Clamp(widht))
    {
      var m, pos := NewMatrix(Clamp(height), Clamp(widht));
      this.widht := widht;
      this.height := height;
      matrix := m;
      Pos := pos;
      grid := seq(Clamp(height), i => seq(Clamp(widht), j => FreshState));
      new;
      CloseBoundary();
    }

    /** The constructor's first loops: height rows, each a list of widht new cells. */
    static method NewMatrix(rows: nat, cols: nat) returns (m: seq<seq<Cell>>, ghost pos: map<Cell, (int, int)>)
      ensures |m| == rows && forall i :: 0 <= i < rows ==> |m[i]| == cols
      ensures forall i, j :: 0 <= i < rows && 0 <= j < cols ==> m[i][j] in pos && pos[m[i][j]] == (i, j)
      ensures fresh(pos.Keys)
      ensures forall c :: c in pos ==> c.Valid() && c.State() == FreshState
    {
      m := [];
      pos := map[];
      while |m| < rows
        invariant |m| <= rows
        invariant forall i :: 0 <= i < |m| ==> |m[i]| == cols
        invariant forall i, j :: 0 <= i < |m| && 0 <= j < cols ==> m[i][j] in pos && pos[m[i][j]] == (i, j)
        invariant fresh(pos.Keys)
        invariant forall c :: c in pos ==> c.Valid() && c.State() == FreshState
      {
        var row, col := NewRow(cols);
        forall c | c in col
          ensures c !in pos
        {
        }
        pos := pos + map c | c in col :: (|m|, col[c]);
        m := m + [row];
      }
    }

    /** One row of the constructor: widht new cells. */
    static method NewRow(cols: nat) returns (row: seq<Cell>, ghost col: map<Cell, int>)
      ensures |row| == cols
      ensures forall j :: 0 <= j < cols ==> row[j] in col && col[row[j]] == j
      ensures fresh(col.Keys)
      ensures forall c :: c in col ==> c.Valid() && c.State() == FreshState
    {
      row := [];
      col := map[];
      while |row| < cols
        invariant |row| <= cols
        invariant forall j :: 0 <= j < |row| ==> row[j] in col && col[row[j]] == j
        invariant fresh(col.Keys)
        invariant forall c :: c in col ==> c.Valid() && c.State() == FreshState
      {
        var c := new Cell();
        col := col[c := |row|];
        row := row + [c];
      }
    }

    /** The constructor's second loops: close the outer walls of every cell. */
    method CloseBoundary()
      requires Valid()
      requires forall i, j :: 0 <= i < Rows() && 0 <= j < Cols() ==> grid[i][j] == FreshState
      modifies this, Pos.Keys
      ensures Valid()
      ensures grid == FreshGrid(Rows(), Cols())
    {
      var rows, cols := Rows(), Cols();
      var x := 0;
      while x < height
        invariant 0 <= x <= rows
        invariant Valid()
        invariant forall i, j :: 0 <= i < rows && 0 <= j < cols ==>
          grid[i][j] == if i < x then FreshState.(walls := BoundaryWalls(rows, cols, i, j)) else FreshState
      {
        var y := 0;
        while y < widht
          invariant 0 <= y <= cols
          invariant Valid()
          invariant forall i, j :: 0 <= i < rows && 0 <= j < cols ==>
            grid[i][j] == if i < x || (i == x && j < y) then FreshState.(walls := BoundaryWalls(rows, cols, i, j)) else FreshState
        {
          ghost var g := grid;
          BoundaryCell(x, y);
          BoundaryWritesEffect(g, rows, cols, x, y);
          y := y + 1;
        }
        x := x + 1;
      }
      FreshGridSpec(rows, cols);
      GridExt(grid, FreshGrid(rows, cols));
    }

    /** One iteration of the constructor's boundary loop: the four guarded set_wall calls on (x, y). */
    method BoundaryCell(x: int, y: int)
      requires Valid() && 0 <= x < Rows() && 0 <= y < Cols()
      modifies this, matrix[x][y]
      ensures Valid()
      ensures grid == BoundaryWrites(old(grid), Rows(), Cols(), x, y)
    {
      if x == height - 1 {
        BoundaryWall(x, y, South);
      }
      if x == 0 {
        BoundaryWall(x, y, North);
      }
      if y == widht - 1 {
        BoundaryWall(x, y, Est);
      }
      if y == 0 {
        BoundaryWall(x, y, West);
      }
    }

    /**
     * A set_wall call that closes an outer wall, through the setter as
     * written: no neighbour lies that way, so it writes that single wall
     * (and the corrected setter would write the same).
     */
    method BoundaryWall(x: int, y: int, d: Direction)
      requires Valid() && 0 <= x < Rows() && 0 <= y < Cols()
      requires MirrorPaired(height, widht, x, y, d) == None
      modifies this, matrix[x][y]
      ensures Valid()
      ensures grid == WriteWall(old(grid), x, y, d, true)
    {
      MirrorDiffersOnEast(height, widht, x, y, d);
      assert Mirror(height, widht, x, y, d) == None;
      SetWall(x, y, d, true);
    }

    method GetCell(x: int, y: int) returns (cell: Cell)
      requires Valid() && 0 <= x < Rows() && 0 <= y < Cols()
      ensures cell == matrix[x][y] && cell.Valid() && cell.State() == grid[x][y]
    {
      cell := matrix[x][y];
    }

    /** Writes wall d of cell (x, y) and records it in grid. */
    method WriteCell(x: int, y: int, d: Direction, s: bool)
      requires Valid() && 0 <= x < Rows() && 0 <= y < Cols()
      modifies this, matrix[x][y]
      ensures Valid()
      ensures grid == WriteWall(old(grid), x, y, d, s)
    {
      var cell := GetCell(x, y);
      cell.SetWall(d, s);
      grid := WriteWall(grid, x, y, d, s);
    }

    /**
     * set_wall AS WRITTEN: stores the wall on (x, y) and, through the match
     * on "NORTH" / "WEST" / "SOUTH" / "EAST", on the neighbour Mirror names.
     */
    method SetWall(x: int, y: int, d: Direction, s: bool)
      requires Valid() && 0 <= x < Rows() && 0 <= y < Cols()
      modifies this, matrix[x][y], MirrorCells(x, y, d)
      ensures Valid()
      ensures grid == SetWallGrid(old(grid), Rows(), Cols(), x, y, d, s)
    {
      WriteCell(x, y, d, s);
      var nx, ny := x, y;
      var nextDir: Option<Direction> := None;
      var name := d.Name();
      if name == "NORTH" {
        if x - 1 >= 0 {
          nx := x - 1;
          nextDir := Some(South);
        }
      } else if name == "WEST" {
        if y - 1 >= 0 {
          ny := y - 1;
          nextDir := Some(Est);
        }
      } else if name == "SOUTH" {
        if x + 1 < height {
          nx := x + 1;
          nextDir := Some(North);
        }
      } else if name == "EAST" {
        if y + 1 < widht {
          ny := y + 1;
          nextDir := Some(West);
        }
      }
      assert Mirror(height, widht, x, y, d) == if nextDir.Some? then Some((nx, ny, nextDir.value)) else None;
      if nextDir.Some? {
        WriteCell(nx, ny, nextDir.value, s);
      }
    }

    /** set_wall with the east arm matching "EST": the form that keeps the pairing invariant. */
    method SetWallPaired(x: int, y: int, d: Direction, s: bool)
      requires Valid() && 0 <= x < Rows() && 0 <= y < Cols()
      modifies this, matrix[x][y], MirrorPairedCells(x, y, d)
      ensures Valid()
      ensures grid == SetWallGridPaired(old(grid), Rows(), Cols(), x, y, d, s)
      ensures Shaped(grid, Rows(), Cols())
      ensures old(Valid() && Paired(grid, Rows(), Cols())) ==> Paired(grid, Rows(), Cols())
    {
      ValidShaped();
      if Paired(grid, Rows(), Cols()) {
        SetWallPairedPreserves(grid, Rows(), Cols(), x, y, d, s);
      }
      WriteCell(x, y, d, s);
      var t := MirrorPaired(height, widht, x, y, d);
      if t.Some? {
        WriteCell(t.value.0, t.value.1, t.value.2, s);
      }
      ValidShaped();
    }

    /** output_in_file's text, returned instead of written to the file. */
    method OutputInFile() returns (output: string)
      requires Valid()
      ensures AllComplete(grid)
      ensures output == Serialize(grid)
      ensures |output| == Rows() * (Cols() + 1)
    {
      ValidShaped();
      output := "";
      var x := 0;
      while x < height
        invariant 0 <= x <= Rows()
        invariant output == Serialize(grid[..x])
      {
        var line := RowText(x);
        assert grid[..x + 1][..x] == grid[..x];
        output := output + line + "\n";
        x := x + 1;
      }
      assert grid[..x] == grid;
      SerializeLength(grid, Cols());
    }

    /** The inner loop of output_in_file: the hex digits of row x. */
    method RowText(x: int) returns (line: string)
      requires Valid() && 0 <= x < Rows()
      ensures forall k :: 0 <= k < |grid[x]| ==> Complete(grid[x][k].walls)
      ensures line == RowDigits(grid[x])
    {
      ValidShaped();
      line := "";
      var y := 0;
      while y < widht
        invariant 0 <= y <= Cols()
        invariant line == RowDigits(grid[x][..y])
      {
        var cell := GetCell(x, y);
        var value := cell.GetHexValue();
        assert grid[x][..y + 1][..y] == grid[x][..y];
        line := line + [value];
        y := y + 1;
      }
      assert grid[x][..y] == grid[x];
    }
  }
}
