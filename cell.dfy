/**
 * The maze cell: four walls kept in a dictionary keyed by direction name
 * (True = the wall is present) and five generation flags that only ever go
 * from False to True, with icon ==> dead ==> visited.
 */
module Cells {
  import opened Wrappers

  /** The four keys of a cell's wall dictionary. */
  datatype Direction = North | Est | South | West {

    /** The string the program uses as the dictionary key. */
    function Name(): string
    {
      match this
      case North => "NORTH"
      case Est => "EST"
      case South => "SOUTH"
      case West => "WEST"
    }
  }

  /** The enumeration order of get_state_walls and get_hex_value. */
  const Order: seq<Direction> := [North, Est, South, West]

  /** Position of a direction in Order. */
  function Index(d: Direction): (k: nat)
    ensures k < |Order| && Order[k] == d
  {
    match d
    case North => 0
    case Est => 1
    case South => 2
    case West => 3
  }

  /** Bit weight of a direction in the hex encoding. */
  function Weight(d: Direction): nat
  {
    match d
    case North => 1
    case Est => 2
    case South => 4
    case West => 8
  }

  type Walls = map<Direction, bool>

  /** Every direction has an entry: the dictionary built by the constructor keeps its four keys. */
  predicate Complete(walls: Walls)
  {
    forall d: Direction :: d in walls
  }

  lemma FourKeysComplete(walls: Walls)
    requires North in walls && Est in walls && South in walls && West in walls
    ensures Complete(walls)
  {
    forall d: Direction
      ensures d in walls
    {
      match d
      case North =>
      case Est =>
      case South =>
      case West =>
    }
  }

  /** A complete dictionary has exactly the four keys. */
  lemma CompleteKeys(walls: Walls)
    requires Complete(walls)
    ensures walls.Keys == {North, Est, South, West}
  {
    forall d | d in walls.Keys
      ensures d in {North, Est, South, West}
    {
      match d
      case North =>
      case Est =>
      case South =>
      case West =>
    }
  }

  /** The dictionary a new cell starts with: every wall False (open). */
  const OpenWalls: Walls := map[North := false, West := false, South := false, Est := false]

  /** Whole value of a cell, used to describe grids of cells. */
  datatype CellState = CellState(walls: Walls, visited: bool, dead: bool, exit: bool,
                                 afterExit: bool, icon: bool)

  const FreshState: CellState := CellState(OpenWalls, false, false, false, false, false)

  /** The flag implications every reachable cell satisfies. */
  predicate FlagsConsistent(c: CellState)
  {
    (c.icon ==> c.dead) && (c.dead ==> c.visited)
  }

  // ---------------------------------------------------------------------
  // Hex encoding of the walls.

  function Bit(b: bool, weight: nat): nat
  {
    if b then weight else 0
  }

  /** Sum of the weights of the closed walls among ds. */
  function PartialMask(walls: Walls, ds: seq<Direction>): nat
    requires Complete(walls)
  {
    if ds == [] then 0
    else PartialMask(walls, ds[..|ds| - 1]) + Bit(walls[ds[|ds| - 1]], Weight(ds[|ds| - 1]))
  }

  /** The 4-bit wall mask: NORTH=1, EST=2, SOUTH=4, WEST=8, summed over the closed walls. */
  function WallMask(walls: Walls): nat
    requires Complete(walls)
  {
    Bit(walls[North], 1) + Bit(walls[Est], 2) + Bit(walls[South], 4) + Bit(walls[West], 8)
  }

  const HexChars: string := "0123456789ABCDEF"

  /** The hex digit that get_hex_value returns. */
  function HexDigit(walls: Walls): (c: char)
    requires Complete(walls)
    ensures c in HexChars
  {
    HexChars[WallMask(walls)]
  }

  /** Reads a hex digit back into a wall dictionary (upper-case digits, as written). */
  function ParseHexDigit(c: char): Option<Walls>
  {
    if '0' <= c <= '9' || 'A' <= c <= 'F' then
      var v := if c <= '9' then c as int - '0' as int else c as int - 'A' as int + 10;
      Some(map[North := v % 2 == 1, Est := (v / 2) % 2 == 1,
               South := (v / 4) % 2 == 1, West := (v / 8) % 2 == 1])
    else None
  }

  /** The digit string spelled out character by character. */
  lemma HexCharsAt(k: nat)
    requires k < 16
    ensures HexChars[k] == if k < 10 then ('0' as int + k) as char else ('A' as int + k - 10) as char
  {
  }

  /** Each wall is the bit of the mask carrying its weight. */
  lemma MaskBit(walls: Walls, d: Direction)
    requires Complete(walls)
    ensures walls[d] <==> (WallMask(walls) / Weight(d)) % 2 == 1
  {
  }

  /** Decoding the digit recovers exactly the four walls. */
  lemma HexRoundTrip(walls: Walls)
    requires Complete(walls)
    ensures ParseHexDigit(HexDigit(walls)) == Some(walls)
  {
    CompleteKeys(walls);
    var m := WallMask(walls);
    DecodeDigit(m);
    MaskBit(walls, North);
    MaskBit(walls, Est);
    MaskBit(walls, South);
    MaskBit(walls, West);
    var back := map[North := m % 2 == 1, Est := (m / 2) % 2 == 1,
                    South := (m / 4) % 2 == 1, West := (m / 8) % 2 == 1];
    assert back.Keys == walls.Keys;
    assert back == walls;
  }

  lemma DecodeDigit(m: nat)
    requires m < 16
    ensures ParseHexDigit(HexChars[m])
         == Some(map[North := m % 2 == 1, Est := (m / 2) % 2 == 1,
                     South := (m / 4) % 2 == 1, West := (m / 8) % 2 == 1])
  {
    HexCharsAt(m);
    var c := HexChars[m];
    if m < 10 {
      assert c as int - '0' as int == m;
    } else {
      assert c as int - 'A' as int + 10 == m;
    }
  }

  /** The prefix sums the hex loop accumulates add up to the mask. */
  lemma {:induction false} PartialMaskAll(walls: Walls)
    requires Complete(walls)
    ensures PartialMask(walls, Order) == WallMask(walls)
  {
    assert [North][..0] == [];
    assert [North, Est][..1] == [North];
    assert [North, Est, South][..2] == [North, Est];
    assert Order[..3] == [North, Est, South];
    assert PartialMask(walls, [North]) == Bit(walls[North], 1);
    assert PartialMask(walls, [North, Est]) == Bit(walls[North], 1) + Bit(walls[Est], 2);
    assert PartialMask(walls, [North, Est, South])
        == Bit(walls[North], 1) + Bit(walls[Est], 2) + Bit(walls[South], 4);
  }

  // ---------------------------------------------------------------------
  // Walls matching a state.

  /** The directions of ds whose wall equals state, kept in the order of ds. */
  function Matching(walls: Walls, state: bool, ds: seq<Direction>): seq<Direction>
    requires Complete(walls)
  {
    if ds == [] then []
    else
      Matching(walls, state, ds[..|ds| - 1])
        + (if walls[ds[|ds| - 1]] == state then [ds[|ds| - 1]] else [])
  }

  /** What get_state_walls returns. */
  function StateWalls(walls: Walls, state: bool): seq<Direction>
    requires Complete(walls)
  {
    Matching(walls, state, Order)
  }

  lemma {:induction false} MatchingMembers(walls: Walls, state: bool, ds: seq<Direction>)
    requires Complete(walls)
    ensures forall d :: d in Matching(walls, state, ds) <==> d in ds && walls[d] == state
  {
    if ds != [] {
      MatchingMembers(walls, state, ds[..|ds| - 1]);
      assert ds == ds[..|ds| - 1] + [ds[|ds| - 1]];
    }
  }

  lemma {:induction false} MatchingOrdered(walls: Walls, state: bool, n: nat)
    requires Complete(walls) && n <= 4
    ensures forall i, j :: 0 <= i < j < |Matching(walls, state, Order[..n])| ==>
              Index(Matching(walls, state, Order[..n])[i]) < Index(Matching(walls, state, Order[..n])[j])
    ensures forall d :: d in Matching(walls, state, Order[..n]) ==> Index(d) < n
  {
    if n > 0 {
      MatchingOrdered(walls, state, n - 1);
      assert Order[..n][..n - 1] == Order[..n - 1];
      var prev := Matching(walls, state, Order[..n - 1]);
      var last := Order[n - 1];
      assert Order[..n][n - 1] == last;
      var m := Matching(walls, state, Order[..n]);
      assert m == prev + (if walls[last] == state then [last] else []);
      assert Index(last) == n - 1;
      forall i, j | 0 <= i < j < |m|
        ensures Index(m[i]) < Index(m[j])
      {
        if j < |prev| {
          assert m[i] == prev[i] && m[j] == prev[j];
          assert Index(prev[i]) < Index(prev[j]);
        } else {
          assert m[i] == prev[i] && prev[i] in prev;
          assert m[j] == last;
          assert Index(prev[i]) < n - 1;
        }
      }
      forall d | d in m
        ensures Index(d) < n
      {
        if d in prev {
        } else {
          assert d == last;
        }
      }
    }
  }

  /**
   * get_state_walls(s) lists exactly the directions whose wall is s, in the
   * order NORTH, EST, SOUTH, WEST; the lists for True and for False split the
   * four directions between them.
   */
  lemma StateWallsSpec(walls: Walls, state: bool)
    requires Complete(walls)
    ensures forall d :: d in StateWalls(walls, state) <==> walls[d] == state
    ensures forall i, j :: 0 <= i < j < |StateWalls(walls, state)| ==>
              Index(StateWalls(walls, state)[i]) < Index(StateWalls(walls, state)[j])
    ensures forall d :: d in StateWalls(walls, true) <==> d !in StateWalls(walls, false)
  {
    assert Order[..4] == Order;
    MatchingOrdered(walls, state, 4);
    assert Matching(walls, state, Order[..4]) == StateWalls(walls, state);
    MatchingMembers(walls, state, Order);
    MatchingMembers(walls, true, Order);
    MatchingMembers(walls, false, Order);
    forall d: Direction ensures d in Order {
      assert Order[Index(d)] == d;
    }
  }

  /** The four direction count splits between the two lists. */
  lemma {:induction false} StateWallsPartition(walls: Walls)
    requires Complete(walls)
    ensures |StateWalls(walls, true)| + |StateWalls(walls, false)| == 4
  {
    MatchingSizes(walls, Order);
  }

  lemma {:induction false} MatchingSizes(walls: Walls, ds: seq<Direction>)
    requires Complete(walls)
    ensures |Matching(walls, true, ds)| + |Matching(walls, false, ds)| == |ds|
  {
    if ds != [] {
      MatchingSizes(walls, ds[..|ds| - 1]);
    }
  }

  // ---------------------------------------------------------------------
  // The cell as a value: what the constructor and the setters leave.

  /**
   * A new cell: every wall open, so get_state_walls(False) is all four
   * directions in order, get_state_walls(True) is empty, and the digit is '0'.
   */
  lemma FreshCellSpec()
    ensures FlagsConsistent(FreshState) && Complete(FreshState.walls)
    ensures StateWalls(FreshState.walls, false) == Order
    ensures StateWalls(FreshState.walls, true) == []
    ensures HexDigit(FreshState.walls) == '0'
  {
    var w := FreshState.walls;
    FourKeysComplete(w);
    assert Order[..0] == [] && Order[..1] == [North] && Order[..2] == [North, Est];
    assert Order[..3] == [North, Est, South] && Order[..4] == Order;
    assert [North][..0] == [] && [North, Est][..1] == [North] && [North, Est, South][..2] == [North, Est];
    assert Matching(w, false, [North]) == [North] && Matching(w, true, [North]) == [];
    assert Matching(w, false, [North, Est]) == [North, Est] && Matching(w, true, [North, Est]) == [];
    assert Matching(w, false, [North, Est, South]) == [North, Est, South];
    assert Matching(w, true, [North, Est, South]) == [];
  }

  /**
   * The flag setters as values: set_icon goes through set_dead, which goes
   * through set_visited, so each keeps icon ==> dead ==> visited; no setter
   * clears a flag or touches the walls.
   */
  lemma SettersKeepFlags(c: CellState)
    requires FlagsConsistent(c)
    ensures FlagsConsistent(c.(visited := true))
    ensures FlagsConsistent(c.(visited := true, dead := true))
    ensures FlagsConsistent(c.(visited := true, dead := true, icon := true))
    ensures FlagsConsistent(c.(exit := true)) && FlagsConsistent(c.(afterExit := true))
    ensures !FlagsConsistent(c.(icon := true)) <==> !c.dead
  {
  }

  /**
   * Writing wall d changes the mask by d's weight only: the digit gains d's
   * bit when the wall closes and loses it when it opens.
   */
  lemma SetWallMask(walls: Walls, d: Direction, s: bool)
    requires Complete(walls)
    ensures Complete(walls[d := s])
    ensures WallMask(walls[d := s]) == WallMask(walls) - Bit(walls[d], Weight(d)) + Bit(s, Weight(d))
    ensures forall e :: e != d ==> (walls[d := s][e] <==> walls[e])
  {
    FourKeysComplete(walls[d := s]);
  }

  // ---------------------------------------------------------------------

  /** A maze cell whose walls dictionary and flags are updated in place. */
  class Cell {
    var visited: bool
    var dead: bool
    var exit: bool
    var afterExit: bool
    var icon: bool
    var walls: Walls

    ghost predicate Valid()
      reads this
    {
      Complete(walls) && FlagsConsistent(State())
    }

    ghost function State(): CellState
      reads this
    {
      CellState(walls, visited, dead, exit, afterExit, icon)
    }

    /** A new cell: all four walls False (open), every flag False; its hex digit is '0'. */
    constructor ()
      ensures Valid()
      ensures State() == FreshState
      ensures walls.Keys == {North, Est, South, West}
      ensures HexDigit(walls) == '0'
    {
      visited, dead, exit, afterExit, icon := false, false, false, false, false;
      walls := map[North := false, West := false, South := false, Est := false];
      new;
      FourKeysComplete(walls);
    }

    function IsVisited(): (b: bool)
      reads this
      requires Valid()
      ensures !b ==> !dead && !icon
    {
      visited
    }

    function IsDead(): (b: bool)
      reads this
      requires Valid()
      ensures b ==> visited
      ensures !b ==> !icon
    {
      dead
    }

    function IsIcon(): (b: bool)
      reads this
      requires Valid()
      ensures b ==> dead && visited
    {
      icon
    }

    function IsExit(): (b: bool)
      reads this
      ensures b == exit
    {
      exit
    }

    function IsAfterExit(): (b: bool)
      reads this
      ensures b == afterExit
    {
      afterExit
    }

    method SetVisited()
      requires Valid()
      modifies this
      ensures Valid()
      ensures State() == old(State()).(visited := true)
    {
      visited := true;
    }

    /** Marks the cell dead and, through set_visited, visited. */
    method SetDead()
      requires Valid()
      modifies this
      ensures Valid()
      ensures State() == old(State()).(visited := true, dead := true)
    {
      SetVisited();
      dead := true;
    }

    /** Marks the cell as icon and, through set_dead, dead and visited. */
    method SetIcon()
      requires Valid()
      modifies this
      ensures Valid()
      ensures State() == old(State()).(visited := true, dead := true, icon := true)
    {
      SetDead();
      icon := true;
    }

    method SetExit()
      requires Valid()
      modifies this
      ensures Valid()
      ensures State() == old(State()).(exit := true)
    {
      exit := true;
    }

    method SetAfterExit()
      requires Valid()
      modifies this
      ensures Valid()
      ensures State() == old(State()).(afterExit := true)
    {
      afterExit := true;
    }

    /** The wall in direction d: the bit of the hex mask that carries d's weight. */
    function GetWall(d: Direction): (b: bool)
      reads this
      requires Valid()
      ensures b <==> (WallMask(walls) / Weight(d)) % 2 == 1
    {
      MaskBit(walls, d);
      walls[d]
    }

    /** Stores a wall; the other three walls and all flags keep their values. */
    method SetWall(d: Direction, s: bool)
      requires Valid()
      modifies this
      ensures Valid()
      ensures State() == old(State()).(walls := old(walls)[d := s])
      ensures GetWall(d) == s
      ensures forall e :: e != d ==> walls[e] == old(walls[e])
      ensures walls.Keys == old(walls.Keys)
    {
      walls := walls[d := s];
    }

    /**
     * The directions whose wall equals state, listed in the order NORTH,
     * EST, SOUTH, WEST: the loop over the canonical order appending matches.
     */
    method GetStateWalls(state: bool) returns (dirList: seq<Direction>)
      requires Valid()
      ensures dirList == StateWalls(walls, state)
      ensures forall d :: d in dirList <==> walls[d] == state
      ensures forall i, j :: 0 <= i < j < |dirList| ==> Index(dirList[i]) < Index(dirList[j])
    {
      dirList := [];
      var k := 0;
      while k < |Order|
        invariant 0 <= k <= |Order|
        invariant dirList == Matching(walls, state, Order[..k])
      {
        var direction := Order[k];
        assert Order[..k + 1][..k] == Order[..k];
        if walls[direction] == state {
          dirList := dirList + [direction];
        }
        k := k + 1;
      }
      assert Order[..k] == Order;
      StateWallsSpec(walls, state);
    }

    /** The hex digit of the walls, accumulated as in the source: dec += i, i *= 2. */
    method GetHexValue() returns (c: char)
      requires Valid()
      ensures c == HexDigit(walls)
      ensures '0' <= c <= '9' || 'A' <= c <= 'F'
    {
      var hex := HexChars;
      var dec := 0;
      var i := 1;
      var k := 0;
      while k < |Order|
        invariant 0 <= k <= |Order|
        invariant dec == PartialMask(walls, Order[..k])
        invariant k < |Order| ==> i == Weight(Order[k])
        invariant k == |Order| ==> i == 16
        invariant dec < i
      {
        var direction := Order[k];
        assert Order[..k + 1][..k] == Order[..k];
        if walls[direction] {
          dec := dec + i;
        }
        i := i * 2;
        k := k + 1;
      }
      assert Order[..k] == Order;
      PartialMaskAll(walls);
      c := hex[dec];
    }
  }
}
