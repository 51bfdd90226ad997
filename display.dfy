/**
 * The non-rendering rules of the maze window: cell geometry, colour slots,
 * button spacing and the button window's size, button placement, the click
 * hit test, the player's move rule, and the byte layout of one pixel.
 */
module Display {
  import opened Wrappers
  import opened Cells
  import opened Buttons

  datatype DisplayError = ZeroDivision | WallThicknessError | SpacingError | Overflow | OutOfRange

  // ---------------------------------------------------------------------
  // Geometry

  /** Python's a // b: the quotient rounded towards minus infinity. */
  function FloorDiv(a: int, b: int): (q: int)
    requires b != 0
    ensures b > 0 ==> b * q <= a < b * q + b
    ensures b < 0 ==> b * q >= a > b * q + b
  {
    if b > 0 then a / b else (-a) / (-b)
  }

  /**
   * The size check of __init__: when a side of the window or of the image
   * is not positive, both become a square of the fallback side (the
   * program derives it from the screen size).
   */
  function Sizes(window: (int, int), image: (int, int), fallback: int): (r: ((int, int), (int, int)))
  {
    if window.0 <= 0 || window.1 <= 0 || image.0 <= 0 || image.1 <= 0
    then ((fallback, fallback), (fallback, fallback))
    else (window, image)
  }

  /** After the fallback with a positive side, every side is positive; sizes that were already positive are kept. */
  lemma SizesPositive(window: (int, int), image: (int, int), fallback: int)
    requires fallback > 0
    ensures var (w, i) := Sizes(window, image, fallback); w.0 > 0 && w.1 > 0 && i.0 > 0 && i.1 > 0
    ensures window.0 > 0 && window.1 > 0 && image.0 > 0 && image.1 > 0 ==> Sizes(window, image, fallback) == (window, image)
    ensures Sizes(window, image, fallback) != (window, image) ==> Sizes(window, image, fallback).1.0 == Sizes(window, image, fallback).1.1
  {
  }

  /** The cell side and the two offsets that centre the maze in the image. */
  datatype Geometry = Geometry(cellSize: int, xOffset: int, yOffset: int)

  /** Cell size from the longer maze side (width when width >= height), then the centring offsets. */
  function CellGeometry(image: (int, int), width: int, height: int): (r: Result<Geometry, DisplayError>)
    ensures r.Err? <==> (width >= height && width == 0) || (width < height && height == 0)
  {
    var divisor := if width >= height then width else height;
    if divisor == 0 then Err(ZeroDivision)
    else
      var size := FloorDiv(if width >= height then image.0 else image.1, divisor);
      Ok(Geometry(size, FloorDiv(image.0 - size * width, 2), FloorDiv(image.1 - size * height, 2)))
  }

  /** For a non-negative factor, a product grows with the other factor. */
  lemma MulMonotone(a: int, b: int, c: int)
    requires a >= 0 && b <= c
    ensures a * b <= a * c
  {
  }

  /** Halving a non-negative leftover: the offset is non-negative and leaves at most one pixel. */
  lemma HalfOffset(a: int)
    requires a >= 0
    ensures FloorDiv(a, 2) >= 0 && 0 <= a - 2 * FloorDiv(a, 2) <= 1
  {
  }

  /**
   * In a square image (such as the fallback one) the maze fits and is
   * centred: both offsets are non-negative, the grid plus twice the offset
   * leaves at most one pixel on each axis, and the longer maze side leaves
   * less than one cell per column or row unused.
   */
  lemma SquareImageFits(side: int, width: int, height: int)
    requires side >= 0 && width > 0 && height > 0
    ensures CellGeometry((side, side), width, height).Ok?
    ensures var g := CellGeometry((side, side), width, height).value;
      g.cellSize >= 0 && g.xOffset >= 0 && g.yOffset >= 0
      && 0 <= side - g.cellSize * width - 2 * g.xOffset <= 1
      && 0 <= side - g.cellSize * height - 2 * g.yOffset <= 1
      && side - g.cellSize * (if width >= height then width else height) < (if width >= height then width else height)
  {
    var n := if width >= height then width else height;
    var size := FloorDiv(side, n);
    var g := CellGeometry((side, side), width, height).value;
    assert g == Geometry(size, FloorDiv(side - size * width, 2), FloorDiv(side - size * height, 2));
    QuotientBounds(side, n);
    MulMonotone(size, width, n);
    MulMonotone(size, height, n);
    HalfOffset(side - size * width);
    HalfOffset(side - size * height);
  }

  /** For a non-negative dividend and a positive divisor the floor quotient is non-negative and leaves less than one divisor. */
  lemma QuotientBounds(a: int, n: int)
    requires a >= 0 && n > 0
    ensures FloorDiv(a, n) >= 0
    ensures FloorDiv(a, n) * n <= a < FloorDiv(a, n) * n + n
  {
  }

  /** In a wide image the shorter axis can get a negative offset: the maze then overflows the image. */
  lemma WideImageOverflows()
    ensures CellGeometry((1000, 100), 10, 10) == Ok(Geometry(100, 0, -450))
  {
  }

  /** The wall-thickness check of __init__: a percentage from 1 to 50. */
  predicate ThicknessOk(thickness: int)
  {
    0 < thickness <= 50
  }

  /**
   * The checked part of __init__: the size fallback, the geometry (which can
   * divide by zero), then the thickness check. It succeeds exactly when the
   * governing side is not 0 and the thickness is from 1 to 50, with the
   * geometry of the image after the fallback; the division by zero is raised
   * before the thickness is looked at.
   */
  function Setup(window: (int, int), image: (int, int), fallback: int, width: int, height: int, thickness: int): (r: Result<Geometry, DisplayError>)
    ensures r.Ok? <==> ThicknessOk(thickness) && CellGeometry(Sizes(window, image, fallback).1, width, height).Ok?
    ensures r.Ok? ==> r.value == CellGeometry(Sizes(window, image, fallback).1, width, height).value
    ensures ((width >= height && width == 0) || (width < height && height == 0)) ==> r == Err(ZeroDivision)
    ensures CellGeometry(Sizes(window, image, fallback).1, width, height).Ok? && !ThicknessOk(thickness)
      ==> r == Err(WallThicknessError)
  {
    var (_, img) := Sizes(window, image, fallback);
    match CellGeometry(img, width, height)
    case Err(e) => Err(e)
    case Ok(g) => if ThicknessOk(thickness) then Ok(g) else Err(WallThicknessError)
  }

  // ---------------------------------------------------------------------
  // Button window

  /** add_button's window size rule, as written: the width grows only when the button is wider than the whole window. */
  function AddedWindow(size: Option<(int, int)>, spacing: int, w: int, h: int): (r: (int, int))
  {
    match size
    case None => (2 * spacing + w, 2 * spacing + h)
    case Some((x, y)) => (if w > x then w + 2 * spacing else x, y + h + spacing)
  }

  /** The window size rule with the margins counted: the width grows when the button and its margins do not fit. */
  function AddedWindowFitted(size: Option<(int, int)>, spacing: int, w: int, h: int): (r: (int, int))
    ensures r.0 >= w + 2 * spacing
    ensures size.Some? ==> r.0 >= size.value.0
  {
    match size
    case None => (2 * spacing + w, 2 * spacing + h)
    case Some((x, y)) => (if w + 2 * spacing > x then w + 2 * spacing else x, y + h + spacing)
  }

  /** The window size after adding buttons of the given sizes in order with one spacing, by each rule. */
  function Window(spacing: int, sizes: seq<(int, int)>): Option<(int, int)>
  {
    if sizes == [] then None
    else Some(AddedWindow(Window(spacing, sizes[..|sizes| - 1]), spacing, sizes[|sizes| - 1].0, sizes[|sizes| - 1].1))
  }

  function WindowFitted(spacing: int, sizes: seq<(int, int)>): Option<(int, int)>
  {
    if sizes == [] then None
    else Some(AddedWindowFitted(WindowFitted(spacing, sizes[..|sizes| - 1]), spacing, sizes[|sizes| - 1].0, sizes[|sizes| - 1].1))
  }

  /** The vertical space of buttons stacked with a spacing after each: sum of (height + spacing). */
  function Stacked(spacing: int, sizes: seq<(int, int)>): int
  {
    if sizes == [] then 0 else Stacked(spacing, sizes[..|sizes| - 1]) + sizes[|sizes| - 1].1 + spacing
  }

  /** Under both rules the window is a top margin plus every button with the spacing below it. */
  lemma {:induction false} WindowHeight(spacing: int, sizes: seq<(int, int)>)
    requires sizes != []
    ensures Window(spacing, sizes).Some? && Window(spacing, sizes).value.1 == spacing + Stacked(spacing, sizes)
    ensures WindowFitted(spacing, sizes).Some? && WindowFitted(spacing, sizes).value.1 == spacing + Stacked(spacing, sizes)
  {
    var n := |sizes| - 1;
    if n > 0 {
      WindowHeight(spacing, sizes[..n]);
    }
  }

  /** With the margins counted, the window is exactly as wide as the widest button plus two spacings. */
  lemma {:induction false} WindowFittedWidth(spacing: int, sizes: seq<(int, int)>)
    requires sizes != []
    ensures WindowFitted(spacing, sizes).Some?
    ensures forall i :: 0 <= i < |sizes| ==> WindowFitted(spacing, sizes).value.0 >= sizes[i].0 + 2 * spacing
    ensures exists i :: 0 <= i < |sizes| && WindowFitted(spacing, sizes).value.0 == sizes[i].0 + 2 * spacing
  {
    var n := |sizes| - 1;
    if n == 0 {
      assert WindowFitted(spacing, sizes).value.0 == sizes[0].0 + 2 * spacing;
    } else {
      WindowFittedWidth(spacing, sizes[..n]);
      var x := WindowFitted(spacing, sizes[..n]).value.0;
      var j :| 0 <= j < n && x == sizes[..n][j].0 + 2 * spacing;
      assert forall i :: 0 <= i < n ==> sizes[..n][i] == sizes[i];
      if sizes[n].0 + 2 * spacing > x {
        assert WindowFitted(spacing, sizes).value.0 == sizes[n].0 + 2 * spacing;
      } else {
        assert WindowFitted(spacing, sizes).value.0 == sizes[j].0 + 2 * spacing;
      }
    }
  }

  /**
   * As written, a wider second button need not fit: with spacing 50, a
   * 100-pixel button and then a 190-pixel one leave the window 200 pixels
   * wide, while the second button, placed at x = 50, ends at x = 240. With the
   * margins counted the window becomes 290 pixels wide.
   */
  lemma AddedButtonOverflows()
    ensures Window(50, [(100, 10), (190, 10)]) == Some((200, 170))
    ensures 50 + 190 > Window(50, [(100, 10), (190, 10)]).value.0
    ensures WindowFitted(50, [(100, 10), (190, 10)]) == Some((290, 170))
  {
    var one := [(100, 10)];
    var two := [(100, 10), (190, 10)];
    assert one[..0] == [];
    assert two[..1] == one;
    assert Window(50, one) == Some(AddedWindow(None, 50, 100, 10));
    assert AddedWindow(None, 50, 100, 10) == (200, 110);
    assert Window(50, two) == Some(AddedWindow(Some((200, 110)), 50, 190, 10));
    assert WindowFitted(50, one) == Some((200, 110));
    assert WindowFitted(50, two) == Some(AddedWindowFitted(Some((200, 110)), 50, 190, 10));
  }

  /** The top edge print_background_button gives each button, from a printer starting at the spacing. */
  function Layout(spacing: int, sizes: seq<(int, int)>): (starts: seq<int>)
    ensures |starts| == |sizes|
  {
    if sizes == [] then []
    else Layout(spacing, sizes[..|sizes| - 1]) + [spacing + Stacked(spacing, sizes[..|sizes| - 1])]
  }

  /**
   * Placing buttons one under the other fills the window of add_button
   * exactly: each button ends above the next with the spacing in between,
   * and the last one leaves the spacing as the bottom margin.
   */
  lemma {:induction false} LayoutFits(spacing: int, sizes: seq<(int, int)>)
    requires sizes != []
    ensures var starts := Layout(spacing, sizes);
      starts[0] == spacing
      && (forall i :: 0 <= i < |sizes| - 1 ==> starts[i + 1] == starts[i] + sizes[i].1 + spacing)
      && starts[|sizes| - 1] + sizes[|sizes| - 1].1 + spacing == Window(spacing, sizes).value.1
  {
    var n := |sizes| - 1;
    WindowHeight(spacing, sizes);
    if n > 0 {
      LayoutFits(spacing, sizes[..n]);
      var pre := Layout(spacing, sizes[..n]);
      assert Layout(spacing, sizes) == pre + [spacing + Stacked(spacing, sizes[..n])];
      assert forall i :: 0 <= i < n ==> sizes[..n][i] == sizes[i];
      WindowHeight(spacing, sizes[..n]);
      assert sizes[..n][..n - 1] == sizes[..n - 1];
    }
  }

  // ---------------------------------------------------------------------
  // Clicks and moves

  /** The hit test of mouse_event: the closed rectangle of the button. */
  predicate Hit(b: Button, x: int, y: int)
    reads b
  {
    b.startX <= x <= b.startX + b.width && b.startY <= y <= b.startY + b.height
  }

  const LeftKey: int := 65361
  const UpKey: int := 65362
  const RightKey: int := 65363
  const DownKey: int := 65364
  const MoveModeKey: int := 109

  /** The move branch of key_press: an arrow key moves one cell when the wall on that side is open. */
  function Move(pos: (int, int), keycode: int, walls: Walls): (int, int)
    requires Complete(walls)
  {
    var (x, y) := pos;
    if keycode == LeftKey && !walls[West] then (x - 1, y)
    else if keycode == UpKey && !walls[North] then (x, y - 1)
    else if keycode == RightKey && !walls[Est] then (x + 1, y)
    else if keycode == DownKey && !walls[South] then (x, y + 1)
    else pos
  }

  /** The side an arrow key points to. */
  function KeyDirection(keycode: int): Option<Direction>
  {
    if keycode == LeftKey then Some(West)
    else if keycode == UpKey then Some(North)
    else if keycode == RightKey then Some(Est)
    else if keycode == DownKey then Some(South)
    else None
  }

  /** The neighbour one cell away on a side (x grows to the east, y to the south). */
  function Neighbour(pos: (int, int), d: Direction): (int, int)
  {
    match d
    case North => (pos.0, pos.1 - 1)
    case Est => (pos.0 + 1, pos.1)
    case South => (pos.0, pos.1 + 1)
    case West => (pos.0 - 1, pos.1)
  }

  /** The player moves exactly when the key is an arrow and that wall is open, and then to that neighbour. */
  lemma MoveSpec(pos: (int, int), keycode: int, walls: Walls)
    requires Complete(walls)
    ensures Move(pos, keycode, walls) != pos <==> KeyDirection(keycode).Some? && !walls[KeyDirection(keycode).value]
    ensures Move(pos, keycode, walls) != pos ==> Move(pos, keycode, walls) == Neighbour(pos, KeyDirection(keycode).value)
    ensures KeyDirection(keycode).Some? <==> LeftKey <= keycode < DownKey + 1
  {
  }

  // ---------------------------------------------------------------------
  // Pixels

  newtype byte = x: int | 0 <= x < 256

  /** put_pixel's byte offset: the row stride times y plus whole bytes per pixel times x. */
  function PixelOffset(x: int, y: int, bpp: int, sizeLine: int): int
  {
    y * sizeLine + x * FloorDiv(bpp, 8)
  }

  /** int.to_bytes(4, 'little'): an error unless the colour fits in 32 unsigned bits. */
  function LittleEndian4(color: int): (r: Result<seq<byte>, DisplayError>)
    ensures r.Ok? <==> 0 <= color < 0x1_0000_0000
    ensures r.Ok? ==> |r.value| == 4
  {
    if color < 0 || color >= 0x1_0000_0000 then Err(Overflow)
    else Ok([(color % 256) as byte, (color / 0x100 % 256) as byte, (color / 0x1_0000 % 256) as byte, (color / 0x100_0000) as byte])
  }

  /** Reading four little-endian bytes back. */
  function FromLittleEndian4(bs: seq<byte>): int
    requires |bs| == 4
  {
    bs[0] as int + bs[1] as int * 0x100 + bs[2] as int * 0x1_0000 + bs[3] as int * 0x100_0000
  }

  /** The four bytes written for a colour read back as that colour. */
  lemma LittleEndianRoundTrip(color: int)
    requires 0 <= color < 0x1_0000_0000
    ensures FromLittleEndian4(LittleEndian4(color).value) == color
  {
    var q1 := color / 0x100;
    var q2 := q1 / 0x100;
    var q3 := q2 / 0x100;
    assert color / 0x1_0000 == q2;
    assert color / 0x100_0000 == q3;
    assert color == q1 * 0x100 + color % 256;
    assert q1 == q2 * 0x100 + q1 % 256;
    assert q2 == q3 * 0x100 + q2 % 256;
  }

  /**
   * put_pixel: the colour's four little-endian bytes at the pixel's offset.
   * A colour beyond 32 bits is an error, and so is a write outside the
   * buffer; the buffer is then unchanged.
   */
  method PutPixel(data: array<byte>, x: int, y: int, color: int, bpp: int, sizeLine: int) returns (err: Option<DisplayError>)
    modifies data
    ensures LittleEndian4(color).Err? ==> err == Some(Overflow)
    ensures err.None? <==> LittleEndian4(color).Ok? && 0 <= PixelOffset(x, y, bpp, sizeLine) && PixelOffset(x, y, bpp, sizeLine) + 4 <= data.Length
    ensures err.Some? ==> data[..] == old(data[..])
    ensures err.None? ==>
      var o := PixelOffset(x, y, bpp, sizeLine);
      data[..] == old(data[..])[..o] + LittleEndian4(color).value + old(data[..])[o + 4..]
  {
    var offset := y * sizeLine + x * FloorDiv(bpp, 8);
    var bytes := LittleEndian4(color);
    if bytes.Err? {
      return Some(bytes.error);
    }
    if offset < 0 || offset + 4 > data.Length {
      return Some(OutOfRange);
    }
    var k := 0;
    while k < 4
      invariant 0 <= k <= 4
      invariant forall i :: 0 <= i < data.Length ==>
        data[i] == if offset <= i < offset + k then bytes.value[i - offset] else old(data[i])
    {
      data[offset + k] := bytes.value[k];
      k := k + 1;
    }
    Spliced(old(data[..]), data[..], offset, bytes.value);
    return None;
  }

  /** A sequence that agrees with s on [o, o + |s|) and with a elsewhere is a with that window replaced. */
  lemma Spliced(a: seq<byte>, b: seq<byte>, o: nat, s: seq<byte>)
    requires |a| == |b| && o + |s| <= |a|
    requires forall i :: 0 <= i < |a| ==> b[i] == if o <= i < o + |s| then s[i - o] else a[i]
    ensures b == a[..o] + s + a[o + |s|..]
  {
    var r := a[..o] + s + a[o + |s|..];
    forall i | 0 <= i < |b|
      ensures r[i] == b[i]
    {
      if i < o {
        assert r[i] == a[i];
      } else if i < o + |s| {
        assert r[i] == s[i - o];
      } else {
        assert r[i] == a[i];
      }
    }
  }

  // ---------------------------------------------------------------------
  // The displayer's state

  class Displayer {
    var cellSize: int
    var xOffset: int
    var yOffset: int
    var backgroundColor: int
    var wallsColor: int
    var entryColor: int
    var exitColor: int
    var pathColor: int
    var iconColor: int
    var moveMode: bool
    var playerPos: (int, int)
    var buttons: seq<Button>
    var winButtonsSize: Option<(int, int)>
    var spacing: int
    var buttonPrinterX: int
    var buttonPrinterY: int

    /** The six colour slots: background, walls, entry, exit, path, icon. */
    ghost function Colours(): (int, int, int, int, int, int)
      reads this
    {
      (backgroundColor, wallsColor, entryColor, exitColor, pathColor, iconColor)
    }

    /** The cell size and the offsets of the maze inside the image. */
    ghost function MazeGeometry(): Geometry
      reads this
    {
      Geometry(cellSize, xOffset, yOffset)
    }

    /** Move mode and the player's position. */
    ghost function Player(): (bool, (int, int))
      reads this
    {
      (moveMode, playerPos)
    }

    /** The button window: the buttons, its size, the spacing and the printer. */
    ghost function ButtonWindow(): (seq<Button>, Option<(int, int)>, int, int, int)
      reads this
    {
      (buttons, winButtonsSize, spacing, buttonPrinterX, buttonPrinterY)
    }

    /**
     * The state __init__ leaves (the window and image handles are not
     * modelled): the geometry, the six default colours, move mode off at
     * (0, 0), no buttons, no button window, spacing 50 and the printer at (50, 50).
     */
    constructor(window: (int, int), image: (int, int), fallback: int, width: int, height: int, thickness: int)
      requires Setup(window, image, fallback, width, height, thickness).Ok?
      ensures Geometry(cellSize, xOffset, yOffset) == Setup(window, image, fallback, width, height, thickness).value
      ensures wallsColor == RgbToArgb(0, 0, 0) && backgroundColor == RgbToArgb(239, 233, 244)
      ensures iconColor == RgbToArgb(0, 0, 0) && entryColor == RgbToArgb(88, 99, 248)
      ensures exitColor == RgbToArgb(88, 99, 248) && pathColor == RgbToArgb(95, 191, 249)
      ensures !moveMode && playerPos == (0, 0)
      ensures buttons == [] && winButtonsSize == None
      ensures spacing == 50 && buttonPrinterX == 50 && buttonPrinterY == 50
    {
      var g := Setup(window, image, fallback, width, height, thickness).value;
      cellSize, xOffset, yOffset := g.cellSize, g.xOffset, g.yOffset;
      backgroundColor, wallsColor, entryColor, exitColor, pathColor, iconColor := 0, 0, 0, 0, 0, 0;
      moveMode, playerPos := false, (0, 0);
      buttons, winButtonsSize := [], None;
      spacing := 50;
      buttonPrinterX, buttonPrinterY := spacing, spacing;
      new;
      var _ := SetColor("walls", (0, 0, 0));
      var _ := SetColor("background", (239, 233, 244));
      var _ := SetColor("icon", (0, 0, 0));
      var _ := SetColor("entry", (88, 99, 248));
      var _ := SetColor("exit", (88, 99, 248));
      var _ := SetColor("path", (95, 191, 249));
    }

    /** The six colour slots set_color knows. */
    static predicate KnownLocation(location: string)
    {
      location in {"background", "walls", "entry", "exit", "path", "icon"}
    }

    /** set_color: True and the packed colour in the named slot, or False and no change for any other name. */
    method SetColor(location: string, rgb: (int, int, int)) returns (ok: bool)
      modifies this
      ensures ok <==> KnownLocation(location)
      ensures var c := RgbToArgb(rgb.0, rgb.1, rgb.2);
        backgroundColor == (if location == "background" then c else old(backgroundColor))
        && wallsColor == (if location == "walls" then c else old(wallsColor))
        && entryColor == (if location == "entry" then c else old(entryColor))
        && exitColor == (if location == "exit" then c else old(exitColor))
        && pathColor == (if location == "path" then c else old(pathColor))
        && iconColor == (if location == "icon" then c else old(iconColor))
      ensures cellSize == old(cellSize) && xOffset == old(xOffset) && yOffset == old(yOffset)
      ensures moveMode == old(moveMode) && playerPos == old(playerPos)
      ensures buttons == old(buttons) && winButtonsSize == old(winButtonsSize)
      ensures spacing == old(spacing) && buttonPrinterX == old(buttonPrinterX) && buttonPrinterY == old(buttonPrinterY)
    {
      var (red, green, blue) := rgb;
      var color := RgbToArgb(red, green, blue);
      if location == "background" {
        backgroundColor := color;
      } else if location == "walls" {
        wallsColor := color;
      } else if location == "entry" {
        entryColor := color;
      } else if location == "exit" {
        exitColor := color;
      } else if location == "path" {
        pathColor := color;
      } else if location == "icon" {
        iconColor := color;
      } else {
        return false;
      }
      return true;
    }

    /** set_spacing: an error for a spacing that is not positive; otherwise spacing and both printer coordinates take it. */
    method SetSpacing(s: int) returns (err: Option<DisplayError>)
      modifies this
      ensures err.Some? <==> s <= 0
      ensures err.Some? ==>
        (err.value == SpacingError && spacing == old(spacing)
         && buttonPrinterX == old(buttonPrinterX) && buttonPrinterY == old(buttonPrinterY))
      ensures err.None? ==> spacing == s && buttonPrinterX == s && buttonPrinterY == s
      ensures buttons == old(buttons) && winButtonsSize == old(winButtonsSize)
      ensures Colours() == old(Colours()) && MazeGeometry() == old(MazeGeometry()) && Player() == old(Player())
    {
      if s <= 0 {
        return Some(SpacingError);
      }
      spacing := s;
      buttonPrinterX := s;
      buttonPrinterY := s;
      return None;
    }

    /** add_button as written: the window grows by AddedWindow and the button goes last. */
    method AddButton(b: Button)
      modifies this
      ensures winButtonsSize == Some(AddedWindow(old(winButtonsSize), spacing, b.width, b.height))
      ensures buttons == old(buttons) + [b]
      ensures spacing == old(spacing) && buttonPrinterX == old(buttonPrinterX) && buttonPrinterY == old(buttonPrinterY)
      ensures Colours() == old(Colours()) && MazeGeometry() == old(MazeGeometry()) && Player() == old(Player())
    {
      var (width, height) := (b.width, b.height);
      if winButtonsSize.None? {
        winButtonsSize := Some((2 * spacing + width, 2 * spacing + height));
      } else {
        var (x, y) := winButtonsSize.value;
        if width > x {
          x := width + 2 * spacing;
        }
        y := y + height + spacing;
        winButtonsSize := Some((x, y));
      }
      buttons := buttons + [b];
    }

    /** add_button with the margins counted: the window stays at least as wide as every button plus two spacings. */
    method AddButtonFitted(b: Button)
      modifies this
      ensures winButtonsSize == Some(AddedWindowFitted(old(winButtonsSize), spacing, b.width, b.height))
      ensures winButtonsSize.value.0 >= b.width + 2 * spacing
      ensures buttons == old(buttons) + [b]
      ensures spacing == old(spacing) && buttonPrinterX == old(buttonPrinterX) && buttonPrinterY == old(buttonPrinterY)
      ensures Colours() == old(Colours()) && MazeGeometry() == old(MazeGeometry()) && Player() == old(Player())
    {
      var (width, height) := (b.width, b.height);
      if winButtonsSize.None? {
        winButtonsSize := Some((2 * spacing + width, 2 * spacing + height));
      } else {
        var (x, y) := winButtonsSize.value;
        if width + 2 * spacing > x {
          x := width + 2 * spacing;
        }
        y := y + height + spacing;
        winButtonsSize := Some((x, y));
      }
      buttons := buttons + [b];
    }

    /** print_background_button's layout: the button starts at the printer, which moves down by its height and the spacing. */
    method PrintBackgroundButton(b: Button)
      modifies this, b
      ensures b.startX == old(buttonPrinterX) && b.startY == old(buttonPrinterY)
      ensures b.width == old(b.width) && b.height == old(b.height) && b.backgroundColor == old(b.backgroundColor)
      ensures buttonPrinterY == old(buttonPrinterY) + b.height + spacing
      ensures buttonPrinterX == old(buttonPrinterX) && spacing == old(spacing)
      ensures buttons == old(buttons) && winButtonsSize == old(winButtonsSize)
      ensures Colours() == old(Colours()) && MazeGeometry() == old(MazeGeometry()) && Player() == old(Player())
    {
      var (pixelX, pixelY) := (buttonPrinterX, buttonPrinterY);
      var height := b.height;
      b.startX := pixelX;
      b.startY := pixelY;
      buttonPrinterY := buttonPrinterY + height + spacing;
    }

    /** mouse_event: the buttons whose callback a click at (x, y) runs, in list order. */
    method MouseEvent(x: int, y: int) returns (hits: seq<nat>)
      ensures forall i: nat :: i in hits <==> i < |buttons| && Hit(buttons[i], x, y)
      ensures forall i, j :: 0 <= i < j < |hits| ==> hits[i] < hits[j]
    {
      hits := [];
      var k := 0;
      while k < |buttons|
        invariant 0 <= k <= |buttons|
        invariant forall i: nat :: i in hits <==> i < k && Hit(buttons[i], x, y)
        invariant forall i :: 0 <= i < |hits| ==> hits[i] < k
        invariant forall i, j :: 0 <= i < j < |hits| ==> hits[i] < hits[j]
      {
        var button := buttons[k];
        if button.startX <= x && x <= button.startX + button.width {
          if button.startY <= y && y <= button.startY + button.height {
            hits := hits + [k];
          }
        }
        k := k + 1;
      }
    }

    /**
     * key_press without the drawing: m toggles move mode (entering it puts
     * the player on the entry); in move mode an arrow key applies Move with
     * the walls of the player's cell.
     */
    method KeyPress(keycode: int, entry: (int, int), walls: Walls)
      requires Complete(walls)
      modifies this
      ensures moveMode == (if keycode == MoveModeKey then !old(moveMode) else old(moveMode))
      ensures playerPos ==
        if keycode == MoveModeKey then (if moveMode then entry else old(playerPos))
        else if moveMode then Move(old(playerPos), keycode, walls)
        else old(playerPos)
      ensures ButtonWindow() == old(ButtonWindow())
      ensures Colours() == old(Colours()) && MazeGeometry() == old(MazeGeometry())
    {
      if keycode == MoveModeKey {
        moveMode := !moveMode;
        if moveMode {
          playerPos := entry;
        }
      }
      if moveMode && LeftKey <= keycode < DownKey + 1 {
        var (x, y) := playerPos;
        if keycode == LeftKey && !walls[West] {
          playerPos := (x - 1, y);
        } else if keycode == UpKey && !walls[North] {
          playerPos := (x, y - 1);
        } else if keycode == RightKey && !walls[Est] {
          playerPos := (x + 1, y);
        } else if keycode == DownKey && !walls[South] {
          playerPos := (x, y + 1);
        }
      }
    }
  }
}
