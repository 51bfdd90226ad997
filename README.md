# A-Maze-ing core, modelled in Dafny

This project models the non-rendering core of the A-Maze-ing maze generator
and viewer. Every property below is proved by the Dafny verifier.

- **Cells** (`cell.dfy`). This is the maze cell. Each cell has four walls
  keyed `NORTH`, `EST`, `SOUTH` and `WEST`, plus the flags *visited*, *dead*,
  *icon*, *exit* and *after exit*.
  - The setters keep the flags nested: icon ⇒ dead ⇒ visited.
  - The walls read as a single hexadecimal digit, with weights 1, 2, 4 and 8.
  - One model serves both copies of the cell class. They are the same code.
- **OldMaze** (`grid.dfy`). This is the first maze grid: a list of rows of
  cell objects, with the outer boundary closed.
  - `set_wall` also writes the neighbour's matching wall.
  - The grid is serialised as one hex digit per cell and one line per row.
- **PyText** (`text.dfy`). These are the Python string operations the parsers
  rely on: `strip`, `count`, `split`, `replace`, `capitalize`, `lower`, and
  `int()` on decimal text.
- **ConfigTypes, ConfigLines** (`config_types.dfy`, `config_lines.dfy`). These
  model the typed configuration parsers.
  - Conversion follows a type spec (bool, int, str, tuple, dict).
  - Lines are split into name and value.
  - Lines are processed in order until the first error.
  - A final check reports every parameter still without a value.
  - The `Dialect` parameter tells the two typed parsers apart:
    `Mazegen` for `src/mazegen/config/config.py` and `Legacy` for
    `src/config_parser.py`.
- **RawConfig** (`raw_config.dfy`). This is the first, untyped parser. It works
  on a fixed table of six keys and stores the raw value strings.
- **TypedConfig, MazegenConfig** (`typed_config.dfy`, `mazegen_config.dfy`).
  These are the two parser classes. Their `ParseFile` loops are proved equal
  to the value-level run.
- **Buttons** (`button.dfy`). This covers colour packing into ARGB and 24-bit
  RGB, the black/white text contrast choice, and the size checks of buttons.
- **Display** (`display.dfy`). This covers the displayer's computable rules:
  - window and image size fallback, cell size and offsets, wall-thickness
    bounds, default colours;
  - button window growth and layout, mouse hit testing;
  - player moves on arrow keys;
  - writing a 32-bit little-endian pixel into an image buffer.

Where the docstrings and the code disagree, the model follows the code.
- Walls start *open* (`False`), although the docstrings say closed.
- The east key is spelled `EST`.
- The old grid's `set_wall` matches `"EAST"`, so east writes are never
  mirrored. This is reported under Findings.

## Model

| member | source | states |
|---|---|---|
| Cells.Cell.constructor | src/mazegen/maze_generation/cell.py:23-43 | a new cell has all four keys, every wall open, every flag cleared, and hex digit '0' |
| Cells.FreshCellSpec | src/maze_generation/cell.py:5-19 | the initial cell keeps the flag nesting; all four directions, in key order, are open; none is closed; its digit is '0' |
| Cells.Cell.IsVisited | src/mazegen/maze_generation/cell.py:45-53 | a cell that is not visited is neither dead nor the icon |
| Cells.Cell.IsDead | src/mazegen/maze_generation/cell.py:86-94 | a dead cell is visited; a cell that is not dead is not the icon |
| Cells.Cell.IsIcon | src/mazegen/maze_generation/cell.py:64-72 | the icon cell is dead and visited |
| Cells.Cell.IsExit | src/mazegen/maze_generation/cell.py:134-142 | returns the stored exit flag |
| Cells.Cell.IsAfterExit | src/mazegen/maze_generation/cell.py:124-132 | returns the stored after-exit flag |
| Cells.Cell.SetVisited | src/mazegen/maze_generation/cell.py:55-62 | sets visited only; walls and the other flags are unchanged |
| Cells.Cell.SetDead | src/mazegen/maze_generation/cell.py:96-104 | sets dead and visited; nothing else changes |
| Cells.Cell.SetIcon | src/mazegen/maze_generation/cell.py:74-84 | sets icon, dead and visited; nothing else changes |
| Cells.Cell.SetExit | src/mazegen/maze_generation/cell.py:106-113 | sets exit only |
| Cells.Cell.SetAfterExit | src/mazegen/maze_generation/cell.py:115-122 | sets after-exit only |
| Cells.SettersKeepFlags | src/maze_generation/cell.py:41-60 | every setter keeps icon ⇒ dead ⇒ visited; raising icon alone would break it exactly when the cell is not dead |
| Cells.Cell.GetWall | src/mazegen/maze_generation/cell.py:144-157 | the wall is closed iff the direction's bit (1, 2, 4 or 8) is set in the hex value |
| Cells.Cell.SetWall | src/mazegen/maze_generation/cell.py:179-193 | afterwards get_wall(d) is the new state; the other three walls, the keys and the flags are unchanged |
| Cells.SetWallMask | src/maze_generation/cell.py:109-115 | a wall write changes the hex value by exactly that direction's weight and leaves the other walls alone |
| Cells.Cell.GetStateWalls | src/mazegen/maze_generation/cell.py:159-177 | returns exactly the directions whose wall equals the state, in key order |
| Cells.StateWallsSpec | src/maze_generation/cell.py:96-107 | membership iff the wall equals the state; key order; the True and False lists are complementary |
| Cells.StateWallsPartition | src/mazegen/maze_generation/cell.py:172-177 | the closed and open lists together have four entries |
| Cells.Cell.GetHexValue | src/mazegen/maze_generation/cell.py:195-214 | the loop's result is the digit of the weighted wall sum, one of 0-9 or A-F |
| Cells.PartialMaskAll | src/mazegen/maze_generation/cell.py:207-214 | accumulating the walls in key order gives the weighted sum N·1 + E·2 + S·4 + W·8 |
| Cells.HexDigit | src/mazegen/maze_generation/cell.py:207-214 | the digit is an upper-case hexadecimal character |
| Cells.MaskBit | src/mazegen/maze_generation/cell.py:155-157 | each wall is recovered as its own bit of the weighted sum |
| Cells.HexRoundTrip | src/maze_generation/cell.py:117-129 | decoding the hex digit gives back the four walls exactly |
| OldMaze.Maze.constructor | src/maze_generation/maze.py:6-27 | builds height rows of widht distinct fresh cells, clamped at zero; the boundary is closed and the grid equals the fresh grid |
| OldMaze.Maze.NewMatrix | src/maze_generation/maze.py:11-15 | rows × cols new, distinct, fresh cells, each at its own position |
| OldMaze.Maze.NewRow | src/maze_generation/maze.py:12-15 | one row of cols new, distinct, fresh cells |
| OldMaze.Maze.CloseBoundary | src/maze_generation/maze.py:17-27 | from an all-fresh grid, closing the boundary yields exactly the fresh grid |
| OldMaze.Maze.BoundaryCell | src/maze_generation/maze.py:19-27 | one cell's boundary writes, as a whole-grid update |
| OldMaze.Maze.BoundaryWall | src/maze_generation/maze.py:20-27 | a boundary write through the setter as written changes only that cell's wall; a boundary wall has no neighbour to mirror |
| OldMaze.FreshGridSpec | src/maze_generation/maze.py:17-27 | after construction every cell has fresh flags; its walls are closed exactly on the outer edge (NORTH on row 0, WEST on column 0, SOUTH and EST on the last row and column) |
| OldMaze.FreshGridPaired | src/maze_generation/maze.py:17-27 | the constructed grid agrees on every shared wall |
| OldMaze.BoundaryWritesEffect | src/maze_generation/maze.py:19-27 | one cell's boundary writes touch only that cell and give it the boundary walls |
| OldMaze.Maze.GetCell | src/maze_generation/maze.py:32-36 | returns the cell object at row x, column y |
| OldMaze.Maze.WriteCell | src/maze_generation/maze.py:38-41 | the cell's own wall write, with every other cell unchanged |
| OldMaze.Mirror | src/maze_generation/maze.py:46-62 | as written, the neighbour write stays inside the grid |
| OldMaze.MirrorPaired | src/maze_generation/maze.py:46-62 | corrected: the neighbour write stays inside the grid |
| OldMaze.MirrorDiffersOnEast | src/maze_generation/maze.py:59-62 | the two agree except on EST, which as written never writes a neighbour |
| OldMaze.WriteWall | src/maze_generation/maze.py:40-41 | one cell's wall write keeps the grid's shape and completeness |
| OldMaze.SetWallGrid | src/maze_generation/maze.py:38-66 | the as-written setter keeps the grid's shape and completeness |
| OldMaze.SetWallGridEffect | src/maze_generation/maze.py:38-66 | as written: the target cell and at most its mirrored neighbour change, nothing else |
| OldMaze.SetWallGridPaired | src/maze_generation/maze.py:38-66 | corrected setter keeps shape and completeness |
| OldMaze.SetWallGridPairedEffect | src/maze_generation/maze.py:38-66 | corrected: the target cell and its neighbour across d change, nothing else |
| OldMaze.SetWallPairedPreserves | src/maze_generation/maze.py:38-66 | the corrected setter keeps every shared wall consistent on both sides |
| OldMaze.SetWallAsWrittenPairing | src/maze_generation/maze.py:46-66 | as written, consistency survives a write iff it is not an EST write that changes an interior east wall |
| OldMaze.EastWriteBreaksPairing | src/maze_generation/maze.py:59 | in a fresh 1 × 2 grid, closing (0,0)'s EST wall leaves (0,1)'s WEST wall open |
| OldMaze.Maze.SetWall | src/maze_generation/maze.py:38-66 | the method's new grid is the as-written setter's result |
| OldMaze.Maze.SetWallPaired | src/maze_generation/maze.py:38-66 | corrected method: the new grid is the corrected result and stays consistent if it was |
| OldMaze.Maze.OutputInFile | src/maze_generation/maze.py:68-76 | the file text is one hex digit per cell with a newline after each row, height × (widht + 1) characters |
| OldMaze.Serialize | src/maze_generation/maze.py:68-76 | the text output_in_file writes; SerializeLength, SerializeLayout and SerializeDecodes characterise it |
| OldMaze.Maze.RowText | src/maze_generation/maze.py:71-74 | one row's text is its cells' digits in order |
| OldMaze.RowDigitsSpec | src/maze_generation/maze.py:71-74 | a row's text has one digit per cell, the cell's hex value |
| OldMaze.SerializeLength | src/maze_generation/maze.py:68-76 | the output has rows × (cols + 1) characters |
| OldMaze.SerializeLayout | src/maze_generation/maze.py:68-76 | character i·(w+1)+j is cell (i, j)'s digit; column w is a newline |
| OldMaze.SerializeDecodes | src/maze_generation/maze.py:72-74 | decoding the output at a cell's offset gives back that cell's walls |
| PyText.StripSlice | src/mazegen/config/config.py:368-369 | strip removes exactly the leading and trailing whitespace run |
| PyText.StripIdempotent | src/mazegen/config/config.py:368-369 | stripping twice is stripping once |
| PyText.SplitOnce | src/mazegen/config/config.py:365-367 | with exactly one '=', the split gives two '='-free parts around it |
| PyText.SplitCharCount | src/mazegen/config/config.py:365-367 | splitting on a character gives one more part than it occurs |
| PyText.JoinSplit | src/mazegen/config/config.py:267 | joining the split parts with the separator gives back the text |
| PyText.SplitPartsFree | src/mazegen/config/config.py:267 | no part of a split contains the separator |
| PyText.RemoveChar | src/config_parser.py:155 | replace('\n', '') removes every newline and only those |
| PyText.Capitalize | src/mazegen/config/config.py:257-260 | the first character is upper-cased and the rest lower-cased |
| PyText.CapitalizeMatches | src/mazegen/config/config.py:257-260 | capitalize(v) == "True" iff v is "true" in any letter case |
| PyText.ParseIntRoundTrip | src/mazegen/config/config.py:318-319 | int() of an integer's decimal text gives the integer back |
| ConfigTypes.ApplyTypes | src/mazegen/config/config.py:250-253 | a parameter already set is a double declaration; otherwise the value is converted by its spec |
| ConfigTypes.Convert | src/mazegen/config/config.py:255-319 | dispatch on the spec; BoolSpecAccepts, IntSpecRoundTrip, TupleSpecShape, DictSpecShape and LegacyDictSpec characterise each branch |
| ConfigTypes.ConvertBool | src/mazegen/config/config.py:256-263 | a bool or the invalid-argument error for that value and name; BoolSpecAccepts says which |
| ConfigTypes.ConvertInt | src/mazegen/config/config.py:318-319 | an int or a ValueError; IntSpecRoundTrip reads back every integer's text |
| ConfigTypes.ConvertDict | src/mazegen/config/config.py:293-316 | the dict branch: the tuple conversion with one part per separator split, then the pair loops; DictSpecShape and DictSpecRejects characterise it |
| ConfigTypes.ToDict | src/mazegen/config/config.py:302-316 | a successful result is a dict; LenCheckSpec and DictEntriesSpec characterise its two loops |
| ConfigTypes.BoolSpecAccepts | src/mazegen/config/config.py:256-263 | a bool spec gives True/False exactly for "true"/"false" in any case, and rejects anything else as an invalid argument |
| ConfigTypes.IntSpecRoundTrip | src/mazegen/config/config.py:318-319 | an int spec reads back any integer's decimal text |
| ConfigTypes.ConvertTuple | src/mazegen/config/config.py:265-291 | a successful tuple conversion yields a tuple |
| ConfigTypes.TupleSpecShape | src/mazegen/config/config.py:265-291 | a tuple succeeds iff the part count and the spec count both equal n and every part converts, the items being those conversions |
| ConfigTypes.TupleSpecArity | src/config_parser.py:66-73 | the wrong number of parts is an invalid argument |
| ConfigTypes.ConvertAllSpec | src/mazegen/config/config.py:283-291 | the items succeed iff each part converts under its own nested spec |
| ConfigTypes.ConvertAllFirstFailure | src/config_parser.py:81-89 | the first part that fails to convert gives the error |
| ConfigTypes.LenCheckSpec | src/mazegen/config/config.py:302-306 | the pair check passes iff every item has length 2 |
| ConfigTypes.DictEntriesSpec | src/mazegen/config/config.py:308-316 | building the dict succeeds iff every item is a pair; later pairs win for equal keys |
| ConfigTypes.DictSpecShape | src/mazegen/config/config.py:293-316 | a successful dict parse splits into one item per nested spec, each a pair; its keys are distinct and each key maps to its last value |
| ConfigTypes.DictSpecRejects | src/mazegen/config/config.py:302-313 | an item that is not a pair makes the dict spec fail |
| ConfigTypes.LookupInsert | src/mazegen/config/config.py:314-315 | dict assignment replaces an equal key's value and leaves other keys alone |
| ConfigTypes.InsertDistinct | src/mazegen/config/config.py:314-315 | dict assignment keeps keys pairwise distinct |
| ConfigTypes.LegacyDictSpec | src/config_parser.py:91-92 | in the older parser a dict spec reaches dict(value): only the empty text succeeds, as {} |
| ConfigLines.GetUnprocessedValue | src/mazegen/config/config.py:365-370 | a line without exactly one '=' is an undefined config line |
| ConfigLines.GetUnprocessedValueSpec | src/mazegen/config/config.py:365-370 | otherwise the result is both sides of the '=', stripped |
| ConfigLines.LegacyGetValue | src/config_parser.py:151-157 | a line without exactly one '=' is an undefined config line |
| ConfigLines.LegacyGetValueSpec | src/config_parser.py:151-157 | otherwise the result is the raw name and the value without newlines, stripped |
| ConfigLines.Classify | src/mazegen/config/config.py:170-173 | a line is skipped, malformed, or an assignment, exactly as the parser treats it |
| ConfigLines.MazegenClassify | src/mazegen/config/config.py:171-172 | newline-only lines and lines starting with the commentary string are skipped |
| ConfigLines.LegacyClassify | src/config_parser.py:29-30 | the older parser skips nothing |
| ConfigLines.Step | src/mazegen/config/config.py:173-180 | a processed line never adds or removes keys or changes a spec |
| ConfigLines.RunLines | src/mazegen/config/config.py:168-180 | the line loop; RunKeys, RunFailed, RunAccepted and RunAccepts characterise it |
| ConfigLines.RunKeys | src/mazegen/config/config.py:168-180 | parsing a file keeps the parameter set and every spec |
| ConfigLines.RunFailed | src/mazegen/config/config.py:170-180 | after the first error nothing more is processed |
| ConfigLines.RunAccepted | src/mazegen/config/config.py:168-180 | a file without errors is a list of assignments to distinct known parameters whose values convert; each is stored, the rest stay as before |
| ConfigLines.RunAccepts | src/mazegen/config/config.py:168-180 | conversely, every such file parses without error |
| ConfigLines.Redeclaration | src/mazegen/config/config.py:250-253 | assigning an already assigned parameter again is a double declaration |
| ConfigLines.UnknownRejected | src/mazegen/config/config.py:174-180 | a file naming an unknown parameter fails |
| ConfigLines.MalformedRejected | src/mazegen/config/config.py:365-366 | a file with a malformed line fails |
| ConfigLines.MissingKeys | src/config_parser.py:160-165 | the listed keys are exactly the parameters without a value |
| ConfigLines.CheckParamsSpec | src/mazegen/config/config.py:384-389 | the check passes iff every parameter has a value; otherwise it names exactly the ones without |
| MazegenConfig.Config.constructor | src/mazegen/config/config.py:35-47 | no parameters, and the commentary string "#" |
| MazegenConfig.Config.SetCommentaryStr | src/mazegen/config/config.py:49-70 | replaces the commentary string only |
| MazegenConfig.Config.AddParameter | src/mazegen/config/config.py:131-133 | registers the parameter unset, with its default and spec; get_value returns the default; other parameters are unchanged |
| MazegenConfig.Config.GetValue | src/mazegen/config/config.py:197-202 | the stored value, or None for an unknown parameter |
| MazegenConfig.Config.CheckConfig | src/mazegen/config/config.py:384-389 | None iff every parameter has a value; otherwise a missing-values error naming exactly those without |
| MazegenConfig.Config.ParseFile | src/mazegen/config/config.py:168-182 | the loop's final table and error equal the line-by-line run followed by the final check |
| MazegenConfig.ParseLine | src/mazegen/config/config.py:170-180 | one iteration of the loop is one Step; on error the table is unchanged |
| TypedConfig.Config.constructor | src/config_parser.py:14-15 | starts with no parameters |
| TypedConfig.Config.AddParameter | src/config_parser.py:17-21 | registers the parameter unset, with its default and spec; other parameters are unchanged |
| TypedConfig.Config.GetValue | src/config_parser.py:42-48 | the stored value, or None for an unknown parameter |
| TypedConfig.Config.ParseFile | src/config_parser.py:26-40 | the loop's final table and error equal the line-by-line run followed by the final check |
| TypedConfig.ParseLine | src/config_parser.py:29-38 | one iteration of the loop is one Step; on error the table is unchanged |
| RawConfig.InitialTable | config_parser.py:13-23 | exactly the six keys, each without a value |
| RawConfig.GetValue | config_parser.py:35-40 | a line without exactly one '=' is an undefined config line |
| RawConfig.GetValueSpec | config_parser.py:35-40 | otherwise the name is left unstripped and the value has only its newlines removed |
| RawConfig.RawClassify | config_parser.py:56-57 | no line is skipped; a line is malformed iff it does not have exactly one '=' |
| RawConfig.RawStep | config_parser.py:57-61 | an accepted line never adds or removes keys |
| RawConfig.RawRunLines | config_parser.py:55-61 | the line loop; RawRunKeys, RawAcceptedIff, RawFirstError, RawUntouched and RawLastAssignment characterise it |
| RawConfig.RawRunKeys | config_parser.py:55-61 | the table keeps its six keys |
| RawConfig.RawAcceptedIff | config_parser.py:55-61 | a file parses without error iff every line is well formed and names a known key |
| RawConfig.RawFirstError | config_parser.py:56-61 | the first rejected line gives the error, and the table is the one before it |
| RawConfig.RawUntouched | config_parser.py:58-59 | a key no line assigns keeps its value |
| RawConfig.RawLastAssignment | config_parser.py:58-59 | after a clean parse each key holds its last assigned value |
| RawConfig.Overwrite | config_parser.py:58-59 | assigning a key twice is accepted and the second value wins |
| RawConfig.MissingRaw | config_parser.py:43-47 | the listed keys are exactly those without a value |
| RawConfig.CheckRawSpec | config_parser.py:43-47 | the check passes iff every key has a value, and otherwise names exactly those without |
| RawConfig.Config.constructor | config_parser.py:13-23 | the table is the six-key table after parsing the file |
| RawConfig.Config.ParseFile | config_parser.py:50-69 | the new table and the printed report are those of the line-by-line run, the check, or the missing-file case |
| Buttons.Channel | src/mazegen/display/button.py:111-113 | each channel is abs(v) mod 256, a byte |
| Buttons.ChannelEquivalences | src/mazegen/display/button.py:111-113 | a channel ignores sign and multiples of 256, and keeps values already in range |
| Buttons.RgbToArgb | src/mazegen/display/button.py:109-116 | an opaque ARGB word, from 0xFF000000 to 0xFFFFFFFF; OrIsSum ties it to the bitwise form, ArgbBytes and ArgbSameColour unpack it |
| Buttons.RgbToRgb24 | src/mazegen/display/button.py:206-213 | a word below 2^24; OrIsSum ties it to the bitwise form, Rgb24Bytes unpacks it |
| Buttons.OrIsSum | src/mazegen/display/button.py:115-116 | for any three channel bytes, the bitwise ARGB packing on 32-bit words is the word RgbToArgb gives, and the bitwise BGR packing (button.py:212) the word RgbToRgb24 gives |
| Buttons.ArgbBytes | src/mazegen/display/button.py:109-116 | the ARGB word has alpha 0xFF, then red, green and blue as its bytes |
| Buttons.ArgbSameColour | src/mazegen/display/button.py:109-116 | two inputs pack to the same word iff their channels agree |
| Buttons.Rgb24Bytes | src/mazegen/display/button.py:206-213 | the 24-bit value has red in the low byte, then green, then blue |
| Buttons.Rgb24Extremes | src/mazegen/display/button.py:206-213 | black packs to 0 and white to 0xFFFFFF |
| Buttons.TextColorContrast | src/mazegen/display/button.py:180-187 | black text (0) iff the weighted brightness is above half, otherwise white |
| Buttons.Button.constructor | src/mazegen/display/button.py:62-67 | stores the size and packed background colour, at position (0, 0) |
| Buttons.Button.Create | src/mazegen/display/button.py:62-67 | fails iff a dimension is negative; otherwise a new button with those fields |
| Buttons.Button.SetSize | src/mazegen/display/button.py:86-92 | a negative dimension is an error and changes nothing; otherwise the size is replaced |
| Buttons.ButtonText.constructor | src/mazegen/display/button.py:157-159 | stores the text, a new button, and the contrasting text colour |
| Buttons.ButtonText.Create | src/mazegen/display/button.py:157-159 | fails iff a dimension is negative; otherwise a new text button with the text, the contrasting text colour, and a new button of that size and packed colour at (0, 0) |
| Display.FloorDiv | src/mazegen/display/display.py:97-103 | Python's // : the quotient rounded toward minus infinity |
| Display.Sizes | src/mazegen/display/display.py:77-82 | the size fallback; SizesPositive characterises it |
| Display.SizesPositive | src/mazegen/display/display.py:77-82 | positive sizes are kept; otherwise both become the positive fallback square |
| Display.CellGeometry | src/mazegen/display/display.py:96-103 | fails (division by zero) exactly when the governing dimension is 0 |
| Display.SquareImageFits | src/mazegen/display/display.py:96-103 | for a square image the maze fits inside it, with non-negative offsets that centre it |
| Display.WideImageOverflows | src/mazegen/display/display.py:96-103 | for a 1000 × 100 image and a 10 × 10 maze the vertical offset is negative |
| Display.Setup | src/mazegen/display/display.py:77-118 | succeeds iff the governing maze side is not 0 and the thickness is from 1 to 50, with the geometry of the image after the fallback; a governing side of 0 is a division by zero whatever the thickness, since it is raised first; otherwise a bad thickness is the thickness error |
| Display.AddedWindowFitted | src/mazegen/display/display.py:1260-1267 | corrected: the window is at least the button plus both margins wide, and never shrinks |
| Display.WindowHeight | src/mazegen/display/display.py:1260-1267 | the window height is the spacing plus every button height plus a spacing each |
| Display.WindowFittedWidth | src/mazegen/display/display.py:1260-1267 | corrected: the width is the widest button plus both margins |
| Display.AddedWindow | src/mazegen/display/display.py:1260-1267 | add_button's window rule as written; WindowHeight and AddedButtonOverflows characterise it |
| Display.AddedButtonOverflows | src/mazegen/display/display.py:1264 | as written, buttons 100 then 190 wide with spacing 50 give a 200-wide window, narrower than the second button plus its margin |
| Display.Layout | src/mazegen/display/display.py:1239-1240 | one start per button, in list order; LayoutFits shows the stacked starts fill the window |
| Display.LayoutFits | src/mazegen/display/display.py:1175-1191 | the first button starts one spacing down, each next one a spacing below the previous, and the last leaves exactly one spacing above the window's bottom edge |
| Display.Move | src/mazegen/display/display.py:552-563 | one arrow-key move; MoveSpec characterises it |
| Display.Hit | src/mazegen/display/display.py:1132-1133 | a click inside a button's closed rectangle; MouseEvent returns exactly the buttons it holds for |
| Display.PixelOffset | src/mazegen/display/display.py:744 | y · size_line + x · (bpp // 8); PutPixel writes at it |
| Display.MoveSpec | src/mazegen/display/display.py:552-563 | an arrow key moves to the neighbour in its direction iff that wall is open; other keys do not move |
| Display.LittleEndian4 | src/mazegen/display/display.py:745 | to_bytes(4, 'little') succeeds iff the colour fits 32 bits, giving four bytes |
| Display.LittleEndianRoundTrip | src/mazegen/display/display.py:745 | the four bytes read back give the colour |
| Display.PutPixel | src/mazegen/display/display.py:744-745 | writes the colour's four bytes at y·size_line + x·(bpp // 8) and nothing else; an overflow or out-of-range write leaves the buffer unchanged |
| Display.Displayer.constructor | src/mazegen/display/display.py:74-142 | the computed geometry, the default colours, move mode off at (0, 0), no buttons, spacing 50 |
| Display.Displayer.SetColor | src/mazegen/display/display.py:255-283 | a known location gets the packed colour; an unknown one is reported and nothing changes |
| Display.Displayer.SetSpacing | src/mazegen/display/display.py:185-190 | a spacing of zero or less is an error and changes nothing; otherwise the spacing and both printer positions become it; the buttons, the colours, the geometry and the player are unchanged |
| Display.Displayer.AddButton | src/mazegen/display/display.py:1256-1269 | as written: appends the button and grows the window by the original rule; the spacing, the printer, the colours, the geometry and the player are unchanged |
| Display.Displayer.AddButtonFitted | src/mazegen/display/display.py:1256-1269 | corrected: appends the button; the window is at least its width plus both margins; the spacing, the printer, the colours, the geometry and the player are unchanged |
| Display.Displayer.PrintBackgroundButton | src/mazegen/display/display.py:1175-1191 | places the button at the printer position, keeping its size and colour, and moves the printer down by its height plus the spacing; the buttons, the window size, the colours, the geometry and the player are unchanged |
| Display.Displayer.MouseEvent | src/mazegen/display/display.py:1128-1134 | returns, in order, exactly the indices of the buttons containing the click |
| Display.Displayer.KeyPress | src/mazegen/display/display.py:544-563 | 'm' toggles move mode, and entering it puts the player at the entry; in move mode an arrow key moves through an open wall only; the button window, the colours and the geometry are unchanged |

## Left out

- The generator engine is not part of this model: the carving, the breaches, the path search, and its own writer in `src/mazegen/maze_generation/maze.py`. `seed.py` is also not part of this model.
- MLX rendering is left out: windows, images, drawing loops, animation timing, closing the window and the escape key. These are foreign calls.
- File I/O: a file is a sequence of lines, and `output_in_file` returns its text rather than writing it. A missing file is `None`.
- Floating-point code is left out: the `div` rounding of the wall thickness, the player image resize, and the `0.75` screen fallback (the fallback size is a parameter).
- Buttons.TextColorContrast: the threshold is exact integer arithmetic (`299r + 587g + 114b > 128000`). Floating-point rounding of the luminance right at the threshold is not modelled.
- ConfigTypes.Convert: scalar type constructors are modelled only for `int` and `str`. `int()` accepts ASCII digits with underscores; Unicode digits are not modelled. `capitalize()` and `lower()` act on ASCII letters only.
- ConfigTypes.ConvertDict: the dict branch rewrites its spec list in place, turning it into a tuple spec. The model converts without mutating the spec. The parameter is marked set anyway, so a second assignment is already a double declaration.
- `fill_param` in `src/config_parser.py` is left out; it is dead code.
- Cells.Cell.GetWall: wall keys are the four `Direction` values. The `KeyError` of an unknown key string is not modelled. Nor is `set_wall` adding a new key.
- OldMaze.Maze.GetCell: the model requires in-range coordinates. Python's negative-index wrap-around and `IndexError` are not modelled.
- OldMaze.Maze.SetWall: the model requires in-range coordinates, for the same reason.
- Buttons.Button.constructor: the model requires a non-negative size. The raising path is `Buttons.Button.Create`. The `isinstance` integer checks hold by typing.
- Buttons.ButtonText.constructor: the same, with `Buttons.ButtonText.Create`.
- MazegenConfig.Config.SetCommentaryStr: the `isinstance(str)` check holds by typing.
- Display.Displayer.constructor: the model requires `Display.Setup` to succeed. Its failure cases (division by zero, a bad wall thickness) are stated on `Display.Setup`.
- Display.Displayer.MouseEvent: it returns the indices of the hit buttons. Running their callbacks is not modelled.
- Display.Displayer.KeyPress: the walls of the player's cell are a parameter, because the generator's grid is not part of this model. The redraw is not modelled.
- Display.PutPixel: a write that would fall outside the buffer is reported as an error. Python's slice assignment at the buffer's edge is not modelled.

## Findings

| source | as written | input that shows it | evidently intended | confidence | as-written member | corrected member |
|---|---|---|---|---|---|---|
| src/maze_generation/maze.py:59 | the east arm matches `"EAST"`, but cells key that wall `"EST"`, so an east write never reaches the neighbour | a fresh 1 × 2 grid: `set_wall((0, 0), "EST", True)` leaves cell (0, 1)'s WEST wall open | the east arm writes the right-hand neighbour's WEST wall, like the other three arms | high, not executed | OldMaze.EastWriteBreaksPairing | OldMaze.Maze.SetWallPaired |
| src/mazegen/display/display.py:1264 | the new button's width is compared with the window width, which already includes both margins | spacing 50, buttons 100 then 190 wide: the window stays 200 wide, but the second button needs 290 | widen when `width + 2 * spacing > x` | medium, not executed | Display.AddedButtonOverflows | Display.Displayer.AddButtonFitted |
