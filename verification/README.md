# MazeSection in Dafny

A model of the maze-section builder of a Unity game, the class
`MazeSection`. It builds one section of a vertically scrolling level in
three stages:

- **Grid generation.** It fills a byte grid `sectionData[x, y]`
  (`sectionWidth` columns × `sectionHeight` rows) by one of three layout
  strategies:
  - Empty: side walls only;
  - RNDNormal: side walls plus a 20 % wall draw on every cell;
  - RNDColumn: side walls plus three drawn full-height wall columns.

  `Populate` then overlays powerup codes 2..10 by fixed probability bands.
- **Blueprint parsing.** The blueprint constructor instead reads a grid
  from text:
  - `ReadTextFile` splits the text on `'\n'` and rejects it when the line
    lengths differ;
  - `TranslateFile` stores `(byte)(ascii(c) - 48)` for every character.
- **Stitching.** `FinaliseSection` visits the grid row by row, left to
  right, and calls `CreateTile` with every cell's code and the position
  `(x - width / 2, cursor, 0)`. It advances the level cursor
  `lastTileYCoord` once per row. `CreateTile` instantiates the prefab
  named by codes 1..10 and keeps the handle in `tiles`.
  `DestroySection` releases every kept handle.

## How the model is laid out

- `tiles.dfy` (module `Tiles`): tile codes, the code → prefab-path
  table, and `Spawns`. `Spawns` filters a list of visited cells (an
  `Emission`: code plus position) down to those that instantiate
  something.
- `layout.dfy` (module `Layout`): each strategy and `Populate` as a
  function of one cell. This is the specification the in-place methods
  are proved against.
- `blueprint.dfy` (module `Blueprint`): the blueprint text format as
  values:
  - `SplitLines` is `string.Split("\n")`, and `JoinLines` is its
    inverse;
  - `Parse` is the reference reader.
- `stitch.dfy` (module `Stitch`): `Emissions` lists, in visiting order,
  the emissions of stitching a grid of rows at a cursor. Lemmas about it
  cover order, positions, disjointness of consecutive sections, and the
  tile count.
- `sections.dfy` (module `Sections`) holds the class `MazeSection`:
  - its fields are the source's fields: `sectionData` is an `array2<Byte>`
    written in place, and `tiles` is a sequence of `Tile` handles;
  - every loop of the source is a `while`/`for` loop with invariants;
  - each method's `ensures` ties the new grid or tile list to the
    functions above;
  - `Cells()` reads the grid as rows.
- `wrappers.dfy`: `Option`.

What the engine supplies becomes a parameter, as follows:

- **Random draws.** They are parameters, in the order the loops consume
  them:
  - GenerateRandom uses `draws[y][x]`;
  - Populate uses `draws[x - 1][y]`;
  - the three column picks are the bytes that `(byte)Random.Range(...)`
    produced.
- **Blueprint.** The blueprint is the text itself.
- **Instantiation.** `Object.Instantiate` is the allocation of a fresh
  `Tile` object that records its code, its prefab path and its position.
- **Destroy.** `Object.Destroy` is the release log that `DestroySection`
  returns.

Integer arithmetic is exact. The byte cast of the width is written out
as `% 256`, and so is the byte wrap of `ascii - 48`. Float constants are
exact reals.

## Model

| member | source | states |
|---|---|---|
| `Tiles.PrefabPath` | gameFolder/Assets/Resources/Scripts/MazeSection.cs:207-274 | a prefab is loaded exactly for codes 1..10, and always from a path under `Objects/` |
| `Tiles.SpawnsExactly` | gameFolder/Assets/Resources/Scripts/MazeSection.cs:207-274 | the cells that instantiate a tile are exactly those with codes 1..10, none lost and none added, and never more than there are cells |
| `Layout.NormalCell` | gameFolder/Assets/Resources/Scripts/MazeSection.cs:134-142 | after RNDNormal a cell is 0 or 1; the side columns are 1; any other cell is 1 exactly when its draw is below 0.2 |
| `Layout.PopulateCell` | gameFolder/Assets/Resources/Scripts/MazeSection.cs:147-172 | the band chain agrees with the percentile table: 90..94 give 2..6, 95 keeps the cell, 96..98 give 7..9, 99 and above give 10. Only codes 2..10 are ever written. Below 0.90 and in [0.95, 0.96) the cell is kept |
| `Layout.ExtraWallColumnsBound` | gameFolder/Assets/Resources/Scripts/MazeSection.cs:185-191 | RNDColumn adds at most three interior wall columns (duplicate picks collapse) |
| `Layout.DistinctPicksBound` | gameFolder/Assets/Resources/Scripts/MazeSection.cs:188-190 | the distinct picks are no more than the picks drawn |
| `Layout.IntRange` | gameFolder/Assets/Resources/Scripts/MazeSection.cs:189 | the integer `Random.Range(lo, hi)` yields a value in [lo, hi), the upper bound excluded, and reaches each one; an empty range (lo == hi) yields lo |
| `Layout.ColumnDrawAsWritten` | gameFolder/Assets/Resources/Scripts/MazeSection.cs:189 | as written, a drawn column lies in 1..w-3 for widths 4 and up; at width 3 the range is empty and the draw is always column 1 |
| `Layout.RightInnerColumnNeverDrawn` | gameFolder/Assets/Resources/Scripts/MazeSection.cs:189 | with width 5, column 1 can be drawn and column 3 never can |
| `Layout.NarrowSectionColumnAlwaysWall` | gameFolder/Assets/Resources/Scripts/MazeSection.cs:185-191 | at width 3 the only interior column (1 == w-2) is a wall column after SECTION_RNDColumn, before Populate, whatever the column draws |
| `Layout.RightInnerColumnOpen` | gameFolder/Assets/Resources/Scripts/MazeSection.cs:185-191 | with picks drawn as written, the interior column next to the right wall never becomes a wall column, whatever the draws (width 4..255) |
| `Layout.ColumnDraw` | gameFolder/Assets/Resources/Scripts/MazeSection.cs:189 | the corrected draw `Range(1, w - 1)` stays within the interior columns 1..w-2 |
| `Layout.EveryInteriorColumnDrawable` | gameFolder/Assets/Resources/Scripts/MazeSection.cs:189 | with the corrected draw every interior column, w-2 included, is drawn by some draw |
| `Blueprint.SplitLines` | gameFolder/Assets/Resources/Scripts/MazeSection.cs:350 | splitting on `'\n'` yields at least one line, and no line contains a newline |
| `Blueprint.JoinSplit` | gameFolder/Assets/Resources/Scripts/MazeSection.cs:350 | splitting loses nothing: joining the lines with `'\n'` restores the text |
| `Blueprint.SplitJoin` | gameFolder/Assets/Resources/Scripts/MazeSection.cs:350 | newline-free lines survive being joined and split again |
| `Blueprint.AsciiByte` | gameFolder/Assets/Resources/Scripts/MazeSection.cs:383 | ASCII encoding yields a byte below 128 for every character |
| `Blueprint.CellCode` | gameFolder/Assets/Resources/Scripts/MazeSection.cs:383-385 | a character becomes a code 0..9 exactly when it is a digit, and then its digit value; every other character wraps to a code above 9 |
| `Blueprint.RenderDecode` | gameFolder/Assets/Resources/Scripts/MazeSection.cs:378-387 | the reader loses nothing on digit text: uniform lines of digits, narrower than 256, decode to codes 0..9 only, and rendering the decoded grid gives back the joined lines |
| `Blueprint.ParseRender` | gameFolder/Assets/Resources/Scripts/MazeSection.cs:350-387 | every grid of digit codes, at least one row high and narrower than 256, is read back unchanged from its blueprint text |
| `Blueprint.RejectsRagged` | gameFolder/Assets/Resources/Scripts/MazeSection.cs:354-361 | the text `"11\n111"` is rejected |
| `Blueprint.RejectsTrailingNewline` | gameFolder/Assets/Resources/Scripts/MazeSection.cs:350-361 | the text `"11\n"`, which ends in a newline, is rejected |
| `Stitch.RowEmissions` | gameFolder/Assets/Resources/Scripts/MazeSection.cs:281-283 | a row visited up to column k emits k cells |
| `Stitch.EmissionsLength` | gameFolder/Assets/Resources/Scripts/MazeSection.cs:279-286 | a grid of h rows of width w emits exactly h·w cells |
| `Stitch.EmissionAt` | gameFolder/Assets/Resources/Scripts/MazeSection.cs:279-286 | visiting is row-major: emission y·w + x is cell (x, y), placed at (x - w / 2, startY + y, 0) |
| `Stitch.EmissionsWithinRows` | gameFolder/Assets/Resources/Scripts/MazeSection.cs:279-286 | a section of height h stitched from cursor Y places everything in rows Y .. Y + h - 1 |
| `Stitch.StitchedSectionsDisjoint` | gameFolder/Assets/Resources/Scripts/MazeSection.cs:37-40 | a section stitched at the cursor its predecessor returns lies strictly above every tile of the predecessor |
| `Stitch.SpawnCount` | gameFolder/Assets/Resources/Scripts/MazeSection.cs:279-286 | stitching a grid instantiates exactly as many tiles as it has cells with codes 1..10 |
| `Sections.MazeSection.Generate` | gameFolder/Assets/Resources/Scripts/MazeSection.cs:49-69 | allocates a width × height grid with `sectionWidth = width mod 256`. Every cell is its strategy's layout cell with the powerup overlay; columns past the byte width stay 0. The tiles record the spawns of the grid stitched at `currentY`, one per code 1..10 cell, and the cursor ends at `currentY + height`. Every tile is a new object holding its code's `Objects/` prefab |
| `Sections.MazeSection.Build` | gameFolder/Assets/Resources/Scripts/MazeSection.cs:55-66 | the strategy dispatch (kind 0, 1, 2, anything else: no layout) followed by Populate leaves every cell at `SectionCell` |
| `Sections.MazeSection.FillSectionZero` | gameFolder/Assets/Resources/Scripts/MazeSection.cs:81-87 | every cell of the first `sectionWidth` columns becomes 0, nothing else changes |
| `Sections.MazeSection.GenerateColumns` | gameFolder/Assets/Resources/Scripts/MazeSection.cs:93-103 | every listed column inside the section becomes a full wall; listed indices at or past the width change nothing |
| `Sections.MazeSection.GenerateColumn` | gameFolder/Assets/Resources/Scripts/MazeSection.cs:109-117 | column c becomes a full wall when c < sectionWidth; otherwise the grid is unchanged |
| `Sections.MazeSection.GenerateWalls` | gameFolder/Assets/Resources/Scripts/MazeSection.cs:123-128 | columns 0 and width-1 become walls, every other cell is unchanged |
| `Sections.MazeSection.GenerateRandom` | gameFolder/Assets/Resources/Scripts/MazeSection.cs:134-142 | a cell whose draw is below 0.2 becomes 1, every other cell is unchanged (only 1 is ever written) |
| `Sections.MazeSection.Populate` | gameFolder/Assets/Resources/Scripts/MazeSection.cs:147-172 | each interior cell becomes `PopulateCell` of its draw; the side columns and columns past the width are unchanged |
| `Sections.MazeSection.SectionEmpty` | gameFolder/Assets/Resources/Scripts/MazeSection.cs:177-180 | the side columns are 1 and every other cell of the section is 0 |
| `Sections.MazeSection.SectionRndColumn` | gameFolder/Assets/Resources/Scripts/MazeSection.cs:185-191 | the side columns and every picked column inside the section are 1, every other cell is 0 |
| `Sections.MazeSection.SectionRndNormal` | gameFolder/Assets/Resources/Scripts/MazeSection.cs:196-200 | every cell is `NormalCell` of its draw: side walls, plus walls where the draw is below 0.2 |
| `Sections.MazeSection.CreateTile` | gameFolder/Assets/Resources/Scripts/MazeSection.cs:207-274 | keeps the old handles. It appends exactly one fresh handle, holding the code's prefab and the coordinate, for codes 1..10, and nothing otherwise |
| `Sections.MazeSection.FinaliseRow` | gameFolder/Assets/Resources/Scripts/MazeSection.cs:281-283 | the cells of one row, left to right, extend the kept tiles by that row's spawns at the current cursor; every appended handle is a new object holding its code's `Objects/` prefab |
| `Sections.MazeSection.StitchRow` | gameFolder/Assets/Resources/Scripts/MazeSection.cs:280-285 | one pass of the row loop takes the tiles from the spawns of rows[..y] to those of rows[..y + 1], every appended handle a new object holding its code's `Objects/` prefab |
| `Sections.MazeSection.FinaliseSection` | gameFolder/Assets/Resources/Scripts/MazeSection.cs:279-286 | keeps the old handles and appends exactly the spawns of the grid stitched from the old cursor, one per code 1..10 cell. The cursor grows by `sectionHeight`, and the grid is not written (outside its frame). Every appended handle is a new object holding its code's `Objects/` prefab |
| `Sections.MazeSection.DestroySection` | gameFolder/Assets/Resources/Scripts/MazeSection.cs:291-295 | releases every kept handle, in list order, and leaves the list as it is |
| `Sections.MazeSection.FromBlueprint` | gameFolder/Assets/Resources/Scripts/MazeSection.cs:320-326 | from validated lines: the grid is `Decode(lines)`, and the tiles are the grid's spawns stitched at `yCoord`, one per code 1..10 cell. The cursor ends at `yCoord` + line count. Every tile is a new object holding its code's `Objects/` prefab |
| `Sections.MazeSection.ReadTextFile` | gameFolder/Assets/Resources/Scripts/MazeSection.cs:334-363 | rejects the text exactly when some line's length differs from the first line's, and otherwise returns the split lines |
| `Sections.MazeSection.TranslateFile` | gameFolder/Assets/Resources/Scripts/MazeSection.cs:370-388 | height is the line count and width the first line's length as a byte; the new grid is `Decode` of the lines |
| `Sections.MazeSection.LoadBlueprint` | gameFolder/Assets/Resources/Scripts/MazeSection.cs:320-326 | the blueprint constructor as a whole: it fails exactly when `Parse` rejects the text, and otherwise yields the parsed grid, stitched at `yCoord`, every tile a new object holding its code's prefab |
| `Sections.MazeSection.GetLastTileYCoord` | gameFolder/Assets/Resources/Scripts/MazeSection.cs:73-75 | returns the stitching cursor as it stands; the constructors' `ensures` fix it at `currentY + height` after `Generate` and at `yCoord` + line count after the blueprint constructor |
| `Sections.SectionsStack` | gameFolder/Assets/Resources/Scripts/MazeSection.cs:37-40 | a section stitched from the cursor that `GetLastTileYCoord` returns after the previous one has every tile in a higher row than every tile of the previous one |
| `Sections.MazeSection.Empty` | gameFolder/Assets/Resources/Scripts/MazeSection.cs:373-376 | an empty section: height and width 0, no tiles, cursor at `yCoord` |
| `Sections.MazeSection.LoadBlueprintOrEmpty` | gameFolder/Assets/Resources/Scripts/MazeSection.cs:373-378 | never fails: a rejected blueprint gives the empty section, and an accepted one gives the parsed grid, stitched, every tile a new object holding its code's prefab |

## Behaviour of the code worth knowing

- `DestroySection` releases every handle but does not clear `tiles`; a
  second call releases the same handles again.
- A blueprint character is stored as `(byte)(ascii - 48)` without a digit
  check, so `':'` becomes 10 and `' '` becomes 240 (`CellCode`).
- `CreateTile` silently skips codes 0 and 11..255 (`PrefabPath`,
  `Spawns`).
- An empty blueprint text is one line of width 0 and yields a 0-column,
  1-row section.
- RNDNormal draws once for every cell, side columns included; a draw on
  a side column writes 1 over 1, so the side walls stay.
- The width is stored as a byte: a generated section of width 256 or
  more allocates that many columns, works on `width mod 256` of them and
  leaves the rest 0.
- For widths 4 and up, the RNDColumn draws never reach the interior
  column w-2 (see Findings). At width 3, `Random.Range(1, 1)` returns 1,
  which is w-2, so after SECTION_RNDColumn, before Populate, that column
  is a wall whatever the column draws. Populate may still overwrite it
  with a powerup.
- `GetLastTileYCoord` returns the next free row, `startY + sectionHeight`,
  one above the row of the section's last tiles.
- A blueprint text ending in `'\n'` has an empty last line, so it is
  rejected unless every line is empty. A text with `"\r\n"` line endings
  whose last line has no `'\r'` is rejected the same way.

## Left out

- Engine calls: `Resources.Load` of the prefab is modelled only by the
  path the handle records. `Object.Instantiate`, `transform.position`
  and `Object.Destroy` become a fresh `Tile` object and the release log.
  The random direction given to a PositronSpawner (MazeSection.cs:245-246)
  is not modelled.
- `Random.value` and `Random.Range` become parameters. Sequences that
  are too short, or the wrong shape, are excluded by `DrawGrid`
  preconditions.
- Float rounding at the band edges of `Populate` and of `wallChance` is
  not modelled. Thresholds are exact reals.
- `Resources.Load` of the blueprint file by name (MazeSection.cs:341-347)
  is left out; the model takes the text.
- Characters outside the Basic Multilingual Plane: the model encodes one
  `char` to one byte. A surrogate pair, which the ASCII encoder turns into
  a single `'?'`, is not modelled.
- Layout.ColumnDrawAsWritten: widths below 3, where the bounds of
  `Random.Range(1, sectionWidth - 2)` are reversed, are not modelled.
- `Debug.Log` messages (MazeSection.cs:99, 114 and 358) are left out:
  they only write to the engine console. The branches around them are
  modelled.
- Sections.MazeSection.FinaliseSection: the cursor is an unbounded
  integer; the 32-bit wrap of `lastTileYCoord++` (MazeSection.cs:284)
  past 2^31 - 1 is not modelled.
- Sections.MazeSection.Generate: the three RNDColumn picks are any bytes,
  more general than the values `(byte)Random.Range(1, sectionWidth - 2)`
  produces; `Layout.RightInnerColumnOpen` states what the draws as
  written give.
- `PrintSection` (MazeSection.cs:300-308): debug output that is
  discarded.
- Negative sizes, and strategies 0 and 1 with width ≡ 0 mod 256 and
  rows, throw in the source. They are preconditions of `Generate`, not
  modelled error paths.
- Tiles.Position: coordinates are exact integers. `new Vector3(...)`
  (MazeSection.cs:282) stores them as floats, which are exact only up to
  2^24; past that, rows of consecutive sections can coincide. That
  rounding is not modelled, so `Stitch.StitchedSectionsDisjoint` and
  `Sections.SectionsStack` hold for the exact coordinates.
- The other scripts of the game (player, camera, beams, positrons,
  ghosts, triggers) are not part of this model.

## Findings

| source | as written | input that shows it | evidently intended | confidence | as-written member | corrected member |
|---|---|---|---|---|---|---|
| gameFolder/Assets/Resources/Scripts/MazeSection.cs:189 | `Random.Range(1, sectionWidth - 2)` excludes its upper bound, so from width 4 on a drawn column lies in 1..w-3 (at width 3 the empty range always gives column 1) | width 5: columns 1 and 2 can become wall columns, column 3 never can | every interior column 1..w-2 can be drawn: `Random.Range(1, sectionWidth - 1)` | medium; not executed | `Layout.RightInnerColumnNeverDrawn` | `Layout.EveryInteriorColumnDrawable` |
| gameFolder/Assets/Resources/Scripts/MazeSection.cs:373-378 | the failsafe sets `sectionHeight = 0` for a rejected blueprint, then reads `input.Count` on the null list anyway | the text `"11\n111"` (rejected by `RejectsRagged`) makes the constructor fail | a rejected blueprint yields an empty section | medium; not executed | `Sections.MazeSection.LoadBlueprint` | `Sections.MazeSection.LoadBlueprintOrEmpty` |
