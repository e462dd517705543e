/**
 * The maze section: a byte grid built in place by one of three layout
 * strategies or from a blueprint, overlaid with powerups, and stitched into
 * the level by instantiating one tile per non-empty cell.
 */
module Sections {
  import opened Wrappers
  import opened Tiles
  import opened Layout
  import opened Blueprint
  import opened Stitch

  /** The handle of one instantiated tile object. Every instantiation
      yields a new handle that remembers what was loaded and where it went. */
  class Tile {
    const code: Byte
    const prefab: string
    const position: Position

    constructor (code: Byte, prefab: string, position: Position)
      ensures this.code == code && this.prefab == prefab && this.position == position
    {
      this.code := code;
      this.prefab := prefab;
      this.position := position;
    }
  }

  /** What each handle of a tile list records, in list order. */
  function Placed(ts: seq<Tile>): seq<Emission>
  {
    seq(|ts|, i requires 0 <= i < |ts| => Emission(ts[i].code, ts[i].position))
  }

  lemma PlacedAppend(a: seq<Tile>, b: seq<Tile>)
    ensures Placed(a + b) == Placed(a) + Placed(b)
  {
    assert forall i | 0 <= i < |a + b| :: Placed(a + b)[i] == (Placed(a) + Placed(b))[i];
  }

  /** A list that extends `before` has, from index n on, the part of
      `before` from n followed by what was appended. */
  lemma ExtendedSuffix(before: seq<Tile>, after: seq<Tile>, n: nat)
    requires n <= |before| <= |after| && after[..|before|] == before
    ensures after[n..] == before[n..] + after[|before|..]
  {
    forall i | 0 <= i < |after| - n
      ensures after[n..][i] == (before[n..] + after[|before|..])[i]
    {
      if n + i < |before| {
        assert after[n + i] == after[..|before|][n + i];
      }
    }
  }

  lemma PlacedStep(before: seq<Tile>, after: seq<Tile>, n: nat, done: seq<Emission>, more: seq<Emission>)
    requires n <= |before| <= |after| && after[..|before|] == before
    requires Placed(before[n..]) == Spawns(done)
    requires Placed(after[|before|..]) == Spawns(more)
    ensures after[..n] == before[..n]
    ensures Placed(after[n..]) == Spawns(done + more)
  {
    var kept, added := before[n..], after[|before|..];
    ExtendedSuffix(before, after, n);
    PlacedAppend(kept, added);
    SpawnsAppend(done, more);
  }

  /** The first k cells of row y of a grid. */
  ghost function GridRow(a: array2<Byte>, y: nat, k: nat): (row: seq<Byte>)
    reads a
    requires y < a.Length1 && k <= a.Length0
    ensures |row| == k
  {
    if k == 0 then [] else GridRow(a, y, k - 1) + [a[k - 1, y]]
  }

  /** The first k rows, each of width w, of a grid. */
  ghost function GridRows(a: array2<Byte>, w: nat, k: nat): (rows: Rows)
    reads a
    requires w <= a.Length0 && k <= a.Length1
    ensures |rows| == k && Rectangular(rows, w)
  {
    if k == 0 then [] else GridRows(a, w, k - 1) + [GridRow(a, k - 1, w)]
  }

  lemma {:induction false} GridRowAt(a: array2<Byte>, y: nat, k: nat, x: nat)
    requires y < a.Length1 && x < k <= a.Length0
    ensures GridRow(a, y, k)[x] == a[x, y]
  {
    if x < k - 1 {
      GridRowAt(a, y, k - 1, x);
    }
  }

  lemma {:induction false} GridRowsAt(a: array2<Byte>, w: nat, k: nat, y: nat)
    requires w <= a.Length0 && y < k <= a.Length1
    ensures GridRows(a, w, k)[y] == GridRow(a, y, w)
  {
    if y < k - 1 {
      GridRowsAt(a, w, k - 1, y);
    }
  }

  /** Tile lists recording the spawns of two emission lists, the first
      wholly below the second, are wholly below one another too. */
  lemma TilesBelow(low: seq<Tile>, high: seq<Tile>, lower: seq<Emission>, upper: seq<Emission>)
    requires Placed(low) == Spawns(lower) && Placed(high) == Spawns(upper)
    requires forall e1, e2 | e1 in lower && e2 in upper :: e1.at.y < e2.at.y
    ensures forall i, j | 0 <= i < |low| && 0 <= j < |high| :: low[i].position.y < high[j].position.y
  {
    SpawnsExactly(lower);
    SpawnsExactly(upper);
    forall i, j | 0 <= i < |low| && 0 <= j < |high|
      ensures low[i].position.y < high[j].position.y
    {
      assert Placed(low)[i] in Spawns(lower);
      assert Placed(high)[j] in Spawns(upper);
    }
  }

  /** Sections stack: when `below` was stitched from startY and `above` was
      stitched from the cursor `below` returned afterwards, every tile of
      `above` lies in a higher row than every tile of `below`. */
  lemma SectionsStack(below: MazeSection, above: MazeSection, startY: int)
    requires below.Valid() && above.Valid()
    requires below.GetLastTileYCoord() == startY + below.sectionHeight
    requires Placed(below.tiles) == Spawns(Emissions(below.Cells(), below.sectionWidth, startY))
    requires Placed(above.tiles) == Spawns(Emissions(above.Cells(), above.sectionWidth, below.GetLastTileYCoord()))
    ensures forall i, j | 0 <= i < |below.tiles| && 0 <= j < |above.tiles| ::
      below.tiles[i].position.y < above.tiles[j].position.y
  {
    var first, second := below.Cells(), above.Cells();
    var w1, w2 := below.sectionWidth, above.sectionWidth;
    assert startY + |first| == below.GetLastTileYCoord();
    StitchedSectionsDisjoint(first, w1, second, w2, startY);
    TilesBelow(below.tiles, above.tiles, Emissions(first, w1, startY), Emissions(second, w2, startY + |first|));
  }

  class MazeSection {
    /** The width in columns, cast to a byte as in the source. */
    var sectionWidth: Byte
    /** The height in rows. */
    var sectionHeight: nat
    /** sectionData[x, y] is the tile code of column x, row y. */
    var sectionData: array2<Byte>
    /** Every tile instantiated so far, in instantiation order. */
    var tiles: seq<Tile>
    /** The stitching cursor: the row coordinate of the next row to place. */
    var lastTileYCoord: int

    /** The grid covers the section's width and height. The array may be
        wider than sectionWidth when the requested width did not fit a byte. */
    ghost predicate Valid()
      reads this`sectionData, this`sectionWidth, this`sectionHeight
    {
      sectionWidth <= sectionData.Length0 && sectionData.Length1 == sectionHeight
    }

    /** The grid as rows of codes: Cells()[y][x] == sectionData[x, y]. */
    ghost function Cells(): (rows: Rows)
      reads this`sectionData, this`sectionWidth, this`sectionHeight, sectionData
      requires Valid()
      ensures |rows| == sectionHeight && Rectangular(rows, sectionWidth)
    {
      GridRows(sectionData, sectionWidth, sectionHeight)
    }

    lemma CellsRow(y: nat)
      requires Valid() && y < sectionHeight
      ensures forall x | 0 <= x < sectionWidth :: Cells()[y][x] == sectionData[x, y]
    {
      GridRowsAt(sectionData, sectionWidth, sectionHeight, y);
      forall x | 0 <= x < sectionWidth
        ensures Cells()[y][x] == sectionData[x, y]
      {
        GridRowAt(sectionData, y, sectionWidth, x);
      }
    }

    /** The cursor the next section is to start from. */
    function GetLastTileYCoord(): (y: int)
      reads this`lastTileYCoord
      ensures y == lastTileYCoord
    {
      lastTileYCoord
    }

    /** A generated section: allocate a zeroed width x height grid, run the
        layout strategy `kind`, overlay powerups and stitch it at currentY.
        The random draws arrive in the order the loops consume them. */
    constructor Generate(width: int, height: int, kind: int, currentY: int,
                         wallDraws: seq<seq<real>>, picks: seq<Byte>, powerupDraws: seq<seq<real>>)
      requires 0 <= width && 0 <= height
      requires (kind == 0 || kind == 1) && height > 0 ==> width % 256 != 0
      requires kind == 1 ==> DrawGrid(wallDraws, height, width % 256)
      requires kind == 2 ==> |picks| == 3
      requires DrawGrid(powerupDraws, InteriorCount(width % 256), height)
      ensures Valid() && fresh(sectionData)
      ensures sectionWidth == width % 256 && sectionHeight == height && sectionData.Length0 == width
      ensures forall x, y | 0 <= x < sectionWidth && 0 <= y < height ::
        sectionData[x, y] == SectionCell(kind, sectionWidth, x, y, wallDraws, picks, powerupDraws)
      ensures forall x, y | sectionWidth <= x < width && 0 <= y < height :: sectionData[x, y] == 0
      ensures lastTileYCoord == currentY + height
      ensures Placed(tiles) == Spawns(Emissions(Cells(), sectionWidth, currentY))
      ensures |tiles| == TileCount(Cells())
      ensures forall i | 0 <= i < |tiles| :: fresh(tiles[i]) && Some(tiles[i].prefab) == PrefabPath(tiles[i].code)
    {
      sectionData := new Byte[width, height]((_, _) => 0);
      sectionWidth := width % 256;
      sectionHeight := height;
      lastTileYCoord := currentY;
      tiles := [];
      new;
      Build(kind, wallDraws, picks, powerupDraws);
      FinaliseSection();
    }

    /** The grid-building part of Generate, on a zeroed grid: the layout
        strategy `kind`, then Populate. Columns beyond sectionWidth stay 0. */
    method Build(kind: int, wallDraws: seq<seq<real>>, picks: seq<Byte>, powerupDraws: seq<seq<real>>)
      requires Valid()
      requires (kind == 0 || kind == 1) && sectionHeight > 0 ==> sectionWidth != 0
      requires kind == 1 ==> DrawGrid(wallDraws, sectionHeight, sectionWidth)
      requires kind == 2 ==> |picks| == 3
      requires DrawGrid(powerupDraws, InteriorCount(sectionWidth), sectionHeight)
      requires forall x, y | 0 <= x < sectionData.Length0 && 0 <= y < sectionData.Length1 :: sectionData[x, y] == 0
      modifies sectionData
      ensures forall x, y | 0 <= x < sectionData.Length0 && 0 <= y < sectionData.Length1 ::
        sectionData[x, y] == if x < sectionWidth then SectionCell(kind, sectionWidth, x, y, wallDraws, picks, powerupDraws) else 0
    {
      if kind == 0 {
        SectionEmpty();
      } else if kind == 1 {
        SectionRndNormal(wallDraws);
      } else if kind == 2 {
        SectionRndColumn(picks);
      }
      assert forall x, y | 0 <= x < sectionData.Length0 && 0 <= y < sectionData.Length1 ::
        sectionData[x, y] == if x < sectionWidth then LayoutCell(kind, sectionWidth, x, y, wallDraws, picks) else 0;
      Populate(powerupDraws);
    }

    /** Sets every cell of the section's columns to 0. */
    method FillSectionZero()
      requires Valid()
      modifies sectionData
      ensures forall x, y | 0 <= x < sectionData.Length0 && 0 <= y < sectionData.Length1 ::
        sectionData[x, y] == if x < sectionWidth then 0 else old(sectionData[x, y])
    {
      var x := 0;
      while x < sectionWidth
        invariant 0 <= x <= sectionWidth
        invariant forall i, j | 0 <= i < sectionData.Length0 && 0 <= j < sectionData.Length1 ::
          sectionData[i, j] == if i < x then 0 else old(sectionData[i, j])
      {
        var y := 0;
        while y < sectionHeight
          invariant 0 <= y <= sectionHeight
          invariant forall i, j | 0 <= i < sectionData.Length0 && 0 <= j < sectionData.Length1 ::
            sectionData[i, j] == if i < x || (i == x && j < y) then 0 else old(sectionData[i, j])
        {
          sectionData[x, y] := 0;
          y := y + 1;
        }
        x := x + 1;
      }
    }

    /** Makes every listed column that lies inside the section a full-height
        wall; an index at or beyond the width is skipped (the source logs it). */
    method GenerateColumns(columnIndex: seq<Byte>)
      requires Valid()
      modifies sectionData
      ensures forall x, y | 0 <= x < sectionData.Length0 && 0 <= y < sectionData.Length1 ::
        sectionData[x, y] == if x < sectionWidth && x in columnIndex then 1 else old(sectionData[x, y])
    {
      var y := 0;
      while y < sectionHeight
        invariant 0 <= y <= sectionHeight
        invariant forall i, j | 0 <= i < sectionData.Length0 && 0 <= j < sectionData.Length1 ::
          sectionData[i, j] == if j < y && i < sectionWidth && i in columnIndex then 1 else old(sectionData[i, j])
      {
        var c := 0;
        while c < |columnIndex|
          invariant 0 <= c <= |columnIndex|
          invariant forall i, j | 0 <= i < sectionData.Length0 && 0 <= j < sectionData.Length1 ::
            sectionData[i, j] ==
              if i < sectionWidth && ((j < y && i in columnIndex) || (j == y && i in columnIndex[..c])) then 1
              else old(sectionData[i, j])
        {
          if columnIndex[c] < sectionWidth {
            sectionData[columnIndex[c], y] := 1;
          }
          assert columnIndex[..c + 1] == columnIndex[..c] + [columnIndex[c]];
          c := c + 1;
        }
        assert columnIndex[..c] == columnIndex;
        y := y + 1;
      }
    }

    /** Makes column c a full-height wall when it lies inside the section and
        leaves the grid unchanged otherwise. */
    method GenerateColumn(c: Byte)
      requires Valid()
      modifies sectionData
      ensures forall x, y | 0 <= x < sectionData.Length0 && 0 <= y < sectionData.Length1 ::
        sectionData[x, y] == if x == c && c < sectionWidth then 1 else old(sectionData[x, y])
    {
      var y := 0;
      while y < sectionHeight
        invariant 0 <= y <= sectionHeight
        invariant forall i, j | 0 <= i < sectionData.Length0 && 0 <= j < sectionData.Length1 ::
          sectionData[i, j] == if i == c && c < sectionWidth && j < y then 1 else old(sectionData[i, j])
      {
        if c < sectionWidth {
          sectionData[c, y] := 1;
        }
        y := y + 1;
      }
    }

    /** Walls in the two side columns, 0 and width - 1. A section of width 0
        with rows would index column -1, so it is excluded. */
    method GenerateWalls()
      requires Valid()
      requires sectionWidth > 0 || sectionHeight == 0
      modifies sectionData
      ensures forall x, y | 0 <= x < sectionData.Length0 && 0 <= y < sectionData.Length1 ::
        sectionData[x, y] == if SideColumn(sectionWidth, x) then 1 else old(sectionData[x, y])
    {
      var y := 0;
      while y < sectionHeight
        invariant 0 <= y <= sectionHeight
        invariant forall i, j | 0 <= i < sectionData.Length0 && 0 <= j < sectionData.Length1 ::
          sectionData[i, j] == if SideColumn(sectionWidth, i) && j < y then 1 else old(sectionData[i, j])
      {
        sectionData[0, y] := 1;
        sectionData[sectionWidth - 1, y] := 1;
        y := y + 1;
      }
    }

    /** One draw per cell, row by row (draws[y][x]); a draw below the wall
        chance makes the cell a wall. Only the value 1 is ever written. */
    method GenerateRandom(draws: seq<seq<real>>)
      requires Valid() && DrawGrid(draws, sectionHeight, sectionWidth)
      modifies sectionData
      ensures forall x, y | 0 <= x < sectionData.Length0 && 0 <= y < sectionData.Length1 ::
        sectionData[x, y] == if x < sectionWidth then RandomWallCell(old(sectionData[x, y]), draws[y][x])
                             else old(sectionData[x, y])
    {
      var y := 0;
      while y < sectionHeight
        invariant 0 <= y <= sectionHeight
        invariant forall i, j | 0 <= i < sectionData.Length0 && 0 <= j < sectionData.Length1 ::
          sectionData[i, j] == if i < sectionWidth && j < y then RandomWallCell(old(sectionData[i, j]), draws[j][i])
                               else old(sectionData[i, j])
      {
        var x := 0;
        while x < sectionWidth
          invariant 0 <= x <= sectionWidth
          invariant forall i, j | 0 <= i < sectionData.Length0 && 0 <= j < sectionData.Length1 ::
            sectionData[i, j] ==
              if i < sectionWidth && (j < y || (j == y && i < x)) then RandomWallCell(old(sectionData[i, j]), draws[j][i])
              else old(sectionData[i, j])
        {
          if draws[y][x] < WallChance {
            sectionData[x, y] := 1;
          }
          x := x + 1;
        }
        y := y + 1;
      }
    }

    /** One draw per interior cell, column by column (draws[x - 1][y]),
        overlaid by the powerup bands. The side columns are never touched. */
    method Populate(draws: seq<seq<real>>)
      requires Valid() && DrawGrid(draws, InteriorCount(sectionWidth), sectionHeight)
      modifies sectionData
      ensures forall x, y | 0 <= x < sectionData.Length0 && 0 <= y < sectionData.Length1 ::
        sectionData[x, y] == if 1 <= x < sectionWidth - 1 then PopulateCell(old(sectionData[x, y]), draws[x - 1][y])
                             else old(sectionData[x, y])
    {
      var x := 1;
      while x < sectionWidth - 1
        invariant 1 <= x && (sectionWidth >= 2 ==> x <= sectionWidth - 1)
        invariant forall i, j | 0 <= i < sectionData.Length0 && 0 <= j < sectionData.Length1 ::
          sectionData[i, j] == if 1 <= i < x && i < sectionWidth - 1 then PopulateCell(old(sectionData[i, j]), draws[i - 1][j])
                               else old(sectionData[i, j])
      {
        var y := 0;
        while y < sectionHeight
          invariant 0 <= y <= sectionHeight
          invariant forall i, j | 0 <= i < sectionData.Length0 && 0 <= j < sectionData.Length1 ::
            sectionData[i, j] ==
              if (1 <= i < x || (i == x && j < y)) && i < sectionWidth - 1 then PopulateCell(old(sectionData[i, j]), draws[i - 1][j])
              else old(sectionData[i, j])
        {
          var random := draws[x - 1][y];
          sectionData[x, y] := PopulateCell(sectionData[x, y], random);
          y := y + 1;
        }
        x := x + 1;
      }
    }

    /** The Empty strategy: side walls, every other cell 0. */
    method SectionEmpty()
      requires Valid()
      requires sectionWidth > 0 || sectionHeight == 0
      modifies sectionData
      ensures forall x, y | 0 <= x < sectionData.Length0 && 0 <= y < sectionData.Length1 ::
        sectionData[x, y] == if x < sectionWidth then EmptyCell(sectionWidth, x) else old(sectionData[x, y])
    {
      FillSectionZero();
      GenerateWalls();
    }

    /** The RNDColumn strategy: side walls plus the three picked columns
        (those inside the section) as full-height walls, every other cell 0. */
    method SectionRndColumn(picks: seq<Byte>)
      requires Valid() && |picks| == 3
      modifies sectionData
      ensures forall x, y | 0 <= x < sectionData.Length0 && 0 <= y < sectionData.Length1 ::
        sectionData[x, y] == if x < sectionWidth then ColumnCell(sectionWidth, x, picks) else old(sectionData[x, y])
    {
      FillSectionZero();
      GenerateColumns([0, (sectionWidth - 1) % 256]);
      for i := 0 to 3
        invariant forall x, y | 0 <= x < sectionData.Length0 && 0 <= y < sectionData.Length1 ::
          sectionData[x, y] == if x < sectionWidth then ColumnCell(sectionWidth, x, picks[..i]) else old(sectionData[x, y])
      {
        GenerateColumn(picks[i]);
        assert picks[..i + 1] == picks[..i] + [picks[i]];
      }
      assert picks[..3] == picks;
    }

    /** The RNDNormal strategy: side walls, then one wall draw per cell. */
    method SectionRndNormal(draws: seq<seq<real>>)
      requires Valid() && DrawGrid(draws, sectionHeight, sectionWidth)
      requires sectionWidth > 0 || sectionHeight == 0
      modifies sectionData
      ensures forall x, y | 0 <= x < sectionData.Length0 && 0 <= y < sectionData.Length1 ::
        sectionData[x, y] == if x < sectionWidth then NormalCell(sectionWidth, x, draws[y][x]) else old(sectionData[x, y])
    {
      FillSectionZero();
      GenerateWalls();
      GenerateRandom(draws);
    }

    /** Instantiates the prefab of a code 1..10 at the coordinate and keeps
        its handle; code 0 and codes above 10 instantiate nothing. */
    method CreateTile(code: Byte, coordinate: Position)
      modifies this`tiles
      ensures |tiles| >= |old(tiles)| && tiles[..|old(tiles)|] == old(tiles)
      ensures Placed(tiles[|old(tiles)|..]) == Spawns([Emission(code, coordinate)])
      ensures forall i | |old(tiles)| <= i < |tiles| :: fresh(tiles[i]) && Some(tiles[i].prefab) == PrefabPath(tiles[i].code)
    {
      assert [Emission(code, coordinate)][..0] == [];
      match PrefabPath(code)
      case Some(path) =>
        var tile := new Tile(code, path, coordinate);
        tiles := tiles + [tile];
      case None =>
    }

    /** One row of FinaliseSection: hands the cells of row y to CreateTile,
        left to right, at (x - width / 2, cursor, 0). The tiles kept since
        index n record the spawns of `done` before the row, and of `done`
        followed by the row's emissions after it. */
    method FinaliseRow(y: nat, ghost row: seq<Byte>, ghost n: nat, ghost done: seq<Emission>)
      requires Valid() && y < sectionHeight && row == Cells()[y]
      requires n <= |tiles| && Placed(tiles[n..]) == Spawns(done)
      modifies this`tiles
      ensures |tiles| >= |old(tiles)| && tiles[..|old(tiles)|] == old(tiles)
      ensures Placed(tiles[n..]) == Spawns(done + RowEmissions(row, sectionWidth, lastTileYCoord, sectionWidth))
      ensures forall i | |old(tiles)| <= i < |tiles| :: fresh(tiles[i]) && Some(tiles[i].prefab) == PrefabPath(tiles[i].code)
    {
      ghost var start := |tiles|;
      CellsRow(y);
      var x := 0;
      assert done + RowEmissions(row, sectionWidth, lastTileYCoord, 0) == done;
      while x < sectionWidth
        invariant 0 <= x <= sectionWidth
        invariant |tiles| >= start && tiles[..start] == old(tiles)
        invariant Placed(tiles[n..]) == Spawns(done + RowEmissions(row, sectionWidth, lastTileYCoord, x))
        invariant forall i | start <= i < |tiles| :: fresh(tiles[i]) && Some(tiles[i].prefab) == PrefabPath(tiles[i].code)
      {
        ghost var before := tiles;
        var code := sectionData[x, y];
        ghost var e := Emission(code, Position(x - sectionWidth / 2, lastTileYCoord, 0));
        ghost var sofar := done + RowEmissions(row, sectionWidth, lastTileYCoord, x);
        CreateTile(code, Position(x - sectionWidth / 2, lastTileYCoord, 0));
        PlacedStep(before, tiles, n, sofar, [e]);
        forall i | start <= i < |tiles|
          ensures fresh(tiles[i]) && Some(tiles[i].prefab) == PrefabPath(tiles[i].code)
        {
          if i < |before| {
            assert tiles[i] == before[i];
          }
        }
        assert done + RowEmissions(row, sectionWidth, lastTileYCoord, x + 1) == sofar + [e];
        x := x + 1;
      }
    }

    /** FinaliseRow seen from the whole section, the cursor standing at
        startY + y: if the tiles kept since index n record the spawns of
        rows[..y] before, they record those of rows[..y + 1] after. */
    method StitchRow(y: nat, ghost rows: Rows, ghost startY: int, ghost n: nat)
      requires Valid() && y < sectionHeight && rows == Cells() && lastTileYCoord == startY + y
      requires n <= |tiles| && Placed(tiles[n..]) == Spawns(Emissions(rows[..y], sectionWidth, startY))
      modifies this`tiles
      ensures |tiles| >= |old(tiles)| && tiles[..|old(tiles)|] == old(tiles)
      ensures Placed(tiles[n..]) == Spawns(Emissions(rows[..y + 1], sectionWidth, startY))
      ensures forall i | |old(tiles)| <= i < |tiles| :: fresh(tiles[i]) && Some(tiles[i].prefab) == PrefabPath(tiles[i].code)
    {
      EmissionsSnoc(rows, sectionWidth, startY, y);
      FinaliseRow(y, rows[y], n, Emissions(rows[..y], sectionWidth, startY));
    }

    /** Hands every cell to CreateTile, row by row, advancing the cursor
        once per row. The grid is not changed. */
    method FinaliseSection()
      requires Valid()
      modifies this`tiles, this`lastTileYCoord
      ensures lastTileYCoord == old(lastTileYCoord) + sectionHeight
      ensures |tiles| >= |old(tiles)| && tiles[..|old(tiles)|] == old(tiles)
      ensures Placed(tiles[|old(tiles)|..]) == Spawns(Emissions(Cells(), sectionWidth, old(lastTileYCoord)))
      ensures |tiles| == |old(tiles)| + TileCount(Cells())
      ensures forall i | |old(tiles)| <= i < |tiles| :: fresh(tiles[i]) && Some(tiles[i].prefab) == PrefabPath(tiles[i].code)
    {
      ghost var rows := Cells();
      ghost var startY := lastTileYCoord;
      ghost var n := |tiles|;
      var y := 0;
      while y < sectionHeight
        invariant 0 <= y <= sectionHeight
        invariant lastTileYCoord == startY + y
        invariant |tiles| >= n && tiles[..n] == old(tiles)
        invariant Placed(tiles[n..]) == Spawns(Emissions(rows[..y], sectionWidth, startY))
        invariant forall i | n <= i < |tiles| :: fresh(tiles[i]) && Some(tiles[i].prefab) == PrefabPath(tiles[i].code)
      {
        ghost var before := tiles;
        StitchRow(y, rows, startY, n);
        forall i | n <= i < |tiles|
          ensures fresh(tiles[i]) && Some(tiles[i].prefab) == PrefabPath(tiles[i].code)
        {
          if i < |before| {
            assert tiles[i] == before[i];
          }
        }
        lastTileYCoord := lastTileYCoord + 1;
        y := y + 1;
      }
      assert rows[..sectionHeight] == rows;
      SpawnCount(rows, sectionWidth, startY);
    }

    /** Asks the engine to destroy every kept tile, in list order; the list
        itself is left as it is. Returns the handles in the order released. */
    method DestroySection() returns (released: seq<Tile>)
      ensures released == tiles
    {
      released := [];
      for i := 0 to |tiles|
        invariant released == tiles[..i]
      {
        released := released + [tiles[i]];
      }
    }

    /** A section built from validated blueprint lines and stitched at yCoord. */
    constructor FromBlueprint(lines: seq<string>, yCoord: int)
      requires |lines| >= 1 && UniformWidth(lines)
      ensures Valid() && sectionHeight == |lines| && sectionWidth == |lines[0]| % 256
      ensures Cells() == Decode(lines)
      ensures lastTileYCoord == yCoord + |lines|
      ensures Placed(tiles) == Spawns(Emissions(Cells(), sectionWidth, yCoord))
      ensures |tiles| == TileCount(Cells())
      ensures forall i | 0 <= i < |tiles| :: fresh(tiles[i]) && Some(tiles[i].prefab) == PrefabPath(tiles[i].code)
    {
      sectionWidth, sectionHeight := 0, 0;
      sectionData := new Byte[0, 0];
      lastTileYCoord := yCoord;
      tiles := [];
      new;
      TranslateFile(lines);
      FinaliseSection();
    }

    /** Splits the blueprint text into lines and validates it: None exactly
        when some line's length differs from the first line's. */
    static method ReadTextFile(text: string) returns (r: Option<seq<string>>)
      ensures r.None? <==> exists i | 0 <= i < |SplitLines(text)| :: |SplitLines(text)[i]| != |SplitLines(text)[0]|
      ensures r.Some? ==> r.value == SplitLines(text)
    {
      var input := SplitLines(text);
      var stringLength := -1;
      for i := 0 to |input|
        invariant (i == 0) == (stringLength == -1)
        invariant i > 0 ==> stringLength == |input[0]|
        invariant forall j | 0 <= j < i :: |input[j]| == |input[0]|
      {
        if stringLength == -1 {
          stringLength := |input[i]|;
        } else if |input[i]| != stringLength {
          assert 0 <= i < |SplitLines(text)| && |SplitLines(text)[i]| != |SplitLines(text)[0]|;
          return None;
        }
      }
      return Some(input);
    }

    /** Sizes the grid from validated lines (height: line count, width: the
        first line's length as a byte) and fills it, one character per cell. */
    method TranslateFile(input: seq<string>)
      requires |input| >= 1 && UniformWidth(input)
      modifies this`sectionData, this`sectionWidth, this`sectionHeight
      ensures Valid() && fresh(sectionData)
      ensures sectionHeight == |input| && sectionWidth == |input[0]| % 256
      ensures Cells() == Decode(input)
    {
      sectionHeight := |input|;
      sectionWidth := |input[0]| % 256;
      sectionData := new Byte[sectionWidth, sectionHeight]((_, _) => 0);
      var y := 0;
      while y < sectionHeight
        invariant 0 <= y <= sectionHeight
        invariant sectionHeight == |input| && sectionWidth == |input[0]| % 256 && fresh(sectionData)
        invariant sectionData.Length0 == sectionWidth && sectionData.Length1 == sectionHeight
        invariant forall i, j | 0 <= i < sectionWidth && 0 <= j < y :: sectionData[i, j] == CellCode(input[j][i])
      {
        var line := input[y];
        var x := 0;
        while x < sectionWidth
          invariant 0 <= x <= sectionWidth
          invariant sectionHeight == |input| && sectionWidth == |input[0]| % 256 && fresh(sectionData)
          invariant sectionData.Length0 == sectionWidth && sectionData.Length1 == sectionHeight
          invariant forall i, j | 0 <= i < sectionWidth && 0 <= j < y :: sectionData[i, j] == CellCode(input[j][i])
          invariant forall i | 0 <= i < x :: sectionData[i, y] == CellCode(line[i])
        {
          sectionData[x, y] := CellCode(line[x]);
          x := x + 1;
        }
        y := y + 1;
      }
      ghost var rows, decoded := Cells(), Decode(input);
      forall j | 0 <= j < sectionHeight
        ensures rows[j] == decoded[j]
      {
        CellsRow(j);
      }
    }

    /** The blueprint constructor as a whole: None where the source, handed
        a rejected blueprint, would dereference the null line list. */
    static method LoadBlueprint(text: string, yCoord: int) returns (r: Option<MazeSection>)
      ensures r.None? <==> Parse(text).None?
      ensures r.Some? ==> fresh(r.value) && r.value.Valid() && r.value.Cells() == Parse(text).value
      ensures r.Some? ==> r.value.lastTileYCoord == yCoord + r.value.sectionHeight
      ensures r.Some? ==> Placed(r.value.tiles) == Spawns(Emissions(r.value.Cells(), r.value.sectionWidth, yCoord))
      ensures r.Some? ==> forall i | 0 <= i < |r.value.tiles| ::
        fresh(r.value.tiles[i]) && Some(r.value.tiles[i].prefab) == PrefabPath(r.value.tiles[i].code)
    {
      var input := ReadTextFile(text);
      if input.None? {
        return None;
      }
      var section := new MazeSection.FromBlueprint(input.value, yCoord);
      return Some(section);
    }

    /** An empty section at yCoord: no rows, no columns, no tiles. */
    constructor Empty(yCoord: int)
      ensures Valid() && sectionHeight == 0 && sectionWidth == 0
      ensures lastTileYCoord == yCoord && tiles == []
    {
      sectionWidth, sectionHeight := 0, 0;
      sectionData := new Byte[0, 0];
      lastTileYCoord := yCoord;
      tiles := [];
    }

    /** The blueprint constructor with its null-line-list failsafe taking
        effect: a rejected blueprint yields an empty section at yCoord
        instead of a failure; an accepted one is built as before. */
    static method LoadBlueprintOrEmpty(text: string, yCoord: int) returns (section: MazeSection)
      ensures fresh(section) && section.Valid()
      ensures section.lastTileYCoord == yCoord + section.sectionHeight
      ensures Placed(section.tiles) == Spawns(Emissions(section.Cells(), section.sectionWidth, yCoord))
      ensures forall i | 0 <= i < |section.tiles| ::
        fresh(section.tiles[i]) && Some(section.tiles[i].prefab) == PrefabPath(section.tiles[i].code)
      ensures Parse(text).Some? ==> section.Cells() == Parse(text).value
      ensures Parse(text).None? ==> section.sectionHeight == 0 && section.sectionWidth == 0 && section.tiles == []
    {
      var input := ReadTextFile(text);
      if input.None? {
        section := new MazeSection.Empty(yCoord);
        assert section.Cells() == [];
      } else {
        section := new MazeSection.FromBlueprint(input.value, yCoord);
      }
    }
  }
}
