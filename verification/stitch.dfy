/**
 * Stitching a grid into level coordinates. FinaliseSection visits the
 * grid row by row (y outer, x inner), hands every cell to CreateTile at
 * (x - width / 2, cursor, 0) and advances the cursor once per row, so a
 * section of height h starting at Y occupies the rows Y .. Y + h - 1 and
 * the next section starts at Y + h.
 */
module Stitch {
  import opened Tiles
  import opened Blueprint

  /** The emissions of the first k cells of one row, placed at height y. */
  function RowEmissions(row: seq<Byte>, w: nat, y: int, k: nat): (es: seq<Emission>)
    requires k <= |row|
    ensures |es| == k
  {
    if k == 0 then []
    else RowEmissions(row, w, y, k - 1) + [Emission(row[k - 1], Position(k - 1 - w / 2, y, 0))]
  }

  /** The emissions of a whole grid of width w, its first row at startY. */
  function Emissions(rows: Rows, w: nat, startY: int): seq<Emission>
    requires Rectangular(rows, w)
  {
    if rows == [] then []
    else Emissions(rows[..|rows| - 1], w, startY) + RowEmissions(rows[|rows| - 1], w, startY + |rows| - 1, w)
  }

  /** Stitching one more row appends that row's emissions, at startY + y. */
  lemma EmissionsSnoc(rows: Rows, w: nat, startY: int, y: nat)
    requires Rectangular(rows, w) && y < |rows|
    ensures Rectangular(rows[..y], w) && Rectangular(rows[..y + 1], w)
    ensures Emissions(rows[..y + 1], w, startY) == Emissions(rows[..y], w, startY) + RowEmissions(rows[y], w, startY + y, w)
  {
    assert rows[..y + 1][..y] == rows[..y];
  }

  /** Cell x of a row is emitted at position x of its row's emissions. */
  lemma {:induction false} RowEmissionAt(row: seq<Byte>, w: nat, y: int, k: nat, x: nat)
    requires k <= |row| && x < k
    ensures RowEmissions(row, w, y, k)[x] == Emission(row[x], Position(x - w / 2, y, 0))
  {
    if x < k - 1 {
      RowEmissionAt(row, w, y, k - 1, x);
    }
  }

  /** A grid of h rows and width w emits exactly w * h cells. */
  lemma {:induction false} EmissionsLength(rows: Rows, w: nat, startY: int)
    requires Rectangular(rows, w)
    ensures |Emissions(rows, w, startY)| == |rows| * w
  {
    if rows != [] {
      var n := |rows|;
      EmissionsLength(rows[..n - 1], w, startY);
      assert (n - 1) * w + w == n * w;
    }
  }

  /** Row-major order: cell (x, y) is emission number y * w + x and sits at
      (x - w / 2, startY + y, 0). With EmissionsLength this fixes every emission. */
  lemma {:induction false} EmissionAt(rows: Rows, w: nat, startY: int, x: nat, y: nat)
    requires Rectangular(rows, w) && y < |rows| && x < w
    ensures y * w + x < |Emissions(rows, w, startY)|
    ensures Emissions(rows, w, startY)[y * w + x] == Emission(rows[y][x], Position(x - w / 2, startY + y, 0))
  {
    var n := |rows|;
    var prefix := rows[..n - 1];
    var early := Emissions(prefix, w, startY);
    var final := RowEmissions(rows[n - 1], w, startY + n - 1, w);
    assert Emissions(rows, w, startY) == early + final;
    EmissionsLength(prefix, w, startY);
    RowMajorIndex(x, y, w, n);
    if y < n - 1 {
      EmissionAt(prefix, w, startY, x, y);
    } else {
      RowEmissionAt(rows[n - 1], w, startY + n - 1, w, x);
    }
  }

  /** Where index y * w + x falls in a grid of n rows of width w. */
  lemma RowMajorIndex(x: nat, y: nat, w: nat, n: nat)
    requires x < w && y < n
    ensures y * w + x < (n - 1) * w + w
    ensures y < n - 1 ==> y * w + x < (n - 1) * w
    ensures y == n - 1 ==> y * w + x == (n - 1) * w + x
  {
    assert (y + 1) * w == y * w + w;
    if y < n - 1 {
      assert (y + 1) * w <= (n - 1) * w;
    }
  }

  /** Every emission of a grid of height h started at Y lies in rows Y .. Y + h - 1. */
  lemma {:induction false} EmissionsWithinRows(rows: Rows, w: nat, startY: int)
    requires Rectangular(rows, w)
    ensures forall e | e in Emissions(rows, w, startY) :: startY <= e.at.y < startY + |rows|
  {
    if rows != [] {
      var n := |rows|;
      EmissionsWithinRows(rows[..n - 1], w, startY);
      forall e | e in RowEmissions(rows[n - 1], w, startY + n - 1, w)
        ensures e.at.y == startY + n - 1
      {
        var i :| 0 <= i < w && RowEmissions(rows[n - 1], w, startY + n - 1, w)[i] == e;
        RowEmissionAt(rows[n - 1], w, startY + n - 1, w, i);
      }
    }
  }

  /** Two sections stitched one after the other, the second starting at the
      cursor the first returns, neither overlap nor interleave: every tile of
      the first lies strictly below every tile of the second. */
  lemma StitchedSectionsDisjoint(first: Rows, w1: nat, second: Rows, w2: nat, startY: int)
    requires Rectangular(first, w1) && Rectangular(second, w2)
    ensures forall e1, e2 | e1 in Emissions(first, w1, startY) && e2 in Emissions(second, w2, startY + |first|) ::
      e1.at.y < e2.at.y
  {
    EmissionsWithinRows(first, w1, startY);
    EmissionsWithinRows(second, w2, startY + |first|);
  }

  /** The number of cells of a row whose code instantiates a tile. */
  function RowTileCount(row: seq<Byte>): nat {
    if row == [] then 0 else (if Spawnable(row[0]) then 1 else 0) + RowTileCount(row[1..])
  }

  /** The number of cells of a grid whose code instantiates a tile. */
  function TileCount(rows: Rows): nat {
    if rows == [] then 0 else RowTileCount(rows[0]) + TileCount(rows[1..])
  }

  lemma {:induction false} SpawnsAppend(a: seq<Emission>, b: seq<Emission>)
    ensures Spawns(a + b) == Spawns(a) + Spawns(b)
    decreases |b|
  {
    if b == [] {
      assert a + b == a;
    } else {
      var n := |b|;
      SpawnsAppend(a, b[..n - 1]);
      assert (a + b)[..|a + b| - 1] == a + b[..n - 1];
      assert (a + b)[|a + b| - 1] == b[n - 1];
    }
  }

  lemma {:induction false} RowTileCountSnoc(row: seq<Byte>, c: Byte)
    ensures RowTileCount(row + [c]) == RowTileCount(row) + (if Spawnable(c) then 1 else 0)
  {
    if row != [] {
      assert (row + [c])[1..] == row[1..] + [c];
      RowTileCountSnoc(row[1..], c);
    }
  }

  lemma {:induction false} RowSpawnCount(row: seq<Byte>, w: nat, y: int, k: nat)
    requires k <= |row|
    ensures |Spawns(RowEmissions(row, w, y, k))| == RowTileCount(row[..k])
  {
    if k > 0 {
      RowSpawnCount(row, w, y, k - 1);
      var es := RowEmissions(row, w, y, k);
      assert es[..k - 1] == RowEmissions(row, w, y, k - 1);
      assert row[..k] == row[..k - 1] + [row[k - 1]];
      RowTileCountSnoc(row[..k - 1], row[k - 1]);
    }
  }

  lemma {:induction false} TileCountSnoc(rows: Rows, row: seq<Byte>)
    ensures TileCount(rows + [row]) == TileCount(rows) + RowTileCount(row)
  {
    if rows != [] {
      assert (rows + [row])[1..] == rows[1..] + [row];
      TileCountSnoc(rows[1..], row);
    }
  }

  /** Stitching a grid instantiates one tile per cell holding a code 1..10, and no more. */
  lemma {:induction false} SpawnCount(rows: Rows, w: nat, startY: int)
    requires Rectangular(rows, w)
    ensures |Spawns(Emissions(rows, w, startY))| == TileCount(rows)
  {
    if rows != [] {
      var n := |rows|;
      var prefix, last := rows[..n - 1], rows[n - 1];
      var early, final := Emissions(prefix, w, startY), RowEmissions(last, w, startY + n - 1, w);
      assert Emissions(rows, w, startY) == early + final;
      SpawnsAppend(early, final);
      SpawnCount(prefix, w, startY);
      LastRowSpawnCount(last, w, startY + n - 1);
      LastRowTiles(rows);
    }
  }

  lemma LastRowSpawnCount(row: seq<Byte>, w: nat, y: int)
    requires |row| == w
    ensures |Spawns(RowEmissions(row, w, y, w))| == RowTileCount(row)
  {
    RowSpawnCount(row, w, y, w);
    assert row[..w] == row;
  }

  lemma LastRowTiles(rows: Rows)
    requires rows != []
    ensures TileCount(rows) == TileCount(rows[..|rows| - 1]) + RowTileCount(rows[|rows| - 1])
  {
    var n := |rows|;
    assert rows == rows[..n - 1] + [rows[n - 1]];
    TileCountSnoc(rows[..n - 1], rows[n - 1]);
  }
}
