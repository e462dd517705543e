/**
 * What each generation strategy of a maze section writes into one cell,
 * stated on values. The class MazeSection (sections.dfy) performs these
 * writes in place and is proved against the functions here.
 */
module Layout {
  import opened Wrappers
  import opened Tiles

  /** The chance of a random wall (the field wallChance, 0.2f, read as an exact rational). */
  const WallChance: real := 0.2

  /** Column 0 and column w - 1 are the enclosing side walls. */
  predicate SideColumn(w: int, x: int) {
    x == 0 || x == w - 1
  }

  /** A cell of the Empty strategy: zero-filled, then walled on both sides. */
  function EmptyCell(w: int, x: int): Byte {
    if SideColumn(w, x) then 1 else 0
  }

  /** GenerateRandom on one cell: a draw below the wall chance writes a wall,
      any other draw leaves the cell alone. */
  function RandomWallCell(cell: Byte, sample: real): Byte {
    if sample < WallChance then 1 else cell
  }

  /** A cell of the RNDNormal strategy: the Empty layout, then one random draw. */
  function NormalCell(w: int, x: int, sample: real): (r: Byte)
    ensures r == 0 || r == 1
    ensures SideColumn(w, x) ==> r == 1
    ensures r == 1 <==> SideColumn(w, x) || sample < WallChance
  {
    RandomWallCell(EmptyCell(w, x), sample)
  }

  /** A cell of the RNDColumn strategy: the two side columns and every
      picked column are walls, the rest is empty. */
  function ColumnCell(w: int, x: int, picks: seq<Byte>): Byte {
    if SideColumn(w, x) || x in picks then 1 else 0
  }

  /**
   * The powerup table read by percentile: a sample whose hundredfold floor
   * is p gives the code below, or None when the cell keeps its value. The
   * percentile 95 is a deliberate gap.
   */
  function PercentileBand(p: int): Option<Byte> {
    if 90 <= p <= 94 then Some(p - 88)
    else if 96 <= p <= 98 then Some(p - 89)
    else if 99 <= p then Some(10)
    else None
  }

  /** Populate on one cell: the chain of left-closed, right-open bands. It
      only ever writes a powerup code 2..10, and leaves the cell alone below
      0.90 and in the gap [0.95, 0.96). */
  function PopulateCell(cell: Byte, sample: real): (r: Byte)
    ensures PercentileBand((100.0 * sample).Floor).Some? ==> r == PercentileBand((100.0 * sample).Floor).value
    ensures PercentileBand((100.0 * sample).Floor).None? ==> r == cell
    ensures r == cell || 2 <= r <= 10
    ensures sample < 0.90 || (0.95 <= sample < 0.96) ==> r == cell
  {
    if 0.90 <= sample && sample < 0.91 then 2
    else if 0.91 <= sample && sample < 0.92 then 3
    else if 0.92 <= sample && sample < 0.93 then 4
    else if 0.93 <= sample && sample < 0.94 then 5
    else if 0.94 <= sample && sample < 0.95 then 6
    else if 0.96 <= sample && sample < 0.97 then 7
    else if 0.97 <= sample && sample < 0.98 then 8
    else if 0.98 <= sample && sample < 0.99 then 9
    else if 0.99 <= sample then 10
    else cell
  }

  /** The interior columns (neither side wall) that RNDColumn turns into walls. */
  function ExtraWallColumns(w: int, picks: seq<Byte>): set<int> {
    set x | 0 < x < w - 1 && ColumnCell(w, x, picks) == 1
  }

  /** Distinct values of a sequence are no more than its length. */
  lemma {:induction false} DistinctPicksBound(picks: seq<Byte>)
    ensures |set p: int | p in picks| <= |picks|
  {
    if picks != [] {
      DistinctPicksBound(picks[1..]);
      assert picks == [picks[0]] + picks[1..];
      assert (set p: int | p in picks) == (set p: int | p in picks[1..]) + {picks[0] as int};
    }
  }

  /** RNDColumn adds at most as many interior wall columns as it draws picks. */
  lemma ExtraWallColumnsBound(w: int, picks: seq<Byte>)
    ensures |ExtraWallColumns(w, picks)| <= |picks|
  {
    var chosen := set p: int | p in picks;
    assert ExtraWallColumns(w, picks) <= chosen;
    DistinctPicksBound(picks);
    assert chosen == ExtraWallColumns(w, picks) + (chosen - ExtraWallColumns(w, picks));
  }

  /** The cell a generation strategy leaves before Populate runs: kind 0 is
      Empty, 1 is RNDNormal, 2 is RNDColumn; any other kind leaves the
      zero-initialised grid alone. */
  function LayoutCell(kind: int, w: int, x: int, y: nat, wallDraws: seq<seq<real>>, picks: seq<Byte>): Byte
    requires 0 <= x && (kind == 1 ==> y < |wallDraws| && x < |wallDraws[y]|)
  {
    if kind == 0 then EmptyCell(w, x)
    else if kind == 1 then NormalCell(w, x, wallDraws[y][x])
    else if kind == 2 then ColumnCell(w, x, picks)
    else 0
  }

  /** Unity's integer Random.Range(lo, hi) for lo <= hi, driven by an
      abstract draw k: one of the hi - lo values from lo up to but excluding
      hi, or lo itself when the range is empty (lo == hi). */
  function IntRange(lo: int, hi: int, k: nat): (r: int)
    requires lo <= hi
    ensures lo == hi ==> r == lo
    ensures lo < hi ==> lo <= r < hi
    ensures 0 <= k < hi - lo ==> r == lo + k
  {
    if lo == hi then lo else lo + k % (hi - lo)
  }

  /** The column SECTION_RNDColumn draws, as written: Random.Range(1, w - 2).
      From width 4 on, the interior column next to the right wall, w - 2, is
      never among them; at width 3 the range is empty and the draw is always
      column 1, which is then w - 2. */
  function ColumnDrawAsWritten(w: int, k: nat): (c: int)
    requires w >= 3
    ensures w >= 4 ==> 1 <= c <= w - 3
    ensures w == 3 ==> c == 1
  {
    IntRange(1, w - 2, k)
  }

  /** With width 5 the interior columns are 1, 2 and 3: as written, column 1
      is drawn and column 3 never is. */
  lemma RightInnerColumnNeverDrawn()
    ensures ColumnDrawAsWritten(5, 0) == 1
    ensures forall k: nat :: ColumnDrawAsWritten(5, k) != 3
  {
  }

  /** With width 3 the only interior column, 1 == w - 2, is a wall column
      after SECTION_RNDColumn (before Populate), whatever the column draws. */
  lemma NarrowSectionColumnAlwaysWall(draws: seq<nat>)
    requires |draws| >= 1
    ensures ColumnCell(3, 1, seq(|draws|, i requires 0 <= i < |draws| => ColumnDrawAsWritten(3, draws[i]) as Byte)) == 1
  {
    var picks := seq(|draws|, i requires 0 <= i < |draws| => ColumnDrawAsWritten(3, draws[i]) as Byte);
    assert picks[0] == 1;
  }

  /** The picks SECTION_RNDColumn makes with the draw as written leave the
      interior column next to the right wall open: in a section of width
      4..255 it is never a wall column, whatever the draws. */
  lemma RightInnerColumnOpen(w: int, draws: seq<nat>)
    requires 4 <= w < 256
    ensures ColumnCell(w, w - 2, seq(|draws|, i requires 0 <= i < |draws| => ColumnDrawAsWritten(w, draws[i]) as Byte)) == 0
  {
    var picks := seq(|draws|, i requires 0 <= i < |draws| => ColumnDrawAsWritten(w, draws[i]) as Byte);
    forall i | 0 <= i < |picks| ensures picks[i] != w - 2 {
      assert picks[i] == ColumnDrawAsWritten(w, draws[i]);
    }
  }

  /** The draw that covers every interior column: Random.Range(1, w - 1). */
  function ColumnDraw(w: int, k: nat): (c: int)
    requires w >= 3
    ensures 1 <= c <= w - 2
  {
    IntRange(1, w - 1, k)
  }

  /** Every interior column, the one next to the right wall included, is drawn by some draw. */
  lemma EveryInteriorColumnDrawable(w: int, c: int)
    requires w >= 3 && 1 <= c <= w - 2
    ensures exists k: nat :: ColumnDraw(w, k) == c
  {
    assert ColumnDraw(w, c - 1) == c;
  }

  /** The number of interior columns Populate visits: 1 .. w - 2. */
  function InteriorCount(w: int): nat {
    if w >= 2 then w - 2 else 0
  }

  /** A grid of random draws, outer entries each holding inner draws. */
  predicate DrawGrid(draws: seq<seq<real>>, outer: nat, inner: nat) {
    |draws| == outer && forall i | 0 <= i < outer :: |draws[i]| == inner
  }

  /** A cell of a finished generated section: the strategy's layout, then,
      on interior columns only, the powerup draw for that cell. */
  function SectionCell(kind: int, w: int, x: int, y: nat,
                       wallDraws: seq<seq<real>>, picks: seq<Byte>, powerupDraws: seq<seq<real>>): Byte
    requires 0 <= x < w && (kind == 1 ==> y < |wallDraws| && x < |wallDraws[y]|)
    requires 1 <= x < w - 1 ==> x - 1 < |powerupDraws| && y < |powerupDraws[x - 1]|
  {
    var cell := LayoutCell(kind, w, x, y, wallDraws, picks);
    if 1 <= x < w - 1 then PopulateCell(cell, powerupDraws[x - 1][y]) else cell
  }
}
