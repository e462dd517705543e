/**
 * The section blueprint text format: one line per grid row, lines
 * separated by '\n', one character per cell. A blueprint is accepted when
 * every line is as long as the first; each character c becomes the byte
 * (byte)(ascii(c) - 48), so the digits '0'..'9' give the codes 0..9.
 */
module Blueprint {
  import opened Wrappers
  import opened Tiles

  /** Grid rows as values: Rows[y][x] is the cell at column x of row y. */
  type Rows = seq<seq<Byte>>

  /** Every row of the grid holds exactly w cells. */
  predicate Rectangular(rows: Rows, w: nat) {
    forall y | 0 <= y < |rows| :: |rows[y]| == w
  }

  /** string.Split("\n"): the pieces between newlines, empty pieces kept, so
      there is always at least one. */
  function SplitLines(text: string): (lines: seq<string>)
    ensures |lines| >= 1
    ensures forall i | 0 <= i < |lines| :: '\n' !in lines[i]
  {
    if text == [] then [""]
    else
      var rest := SplitLines(text[1..]);
      if text[0] == '\n' then [""] + rest
      else [[text[0]] + rest[0]] + rest[1..]
  }

  /** The inverse of SplitLines: the lines joined with '\n' between them. */
  function JoinLines(lines: seq<string>): (text: string)
    requires |lines| >= 1
  {
    if |lines| == 1 then lines[0] else lines[0] + "\n" + JoinLines(lines[1..])
  }

  /** Splitting loses nothing: joining the pieces gives back the text. */
  lemma {:induction false} JoinSplit(text: string)
    ensures JoinLines(SplitLines(text)) == text
  {
    if text != [] {
      var rest := SplitLines(text[1..]);
      JoinSplit(text[1..]);
      if text[0] == '\n' {
        assert SplitLines(text) == [""] + rest;
        assert text == [text[0]] + text[1..];
      } else {
        var lines := SplitLines(text);
        assert lines == [[text[0]] + rest[0]] + rest[1..];
        if |rest| == 1 {
          assert text == [text[0]] + rest[0];
        } else {
          assert rest == [rest[0]] + rest[1..];
          assert lines[1..] == rest[1..];
          assert JoinLines(rest) == rest[0] + "\n" + JoinLines(rest[1..]);
          assert text == [text[0]] + text[1..];
        }
      }
    }
  }

  /** A line without a newline, followed by a newline, is split off whole. */
  lemma {:induction false} SplitAfterLine(line: string, tail: string)
    requires '\n' !in line
    ensures SplitLines(line + "\n" + tail) == [line] + SplitLines(tail)
    ensures SplitLines(line) == [line]
    decreases |line|
  {
    if line == [] {
      assert line + "\n" + tail == "\n" + tail;
      assert ("\n" + tail)[1..] == tail;
    } else {
      SplitAfterLine(line[1..], tail);
      assert (line + "\n" + tail)[1..] == line[1..] + "\n" + tail;
      assert [line[0]] + line[1..] == line;
    }
  }

  /** Joining loses nothing either: lines free of newlines are split back out. */
  lemma {:induction false} SplitJoin(lines: seq<string>)
    requires |lines| >= 1
    requires forall i | 0 <= i < |lines| :: '\n' !in lines[i]
    ensures SplitLines(JoinLines(lines)) == lines
  {
    if |lines| == 1 {
      SplitAfterLine(lines[0], "");
    } else {
      SplitJoin(lines[1..]);
      SplitAfterLine(lines[0], JoinLines(lines[1..]));
      assert lines == [lines[0]] + lines[1..];
    }
  }

  /** The validation of ReadTextFile: every line has the first line's length. */
  predicate UniformWidth(lines: seq<string>)
    requires |lines| >= 1
  {
    forall i | 0 <= i < |lines| :: |lines[i]| == |lines[0]|
  }

  /** Encoding.ASCII.GetBytes on one character: ASCII keeps its code, any
      other character is replaced by '?'. */
  function AsciiByte(c: char): (b: Byte)
    ensures b < 128
  {
    if c as int < 128 then c as int else '?' as int
  }

  /** The cell a blueprint character becomes: (byte)(ascii - 48), wrapping below '0'. */
  function CellCode(c: char): (code: Byte)
    ensures code <= 9 <==> '0' <= c <= '9'
    ensures '0' <= c <= '9' ==> code == c as int - '0' as int
  {
    (AsciiByte(c) - 48) % 256
  }

  /** The grid TranslateFile builds from validated lines: height is the line
      count, width the first line's length cast to a byte. */
  function Decode(lines: seq<string>): (rows: Rows)
    requires |lines| >= 1 && UniformWidth(lines)
    ensures |rows| == |lines| && Rectangular(rows, |lines[0]| % 256)
    ensures forall y, x | 0 <= y < |lines| && 0 <= x < |lines[0]| % 256 :: rows[y][x] == CellCode(lines[y][x])
  {
    var w := |lines[0]| % 256;
    seq(|lines|, y requires 0 <= y < |lines| =>
      seq(w, x requires 0 <= x < w => CellCode(lines[y][x])))
  }

  /** A blueprint read from text: None when the lines disagree in length. */
  function Parse(text: string): Option<Rows> {
    var lines := SplitLines(text);
    if UniformWidth(lines) then Some(Decode(lines)) else None
  }

  /** The digit character that encodes a code 0..9. */
  function DigitChar(code: Byte): (c: char)
    requires code <= 9
    ensures '0' <= c <= '9'
  {
    ('0' as int + code) as char
  }

  /** The blueprint text of a grid of codes 0..9. */
  function Render(rows: Rows): (text: string)
    requires |rows| >= 1
    requires forall y, x | 0 <= y < |rows| && 0 <= x < |rows[y]| :: rows[y][x] <= 9
  {
    JoinLines(seq(|rows|, y requires 0 <= y < |rows| =>
      seq(|rows[y]|, x requires 0 <= x < |rows[y]| => DigitChar(rows[y][x]))))
  }

  /** Every grid of digit codes, at least one row high and narrower than 256
      columns, survives a trip through the blueprint format. */
  lemma ParseRender(rows: Rows, w: nat)
    requires |rows| >= 1 && w < 256 && Rectangular(rows, w)
    requires forall y, x | 0 <= y < |rows| && 0 <= x < w :: rows[y][x] <= 9
    ensures Parse(Render(rows)) == Some(rows)
  {
    var lines := seq(|rows|, y requires 0 <= y < |rows| =>
      seq(|rows[y]|, x requires 0 <= x < |rows[y]| => DigitChar(rows[y][x])));
    forall i | 0 <= i < |lines| ensures '\n' !in lines[i] {
      assert forall x | 0 <= x < |lines[i]| :: '0' <= lines[i][x] <= '9';
    }
    SplitJoin(lines);
    assert SplitLines(Render(rows)) == lines;
    assert UniformWidth(lines);
    assert |lines[0]| % 256 == w;
    var back := Decode(lines);
    forall y | 0 <= y < |rows| ensures back[y] == rows[y] {
      assert forall x | 0 <= x < w :: back[y][x] == CellCode(DigitChar(rows[y][x])) == rows[y][x];
    }
    assert back == rows;
  }

  /** The reverse trip: uniform lines of digits, fewer than 256 per line,
      decode to codes 0..9, and rendering the decoded grid gives back the
      text the lines were split from. */
  lemma RenderDecode(lines: seq<string>)
    requires |lines| >= 1 && UniformWidth(lines) && |lines[0]| < 256
    requires forall y, x | 0 <= y < |lines| && 0 <= x < |lines[y]| :: '0' <= lines[y][x] <= '9'
    ensures forall y, x | 0 <= y < |lines| && 0 <= x < |lines[0]| :: Decode(lines)[y][x] <= 9
    ensures Render(Decode(lines)) == JoinLines(lines)
  {
    var rows := Decode(lines);
    var back := seq(|rows|, y requires 0 <= y < |rows| =>
      seq(|rows[y]|, x requires 0 <= x < |rows[y]| => DigitChar(rows[y][x])));
    forall y | 0 <= y < |lines| ensures back[y] == lines[y] {
      forall x | 0 <= x < |lines[y]| ensures back[y][x] == lines[y][x] {
        var c := lines[y][x];
        assert DigitChar(CellCode(c)) == c;
      }
    }
    assert back == lines;
  }

  /** A blueprint ending in a newline has an empty last line, and so is
      rejected. */
  lemma RejectsTrailingNewline()
    ensures Parse("11\n") == None
  {
    assert "11\n" == "11" + "\n" + "";
    SplitAfterLine("11", "");
    var lines := SplitLines("11\n");
    assert lines == ["11", ""];
    assert |lines[1]| != |lines[0]|;
  }

  /** A blueprint whose second line is longer than its first is rejected. */
  lemma RejectsRagged()
    ensures Parse("11\n111") == None
  {
    assert "11\n111" == "11" + "\n" + "111";
    SplitAfterLine("11", "111");
    SplitAfterLine("111", "");
    var lines := SplitLines("11\n111");
    assert lines == ["11", "111"];
    assert |lines[1]| != |lines[0]|;
  }
}
