/**
 * The grid loader and goal test of MazeSolver.c. A line read by getline
 * becomes a row of '.' (open, from '0') and '#' (blocked, from '1') cells;
 * every other character is skipped.
 */
module MazeSolver {
  import opened MazeQueue

  predicate IsCellChar(ch: char)
  {
    ch == '0' || ch == '1'
  }

  /** The number of '0'/'1' characters in a line. */
  function CellCount(line: string): (n: nat)
    ensures n <= |line|
  {
    if line == [] then 0
    else CellCount(line[..|line| - 1]) + (if IsCellChar(line[|line| - 1]) then 1 else 0)
  }

  /** The cell one input character contributes to its row. */
  function CellImage(ch: char): seq<char>
  {
    if ch == '0' then ['.'] else if ch == '1' then ['#'] else []
  }

  /** The row stored for a line: the images of its '0'/'1' characters, in order. */
  function TranslateLine(line: string): (row: seq<char>)
    ensures |row| == CellCount(line)
    ensures forall k :: 0 <= k < |row| ==> row[k] == '.' || row[k] == '#'
  {
    if line == [] then []
    else TranslateLine(line[..|line| - 1]) + CellImage(line[|line| - 1])
  }

  /** The '0'/'1' characters of a line, in order: what the row records. */
  function CellDigits(line: string): (digits: string)
    ensures forall k :: 0 <= k < |digits| ==> IsCellChar(digits[k])
  {
    if line == [] then []
    else if IsCellChar(line[0]) then [line[0]] + CellDigits(line[1..])
    else CellDigits(line[1..])
  }

  /** Reads a row back as the digits it was made from. */
  function Untranslate(row: seq<char>): (digits: string)
    ensures |digits| == |row|
  {
    if row == [] then []
    else [if row[0] == '.' then '0' else '1'] + Untranslate(row[1..])
  }

  lemma {:induction false} UntranslateAppend(a: seq<char>, b: seq<char>)
    ensures Untranslate(a + b) == Untranslate(a) + Untranslate(b)
    decreases |a|
  {
    if a != [] {
      assert (a + b)[0] == a[0] && (a + b)[1..] == a[1..] + b;
      UntranslateAppend(a[1..], b);
      var h := [if a[0] == '.' then '0' else '1'];
      calc {
        Untranslate(a + b);
        h + Untranslate(a[1..] + b);
        h + (Untranslate(a[1..]) + Untranslate(b));
        (h + Untranslate(a[1..])) + Untranslate(b);
      }
    } else {
      assert a + b == b;
    }
  }

  lemma {:induction false} CellDigitsAppend(a: string, b: string)
    ensures CellDigits(a + b) == CellDigits(a) + CellDigits(b)
    decreases |a|
  {
    if a != [] {
      assert (a + b)[0] == a[0] && (a + b)[1..] == a[1..] + b;
      CellDigitsAppend(a[1..], b);
      if IsCellChar(a[0]) {
        calc {
          CellDigits(a + b);
          [a[0]] + CellDigits(a[1..] + b);
          [a[0]] + (CellDigits(a[1..]) + CellDigits(b));
          ([a[0]] + CellDigits(a[1..])) + CellDigits(b);
        }
      }
    } else {
      assert a + b == b;
    }
  }

  /** The count of a line's cells is the number of characters its row records. */
  lemma {:induction false} CellCountIsDigitCount(line: string)
    ensures CellCount(line) == |CellDigits(line)|
    decreases |line|
  {
    if line != [] {
      var init, last := line[..|line| - 1], line[|line| - 1];
      assert line == init + [last];
      CellDigitsAppend(init, [last]);
      CellCountIsDigitCount(init);
    }
  }

  /** A row keeps every '0'/'1' of its line, in order: reading it back yields them. */
  lemma {:induction false} TranslateRoundTrip(line: string)
    ensures Untranslate(TranslateLine(line)) == CellDigits(line)
    decreases |line|
  {
    if line != [] {
      var init, last := line[..|line| - 1], line[|line| - 1];
      assert line == init + [last];
      assert TranslateLine(line) == TranslateLine(init) + CellImage(last);
      TranslateRoundTrip(init);
      UntranslateAppend(TranslateLine(init), CellImage(last));
      CellDigitsAppend(init, [last]);
      assert Untranslate(CellImage(last)) == CellDigits([last]);
    }
  }

  /** On a line of '0'/'1' characters only (no spaces, no newline), nothing is skipped. */
  lemma {:induction false} DigitsOfCellLine(line: string)
    requires forall k :: 0 <= k < |line| ==> IsCellChar(line[k])
    ensures CellDigits(line) == line
    ensures CellCount(line) == |line|
    decreases |line|
  {
    if line != [] {
      DigitsOfCellLine(line[1..]);
      DigitsOfCellLine(line[..|line| - 1]);
    }
  }

  /**
   * A line in the layout the header documents: the digits separated by
   * single spaces, ended by the newline getline keeps.
   */
  function SpacedLine(digits: string): (line: string)
    ensures |line| == if digits == [] then 1 else 2 * |digits|
  {
    if |digits| <= 1 then digits + ['\n'] else [digits[0], ' '] + SpacedLine(digits[1..])
  }

  /** The digits of a single-spaced line are exactly the digits it spaces out. */
  lemma {:induction false} SpacedLineDigits(digits: string)
    requires forall k :: 0 <= k < |digits| ==> IsCellChar(digits[k])
    ensures CellDigits(SpacedLine(digits)) == digits
    decreases |digits|
  {
    var line := SpacedLine(digits);
    if digits == [] {
      assert line == ['\n'];
      assert CellDigits(line) == CellDigits(line[1..]);
    } else if |digits| == 1 {
      assert line == [digits[0], '\n'];
      assert line[1..] == ['\n'];
      assert CellDigits(line) == [digits[0]] + CellDigits(line[1..]);
    } else {
      var rest := SpacedLine(digits[1..]);
      assert line == [digits[0], ' '] + rest;
      assert line[1..][1..] == rest;
      SpacedLineDigits(digits[1..]);
      assert CellDigits(line) == [digits[0]] + CellDigits(rest);
      assert digits == [digits[0]] + digits[1..];
    }
  }

  /** A single-spaced line yields one cell per digit, in order; spaces and the newline are skipped. */
  lemma SpacedLineCells(digits: string)
    requires forall k :: 0 <= k < |digits| ==> IsCellChar(digits[k])
    ensures CellCount(SpacedLine(digits)) == |digits|
    ensures Untranslate(TranslateLine(SpacedLine(digits))) == digits
  {
    SpacedLineDigits(digits);
    CellCountIsDigitCount(SpacedLine(digits));
    TranslateRoundTrip(SpacedLine(digits));
  }

  /** One more character of a line: its cell, if any, follows those of the prefix. */
  lemma PrefixStep(line: string, i: nat)
    requires i < |line|
    ensures CellCount(line[..i + 1]) == CellCount(line[..i]) + (if IsCellChar(line[i]) then 1 else 0)
    ensures TranslateLine(line[..i + 1]) == TranslateLine(line[..i]) + CellImage(line[i])
  {
    assert line[..i + 1][..i] == line[..i];
  }

  /** Prefixes never hold more cells than the whole line. */
  lemma {:induction false} CellCountPrefix(line: string, i: nat)
    requires i <= |line|
    ensures CellCount(line[..i]) <= CellCount(line)
    decreases |line| - i
  {
    if i < |line| {
      assert line[..i + 1][..i] == line[..i];
      CellCountPrefix(line, i + 1);
    } else {
      assert line[..i] == line;
    }
  }

  /**
   * The number of lines load_maze reads. A line is what getline returns, its
   * newline kept, so a blank line is "\n" and is read as a row with no cells;
   * the empty string stands for end of input, where getline yields -1.
   */
  function ReadCount(lines: seq<string>): (n: nat)
    ensures n <= |lines|
    ensures forall k :: 0 <= k < n ==> |lines[k]| > 0
    ensures n < |lines| ==> |lines[n]| == 0
  {
    if lines == [] || |lines[0]| == 0 then 0 else 1 + ReadCount(lines[1..])
  }

  /** The column count: the cells of the first line, 0 without one. */
  function FirstWidth(lines: seq<string>): nat
  {
    if lines == [] then 0 else CellCount(lines[0])
  }

  /** The input format the program documents: every line holds the same number of cells. */
  predicate SameWidth(lines: seq<string>)
  {
    forall k :: 0 <= k < ReadCount(lines) ==> CellCount(lines[k]) == FirstWidth(lines)
  }

  /** No line read holds more cells than the first: each fits a row buffer of FirstWidth cells. */
  predicate FitsFirstLine(lines: seq<string>)
  {
    forall k :: 0 <= k < ReadCount(lines) ==> CellCount(lines[k]) <= FirstWidth(lines)
  }

  /** A non-empty line at or below the count is read, and it fits the row buffer. */
  lemma NextLineFits(lines: seq<string>, i: nat)
    requires FitsFirstLine(lines)
    requires i <= ReadCount(lines) && i < |lines| && |lines[i]| > 0
    ensures i < ReadCount(lines) && CellCount(lines[i]) <= FirstWidth(lines)
  {
  }

  /** Reading stops exactly at the count: past the last line or at end of input. */
  lemma ReadCountEnds(lines: seq<string>, i: nat)
    requires i <= ReadCount(lines) && (i < |lines| ==> |lines[i]| == 0)
    ensures i == ReadCount(lines)
  {
  }

  /** Every row buffer holds `width` cells. */
  predicate AllWidth(rows: seq<array<char>>, width: int)
  {
    forall k :: 0 <= k < |rows| ==> rows[k].Length == width
  }

  /** No two rows share a buffer. */
  predicate DistinctRows(rows: seq<array<char>>)
  {
    forall k, l :: 0 <= k < l < |rows| ==> rows[k] != rows[l]
  }

  /** Every row buffer is one of `made`. */
  predicate RowsIn(rows: seq<array<char>>, made: set<array<char>>)
  {
    forall k :: 0 <= k < |rows| ==> rows[k] in made
  }

  /** Each row buffer holds, in its first CellCount(line) slots, the translation of its line. */
  ghost predicate RowsHold(rows: seq<array<char>>, lines: seq<string>)
    reads rows
  {
    |rows| <= |lines| &&
    forall k :: 0 <= k < |rows| ==>
      CellCount(lines[k]) <= rows[k].Length && rows[k][..CellCount(lines[k])] == TranslateLine(lines[k])
  }

  /**
   * The rows loaded so far from `lines`: distinct buffers of `width` cells,
   * all among `made`, each holding its line's translation.
   */
  ghost predicate LoadedRows(rows: seq<array<char>>, lines: seq<string>, width: int, made: set<array<char>>)
    reads rows
  {
    RowsHold(rows, lines) && AllWidth(rows, width) && DistinctRows(rows) && RowsIn(rows, made)
  }

  /** One more row buffer, holding the translation of the next line. */
  lemma ExtendRows(rows: seq<array<char>>, row: array<char>, lines: seq<string>, width: int, made: set<array<char>>)
    requires LoadedRows(rows, lines, width, made) && |rows| < |lines|
    requires row.Length == width && CellCount(lines[|rows|]) <= width
    requires row[..CellCount(lines[|rows|])] == TranslateLine(lines[|rows|])
    requires row !in made
    ensures LoadedRows(rows + [row], lines, width, made + {row})
  {
  }

  /**
   * When every line read holds as many cells as the first (the documented
   * input format), every row buffer is filled completely: the grid is
   * rectangular with no unset cells.
   */
  lemma UniformRowsAreFull(rows: seq<array<char>>, lines: seq<string>)
    requires RowsHold(rows, lines) && SameWidth(lines) && |rows| == ReadCount(lines)
    requires AllWidth(rows, FirstWidth(lines))
    ensures forall k :: 0 <= k < |rows| ==> rows[k][..] == TranslateLine(lines[k])
    ensures forall k :: 0 <= k < |rows| ==> |TranslateLine(lines[k])| == FirstWidth(lines)
  {
  }

  /** struct maze_s; the row table is a sequence of row buffers. */
  class Maze {
    var maze: seq<array<char>>
    var queue: Queue
    var maxC: int
    var maxR: int

    ghost predicate Valid()
      reads this
    {
      maxR == |maze| && 0 <= maxC && AllWidth(maze, maxC)
    }

    /**
     * Create_Maze: an empty maze with a fresh frontier queue, loaded from
     * `lines`. The row and column counts start at 0.
     */
    constructor Create(lines: seq<string>)
      requires FitsFirstLine(lines)
      ensures Valid() && fresh(queue) && queue.Valid() && queue.Entries() == []
      ensures maxC == FirstWidth(lines) && maxR == ReadCount(lines)
      ensures RowsHold(maze, lines) && DistinctRows(maze)
      ensures forall k :: 0 <= k < |maze| ==> fresh(maze[k])
    {
      maze := [];
      queue := new Queue();
      maxC := 0;
      maxR := 0;
      new;
      LoadMaze(lines);
    }

    /**
     * load_maze. The first line fixes maxC; each line read, up to end of
     * input, becomes a freshly allocated row buffer whose first
     * CellCount(line) cells are its translation. The C allocates
     * maxC * sizeof(char *) bytes per row; this model gives each row maxC
     * cells and so asks, more strictly than the C, that no line hold more
     * cells than the first.
     */
    method LoadMaze(lines: seq<string>)
      requires maxC == 0 && maxR == 0 && maze == []
      requires FitsFirstLine(lines)
      modifies this
      ensures Valid() && queue == old(queue)
      ensures maxC == FirstWidth(lines) && maxR == ReadCount(lines)
      ensures RowsHold(maze, lines) && DistinctRows(maze)
      ensures forall k :: 0 <= k < |maze| ==> fresh(maze[k])
    {
      var lineSize := if 0 < |lines| then |lines[0]| else 0;
      if lineSize > 0 {
        maxC := CountCells(lines[0]);
      }
      var rows := ReadRows(lines, maxC);
      maze := rows;
      maxR := |rows|;
    }
  }

  /**
   * The second loop of load_maze: one freshly allocated row buffer of
   * `width` cells per line, up to end of input, each starting with its
   * line's translation. The row count maxR is the loop counter.
   */
  method ReadRows(lines: seq<string>, width: nat) returns (rows: seq<array<char>>)
    requires width == FirstWidth(lines) && FitsFirstLine(lines)
    ensures |rows| == ReadCount(lines)
    ensures RowsHold(rows, lines) && AllWidth(rows, width) && DistinctRows(rows)
    ensures forall k :: 0 <= k < |rows| ==> fresh(rows[k])
  {
    ghost var made: set<array<char>> := {};
    rows := [];
    var lineIndex := 0;
    var lineSize := if lineIndex < |lines| then |lines[lineIndex]| else 0;
    while lineSize > 0
      invariant lineIndex == |rows| <= ReadCount(lines)
      invariant lineSize == if lineIndex < |lines| then |lines[lineIndex]| else 0
      invariant LoadedRows(rows, lines, width, made) && fresh(made)
      decreases |lines| - lineIndex
    {
      NextLineFits(lines, lineIndex);
      var row := LoadRow(lines[lineIndex], width);
      ExtendRows(rows, row, lines, width, made);
      rows := rows + [row];
      made := made + {row};
      lineIndex := lineIndex + 1;
      lineSize := if lineIndex < |lines| then |lines[lineIndex]| else 0;
    }
    ReadCountEnds(lines, lineIndex);
  }

  /** The first loop of load_maze: counts the '0'/'1' characters of the first line. */
  method CountCells(line: string) returns (n: nat)
    ensures n == CellCount(line)
  {
    n := 0;
    var i := 0;
    while i < |line|
      invariant 0 <= i <= |line|
      invariant n == CellCount(line[..i])
    {
      assert line[..i + 1][..i] == line[..i];
      if line[i] == '0' || line[i] == '1' {
        n := n + 1;
      }
      i := i + 1;
    }
    assert line[..i] == line;
  }

  /**
   * The inner loop of load_maze: a buffer of `width` cells whose first
   * CellCount(buffer) slots receive the line's translation, j being the
   * next slot to write.
   */
  method LoadRow(buffer: string, width: nat) returns (row: array<char>)
    requires CellCount(buffer) <= width
    ensures fresh(row) && row.Length == width
    ensures row[..CellCount(buffer)] == TranslateLine(buffer)
  {
    row := new char[width];
    var j := 0;
    var i := 0;
    while i < |buffer|
      invariant 0 <= i <= |buffer|
      invariant j == CellCount(buffer[..i]) && j <= width
      invariant row[..j] == TranslateLine(buffer[..i])
    {
      PrefixStep(buffer, i);
      CellCountPrefix(buffer, i + 1);
      if buffer[i] == '0' {
        row[j] := '.';
        j := j + 1;
      }
      if buffer[i] == '1' {
        row[j] := '#';
        j := j + 1;
      }
      i := i + 1;
    }
    assert buffer[..i] == buffer;
  }

  /**
   * Node_Is_Solution, as written: the node's coordinates equal the row and
   * column counts, so a node that passes lies outside the grid.
   */
  predicate NodeIsSolution(m: Maze, node: MazeNode): (solved: bool)
    reads m
    ensures solved ==> !(node.currentR < m.maxR && node.currentC < m.maxC)
  {
    m.maxC == node.currentC && m.maxR == node.currentR
  }

  /** As written, no cell of a loaded row buffer, the bottom-right one included, passes the goal test. */
  lemma NoGridCellIsSolution(m: Maze, node: MazeNode)
    requires m.Valid() && node.currentR < |m.maze| && node.currentC < m.maze[node.currentR].Length
    ensures !NodeIsSolution(m, node)
  {
  }

  /**
   * The maze loaded from the single line "0\n": one open cell, which is both
   * start and goal, yet the test rejects it.
   */
  lemma SingleCellGoalRejected(m: Maze)
    requires m.Valid() && RowsHold(m.maze, ["0\n"])
    requires m.maxC == FirstWidth(["0\n"]) && m.maxR == ReadCount(["0\n"])
    ensures m.maxR == 1 && m.maxC == 1 && m.maze[0][..] == ['.']
    ensures !NodeIsSolution(m, MazeNode(0, 0, -1, -1))
  {
    assert ReadCount(["0\n"]) == 1 by {
      assert ["0\n"][1..] == [];
    }
    assert CellCount("0\n") == 1 by {
      assert "0\n"[..1] == "0";
      assert "0"[..0] == "";
    }
    assert TranslateLine("0\n") == ['.'] by {
      assert "0\n"[..1] == "0";
      assert "0"[..0] == "";
    }
    assert m.maze[0][..] == m.maze[0][..CellCount("0\n")];
  }

  /** The goal test the documented format calls for: the bottom-right cell. */
  predicate IsGoalCell(m: Maze, node: MazeNode)
    reads m
  {
    node.currentR == m.maxR - 1 && node.currentC == m.maxC - 1
  }

  /**
   * In a loaded, non-empty maze the corrected test names a cell of the row
   * buffers, the last cell of the last row, and no other coordinates.
   */
  lemma GoalCellIsBottomRight(m: Maze, node: MazeNode, other: MazeNode)
    requires m.Valid() && 0 < m.maxR && 0 < m.maxC
    ensures m.maxR - 1 < |m.maze| && m.maxC - 1 < m.maze[m.maxR - 1].Length
    ensures IsGoalCell(m, node) ==> node.currentR < |m.maze| && node.currentC < m.maze[node.currentR].Length
    ensures IsGoalCell(m, node) && IsGoalCell(m, other) ==>
      node.currentR == other.currentR && node.currentC == other.currentC
  {
  }

  /** In the maze loaded from "0\n", the corrected test accepts the only cell, (0, 0). */
  lemma SingleCellGoalAccepted(m: Maze)
    requires m.Valid() && RowsHold(m.maze, ["0\n"])
    requires m.maxC == FirstWidth(["0\n"]) && m.maxR == ReadCount(["0\n"])
    ensures IsGoalCell(m, MazeNode(0, 0, -1, -1))
  {
    SingleCellGoalRejected(m);
  }
}
