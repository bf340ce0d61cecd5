/** Resizing and tabulation. */
module Sizes {
  import opened Sequences
  import opened Cells
  import opened Display

  /** Cell for cell, the rectangle common to both sizes survives a resize. */
  lemma ResizeKeepsCommon(s: Screen, rows: nat, cols: nat, i: nat, j: nat)
    requires ScreenOk(s) && i < rows && j < cols && i < s.rows && j < s.cols
    ensures s.grid[i] != [] && Resize(s, rows, cols).grid[i] != []
    ensures |s.grid[i]| == s.cols && |Resize(s, rows, cols).grid[i]| == cols
    ensures Resize(s, rows, cols).grid[i][j] == s.grid[i][j]
    ensures j < |s.tabs| && Resize(s, rows, cols).tabs[j] == s.tabs[j]
  {
    assert RowOk(s.grid[i], s.cols);
    assert Resize(s, rows, cols).grid[i] == Resized(s.grid[i], cols, BLANK);
  }

  /**
   * New cells are blank, new tab stops stand every eight columns from the old width, the margins are those of the
   * whole screen, the cursor is brought back onto it, and nothing else changes.
   */
  lemma ResizeFills(s: Screen, rows: nat, cols: nat)
    requires ScreenOk(s) && Side(rows) && Side(cols)
    ensures var t := Resize(s, rows, cols);
            && t == s.(rows := rows, cols := cols, top := 0, bottom := rows - 1, grid := t.grid, tabs := t.tabs,
                       row := if s.row < rows then s.row else rows - 1, col := if s.col < cols then s.col else cols - 1)
            && |t.grid| == rows && |t.tabs| == cols
            && (forall i, j :: 0 <= i < rows && 0 <= j < cols ==>
                  |t.grid[i]| == cols && (i >= s.rows || j >= s.cols ==> t.grid[i][j] == BLANK))
            && (forall j :: s.cols <= j < cols ==> t.tabs[j] == ((j - s.cols) % 8 == 0))
  {
    var t := Resize(s, rows, cols);
    forall i, j | 0 <= i < rows && 0 <= j < cols
      ensures |t.grid[i]| == cols && (i >= s.rows || j >= s.cols ==> t.grid[i][j] == BLANK)
    {
      assert i < s.rows ==> RowOk(s.grid[i], s.cols);
      assert t.grid[i] == Resized(if i < s.rows then s.grid[i] else [], cols, BLANK);
    }
  }

  /** A new terminal is blank, with the cursor in the corner and a tab stop every eight columns. */
  lemma NewIsBlank(online: bool, rows: nat, cols: nat)
    requires Side(rows) && Side(cols)
    ensures var t := Resize(NewScreen(online), rows, cols);
            && t.row == t.col == 0 && t.top == 0 && t.bottom == rows - 1 && t.wrap && t.showCursor
            && !t.insert && !t.origin && !t.reverse && t.style == DEFAULT_STYLE
            && t.grid == Rep(BlankRow(cols), rows)
            && |t.tabs| == cols && forall j :: 0 <= j < cols ==> t.tabs[j] == (j % 8 == 0)
  {
    var t := Resize(NewScreen(online), rows, cols);
    forall i | 0 <= i < rows ensures t.grid[i] == BlankRow(cols) {
      assert t.grid[i] == Resized([], cols, BLANK);
    }
    assert t.grid == Rep(BlankRow(cols), rows);
  }

  /** Growing and shrinking back restores grid and tab stops, whatever the sizes in between. */
  lemma GrowShrinkRestores(s: Screen, rows: nat, cols: nat)
    requires ScreenOk(s) && rows >= s.rows && cols >= s.cols
    ensures var t := Resize(Resize(s, rows, cols), s.rows, s.cols);
            t.grid == s.grid && t.tabs == s.tabs
  {
    var u := Resize(s, rows, cols);
    var t := Resize(u, s.rows, s.cols);
    forall i | 0 <= i < s.rows ensures t.grid[i] == s.grid[i] {
      assert RowOk(s.grid[i], s.cols);
      assert u.grid[i] == Resized(s.grid[i], cols, BLANK);
      assert t.grid[i] == Resized(u.grid[i], s.cols, BLANK);
    }
  }

  /** Column `c` is the least tab stop right of `col`, or the last column when there is none. */
  predicate TabTarget(s: Screen, c: int)
    requires |s.tabs| == s.cols && 0 <= s.col < s.cols
  {
    || (s.col < c < s.cols && s.tabs[c] && forall j :: s.col < j < c ==> !s.tabs[j])
    || (c == s.cols - 1 && forall j :: s.col < j < s.cols ==> !s.tabs[j])
  }

  lemma TabLandsOnStop(s: Screen)
    requires ScreenOk(s) && s.col < s.cols
    ensures TabTarget(s, Tab(s).col)
    ensures !s.origin ==> Tab(s) == s.(col := Tab(s).col)
  {
  }

  /** From past the last column HT returns to the last column. */
  lemma TabFromFullRow(s: Screen)
    requires ScreenOk(s) && s.col == s.cols
    ensures Tab(s).col == s.cols - 1
  {
  }
}
