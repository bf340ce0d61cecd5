/** Which rows `Draw` shows. */
module Viewport {
  import opened Sequences
  import opened Cells

  const FONT_HEIGHT: nat := 40

  /** Rows scrolled back after the limit that keeps one line on the screen. */
  function ScrollRows(history: nat, lines: nat, offset: real): (n: nat)
    requires offset >= 0.0 && lines >= 1
    ensures n <= history + lines - 1
  {
    var wanted := (offset / FONT_HEIGHT as real).Floor;
    if history + lines - 1 - wanted < 0 then history + lines - 1 else wanted
  }

  /** The part of scrollback and screen that `lines` lines show when scrolled back by `n` rows. */
  function Window<T>(history: seq<T>, grid: seq<T>, lines: nat, n: nat): seq<T>
    requires n <= |history| + lines - 1
  {
    var all := history + grid;
    var first := |history| - n;
    all[Max(first, 0)..Max(Max(first, 0), Min(first + lines, |all|))]
  }

  /** Brings a very large offset back into range. */
  method LimitOffset(history: nat, lines: nat, offset: real) returns (newOffset: real, scrollRows: int)
    requires offset >= 0.0
    ensures lines >= 1 ==>
              && scrollRows == ScrollRows(history, lines, offset)
              && newOffset >= 0.0 && ScrollRows(history, lines, newOffset) == scrollRows
  {
    newOffset := offset;
    scrollRows := (newOffset / FONT_HEIGHT as real).Floor;
    if history + lines - 1 - scrollRows < 0 {
      newOffset := ((history + lines - 1) * FONT_HEIGHT) as real;
      scrollRows := (newOffset / FONT_HEIGHT as real).Floor;
      if lines >= 1 {
        FloorOfMultiple(history + lines - 1);
      }
    }
  }

  /**
   * The row loop of `Draw`: picks a row of the screen or of the scrollback for every line and
   * skips lines that have none.
   */
  method VisibleRows(history: seq<Row>, grid: Grid, lines: nat, offset: real)
    returns (shown: seq<Row>, newOffset: real)
    requires offset >= 0.0
    ensures lines == 0 ==> shown == []
    ensures lines >= 1 ==>
              && shown == Window(history, grid, lines, ScrollRows(|history|, lines, offset))
              && (grid != [] ==> shown != [])
              && newOffset >= 0.0
              && ScrollRows(|history|, lines, newOffset) == ScrollRows(|history|, lines, offset)
  {
    hide ScrollRows;
    var scrollRows: int;
    newOffset, scrollRows := LimitOffset(|history|, lines, offset);
    shown := [];
    ghost var all := history + grid;
    ghost var first := |history| - scrollRows;
    var i := 0;
    while i < lines
      invariant 0 <= i <= lines
      invariant lines == 0 ==> shown == []
      invariant lines >= 1 ==> 0 <= scrollRows <= |history| + lines - 1
      invariant lines >= 1 ==> shown == all[Max(first, 0)..Max(Max(first, 0), Min(first + i, |all|))]
    {
      var iRow := i - scrollRows;
      if iRow >= 0 && iRow < |grid| {
        assert all[first + i] == grid[iRow];
        shown := shown + [grid[iRow]];
      } else if iRow < 0 && |history| + iRow >= 0 {
        assert all[first + i] == history[|history| + iRow];
        shown := shown + [history[|history| + iRow]];
      }
      i := i + 1;
    }
  }

  lemma FloorOfMultiple(n: nat)
    ensures ((n * FONT_HEIGHT) as real / FONT_HEIGHT as real).Floor == n
  {
    assert (n * FONT_HEIGHT) as real == n as real * FONT_HEIGHT as real;
  }

  /** Line `i` shows screen row i - n, or the row of the scrollback that stands that far before the screen. */
  lemma LineShows<T>(history: seq<T>, grid: seq<T>, lines: nat, n: nat, i: nat)
    requires n <= |history| + lines - 1 && i < lines && 0 <= |history| + i - n < |history| + |grid|
    ensures var k := i - Max(0, n - |history|);
            && 0 <= k < |Window(history, grid, lines, n)|
            && Window(history, grid, lines, n)[k] == if i >= n then grid[i - n] else history[|history| + i - n]
  {
  }

  /** Not scrolled, the window is the screen. */
  lemma AtRest<T>(history: seq<T>, grid: seq<T>, offset: real)
    requires 0.0 <= offset < FONT_HEIGHT as real && grid != []
    ensures Window(history, grid, |grid|, ScrollRows(|history|, |grid|, offset)) == grid
  {
    QuotientBelow(offset);
  }

  lemma QuotientBelow(offset: real)
    requires 0.0 <= offset < FONT_HEIGHT as real
    ensures (offset / FONT_HEIGHT as real).Floor == 0
  {
  }

  /** Each line height of offset scrolls by one row, up to the limit. */
  lemma OneRowFurther(history: nat, lines: nat, offset: real)
    requires offset >= 0.0 && lines >= 1
    ensures ScrollRows(history, lines, offset + FONT_HEIGHT as real)
         == Min(ScrollRows(history, lines, offset) + 1, history + lines - 1)
  {
    var q := offset / FONT_HEIGHT as real;
    assert (offset + FONT_HEIGHT as real) / FONT_HEIGHT as real == q + 1.0;
    assert (q + 1.0).Floor == q.Floor + 1;
  }
}
