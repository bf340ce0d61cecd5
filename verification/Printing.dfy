/** What is printed is what is stored: scrollback and screen laid end to end. */
module Printing {
  import opened Sequences
  import opened Text
  import opened Cells
  import opened Display
  import opened Parser
  import Utf8

  // ------------------------------------------------------------- rows laid end to end

  predicate AllOf(rows: Grid, cols: nat) {
    forall i :: 0 <= i < |rows| ==> |rows[i]| == cols
  }

  lemma {:induction false} FlattenLength(rows: Grid, cols: nat)
    requires AllOf(rows, cols)
    ensures |Flatten(rows)| == |rows| * cols
  {
    if rows != [] {
      FlattenLength(rows[1..], cols);
    }
  }

  lemma OneMore(n: nat, cols: nat)
    ensures (n + 1) * cols == n * cols + cols
  {
  }

  lemma UpdateJoined<T>(a: seq<T>, b: seq<T>, k: nat, x: T)
    requires k < |a| + |b|
    ensures (a + b)[k := x] == if k < |a| then a[k := x] + b else a + b[k - |a| := x]
  {
  }

  /** Writing one cell of a row writes one cell of the flattened rows. */
  lemma {:induction false} FlattenUpdate(rows: Grid, cols: nat, i: nat, j: nat, x: Cell)
    requires AllOf(rows, cols) && i < |rows| && j < cols
    ensures i * cols + j < |Flatten(rows)|
    ensures Flatten(rows[i := rows[i][j := x]]) == Flatten(rows)[i * cols + j := x]
  {
    var u, rest := rows[i := rows[i][j := x]], rows[1..];
    FlattenLength(rest, cols);
    if i == 0 {
      assert u[1..] == rest;
      UpdateJoined(rows[0], Flatten(rest), j, x);
    } else {
      assert u[0] == rows[0] && u[1..] == rest[i - 1 := rest[i - 1][j := x]];
      FlattenUpdate(rest, cols, i - 1, j, x);
      OneMore(i - 1, cols);
      UpdateJoined(rows[0], Flatten(rest), i * cols + j, x);
    }
  }

  lemma {:induction false} FlattenBlank(n: nat, cols: nat)
    ensures Flatten(Rep(BlankRow(cols), n)) == Rep(BLANK, n * cols)
  {
    if n > 0 {
      FlattenBlank(n - 1, cols);
      assert Rep(BlankRow(cols), n)[1..] == Rep(BlankRow(cols), n - 1);
      assert n * cols == cols + (n - 1) * cols;
      assert Rep(BLANK, cols) + Rep(BLANK, (n - 1) * cols) == Rep(BLANK, n * cols);
    }
  }

  // ------------------------------------------------------------------------ printing

  /** All rows ever shown, oldest first. */
  function Transcript(s: Screen): Grid { s.scrolled + s.grid }

  /** A screen with autowrap and full-height margins on which exactly `cells` were printed. */
  predicate Printed(s: Screen, cells: seq<Cell>) {
    && ScreenOk(s) && s.wrap && s.top == 0 && s.bottom == s.rows - 1
    && AllOf(Transcript(s), s.cols)
    && |s.scrolled| * s.cols + s.row * s.cols + s.col == |cells|
    && |cells| <= |Flatten(Transcript(s))|
    && Flatten(Transcript(s)) == cells + Rep(BLANK, |Flatten(Transcript(s))| - |cells|)
  }

  /** Scrolling the full screen appends one blank row to the transcript. */
  lemma DropTranscript(s: Screen)
    requires ScreenOk(s) && s.top == 0 && s.row == s.bottom == s.rows - 1
    ensures Transcript(Drop(s.(row := s.row + 1, col := 0))) == Transcript(s) + [BlankRow(s.cols)]
  {
    assert EraseInsert(s.grid, 0, s.bottom, s.cols) == s.grid[1..] + [BlankRow(s.cols)];
  }

  lemma BlankTail(all: seq<Cell>, cells: seq<Cell>, cols: nat)
    requires |cells| <= |all| && all == cells + Rep(BLANK, |all| - |cells|)
    ensures all + Rep(BLANK, cols) == cells + Rep(BLANK, |all| + cols - |cells|)
  {
  }

  /** Wrapping at or before the end of a row prints blanks up to it. */
  lemma WrapPrinted(s: Screen, cells: seq<Cell>)
    requires Printed(s, cells) && s.cols - 1 <= s.col
    ensures Printed(Drop(s.(row := s.row + 1, col := 0)), cells + Rep(BLANK, s.cols - s.col))
  {
    var all := Flatten(Transcript(s));
    PrintedEnds(s, cells);
    var n := s.cols - s.col;
    assert Rep(BLANK, |all| - |cells|) == Rep(BLANK, n) + Rep(BLANK, |all| - |cells| - n);
    assert all == cells + Rep(BLANK, n) + Rep(BLANK, |all| - |cells| - n);
    NextRowPrinted(s, cells + Rep(BLANK, n));
  }

  /** The row of the cursor is part of the transcript to its end. */
  lemma PrintedEnds(s: Screen, cells: seq<Cell>)
    requires Printed(s, cells)
    ensures |cells| - s.col + s.cols <= |Flatten(Transcript(s))|
  {
    hide Flatten;
    FlattenLength(Transcript(s), s.cols);
    RowsEnd(|s.scrolled|, s.row, s.rows, s.cols);
  }

  lemma RowsEnd(above: nat, row: nat, rows: nat, cols: nat)
    requires row < rows
    ensures above * cols + row * cols + cols <= (above + rows) * cols
  {
    assert (above + rows) * cols == above * cols + rows * cols;
    assert rows * cols == row * cols + (rows - row) * cols;
    assert (rows - row) * cols == cols + (rows - row - 1) * cols;
  }

  lemma NextRowPrinted(s: Screen, cells: seq<Cell>)
    requires ScreenOk(s) && s.wrap && s.top == 0 && s.bottom == s.rows - 1
    requires AllOf(Transcript(s), s.cols)
    requires |s.scrolled| * s.cols + s.row * s.cols + s.cols == |cells|
    requires |cells| <= |Flatten(Transcript(s))|
    requires Flatten(Transcript(s)) == cells + Rep(BLANK, |Flatten(Transcript(s))| - |cells|)
    ensures Printed(Drop(s.(row := s.row + 1, col := 0)), cells)
  {
    hide Flatten, EraseInsert;
    var t := Drop(s.(row := s.row + 1, col := 0));
    OneMore(s.row, s.cols);
    OneMore(|s.scrolled|, s.cols);
    if s.row == s.bottom {
      DropTranscript(s);
      FlattenAppend(Transcript(s), [BlankRow(s.cols)]);
      FlattenOne(BlankRow(s.cols));
      BlankTail(Flatten(Transcript(s)), cells, s.cols);
    }
  }

  lemma PutPrinted(s: Screen, cells: seq<Cell>, code: nat)
    requires Printed(s, cells) && s.col < s.cols && (code == WIDE_TAIL ==> s.col > 0)
    ensures Printed(PutCell(s, code), cells + [Cell(code, s.style)])
  {
    var t := PutCell(s, code);
    var x := Cell(code, s.style);
    var before := Transcript(s);
    var i := |s.scrolled| + s.row;
    assert before[i] == s.grid[s.row];
    assert Transcript(t) == before[i := before[i][s.col := x]];
    assert i * s.cols == |s.scrolled| * s.cols + s.row * s.cols;
    FlattenUpdate(before, s.cols, i, s.col, x);
    var n := |Flatten(before)| - |cells|;
    assert (cells + Rep(BLANK, n))[|cells| := x] == cells + [x] + Rep(BLANK, n - 1);
  }

  /**
   * The cells of a text once one more character of width `w` is printed on rows of `cols`: nothing for width 0, a
   * wide character takes two cells and is not split between two rows.
   */
  function Laid(w: Width, cols: nat, cells: seq<Cell>, point: nat, style: Style): seq<Cell>
    requires cols > 0
  {
    if w(point) <= 0 then cells
    else if w(point) == 1 then cells + [Cell(point, style)]
    else
      (if |cells| % cols == cols - 1 then cells + [BLANK] else cells)
      + [Cell(point, style)] + [Cell(WIDE_TAIL, style)]
  }

  /** The column of the next cell, counted from the length of the text. */
  lemma ColumnOf(k: nat, cols: nat, col: nat)
    requires cols >= 2 && col <= cols
    ensures (k * cols + col) % cols == cols - 1 <==> col == cols - 1
  {
    if col == cols {
      assert k * cols + col == (k + 1) * cols + 0;
      Remainder(k + 1, cols, 0);
    } else {
      Remainder(k, cols, col);
    }
  }

  lemma Multiple(d: int, n: int)
    requires d > 0 && n > 0
    ensures d * n >= n
  {
    assert (d - 1) * n >= 0;
  }

  lemma OneRemainder(k: int, q: int, n: int, r: int, m: int)
    requires k * n + r == q * n + m && 0 <= r < n && 0 <= m < n
    ensures r == m
  {
    if q > k {
      Multiple(q - k, n);
    } else if q < k {
      Multiple(k - q, n);
    }
  }

  lemma Division(x: nat, n: nat)
    requires n > 0
    ensures (x / n) * n + x % n == x && x % n < n
  {
  }

  lemma Remainder(k: nat, n: nat, r: nat)
    requires r < n
    ensures (k * n + r) % n == r
  {
    var x := k * n + r;
    Division(x, n);
    OneRemainder(k, x / n, n, r, x % n);
  }

  lemma PrintedOk(s: Screen, cells: seq<Cell>)
    requires Printed(s, cells)
    ensures ScreenOk(s) && s.cols >= 2 && 0 <= s.col <= s.cols
    ensures |cells| % s.cols == s.cols - 1 <==> s.col == s.cols - 1
  {
    hide Flatten;
    ColumnOf(|s.scrolled| + s.row, s.cols, s.col);
    assert (|s.scrolled| + s.row) * s.cols == |s.scrolled| * s.cols + s.row * s.cols;
  }

  lemma RoomPrinted(s: Screen, cells: seq<Cell>, cw: nat)
    requires Printed(s, cells) && 1 <= cw <= 2
    ensures Printed(MakeRoom(s, cw), if s.col + cw > s.cols then cells + Rep(BLANK, s.cols - s.col) else cells)
    ensures MakeRoom(s, cw).style == s.style && MakeRoom(s, cw).cols == s.cols
  {
    hide Flatten, Drop, BackOff;
    if s.col + cw > s.cols {
      WrapPrinted(s, cells);
      DropKeeps(s);
    }
  }

  lemma DropKeeps(s: Screen)
    requires ScreenOk(s)
    ensures Drop(s.(row := s.row + 1, col := 0)).cols == s.cols
  {
    hide EraseInsert, Last, GridOk;
  }

  /** One character of any width extends the text, wrapping and scrolling as needed. */
  lemma InsertPrinted(w: Width, s: Screen, cells: seq<Cell>, code: nat)
    requires Printed(s, cells) && code <= Utf8.MAX_POINT
    ensures Printed(InsertPoint(w, s, code), Laid(w, s.cols, cells, code, s.style))
    ensures InsertPoint(w, s, code).style == s.style && InsertPoint(w, s, code).cols == s.cols
  {
    hide Printed, PutCell, MakeRoom;
    PrintedOk(s, cells);
    if w(code) > 0 {
      var cw := Min(w(code), 2);
      var room := if s.col + cw > s.cols then cells + Rep(BLANK, s.cols - s.col) else cells;
      RoomPrinted(s, cells, cw);
      RoomIsPad(s, cells, cw);
      var t := MakeRoom(s, cw);
      PutPrinted(t, room, code);
      PutKeepsMode(t, code);
      if cw == 2 {
        PutPrinted(PutCell(t, code), room + [Cell(code, s.style)], WIDE_TAIL);
        PutKeepsMode(PutCell(t, code), WIDE_TAIL);
      }
    }
  }

  /** The blanks in front of the character are those of the layout. */
  lemma RoomIsPad(s: Screen, cells: seq<Cell>, cw: nat)
    requires ScreenOk(s) && 1 <= cw <= 2
    requires |cells| % s.cols == s.cols - 1 <==> s.col == s.cols - 1
    ensures (if s.col + cw > s.cols then cells + Rep(BLANK, s.cols - s.col) else cells)
         == if cw == 2 && |cells| % s.cols == s.cols - 1 then cells + [BLANK] else cells
  {
    assert Rep(BLANK, 1) == [BLANK] && cells + Rep(BLANK, 0) == cells;
  }

  /** `InsertUtf8` for a list of code points. */
  function InsertAll(w: Width, s: Screen, points: seq<nat>): (t: Screen)
    requires ScreenOk(s) && forall i :: 0 <= i < |points| ==> points[i] <= Utf8.MAX_POINT
    ensures ScreenOk(t)
    decreases |points|
  {
    if points == [] then s
    else InsertAll(w, InsertPoint(w, s, points[0]), points[1..])
  }

  function Styled(points: seq<nat>, style: Style): (cells: seq<Cell>)
    ensures |cells| == |points|
  {
    seq(|points|, i requires 0 <= i < |points| => Cell(points[i], style))
  }

  /** The cells of a whole text, behind those already there. */
  function Layout(w: Width, cols: nat, cells: seq<Cell>, points: seq<nat>, style: Style): seq<Cell>
    requires cols > 0
    decreases |points|
  {
    if points == [] then cells else Layout(w, cols, Laid(w, cols, cells, points[0], style), points[1..], style)
  }

  lemma {:induction false} InsertAllPrinted(w: Width, s: Screen, cells: seq<Cell>, points: seq<nat>)
    requires Printed(s, cells)
    requires forall i :: 0 <= i < |points| ==> points[i] <= Utf8.MAX_POINT
    ensures Printed(InsertAll(w, s, points), Layout(w, s.cols, cells, points, s.style))
    ensures InsertAll(w, s, points).cols == s.cols
    decreases |points|
  {
    hide InsertPoint, Printed, Laid;
    if points != [] {
      assert s.cols > 0 && ScreenOk(s) by { PrintedOk(s, cells); }
      InsertPrinted(w, s, cells, points[0]);
      InsertAllPrinted(w, InsertPoint(w, s, points[0]), Laid(w, s.cols, cells, points[0], s.style), points[1..]);
    }
  }

  /** Characters of width 1 are laid out side by side. */
  lemma {:induction false} NarrowLayout(w: Width, cols: nat, cells: seq<Cell>, points: seq<nat>, style: Style)
    requires cols > 0 && forall i :: 0 <= i < |points| ==> w(points[i]) == 1
    ensures Layout(w, cols, cells, points, style) == cells + Styled(points, style)
    decreases |points|
  {
    if points == [] {
      assert cells + Styled(points, style) == cells;
    } else {
      NarrowLayout(w, cols, cells + [Cell(points[0], style)], points[1..], style);
      assert cells + [Cell(points[0], style)] + Styled(points[1..], style) == cells + Styled(points, style);
    }
  }

  lemma FreshPrinted(online: bool, rows: nat, cols: nat)
    requires Side(rows) && Side(cols)
    ensures Printed(Fresh(online, rows, cols).scr, [])
    ensures Fresh(online, rows, cols).scr.cols == cols
    ensures Fresh(online, rows, cols).scr.style == DEFAULT_STYLE
  {
    var s := Fresh(online, rows, cols).scr;
    assert s.grid == Rep(BlankRow(cols), rows) by {
      forall i | 0 <= i < rows ensures s.grid[i] == BlankRow(cols) {
        assert s.grid[i] == Resized([], cols, BLANK);
      }
    }
    assert Transcript(s) == Rep(BlankRow(cols), rows);
    FlattenBlank(rows, cols);
  }

  /**
   * After any list of code points on a fresh screen the cursor counts the cells of their layout, and
   * scrollback and screen read back as exactly that layout followed by blanks. The scrollback holds all
   * of it as long as no more than 5000 rows have scrolled off.
   */
  lemma PrintedIsStored(w: Width, online: bool, rows: nat, cols: nat, points: seq<nat>)
    requires Side(rows) && Side(cols)
    requires forall i :: 0 <= i < |points| ==> points[i] <= Utf8.MAX_POINT
    ensures var t := InsertAll(w, Fresh(online, rows, cols).scr, points);
            var text, cells := Flatten(t.scrolled + t.grid), Layout(w, cols, [], points, DEFAULT_STYLE);
            && |t.scrolled| * cols + t.row * cols + t.col == |cells| <= |text|
            && text == cells + Rep(BLANK, |text| - |cells|)
            && (|t.scrolled| <= MAX_HISTORY_LINES ==> t.history == t.scrolled)
  {
    hide Fresh, InsertAll, Flatten, Layout;
    var s := Fresh(online, rows, cols).scr;
    FreshPrinted(online, rows, cols);
    InsertAllPrinted(w, s, [], points);
  }

  // ------------------------------------------------------- the decoder inside the machine

  /** The bytes of a string as numbers. */
  function Bytes(s: string): (b: seq<nat>)
    ensures |b| == |s|
  {
    seq(|s|, i requires 0 <= i < |s| => s[i] as nat)
  }

  lemma {:induction false} PointsBounded(d: Utf8.Decoder, b: seq<nat>)
    requires Utf8.InRange(d)
    ensures forall i :: 0 <= i < |Utf8.Points(d, b)| ==> Utf8.Points(d, b)[i] <= Utf8.MAX_POINT
    ensures Utf8.InRange(Utf8.After(d, b))
    decreases |b|
  {
    if b != [] {
      Utf8.FeedInRange(d, b[0]);
      PointsBounded(Utf8.Feed(d, b[0]).next, b[1..]);
    }
  }

  /** Bytes of multi-byte characters reach the screen through the decoder alone. */
  lemma {:induction false} RunDecodes(w: Width, s: Term, text: string)
    requires Inv(s) && s.esc == Idle
    requires forall i :: 0 <= i < |text| ==> text[i] > '\U{007F}'
    ensures forall i :: 0 <= i < |Utf8.Points(s.utf8, Bytes(text))| ==>
              Utf8.Points(s.utf8, Bytes(text))[i] <= Utf8.MAX_POINT
    ensures Run(w, s, text) == Some(s.(utf8 := Utf8.After(s.utf8, Bytes(text)),
                                       scr := InsertAll(w, s.scr, Utf8.Points(s.utf8, Bytes(text)))))
    decreases |text|
  {
    PointsBounded(s.utf8, Bytes(text));
    if text != "" {
      var t := Multi(w, s, text[0]);
      assert Step(w, s, text[0]) == Some(t);
      assert Bytes(text)[0] == text[0] as nat && Bytes(text)[1..] == Bytes(text[1..]);
      RunDecodes(w, t, text[1..]);
    }
  }

  /**
   * Feeding the UTF-8 encodings of any list of code points from 0x80 to 0x10FFFF calls
   * `InsertUtf8` on exactly that list and leaves the decoder idle.
   */
  lemma RunInsertsEncoded(w: Width, s: Term, points: seq<nat>, text: string)
    requires Inv(s) && s.esc == Idle && s.utf8.state == Utf8.Initial
    requires forall i :: 0 <= i < |points| ==> Utf8.MultiByte(points[i])
    requires Bytes(text) == Utf8.EncodeAll(points)
    ensures var t := Run(w, s, text);
            && t.Some? && t.value.esc == Idle && t.value.utf8.state == Utf8.Initial
            && t.value.scr == InsertAll(w, s.scr, points)
  {
    Utf8.EncodeAllHigh(points);
    forall i | 0 <= i < |text| ensures text[i] > '\U{007F}' {
      assert Bytes(text)[i] >= 0x80;
    }
    Utf8.DecodeEncodeAll(s.utf8, points);
    RunDecodes(w, s, text);
  }

  // -------------------------------------------------------------------- text as bytes

  /** A character the terminal prints: one printable byte, or a multi-byte encoding. */
  predicate Character(p: nat) { 0x20 <= p < 0x80 || Utf8.MultiByte(p) }

  predicate Characters(points: seq<nat>) {
    forall i :: 0 <= i < |points| ==> Character(points[i])
  }

  /** The UTF-8 text of a list of characters. */
  function EncodeText(points: seq<nat>): seq<nat>
    requires Characters(points)
  {
    if points == [] then [] else Utf8.Encode(points[0]) + EncodeText(points[1..])
  }

  lemma RoomKeepsMode(s: Screen, cw: nat)
    requires ScreenOk(s) && 1 <= cw <= 2
    ensures MakeRoom(s, cw).insert == s.insert
  {
    hide GridOk, Last, EraseInsert, BackOff;
  }

  lemma PutKeepsMode(s: Screen, code: nat)
    requires ScreenOk(s) && s.col < s.cols && (code == WIDE_TAIL ==> s.col > 0)
    ensures PutCell(s, code).insert == s.insert && PutCell(s, code).col == s.col + 1
    ensures PutCell(s, code).style == s.style && PutCell(s, code).cols == s.cols
  {
  }

  lemma InsertKeepsMode(w: Width, s: Screen, code: nat)
    requires ScreenOk(s) && code <= Utf8.MAX_POINT
    ensures InsertPoint(w, s, code).insert == s.insert
  {
    hide MakeRoom, PutCell, Shape;
    if w(code) > 0 {
      var t := MakeRoom(s, Min(w(code), 2));
      RoomKeepsMode(s, Min(w(code), 2));
      PutKeepsMode(t, code);
      var u := PutCell(t, code);
      if w(code) > 1 && u.col < u.cols {
        PutKeepsMode(u, WIDE_TAIL);
      }
    }
  }

  /** One character, from its bytes. */
  lemma RunInsertsOne(w: Width, s: Term, p: nat, text: string)
    requires Inv(s) && s.esc == Idle && s.utf8.state == Utf8.Initial && !s.scr.insert
    requires Character(p) && Bytes(text) == Utf8.Encode(p)
    ensures var t := Run(w, s, text);
            && t.Some? && t.value.esc == Idle && t.value.utf8.state == Utf8.Initial
            && t.value.scr == InsertPoint(w, s.scr, p)
  {
    hide Run, InsertPoint, ScreenOk;
    assert InsertAll(w, s.scr, [p]) == InsertPoint(w, s.scr, p) by {
      assert [p][1..] == [];
    }
    if p < 0x80 {
      assert |text| == 1 && text[0] as nat == p;
      assert Step(w, s, text[0]) == Some(s.(scr := InsertPoint(w, s.scr, p)));
      RunOne(w, s, text[0]);
      assert text == [text[0]];
    } else {
      assert Utf8.EncodeAll([p]) == Utf8.Encode(p) + Utf8.EncodeAll([]);
      RunInsertsEncoded(w, s, [p], text);
    }
  }

  lemma TextHead(points: seq<nat>, text: string)
    requires points != [] && Characters(points) && Bytes(text) == EncodeText(points)
    ensures var n := |Utf8.Encode(points[0])|;
            && n <= |text| && text == text[..n] + text[n..]
            && Bytes(text[..n]) == Utf8.Encode(points[0]) && Bytes(text[n..]) == EncodeText(points[1..])
  {
    hide Utf8.Encode;
    var n := |Utf8.Encode(points[0])|;
    assert |Bytes(text)| == |text|;
    assert Bytes(text[..n]) == Bytes(text)[..n];
    assert Bytes(text[n..]) == Bytes(text)[n..];
  }

  /** Outside of insert mode, a text of printable characters is inserted character by character. */
  lemma {:induction false} RunInsertsText(w: Width, s: Term, points: seq<nat>, text: string)
    requires Inv(s) && s.esc == Idle && s.utf8.state == Utf8.Initial && !s.scr.insert
    requires Characters(points) && Bytes(text) == EncodeText(points)
    ensures var t := Run(w, s, text);
            && t.Some? && t.value.esc == Idle && t.value.utf8.state == Utf8.Initial
            && t.value.scr == InsertAll(w, s.scr, points)
    decreases |points|
  {
    hide Run, InsertPoint, ScreenOk, Utf8.InRange, Utf8.Encode, Bytes;
    if points == [] {
      assert text == "";
      RunNothing(w, s);
    } else {
      TextHead(points, text);
      var n := |Utf8.Encode(points[0])|;
      var a, b := text[..n], text[n..];
      RunInsertsOne(w, s, points[0], a);
      InsertKeepsMode(w, s.scr, points[0]);
      RunInsertsText(w, Run(w, s, a).value, points[1..], b);
      RunConcat(w, s, a, b);
    }
  }

  /**
   * What is printed is what is stored, from bytes to cells: after the UTF-8 text of any list of
   * characters, of any widths, on a new terminal, the cursor counts the cells of their layout, and
   * scrollback and screen read back as exactly that layout followed by blanks.
   */
  lemma TextIsStored(w: Width, online: bool, rows: nat, cols: nat, points: seq<nat>, text: string)
    requires Side(rows) && Side(cols) && Characters(points) && Bytes(text) == EncodeText(points)
    ensures Run(w, Fresh(online, rows, cols), text).Some?
    ensures var t := Run(w, Fresh(online, rows, cols), text).value.scr;
            var all, cells := Flatten(t.scrolled + t.grid), Layout(w, cols, [], points, DEFAULT_STYLE);
            && |t.scrolled| * cols + t.row * cols + t.col == |cells| <= |all|
            && all == cells + Rep(BLANK, |all| - |cells|)
            && (|t.scrolled| <= MAX_HISTORY_LINES ==> t.history == t.scrolled)
  {
    hide Run, InsertAll, Flatten, ScreenOk, EncodeText, Layout;
    var s := Fresh(online, rows, cols);
    assert s.esc == Idle && s.utf8.state == Utf8.Initial && !s.scr.insert;
    RunInsertsText(w, s, points, text);
    PrintedIsStored(w, online, rows, cols, points);
  }

  /** So the text of width-1 characters reads back as those characters. */
  lemma NarrowTextIsStored(w: Width, online: bool, rows: nat, cols: nat, points: seq<nat>, text: string)
    requires Side(rows) && Side(cols) && Characters(points) && Bytes(text) == EncodeText(points)
    requires forall i :: 0 <= i < |points| ==> w(points[i]) == 1
    ensures Run(w, Fresh(online, rows, cols), text).Some?
    ensures var t := Run(w, Fresh(online, rows, cols), text).value.scr;
            var all := Flatten(t.scrolled + t.grid);
            && |t.scrolled| * cols + t.row * cols + t.col == |points| <= |all|
            && all == Styled(points, DEFAULT_STYLE) + Rep(BLANK, |all| - |points|)
  {
    hide Run, Fresh, Flatten, EncodeText, Layout;
    TextIsStored(w, online, rows, cols, points, text);
    NarrowLayout(w, cols, [], points, DEFAULT_STYLE);
    assert [] + Styled(points, DEFAULT_STYLE) == Styled(points, DEFAULT_STYLE);
  }

  /** In every reachable state the decoder's state is explained by the last bytes received. */
  lemma {:induction false} ReachablePending(w: Width, s: Term, text: string)
    requires Inv(s) && s.utf8.state == Utf8.Initial && Run(w, s, text).Some?
    ensures Utf8.Pending(Run(w, s, text).value.utf8, Bytes(text))
    decreases |text|
  {
    hide Step, Utf8.Pending, Utf8.Feed;
    if text != "" {
      var n := |text| - 1;
      var a := text[..n];
      assert text == a + [text[n]];
      RunConcat(w, s, a, [text[n]]);
      var t := Run(w, s, a).value;
      ReachablePending(w, s, a);
      var u := Step(w, t, text[n]).value;
      assert [text[n]][1..] == "";
      assert Run(w, u, "") == Some(u);
      assert Bytes(text) == Bytes(a) + [text[n] as nat];
      StepDecoder(w, t, text[n]);
      Utf8.PendingFeed(t.utf8, Bytes(a), text[n] as nat);
    }
    if Run(w, s, text).value.utf8.state == Utf8.Initial {
      Utf8.PendingInitial(Run(w, s, text).value.utf8, Bytes(text));
    }
  }

  /** A byte either goes through the decoder or meets and leaves it idle. */
  lemma StepDecoder(w: Width, s: Term, b: char)
    requires Inv(s) && Step(w, s, b).Some?
    ensures var u := Step(w, s, b).value;
            u.utf8 == Utf8.Feed(s.utf8, b as nat).next || u.utf8.state == Utf8.Initial
  {
  }

  /**
   * Whatever was received before, a multi-byte code point the machine prints is in
   * 0x80..0x10FFFF and its one shortest encoding is what was just received.
   */
  lemma OnlyEncodedPointsPrint(w: Width, s: Term, text: string, b: char)
    requires Inv(s) && s.utf8.state == Utf8.Initial && Run(w, s, text).Some?
    ensures var t := Run(w, s, text).value;
            var o := Utf8.Feed(t.utf8, b as nat).point;
            o.Some? ==>
              && Utf8.MultiByte(o.value)
              && Utf8.EndsWith(Bytes(text + [b]), Utf8.Encode(o.value))
              && t.esc == Idle && Step(w, t, b).Some?
              && Step(w, t, b).value.scr == InsertPoint(w, t.scr, o.value)
  {
    hide Run, InsertPoint, Utf8.Pending, Utf8.EndsWith, Utf8.Encode, ScreenOk;
    var t := Run(w, s, text).value;
    var o := Utf8.Feed(t.utf8, b as nat).point;
    ReachablePending(w, s, text);
    if o.Some? {
      Utf8.CompletedIsEncoding(t.utf8, Bytes(text), b as nat);
      assert Bytes(text + [b]) == Bytes(text) + [b as nat];
    }
  }
}
