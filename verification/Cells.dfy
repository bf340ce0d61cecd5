/** Styles and cells of the screen. */
module Cells {
  import opened Sequences

  datatype FontClass = Regular | Bold | Italic | BoldItalic

  /** A palette entry, an entry of the 256-colour table, or a direct colour. */
  datatype Color = Ansi(index: nat) | Table(index: nat) | Rgb(red: nat, green: nat, blue: nat)

  datatype Style = Style(fore: Color, back: Color, font: FontClass, blink: bool)

  const BLACK := Ansi(0)
  const WHITE := Ansi(7)
  const DEFAULT_STYLE := Style(BLACK, WHITE, Regular, false)

  /** The four characters of 'wcht' in one word; marks the right half of a wide character. */
  const WIDE_TAIL: nat := 0x77636874

  datatype Cell = Cell(code: nat, style: Style)

  const BLANK := Cell(0x20, DEFAULT_STYLE)

  type Row = seq<Cell>
  type Grid = seq<Row>

  function BlankRow(cols: nat): Row { Rep(BLANK, cols) }

  predicate IsTail(c: Cell) { c.code == WIDE_TAIL }

  /** The codes of a row, without styles. */
  function Codes(r: Row): (cs: seq<nat>)
    ensures |cs| == |r|
  {
    seq(|r|, i requires 0 <= i < |r| => r[i].code)
  }
}
