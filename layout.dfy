/**
 * Screen layout of gpush: the bordered box centred in the terminal, the
 * input field inset in it, and where the cursor goes for a message of a
 * given length.  Python's `//` and `%` floor; with the positive divisors
 * used here they agree with Dafny's Euclidean `/` and `%`.
 */
module Layout {
  import opened Wrappers

  const MaxBoxWidth := 70
  const BoxHeight := 10
  /** Rows of the input field. */
  const InputHeight := 4
  /** Distance of the input field from the box's left, right and top edges. */
  const Inset := 3

  datatype Frame = Frame(boxY: int, boxX: int, boxWidth: int, inputY: int, inputX: int, inputWidth: int)

  /** The cursor's offset inside the input field. */
  datatype Cell = Cell(line: nat, column: nat)

  /** The frame for a terminal of `height` rows and `width` columns. */
  function ComputeFrame(height: int, width: int): (f: Frame)
    // box_width = min(70, width - 4)
    ensures f.boxWidth <= MaxBoxWidth && f.boxWidth <= width - 4
    ensures f.boxWidth == MaxBoxWidth || f.boxWidth == width - 4
    // centred horizontally; vertically centred in height - 6 rows, i.e. 3 rows
    // above the middle; both halvings round toward the top-left
    ensures 0 <= (width - f.boxWidth) - 2 * f.boxX <= 1
    ensures 0 <= (height - BoxHeight - 6) - 2 * f.boxY <= 1
    // the input field is inset by the same margin on the left, right and top
    ensures f.inputX - f.boxX == Inset && (f.boxX + f.boxWidth) - (f.inputX + f.inputWidth) == Inset
    ensures f.inputY - f.boxY == Inset
  {
    var boxWidth := if MaxBoxWidth <= width - 4 then MaxBoxWidth else width - 4;
    var boxY := (height - BoxHeight - 6) / 2;
    var boxX := (width - boxWidth) / 2;
    Frame(boxY, boxX, boxWidth, boxY + 3, boxX + 3, boxWidth - 6)
  }

  /** How many characters the field holds: `input_width * input_height`. */
  function Capacity(f: Frame): int
  {
    f.inputWidth * InputHeight
  }

  /** `(len // input_width, len % input_width)`: the field read row by row. */
  function CursorCell(length: nat, inputWidth: int): (c: Cell)
    requires inputWidth > 0
    ensures c.line * inputWidth + c.column == length
    ensures c.column < inputWidth
  {
    Cell(length / inputWidth, length % inputWidth)
  }

  /** The cursor lies on a visible row exactly when the message is below capacity. */
  lemma CursorVisibleIffRoom(length: nat, inputWidth: int)
    requires inputWidth > 0
    ensures CursorCell(length, inputWidth).line < InputHeight <==> length < inputWidth * InputHeight
  {
  }

  /**
   * Under the capacity bound the cursor is one row below the field exactly
   * when the field is full.
   */
  lemma CursorBelowFieldIffFull(length: nat, inputWidth: int)
    requires inputWidth > 0
    requires length <= inputWidth * InputHeight
    ensures CursorCell(length, inputWidth).line == InputHeight <==> length == inputWidth * InputHeight
  {
  }

  /**
   * Where the screen cursor is moved, if at all: `stdscr.move` happens only
   * when the cursor row is inside the field, and then at the field's
   * origin offset by the cursor cell.
   */
  function CursorTarget(f: Frame, length: nat): (r: Option<(int, int)>)
    requires f.inputWidth > 0
    ensures r.Some? <==> length < Capacity(f)
    ensures r.Some? ==>
              var (y, x) := r.value;
              && f.inputY <= y < f.inputY + InputHeight
              && f.inputX <= x < f.inputX + f.inputWidth
              && (y - f.inputY) * f.inputWidth + (x - f.inputX) == length
  {
    CursorVisibleIffRoom(length, f.inputWidth);
    var c := CursorCell(length, f.inputWidth);
    if c.line < InputHeight then Some((f.inputY + c.line, f.inputX + c.column)) else None
  }
}
