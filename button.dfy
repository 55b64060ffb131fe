/**
 * One grid cell of the Boggle panel (src/JBoggleButton.java): a button with
 * fixed board coordinates, a text tile and a selection state.  Of the Swing
 * button only the text and the enabled flag are kept; fonts and borders are
 * presentation.
 */
module Button {

  /** The three states of a cell. */
  datatype State = Unavailable | Available | Selected

  /** A cell's position on the board. */
  datatype Coord = Coord(x: int, y: int)

  class JBoggleButton {
    /** Location on the grid, fixed at construction (getBoardX / getBoardY). */
    const x: nat
    const y: nat

    /** The tile shown on the button (the inherited setText / getText). */
    var text: string

    /** The selection state (getState). */
    var state: State

    /** Whether the toolkit delivers clicks to this button. */
    var enabled: bool

    /** A button at (xCoord, yCoord) with no text, AVAILABLE and enabled. */
    constructor (xCoord: int, yCoord: int)
      requires xCoord >= 0 && yCoord >= 0
      ensures x == xCoord && y == yCoord
      ensures text == "" && state == Available && enabled
    {
      x := xCoord;
      y := yCoord;
      text := "";
      new;
      SetState(Available);
    }

    /** The button's coordinates as one value. */
    function Position(): Coord {
      Coord(x, y)
    }

    /**
     * Records the new state; an UNAVAILABLE button is disabled, the other
     * two states enable it.  The text is untouched.
     */
    method SetState(s: State)
      modifies this
      ensures state == s
      ensures enabled <==> s != Unavailable
      ensures text == old(text)
    {
      state := s;
      match s {
        case Unavailable => enabled := false;
        case Available => enabled := true;
        case Selected => enabled := true;
      }
    }

    /** Replaces the text; the state and the enabled flag are untouched. */
    method SetText(s: string)
      modifies this
      ensures text == s
      ensures state == old(state) && enabled == old(enabled)
    {
      text := s;
    }
  }
}
