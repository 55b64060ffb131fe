/**
 * The Boggle panel of src/JBoggleBoard.java: a list of buttons, one per
 * displayed cell, and the ordered list of selected buttons, kept here as
 * indices into the button list.  A click (the button handler) appends to or
 * cuts back the selection and then recomputes every button's state
 * (displayUpdate).  Swing layout, listener registration and the main method
 * are not modelled.
 */
module BoardPanel {
  import opened Errors
  import opened Button
  import opened Board
  import Selection

  /**
   * If entry d of n * n listed cells is a cell of the board whose draw index
   * is d, then each cell (i, j) sits at position DrawIndex(n, i, j).
   */
  lemma DrawOrderCoversGrid(n: nat, cells: seq<Coord>)
    requires |cells| == n * n
    requires forall d :: 0 <= d < |cells| ==>
               0 <= cells[d].x < n && 0 <= cells[d].y < n && DrawIndex(n, cells[d].x, cells[d].y) == d
    ensures forall i, j :: 0 <= i < n && 0 <= j < n ==> cells[DrawIndex(n, i, j)] == Coord(i, j)
  {
    forall i, j | 0 <= i < n && 0 <= j < n
      ensures cells[DrawIndex(n, i, j)] == Coord(i, j)
    {
      var c := cells[DrawIndex(n, i, j)];
      Board.DrawIndexInjective(n, c.x, c.y, i, j);
    }
  }

  class JBoggleBoard {
    /** Dimension of the board the panel displays. */
    const size: nat

    /** The board created at construction; the source never reads it again. */
    var board: BoggleBoard

    /** All buttons, in the order setBoard created them. */
    var buttons: seq<JBoggleButton>

    /** The selected buttons in click order, as indices into buttons. */
    var selected: seq<nat>

    /** The coordinates of the buttons, in button order. */
    ghost function Coords(): (c: seq<Coord>)
      reads this
      ensures |c| == |buttons|
      ensures forall k :: 0 <= k < |buttons| ==> c[k] == buttons[k].Position()
    {
      var bs := buttons;
      seq(|bs|, k requires 0 <= k < |bs| => bs[k].Position())
    }

    /** The texts of the buttons, in button order. */
    ghost function Texts(): (t: seq<string>)
      reads this, buttons
      ensures |t| == |buttons|
      ensures forall k :: 0 <= k < |buttons| ==> t[k] == buttons[k].text
    {
      var bs := buttons;
      seq(|bs|, k requires 0 <= k < |bs| reads bs => bs[k].text)
    }

    /** No button object occurs twice in the button list. */
    ghost predicate Distinct()
      reads this
    {
      forall k, l :: 0 <= k < l < |buttons| ==> buttons[k] != buttons[l]
    }

    /**
     * What holds of the panel at every step: the selection names existing
     * buttons without repetition, exactly the selected buttons are SELECTED,
     * and a button is enabled exactly when it is not UNAVAILABLE.
     */
    ghost predicate Valid()
      reads this, buttons
    {
      && Distinct()
      && Selection.InRange(|buttons|, selected)
      && Selection.NoDuplicates(selected)
      && (forall k :: 0 <= k < |buttons| ==> (buttons[k].state == Selected <==> k in selected))
      && (forall k :: 0 <= k < |buttons| ==> (buttons[k].enabled <==> buttons[k].state != Unavailable))
    }

    /** Every button has the state displayUpdate derives from the selection alone. */
    ghost predicate Settled()
      reads this, buttons
      requires Selection.InRange(|buttons|, selected)
    {
      forall k :: 0 <= k < |buttons| ==> buttons[k].state == Selection.StateOf(Coords(), selected, k)
    }

    /** Each selected button after the first neighbours its predecessor. */
    ghost predicate Chained()
      reads this
      requires Selection.InRange(|buttons|, selected)
    {
      Selection.Chained(Coords(), selected)
    }

    /** The word the selection spells. */
    ghost function Word(): string
      reads this, buttons
      requires Selection.InRange(|buttons|, selected)
    {
      Selection.Spell(Texts(), selected)
    }

    /**
     * A panel for size x size boards, with no buttons and nothing selected.
     * The board it creates draws its tiles from draws.  The source's grid
     * layout refuses a 0 x 0 grid, hence size >= 1.
     */
    constructor (size: int, draws: seq<int>)
      requires size >= 1 && ValidDraws(size, draws)
      ensures this.size == size && buttons == [] && selected == []
      ensures fresh(board) && board.Valid() && board.Size() == size
      ensures Valid() && Settled() && Chained()
    {
      this.size := size;
      board := new BoggleBoard(size, draws);
      selected := [];
      buttons := [];
    }

    /**
     * setBoard: a board of another size is refused and nothing changes;
     * otherwise one new AVAILABLE button per cell (i, j), showing the cell's
     * tile, is appended row by row after the existing buttons, which stay.
     * The selection is untouched and no state is recomputed.
     */
    method SetBoard(b: BoggleBoard) returns (outcome: Outcome)
      requires Valid() && b.Valid()
      modifies this
      ensures outcome == if b.Size() == size then Pass else Fail(DimensionMismatch)
      ensures selected == old(selected) && board == old(board)
      ensures outcome.Fail? ==> buttons == old(buttons)
      ensures outcome.Pass? ==>
                && |buttons| == old(|buttons|) + size * size
                && buttons[..old(|buttons|)] == old(buttons)
                && (forall k :: old(|buttons|) <= k < |buttons| ==> fresh(buttons[k]) && buttons[k].state == Available)
                && (forall i, j :: 0 <= i < size && 0 <= j < size ==>
                      var button := buttons[old(|buttons|) + DrawIndex(size, i, j)];
                      button.Position() == Coord(i, j) && b.GetCell(i, j) == Ok(button.text))
      ensures Valid()
      ensures old(Chained()) ==> Chained()
      ensures selected == [] && old(Settled()) ==> Settled()
    {
      if b.Size() != size {
        return Fail(DimensionMismatch);
      }
      var n := b.Size();
      ghost var base := |buttons|;
      AddCells(b);
      DrawOrderCoversGrid(n, Coords()[base..]);
      assert Coords() == old(Coords()) + Coords()[base..];
      Selection.ChainedExtend(old(Coords()), Coords()[base..], selected);
      return Pass;
    }

    /**
     * The buttons from position base on are fresh, AVAILABLE and enabled,
     * and the one at base + d shows the cell of b whose draw index is d.
     */
    ghost predicate NewButtonsShow(b: BoggleBoard, base: nat)
      reads this, buttons, b, b.board
      requires b.Valid()
    {
      && base <= |buttons|
      && forall k :: base <= k < |buttons| ==>
           && buttons[k].state == Available && buttons[k].enabled
           && buttons[k].x < b.Size() && buttons[k].y < b.Size()
           && DrawIndex(b.Size(), buttons[k].x, buttons[k].y) == k - base
           && b.GetCell(buttons[k].x, buttons[k].y) == Ok(buttons[k].text)
    }

    /** setBoard's loops: the buttons of every row, appended in row order. */
    method AddCells(b: BoggleBoard)
      requires Valid() && b.Valid()
      modifies this
      ensures |buttons| == old(|buttons|) + b.Size() * b.Size() && buttons[..old(|buttons|)] == old(buttons)
      ensures forall k :: old(|buttons|) <= k < |buttons| ==> fresh(buttons[k])
      ensures selected == old(selected) && board == old(board)
      ensures Valid() && NewButtonsShow(b, old(|buttons|))
    {
      var n := b.Size();
      for i := 0 to n
        invariant |buttons| == old(|buttons|) + i * n
        invariant buttons[..old(|buttons|)] == old(buttons)
        invariant forall k :: old(|buttons|) <= k < |buttons| ==> fresh(buttons[k])
        invariant selected == old(selected) && board == old(board)
        invariant Valid() && NewButtonsShow(b, old(|buttons|))
      {
        AddRow(b, i, old(|buttons|));
      }
    }

    /** setBoard's inner loop: the buttons of row i, appended in column order. */
    method AddRow(b: BoggleBoard, i: nat, ghost base: nat)
      requires Valid() && b.Valid() && i < b.Size()
      requires NewButtonsShow(b, base) && |buttons| == base + i * b.Size()
      modifies this
      ensures |buttons| == base + (i + 1) * b.Size() && buttons[..old(|buttons|)] == old(buttons)
      ensures forall k :: old(|buttons|) <= k < |buttons| ==> fresh(buttons[k])
      ensures selected == old(selected) && board == old(board)
      ensures Valid() && NewButtonsShow(b, base)
    {
      var n := b.Size();
      for j := 0 to n
        invariant |buttons| == base + i * n + j
        invariant buttons[..old(|buttons|)] == old(buttons)
        invariant forall k :: old(|buttons|) <= k < |buttons| ==> fresh(buttons[k])
        invariant selected == old(selected) && board == old(board)
        invariant Valid() && NewButtonsShow(b, base)
      {
        AddButton(b, i, j, base);
      }
      NextRowStart(n, i);
    }

    /**
     * The body of setBoard's inner loop: a new button at (i, j), showing the
     * cell's tile and AVAILABLE, appended to the buttons.
     */
    method AddButton(b: BoggleBoard, i: nat, j: nat, ghost base: nat)
      requires Valid() && b.Valid() && i < b.Size() && j < b.Size()
      requires NewButtonsShow(b, base) && |buttons| == base + DrawIndex(b.Size(), i, j)
      modifies this
      ensures |buttons| == old(|buttons|) + 1 && buttons[..old(|buttons|)] == old(buttons)
      ensures fresh(buttons[old(|buttons|)])
      ensures selected == old(selected) && board == old(board)
      ensures Valid() && NewButtonsShow(b, base)
    {
      var button := new JBoggleButton(i, j);
      button.SetText(b.GetCell(i, j).value);
      button.SetState(Available);
      buttons := buttons + [button];
    }

    /**
     * displayUpdate: with nothing selected every button becomes AVAILABLE;
     * otherwise every button becomes UNAVAILABLE, the selected ones SELECTED,
     * and the UNAVAILABLE neighbours of the last selected one AVAILABLE.
     */
    method DisplayUpdate()
      requires Distinct() && Selection.InRange(|buttons|, selected)
      modifies buttons
      ensures Settled()
      ensures forall k :: 0 <= k < |buttons| ==> (buttons[k].state == Selected <==> k in selected)
      ensures forall k :: 0 <= k < |buttons| ==> (buttons[k].enabled <==> buttons[k].state != Unavailable)
      ensures Selection.NoDuplicates(selected) ==> Valid()
      ensures Texts() == old(Texts())
    {
      if selected == [] {
        SetAllStates(Available);
      } else {
        SetAllStates(Unavailable);
        MarkSelected();
        EnableNeighbors();
      }
    }

    /** One of displayUpdate's loops over all buttons: each gets state s. */
    method SetAllStates(s: State)
      requires Distinct()
      modifies buttons
      ensures forall k :: 0 <= k < |buttons| ==> buttons[k].state == s
      ensures forall k :: 0 <= k < |buttons| ==> (buttons[k].enabled <==> s != Unavailable)
      ensures Texts() == old(Texts())
    {
      for k := 0 to |buttons|
        invariant forall m :: 0 <= m < k ==> buttons[m].state == s && (buttons[m].enabled <==> s != Unavailable)
        invariant forall m :: 0 <= m < |buttons| ==> buttons[m].text == old(buttons[m].text)
      {
        buttons[k].SetState(s);
      }
    }

    /** displayUpdate's loop over the selection: each selected button becomes SELECTED. */
    method MarkSelected()
      requires Distinct() && Selection.InRange(|buttons|, selected)
      requires forall k :: 0 <= k < |buttons| ==> buttons[k].state == Unavailable && !buttons[k].enabled
      modifies buttons
      ensures forall k :: 0 <= k < |buttons| ==>
                && buttons[k].state == (if k in selected then Selected else Unavailable)
                && (buttons[k].enabled <==> buttons[k].state != Unavailable)
      ensures Texts() == old(Texts())
    {
      for s := 0 to |selected|
        invariant forall m :: 0 <= m < |buttons| ==>
                    && buttons[m].state == (if m in selected[..s] then Selected else Unavailable)
                    && (buttons[m].enabled <==> buttons[m].state != Unavailable)
        invariant forall m :: 0 <= m < |buttons| ==> buttons[m].text == old(buttons[m].text)
      {
        assert selected[..s + 1] == selected[..s] + [selected[s]];
        buttons[selected[s]].SetState(Selected);
      }
      assert selected[..|selected|] == selected;
    }

    /**
     * displayUpdate's last loop: every UNAVAILABLE neighbour of the last
     * selected button becomes AVAILABLE.
     */
    method EnableNeighbors()
      requires Distinct() && Selection.InRange(|buttons|, selected) && selected != []
      requires forall k :: 0 <= k < |buttons| ==>
                 && buttons[k].state == (if k in selected then Selected else Unavailable)
                 && (buttons[k].enabled <==> buttons[k].state != Unavailable)
      modifies buttons
      ensures Settled()
      ensures forall k :: 0 <= k < |buttons| ==> (buttons[k].enabled <==> buttons[k].state != Unavailable)
      ensures Texts() == old(Texts())
    {
      var last := buttons[Selection.Last(selected)];
      for k := 0 to |buttons|
        invariant forall m :: 0 <= m < k ==> buttons[m].state == Selection.StateOf(Coords(), selected, m)
        invariant forall m :: k <= m < |buttons| ==> buttons[m].state == (if m in selected then Selected else Unavailable)
        invariant forall m :: 0 <= m < |buttons| ==> (buttons[m].enabled <==> buttons[m].state != Unavailable)
        invariant forall m :: 0 <= m < |buttons| ==> buttons[m].text == old(buttons[m].text)
      {
        if buttons[k].state == Unavailable && Selection.AreNeighbors(last.Position(), buttons[k].Position()) {
          buttons[k].SetState(Available);
        }
      }
    }

    /**
     * A click on button i (BoggleButtonHandler.actionPerformed): the
     * selection changes as Press says for the button's state, and an
     * AVAILABLE or SELECTED button has every state recomputed; a click on an
     * UNAVAILABLE button changes nothing.
     */
    method Click(i: nat)
      requires Valid() && i < |buttons|
      modifies this, buttons
      ensures Valid() && buttons == old(buttons) && Texts() == old(Texts()) && board == old(board)
      ensures selected == Selection.Press(old(selected), i, old(buttons[i].state))
      ensures old(buttons[i].state) == Unavailable ==>
                forall k :: 0 <= k < |buttons| ==>
                  buttons[k].state == old(buttons[k].state) && buttons[k].enabled == old(buttons[k].enabled)
      ensures old(buttons[i].state) != Unavailable ==> Settled()
      ensures old(buttons[i].state) == Available ==> Word() == old(Word()) + buttons[i].text
      ensures old(buttons[i].state) == Selected ==> Word() <= old(Word())
    {
      var button := buttons[i];
      if button.state == Available {
        Select(i);
      } else if button.state == Selected {
        CutBack(i);
      }
    }

    /** The AVAILABLE branch of a click: button i is appended to the selection. */
    method Select(i: nat)
      requires Valid() && i < |buttons| && buttons[i].state == Available
      modifies this, buttons
      ensures Valid() && Settled() && buttons == old(buttons) && Texts() == old(Texts()) && board == old(board)
      ensures selected == old(selected) + [i]
      ensures Word() == old(Word()) + buttons[i].text
    {
      ghost var texts := Texts();
      assert i !in selected;
      Selection.AppendFresh(selected, i);
      Selection.SpellAppend(texts, selected, i);
      buttons[i].SetState(Selected);
      assert forall k :: 0 <= k < |buttons| ==> buttons[k].text == texts[k];
      assert Texts() == texts;
      selected := selected + [i];
      DisplayUpdate();
    }

    /** The SELECTED branch of a click: the selection is cut back to end at button i. */
    method CutBack(i: nat)
      requires Valid() && i < |buttons| && buttons[i].state == Selected
      modifies this, buttons
      ensures Valid() && Settled() && buttons == old(buttons) && Texts() == old(Texts()) && board == old(board)
      ensures selected == old(selected)[..Selection.IndexOf(old(selected), i) + 1]
      ensures Word() <= old(Word())
    {
      ghost var texts := Texts();
      var index := Selection.IndexOf(selected, i);
      selected := selected[..index + 1];
      DisplayUpdate();
      Selection.SpellPrefix(texts, old(selected), index + 1);
    }

    /**
     * On a display in its derived state a click moves the selection as
     * AfterClick says, leaves the display in its derived state, and keeps a
     * chained selection chained.
     */
    method ClickSettled(i: nat)
      requires Valid() && Settled() && i < |buttons|
      modifies this, buttons
      ensures Valid() && Settled() && buttons == old(buttons) && board == old(board)
      ensures selected == Selection.AfterClick(Coords(), old(selected), i)
      ensures old(Chained()) ==> Chained()
    {
      ghost var coords := Coords();
      assert buttons[i].state == Selection.StateOf(coords, selected, i);
      Click(i);
      if old(Chained()) {
        Selection.ClickKeepsWellFormed(coords, old(selected), i);
      }
    }

    /** clearSelections: empties the selection and makes every button AVAILABLE. */
    method ClearSelections()
      requires Valid()
      modifies this, buttons
      ensures Valid() && buttons == old(buttons) && Texts() == old(Texts()) && board == old(board)
      ensures selected == []
      ensures forall k :: 0 <= k < |buttons| ==> buttons[k].state == Available && buttons[k].enabled
      ensures Settled() && Chained()
    {
      selected := [];
      DisplayUpdate();
    }

    /** getWord: the selected buttons' texts concatenated in selection order. */
    method GetWord() returns (word: string)
      requires Selection.InRange(|buttons|, selected)
      ensures word == Word()
      ensures selected == [] ==> word == ""
    {
      word := "";
      for k := 0 to |selected|
        invariant word == Selection.Spell(Texts(), selected[..k])
      {
        assert selected[..k + 1] == selected[..k] + [selected[k]];
        Selection.SpellAppend(Texts(), selected[..k], selected[k]);
        word := word + buttons[selected[k]].text;
      }
      assert selected[..|selected|] == selected;
    }
  }
}
