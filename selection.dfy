/**
 * The selection rules of the Boggle panel (src/JBoggleBoard.java) stated on
 * values: the board's cells are a sequence of coordinates, the selection a
 * sequence of cell indices in click order.  The panel's methods are proved
 * against these functions.
 */
module Selection {
  import opened Button

  function Dist(u: int, v: int): nat {
    if u <= v then v - u else u - v
  }

  /**
   * areNeighbors: b lies in the 3 x 3 square centred on a.  The bounds are
   * inclusive, so diagonal cells are neighbours and every cell is its own.
   */
  function AreNeighbors(a: Coord, b: Coord): (r: bool)
    ensures r <==> Dist(a.x, b.x) <= 1 && Dist(a.y, b.y) <= 1
  {
    a.x - 1 <= b.x <= a.x + 1 && a.y - 1 <= b.y <= a.y + 1
  }

  lemma NeighborsSymmetric(a: Coord, b: Coord)
    ensures AreNeighbors(a, b) == AreNeighbors(b, a)
  {
  }

  lemma NeighborsReflexive(a: Coord)
    ensures AreNeighbors(a, a)
  {
  }

  /** Every index of the selection names one of the n cells. */
  predicate InRange(n: nat, sel: seq<nat>) {
    forall k :: 0 <= k < |sel| ==> sel[k] < n
  }

  predicate NoDuplicates(sel: seq<nat>) {
    forall i, j :: 0 <= i < j < |sel| ==> sel[i] != sel[j]
  }

  /** Each selected cell after the first neighbours the one selected before it. */
  predicate Chained(coords: seq<Coord>, sel: seq<nat>)
    requires InRange(|coords|, sel)
  {
    forall k :: 0 < k < |sel| ==> AreNeighbors(coords[sel[k - 1]], coords[sel[k]])
  }

  /** The invariants a selection keeps: in range, no cell twice, a chain of neighbours. */
  predicate WellFormed(coords: seq<Coord>, sel: seq<nat>) {
    InRange(|coords|, sel) && NoDuplicates(sel) && Chained(coords, sel)
  }

  function Last(sel: seq<nat>): nat
    requires sel != []
  {
    sel[|sel| - 1]
  }

  /**
   * The state displayUpdate gives cell k: with nothing selected every cell
   * is AVAILABLE; otherwise the selected cells are SELECTED, the other
   * neighbours of the last selected cell AVAILABLE, and the rest UNAVAILABLE.
   */
  function StateOf(coords: seq<Coord>, sel: seq<nat>, k: nat): State
    requires InRange(|coords|, sel) && k < |coords|
  {
    if sel == [] then Available
    else if k in sel then Selected
    else if AreNeighbors(coords[Last(sel)], coords[k]) then Available
    else Unavailable
  }

  /** The first position of v in sel (ArrayList.indexOf). */
  function IndexOf(sel: seq<nat>, v: nat): (k: nat)
    requires v in sel
    ensures k < |sel| && sel[k] == v
    ensures v !in sel[..k]
  {
    if sel[0] == v then 0 else 1 + IndexOf(sel[1..], v)
  }

  /**
   * The selection after a click on a cell i whose state is s
   * (BoggleButtonHandler): an AVAILABLE cell is appended, a SELECTED cell
   * cuts the selection back to end at it, an UNAVAILABLE cell changes
   * nothing.  A cell is SELECTED exactly when it is in the selection.
   */
  function Press(sel: seq<nat>, i: nat, s: State): (r: seq<nat>)
    requires s == Selected <==> i in sel
    ensures s == Unavailable ==> r == sel
    ensures s != Unavailable ==> r != [] && Last(r) == i
    ensures r <= sel || r == sel + [i]
    ensures NoDuplicates(sel) ==> NoDuplicates(r)
  {
    match s
    case Available => sel + [i]
    case Selected => sel[..IndexOf(sel, i) + 1]
    case Unavailable => sel
  }

  /** The selection after a click on cell i of a display in its derived state. */
  function AfterClick(coords: seq<Coord>, sel: seq<nat>, i: nat): (r: seq<nat>)
    requires InRange(|coords|, sel) && i < |coords|
    ensures StateOf(coords, sel, i) == Unavailable ==> r == sel
    ensures StateOf(coords, sel, i) != Unavailable ==> r != [] && Last(r) == i
    ensures InRange(|coords|, r)
  {
    Press(sel, i, StateOf(coords, sel, i))
  }

  /** A click keeps the selection free of duplicates and chained. */
  lemma ClickKeepsWellFormed(coords: seq<Coord>, sel: seq<nat>, i: nat)
    requires WellFormed(coords, sel) && i < |coords|
    ensures WellFormed(coords, AfterClick(coords, sel, i))
  {
    var r := AfterClick(coords, sel, i);
    if StateOf(coords, sel, i) == Available {
      assert i !in sel;
      assert r == sel + [i];
      if sel != [] {
        assert AreNeighbors(coords[Last(sel)], coords[i]);
      }
    }
  }

  /** Appending a cell not yet selected keeps the selection free of duplicates. */
  lemma AppendFresh(sel: seq<nat>, i: nat)
    requires NoDuplicates(sel) && i !in sel
    ensures NoDuplicates(sel + [i])
  {
  }

  /** Cells added after the existing ones do not change whether a selection of existing cells is chained. */
  lemma ChainedExtend(coords: seq<Coord>, more: seq<Coord>, sel: seq<nat>)
    requires InRange(|coords|, sel)
    ensures InRange(|coords + more|, sel)
    ensures Chained(coords + more, sel) <==> Chained(coords, sel)
  {
    assert forall k :: 0 <= k < |sel| ==> (coords + more)[sel[k]] == coords[sel[k]];
  }

  /**
   * Why Chained is not an invariant of the panel: a second board appends
   * fresh AVAILABLE buttons without recomputing states, so with (0, 0)
   * selected a click on an appended (2, 2) extends the selection by a cell
   * that is not a neighbour.
   */
  lemma AppendedButtonBreaksChain()
    ensures Press([0], 1, Available) == [0, 1]
    ensures Chained([Coord(0, 0), Coord(2, 2)], [0])
    ensures !Chained([Coord(0, 0), Coord(2, 2)], [0, 1])
  {
    var coords, sel := [Coord(0, 0), Coord(2, 2)], [0, 1];
    assert !AreNeighbors(coords[sel[0]], coords[sel[1]]);
  }

  /** Clicking the selected cell at position k leaves the first k + 1 selected cells. */
  lemma ClickSelectedTruncates(coords: seq<Coord>, sel: seq<nat>, k: nat)
    requires InRange(|coords|, sel) && NoDuplicates(sel) && k < |sel|
    ensures AfterClick(coords, sel, sel[k]) == sel[..k + 1]
  {
    assert StateOf(coords, sel, sel[k]) == Selected;
  }

  /** Clicking the last selected cell keeps the selection as it is. */
  lemma ClickLastKeepsSelection(coords: seq<Coord>, sel: seq<nat>)
    requires InRange(|coords|, sel) && NoDuplicates(sel) && sel != []
    ensures AfterClick(coords, sel, Last(sel)) == sel
  {
    ClickSelectedTruncates(coords, sel, |sel| - 1);
  }

  /** The word spelled by a sequence of tiles (the source's repeated string concatenation). */
  function Concat(parts: seq<string>): (w: string)
  {
    if parts == [] then "" else parts[0] + Concat(parts[1..])
  }

  lemma {:induction false} ConcatAppend(parts: seq<string>, t: string)
    ensures Concat(parts + [t]) == Concat(parts) + t
  {
    if parts == [] {
      assert parts + [t] == [t];
    } else {
      assert (parts + [t])[1..] == parts[1..] + [t];
      ConcatAppend(parts[1..], t);
    }
  }

  /** Dropping tiles from the end of a sequence drops letters from the end of its word. */
  lemma {:induction false} ConcatPrefix(parts: seq<string>, k: nat)
    requires k <= |parts|
    ensures Concat(parts[..k]) <= Concat(parts)
  {
    if k > 0 {
      assert parts[..k][1..] == parts[1..][..k - 1];
      ConcatPrefix(parts[1..], k - 1);
    }
  }

  /** The tiles of the selected cells, in selection order. */
  function Pick(texts: seq<string>, sel: seq<nat>): (r: seq<string>)
    requires InRange(|texts|, sel)
    ensures |r| == |sel|
    ensures forall k :: 0 <= k < |sel| ==> r[k] == texts[sel[k]]
  {
    seq(|sel|, k requires 0 <= k < |sel| => texts[sel[k]])
  }

  /** The word spelled by the selected cells (getWord). */
  function Spell(texts: seq<string>, sel: seq<nat>): string
    requires InRange(|texts|, sel)
  {
    Concat(Pick(texts, sel))
  }

  /** Selecting one more cell appends its tile to the word. */
  lemma SpellAppend(texts: seq<string>, sel: seq<nat>, i: nat)
    requires InRange(|texts|, sel) && i < |texts|
    ensures InRange(|texts|, sel + [i])
    ensures Spell(texts, sel + [i]) == Spell(texts, sel) + texts[i]
  {
    assert Pick(texts, sel + [i]) == Pick(texts, sel) + [texts[i]];
    ConcatAppend(Pick(texts, sel), texts[i]);
  }

  /** Cutting the selection back cuts letters off the end of the word. */
  lemma SpellPrefix(texts: seq<string>, sel: seq<nat>, k: nat)
    requires InRange(|texts|, sel) && k <= |sel|
    ensures Spell(texts, sel[..k]) <= Spell(texts, sel)
  {
    assert Pick(texts, sel[..k]) == Pick(texts, sel)[..k];
    ConcatPrefix(Pick(texts, sel), k);
  }
}
