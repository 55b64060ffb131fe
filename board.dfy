/**
 * The Boggle board of src/BoggleBoard.java: an N x N grid of letter tiles,
 * each cell drawn from a fixed 96-entry weighted letter table.  The source
 * draws with java.util.Random; here the draws are an input sequence of table
 * indices, consumed in row-major order, which makes generation deterministic.
 */
module Board {
  import opened Errors

  /** The 26 tiles a cell may hold; the letter Q is always the tile "Qu". */
  const Tiles: seq<string> := ["A", "B", "C", "D", "E", "F", "G", "H", "I", "J", "K", "L", "M",
                               "N", "O", "P", "Qu", "R", "S", "T", "U", "V", "W", "X", "Y", "Z"]

  /** How many copies of Tiles[k] the letter table holds. */
  const Weights: seq<nat> := [8, 3, 3, 4, 10, 2, 3, 3, 7, 1, 2, 5, 3, 5, 6, 3, 1, 4, 5, 5, 4, 2, 2, 1, 3, 1]

  /** Number of entries of the letter table. */
  const LetterCount := 96

  /** Dimension of a board built by the default constructor. */
  const DefaultSize := 4

  predicate IsTile(s: string) {
    s in Tiles
  }

  function Repeat(t: string, n: nat): (r: seq<string>)
    ensures |r| == n
    ensures forall i :: 0 <= i < n ==> r[i] == t
  {
    if n == 0 then [] else [t] + Repeat(t, n - 1)
  }

  function SumFrom(w: seq<nat>, k: nat): nat
    requires k <= |w|
    decreases |w| - k
  {
    if k == |w| then 0 else w[k] + SumFrom(w, k + 1)
  }

  /** The groups of a weighted table from group k on: weights[i] copies of tiles[i], in order. */
  function ExpandFrom(tiles: seq<string>, weights: seq<nat>, k: nat): (r: seq<string>)
    requires |tiles| == |weights| && k <= |tiles|
    ensures |r| == SumFrom(weights, k)
    ensures forall i :: 0 <= i < |r| ==> r[i] in tiles[k..]
    decreases |tiles| - k
  {
    if k == |tiles| then [] else Repeat(tiles[k], weights[k]) + ExpandFrom(tiles, weights, k + 1)
  }

  /** The weights add up to the size of the letter table. */
  lemma WeightsTotal()
    ensures SumFrom(Weights, 0) == LetterCount
  {
    assert SumFrom(Weights, 25) == 1;
    assert SumFrom(Weights, 24) == 4;
    assert SumFrom(Weights, 23) == 5;
    assert SumFrom(Weights, 22) == 7;
    assert SumFrom(Weights, 21) == 9;
    assert SumFrom(Weights, 20) == 13;
    assert SumFrom(Weights, 19) == 18;
    assert SumFrom(Weights, 18) == 23;
    assert SumFrom(Weights, 17) == 27;
    assert SumFrom(Weights, 16) == 28;
    assert SumFrom(Weights, 15) == 31;
    assert SumFrom(Weights, 14) == 37;
    assert SumFrom(Weights, 13) == 42;
    assert SumFrom(Weights, 12) == 45;
    assert SumFrom(Weights, 11) == 50;
    assert SumFrom(Weights, 10) == 52;
    assert SumFrom(Weights, 9) == 53;
    assert SumFrom(Weights, 8) == 60;
    assert SumFrom(Weights, 7) == 63;
    assert SumFrom(Weights, 6) == 66;
    assert SumFrom(Weights, 5) == 68;
    assert SumFrom(Weights, 4) == 78;
    assert SumFrom(Weights, 3) == 82;
    assert SumFrom(Weights, 2) == 85;
    assert SumFrom(Weights, 1) == 88;
    assert SumFrom(Weights, 0) == 96;
  }

  /** The group, counted from group g on, that holds entry k of a weighted table. */
  function GroupOf(weights: seq<nat>, g: nat, k: nat): (m: nat)
    requires g <= |weights| && k < SumFrom(weights, g)
    ensures g <= m < |weights|
    decreases |weights| - g
  {
    if k < weights[g] then g else GroupOf(weights, g + 1, k - weights[g])
  }

  /** A weighted table as a sequence: entry k is the tile of the group that holds it. */
  function Table(tiles: seq<string>, weights: seq<nat>): (letters: seq<string>)
    requires |tiles| == |weights|
    ensures |letters| == SumFrom(weights, 0)
    ensures forall i :: 0 <= i < |letters| ==> letters[i] in tiles
  {
    seq(SumFrom(weights, 0), k requires 0 <= k < SumFrom(weights, 0) => tiles[GroupOf(weights, 0, k)])
  }

  /**
   * The letter table (createLetterDistribution): 96 entries, each one of
   * the 26 tiles.
   */
  function CreateLetterDistribution(): (letters: seq<string>)
    ensures |letters| == LetterCount
    ensures forall i :: 0 <= i < |letters| ==> IsTile(letters[i])
  {
    WeightsTotal();
    Table(Tiles, Weights)
  }

  lemma {:induction false} ExpandFromAt(tiles: seq<string>, weights: seq<nat>, g: nat, k: nat)
    requires |tiles| == |weights| && g <= |tiles| && k < SumFrom(weights, g)
    ensures ExpandFrom(tiles, weights, g)[k] == tiles[GroupOf(weights, g, k)]
    decreases |tiles| - g
  {
    if k >= weights[g] {
      ExpandFromAt(tiles, weights, g + 1, k - weights[g]);
    }
  }

  /** The table lists its tiles group by group: weights[0] copies of tiles[0], then the next group, and so on. */
  lemma TableIsGrouped(tiles: seq<string>, weights: seq<nat>)
    requires |tiles| == |weights|
    ensures Table(tiles, weights) == ExpandFrom(tiles, weights, 0)
  {
    var t, e := Table(tiles, weights), ExpandFrom(tiles, weights, 0);
    forall k | 0 <= k < |t|
      ensures t[k] == e[k]
    {
      ExpandFromAt(tiles, weights, 0, k);
    }
  }

  function Count(s: seq<string>, t: string): nat
  {
    if s == [] then 0 else (if s[0] == t then 1 else 0) + Count(s[1..], t)
  }

  lemma {:induction false} CountConcat(a: seq<string>, b: seq<string>, t: string)
    ensures Count(a + b, t) == Count(a, t) + Count(b, t)
  {
    if a == [] {
      assert a + b == b;
    } else {
      assert (a + b)[1..] == a[1..] + b;
      CountConcat(a[1..], b, t);
    }
  }

  lemma {:induction false} CountRepeat(u: string, n: nat, t: string)
    ensures Count(Repeat(u, n), t) == if u == t then n else 0
  {
    if n > 0 {
      assert Repeat(u, n)[1..] == Repeat(u, n - 1);
      CountRepeat(u, n - 1, t);
    }
  }

  lemma {:induction false} CountExpandFrom(tiles: seq<string>, weights: seq<nat>, k: nat, m: nat)
    requires |tiles| == |weights| && k <= |tiles| && m < |tiles|
    requires forall i, j :: 0 <= i < j < |tiles| ==> tiles[i] != tiles[j]
    ensures Count(ExpandFrom(tiles, weights, k), tiles[m]) == if k <= m then weights[m] else 0
    decreases |tiles| - k
  {
    if k < |tiles| {
      var group, rest := Repeat(tiles[k], weights[k]), ExpandFrom(tiles, weights, k + 1);
      CountConcat(group, rest, tiles[m]);
      CountRepeat(tiles[k], weights[k], tiles[m]);
      CountExpandFrom(tiles, weights, k + 1, m);
    }
  }

  lemma TilesDistinct()
    ensures forall i, j :: 0 <= i < j < |Tiles| ==> Tiles[i] != Tiles[j]
  {
  }

  /** Tile Tiles[m] occurs exactly Weights[m] times in the letter table (A x8, E x10, Qu x1, ...). */
  lemma LetterMultiplicities(m: nat)
    requires m < |Tiles|
    ensures Count(CreateLetterDistribution(), Tiles[m]) == Weights[m]
  {
    TilesDistinct();
    TableIsGrouped(Tiles, Weights);
    CountExpandFrom(Tiles, Weights, 0, m);
  }

  /**
   * Where the draw for cell (i, j) sits in the draw sequence: the nested
   * loop of generateBoard consumes draws row by row.
   */
  function DrawIndex(n: nat, i: nat, j: nat): (k: nat)
    requires i < n && j < n
    ensures k < n * n
  {
    MulMonotone(i, n - 1, n);
    i * n + j
  }

  lemma MulMonotone(a: nat, b: nat, n: nat)
    requires a <= b
    ensures a * n <= b * n
  {
    assert b * n == a * n + (b - a) * n;
  }

  /** Row i + 1 starts right after the n draws of row i. */
  lemma NextRowStart(n: nat, i: nat)
    ensures i * n + n == (i + 1) * n
  {
  }

  /** Every draw of row i comes before the first draw of a later row p. */
  lemma RowStartsAfterRow(n: nat, i: nat, p: nat)
    requires i < p
    ensures i * n + n <= p * n
  {
    MulMonotone(i + 1, p, n);
    assert (i + 1) * n == i * n + n;
  }

  /** Distinct cells consume distinct draws. */
  lemma DrawIndexInjective(n: nat, i: nat, j: nat, p: nat, q: nat)
    requires i < n && j < n && p < n && q < n
    requires DrawIndex(n, i, j) == DrawIndex(n, p, q)
    ensures i == p && j == q
  {
    if i < p {
      RowStartsAfterRow(n, i, p);
      assert false;
    } else if p < i {
      RowStartsAfterRow(n, p, i);
      assert false;
    }
  }

  /** What a random source may supply for an n x n board: one table index in [0, 96) per cell. */
  predicate ValidDraws(n: nat, draws: seq<int>) {
    |draws| == n * n && forall k :: 0 <= k < |draws| ==> 0 <= draws[k] < LetterCount
  }

  /** The tile that the draws select for cell (i, j) of an n x n board. */
  function Drawn(n: nat, draws: seq<int>, i: nat, j: nat): (t: string)
    requires ValidDraws(n, draws) && i < n && j < n
    ensures IsTile(t)
  {
    CreateLetterDistribution()[draws[DrawIndex(n, i, j)]]
  }

  class BoggleBoard {
    /** Cell grid; the source's String[][] of board.length rows of board.length cells. */
    var board: array2<string>

    /** The board is square and every cell holds a tile (none is left unset). */
    ghost predicate Valid()
      reads this, board
    {
      && board.Length0 == board.Length1
      && forall i, j :: 0 <= i < board.Length0 && 0 <= j < board.Length1 ==> IsTile(board[i, j])
    }

    /** Dimension of the board (size). */
    function Size(): (n: nat)
      reads this
      ensures n == board.Length0
    {
      board.Length0
    }

    /** A size x size board whose cell (i, j) holds the table entry drawn for it. */
    constructor (size: int, draws: seq<int>)
      requires size >= 0 && ValidDraws(size, draws)
      ensures Valid() && fresh(board) && Size() == size
      ensures forall i, j :: 0 <= i < size && 0 <= j < size ==>
                board[i, j] == Drawn(size, draws, i, j)
    {
      board := new string[size, size];
      new;
      GenerateBoard(draws);
    }

    /** A DefaultSize x DefaultSize board. */
    constructor Default(draws: seq<int>)
      requires ValidDraws(DefaultSize, draws)
      ensures Valid() && fresh(board) && Size() == DefaultSize
      ensures forall i, j :: 0 <= i < DefaultSize && 0 <= j < DefaultSize ==>
                board[i, j] == Drawn(DefaultSize, draws, i, j)
    {
      board := new string[DefaultSize, DefaultSize];
      new;
      GenerateBoard(draws);
    }

    /** Fills every cell, row by row, with the table entry its draw selects. */
    method GenerateBoard(draws: seq<int>)
      requires board.Length0 == board.Length1 && ValidDraws(board.Length0, draws)
      modifies board
      ensures Valid()
      ensures forall i, j :: 0 <= i < board.Length0 && 0 <= j < board.Length0 ==>
                board[i, j] == Drawn(board.Length0, draws, i, j)
    {
      var letters := CreateLetterDistribution();
      var n := board.Length0;
      for i := 0 to n
        invariant forall p, q :: 0 <= p < i && 0 <= q < n ==> board[p, q] == Drawn(n, draws, p, q)
      {
        for j := 0 to n
          invariant forall p, q :: 0 <= p < i && 0 <= q < n ==> board[p, q] == Drawn(n, draws, p, q)
          invariant forall q :: 0 <= q < j ==> board[i, q] == Drawn(n, draws, i, q)
        {
          board[i, j] := letters[draws[DrawIndex(n, i, j)]];
        }
        assert forall p, q :: 0 <= p <= i && 0 <= q < n ==> board[p, q] == Drawn(n, draws, p, q);
      }
    }

    /**
     * The tile at (x, y) (getCell); a coordinate outside [0, size) is the
     * source's ArrayIndexOutOfBoundsException.
     */
    function GetCell(x: int, y: int): (r: Result<string>)
      reads this, board
      requires Valid()
      ensures r.Ok? <==> 0 <= x < Size() && 0 <= y < Size()
      ensures r.Ok? ==> r.value == board[x, y] && IsTile(r.value)
    {
      if 0 <= x < board.Length0 && 0 <= y < board.Length1 then Ok(board[x, y]) else Err(OutOfBounds)
    }
  }
}
