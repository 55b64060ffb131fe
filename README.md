# Boggle in Dafny

A verified model of the core of a desktop Boggle game written in Java. It has four parts:

- **Board** (`board.dfy`, from `src/BoggleBoard.java`): an N x N grid of letter tiles. Each cell is filled from a fixed
  96-entry weighted letter table (Loggle's distribution; the letter Q is the tile `Qu`). The grid is an `array2<string>`
  filled by the source's nested loop. The random generator is replaced by an input sequence of draws, which the loop
  consumes in row-major order.
- **Button** (`button.dfy`, from `src/JBoggleButton.java`): one grid cell. It has fixed coordinates, a text tile, one of
  the three states UNAVAILABLE / AVAILABLE / SELECTED, and the enabled flag that `setState` derives from the state.
- **Selection** (`selection.dfy`) and **BoardPanel** (`board_panel.dfy`), from `src/JBoggleBoard.java`: the panel's
  click state machine.
  - `Selection` states the rules on values: the neighbour test, the state each cell should have (`StateOf`), how a click
    changes the selection (`Press`, `AfterClick`), and the word a selection spells.
  - `BoardPanel.JBoggleBoard` is the panel itself. It is a class whose fields are the button list and the selection (as
    indices into the button list). Its methods are proved against those functions. `Valid` is kept by every public
    operation (constructor, `SetBoard`, `Click`, `ClearSelections`): exactly the selected buttons are SELECTED, and a
    button is enabled exactly when it is not UNAVAILABLE. The helpers that make up `DisplayUpdate` only restore it
    together, for a selection without repeats.
  - Two predicates hold only conditionally, because `setBoard` appends buttons without recomputing states
    (`Selection.AppendedButtonBreaksChain` gives an instance):
    - `Settled`: every state is the one `displayUpdate` derives from the selection.
    - `Chained`: consecutive selected cells are neighbours.
- **Words** (`words.dfy`, from `src/WordList.java`): the dictionary. It is a set of words in normal form: trimmed of
  characters up to `' '`, with lower-case letters. Every word added and every query goes through the same `ProcessWord`.
  Loading from a file is an `addWord` per line.

Failures the source signals with exceptions are results here (`errors.dfy`):
- a cell outside the board is `Err(OutOfBounds)`;
- a board of the wrong size is `Fail(DimensionMismatch)`;
- a file that cannot be read is passed on as an `Err`.

Three behaviours of the code worth knowing:
- `new BoggleBoard(0)` builds an empty 0 x 0 board rather than failing, so `Board.BoggleBoard.constructor` accepts size 0.
- `subtract` removes a word of the other list only when that exact string is stored (`containsWord(w)`, then
  `remove(w)`). Since the stored words are normal, this is plain set difference
  (`Words.RemoveIfFound`).
- `setBoard` appends new buttons after any existing ones and leaves their states as it sets them, instead of replacing
  the grid.

## Model

| member | source | states |
|---|---|---|
| Board.WeightsTotal | src/BoggleBoard.java:58-66 | the letter table's group sizes add up to 96 entries |
| Board.CreateLetterDistribution | src/BoggleBoard.java:57-68 | the table has exactly 96 entries and each one is one of the 26 tiles (Q appears only as `Qu`) |
| Board.TableIsGrouped | src/BoggleBoard.java:58-65 | the table lists each tile's copies together, in tile order (8 A, then 3 B, ...) |
| Board.LetterMultiplicities | src/BoggleBoard.java:58-65 | each tile occurs in the table exactly as often as its weight (A 8 times, E 10, Qu once, ...) |
| Board.DrawIndex | src/BoggleBoard.java:43-46 | the draw for cell (i, j) is one of the n * n draws a board consumes |
| Board.DrawIndexInjective | src/BoggleBoard.java:43-46 | row-major order gives distinct cells distinct draws |
| Board.Drawn | src/BoggleBoard.java:46 | the entry a draw selects is always a tile |
| BoardPanel.DrawOrderCoversGrid | src/JBoggleBoard.java:58-71 | n * n cells listed by draw index contain each cell (i, j) exactly at its draw index |
| Board.BoggleBoard.constructor | src/BoggleBoard.java:31-34 | a fresh size x size board; every cell holds the tile its draw selects |
| Board.BoggleBoard.Default | src/BoggleBoard.java:21-23 | the same for the default size 4 |
| Board.BoggleBoard.GenerateBoard | src/BoggleBoard.java:40-49 | after the nested loop every cell holds the tile its draw selects, so no cell is left unset |
| Board.BoggleBoard.Size | src/BoggleBoard.java:74-76 | the dimension is the number of rows of the grid |
| Board.BoggleBoard.GetCell | src/BoggleBoard.java:84-86 | succeeds exactly for coordinates inside the board, and then returns that cell's tile; outside it is `OutOfBounds` |
| Button.JBoggleButton.constructor | src/JBoggleButton.java:60-73 | a button at the given non-negative coordinates, AVAILABLE and enabled, with no text |
| Button.JBoggleButton.SetState | src/JBoggleButton.java:108-130 | records the state; the button is enabled exactly when the state is not UNAVAILABLE; the text is kept |
| Button.JBoggleButton.SetText | src/JBoggleBoard.java:62 | replaces the text and keeps the state and the enabled flag |
| Selection.AreNeighbors | src/JBoggleBoard.java:155-164 | two cells are neighbours exactly when they differ by at most 1 in each coordinate (diagonals included) |
| Selection.NeighborsSymmetric | src/JBoggleBoard.java:155-164 | the neighbour relation is symmetric |
| Selection.NeighborsReflexive | src/JBoggleBoard.java:155-164 | every cell is its own neighbour |
| Selection.IndexOf | src/JBoggleBoard.java:100 | returns the first position of a selected cell |
| Selection.Press | src/JBoggleBoard.java:84-109 | an UNAVAILABLE click changes nothing; any other click leaves the clicked cell last; the result either extends the selection by that cell or is a prefix of it; no cell is ever selected twice |
| Selection.AfterClick | src/JBoggleBoard.java:84-147 | the same for a display in its derived state; the selection stays inside the board |
| Selection.ClickKeepsWellFormed | src/JBoggleBoard.java:84-147 | a click keeps the selection free of repeats and each cell adjacent to the one before it |
| Selection.ChainedExtend | src/JBoggleBoard.java:52-73 | appending buttons does not change whether the selection is a chain of neighbours |
| Selection.AppendedButtonBreaksChain | src/JBoggleBoard.java:58-72 | with (0, 0) selected, clicking an appended AVAILABLE (2, 2) extends the selection by a cell that is not a neighbour, so a chained selection stops being chained |
| Selection.ClickSelectedTruncates | src/JBoggleBoard.java:99-107 | clicking the k-th selected cell leaves exactly the first k + 1 selected cells |
| Selection.ClickLastKeepsSelection | src/JBoggleBoard.java:99-107 | clicking the last selected cell leaves the selection unchanged |
| Selection.ConcatAppend | src/JBoggleBoard.java:184-186 | concatenating one more tile appends it to the word |
| Selection.ConcatPrefix | src/JBoggleBoard.java:182-188 | the tiles' prefix spells a prefix of the word |
| Selection.SpellAppend | src/JBoggleBoard.java:92-95 | selecting one more cell appends its tile to the word |
| Selection.SpellPrefix | src/JBoggleBoard.java:99-107 | cutting the selection back leaves a prefix of the word |
| BoardPanel.JBoggleBoard.constructor | src/JBoggleBoard.java:32-44 | no buttons and nothing selected; a fresh valid board of the panel's size |
| BoardPanel.JBoggleBoard.SetBoard | src/JBoggleBoard.java:52-73 | a wrong-size board is refused and changes nothing; otherwise one fresh AVAILABLE button per cell (i, j) is appended in row-major order, at (i, j), showing that cell's tile; the old buttons and the selection are kept |
| BoardPanel.JBoggleBoard.AddCells | src/JBoggleBoard.java:58-72 | the outer loop appends size * size fresh buttons, each showing the cell of its draw index |
| BoardPanel.JBoggleBoard.AddRow | src/JBoggleBoard.java:59-71 | the inner loop appends the buttons of one row |
| BoardPanel.JBoggleBoard.AddButton | src/JBoggleBoard.java:61-70 | one new AVAILABLE button at (i, j), showing the cell's tile, is appended |
| BoardPanel.JBoggleBoard.DisplayUpdate | src/JBoggleBoard.java:117-147 | every button gets the state derived from the selection alone; SELECTED exactly for selected buttons; enabled exactly when not UNAVAILABLE; texts kept |
| BoardPanel.JBoggleBoard.SetAllStates | src/JBoggleBoard.java:120-128 | every button gets the given state and the matching enabled flag |
| BoardPanel.JBoggleBoard.MarkSelected | src/JBoggleBoard.java:131-133 | exactly the selected buttons become SELECTED; the rest stay UNAVAILABLE |
| BoardPanel.JBoggleBoard.EnableNeighbors | src/JBoggleBoard.java:136-145 | the UNAVAILABLE neighbours of the last selected button become AVAILABLE, which settles every state |
| BoardPanel.JBoggleBoard.Click | src/JBoggleBoard.java:84-109 | the selection changes as `Press` says; an UNAVAILABLE click leaves every state and flag unchanged; an AVAILABLE click appends the tile to the word; a SELECTED click leaves a prefix of the word; the panel stays valid |
| BoardPanel.JBoggleBoard.Select | src/JBoggleBoard.java:92-96 | the clicked button is appended to the selection and its tile to the word; states are recomputed |
| BoardPanel.JBoggleBoard.CutBack | src/JBoggleBoard.java:99-107 | the selection is cut back to end at the clicked button and the word to a prefix; states are recomputed |
| BoardPanel.JBoggleBoard.ClickSettled | src/JBoggleBoard.java:84-147 | on a settled display a click moves the selection as `AfterClick` says, keeps the display settled and keeps a chained selection chained |
| BoardPanel.JBoggleBoard.ClearSelections | src/JBoggleBoard.java:169-172 | empties the selection and makes every button AVAILABLE and enabled |
| BoardPanel.JBoggleBoard.GetWord | src/JBoggleBoard.java:182-188 | the word is the selected tiles concatenated in click order; empty when nothing is selected |
| Words.ToLowerChar | src/WordList.java:119 | an upper-case letter becomes its lower-case letter; other characters are kept; the result is never upper-case |
| Words.ToLower | src/WordList.java:119 | lower-cases each character in place and keeps the length |
| Words.TrimStart | src/WordList.java:119 | removes exactly the leading white space |
| Words.TrimEnd | src/WordList.java:119 | removes exactly the trailing white space |
| Words.Trim | src/WordList.java:119 | the result is the input with only white space removed before and after it, and it neither starts nor ends with white space |
| Words.ProcessWord | src/WordList.java:118-120 | processing never lengthens a word |
| Words.ProcessWordIsNormal | src/WordList.java:118-120 | processing always yields a word in normal form |
| Words.NormalIffFixedPoint | src/WordList.java:118-120 | a word is in normal form exactly when processing leaves it unchanged |
| Words.ProcessWordIdempotent | src/WordList.java:118-120 | processing twice is processing once |
| Words.ProcessWordIgnoresPadding | src/WordList.java:58-62 | white space before a word, after it, or both does not change its processed form |
| Words.TrimToLower | src/WordList.java:119 | trimming and lower-casing commute |
| Words.ProcessWordIgnoresCase | src/WordList.java:58-62 | the case of a word's letters does not change its processed form ("FiRst" and "first" are one word) |
| Words.AddedMembership | src/WordList.java:66-71 | after adding w, a word is stored exactly when it was stored before or is w's non-empty processed form |
| Words.AddedSize | src/WordList.java:66-71 | adding grows the list by one exactly when the processed word is non-empty and new |
| Words.AddedIdempotent | src/WordList.java:58-59 | adding the same word again is a no-op |
| Words.InsertKeepsNormal | src/WordList.java:66-71 | storing a normal word keeps every stored word non-empty and normal |
| Words.FoundIffSameForm | src/WordList.java:81-83 | a query is found exactly when some stored word has the same processed form |
| Words.FoldLinesIsImage | src/WordList.java:39-44 | an add per line stores exactly the non-empty images of the lines, whatever their order |
| Words.LoadedIsImage | src/WordList.java:32-47 | the loaded words are exactly the non-empty processed lines |
| Words.LoadedAllNormal | src/WordList.java:32-47 | every loaded word is non-empty and in normal form |
| Words.RemoveIfFound | src/WordList.java:101-108 | over normal words, removing w when its processed form is found is removing w |
| Words.WordList.constructor | src/WordList.java:20-22 | an empty list |
| Words.WordList.FromLines | src/WordList.java:32-47 | adding the lines one by one leaves exactly the loaded words, all normal |
| Words.WordList.FromFile | src/WordList.java:32-47 | a read failure is passed on; otherwise a fresh list of the loaded words |
| Words.WordList.Size | src/WordList.java:54-56 | the number of distinct stored words |
| Words.WordList.AddWord | src/WordList.java:66-71 | the stored words become `Added(words, w)`: w's processed form is added unless it is empty; normal form is kept |
| Words.WordList.ContainsWord | src/WordList.java:81-83 | every stored word is found, and a blank query never is |
| Words.WordList.AddWordList | src/WordList.java:90-92 | the stored words become the union of both lists |
| Words.WordList.Subtract | src/WordList.java:101-108 | the stored words become the set difference with the other list; the other list is unchanged |

## Left out

- Swing presentation is not modelled: grid layout, fonts, borders, action-listener registration, `add(button)` to the
  panel, and the `main` methods. Only the enabled flag of the toolkit button is kept, because `setState` drives it.
- `java.util.Random` is not modelled. Board generation takes the draws as an input sequence of table indices in [0, 96),
  one per cell. The model says nothing about uniformity.
- File opening and line reading are not modelled. `Words.WordList.FromFile` takes the file's lines, or the I/O error,
  as a `Result`.
- `Words.ToLowerChar`: only ASCII letters are lower-cased. Java's locale-dependent Unicode case mapping is not modelled.
- Java's `HashSet` iteration order is not modelled. The loop in `Words.WordList.Subtract` picks any remaining word,
  which covers every order.
- `Words.WordList.Subtract`: requires the other list to be a different object, so it says nothing about `subtract(this)`.
  In the source, self-subtraction of a list with two or more words throws a ConcurrentModificationException from the
  set's iterator. With zero words the loop never runs, and with one word the iteration ends normally after the removal,
  leaving the list empty. Neither of those cases is modelled either.
- `Board.BoggleBoard.constructor`: requires a size of at least 0. A negative size is the source's
  NegativeArraySizeException, which is not modelled as a result.
- `BoardPanel.JBoggleBoard.constructor`: requires size >= 1, because the source's grid layout refuses 0 rows and 0
  columns. It also requires draws for its board.
- `Board.BoggleBoard.GetCell`: the out-of-range ArrayIndexOutOfBoundsException is the result `Err(OutOfBounds)`.
- `BoardPanel.JBoggleBoard.SetBoard`: the IllegalArgumentException for a board of the wrong size is the outcome
  `Fail(DimensionMismatch)`.
- `Words.WordList.ContainsWord`: its own contract states only that stored words are found and that blank queries are
  not. The exact characterisation, "found iff some stored word has the same processed form", is the lemma
  `Words.FoundIffSameForm`. It is kept out of the function's contract because a quantified postcondition on a widely
  used function makes every proof that mentions it costly.
- Java's 32-bit `int` is not modelled: sizes and coordinates are unbounded. The source computes no product of sizes,
  and its loop counters and coordinates stay below the array length, so none of its `int` arithmetic can overflow.
  `size * size` occurs only in the model's draw count.
- The panel's `board` field is created by the constructor and never read again. The model keeps it, but no operation
  uses it.
- Button identity in `selectedButtons` is modelled as indices into the button list. `indexOf` on button objects becomes
  `Selection.IndexOf` on indices, which is the same thing because the button objects are distinct (`Distinct`).
