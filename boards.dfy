/**
 * The Boggle board and what the solver is meant to find on it: the
 * dictionary words of at least three letters spelled by a simple path of
 * Moore-adjacent cells, where a 'Q' cell spells "QU".
 */
module Boards {
  import opened Tries

  /** A board position (row, column). */
  datatype Cell = Cell(row: int, col: int)

  /** A rows-by-cols grid of letters, read with GetLetter. */
  datatype Board = Board(rows: nat, cols: nat, letters: seq<seq<char>>)
  {
    /** Rectangular and upper-case only, as a Boggle board always is. */
    ghost predicate WellFormed() {
      |letters| == rows &&
      forall i :: 0 <= i < rows ==>
        |letters[i]| == cols && forall j :: 0 <= j < cols ==> IsUpper(letters[i][j])
    }

    predicate InBounds(c: Cell) {
      0 <= c.row < rows && 0 <= c.col < cols
    }

    function GetLetter(i: int, j: int): (ch: char)
      requires WellFormed() && InBounds(Cell(i, j))
      ensures IsUpper(ch)
    {
      letters[i][j]
    }
  }

  /** What one cell contributes to a word: 'Q' stands for "QU". */
  function Tile(ch: char): (s: string)
    ensures IsUpper(ch) ==> ValidKey(s)
    ensures |s| == (if ch == 'Q' then 2 else 1) && s[0] == ch
    ensures ch == 'Q' ==> s == "QU"
  {
    if ch == 'Q' then "QU" else [ch]
  }

  /** All cells of the board. */
  ghost function Cells(b: Board): set<Cell> {
    set i, j | 0 <= i < b.rows && 0 <= j < b.cols :: Cell(i, j)
  }

  /** Two distinct cells that touch horizontally, vertically or diagonally. */
  predicate Adjacent(a: Cell, c: Cell) {
    a != c && -1 <= a.row - c.row <= 1 && -1 <= a.col - c.col <= 1
  }

  /** In-bounds cells, each adjacent to the next, none used twice. */
  ghost predicate IsPath(b: Board, p: seq<Cell>) {
    (forall i :: 0 <= i < |p| ==> b.InBounds(p[i])) &&
    (forall i :: 0 <= i < |p| - 1 ==> Adjacent(p[i], p[i + 1])) &&
    (forall i, j :: 0 <= i < j < |p| ==> p[i] != p[j])
  }

  /** The letters read along a path, one tile per cell. */
  function Spell(b: Board, p: seq<Cell>): (s: string)
    requires b.WellFormed() && forall i :: 0 <= i < |p| ==> b.InBounds(p[i])
    ensures ValidKey(s) && |s| >= |p|
  {
    if p == [] then "" else Tile(b.GetLetter(p[0].row, p[0].col)) + Spell(b, p[1..])
  }

  /** The words the solver must report for board `b` and dictionary `dict`. */
  ghost function ValidWords(b: Board, dict: set<string>): set<string>
    requires b.WellFormed()
  {
    set w | w in dict && |w| >= 3 && exists p :: IsPath(b, p) && Spell(b, p) == w
  }

  /** A path from `start` that keeps off the cells in `avoid`. */
  ghost predicate Traces(b: Board, avoid: set<Cell>, start: Cell, p: seq<Cell>) {
    IsPath(b, p) && |p| >= 1 && p[0] == start &&
    forall i :: 0 <= i < |p| ==> p[i] !in avoid
  }

  /**
   * The dictionary words of at least three letters that extend `prefix` by
   * the spelling of a path from `start` avoiding `avoid`: what a search from
   * `start` with the cells of `avoid` in use must add.
   */
  ghost function Words(b: Board, dict: set<string>, prefix: string, avoid: set<Cell>, start: Cell): set<string>
    requires b.WellFormed()
  {
    set w | w in dict && |w| >= 3 &&
      exists p {:trigger Traces(b, avoid, start, p)} :: Traces(b, avoid, start, p) && w == prefix + Spell(b, p)
  }

  /** `a` is in the rows -1 <= a.row - c.row < i around `c`, one column either side of it. */
  predicate Near(c: Cell, a: Cell, i: int) {
    -1 <= a.row - c.row < i && -1 <= a.col - c.col <= 1
  }

  /**
   * The words a search from `start` finds, described recursively: nothing
   * from outside the board, and otherwise `FoundIn`.
   */
  ghost function Found(b: Board, dict: set<string>, prefix: string, avoid: set<Cell>, start: Cell): set<string>
    requires b.WellFormed()
    decreases |Cells(b) - avoid|, 1, 2
  {
    if !b.InBounds(start) then {} else FoundIn(b, dict, prefix, avoid, start)
  }

  /** The words a search from a cell on the board finds: nothing from a cell in use, and otherwise `FoundAt`. */
  ghost function FoundIn(b: Board, dict: set<string>, prefix: string, avoid: set<Cell>, start: Cell): set<string>
    requires b.WellFormed() && b.InBounds(start)
    decreases |Cells(b) - avoid|, 1, 1
  {
    if start in avoid then {} else FoundAt(b, dict, prefix, avoid, start)
  }

  /**
   * The words a search from a free cell `start` on the board finds: the
   * prefix extended by the start tile when that is a dictionary word of at
   * least three letters, and the words found from the nine cells around
   * `start` with `start` in use.
   */
  ghost function FoundAt(b: Board, dict: set<string>, prefix: string, avoid: set<Cell>, start: Cell): set<string>
    requires b.WellFormed() && b.InBounds(start) && start !in avoid
    decreases |Cells(b) - avoid|, 0, 0
  {
    var ext := prefix + Tile(b.GetLetter(start.row, start.col));
    CellsShrink(b, avoid, start);
    (if ext in dict && |ext| >= 3 then {ext} else {}) + FoundRows(b, dict, ext, avoid + {start}, start, 2)
  }

  /** The words found from the cells of the rows c.row + i' with -1 <= i' < i, columns c.col - 1 to c.col + 1. */
  ghost function FoundRows(b: Board, dict: set<string>, prefix: string, avoid: set<Cell>, c: Cell, i: int): set<string>
    requires b.WellFormed()
    decreases |Cells(b) - avoid|, 3, i + 1
  {
    if i <= -1 then {}
    else FoundRows(b, dict, prefix, avoid, c, i - 1) + FoundRow(b, dict, prefix, avoid, c, i - 1, 2)
  }

  /** The words found from the cells (c.row + i, c.col + j') with -1 <= j' < j. */
  ghost function FoundRow(b: Board, dict: set<string>, prefix: string, avoid: set<Cell>, c: Cell, i: int, j: int): set<string>
    requires b.WellFormed()
    decreases |Cells(b) - avoid|, 2, j + 1
  {
    if j <= -1 then {}
    else FoundRow(b, dict, prefix, avoid, c, i, j - 1) + Found(b, dict, prefix, avoid, Cell(c.row + i, c.col + j - 1))
  }

  /** Putting an in-bounds cell in use leaves fewer cells free. */
  lemma CellsShrink(b: Board, avoid: set<Cell>, start: Cell)
    requires b.InBounds(start) && start !in avoid
    ensures |Cells(b) - (avoid + {start})| < |Cells(b) - avoid|
  {
    assert start in Cells(b);
    assert Cells(b) - avoid == (Cells(b) - (avoid + {start})) + {start};
  }

  /** The words found by searches started at the cells before (r, c) in row-major order. */
  ghost function StartedBefore(b: Board, dict: set<string>, r: int, c: int): set<string>
    requires b.WellFormed()
  {
    set w | w in dict &&
      exists i, j {:trigger Words(b, dict, "", {}, Cell(i, j))} ::
        0 <= i && 0 <= j < b.cols && (i < r || (i == r && j < c)) && w in Words(b, dict, "", {}, Cell(i, j))
  }

  /** Words are found only from an in-bounds start that is not in use. */
  lemma WordsStart(b: Board, dict: set<string>, prefix: string, avoid: set<Cell>, start: Cell)
    requires b.WellFormed()
    ensures Words(b, dict, prefix, avoid, start) != {} ==> b.InBounds(start) && start !in avoid
  {
    if Words(b, dict, prefix, avoid, start) != {} {
      var w :| w in Words(b, dict, prefix, avoid, start);
      var p :| Traces(b, avoid, start, p) && w == prefix + Spell(b, p);
      assert b.InBounds(p[0]) && p[0] !in avoid;
    }
  }

  /** The spelling of a path is its first tile followed by the spelling of the rest. */
  lemma SpellCons(b: Board, p: seq<Cell>)
    requires b.WellFormed() && |p| >= 1 && forall i :: 0 <= i < |p| ==> b.InBounds(p[i])
    ensures Spell(b, p) == Tile(b.GetLetter(p[0].row, p[0].col)) + Spell(b, p[1..])
  {
  }

  /**
   * Every word found from `start` extends the prefix by the start tile:
   * this is why pruning on the extended prefix loses no word.
   */
  lemma WordsExtend(b: Board, dict: set<string>, prefix: string, avoid: set<Cell>, start: Cell)
    requires b.WellFormed() && b.InBounds(start)
    ensures forall w :: w in Words(b, dict, prefix, avoid, start) ==>
      w in dict && |w| >= 3 && prefix + Tile(b.GetLetter(start.row, start.col)) <= w
  {
    var ext := prefix + Tile(b.GetLetter(start.row, start.col));
    forall w | w in Words(b, dict, prefix, avoid, start) ensures ext <= w {
      var p :| Traces(b, avoid, start, p) && w == prefix + Spell(b, p);
      SpellCons(b, p);
      assert w == ext + Spell(b, p[1..]);
    }
  }

  /**
   * Pruning is sound: when no dictionary word starts with the prefix
   * extended by the start tile, no word is found from `start`.
   */
  lemma WordsPruned(b: Board, dict: set<string>, prefix: string, avoid: set<Cell>, start: Cell)
    requires b.WellFormed() && b.InBounds(start)
    requires !exists k :: k in dict && prefix + Tile(b.GetLetter(start.row, start.col)) <= k
    ensures Words(b, dict, prefix, avoid, start) == {}
  {
    WordsExtend(b, dict, prefix, avoid, start);
  }

  /** `FoundRow` collects exactly the words found from the first `j + 1` cells of row c.row + i. */
  lemma {:induction false} FoundRowHas(b: Board, dict: set<string>, prefix: string, avoid: set<Cell>, c: Cell, i: int, j: int, w: string)
    requires b.WellFormed()
    ensures w in FoundRow(b, dict, prefix, avoid, c, i, j) <==>
      exists a: Cell :: a.row == c.row + i && -1 <= a.col - c.col < j && w in Found(b, dict, prefix, avoid, a)
    decreases j + 1
  {
    if j > -1 {
      FoundRowHas(b, dict, prefix, avoid, c, i, j - 1, w);
      if w in Found(b, dict, prefix, avoid, Cell(c.row + i, c.col + j - 1)) {
        var a := Cell(c.row + i, c.col + j - 1);
        assert a.row == c.row + i && -1 <= a.col - c.col < j;
      }
    }
  }

  /** `FoundRows` collects exactly the words found from a cell near `c` in its first `i + 1` rows. */
  lemma {:induction false} FoundRowsHas(b: Board, dict: set<string>, prefix: string, avoid: set<Cell>, c: Cell, i: int, w: string)
    requires b.WellFormed()
    ensures w in FoundRows(b, dict, prefix, avoid, c, i) <==>
      exists a :: Near(c, a, i) && w in Found(b, dict, prefix, avoid, a)
    decreases i + 1
  {
    if i > -1 {
      FoundRowsHas(b, dict, prefix, avoid, c, i - 1, w);
      FoundRowHas(b, dict, prefix, avoid, c, i - 1, 2, w);
    }
  }

  /** The search from cell (c.row + i, c.col + j) extends the words found along row c.row + i. */
  lemma RowNext(b: Board, dict: set<string>, prefix: string, avoid: set<Cell>, c: Cell, i: int, j: int, d: Cell,
                base: set<string>, before: set<string>, after: set<string>)
    requires b.WellFormed() && -1 <= j && d == Cell(c.row + i, c.col + j)
    requires before == base + FoundRow(b, dict, prefix, avoid, c, i, j)
    requires after == before + Found(b, dict, prefix, avoid, d)
    ensures after == base + FoundRow(b, dict, prefix, avoid, c, i, j + 1)
  {
  }

  /** A finished row extends the words found from the rows above it. */
  lemma RowsNext(b: Board, dict: set<string>, prefix: string, avoid: set<Cell>, c: Cell, i: int,
                 base: set<string>, before: set<string>, after: set<string>)
    requires b.WellFormed() && -1 <= i
    requires before == base + FoundRows(b, dict, prefix, avoid, c, i)
    requires after == before + FoundRow(b, dict, prefix, avoid, c, i, 2)
    ensures after == base + FoundRows(b, dict, prefix, avoid, c, i + 1)
  {
  }

  /** The step that closes a search from `start`: its own word, then the words around it. */
  lemma Unfolded(b: Board, dict: set<string>, prefix: string, avoid: set<Cell>, start: Cell,
                 before: set<string>, middle: set<string>, after: set<string>)
    requires b.WellFormed() && b.InBounds(start) && start !in avoid
    requires var ext := prefix + Tile(b.GetLetter(start.row, start.col));
      middle == before + (if ext in dict && |ext| >= 3 then {ext} else {}) &&
      after == middle + FoundRows(b, dict, ext, avoid + {start}, start, 2)
    ensures after == before + FoundAt(b, dict, prefix, avoid, start)
  {
  }

  /** A path from a cell near `c` avoiding `avoid` and `c`, with `c` put in front. */
  lemma Extend(b: Board, avoid: set<Cell>, c: Cell, a: Cell, q: seq<Cell>)
    requires b.InBounds(c) && c !in avoid && Near(c, a, 2)
    requires Traces(b, avoid + {c}, a, q)
    ensures Traces(b, avoid, c, [c] + q) && ([c] + q)[1..] == q
  {
    var p := [c] + q;
    forall i, j | 0 <= i < j < |p| ensures p[i] != p[j] {
      if i == 0 {
        assert p[j] == q[j - 1] && q[j - 1] !in avoid + {c};
      } else {
        assert p[i] == q[i - 1] && p[j] == q[j - 1];
      }
    }
    forall i | 0 <= i < |p| - 1 ensures Adjacent(p[i], p[i + 1]) {
      if i > 0 {
        assert p[i] == q[i - 1] && p[i + 1] == q[i];
      } else {
        assert p[1] == q[0] == a && q[0] !in avoid + {c};
      }
    }
  }

  /** A path of two or more cells, without its first cell. */
  lemma Shorten(b: Board, avoid: set<Cell>, start: Cell, p: seq<Cell>)
    requires Traces(b, avoid, start, p) && |p| >= 2
    ensures Traces(b, avoid + {start}, p[1], p[1..]) && Adjacent(start, p[1])
  {
    var q := p[1..];
    forall i | 0 <= i < |q| ensures q[i] !in avoid + {start} {
      assert q[i] == p[i + 1] && p[0] != p[i + 1];
    }
    forall i | 0 <= i < |q| - 1 ensures Adjacent(q[i], q[i + 1]) {
      assert q[i] == p[i + 1] && q[i + 1] == p[i + 2];
    }
    forall i, j | 0 <= i < j < |q| ensures q[i] != q[j] {
      assert q[i] == p[i + 1] && q[j] == p[j + 1];
    }
    assert Adjacent(p[0], p[1]);
  }

  /**
   * A word found from `start` is the extended prefix itself, or it is found
   * from a cell near `start` with the start in use.
   */
  lemma WordsSplit(b: Board, dict: set<string>, prefix: string, avoid: set<Cell>, start: Cell, w: string)
    requires b.WellFormed() && b.InBounds(start) && w in Words(b, dict, prefix, avoid, start)
    ensures var ext := prefix + Tile(b.GetLetter(start.row, start.col));
      (w == ext && ext in dict && |ext| >= 3) ||
      exists a :: Near(start, a, 2) && w in Words(b, dict, ext, avoid + {start}, a)
  {
    var ext := prefix + Tile(b.GetLetter(start.row, start.col));
    var p :| Traces(b, avoid, start, p) && w == prefix + Spell(b, p);
    SpellCons(b, p);
    if |p| == 1 {
      assert p[1..] == [];
      assert w == ext;
    } else {
      Shorten(b, avoid, start, p);
      assert w == ext + Spell(b, p[1..]);
      assert w in Words(b, dict, ext, avoid + {start}, p[1]) && Near(start, p[1], 2);
    }
  }

  /** A word found from a cell near `start`, with the start in use, is found from `start`. */
  lemma WordsJoin(b: Board, dict: set<string>, prefix: string, avoid: set<Cell>, start: Cell, a: Cell, w: string)
    requires b.WellFormed() && b.InBounds(start) && start !in avoid && Near(start, a, 2)
    requires w in Words(b, dict, prefix + Tile(b.GetLetter(start.row, start.col)), avoid + {start}, a)
    ensures w in Words(b, dict, prefix, avoid, start)
  {
    var t := Tile(b.GetLetter(start.row, start.col));
    var q :| Traces(b, avoid + {start}, a, q) && w == prefix + t + Spell(b, q);
    Extend(b, avoid, start, a, q);
    SpellCons(b, [start] + q);
    assert Spell(b, [start] + q) == t + Spell(b, q);
    assert w == prefix + (t + Spell(b, q));
  }

  /** The extended prefix itself is found when it is a dictionary word of at least three letters. */
  lemma WordsHere(b: Board, dict: set<string>, prefix: string, avoid: set<Cell>, start: Cell)
    requires b.WellFormed() && b.InBounds(start) && start !in avoid
    requires prefix + Tile(b.GetLetter(start.row, start.col)) in dict
    requires |prefix + Tile(b.GetLetter(start.row, start.col))| >= 3
    ensures prefix + Tile(b.GetLetter(start.row, start.col)) in Words(b, dict, prefix, avoid, start)
  {
    var p := [start];
    assert Traces(b, avoid, start, p);
    SpellCons(b, p);
    assert p[1..] == [];
  }

  /**
   * The recursive description of the search agrees with the path-based
   * one: from every start, a word is found by one exactly when it is
   * found by the other.
   */
  lemma {:induction false} FoundIsWordsAt(b: Board, dict: set<string>, prefix: string, avoid: set<Cell>, start: Cell, w: string)
    requires b.WellFormed()
    ensures w in Found(b, dict, prefix, avoid, start) <==> w in Words(b, dict, prefix, avoid, start)
    decreases |Cells(b) - avoid|
  {
    WordsStart(b, dict, prefix, avoid, start);
    if b.InBounds(start) && start !in avoid {
      var ext := prefix + Tile(b.GetLetter(start.row, start.col));
      var avoid' := avoid + {start};
      CellsShrink(b, avoid, start);
      assert Found(b, dict, prefix, avoid, start) == FoundAt(b, dict, prefix, avoid, start);
      FoundRowsHas(b, dict, ext, avoid', start, 2, w);
      if w == ext && ext in dict && |ext| >= 3 {
        WordsHere(b, dict, prefix, avoid, start);
      } else {
        if w in Found(b, dict, prefix, avoid, start) {
          var a :| Near(start, a, 2) && w in Found(b, dict, ext, avoid', a);
          FoundIsWordsAt(b, dict, ext, avoid', a, w);
          WordsJoin(b, dict, prefix, avoid, start, a, w);
        }
        if w in Words(b, dict, prefix, avoid, start) {
          WordsSplit(b, dict, prefix, avoid, start, w);
          var a :| Near(start, a, 2) && w in Words(b, dict, ext, avoid', a);
          FoundIsWordsAt(b, dict, ext, avoid', a, w);
        }
      }
    }
  }

  /** The search finds exactly the words `Words` names. */
  lemma FoundIsWords(b: Board, dict: set<string>, prefix: string, avoid: set<Cell>, start: Cell)
    requires b.WellFormed()
    ensures Found(b, dict, prefix, avoid, start) == Words(b, dict, prefix, avoid, start)
  {
    forall w ensures w in Found(b, dict, prefix, avoid, start) <==> w in Words(b, dict, prefix, avoid, start) {
      FoundIsWordsAt(b, dict, prefix, avoid, start, w);
    }
  }

  /**
   * Pruning is sound for the search as well: when no dictionary word
   * starts with the prefix extended by the start tile, it finds nothing.
   */
  lemma FoundPruned(b: Board, dict: set<string>, prefix: string, avoid: set<Cell>, start: Cell)
    requires b.WellFormed() && b.InBounds(start)
    requires !exists k :: k in dict && prefix + Tile(b.GetLetter(start.row, start.col)) <= k
    ensures Found(b, dict, prefix, avoid, start) == {}
  {
    FoundIsWords(b, dict, prefix, avoid, start);
    WordsPruned(b, dict, prefix, avoid, start);
  }

  /** Nothing is started before the first cell. */
  lemma StartedBeforeNothing(b: Board, dict: set<string>)
    requires b.WellFormed()
    ensures StartedBefore(b, dict, 0, 0) == {}
  {
  }

  /** Starting one more cell along a row adds the words found from that cell. */
  lemma StartedBeforeStep(b: Board, dict: set<string>, r: int, c: int)
    requires b.WellFormed() && 0 <= c < b.cols
    ensures StartedBefore(b, dict, r, c + 1) == StartedBefore(b, dict, r, c) + Words(b, dict, "", {}, Cell(r, c))
  {
  }

  /** A search from (r, c) with nothing in use extends the words started before it. */
  lemma SolveStep(b: Board, dict: set<string>, r: int, c: int, base: set<string>, before: set<string>, after: set<string>)
    requires b.WellFormed() && 0 <= c < b.cols
    requires before == base + StartedBefore(b, dict, r, c)
    requires after == before + Found(b, dict, "", {}, Cell(r, c))
    ensures after == base + StartedBefore(b, dict, r, c + 1)
  {
    FoundIsWords(b, dict, "", {}, Cell(r, c));
    StartedBeforeStep(b, dict, r, c);
  }

  /** Finishing a row is starting the next one. */
  lemma StartedBeforeRow(b: Board, dict: set<string>, r: int)
    requires b.WellFormed()
    ensures StartedBefore(b, dict, r, b.cols) == StartedBefore(b, dict, r + 1, 0)
  {
  }

  /** A valid word is spelled along a path from some cell with nothing in use. */
  lemma ValidIsStarted(b: Board, dict: set<string>, w: string)
    requires b.WellFormed() && w in ValidWords(b, dict)
    ensures w in StartedBefore(b, dict, b.rows, 0)
  {
    var p :| IsPath(b, p) && Spell(b, p) == w;
    assert |p| >= 1;
    assert Traces(b, {}, p[0], p);
    assert w == "" + Spell(b, p);
    var c: Cell := p[0];
    assert w in Words(b, dict, "", {}, Cell(c.row, c.col));
  }

  /** A word spelled along a path from some cell is a valid word. */
  lemma StartedIsValid(b: Board, dict: set<string>, w: string)
    requires b.WellFormed() && w in StartedBefore(b, dict, b.rows, 0)
    ensures w in ValidWords(b, dict)
  {
    var i, j :| 0 <= i && 0 <= j < b.cols && i < b.rows && w in Words(b, dict, "", {}, Cell(i, j));
    var p :| Traces(b, {}, Cell(i, j), p) && w == "" + Spell(b, p);
    assert "" + Spell(b, p) == Spell(b, p);
    assert IsPath(b, p) && Spell(b, p) == w;
  }

  /**
   * Searching from every cell with nothing in use and an empty prefix finds
   * exactly the valid words of the board.
   */
  lemma StartedEverywhere(b: Board, dict: set<string>)
    requires b.WellFormed()
    ensures StartedBefore(b, dict, b.rows, 0) == ValidWords(b, dict)
  {
    forall w | w in ValidWords(b, dict) ensures w in StartedBefore(b, dict, b.rows, 0) {
      ValidIsStarted(b, dict, w);
    }
    forall w | w in StartedBefore(b, dict, b.rows, 0) ensures w in ValidWords(b, dict) {
      StartedIsValid(b, dict, w);
    }
  }
}
