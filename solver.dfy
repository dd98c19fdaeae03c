/**
 * The Boggle solver (src/BoggleSolver.java): a trie holding the dictionary,
 * and a backtracking search from every cell that extends a prefix one tile
 * at a time, prunes prefixes no dictionary word starts with, and records the
 * dictionary words of at least three letters it spells.
 */
module Solver {
  import opened Wrappers
  import opened Tries
  import opened Boards

  /**
   * The table the constructor builds: every entry of the dictionary, keyed
   * to the position of its last occurrence (later duplicates overwrite).
   */
  function Indexed(dictionary: seq<string>): (m: map<string, int>)
    ensures forall i :: 0 <= i < |dictionary| ==> dictionary[i] in m
    ensures forall w :: w in m ==>
      0 <= m[w] < |dictionary| && dictionary[m[w]] == w &&
      forall j :: m[w] < j < |dictionary| ==> dictionary[j] != w
  {
    if dictionary == [] then map[]
    else
      var n := |dictionary| - 1;
      Indexed(dictionary[..n])[dictionary[n] := n]
  }

  /** Indexing one more entry overwrites its key with its position. */
  lemma IndexedStep(dictionary: seq<string>, i: int)
    requires 0 <= i < |dictionary|
    ensures Indexed(dictionary[..i + 1]) == Indexed(dictionary[..i])[dictionary[i] := i]
  {
    assert dictionary[..i + 1][..i] == dictionary[..i];
  }

  /**
   * The Boggle points for a word of `n` letters, by table: nothing below
   * three letters, and every word of eight or more scores as eight.
   */
  function Points(n: nat): int {
    [0, 0, 0, 1, 1, 2, 3, 5, 11][if n >= 8 then 8 else n]
  }

  /** The result of scoreOf: a score, or the IllegalArgumentException thrown for null. */
  datatype ScoreResult = Score(points: int) | IllegalArgument

  class BoggleSolver {
    const gameDictionary: Trie
    var foundWords: set<string>
    var visited: array2?<bool>
    var width: int
    var height: int
    var myBoard: Board

    /** The dictionary trie is well formed and owned by no one else. */
    ghost predicate Valid()
      reads gameDictionary, gameDictionary.Repr
    {
      gameDictionary.Valid() && this !in gameDictionary.Repr
    }

    /** The dictionary words. */
    ghost function Dictionary(): set<string>
      reads gameDictionary
    {
      gameDictionary.Contents.Keys
    }

    /**
     * The state of a search whose current path uses the cells `onPath`:
     * the recorded board dimensions match the board, and exactly the cells
     * on the path are marked visited.
     */
    ghost predicate Searching(onPath: set<Cell>)
      reads this, visited, gameDictionary, gameDictionary.Repr
    {
      Valid() && myBoard.WellFormed() && height == myBoard.rows && width == myBoard.cols &&
      visited != null && visited.Length0 == height && visited.Length1 == width &&
      visited !in gameDictionary.Repr &&
      forall i, j {:trigger visited[i, j]} :: 0 <= i < height && 0 <= j < width ==> (visited[i, j] <==> Cell(i, j) in onPath)
    }

    /** Stores every dictionary entry in the trie, with the running counter as its value. */
    constructor (dictionary: seq<string>)
      requires forall i :: 0 <= i < |dictionary| ==> ValidKey(dictionary[i])
      ensures Valid() && fresh(gameDictionary.Repr)
      ensures gameDictionary.Contents == Indexed(dictionary)
    {
      var t := Load(dictionary);
      gameDictionary := t;
      foundWords := {};
      visited := null;
      width, height := 0, 0;
      myBoard := Board(0, 0, []);
    }

    /** The constructor's loop: puts dictionary[i] with value i, for i in order. */
    static method Load(dictionary: seq<string>) returns (t: Trie)
      requires forall i :: 0 <= i < |dictionary| ==> ValidKey(dictionary[i])
      ensures t.Valid() && fresh(t.Repr)
      ensures t.Contents == Indexed(dictionary)
    {
      t := new Trie();
      var val := 0;
      for i := 0 to |dictionary|
        invariant t.Valid() && fresh(t.Repr)
        invariant val == i && t.Contents == Indexed(dictionary[..i])
      {
        t.Put(dictionary[i], val);
        val := val + 1;
        IndexedStep(dictionary, i);
      }
      assert dictionary[..|dictionary|] == dictionary;
    }

    /** All dictionary words of at least three letters spelled by a simple path on `board`. */
    method GetAllValidWords(board: Board) returns (words: set<string>)
      requires Valid() && board.WellFormed()
      modifies this
      ensures Searching({}) && myBoard == board
      ensures words == foundWords == ValidWords(board, Dictionary())
    {
      width := board.cols;
      height := board.rows;
      foundWords := {};
      myBoard := board;
      Solve();
      words := foundWords;
    }

    /**
     * The score of a word: an error for null, the points for its length when
     * it is in the dictionary, and 0 when it is not.
     */
    method ScoreOf(word: Option<string>) returns (r: ScoreResult)
      requires Valid()
      requires word.Some? && |word.value| > 2 ==> ValidKey(word.value)
      ensures r.IllegalArgument? <==> word.None?
      ensures word.Some? && word.value !in Dictionary() ==> r == Score(0)
      ensures word.Some? && word.value in Dictionary() ==> r == Score(Points(|word.value|))
    {
      if word.None? {
        return IllegalArgument;
      }
      var w := word.value;
      if |w| <= 2 {
        return Score(0);
      }
      var matches := gameDictionary.KeysThatMatch(w);
      if |matches| == 0 {
        return Score(0);
      }
      match |w| {
        case 3 => r := Score(1);
        case 4 => r := Score(1);
        case 5 => r := Score(2);
        case 6 => r := Score(3);
        case 7 => r := Score(5);
        case _ => r := Score(11);
      }
    }

    /** Searches from every cell in row-major order with a fresh, all-false visited grid. */
    method Solve()
      requires Valid() && myBoard.WellFormed() && height == myBoard.rows && width == myBoard.cols
      modifies this
      ensures Searching({}) && myBoard == old(myBoard)
      ensures foundWords == old(foundWords) + ValidWords(myBoard, Dictionary())
    {
      visited := new bool[height, width]((_, _) => false);
      ghost var board, dict := myBoard, Dictionary();
      StartedBeforeNothing(board, dict);
      for row := 0 to height
        invariant Searching({}) && fresh(visited) && myBoard == board && Dictionary() == dict
        invariant foundWords == old(foundWords) + StartedBefore(board, dict, row, 0)
      {
        for col := 0 to width
          invariant Searching({}) && fresh(visited) && myBoard == board && Dictionary() == dict
          invariant foundWords == old(foundWords) + StartedBefore(board, dict, row, col)
        {
          ghost var before := foundWords;
          Dfs("", row, col, {});
          assert myBoard == board && Dictionary() == dict;
          SolveStep(board, dict, row, col, old(foundWords), before, foundWords);
        }
        StartedBeforeRow(board, dict, row);
      }
      StartedEverywhere(board, dict);
    }

    /**
     * Extends `prefix` with the tile at Cell(row, col) and records the words the
     * search from there finds. The cells of `onPath` are the ones marked
     * visited, before and after.
     */
    method Dfs(prefix: string, row: int, col: int, ghost onPath: set<Cell>)
      requires Searching(onPath) && ValidKey(prefix)
      modifies this`foundWords, visited
      ensures Searching(onPath)
      ensures forall i, j :: 0 <= i < height && 0 <= j < width ==> visited[i, j] == old(visited[i, j])
      ensures foundWords == old(foundWords) + Found(myBoard, Dictionary(), prefix, onPath, Cell(row, col))
      decreases |Cells(myBoard) - onPath|, 2
    {
      if row < 0 || col < 0 || row >= height || col >= width {
        return;
      }
      // a cell is used at most once
      if visited[row, col] {
        return;
      }
      var ext := prefix;
      if myBoard.GetLetter(row, col) == 'Q' {
        ext := ext + "QU";
      } else {
        ext := ext + [myBoard.GetLetter(row, col)];
      }
      assert ext == prefix + Tile(myBoard.GetLetter(row, col));
      // no dictionary word starts with ext
      if !gameDictionary.KeysWithPrefix(ext) {
        FoundPruned(myBoard, Dictionary(), prefix, onPath, Cell(row, col));
        return;
      }
      Visit(prefix, ext, row, col, onPath);
    }

    /**
     * The rest of dfs once Cell(row, col) is known to be on the board, free, and
     * the start of some dictionary word's prefix `ext`: marks the cell,
     * records `ext` when it is a word, searches the cells around it and
     * unmarks the cell.
     */
    method Visit(prefix: string, ext: string, row: int, col: int, ghost onPath: set<Cell>)
      requires Searching(onPath) && ValidKey(ext)
      requires myBoard.InBounds(Cell(row, col)) && Cell(row, col) !in onPath
      requires ext == prefix + Tile(myBoard.GetLetter(row, col))
      modifies this`foundWords, visited
      ensures Searching(onPath)
      ensures foundWords == old(foundWords) + FoundAt(myBoard, Dictionary(), prefix, onPath, Cell(row, col))
      decreases |Cells(myBoard) - onPath|, 1
    {
      ghost var inUse := onPath + {Cell(row, col)};
      Mark(row, col, true, onPath, inUse);
      var matches := gameDictionary.KeysThatMatch(ext);
      AddAll(matches);
      assert (set m | m in matches) == if ext in Dictionary() && |ext| >= 3 then {ext} else {};
      ghost var middle := foundWords;
      CellsShrink(myBoard, onPath, Cell(row, col));
      Explore(ext, row, col, inUse);
      Mark(row, col, false, inUse, onPath);
      Unfolded(myBoard, Dictionary(), prefix, onPath, Cell(row, col), old(foundWords), middle, foundWords);
    }

    /** Sets visited[row, col] to `b`, putting the cell on the path or taking it off. */
    method Mark(row: int, col: int, b: bool, ghost onPath: set<Cell>, ghost onPath': set<Cell>)
      requires Searching(onPath) && myBoard.InBounds(Cell(row, col))
      requires onPath' == if b then onPath + {Cell(row, col)} else onPath - {Cell(row, col)}
      modifies visited
      ensures Searching(onPath')
    {
      visited[row, col] := b;
    }

    /** Adds every string of `matches` to the words found. */
    method AddAll(matches: seq<string>)
      modifies this`foundWords
      ensures foundWords == old(foundWords) + set m | m in matches
    {
      for k := 0 to |matches|
        invariant foundWords == old(foundWords) + set m | m in matches[..k]
      {
        foundWords := foundWords + {matches[k]};
      }
      assert matches[..|matches|] == matches;
    }

    /**
     * The neighbour loops of dfs: searches with prefix `ext` from the nine
     * cells (row + i, col + j), -1 <= i, j <= 1, one row i at a time.
     */
    method Explore(ext: string, row: int, col: int, ghost inUse: set<Cell>)
      requires Searching(inUse) && ValidKey(ext)
      modifies this`foundWords, visited
      ensures Searching(inUse)
      ensures foundWords == old(foundWords) + FoundRows(myBoard, Dictionary(), ext, inUse, Cell(row, col), 2)
      decreases |Cells(myBoard) - inUse|, 4
    {
      ghost var board, dict := myBoard, Dictionary();
      for i := -1 to 2
        invariant Searching(inUse) && myBoard == board && Dictionary() == dict
        invariant foundWords == old(foundWords) + FoundRows(board, dict, ext, inUse, Cell(row, col), i)
      {
        ghost var before := foundWords;
        ExploreRow(ext, row, col, i, inUse);
        assert myBoard == board && Dictionary() == dict;
        RowsNext(board, dict, ext, inUse, Cell(row, col), i, old(foundWords), before, foundWords);
      }
    }

    /** The inner neighbour loop of dfs: the cells (row + i, col + j), -1 <= j <= 1. */
    method ExploreRow(ext: string, row: int, col: int, i: int, ghost inUse: set<Cell>)
      requires Searching(inUse) && ValidKey(ext)
      modifies this`foundWords, visited
      ensures Searching(inUse)
      ensures foundWords == old(foundWords) + FoundRow(myBoard, Dictionary(), ext, inUse, Cell(row, col), i, 2)
      decreases |Cells(myBoard) - inUse|, 3
    {
      ghost var board, dict := myBoard, Dictionary();
      var j := -1;
      while j < 2
        invariant -1 <= j <= 2
        invariant Searching(inUse) && myBoard == board && Dictionary() == dict
        invariant foundWords == old(foundWords) + FoundRow(board, dict, ext, inUse, Cell(row, col), i, j)
      {
        ghost var before := foundWords;
        Dfs(ext, row + i, col + j, inUse);
        assert myBoard == board && Dictionary() == dict;
        RowNext(board, dict, ext, inUse, Cell(row, col), i, j, Cell(row + i, col + j), old(foundWords), before, foundWords);
        j := j + 1;
      }
    }

  }
}
