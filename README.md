# Boggle solver: a verified model

This project models the core of a Java Boggle solver: a 26-way trie over the upper-case letters, used as the dictionary, and a depth-first backtracking search that uses it to find every dictionary word on a board.

The search works as follows:
- It starts from every cell with an empty prefix.
- A cell outside the board, or already on the current path, adds nothing.
- Otherwise the prefix is extended by the cell's tile, where 'Q' stands for "QU".
- The branch is pruned when no dictionary word starts with the extended prefix.
- Otherwise the cell is marked visited, and the extended prefix is recorded when it is a dictionary word of at least three letters.
- The search then recurses into the nine cells around the cell (the cell itself is rejected as visited) and finally unmarks the cell.

The model has three modules:

- `Tries` (trie.dfy): the trie.
  - `Node` is a heap object with an `Option<int>` value and a 26-slot `array<Node?>` of children. `Slot` indexes the array by `c - 'A'`.
  - `Trie` holds the `root` field. It also keeps a ghost table `Contents` of the stored keys and values, tied to the nodes by walks. The walk along a stored key ends at a node holding its value. Nodes exist exactly along the prefixes of stored keys.
  - `get` and `keysWithPrefix` are read-only, so they are functions.
  - `put` allocates nodes and updates `val` and `next[c]` in place.
  - `collect` threads its string buffer and result queue through the recursion.
- `Boards` (boards.dfy): the board, treated as an immutable rectangular grid of upper-case letters. It also holds two descriptions of what the search must find, and the proofs that they agree.
  - `Words` and `ValidWords` are declarative: dictionary words of at least three letters spelled along a simple path of Moore-adjacent cells.
  - `Found` is recursive and mirrors the search step by step.
- `Solver` (solver.dfy): the `BoggleSolver` class. It has the fields `gameDictionary`, `foundWords`, `visited` (an `array2<bool>`), `width`, `height` and `myBoard`.
  - The `dfs` method is proved against `Found`. `Found` is proved equal to `Words`.
  - `getAllValidWords` is proved to return exactly `ValidWords` for the board and the dictionary.

The search's invariant is `Searching(onPath)`: exactly the cells of the current path are marked visited. `dfs` takes that path as a ghost parameter, and the number of free cells is its termination measure. Because `dfs` keeps `Searching(onPath)` from entry to exit, it leaves the visited grid as it found it, and `solve` ends with every cell unmarked.

## Model

| member | source | states |
|---|---|---|
| Tries.Slot | src/Trie.java:10-11 | the child index `c - SHIFT` of an upper-case letter lies in 0..25 |
| Tries.Node.constructor | src/Trie.java:14-17 | a new node has no value and 26 empty child slots |
| Tries.Trie.constructor | src/Trie.java:12 | the empty trie has a null root and stores nothing |
| Tries.Trie.GetNode | src/Trie.java:33-39 | the walk along `key[d..]` returns the node it reaches, which lies in `x.Repr`, or null; with nothing left to read it returns `x` |
| Tries.Trie.Get | src/Trie.java:27-31 | returns the stored value of `key`, or None (null) when the key is absent |
| Tries.Trie.PutNode | src/Trie.java:53-63 | the returned subtrie is still a tree, and is `x` itself unless `x` was null; only new nodes join it; the walk along `key[d..]` now ends at value `v`, every other walk keeps its old value, and nodes exist exactly where they did before or along a prefix of `key[d..]` |
| Tries.Stored | src/Trie.java:55-57 | setting the value at the end of the key's walk changes that key's value alone and keeps the node a tree |
| Tries.RelinkedTree | src/Trie.java:60-61 | relinking slot `c` to the updated child keeps the node a tree, and leaves every other slot and its subtrie unchanged |
| Tries.Relinked | src/Trie.java:60-62 | relinking slot `c` changes only the walks through that slot, exactly as the child changed them |
| Tries.Trie.Put | src/Trie.java:49-51 | inserts `key` with value `v` and overwrites any earlier value: the table becomes `old(Contents)[key := v]`, and the trie is still valid |
| Tries.Trie.Install | src/Trie.java:50 | assigning the updated subtrie to `root` makes the trie hold the new table |
| Tries.PrefixAfterPut | src/Trie.java:53-62 | after a put, a string is a prefix of some stored key iff it was one before or is a prefix of the new key |
| Tries.PutThenGet | src/Trie.java:27-31 | after `put(key, v)`, `get(key)` is `v`, any other key reads its old value, and `keysWithPrefix("")` is true |
| Tries.EmptyTrie | src/Trie.java:28-29 | on the empty trie `get` is null and `keysWithPrefix` is false, even for "" |
| Tries.Trie.KeysWithPrefix | src/Trie.java:70-72 | true iff some stored key starts with `pre` |
| Tries.Trie.Collect | src/Trie.java:86-98 | the buffer is restored to its entry contents; the pattern is appended to the results exactly when its walk ends at a node with a value and it has at least three letters |
| Tries.Trie.KeysThatMatch | src/Trie.java:80-84 | yields exactly `[pattern]` when the pattern is stored and has at least three letters, and nothing otherwise |
| Boards.Board.GetLetter | src/BoggleSolver.java:86-87 | the letter at an in-bounds cell is upper case |
| Boards.Tile | src/BoggleSolver.java:86-87 | a 'Q' cell's tile is "QU"; any other cell's tile is its one letter; an upper-case letter gives an upper-case tile |
| Boards.Spell | src/BoggleSolver.java:86-87 | the spelling of a path is upper case and at least as long as the path |
| Boards.CellsShrink | src/BoggleSolver.java:93 | marking a free in-bounds cell leaves strictly fewer free cells, which is the search's termination measure |
| Boards.WordsStart | src/BoggleSolver.java:81-84 | nothing is found from a cell outside the board or one already on the path |
| Boards.WordsExtend | src/BoggleSolver.java:86-90 | every word found from a cell is a dictionary word of at least three letters that extends the prefix by the cell's tile |
| Boards.WordsPruned | src/BoggleSolver.java:89-90 | pruning is sound: when no dictionary word starts with the extended prefix, no word is found from the cell |
| Boards.FoundPruned | src/BoggleSolver.java:89-90 | the recursive description also finds nothing from a pruned cell |
| Boards.WordsHere | src/BoggleSolver.java:95-100 | the extended prefix is found when it is a dictionary word of at least three letters |
| Boards.WordsSplit | src/BoggleSolver.java:95-107 | a word found from a cell is the extended prefix itself, or is found from one of the nine cells around it with the cell in use |
| Boards.WordsJoin | src/BoggleSolver.java:103-107 | a word found from a cell around a free cell, with that cell in use, is found from that cell |
| Boards.FoundRowHas | src/BoggleSolver.java:104-106 | the inner neighbour loop collects exactly the words found from the cells it visits in that row |
| Boards.FoundRowsHas | src/BoggleSolver.java:103-107 | the neighbour loops collect exactly the words found from the cells around the centre |
| Boards.RowNext | src/BoggleSolver.java:104-106 | one more inner-loop iteration adds the words found from that neighbour |
| Boards.RowsNext | src/BoggleSolver.java:103-107 | one more outer-loop iteration adds the words found along that row |
| Boards.Unfolded | src/BoggleSolver.java:95-107 | the match plus the neighbour words are the words found from a free in-bounds cell |
| Boards.FoundIsWordsAt | src/BoggleSolver.java:80-110 | for every start, prefix, path so far and word: the search finds the word iff some simple path from the start that avoids the path so far spells it after the prefix |
| Boards.FoundIsWords | src/BoggleSolver.java:80-110 | the words found by the search are exactly the path-based `Words` |
| Boards.StartedBeforeNothing | src/BoggleSolver.java:73-74 | before the first cell nothing has been found |
| Boards.StartedBeforeStep | src/BoggleSolver.java:74-76 | starting from one more cell of a row adds the words found from that cell |
| Boards.StartedBeforeRow | src/BoggleSolver.java:73-77 | finishing a row is starting the next one |
| Boards.SolveStep | src/BoggleSolver.java:74-76 | a search from (row, col) with nothing in use extends the words started before it |
| Boards.ValidIsStarted | src/BoggleSolver.java:71-78 | completeness: every valid word of the board is found by a search from some cell |
| Boards.StartedIsValid | src/BoggleSolver.java:71-78 | soundness: every word found from some cell is a valid word of the board |
| Boards.StartedEverywhere | src/BoggleSolver.java:71-78 | searching from every cell finds exactly the valid words: dictionary words of at least three letters spelled by a simple path of adjacent cells |
| Solver.Indexed | src/BoggleSolver.java:22-28 | every dictionary entry is stored, and each key's value is the position of its last occurrence |
| Solver.IndexedStep | src/BoggleSolver.java:24-26 | inserting one more entry overwrites its key with its position |
| Solver.BoggleSolver.Load | src/BoggleSolver.java:23-27 | the insertion loop leaves a valid trie holding `Indexed(dictionary)` |
| Solver.BoggleSolver.constructor | src/BoggleSolver.java:22-28 | the dictionary trie holds every entry, with the running counter as its value |
| Solver.BoggleSolver.ScoreOf | src/BoggleSolver.java:50-69 | null is an IllegalArgument error; a word not in the dictionary scores 0; a dictionary word scores by the points table for its length (0 up to two letters, 1 for 3–4, 2, 3, 5, and 11 for eight or more) |
| Solver.BoggleSolver.GetAllValidWords | src/BoggleSolver.java:35-42 | returns exactly the valid words of the board, and leaves every cell unmarked |
| Solver.BoggleSolver.Solve | src/BoggleSolver.java:71-78 | with a fresh all-false grid, the searches from every cell in row-major order add exactly the valid words of the board |
| Solver.BoggleSolver.Dfs | src/BoggleSolver.java:80-90 | adds exactly `Found` for the cell, and leaves the visited grid as it found it (out-of-bounds and visited cells change nothing) |
| Solver.BoggleSolver.Visit | src/BoggleSolver.java:93-109 | marks the cell, records the match, searches around it and unmarks it, adding exactly `FoundAt` for the cell |
| Solver.BoggleSolver.Mark | src/BoggleSolver.java:93 | setting `visited[row][col]` puts the cell on the path or takes it off, and keeps the rest of the grid |
| Solver.BoggleSolver.AddAll | src/BoggleSolver.java:98-100 | adds every match to the found words |
| Solver.BoggleSolver.Explore | src/BoggleSolver.java:103-107 | the neighbour loops add exactly the words found from the nine cells around the centre |
| Solver.BoggleSolver.ExploreRow | src/BoggleSolver.java:104-106 | the inner loop adds exactly the words found from the three cells of row `row + i` |

## Left out

- `main` (src/BoggleSolver.java:112-126) is left out: reading files, printing, timing and summing scores are I/O.
- The `BoggleBoard` class is not part of this model. A board is a `Board` datatype with `rows`, `cols` and a grid of letters. `WellFormed` assumes the board is rectangular and all upper case, as a Boggle board is.
- The generic `Value` type and its unchecked cast are fixed to `int`. `put` with a null value, which deletes a key, is never used by the solver and is not modelled.
- Tries.Trie.Get, Tries.Trie.Put, Tries.Trie.KeysWithPrefix, Tries.Trie.KeysThatMatch and Tries.Trie.Collect require keys made only of 'A'..'Z'. The source indexes `next[c - 'A']` and would throw ArrayIndexOutOfBoundsException for any other character the walk reaches. The model does not include that exception.
- Solver.BoggleSolver.constructor requires every dictionary entry to be upper case, for the same reason: `put` would throw on any other entry.
- Solver.BoggleSolver.ScoreOf requires an upper-case word when it has more than two letters. The source's `keysThatMatch` would throw ArrayIndexOutOfBoundsException on a non-letter that the walk reaches, and that exception is not modelled.
- Tries.Trie.Get, Tries.Trie.Put, Tries.Trie.KeysWithPrefix, Tries.Trie.KeysThatMatch, Solver.BoggleSolver.constructor and Solver.BoggleSolver.GetAllValidWords cannot receive a null key, a null dictionary entry or a null board, because Dafny strings, sequences and datatypes are never null. So the NullPointerException that src/Trie.java:24 and :47 document, and that the walks and `key.length()` would throw, is not modelled. `get(null)` on an empty trie returning null is not modelled either.
- The empty string is a legal key, as in the code: `put("")` stores at the root. It is never a found word, since found words have at least three letters.
- `++val` wraps at 2^31 in Java, but the model's counter is an unbounded `int`. The solver only checks that the value is non-null.
- `HashSet`, `Queue` and `StringBuilder` become `set<string>`, `seq<string>` and `string`. `collect` passes the buffer and the results in and out instead of sharing the objects. `getAllValidWords` returns the set's value, not an alias of the field.
- `myBoard` and `visited` are null before the first `getAllValidWords`. The model starts `myBoard` as an empty board and `visited` as null.
- Several methods are helpers split out of a single source method. `Load` is the constructor's loop, and `Install` is the `root = …` assignment of `put`. `dfs` is split into `Dfs`, `Visit`, `Mark`, `AddAll`, `Explore` and `ExploreRow`, which run the same statements in the same order. `Explore` and `ExploreRow` are the two neighbour loops; the inner one is written as a `while` loop over `j` from -1 to 1.
- Reentrancy and concurrency: one call at a time, as the search state lives in fields.
