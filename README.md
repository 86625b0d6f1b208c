# MazeSolver core in Dafny

A model of the C maze solver's data structures and grid loader, with proofs.

- **MazeQueue** (`maze_queue.dfy`) is the breadth-first-search frontier. It is an array of `MazeNode` records: a cell's row and column (unsigned short) and its predecessor's (short, signed so that -1 can mark the start node).
  - The head index `currentStart` only moves forward, and dequeued nodes stay in the array.
  - A full array is doubled.
  - `Find` scans slots `currentEnd-1` down to `1`. It includes dequeued slots and never looks at slot 0.
- **QueueADT** (`queue_adt.dfy`) is a generic array queue with an optional comparator. The C `void *` payload is a type parameter, and the C function pointer is an `Option` of a Dafny function (`None` is NULL).
  - Without a comparator it appends.
  - With one, the new item goes before the first item it does not compare above.
  - Removal shifts everything left.
  - A full queue grows by 64 slots.
- **LinkedQueue** (`linked_queue.dfy`) is a singly linked FIFO with `head`, `tail` and `size`. A ghost sequence of nodes and a ghost `Contents` describe the chain.
- **MazeSolver** (`maze_solver.dfy`) covers loading and the goal test.
  - `load_maze` takes a sequence of text lines in place of the lines `getline` returns. Each line keeps its trailing newline, as `getline` returns it. A blank input line is therefore `"\n"`: it is read as a row with no cells and counted in `maxR`, as in the C. The empty string stands only for end of file, because `getline` never returns a line of length 0.
  - The first line fixes the column count `maxC`. Each line becomes its own freshly allocated row buffer in which `'0'` becomes `'.'` and `'1'` becomes `'#'`; every other character is skipped. The C allocates `maxC * sizeof(char *)` bytes per row; the model gives each row `maxC` cells.
  - `Node_Is_Solution` is modelled as written.
- `wrappers.dfy` holds the `Option` type that stands for a nullable pointer.

Every state-changing C function is a class method. Its `ensures` gives the new abstract state (`Entries`/`Pending`, `Contents`, the row buffers) in terms of the old one. The properties of those abstract values are proved as function contracts and lemmas.

## Model

| member | source | states |
|---|---|---|
| MazeQueue.CreateNode | MazeQueue.c:67-75 | the new node's four accessors return the four arguments it was created with |
| MazeQueue.GetCurrentR | MazeQueue.c:141-144 | returns the node's row: the value that, with the other three fields, makes up the node |
| MazeQueue.GetCurrentC | MazeQueue.c:148-151 | returns the node's column, the value that with the other fields makes up the node |
| MazeQueue.GetPreviousR | MazeQueue.c:155-158 | returns the predecessor's row, the value that with the other fields makes up the node |
| MazeQueue.GetPreviousC | MazeQueue.c:162-165 | returns the predecessor's column, the value that with the other fields makes up the node |
| MazeQueue.AccessorsReturnFields | MazeQueue.c:67-75 | `que_create_node` stores its four arguments and the `node_get_*` accessors (lines 141-165) return them; a node is rebuilt exactly from its accessors |
| MazeQueue.LastMatch | MazeQueue.c:128-137 | the index `que_find` stops at: the highest index in `[1, currentEnd)` whose node matches (row and column compared after promotion to int), with no match above it; None exactly when no index from 1 up matches |
| MazeQueue.Lookup | MazeQueue.c:128-137 | the node `que_find` returns: a matching node held in slot 1 or above; NULL (None) exactly when no slot from 1 up matches |
| MazeQueue.LastMatchAfterAppend | MazeQueue.c:92-137 | once the entries hold at least one node, an appended node is found if it matches, and otherwise the earlier answer stands; the first node inserted (slot 0) is never found |
| MazeQueue.LastMatchIgnoresSlotZero | MazeQueue.c:130 | the search result does not depend on what slot 0 holds |
| MazeQueue.Queue.constructor | MazeQueue.c:54-64 | a new queue has `currentStart == currentEnd == 0`, `maxSize == 2` and no entries |
| MazeQueue.Queue.Insert | MazeQueue.c:92-107 | the node is appended to the entries and to the pending nodes; `currentStart` is unchanged and `currentEnd` grows by one; a full queue doubles `maxSize` into a fresh array that keeps every earlier slot; the index invariant `0 <= currentStart <= currentEnd <= maxSize` is kept |
| MazeQueue.Queue.IsEmpty | MazeQueue.c:111-114 | true exactly when there are no pending nodes |
| MazeQueue.Queue.Next | MazeQueue.c:118-124 | on a non-empty queue, returns the oldest pending node (the entry at the old `currentStart`) and drops it from the pending nodes; the entries and the array are unchanged |
| MazeQueue.Queue.Find | MazeQueue.c:128-137 | returns the node at `LastMatch` of all entries, dequeued ones included, or None; a found node comes from slots 1 and up |
| QueueADT.FirstNotAbove | QueueADT.c:82-84 | the slot a comparator insertion uses: every earlier item compares below the new one (`cmp > 0`), and the item at the slot, if any, does not |
| QueueADT.Inserted | QueueADT.c:75-96 | the contents after an insertion: one item longer, with multiset gaining exactly the new item; without a comparator the item is appended, with one it is placed at `FirstNotAbove` and the later items follow it in order |
| QueueADT.FirstNotAboveIsFirst | QueueADT.c:82-94 | the slot the scanning loop stops at is exactly `FirstNotAbove` |
| QueueADT.InsertKeepsSorted | QueueADT.c:82-96 | for a comparator that is total and transitive, sorted insertion into contents sorted non-decreasingly leaves them sorted |
| QueueADT.NewestEqualComesFirst | QueueADT.c:84-90 | an item that compares equal to (or below) a queued item is placed before it |
| QueueADT.Queue.constructor | QueueADT.c:41-51 | a new queue has `currentSize == 0`, `maxSize == 64` and the given comparator |
| QueueADT.Queue.Insert | QueueADT.c:71-107 | the contents become `Inserted(cmp, old contents, data)` and the size grows by one; a full queue grows `maxSize` by 64 into a fresh array keeping the contents |
| QueueADT.Queue.InsertInOrder | QueueADT.c:82-96 | with a comparator and room left, the contents become the sorted insertion of `data` |
| QueueADT.Queue.InsertAt | QueueADT.c:86-91 | slots `[i, currentSize)` move one slot right and `data` goes to slot `i` |
| QueueADT.Queue.Remove | QueueADT.c:111-122 | on a non-empty queue, returns the old front item; the rest move one slot left in order and the size drops by one |
| QueueADT.Queue.IsEmpty | QueueADT.c:126-129 | true exactly when the queue holds no items |
| LinkedQueue.Node.constructor | LinkedQueue.c:45-51 | the new node carries the given data |
| LinkedQueue.Queue.constructor | LinkedQueue.c:55-62 | a new queue has `size == 0`, `head == null` and no contents |
| LinkedQueue.Queue.IsEmpty | LinkedQueue.c:66-69 | true exactly when the queue holds no values; `size` always equals the number of linked nodes and of values |
| LinkedQueue.Queue.Insert | LinkedQueue.c:73-86 | the value is appended to the contents and `size` grows by one; an empty queue gets one fresh node that is both head and tail; otherwise a fresh node is linked after the old tail and becomes the tail |
| LinkedQueue.Queue.Pop | LinkedQueue.c:90-99 | on a non-empty queue, returns the head's value; the contents drop their first value (FIFO together with Insert), the head moves to the next node and `size` drops by one |
| MazeSolver.CellCount | MazeSolver.c:145-148 | the number of `'0'`/`'1'` characters of a line (the value `maxC` and `j` reach): never more than the line's length |
| MazeSolver.CellCountIsDigitCount | MazeSolver.c:145-148 | the cell count of a line is exactly the number of characters its row records (`CellDigits`), counted from the other end |
| MazeSolver.CountCells | MazeSolver.c:142-149 | the first-line loop counts exactly the `'0'`/`'1'` characters of the line, ignoring all others |
| MazeSolver.TranslateLine | MazeSolver.c:161-174 | a row has one cell per `'0'`/`'1'` character of its line, and every cell is `'.'` or `'#'` |
| MazeSolver.TranslateRoundTrip | MazeSolver.c:161-174 | reading a row back (`'.'` as `'0'`, `'#'` as `'1'`) yields exactly the line's `'0'`/`'1'` characters in order, so the row is their in-order image |
| MazeSolver.DigitsOfCellLine | MazeSolver.h:22 | on a line of `'0'` and `'1'` only, with no spaces and no newline, nothing is skipped: the row has one cell per character |
| MazeSolver.SpacedLine | MazeSolver.h:22-23 | the line the documented layout gives for a list of digits, separated by single spaces and ended by the newline `getline` keeps, is two characters per digit (one for no digits) |
| MazeSolver.SpacedLineDigits | MazeSolver.h:22-23 | the `'0'`/`'1'` characters of a single-spaced line are exactly its digits, in order |
| MazeSolver.SpacedLineCells | MazeSolver.h:22-23 | on a single-spaced line, the spaces and the newline are skipped: the row has one cell per digit, and reading it back yields the digits in order |
| MazeSolver.CellCountPrefix | MazeSolver.c:159-174 | the write index `j` (the cells in a prefix of the line) never exceeds the cells of the whole line |
| MazeSolver.CellDigits | MazeSolver.c:164-173 | the characters a row records are all `'0'` or `'1'` |
| MazeSolver.ReadCount | MazeSolver.c:152-177 | the number of lines read: all lines before it are non-empty (a blank line is `"\n"`), and the next one, if any, is the empty string that stands for end of input |
| MazeSolver.NextLineFits | MazeSolver.c:152-159 | a non-empty line the loop reaches is one of the `ReadCount` lines and fits a row buffer of `maxC` cells |
| MazeSolver.ReadCountEnds | MazeSolver.c:152-176 | the read loop stops exactly after `ReadCount` lines: at the end of the sequence or at end of input |
| MazeSolver.ReadRows | MazeSolver.c:151-177 | one row buffer per line read, in input order: `ReadCount(lines)` rows of `maxC` cells, each starting with its line's translation, each freshly allocated and no two the same |
| MazeSolver.LoadRow | MazeSolver.c:159-174 | given a line with at most `width` cells, a fresh buffer of `width` cells whose first `CellCount(line)` cells are the line's translation |
| MazeSolver.Maze.LoadMaze | MazeSolver.c:134-179 | `maxC` is the cell count of the first line (0 without one) and `maxR` the number of lines read; rows are in input order, one per line, each starting with its line's translation and each of `maxC` cells (the C allocates `maxC * sizeof(char *)` bytes); every row buffer is freshly allocated and no two rows share one |
| MazeSolver.Maze.Create | MazeSolver.c:184-191 | the maze is loaded from the lines as `LoadMaze` states, into freshly allocated, pairwise distinct row buffers, with a fresh empty frontier queue |
| MazeSolver.UniformRowsAreFull | mopsolver.c:5-9 | when every line holds as many cells as the first, every row buffer is exactly its line's translation, so the grid is rectangular and fully set |
| MazeSolver.NodeIsSolution | MazeSolver.c:40-43 | the goal test as written: a node that passes it lies outside the `maxR` by `maxC` grid |
| MazeSolver.NoGridCellIsSolution | MazeSolver.c:40-43 | as written, no cell of a loaded row buffer, the bottom-right one included, passes the goal test |
| MazeSolver.SingleCellGoalRejected | MazeSolver.c:40-43 | in the maze loaded from the single line `"0\n"` (one open cell, `maxR == maxC == 1`), the only cell, which is both start and goal, fails the goal test |
| MazeSolver.GoalCellIsBottomRight | MazeSolver.h:24-25 | in a loaded maze with at least one row and one column, the corrected goal test `IsGoalCell` names a cell of the row buffers, the last cell of the last row, and it accepts no other coordinates |
| MazeSolver.SingleCellGoalAccepted | MazeSolver.h:24-25 | in the maze loaded from `"0\n"`, the corrected goal test accepts the only cell `(0, 0)` |

## Left out

- The search itself is not modelled. `Solve_Maze`, `get_neighbors`, `maze_node_checked` and `Destroy_Maze` (MazeSolver.c:47-62, 96-118) only print a placeholder message, so there is no breadth-first search, visited marking or path reconstruction to model.
- `Pretty_Print_Maze` (MazeSolver.c:66-93) and all of mopsolver.c are output and command-line handling.
- Memory management is not modelled. This covers `malloc`/`free`, the allocation-failure asserts, and `que_destroy` in all three queue files.
- `que_pop` frees the old head; here the node simply leaves the ghost chain.
- `realloc_Maze` (MazeSolver.c:123-128) and the row-table capacity test at MazeSolver.c:154 compute sizes with `sizeof` of a pointer. The row table is modelled as a growable sequence instead, which departs from the C on every maze of three or more rows:
  - the test `sizeof(*maze->maze)/sizeof(char **)` is always 1, so `realloc_Maze` runs only when `maxR == 1`;
  - it then reallocates to `2 * sizeof(maze->maze)` bytes, two pointers, the same as the allocation at MazeSolver.c:187;
  - the table never holds more than two rows, so the third line read is stored past its end at MazeSolver.c:159.
- The row buffer at MazeSolver.c:159 is allocated with `maxC * sizeof(char *)` bytes, a third `sizeof` slip. That is 8 bytes per cell on LP64, so the C takes any line of up to `8 * maxC` cells without overrun. The model gives each row `maxC` cells, as the `maxC` count evidently intends; this is a simplification, not a limit the C imposes.
- `que_clear` (QueueADT.c:63-67) frees the buffer but leaves `currentSize` and `maxSize` as they were, so there is no consistent state to describe.
- QueueADT.Queue.Remove: runs the shift loop over the first `currentSize - 1` slots. The C loop makes one more step, which reads slot `currentSize`. That slot is past the array when the queue is full, and otherwise lies outside the remaining contents.
- MazeQueue.MazeNode: nodes are values, so the model does not distinguish two nodes created with equal fields. The C hands out distinct pointers for them.
- LinkedQueue.Node.constructor: `next` starts as null; the C leaves it unset. Likewise `que_create` (LinkedQueue.c:55-62) leaves the queue's `tail` unset, while the model's `tail` starts as null. `Valid()` constrains `tail` only when `size > 0`, so neither difference can be observed. After the last node is popped, `head` is unconstrained, as in the C.
- MazeQueue.Queue.Insert: `currentStart`, `currentEnd` and `maxSize` are unbounded integers. The C `int` doubling would overflow past 2^30 slots.
- QueueADT.Queue.Insert: `currentSize` and `maxSize` are unbounded integers rather than C `int`.
- LinkedQueue.Queue.Insert: `size` is an unbounded integer rather than C `int`. The C increment at LinkedQueue.c:85 would overflow past 2^31 - 1 queued values, so in the C the invariant `size == |nodes| == |Contents|` holds only below that bound.
- MazeSolver.Maze.LoadMaze: `maxC` and `maxR` are unbounded. The C `unsigned short` counters would wrap past 65535.
- MazeSolver.Maze.LoadMaze: requires that every line read holds at most as many cells as the first (`FitsFirstLine`). Because of the `sizeof(char *)` factor, the C itself accepts lines of up to `8 * maxC` cells; the requirement comes from the model's `maxC`-cell rows and is stricter than the C. Cells past a shorter line's count are left unset, as in the C, and the contract says nothing about them.
- Lines of unequal width are not reported as an error, because the C has no such check. A shorter line leaves the tail of its buffer unset. A longer one is excluded by LoadMaze's precondition, although the C would accept it.
- `Create_Maze`'s `maxC` and `maxR` are uninitialised in the C; the model starts them at 0.
- `getline` and the `FILE *` argument are replaced by the sequence of lines it would return.

## Findings

| source | as written | input that shows it | evidently intended | confidence | as-written member | corrected member |
|---|---|---|---|---|---|---|
| MazeSolver.c:40-43 | `Node_Is_Solution` compares the node with `maxR` and `maxC`, the row and column counts, which lie one past the last row and column | the one-cell grid `0`: its only cell `(0, 0)` is start and goal, but `maxR == maxC == 1`, so the test fails | compare with `maxR - 1` and `maxC - 1`, the bottom-right cell that MazeSolver.h:24-25 names as the end of the maze; this is the predicate `MazeSolver.IsGoalCell` | medium; the search that would call the test is not written; not executed | MazeSolver.NoGridCellIsSolution | MazeSolver.GoalCellIsBottomRight |
