# Memory game: board, linked list and timer queue

A model of the memory game by Fábio Pichler. Two players take turns
uncovering pairs of tiles on a 4 × 8 board. The model covers three parts.

- **The board** (`src/scene_game/GameBoard.c`).
  - The deal lays the 16 images out twice each and shuffles them.
  - `GameBoard_Check` answers a press on a tile.
  - A valid second pick schedules the correct or wrong callback, 500 ms or 1000 ms later.
  - The callbacks hand out ownership, update the tallies, re-evaluate the winner, pass the turn and unlock input.
- **The doubly linked list** (`src/base/LinkedList.c`). It is modelled over an explicit address-to-node map, so the prev/next links, the header and the `size_t` counter are all visible.
- **The cooperative timer queue**, the Emscripten branch of `src/base/private/Timer.c`.

A last layer wires the board to the queue, the way the scene drives them. Presses add timers, frames run `Timer_Update`, and a restart clears the queue and deals a new board.

Files:

| file | module | models |
|---|---|---|
| `options.dfy` | `Options` | the `Option` type |
| `deal.dfy` | `Deal` | `shuffle` and the image list of `GameBoard_SetupBoard` |
| `board.dfy` | `GameBoard` | the board record and its transitions |
| `board_invariant.dfy` | `BoardInvariant` | what every reachable board satisfies, and the preservation proofs |
| `linked_list.dfy` | `LinkedList` | `LinkedList.c` |
| `timer.dfy` | `Timer` | the Emscripten timer queue |
| `game.dfy` | `Game` | board and queue together, plus event traces |

How the model represents the source:

- **`rand()`** is a sequence of raw values in `[0, RAND_MAX]`, with `RAND_MAX = 2147483647` as in glibc. The index `i + rand() / (RAND_MAX / (n - i) + 1)` is computed with the source's formula and proved to lie in `[i, n)`.
- **Tiles** are a row-major sequence, so grid cell (row, col) is index `row * 8 + col`.
- **The timer payload** is the pair of tile indices plus the callback it selects. The source's `TimerData` with its `last_item` and `current_item` pointers becomes `Resolution`.
- **The board's `pending` field** records the comparison whose timer has not fired yet.
- **The clock** (`SDL_GetTicks64`) is a parameter `now`.
- **Payloads** (`void *`) are integers.
- **Node addresses** are naturals. `0` is NULL, and `Push` takes the address `malloc` returned.
- **The list's `size`** is a `size_t` of a 64-bit target. Its increment and decrement wrap modulo 2^64.

Two behaviours of the code worth knowing:

- **The shuffle runs forwards.** Position `i` is swapped with a `j` in `[i, n)`, unlike the usual backward Fisher–Yates.
- **An invalid second pick only unlocks input.** This covers a press on an owned tile or on the first pick itself. The first pick stays pending.

## Model

| member | source | states |
|---|---|---|
| Deal.PairListCounts | src/scene_game/GameBoard.c:243-249 | the image list before the shuffle holds every image id 1..16 exactly twice and no other id |
| Deal.SwapIndex | src/scene_game/GameBoard.c:232 | the index `i + rand() / (RAND_MAX / (n - i) + 1)` always lies in `[i, n)`, for every value `rand()` can return |
| Deal.Shuffle | src/scene_game/GameBoard.c:225-237 | the forward swap shuffle keeps the length and returns a permutation (same multiset) of its input, for every sequence of random values |
| Deal.DealImages | src/scene_game/GameBoard.c:239-251 | the shuffled image list of a deal has 32 entries, and every image id 1..16 occurs exactly twice |
| GameBoard.NewBoard | src/scene_game/GameBoard.c:138-148 | a new board has player 1 on turn, no result, round 0, input unlocked, no pick, no pending comparison and all tallies 0 |
| GameBoard.LayTiles | src/scene_game/GameBoard.c:253-267 | the dealt tile i has id i + 1, the i-th shuffled image and no owner |
| GameBoard.FindItem | src/scene_game/GameBoard.c:440-454 | GetItem answers the first tile in row-major order carrying the id, or none exactly when no tile carries it |
| GameBoard.Winner | src/scene_game/GameBoard.c:398-415 | the result is None exactly while fewer or more than 16 pairs are found; at 16 it is player 1, player 2 or tied exactly as p1 > p2, p1 < p2 or p1 = p2 |
| GameBoard.Toggle | src/scene_game/GameBoard.c:302-304 | the turn always lands on player 1 or player 2, and player 1 is followed by player 2 and player 2 by player 1 |
| GameBoard.Check | src/scene_game/GameBoard.c:357-396 | a press is ignored while input is locked or the game is decided; a first pick on an owned tile is ignored; a first pick on a free tile is recorded; a second pick on an owned tile or the first pick itself is ignored; a valid second pick locks input and records one comparison, correct exactly when the images agree; tiles, turn, tallies and round never change |
| GameBoard.Finalize | src/scene_game/GameBoard.c:310-317 | finalizing clears the pick, adds one round, unlocks input and drops the pending comparison, touching nothing else |
| GameBoard.CorrectCallback | src/scene_game/GameBoard.c:319-338 | the player on turn gains one pair and the count one; both tiles become theirs and no other tile changes; the result is re-evaluated from the new tallies; the turn passes; the board is finalized |
| GameBoard.WrongCallback | src/scene_game/GameBoard.c:340-355 | tallies, count and result are kept; both tiles lose their owner and no other tile changes; the turn passes; the board is finalized |
| GameBoard.Fire | src/scene_game/GameBoard.c:384-395 | whichever callback a comparison scheduled, the turn passes, the round advances and input is unlocked |
| BoardInvariant.DealInv | src/scene_game/GameBoard.c:239-280 | every proper deal yields a consistent board: 32 tiles, ids 1..32 in row-major order, each image on exactly two tiles, all unowned, player 1 on turn |
| BoardInvariant.CheckInv | src/scene_game/GameBoard.c:357-396 | on a consistent board the pending first pick is always found, and a press keeps the board consistent; locked input holds exactly while a comparison is pending |
| BoardInvariant.CorrectInv | src/scene_game/GameBoard.c:319-338 | a correct comparison keeps the board consistent: pairs stay owned whole, p1 + p2 = count, owned tiles = 2 × tallies, the turn follows the round's parity |
| BoardInvariant.WrongInv | src/scene_game/GameBoard.c:340-355 | a wrong comparison keeps the board consistent |
| BoardInvariant.FireInv | src/scene_game/GameBoard.c:319-355 | the pending comparison names two tiles of the board, and resolving it keeps the board consistent |
| BoardInvariant.CountBound | src/scene_game/GameBoard.c:325-334 | on a consistent board at most 16 pairs are found, and while a comparison is pending fewer than 16 are found and the game is undecided |
| BoardInvariant.DecidedIffBoardFull | src/scene_game/GameBoard.c:398-415 | on a consistent board the game is decided exactly when every tile is owned |
| BoardInvariant.ResultFollowsOwnership | src/scene_game/GameBoard.c:398-415 | a decided game is won by the player owning more tiles, and tied exactly when both own 16 |
| BoardInvariant.LayoutImages | src/scene_game/GameBoard.c:243-266 | on a dealt board every tile's image is in 1..16 and appears on exactly two tiles |
| BoardInvariant.NoThirdTile | src/scene_game/GameBoard.c:243-249 | no three distinct tiles of a dealt board show the same image |
| BoardInvariant.FindItemRowMajor | src/scene_game/GameBoard.c:440-454 | on a dealt board GetItem finds id `n` at index `n - 1` |
| BoardInvariant.OwnedPartition | src/scene_game/GameBoard.c:319-355 | on a board where no tile is owned by Tied, the unowned, player 1 and player 2 tile counts add up to the number of tiles |
| LinkedList.New | src/base/LinkedList.c:50-59 | a new list has no first node, no last node, size 0 and represents the empty chain |
| LinkedList.SizeIsLength | src/base/LinkedList.c:71-74 | the size of a well-formed list is the length of its chain and the number of its nodes |
| LinkedList.SpineUnique | src/base/LinkedList.c:43-48 | a list header and its nodes determine the chain they represent |
| LinkedList.Clear | src/base/LinkedList.c:111-125 | a cleared list has no nodes and represents the empty chain |
| LinkedList.Push | src/base/LinkedList.c:127-152 | the new node holds the value, links back to the old last node (or to nothing) and becomes the last node, and also the first node of an empty list; the old last node links forward to it; size grows by one modulo 2^64; no other node changes |
| LinkedList.PushAppends | src/base/LinkedList.c:137-152 | pushing onto a well-formed list appends the node to its chain and the value to its payloads, keeping earlier ones in order |
| LinkedList.Remove | src/base/LinkedList.c:174-200 | a null cursor changes nothing; otherwise exactly that node is freed, the cursor moves to its successor, no payload changes and size drops by one modulo 2^64 |
| LinkedList.RemoveDeletes | src/base/LinkedList.c:174-200 | removing the k-th node of a well-formed list yields the chain without it, and so the payloads without the k-th, with first and last updated and the cursor on the old successor |
| LinkedList.RemoveFromValue | src/base/LinkedList.c:202-211 | removing by value leaves a well-formed list whose chain is the original nodes not holding the value, and whose payloads are the original ones with every occurrence of the value deleted, in order |
| LinkedList.WithoutSpec | src/base/LinkedList.c:202-211 | after removal by value the value no longer occurs, and every other value keeps its number of occurrences |
| Timer.Add | src/base/private/Timer.c:111-121 | adding a timer appends exactly one entry, due `interval` after `now`, behind the existing entries |
| Timer.Clear | src/base/private/Timer.c:95-109 | a cleared queue fires nothing and keeps nothing, whatever the time |
| Timer.Update | src/base/private/Timer.c:148-168 | the cursor walk fires exactly the due entries' payloads, in list order, and keeps exactly the entries not yet due, in order |
| Timer.UpdatePartition | src/base/private/Timer.c:151-166 | every entry is either fired or kept, and nothing kept is due |
| Timer.NothingDue | src/base/private/Timer.c:155-165 | when no entry is due an update fires nothing and keeps the queue unchanged |
| Timer.AllDue | src/base/private/Timer.c:155-161 | when every entry is due an update fires every payload in list order and empties the queue |
| Timer.FiredOnce | src/base/private/Timer.c:155-161 | a second update at the same time fires nothing more: each entry fires once |
| Timer.NotFiredEarly | src/base/private/Timer.c:118-165 | an entry added with interval d at time t is not fired by an update before t + d and stays queued at the end |
| Timer.FiredWhenDue | src/base/private/Timer.c:118-161 | an entry added with interval d at time t fires, after the earlier due entries, in an update at or after t + d |
| Timer.ClearForgets | src/base/private/Timer.c:95-109 | entries added before a clear never fire afterwards |
| Game.Press | src/scene_game/GameBoard.c:384-427 | a press runs Check, and queues one timer for the new comparison, due 500 or 1000 ms after the press, exactly when it creates one |
| Game.Frame | src/base/private/Timer.c:148-168 | a frame keeps exactly the entries not yet due and advances the round by the number of callbacks fired |
| Game.Restart | src/scene_game/SceneGame.c:135-144 | a restart empties the timer queue and deals a new board |
| Game.RestartInv | src/scene_game/SceneGame.c:135-144 | a restart with a proper deal yields a consistent game, whatever comparison was pending before |
| Game.PressInv | src/scene_game/GameBoard.c:357-396 | a press keeps the game consistent: the queue holds exactly the pending comparison, or nothing |
| Game.FrameInv | src/base/private/Timer.c:148-168 | a frame keeps the game consistent |
| Game.PressSchedules | src/scene_game/GameBoard.c:384-395 | a press that locks input queues exactly one timer, due 500 ms (correct) or 1000 ms (wrong) after the press |
| Game.ResolvedOnceWhenDue | src/base/private/Timer.c:155-161 | a pending comparison is untouched by frames before its due time, and the first frame at or after it resolves it once and empties the queue |
| Game.Run | src/scene_game/GameBoard.c:357-415 | along every sequence of clicks, frames and restarts the game stays consistent; input is locked exactly while one timer is queued; player 1 is on turn exactly after an even number of resolved comparisons |

## Left out

- Rendering: textures, buttons, colours (`SetupColors_*`), icons and board geometry are SDL calls. None of them affects the game state.
- The game-event notification (`gameEvent` in `GameBoard_CallEventFunction`) calls scene code through a function pointer. Only its turn toggle is modelled.
- `GameBoard_OnItemPress` scans the buttons to find the pressed tile. The model takes the tile index directly.
- Seeding `rand()` is left out. Random values are a parameter.
- The native timer path (`SDL_AddTimer`, `Timer_ProcessEvent`) fires on an SDL timer thread through the event queue. That is concurrency.
- Timer.Update: the source reads the clock again for every entry. The model uses one `now` for the whole update, so an entry that falls due during the walk is fired only by the next update.
- Timer.Update: a callback that adds a timer during an update is not modelled. The board's callbacks never add one.
- `malloc`, `free`, allocation failure and the timer payloads leaked by `Timer_Clear` are memory management.
- The `Delete` functions only free memory.
- The string and number variants of push and remove-by-value are left out. They differ from the pointer variant only in the payload type and in the equality used (`strcmp`, `double ==`).
- The accessors `GetFirst`, `GetLast`, `GetPrev`, `GetNext`, `Prev`, `Next` and `GetValue*` are field reads. They appear inline in the model.
- `round`, the tallies and the tick counter are unbounded integers in the model. The source's `int` and `Uint64` do not overflow in practice: `round` grows without bound in a game of endless mismatches, but reaching 2^31 takes decades of play.
- Game.Frame: the round advances by one per fired callback. The full effect of a frame on a consistent game is stated by `Game.ResolvedOnceWhenDue` and `Game.IdleFrame`.
