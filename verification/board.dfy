/**
  The memory-game board of src/scene_game/GameBoard.c as a pure state machine.

  A press on a tile is `Check`; the two timer callbacks the source schedules are
  `CorrectCallback` and `WrongCallback`, each taking the payload the source hands
  to the timer (the two tiles) and ending with `Finalize`. Tiles are held in
  row-major order, so the tile of grid cell (row, col) sits at index row * 8 + col.
  Textures, buttons and their colours are not modelled.
*/
module GameBoard {
  import O = Options
  import opened Deal

  /** The source's `Player` enum; it doubles as the owner of a tile and as the game result. */
  datatype Player = None | Player1 | Player2 | Tied

  /** A board item: its owner, its id (1..32, row-major) and its image id (1..16). */
  datatype Tile = Tile(player: Player, id: int, imageId: int)

  /** Which callback a comparison scheduled. */
  datatype Verdict = Correct | Wrong

  /** The timer payload of a comparison: the callback to run and the two tiles
      (indices into the board), first pick then second pick. */
  datatype Resolution = Resolution(kind: Verdict, last: nat, current: nat)

  datatype Board = Board(
    tiles: seq<Tile>,
    player: Player,         // whose turn it is
    result: Player,         // None while the game runs
    round: nat,             // comparisons resolved so far
    blocked: bool,          // input lock
    lastItemId: int,        // id of the pending first pick, 0 if none
    lastImageId: int,       // image of the pending first pick, 0 if none
    count: nat,             // pairs found
    p1Count: nat,           // pairs found by player 1
    p2Count: nat,           // pairs found by player 2
    pending: O.Option<Resolution>  // the comparison whose timer has not fired yet
  )

  /** Delay in milliseconds before a comparison's callback runs. */
  function Delay(kind: Verdict): nat
  {
    match kind
    case Correct => 500
    case Wrong => 1000
  }

  /** The turn change of GameBoard_CallEventFunction. */
  function Toggle(p: Player): (q: Player)
    ensures q == Player1 || q == Player2
    ensures p == Player1 <==> q == Player2
    ensures p == Player2 ==> q == Player1
  {
    if p == Player1 then Player2 else Player1
  }

  /** The tiles of a fresh deal: tile i has id i + 1, the i-th shuffled image and no owner. */
  function LayTiles(images: seq<int>): (tiles: seq<Tile>)
    ensures |tiles| == |images|
    ensures forall i :: 0 <= i < |tiles| ==> tiles[i] == Tile(None, i + 1, images[i])
  {
    seq(|images|, i requires 0 <= i < |images| => Tile(None, i + 1, images[i]))
  }

  /** The state GameBoard_New leaves behind once the board has been dealt. */
  function NewBoard(tiles: seq<Tile>): (b: Board)
    ensures b.tiles == tiles && b.player == Player1 && b.result == None
    ensures !b.blocked && b.pending.None? && b.lastItemId == 0 && b.lastImageId == 0
    ensures b.round == 0 && b.count == 0 && b.p1Count == 0 && b.p2Count == 0
  {
    Board(tiles, Player1, None, 0, false, 0, 0, 0, 0, 0, O.None)
  }

  /** GetItem: the first tile, in row-major order, whose id is `id`; None where the source returns NULL. */
  function FindItem(tiles: seq<Tile>, id: int): (r: O.Option<nat>)
    ensures r.Some? ==> r.value < |tiles| && tiles[r.value].id == id
    ensures r.Some? ==> forall j :: 0 <= j < r.value ==> tiles[j].id != id
    ensures r.None? ==> forall j :: 0 <= j < |tiles| ==> tiles[j].id != id
  {
    if |tiles| == 0 then O.None
    else if tiles[0].id == id then O.Some(0)
    else
      match FindItem(tiles[1..], id)
      case None => O.None
      case Some(k) => O.Some(k + 1)
  }

  /** GameBoard_CheckWinner: the result once `count` pairs are found with the given tallies. */
  function Winner(count: nat, p1: nat, p2: nat): (r: Player)
    ensures r == None <==> count != PairCount
    ensures r == Player1 <==> count == PairCount && p1 > p2
    ensures r == Player2 <==> count == PairCount && p1 < p2
    ensures r == Tied <==> count == PairCount && p1 == p2
  {
    if count == PairCount then
      if p1 > p2 then Player1
      else if p1 < p2 then Player2
      else Tied
    else None
  }

  /** The source's precondition for dereferencing the pending first pick. */
  predicate FirstPickFound(b: Board)
  {
    b.lastImageId != 0 ==> FindItem(b.tiles, b.lastItemId).Some?
  }

  /** GameBoard_Check: the board's answer to a press on tile `k`. */
  function Check(b: Board, k: nat): (r: Board)
    requires k < |b.tiles|
    requires FirstPickFound(b)
    // presses are discarded while input is locked or once the game is decided
    ensures b.blocked || b.result != None ==> r == b
    // a first pick on an owned tile is discarded
    ensures !b.blocked && b.result == None && b.lastImageId == 0 && b.tiles[k].player != None ==> r == b
    // a first pick on a free tile becomes the pending pick; input stays open
    ensures !b.blocked && b.result == None && b.lastImageId == 0 && b.tiles[k].player == None ==>
              r == b.(lastItemId := b.tiles[k].id, lastImageId := b.tiles[k].imageId)
    // a second pick on an owned tile or on the first pick itself is discarded
    ensures (!b.blocked && b.result == None && b.lastImageId != 0 &&
             (b.tiles[k].player != None || b.tiles[k].id == b.lastItemId)) ==> r == b
    // a valid second pick locks input and schedules exactly one comparison
    ensures (!b.blocked && b.result == None && b.lastImageId != 0 &&
             b.tiles[k].player == None && b.tiles[k].id != b.lastItemId) ==>
              r == b.(blocked := true,
                      pending := O.Some(Resolution(
                        if b.lastImageId == b.tiles[k].imageId then Correct else Wrong,
                        FindItem(b.tiles, b.lastItemId).value, k)))
    // a press never touches tiles, turn, tallies or round
    ensures r.tiles == b.tiles && r.player == b.player && r.result == b.result && r.round == b.round
    ensures r.count == b.count && r.p1Count == b.p1Count && r.p2Count == b.p2Count
  {
    if b.blocked || b.result != None then b
    else if b.lastImageId == 0 then
      if b.tiles[k].player != None then b
      else b.(lastItemId := b.tiles[k].id, lastImageId := b.tiles[k].imageId)
    else
      var last := FindItem(b.tiles, b.lastItemId).value;
      if b.tiles[k].player != None || b.tiles[k].id == b.tiles[last].id then b
      else
        var kind := if b.lastImageId == b.tiles[k].imageId then Correct else Wrong;
        b.(blocked := true, pending := O.Some(Resolution(kind, last, k)))
  }

  /** GameBoard_FinalizeEventCallback, together with the release of the timer payload:
      no pick pending, one more round, input unlocked. */
  function Finalize(b: Board): (r: Board)
    ensures r.lastItemId == 0 && r.lastImageId == 0 && !r.blocked && r.pending.None?
    ensures r.round == b.round + 1
    ensures r.tiles == b.tiles && r.player == b.player && r.result == b.result
    ensures r.count == b.count && r.p1Count == b.p1Count && r.p2Count == b.p2Count
  {
    b.(lastItemId := 0, lastImageId := 0, round := b.round + 1, blocked := false, pending := O.None)
  }

  /** Give tile `i` to `p`. */
  function SetOwner(tiles: seq<Tile>, i: nat, p: Player): (r: seq<Tile>)
    requires i < |tiles|
    ensures |r| == |tiles|
    ensures r[i] == tiles[i].(player := p)
    ensures forall j :: 0 <= j < |tiles| && j != i ==> r[j] == tiles[j]
  {
    tiles[i := tiles[i].(player := p)]
  }

  /** CorrectCallback: the player on turn scores the pair, the result is re-evaluated,
      the turn passes and the board is finalized. */
  function CorrectCallback(b: Board, data: Resolution): (r: Board)
    requires data.last < |b.tiles| && data.current < |b.tiles|
    ensures b.player == Player1 ==> r.p1Count == b.p1Count + 1 && r.p2Count == b.p2Count
    ensures b.player != Player1 ==> r.p2Count == b.p2Count + 1 && r.p1Count == b.p1Count
    ensures r.count == b.count + 1
    ensures |r.tiles| == |b.tiles|
    ensures r.tiles[data.last].player == b.player && r.tiles[data.current].player == b.player
    ensures forall j :: 0 <= j < |b.tiles| && j != data.last && j != data.current ==> r.tiles[j] == b.tiles[j]
    ensures forall j :: 0 <= j < |b.tiles| ==>
              r.tiles[j].id == b.tiles[j].id && r.tiles[j].imageId == b.tiles[j].imageId
    ensures r.result == Winner(r.count, r.p1Count, r.p2Count)
    ensures r.player == Toggle(b.player)
    ensures r.round == b.round + 1
    ensures r.lastItemId == 0 && r.lastImageId == 0 && !r.blocked && r.pending.None?
  {
    var p := b.player;
    var p1 := if p == Player1 then b.p1Count + 1 else b.p1Count;
    var p2 := if p == Player1 then b.p2Count else b.p2Count + 1;
    var count := b.count + 1;
    var tiles := SetOwner(SetOwner(b.tiles, data.last, p), data.current, p);
    Finalize(b.(p1Count := p1, p2Count := p2, count := count, tiles := tiles,
                result := Winner(count, p1, p2), player := Toggle(p)))
  }

  /** WrongCallback: the turn passes, both tiles are hidden again and the board is finalized. */
  function WrongCallback(b: Board, data: Resolution): (r: Board)
    requires data.last < |b.tiles| && data.current < |b.tiles|
    ensures r.count == b.count && r.p1Count == b.p1Count && r.p2Count == b.p2Count
    ensures r.result == b.result
    ensures |r.tiles| == |b.tiles|
    ensures r.tiles[data.last].player == None && r.tiles[data.current].player == None
    ensures forall j :: 0 <= j < |b.tiles| && j != data.last && j != data.current ==> r.tiles[j] == b.tiles[j]
    ensures forall j :: 0 <= j < |b.tiles| ==>
              r.tiles[j].id == b.tiles[j].id && r.tiles[j].imageId == b.tiles[j].imageId
    ensures r.player == Toggle(b.player)
    ensures r.round == b.round + 1
    ensures r.lastItemId == 0 && r.lastImageId == 0 && !r.blocked && r.pending.None?
  {
    var b' := b.(player := Toggle(b.player));
    Finalize(b'.(tiles := SetOwner(SetOwner(b'.tiles, data.last, None), data.current, None)))
  }

  /** The timer firing for `data`: the callback it was scheduled with. */
  function Fire(b: Board, data: Resolution): (r: Board)
    requires data.last < |b.tiles| && data.current < |b.tiles|
    ensures r.player == Toggle(b.player) && r.round == b.round + 1
    ensures !r.blocked && r.pending.None?
    ensures |r.tiles| == |b.tiles|
  {
    match data.kind
    case Correct => CorrectCallback(b, data)
    case Wrong => WrongCallback(b, data)
  }
}
