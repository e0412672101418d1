/**
  The board wired to the cooperative timer queue, as the scene drives them:
  a press runs GameBoard_Check and, when that schedules a comparison, adds one
  timer (GameBoard_AddTimer / SceneManager_AddTimer / Timer_Add); every frame
  runs Timer_Update, whose due entries run their callbacks in list order; a
  restart (SceneGame_NewGame) clears the timers and deals a new board.
*/
module Game {
  import opened Deal
  import opened GameBoard
  import opened BoardInvariant
  import Timer

  /** What the main loop feeds the scene: a click on a tile, a frame, or the restart button. */
  datatype Event = Click(tile: nat, at: nat) | Tick(at: nat) | NewGame(images: seq<int>)

  datatype Game = Game(board: Board, timers: seq<Timer.Entry<Resolution>>)

  /** The timer queue holds exactly the board's outstanding comparison, or nothing. */
  ghost predicate GameInv(g: Game)
  {
    && Inv(g.board)
    && (g.board.pending.None? ==> g.timers == [])
    && (g.board.pending.Some? ==> |g.timers| == 1 && g.timers[0].payload == g.board.pending.value)
  }

  /** Every timer payload names two tiles of the board (what the callbacks dereference). */
  predicate PayloadsOnBoard(rs: seq<Resolution>, b: Board)
  {
    forall i :: 0 <= i < |rs| ==> rs[i].last < |b.tiles| && rs[i].current < |b.tiles|
  }

  /** A press on tile k at tick `now`. */
  function Press(g: Game, k: nat, now: nat): (r: Game)
    requires k < |g.board.tiles|
    requires FirstPickFound(g.board)
    ensures r.board == Check(g.board, k)
    ensures g.board.pending.None? && r.board.pending.Some? ==>
              r.timers == g.timers + [Timer.Entry(now + Delay(r.board.pending.value.kind), r.board.pending.value)]
    ensures !(g.board.pending.None? && r.board.pending.Some?) ==> r.timers == g.timers
  {
    var b := Check(g.board, k);
    if g.board.pending.None? && b.pending.Some? then
      Game(b, Timer.Add(g.timers, now, Delay(b.pending.value.kind), b.pending.value))
    else
      Game(b, g.timers)
  }

  /** Run the callbacks of the fired payloads, in order. */
  function RunAll(b: Board, fired: seq<Resolution>): (r: Board)
    requires PayloadsOnBoard(fired, b)
    ensures |r.tiles| == |b.tiles|
    ensures r.round == b.round + |fired|
    decreases |fired|
  {
    if |fired| == 0 then b
    else RunAll(Fire(b, fired[0]), fired[1..])
  }

  /** The payloads an update fires come from the queue. */
  lemma {:induction false} FiredFromQueue(q: seq<Timer.Entry<Resolution>>, now: nat, b: Board)
    requires forall i :: 0 <= i < |q| ==> q[i].payload.last < |b.tiles| && q[i].payload.current < |b.tiles|
    ensures PayloadsOnBoard(Timer.Fired(q, now), b)
  {
    if |q| > 0 {
      FiredFromQueue(q[1..], now, b);
    }
  }

  /** One frame at tick `now`: Timer_Update runs every due callback. */
  function Frame(g: Game, now: nat): (r: Game)
    requires forall i :: 0 <= i < |g.timers| ==>
               g.timers[i].payload.last < |g.board.tiles| && g.timers[i].payload.current < |g.board.tiles|
    ensures r.timers == Timer.Kept(g.timers, now)
    ensures r.board.round == g.board.round + |Timer.Fired(g.timers, now)|
  {
    FiredFromQueue(g.timers, now, g.board);
    Game(RunAll(g.board, Timer.Fired(g.timers, now)), Timer.Kept(g.timers, now))
  }

  /** SceneGame_NewGame: Timer_Clear, then a board dealt with the given images. */
  function Restart(g: Game, images: seq<int>): (r: Game)
    ensures r.timers == [] && r.board == NewBoard(LayTiles(images))
  {
    Game(NewBoard(LayTiles(images)), Timer.Clear(g.timers))
  }

  // ---------------------------------------------------------------- invariant

  /** A restart with a proper deal yields a consistent game whatever was pending before. */
  lemma RestartInv(g: Game, images: seq<int>)
    requires ProperDeal(images)
    ensures GameInv(Restart(g, images))
  {
    DealInv(images);
  }

  lemma PressInv(g: Game, k: nat, now: nat)
    requires GameInv(g) && k < |g.board.tiles|
    ensures FirstPickFound(g.board)
    ensures GameInv(Press(g, k, now))
  {
    CheckInv(g.board, k);
  }

  lemma FrameInv(g: Game, now: nat)
    requires GameInv(g)
    ensures forall i :: 0 <= i < |g.timers| ==>
              g.timers[i].payload.last < |g.board.tiles| && g.timers[i].payload.current < |g.board.tiles|
    ensures GameInv(Frame(g, now))
  {
    if g.board.pending.Some? {
      FireInv(g.board);
      var e := g.timers[0];
      assert g.timers == [e];
      assert g.timers[1..] == [];
      if now >= e.due {
        assert Timer.Fired(g.timers, now) == [e.payload];
        assert Timer.Kept(g.timers, now) == [];
        assert RunAll(g.board, [e.payload]) == Fire(g.board, e.payload) by {
          assert [e.payload][1..] == [];
        }
      } else {
        assert Timer.Fired(g.timers, now) == [];
        assert Timer.Kept(g.timers, now) == g.timers;
      }
    }
  }

  // ---------------------------------------------------------------- timing

  /** A valid second pick schedules its comparison 500 ms (correct) or 1000 ms (wrong) after the press. */
  lemma PressSchedules(g: Game, k: nat, now: nat)
    requires GameInv(g) && k < |g.board.tiles|
    requires !g.board.blocked && Press(g, k, now).board.blocked
    ensures Press(g, k, now).board.pending.Some?
    ensures var d := Press(g, k, now).board.pending.value;
            Press(g, k, now).timers == [Timer.Entry(now + Delay(d.kind), d)]
  {
    CheckInv(g.board, k);
  }

  /** The outstanding comparison is resolved by the first frame at or after its due tick,
      exactly once, and no earlier frame changes anything. */
  lemma ResolvedOnceWhenDue(g: Game, now: nat)
    requires GameInv(g) && g.board.pending.Some?
    ensures now < g.timers[0].due ==> Frame(g, now) == g
    ensures now >= g.timers[0].due ==>
              Frame(g, now) == Game(Fire(g.board, g.board.pending.value), [])
  {
    FireInv(g.board);
    var e := g.timers[0];
    assert g.timers == [e];
    assert g.timers[1..] == [];
    if now >= e.due {
      assert Timer.Fired(g.timers, now) == [e.payload];
      assert Timer.Kept(g.timers, now) == [];
      assert RunAll(g.board, [e.payload]) == Fire(g.board, e.payload) by {
        assert [e.payload][1..] == [];
      }
    } else {
      assert Timer.Fired(g.timers, now) == [];
      assert Timer.Kept(g.timers, now) == g.timers;
    }
  }

  /** With no comparison outstanding a frame changes nothing. */
  lemma IdleFrame(g: Game, now: nat)
    requires GameInv(g) && g.board.pending.None?
    ensures Frame(g, now) == g
  {
  }

  // ---------------------------------------------------------------- traces

  /** Every click names a tile and every restart brings a proper deal. */
  ghost predicate WellFormedEvents(evs: seq<Event>)
  {
    forall i :: 0 <= i < |evs| ==>
      match evs[i]
      case Click(k, _) => k < TileCount
      case Tick(_) => true
      case NewGame(images) => ProperDeal(images)
  }

  /** The game after a sequence of events, from a consistent state: it stays consistent,
      so in every reachable state input is locked exactly while one timer is queued,
      and player 1 is on turn exactly after an even number of resolved comparisons. */
  function Run(g: Game, evs: seq<Event>): (r: Game)
    requires GameInv(g)
    requires WellFormedEvents(evs)
    ensures GameInv(r)
    ensures r.board.blocked <==> |r.timers| == 1
    ensures r.board.player == Player1 <==> r.board.round % 2 == 0
    decreases |evs|
  {
    if |evs| == 0 then g
    else
      assert WellFormedEvents(evs[1..]) by {
        forall i | 0 <= i < |evs[1..]| ensures evs[1..][i] == evs[i + 1] { }
      }
      match evs[0]
      case Click(k, now) =>
        PressInv(g, k, now);
        Run(Press(g, k, now), evs[1..])
      case Tick(now) =>
        FrameInv(g, now);
        Run(Frame(g, now), evs[1..])
      case NewGame(images) =>
        RestartInv(g, images);
        Run(Restart(g, images), evs[1..])
  }
}
