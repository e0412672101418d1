/**
  What every board reachable from a deal satisfies, and the proofs that the deal
  establishes it and that presses and timer callbacks keep it.
*/
module BoardInvariant {
  import O = Options
  import opened Deal
  import opened GameBoard

  /** The image ids of the tiles, in row-major order. */
  function ImageIds(tiles: seq<Tile>): (r: seq<int>)
    ensures |r| == |tiles|
    ensures forall i :: 0 <= i < |tiles| ==> r[i] == tiles[i].imageId
  {
    seq(|tiles|, i requires 0 <= i < |tiles| => tiles[i].imageId)
  }

  /** Number of tiles owned by `w` (with `w == None`: the unowned tiles). */
  function Owned(tiles: seq<Tile>, w: Player): nat
  {
    if |tiles| == 0 then 0
    else (if tiles[0].player == w then 1 else 0) + Owned(tiles[1..], w)
  }

  /** The layout a deal produces and play never changes: 32 tiles with ids 1..32 in
      row-major order whose images are the pair list in some order. */
  ghost predicate Layout(tiles: seq<Tile>)
  {
    && |tiles| == TileCount
    && (forall i :: 0 <= i < |tiles| ==> tiles[i].id == i + 1)
    && multiset(ImageIds(tiles)) == multiset(PairList())
  }

  /** Two tiles showing the same image always have the same owner: pairs are owned whole. */
  ghost predicate Twins(tiles: seq<Tile>)
  {
    forall i, j :: 0 <= i < |tiles| && 0 <= j < |tiles| && i != j && tiles[i].imageId == tiles[j].imageId ==>
      tiles[i].player == tiles[j].player
  }

  /** The outstanding comparison names the pending first pick and a different free tile,
      and was judged correct exactly when the two images agree. */
  ghost predicate PendingOk(b: Board, d: Resolution)
  {
    && d.last < |b.tiles| && d.last + 1 == b.lastItemId
    && d.current < |b.tiles| && d.current != d.last
    && b.tiles[d.current].player == None
    && (d.kind == Correct <==> b.tiles[d.last].imageId == b.tiles[d.current].imageId)
  }

  ghost predicate Inv(b: Board)
  {
    var t := b.tiles;
    && Layout(t)
    && (forall i :: 0 <= i < |t| ==> t[i].player != Tied)
    && Twins(t)
    && (b.player == Player1 || b.player == Player2)
    && (b.player == Player1 <==> b.round % 2 == 0)
    && b.count == b.p1Count + b.p2Count
    && Owned(t, Player1) == 2 * b.p1Count
    && Owned(t, Player2) == 2 * b.p2Count
    && b.result == Winner(b.count, b.p1Count, b.p2Count)
    && (b.lastImageId == 0 <==> b.lastItemId == 0)
    && (b.lastImageId != 0 ==>
          && 1 <= b.lastItemId <= |t|
          && t[b.lastItemId - 1].imageId == b.lastImageId
          && t[b.lastItemId - 1].player == None)
    && (b.blocked <==> b.pending.Some?)
    && (b.pending.Some? ==> b.lastImageId != 0 && PendingOk(b, b.pending.value))
  }

  // ---------------------------------------------------------------- counting

  lemma {:induction false} OwnedSetOwner(t: seq<Tile>, i: nat, p: Player, w: Player)
    requires i < |t|
    ensures Owned(SetOwner(t, i, p), w) ==
            Owned(t, w) - (if t[i].player == w then 1 else 0) + (if p == w then 1 else 0)
  {
    var r := SetOwner(t, i, p);
    if i == 0 {
      assert r[1..] == t[1..];
    } else {
      assert r[1..] == SetOwner(t[1..], i - 1, p);
      OwnedSetOwner(t[1..], i - 1, p, w);
    }
  }

  lemma {:induction false} OwnedZero(t: seq<Tile>, w: Player)
    ensures Owned(t, w) == 0 <==> forall i :: 0 <= i < |t| ==> t[i].player != w
  {
    if |t| > 0 {
      OwnedZero(t[1..], w);
      if Owned(t, w) == 0 {
        forall i | 0 <= i < |t| ensures t[i].player != w {
          if i > 0 { assert t[i] == t[1..][i - 1]; }
        }
      } else if t[0].player != w {
        var i :| 0 <= i < |t[1..]| && t[1..][i].player == w;
        assert t[i + 1].player == w;
      }
    }
  }

  /** Every tile is unowned or owned by one of the two players. */
  lemma {:induction false} OwnedPartition(t: seq<Tile>)
    requires forall i :: 0 <= i < |t| ==> t[i].player != Tied
    ensures Owned(t, None) + Owned(t, Player1) + Owned(t, Player2) == |t|
  {
    if |t| > 0 {
      assert t[0].player != Tied;
      forall i | 0 <= i < |t[1..]| ensures t[1..][i].player != Tied {
        assert t[1..][i] == t[i + 1];
      }
      OwnedPartition(t[1..]);
    }
  }

  /** A value at three distinct positions of a sequence occurs at least three times. */
  lemma {:induction false} ThreeOccurrences(s: seq<int>, x: int, idx: set<nat>)
    requires forall i :: i in idx ==> i < |s| && s[i] == x
    ensures multiset(s)[x] >= |idx|
  {
    if |s| > 0 {
      var n := |s| - 1;
      var init := s[..n];
      assert s == init + [s[n]];
      var rest := idx - {n};
      ThreeOccurrences(init, x, rest);
      if n in idx {
        assert |rest| == |idx| - 1;
      } else {
        assert rest == idx;
      }
    } else {
      assert idx == {};
    }
  }

  /** In a dealt layout every image shows on at most two tiles. */
  lemma NoThirdTile(t: seq<Tile>, i: nat, j: nat, k: nat)
    requires Layout(t)
    requires i < |t| && j < |t| && k < |t| && i != j && j != k && i != k
    ensures !(t[i].imageId == t[j].imageId == t[k].imageId)
  {
    var x := t[i].imageId;
    if t[j].imageId == x && t[k].imageId == x {
      ThreeOccurrences(ImageIds(t), x, {i, j, k});
      PairListCounts(x);
    }
  }

  /** Every image id on a dealt board lies in 1..16 and shows on exactly two tiles. */
  lemma LayoutImages(t: seq<Tile>, i: nat)
    requires Layout(t) && i < |t|
    ensures 1 <= t[i].imageId <= PairCount
    ensures multiset(ImageIds(t))[t[i].imageId] == 2
  {
    var x := t[i].imageId;
    assert ImageIds(t)[i] == x;
    assert x in multiset(ImageIds(t));
    PairListCounts(x);
  }

  /** With row-major ids, GetItem finds tile `id` at index id - 1. */
  lemma FindItemRowMajor(t: seq<Tile>, id: int)
    requires forall i :: 0 <= i < |t| ==> t[i].id == i + 1
    requires 1 <= id <= |t|
    ensures FindItem(t, id) == O.Some(id - 1)
  {
    assert t[id - 1].id == id;
  }

  // ---------------------------------------------------------------- the deal

  /** GameBoard_New after GameBoard_SetupBoard: a board laid from the dealt images satisfies the invariant. */
  lemma DealInv(images: seq<int>)
    requires ProperDeal(images)
    ensures Inv(NewBoard(LayTiles(images)))
  {
    var t := LayTiles(images);
    assert ImageIds(t) == images;
    forall img ensures multiset(images)[img] == multiset(PairList())[img] {
      PairListCounts(img);
    }
    assert multiset(images) == multiset(PairList());
    OwnedZero(t, Player1);
    OwnedZero(t, Player2);
  }

  // ---------------------------------------------------------------- presses

  lemma CheckInv(b: Board, k: nat)
    requires Inv(b) && k < |b.tiles|
    ensures FirstPickFound(b)
    ensures Inv(Check(b, k))
  {
    if b.lastImageId != 0 {
      FindItemRowMajor(b.tiles, b.lastItemId);
    }
    var r := Check(b, k);
    if !b.blocked && b.result == None && b.lastImageId == 0 && b.tiles[k].player == None {
      LayoutImages(b.tiles, k);
    }
  }

  // ---------------------------------------------------------------- resolutions

  lemma SetOwnerUnchanged(t: seq<Tile>, i: nat)
    requires i < |t|
    ensures SetOwner(t, i, t[i].player) == t
  {
  }

  lemma CorrectInv(b: Board)
    requires Inv(b) && b.pending.Some? && b.pending.value.kind == Correct
    ensures Inv(CorrectCallback(b, b.pending.value))
  {
    var d := b.pending.value;
    var t := b.tiles;
    var p := b.player;
    var t1 := SetOwner(t, d.last, p);
    var t2 := SetOwner(t1, d.current, p);
    var r := CorrectCallback(b, d);
    assert r.tiles == t2;
    assert ImageIds(t2) == ImageIds(t);
    OwnedSetOwner(t, d.last, p, Player1);
    OwnedSetOwner(t1, d.current, p, Player1);
    OwnedSetOwner(t, d.last, p, Player2);
    OwnedSetOwner(t1, d.current, p, Player2);
    forall i, j | 0 <= i < |t2| && 0 <= j < |t2| && i != j && t2[i].imageId == t2[j].imageId
      ensures t2[i].player == t2[j].player
    {
      var touched := {d.last, d.current};
      if i in touched && j !in touched {
        NoThirdTile(t, d.last, d.current, j);
      } else if j in touched && i !in touched {
        NoThirdTile(t, d.last, d.current, i);
      }
    }
  }

  lemma WrongInv(b: Board)
    requires Inv(b) && b.pending.Some? && b.pending.value.kind == Wrong
    ensures Inv(WrongCallback(b, b.pending.value))
  {
    var d := b.pending.value;
    SetOwnerUnchanged(b.tiles, d.last);
    SetOwnerUnchanged(b.tiles, d.current);
    assert WrongCallback(b, d).tiles == b.tiles;
  }

  /** Firing the outstanding comparison keeps the invariant; its payload names two tiles of the board. */
  lemma FireInv(b: Board)
    requires Inv(b) && b.pending.Some?
    ensures b.pending.value.last < |b.tiles| && b.pending.value.current < |b.tiles|
    ensures Inv(Fire(b, b.pending.value))
  {
    if b.pending.value.kind == Correct {
      CorrectInv(b);
    } else {
      WrongInv(b);
    }
  }

  // ---------------------------------------------------------------- consequences

  /** At most sixteen pairs are ever found, and fewer while a comparison is outstanding. */
  lemma CountBound(b: Board)
    requires Inv(b)
    ensures b.count <= PairCount
    ensures b.pending.Some? ==> b.count < PairCount && b.result == None
  {
    OwnedPartition(b.tiles);
    if b.pending.Some? {
      var d := b.pending.value;
      assert Owned(b.tiles, None) >= 2 by {
        OwnedSetOwner(b.tiles, d.last, Player1, None);
        OwnedSetOwner(SetOwner(b.tiles, d.last, Player1), d.current, Player1, None);
      }
    }
  }

  /** The game is decided exactly when every tile has an owner. */
  lemma DecidedIffBoardFull(b: Board)
    requires Inv(b)
    ensures b.result != None <==> forall i :: 0 <= i < |b.tiles| ==> b.tiles[i].player != None
  {
    OwnedPartition(b.tiles);
    OwnedZero(b.tiles, None);
  }

  /** The decided result names the player who owns more tiles, or Tied when both own sixteen. */
  lemma ResultFollowsOwnership(b: Board)
    requires Inv(b) && b.result != None
    ensures b.result == Player1 <==> Owned(b.tiles, Player1) > Owned(b.tiles, Player2)
    ensures b.result == Player2 <==> Owned(b.tiles, Player1) < Owned(b.tiles, Player2)
    ensures b.result == Tied <==> Owned(b.tiles, Player1) == Owned(b.tiles, Player2) == PairCount
  {
  }
}
