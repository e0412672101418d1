/**
  The deal of src/scene_game/GameBoard.c: the 4 x 8 board receives the sixteen
  images twice each, the list of image ids is shuffled with the C library's
  rand(), and the shuffled ids are laid out row by row.

  rand() is not modelled: its successive return values are an oracle sequence
  `rolls`, each in [0, RandMax], and the index the source derives from each
  return value is computed with the source's own formula.
*/
module Deal {

  const Rows: nat := 4
  const Cols: nat := 8
  const TileCount: nat := Rows * Cols
  const PairCount: nat := TileCount / 2

  /** glibc's RAND_MAX. */
  const RandMax: nat := 2147483647

  /** The unshuffled image list: tile i gets image i / 2 + 1, so each image is placed
      twice in a row before moving to the next one. */
  function PairList(): (r: seq<int>)
    ensures |r| == TileCount
  {
    PairPrefix(PairCount)
  }

  /** The first `m` pairs of the image list. */
  function PairPrefix(m: nat): (r: seq<int>)
    ensures |r| == 2 * m
    ensures forall i :: 0 <= i < |r| ==> r[i] == i / 2 + 1
  {
    seq(2 * m, i => i / 2 + 1)
  }

  lemma {:induction false} PairPrefixCounts(m: nat, img: int)
    ensures multiset(PairPrefix(m))[img] == if 1 <= img <= m then 2 else 0
  {
    if m > 0 {
      var p := PairPrefix(m - 1);
      assert PairPrefix(m) == p + [m, m];
      PairPrefixCounts(m - 1, img);
    } else {
      assert PairPrefix(0) == [];
    }
  }

  /** Every image id 1..16 occurs exactly twice in the unshuffled list, and nothing else occurs. */
  lemma PairListCounts(img: int)
    ensures multiset(PairList())[img] == if 1 <= img <= PairCount then 2 else 0
  {
    PairPrefixCounts(PairCount, img);
  }

  /** The index `shuffle` swaps with at step `i` of an `n`-element array, given rand()'s value `roll`. */
  function SwapIndex(i: nat, n: nat, roll: nat): (j: nat)
    requires i < n
    requires roll <= RandMax
    ensures i <= j < n
  {
    var q := RandMax / (n - i) + 1;
    SwapIndexInRange(n - i, roll, q);
    i + roll / q
  }

  /** The bucket width chosen by the source is wide enough that no value up to RAND_MAX reaches bucket `m`. */
  lemma SwapIndexInRange(m: nat, roll: nat, q: nat)
    requires m > 0
    requires roll <= RandMax
    requires q == RandMax / m + 1
    ensures roll / q < m
  {
    var d := RandMax / m;
    assert RandMax < m * q by {
      assert RandMax == m * d + RandMax % m;
      assert m * q == m * d + m;
    }
  }

  /** `shuffle` of GameBoard.c: for each i below n - 1, swap element i with an element at
      an index in [i, n) derived from rand(). The result is a permutation of the input. */
  method Shuffle(a: seq<int>, rolls: seq<nat>) returns (r: seq<int>)
    requires |a| >= 1 ==> |rolls| >= |a| - 1
    requires forall k :: 0 <= k < |rolls| ==> rolls[k] <= RandMax
    ensures |r| == |a|
    ensures multiset(r) == multiset(a)
  {
    r := a;
    var n := |a|;
    if n < 1 {
      return;
    }
    var i := 0;
    while i < n - 1
      invariant 0 <= i <= n - 1
      invariant |r| == n
      invariant multiset(r) == multiset(a)
    {
      var j := SwapIndex(i, n, rolls[i]);
      var t := r[j];
      r := r[j := r[i]];
      r := r[i := t];
      i := i + 1;
    }
  }

  /** A deal of the board: 32 image ids in which every image 1..16 occurs exactly twice. */
  ghost predicate ProperDeal(images: seq<int>)
  {
    && |images| == TileCount
    && forall img :: multiset(images)[img] == if 1 <= img <= PairCount then 2 else 0
  }

  /** The image ids of the board after the deal, one per tile in row-major order. */
  method DealImages(rolls: seq<nat>) returns (images: seq<int>)
    requires |rolls| >= TileCount - 1
    requires forall k :: 0 <= k < |rolls| ==> rolls[k] <= RandMax
    ensures ProperDeal(images)
  {
    images := Shuffle(PairList(), rolls);
    forall img
      ensures multiset(images)[img] == if 1 <= img <= PairCount then 2 else 0
    {
      PairListCounts(img);
    }
  }
}
