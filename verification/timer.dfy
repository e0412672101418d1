/**
  The cooperative timer queue of src/base/private/Timer.c (the Emscripten build):
  a list of entries, each with the tick at which it falls due and the payload its
  callback receives. `Update` walks the list once per frame and fires and unlinks
  every entry that is due.

  The clock is a parameter `now` (SDL_GetTicks64); "firing" an entry is reported
  by returning its payload, in the order the callbacks run.
*/
module Timer {

  /** Uint32 bound of an interval. */
  const IntervalLimit: nat := 0x1_0000_0000

  datatype Entry<T> = Entry(due: nat, payload: T)

  predicate Due<T>(e: Entry<T>, now: nat)
  {
    now >= e.due
  }

  /** Reference definition: the payloads of the due entries, in list order. */
  function Fired<T>(q: seq<Entry<T>>, now: nat): seq<T>
  {
    if |q| == 0 then []
    else (if Due(q[0], now) then [q[0].payload] else []) + Fired(q[1..], now)
  }

  /** Reference definition: the entries that are not due, in list order. */
  function Kept<T>(q: seq<Entry<T>>, now: nat): seq<Entry<T>>
  {
    if |q| == 0 then []
    else (if Due(q[0], now) then [] else [q[0]]) + Kept(q[1..], now)
  }

  /** Timer_Clear: the queue is emptied. */
  function Clear<T>(q: seq<Entry<T>>): (r: seq<Entry<T>>)
    ensures forall now :: Fired(r, now) == [] && Kept(r, now) == []
  {
    []
  }

  /** Timer_Add: one entry, due `interval` ticks after `now`, is appended; the earlier entries are untouched. */
  function Add<T>(q: seq<Entry<T>>, now: nat, interval: nat, payload: T): (r: seq<Entry<T>>)
    requires interval < IntervalLimit
    ensures |r| == |q| + 1 && r[..|q|] == q
    ensures r[|q|].due == now + interval && r[|q|].payload == payload
  {
    q + [Entry(now + interval, payload)]
  }

  lemma {:induction false} FiredAppend<T>(a: seq<Entry<T>>, b: seq<Entry<T>>, now: nat)
    ensures Fired(a + b, now) == Fired(a, now) + Fired(b, now)
  {
    if |a| == 0 {
      assert a + b == b;
    } else {
      var head := if Due(a[0], now) then [a[0].payload] else [];
      assert (a + b)[0] == a[0];
      assert (a + b)[1..] == a[1..] + b;
      FiredAppend(a[1..], b, now);
      calc {
        Fired(a + b, now);
        head + Fired(a[1..] + b, now);
        head + (Fired(a[1..], now) + Fired(b, now));
        (head + Fired(a[1..], now)) + Fired(b, now);
      }
    }
  }

  lemma {:induction false} KeptAppend<T>(a: seq<Entry<T>>, b: seq<Entry<T>>, now: nat)
    ensures Kept(a + b, now) == Kept(a, now) + Kept(b, now)
  {
    if |a| == 0 {
      assert a + b == b;
    } else {
      var head := if Due(a[0], now) then [] else [a[0]];
      assert (a + b)[0] == a[0];
      assert (a + b)[1..] == a[1..] + b;
      KeptAppend(a[1..], b, now);
      calc {
        Kept(a + b, now);
        head + Kept(a[1..] + b, now);
        head + (Kept(a[1..], now) + Kept(b, now));
        (head + Kept(a[1..], now)) + Kept(b, now);
      }
    }
  }

  lemma SplitAppend<T>(a: seq<Entry<T>>, b: seq<Entry<T>>, now: nat)
    ensures Fired(a + b, now) == Fired(a, now) + Fired(b, now)
    ensures Kept(a + b, now) == Kept(a, now) + Kept(b, now)
  {
    FiredAppend(a, b, now);
    KeptAppend(a, b, now);
  }

  /** Timer_Update: walk the list with a cursor; a due entry has its callback run and is
      unlinked (the cursor moves to its successor), any other entry is stepped over. */
  method Update<T>(q: seq<Entry<T>>, now: nat) returns (fired: seq<T>, rest: seq<Entry<T>>)
    ensures fired == Fired(q, now)
    ensures rest == Kept(q, now)
  {
    var list := q;
    var pos := 0;
    fired := [];
    ghost var seen := 0;
    while pos < |list|
      invariant 0 <= pos <= |list|
      invariant 0 <= seen <= |q|
      invariant list[..pos] == Kept(q[..seen], now)
      invariant list[pos..] == q[seen..]
      invariant fired == Fired(q[..seen], now)
      decreases |list| - pos
    {
      var e := list[pos];
      assert e == q[seen];
      assert list[pos + 1..] == q[seen + 1..];
      assert q[..seen + 1] == q[..seen] + [e];
      SplitAppend(q[..seen], [e], now);
      assert Fired([e], now) == (if Due(e, now) then [e.payload] else []);
      assert Kept([e], now) == (if Due(e, now) then [] else [e]);
      if now >= e.due {
        fired := fired + [e.payload];
        list := list[..pos] + list[pos + 1..];
      } else {
        pos := pos + 1;
      }
      seen := seen + 1;
    }
    assert q[..seen] == q;
    rest := list;
  }

  /** Every entry is either fired or kept, never both and never dropped. */
  lemma {:induction false} UpdatePartition<T>(q: seq<Entry<T>>, now: nat)
    ensures |Fired(q, now)| + |Kept(q, now)| == |q|
    ensures forall i :: 0 <= i < |Kept(q, now)| ==> !Due(Kept(q, now)[i], now)
    ensures forall e :: e in Kept(q, now) ==> e in q
  {
    if |q| > 0 {
      UpdatePartition(q[1..], now);
    }
  }

  /** When nothing is due an update fires nothing and keeps the list as it is. */
  lemma {:induction false} NothingDue<T>(q: seq<Entry<T>>, now: nat)
    requires forall i :: 0 <= i < |q| ==> !Due(q[i], now)
    ensures Fired(q, now) == [] && Kept(q, now) == q
  {
    if |q| > 0 {
      NothingDue(q[1..], now);
    }
  }

  /** When everything is due an update fires every payload in list order and empties the list. */
  lemma {:induction false} AllDue<T>(q: seq<Entry<T>>, now: nat)
    requires forall i :: 0 <= i < |q| ==> Due(q[i], now)
    ensures |Fired(q, now)| == |q|
    ensures forall i :: 0 <= i < |q| ==> Fired(q, now)[i] == q[i].payload
    ensures Kept(q, now) == []
  {
    if |q| > 0 {
      AllDue(q[1..], now);
    }
  }

  /** Once an update has run, a second update at the same time fires nothing: each entry fires at most once. */
  lemma {:induction false} FiredOnce<T>(q: seq<Entry<T>>, now: nat)
    ensures Fired(Kept(q, now), now) == []
    ensures Kept(Kept(q, now), now) == Kept(q, now)
  {
    UpdatePartition(q, now);
    NothingDue(Kept(q, now), now);
  }

  /** An entry added at `t` with interval `d` is not fired by an update before t + d,
      and stays queued behind the entries that were already there. */
  lemma NotFiredEarly<T>(q: seq<Entry<T>>, t: nat, d: nat, p: T, now: nat)
    requires d < IntervalLimit
    requires now < t + d
    ensures Fired(Add(q, t, d, p), now) == Fired(q, now)
    ensures Kept(Add(q, t, d, p), now) == Kept(q, now) + [Entry(t + d, p)]
  {
    SplitAppend(q, [Entry(t + d, p)], now);
  }

  /** From t + d on, the added entry fires, after every earlier entry that fires with it. */
  lemma FiredWhenDue<T>(q: seq<Entry<T>>, t: nat, d: nat, p: T, now: nat)
    requires d < IntervalLimit
    requires now >= t + d
    ensures Fired(Add(q, t, d, p), now) == Fired(q, now) + [p]
    ensures Kept(Add(q, t, d, p), now) == Kept(q, now)
  {
    SplitAppend(q, [Entry(t + d, p)], now);
  }

  /** After Timer_Clear only entries added later can fire. */
  lemma ClearForgets<T>(q: seq<Entry<T>>, later: seq<Entry<T>>, now: nat)
    ensures Fired(Clear(q) + later, now) == Fired(later, now)
  {
    assert Clear(q) + later == later;
  }
}
