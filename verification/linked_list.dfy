/**
  The doubly linked list of src/base/LinkedList.c.

  Memory is a map from addresses to nodes; address 0 is NULL. A list is its
  header (first node, last node, size) plus the nodes it has allocated. The
  abstraction `Represents(l, spine)` says that `spine` is the chain of node
  addresses from the first node to the last one, with every prev/next link
  consistent and no other node allocated; `ValuesOf` reads the payloads along
  a spine. Payloads are opaque integers (the source stores `void *`).
*/
module LinkedList {

  type Ptr = nat

  const Null: Ptr := 0

  /** size_t of a 64-bit target. */
  const SizeMax: nat := 0xFFFF_FFFF_FFFF_FFFF

  type SizeT = n: nat | n <= SizeMax

  datatype Node = Node(value: int, prev: Ptr, next: Ptr)

  datatype List = List(nodes: map<Ptr, Node>, first: Ptr, last: Ptr, size: SizeT)

  /** What LinkedList_Remove hands back: the list and the advanced cursor. */
  datatype Removal = Removal(list: List, cursor: Ptr)

  /** The prev/next links of the i-th node of a chain point at its neighbours in the chain. */
  ghost predicate LinksAt(nodes: map<Ptr, Node>, spine: seq<Ptr>, i: nat)
    requires i < |spine| && spine[i] in nodes
  {
    && nodes[spine[i]].prev == (if i == 0 then Null else spine[i - 1])
    && nodes[spine[i]].next == (if i == |spine| - 1 then Null else spine[i + 1])
  }

  /** `spine` is a chain of distinct allocated nodes whose links are mutually consistent. */
  ghost predicate Chain(nodes: map<Ptr, Node>, spine: seq<Ptr>)
  {
    && (forall i :: 0 <= i < |spine| ==> spine[i] != Null && spine[i] in nodes)
    && (forall i, j :: 0 <= i < j < |spine| ==> spine[i] != spine[j])
    && (forall i :: 0 <= i < |spine| ==> LinksAt(nodes, spine, i))
  }

  /** The list `l` is the chain `spine`: the header agrees with the chain and no other node is allocated. */
  ghost predicate Represents(l: List, spine: seq<Ptr>)
  {
    && |spine| == l.size
    && Chain(l.nodes, spine)
    && (forall p :: p in l.nodes ==> p in spine)
    && l.first == (if |spine| == 0 then Null else spine[0])
    && l.last == (if |spine| == 0 then Null else spine[|spine| - 1])
  }

  /** The payloads along a chain of nodes. */
  function ValuesOf(nodes: map<Ptr, Node>, spine: seq<Ptr>): (r: seq<int>)
    requires forall i :: 0 <= i < |spine| ==> spine[i] in nodes
    ensures |r| == |spine|
    ensures forall i :: 0 <= i < |spine| ==> r[i] == nodes[spine[i]].value
  {
    seq(|spine|, i requires 0 <= i < |spine| => nodes[spine[i]].value)
  }

  /** A list determines its chain: there is at most one spine it represents. */
  lemma SpineUnique(l: List, s1: seq<Ptr>, s2: seq<Ptr>)
    requires Represents(l, s1) && Represents(l, s2)
    ensures s1 == s2
  {
    var i := 0;
    while i < |s1|
      invariant 0 <= i <= |s1|
      invariant s1[..i] == s2[..i]
    {
      if i > 0 {
        assert LinksAt(l.nodes, s1, i - 1) && LinksAt(l.nodes, s2, i - 1);
        assert s1[i] == l.nodes[s1[i - 1]].next == s2[i];
      }
      assert s1[..i + 1] == s1[..i] + [s1[i]];
      assert s2[..i + 1] == s2[..i] + [s2[i]];
      i := i + 1;
    }
    assert s1 == s1[..i] && s2 == s2[..i];
  }

  /** LinkedList_New: no first node, no last node, size 0. */
  function New(): (l: List)
    ensures Represents(l, []) && l.first == Null && l.last == Null && l.size == 0
  {
    List(map[], Null, Null, 0)
  }

  /** LinkedList_GetSize. */
  function GetSize(l: List): SizeT
  {
    l.size
  }

  /** The size field counts the nodes of the list. */
  lemma SizeIsLength(l: List, spine: seq<Ptr>)
    requires Represents(l, spine)
    ensures GetSize(l) == |spine| == |ValuesOf(l.nodes, spine)|
    ensures GetSize(l) == |l.nodes.Keys|
  {
    var keys := set i | 0 <= i < |spine| :: spine[i];
    assert l.nodes.Keys == keys;
    DistinctCard(spine);
  }

  /** A chain of distinct addresses has as many addresses as elements. */
  lemma {:induction false} DistinctCard(s: seq<Ptr>)
    requires forall i, j :: 0 <= i < j < |s| ==> s[i] != s[j]
    ensures |(set i | 0 <= i < |s| :: s[i])| == |s|
  {
    if |s| > 0 {
      var n := |s| - 1;
      var init := s[..n];
      DistinctCard(init);
      var a := set i | 0 <= i < |init| :: init[i];
      var b := set i | 0 <= i < |s| :: s[i];
      assert b == a + {s[n]};
      assert s[n] !in a;
    }
  }

  /** LinkedList_Clear: every node is released and the header reset. */
  function Clear(l: List): (r: List)
    ensures Represents(r, []) && r.nodes == map[]
  {
    List(map[], Null, Null, 0)
  }

  /** push/LinkedList_PushPtr: a fresh node `p` (what malloc returned) holding `v` is linked
      after the last node, or becomes the only node of an empty list. */
  function Push(l: List, p: Ptr, v: int): (r: List)
    requires p != Null && p !in l.nodes
    requires l.first != Null ==> l.last in l.nodes
    ensures r.last == p && p in r.nodes && r.nodes[p] == Node(v, if l.first == Null then Null else l.last, Null)
    ensures r.size == if l.size == SizeMax then 0 else l.size + 1
    ensures l.first == Null ==> r.first == p
    ensures l.first != Null ==> r.first == l.first && l.last in r.nodes && r.nodes[l.last] == l.nodes[l.last].(next := p)
    ensures forall q :: q in l.nodes && q != l.last ==> q in r.nodes && r.nodes[q] == l.nodes[q]
    ensures r.nodes.Keys == l.nodes.Keys + {p}
  {
    var size := if l.size == SizeMax then 0 else l.size + 1;
    if l.first == Null then
      List(l.nodes[p := Node(v, Null, Null)], p, p, size)
    else
      var last := l.last;
      List(l.nodes[last := l.nodes[last].(next := p)][p := Node(v, last, Null)], l.first, p, size)
  }

  lemma PushLinksAt(l: List, s: seq<Ptr>, p: Ptr, v: int, i: nat)
    requires Represents(l, s)
    requires p != Null && p !in l.nodes
    requires i <= |s|
    ensures (s + [p])[i] in Push(l, p, v).nodes
    ensures LinksAt(Push(l, p, v).nodes, s + [p], i)
    ensures Push(l, p, v).nodes[(s + [p])[i]].value == if i < |s| then l.nodes[s[i]].value else v
  {
    var r := Push(l, p, v);
    var s' := s + [p];
    if i < |s| {
      assert s'[i] == s[i] != p;
      assert LinksAt(l.nodes, s, i);
      if i > 0 { assert s'[i - 1] == s[i - 1]; }
      if i + 1 < |s| { assert s'[i + 1] == s[i + 1]; }
      if i == |s| - 1 {
        assert s[i] == l.last;
      } else {
        assert s[i] != s[|s| - 1];
      }
    } else if |s| > 0 {
      assert l.first == s[0] != Null;
    }
  }

  /** After a push the old chain extended by the new node is again a chain. */
  lemma PushChain(l: List, s: seq<Ptr>, p: Ptr, v: int)
    requires Represents(l, s)
    requires p != Null && p !in l.nodes
    ensures Chain(Push(l, p, v).nodes, s + [p])
  {
    var r := Push(l, p, v).nodes;
    var s' := s + [p];
    forall i | 0 <= i < |s'|
      ensures s'[i] != Null && s'[i] in r && LinksAt(r, s', i)
    {
      PushLinksAt(l, s, p, v, i);
      if i < |s| { assert s'[i] == s[i]; }
    }
    forall i, j | 0 <= i < j < |s'|
      ensures s'[i] != s'[j]
    {
      assert s'[i] == s[i] && s[i] in l.nodes;
      if j < |s| { assert s'[j] == s[j]; }
    }
  }

  /** After a push the header describes the extended chain and no node lies outside it. */
  lemma PushHeader(l: List, s: seq<Ptr>, p: Ptr, v: int)
    requires Represents(l, s) && |s| < SizeMax
    requires p != Null && p !in l.nodes
    ensures var r := Push(l, p, v);
            && |s + [p]| == r.size
            && r.first == (s + [p])[0]
            && r.last == (s + [p])[|s|]
            && (forall q :: q in r.nodes ==> q in s + [p])
  {
    if |s| > 0 {
      assert l.first == s[0] != Null;
    }
  }

  /** After a push the payloads along the extended chain are the old ones followed by `v`. */
  lemma PushValues(l: List, s: seq<Ptr>, p: Ptr, v: int)
    requires Represents(l, s)
    requires p != Null && p !in l.nodes
    ensures forall i :: 0 <= i < |s + [p]| ==> (s + [p])[i] in Push(l, p, v).nodes
    ensures ValuesOf(Push(l, p, v).nodes, s + [p]) == ValuesOf(l.nodes, s) + [v]
  {
    var r := Push(l, p, v);
    var s' := s + [p];
    forall i | 0 <= i < |s'|
      ensures s'[i] in r.nodes
      ensures r.nodes[s'[i]].value == (ValuesOf(l.nodes, s) + [v])[i]
    {
      PushLinksAt(l, s, p, v, i);
    }
  }

  /** Push appends exactly one element and keeps the earlier ones, in order. */
  lemma PushAppends(l: List, s: seq<Ptr>, p: Ptr, v: int)
    requires Represents(l, s) && |s| < SizeMax
    requires p != Null && p !in l.nodes
    ensures Represents(Push(l, p, v), s + [p])
    ensures ValuesOf(Push(l, p, v).nodes, s + [p]) == ValuesOf(l.nodes, s) + [v]
  {
    PushChain(l, s, p, v);
    PushHeader(l, s, p, v);
    PushValues(l, s, p, v);
  }

  /** The pointer validity LinkedList_Remove relies on when it dereferences a cursor. */
  predicate Linked(l: List, c: Ptr)
  {
    c != Null ==>
      && c in l.nodes
      && (l.nodes[c].prev != Null ==> l.nodes[c].prev in l.nodes)
      && (l.nodes[c].next != Null ==> l.nodes[c].next in l.nodes)
  }

  /** `r` keeps a subset of the nodes of `l`, each with its payload unchanged. */
  ghost predicate SameValues(r: map<Ptr, Node>, l: map<Ptr, Node>)
  {
    forall p :: p in r ==> p in l && r[p].value == l[p].value
  }

  /** LinkedList_Remove: unlink the node under the cursor, fix first/last, release it,
      decrement the size and move the cursor to the removed node's successor. */
  function Remove(l: List, c: Ptr): (r: Removal)
    requires Linked(l, c)
    ensures c == Null ==> r == Removal(l, Null)
    ensures c != Null ==> r.list.nodes.Keys == l.nodes.Keys - {c} && r.cursor == l.nodes[c].next
    ensures SameValues(r.list.nodes, l.nodes)
    ensures c != Null ==> r.list.size == if l.size == 0 then SizeMax else l.size - 1
  {
    if c == Null then Removal(l, Null)
    else
      var cur := l.nodes[c];
      var prev := cur.prev;
      var next := cur.next;
      var nodes := if prev != Null then l.nodes[prev := l.nodes[prev].(next := next)] else l.nodes;
      var nodes := if next != Null then nodes[next := nodes[next].(prev := prev)] else nodes;
      var first := if l.first == c then next else l.first;
      var last := if l.last == c then prev else l.last;
      var size := if l.size == 0 then SizeMax else l.size - 1;
      Removal(List(nodes - {c}, first, last, size), next)
  }

  /** The links of the k-th node of a represented chain. */
  lemma NodeLinks(l: List, s: seq<Ptr>, k: nat)
    requires Represents(l, s) && k < |s|
    ensures s[k] in l.nodes && Linked(l, s[k])
    ensures l.nodes[s[k]].prev == if k == 0 then Null else s[k - 1]
    ensures l.nodes[s[k]].next == if k == |s| - 1 then Null else s[k + 1]
  {
    assert LinksAt(l.nodes, s, k);
    if k > 0 { assert s[k - 1] in l.nodes; }
    if k + 1 < |s| { assert s[k + 1] in l.nodes; }
  }

  /** How Remove on the k-th node changes the node at position j != k: only its two
      neighbours are relinked, to each other. */
  lemma RemoveNeighbours(l: List, s: seq<Ptr>, k: nat, j: nat)
    requires Represents(l, s) && k < |s| && j < |s| && j != k
    ensures Linked(l, s[k])
    ensures s[j] in Remove(l, s[k]).list.nodes
    ensures Remove(l, s[k]).list.nodes[s[j]] ==
              if j + 1 == k then l.nodes[s[j]].(next := l.nodes[s[k]].next)
              else if j == k + 1 then l.nodes[s[j]].(prev := l.nodes[s[k]].prev)
              else l.nodes[s[j]]
  {
    NodeLinks(l, s, k);
    NodeLinks(l, s, j);
    if k > 0 && k + 1 < |s| { assert s[k - 1] != s[k + 1]; }
    assert s[j] != s[k];
  }

  /** The chain left by removing position k, read at position i. */
  lemma RemovedIndex(s: seq<Ptr>, k: nat, i: nat)
    requires k < |s| && i < |s| - 1
    ensures (s[..k] + s[k + 1..])[i] == if i < k then s[i] else s[i + 1]
  {
  }

  lemma RemoveLinksAt(l: List, s: seq<Ptr>, k: nat, i: nat)
    requires Represents(l, s) && k < |s| && i < |s| - 1
    ensures Linked(l, s[k])
    ensures (s[..k] + s[k + 1..])[i] in Remove(l, s[k]).list.nodes
    ensures LinksAt(Remove(l, s[k]).list.nodes, s[..k] + s[k + 1..], i)
    ensures Remove(l, s[k]).list.nodes[(s[..k] + s[k + 1..])[i]].value == l.nodes[(s[..k] + s[k + 1..])[i]].value
  {
    NodeLinks(l, s, k);
    var s' := s[..k] + s[k + 1..];
    var j := if i < k then i else i + 1;
    RemovedIndex(s, k, i);
    if i > 0 { RemovedIndex(s, k, i - 1); }
    if i + 1 < |s'| { RemovedIndex(s, k, i + 1); }
    RemoveNeighbours(l, s, k, j);
    NodeLinks(l, s, j);
  }

  lemma RemoveChain(l: List, s: seq<Ptr>, k: nat)
    requires Represents(l, s) && k < |s|
    ensures Linked(l, s[k])
    ensures Chain(Remove(l, s[k]).list.nodes, s[..k] + s[k + 1..])
    ensures var s' := s[..k] + s[k + 1..];
            forall i :: 0 <= i < |s'| ==> Remove(l, s[k]).list.nodes[s'[i]].value == l.nodes[s'[i]].value
  {
    NodeLinks(l, s, k);
    var nodes := Remove(l, s[k]).list.nodes;
    var s' := s[..k] + s[k + 1..];
    forall i | 0 <= i < |s'|
      ensures s'[i] in nodes && LinksAt(nodes, s', i)
      ensures nodes[s'[i]].value == l.nodes[s'[i]].value
      ensures s'[i] != Null
    {
      RemoveLinksAt(l, s, k, i);
      RemovedIndex(s, k, i);
    }
    forall i, j | 0 <= i < j < |s'| ensures s'[i] != s'[j] {
      RemovedIndex(s, k, i);
      RemovedIndex(s, k, j);
    }
  }

  /** Remove frees exactly the removed node: every remaining node lies on the shortened chain. */
  lemma RemoveKeys(l: List, s: seq<Ptr>, k: nat)
    requires Represents(l, s) && k < |s|
    ensures Linked(l, s[k])
    ensures forall p :: p in Remove(l, s[k]).list.nodes ==> p in s[..k] + s[k + 1..]
  {
    NodeLinks(l, s, k);
    var r := Remove(l, s[k]).list;
    var s' := s[..k] + s[k + 1..];
    forall p | p in r.nodes ensures p in s' {
      var j :| 0 <= j < |s| && s[j] == p;
      assert j != k;
      if j < k { RemovedIndex(s, k, j); } else { RemovedIndex(s, k, j - 1); }
    }
  }

  /** Remove sets size, first, last and the cursor to those of the shortened chain. */
  lemma RemoveEnds(l: List, s: seq<Ptr>, k: nat)
    requires Represents(l, s) && k < |s|
    ensures Linked(l, s[k])
    ensures Remove(l, s[k]).list.size == |s| - 1
    ensures Remove(l, s[k]).list.first == if |s| == 1 then Null else (s[..k] + s[k + 1..])[0]
    ensures Remove(l, s[k]).list.last == if |s| == 1 then Null else (s[..k] + s[k + 1..])[|s| - 2]
    ensures Remove(l, s[k]).cursor == if k + 1 < |s| then s[k + 1] else Null
  {
    NodeLinks(l, s, k);
    if |s| > 1 {
      RemovedIndex(s, k, 0);
      RemovedIndex(s, k, |s| - 2);
      assert s[0] != s[k] || k == 0;
      assert s[|s| - 1] != s[k] || k == |s| - 1;
    }
  }

  lemma RemoveHeader(l: List, s: seq<Ptr>, k: nat)
    requires Represents(l, s) && k < |s|
    ensures Linked(l, s[k])
    ensures Remove(l, s[k]).list.size == |s| - 1
    ensures forall p :: p in Remove(l, s[k]).list.nodes ==> p in s[..k] + s[k + 1..]
    ensures Remove(l, s[k]).list.first == if |s| == 1 then Null else (s[..k] + s[k + 1..])[0]
    ensures Remove(l, s[k]).list.last == if |s| == 1 then Null else (s[..k] + s[k + 1..])[|s| - 2]
    ensures Remove(l, s[k]).cursor == if k + 1 < |s| then s[k + 1] else Null
  {
    RemoveKeys(l, s, k);
    RemoveEnds(l, s, k);
  }

  lemma RemoveValues(l: List, s: seq<Ptr>, k: nat)
    requires Represents(l, s) && k < |s|
    ensures Linked(l, s[k])
    ensures Chain(Remove(l, s[k]).list.nodes, s[..k] + s[k + 1..])
    ensures ValuesOf(Remove(l, s[k]).list.nodes, s[..k] + s[k + 1..]) ==
            ValuesOf(l.nodes, s)[..k] + ValuesOf(l.nodes, s)[k + 1..]
  {
    RemoveChain(l, s, k);
    var nodes := Remove(l, s[k]).list.nodes;
    var s' := s[..k] + s[k + 1..];
    var vs := ValuesOf(l.nodes, s);
    forall i | 0 <= i < |s'| ensures ValuesOf(nodes, s')[i] == (vs[..k] + vs[k + 1..])[i] {
      RemovedIndex(s, k, i);
    }
  }

  /** Remove on the k-th node deletes exactly that element, keeps the others in order
      and leaves the cursor on the following node (NULL after the last). */
  lemma RemoveDeletes(l: List, s: seq<Ptr>, k: nat)
    requires Represents(l, s) && k < |s|
    ensures Linked(l, s[k])
    ensures Represents(Remove(l, s[k]).list, s[..k] + s[k + 1..])
    ensures Remove(l, s[k]).cursor == if k + 1 < |s| then s[k + 1] else Null
    ensures ValuesOf(Remove(l, s[k]).list.nodes, s[..k] + s[k + 1..]) ==
            ValuesOf(l.nodes, s)[..k] + ValuesOf(l.nodes, s)[k + 1..]
  {
    NodeLinks(l, s, k);
    RemoveChain(l, s, k);
    RemoveHeader(l, s, k);
    RemoveValues(l, s, k);
  }

  /** The elements of `xs` other than `v`, in order. */
  function Without(xs: seq<int>, v: int): (r: seq<int>)
  {
    if |xs| == 0 then []
    else Without(xs[..|xs| - 1], v) + (if xs[|xs| - 1] != v then [xs[|xs| - 1]] else [])
  }

  /** The nodes of a chain whose payload is not `v`, in order. */
  function Keep(nodes: map<Ptr, Node>, s: seq<Ptr>, v: int): (r: seq<Ptr>)
    requires forall i :: 0 <= i < |s| ==> s[i] in nodes
    ensures forall j :: 0 <= j < |r| ==> r[j] in nodes && nodes[r[j]].value != v
  {
    if |s| == 0 then []
    else
      var n := |s| - 1;
      Keep(nodes, s[..n], v) + (if nodes[s[n]].value != v then [s[n]] else [])
  }

  lemma {:induction false} KeepValues(nodes: map<Ptr, Node>, s: seq<Ptr>, v: int)
    requires forall i :: 0 <= i < |s| ==> s[i] in nodes
    ensures ValuesOf(nodes, Keep(nodes, s, v)) == Without(ValuesOf(nodes, s), v)
  {
    if |s| > 0 {
      var n := |s| - 1;
      KeepValues(nodes, s[..n], v);
      assert ValuesOf(nodes, s)[..n] == ValuesOf(nodes, s[..n]);
      var tail := if nodes[s[n]].value != v then [s[n]] else [];
      assert ValuesOf(nodes, Keep(nodes, s[..n], v) + tail) == ValuesOf(nodes, Keep(nodes, s[..n], v)) + ValuesOf(nodes, tail);
    }
  }

  /** `Without` removes every occurrence of `v` and keeps every other element. */
  lemma {:induction false} WithoutSpec(xs: seq<int>, v: int)
    ensures v !in Without(xs, v)
    ensures forall x :: x != v ==> multiset(Without(xs, v))[x] == multiset(xs)[x]
  {
    if |xs| > 0 {
      var n := |xs| - 1;
      WithoutSpec(xs[..n], v);
      assert xs == xs[..n] + [xs[n]];
    }
  }

  lemma KeepStep(nodes: map<Ptr, Node>, s: seq<Ptr>, i: nat, v: int)
    requires forall j :: 0 <= j < |s| ==> s[j] in nodes
    requires i < |s|
    ensures Keep(nodes, s[..i + 1], v) == Keep(nodes, s[..i], v) + (if nodes[s[i]].value != v then [s[i]] else [])
  {
    assert s[..i + 1][..i] == s[..i];
  }

  /** Positions in a chain made of a kept prefix followed by the unvisited rest. */
  lemma SpineAt(kept: seq<Ptr>, s: seq<Ptr>, i: nat)
    requires i < |s|
    ensures (kept + s[i..])[|kept|] == s[i]
    ensures i + 1 < |s| ==> |kept| + 1 < |kept + s[i..]| && (kept + s[i..])[|kept| + 1] == s[i + 1]
    ensures (kept + s[i..])[..|kept|] + (kept + s[i..])[|kept| + 1..] == kept + s[i + 1..]
    ensures kept + s[i..] == (kept + [s[i]]) + s[i + 1..]
  {
    var spine := kept + s[i..];
    assert s[i..] == [s[i]] + s[i + 1..];
    assert spine[..|kept|] == kept;
    assert spine[|kept| + 1..] == s[i + 1..];
  }

  /** Removing the k-th node of a represented chain, with the shortened chain and the
      successor named by the caller. */
  lemma RemoveAt(r: List, spine: seq<Ptr>, k: nat, rest: seq<Ptr>, succ: Ptr)
    requires Represents(r, spine) && k < |spine|
    requires rest == spine[..k] + spine[k + 1..]
    requires succ == if k + 1 < |spine| then spine[k + 1] else Null
    ensures Linked(r, spine[k])
    ensures Represents(Remove(r, spine[k]).list, rest)
    ensures Remove(r, spine[k]).cursor == succ
  {
    RemoveDeletes(r, spine, k);
  }

  /** Removal keeps a subset of the original nodes with their payloads. */
  lemma SameValuesTrans(a: map<Ptr, Node>, b: map<Ptr, Node>, c: map<Ptr, Node>)
    requires SameValues(a, b) && SameValues(b, c)
    ensures SameValues(a, c)
  {
  }

  /** One iteration of LinkedList_RemoveFromValuePtr on the i-th original node, which holds `v`. */
  lemma DropStep(l: List, s: seq<Ptr>, r: List, kept: seq<Ptr>, i: nat)
    requires i < |s|
    requires Represents(r, kept + s[i..])
    requires SameValues(r.nodes, l.nodes)
    ensures Linked(r, s[i])
    ensures Represents(Remove(r, s[i]).list, kept + s[i + 1..])
    ensures SameValues(Remove(r, s[i]).list.nodes, l.nodes)
    ensures Remove(r, s[i]).cursor == if i + 1 < |s| then s[i + 1] else Null
  {
    var spine := kept + s[i..];
    var k := |kept|;
    SpineAt(kept, s, i);
    assert (if k + 1 < |spine| then spine[k + 1] else Null) == (if i + 1 < |s| then s[i + 1] else Null);
    RemoveAt(r, spine, k, kept + s[i + 1..], if i + 1 < |s| then s[i + 1] else Null);
    SameValuesTrans(Remove(r, s[i]).list.nodes, r.nodes, l.nodes);
  }

  /** One iteration of LinkedList_RemoveFromValuePtr on the i-th original node, which does not hold `v`. */
  lemma SkipStep(r: List, kept: seq<Ptr>, s: seq<Ptr>, i: nat)
    requires i < |s|
    requires Represents(r, kept + s[i..])
    ensures s[i] in r.nodes
    ensures r.nodes[s[i]].next == if i + 1 < |s| then s[i + 1] else Null
  {
    var spine := kept + s[i..];
    var k := |kept|;
    assert k < |spine| && spine[k] == s[i];
    assert k == |spine| - 1 <==> i + 1 == |s|;
    if i + 1 < |s| {
      assert spine[k + 1] == s[i + 1];
    }
    NodeLinks(r, spine, k);
  }

  /** The state of LinkedList_RemoveFromValuePtr after visiting the first i nodes of the
      original chain `s`: the list is the kept visited nodes followed by the unvisited ones. */
  ghost predicate Walk(l: List, s: seq<Ptr>, v: int, r: List, kept: seq<Ptr>, i: nat)
  {
    && i <= |s|
    && Represents(l, s)
    && kept == Keep(l.nodes, s[..i], v)
    && Represents(r, kept + s[i..])
    && SameValues(r.nodes, l.nodes)
  }

  lemma WalkStart(l: List, s: seq<Ptr>, v: int)
    requires Represents(l, s)
    ensures Walk(l, s, v, l, [], 0)
  {
    assert s[..0] == [];
    assert [] + s[0..] == s;
  }

  lemma WalkStep(l: List, s: seq<Ptr>, v: int, r: List, kept: seq<Ptr>, i: nat)
    requires Walk(l, s, v, r, kept, i) && i < |s|
    ensures s[i] in r.nodes && Linked(r, s[i])
    ensures r.nodes[s[i]].value == v ==>
              && Walk(l, s, v, Remove(r, s[i]).list, kept, i + 1)
              && Remove(r, s[i]).cursor == if i + 1 < |s| then s[i + 1] else Null
    ensures r.nodes[s[i]].value != v ==>
              && Walk(l, s, v, r, kept + [s[i]], i + 1)
              && r.nodes[s[i]].next == if i + 1 < |s| then s[i + 1] else Null
  {
    KeepStep(l.nodes, s, i, v);
    SpineAt(kept, s, i);
    SkipStep(r, kept, s, i);
    DropStep(l, s, r, kept, i);
  }

  lemma WalkEnd(l: List, s: seq<Ptr>, v: int, r: List, kept: seq<Ptr>)
    requires Walk(l, s, v, r, kept, |s|)
    ensures Represents(r, Keep(l.nodes, s, v))
    ensures ValuesOf(r.nodes, Keep(l.nodes, s, v)) == Without(ValuesOf(l.nodes, s), v)
  {
    assert s[..|s|] == s;
    assert kept + s[|s|..] == kept;
    assert ValuesOf(r.nodes, kept) == ValuesOf(l.nodes, kept);
    KeepValues(l.nodes, s, v);
  }

  /** LinkedList_RemoveFromValuePtr: walk the list with a cursor, removing every node
      that holds `v` and stepping over every other node. */
  method RemoveFromValue(l: List, ghost s: seq<Ptr>, v: int) returns (r: List)
    requires Represents(l, s)
    ensures Represents(r, Keep(l.nodes, s, v))
    ensures ValuesOf(r.nodes, Keep(l.nodes, s, v)) == Without(ValuesOf(l.nodes, s), v)
  {
    r := l;
    var it := l.first;
    ghost var i := 0;
    ghost var kept: seq<Ptr> := [];
    WalkStart(l, s, v);
    while it != Null
      invariant Walk(l, s, v, r, kept, i)
      invariant it == if i < |s| then s[i] else Null
      decreases |s| - i
    {
      WalkStep(l, s, v, r, kept, i);
      if r.nodes[it].value == v {
        var removal := Remove(r, it);
        r := removal.list;
        it := removal.cursor;
      } else {
        it := r.nodes[it].next;
        kept := kept + [s[i]];
      }
      i := i + 1;
    }
    WalkEnd(l, s, v, r, kept);
  }
}
