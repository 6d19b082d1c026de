/** lib/list.c: circular doubly linked lists threaded through their nodes, with a head node
    that carries no element, proved against the sequence of the elements. */
module List {
  import opened Memory

  class ListNode {
    var prev: ListNode?
    var next: ListNode?

    constructor ()
      ensures prev == null && next == null
    {
      prev, next := null, null;
    }
  }

  ghost predicate Distinct(ring: seq<ListNode>)
  {
    forall i, j | 0 <= i < j < |ring| :: ring[i] != ring[j]
  }

  /** The neighbour after position `i` of a ring. */
  function After(ring: seq<ListNode>, i: nat): ListNode
    requires i < |ring|
  {
    if i + 1 < |ring| then ring[i + 1] else ring[0]
  }

  /** Every node points to its neighbour, and its neighbour back to it. */
  ghost predicate Ring(ring: seq<ListNode>)
    reads ring
  {
    && Distinct(ring)
    && forall i: nat | i < |ring| :: ring[i].next == After(ring, i) && After(ring, i).prev == ring[i]
  }

  /** The list with head `head` holds exactly `nodes`, in this order. */
  ghost predicate Holds(head: ListNode, nodes: seq<ListNode>)
    reads {head} + set n | n in nodes
  {
    Ring([head] + nodes)
  }

  /** The node at position `i`, the head at the end. */
  function At(head: ListNode, nodes: seq<ListNode>, i: nat): ListNode
    requires i <= |nodes|
  {
    if i == |nodes| then head else nodes[i]
  }

  /** The node before position `i`, the head before the first. */
  function Before(head: ListNode, nodes: seq<ListNode>, i: nat): ListNode
    requires i <= |nodes|
  {
    if i == 0 then head else nodes[i - 1]
  }

  /** The pointers of a list are determined by what it holds. */
  lemma Pointers(head: ListNode, nodes: seq<ListNode>)
    requires Holds(head, nodes)
    ensures head !in nodes && Distinct(nodes)
    ensures head.next == At(head, nodes, 0)
    ensures head.prev == Before(head, nodes, |nodes|)
    ensures forall i: nat | i < |nodes| ::
      nodes[i].next == At(head, nodes, i + 1) && nodes[i].prev == Before(head, nodes, i)
  {
    var ring := [head] + nodes;
    assert After(ring, |nodes|) == head;
    forall i: nat | i < |nodes|
      ensures nodes[i].next == At(head, nodes, i + 1)
      ensures nodes[i].prev == Before(head, nodes, i)
    {
      assert ring[i + 1] == nodes[i] && After(ring, i) == nodes[i];
      assert ring[i + 1].next == After(ring, i + 1);
      assert ring[i] == Before(head, nodes, i);
    }
    forall i, j | 0 <= i < j < |nodes| ensures nodes[i] != nodes[j] {
      assert ring[i + 1] != ring[j + 1];
    }
    forall i | 0 <= i < |nodes| ensures nodes[i] != head {
      assert ring[0] != ring[i + 1];
    }
    if nodes != [] { assert After(ring, 0) == nodes[0]; }
  }

  /** And nodes with those pointers are the list. */
  lemma HoldsIf(head: ListNode, nodes: seq<ListNode>)
    requires head !in nodes && Distinct(nodes)
    requires head.next == At(head, nodes, 0)
    requires head.prev == Before(head, nodes, |nodes|)
    requires forall i: nat | i < |nodes| ::
      nodes[i].next == At(head, nodes, i + 1) && nodes[i].prev == Before(head, nodes, i)
    ensures Holds(head, nodes)
  {
    var ring := [head] + nodes;
    forall i: nat | i < |ring| ensures ring[i].next == After(ring, i) && After(ring, i).prev == ring[i] {
      if 0 < i { assert ring[i] == nodes[i - 1]; }
      if i < |nodes| { assert After(ring, i) == nodes[i]; }
    }
  }

  /** The nodes next to a position belong to the list. */
  lemma InList(head: ListNode, nodes: seq<ListNode>, i: nat)
    requires i <= |nodes|
    ensures At(head, nodes, i) == head || At(head, nodes, i) in nodes
    ensures Before(head, nodes, i) == head || Before(head, nodes, i) in nodes
  {
  }

  method Init(head: ListNode)
    modifies head
    ensures Holds(head, [])
  {
    head.prev := head;
    head.next := head;
    HoldsIf(head, []);
  }

  /** The neighbours in a list with a new first node. */
  lemma HeadNeighbours(head: ListNode, node: ListNode, nodes: seq<ListNode>, i: nat)
    requires head !in nodes && Distinct(nodes) && i <= |nodes|
    ensures var ring := [node] + nodes;
      && |ring| == |nodes| + 1 && ring[0] == node && (i < |nodes| ==> ring[i + 1] == nodes[i])
      && At(head, ring, 0) == node && At(head, ring, i + 1) == At(head, nodes, i)
      && Before(head, ring, 0) == head && Before(head, ring, i + 1) == if i == 0 then node else Before(head, nodes, i)
    ensures i < |nodes| ==> (nodes[i] == At(head, nodes, 0) <==> i == 0)
    ensures At(head, nodes, 0) == head <==> nodes == []
  {
  }

  lemma HeadDistinct(head: ListNode, node: ListNode, nodes: seq<ListNode>)
    requires head !in nodes && Distinct(nodes) && node != head && node !in nodes
    ensures head !in [node] + nodes && Distinct([node] + nodes)
  {
  }

  method InsertHead(head: ListNode, node: ListNode, ghost nodes: seq<ListNode>)
    requires Holds(head, nodes) && node != head && node !in nodes
    modifies node, head`next, At(head, nodes, 0)`prev
    ensures Holds(head, [node] + nodes)
  {
    hide Holds, At, Before, Distinct;
    Pointers(head, nodes);
    InList(head, nodes, 0);
    HeadNeighbours(head, node, nodes, 0);
    node.next := head.next;
    node.prev := head;
    head.next.prev := node;
    head.next := node;
    ghost var ring := [node] + nodes;
    forall i: nat | i < |ring| ensures ring[i].next == At(head, ring, i + 1) && ring[i].prev == Before(head, ring, i) {
      if i > 0 {
        HeadNeighbours(head, node, nodes, i - 1);
        HeadNeighbours(head, node, nodes, i);
      }
    }
    HeadNeighbours(head, node, nodes, |nodes|);
    HeadDistinct(head, node, nodes);
    HoldsIf(head, ring);
  }

  /** The neighbours in a list with a new last node. */
  lemma TailNeighbours(head: ListNode, node: ListNode, nodes: seq<ListNode>, i: nat)
    requires head !in nodes && Distinct(nodes) && i <= |nodes|
    ensures var ring := nodes + [node];
      && |ring| == |nodes| + 1 && ring[|nodes|] == node && (i < |nodes| ==> ring[i] == nodes[i])
      && At(head, ring, i) == (if i == |nodes| then node else At(head, nodes, i)) && At(head, ring, |nodes| + 1) == head
      && Before(head, ring, i) == Before(head, nodes, i) && Before(head, ring, |nodes| + 1) == node
    ensures i < |nodes| ==> (nodes[i] == Before(head, nodes, |nodes|) <==> i + 1 == |nodes|)
    ensures Before(head, nodes, |nodes|) == head <==> nodes == []
  {
  }

  lemma TailDistinct(head: ListNode, node: ListNode, nodes: seq<ListNode>)
    requires head !in nodes && Distinct(nodes) && node != head && node !in nodes
    ensures head !in nodes + [node] && Distinct(nodes + [node])
  {
  }

  method InsertTail(head: ListNode, node: ListNode, ghost nodes: seq<ListNode>)
    requires Holds(head, nodes) && node != head && node !in nodes
    modifies node, head`prev, Before(head, nodes, |nodes|)`next
    ensures Holds(head, nodes + [node])
  {
    hide Holds, At, Before, Distinct;
    Pointers(head, nodes);
    InList(head, nodes, |nodes|);
    TailNeighbours(head, node, nodes, 0);
    node.prev := head.prev;
    node.next := head;
    head.prev.next := node;
    head.prev := node;
    ghost var ring := nodes + [node];
    forall i: nat | i < |ring| ensures ring[i].next == At(head, ring, i + 1) && ring[i].prev == Before(head, ring, i) {
      TailNeighbours(head, node, nodes, i);
      if i < |nodes| { TailNeighbours(head, node, nodes, i + 1); }
    }
    TailNeighbours(head, node, nodes, |nodes|);
    TailDistinct(head, node, nodes);
    HoldsIf(head, ring);
  }

  /** The neighbours in a list with position `i` taken out. */
  lemma WithoutNeighbours(head: ListNode, nodes: seq<ListNode>, i: nat, j: nat)
    requires i < |nodes| && j < |nodes|
    ensures var rest := nodes[..i] + nodes[i + 1..];
      && At(head, rest, j) == At(head, nodes, if j < i then j else j + 1)
      && Before(head, rest, j) == Before(head, nodes, if j <= i then j else j + 1)
  {
  }

  /** Only one node is before a position, and only one after it. */
  lemma OneNeighbour(head: ListNode, nodes: seq<ListNode>, i: nat, k: nat)
    requires head !in nodes && Distinct(nodes) && i < |nodes| && k < |nodes|
    ensures nodes[k] == Before(head, nodes, i) <==> k + 1 == i
    ensures nodes[k] == At(head, nodes, i + 1) <==> k == i + 1
    ensures nodes[k] == nodes[i] <==> k == i
    ensures Before(head, nodes, i) == head <==> i == 0
    ensures At(head, nodes, i + 1) == head <==> i + 1 == |nodes|
  {
  }

  /** list_remove of the element at position `i`; the source finds its neighbours by its own pointers. */
  method Remove(node: ListNode, ghost head: ListNode, ghost nodes: seq<ListNode>, ghost i: nat)
    requires Holds(head, nodes) && i < |nodes| && nodes[i] == node
    modifies node, Before(head, nodes, i)`next, At(head, nodes, i + 1)`prev
    ensures Holds(head, nodes[..i] + nodes[i + 1..])
    ensures node.prev == null && node.next == null
  {
    hide Holds, At, Before, Distinct;
    Pointers(head, nodes);
    OneNeighbour(head, nodes, i, i);
    node.prev.next := node.next;
    node.next.prev := node.prev;
    node.prev := null;
    node.next := null;
    ghost var rest := nodes[..i] + nodes[i + 1..];
    forall j: nat | j < |rest| ensures rest[j].next == At(head, rest, j + 1) && rest[j].prev == Before(head, rest, j) {
      ghost var k := if j < i then j else j + 1;
      assert rest[j] == nodes[k];
      OneNeighbour(head, nodes, i, k);
      WithoutNeighbours(head, nodes, i, j);
      WithoutNeighbours(head, nodes, i, j + 1);
    }
    WithoutNeighbours(head, nodes, i, 0);
    WithoutNeighbours(head, nodes, i, |rest|);
    WithoutDistinct(head, nodes, i);
    HoldsIf(head, rest);
  }

  lemma WithoutDistinct(head: ListNode, nodes: seq<ListNode>, i: nat)
    requires head !in nodes && Distinct(nodes) && i < |nodes|
    ensures var rest := nodes[..i] + nodes[i + 1..]; head !in rest && Distinct(rest)
  {
  }

  method IsEmpty(head: ListNode, ghost nodes: seq<ListNode>) returns (r: bool)
    requires Holds(head, nodes)
    ensures r <==> nodes == []
  {
    Pointers(head, nodes);
    return head.next == head;
  }

  /** list_count, in the 32 bits of size_t. */
  method Count(head: ListNode, ghost nodes: seq<ListNode>) returns (count: word)
    requires Holds(head, nodes)
    ensures count == |nodes| % WORD_LIMIT
  {
    hide Holds;
    Pointers(head, nodes);
    count := 0;
    var current: ListNode := head.next;
    ghost var k := 0;
    while current != head
      invariant k <= |nodes| && current == At(head, nodes, k)
      invariant count == k % WORD_LIMIT
      decreases |nodes| - k
    {
      NextRemainder(k);
      count := (count + 1) % WORD_LIMIT;
      current := current.next;
      k := k + 1;
    }
  }

  lemma NextRemainder(k: nat)
    ensures (k % WORD_LIMIT + 1) % WORD_LIMIT == (k + 1) % WORD_LIMIT
  {
  }

  /** The nodes around the first of `rest` in a list that holds `done` and then `rest`. */
  lemma Around(head: ListNode, done: seq<ListNode>, rest: seq<ListNode>)
    ensures At(head, done + rest, |done|) == At(head, rest, 0)
    ensures rest == [] ==> At(head, rest, 0) == head
    ensures rest != [] ==>
      && At(head, rest, 0) == rest[0] == (done + rest)[|done|]
      && At(head, done + rest, |done| + 1) == At(head, rest[1..], 0)
      && (At(head, rest[1..], 0) == head || At(head, rest[1..], 0) in rest)
      && (Before(head, done + rest, |done|) == head || Before(head, done + rest, |done|) in done)
      && (done + rest)[..|done|] + (done + rest)[|done| + 1..] == done + rest[1..]
  {
    if rest != [] {
      assert (done + rest)[..|done|] == done && (done + rest)[|done| + 1..] == rest[1..];
    }
  }

  /** One turn of the loop of list_clear: the first element is taken out, its successor found before. */
  method RemoveFirst(current: ListNode, ghost head: ListNode, ghost rest: seq<ListNode>) returns (next: ListNode)
    requires Holds(head, rest) && rest != [] && current == rest[0]
    modifies current, head`next, At(head, rest, 1)`prev
    ensures Holds(head, rest[1..]) && next == At(head, rest[1..], 0)
    ensures current.prev == null && current.next == null
  {
    hide Holds, At, Before, Distinct;
    Pointers(head, rest);
    Around(head, [], rest);
    assert [] + rest == rest && [] + rest[1..] == rest[1..];
    next := current.next;
    Remove(current, head, rest, 0);
  }

  /** The end of a list is where the head comes round again. */
  lemma AtEnd(head: ListNode, nodes: seq<ListNode>, k: nat)
    requires head !in nodes && k <= |nodes|
    ensures At(head, nodes, k) == head <==> k == |nodes|
    ensures k == |nodes| ==> nodes[k..] == []
  {
  }

  /** What a turn of list_clear meets, when the elements before position `k` are gone. */
  lemma Turn(head: ListNode, nodes: seq<ListNode>, k: nat)
    requires head !in nodes && Distinct(nodes) && k < |nodes|
    ensures nodes[k..] != [] && nodes[k..][0] == nodes[k] == At(head, nodes, k) && nodes[k..][1..] == nodes[k + 1..]
    ensures At(head, nodes[k + 1..], 0) == At(head, nodes, k + 1) == At(head, nodes[k..], 1)
    ensures At(head, nodes, k + 1) == head || At(head, nodes, k + 1) in nodes
    ensures forall j: nat | j < k :: nodes[j] != head && nodes[j] != nodes[k] && nodes[j] != At(head, nodes, k + 1)
  {
  }

  /** list_clear. */
  method Clear(head: ListNode, ghost nodes: seq<ListNode>)
    requires Holds(head, nodes)
    modifies head, set n | n in nodes
    ensures Holds(head, [])
    ensures forall n | n in nodes :: n.prev == null && n.next == null
  {
    hide Holds, At, Before, Distinct;
    Pointers(head, nodes);
    var current: ListNode := head.next;
    ghost var k: nat := 0;
    assert nodes[0..] == nodes;
    AtEnd(head, nodes, 0);
    while current != head
      invariant k <= |nodes| && Holds(head, nodes[k..]) && current == At(head, nodes, k)
      invariant current == head <==> k == |nodes|
      invariant forall j: nat | j < k :: nodes[j].prev == null && nodes[j].next == null
      decreases |nodes| - k
    {
      Turn(head, nodes, k);
      current := RemoveFirst(current, head, nodes[k..]);
      k := k + 1;
      AtEnd(head, nodes, k);
    }
  }

  /** The elements whose position is kept. */
  function Kept(nodes: seq<ListNode>, keep: nat -> bool): seq<ListNode>
  {
    if nodes == [] then []
    else
      var n := |nodes| - 1;
      Kept(nodes[..n], keep) + (if keep(n) then [nodes[n]] else [])
  }

  /** They are those elements and no others. */
  lemma {:induction false} KeptIs(nodes: seq<ListNode>, keep: nat -> bool, n: ListNode)
    ensures n in Kept(nodes, keep) <==> exists i: nat :: i < |nodes| && nodes[i] == n && keep(i)
  {
    if nodes != [] {
      var last := |nodes| - 1;
      KeptIs(nodes[..last], keep, n);
      if i: nat :| i < |nodes[..last]| && nodes[..last][i] == n && keep(i) {
        assert nodes[i] == n;
      }
      if i: nat :| i < |nodes| && nodes[i] == n && keep(i) {
        if i < last { assert nodes[..last][i] == n; }
      }
    }
  }

  /** for_each with a callback that removes the nodes it is called on from the list, or leaves them, as it likes.
      `visited` lists the nodes it was called on: every node once, in order. */
  method ForEach(head: ListNode, keep: nat -> bool, ghost nodes: seq<ListNode>) returns (visited: seq<ListNode>)
    requires Holds(head, nodes)
    modifies head, set n | n in nodes
    ensures visited == nodes
    ensures Holds(head, Kept(nodes, keep))
  {
    hide Holds, At, Before, Distinct, Kept;
    Pointers(head, nodes);
    visited := [];
    var current: ListNode := head.next;
    var k: nat := 0;
    ghost var kept: seq<ListNode>, rest := [], nodes;
    Around(head, [], rest);
    assert [] + nodes == nodes;
    KeptNone(keep);
    while current != head
      invariant Holds(head, kept + rest) && current == At(head, rest, 0) && (rest == [] ==> current == head)
      invariant visited + rest == nodes && |visited| == k && kept == Kept(visited, keep)
      invariant forall n | n in kept :: n in nodes
      invariant rest != [] ==> current == rest[0]
      decreases |rest|
    {
      ghost var now := kept + rest;
      Around(head, kept, rest);
      Pointers(head, now);
      assert now[|kept|] == current;
      var next: ListNode := current.next;
      KeptStep(visited, current, keep);
      Shift(visited, rest);
      visited := visited + [current];
      if !keep(k) {
        Remove(current, head, now, |kept|);
      } else {
        Shift(kept, rest);
        kept := kept + [current];
      }
      rest := rest[1..];
      current := next;
      k := k + 1;
      Around(head, kept, rest);
    }
    assert kept + rest == kept && visited + rest == visited;
  }

  lemma Shift(done: seq<ListNode>, rest: seq<ListNode>)
    requires rest != []
    ensures done + [rest[0]] + rest[1..] == done + rest
  {
  }

  lemma KeptNone(keep: nat -> bool)
    ensures Kept([], keep) == []
  {
  }

  lemma KeptStep(nodes: seq<ListNode>, node: ListNode, keep: nat -> bool)
    ensures Kept(nodes + [node], keep) == Kept(nodes, keep) + (if keep(|nodes|) then [node] else [])
  {
    assert (nodes + [node])[..|nodes|] == nodes;
  }

  /** The place of a node put in last or first: its neighbours, and the list without it. */
  lemma PlaceOfNew(head: ListNode, node: ListNode, nodes: seq<ListNode>)
    ensures var ring := nodes + [node];
      && ring[|nodes|] == node && ring[..|nodes|] + ring[|nodes| + 1..] == nodes
      && Before(head, ring, |nodes|) == Before(head, nodes, |nodes|) && At(head, ring, |nodes| + 1) == head
    ensures var ring := [node] + nodes;
      && ring[0] == node && ring[..0] + ring[1..] == nodes
      && Before(head, ring, 0) == head && At(head, ring, 1) == At(head, nodes, 0)
  {
    assert (nodes + [node])[..|nodes|] == nodes && (nodes + [node])[|nodes| + 1..] == [];
    assert ([node] + nodes)[1..] == nodes;
  }

  /** Taking out what was just put in restores the list and every pointer of it. */
  method InsertThenRemove(head: ListNode, node: ListNode, atTail: bool, ghost nodes: seq<ListNode>)
    requires Holds(head, nodes) && node != head && node !in nodes
    modifies node, head, set n | n in nodes
    ensures Holds(head, nodes) && node.prev == null && node.next == null
    ensures head.prev == old(head.prev) && head.next == old(head.next)
    ensures forall n | n in nodes :: n.prev == old(n.prev) && n.next == old(n.next)
  {
    hide Holds, Distinct, At, Before;
    Pointers(head, nodes);
    InList(head, nodes, 0);
    InList(head, nodes, |nodes|);
    PlaceOfNew(head, node, nodes);
    if atTail {
      InsertTail(head, node, nodes);
      Remove(node, head, nodes + [node], |nodes|);
    } else {
      InsertHead(head, node, nodes);
      Remove(node, head, [node] + nodes, 0);
    }
    Pointers(head, nodes);
  }

  /** The places around the first element of a list, and what is left without it. */
  lemma FirstPlace(head: ListNode, nodes: seq<ListNode>)
    requires nodes != [] && head !in nodes && Distinct(nodes)
    ensures nodes[..0] + nodes[1..] == nodes[1..] && At(head, nodes, 0) == nodes[0] && nodes[0] in nodes
    ensures Before(head, nodes, 0) == head && (At(head, nodes, 1) == head || At(head, nodes, 1) in nodes)
    ensures nodes[0] !in nodes[1..] && forall n | n in nodes[1..] :: n in nodes
  {
  }

  /** Moving the first element of one list to the end of another leaves every other element of both where it was. */
  method MoveFirst(a: ListNode, b: ListNode, ghost xs: seq<ListNode>, ghost ys: seq<ListNode>)
    requires Holds(a, xs) && Holds(b, ys) && xs != []
    requires a != b && a !in ys && b !in xs && forall n | n in xs :: n !in ys
    modifies a, b, set n | n in xs, set n | n in ys
    ensures Holds(a, xs[1..]) && Holds(b, ys + [xs[0]])
  {
    hide Holds, Distinct, At, Before;
    Pointers(a, xs);
    FirstPlace(a, xs);
    InList(b, ys, |ys|);
    var node := a.next;
    Remove(node, a, xs, 0);
    assert Holds(b, ys);
    InsertTail(b, node, ys);
    assert Holds(a, xs[1..]);
  }
}
