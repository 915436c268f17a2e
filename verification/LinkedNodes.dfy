/** Singly linked nodes on the heap and the sequence they hold. */
module LinkedNodes {

  class Node<T> {
    var data: T
    var next: Node?<T>

    constructor (data: T)
      ensures this.data == data && next == null
    {
      this.data := data;
      next := null;
    }
  }

  /** `nodes` is the acyclic chain that starts at `root`. */
  ghost predicate Linked<T>(root: Node?<T>, nodes: seq<Node<T>>)
    reads nodes
  {
    root == At(nodes, 0) &&
    (forall i {:trigger nodes[i].next} :: 0 <= i < |nodes| ==> nodes[i].next == At(nodes, i + 1)) &&
    (forall i, j :: 0 <= i < j < |nodes| ==> nodes[i] != nodes[j])
  }

  /** The node at a position, null just behind the last. */
  ghost function At<T>(nodes: seq<Node<T>>, i: nat): Node?<T>
    requires i <= |nodes|
  {
    if i < |nodes| then nodes[i] else null
  }

  ghost function Contents<T>(nodes: seq<Node<T>>): (s: seq<T>)
    reads nodes
    ensures |s| == |nodes| && forall i :: 0 <= i < |s| ==> s[i] == nodes[i].data
  {
    seq(|nodes|, i requires 0 <= i < |nodes| reads nodes => nodes[i].data)
  }

  /** The last node, null for an empty chain. */
  ghost function Last<T>(nodes: seq<Node<T>>): Node?<T> {
    if nodes == [] then null else nodes[|nodes| - 1]
  }

  /** Hangs a node in behind the last one; returns the chain's first node. */
  method Attach<T>(root: Node?<T>, last: Node?<T>, n: Node<T>, ghost nodes: seq<Node<T>>) returns (first: Node<T>)
    requires Linked(root, nodes) && last == Last(nodes)
    requires n !in nodes && n.next == null
    modifies last
    ensures Linked(first, nodes + [n])
    ensures Contents(nodes + [n]) == old(Contents(nodes)) + [n.data]
  {
    if last == null {
      first := n;
    } else {
      last.next := n;
      first := root;
      assert forall i :: 0 <= i < |nodes| - 1 ==> nodes[i].next == old(nodes[i].next);
    }
  }

  /** The same with the link of the last node handed on to the new one. */
  method InsertAfter<T>(root: Node?<T>, last: Node?<T>, n: Node<T>, ghost nodes: seq<Node<T>>)
    returns (first: Node<T>)
    requires Linked(root, nodes) && last == Last(nodes)
    requires n !in nodes && n.next == null
    modifies n, last
    ensures Linked(first, nodes + [n])
    ensures Contents(nodes + [n]) == old(Contents(nodes)) + [old(n.data)]
  {
    if last != null {
      n.next := last.next;
    }
    first := Attach(root, last, n, nodes);
  }

  /** Unhooks the node at position `k`; `prev` is the one before it, null for the first. Returns the
      chain's first node. */
  method Detach<T>(root: Node?<T>, prev: Node?<T>, n: Node<T>, ghost nodes: seq<Node<T>>, ghost k: nat)
    returns (first: Node?<T>)
    requires Linked(root, nodes) && k < |nodes| && n == nodes[k]
    requires prev == if k == 0 then null else nodes[k - 1]
    modifies prev
    ensures Linked(first, nodes[..k] + nodes[k + 1..])
    ensures Contents(nodes[..k] + nodes[k + 1..]) == old(Contents(nodes))[..k] + old(Contents(nodes))[k + 1..]
  {
    ghost var before := Contents(nodes);
    if prev == null {
      first := n.next;
    } else {
      prev.next := n.next;
      first := root;
    }
    Bypassed(first, nodes, k);
    assert Contents(nodes) == before;
    ContentsWithout(nodes, k);
  }

  /** Links that skip the node at position `k`. */
  lemma Bypassed<T>(first: Node?<T>, nodes: seq<Node<T>>, k: nat)
    requires k < |nodes| && forall i, j :: 0 <= i < j < |nodes| ==> nodes[i] != nodes[j]
    requires forall i {:trigger nodes[i].next} :: 0 <= i < |nodes| && i != k ==>
      nodes[i].next == At(nodes, if i + 1 == k then k + 1 else i + 1)
    requires first == At(nodes, if k == 0 then 1 else 0)
    ensures Linked(first, nodes[..k] + nodes[k + 1..])
  {
    var after := nodes[..k] + nodes[k + 1..];
    forall i | 0 <= i < |after|
      ensures after[i].next == At(after, i + 1)
    {
      assert after[i] == nodes[if i < k then i else i + 1];
    }
  }

  lemma ContentsWithout<T>(nodes: seq<Node<T>>, k: nat)
    requires k < |nodes|
    ensures Contents(nodes[..k] + nodes[k + 1..]) == Contents(nodes)[..k] + Contents(nodes)[k + 1..]
  {
  }
}
