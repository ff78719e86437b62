/**
 The circular singly linked list that points at its tail.  An iterator keeps the
 node before the one it stands at, so that erasing needs no search.
 */
module InlineSList {

  class Node<T> {
    var next: Node?<T>
    const value: T

    constructor (value: T)
      ensures this.value == value && next == null
    {
      this.value := value;
      next := null;
    }
  }

  ghost predicate Distinct<T>(nodes: seq<Node<T>>) {
    forall i, j | 0 <= i < j < |nodes| :: nodes[i] != nodes[j]
  }

  /** Each node links to the one after it, the last one to the first. */
  ghost predicate Linked<T>(nodes: seq<Node<T>>)
    reads nodes
  {
    && (forall i | 0 <= i < |nodes| - 1 :: nodes[i].next == nodes[i + 1])
    && (nodes != [] ==> nodes[|nodes| - 1].next == nodes[0])
  }

  /** The node in front of a position, going round at the start. */
  ghost function Previous<T>(nodes: seq<Node<T>>, pos: nat): Node<T>
    requires pos < |nodes|
  {
    if pos == 0 then nodes[|nodes| - 1] else nodes[pos - 1]
  }

  lemma PreviousLinks<T>(nodes: seq<Node<T>>, pos: nat)
    requires Linked(nodes) && pos < |nodes|
    ensures Previous(nodes, pos).next == nodes[pos]
  {
    if pos > 0 { assert nodes[pos - 1].next == nodes[pos - 1 + 1]; }
  }

  lemma Follows<T>(nodes: seq<Node<T>>, pos: nat)
    requires Linked(nodes) && pos < |nodes|
    ensures nodes[pos].next == Successor(nodes, pos)
  {}

  /** The nodes without the one at `pos`. */
  function Removed<T>(nodes: seq<Node<T>>, pos: nat): seq<Node<T>>
    requires pos < |nodes|
  {
    nodes[..pos] + nodes[pos + 1..]
  }

  ghost function Successor<T>(nodes: seq<Node<T>>, i: nat): Node<T>
    requires i < |nodes|
  {
    if i == |nodes| - 1 then nodes[0] else nodes[i + 1]
  }

  /** Relinking the node in front of a position to the one after it closes the circle again. */
  lemma Relinked<T>(nodes: seq<Node<T>>, pos: nat)
    requires |nodes| > 1 && pos < |nodes| && Distinct(nodes)
    requires Previous(nodes, pos).next == Successor(nodes, pos)
    requires forall i | 0 <= i < |nodes| && nodes[i] != Previous(nodes, pos) :: nodes[i].next == Successor(nodes, i)
    ensures Linked(Removed(nodes, pos))
  {
    var r, m := Removed(nodes, pos), |nodes| - 1;
    forall i | 0 <= i < m ensures r[i].next == r[if i == m - 1 then 0 else i + 1] {
      var k := if i < pos then i else i + 1;
      assert r[i] == nodes[k];
    }
  }

  class List<T> {
    var tail: Node?<T>
    ghost var nodes: seq<Node<T>>

    ghost predicate Valid()
      reads this, nodes
    {
      && Distinct(nodes) && Linked(nodes)
      && (if nodes == [] then tail == null else tail == nodes[|nodes| - 1])
    }

    constructor ()
      ensures Valid() && nodes == []
    {
      tail := null;
      nodes := [];
    }

    method IsEmpty() returns (empty: bool)
      requires Valid()
      ensures empty == (nodes == [])
    {
      return tail == null;
    }

    method Append(node: Node<T>)
      requires Valid() && node !in nodes
      modifies this, node, nodes
      ensures Valid() && nodes == old(nodes) + [node]
    {
      if tail == null {
        tail := node;
        node.next := node;
      } else {
        node.next := tail.next;
        tail.next := node;
        tail := node;
      }
      nodes := nodes + [node];
    }

    method Begin() returns (iter: Iterator<T>)
      requires Valid()
      ensures fresh(iter) && iter.list == this && iter.At(0)
    {
      iter := new Iterator(this, tail);
    }

    /** Removes the element the iterator stands at, which then stands at the next one. */
    method Erase(iter: Iterator<T>, ghost pos: nat)
      requires Valid() && iter.list == this && iter.At(pos) && pos < |nodes|
      modifies this, iter, iter.node
      ensures Valid() && nodes == Removed(old(nodes), pos) && iter.At(pos)
    {
      hide Linked, Distinct;
      ghost var was := nodes;
      forall i: nat | i < |was| ensures was[i].next == Successor(was, i) { Follows(was, i); }
      PreviousLinks(was, pos);
      WherePreviousIs(was, pos);
      RemovedIsDistinct(was, pos);
      var node := iter.node;
      var target := node.next;
      if node == target {
        tail := null;
        iter.node := null;
        nodes := [];
        NoLinks<T>();
        assert was == [target];
      } else {
        node.next := target.next;
        if target == tail {
          tail := node;
          iter.node := null;
        }
        nodes := Removed(was, pos);
        Relinked(was, pos);
      }
    }
  }

  lemma NoLinks<T>()
    ensures Linked<T>([]) && Distinct<T>([])
  {}

  lemma RemovedIsDistinct<T>(nodes: seq<Node<T>>, pos: nat)
    requires Distinct(nodes) && pos < |nodes|
    ensures Distinct(Removed(nodes, pos))
  {
    var r := Removed(nodes, pos);
    forall i, j | 0 <= i < j < |r| ensures r[i] != r[j] {
      assert r[i] == nodes[if i < pos then i else i + 1] && r[j] == nodes[if j < pos then j else j + 1];
    }
  }

  /** Two different positions hold different nodes. */
  lemma WherePreviousIs<T>(nodes: seq<Node<T>>, pos: nat)
    requires Distinct(nodes) && pos < |nodes|
    ensures Previous(nodes, pos) == nodes[pos] <==> |nodes| == 1
    ensures nodes[pos] == nodes[|nodes| - 1] <==> pos == |nodes| - 1
  {}

  class Iterator<T> {
    const list: List<T>
    var node: Node?<T>

    constructor (list: List<T>, node: Node?<T>)
      ensures this.list == list && this.node == node
    {
      this.list := list;
      this.node := node;
    }

    /** Stands at position `pos`: at the end, or with the node before it in hand. */
    ghost predicate At(pos: nat)
      reads this, list
    {
      && pos <= |list.nodes|
      && node == if pos == |list.nodes| then null
                 else if pos == 0 then list.nodes[|list.nodes| - 1] else list.nodes[pos - 1]
    }

    lemma HoldsNode(pos: nat)
      requires At(pos) && pos < |list.nodes|
      ensures node != null && node in list.nodes
    {}

    method AtEnd(ghost pos: nat) returns (end: bool)
      requires list.Valid() && At(pos)
      ensures end == (pos == |list.nodes|)
    {
      return node == null;
    }

    method Get(ghost pos: nat) returns (data: Node<T>)
      requires list.Valid() && At(pos) && pos < |list.nodes|
      ensures data == list.nodes[pos]
    {
      PreviousLinks(list.nodes, pos);
      data := node.next;
    }

    method Advance(ghost pos: nat)
      requires list.Valid() && At(pos) && pos < |list.nodes|
      modifies this
      ensures At(pos + 1)
    {
      PreviousLinks(list.nodes, pos);
      node := node.next;
      if node == list.tail { node := null; }
    }
  }

  /** The elements that are not selected, in order. */
  ghost function Remaining<T>(nodes: seq<Node<T>>, erase: T -> bool): seq<Node<T>> {
    if nodes == [] then []
    else Remaining(nodes[..|nodes| - 1], erase) + if erase(nodes[|nodes| - 1].value) then [] else [nodes[|nodes| - 1]]
  }

  lemma {:induction false} RemainingMembers<T>(nodes: seq<Node<T>>, erase: T -> bool)
    ensures forall n | n in Remaining(nodes, erase) :: n in nodes
    decreases |nodes|
  {
    if nodes != [] { RemainingMembers(nodes[..|nodes| - 1], erase); }
  }

  lemma RemainingNext<T>(nodes: seq<Node<T>>, k: nat, erase: T -> bool)
    requires k < |nodes|
    ensures Remaining(nodes[..k + 1], erase)
         == Remaining(nodes[..k], erase) + if erase(nodes[k].value) then [] else [nodes[k]]
  {
    assert nodes[..k + 1][..k] == nodes[..k];
  }

  /** After `k` elements, `done` of them are left in front of those not visited yet. */
  ghost predicate Progress<T>(was: seq<Node<T>>, k: nat, done: seq<Node<T>>, nodes: seq<Node<T>>, erase: T -> bool) {
    k <= |was| && done == Remaining(was[..k], erase) && nodes == done + was[k..]
  }

  lemma Start<T>(was: seq<Node<T>>, erase: T -> bool)
    ensures Progress(was, 0, [], was, erase)
  {
    assert was[..0] == [] && [] + was[0..] == was;
  }

  /** What one turn of the loop does to the sequence of nodes. */
  lemma Turn<T>(was: seq<Node<T>>, k: nat, done: seq<Node<T>>, nodes: seq<Node<T>>, erase: T -> bool)
    requires Progress(was, k, done, nodes, erase)
    ensures |done| <= |nodes| && k <= |was| && (|done| == |nodes| <==> k == |was|)
    ensures k < |was| ==>
              && nodes[|done|] == was[k]
              && (if erase(was[k].value) then Progress(was, k + 1, done, Removed(nodes, |done|), erase)
                  else Progress(was, k + 1, done + [was[k]], nodes, erase))
  {
    hide Remaining;
    if k < |was| {
      RemainingNext(was, k, erase);
      assert was[k..] == [was[k]] + was[k + 1..];
      assert done + [] == done;
    }
  }

  lemma NothingNew<T>(was: seq<Node<T>>, k: nat, done: seq<Node<T>>, nodes: seq<Node<T>>, erase: T -> bool, x: Node<T>)
    requires Progress(was, k, done, nodes, erase) && x in nodes
    ensures x in was
  {
    RemainingMembers(was[..k], erase);
  }

  lemma Finish<T>(was: seq<Node<T>>, k: nat, done: seq<Node<T>>, nodes: seq<Node<T>>, erase: T -> bool)
    requires Progress(was, k, done, nodes, erase) && k == |was|
    ensures nodes == Remaining(was, erase)
  {
    assert was[..|was|] == was && done + [] == done;
  }

  /** One turn: erases the element, which moves the iterator on, or steps over it. */
  method Visit<T>(
    list: List<T>, iter: Iterator<T>, erase: T -> bool, ghost was: seq<Node<T>>, ghost k: nat, ghost done: seq<Node<T>>)
    returns (end: bool, ghost left: seq<Node<T>>)
    requires list.Valid() && iter.list == list && iter.At(|done|) && |done| < |list.nodes|
    requires Progress(was, k, done, list.nodes, erase)
    modifies list, iter, iter.node
    ensures list.Valid() && iter.At(|left|) && end == (|left| == |list.nodes|)
    ensures k < |was| && Progress(was, k + 1, left, list.nodes, erase)
  {
    hide Linked, Distinct, Progress, Removed;
    Turn(was, k, done, list.nodes, erase);
    var data := iter.Get(|done|);
    if erase(data.value) {
      list.Erase(iter, |done|);
      left := done;
    } else {
      iter.Advance(|done|);
      left := done + [was[k]];
    }
    Turn(was, k + 1, left, list.nodes, erase);
    end := iter.AtEnd(|left|);
  }

  /** The documented loop that erases while it iterates. */
  method EraseIf<T>(list: List<T>, erase: T -> bool)
    requires list.Valid()
    modifies list, list.nodes
    ensures list.Valid() && list.nodes == Remaining(old(list.nodes), erase)
  {
    hide Remaining, Linked, Distinct, Removed, Progress;
    ghost var was := list.nodes;
    ghost var k: nat := 0;
    ghost var done: seq<Node<T>> := [];
    Start(was, erase);
    var iter := list.Begin();
    var end := iter.AtEnd(0);
    while !end
      invariant list.Valid() && fresh(iter) && iter.list == list
      invariant Progress(was, k, done, list.nodes, erase)
      invariant iter.At(|done|) && end == (|done| == |list.nodes|)
      decreases |was| - k
    {
      iter.HoldsNode(|done|);
      NothingNew(was, k, done, list.nodes, erase, iter.node);
      end, done := Visit(list, iter, erase, was, k, done);
      k := k + 1;
    }
    Turn(was, k, done, list.nodes, erase);
    Finish(was, k, done, list.nodes, erase);
  }
}
