/** The doubly linked list of imported records. */
module DataList {

  class Node<T> {
    var record: T
    var prev: Node?<T>
    var next: Node?<T>

    constructor (record: T)
      ensures this.record == record
    {
      this.record, prev, next := record, null, null;
    }
  }

  /** A list that was added to at least once; NULL is the empty list. */
  class List<T> {
    var head: Node<T>
    var tail: Node<T>
    ghost var nodes: seq<Node<T>>
    ghost var Contents: seq<T>
    ghost var Repr: set<object>

    ghost predicate Valid()
      reads this, Repr
      ensures Valid() ==> this in Repr && head in Repr && tail in Repr && Contents != []
    {
      && this in Repr && (forall i | 0 <= i < |nodes| :: nodes[i] in Repr)
      && nodes != [] && |nodes| == |Contents|
      && head == nodes[0] && tail == nodes[|nodes| - 1]
      && (forall i {:trigger nodes[i].record} | 0 <= i < |nodes| :: nodes[i].record == Contents[i])
      && (forall i {:trigger nodes[i].next} | 0 <= i < |nodes| - 1 :: nodes[i].next == nodes[i + 1])
      && tail.next == null
      && head.prev == null
      && (forall i {:trigger nodes[i].prev} | 1 <= i < |nodes| :: nodes[i].prev == nodes[i - 1])
      && (forall i, j | 0 <= i < j < |nodes| :: nodes[i] != nodes[j])
    }

    /** nvipfix_data_list_add with a NULL list. */
    constructor (record: Node<T>)
      modifies record
      ensures Valid() && Repr == {this, record} && Contents == [record.record] && record.record == old(record.record)
    {
      record.prev := null;
      record.next := null;
      head, tail := record, record;
      nodes, Contents, Repr := [record], [record.record], {this, record};
    }

    /** nvipfix_data_list_add with an existing list: links a node that is not in it yet. */
    method Append(record: Node<T>)
      requires Valid() && record !in Repr
      modifies this, tail, record
      ensures Valid() && Repr == old(Repr) + {record} && old(nodes) <= nodes
      ensures Contents == old(Contents) + [old(record.record)]
    {
      record.prev := tail;
      tail.next := record;
      record.next := null;
      tail := record;
      nodes, Contents, Repr := nodes + [record], Contents + [record.record], Repr + {record};
    }

    /** nvipfix_data_list_free: the successor is read before a node is released. */
    method Free() returns (ghost released: seq<Node<T>>)
      requires Valid()
      ensures released == nodes
    {
      released := [];
      var record: Node?<T> := head;
      while record != null
        invariant |released| <= |nodes| && released == nodes[..|released|]
        invariant record == if |released| < |nodes| then nodes[|released|] else null
        decreases |nodes| - |released|
      {
        var next := record.next;
        released := released + [record];
        record := next;
      }
    }
  }

  ghost function ContentsOf<T>(list: List?<T>): seq<T>
    reads list
  {
    if list == null then [] else list.Contents
  }

  ghost function ReprOf<T>(list: List?<T>): set<object>
    reads list
  {
    if list == null then {} else list.Repr
  }

  /** nvipfix_data_list_add_copy.  Allocation is taken to succeed. */
  method AddCopy<T>(list: List?<T>, record: T) returns (result: List<T>)
    requires list != null ==> list.Valid()
    modifies ReprOf(list)
    ensures result.Valid() && result.Contents == old(ContentsOf(list)) + [record]
    ensures fresh(result.Repr - old(ReprOf(list)))
    ensures list != null ==> result == list && old(list.nodes) <= list.nodes
  {
    var copy := new Node(record);
    if list == null {
      result := new List(copy);
    } else {
      list.Append(copy);
      result := list;
    }
  }

  /** The node k steps along next, and along prev. */
  ghost function Forward<T>(node: Node?<T>, k: nat): Node?<T>
    reads *
  {
    if node == null || k == 0 then node else Forward(node.next, k - 1)
  }

  ghost function Backward<T>(node: Node?<T>, k: nat): Node?<T>
    reads *
  {
    if node == null || k == 0 then node else Backward(node.prev, k - 1)
  }

  lemma {:induction false} ForwardFrom<T>(list: List<T>, i: nat, k: nat)
    requires list.Valid() && i < |list.nodes| && i + k <= |list.nodes|
    ensures Forward(list.nodes[i], k) == if i + k < |list.nodes| then list.nodes[i + k] else null
    decreases k
  {
    if k != 0 && i + 1 < |list.nodes| {
      ForwardFrom(list, i + 1, k - 1);
    }
  }

  lemma {:induction false} BackwardFrom<T>(list: List<T>, i: nat, k: nat)
    requires list.Valid() && i < |list.nodes| && k <= i + 1
    ensures Backward(list.nodes[i], k) == if k <= i then list.nodes[i - k] else null
    decreases k
  {
    if k != 0 && i != 0 {
      BackwardFrom(list, i - 1, k - 1);
    }
  }

  /** Walking the links from head or from tail visits the contents in order and in reverse,
      and then ends. */
  lemma LinksAgree<T>(list: List<T>, k: nat)
    requires list.Valid() && k < |list.Contents|
    ensures Forward(list.head, k) != null && Forward(list.head, k).record == list.Contents[k]
    ensures Backward(list.tail, k) != null && Backward(list.tail, k).record == list.Contents[|list.Contents| - 1 - k]
    ensures Forward(list.head, |list.Contents|) == null && Backward(list.tail, |list.Contents|) == null
  {
    var n := |list.Contents|;
    ForwardFrom(list, 0, k);
    ForwardFrom(list, 0, n);
    BackwardFrom(list, n - 1, k);
    BackwardFrom(list, n - 1, n);
  }
}
