/** `ConcurrentStack` (src/stack.rs): a Treiber stack, a singly linked list of
    nodes whose first node is `head`. The compare-and-set of `head` is modelled
    as a sequential read and write, so the retry loops of push and pop succeed
    on their first round; the deferred deallocation of a popped node is a ghost
    list `retired`. */
module Stacks {
  import opened Common

  class Node<T> {
    const data: T
    var next: Node?<T>

    constructor (data: T)
      ensures this.data == data && next == null
    {
      this.data := data;
      next := null;
    }
  }

  class ConcurrentStack<T> {
    var head: Node?<T>
    /** The data of the nodes reachable from `head`, top first. */
    ghost var contents: seq<T>
    /** The nodes reachable from `head`, in list order. */
    ghost var nodes: seq<Node<T>>
    /** The nodes handed to the collector, in the order they were popped. */
    ghost var retired: seq<Node<T>>
    ghost var Repr: set<object>

    ghost predicate Valid()
      reads this, Repr
    {
      && this in Repr
      && |nodes| == |contents|
      && head == (if nodes == [] then null else nodes[0])
      && (forall i :: 0 <= i < |nodes| ==> nodes[i] in Repr)
      && (forall i :: 0 <= i < |nodes| ==> nodes[i].data == contents[i])
      && (forall i :: 0 < i < |nodes| ==> nodes[i - 1].next == nodes[i])
      && (nodes != [] ==> nodes[|nodes| - 1].next == null)
      && (forall i, j :: 0 <= i < j < |nodes| ==> nodes[i] != nodes[j])
      && (forall i, j :: 0 <= i < |nodes| && 0 <= j < |retired| ==> nodes[i] != retired[j])
    }

    /** `new`: a null head, so an empty stack. */
    constructor New()
      ensures Valid() && fresh(Repr) && head == null && contents == [] && retired == []
    {
      head := null;
      contents, nodes, retired := [], [], [];
      Repr := {this};
    }

    /** `push_with_guard`: a fresh node whose `next` is the old head becomes the
        head. */
    method Push(data: T)
      requires Valid()
      modifies this
      ensures Valid() && fresh(Repr - old(Repr))
      ensures contents == [data] + old(contents)
      ensures head != null && head.data == data && head.next == old(head) && fresh(head)
      ensures retired == old(retired)
    {
      var node := new Node(data);
      node.next := head;
      head := node;
      ghost var oldNodes := nodes;
      contents, nodes := [data] + contents, [node] + nodes;
      Repr := Repr + {node};
      forall i | 0 < i < |nodes|
        ensures nodes[i] == oldNodes[i - 1] && nodes[i] != node
      {
      }
    }

    /** `pop_with_guard`: on an empty stack, None and nothing changes; otherwise
        the head's data, with `head := head.next` and the old head retired and no
        longer reachable. */
    method Pop() returns (r: Option<T>)
      requires Valid()
      modifies this
      ensures Valid() && Repr == old(Repr)
      ensures old(contents) == [] ==> r == None && contents == [] && head == null && retired == old(retired)
      ensures old(contents) != [] ==>
        && r == Some(old(contents)[0]) && contents == old(contents)[1..]
        && head == old(head.next) && retired == old(retired) + [old(head)]
      ensures forall i :: 0 <= i < |nodes| ==> nodes[i] !in retired
    {
      if head == null {
        r := None;
      } else {
        var popped := head;
        var next := popped.next;
        assert 1 < |nodes| ==> next == nodes[1];
        head := next;
        contents, nodes := contents[1..], nodes[1..];
        retired := retired + [popped];
        r := Some(popped.data);
      }
      forall i | 0 <= i < |nodes|
        ensures nodes[i] !in retired
      {
        assert forall j :: 0 <= j < |retired| ==> nodes[i] != retired[j];
      }
    }
  }

  /** The test `insert_then_pop_assert_1024_st`, for any count: `n` pushes of 9
      followed by `n` pops all succeed and all give 9. */
  method PushThenPop(n: nat) returns (popped: seq<int>)
    ensures popped == seq(n, _ => 9)
  {
    var stack := new ConcurrentStack<int>.New();
    for i := 0 to n
      invariant stack.Valid() && fresh(stack.Repr)
      invariant stack.contents == seq(i, _ => 9)
    {
      stack.Push(9);
    }
    popped := [];
    for i := 0 to n
      invariant stack.Valid() && fresh(stack.Repr)
      invariant stack.contents == seq(n - i, _ => 9)
      invariant popped == seq(i, _ => 9)
    {
      var r := stack.Pop();
      popped := popped + [r.value];
    }
  }
}
