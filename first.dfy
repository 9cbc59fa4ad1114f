/** The singly linked stack of src/first.rs: a `List` owns a chain of heap
    `Node`s through its `head` link, and each node owns the rest of the
    chain through its `next` link.

    A link is a `Node?`: `null` is the source's `Link::Empty` and a node is
    `Link::More(Box<Node>)`. Exclusive ownership is the invariant `Valid()`:
    the chain is the ghost spine `nodes`, its nodes are pairwise distinct
    (so the chain is acyclic and no node has two owners), each node's `next`
    is its successor in the spine, the last one's is `null`, and the
    elements spell out the ghost `contents`. */
module First {
  import opened StackSpec

  class Node {
    var elem: I32
    var next: Node?

    constructor (elem: I32, next: Node?)
      ensures this.elem == elem && this.next == next
    {
      this.elem := elem;
      this.next := next;
    }
  }

  class List {
    var head: Node?

    /** The elements of the stack, front (head) first. */
    ghost var contents: seq<I32>
    /** The nodes of the chain, in order from `head`. */
    ghost var nodes: seq<Node>
    /** This list and every node it owns. */
    ghost var Repr: set<object>

    /** The nodes of a spine, as a set. */
    static ghost function Elements(s: seq<Node>): (e: set<object>)
    {
      if s == [] then {} else {s[0]} + Elements(s[1..])
    }

    /** A node that is none of the spine's nodes is not among its elements. */
    static lemma {:induction false} NotInElements(s: seq<Node>, n: Node)
      requires forall i | 0 <= i < |s| :: s[i] != n
      ensures n !in Elements(s)
      decreases |s|
    {
      if s != [] {
        NotInElements(s[1..], n);
      }
    }

    /** The ownership invariant: see the module comment. In a valid list
        the head is the empty link exactly when the contents are empty. */
    ghost predicate Valid()
      reads this, Repr
      ensures Valid() ==> this in Repr
      ensures Valid() ==> (head == null <==> contents == [])
    {
      this in Repr &&
      (forall i | 0 <= i < |nodes| :: nodes[i] in Repr) &&
      Repr == {this} + Elements(nodes) &&
      |nodes| == |contents| &&
      head == (if nodes == [] then null else nodes[0]) &&
      (forall i | 0 <= i < |nodes| :: nodes[i].elem == contents[i]) &&
      (forall i | 0 <= i < |nodes| - 1 :: nodes[i].next == nodes[i + 1]) &&
      (nodes != [] ==> nodes[|nodes| - 1].next == null) &&
      (forall i, j | 0 <= i < j < |nodes| :: nodes[i] != nodes[j])
    }

    /** Exclusive ownership: the node at position i + 1 is the `next` of
        the node at position i and of no other node, so the head is owned by
        the list alone and no link points back into the chain (no cycle). */
    lemma ExclusivelyOwned()
      requires Valid()
      ensures forall i, j | 0 <= i < |nodes| && 0 <= j < |nodes| ::
                nodes[i].next == nodes[j] <==> j == i + 1
      ensures forall i | 0 <= i < |nodes| :: nodes[i].next != head
    {
      forall i, j | 0 <= i < |nodes| && 0 <= j < |nodes|
        ensures nodes[i].next == nodes[j] <==> j == i + 1
      {
        if i + 1 < |nodes| {
          assert nodes[i].next == nodes[i + 1];
          if j < i + 1 {
            assert nodes[j] != nodes[i + 1];
          } else if j > i + 1 {
            assert nodes[i + 1] != nodes[j];
          }
        }
      }
    }

    /** `List::new`: a list whose head is the empty link. */
    constructor ()
      ensures Valid() && fresh(Repr)
      ensures head == null && contents == []
    {
      head := null;
      contents := [];
      nodes := [];
      Repr := {this};
    }

    /** `List::push`: the current chain is taken out of `head` (leaving the
        empty link behind), becomes the `next` of a new node holding `elem`,
        and that node becomes the head. */
    method Push(elem: I32)
      requires Valid()
      modifies this
      ensures Valid() && fresh(Repr - old(Repr))
      ensures contents == [elem] + old(contents)
      ensures head != null && fresh(head) && head.elem == elem && head.next == old(head)
      ensures nodes == [head] + old(nodes)
    {
      var link := head;
      head := null;
      var node := new Node(elem, link);
      head := node;
      assert ([node] + nodes)[1..] == nodes;
      nodes := [node] + nodes;
      contents := [elem] + contents;
      Repr := Repr + {node};
    }

    /** `List::pop`: the chain is taken out of `head`; on the empty link the
        result is None and the list stays empty, otherwise the first node's
        `next` is installed as the head and its element is returned. */
    method Pop() returns (r: Option<I32>)
      requires Valid()
      modifies this
      ensures Valid() && Repr <= old(Repr)
      ensures (r, contents) == StackSpec.Pop(old(contents))
      ensures old(contents) == [] ==> r == None && contents == [] && head == null
      ensures old(contents) != [] ==>
                r == Some(old(contents)[0]) && contents == old(contents)[1..] &&
                head == old(head.next) && nodes == old(nodes)[1..] && old(head) !in Repr
    {
      var link := head;
      head := null;
      if link == null {
        r := None;
      } else {
        head := link.next;
        r := Some(link.elem);
        NotInElements(nodes[1..], link);
        Repr := {this} + Elements(nodes[1..]);
        nodes := nodes[1..];
        contents := contents[1..];
      }
    }

    /** `Drop for List`: the chain is taken out of `head` into a cursor and
        torn down one node per iteration, each node's `next` being replaced
        by the empty link before the cursor moves on, so releasing a node
        never releases a chain behind it. Returns the number of iterations. */
    method Drop() returns (ghost steps: nat)
      requires Valid()
      modifies Repr
      ensures head == null && Valid() && contents == []
      ensures steps == |old(nodes)|
      ensures forall i | 0 <= i < |old(nodes)| ::
                old(nodes)[i].next == null && old(nodes)[i].elem == old(contents)[i]
    {
      ghost var chain := nodes;
      var cur := head;
      head := null;
      steps := 0;
      while cur != null
        invariant steps <= |chain|
        invariant cur == if steps < |chain| then chain[steps] else null
        invariant forall i | 0 <= i < |chain| :: chain[i] in old(Repr)
        invariant forall i, j | 0 <= i < j < |chain| :: chain[i] != chain[j]
        invariant forall i | 0 <= i < steps :: chain[i].next == null
        invariant forall i | steps <= i < |chain| - 1 :: chain[i].next == chain[i + 1]
        invariant chain != [] ==> chain[|chain| - 1].next == null
        invariant forall i | 0 <= i < |chain| :: chain[i].elem == old(contents)[i]
        invariant head == null && chain == old(nodes) && |chain| == |old(contents)|
        decreases |chain| - steps
      {
        var next := cur.next;
        cur.next := null;
        cur := next;
        steps := steps + 1;
      }
      nodes := [];
      contents := [];
      Repr := {this};
    }
  }

  /** The scenario of the source's `basics` test: pop on a new list, push
      1, 2, 3, pop twice, push 4, 5, pop four times. Returns the pop
      results in order. */
  method Basics() returns (results: seq<Option<I32>>)
    ensures results == [None, Some(3), Some(2), Some(5), Some(4), Some(1), None]
  {
    var list := new List();
    var r0 := list.Pop();
    assert r0 == None;
    list.Push(1);
    list.Push(2);
    list.Push(3);
    assert list.contents == [3, 2, 1];
    var r1 := list.Pop();
    var r2 := list.Pop();
    assert r1 == Some(3) && r2 == Some(2) && list.contents == [1];
    list.Push(4);
    list.Push(5);
    assert list.contents == [5, 4, 1];
    var r3 := list.Pop();
    var r4 := list.Pop();
    var r5 := list.Pop();
    assert r3 == Some(5) && r4 == Some(4) && r5 == Some(1) && list.contents == [];
    var r6 := list.Pop();
    assert r6 == None;
    var _ := list.Drop();
    results := [r0, r1, r2, r3, r4, r5, r6];
  }

  /** Calls `Push` and `Pop` on `l` as `ops` says, in order, and returns the
      pop results: the list ends holding `Final` of its old contents and
      the results are `Outputs` of them, so every lemma about runs of
      operations holds of the list object. */
  method Run(l: List, ops: seq<Op>) returns (outs: seq<Option<I32>>)
    requires l.Valid()
    modifies l
    ensures l.Valid() && fresh(l.Repr - old(l.Repr))
    ensures l.contents == Final(old(l.contents), ops)
    ensures outs == Outputs(old(l.contents), ops)
  {
    outs := [];
    var i := 0;
    while i < |ops|
      invariant 0 <= i <= |ops|
      invariant l.Valid() && fresh(l.Repr - old(l.Repr))
      invariant Final(old(l.contents), ops) == Final(l.contents, ops[i..])
      invariant Outputs(old(l.contents), ops) == outs + Outputs(l.contents, ops[i..])
    {
      assert ops[i..][0] == ops[i] && ops[i..][1..] == ops[i + 1..];
      match ops[i] {
        case PushOp(e) =>
          l.Push(e);
        case PopOp =>
          ghost var before := l.contents;
          var r := l.Pop();
          assert outs + Outputs(before, ops[i..]) == (outs + [r]) + Outputs(l.contents, ops[i + 1..]);
          outs := outs + [r];
      }
      i := i + 1;
    }
  }

  /** Round trip: pushing `es` onto a new list and popping as many times
      yields `es` in reverse order and leaves a list in the same state as a
      freshly constructed one (empty head, no contents, owning no node). */
  method PushAllThenPopAll(es: seq<I32>) returns (l: List, outs: seq<Option<I32>>)
    ensures fresh(l) && l.Valid()
    ensures outs == Somes(Reverse(es))
    ensures l.head == null && l.contents == [] && l.Repr == {l}
  {
    l := new List();
    outs := Run(l, Pushes(es) + Pops(|es|));
    PushesThenPops([], es);
  }
}
