# Singly linked stack of signed 32-bit integers

This project models `src/first.rs`. The file is a stack of `i32` values kept
in a chain of heap nodes. A `List` owns the first node through its `head`
link. Each `Node` owns the rest of the chain through its `next` link. A link
is either `Empty` or `More(Box<Node>)`. There are four operations:

- `new` builds an empty list.
- `push` prepends a node.
- `pop` removes the front node and returns its element, or `None` when the
  list is empty.
- `drop` tears the chain down with a loop, detaching each node's `next`
  before the node is released.

Every move out of a field of the `List` goes through `mem::replace`: the
field is set to `Empty` first, so the list is never left partly moved.
`pop` moves `next` directly out of the node it owns, and that node is then
freed. `drop` detaches each node's `next` with `mem::replace` as well.

The project has two modules:

- `StackSpec` (`stack_spec.dfy`) holds the abstract behaviour. A stack is a
  sequence whose index 0 is the head. `Pop` is one pop. `Final` and
  `Outputs` run a sequence of push and pop operations and give the final
  stack and the pop results. Lemmas state LIFO order, the behaviour of
  repeated pops on an empty stack, conservation of elements, and the
  cancelling of a push directly followed by a pop.
- `First` (`first.dfy`) models the source file with classes. `Node` has
  `elem` and `next`. `List` has `head` and keeps three ghost fields: the
  ghost spine `nodes`, the ghost `contents` and the footprint `Repr`.
  A link is a `Node?`, where `null` stands for `Link::Empty`. `Valid()`
  says the chain from `head` is exactly `nodes`, and that these nodes are
  pairwise distinct, so the chain is acyclic and no node is shared. It
  also says each node's `next` is its successor, the last one's `next` is
  `null`, and the elements spell out `contents`. `Push`, `Pop` and `Drop`
  are methods that update the chain in place. Each one first takes the
  link out of `head` and sets `head` to `null`, as `mem::replace` does.

## Model

| member | source | states |
|---|---|---|
| `First.Node.constructor` | src/first.rs:31-38 | A new node holds the given element, and its `next` is the given link. |
| `First.List.Valid` | src/first.rs:5-19 | The ownership invariant: the chain from `head` is the ghost spine, its nodes are distinct, each `next` is the successor, the last `next` is the empty link, and the elements spell out the contents. In a valid list the head is the empty link exactly when the contents are empty. |
| `First.List.constructor` | src/first.rs:23-27 | A new list has the empty link as head, is valid, and its contents are the empty sequence. |
| `First.List.Push` | src/first.rs:30-42 | The contents go from `s` to `[elem] + s`. The new head is a fresh node holding `elem`, and its `next` is the old head. The old nodes stay in order behind it, and the chain stays valid. |
| `First.List.Pop` | src/first.rs:45-58 | The result and new contents are the abstract `Pop` of the old contents. On an empty list it returns `None` and the list stays empty. Otherwise it returns `Some` of the front element, installs the old head's `next` as the head, and removes the first node from the list's footprint. The chain stays valid. |
| `First.List.Drop` | src/first.rs:61-72 | The loop runs once per node of the former chain. Afterwards `head` is the empty link, and every former node has `next == null` and its element unchanged. |
| `First.List.ExclusivelyOwned` | src/first.rs:5-19 | In a valid list, node `i + 1` is the `next` of node `i` and of no other node. No node's `next` is the head. So every node has exactly one owner and the chain has no cycle. |
| `First.Basics` | src/first.rs:82-108 | The `basics` test trace on real list objects gives the pop results `None, Some(3), Some(2), Some(5), Some(4), Some(1), None`. |
| `First.Run` | src/first.rs:30-58 | Calling `Push` and `Pop` on a valid list in the order of `ops` leaves it valid, with contents `Final` of the old contents, and returns `Outputs` of them. So every lemma about runs holds of real list objects. |
| `First.PushAllThenPopAll` | src/first.rs:30-58 | Pushing `e1 .. en` onto a new list and popping `n` times returns `en .. e1`. The list ends with the empty link as head, no contents and no owned node, the same state as a freshly constructed list. |
| `StackSpec.Pop` | src/first.rs:45-58 | The result is `None` exactly when the stack is empty, and then the stack is unchanged. Otherwise the returned value followed by the remaining stack rebuilds the old stack. |
| `StackSpec.Final` | src/first.rs:30-58 | The stack left after a run grows by one per push and shrinks by at most one per pop. |
| `StackSpec.Outputs` | src/first.rs:45-58 | A run yields exactly one result per pop. |
| `StackSpec.PopInvertsPush` | src/first.rs:37-56 | A pop after a push returns the pushed element and restores the stack. A pop on a non-empty stack returns the front, and the front with the rest rebuilds the stack. A pop on an empty stack returns `None` and leaves it empty. |
| `StackSpec.Conservation` | src/first.rs:30-58 | No element is lost or invented: final stack plus delivered elements equals starting stack plus pushed elements, as multisets. |
| `StackSpec.RunAppend` | src/first.rs:30-58 | Running `a` then `b` gives the same final stack as running `a + b`, and the concatenation of the two result sequences. |
| `StackSpec.RunPushes` | src/first.rs:30-42 | Pushing `e1 .. en` puts `en .. e1` on top of the stack and delivers nothing. |
| `StackSpec.RunPops` | src/first.rs:45-58 | Popping once per element of `t`, starting from `t + s`, delivers `t` front first and leaves `s`. |
| `StackSpec.PushesThenPops` | src/first.rs:30-58 | Strict LIFO order: pushing `e1 .. en` and then popping `n` times yields `en .. e1` and gives back the starting stack. `First.PushAllThenPopAll` states this for list objects. |
| `StackSpec.PopsOnEmpty` | src/first.rs:51-52 | Any number of pops on an empty stack return `None` each time, and the stack stays empty. |
| `StackSpec.PushPopCancels` | src/first.rs:30-58 | A push of `e` followed at once by a pop, anywhere in a run, delivers `e` at that point. The final stack is the one of the run without them, and the other results are those of `a` and then of `b` from the stack `a` leaves. |

## Left out

- Heap allocation and release (`Box::new` and drop glue) are not modelled. A node that `Pop` or `Drop` releases just leaves the list's footprint `Repr`. Its storage is not freed.
- Rust's ownership and borrow checking are not modelled. Exclusive ownership is the `Valid()` invariant instead: the spine nodes are distinct and each `next` is the successor.
- Call-stack depth is not modelled. `Drop` only shows that the teardown is a terminating loop that detaches each node before moving on.
- Automatic drop at scope end is not modelled. `Drop` is an ordinary method, and a caller calls it explicitly, as `Basics` does at its end.
- The node that `Pop` releases keeps its fields as they were. In the source, `node.next` is moved out of the box and the box is then freed, so the node can no longer be seen.
- i32 overflow is not modelled, since no arithmetic is done on elements. The element type `I32` is an integer subset type bounded to the i32 range.
- The `#[cfg(test)]` harness and `assert_eq!` are not modelled. The test's operation sequence is the method `First.Basics`.
