# Path finding game: the stack and the path finder, in Dafny

This project models the core of the Path Finding Game. The game walks a map of
hexagonal chambers from the entrance, looking for the treasure chambers. The
model covers two classes:

- `DLStack<T>`: a stack implemented as a doubly linked list of
  `DoubleLinkedNode`s. Besides `push`, `pop`, `peek`, `isEmpty` and `size`,
  it has `pop(k)`, which removes the k-th item counted from the top.
- `PathFinder`: the greedy depth-first walk.
  - `isDim` decides whether a chamber is dim.
  - `bestChamber` picks the next chamber: an unmarked treasure neighbour first,
    then a lighted one, then a dim one, each time the one in the lowest slot.
  - `path()` pushes the chosen chamber, or pops the top when there is no choice.
    It stops on an empty stack, or when the chamber on top is a treasure chamber
    and its count of treasures found reaches the map's number of treasures.

The Dafny files:

| file | module | contents |
|---|---|---|
| `wrappers.dfy` | `Wrappers` | `Option` and `Result` |
| `stack.dfy` | `Stack` | the abstract stack: a sequence, top last; `pop(k)` and its laws |
| `dl_stack.dfy` | `DoublyLinked` | `DLStack` at node level, plus refinement proofs against `Stack` |
| `chambers.dfy` | `Chambers` | the map: chambers, six neighbour slots, flags, marks |
| `path_finder.dfy` | `PathFinder` | `isDim`, `bestChamber`, the `path()` loop, and a corrected count of treasures |

Java references become indices into an arena of nodes, and `null` becomes
`None`. The representation invariant `DoublyLinked.Inv(s, idxs)` names the
chain `idxs` of nodes reachable from `top`. The node-level operations are
proved to agree with the sequence operations of `Stack` on `Elements(s, idxs)`,
except `pop(k)`'s bottom case (see Findings).

Java exceptions become `Result` failures:

- `EmptyStackException` becomes `EmptyStack`.
- `InvalidItemException` becomes `InvalidItem`.
- The `return null` and the `NullPointerException` that `pop(k)` can reach on a
  corrupted list both become `NullReference`.

A chamber's mark is kept outside the map, as a sequence of `Mark`s (`Unmarked`,
`Pushed` or `Popped`). `path()` returns the stack together with the final marks
and the value of `nTreasureFound`.

`isDim` counts a lighted neighbour even when that neighbour is sealed
(`PathFinder.java:103`); `PathFinder.DimBesideSealedLight` exhibits it.
Likewise, the first two passes of `bestChamber` do not look at `isSealed`.
Only the third pass does, through `isDim`.

## Model

| member | source | states |
|---|---|---|
| Stack.Pop | DLStack.java:42-55 | `pop()` fails with `EmptyStack` exactly on the empty stack. Otherwise the size drops by one, and pushing the returned element back gives the original stack. |
| Stack.Peek | DLStack.java:109-114 | `peek()` fails with `EmptyStack` exactly on the empty stack. Otherwise it returns the element `pop()` would return. |
| Stack.PopK | DLStack.java:65-102 | `pop(k)` fails with `InvalidItem` exactly when the stack is empty, k < 1 or k > size. Otherwise it returns the k-th element from the top and leaves every other element in place. |
| Stack.Push | DLStack.java:27-35 | `push(x)` grows the stack by one, puts `x` on top and keeps every element below in place. |
| Stack.PushPop | DLStack.java:27-55 | `push(x)` then `pop()` returns `x` and restores the stack. |
| Stack.PushPeek | DLStack.java:27-35 | After `push(x)`, `peek()` returns `x` and the stack is not empty. |
| Stack.PopKOneIsPop | DLStack.java:65-102 | `pop(1)` behaves like `pop()` on a non-empty stack. |
| Stack.PopKReinsert | DLStack.java:65-102 | `pop(k)` removes exactly the returned element: reinserting it at depth k gives the original stack. The multiset of elements loses just that element. |
| DoublyLinked.New | DLStack.java:18-21 | A new stack is empty, has size 0, and satisfies the invariant with the empty chain. |
| DoublyLinked.Push | DLStack.java:27-35 | `push` leaves a non-empty stack of size + 1 whose `peek()` is the pushed element. |
| DoublyLinked.Pop | DLStack.java:42-55 | `pop()` fails exactly when `top` is null. Otherwise it returns the old top's element and the size drops by one. |
| DoublyLinked.Peek | DLStack.java:109-114 | `peek()` fails with `EmptyStack` exactly when `top` is null. |
| DoublyLinked.PopK | DLStack.java:65-102 | `pop(k)` as written throws `InvalidItemException` exactly on an empty stack or k out of range. A success lowers `numItems` by one. |
| DoublyLinked.Walk | DLStack.java:80-82 | The `getPrevious()` loop of `pop(k)` never leaves the arena: its result is null or a node. `WalkChain` states where it lands on the chain. |
| DoublyLinked.Splice | DLStack.java:96-97 | The two assignments of the splice: `prevNode.next` becomes `nextNode` and `nextNode.previous` becomes `prevNode`, every element is kept, and all links still denote nodes. |
| DoublyLinked.EmptinessAgrees | DLStack.java:120-135 | Under the invariant, `isEmpty()` (top is null), `size() == 0` and the abstract emptiness all agree, and `size()` is the abstract size. |
| DoublyLinked.ChainUnique | DLStack.java:9-13 | The nodes reachable from `top` are fixed by the links: two chains of the same stack are equal. |
| DoublyLinked.WalkChain | DLStack.java:80-82 | The `getPrevious()` loop of `pop(k)`, started at the chain's i-th node, reaches its (i-j)-th node after j steps. |
| DoublyLinked.PushRefines | DLStack.java:27-35 | `push` keeps the invariant, extends the chain with the new node and pushes onto the abstract stack. |
| DoublyLinked.PeekRefines | DLStack.java:109-114 | `peek()` equals the abstract `peek`. |
| DoublyLinked.PopRefines | DLStack.java:42-55 | `pop()` agrees with the abstract `pop`: the same failure, or the same element and a stack that keeps the invariant and holds the abstract remainder. |
| DoublyLinked.SpliceRefines | DLStack.java:92-98 | Splicing out an interior node keeps the invariant with that node removed from the chain and from the elements. |
| DoublyLinked.PopKRefines | DLStack.java:65-102 | `pop(k)` as written agrees with the abstract `pop(k)` for every k, except the bottom case k == size > 1. |
| DoublyLinked.PopKBottomKeepsNode | DLStack.java:89-101 | Bottom case as written: with k == size > 1 the bottom element is returned and `numItems` drops, but no link changes. The removed node stays reachable and no chain satisfies the invariant. |
| DoublyLinked.PopKBottomDesync | DLStack.java:89-101 | Consequence: on a two-element stack, `pop(2)` then `pop()` leaves `isEmpty()` false while `size()` is 0. |
| DoublyLinked.PopKFixed | DLStack.java:65-102 | The corrected `pop(k)` keeps the source's error cases and its size change. |
| DoublyLinked.PopKFixedRefines | DLStack.java:65-102 | The corrected `pop(k)` agrees with the abstract `pop(k)` for every k, the bottom case included. |
| DoublyLinked.PopKOneStaleNext | DLStack.java:84-86 | `pop(1)` leaves the new top's `next` on the removed node, where `pop()` clears it. No modelled operation reads the top's `next`, so the invariant leaves that link free; `toString`, which is not modelled, does. |
| Chambers.CountUnmarkedUpdate | PathFinder.java:72-79 | Marking an unmarked chamber lowers the number of unmarked chambers by one. Re-marking a marked one leaves that number unchanged. |
| PathFinder.LightedFrom | PathFinder.java:102-107 | The slot loop of `isDim` answers whether some slot from `from` on holds a lighted chamber. |
| PathFinder.IsDim | PathFinder.java:100-110 | `isDim` is false for null, sealed and lighted chambers. Otherwise it is true exactly when some slot holds a lighted chamber. |
| PathFinder.Scan | PathFinder.java:119-123 | One pass of `bestChamber` returns the lowest slot from `from` on that qualifies, or nothing exactly when no such slot qualifies. |
| PathFinder.Select | PathFinder.java:119-135 | One `for` loop of `bestChamber`: the chamber in the lowest slot that qualifies for the pass, and null exactly when no slot qualifies. |
| PathFinder.BestChamber | PathFinder.java:117-138 | The result is an unmarked neighbour, and is null exactly when no slot qualifies in any pass. It is the lowest treasure neighbour if one qualifies, else the lowest lighted one, else the lowest dim one. |
| PathFinder.Start | PathFinder.java:51-61 | Before the loop, only the entrance is on the stack and marked pushed, and no treasure has been counted. |
| PathFinder.PushStep | PathFinder.java:72-75 | `pathStack.push(c); c.markPushed()`: the loop invariant holds after it, the measure falls, and only `c`'s mark changes, to pushed. |
| PathFinder.PopStep | PathFinder.java:76-79 | `pathStack.pop(); poppedChamber.markPopped()`: the loop invariant holds after it, the measure falls, and only the old top's mark changes, to popped. |
| PathFinder.Advance | PathFinder.java:72-79 | The end of a non-breaking iteration keeps the loop invariant, lowers the measure and moves each mark only forward: the chosen chamber to pushed, or, with no choice, the old top to popped. |
| PathFinder.Iterate | PathFinder.java:63-81 | One iteration keeps the loop invariant. Each mark moves only forward. A continuing iteration lowers the measure. The count grows by one exactly when the top is a treasure chamber. The loop breaks exactly when the top is a treasure chamber and the count reaches the number of treasures. |
| PathFinder.Path | PathFinder.java:50-84 | `path()` terminates. It returns a walk of neighbouring chambers from the entrance with no chamber twice, exactly the chambers marked pushed. The stack is empty, or its top is a treasure chamber with `nTreasureFound == getNumTreasures()`. |
| PathFinder.OvercountHalts | PathFinder.java:63-71 | On a map of `OvercountShape`, the loop as written counts the entrance twice and breaks with `nTreasureFound == 2`, though only one treasure chamber was reached. |
| PathFinder.IterateDistinct | PathFinder.java:63-81 | Corrected iteration: each treasure chamber counts once, when pushed. The count stays the number of treasure chambers reached. The loop breaks exactly when the top is a treasure chamber and all the map's treasures have been reached. |
| PathFinder.PathDistinct | PathFinder.java:50-84 | Corrected `path()`: as `Path`, and when it stops with a non-empty stack, the number of distinct treasure chambers reached is `getNumTreasures()`. |
| PathFinder.DistinctExhausts | PathFinder.java:63-81 | On the same maps, the corrected loop does not break at the entrance. It backtracks out and ends with an empty stack. |
| PathFinder.DimBesideSealedLight | PathFinder.java:100-110 | A chamber whose only lighted neighbour is sealed is dim. |
| PathFinder.PairFindsTreasure | PathFinder.java:63-81 | Entrance, then a lighted treasure neighbour: the walk pushes the treasure and breaks there without backtracking. |
| PathFinder.PairBacktracks | PathFinder.java:63-81 | Entrance, then a lighted dead end: the walk pushes it, pops it, pops the entrance and ends empty. |

## Left out

- `DLStack.toString` and `getTop`: string formatting and raw node access. No other operation depends on them.
- The `PathFinder` constructor and `getMap`: file reading and console output. The map is a parameter instead.
- `Map`, `Chamber` and `DoubleLinkedNode` are not part of this model. Only their accessors are modelled, as fields of the `Map` and `Chamber` datatypes and as a separate sequence of marks.
- `markStart()`: its effect is not visible in the code modelled here, so the model treats it as a no-op.
- `numItems` and `nTreasureFound` are Java `int`s. The model uses unbounded integers, since neither can exceed the number of nodes or of loop iterations in any run that fits in memory.
- The generic element type `T` is not restricted. Java `null` elements are allowed in the source and are ordinary values here.
- `PathFinder.Path`: assumes every chamber is unmarked when `path()` starts, as on a freshly loaded map. The source reads the marks stored in the `Chamber` objects, so a second call on the same `PathFinder` starts from the marks the first run left, and `markPushed` can move a popped entrance back to pushed. `PushedExactly` and the forward-only marks are proved for the fresh start only. The same holds for `PathFinder.PathDistinct`.
- `PathFinder.Path` and `PathFinder.PathDistinct`: the result is returned as the stack's contents together with the final marks and count, not as a `DLStack` object. The link between the stack and the node level is proved in `DoublyLinked`.
- `DoublyLinked.PopK`: does not state a refinement in the bottom case k == size > 1. That case is stated separately by `DoublyLinked.PopKBottomKeepsNode`, because the source breaks the invariant there.

## Findings

| source | as written | input that shows it | evidently intended | confidence | as-written member | corrected member |
|---|---|---|---|---|---|---|
| DLStack.java:89-98 | When the k-th node is the bottom (`prevNode == null`) and not the top, nothing is relinked. Only `numItems` is decremented. | A two-item stack [a, b], then `pop(2)`: `a` is returned but stays reachable from `top` through `b.previous`. A following `pop()` leaves `isEmpty()` false with `size()` 0. | The node above becomes the new bottom: its `previous` is set to null. | high (not executed) | DoublyLinked.PopKBottomKeepsNode | DoublyLinked.PopKFixedRefines |
| PathFinder.java:66-69 | `nTreasureFound` grows every time a treasure chamber is on top, so the chamber is counted again when the walk comes back to it. | Entrance: a lighted treasure chamber whose only neighbour is a lighted dead end; the map declares 2 treasures. The entrance is counted before and after the dead end, and the loop breaks with one treasure reached. | Each treasure chamber counts once, when it is first reached. | medium (not executed) | PathFinder.OvercountHalts | PathFinder.PathDistinct |
