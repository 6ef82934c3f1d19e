/**
  `DLStack<T>` at the level of its nodes. Java references become indices
  into an arena `nodes`: a node is never freed, so a removed node stays in
  the arena (and, where the source forgets to unlink it, stays reachable).
  Each operation follows the source statement by statement; the lemmas at
  the end relate it to the abstract stack of module `Stack`.
 */
module DoublyLinked {
  import opened Wrappers
  import Stack

  /** A `DoubleLinkedNode`: an element and the links toward the bottom (`previous`) and the top (`next`). */
  datatype Node<T> = Node(element: T, previous: Option<nat>, next: Option<nat>)

  /** The fields `top` and `numItems` of a `DLStack`, together with the heap of nodes. */
  datatype DLStack<T> = DLStack(nodes: seq<Node<T>>, top: Option<nat>, numItems: int)

  /** A link that is null or denotes a node of the arena. */
  predicate Points<T>(nodes: seq<Node<T>>, p: Option<nat>) {
    p.None? || p.value < |nodes|
  }

  /** Every link of every node denotes a node of the arena (Java references never dangle). */
  predicate Linked<T>(nodes: seq<Node<T>>) {
    forall i :: 0 <= i < |nodes| ==> Points(nodes, nodes[i].previous) && Points(nodes, nodes[i].next)
  }

  predicate WellFormed<T>(s: DLStack<T>) {
    Linked(s.nodes) && Points(s.nodes, s.top)
  }

  /**
    `idxs` lists, bottom first, the nodes reached from `top` by following
    `previous` links until a null one: the chain of nodes reachable from the top.
   */
  ghost predicate Chain<T>(s: DLStack<T>, idxs: seq<nat>) {
    && (forall i :: 0 <= i < |idxs| ==> idxs[i] < |s.nodes|)
    && (forall i, j :: 0 <= i < j < |idxs| ==> idxs[i] != idxs[j])
    && (if |idxs| == 0 then s.top.None?
        else s.top == Some(idxs[|idxs| - 1]) && s.nodes[idxs[0]].previous.None?)
    && (forall i :: 0 < i < |idxs| ==> s.nodes[idxs[i]].previous == Some(idxs[i - 1]))
  }

  /**
    The representation invariant: the links are well formed, `numItems` is
    the number of nodes reachable from `top`, and below the top every
    `next` link is the inverse of a `previous` link. The `next` link of the
    top node itself is left free: no modelled operation reads it.
   */
  ghost predicate Inv<T>(s: DLStack<T>, idxs: seq<nat>) {
    && WellFormed(s)
    && Chain(s, idxs)
    && s.numItems == |idxs|
    && (forall i :: 0 <= i < |idxs| - 1 ==> s.nodes[idxs[i]].next == Some(idxs[i + 1]))
  }

  /** The abstract contents: the elements of the chain, bottom first. */
  ghost function Elements<T>(s: DLStack<T>, idxs: seq<nat>): (r: seq<T>)
    requires forall i :: 0 <= i < |idxs| ==> idxs[i] < |s.nodes|
    ensures |r| == |idxs|
  {
    seq(|idxs|, i requires 0 <= i < |idxs| => s.nodes[idxs[i]].element)
  }

  /** The constructor: `top` is null and `numItems` is zero. */
  function New<T>(): (r: DLStack<T>)
    ensures Inv(r, [])
    ensures IsEmpty(r) && Size(r) == 0
  {
    DLStack([], None, 0)
  }

  predicate IsEmpty<T>(s: DLStack<T>) {
    s.top.None?
  }

  function Size<T>(s: DLStack<T>): int {
    s.numItems
  }

  /** `push(dataItem)`: a fresh node linked above the old top. */
  function Push<T>(s: DLStack<T>, x: T): (r: DLStack<T>)
    requires WellFormed(s)
    ensures WellFormed(r)
    ensures !IsEmpty(r) && Size(r) == Size(s) + 1
    ensures Peek(r) == Success(x)
  {
    var free := |s.nodes|;
    if IsEmpty(s) then
      DLStack(s.nodes + [Node(x, None, None)], Some(free), s.numItems + 1)
    else
      var t := s.top.value;
      DLStack(s.nodes[t := s.nodes[t].(next := Some(free))] + [Node(x, Some(t), None)],
              Some(free), s.numItems + 1)
  }

  /** `peek()`: the top node's element; `EmptyStackException` when `top` is null. */
  function Peek<T>(s: DLStack<T>): (r: Result<T, Stack.StackError>)
    requires WellFormed(s)
    ensures r.Failure? <==> IsEmpty(s)
    ensures r.Failure? ==> r.error == Stack.EmptyStack
  {
    if IsEmpty(s) then Failure(Stack.EmptyStack) else Success(s.nodes[s.top.value].element)
  }

  /** `pop()`: the old top's `previous` becomes the top and loses its `next` link. */
  function Pop<T>(s: DLStack<T>): (r: Result<(DLStack<T>, T), Stack.StackError>)
    requires WellFormed(s)
    ensures r.Failure? <==> IsEmpty(s)
    ensures r.Failure? ==> r.error == Stack.EmptyStack
    ensures r.Success? ==> WellFormed(r.value.0) && Size(r.value.0) == Size(s) - 1
    ensures r.Success? ==> Peek(s) == Success(r.value.1)
  {
    if IsEmpty(s) then Failure(Stack.EmptyStack)
    else
      var t := s.top.value;
      var newTop := s.nodes[t].previous;
      var nodes := if newTop.Some? then s.nodes[newTop.value := s.nodes[newTop.value].(next := None)]
                   else s.nodes;
      Success((DLStack(nodes, newTop, s.numItems - 1), s.nodes[t].element))
  }

  /** The node reached from `from` after `steps` `getPrevious()` calls; `None` once a null link is met. */
  function Walk<T>(nodes: seq<Node<T>>, from: Option<nat>, steps: nat): (r: Option<nat>)
    requires Linked(nodes) && Points(nodes, from)
    ensures Points(nodes, r)
    decreases steps
  {
    if steps == 0 then from
    else if from.None? then None
    else Walk(nodes, nodes[from.value].previous, steps - 1)
  }

  /**
    `pop(k)` as written. After walking k - 1 steps down: if the target is the
    top, `top` moves to its `previous` (the new top's `next` is not cleared);
    otherwise, if the target has a `previous` node, the target is spliced out;
    if it has none (it is the bottom), nothing is relinked. In every branch
    `numItems` is decremented. A null target or a null `next` (a Java `null`
    return or `NullPointerException`) is `NullReference`.
   */
  function PopK<T>(s: DLStack<T>, k: int): (r: Result<(DLStack<T>, T), Stack.StackError>)
    requires WellFormed(s)
    ensures (IsEmpty(s) || k < 1 || k > Size(s)) <==> (r.Failure? && r.error == Stack.InvalidItem)
    ensures r.Success? ==> WellFormed(r.value.0) && Size(r.value.0) == Size(s) - 1
  {
    if IsEmpty(s) then Failure(Stack.InvalidItem)
    else if k < 1 || k > s.numItems then Failure(Stack.InvalidItem)
    else
      var cur := Walk(s.nodes, s.top, k - 1);
      if cur == s.top then
        Success((s.(top := s.nodes[cur.value].previous, numItems := s.numItems - 1),
                 s.nodes[cur.value].element))
      else if cur.None? then Failure(Stack.NullReference)
      else
        var c := cur.value;
        var nextNode := s.nodes[c].next;
        var prevNode := s.nodes[c].previous;
        if prevNode.None? then
          Success((s.(numItems := s.numItems - 1), s.nodes[c].element))
        else if nextNode.None? then Failure(Stack.NullReference)
        else
          var nodes := Splice(s.nodes, prevNode.value, nextNode.value);
          Success((s.(nodes := nodes, numItems := s.numItems - 1), s.nodes[c].element))
  }

  /** `prevNode.setNext(nextNode); nextNode.setPrevious(prevNode);` in that order. */
  function Splice<T>(nodes: seq<Node<T>>, p: nat, n: nat): (r: seq<Node<T>>)
    requires Linked(nodes) && p < |nodes| && n < |nodes|
    ensures Linked(r) && |r| == |nodes|
    ensures forall i :: 0 <= i < |r| ==> r[i].element == nodes[i].element
    ensures r[p].next == Some(n) && r[n].previous == Some(p)
  {
    var first := nodes[p := nodes[p].(next := Some(n))];
    first[n := first[n].(previous := Some(p))]
  }

  /**
    `pop(k)` with the bottom case corrected: when the target has no
    `previous` node, the node above it becomes the new bottom (its
    `previous` link is cleared). Every other case is `PopK`.
   */
  function PopKFixed<T>(s: DLStack<T>, k: int): (r: Result<(DLStack<T>, T), Stack.StackError>)
    requires WellFormed(s)
    ensures (IsEmpty(s) || k < 1 || k > Size(s)) <==> (r.Failure? && r.error == Stack.InvalidItem)
    ensures r.Success? ==> WellFormed(r.value.0) && Size(r.value.0) == Size(s) - 1
  {
    if !IsEmpty(s) && 1 <= k <= s.numItems then
      var cur := Walk(s.nodes, s.top, k - 1);
      if cur != s.top && cur.Some? && s.nodes[cur.value].previous.None? && s.nodes[cur.value].next.Some? then
        var n := s.nodes[cur.value].next.value;
        Success((s.(nodes := s.nodes[n := s.nodes[n].(previous := None)], numItems := s.numItems - 1),
                 s.nodes[cur.value].element))
      else PopK(s, k)
    else PopK(s, k)
  }

  // ---------------------------------------------------------------------
  // The node level against the abstract stack

  /** The chain a successful `pop(k)` should leave: `idxs` without its k-th node from the top. */
  function Remove(idxs: seq<nat>, k: int): seq<nat> {
    if 1 <= k <= |idxs| then idxs[..|idxs| - k] + idxs[|idxs| - k + 1..] else idxs
  }

  lemma RemoveAt(idxs: seq<nat>, k: int)
    requires 1 <= k <= |idxs|
    ensures Remove(idxs, k) == idxs[..|idxs| - k] + idxs[|idxs| - k + 1..]
  {
  }

  /**
    A node-level outcome agrees with an abstract one: the same exception, or
    the same element and a resulting stack that keeps the invariant with
    chain `idxs` and holds the abstract remainder.
   */
  ghost predicate Simulates<T>(r: Result<(DLStack<T>, T), Stack.StackError>,
                               a: Result<(seq<T>, T), Stack.StackError>, idxs: seq<nat>)
  {
    match r
    case Failure(e) => a == Failure(e)
    case Success((t, x)) => a.Success? && Inv(t, idxs) && Elements(t, idxs) == a.value.0 && x == a.value.1
  }

  lemma {:induction false} ChainFromTop<T>(s: DLStack<T>, a: seq<nat>, b: seq<nat>, j: nat)
    requires Chain(s, a) && Chain(s, b)
    requires j < |a| && j < |b|
    ensures a[|a| - 1 - j] == b[|b| - 1 - j]
    decreases j
  {
    if j > 0 {
      ChainFromTop(s, a, b, j - 1);
      assert s.nodes[a[|a| - j]].previous == Some(a[|a| - 1 - j]);
    }
  }

  /** Only the bottom node of a chain has a null `previous` link. */
  lemma ChainBottom<T>(s: DLStack<T>, idxs: seq<nat>, i: nat)
    requires Chain(s, idxs) && i < |idxs|
    ensures s.nodes[idxs[i]].previous.None? <==> i == 0
  {
    if i > 0 {
      assert s.nodes[idxs[i]].previous == Some(idxs[i - 1]);
    }
  }

  /** The nodes reachable from `top` are determined by the links: there is only one chain. */
  lemma {:induction false} ChainUnique<T>(s: DLStack<T>, a: seq<nat>, b: seq<nat>)
    requires Chain(s, a) && Chain(s, b)
    ensures a == b
  {
    if |a| > 0 && |b| > 0 {
      var j := if |a| < |b| then |a| - 1 else |b| - 1;
      ChainFromTop(s, a, b, j);
      ChainBottom(s, a, |a| - 1 - j);
      ChainBottom(s, b, |b| - 1 - j);
      forall i | 0 <= i < |a|
        ensures a[i] == b[i]
      {
        ChainFromTop(s, a, b, |a| - 1 - i);
      }
    }
  }

  /** Walking j steps down from the chain's i-th node reaches its (i - j)-th node. */
  lemma {:induction false} WalkChain<T>(s: DLStack<T>, idxs: seq<nat>, i: nat, j: nat)
    requires WellFormed(s) && Chain(s, idxs)
    requires j <= i < |idxs|
    ensures Walk(s.nodes, Some(idxs[i]), j) == Some(idxs[i - j])
    decreases j
  {
    if j > 0 {
      assert s.nodes[idxs[i]].previous == Some(idxs[i - 1]);
      WalkChain(s, idxs, i - 1, j - 1);
    }
  }

  /** Under the invariant, the three ways of asking for emptiness agree. */
  lemma EmptinessAgrees<T>(s: DLStack<T>, idxs: seq<nat>)
    requires Inv(s, idxs)
    ensures IsEmpty(s) <==> Size(s) == 0
    ensures IsEmpty(s) <==> Stack.IsEmpty(Elements(s, idxs))
    ensures Size(s) == Stack.Size(Elements(s, idxs))
  {
  }

  lemma PushChain<T>(s: DLStack<T>, idxs: seq<nat>, x: T)
    requires Inv(s, idxs)
    ensures Chain(Push(s, x), idxs + [|s.nodes|])
  {
    var r := Push(s, x);
    var idxs' := idxs + [|s.nodes|];
    assert forall i :: 0 <= i < |idxs| ==> idxs'[i] == idxs[i];
    assert forall i :: 0 <= i < |idxs| ==> r.nodes[idxs[i]].previous == s.nodes[idxs[i]].previous;
  }

  lemma PushNext<T>(s: DLStack<T>, idxs: seq<nat>, x: T)
    requires Inv(s, idxs)
    ensures var r, idxs' := Push(s, x), idxs + [|s.nodes|];
      forall i :: 0 <= i < |idxs| ==> r.nodes[idxs'[i]].next == Some(idxs'[i + 1])
  {
    var r := Push(s, x);
    var idxs' := idxs + [|s.nodes|];
    assert forall i :: 0 <= i < |idxs| ==> idxs'[i] == idxs[i];
    assert forall i :: 0 <= i < |idxs| - 1 ==> r.nodes[idxs[i]].next == s.nodes[idxs[i]].next;
  }

  lemma PushElements<T>(s: DLStack<T>, idxs: seq<nat>, x: T)
    requires Inv(s, idxs)
    ensures Elements(Push(s, x), idxs + [|s.nodes|]) == Stack.Push(Elements(s, idxs), x)
  {
    var r := Push(s, x);
    assert forall i :: 0 <= i < |idxs| ==> r.nodes[idxs[i]].element == s.nodes[idxs[i]].element;
  }

  /** `push` keeps the invariant, with the fresh node on top of the chain. */
  lemma PushRefines<T>(s: DLStack<T>, idxs: seq<nat>, x: T)
    requires Inv(s, idxs)
    ensures Inv(Push(s, x), idxs + [|s.nodes|])
    ensures Elements(Push(s, x), idxs + [|s.nodes|]) == Stack.Push(Elements(s, idxs), x)
  {
    PushChain(s, idxs, x);
    PushNext(s, idxs, x);
    PushElements(s, idxs, x);
  }

  lemma PeekRefines<T>(s: DLStack<T>, idxs: seq<nat>)
    requires Inv(s, idxs)
    ensures Peek(s) == Stack.Peek(Elements(s, idxs))
  {
  }

  /**
    Dropping the top of the chain: a stack whose top is the old top's
    `previous`, with one item fewer and the links below unchanged, keeps the
    invariant with the chain's prefix.
   */
  lemma DropTop<T>(s: DLStack<T>, idxs: seq<nat>, t: DLStack<T>)
    requires Inv(s, idxs) && |idxs| > 0 && WellFormed(t)
    requires t.top == s.nodes[idxs[|idxs| - 1]].previous && t.numItems == |idxs| - 1
    requires |t.nodes| == |s.nodes|
    requires forall i :: 0 <= i < |s.nodes| ==> t.nodes[i].element == s.nodes[i].element && t.nodes[i].previous == s.nodes[i].previous
    requires forall i :: 0 <= i < |idxs| - 2 ==> t.nodes[idxs[i]].next == s.nodes[idxs[i]].next
    ensures Inv(t, idxs[..|idxs| - 1])
    ensures Elements(t, idxs[..|idxs| - 1]) == Elements(s, idxs)[..|idxs| - 1]
  {
    var n := |idxs|;
    var idxs' := idxs[..n - 1];
    assert Chain(t, idxs') by {
      assert forall i :: 0 <= i < n - 1 ==> idxs'[i] == idxs[i];
    }
    assert forall i :: 0 <= i < n - 2 ==> t.nodes[idxs'[i]].next == Some(idxs'[i + 1]) by {
      assert forall i :: 0 <= i < n - 1 ==> idxs'[i] == idxs[i];
    }
  }

  /** A successful node-level outcome agrees with a successful abstract one. */
  lemma SimulatesSuccess<T>(t: DLStack<T>, x: T, a: (seq<T>, T), idxs: seq<nat>)
    requires Inv(t, idxs) && Elements(t, idxs) == a.0 && x == a.1
    ensures Simulates(Success((t, x)), Success(a), idxs)
  {
  }

  /** `Simulates` respects equality of its arguments. */
  lemma SimulatesSame<T>(r: Result<(DLStack<T>, T), Stack.StackError>, a: Result<(seq<T>, T), Stack.StackError>, idxs: seq<nat>,
                         r': Result<(DLStack<T>, T), Stack.StackError>, a': Result<(seq<T>, T), Stack.StackError>, idxs': seq<nat>)
    requires r == r' && a == a' && idxs == idxs' && Simulates(r', a', idxs')
    ensures Simulates(r, a, idxs)
  {
  }

  /** `pop()` keeps the invariant and removes the top of the chain. */
  lemma PopRefines<T>(s: DLStack<T>, idxs: seq<nat>)
    requires Inv(s, idxs)
    ensures Simulates(Pop(s), Stack.Pop(Elements(s, idxs)), Remove(idxs, 1))
  {
    var e := Elements(s, idxs);
    EmptinessAgrees(s, idxs);
    if !IsEmpty(s) {
      var n := |idxs|;
      var t := Pop(s).value.0;
      assert Pop(s) == Success((t, e[n - 1]));
      assert forall i :: 0 <= i < n - 2 ==> idxs[i] != idxs[n - 2];
      DropTop(s, idxs, t);
      assert Remove(idxs, 1) == idxs[..n - 1];
      assert Stack.Pop(e) == Success((e[..n - 1], e[n - 1]));
      SimulatesSuccess(t, e[n - 1], (e[..n - 1], e[n - 1]), idxs[..n - 1]);
    }
  }

  /** The stack `pop(k)` leaves after splicing out the chain's j-th node. */
  function Spliced<T>(s: DLStack<T>, idxs: seq<nat>, j: nat): (t: DLStack<T>)
    requires Inv(s, idxs)
    requires 0 < j < |idxs| - 1
    ensures WellFormed(t)
  {
    s.(nodes := Splice(s.nodes, idxs[j - 1], idxs[j + 1]), numItems := s.numItems - 1)
  }

  /** Removing one index keeps the indices in range and distinct. */
  lemma RemoveDistinct(idxs: seq<nat>, bound: nat, j: nat)
    requires j < |idxs|
    requires forall i :: 0 <= i < |idxs| ==> idxs[i] < bound
    requires forall i, k :: 0 <= i < k < |idxs| ==> idxs[i] != idxs[k]
    ensures var idxs' := idxs[..j] + idxs[j + 1..];
      && (forall i :: 0 <= i < |idxs'| ==> idxs'[i] < bound)
      && (forall i, k :: 0 <= i < k < |idxs'| ==> idxs'[i] != idxs'[k])
  {
    var idxs' := idxs[..j] + idxs[j + 1..];
    assert forall i :: 0 <= i < |idxs'| ==> idxs'[i] == if i < j then idxs[i] else idxs[i + 1];
  }

  lemma SpliceChain<T>(s: DLStack<T>, idxs: seq<nat>, j: nat)
    requires Inv(s, idxs)
    requires 0 < j < |idxs| - 1
    ensures Chain(Spliced(s, idxs, j), idxs[..j] + idxs[j + 1..])
  {
    var t := Spliced(s, idxs, j);
    var idxs' := idxs[..j] + idxs[j + 1..];
    RemoveDistinct(idxs, |s.nodes|, j);
    assert forall i :: 0 <= i < |idxs'| ==> idxs'[i] == if i < j then idxs[i] else idxs[i + 1];
    assert forall i :: 0 <= i < |idxs| && i != j + 1 ==> t.nodes[idxs[i]].previous == s.nodes[idxs[i]].previous;
  }

  lemma SpliceNext<T>(s: DLStack<T>, idxs: seq<nat>, j: nat)
    requires Inv(s, idxs)
    requires 0 < j < |idxs| - 1
    ensures var t, idxs' := Spliced(s, idxs, j), idxs[..j] + idxs[j + 1..];
      forall i :: 0 <= i < |idxs'| - 1 ==> t.nodes[idxs'[i]].next == Some(idxs'[i + 1])
  {
    var t := Spliced(s, idxs, j);
    var idxs' := idxs[..j] + idxs[j + 1..];
    assert forall i :: 0 <= i < |idxs'| ==> idxs'[i] == if i < j then idxs[i] else idxs[i + 1];
    assert forall i :: 0 <= i < |idxs| && i != j - 1 ==> t.nodes[idxs[i]].next == s.nodes[idxs[i]].next;
  }

  lemma SpliceElements<T>(s: DLStack<T>, idxs: seq<nat>, j: nat)
    requires Inv(s, idxs)
    requires 0 < j < |idxs| - 1
    ensures Elements(Spliced(s, idxs, j), idxs[..j] + idxs[j + 1..]) == Elements(s, idxs)[..j] + Elements(s, idxs)[j + 1..]
  {
    var idxs' := idxs[..j] + idxs[j + 1..];
    assert forall i :: 0 <= i < |idxs'| ==> idxs'[i] == if i < j then idxs[i] else idxs[i + 1];
  }

  /** The splice of `pop(k)` for an interior node: the chain loses exactly that node. */
  lemma SpliceRefines<T>(s: DLStack<T>, idxs: seq<nat>, j: nat)
    requires Inv(s, idxs)
    requires 0 < j < |idxs| - 1
    ensures Inv(Spliced(s, idxs, j), idxs[..j] + idxs[j + 1..])
    ensures Elements(Spliced(s, idxs, j), idxs[..j] + idxs[j + 1..]) == Elements(s, idxs)[..j] + Elements(s, idxs)[j + 1..]
  {
    SpliceChain(s, idxs, j);
    SpliceNext(s, idxs, j);
    SpliceElements(s, idxs, j);
  }

  /** `pop(1)` moves `top` down one node and keeps the invariant with the chain's prefix. */
  lemma PopKTop<T>(s: DLStack<T>, idxs: seq<nat>)
    requires Inv(s, idxs) && |idxs| > 0
    ensures Simulates(PopK(s, 1), Stack.PopK(Elements(s, idxs), 1), Remove(idxs, 1))
  {
    var n := |idxs|;
    assert forall i :: 0 <= i < n - 2 ==> idxs[i] != idxs[n - 2];
    DropTop(s, idxs, PopK(s, 1).value.0);
  }

  /** For 1 < k < size, `pop(k)` walks to the chain's node at depth k and splices it out. */
  lemma PopKInterior<T>(s: DLStack<T>, idxs: seq<nat>, k: int)
    requires Inv(s, idxs)
    requires 1 < k < |idxs|
    ensures PopK(s, k) == Success((Spliced(s, idxs, |idxs| - k), Elements(s, idxs)[|idxs| - k]))
  {
    var n, j := |idxs|, |idxs| - k;
    WalkChain(s, idxs, n - 1, k - 1);
    assert idxs[j] != idxs[n - 1];
    assert s.nodes[idxs[j]].previous == Some(idxs[j - 1]);
    assert s.nodes[idxs[j]].next == Some(idxs[j + 1]);
  }

  lemma PopKInteriorRefines<T>(s: DLStack<T>, idxs: seq<nat>, k: int)
    requires Inv(s, idxs)
    requires 1 < k < |idxs|
    ensures Simulates(PopK(s, k), Stack.PopK(Elements(s, idxs), k), Remove(idxs, k))
  {
    var j := |idxs| - k;
    var e := Elements(s, idxs);
    RemoveAt(idxs, k);
    Stack.PopKAt(e, k);
    PopKInterior(s, idxs, k);
    SpliceRefines(s, idxs, j);
    SimulatesSuccess(Spliced(s, idxs, j), e[j], (e[..j] + e[j + 1..], e[j]), idxs[..j] + idxs[j + 1..]);
    SimulatesSame(PopK(s, k), Stack.PopK(e, k), Remove(idxs, k),
                  Success((Spliced(s, idxs, j), e[j])), Success((e[..j] + e[j + 1..], e[j])), idxs[..j] + idxs[j + 1..]);
  }

  /**
    `pop(k)` agrees with the abstract `pop(k)` in every case except the
    bottom one with k > 1 (see `PopKBottomKeepsNode`).
   */
  lemma PopKRefines<T>(s: DLStack<T>, idxs: seq<nat>, k: int)
    requires Inv(s, idxs)
    requires k <= 1 || k != |idxs|
    ensures Simulates(PopK(s, k), Stack.PopK(Elements(s, idxs), k), Remove(idxs, k))
  {
    if !IsEmpty(s) && 1 <= k <= |idxs| {
      if k == 1 {
        PopKTop(s, idxs);
      } else {
        PopKInteriorRefines(s, idxs, k);
      }
    }
  }

  /** The stack the corrected `pop(k)` leaves when it removes the bottom node. */
  function Rebottomed<T>(s: DLStack<T>, idxs: seq<nat>): (t: DLStack<T>)
    requires Inv(s, idxs) && |idxs| > 1
    ensures WellFormed(t)
  {
    s.(nodes := s.nodes[idxs[1] := s.nodes[idxs[1]].(previous := None)], numItems := s.numItems - 1)
  }

  lemma RebottomedRefines<T>(s: DLStack<T>, idxs: seq<nat>)
    requires Inv(s, idxs) && |idxs| > 1
    ensures Inv(Rebottomed(s, idxs), idxs[1..])
    ensures Elements(Rebottomed(s, idxs), idxs[1..]) == Elements(s, idxs)[1..]
  {
    var t, idxs' := Rebottomed(s, idxs), idxs[1..];
    assert Chain(t, idxs') by {
      assert forall i :: 0 <= i < |idxs'| ==> idxs'[i] == idxs[i + 1];
      assert forall i :: 1 < i < |idxs| ==> idxs[i] != idxs[1];
      assert forall i :: 1 < i < |idxs| ==> t.nodes[idxs[i]].previous == s.nodes[idxs[i]].previous;
    }
    assert forall i :: 0 <= i < |idxs'| - 1 ==> t.nodes[idxs'[i]].next == Some(idxs'[i + 1]) by {
      assert forall i :: 0 <= i < |idxs'| ==> idxs'[i] == idxs[i + 1];
    }
  }

  lemma PopKFixedBottom<T>(s: DLStack<T>, idxs: seq<nat>)
    requires Inv(s, idxs) && |idxs| > 1
    ensures PopKFixed(s, |idxs|) == Success((Rebottomed(s, idxs), Elements(s, idxs)[0]))
  {
    var n := |idxs|;
    WalkChain(s, idxs, n - 1, n - 1);
    assert idxs[0] != idxs[n - 1];
    assert s.nodes[idxs[0]].next == Some(idxs[1]);
  }

  lemma PopKFixedBottomRefines<T>(s: DLStack<T>, idxs: seq<nat>)
    requires Inv(s, idxs) && |idxs| > 1
    ensures Simulates(PopKFixed(s, |idxs|), Stack.PopK(Elements(s, idxs), |idxs|), Remove(idxs, |idxs|))
  {
    var n, e := |idxs|, Elements(s, idxs);
    assert Remove(idxs, n) == idxs[1..] by {
      assert idxs[..0] + idxs[1..] == idxs[1..];
    }
    assert Stack.PopK(e, n) == Success((e[1..], e[0])) by {
      assert e[..0] + e[1..] == e[1..];
    }
    PopKFixedBottom(s, idxs);
    RebottomedRefines(s, idxs);
  }

  /** The corrected `pop(k)` agrees with the abstract `pop(k)` for every k. */
  lemma PopKFixedRefines<T>(s: DLStack<T>, idxs: seq<nat>, k: int)
    requires Inv(s, idxs)
    ensures Simulates(PopKFixed(s, k), Stack.PopK(Elements(s, idxs), k), Remove(idxs, k))
  {
    if k == |idxs| && k > 1 {
      PopKFixedBottomRefines(s, idxs);
    } else {
      PopKRefines(s, idxs, k);
      if !IsEmpty(s) && 1 <= k <= |idxs| {
        WalkChain(s, idxs, |idxs| - 1, k - 1);
        ChainBottom(s, idxs, |idxs| - k);
      }
      assert PopKFixed(s, k) == PopK(s, k);
    }
  }

  /**
    The bottom case of `pop(k)` as written: with k == size > 1 the bottom
    element is returned and `numItems` drops, yet no link changes, so the
    removed node is still reachable from `top` and no chain matches the
    new `numItems`: the representation invariant is broken.
   */
  lemma PopKBottomKeepsNode<T>(s: DLStack<T>, idxs: seq<nat>)
    requires Inv(s, idxs) && |idxs| > 1
    ensures PopK(s, |idxs|).Success?
    ensures PopK(s, |idxs|).value.1 == Stack.PopK(Elements(s, idxs), |idxs|).value.1
    ensures Chain(PopK(s, |idxs|).value.0, idxs)
    ensures Elements(PopK(s, |idxs|).value.0, idxs) == Elements(s, idxs)
    ensures Size(PopK(s, |idxs|).value.0) == |idxs| - 1
    ensures forall c :: !Inv(PopK(s, |idxs|).value.0, c)
  {
    var n := |idxs|;
    WalkChain(s, idxs, n - 1, n - 1);
    assert idxs[0] != idxs[n - 1];
    var t := PopK(s, n).value.0;
    assert t.nodes == s.nodes && t.top == s.top;
    forall c | Inv(t, c)
      ensures false
    {
      ChainUnique(t, c, idxs);
    }
  }

  /**
    A consequence: on a two-element stack, `pop(2)` then `pop()` leaves a
    stack whose `isEmpty()` is false while its `size()` is 0.
   */
  lemma PopKBottomDesync<T>(s: DLStack<T>, idxs: seq<nat>)
    requires Inv(s, idxs) && |idxs| == 2
    ensures PopK(s, 2).Success?
    ensures Pop(PopK(s, 2).value.0).Success?
    ensures !IsEmpty(Pop(PopK(s, 2).value.0).value.0)
    ensures Size(Pop(PopK(s, 2).value.0).value.0) == 0
  {
    PopKBottomKeepsNode(s, idxs);
  }

  /**
    `pop(1)` leaves the new top's `next` link on the removed node, where
    `pop()` clears it; harmless, because no modelled operation reads the top's `next`.
   */
  lemma PopKOneStaleNext<T>(s: DLStack<T>, idxs: seq<nat>)
    requires Inv(s, idxs) && |idxs| >= 2
    ensures PopK(s, 1).Success? && Pop(s).Success?
    ensures var t := PopK(s, 1).value.0; t.top.Some? && t.nodes[t.top.value].next == Some(idxs[|idxs| - 1])
    ensures var t := Pop(s).value.0; t.top.Some? && t.nodes[t.top.value].next.None?
  {
    assert s.nodes[idxs[|idxs| - 1]].previous == Some(idxs[|idxs| - 2]);
  }
}
