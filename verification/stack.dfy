/**
  The abstract stack behind `DLStack<T>`: the stack's contents as a sequence,
  bottom first and TOP LAST. The node-level model in module `DoublyLinked`
  is proved to agree with these definitions.
 */
module Stack {
  import opened Wrappers

  /** The exceptions the stack operations raise. */
  datatype StackError =
    | EmptyStack     // `pop()` or `peek()` on an empty stack
    | InvalidItem    // `pop(k)` on an empty stack or with `k` out of range
    | NullReference  // node level only: a walk or a relinking met a null link

  predicate IsEmpty<T>(s: seq<T>) {
    |s| == 0
  }

  function Size<T>(s: seq<T>): nat {
    |s|
  }

  /** `push(x)`: `x` becomes the top, every element below is kept. */
  function Push<T>(s: seq<T>, x: T): (r: seq<T>)
    ensures Size(r) == Size(s) + 1
    ensures r[|r| - 1] == x
    ensures r[..|s|] == s
  {
    s + [x]
  }

  /** `pop()`: removes and returns the top; fails exactly on the empty stack. */
  function Pop<T>(s: seq<T>): (r: Result<(seq<T>, T), StackError>)
    ensures r.Failure? <==> IsEmpty(s)
    ensures r.Failure? ==> r.error == EmptyStack
    ensures r.Success? ==> Size(r.value.0) == Size(s) - 1
    ensures r.Success? ==> Push(r.value.0, r.value.1) == s
  {
    if |s| == 0 then Failure(EmptyStack) else Success((s[..|s| - 1], s[|s| - 1]))
  }

  /** `peek()`: the element `pop()` would return, without removing it. */
  function Peek<T>(s: seq<T>): (r: Result<T, StackError>)
    ensures r.Failure? <==> IsEmpty(s)
    ensures r.Failure? ==> r.error == EmptyStack
    ensures r.Success? ==> Pop(s).Success? && Pop(s).value.1 == r.value
  {
    if |s| == 0 then Failure(EmptyStack) else Success(s[|s| - 1])
  }

  /**
    `pop(k)`: removes and returns the k-th element counted from the top
    (k == 1 is the top). Defined the way the source finds it: k - 1 steps
    down from the top, the elements stepped over staying in place.
   */
  function PopK<T>(s: seq<T>, k: int): (r: Result<(seq<T>, T), StackError>)
    ensures r.Failure? <==> IsEmpty(s) || k < 1 || k > Size(s)
    ensures r.Failure? ==> r.error == InvalidItem
    ensures r.Success? ==> r.value.1 == s[|s| - k]
    ensures r.Success? ==> r.value.0 == s[..|s| - k] + s[|s| - k + 1..]
    decreases |s|
  {
    if |s| == 0 || k < 1 || k > |s| then Failure(InvalidItem)
    else if k == 1 then Success((s[..|s| - 1], s[|s| - 1]))
    else
      var below := PopK(s[..|s| - 1], k - 1);
      Success((below.value.0 + [s[|s| - 1]], below.value.1))
  }

  /** A successful `pop(k)`, in one equation. */
  lemma PopKAt<T>(s: seq<T>, k: int)
    requires 1 <= k <= |s|
    ensures PopK(s, k) == Success((s[..|s| - k] + s[|s| - k + 1..], s[|s| - k]))
  {
  }

  /** `push(x)` then `pop()` returns `x` and restores the stack. */
  lemma PushPop<T>(s: seq<T>, x: T)
    ensures Pop(Push(s, x)) == Success((s, x))
  {
    assert Push(s, x)[..|s|] == s;
  }

  /** After `push(x)`, `peek()` returns `x` and the size has grown by one. */
  lemma PushPeek<T>(s: seq<T>, x: T)
    ensures Peek(Push(s, x)) == Success(x)
    ensures !IsEmpty(Push(s, x))
  {
  }

  /** `pop(1)` behaves like `pop()` on a non-empty stack (both fail on the empty one). */
  lemma PopKOneIsPop<T>(s: seq<T>)
    ensures PopK(s, 1).Success? <==> Pop(s).Success?
    ensures !IsEmpty(s) ==> PopK(s, 1) == Pop(s)
  {
  }

  /**
    `pop(k)` removes exactly one occurrence of the returned element: putting
    it back at depth k gives the original stack, and the multiset of
    elements loses just that element.
   */
  lemma {:induction false} PopKReinsert<T>(s: seq<T>, k: int)
    requires PopK(s, k).Success?
    ensures var (rest, x) := PopK(s, k).value;
      rest[..|s| - k] + [x] + rest[|s| - k..] == s
    ensures var (rest, x) := PopK(s, k).value;
      multiset(rest) + multiset{x} == multiset(s)
  {
    var (rest, x) := PopK(s, k).value;
    var j := |s| - k;
    assert rest[..j] == s[..j];
    assert rest[j..] == s[j + 1..];
    assert s == s[..j] + [s[j]] + s[j + 1..];
    calc {
      multiset(rest) + multiset{x};
      multiset(s[..j] + s[j + 1..]) + multiset{s[j]};
      multiset(s[..j]) + multiset(s[j + 1..]) + multiset([s[j]]);
      multiset(s[..j] + [s[j]] + s[j + 1..]);
    }
  }
}
