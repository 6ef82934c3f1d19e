/**
  `PathFinder`: the greedy depth-first walk from the entrance. `IsDim` and
  `BestChamber` are pure queries over the map and the marks; `Path` is the
  source's loop, each iteration of which is `Iterate`.
 */
module PathFinder {
  import opened Wrappers
  import opened Chambers
  import Stack

  // ---------------------------------------------------------------------
  // isDim

  /** Slot `i` of chamber `c` holds a lighted chamber. */
  predicate LightedAt(m: Map, c: Id, i: nat)
    requires Valid(m) && c < |m.chambers| && i < Sides
  {
    Neighbour(m, c, i).Some? && m.chambers[Neighbour(m, c, i).value].lighted
  }

  /** The loop of `isDim` from slot `from` on: is some later slot lighted? */
  function LightedFrom(m: Map, c: Id, from: nat): (r: bool)
    requires Valid(m) && c < |m.chambers| && from <= Sides
    ensures r <==> exists i :: from <= i < Sides && LightedAt(m, c, i)
    decreases Sides - from
  {
    if from == Sides then false
    else LightedAt(m, c, from) || LightedFrom(m, c, from + 1)
  }

  /**
    `isDim(c)`: false for a null, sealed or lighted chamber; otherwise true
    exactly when one of its six neighbours is lighted. Whether that
    neighbour is sealed is not looked at.
   */
  function IsDim(m: Map, c: Option<Id>): (r: bool)
    requires Valid(m) && (c.Some? ==> c.value < |m.chambers|)
    ensures c.None? ==> !r
    ensures c.Some? && (m.chambers[c.value].sealed || m.chambers[c.value].lighted) ==> !r
    ensures c.Some? && !m.chambers[c.value].sealed && !m.chambers[c.value].lighted ==>
      (r <==> exists i :: 0 <= i < Sides && LightedAt(m, c.value, i))
  {
    if c.Some? && !m.chambers[c.value].sealed && !m.chambers[c.value].lighted then
      LightedFrom(m, c.value, 0)
    else
      false
  }

  // ---------------------------------------------------------------------
  // bestChamber

  /** The three passes of `bestChamber`, in priority order. */
  datatype Pass = TreasurePass | LightedPass | DimPass

  /**
    Slot `i` of `c` holds an unmarked chamber that the pass accepts. Passes
    one and two do not look at `isSealed`; pass three does, through `IsDim`.
   */
  predicate Qualifies(m: Map, marks: seq<Mark>, c: Id, i: nat, pass: Pass)
    requires Valid(m) && MarksFor(m, marks) && c < |m.chambers| && i < Sides
  {
    var n := Neighbour(m, c, i);
    && n.Some?
    && !IsMarked(marks, n.value)
    && match pass
       case TreasurePass => m.chambers[n.value].treasure
       case LightedPass => m.chambers[n.value].lighted
       case DimPass => IsDim(m, n)
  }

  /** Some slot qualifies for the pass. */
  predicate HasQualifying(m: Map, marks: seq<Mark>, c: Id, pass: Pass)
    requires Valid(m) && MarksFor(m, marks) && c < |m.chambers|
  {
    exists i :: 0 <= i < Sides && Qualifies(m, marks, c, i, pass)
  }

  /** `r` is the chamber in the lowest slot that qualifies for the pass. */
  predicate LowestQualifying(m: Map, marks: seq<Mark>, c: Id, pass: Pass, r: Option<Id>)
    requires Valid(m) && MarksFor(m, marks) && c < |m.chambers|
  {
    exists i :: 0 <= i < Sides && Qualifies(m, marks, c, i, pass) && r == Neighbour(m, c, i) &&
      forall j :: 0 <= j < i ==> !Qualifies(m, marks, c, j, pass)
  }

  /** One `for` loop of `bestChamber`: the first qualifying slot from `from` on. */
  function Scan(m: Map, marks: seq<Mark>, c: Id, pass: Pass, from: nat): (r: Option<nat>)
    requires Valid(m) && MarksFor(m, marks) && c < |m.chambers| && from <= Sides
    ensures r.Some? ==> from <= r.value < Sides && Qualifies(m, marks, c, r.value, pass)
    ensures r.Some? ==> forall j :: from <= j < r.value ==> !Qualifies(m, marks, c, j, pass)
    ensures r.None? <==> forall j :: from <= j < Sides ==> !Qualifies(m, marks, c, j, pass)
    decreases Sides - from
  {
    if from == Sides then None
    else if Qualifies(m, marks, c, from, pass) then Some(from)
    else Scan(m, marks, c, pass, from + 1)
  }

  /** The chamber a pass selects, if any. */
  function Select(m: Map, marks: seq<Mark>, c: Id, pass: Pass): (r: Option<Id>)
    requires Valid(m) && MarksFor(m, marks) && c < |m.chambers|
    ensures HasQualifying(m, marks, c, pass) ==> LowestQualifying(m, marks, c, pass, r)
    ensures !HasQualifying(m, marks, c, pass) ==> r.None?
  {
    var i := Scan(m, marks, c, pass, 0);
    if i.Some? then Neighbour(m, c, i.value) else None
  }

  /**
    `bestChamber(c)`: an unmarked treasure neighbour if there is one, else an
    unmarked lighted one, else an unmarked dim one, each time the one in the
    lowest slot; null when no slot holds an unmarked chamber of any of the
    three kinds. It changes no mark.
   */
  function BestChamber(m: Map, marks: seq<Mark>, c: Id): (r: Option<Id>)
    requires Valid(m) && MarksFor(m, marks) && c < |m.chambers|
    ensures r.Some? ==> r.value < |m.chambers| && !IsMarked(marks, r.value)
    ensures r.Some? ==> exists i :: 0 <= i < Sides && Neighbour(m, c, i) == r
    ensures r.None? <==>
      forall i :: 0 <= i < Sides ==>
        !Qualifies(m, marks, c, i, TreasurePass) &&
        !Qualifies(m, marks, c, i, LightedPass) &&
        !Qualifies(m, marks, c, i, DimPass)
    ensures HasQualifying(m, marks, c, TreasurePass) ==>
      LowestQualifying(m, marks, c, TreasurePass, r)
    ensures !HasQualifying(m, marks, c, TreasurePass) && HasQualifying(m, marks, c, LightedPass) ==>
      LowestQualifying(m, marks, c, LightedPass, r)
    ensures !HasQualifying(m, marks, c, TreasurePass) && !HasQualifying(m, marks, c, LightedPass) &&
            HasQualifying(m, marks, c, DimPass) ==>
      LowestQualifying(m, marks, c, DimPass, r)
  {
    var t := Select(m, marks, c, TreasurePass);
    if t.Some? then t
    else
      var l := Select(m, marks, c, LightedPass);
      if l.Some? then l else Select(m, marks, c, DimPass)
  }

  // ---------------------------------------------------------------------
  // path

  /** The state the loop of `path()` carries: `pathStack` (bottom first), the chambers' marks and `nTreasureFound`. */
  datatype State = State(stack: seq<Id>, marks: seq<Mark>, found: int)

  /** The outcome of one iteration: the loop breaks, or goes round again. */
  datatype Step = Halt(state: State) | Continue(state: State)

  /** Chamber `b` is in one of the slots of chamber `a`. */
  predicate Adjacent(m: Map, a: Id, b: Id)
    requires Valid(m) && a < |m.chambers|
  {
    exists i :: 0 <= i < Sides && Neighbour(m, a, i) == Some(b)
  }

  /** No chamber is on the stack twice. */
  predicate Distinct(stack: seq<Id>) {
    forall i, j :: 0 <= i < j < |stack| ==> stack[i] != stack[j]
  }

  /** The stack is a walk through the map: each entry is a neighbour of the one below it. */
  predicate Connected(m: Map, stack: seq<Id>)
    requires Valid(m)
  {
    && (forall i :: 0 <= i < |stack| ==> stack[i] < |m.chambers|)
    && (forall i :: 0 < i < |stack| ==> Adjacent(m, stack[i - 1], stack[i]))
  }

  /** The chambers marked pushed are exactly those on the stack. */
  predicate PushedExactly(stack: seq<Id>, marks: seq<Mark>) {
    && (forall i :: 0 <= i < |stack| ==> stack[i] < |marks| && marks[stack[i]] == Pushed)
    && (forall c :: 0 <= c < |marks| && marks[c] == Pushed ==> c in stack)
  }

  /**
    The loop invariant of `path()`: the chambers on the stack are exactly the
    pushed ones, none twice; the bottom is the entrance; each entry is a
    neighbour of the one below it.
   */
  predicate PathInv(m: Map, s: State) {
    && Valid(m)
    && MarksFor(m, s.marks)
    && Distinct(s.stack)
    && Connected(m, s.stack)
    && PushedExactly(s.stack, s.marks)
    && (|s.stack| > 0 ==> s.stack[0] == m.entrance)
  }

  lemma PushDistinct(stack: seq<Id>, marks: seq<Mark>, c: Id)
    requires Distinct(stack) && PushedExactly(stack, marks) && c < |marks| && marks[c] == Unmarked
    ensures Distinct(stack + [c])
  {
  }

  lemma PushConnected(m: Map, stack: seq<Id>, c: Id)
    requires Valid(m) && Connected(m, stack) && |stack| > 0 && c < |m.chambers|
    requires Adjacent(m, stack[|stack| - 1], c)
    ensures Connected(m, stack + [c])
  {
    assert forall i :: 0 <= i < |stack| ==> (stack + [c])[i] == stack[i];
  }

  lemma PushPushed(stack: seq<Id>, marks: seq<Mark>, c: Id)
    requires PushedExactly(stack, marks) && c < |marks| && marks[c] == Unmarked
    ensures PushedExactly(stack + [c], marks[c := Pushed])
  {
    var t, tm := stack + [c], marks[c := Pushed];
    assert forall i :: 0 <= i < |stack| ==> t[i] == stack[i];
    forall x | 0 <= x < |tm| && tm[x] == Pushed
      ensures x in t
    {
      if x != c {
        var i :| 0 <= i < |stack| && stack[i] == x;
        assert t[i] == x;
      }
    }
  }

  lemma PopConnected(m: Map, stack: seq<Id>)
    requires Valid(m) && Connected(m, stack) && |stack| > 0
    ensures Connected(m, stack[..|stack| - 1])
  {
  }

  lemma PopPushed(stack: seq<Id>, marks: seq<Mark>)
    requires PushedExactly(stack, marks) && Distinct(stack) && |stack| > 0
    ensures PushedExactly(stack[..|stack| - 1], marks[stack[|stack| - 1] := Popped])
  {
    var n := |stack|;
    var top := stack[n - 1];
    var t, tm := stack[..n - 1], marks[top := Popped];
    assert forall i :: 0 <= i < n - 1 ==> stack[i] != top;
    forall x | 0 <= x < |tm| && tm[x] == Pushed
      ensures x in t
    {
      var i :| 0 <= i < n && stack[i] == x;
      assert t[i] == x;
    }
  }

  /** Each push marks an unmarked chamber and each pop shrinks the stack, so this falls on every iteration. */
  function Measure(s: State): nat {
    2 * CountUnmarked(s.marks) + |s.stack|
  }

  /** Before the loop: the entrance pushed and marked pushed, every other chamber unmarked, no treasure found. */
  function Start(m: Map): (s: State)
    requires Valid(m)
    ensures PathInv(m, s) && s.stack == [m.entrance] && s.found == 0
    ensures forall c :: 0 <= c < |m.chambers| && c != m.entrance ==> s.marks[c] == Unmarked
  {
    State([m.entrance], seq(|m.chambers|, c => if c == m.entrance then Pushed else Unmarked), 0)
  }

  /** Pushing the chamber `bestChamber` chose keeps the invariant and lowers the measure. */
  lemma PushKeepsInv(m: Map, s: State, c: Id, found: int)
    requires PathInv(m, s) && |s.stack| > 0
    requires c < |m.chambers| && !IsMarked(s.marks, c) && Adjacent(m, s.stack[|s.stack| - 1], c)
    ensures PathInv(m, State(Stack.Push(s.stack, c), s.marks[c := Pushed], found))
    ensures Measure(State(Stack.Push(s.stack, c), s.marks[c := Pushed], found)) < Measure(s)
  {
    PushDistinct(s.stack, s.marks, c);
    PushConnected(m, s.stack, c);
    PushPushed(s.stack, s.marks, c);
    CountUnmarkedUpdate(s.marks, c, Pushed);
  }

  /** Popping the top and marking it popped keeps the invariant and lowers the measure. */
  lemma PopKeepsInv(m: Map, s: State, found: int)
    requires PathInv(m, s) && |s.stack| > 0
    ensures var top := s.stack[|s.stack| - 1];
      PathInv(m, State(s.stack[..|s.stack| - 1], s.marks[top := Popped], found)) &&
      Measure(State(s.stack[..|s.stack| - 1], s.marks[top := Popped], found)) < Measure(s)
  {
    PopConnected(m, s.stack);
    PopPushed(s.stack, s.marks);
    CountUnmarkedUpdate(s.marks, s.stack[|s.stack| - 1], Popped);
  }

  /** `pathStack.push(c); c.markPushed();` */
  function PushStep(m: Map, s: State, c: Id, found: int): (t: State)
    requires PathInv(m, s) && |s.stack| > 0
    requires c < |m.chambers| && !IsMarked(s.marks, c) && Adjacent(m, s.stack[|s.stack| - 1], c)
    ensures PathInv(m, t) && Measure(t) < Measure(s) && t.found == found
    ensures t.marks == s.marks[c := Pushed]
  {
    PushKeepsInv(m, s, c, found);
    State(Stack.Push(s.stack, c), s.marks[c := Pushed], found)
  }

  /** `poppedChamber = pathStack.pop(); poppedChamber.markPopped();` */
  function PopStep(m: Map, s: State, found: int): (t: State)
    requires PathInv(m, s) && |s.stack| > 0
    ensures PathInv(m, t) && Measure(t) < Measure(s) && t.found == found
    ensures t.marks == s.marks[s.stack[|s.stack| - 1] := Popped]
  {
    var (rest, top) := Stack.Pop(s.stack).value;
    assert rest == s.stack[..|s.stack| - 1] && top == s.stack[|s.stack| - 1];
    PopKeepsInv(m, s, found);
    State(rest, s.marks[top := Popped], found)
  }

  /**
    The end of an iteration that does not break: push `next` and mark it
    pushed, or, when there is no next chamber, pop the top and mark it popped.
   */
  function Advance(m: Map, s: State, next: Option<Id>, found: int): (t: State)
    requires PathInv(m, s) && |s.stack| > 0
    requires next.Some? ==> next.value < |m.chambers| && !IsMarked(s.marks, next.value) &&
                            Adjacent(m, s.stack[|s.stack| - 1], next.value)
    ensures PathInv(m, t) && Measure(t) < Measure(s) && t.found == found
    ensures forall c :: 0 <= c < |s.marks| ==> MarkStep(s.marks[c], t.marks[c])
    ensures next.Some? ==> t.marks == s.marks[next.value := Pushed]
    ensures next.None? ==> t.marks == s.marks[s.stack[|s.stack| - 1] := Popped]
  {
    if next.Some? then PushStep(m, s, next.value, found) else PopStep(m, s, found)
  }

  /**
    One iteration of the `while` loop of `path()` as written: peek at the top,
    choose the next chamber, count the top if it is a treasure chamber,
    break if it is one and the count has reached `getNumTreasures()`,
    otherwise push the chosen chamber or, if there is none, pop the top.
   */
  function Iterate(m: Map, s: State): (r: Step)
    requires PathInv(m, s) && |s.stack| > 0
    ensures PathInv(m, r.state)
    ensures forall c :: 0 <= c < |s.marks| ==> MarkStep(s.marks[c], r.state.marks[c])
    ensures r.Continue? ==> Measure(r.state) < Measure(s)
    ensures var cur := s.stack[|s.stack| - 1];
      r.state.found == s.found + (if m.chambers[cur].treasure then 1 else 0)
    ensures r.Halt? <==> m.chambers[s.stack[|s.stack| - 1]].treasure && s.found + 1 == m.numTreasures
    ensures r.Halt? ==> r.state.stack == s.stack && r.state.marks == s.marks
  {
    var cur := Stack.Peek(s.stack).value;
    var c := BestChamber(m, s.marks, cur);
    var found := if m.chambers[cur].treasure then s.found + 1 else s.found;
    if m.chambers[cur].treasure && m.numTreasures == found then
      Halt(s.(found := found))
    else
      Continue(Advance(m, s, c, found))
  }

  /**
    `path()`: the walk from the entrance. It ends with an empty stack, or with
    a treasure chamber on top and `nTreasureFound == getNumTreasures()`; the
    stack it returns is a path of neighbouring chambers from the entrance,
    no chamber twice, and exactly the chambers marked pushed.
   */
  method Path(m: Map) returns (path: seq<Id>, marks: seq<Mark>, found: int)
    requires Valid(m)
    ensures |marks| == |m.chambers|
    ensures Connected(m, path) && Distinct(path) && PushedExactly(path, marks)
    ensures path != [] ==> path[0] == m.entrance
    ensures path == [] || (m.chambers[path[|path| - 1]].treasure && found == m.numTreasures)
  {
    var s := Start(m);
    while |s.stack| > 0
      invariant PathInv(m, s)
      decreases Measure(s)
    {
      match Iterate(m, s)
      case Halt(t) =>
        s := t;
        break;
      case Continue(t) =>
        s := t;
    }
    path, marks, found := s.stack, s.marks, s.found;
  }

  // ---------------------------------------------------------------------
  // Counting each treasure chamber once

  /** The treasure chambers the walk has reached: those no longer unmarked. */
  function TreasuresReached(m: Map, marks: seq<Mark>): set<Id>
    requires MarksFor(m, marks)
  {
    set c | 0 <= c < |marks| && marks[c] != Unmarked && m.chambers[c].treasure
  }

  /** Marking a chamber adds it to the reached treasures when it is an unmarked treasure chamber. */
  lemma TreasuresReachedUpdate(m: Map, marks: seq<Mark>, c: Id, b: Mark)
    requires MarksFor(m, marks) && c < |marks| && b != Unmarked
    ensures |TreasuresReached(m, marks[c := b])| ==
            |TreasuresReached(m, marks)| + (if marks[c] == Unmarked && m.chambers[c].treasure then 1 else 0)
  {
    var before, after := TreasuresReached(m, marks), TreasuresReached(m, marks[c := b]);
    if marks[c] == Unmarked && m.chambers[c].treasure {
      assert after == before + {c};
    } else {
      assert after == before;
    }
  }

  /** The start of the corrected walk: the entrance counts if it is a treasure chamber. */
  function StartDistinct(m: Map): (s: State)
    requires Valid(m)
    ensures PathInv(m, s) && s.stack == [m.entrance]
    ensures s.found == |TreasuresReached(m, s.marks)|
  {
    var s := Start(m);
    assert TreasuresReached(m, s.marks) == if m.chambers[m.entrance].treasure then {m.entrance} else {};
    s.(found := if m.chambers[m.entrance].treasure then 1 else 0)
  }

  /** Push `c`, counting it if it is a treasure chamber: the count stays that of the treasure chambers reached. */
  function PushCounted(m: Map, s: State, c: Id): (t: State)
    requires PathInv(m, s) && |s.stack| > 0 && s.found == |TreasuresReached(m, s.marks)|
    requires c < |m.chambers| && !IsMarked(s.marks, c) && Adjacent(m, s.stack[|s.stack| - 1], c)
    ensures PathInv(m, t) && Measure(t) < Measure(s) && t.found == |TreasuresReached(m, t.marks)|
    ensures forall x :: 0 <= x < |s.marks| ==> MarkStep(s.marks[x], t.marks[x])
  {
    TreasuresReachedUpdate(m, s.marks, c, Pushed);
    Advance(m, s, Some(c), if m.chambers[c].treasure then s.found + 1 else s.found)
  }

  /** Pop the top; the count is unchanged, since the top was counted when pushed. */
  function PopCounted(m: Map, s: State): (t: State)
    requires PathInv(m, s) && |s.stack| > 0 && s.found == |TreasuresReached(m, s.marks)|
    ensures PathInv(m, t) && Measure(t) < Measure(s) && t.found == |TreasuresReached(m, t.marks)|
    ensures forall x :: 0 <= x < |s.marks| ==> MarkStep(s.marks[x], t.marks[x])
  {
    TreasuresReachedUpdate(m, s.marks, s.stack[|s.stack| - 1], Popped);
    Advance(m, s, None, s.found)
  }

  /**
    One iteration with `nTreasureFound` counting each treasure chamber once,
    when it is pushed: the loop breaks when the top is a treasure chamber and
    every treasure chamber of the map has been reached.
   */
  function IterateDistinct(m: Map, s: State): (r: Step)
    requires PathInv(m, s) && |s.stack| > 0
    requires s.found == |TreasuresReached(m, s.marks)|
    ensures PathInv(m, r.state)
    ensures r.state.found == |TreasuresReached(m, r.state.marks)|
    ensures forall c :: 0 <= c < |s.marks| ==> MarkStep(s.marks[c], r.state.marks[c])
    ensures r.Continue? ==> Measure(r.state) < Measure(s)
    ensures r.Halt? <==> m.chambers[s.stack[|s.stack| - 1]].treasure && |TreasuresReached(m, s.marks)| == m.numTreasures
    ensures r.Halt? ==> r.state == s
  {
    var cur := Stack.Peek(s.stack).value;
    var c := BestChamber(m, s.marks, cur);
    if m.chambers[cur].treasure && m.numTreasures == s.found then
      Halt(s)
    else if c.Some? then
      Continue(PushCounted(m, s, c.value))
    else
      Continue(PopCounted(m, s))
  }

  /**
    `path()` with the corrected count: when it stops with a non-empty stack,
    the top is a treasure chamber and the number of distinct treasure
    chambers reached is `getNumTreasures()`.
   */
  method PathDistinct(m: Map) returns (path: seq<Id>, marks: seq<Mark>, found: int)
    requires Valid(m)
    ensures |marks| == |m.chambers|
    ensures Connected(m, path) && Distinct(path) && PushedExactly(path, marks)
    ensures path != [] ==> path[0] == m.entrance
    ensures found == |TreasuresReached(m, marks)|
    ensures path == [] || (m.chambers[path[|path| - 1]].treasure && found == m.numTreasures)
  {
    var s := StartDistinct(m);
    while |s.stack| > 0
      invariant PathInv(m, s)
      invariant s.found == |TreasuresReached(m, s.marks)|
      decreases Measure(s)
    {
      match IterateDistinct(m, s)
      case Halt(t) =>
        s := t;
        break;
      case Continue(t) =>
        s := t;
    }
    path, marks, found := s.stack, s.marks, s.found;
  }

  // ---------------------------------------------------------------------
  // Concrete maps

  /** An iteration that does not break and finds a next chamber pushes it. */
  lemma IterateAdvances(m: Map, s: State, c: Id)
    requires PathInv(m, s) && |s.stack| > 0
    requires BestChamber(m, s.marks, s.stack[|s.stack| - 1]) == Some(c)
    requires !m.chambers[s.stack[|s.stack| - 1]].treasure || s.found + 1 != m.numTreasures
    ensures Iterate(m, s) ==
      Continue(State(s.stack + [c], s.marks[c := Pushed],
                     s.found + if m.chambers[s.stack[|s.stack| - 1]].treasure then 1 else 0))
  {
  }

  /** An iteration that does not break and finds no next chamber pops the top. */
  lemma IterateBacktracks(m: Map, s: State)
    requires PathInv(m, s) && |s.stack| > 0
    requires BestChamber(m, s.marks, s.stack[|s.stack| - 1]) == None
    requires !m.chambers[s.stack[|s.stack| - 1]].treasure || s.found + 1 != m.numTreasures
    ensures Iterate(m, s) ==
      Continue(State(s.stack[..|s.stack| - 1], s.marks[s.stack[|s.stack| - 1] := Popped],
                     s.found + if m.chambers[s.stack[|s.stack| - 1]].treasure then 1 else 0))
  {
  }

  lemma IterateDistinctAdvances(m: Map, s: State, c: Id)
    requires PathInv(m, s) && |s.stack| > 0 && s.found == |TreasuresReached(m, s.marks)|
    requires BestChamber(m, s.marks, s.stack[|s.stack| - 1]) == Some(c)
    requires !m.chambers[s.stack[|s.stack| - 1]].treasure || s.found != m.numTreasures
    ensures IterateDistinct(m, s) ==
      Continue(State(s.stack + [c], s.marks[c := Pushed],
                     s.found + if m.chambers[c].treasure then 1 else 0))
  {
    var t := PushCounted(m, s, c);
    assert IterateDistinct(m, s) == Continue(t);
    assert t == Advance(m, s, Some(c), s.found + if m.chambers[c].treasure then 1 else 0);
  }

  lemma IterateDistinctBacktracks(m: Map, s: State)
    requires PathInv(m, s) && |s.stack| > 0 && s.found == |TreasuresReached(m, s.marks)|
    requires BestChamber(m, s.marks, s.stack[|s.stack| - 1]) == None
    requires !m.chambers[s.stack[|s.stack| - 1]].treasure || s.found != m.numTreasures
    ensures IterateDistinct(m, s) ==
      Continue(State(s.stack[..|s.stack| - 1], s.marks[s.stack[|s.stack| - 1] := Popped], s.found))
  {
  }

  /**
    When slot `i` is the only occupied slot of `c`, `bestChamber` picks its
    chamber if that is unmarked and lighted, and nothing if it is marked.
   */
  lemma SoleNeighbour(m: Map, marks: seq<Mark>, c: Id, i: nat)
    requires Valid(m) && MarksFor(m, marks) && c < |m.chambers| && i < Sides
    requires forall j :: 0 <= j < Sides && j != i ==> Neighbour(m, c, j).None?
    ensures Neighbour(m, c, i).Some? && !IsMarked(marks, Neighbour(m, c, i).value) &&
            m.chambers[Neighbour(m, c, i).value].lighted ==>
            BestChamber(m, marks, c) == Neighbour(m, c, i)
    ensures Neighbour(m, c, i).None? || IsMarked(marks, Neighbour(m, c, i).value) ==>
            BestChamber(m, marks, c) == None
  {
    var r := BestChamber(m, marks, c);
    if r.Some? {
      var k :| 0 <= k < Sides && Neighbour(m, c, k) == r;
      assert k == i;
    }
    if Neighbour(m, c, i).Some? && !IsMarked(marks, Neighbour(m, c, i).value) &&
       m.chambers[Neighbour(m, c, i).value].lighted {
      assert Qualifies(m, marks, c, i, LightedPass);
    }
  }

  /** The sequence updates the concrete walks below go through. */
  lemma WalkUpdates()
    ensures [0] + [1] == [0, 1]
    ensures [Pushed, Unmarked, Unmarked][1 := Pushed] == [Pushed, Pushed, Unmarked]
    ensures [0, 1][..1] == [0]
    ensures [Pushed, Pushed, Unmarked][1 := Popped] == [Pushed, Popped, Unmarked]
    ensures [0][..0] == []
    ensures [Pushed, Popped, Unmarked][0 := Popped] == [Popped, Popped, Unmarked]
    ensures [Pushed, Unmarked][1 := Pushed] == [Pushed, Pushed]
    ensures [Pushed, Pushed][1 := Popped] == [Pushed, Popped]
    ensures [Pushed, Popped][0 := Popped] == [Popped, Popped]
  {
  }

  const NoNeighbours: seq<Option<Id>> := [None, None, None, None, None, None]

  /**
    The entrance 0 is a lighted treasure chamber whose slot 0 leads to the
    lighted dead end 1, which leads back through its slot 3; chamber 2 is a
    treasure chamber nothing leads to. The map declares two treasure chambers.
   */
  predicate OvercountShape(m: Map) {
    && |m.chambers| == 3 && m.entrance == 0 && m.numTreasures == 2
    && m.chambers[0] == Chamber([Some(1), None, None, None, None, None], false, true, true)
    && m.chambers[1] == Chamber([None, None, None, Some(0), None, None], false, true, false)
    && m.chambers[2] == Chamber(NoNeighbours, false, false, true)
  }

  /** A map of that shape. */
  function OvercountMap(): (m: Map)
    ensures OvercountShape(m) && Valid(m)
  {
    Map([Chamber([Some(1), None, None, None, None, None], false, true, true),
         Chamber([None, None, None, Some(0), None, None], false, true, false),
         Chamber(NoNeighbours, false, false, true)], 0, 2)
  }

  lemma OvercountValid(m: Map)
    requires OvercountShape(m)
    ensures Valid(m)
  {
    assert forall c :: 0 <= c < 3 ==>
      m.chambers[c].neighbours in {[Some(1), None, None, None, None, None], [None, None, None, Some(0), None, None], NoNeighbours};
  }

  lemma OvercountChoices(m: Map)
    requires OvercountShape(m)
    ensures Valid(m)
    ensures BestChamber(m, [Pushed, Unmarked, Unmarked], 0) == Some(1)
    ensures BestChamber(m, [Pushed, Pushed, Unmarked], 1) == None
    ensures BestChamber(m, [Pushed, Popped, Unmarked], 0) == None
  {
    OvercountValid(m);
    SoleNeighbour(m, [Pushed, Unmarked, Unmarked], 0, 0);
    SoleNeighbour(m, [Pushed, Pushed, Unmarked], 1, 3);
    SoleNeighbour(m, [Pushed, Popped, Unmarked], 0, 0);
  }

  lemma OvercountStart(m: Map)
    requires OvercountShape(m)
    ensures Valid(m)
    ensures Start(m) == State([0], [Pushed, Unmarked, Unmarked], 0)
    ensures TreasuresReached(m, [Pushed, Unmarked, Unmarked]) == {0}
    ensures TreasuresReached(m, [Pushed, Pushed, Unmarked]) == {0}
    ensures TreasuresReached(m, [Pushed, Popped, Unmarked]) == {0}
    ensures |TreasuresReached(m, [Pushed, Popped, Unmarked])| == 1
  {
    OvercountValid(m);
    assert Start(m).marks == [Pushed, Unmarked, Unmarked];
  }

  lemma OvercountFirst(m: Map)
    requires OvercountShape(m)
    ensures Valid(m) && PathInv(m, State([0], [Pushed, Unmarked, Unmarked], 0))
    ensures Iterate(m, State([0], [Pushed, Unmarked, Unmarked], 0)) ==
            Continue(State([0, 1], [Pushed, Pushed, Unmarked], 1))
    ensures PathInv(m, State([0, 1], [Pushed, Pushed, Unmarked], 1))
  {
    WalkUpdates();
    OvercountStart(m);
    OvercountChoices(m);
    IterateAdvances(m, State([0], [Pushed, Unmarked, Unmarked], 0), 1);
  }

  lemma OvercountSecond(m: Map)
    requires OvercountShape(m)
    ensures Valid(m) && PathInv(m, State([0, 1], [Pushed, Pushed, Unmarked], 1))
    ensures Iterate(m, State([0, 1], [Pushed, Pushed, Unmarked], 1)) ==
            Continue(State([0], [Pushed, Popped, Unmarked], 1))
    ensures PathInv(m, State([0], [Pushed, Popped, Unmarked], 1))
  {
    WalkUpdates();
    OvercountFirst(m);
    OvercountChoices(m);
    IterateBacktracks(m, State([0, 1], [Pushed, Pushed, Unmarked], 1));
  }

  lemma OvercountThird(m: Map)
    requires OvercountShape(m)
    ensures Valid(m) && PathInv(m, State([0], [Pushed, Popped, Unmarked], 1))
    ensures Iterate(m, State([0], [Pushed, Popped, Unmarked], 1)) ==
            Halt(State([0], [Pushed, Popped, Unmarked], 2))
  {
    OvercountSecond(m);
  }

  /**
    On a map of `OvercountShape`, `path()` as written counts the entrance
    twice (before and after visiting the dead end) and breaks with the
    entrance on top and `nTreasureFound == 2`, though only one treasure
    chamber was reached.
   */
  lemma OvercountHalts(m: Map)
    requires OvercountShape(m)
    ensures Valid(m) && Start(m) == State([0], [Pushed, Unmarked, Unmarked], 0)
    ensures Iterate(m, State([0], [Pushed, Unmarked, Unmarked], 0)) ==
            Continue(State([0, 1], [Pushed, Pushed, Unmarked], 1))
    ensures Iterate(m, State([0, 1], [Pushed, Pushed, Unmarked], 1)) ==
            Continue(State([0], [Pushed, Popped, Unmarked], 1))
    ensures Iterate(m, State([0], [Pushed, Popped, Unmarked], 1)) ==
            Halt(State([0], [Pushed, Popped, Unmarked], 2))
    ensures |TreasuresReached(m, [Pushed, Popped, Unmarked])| == 1 < m.numTreasures
  {
    OvercountStart(m);
    OvercountFirst(m);
    OvercountSecond(m);
    OvercountThird(m);
  }

  lemma DistinctFirst(m: Map)
    requires OvercountShape(m)
    ensures Valid(m) && StartDistinct(m) == State([0], [Pushed, Unmarked, Unmarked], 1)
    ensures PathInv(m, State([0], [Pushed, Unmarked, Unmarked], 1))
    ensures |TreasuresReached(m, [Pushed, Unmarked, Unmarked])| == 1
    ensures IterateDistinct(m, State([0], [Pushed, Unmarked, Unmarked], 1)) ==
            Continue(State([0, 1], [Pushed, Pushed, Unmarked], 1))
    ensures PathInv(m, State([0, 1], [Pushed, Pushed, Unmarked], 1))
  {
    WalkUpdates();
    OvercountStart(m);
    OvercountChoices(m);
    IterateDistinctAdvances(m, State([0], [Pushed, Unmarked, Unmarked], 1), 1);
  }

  lemma DistinctSecond(m: Map)
    requires OvercountShape(m)
    ensures Valid(m) && PathInv(m, State([0, 1], [Pushed, Pushed, Unmarked], 1))
    ensures |TreasuresReached(m, [Pushed, Pushed, Unmarked])| == 1
    ensures IterateDistinct(m, State([0, 1], [Pushed, Pushed, Unmarked], 1)) ==
            Continue(State([0], [Pushed, Popped, Unmarked], 1))
    ensures PathInv(m, State([0], [Pushed, Popped, Unmarked], 1))
  {
    WalkUpdates();
    DistinctFirst(m);
    OvercountStart(m);
    OvercountChoices(m);
    IterateDistinctBacktracks(m, State([0, 1], [Pushed, Pushed, Unmarked], 1));
  }

  lemma DistinctThird(m: Map)
    requires OvercountShape(m)
    ensures Valid(m) && PathInv(m, State([0], [Pushed, Popped, Unmarked], 1))
    ensures |TreasuresReached(m, [Pushed, Popped, Unmarked])| == 1
    ensures IterateDistinct(m, State([0], [Pushed, Popped, Unmarked], 1)) ==
            Continue(State([], [Popped, Popped, Unmarked], 1))
  {
    WalkUpdates();
    DistinctSecond(m);
    OvercountStart(m);
    OvercountChoices(m);
    IterateDistinctBacktracks(m, State([0], [Pushed, Popped, Unmarked], 1));
  }

  /**
    On the same maps the corrected count does not break at the entrance: the
    walk backtracks out of the entrance and ends with an empty stack, the
    second treasure chamber being unreachable.
   */
  lemma DistinctExhausts(m: Map)
    requires OvercountShape(m)
    ensures Valid(m) && StartDistinct(m) == State([0], [Pushed, Unmarked, Unmarked], 1)
    ensures IterateDistinct(m, State([0], [Pushed, Unmarked, Unmarked], 1)) ==
            Continue(State([0, 1], [Pushed, Pushed, Unmarked], 1))
    ensures IterateDistinct(m, State([0, 1], [Pushed, Pushed, Unmarked], 1)) ==
            Continue(State([0], [Pushed, Popped, Unmarked], 1))
    ensures IterateDistinct(m, State([0], [Pushed, Popped, Unmarked], 1)) ==
            Continue(State([], [Popped, Popped, Unmarked], 1))
  {
    DistinctFirst(m);
    DistinctSecond(m);
    DistinctThird(m);
  }

  /**
    `isDim` does not ask whether the lighted neighbour is sealed: a chamber
    whose only lighted neighbour is sealed is dim.
   */
  lemma DimBesideSealedLight(m: Map)
    requires |m.chambers| == 2 && m.entrance == 0
    requires m.chambers[0] == Chamber([Some(1), None, None, None, None, None], false, false, false)
    requires m.chambers[1] == Chamber([None, None, None, Some(0), None, None], true, true, false)
    ensures Valid(m) && m.chambers[1].sealed && IsDim(m, Some(0))
  {
    assert forall c :: 0 <= c < 2 ==>
      m.chambers[c].neighbours in {[Some(1), None, None, None, None, None], [None, None, None, Some(0), None, None]};
    assert LightedAt(m, 0, 0);
  }

  /**
    Two chambers: a lighted entrance whose slot 0 leads to a lighted chamber,
    which leads back through its slot 3; one treasure declared. `treasure`
    says whether the second chamber is the treasure chamber.
   */
  predicate PairShape(m: Map, treasure: bool) {
    && |m.chambers| == 2 && m.entrance == 0 && m.numTreasures == 1
    && m.chambers[0] == Chamber([Some(1), None, None, None, None, None], false, true, false)
    && m.chambers[1] == Chamber([None, None, None, Some(0), None, None], false, true, treasure)
  }

  lemma PairChoices(m: Map, treasure: bool)
    requires PairShape(m, treasure)
    ensures Valid(m) && Start(m) == State([0], [Pushed, Unmarked], 0)
    ensures BestChamber(m, [Pushed, Unmarked], 0) == Some(1)
    ensures BestChamber(m, [Pushed, Pushed], 1) == None
    ensures BestChamber(m, [Pushed, Popped], 0) == None
  {
    assert forall c :: 0 <= c < 2 ==>
      m.chambers[c].neighbours in {[Some(1), None, None, None, None, None], [None, None, None, Some(0), None, None]};
    assert Start(m).marks == [Pushed, Unmarked];
    SoleNeighbour(m, [Pushed, Unmarked], 0, 0);
    SoleNeighbour(m, [Pushed, Pushed], 1, 3);
    SoleNeighbour(m, [Pushed, Popped], 0, 0);
  }

  lemma PairFirst(m: Map, treasure: bool)
    requires PairShape(m, treasure)
    ensures Valid(m) && PathInv(m, State([0], [Pushed, Unmarked], 0))
    ensures Iterate(m, State([0], [Pushed, Unmarked], 0)) ==
            Continue(State([0, 1], [Pushed, Pushed], 0))
    ensures PathInv(m, State([0, 1], [Pushed, Pushed], 0))
  {
    WalkUpdates();
    PairChoices(m, treasure);
    IterateAdvances(m, State([0], [Pushed, Unmarked], 0), 1);
  }

  /**
    With the treasure behind the entrance the walk steps onto it and breaks
    there without backtracking: the path is the entrance, then the treasure.
   */
  lemma PairFindsTreasure(m: Map)
    requires PairShape(m, true)
    ensures Valid(m) && Start(m) == State([0], [Pushed, Unmarked], 0)
    ensures Iterate(m, State([0], [Pushed, Unmarked], 0)) ==
            Continue(State([0, 1], [Pushed, Pushed], 0))
    ensures Iterate(m, State([0, 1], [Pushed, Pushed], 0)) ==
            Halt(State([0, 1], [Pushed, Pushed], 1))
  {
    PairChoices(m, true);
    PairFirst(m, true);
  }

  lemma PairSecond(m: Map)
    requires PairShape(m, false)
    ensures Valid(m) && PathInv(m, State([0, 1], [Pushed, Pushed], 0))
    ensures Iterate(m, State([0, 1], [Pushed, Pushed], 0)) ==
            Continue(State([0], [Pushed, Popped], 0))
    ensures PathInv(m, State([0], [Pushed, Popped], 0))
  {
    WalkUpdates();
    PairChoices(m, false);
    PairFirst(m, false);
    IterateBacktracks(m, State([0, 1], [Pushed, Pushed], 0));
  }

  lemma PairThird(m: Map)
    requires PairShape(m, false)
    ensures Valid(m) && PathInv(m, State([0], [Pushed, Popped], 0))
    ensures Iterate(m, State([0], [Pushed, Popped], 0)) ==
            Continue(State([], [Popped, Popped], 0))
  {
    WalkUpdates();
    PairChoices(m, false);
    PairSecond(m);
    IterateBacktracks(m, State([0], [Pushed, Popped], 0));
  }

  /**
    With a plain dead end behind the entrance the walk goes in, pops the dead
    end, pops the entrance and ends with an empty stack, never revisiting
    the dead end.
   */
  lemma PairBacktracks(m: Map)
    requires PairShape(m, false)
    ensures Valid(m) && Start(m) == State([0], [Pushed, Unmarked], 0)
    ensures Iterate(m, State([0], [Pushed, Unmarked], 0)) ==
            Continue(State([0, 1], [Pushed, Pushed], 0))
    ensures Iterate(m, State([0, 1], [Pushed, Pushed], 0)) ==
            Continue(State([0], [Pushed, Popped], 0))
    ensures Iterate(m, State([0], [Pushed, Popped], 0)) ==
            Continue(State([], [Popped, Popped], 0))
  {
    PairChoices(m, false);
    PairFirst(m, false);
    PairSecond(m);
    PairThird(m);
  }
}
