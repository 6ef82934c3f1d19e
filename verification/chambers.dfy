/**
  The map the path finder walks: a finite graph of hexagonal chambers.
  Chambers are named by their index in `chambers`; each has six neighbour
  slots (absent where a slot is `None`), three flags, and, kept apart
  because it is the only state the traversal changes, a mark.
 */
module Chambers {
  import opened Wrappers

  type Id = nat

  /** A chamber has six sides, slots 0 to 5. */
  const Sides: nat := 6

  datatype Chamber = Chamber(neighbours: seq<Option<Id>>, sealed: bool, lighted: bool, treasure: bool)

  /** The map: its chambers, the entrance and the number of treasure chambers it declares. */
  datatype Map = Map(chambers: seq<Chamber>, entrance: Id, numTreasures: int)

  /** A chamber's mark, which only moves forward: unmarked, then pushed, then popped. */
  datatype Mark = Unmarked | Pushed | Popped

  /** Every chamber has six slots and every neighbour is a chamber of the map. */
  predicate Valid(m: Map) {
    && m.entrance < |m.chambers|
    && forall c :: 0 <= c < |m.chambers| ==>
         |m.chambers[c].neighbours| == Sides &&
         forall i :: 0 <= i < Sides ==>
           m.chambers[c].neighbours[i].None? || m.chambers[c].neighbours[i].value < |m.chambers|
  }

  /** `getNeighbour(i)`. */
  function Neighbour(m: Map, c: Id, i: nat): (r: Option<Id>)
    requires Valid(m) && c < |m.chambers| && i < Sides
    ensures r.Some? ==> r.value < |m.chambers|
  {
    m.chambers[c].neighbours[i]
  }

  /** Marks for every chamber of the map. */
  predicate MarksFor(m: Map, marks: seq<Mark>) {
    |marks| == |m.chambers|
  }

  /** `isMarked()`: pushed or popped. */
  predicate IsMarked(marks: seq<Mark>, c: Id)
    requires c < |marks|
  {
    marks[c] != Unmarked
  }

  /** A legal change of one mark: none, unmarked to pushed, or pushed to popped. */
  predicate MarkStep(a: Mark, b: Mark) {
    a == b || (a == Unmarked && b == Pushed) || (a == Pushed && b == Popped)
  }

  /** The number of chambers still unmarked. */
  function CountUnmarked(marks: seq<Mark>): nat {
    multiset(marks)[Unmarked]
  }

  /** Marking an unmarked chamber lowers the count by one; re-marking a marked one leaves it unchanged. */
  lemma CountUnmarkedUpdate(marks: seq<Mark>, c: Id, b: Mark)
    requires c < |marks| && b != Unmarked
    ensures CountUnmarked(marks[c := b]) == CountUnmarked(marks) - (if marks[c] == Unmarked then 1 else 0)
  {
    assert multiset(marks[c := b]) == multiset(marks) - multiset{marks[c]} + multiset{b};
  }
}
