/**
 * `reconcileChildren`: the positional diff of a fiber's previous children
 * (the sibling chain under its `alternate`) against its new child elements.
 * `ReconcileLoop` follows the program's loop step by step; the lemmas state
 * what the whole loop leaves behind.
 */
module Reconcile {
  import opened Wrappers
  import opened Elements
  import opened Fibers

  function Min(x: int, y: int): int { if x <= y then x else y }
  function Max(x: int, y: int): int { if x >= y then x else y }

  /** `wipFiber.alternate && wipFiber.alternate.child`: the first old child. */
  function OldStart(a: Arena, wip: Id): (r: Option<Id>)
    requires Linked(a) && wip in a.fibers
    ensures Points(a, r)
  {
    match a.fibers[wip].alternate
    case None => None
    case Some(alt) =>
      LinkedAt(a, wip);
      LinkedAt(a, alt);
      a.fibers[alt].child
  }

  /** The old child chain the loop walks. */
  function OldChain(a: Arena, wip: Id): seq<Id>
    requires Linked(a) && wip in a.fibers
  {
    Chain(a, OldStart(a, wip))
  }

  /** The `UPDATE` fiber built from the old fiber `oldFiber` and the element `e`. */
  function UpdateFiber(a: Arena, oldFiber: Id, e: Element, wip: Id): Fiber
    requires oldFiber in a.fibers
  {
    var f := a.fibers[oldFiber];
    Fiber(f.ftype, e.props, f.dom, Some(wip), None, None, Some(oldFiber), Some(Update))
  }

  /** The `PLACEMENT` fiber built from the element `e`. */
  function PlacementFiber(e: Element, wip: Id): Fiber {
    Fiber(Some(e.etype), e.props, None, Some(wip), None, None, None, Some(Placement))
  }

  /** The loop's variables: `index`, `oldFiber`, `prevSibling`, and the arena and deletions it mutates. */
  datatype LoopState = LoopState(arena: Arena, index: nat, oldFiber: Option<Id>, prevSibling: Option<Id>, deletions: seq<Id>)

  /** What holds of the loop variables at the top of every iteration. */
  predicate LoopOk(s: LoopState, wip: Id, elements: seq<Element>) {
    && Linked(s.arena) && wip in s.arena.fibers
    && Points(s.arena, s.oldFiber) && Points(s.arena, s.prevSibling)
    && (0 < s.index <= |elements| ==> s.prevSibling.Some?)
  }

  /** The loop condition `index < elements.length || oldFiber != null`. */
  predicate Continues(s: LoopState, elements: seq<Element>) {
    s.index < |elements| || s.oldFiber.Some?
  }

  /** The facts of `Linked` that one iteration relies on. */
  lemma LoopFacts(s: LoopState, wip: Id, elements: seq<Element>)
    requires LoopOk(s, wip, elements)
    ensures wip < s.arena.next
    ensures s.oldFiber.Some? ==> LinksOk(s.arena, s.oldFiber.value, s.arena.fibers[s.oldFiber.value])
    ensures s.prevSibling.Some? ==> s.prevSibling.value < s.arena.next
  {
    LinkedAt(s.arena, wip);
    if s.oldFiber.Some? {
      LinkedAt(s.arena, s.oldFiber.value);
    }
    if s.prevSibling.Some? {
      LinkedAt(s.arena, s.prevSibling.value);
    }
  }

  /** One execution of the loop body. */
  function LoopBody(s: LoopState, wip: Id, elements: seq<Element>): (t: LoopState)
    requires LoopOk(s, wip, elements) && Continues(s, elements)
    ensures LoopOk(t, wip, elements) && t.index == s.index + 1
    ensures Rewires(s.arena, t.arena) && s.arena.next <= t.arena.next
    ensures forall d :: d in t.deletions ==> d in s.deletions || d in s.arena.fibers
    ensures |s.deletions| <= |t.deletions| && t.deletions[..|s.deletions|] == s.deletions
    ensures s.index >= |elements| ==>
              t.arena.next == s.arena.next && Rank(t.arena, t.oldFiber) < Rank(s.arena, s.oldFiber)
  {
    LoopFacts(s, wip, elements);
    var a := s.arena;
    var index := s.index;
    var oldFiber := s.oldFiber;
    var element: Option<Element> := if index < |elements| then Some(elements[index]) else None;
    var sameType := oldFiber.Some? && element.Some? && a.fibers[oldFiber.value].ftype == Some(element.value.etype);
    var a1 :=
      if sameType then Alloc(a, UpdateFiber(a, oldFiber.value, element.value, wip))
      else if element.Some? then Alloc(a, PlacementFiber(element.value, wip))
      else a;
    var newFiber: Option<Id> := if element.Some? then Some(a.next) else None;
    var a2 := if oldFiber.Some? && !sameType then SetTag(a1, oldFiber.value, Deletion) else a1;
    var dels2 := if oldFiber.Some? && !sameType then s.deletions + [oldFiber.value] else s.deletions;
    var nextOld := if oldFiber.Some? then a2.fibers[oldFiber.value].sibling else None;
    var a3 :=
      if index == 0 then SetChild(a2, wip, newFiber)
      else if element.Some? then SetSibling(a2, s.prevSibling.value, newFiber)
      else a2;
    assert Rewires(a, a1) && Rewires(a1, a2) && Rewires(a2, a3) by {
      forall id | id in a.fibers ensures SameCore(a.fibers[id], a.fibers[id]) {}
      forall id | id in a1.fibers ensures SameCore(a1.fibers[id], a1.fibers[id]) {}
      forall id | id in a2.fibers ensures SameCore(a2.fibers[id], a2.fibers[id]) {}
    }
    RewiresTrans(a, a1, a2);
    RewiresTrans(a, a2, a3);
    LoopState(a3, index + 1, nextOld, newFiber, dels2)
  }

  /** The `while` loop, run from the state `s` until its condition fails. */
  function ReconcileLoop(s: LoopState, wip: Id, elements: seq<Element>): (r: LoopState)
    requires LoopOk(s, wip, elements)
    ensures Linked(r.arena) && !Continues(r, elements)
    ensures Rewires(s.arena, r.arena) && s.arena.next <= r.arena.next
    ensures forall d :: d in r.deletions ==> d in s.deletions || d in r.arena.fibers
    ensures |s.deletions| <= |r.deletions| && r.deletions[..|s.deletions|] == s.deletions
    decreases (if s.index < |elements| then |elements| - s.index else 0), Rank(s.arena, s.oldFiber)
  {
    if !Continues(s, elements) then s
    else
      var t := LoopBody(s, wip, elements);
      var r := ReconcileLoop(t, wip, elements);
      assert r.deletions[..|s.deletions|] == r.deletions[..|t.deletions|][..|s.deletions|];
      RewiresTrans(s.arena, t.arena, r.arena);
      r
  }

  /** `reconcileChildren(wipFiber, elements)`, appending to the pass's `deletions` list. */
  function ReconcileChildren(a: Arena, wip: Id, elements: seq<Element>, dels: seq<Id>): (r: LoopState)
    requires Linked(a) && wip in a.fibers
    ensures Linked(r.arena)
    ensures Rewires(a, r.arena) && a.next <= r.arena.next
    ensures forall d :: d in r.deletions ==> d in dels || d in r.arena.fibers
    ensures |dels| <= |r.deletions| && r.deletions[..|dels|] == dels
  {
    ReconcileLoop(LoopState(a, 0, OldStart(a, wip), None, dels), wip, elements)
  }
}
