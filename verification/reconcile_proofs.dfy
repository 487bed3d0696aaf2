/**
 * What `reconcileChildren` leaves behind, stated per position against the
 * old child chain `O` and the element list `E`: one new fiber per element,
 * `UPDATE` where the old fiber at that position has the element's type and
 * `PLACEMENT` otherwise, and every old fiber without a same-type element
 * tagged `DELETION` and appended to the deletions list.
 */
module ReconcileProofs {
  import opened Wrappers
  import opened Elements
  import opened Fibers
  import opened Reconcile

  /** The hypotheses of the lemmas: a well-linked arena, and a work-in-progress fiber outside its old chain. */
  ghost predicate Setting(a0: Arena, wip: Id) {
    Linked(a0) && wip in a0.fibers && wip !in OldChain(a0, wip)
  }

  /** Position `k` keeps its old fiber: both exist and the types agree. */
  ghost predicate Same(a0: Arena, O: seq<Id>, E: seq<Element>, k: int)
    requires forall j :: 0 <= j < |O| ==> O[j] in a0.fibers
  {
    0 <= k < |E| && k < |O| && a0.fibers[O[k]].ftype == Some(E[k].etype)
  }

  /** The old fibers among the first `i` positions that have no same-type element, in order. */
  ghost function Doomed(a0: Arena, O: seq<Id>, E: seq<Element>, i: nat): seq<Id>
    requires forall j :: 0 <= j < |O| ==> O[j] in a0.fibers
    requires i <= |O|
  {
    if i == 0 then []
    else Doomed(a0, O, E, i - 1) + (if !Same(a0, O, E, i - 1) then [O[i - 1]] else [])
  }

  lemma {:induction false} DoomedMembers(a0: Arena, O: seq<Id>, E: seq<Element>, i: nat, x: Id)
    requires forall j :: 0 <= j < |O| ==> O[j] in a0.fibers
    requires i <= |O|
    ensures x in Doomed(a0, O, E, i) <==> exists k :: 0 <= k < i && !Same(a0, O, E, k) && x == O[k]
  {
    if i > 0 {
      DoomedMembers(a0, O, E, i - 1, x);
    }
  }

  /** The fiber made for element `k`, with sibling `sib`. */
  ghost function NewAt(a0: Arena, wip: Id, O: seq<Id>, E: seq<Element>, k: nat, sib: Option<Id>): Fiber
    requires forall j :: 0 <= j < |O| ==> O[j] in a0.fibers
    requires k < |E|
  {
    if Same(a0, O, E, k) then
      Fiber(a0.fibers[O[k]].ftype, E[k].props, a0.fibers[O[k]].dom, Some(wip), None, sib, Some(O[k]), Some(Update))
    else
      Fiber(Some(E[k].etype), E[k].props, None, Some(wip), None, sib, None, Some(Placement))
  }

  /** The sibling of new fiber `k` once `i` iterations have run. */
  function SibAfter(b: nat, n: nat, i: nat, k: nat): Option<Id> {
    if k + 1 < Min(i, n) then Some(b + k + 1) else None
  }

  /** An old fiber once `i` iterations have run. */
  ghost function OldAfter(a0: Arena, wip: Id, O: seq<Id>, E: seq<Element>, i: nat, id: Id): Fiber
    requires forall j :: 0 <= j < |O| ==> O[j] in a0.fibers
    requires id in a0.fibers
  {
    if id == wip && i > 0 then a0.fibers[wip].(child := if |E| > 0 then Some(a0.next) else None)
    else if id in Doomed(a0, O, E, Min(i, |O|)) then a0.fibers[id].(effectTag := Some(Deletion))
    else a0.fibers[id]
  }

  /** The fiber under `id` once `i` iterations have run from `a0`, or its absence. */
  ghost predicate Good(a0: Arena, wip: Id, O: seq<Id>, E: seq<Element>, i: nat, a: Arena, id: Id)
    requires forall j :: 0 <= j < |O| ==> O[j] in a0.fibers
  {
    var b := a0.next;
    && (id in a.fibers <==> id in a0.fibers || b <= id < b + Min(i, |E|))
    && (id in a0.fibers ==> id in a.fibers && a.fibers[id] == OldAfter(a0, wip, O, E, i, id))
    && (b <= id < b + Min(i, |E|) ==>
          id in a.fibers && a.fibers[id] == NewAt(a0, wip, O, E, id - b, SibAfter(b, |E|, i, id - b)))
  }

  /**
   * The arena once `i` iterations have run from `a0`.  The quantifier fires
   * only on an explicit `Good` term, one id at a time.
   */
  ghost predicate After(a0: Arena, wip: Id, O: seq<Id>, E: seq<Element>, i: nat, a: Arena)
    requires forall j :: 0 <= j < |O| ==> O[j] in a0.fibers
  {
    && a.next == a0.next + Min(i, |E|)
    && forall id {:trigger Good(a0, wip, O, E, i, a, id)} :: Good(a0, wip, O, E, i, a, id)
  }

  /** The loop variables after `s.index` iterations, started from `a0` and `dels0`. */
  ghost predicate Tracks(a0: Arena, wip: Id, E: seq<Element>, dels0: seq<Id>, s: LoopState)
    requires Setting(a0, wip)
  {
    var O := OldChain(a0, wip);
    var i := s.index;
    && i <= Max(|E|, |O|)
    && After(a0, wip, O, E, i, s.arena)
    && s.oldFiber == (if i < |O| then Some(O[i]) else None)
    && s.prevSibling == (if 0 < i <= |E| then Some(a0.next + i - 1) else None)
    && s.deletions == dels0 + Doomed(a0, O, E, Min(i, |O|))
  }

  /** Whether the iteration keeps the old fiber: it exists and has the element's type. */
  predicate SameType(s: LoopState, E: seq<Element>)
    requires Points(s.arena, s.oldFiber)
  {
    s.oldFiber.Some? && s.index < |E| && s.arena.fibers[s.oldFiber.value].ftype == Some(E[s.index].etype)
  }

  /** The fiber the iteration allocates, when there is an element. */
  function Fresh(s: LoopState, wip: Id, E: seq<Element>): Fiber
    requires Points(s.arena, s.oldFiber) && s.index < |E|
  {
    if SameType(s, E) then UpdateFiber(s.arena, s.oldFiber.value, E[s.index], wip)
    else PlacementFiber(E[s.index], wip)
  }

  /** What one iteration from `s` leaves under `id`, given the map `m` it produces. */
  ghost predicate Stepped(s: LoopState, wip: Id, E: seq<Element>, m: map<Id, Fiber>, id: Id)
    requires Points(s.arena, s.oldFiber)
  {
    var i := s.index;
    var nf := if i < |E| then Some(s.arena.next) else None;
    && (id in m <==> id in s.arena.fibers || (i < |E| && id == s.arena.next))
    && (id in s.arena.fibers ==>
          var f := s.arena.fibers[id];
          var f1 := if s.oldFiber == Some(id) && !SameType(s, E) then f.(effectTag := Some(Deletion)) else f;
          && id in m
          && m[id] == if i == 0 && id == wip then f1.(child := nf)
                      else if 0 < i < |E| && s.prevSibling == Some(id) then f1.(sibling := nf)
                      else f1)
    && (i < |E| && id == s.arena.next ==> id in m && m[id] == Fresh(s, wip, E))
  }

  /** One iteration, seen under a single id. */
  lemma BodyAt(s: LoopState, wip: Id, E: seq<Element>, id: Id)
    requires LoopOk(s, wip, E) && Continues(s, E)
    ensures Stepped(s, wip, E, LoopBody(s, wip, E).arena.fibers, id)
  {
    LoopFacts(s, wip, E);
    if id in s.arena.fibers {
      LinkedAt(s.arena, id);
    }
  }

  /** Everything one iteration from `s` does, as facts about its result `t`. */
  ghost predicate Iterated(s: LoopState, wip: Id, E: seq<Element>, t: LoopState)
    requires Points(s.arena, s.oldFiber)
  {
    && t.index == s.index + 1
    && t.arena.next == s.arena.next + (if s.index < |E| then 1 else 0)
    && t.oldFiber == (if s.oldFiber.Some? then s.arena.fibers[s.oldFiber.value].sibling else None)
    && t.prevSibling == (if s.index < |E| then Some(s.arena.next) else None)
    && t.deletions == s.deletions + (if s.oldFiber.Some? && !SameType(s, E) then [s.oldFiber.value] else [])
    && forall id :: Stepped(s, wip, E, t.arena.fibers, id)
  }

  /** `LoopBody` does what `Iterated` says. */
  lemma BodyIterated(s: LoopState, wip: Id, E: seq<Element>)
    requires LoopOk(s, wip, E) && Continues(s, E)
    ensures Iterated(s, wip, E, LoopBody(s, wip, E))
  {
    LoopFacts(s, wip, E);
    forall id {
      BodyAt(s, wip, E, id);
    }
  }

  /** The loop variables `oldFiber`, `prevSibling` and the arena's `next` at iteration `s.index`. */
  ghost predicate VarsAt(b: Id, O: seq<Id>, E: seq<Element>, s: LoopState) {
    var i := s.index;
    && s.oldFiber == (if i < |O| then Some(O[i]) else None)
    && s.prevSibling == (if 0 < i <= |E| then Some(b + i - 1) else None)
    && s.arena.next == b + Min(i, |E|)
  }

  /** One iteration, on a fiber of the old arena. */
  lemma StepOld(a0: Arena, wip: Id, O: seq<Id>, E: seq<Element>, s: LoopState, m: map<Id, Fiber>, id: Id)
    requires forall j :: 0 <= j < |O| ==> O[j] in a0.fibers && O[j] != wip
    requires Points(s.arena, s.oldFiber) && VarsAt(a0.next, O, E, s)
    requires wip in a0.fibers && id in a0.fibers && id < a0.next && id in s.arena.fibers
    requires s.arena.fibers[id] == OldAfter(a0, wip, O, E, s.index, id)
    requires s.index < |O| ==> s.arena.fibers[O[s.index]] == a0.fibers[O[s.index]]
    requires Stepped(s, wip, E, m, id)
    ensures id in m && m[id] == OldAfter(a0, wip, O, E, s.index + 1, id)
  {
    var i := s.index;
    DoomedMembers(a0, O, E, Min(i, |O|), id);
    DoomedMembers(a0, O, E, Min(i + 1, |O|), id);
    if i < |O| {
      assert SameType(s, E) == Same(a0, O, E, i);
    }
  }

  /** One iteration, on a fiber the loop allocated. */
  lemma StepNew(a0: Arena, wip: Id, O: seq<Id>, E: seq<Element>, s: LoopState, m: map<Id, Fiber>, id: Id)
    requires forall j :: 0 <= j < |O| ==> O[j] in a0.fibers && O[j] < a0.next
    requires Points(s.arena, s.oldFiber) && VarsAt(a0.next, O, E, s)
    requires wip < a0.next
    requires a0.next <= id < a0.next + Min(s.index + 1, |E|)
    requires id < s.arena.next ==>
               id in s.arena.fibers &&
               s.arena.fibers[id] == NewAt(a0, wip, O, E, id - a0.next, SibAfter(a0.next, |E|, s.index, id - a0.next))
    requires s.index < |O| ==> s.arena.fibers[O[s.index]] == a0.fibers[O[s.index]]
    requires Stepped(s, wip, E, m, id)
    ensures id in m && m[id] == NewAt(a0, wip, O, E, id - a0.next, SibAfter(a0.next, |E|, s.index + 1, id - a0.next))
  {
    if id == a0.next + s.index {
      assert SameType(s, E) == Same(a0, O, E, s.index);
    }
  }

  /** One iteration keeps `Good` at one id. */
  lemma StepGood(a0: Arena, wip: Id, O: seq<Id>, E: seq<Element>, s: LoopState, t: Arena, id: Id)
    requires forall j :: 0 <= j < |O| ==> O[j] in a0.fibers && O[j] < a0.next && O[j] != wip
    requires wip in a0.fibers && wip < a0.next
    requires id in a0.fibers ==> id < a0.next
    requires Points(s.arena, s.oldFiber) && VarsAt(a0.next, O, E, s)
    requires Good(a0, wip, O, E, s.index, s.arena, id)
    requires s.index < |O| ==> s.arena.fibers[O[s.index]] == a0.fibers[O[s.index]]
    requires Stepped(s, wip, E, t.fibers, id)
    ensures Good(a0, wip, O, E, s.index + 1, t, id)
  {
    if id in a0.fibers {
      StepOld(a0, wip, O, E, s, t.fibers, id);
    }
    if a0.next <= id < a0.next + Min(s.index + 1, |E|) {
      StepNew(a0, wip, O, E, s, t.fibers, id);
    }
  }

  /** The old chain's fibers are old, and the work-in-progress fiber is not among them. */
  lemma OldChainFacts(a0: Arena, wip: Id)
    requires Setting(a0, wip)
    ensures wip < a0.next
    ensures forall j :: 0 <= j < |OldChain(a0, wip)| ==>
              OldChain(a0, wip)[j] in a0.fibers && OldChain(a0, wip)[j] < a0.next && OldChain(a0, wip)[j] != wip
    ensures forall id | id in a0.fibers :: id < a0.next
  {
    LinkedAt(a0, wip);
    forall id | id in a0.fibers ensures id < a0.next {
      LinkedAt(a0, id);
    }
  }

  /** At iteration `i`, the old fiber `O[i]` is still as it was in `a0`. */
  lemma OldFiberUntouched(a0: Arena, wip: Id, E: seq<Element>, dels0: seq<Id>, s: LoopState)
    requires Setting(a0, wip)
    requires Tracks(a0, wip, E, dels0, s)
    requires s.index < |OldChain(a0, wip)|
    ensures OldChain(a0, wip)[s.index] in s.arena.fibers
    ensures s.arena.fibers[OldChain(a0, wip)[s.index]] == a0.fibers[OldChain(a0, wip)[s.index]]
    ensures a0.fibers[OldChain(a0, wip)[s.index]].sibling ==
              if s.index + 1 < |OldChain(a0, wip)| then Some(OldChain(a0, wip)[s.index + 1]) else None
  {
    var O := OldChain(a0, wip);
    OldChainFacts(a0, wip);
    ChainSiblings(a0, OldStart(a0, wip), s.index);
    DoomedMembers(a0, O, E, Min(s.index, |O|), O[s.index]);
    assert Good(a0, wip, O, E, s.index, s.arena, O[s.index]);
  }

  /** One iteration keeps `After` up to date. */
  lemma AfterStep(a0: Arena, wip: Id, O: seq<Id>, E: seq<Element>, s: LoopState, t: LoopState)
    requires forall j :: 0 <= j < |O| ==> O[j] in a0.fibers && O[j] < a0.next && O[j] != wip
    requires wip in a0.fibers && wip < a0.next
    requires forall id | id in a0.fibers :: id < a0.next
    requires Points(s.arena, s.oldFiber) && VarsAt(a0.next, O, E, s)
    requires After(a0, wip, O, E, s.index, s.arena)
    requires s.index < |O| ==> s.arena.fibers[O[s.index]] == a0.fibers[O[s.index]]
    requires Iterated(s, wip, E, t)
    ensures After(a0, wip, O, E, s.index + 1, t.arena)
  {
    var i1 := s.index + 1;
    forall id ensures Good(a0, wip, O, E, i1, t.arena, id) {
      assert Good(a0, wip, O, E, s.index, s.arena, id);
      assert Stepped(s, wip, E, t.arena.fibers, id);
      StepGood(a0, wip, O, E, s, t.arena, id);
    }
  }

  /** One iteration keeps the description up to date. */
  lemma StepTracks(a0: Arena, wip: Id, E: seq<Element>, dels0: seq<Id>, s: LoopState, t: LoopState)
    requires Setting(a0, wip)
    requires Points(s.arena, s.oldFiber) && Continues(s, E)
    requires Tracks(a0, wip, E, dels0, s)
    requires Iterated(s, wip, E, t)
    ensures Tracks(a0, wip, E, dels0, t)
  {
    var O := OldChain(a0, wip);
    var i := s.index;
    OldChainFacts(a0, wip);
    if i < |O| {
      OldFiberUntouched(a0, wip, E, dels0, s);
      assert SameType(s, E) == Same(a0, O, E, i);
    }
    AfterStep(a0, wip, O, E, s, t);
    var extra := if i < |O| && !Same(a0, O, E, i) then [O[i]] else [];
    if i < |O| {
      assert Min(i + 1, |O|) == Min(i, |O|) + 1;
      assert Doomed(a0, O, E, Min(i + 1, |O|)) == Doomed(a0, O, E, Min(i, |O|)) + extra;
    } else {
      assert Min(i + 1, |O|) == Min(i, |O|);
      assert extra == [];
    }
    assert t.deletions == s.deletions + extra;
    assert t.deletions == dels0 + Doomed(a0, O, E, Min(i + 1, |O|));
  }

  /** The whole loop ends with the description at `max(|E|, |O|)` iterations. */
  lemma {:induction false} LoopTracks(a0: Arena, wip: Id, E: seq<Element>, dels0: seq<Id>, s: LoopState)
    requires Setting(a0, wip)
    requires LoopOk(s, wip, E)
    requires Tracks(a0, wip, E, dels0, s)
    ensures Tracks(a0, wip, E, dels0, ReconcileLoop(s, wip, E))
    ensures ReconcileLoop(s, wip, E).index == Max(|E|, |OldChain(a0, wip)|)
    decreases (if s.index < |E| then |E| - s.index else 0), Rank(s.arena, s.oldFiber)
  {
    if Continues(s, E) {
      var t := LoopBody(s, wip, E);
      BodyIterated(s, wip, E);
      StepTracks(a0, wip, E, dels0, s, t);
      LoopTracks(a0, wip, E, dels0, t);
    }
  }

  /** Before the first iteration the description holds trivially. */
  lemma StartTracks(a0: Arena, wip: Id, E: seq<Element>, dels0: seq<Id>)
    requires Setting(a0, wip)
    ensures LoopOk(LoopState(a0, 0, OldStart(a0, wip), None, dels0), wip, E)
    ensures Tracks(a0, wip, E, dels0, LoopState(a0, 0, OldStart(a0, wip), None, dels0))
  {
    var O := OldChain(a0, wip);
    var s := LoopState(a0, 0, OldStart(a0, wip), None, dels0);
    forall id ensures Good(a0, wip, O, E, 0, a0, id) {
    }
    assert dels0 + Doomed(a0, O, E, 0) == dels0;
  }

  /** `reconcileChildren` ends with the description at `max(|E|, |O|)` iterations. */
  lemma ReconcileTracks(a0: Arena, wip: Id, E: seq<Element>, dels0: seq<Id>)
    requires Setting(a0, wip)
    ensures Tracks(a0, wip, E, dels0, ReconcileChildren(a0, wip, E, dels0))
    ensures ReconcileChildren(a0, wip, E, dels0).index == Max(|E|, |OldChain(a0, wip)|)
  {
    StartTracks(a0, wip, E, dels0);
    LoopTracks(a0, wip, E, dels0, LoopState(a0, 0, OldStart(a0, wip), None, dels0));
  }

  /** The description at the loop's final index, where `Min` picks the full lengths. */
  lemma FinalGood(a0: Arena, wip: Id, E: seq<Element>, dels0: seq<Id>, id: Id)
    requires Setting(a0, wip)
    ensures
      var O := OldChain(a0, wip);
      var r := ReconcileChildren(a0, wip, E, dels0);
      var i := Max(|E|, |O|);
      && Min(i, |E|) == |E| && Min(i, |O|) == |O| && (i > 0 <==> |E| > 0 || |O| > 0)
      && r.arena.next == a0.next + |E|
      && r.deletions == dels0 + Doomed(a0, O, E, |O|)
      && Good(a0, wip, O, E, i, r.arena, id)
  {
    ReconcileTracks(a0, wip, E, dels0);
  }

  /** The fibers of the arena once the whole call has run. */
  lemma FinalMembers(a0: Arena, wip: Id, E: seq<Element>, dels0: seq<Id>, id: Id)
    requires Setting(a0, wip)
    ensures
      var r := ReconcileChildren(a0, wip, E, dels0);
      id in r.arena.fibers <==> id in a0.fibers || a0.next <= id < a0.next + |E|
  {
    FinalGood(a0, wip, E, dels0, id);
  }

  /** An old fiber once the whole call has run. */
  lemma FinalOldAt(a0: Arena, wip: Id, E: seq<Element>, dels0: seq<Id>, id: Id)
    requires Setting(a0, wip) && id in a0.fibers
    ensures
      var r := ReconcileChildren(a0, wip, E, dels0);
      id in r.arena.fibers && r.arena.fibers[id] == FinalOld(a0, wip, OldChain(a0, wip), E, id)
  {
    FinalGood(a0, wip, E, dels0, id);
  }

  /** A new fiber once the whole call has run. */
  lemma FinalNewAt(a0: Arena, wip: Id, E: seq<Element>, dels0: seq<Id>, id: Id)
    requires Setting(a0, wip) && a0.next <= id < a0.next + |E|
    ensures
      var r := ReconcileChildren(a0, wip, E, dels0);
      var b := a0.next;
      id in r.arena.fibers &&
      r.arena.fibers[id] == NewAt(a0, wip, OldChain(a0, wip), E, id - b, if id + 1 < b + |E| then Some(id + 1) else None)
  {
    FinalGood(a0, wip, E, dels0, id);
    var i := Max(|E|, |OldChain(a0, wip)|);
    assert SibAfter(a0.next, |E|, i, id - a0.next) == if id + 1 < a0.next + |E| then Some(id + 1) else None;
  }

  /** The result of the whole call at one id, with the loop's final index worked out. */
  lemma FinalAt(a0: Arena, wip: Id, E: seq<Element>, dels0: seq<Id>, id: Id)
    requires Setting(a0, wip)
    ensures
      var O := OldChain(a0, wip);
      var r := ReconcileChildren(a0, wip, E, dels0);
      var b := a0.next;
      && r.arena.next == b + |E|
      && r.deletions == dels0 + Doomed(a0, O, E, |O|)
      && (id in r.arena.fibers <==> id in a0.fibers || b <= id < b + |E|)
      && (id in a0.fibers ==>
            && id in r.arena.fibers
            && r.arena.fibers[id] == FinalOld(a0, wip, O, E, id))
      && (b <= id < b + |E| ==>
            && id in r.arena.fibers
            && r.arena.fibers[id] == NewAt(a0, wip, O, E, id - b, if id + 1 < b + |E| then Some(id + 1) else None))
  {
    FinalGood(a0, wip, E, dels0, id);
    FinalMembers(a0, wip, E, dels0, id);
    if id in a0.fibers {
      FinalOldAt(a0, wip, E, dels0, id);
    }
    if a0.next <= id < a0.next + |E| {
      FinalNewAt(a0, wip, E, dels0, id);
    }
  }

  /** An old fiber once the loop has finished. */
  ghost function FinalOld(a0: Arena, wip: Id, O: seq<Id>, E: seq<Element>, id: Id): Fiber
    requires forall j :: 0 <= j < |O| ==> O[j] in a0.fibers
    requires id in a0.fibers
  {
    if id == wip && (|E| > 0 || |O| > 0) then a0.fibers[wip].(child := if |E| > 0 then Some(a0.next) else None)
    else if id in Doomed(a0, O, E, |O|) then a0.fibers[id].(effectTag := Some(Deletion))
    else a0.fibers[id]
  }
}
