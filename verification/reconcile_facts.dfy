/**
 * What one call of `reconcileChildren(wipFiber, elements)` does, stated
 * against the old child chain `O` (the chain under `wipFiber.alternate`)
 * and the element list `E`, with `b` the first id the call allocates.
 */
module ReconcileFacts {
  import opened Wrappers
  import opened Elements
  import opened Fibers
  import opened Reconcile
  import opened ReconcileProofs

  /** The loop body runs `max(|E|, |O|)` times. */
  lemma Iterations(a: Arena, wip: Id, E: seq<Element>, dels: seq<Id>)
    requires Setting(a, wip)
    ensures ReconcileChildren(a, wip, E, dels).index == Max(|E|, |OldChain(a, wip)|)
  {
    ReconcileTracks(a, wip, E, dels);
  }

  /** The arena gains exactly the ids `b .. b + |E|`, one per element. */
  lemma Allocated(a: Arena, wip: Id, E: seq<Element>, dels: seq<Id>, id: Id)
    requires Setting(a, wip)
    ensures ReconcileChildren(a, wip, E, dels).arena.next == a.next + |E|
    ensures id in ReconcileChildren(a, wip, E, dels).arena.fibers <==> id in a.fibers || a.next <= id < a.next + |E|
  {
    var O := OldChain(a, wip);
    var r := ReconcileChildren(a, wip, E, dels);
    FinalAt(a, wip, E, dels, id);
  }

  /**
   * The fiber made for element `k`: its parent is the work-in-progress
   * fiber, its props are the element's, its sibling is the next element's
   * fiber; it is an `UPDATE` of the old fiber at position `k` when that
   * fiber exists and has the element's type, and a `PLACEMENT` otherwise.
   */
  lemma NewFiber(a: Arena, wip: Id, E: seq<Element>, dels: seq<Id>, k: nat)
    requires Setting(a, wip)
    requires k < |E|
    ensures a.next + k in ReconcileChildren(a, wip, E, dels).arena.fibers
    ensures
      var O := OldChain(a, wip);
      var f := ReconcileChildren(a, wip, E, dels).arena.fibers[a.next + k];
      && f.ftype == Some(E[k].etype)
      && f.props == E[k].props
      && f.parent == Some(wip)
      && f.child == None
      && f.sibling == (if k + 1 < |E| then Some(a.next + k + 1) else None)
      && (Same(a, O, E, k) ==>
            f.effectTag == Some(Update) && f.alternate == Some(O[k]) && f.dom == a.fibers[O[k]].dom)
      && (!Same(a, O, E, k) ==>
            f.effectTag == Some(Placement) && f.alternate == None && f.dom == None)
  {
    var O := OldChain(a, wip);
    var r := ReconcileChildren(a, wip, E, dels);
    FinalAt(a, wip, E, dels, a.next + k);
  }

  /**
   * The work-in-progress fiber's `child` becomes the first new fiber, or
   * null when there are no elements but there were old children; nothing
   * else about it changes.
   */
  lemma WorkInProgress(a: Arena, wip: Id, E: seq<Element>, dels: seq<Id>)
    requires Setting(a, wip)
    ensures wip in ReconcileChildren(a, wip, E, dels).arena.fibers
    ensures ReconcileChildren(a, wip, E, dels).arena.fibers[wip] ==
              a.fibers[wip].(child :=
                if |E| > 0 then Some(a.next)
                else if |OldChain(a, wip)| > 0 then None
                else a.fibers[wip].child)
  {
    var O := OldChain(a, wip);
    var r := ReconcileChildren(a, wip, E, dels);
    FinalAt(a, wip, E, dels, wip);
    DoomedMembers(a, O, E, |O|, wip);
  }

  /** An old child keeps everything but its tag, which becomes `DELETION` when no same-type element takes its place. */
  lemma OldFiber(a: Arena, wip: Id, E: seq<Element>, dels: seq<Id>, k: nat)
    requires Setting(a, wip)
    requires k < |OldChain(a, wip)|
    ensures OldChain(a, wip)[k] in ReconcileChildren(a, wip, E, dels).arena.fibers
    ensures
      var O := OldChain(a, wip);
      ReconcileChildren(a, wip, E, dels).arena.fibers[O[k]] ==
        if Same(a, O, E, k) then a.fibers[O[k]] else a.fibers[O[k]].(effectTag := Some(Deletion))
  {
    var O := OldChain(a, wip);
    var r := ReconcileChildren(a, wip, E, dels);
    FinalAt(a, wip, E, dels, O[k]);
    DoomedMembers(a, O, E, |O|, O[k]);
  }

  /** Every other fiber of the arena is left as it was. */
  lemma Frame(a: Arena, wip: Id, E: seq<Element>, dels: seq<Id>, id: Id)
    requires Setting(a, wip)
    requires id in a.fibers && id != wip && id !in OldChain(a, wip)
    ensures id in ReconcileChildren(a, wip, E, dels).arena.fibers
    ensures ReconcileChildren(a, wip, E, dels).arena.fibers[id] == a.fibers[id]
  {
    var O := OldChain(a, wip);
    var r := ReconcileChildren(a, wip, E, dels);
    FinalAt(a, wip, E, dels, id);
    DoomedMembers(a, O, E, |O|, id);
  }

  /** Doomed fibers come in chain order, so none is listed twice. */
  lemma {:induction false} DoomedIncreasing(a0: Arena, O: seq<Id>, E: seq<Element>, i: nat)
    requires forall j :: 0 <= j < |O| ==> O[j] in a0.fibers
    requires forall p, q :: 0 <= p < q < |O| ==> O[p] < O[q]
    requires i <= |O|
    ensures forall p, q :: 0 <= p < q < |Doomed(a0, O, E, i)| ==> Doomed(a0, O, E, i)[p] < Doomed(a0, O, E, i)[q]
  {
    if i > 0 {
      DoomedIncreasing(a0, O, E, i - 1);
      var d := Doomed(a0, O, E, i - 1);
      forall x | x in d ensures x < O[i - 1] {
        DoomedMembers(a0, O, E, i - 1, x);
        var k :| 0 <= k < i - 1 && !Same(a0, O, E, k) && x == O[k];
      }
      var D := Doomed(a0, O, E, i);
      assert D == d + (if !Same(a0, O, E, i - 1) then [O[i - 1]] else []);
      forall p, q | 0 <= p < q < |D| ensures D[p] < D[q] {
        if q < |d| {
          assert D[p] == d[p] && D[q] == d[q];
        } else {
          assert D[p] == d[p] && d[p] in d;
        }
      }
    }
  }

  /**
   * The deletions list keeps its old entries and gains, in chain order and
   * each once, exactly the old children without a same-type element at
   * their position.
   */
  lemma Deletions(a: Arena, wip: Id, E: seq<Element>, dels: seq<Id>, x: Id)
    requires Setting(a, wip)
    ensures
      var O := OldChain(a, wip);
      var d := ReconcileChildren(a, wip, E, dels).deletions;
      && |dels| <= |d| && d[..|dels|] == dels
      && (x in d[|dels|..] <==> exists k :: 0 <= k < |O| && !Same(a, O, E, k) && x == O[k])
      && (forall p, q :: |dels| <= p < q < |d| ==> d[p] < d[q])
  {
    var O := OldChain(a, wip);
    var r := ReconcileChildren(a, wip, E, dels);
    FinalAt(a, wip, E, dels, x);
    assert r.deletions[|dels|..] == Doomed(a, O, E, |O|);
    DoomedMembers(a, O, E, |O|, x);
    DoomedIncreasing(a, O, E, |O|);
    var D := Doomed(a, O, E, |O|);
    forall p, q | |dels| <= p < q < |r.deletions| ensures r.deletions[p] < r.deletions[q] {
      assert r.deletions[p] == D[p - |dels|] && r.deletions[q] == D[q - |dels|];
    }
  }

  /** From the fiber of element `k` on, the `sibling` chain visits the new fibers in element order. */
  lemma {:induction false} NewChainFrom(a: Arena, wip: Id, E: seq<Element>, dels: seq<Id>, k: nat)
    requires Setting(a, wip)
    requires k <= |E|
    ensures Points(ReconcileChildren(a, wip, E, dels).arena, if k < |E| then Some(a.next + k) else None)
    ensures Chain(ReconcileChildren(a, wip, E, dels).arena, if k < |E| then Some(a.next + k) else None)
              == seq(|E| - k, j => a.next + k + j)
    decreases |E| - k
  {
    var r := ReconcileChildren(a, wip, E, dels);
    if k < |E| {
      var next := if k + 1 < |E| then Some(a.next + k + 1) else None;
      FinalNewAt(a, wip, E, dels, a.next + k);
      assert r.arena.fibers[a.next + k].sibling == next;
      NewChainFrom(a, wip, E, dels, k + 1);
      assert Chain(r.arena, Some(a.next + k)) == [a.next + k] + Chain(r.arena, next);
      assert seq(|E| - k, j => a.next + k + j) == [a.next + k] + seq(|E| - (k + 1), j => a.next + (k + 1) + j);
    }
  }

  /**
   * After the call the work-in-progress fiber's children are the new
   * fibers, one per element, in element order (unless there were neither
   * elements nor old children, when its `child` is what it was).
   */
  lemma NewChain(a: Arena, wip: Id, E: seq<Element>, dels: seq<Id>)
    requires Setting(a, wip)
    requires |E| > 0 || |OldChain(a, wip)| > 0 || a.fibers[wip].child.None?
    ensures wip in ReconcileChildren(a, wip, E, dels).arena.fibers
    ensures
      var r := ReconcileChildren(a, wip, E, dels).arena;
      Points(r, r.fibers[wip].child) && Chain(r, r.fibers[wip].child) == seq(|E|, j => a.next + j)
  {
    var r := ReconcileChildren(a, wip, E, dels).arena;
    WorkInProgress(a, wip, E, dels);
    NewChainFrom(a, wip, E, dels, 0);
    assert r.fibers[wip].child == if 0 < |E| then Some(a.next + 0) else None;
    assert seq(|E|, j => a.next + 0 + j) == seq(|E|, j => a.next + j);
  }

  /** Only the fiber at the same position can be an `UPDATE` of the old child `k`. */
  lemma UpdateOf(a: Arena, wip: Id, E: seq<Element>, dels: seq<Id>, k: nat, id: Id)
    requires Setting(a, wip)
    requires k < |OldChain(a, wip)|
    requires a.next <= id && id in ReconcileChildren(a, wip, E, dels).arena.fibers
    ensures
      var O := OldChain(a, wip);
      var f := ReconcileChildren(a, wip, E, dels).arena.fibers[id];
      f.alternate == Some(O[k]) && f.effectTag == Some(Update) <==> id == a.next + k && Same(a, O, E, k)
  {
    Allocated(a, wip, E, dels, id);
    if id in a.fibers {
      LinkedAt(a, id);
    }
    NewFiber(a, wip, E, dels, id - a.next);
  }

  /**
   * Each old child ends up either as the `alternate` of the `UPDATE` fiber
   * that replaces it, or among the new deletions, and never both.
   */
  lemma Partition(a: Arena, wip: Id, E: seq<Element>, dels: seq<Id>, k: nat)
    requires Setting(a, wip)
    requires k < |OldChain(a, wip)|
    ensures
      var O := OldChain(a, wip);
      var r := ReconcileChildren(a, wip, E, dels);
      (exists id :: a.next <= id && id in r.arena.fibers
                   && r.arena.fibers[id].alternate == Some(O[k])
                   && r.arena.fibers[id].effectTag == Some(Update))
        <==> O[k] !in r.deletions[|dels|..]
  {
    var O := OldChain(a, wip);
    var r := ReconcileChildren(a, wip, E, dels);
    Deletions(a, wip, E, dels, O[k]);
    if O[k] in r.deletions[|dels|..] {
      var k' :| 0 <= k' < |O| && !Same(a, O, E, k') && O[k] == O[k'];
      assert k' == k;
      forall id | a.next <= id && id in r.arena.fibers
        ensures !(r.arena.fibers[id].alternate == Some(O[k]) && r.arena.fibers[id].effectTag == Some(Update))
      {
        UpdateOf(a, wip, E, dels, k, id);
      }
    } else {
      assert Same(a, O, E, k);
      Allocated(a, wip, E, dels, a.next + k);
      UpdateOf(a, wip, E, dels, k, a.next + k);
    }
  }
}
