/**
 * The choice of the next unit of work at the end of `performUnitOfWork`:
 * the first child, else the first `sibling` found on the way up through
 * the `parent` references.  On a tree whose references agree (`Shaped`)
 * this is the depth-first pre-order successor.
 */
module Traversal {
  import opened Wrappers
  import opened Fibers

  /** `id`, its `parent`, that fiber's `parent`, and so on up to a fiber without one. */
  function Lineage(a: Arena, id: Id): (r: seq<Id>)
    requires Linked(a) && id in a.fibers
    ensures |r| >= 1 && r[0] == id
    ensures forall i :: 0 <= i < |r| ==> r[i] in a.fibers
    ensures forall i :: 0 <= i < |r| - 1 ==> a.fibers[r[i]].parent == Some(r[i + 1])
    ensures a.fibers[r[|r| - 1]].parent.None?
    decreases id
  {
    LinkedAt(a, id);
    var f := a.fibers[id];
    if f.parent.Some? then [id] + Lineage(a, f.parent.value) else [id]
  }

  /** `L[i]` has a `sibling`, and no fiber before it in `L` has one. */
  predicate FirstWithSibling(a: Arena, L: seq<Id>, i: int)
    requires forall k :: 0 <= k < |L| ==> L[k] in a.fibers
  {
    0 <= i < |L| && a.fibers[L[i]].sibling.Some? && forall j :: 0 <= j < i ==> a.fibers[L[j]].sibling.None?
  }

  /** The `while (nextFiber)` loop: the sibling of `id` or of its nearest ancestor that has one. */
  function Climb(a: Arena, id: Id): (r: Option<Id>)
    requires Linked(a) && id in a.fibers
    ensures Points(a, r)
    decreases id
  {
    LinkedAt(a, id);
    var f := a.fibers[id];
    if f.sibling.Some? then f.sibling
    else if f.parent.Some? then Climb(a, f.parent.value)
    else None
  }

  /** No fiber of `L` has a `sibling`. */
  predicate NoneWithSibling(a: Arena, L: seq<Id>)
    requires forall k :: 0 <= k < |L| ==> L[k] in a.fibers
  {
    forall i :: 0 <= i < |L| ==> a.fibers[L[i]].sibling.None?
  }

  /**
   * The climb finds the `sibling` of the first fiber on the way up from
   * `id` (itself included) that has one, and nothing when no fiber up to
   * the root has a sibling.
   */
  lemma {:induction false} ClimbNearest(a: Arena, id: Id)
    requires Linked(a) && id in a.fibers
    ensures Climb(a, id).None? <==> NoneWithSibling(a, Lineage(a, id))
    ensures Climb(a, id).Some? ==>
              exists i :: FirstWithSibling(a, Lineage(a, id), i) && Climb(a, id) == a.fibers[Lineage(a, id)[i]].sibling
    decreases id
  {
    LinkedAt(a, id);
    var f := a.fibers[id];
    var L := Lineage(a, id);
    if f.sibling.Some? {
      assert L[0] == id && Climb(a, id) == f.sibling;
      assert FirstWithSibling(a, L, 0);
    } else if f.parent.Some? {
      ClimbNearest(a, f.parent.value);
      var L' := Lineage(a, f.parent.value);
      assert L == [id] + L';
      assert forall i :: 1 <= i < |L| ==> L[i] == L'[i - 1];
      if Climb(a, id).Some? {
        var i :| FirstWithSibling(a, L', i) && Climb(a, id) == a.fibers[L'[i]].sibling;
        assert FirstWithSibling(a, L, i + 1);
      }
    } else {
      assert L == [id];
    }
  }

  /** The unit of work after `id`; `None` is the `undefined` returned when the climb runs out. */
  function NextFiber(a: Arena, id: Id): (r: Option<Id>)
    requires Linked(a) && id in a.fibers
    ensures Points(a, r)
  {
    LinkedAt(a, id);
    if a.fibers[id].child.Some? then a.fibers[id].child else Climb(a, id)
  }

  /** Where the walk goes once it leaves every fiber below `parent`. */
  function Up(a: Arena, parent: Option<Id>): Option<Id>
    requires Linked(a) && Points(a, parent)
  {
    if parent.Some? then Climb(a, parent.value) else None
  }

  /** The last fiber of a forest has no child and is left towards `Up` of the forest's parent. */
  lemma {:induction false} LeaveForest(a: Arena, s: Id)
    requires Linked(a) && Shaped(a) && s in a.fibers
    ensures Points(a, a.fibers[s].parent)
    ensures
      var F := Forest(a, Some(s));
      var L := F[|F| - 1];
      a.fibers[L].child.None? && NextFiber(a, L) == Up(a, a.fibers[s].parent)
    decreases Rank(a, Some(s))
  {
    LinkedAt(a, s);
    var f := a.fibers[s];
    assert ShapedAt(a, s);
    var C := Forest(a, f.child);
    var S := Forest(a, f.sibling);
    var F := Forest(a, Some(s));
    assert F == [s] + C + S;
    if f.sibling.Some? {
      LeaveForest(a, f.sibling.value);
      assert F[|F| - 1] == S[|S| - 1];
    } else if f.child.Some? {
      LeaveForest(a, f.child.value);
      assert F[|F| - 1] == C[|C| - 1];
    }
  }

  /** Inside a forest, `NextFiber` steps from each fiber to the one after it in pre-order. */
  lemma {:induction false} ForestSuccessor(a: Arena, s: Id, k: nat)
    requires Linked(a) && Shaped(a) && s in a.fibers
    requires k + 1 < |Forest(a, Some(s))|
    ensures NextFiber(a, Forest(a, Some(s))[k]) == Some(Forest(a, Some(s))[k + 1])
    decreases Rank(a, Some(s))
  {
    LinkedAt(a, s);
    var f := a.fibers[s];
    assert ShapedAt(a, s);
    var C := Forest(a, f.child);
    var S := Forest(a, f.sibling);
    var F := Forest(a, Some(s));
    assert F == [s] + C + S;
    if k == 0 {
    } else if k < |C| {
      ForestSuccessor(a, f.child.value, k - 1);
      assert F[k] == C[k - 1] && F[k + 1] == C[k];
    } else if k == |C| {
      LeaveForest(a, f.child.value);
      assert F[k] == C[k - 1] && F[k + 1] == S[0];
    } else {
      ForestSuccessor(a, f.sibling.value, k - 1 - |C|);
      assert F[k] == S[k - 1 - |C|] && F[k + 1] == S[k - |C|];
    }
  }

  /** A root in the sense of `render`: no parent and no sibling. */
  predicate IsRoot(a: Arena, root: Id) {
    root in a.fibers && a.fibers[root].parent.None? && a.fibers[root].sibling.None?
  }

  /** The unit of work reached from `start` after `k` calls of `NextFiber`, with `None` absorbing. */
  function Walk(a: Arena, start: Option<Id>, k: nat): (r: Option<Id>)
    requires Linked(a) && Points(a, start)
    ensures Points(a, r)
    ensures start.None? ==> r.None?
    decreases k
  {
    if k == 0 || start.None? then start
    else Walk(a, NextFiber(a, start.value), k - 1)
  }

  lemma {:induction false} WalkLast(a: Arena, start: Option<Id>, k: nat)
    requires Linked(a) && Points(a, start) && Walk(a, start, k).Some?
    ensures Walk(a, start, k + 1) == NextFiber(a, Walk(a, start, k).value)
    decreases k
  {
    if k > 0 {
      WalkLast(a, NextFiber(a, start.value), k - 1);
    }
  }

  /**
   * Starting from a root, the `k`-th unit of work is the `k`-th fiber of the
   * tree in depth-first pre-order, and the walk ends (`None`) right after
   * the last one.
   */
  lemma {:induction false} WalkPreOrder(a: Arena, root: Id, k: nat)
    requires Linked(a) && Shaped(a) && IsRoot(a, root)
    requires k <= |Forest(a, Some(root))|
    ensures Walk(a, Some(root), k) ==
              if k < |Forest(a, Some(root))| then Some(Forest(a, Some(root))[k]) else None
  {
    var F := Forest(a, Some(root));
    if k > 0 {
      WalkPreOrder(a, root, k - 1);
      WalkLast(a, Some(root), k - 1);
      if k < |F| {
        ForestSuccessor(a, root, k - 1);
      } else {
        LeaveForest(a, root);
      }
    }
  }

  /** No fiber is visited twice: a repeat would make the walk cycle instead of ending. */
  lemma {:induction false} PreOrderDistinct(a: Arena, root: Id, i: nat, j: nat)
    requires Linked(a) && Shaped(a) && IsRoot(a, root)
    requires i < j < |Forest(a, Some(root))|
    ensures Forest(a, Some(root))[i] != Forest(a, Some(root))[j]
    decreases |Forest(a, Some(root))| - j
  {
    var F := Forest(a, Some(root));
    ForestSuccessor(a, root, i);
    if j + 1 == |F| {
      LeaveForest(a, root);
    } else {
      ForestSuccessor(a, root, j);
      PreOrderDistinct(a, root, i + 1, j + 1);
    }
  }
}
