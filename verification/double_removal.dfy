/**
 * Deleted fibers are committed through `commitWork`, which goes on into
 * their old `child` and `sibling`.  When a deleted old child is a later
 * sibling of an earlier deleted one, its node is removed twice: once while
 * committing the earlier one and once from the deletions list, and the
 * second `removeChild` throws because the node is no longer attached.
 */
module DoubleRemoval {
  import opened Wrappers
  import opened Elements
  import opened Host
  import opened Fibers
  import opened Reconcile
  import opened Commit

  const Container: Handle := Mount(0)
  const DivNode: Handle := Created(0)
  const SpanNode: Handle := Created(1)

  function Props0(): Props { Props([], []) }

  /** The children of the root that `render(<div/><span/>)` committed. */
  function Rendered(): seq<Element> {
    [Element("div", Props0()), Element("span", Props0())]
  }

  /**
   * The arena after `render([], container)` has reconciled a root that used
   * to show `<div/><span/>`: fibers 0-2 are the committed tree, fiber 3 is
   * the new root, and both old children are tagged `DELETION`.
   */
  function Example(): Arena {
    Arena(map[
      0 := Fiber(None, Props([], Rendered()), Some(Container), None, Some(1), None, None, None),
      1 := Fiber(Some("div"), Props0(), Some(DivNode), Some(0), None, Some(2), None, Some(Deletion)),
      2 := Fiber(Some("span"), Props0(), Some(SpanNode), Some(0), None, None, None, Some(Deletion)),
      3 := Fiber(None, Props([], []), Some(Container), None, None, None, Some(0), None)],
      4)
  }

  /**
   * The arena just before: the committed tree `<div/><span/>` under root 0,
   * and the root 3 that `render([], container)` made, whose alternate is 0.
   */
  function Shown(): Arena {
    Arena(map[
      0 := Fiber(None, Props([], Rendered()), Some(Container), None, Some(1), None, None, None),
      1 := Fiber(Some("div"), Props0(), Some(DivNode), Some(0), None, Some(2), None, Some(Placement)),
      2 := Fiber(Some("span"), Props0(), Some(SpanNode), Some(0), None, None, None, Some(Placement)),
      3 := Fiber(None, Props([], []), Some(Container), None, None, None, Some(0), None)],
      4)
  }

  lemma ShownLinked()
    ensures Linked(Shown())
  {
    var a := Shown();
    forall id | id in a.fibers ensures LinksOk(a, id, a.fibers[id]) {
    }
  }

  /** Reconciling the new root against no elements tags both old children and lists them for deletion. */
  lemma ExampleArises()
    ensures Linked(Shown())
    ensures ReconcileChildren(Shown(), 3, [], []) == LoopState(Example(), 2, None, None, [1, 2])
  {
    ShownLinked();
    var a := Shown();
    assert OldStart(a, 3) == Some(1);
    var s0 := LoopState(a, 0, Some(1), None, []);
    var a1 := SetChild(SetTag(a, 1, Deletion), 3, None);
    var s1 := LoopState(a1, 1, Some(2), None, [1]);
    assert LoopBody(s0, 3, []) == s1;
    var a2 := SetTag(a1, 2, Deletion);
    var s2 := LoopState(a2, 2, None, None, [1, 2]);
    assert LoopBody(s1, 3, []) == s2;
    assert ReconcileLoop(s2, 3, []) == s2;
    assert ReconcileLoop(s1, 3, []) == s2;
    assert ReconcileLoop(s0, 3, []) == s2;
    assert a2 == Example();
  }

  /** Both nodes hang under the container before the commit. */
  function Attached(): Parents {
    map[DivNode := Container, SpanNode := Container]
  }

  lemma ExampleLinked()
    ensures Linked(Example())
  {
    var a := Example();
    forall id | id in a.fibers ensures LinksOk(a, id, a.fibers[id]) {
    }
  }

  /** Committing the first deleted fiber goes on into its sibling and removes both nodes. */
  lemma CommitsSibling()
    ensures Linked(Example())
    ensures CommitWork(Example(), Some(1)) == Ok([Remove(Container, DivNode), Remove(Container, SpanNode)])
    ensures CommitWork(Example(), Some(2)) == Ok([Remove(Container, SpanNode)])
  {
    ExampleLinked();
    var a := Example();
    assert CommitWork(a, None) == Ok([]);
    assert ParentDom(a, 1) == Ok(Some(Container)) && ParentDom(a, 2) == Ok(Some(Container));
    assert RemoveNode(a, 1) == Ok([Remove(Container, DivNode)]);
    assert RemoveNode(a, 2) == Ok([Remove(Container, SpanNode)]);
    assert Effect(a, 1) == RemoveNode(a, 1) && Effect(a, 2) == RemoveNode(a, 2);
    var none := Then(CommitWork(a, None), CommitWork(a, None));
    assert none == Ok([]) by { assert CommitWork(a, None).value + CommitWork(a, None).value == []; }
    assert a.fibers[2].child == None && a.fibers[2].sibling == None;
    assert CommitWork(a, Some(2)) == Then(Effect(a, 2), none);
    assert [Remove(Container, SpanNode)] + [] == [Remove(Container, SpanNode)];
    assert CommitWork(a, Some(2)) == Ok([Remove(Container, SpanNode)]);
    assert a.fibers[1].child == None && a.fibers[1].sibling == Some(2);
    assert Then(CommitWork(a, None), CommitWork(a, Some(2))) == CommitWork(a, Some(2)) by {
      assert [] + [Remove(Container, SpanNode)] == [Remove(Container, SpanNode)];
    }
    assert CommitWork(a, Some(1)) == Then(Effect(a, 1), CommitWork(a, Some(2)));
    assert [Remove(Container, DivNode)] + [Remove(Container, SpanNode)] == [Remove(Container, DivNode), Remove(Container, SpanNode)];
    assert CommitWork(a, Some(1)) == Ok([Remove(Container, DivNode), Remove(Container, SpanNode)]);
  }

  /** As written, the commit visits fiber 1, then fiber 2 as its sibling, then fiber 2 again. */
  lemma ExampleVisits()
    ensures Linked(Example())
    ensures DeletedForests(Example(), [1, 2]) + Forest(Example(), ChildOf(Example(), 3)) == [1, 2, 2]
  {
    ExampleLinked();
    var a := Example();
    assert Forest(a, Some(2)) == [2];
    assert Forest(a, Some(1)) == [1, 2];
    assert [1, 2][1..] == [2] && [2][1..] == [];
    assert DeletedForests(a, [1, 2]) == [1, 2, 2];
    assert ChildOf(a, 3) == None;
    assert [1, 2, 2] + [] == [1, 2, 2];
  }

  /** The effects of those three visits: the two removals, the second one repeated. */
  lemma ExampleEffects()
    ensures Linked(Example())
    ensures Effects(Example(), [1, 2, 2]) ==
              Ok([Remove(Container, DivNode), Remove(Container, SpanNode), Remove(Container, SpanNode)])
  {
    ExampleLinked();
    var a := Example();
    assert ParentDom(a, 1) == Ok(Some(Container)) && ParentDom(a, 2) == Ok(Some(Container));
    var div, span := Remove(Container, DivNode), Remove(Container, SpanNode);
    assert Effect(a, 1) == Ok([div]) && Effect(a, 2) == Ok([span]);
    assert [1, 2, 2][1..] == [2, 2] && [2, 2][1..] == [2] && [2][1..] == [];
    assert Effects(a, []) == Ok([]);
    assert Effects(a, [2]) == Then(Effect(a, 2), Effects(a, []));
    assert [span] + [] == [span];
    assert Effects(a, [2]) == Ok([span]);
    assert Effects(a, [2, 2]) == Then(Effect(a, 2), Effects(a, [2]));
    assert [span] + [span] == [span, span];
    assert Effects(a, [1, 2, 2]) == Then(Effect(a, 1), Effects(a, [2, 2]));
    assert [div] + [span, span] == [div, span, span];
  }

  /** As written: `removeChild(span)` is issued twice, and the second call throws. */
  lemma AsWrittenRemovesTwice()
    ensures Linked(Example())
    ensures CommitRoot(Example(), [1, 2], 3) ==
              Ok([Remove(Container, DivNode), Remove(Container, SpanNode), Remove(Container, SpanNode)])
    ensures Replay(Attached(), CommitRoot(Example(), [1, 2], 3).value) == Fail(NotFound(Container, SpanNode))
  {
    ExampleVisits();
    ExampleEffects();
    var t1 := Attached() - {DivNode};
    var t2 := t1 - {SpanNode};
    assert SpanNode !in t2;
  }

  /** Corrected: each node is removed once and both removals succeed. */
  lemma FixedRemovesOnce()
    ensures Linked(Example())
    ensures CommitRootFixed(Example(), [1, 2], 3) == Ok([Remove(Container, DivNode), Remove(Container, SpanNode)])
    ensures Replay(Attached(), CommitRootFixed(Example(), [1, 2], 3).value) == Ok(map[])
  {
    ExampleLinked();
    var a := Example();
    assert ParentDom(a, 1) == Ok(Some(Container)) && ParentDom(a, 2) == Ok(Some(Container));
    assert RemoveNode(a, 1) == Ok([Remove(Container, DivNode)]);
    assert RemoveNode(a, 2) == Ok([Remove(Container, SpanNode)]);
    assert ChildOf(a, 3) == None && CommitWork(a, None) == Ok([]);
    var once := [Remove(Container, DivNode), Remove(Container, SpanNode)];
    assert CommitDeletionsFixed(a, [2]) == Ok([Remove(Container, SpanNode)]) by {
      assert [2][1..] == [];
      assert [Remove(Container, SpanNode)] + [] == [Remove(Container, SpanNode)];
    }
    assert [1, 2][1..] == [2];
    assert [Remove(Container, DivNode)] + [Remove(Container, SpanNode)] == once;
    assert CommitDeletionsFixed(a, [1, 2]) == Ok(once);
    assert once + [] == once;
    assert Attached() - {DivNode} - {SpanNode} == map[];
  }

  /** The fibers `commitRoot` visits, as written: the deleted forests, then the new tree. */
  function Visited(a: Arena, ds: seq<Id>, root: Id): (r: seq<Id>)
    requires Linked(a) && root in a.fibers && forall i :: 0 <= i < |ds| ==> ds[i] in a.fibers
    ensures forall i :: 0 <= i < |r| ==> r[i] in a.fibers
  {
    DeletedForests(a, ds) + Forest(a, ChildOf(a, root))
  }

  /** `op` occurs at two positions of `ops`. */
  predicate Twice(ops: seq<HostOp>, op: HostOp) {
    exists j, k :: 0 <= j < k < |ops| && ops[j] == op && ops[k] == op
  }

  /**
   * A deleted fiber that lies in the forest of an earlier deleted fiber (an
   * old sibling after it, or below it) is visited twice by the deletions.
   */
  lemma DeletedTwice(a: Arena, ds: seq<Id>, i: nat, j: nat) returns (p: nat, q: nat)
    requires Linked(a) && forall k :: 0 <= k < |ds| ==> ds[k] in a.fibers
    requires i < j < |ds| && ds[j] in Forest(a, Some(ds[i]))
    ensures p < q < |DeletedForests(a, ds)|
    ensures DeletedForests(a, ds)[p] == ds[j] && DeletedForests(a, ds)[q] == ds[j]
  {
    DeletedSplit(a, ds, i, j);
    var Fi := Forest(a, Some(ds[i]));
    var p' :| 0 <= p' < |Fi| && Fi[p'] == ds[j];
    p, q := OccursTwice(DeletedForests(a, ds[..i]), Fi, DeletedForests(a, ds[i + 1..j]),
                        Forest(a, Some(ds[j])), DeletedForests(a, ds[j + 1..]), ds[j], p');
  }

  /** The fibers the deletions visit, cut at the entries `i < j`. */
  lemma DeletedSplit(a: Arena, ds: seq<Id>, i: nat, j: nat)
    requires Linked(a) && forall k :: 0 <= k < |ds| ==> ds[k] in a.fibers
    requires i < j < |ds|
    ensures DeletedForests(a, ds) ==
              DeletedForests(a, ds[..i]) + (Forest(a, Some(ds[i])) + (DeletedForests(a, ds[i + 1..j]) +
              (Forest(a, Some(ds[j])) + DeletedForests(a, ds[j + 1..]))))
  {
    assert ds == ds[..i] + ds[i..];
    DeletedForestsAppend(a, ds[..i], ds[i..]);
    assert ds[i..][0] == ds[i] && ds[i..][1..] == ds[i + 1..];
    assert ds[i + 1..] == ds[i + 1..j] + ds[j..];
    DeletedForestsAppend(a, ds[i + 1..j], ds[j..]);
    assert ds[j..][0] == ds[j] && ds[j..][1..] == ds[j + 1..];
  }

  /** A value at `p'` of one block and heading a later block occurs at two positions of the whole. */
  lemma OccursTwice(pre: seq<Id>, Fi: seq<Id>, mid: seq<Id>, Fj: seq<Id>, post: seq<Id>, y: Id, p': nat)
    returns (p: nat, q: nat)
    requires p' < |Fi| && Fi[p'] == y
    requires Fj != [] && Fj[0] == y
    ensures p < q < |pre + (Fi + (mid + (Fj + post)))|
    ensures (pre + (Fi + (mid + (Fj + post))))[p] == y && (pre + (Fi + (mid + (Fj + post))))[q] == y
  {
    p := |pre| + p';
    q := |pre| + |Fi| + |mid|;
  }

  /** The first call of a block that occurs twice occurs twice. */
  lemma BlockTwice(x: Result<seq<HostOp>, CommitError>, e: Result<seq<HostOp>, CommitError>,
                   m: Result<seq<HostOp>, CommitError>, z: Result<seq<HostOp>, CommitError>)
    requires Then(x, Then(e, Then(m, Then(e, z)))).Ok?
    ensures e.Ok?
    ensures e.value != [] ==> Twice(Then(x, Then(e, Then(m, Then(e, z)))).value, e.value[0])
  {
    if e.value != [] {
      var ops := Then(x, Then(e, Then(m, Then(e, z)))).value;
      assert ops == x.value + (e.value + (m.value + (e.value + z.value)));
      assert ops[|x.value|] == e.value[0];
      assert ops[|x.value| + |e.value| + |m.value|] == e.value[0];
    }
  }

  /** The effects of a run of fibers, split around the fiber at `p`. */
  lemma EffectsAround(a: Arena, L: seq<Id>, p: nat)
    requires Linked(a) && forall k :: 0 <= k < |L| ==> L[k] in a.fibers
    requires p < |L|
    ensures Effects(a, L) == Then(Effects(a, L[..p]), Then(Effect(a, L[p]), Effects(a, L[p + 1..])))
  {
    assert L == L[..p] + L[p..];
    EffectsAppend(a, L[..p], L[p..]);
    assert L[p..][0] == L[p] && L[p..][1..] == L[p + 1..];
  }

  /** A fiber listed twice in a run of fibers issues the first call of its effect twice. */
  lemma EffectsRepeat(a: Arena, L: seq<Id>, p: nat, q: nat)
    requires Linked(a) && forall k :: 0 <= k < |L| ==> L[k] in a.fibers
    requires p < q < |L| && L[p] == L[q]
    requires Effects(a, L).Ok?
    ensures Effect(a, L[p]).Ok?
    ensures Effect(a, L[p]).value != [] ==> Twice(Effects(a, L).value, Effect(a, L[p]).value[0])
  {
    var R := L[p + 1..];
    EffectsAround(a, L, p);
    EffectsAround(a, R, q - p - 1);
    assert R[..q - p - 1] == L[p + 1..q] && R[q - p - 1] == L[q] && R[q - p..] == L[q + 1..];
    BlockTwice(Effects(a, L[..p]), Effect(a, L[p]), Effects(a, L[p + 1..q]), Effects(a, L[q + 1..]));
  }

  /**
   * For every tree, as written: when the deleted fiber `ds[j]` lies in the
   * forest of an earlier deleted fiber `ds[i]` (an old sibling after it,
   * adjacent or not), the commit visits it twice, once inside `ds[i]`'s
   * forest and once from the list, and issues the removal of its node twice.
   */
  lemma RevisitedRemovesTwice(a: Arena, ds: seq<Id>, root: Id, i: nat, j: nat)
    requires Linked(a) && root in a.fibers && forall k :: 0 <= k < |ds| ==> ds[k] in a.fibers
    requires i < j < |ds| && ds[j] in Forest(a, Some(ds[i]))
    requires a.fibers[ds[j]].effectTag == Some(Deletion)
    requires CommitRoot(a, ds, root).Ok?
    ensures RemoveNode(a, ds[j]).Ok?
    ensures Twice(CommitRoot(a, ds, root).value, RemoveNode(a, ds[j]).value[0])
  {
    var p, q := DeletedTwice(a, ds, i, j);
    var W := Visited(a, ds, root);
    assert W[p] == ds[j] && W[q] == ds[j];
    EffectsRepeat(a, W, p, q);
  }

  /**
   * ... and the second of those removals throws `NotFoundError`, whatever
   * the node tree, when no fiber the commit visits appends that node again.
   */
  lemma RevisitedRemovalThrows(a: Arena, ds: seq<Id>, root: Id, i: nat, j: nat, t: Parents)
    requires Linked(a) && root in a.fibers && forall k :: 0 <= k < |ds| ==> ds[k] in a.fibers
    requires i < j < |ds| && ds[j] in Forest(a, Some(ds[i]))
    requires a.fibers[ds[j]].effectTag == Some(Deletion)
    requires CommitRoot(a, ds, root).Ok?
    requires var W := Visited(a, ds, root);
      forall m :: 0 <= m < |W| && a.fibers[W[m]].effectTag == Some(Placement) ==> a.fibers[W[m]].dom != a.fibers[ds[j]].dom
    ensures Replay(t, CommitRoot(a, ds, root).value).Fail?
  {
    var W := Visited(a, ds, root);
    var ops := CommitRoot(a, ds, root).value;
    RevisitedRemovesTwice(a, ds, root, i, j);
    var op := RemoveNode(a, ds[j]).value[0];
    var j', k' :| 0 <= j' < k' < |ops| && ops[j'] == op && ops[k'] == op;
    assert NoAppendOf(ops, op.child) by {
      forall m | 0 <= m < |ops| ensures !(ops[m].Append? && ops[m].child == op.child) {
        if ops[m].Append? {
          EffectsOrigin(a, W, m);
          var l :| 0 <= l < |W| && ops[m] in Effect(a, W[l]).value;
          AppendsOwnNode(a, W[l], ops[m]);
        }
      }
    }
    ReplayRemovesTwice(t, ops, j', k');
  }

  /** Only a `PLACEMENT` appends, and what it appends is its own node. */
  lemma AppendsOwnNode(a: Arena, id: Id, op: HostOp)
    requires Linked(a) && id in a.fibers
    requires Effect(a, id).Ok? && op in Effect(a, id).value && op.Append?
    ensures a.fibers[id].effectTag == Some(Placement) && a.fibers[id].dom == Some(op.child)
  {
  }

  /** A list of removals of distinct attached nodes, each from the node it hangs under. */
  predicate Detachable(t: Parents, ops: seq<HostOp>) {
    && (forall i :: 0 <= i < |ops| ==> ops[i].Remove? && ops[i].child in t && t[ops[i].child] == ops[i].parent)
    && (forall i, j :: 0 <= i < j < |ops| ==> ops[i].child != ops[j].child)
  }

  /** The nodes the removals detach. */
  function Detached(ops: seq<HostOp>): set<Handle>
    requires forall i :: 0 <= i < |ops| ==> ops[i].Remove?
  {
    set i | 0 <= i < |ops| :: ops[i].child
  }

  /**
   * Removing distinct attached nodes never throws and detaches exactly
   * those nodes: with one removal per deleted fiber, as `CommitDeletionsFixed`
   * issues them, no `removeChild` fails.
   */
  lemma {:induction false} DetachableReplays(t: Parents, ops: seq<HostOp>)
    requires Detachable(t, ops)
    ensures Replay(t, ops) == Ok(t - Detached(ops))
    decreases |ops|
  {
    if ops == [] {
      assert Detached(ops) == {};
      assert t - {} == t;
    } else {
      var c := ops[0].child;
      var rest := ops[1..];
      var t' := t - {c};
      assert Detachable(t', rest) by {
        forall i | 0 <= i < |rest| ensures rest[i].Remove? && rest[i].child in t' && t'[rest[i].child] == rest[i].parent {
          assert rest[i] == ops[i + 1];
        }
        forall i, j | 0 <= i < j < |rest| ensures rest[i].child != rest[j].child {
          assert rest[i] == ops[i + 1] && rest[j] == ops[j + 1];
        }
      }
      DetachableReplays(t', rest);
      assert Detached(ops) == {c} + Detached(rest) by {
        forall h | h in Detached(ops) ensures h in {c} + Detached(rest) {
          var i :| 0 <= i < |ops| && ops[i].child == h;
          if i > 0 { assert rest[i - 1] == ops[i]; }
        }
        forall h | h in Detached(rest) ensures h in Detached(ops) {
          var i :| 0 <= i < |rest| && rest[i].child == h;
          assert ops[i + 1] == rest[i];
        }
      }
      assert t' - Detached(rest) == t - Detached(ops);
    }
  }

  /**
   * The corrected deletions never make `removeChild` throw: if the deleted
   * fibers have distinct nodes, each attached under its parent fiber's
   * node, every removal succeeds and detaches exactly those nodes.
   */
  lemma FixedDeletionsDetach(a: Arena, ds: seq<Id>, t: Parents)
    requires Linked(a) && forall i :: 0 <= i < |ds| ==> ds[i] in a.fibers
    requires CommitDeletionsFixed(a, ds).Ok?
    requires forall i, j :: 0 <= i < j < |ds| ==> a.fibers[ds[i]].dom != a.fibers[ds[j]].dom
    requires forall i :: 0 <= i < |ds| ==>
               a.fibers[ds[i]].dom.value in t && Some(t[a.fibers[ds[i]].dom.value]) == ParentDom(a, ds[i]).value
    ensures Replay(t, CommitDeletionsFixed(a, ds).value) ==
              Ok(t - set i | 0 <= i < |ds| :: a.fibers[ds[i]].dom.value)
  {
    var ops := CommitDeletionsFixed(a, ds).value;
    forall i | 0 <= i < |ds| ensures ops[i] == Remove(ParentDom(a, ds[i]).value.value, a.fibers[ds[i]].dom.value) {
      assert [ops[i]] == RemoveNode(a, ds[i]).value;
    }
    DetachableReplays(t, ops);
    assert Detached(ops) == set i | 0 <= i < |ds| :: a.fibers[ds[i]].dom.value;
  }
}
