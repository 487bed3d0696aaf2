/**
 * The commit phase: `commitRoot` and the recursive `commitWork`, as the
 * list of calls they make on the render target, or the `TypeError` that
 * stops them.
 */
module Commit {
  import opened Wrappers
  import opened Elements
  import opened PropDelta
  import opened Host
  import opened Fibers

  /** The `TypeError`s a commit can throw, with the fiber being committed. */
  datatype CommitError =
    | NoParent(fiber: Id)     // `fiber.parent.dom` on a fiber without a parent
    | NoParentDom(fiber: Id)  // `appendChild` or `removeChild` on a null `domParent`
    | NoAlternate(fiber: Id)  // `fiber.alternate.props` on an `UPDATE` without an alternate
    | NoDom(fiber: Id)        // `removeChild(null)` on a `DELETION` without a node

  /** Which deletions commit `commitRoot` runs: the renderer's own, or `CommitDeletionsFixed`. */
  datatype CommitMode = AsWritten | Corrected

  /** The calls of `x`, then those of `y`, unless one of them throws first. */
  function Then(x: Result<seq<HostOp>, CommitError>, y: Result<seq<HostOp>, CommitError>): (r: Result<seq<HostOp>, CommitError>)
    ensures r.Ok? <==> x.Ok? && y.Ok?
    ensures r.Ok? ==> r.value == x.value + y.value
    ensures x.Fail? ==> r == x
  {
    if x.Fail? then x else if y.Fail? then y else Ok(x.value + y.value)
  }

  lemma ThenAssoc(x: Result<seq<HostOp>, CommitError>, y: Result<seq<HostOp>, CommitError>, z: Result<seq<HostOp>, CommitError>)
    ensures Then(Then(x, y), z) == Then(x, Then(y, z))
  {
    if x.Ok? && y.Ok? && z.Ok? {
      assert x.value + y.value + z.value == x.value + (y.value + z.value);
    }
  }

  /** `fiber.parent.dom`. */
  function ParentDom(a: Arena, id: Id): (r: Result<Option<Handle>, CommitError>)
    requires Linked(a) && id in a.fibers
    ensures r.Fail? <==> a.fibers[id].parent.None?
  {
    LinkedAt(a, id);
    var f := a.fibers[id];
    if f.parent.None? then Fail(NoParent(id)) else Ok(a.fibers[f.parent.value].dom)
  }

  /**
   * The calls `commitWork` makes for the fiber itself, before it recurses:
   * `PLACEMENT` appends its node, `UPDATE` patches its node from the
   * alternate's props to its own, `DELETION` removes its node; a fiber
   * without a node is skipped unless it is a `DELETION`.
   */
  function Effect(a: Arena, id: Id): (r: Result<seq<HostOp>, CommitError>)
    requires Linked(a) && id in a.fibers
    // `fiber.parent.dom` throws first, whatever the tag
    ensures a.fibers[id].parent.None? ==> r == Fail(NoParent(id))
    // `PLACEMENT` with a node: one `appendChild` under the parent's node, which must exist
    ensures var f := a.fibers[id];
      f.parent.Some? && f.effectTag == Some(Placement) && f.dom.Some? ==>
        && (r.Ok? <==> ParentDom(a, id).value.Some?)
        && (r.Fail? ==> r.error == NoParentDom(id))
        && (r.Ok? ==> r.value == [Append(ParentDom(a, id).value.value, f.dom.value)])
    // `UPDATE` with a node: throws without an alternate, else patches the node from the alternate's props to its own
    ensures var f := a.fibers[id];
      f.parent.Some? && f.effectTag == Some(Update) && f.dom.Some? ==>
        && (r.Ok? <==> f.alternate.Some?)
        && (r.Fail? ==> r.error == NoAlternate(id))
        && (r.Ok? ==>
              && f.alternate.value in a.fibers
              && (forall i :: 0 <= i < |r.value| ==> r.value[i].Patch? && r.value[i].node == f.dom.value)
              && Patches(r.value) == UpdateDom(PropsObject(a.fibers[f.alternate.value].props), PropsObject(f.props)))
    // `DELETION`: the fiber's own node is removed, with or without a node to remove
    ensures a.fibers[id].effectTag == Some(Deletion) ==> r == RemoveNode(a, id)
    // no tag, or a placement or update without a node: nothing
    ensures var f := a.fibers[id];
      f.parent.Some? && (f.effectTag.None? || (f.effectTag != Some(Deletion) && f.dom.None?)) ==> r == Ok([])
    ensures r.Ok? ==> forall op :: op in r.value ==> Addresses(op, a.fibers[id].dom)
    ensures a.fibers[id].effectTag != Some(Deletion) ==> r.Ok? ==> forall op :: op in r.value ==> !op.Remove?
  {
    LinkedAt(a, id);
    var f := a.fibers[id];
    var domParent := ParentDom(a, id);
    if domParent.Fail? then Fail(domParent.error)
    else if f.effectTag == Some(Placement) && f.dom.Some? then
      if domParent.value.None? then Fail(NoParentDom(id)) else Ok([Append(domParent.value.value, f.dom.value)])
    else if f.effectTag == Some(Update) && f.dom.Some? then
      if f.alternate.None? then Fail(NoAlternate(id))
      else
        var ops := PatchAll(f.dom.value, UpdateDom(PropsObject(a.fibers[f.alternate.value].props), PropsObject(f.props)));
        Ok(ops)
    else if f.effectTag == Some(Deletion) then RemoveNode(a, id)
    else Ok([])
  }

  /**
   * The `UPDATE` does its job: on a node that shows the alternate's props,
   * the patches leave a node that shows the fiber's own props.
   */
  lemma UpdateEffectShows(a: Arena, id: Id, n: NodeState)
    requires Linked(a) && id in a.fibers
    requires a.fibers[id].effectTag == Some(Update) && Effect(a, id).Ok? && a.fibers[id].dom.Some?
    requires var alt := a.fibers[id].alternate;
      alt.Some? && alt.value in a.fibers &&
      Shows(n, PropsObject(a.fibers[alt.value].props)) && DistinctEventTypes(PropsObject(a.fibers[alt.value].props))
    ensures forall i :: 0 <= i < |Effect(a, id).value| ==> Effect(a, id).value[i].Patch?
    ensures Shows(ApplyAll(n, Patches(Effect(a, id).value)), PropsObject(a.fibers[id].props))
  {
    var f := a.fibers[id];
    UpdateDomReachesNext(n, PropsObject(a.fibers[f.alternate.value].props), PropsObject(f.props));
  }

  /** The call is about the node `dom`: it patches, appends or removes that node. */
  predicate Addresses(op: HostOp, dom: Option<Handle>) {
    match op
    case CreateNode(_, _) => false
    case Patch(n, _) => dom == Some(n)
    case Append(_, c) => dom == Some(c)
    case Remove(_, c) => dom == Some(c)
  }

  /** The effects of the fibers `ids`, one after the other. */
  function Effects(a: Arena, ids: seq<Id>): (r: Result<seq<HostOp>, CommitError>)
    requires Linked(a) && forall i :: 0 <= i < |ids| ==> ids[i] in a.fibers
    ensures r.Ok? <==> forall i :: 0 <= i < |ids| ==> Effect(a, ids[i]).Ok?
  {
    if ids == [] then Ok([]) else Then(Effect(a, ids[0]), Effects(a, ids[1..]))
  }

  lemma {:induction false} EffectsAppend(a: Arena, xs: seq<Id>, ys: seq<Id>)
    requires Linked(a)
    requires forall i :: 0 <= i < |xs| ==> xs[i] in a.fibers
    requires forall i :: 0 <= i < |ys| ==> ys[i] in a.fibers
    ensures Effects(a, xs + ys) == Then(Effects(a, xs), Effects(a, ys))
  {
    if xs == [] {
      assert xs + ys == ys;
      if Effects(a, ys).Ok? {
        assert [] + Effects(a, ys).value == Effects(a, ys).value;
      }
    } else {
      assert (xs + ys)[1..] == xs[1..] + ys;
      EffectsAppend(a, xs[1..], ys);
      ThenAssoc(Effect(a, xs[0]), Effects(a, xs[1..]), Effects(a, ys));
    }
  }

  /** Every call of a run of effects is a call of one of the fibers' own effects. */
  lemma {:induction false} EffectsOrigin(a: Arena, ids: seq<Id>, m: nat)
    requires Linked(a) && forall i :: 0 <= i < |ids| ==> ids[i] in a.fibers
    requires Effects(a, ids).Ok? && m < |Effects(a, ids).value|
    ensures exists l :: 0 <= l < |ids| && Effects(a, ids).value[m] in Effect(a, ids[l]).value
  {
    var e := Effect(a, ids[0]).value;
    if m < |e| {
      assert Effects(a, ids).value[m] == e[m];
    } else {
      EffectsOrigin(a, ids[1..], m - |e|);
      var l :| 0 <= l < |ids[1..]| && Effects(a, ids[1..]).value[m - |e|] in Effect(a, ids[1..][l]).value;
      assert ids[1..][l] == ids[l + 1];
    }
  }

  /**
   * `commitWork(fiber)`: the fiber's own effect, then its `child`, then its
   * `sibling`.  So it walks the fibers below and after `link` in
   * depth-first pre-order: its calls are the effects of `Forest(a, link)`,
   * in that order, and it throws exactly when one of those effects does.
   */
  function CommitWork(a: Arena, link: Option<Id>): (r: Result<seq<HostOp>, CommitError>)
    requires Linked(a) && Points(a, link)
    ensures r == Effects(a, Forest(a, link))
    decreases Rank(a, link)
  {
    if link.None? then Ok([])
    else
      LinkedAt(a, link.value);
      var f := a.fibers[link.value];
      var C := Forest(a, f.child);
      var S := Forest(a, f.sibling);
      assert Forest(a, link) == [link.value] + (C + S);
      EffectsAppend(a, C, S);
      assert ([link.value] + (C + S))[1..] == C + S;
      Then(Effect(a, link.value), Then(CommitWork(a, f.child), CommitWork(a, f.sibling)))
  }

  /** The fibers `deletions.forEach(commitWork)` visits: each deleted fiber's forest, in list order. */
  function DeletedForests(a: Arena, ds: seq<Id>): (r: seq<Id>)
    requires Linked(a) && forall i :: 0 <= i < |ds| ==> ds[i] in a.fibers
    ensures forall i :: 0 <= i < |r| ==> r[i] in a.fibers
  {
    if ds == [] then [] else Forest(a, Some(ds[0])) + DeletedForests(a, ds[1..])
  }

  lemma {:induction false} DeletedForestsAppend(a: Arena, xs: seq<Id>, ys: seq<Id>)
    requires Linked(a)
    requires forall i :: 0 <= i < |xs| ==> xs[i] in a.fibers
    requires forall i :: 0 <= i < |ys| ==> ys[i] in a.fibers
    ensures DeletedForests(a, xs + ys) == DeletedForests(a, xs) + DeletedForests(a, ys)
  {
    if xs == [] {
      assert xs + ys == ys;
    } else {
      assert (xs + ys)[0] == xs[0] && (xs + ys)[1..] == xs[1..] + ys;
      DeletedForestsAppend(a, xs[1..], ys);
    }
  }

  /**
   * `deletions.forEach(commitWork)`: the effects of every fiber of every
   * deleted fiber's forest, its old subtree and the old siblings after it
   * included, and so the fibers that follow it in the list once more.
   */
  function CommitDeletions(a: Arena, ds: seq<Id>): (r: Result<seq<HostOp>, CommitError>)
    requires Linked(a) && forall i :: 0 <= i < |ds| ==> ds[i] in a.fibers
    ensures r == Effects(a, DeletedForests(a, ds))
  {
    if ds == [] then Ok([])
    else
      EffectsAppend(a, Forest(a, Some(ds[0])), DeletedForests(a, ds[1..]));
      Then(CommitWork(a, Some(ds[0])), CommitDeletions(a, ds[1..]))
  }

  /**
   * `commitRoot()`'s calls: the deletions first, each through `commitWork`,
   * then the new tree from `wipRoot.child`; that is, the effects of the
   * deleted forests and then of the new tree, in pre-order.  (The
   * assignments to `currentRoot` and `wipRoot` are made by the scheduler.)
   */
  function CommitRoot(a: Arena, ds: seq<Id>, root: Id): (r: Result<seq<HostOp>, CommitError>)
    requires Linked(a) && root in a.fibers && forall i :: 0 <= i < |ds| ==> ds[i] in a.fibers
    ensures r == Effects(a, DeletedForests(a, ds) + Forest(a, ChildOf(a, root)))
  {
    EffectsAppend(a, DeletedForests(a, ds), Forest(a, ChildOf(a, root)));
    Then(CommitDeletions(a, ds), CommitWork(a, ChildOf(a, root)))
  }

  /** `domParent.removeChild(fiber.dom)`. */
  function RemoveNode(a: Arena, id: Id): (r: Result<seq<HostOp>, CommitError>)
    requires Linked(a) && id in a.fibers
    ensures r.Ok? <==> ParentDom(a, id).Ok? && ParentDom(a, id).value.Some? && a.fibers[id].dom.Some?
    ensures r.Ok? ==> r.value == [Remove(ParentDom(a, id).value.value, a.fibers[id].dom.value)]
  {
    var domParent := ParentDom(a, id);
    if domParent.Fail? then Fail(domParent.error)
    else if domParent.value.None? then Fail(NoParentDom(id))
    else if a.fibers[id].dom.None? then Fail(NoDom(id))
    else Ok([Remove(domParent.value.value, a.fibers[id].dom.value)])
  }

  /**
   * The deletions committed as intended: each deleted fiber's own node is
   * removed from its parent's node, once, and neither its old subtree nor
   * its old siblings are visited.
   */
  function CommitDeletionsFixed(a: Arena, ds: seq<Id>): (r: Result<seq<HostOp>, CommitError>)
    requires Linked(a) && forall i :: 0 <= i < |ds| ==> ds[i] in a.fibers
    ensures r.Ok? <==> forall i :: 0 <= i < |ds| ==> RemoveNode(a, ds[i]).Ok?
    ensures r.Ok? ==> |r.value| == |ds|
    ensures r.Ok? ==> forall i :: 0 <= i < |ds| ==> [r.value[i]] == RemoveNode(a, ds[i]).value
  {
    if ds == [] then Ok([])
    else
      var rest := CommitDeletionsFixed(a, ds[1..]);
      var r := Then(RemoveNode(a, ds[0]), rest);
      assert r.Ok? ==> forall i :: 1 <= i < |ds| ==> r.value[i] == rest.value[i - 1];
      r
  }

  /**
   * `commitRoot()` with the deletions committed by `CommitDeletionsFixed`:
   * first one `removeChild` per deleted fiber, each the removal of that
   * fiber's own node, then the effects of the new tree in pre-order; it
   * throws exactly when one of those removals or effects does.
   */
  function CommitRootFixed(a: Arena, ds: seq<Id>, root: Id): (r: Result<seq<HostOp>, CommitError>)
    requires Linked(a) && root in a.fibers && forall i :: 0 <= i < |ds| ==> ds[i] in a.fibers
    ensures r.Ok? <==>
              && (forall i :: 0 <= i < |ds| ==> RemoveNode(a, ds[i]).Ok?)
              && Effects(a, Forest(a, ChildOf(a, root))).Ok?
    ensures r.Ok? ==> |r.value| >= |ds|
    ensures r.Ok? ==> forall i :: 0 <= i < |ds| ==> [r.value[i]] == RemoveNode(a, ds[i]).value
    ensures r.Ok? ==> r.value[|ds|..] == Effects(a, Forest(a, ChildOf(a, root))).value
  {
    var dels := CommitDeletionsFixed(a, ds);
    var r := Then(dels, CommitWork(a, ChildOf(a, root)));
    assert r.Ok? ==> r.value[..|ds|] == dels.value;
    r
  }
}
