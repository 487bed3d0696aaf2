/**
 * The scheduler: the globals `nextUnitOfWork`, `wipRoot`, `currentRoot` and
 * `deletions`, changed by `render`, by `performUnitOfWork` and by the idle
 * callback `workLoop`, which commits a finished tree.  The browser's
 * deadline becomes an oracle: one boolean per unit of work, saying whether
 * `timeRemaining()` was below 1 ms after it.
 */
module Scheduler {
  import opened Wrappers
  import opened Elements
  import opened PropDelta
  import opened Host
  import opened Fibers
  import opened Reconcile
  import opened Traversal
  import opened Commit
  import opened Slices

  /**
   * The renderer's globals, the fiber arena, the number of nodes
   * `createDom` has made so far (the next node is `Created(nodes)`), the
   * calls made on the render target, and which `commitRoot` commits the
   * finished tree: the one the renderer has (`AsWritten`) or the one with
   * the deletions commit corrected (see `Commit.CommitDeletionsFixed`).
   */
  datatype Sched = Sched(
    arena: Arena,
    nextUnit: Option<Id>,
    wipRoot: Option<Id>,
    currentRoot: Option<Id>,
    deletions: seq<Id>,
    nodes: nat,
    log: seq<HostOp>,
    mode: CommitMode)

  /** The globals refer to fibers of the arena, and there is work only on a tree in progress. */
  predicate Valid(s: Sched) {
    && Linked(s.arena)
    && Points(s.arena, s.nextUnit) && Points(s.arena, s.wipRoot) && Points(s.arena, s.currentRoot)
    && (forall i :: 0 <= i < |s.deletions| ==> s.deletions[i] in s.arena.fibers)
    && (s.nextUnit.Some? ==> s.wipRoot.Some?)
  }

  /** The state when the script starts: every global `null`, nothing rendered. */
  function Init(m: CommitMode): (s: Sched)
    ensures Valid(s) && s.nextUnit.None? && s.wipRoot.None? && s.currentRoot.None?
    ensures s.log == [] && s.mode == m
  {
    Sched(Arena(map[], 0), None, None, None, [], 0, [], m)
  }

  /** The first argument of `render`: one element, or an array of them. */
  datatype RenderArg = One(element: Element) | Many(elements: seq<Element>)

  /** `Array.isArray(element) ? [...element] : [element]`. */
  function RootChildren(arg: RenderArg): (es: seq<Element>)
    ensures arg.One? ==> es == [arg.element]
    ensures arg.Many? ==> es == arg.elements
  {
    match arg
    case One(e) => [e]
    case Many(es) => es
  }

  /**
   * `render(element, container)`: a new root fiber holding the container as
   * its node and the current root as its alternate becomes both the tree
   * in progress and the next unit of work, with an empty deletions list.
   */
  function Render(s: Sched, arg: RenderArg, container: Handle): (r: Sched)
    requires Valid(s)
    ensures Valid(r)
    ensures r.wipRoot == r.nextUnit == Some(s.arena.next)
    ensures s.arena.next in r.arena.fibers && s.arena.next !in s.arena.fibers
    ensures r.arena.fibers[s.arena.next] ==
              Fiber(None, Props([], RootChildren(arg)), Some(container), None, None, None, s.currentRoot, None)
    ensures Rewires(s.arena, r.arena)
    ensures r.currentRoot == s.currentRoot && r.deletions == [] && r.log == s.log && r.nodes == s.nodes
    ensures r.mode == s.mode
  {
    assert Earlier(s.arena, s.arena.next, s.currentRoot) by {
      if s.currentRoot.Some? { LinkedAt(s.arena, s.currentRoot.value); }
    }
    assert s.arena.next !in s.arena.fibers by {
      if s.arena.next in s.arena.fibers { LinkedAt(s.arena, s.arena.next); }
    }
    var root := Fiber(None, Props([], RootChildren(arg)), Some(container), None, None, None, s.currentRoot, None);
    var a := Alloc(s.arena, root);
    Sched(a, Some(s.arena.next), Some(s.arena.next), s.currentRoot, [], s.nodes, s.log, s.mode)
  }

  /**
   * The root `render` makes is a root of its own tree with nothing below it
   * yet, and its first reconciliation diffs against the children of the
   * tree committed last.
   */
  lemma RenderedRoot(s: Sched, arg: RenderArg, container: Handle)
    requires Valid(s)
    ensures
      var r := Render(s, arg, container);
      var root := s.arena.next;
      && IsRoot(r.arena, root)
      && Forest(r.arena, Some(root)) == [root]
      && NextFiber(r.arena, root) == None
      && OldStart(r.arena, root) == if s.currentRoot.Some? then s.arena.fibers[s.currentRoot.value].child else None
  {
    var r := Render(s, arg, container);
    var root := s.arena.next;
    assert Forest(r.arena, Some(root)) == [root] + Forest(r.arena, None) + Forest(r.arena, None);
    if s.currentRoot.Some? {
      assert SameCore(s.arena.fibers[s.currentRoot.value], r.arena.fibers[s.currentRoot.value]);
    }
  }

  /** The node kind `createDom` asks for: a text node for `TEXT_ELEMENT`, else an element named by the type. */
  function KindOf(f: Fiber): NodeKind {
    if f.ftype == Some(TextElement) then TextNode else ElementNode(f.ftype.GetOr("undefined"))
  }

  /** `createDom(fiber)` with the new node `h`: create it, then `updateDom(h, {}, fiber.props)`. */
  function CreateDom(f: Fiber, h: Handle): (ops: seq<HostOp>)
    ensures |ops| >= 1 && ops[0] == CreateNode(h, KindOf(f))
    ensures forall i :: 1 <= i < |ops| ==> ops[i].Patch? && ops[i].node == h
  {
    [CreateNode(h, KindOf(f))] + PatchAll(h, UpdateDom([], PropsObject(f.props)))
  }

  /**
   * The node `createDom` makes starts out showing the fiber's props: every
   * defined plain property set, and exactly the props' listeners added.
   */
  lemma CreateDomShows(f: Fiber, h: Handle)
    ensures
      var ops := CreateDom(f, h);
      Shows(ApplyAll(NodeState(map[], {}), Patches(ops[1..])), PropsObject(f.props))
  {
    var ops := CreateDom(f, h);
    var o := PropsObject(f.props);
    assert Patches(ops[1..]) == UpdateDom([], o);
    assert Keys([]) == [];
    forall k ensures Lookup([], k) == Undefined {}
    assert Listeners([]) == {};
    UpdateDomReachesNext(NodeState(map[], {}), [], o);
  }

  /**
   * `performUnitOfWork(fiber)` on the next unit: give the fiber a node if it
   * has none, reconcile its children elements, and move on to the next
   * fiber in the walk.  `PerformStep` states what it does.
   */
  function Perform(s: Sched): (r: Sched)
    requires Valid(s) && s.nextUnit.Some?
    ensures Valid(r)
    ensures r.wipRoot == s.wipRoot && r.currentRoot == s.currentRoot && r.mode == s.mode
  {
    var u := s.nextUnit.value;
    var f := s.arena.fibers[u];
    var a1 := WithDom(s);
    var log1 := if f.dom.None? then s.log + CreateDom(f, Created(s.nodes)) else s.log;
    var nodes1 := if f.dom.None? then s.nodes + 1 else s.nodes;
    assert a1.fibers.Keys == s.arena.fibers.Keys;
    var rc := ReconcileChildren(a1, u, f.props.children, s.deletions);
    Sched(rc.arena, NextFiber(rc.arena, u), s.wipRoot, s.currentRoot, rc.deletions, nodes1, log1, s.mode)
  }

  /** The arena once the unit has a node: `fiber.dom = createDom(fiber)` when it had none, the next fresh one. */
  function WithDom(s: Sched): (a: Arena)
    requires Valid(s) && s.nextUnit.Some?
    ensures Linked(a) && a.next == s.arena.next
    ensures a.fibers.Keys == s.arena.fibers.Keys
    ensures a.fibers == s.arena.fibers[s.nextUnit.value :=
              s.arena.fibers[s.nextUnit.value].(dom := Some(s.arena.fibers[s.nextUnit.value].dom.GetOr(Created(s.nodes))))]
  {
    var u := s.nextUnit.value;
    var f := s.arena.fibers[u];
    if f.dom.None? then SetDom(s.arena, u, Created(s.nodes))
    else
      assert f.(dom := Some(f.dom.value)) == f;
      assert s.arena.fibers[u := f] == s.arena.fibers;
      s.arena
  }

  /**
   * One unit of work: the fiber gets a fresh node and the calls of
   * `createDom` are logged if it had none; the arena and the deletions
   * are then those `reconcileChildren` leaves for the fiber's child
   * elements, against the deletions so far, which are kept; the next unit
   * is the fiber's successor in the rebuilt tree.
   */
  lemma PerformStep(s: Sched)
    requires Valid(s) && s.nextUnit.Some?
    ensures
      var r := Perform(s);
      var u := s.nextUnit.value;
      var f := s.arena.fibers[u];
      && u in r.arena.fibers
      && s.arena.fibers.Keys <= r.arena.fibers.Keys && s.arena.next <= r.arena.next
      && |s.deletions| <= |r.deletions| && r.deletions[..|s.deletions|] == s.deletions
      && r.arena == ReconcileChildren(WithDom(s), u, f.props.children, s.deletions).arena
      && r.deletions == ReconcileChildren(WithDom(s), u, f.props.children, s.deletions).deletions
      && r.arena.fibers[u].dom == Some(f.dom.GetOr(Created(s.nodes)))
      && r.nextUnit == NextFiber(r.arena, u)
      && (f.dom.Some? ==> r.log == s.log && r.nodes == s.nodes)
      && (f.dom.None? ==> r.log == s.log + CreateDom(f, Created(s.nodes)) && r.nodes == s.nodes + 1)
  {
    var u := s.nextUnit.value;
    var f := s.arena.fibers[u];
    var a1 := WithDom(s);
    var rc := ReconcileChildren(a1, u, f.props.children, s.deletions);
    assert SameCore(a1.fibers[u], rc.arena.fibers[u]);
  }

  /** `performUnitOfWork` when there is a next unit; a state without one is left as it is. */
  function Step(s: Sched): (r: Sched)
    ensures Valid(s) ==> Valid(r) && r.wipRoot == s.wipRoot && r.currentRoot == s.currentRoot
    ensures s.nextUnit.None? ==> r == s
  {
    if Valid(s) && s.nextUnit.Some? then Perform(s) else s
  }

  /** The loop condition's `nextUnitOfWork`. */
  predicate Busy(s: Sched) {
    s.nextUnit.Some?
  }

  /** `n` units of work one after the other, or fewer if the work runs out. */
  function Units(s: Sched, n: nat): (r: Sched)
    requires Valid(s)
    ensures Valid(r) && r.wipRoot == s.wipRoot && r.currentRoot == s.currentRoot
  {
    IterateKeeps(Step, x => Valid(x) && x.wipRoot == s.wipRoot && x.currentRoot == s.currentRoot, s, n);
    Iterate(Step, s, n)
  }

  /** Running `m` units and then `n` more is running `m + n`. */
  lemma UnitsAdd(s: Sched, m: nat, n: nat)
    requires Valid(s)
    ensures Units(Units(s, m), n) == Units(s, m + n)
  {
    IterateAdd(Step, s, m, n);
  }

  /** Once there is no next unit, running more units changes nothing. */
  lemma UnitsDone(s: Sched, m: nat, n: nat)
    requires Valid(s) && m <= n && Units(s, m).nextUnit.None?
    ensures Units(s, n) == Units(s, m)
  {
    IterateSettles(Step, s, m, n);
  }

  /**
   * The `while (nextUnitOfWork && !shouldYield)` loop of one idle callback:
   * `deadline[j]` is whether `timeRemaining()` was below 1 after unit `j`;
   * past its end the callback has run out of time.
   */
  function RunLoop(s: Sched, deadline: seq<bool>): (r: Sched)
    requires Valid(s)
    ensures Valid(r) && r.wipRoot == s.wipRoot && r.currentRoot == s.currentRoot
  {
    SliceIterates(Step, Busy, s, deadline);
    assert Units(s, SliceCount(Step, Busy, s, deadline)) == Slice(Step, Busy, s, deadline);
    Slice(Step, Busy, s, deadline)
  }

  /** How many units that loop performs. */
  function Count(s: Sched, deadline: seq<bool>): nat {
    SliceCount(Step, Busy, s, deadline)
  }

  /**
   * The deadline only decides how many units a callback performs: the loop
   * is the first `Count` units of the one fixed sequence, it performs at
   * least one when there is work, and it stops with work left only where
   * the deadline says to yield.
   */
  lemma RunLoopUnits(s: Sched, deadline: seq<bool>)
    requires Valid(s)
    ensures RunLoop(s, deadline) == Units(s, Count(s, deadline))
    ensures s.nextUnit.Some? ==> 1 <= Count(s, deadline) <= |deadline| + 1
    ensures s.nextUnit.None? ==> Count(s, deadline) == 0
    ensures RunLoop(s, deadline).nextUnit.Some? ==>
              Count(s, deadline) >= 1 && (Count(s, deadline) > |deadline| || deadline[Count(s, deadline) - 1])
  {
    SliceIterates(Step, Busy, s, deadline);
  }

  /** The calls `commitRoot()` makes, as written or with the deletions commit corrected. */
  function CommitCalls(t: Sched): Result<seq<HostOp>, CommitError>
    requires Valid(t) && t.wipRoot.Some?
  {
    match t.mode
    case AsWritten => CommitRoot(t.arena, t.deletions, t.wipRoot.value)
    case Corrected => CommitRootFixed(t.arena, t.deletions, t.wipRoot.value)
  }

  /**
   * `commitRoot()`: the calls are logged, the finished tree becomes
   * `currentRoot` and `wipRoot` is cleared; a `TypeError` stops the commit.
   */
  function CommitStep(t: Sched): (r: Result<Sched, CommitError>)
    requires Valid(t) && t.nextUnit.None? && t.wipRoot.Some?
    ensures r.Ok? <==> CommitCalls(t).Ok?
    ensures r.Fail? ==> r.error == CommitCalls(t).error
    ensures r.Ok? ==> Valid(r.value)
    ensures r.Ok? ==> r.value.currentRoot == t.wipRoot && r.value.wipRoot.None? && r.value.nextUnit.None?
    ensures r.Ok? ==> r.value.arena == t.arena && r.value.deletions == t.deletions && r.value.nodes == t.nodes
    ensures r.Ok? ==> r.value.mode == t.mode && t.log <= r.value.log
  {
    var ops := CommitCalls(t);
    if ops.Fail? then Fail(ops.error)
    else Ok(t.(log := t.log + ops.value, currentRoot := t.wipRoot, wipRoot := None))
  }

  /**
   * What a successful commit writes.  As written: the effects of every
   * deleted fiber's forest (its old subtree and the old siblings after it
   * included), then those of the new tree's fibers below the root, in
   * depth-first pre-order.  Corrected: one removal per deletion, the
   * removal of that fiber's own node, then the same effects of the new tree.
   */
  lemma CommitStepLog(t: Sched)
    requires Valid(t) && t.nextUnit.None? && t.wipRoot.Some?
    requires CommitStep(t).Ok?
    ensures
      var a := t.arena;
      var root := t.wipRoot.value;
      var tree := Effects(a, Forest(a, ChildOf(a, root)));
      var log := CommitStep(t).value.log;
      && tree.Ok?
      && (t.mode == AsWritten ==>
            var all := Effects(a, DeletedForests(a, t.deletions) + Forest(a, ChildOf(a, root)));
            all.Ok? && log == t.log + all.value)
      && (t.mode == Corrected ==>
            && |log| == |t.log| + |t.deletions| + |tree.value|
            && log[..|t.log|] == t.log
            && (forall i :: 0 <= i < |t.deletions| ==> [log[|t.log| + i]] == RemoveNode(a, t.deletions[i]).value)
            && log[|t.log| + |t.deletions|..] == tree.value)
  {
    var a := t.arena;
    var root := t.wipRoot.value;
    var ds := t.deletions;
    var log := CommitStep(t).value.log;
    if t.mode == AsWritten {
      EffectsAppend(a, DeletedForests(a, ds), Forest(a, ChildOf(a, root)));
    } else {
      var ops := CommitRootFixed(a, ds, root).value;
      assert log == t.log + ops;
      assert forall i :: 0 <= i < |ds| ==> log[|t.log| + i] == ops[i];
      assert log[|t.log| + |ds|..] == ops[|ds|..];
    }
  }

  /** What `workLoop` does after its loop: `commitRoot()` if the tree in progress is finished. */
  function Finish(t: Sched): Result<Sched, CommitError> {
    if Valid(t) && t.nextUnit.None? && t.wipRoot.Some? then CommitStep(t) else Ok(t)
  }

  /**
   * `workLoop(deadline)`: perform units until there are none or the
   * callback must yield, then commit if the tree in progress is finished.
   */
  function WorkLoop(s: Sched, deadline: seq<bool>): (r: Result<Sched, CommitError>)
    requires Valid(s)
    ensures r.Ok? ==> Valid(r.value)
    ensures s.wipRoot.None? ==> r == Ok(s)
    ensures
      var u := Units(s, Count(s, deadline));
      && (s.wipRoot.Some? && u.nextUnit.Some? ==> r == Ok(u))
      && (s.wipRoot.Some? && u.nextUnit.None? ==> r == CommitStep(u))
    ensures r.Ok? && s.wipRoot.Some? && r.value.wipRoot.None? ==> r.value.currentRoot == s.wipRoot
  {
    RunLoopUnits(s, deadline);
    Finish(RunLoop(s, deadline))
  }

  /** Nothing in progress: no unit to perform and no tree to commit. */
  predicate Done(s: Sched) {
    s.wipRoot.None? && s.nextUnit.None?
  }

  /** The scheduler's step, loop condition and commit fit the shape of `Slices`. */
  lemma SchedulerFits()
    ensures Fits(Step, Busy, Finish, Done)
  {
  }

  /** The idle callbacks one after the other, until a commit throws. */
  function Run(s: Sched, deadlines: seq<seq<bool>>): (r: Result<Sched, CommitError>)
    requires Valid(s)
    ensures r.Ok? ==> Valid(r.value)
  {
    CallbacksKeep(Step, Busy, Finish, Valid, s, deadlines);
    Callbacks(Step, Busy, Finish, s, deadlines)
  }

  /** Each callback is one `WorkLoop`. */
  lemma RunUnfolds(s: Sched, deadlines: seq<seq<bool>>)
    requires Valid(s) && deadlines != []
    ensures Run(s, deadlines) ==
              match WorkLoop(s, deadlines[0])
              case Fail(e) => Fail(e)
              case Ok(t) => Run(t, deadlines[1..])
  {
    assert Callback(Step, Busy, Finish, s, deadlines[0]) == WorkLoop(s, deadlines[0]);
  }

  /** How many units a run of callbacks performs before its tree is committed. */
  function RunCount(s: Sched, deadlines: seq<seq<bool>>): nat {
    CallbacksCount(Step, Busy, Finish, Done, s, deadlines)
  }

  /**
   * Whatever the deadlines, a run of callbacks on a tree in progress is the
   * first `RunCount` units of the one fixed sequence, followed, once they
   * are all done, by the commit.
   */
  lemma RunShape(s: Sched, deadlines: seq<seq<bool>>)
    requires Valid(s) && s.wipRoot.Some?
    ensures
      var u := Units(s, RunCount(s, deadlines));
      var r := Run(s, deadlines);
      && (r.Fail? ==> u.nextUnit.None? && CommitStep(u) == r)
      && (r.Ok? && r.value.wipRoot.Some? ==> r.value == u)
      && (r.Ok? && r.value.wipRoot.None? ==> u.nextUnit.None? && CommitStep(u) == r)
  {
    SchedulerFits();
    CallbacksShape(Step, Busy, Finish, Done, s, deadlines);
  }

  /** The run has committed its tree or stopped on a throw. */
  predicate Finished(r: Result<Sched, CommitError>) {
    r.Fail? || r.value.wipRoot.None?
  }

  /**
   * The deadlines affect only how the units are spread over callbacks: any
   * two runs from the same state that both get to the end of the tree in
   * progress end in the same state, or throw the same error.
   */
  lemma ScheduleIndependence(s: Sched, ds1: seq<seq<bool>>, ds2: seq<seq<bool>>)
    requires Valid(s)
    requires Finished(Run(s, ds1)) && Finished(Run(s, ds2))
    ensures Run(s, ds1) == Run(s, ds2)
  {
    SchedulerFits();
    CallbacksAgree(Step, Busy, Finish, Done, s, ds1, ds2);
  }
}
