# Didact v4 reconciler, modelled in Dafny

Didact is a teaching re-implementation of React's fiber architecture. This
project models its "v4" stage, `src/index.js`:

- **elements** are immutable trees built by `createElement`; primitive children are wrapped as `TEXT_ELEMENT` nodes;
- **fibers** are the mutable work records, linked by `parent`, `child`, `sibling` and `alternate`;
- **`render`** starts a new tree in progress (`wipRoot`) whose `alternate` is the tree committed last (`currentRoot`);
- **`workLoop`**, an idle callback, performs units of work until the browser asks it to yield;
- **a unit of work** (`performUnitOfWork`) gives a fiber a DOM node, diffs its previous children against its new child elements by position (`reconcileChildren`), and returns the next fiber in depth-first pre-order;
- **the commit** (`commitRoot`, `commitWork`) runs once the tree is finished: it applies the deletions, then each fiber's `PLACEMENT`, `UPDATE` or `DELETION` effect, and makes the tree current;
- **`updateDom`** turns a change of props into listener removals, property clears, property writes and listener additions.

How the model represents these:

- The fiber object graph is an **arena**: a map from integer ids to fiber records. Ids are allocated in order, so a fiber's `child` and `sibling` are newer than it and its `parent` and `alternate` older (`Fibers.Linked`).
- The DOM is not modelled as a document. Every call the renderer makes on it is recorded in an ordered log of `Host.HostOp`s: node creation, `updateDom` patches, `appendChild`, `removeChild`.
- `Host.Replay` gives the log the meaning `appendChild` and `removeChild` have on the parent links of nodes.
- `PropDelta.ApplyAll` gives the `updateDom` calls their meaning on one node's property slots and listener registry.
- The browser's `deadline.timeRemaining() < 1` becomes an oracle: a sequence of booleans per idle callback.
- A `TypeError` that a commit would throw (a missing parent, parent node or alternate) is a `Fail` value.
- The scheduler state carries a commit mode. `AsWritten` commits as `commitRoot` does (`Commit.CommitRoot`). `Corrected` commits each deletion by removing only that fiber's node (`Commit.CommitRootFixed`, see Findings). The program as it is runs in `AsWritten` mode.

Modules, in dependency order:

- `Wrappers`: `Option`, `Result`.
- `Elements`: values, props objects, `createElement`, `createTextElement`.
- `PropDelta`: `isEvent`/`isProperty`/`isNew`/`isGone`, `updateDom`, and its effect on a node.
- `Host`: node handles, the call log, `Replay`, and when a replayed `removeChild` throws.
- `Fibers`: the fiber record, the arena, and its updates.
- `Reconcile`: `reconcileChildren`, step by step.
- `ReconcileProofs` and `ReconcileFacts`: the loop invariant, and what one call leaves behind.
- `Traversal`: the next-unit walk of `performUnitOfWork`.
- `Commit`: `commitWork`, `commitRoot`, and the corrected deletions commit.
- `Slices`: the generic shape of a loop that runs in deadline-limited slices.
- `Scheduler`: the globals and `render`/`performUnitOfWork`/`workLoop`.
- `DoubleRemoval`: the finding below, for every tree and on a concrete example.

## Model

| member | source | states |
|---|---|---|
| Elements.CreateElement | src/index.js:16-26 | the element has the given type and one child per argument, in argument order; an object child is kept as it is; a primitive child becomes a `TEXT_ELEMENT` with no children whose only prop is `nodeValue`, holding the primitive; the attributes are exactly the spread props other than `children`, and there is no `children` attribute |
| Elements.CreateElementKeepsProps | src/index.js:19-20 | every key other than `children` reads the same, and is present or absent the same, on the element as on the props passed in (a `null` props object counts as empty) |
| Elements.CreateTextElement | src/index.js:33-41 | the text element has type `TEXT_ELEMENT`, no children, and `nodeValue`, holding the text, as its only attribute |
| Elements.LookupMissing | src/index.js:45-46 | reading a key an object lacks gives `undefined`, which is what `isNew` compares against |
| Elements.PropsObject | src/index.js:19-24 | the props object `updateDom` sees always has the key `children`, and has no other key the attributes lack |
| Elements.WithoutLookup | src/index.js:19-22 | overriding `children` in the spread leaves the reading and presence of every other key unchanged |
| PropDelta.EventType | src/index.js:106 | the event name of an `on*` key is the rest of the key after `on`, lowercased, and is two characters shorter than the key |
| PropDelta.RemovedListeners | src/index.js:102-108 | a removal is emitted exactly for each event key of the previous props that is gone from, or changed in, the next props, with the previous handler |
| PropDelta.ClearedProperties | src/index.js:111-116 | a clear is emitted exactly for each plain property of the previous props that the next props lack |
| PropDelta.SetProperties | src/index.js:119-124 | a write is emitted exactly for each plain property of the next props whose value is new or changed, and the value written is the next value |
| PropDelta.AddedListeners | src/index.js:127-133 | an addition is emitted exactly for each event key of the next props that is new or changed, with the next handler |
| PropDelta.UpdateDom | src/index.js:100-134 | the calls come in step order (removals, clears, writes, additions), and no property named `children` is ever cleared or written |
| PropDelta.UpdateDomParts | src/index.js:100-134 | a call is among `updateDom`'s calls iff one of its four steps emits it |
| PropDelta.UpdateDomRemovals | src/index.js:102-108 | a listener removal is issued iff some `on*` key of the previous props is absent from or changed in the next props, with that key's event name and previous handler |
| PropDelta.UpdateDomClears | src/index.js:111-116 | a property is cleared iff it is a plain property key of the previous props that the next props lack |
| PropDelta.UpdateDomSets | src/index.js:119-124 | a property is written, with its next value, iff it is a plain property key of the next props that is new or changed |
| PropDelta.UpdateDomAdditions | src/index.js:127-133 | a listener is added iff some `on*` key of the next props is new or changed, with that key's event name and next handler |
| PropDelta.UpdateDomSameProps | src/index.js:100-134 | unchanged props produce no calls at all |
| PropDelta.NothingChanged | src/index.js:102-133 | comparing an object with itself, no step emits a call for any of its keys |
| PropDelta.UpdateDomFromEmpty | src/index.js:48-58 | starting from the empty object that `createDom` passes, only writes and additions are issued, and every defined plain property of the next props is written |
| PropDelta.ApplyAllAppend | src/index.js:100-134 | applying two lists of calls one after the other is applying their concatenation |
| PropDelta.ApplyRemovals | src/index.js:107 | `removeEventListener` calls change only the listener registry, which loses exactly the removed pairs |
| PropDelta.ApplyClears | src/index.js:115 | the clears write `""` into exactly the named slots and leave every other slot and the listeners alone |
| PropDelta.ApplySets | src/index.js:123 | the writes give each named slot its next value and leave every other slot and the listeners alone |
| PropDelta.ApplyAdditions | src/index.js:132 | `addEventListener` calls change only the listener registry, which gains exactly the added pairs whose handler is neither `undefined` nor `null` |
| PropDelta.UpdateDomReachesNext | src/index.js:100-134 | when no two event keys of the previous props name the same event, on a node that shows the previous props `updateDom`'s calls leave a node that shows the next props (every defined plain property written, exactly the next props' listeners registered), with every dropped property reset to `""` |
| PropDelta.SharedEventLosesListener | src/index.js:100-134 | without that hypothesis the claim fails: from `{onClick: h, onclick: h}` to `{onClick: h}` the only `click` listener is removed and not added back, although the next props register it |
| PropDelta.PropertiesReach | src/index.js:111-124 | the clear and write steps take the property slots from the previous props to the next props and leave the listeners alone |
| PropDelta.PropertySlot | src/index.js:111-124 | for one property key, the clear and write steps leave its next value, or `""` when the next props dropped it |
| PropDelta.ListenerRegistry | src/index.js:100-134 | the previous listeners, minus the removed pairs, plus the added pairs, are exactly the next props' listeners |
| PropDelta.ListenerOfNext | src/index.js:127-133 | every listener of the next props is either added, or kept from the previous props without being removed |
| PropDelta.ListenerAfterDelta | src/index.js:102-108 | every listener left after the removals and additions belongs to the next props |
| Host.Replay | src/index.js:89-95 | a log without `removeChild` calls never throws |
| Host.ReplayDetached | src/index.js:94 | when no call of the log attaches a node, a `removeChild` of it made while it is detached throws |
| Host.ReplayRemovesTwice | src/index.js:94 | a log that makes the same `removeChild` call twice, and never attaches that node, throws |
| Fibers.Chain | src/index.js:219-222 | the sibling chain visits fibers of the arena, in strictly increasing id order, begins at its start, and is empty exactly for a null start |
| Fibers.ChainSiblings | src/index.js:221 | consecutive members of a chain are linked by `sibling`, and the last has none |
| Fibers.Forest | src/index.js:96-97 | the depth-first pre-order from a fiber lists arena fibers no older than the start, begins at the start, and is empty exactly for a null start |
| Reconcile.OldStart | src/index.js:184 | the first old child is null or a fiber of the arena |
| Reconcile.LoopBody | src/index.js:188-231 | one iteration advances `index` by one, keeps the arena well-linked, changes no fiber's type, props, node, parent or alternate, only appends to `deletions`, and, once the elements are used up, allocates nothing and moves `oldFiber` further along the chain |
| Reconcile.ReconcileLoop | src/index.js:187-232 | the loop ends with its condition false, the arena well-linked, the existing fibers rewired at most in `child`, `sibling` and `effectTag`, and `deletions` only appended to, with arena fibers |
| Reconcile.ReconcileChildren | src/index.js:182-233 | the same, for the whole call from `index = 0` |
| ReconcileProofs.ReconcileTracks | src/index.js:182-233 | after the call, every fiber, the loop variables and the deletions list agree with the per-position description: one new fiber per element, the old chain tagged where no same-type element takes a position |
| ReconcileProofs.FinalAt | src/index.js:182-233 | the arena after the call at one id: the allocation bound, the deletions list, and each old and new fiber's final record |
| ReconcileFacts.Iterations | src/index.js:187-232 | the loop body runs exactly `max(elements.length, old chain length)` times |
| ReconcileFacts.Allocated | src/index.js:193-213 | the call allocates exactly one new fiber per element, and no other fiber appears |
| ReconcileFacts.NewFiber | src/index.js:191-230 | the fiber for element `k` has the element's type and props, the work-in-progress fiber as parent, no child, the next element's fiber as sibling; it is an `UPDATE` that reuses the old fiber's node and has it as `alternate` when the old fiber at position `k` has the element's type, and a `PLACEMENT` without node or alternate otherwise |
| ReconcileFacts.WorkInProgress | src/index.js:225-226 | the work-in-progress fiber's `child` becomes the first new fiber, or null when there are no elements but there were old children; nothing else about it changes |
| ReconcileFacts.OldFiber | src/index.js:215-216 | an old child keeps everything but its tag, which becomes `DELETION` exactly when no same-type element takes its position |
| ReconcileFacts.Frame | src/index.js:182-233 | every fiber other than the work-in-progress fiber and its old children is left as it was |
| ReconcileFacts.DoomedIncreasing | src/index.js:215-217 | the old fibers the call deletes come in chain order, so none is listed twice |
| ReconcileFacts.Deletions | src/index.js:215-217 | the deletions list keeps its earlier entries in place and gains, in chain order and each once, exactly the old children without a same-type element at their position |
| ReconcileFacts.NewChainFrom | src/index.js:225-230 | from the fiber of element `k` on, the `sibling` chain is the remaining new fibers in element order |
| ReconcileFacts.NewChain | src/index.js:224-230 | following `child` and then `sibling` from the work-in-progress fiber gives exactly the new fibers, one per element, in element order; it is empty when there are no elements |
| ReconcileFacts.UpdateOf | src/index.js:193-201 | a new fiber is an `UPDATE` of old child `k` iff it is the fiber of element `k` and that position has the same type |
| ReconcileFacts.Partition | src/index.js:191-218 | every old child ends up either as the `alternate` of an `UPDATE` fiber or among the new deletions, and never both |
| Traversal.Climb | src/index.js:253-261 | the climb ends on null or on a fiber of the arena |
| Traversal.ClimbNearest | src/index.js:253-261 | the climb returns the `sibling` of the first fiber that has one, going from the fiber itself up the `parent` references to the root; it returns null exactly when no fiber on that way has a sibling |
| Traversal.NextFiber | src/index.js:249-261 | the next unit of work is null or a fiber of the arena |
| Traversal.LeaveForest | src/index.js:253-261 | the last fiber in the pre-order of a subtree has no child, and the walk leaves it to where the climb from the subtree's parent leads |
| Traversal.ForestSuccessor | src/index.js:249-261 | on a tree whose references agree, the next unit after each fiber is the following fiber in depth-first pre-order |
| Traversal.Walk | src/index.js:249-261 | repeated successors stay within the arena, and stay null once null |
| Traversal.WalkLast | src/index.js:249-261 | the walk one step further is the successor of where the walk is |
| Traversal.WalkPreOrder | src/index.js:249-261 | from a root, the `k`-th unit of work is the `k`-th fiber of the tree in depth-first pre-order, and the walk ends right after the last one |
| Traversal.PreOrderDistinct | src/index.js:249-261 | the walk from a root visits no fiber twice |
| Commit.Then | src/index.js:96-97 | the calls of two commit steps are concatenated, and a throw in the first stops the second |
| Commit.ThenAssoc | src/index.js:96-97 | how the commit steps are grouped does not change the calls or the throw |
| Commit.ParentDom | src/index.js:88 | `fiber.parent.dom` throws exactly for a fiber without a parent |
| Commit.Effect | src/index.js:88-95 | a fiber without a parent throws at `fiber.parent.dom`; a `PLACEMENT` with a node issues one `appendChild` of it under the parent's node, and throws when the parent has none; an `UPDATE` with a node throws without an alternate, and otherwise patches that node with exactly `updateDom`'s calls from the alternate's props to its own; a `DELETION` is the removal of its own node; any other fiber issues nothing; every call addresses the fiber's own node |
| Commit.UpdateEffectShows | src/index.js:91-92 | an `UPDATE`'s patches turn a node that shows the alternate's props into one that shows the fiber's props |
| Commit.RemoveNode | src/index.js:94 | `removeChild` succeeds iff the fiber has a parent with a node and has a node itself, and it detaches that node from the parent's node |
| Commit.Effects | src/index.js:86-98 | a list of fiber effects succeeds iff each one does |
| Commit.EffectsAppend | src/index.js:96-97 | the effects of two fiber lists, one after the other, are the effects of their concatenation |
| Commit.EffectsOrigin | src/index.js:86-98 | every call of a list of fiber effects is a call of one of those fibers' own effects |
| Commit.CommitWork | src/index.js:86-98 | `commitWork` issues the effects of the fibers below and after it in depth-first pre-order, in that order, and throws exactly when one of them does |
| Commit.DeletedForestsAppend | src/index.js:73 | the fibers visited for two deletion lists, one after the other, are those visited for their concatenation |
| Commit.CommitDeletions | src/index.js:73 | `deletions.forEach(commitWork)` issues the effects of each deleted fiber's whole forest, its old subtree and the old siblings after it included, in list order |
| Commit.CommitRoot | src/index.js:72-74 | as written: the effects of the deleted fibers' forests, then those of the new tree below `wipRoot`, each in depth-first pre-order |
| Commit.CommitDeletionsFixed | src/index.js:93-94 | corrected: exactly one `removeChild` per deleted fiber, each the removal that fiber's own node needs |
| Commit.CommitRootFixed | src/index.js:72-74 | corrected: the commit succeeds iff every deleted fiber's removal and every effect of the new tree does; its first calls are one removal per deletion, that fiber's own node, in list order; the rest are the new tree's effects in pre-order |
| Scheduler.Init | src/index.js:61-67 | when the script starts, no unit of work, no tree in progress, no committed tree and an empty log, in the given commit mode |
| Scheduler.RootChildren | src/index.js:147 | the root's children are the single element, or the array's elements in order |
| Scheduler.Render | src/index.js:141-154 | `render` allocates a root fiber with no type, the container as its node, the given children, and the current root as its alternate; that root becomes both `wipRoot` and `nextUnitOfWork`; `deletions` becomes empty; `currentRoot` and every existing fiber are unchanged |
| Scheduler.RenderedRoot | src/index.js:144-150 | the new root has no parent or sibling and nothing below it yet, so the walk ends right after it; its first diff is against the children of the tree committed last |
| Scheduler.CreateDom | src/index.js:48-58 | `createDom` first creates the node, and then only issues `updateDom` calls addressed to that node |
| Scheduler.CreateDomShows | src/index.js:48-58 | the new node ends up showing the fiber's props: every defined plain property set, and exactly the props' listeners added |
| Scheduler.Perform | src/index.js:239-262 | a unit of work keeps the state consistent and leaves `wipRoot` and `currentRoot` alone |
| Scheduler.PerformStep | src/index.js:239-262 | the unit's fiber gets a fresh node, and `createDom`'s calls are logged, only when it had none; the new arena and deletions are exactly what `reconcileChildren` makes of the unit's children on the arena where the unit has its node, so the `Reconcile` and `ReconcileFacts` contracts apply to them; the deletions so far are kept; the next unit is its successor in the rebuilt tree |
| Scheduler.Step | src/index.js:160-161 | a step keeps the state consistent and does nothing once there is no next unit |
| Scheduler.Units | src/index.js:160-161 | any number of units keeps the state consistent and leaves `wipRoot` and `currentRoot` alone |
| Scheduler.UnitsAdd | src/index.js:160-161 | `m` units and then `n` more are `m + n` units |
| Scheduler.UnitsDone | src/index.js:160 | once there is no next unit, further units change nothing |
| Scheduler.RunLoop | src/index.js:159-168 | the loop of one idle callback keeps the state consistent and leaves the roots alone |
| Scheduler.RunLoopUnits | src/index.js:159-168 | the deadline only decides how many units one callback performs: the loop is the first units of one fixed sequence, at least one when there is work, none when there is not, and it stops with work left only where `timeRemaining() < 1` |
| Scheduler.CommitStep | src/index.js:72-80 | the commit succeeds iff the calls of `commitRoot` in the state's mode throw no `TypeError`, and otherwise throws that error; the finished tree becomes `currentRoot` and `wipRoot` becomes null; the arena, the deletions and the mode are kept and the log only grows |
| Scheduler.CommitStepLog | src/index.js:72-98 | as written, a successful commit logs the effects of every deleted fiber's forest and then of the new tree below the root, in depth-first pre-order; corrected, it logs one removal per deletion and then the same effects of the new tree |
| Scheduler.WorkLoop | src/index.js:156-178 | with no tree in progress nothing happens; otherwise the callback performs its units, and commits exactly when no unit is left; after a commit `currentRoot` is the tree that was in progress |
| Scheduler.Run | src/index.js:177-180 | idle callbacks one after another keep the state consistent until a commit throws |
| Scheduler.RunUnfolds | src/index.js:177-180 | each idle callback is one `workLoop`, and a throw ends the run |
| Scheduler.RunShape | src/index.js:156-180 | whatever the deadlines, the callbacks on a tree in progress perform a prefix of one fixed sequence of units, followed, once no unit is left, by the commit |
| Scheduler.ScheduleIndependence | src/index.js:156-180 | two runs from the same state that both commit their tree, or both throw, end in the same state or with the same error, whatever their deadlines |
| Slices.IterateAdd | src/index.js:160-161 | `m` steps and then `n` more are `m + n` steps |
| Slices.IterateFixed | src/index.js:160 | a state the step leaves alone stays put |
| Slices.IterateSettles | src/index.js:160 | once the steps reach a state the step leaves alone, further steps change nothing |
| Slices.IterateKeeps | src/index.js:160-161 | what a step preserves, any number of steps preserve |
| Slices.SliceIterates | src/index.js:159-168 | a deadline-limited loop is the first steps of the one fixed sequence: at least one when there is work, none otherwise, stopping early only where the deadline says to yield |
| Slices.CallbacksKeep | src/index.js:177-180 | what the steps and a successful finish preserve, a run of callbacks preserves |
| Slices.CallbacksIdle | src/index.js:171-177 | callbacks from a finished state change nothing |
| Slices.CallbacksShape | src/index.js:156-180 | a run of callbacks is a prefix of the fixed sequence of steps, followed, once there is no work left, by the finish |
| Slices.CallbacksAgree | src/index.js:156-180 | two runs of callbacks that both finish, or both throw, end the same way |
| DoubleRemoval.ExampleArises | src/index.js:182-233 | `render([])` after `<div/><span/>`, reconciled, tags both old children `DELETION` and lists them in order |
| DoubleRemoval.CommitsSibling | src/index.js:93-97 | as written, committing the first deleted fiber recurses into its sibling and removes both nodes |
| DoubleRemoval.ExampleVisits | src/index.js:93-97 | as written, committing the deletions `[div, span]` and then the empty new tree visits div, then span as div's sibling, then span again |
| DoubleRemoval.ExampleEffects | src/index.js:93-94 | those three visits issue `removeChild(div)`, `removeChild(span)`, `removeChild(span)`, in that order |
| DoubleRemoval.AsWrittenRemovesTwice | src/index.js:93-97 | as written, the commit issues `removeChild(span)` twice, and the second call throws `NotFoundError` |
| DoubleRemoval.FixedRemovesOnce | src/index.js:93-94 | with the corrected deletions commit, each node is removed once and both removals succeed |
| DoubleRemoval.DeletedTwice | src/index.js:93-97 | a deleted fiber in the forest of an earlier deleted fiber (an old sibling after it or below it, adjacent or not) is visited twice by the deletions |
| DoubleRemoval.EffectsRepeat | src/index.js:96-97 | a fiber visited twice issues the first call of its effect twice |
| DoubleRemoval.AppendsOwnNode | src/index.js:89-90 | only a `PLACEMENT` appends, and only its own node |
| DoubleRemoval.RevisitedRemovesTwice | src/index.js:93-97 | for every tree, as written: when a later entry of the deletions list is tagged `DELETION` and lies in the forest of an earlier entry (for instance an old sibling after it, as with old children `[a, b, c]` re-rendered as `[x, b, y]`), the commit issues that fiber's `removeChild` twice |
| DoubleRemoval.RevisitedRemovalThrows | src/index.js:93-97 | for every tree and every node tree, as written: in that case the commit's calls throw, unless a fiber the commit visits appends the removed node again |
| DoubleRemoval.DetachableReplays | src/index.js:94 | removing distinct attached nodes, each from its own parent, never throws and detaches exactly those nodes |
| DoubleRemoval.FixedDeletionsDetach | src/index.js:93-94 | when the deleted fibers have distinct nodes, each attached under its parent fiber's node, every corrected removal succeeds and detaches exactly those nodes |

## Left out

- The browser: the DOM calls are recorded in a log instead. That covers `document.createElement`/`createTextNode`, `appendChild`/`removeChild`, `addEventListener`/`removeEventListener` and `dom[name] = …`. Only the parent links, and one node's property slots and listeners, are given a meaning.
- `requestIdleCallback` and `deadline.timeRemaining()` (src/index.js:163-167, 177-180): these are host timing. They are replaced by a deadline oracle, one boolean per unit of work, and a finite list of callbacks.
- `console.log` and `console.time`/`console.timeEnd`: logging only.
- The JSX demo (src/index.js:264-286): application code, not renderer logic.
- Function components, hooks and keyed matching: this stage of the code has none; the diff is purely positional.
- JavaScript typing subtleties: `typeof child === "object"` is replaced by a `Child` datatype, `Node` for an element and `Prim` for a string, number, boolean or `undefined`. Object spread becomes an ordered property list. `Object.keys` ordering of integer-like keys is not modelled, and properties keep insertion order.
- Elements.CreateElement: a `null`, array or other non-element object child, which the source keeps as it is because its `typeof` is `"object"`, cannot be passed. Nor can a function child, which the source would wrap as a text element. Children are elements or primitives only.
- Elements.LookupMissing: objects have only their own keys. In the source, `key in o` and `o[key]` also see members inherited from `Object.prototype`, such as `toString` or `constructor`. So a props key with such a name is not modelled: there `o[key]` is not `undefined` for an object without that own key.
- PropDelta.ClearedProperties: for the same reason, a dropped plain property named like an inherited member (`toString`) is cleared here. In the source `isGone` uses `in`, which finds the inherited member, so it is not cleared.
- PropDelta.UpdateDomClears: the same inherited-key difference as `ClearedProperties`.
- Duplicate keys: a property list may hold a key twice, which a JavaScript object cannot. `Lookup` reads the first occurrence and `Keys` lists both. No contract requires a list to be free of repeated keys, and none is proved to rule them out.
- Value equality: `!==` is modelled as equality of a value datatype with numbers as integers. There are no floating-point numbers and no `NaN`.
- `toLowerCase`: only ASCII letters are mapped.
- A `null` container passed to `render`: the container is always a handle.
- Exceptions: the `TypeError`s a commit can throw are `Fail` values. The calls made before the throw are not kept in the log.
- PropDelta.ApplyAdditions: a handler that is a string, number or boolean is registered like any other. In the browser `addEventListener` (src/index.js:132) and `removeEventListener` (src/index.js:107) throw a `TypeError` for a listener that is not an object, so `createDom` or `updateDom` would stop there, during `performUnitOfWork` or the commit. The model does not check handler types. So `ApplyRemovals`, `ListenerRegistry`, `UpdateDomReachesNext`, `Commit.UpdateEffectShows` and `Scheduler.CreateDomShows` describe such props as shown, where the source throws. Only `undefined` and `null`, which the DOM ignores, are left unregistered.
- Garbage collection: fibers are never freed from the arena.
- `deletions` before the first `render` (null in the source) is modelled as the empty list. It is never read before `render` assigns it.
- Scheduler.Step: a state that breaks `Valid` is left alone instead of modelled. `Valid` holds from `Init` on, and every operation preserves it.
- Scheduler.Finish: like `Step`, it leaves states that break `Valid` alone.
- ReconcileProofs.Setting: the reconcile lemmas assume that the work-in-progress fiber is not in its own old child chain. This holds for the fibers the renderer builds, but is not proved from `Init`.
- Traversal.NextFiber: its own contract only says the successor is null or an arena fiber. Which fiber it is gets stated by `ForestSuccessor`, `LeaveForest` and `WalkPreOrder`, for trees whose `parent`, `child` and `sibling` references agree (`Fibers.Shaped`).
- Traversal.WalkPreOrder: pre-order is proved for a fixed tree. The walk in the scheduler runs over a tree that grows as units are performed, and termination of a whole render over that growing tree is not proved.
- Reconcile.OldStart: its contract only says the first old child is null or an arena fiber. What the diff makes of the chain that starts there is stated by the `ReconcileFacts` lemmas.
- Host.Replay: its contract states only that a log without removals never throws. `ReplayDetached`, `ReplayRemovesTwice` and `DoubleRemoval.DetachableReplays` state when removals throw and what they do.
- Scheduler.CommitStep: DOM exceptions are not modelled in the scheduler. Its log is not replayed against a node tree, so a `NotFoundError` from `removeChild` does not stop the commit there. In `AsWritten` mode the state `Sched(DoubleRemoval.Example(), None, Some(3), Some(0), [1, 2], 2, [], AsWritten)` commits with `Ok`, makes fiber 3 `currentRoot` and lets the loop go on. The source throws at the second `removeChild(span)` and never reaches `currentRoot = wipRoot` or the next `requestIdleCallback`. `DoubleRemoval.AsWrittenRemovesTwice` and `DoubleRemoval.RevisitedRemovalThrows` state that throw.
- Traversal.Climb: its own contract only says the climb ends on null or an arena fiber. `ClimbNearest` states which fiber it is.

## Findings

| source | as written | input that shows it | evidently intended | confidence | as-written member | corrected member |
|---|---|---|---|---|---|---|
| src/index.js:93-97 | `commitRoot` commits each deleted fiber with `commitWork`. `commitWork` removes the fiber's node, but then recurses into the deleted fiber's old `child` and `sibling`. When a deleted old child is a later sibling of an earlier deleted one, adjacent or not, its node is removed once while committing the earlier one and again from the deletions list, and the second `removeChild` throws `NotFoundError`. This holds for every tree (`DoubleRemoval.RevisitedRemovalThrows`). | `render(<div/><span/>)` committed, then `render([])`: both old children are tagged `DELETION`, and the commit calls `removeChild(div)`, `removeChild(span)`, `removeChild(span)` | each deleted fiber's own node is removed from its parent's node exactly once, without visiting its old subtree or siblings | not executed | DoubleRemoval.AsWrittenRemovesTwice | Commit.CommitDeletionsFixed |
