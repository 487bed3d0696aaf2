/**
 * The prop delta of `updateDom`: the classification of props keys into
 * event listeners and plain properties, and the ordered list of node
 * operations that turns a node showing the previous props into one showing
 * the next props.  The node itself is abstract: `NodeState` records only
 * the properties written to it and the listeners registered on it.
 */
module PropDelta {
  import opened Elements

  /** `isEvent`: the key starts with `on`. */
  predicate IsEvent(key: string) {
    |key| >= 2 && key[0] == 'o' && key[1] == 'n'
  }

  /** `isProperty`: neither `children` nor an event key. */
  predicate IsProperty(key: string) {
    key != ChildrenKey && !IsEvent(key)
  }

  /** `isNew(prev, next)(key)`: the two readings differ under strict equality. */
  predicate IsNew(prev: JsObject, next: JsObject, key: string) {
    Lookup(prev, key) != Lookup(next, key)
  }

  /** `isGone(prev, next)(key)`: the key is not an own key of `next`. */
  predicate IsGone(next: JsObject, key: string) {
    !Has(next, key)
  }

  /** `toLowerCase` on one character; only ASCII letters are mapped. */
  function LowerChar(c: char): char {
    if 'A' <= c <= 'Z' then (c as int + 32) as char else c
  }

  function Lower(s: string): (r: string)
    ensures |r| == |s|
    ensures forall i :: 0 <= i < |s| ==> r[i] == LowerChar(s[i])
  {
    seq(|s|, i requires 0 <= i < |s| => LowerChar(s[i]))
  }

  /**
   * `name.toLowerCase().substring(2)`: the DOM event an `on*` key names,
   * which is the rest of the key after `on`, lowercased.
   */
  function EventType(key: string): (e: string)
    ensures IsEvent(key) ==> e == Lower(key[2..])
    ensures |e| == if |key| >= 2 then |key| - 2 else 0
  {
    var l := Lower(key);
    if |l| >= 2 then l[2..] else ""
  }

  /** One call `updateDom` makes on the node. */
  datatype DomOp =
    | RemoveListener(event: string, handler: Value)
    | ClearProperty(name: string)
    | SetProperty(name: string, value: Value)
    | AddListener(event: string, handler: Value)

  /** The step of `updateDom` that emits an operation of this kind. */
  function Phase(op: DomOp): nat {
    match op
    case RemoveListener(_, _) => 0
    case ClearProperty(_) => 1
    case SetProperty(_, _) => 2
    case AddListener(_, _) => 3
  }

  /** Step 1 over the keys `ks` of `prev`: event keys gone from or changed in `next`. */
  function RemovedListeners(prev: JsObject, next: JsObject, ks: seq<string>): (ops: seq<DomOp>)
    ensures forall op :: op in ops ==> op.RemoveListener?
    ensures forall op :: op in ops <==>
              exists k :: k in ks && IsEvent(k) && (IsGone(next, k) || IsNew(prev, next, k)) &&
                          op == RemoveListener(EventType(k), Lookup(prev, k))
  {
    if ks == [] then []
    else
      var k := ks[0];
      (if IsEvent(k) && (IsGone(next, k) || IsNew(prev, next, k))
       then [RemoveListener(EventType(k), Lookup(prev, k))] else [])
      + RemovedListeners(prev, next, ks[1..])
  }

  /** Step 2 over the keys `ks` of `prev`: plain properties gone from `next`. */
  function ClearedProperties(next: JsObject, ks: seq<string>): (ops: seq<DomOp>)
    ensures forall op :: op in ops ==> op.ClearProperty?
    ensures forall op :: op in ops <==>
              exists k :: k in ks && IsProperty(k) && IsGone(next, k) && op == ClearProperty(k)
  {
    if ks == [] then []
    else
      var k := ks[0];
      (if IsProperty(k) && IsGone(next, k) then [ClearProperty(k)] else [])
      + ClearedProperties(next, ks[1..])
  }

  /** Step 3 over the keys `ks` of `next`: plain properties that are new or changed. */
  function SetProperties(prev: JsObject, next: JsObject, ks: seq<string>): (ops: seq<DomOp>)
    ensures forall op :: op in ops ==> op.SetProperty? && op.value == Lookup(next, op.name)
    ensures forall op :: op in ops <==>
              exists k :: k in ks && IsProperty(k) && IsNew(prev, next, k) &&
                          op == SetProperty(k, Lookup(next, k))
  {
    if ks == [] then []
    else
      var k := ks[0];
      (if IsProperty(k) && IsNew(prev, next, k) then [SetProperty(k, Lookup(next, k))] else [])
      + SetProperties(prev, next, ks[1..])
  }

  /** Step 4 over the keys `ks` of `next`: event keys that are new or changed. */
  function AddedListeners(prev: JsObject, next: JsObject, ks: seq<string>): (ops: seq<DomOp>)
    ensures forall op :: op in ops ==> op.AddListener?
    ensures forall op :: op in ops <==>
              exists k :: k in ks && IsEvent(k) && IsNew(prev, next, k) &&
                          op == AddListener(EventType(k), Lookup(next, k))
  {
    if ks == [] then []
    else
      var k := ks[0];
      (if IsEvent(k) && IsNew(prev, next, k) then [AddListener(EventType(k), Lookup(next, k))] else [])
      + AddedListeners(prev, next, ks[1..])
  }

  /** Operations ordered by the step that emits them. */
  predicate PhaseOrdered(ops: seq<DomOp>) {
    forall i, j :: 0 <= i < j < |ops| ==> Phase(ops[i]) <= Phase(ops[j])
  }

  lemma PhaseOrderedAppend(x: seq<DomOp>, y: seq<DomOp>, p: nat)
    requires PhaseOrdered(x) && PhaseOrdered(y)
    requires forall op :: op in x ==> Phase(op) <= p
    requires forall op :: op in y ==> Phase(op) >= p
    ensures PhaseOrdered(x + y)
  {
    forall i, j | 0 <= i < j < |x + y| ensures Phase((x + y)[i]) <= Phase((x + y)[j]) {
      if j < |x| {
        assert (x + y)[i] == x[i] && (x + y)[j] == x[j];
      } else if i >= |x| {
        assert (x + y)[i] == y[i - |x|] && (x + y)[j] == y[j - |x|];
      } else {
        assert (x + y)[i] == x[i] && x[i] in x;
        assert (x + y)[j] == y[j - |x|] && y[j - |x|] in y;
      }
    }
  }

  lemma PhaseOrderedUniform(ops: seq<DomOp>, p: nat)
    requires forall op :: op in ops ==> Phase(op) == p
    ensures PhaseOrdered(ops)
  {
    forall i, j | 0 <= i < j < |ops| ensures Phase(ops[i]) <= Phase(ops[j]) {
      assert ops[i] in ops && ops[j] in ops;
    }
  }

  /**
   * `updateDom(dom, prevProps, nextProps)` as the list of calls it makes on
   * `dom`: removed listeners, cleared properties, set properties, added
   * listeners, each group in key order.
   */
  function UpdateDom(prev: JsObject, next: JsObject): (ops: seq<DomOp>)
    ensures PhaseOrdered(ops)
    ensures forall op :: op in ops && (op.ClearProperty? || op.SetProperty?) ==> op.name != ChildrenKey
  {
    var r := RemovedListeners(prev, next, Keys(prev));
    var c := ClearedProperties(next, Keys(prev));
    var s := SetProperties(prev, next, Keys(next));
    var a := AddedListeners(prev, next, Keys(next));
    GroupsOrdered(r, c, s, a);
    r + c + s + a
  }

  /** Four groups of one kind each, glued in step order, are ordered by step. */
  lemma GroupsOrdered(r: seq<DomOp>, c: seq<DomOp>, s: seq<DomOp>, a: seq<DomOp>)
    requires forall op :: op in r ==> op.RemoveListener?
    requires forall op :: op in c ==> op.ClearProperty?
    requires forall op :: op in s ==> op.SetProperty?
    requires forall op :: op in a ==> op.AddListener?
    ensures PhaseOrdered(r + c + s + a)
  {
    PhaseOrderedUniform(r, 0);
    PhaseOrderedUniform(c, 1);
    PhaseOrderedUniform(s, 2);
    PhaseOrderedUniform(a, 3);
    PhaseOrderedAppend(r, c, 1);
    PhaseOrderedAppend(r + c, s, 2);
    PhaseOrderedAppend(r + c + s, a, 3);
  }

  /** The four steps of `updateDom`, glued in order. */
  lemma UpdateDomParts(prev: JsObject, next: JsObject)
    ensures forall op :: op in UpdateDom(prev, next) <==>
              || op in RemovedListeners(prev, next, Keys(prev))
              || op in ClearedProperties(next, Keys(prev))
              || op in SetProperties(prev, next, Keys(next))
              || op in AddedListeners(prev, next, Keys(next))
  {
    var r := RemovedListeners(prev, next, Keys(prev));
    var c := ClearedProperties(next, Keys(prev));
    var s := SetProperties(prev, next, Keys(next));
    var a := AddedListeners(prev, next, Keys(next));
    assert UpdateDom(prev, next) == r + c + s + a;
  }

  /** A listener is removed iff its key is in `prev` and is gone from or changed in `next`. */
  lemma UpdateDomRemovals(prev: JsObject, next: JsObject, e: string, h: Value)
    ensures RemoveListener(e, h) in UpdateDom(prev, next) <==>
              exists k :: k in Keys(prev) && IsEvent(k) && (IsGone(next, k) || IsNew(prev, next, k)) &&
                          e == EventType(k) && h == Lookup(prev, k)
  {
    UpdateDomParts(prev, next);
  }

  /** A property is cleared iff it is a plain property of `prev` that `next` lacks. */
  lemma UpdateDomClears(prev: JsObject, next: JsObject, n: string)
    ensures ClearProperty(n) in UpdateDom(prev, next) <==>
              n in Keys(prev) && IsProperty(n) && IsGone(next, n)
  {
    UpdateDomParts(prev, next);
  }

  /** A property is set, to its `next` value, iff it is a plain property of `next` that is new or changed. */
  lemma UpdateDomSets(prev: JsObject, next: JsObject, n: string, v: Value)
    ensures SetProperty(n, v) in UpdateDom(prev, next) <==>
              n in Keys(next) && IsProperty(n) && IsNew(prev, next, n) && v == Lookup(next, n)
  {
    UpdateDomParts(prev, next);
  }

  /** A listener is added iff its key is in `next` and is new or changed. */
  lemma UpdateDomAdditions(prev: JsObject, next: JsObject, e: string, h: Value)
    ensures AddListener(e, h) in UpdateDom(prev, next) <==>
              exists k :: k in Keys(next) && IsEvent(k) && IsNew(prev, next, k) &&
                          e == EventType(k) && h == Lookup(next, k)
  {
    UpdateDomParts(prev, next);
  }

  /** Unchanged props produce no operations at all. */
  lemma UpdateDomSameProps(p: JsObject)
    ensures UpdateDom(p, p) == []
  {
    var ks := Keys(p);
    assert forall k :: k in ks ==> Has(p, k);
    NothingChanged(p, ks);
  }

  /** Over keys that `p` has, comparing `p` with itself emits nothing in any step. */
  lemma {:induction false} NothingChanged(p: JsObject, ks: seq<string>)
    requires forall k :: k in ks ==> Has(p, k)
    ensures RemovedListeners(p, p, ks) == [] && ClearedProperties(p, ks) == []
    ensures SetProperties(p, p, ks) == [] && AddedListeners(p, p, ks) == []
  {
    if ks != [] {
      assert ks[0] in ks;
      assert forall k :: k in ks[1..] ==> k in ks;
      NothingChanged(p, ks[1..]);
    }
  }

  /**
   * `createDom` calls `updateDom(dom, {}, props)`: from an empty object only
   * properties are set and listeners added, never cleared or removed.
   */
  lemma UpdateDomFromEmpty(next: JsObject)
    ensures forall op :: op in UpdateDom([], next) ==> op.SetProperty? || op.AddListener?
    ensures forall n :: n in Keys(next) && IsProperty(n) && Lookup(next, n) != Undefined ==>
              SetProperty(n, Lookup(next, n)) in UpdateDom([], next)
  {
    UpdateDomParts([], next);
    forall n | n in Keys(next) && IsProperty(n) && Lookup(next, n) != Undefined
      ensures SetProperty(n, Lookup(next, n)) in UpdateDom([], next)
    {
      UpdateDomSets([], next, n, Lookup(next, n));
    }
  }

  /** A node as seen through the operations: its property slots and its listener registry. */
  datatype NodeState = NodeState(props: map<string, Value>, listeners: set<(string, Value)>)

  /** A handler `addEventListener` registers: anything but `undefined` and `null`, which it ignores. */
  predicate Registers(h: Value) {
    h != Undefined && h != Null
  }

  /**
   * One operation on the node.  `dom[name] = ""` clears a property;
   * registering an `undefined` or `null` listener is a no-op in the DOM,
   * and so is registering the same pair twice.
   */
  function ApplyOp(n: NodeState, op: DomOp): NodeState {
    match op
    case RemoveListener(e, h) => n.(listeners := n.listeners - {(e, h)})
    case ClearProperty(k) => n.(props := n.props[k := Str("")])
    case SetProperty(k, v) => n.(props := n.props[k := v])
    case AddListener(e, h) => if !Registers(h) then n else n.(listeners := n.listeners + {(e, h)})
  }

  function ApplyAll(n: NodeState, ops: seq<DomOp>): NodeState
    decreases |ops|
  {
    if ops == [] then n else ApplyAll(ApplyOp(n, ops[0]), ops[1..])
  }

  lemma {:induction false} ApplyAllAppend(n: NodeState, a: seq<DomOp>, b: seq<DomOp>)
    ensures ApplyAll(n, a + b) == ApplyAll(ApplyAll(n, a), b)
    decreases |a|
  {
    if a == [] {
      assert a + b == b;
    } else {
      assert (a + b)[0] == a[0];
      assert (a + b)[1..] == a[1..] + b;
      ApplyAllAppend(ApplyOp(n, a[0]), a[1..], b);
    }
  }

  /** The (event, handler) pairs a list of removals unregisters. */
  function RemovedPairs(ops: seq<DomOp>): set<(string, Value)>
    requires forall op :: op in ops ==> op.RemoveListener?
  {
    set op | op in ops :: (op.event, op.handler)
  }

  /** The (event, handler) pairs a list of additions registers: those with a handler that `Registers`. */
  function AddedPairs(ops: seq<DomOp>): set<(string, Value)>
    requires forall op :: op in ops ==> op.AddListener?
  {
    set op | op in ops && Registers(op.handler) :: (op.event, op.handler)
  }

  /** Removing listeners touches only the registry, by set difference. */
  lemma {:induction false} ApplyRemovals(n: NodeState, ops: seq<DomOp>)
    requires forall op :: op in ops ==> op.RemoveListener?
    ensures ApplyAll(n, ops).props == n.props
    ensures ApplyAll(n, ops).listeners == n.listeners - RemovedPairs(ops)
    decreases |ops|
  {
    if ops != [] {
      assert ops[0] in ops;
      assert forall op :: op in ops[1..] ==> op in ops;
      ApplyRemovals(ApplyOp(n, ops[0]), ops[1..]);
      assert ops == [ops[0]] + ops[1..];
    }
  }

  /** Adding listeners touches only the registry, by union of the handlers that register. */
  lemma {:induction false} ApplyAdditions(n: NodeState, ops: seq<DomOp>)
    requires forall op :: op in ops ==> op.AddListener?
    ensures ApplyAll(n, ops).props == n.props
    ensures ApplyAll(n, ops).listeners == n.listeners + AddedPairs(ops)
    decreases |ops|
  {
    if ops != [] {
      assert ops[0] in ops;
      assert forall op :: op in ops[1..] ==> op in ops;
      ApplyAdditions(ApplyOp(n, ops[0]), ops[1..]);
      assert ops == [ops[0]] + ops[1..];
    }
  }

  /** Clearing writes `""` into exactly the named slots. */
  lemma {:induction false} ApplyClears(n: NodeState, ops: seq<DomOp>)
    requires forall op :: op in ops ==> op.ClearProperty?
    ensures ApplyAll(n, ops).listeners == n.listeners
    ensures forall k :: ClearProperty(k) in ops ==> k in ApplyAll(n, ops).props && ApplyAll(n, ops).props[k] == Str("")
    ensures forall k :: ClearProperty(k) !in ops ==>
              (k in ApplyAll(n, ops).props <==> k in n.props) &&
              (k in n.props ==> ApplyAll(n, ops).props[k] == n.props[k])
    decreases |ops|
  {
    if ops != [] {
      assert ops[0] in ops;
      assert forall op :: op in ops[1..] ==> op in ops;
      ApplyClears(ApplyOp(n, ops[0]), ops[1..]);
      assert forall op :: op in ops <==> op == ops[0] || op in ops[1..];
    }
  }

  /** Setting writes each named slot with the value `next` holds for it. */
  lemma {:induction false} ApplySets(n: NodeState, ops: seq<DomOp>, next: JsObject)
    requires forall op :: op in ops ==> op.SetProperty? && op.value == Lookup(next, op.name)
    ensures ApplyAll(n, ops).listeners == n.listeners
    ensures forall k :: SetProperty(k, Lookup(next, k)) in ops ==>
              k in ApplyAll(n, ops).props && ApplyAll(n, ops).props[k] == Lookup(next, k)
    ensures forall k :: SetProperty(k, Lookup(next, k)) !in ops ==>
              (k in ApplyAll(n, ops).props <==> k in n.props) &&
              (k in n.props ==> ApplyAll(n, ops).props[k] == n.props[k])
    decreases |ops|
  {
    if ops != [] {
      assert ops[0] in ops;
      assert forall op :: op in ops[1..] ==> op in ops;
      ApplySets(ApplyOp(n, ops[0]), ops[1..], next);
      assert forall op :: op in ops <==> op == ops[0] || op in ops[1..];
    }
  }

  /** The listeners an object registers: its event keys with a handler that `Registers`. */
  function Listeners(o: JsObject): set<(string, Value)> {
    set k | k in Keys(o) && IsEvent(k) && Registers(Lookup(o, k)) :: (EventType(k), Lookup(o, k))
  }

  /** The node shows `o`: every defined plain property written, exactly `o`'s listeners registered. */
  ghost predicate Shows(n: NodeState, o: JsObject) {
    && (forall k :: IsProperty(k) && Lookup(o, k) != Undefined ==> k in n.props && n.props[k] == Lookup(o, k))
    && n.listeners == Listeners(o)
  }

  /** No two event keys of `o` name the same DOM event. */
  predicate DistinctEventTypes(o: JsObject) {
    forall k1, k2 ::
      k1 in Keys(o) && k2 in Keys(o) && IsEvent(k1) && IsEvent(k2) && EventType(k1) == EventType(k2)
      ==> k1 == k2
  }

  /**
   * The delta is complete: applied to a node that shows `prev`, it leaves a
   * node that shows `next`, with every plain property `next` dropped reset
   * to `""`.  (Two `prev` event keys for the same event, such as `onClick`
   * and `onclick` with one handler, would let one key's removal unregister
   * the other's listener; hence the hypothesis.)
   */
  lemma UpdateDomReachesNext(n: NodeState, prev: JsObject, next: JsObject)
    requires Shows(n, prev)
    requires DistinctEventTypes(prev)
    ensures Shows(ApplyAll(n, UpdateDom(prev, next)), next)
    ensures forall k :: IsProperty(k) && Has(prev, k) && !Has(next, k) ==>
              k in ApplyAll(n, UpdateDom(prev, next)).props &&
              ApplyAll(n, UpdateDom(prev, next)).props[k] == Str("")
  {
    var r := RemovedListeners(prev, next, Keys(prev));
    var c := ClearedProperties(next, Keys(prev));
    var s := SetProperties(prev, next, Keys(next));
    var a := AddedListeners(prev, next, Keys(next));
    assert UpdateDom(prev, next) == ((r + c) + s) + a;
    ApplyAllAppend(n, r, c);
    ApplyAllAppend(n, r + c, s);
    ApplyAllAppend(n, (r + c) + s, a);
    var n1 := ApplyAll(n, r);
    var n3 := ApplyAll(ApplyAll(n1, c), s);
    var n4 := ApplyAll(n3, a);
    ApplyRemovals(n, r);
    ApplyAdditions(n3, a);
    PropertiesReach(n1, prev, next);
    ListenerRegistry(prev, next);
  }

  /** Steps 2 and 3 take the property slots of a node showing `prev` to those of `next`, leaving the listeners. */
  lemma PropertiesReach(n1: NodeState, prev: JsObject, next: JsObject)
    requires forall k :: IsProperty(k) && Lookup(prev, k) != Undefined ==> k in n1.props && n1.props[k] == Lookup(prev, k)
    ensures
      var n3 := ApplyAll(ApplyAll(n1, ClearedProperties(next, Keys(prev))), SetProperties(prev, next, Keys(next)));
      && n3.listeners == n1.listeners
      && (forall k :: IsProperty(k) && Lookup(next, k) != Undefined ==> k in n3.props && n3.props[k] == Lookup(next, k))
      && (forall k :: IsProperty(k) && Has(prev, k) && !Has(next, k) ==> k in n3.props && n3.props[k] == Str(""))
  {
    var c := ClearedProperties(next, Keys(prev));
    var s := SetProperties(prev, next, Keys(next));
    var n2 := ApplyAll(n1, c);
    var n3 := ApplyAll(n2, s);
    ApplyClears(n1, c);
    ApplySets(n2, s, next);
    forall k | IsProperty(k)
      ensures Lookup(next, k) != Undefined ==> k in n3.props && n3.props[k] == Lookup(next, k)
      ensures Has(prev, k) && !Has(next, k) ==> k in n3.props && n3.props[k] == Str("")
    {
      PropertySlot(prev, next, k, n1.props, n3.props);
    }
  }

  /** The property half of `UpdateDomReachesNext` for one key, from the slot-level effect of steps 2 and 3. */
  lemma PropertySlot(prev: JsObject, next: JsObject, k: string, before: map<string, Value>, after: map<string, Value>)
    requires IsProperty(k)
    requires Lookup(prev, k) != Undefined ==> k in before && before[k] == Lookup(prev, k)
    requires ClearProperty(k) in ClearedProperties(next, Keys(prev)) &&
             SetProperty(k, Lookup(next, k)) !in SetProperties(prev, next, Keys(next)) ==>
             k in after && after[k] == Str("")
    requires SetProperty(k, Lookup(next, k)) in SetProperties(prev, next, Keys(next)) ==>
             k in after && after[k] == Lookup(next, k)
    requires ClearProperty(k) !in ClearedProperties(next, Keys(prev)) &&
             SetProperty(k, Lookup(next, k)) !in SetProperties(prev, next, Keys(next)) ==>
             (k in after <==> k in before) && (k in before ==> after[k] == before[k])
    ensures Lookup(next, k) != Undefined ==> k in after && after[k] == Lookup(next, k)
    ensures Has(prev, k) && !Has(next, k) ==> k in after && after[k] == Str("")
  {
    var c := ClearedProperties(next, Keys(prev));
    var s := SetProperties(prev, next, Keys(next));
    if Has(next, k) {
      assert ClearProperty(k) !in c;
      if IsNew(prev, next, k) {
        assert SetProperty(k, Lookup(next, k)) in s;
      } else if !Has(prev, k) {
        LookupMissing(prev, k);
      }
    } else {
      LookupMissing(next, k);
      assert forall op :: op in s ==> op.name in Keys(next);
      assert SetProperty(k, Lookup(next, k)) !in s;
      if Has(prev, k) {
        assert ClearProperty(k) in c;
      }
    }
  }

  /** The listener half of `UpdateDomReachesNext`: `(prev - removed) + added` is `next`'s registry. */
  lemma ListenerRegistry(prev: JsObject, next: JsObject)
    requires DistinctEventTypes(prev)
    ensures (Listeners(prev) - RemovedPairs(RemovedListeners(prev, next, Keys(prev))))
              + AddedPairs(AddedListeners(prev, next, Keys(next))) == Listeners(next)
  {
    var R := RemovedPairs(RemovedListeners(prev, next, Keys(prev)));
    var A := AddedPairs(AddedListeners(prev, next, Keys(next)));
    forall p | p in Listeners(next) ensures p in (Listeners(prev) - R) + A {
      ListenerOfNext(prev, next, p);
    }
    forall p | p in (Listeners(prev) - R) + A ensures p in Listeners(next) {
      ListenerAfterDelta(prev, next, p);
    }
  }

  /** A listener of `next` is either added, or registered by `prev` and not removed. */
  lemma ListenerOfNext(prev: JsObject, next: JsObject, p: (string, Value))
    requires DistinctEventTypes(prev)
    requires p in Listeners(next)
    ensures p in (Listeners(prev) - RemovedPairs(RemovedListeners(prev, next, Keys(prev))))
                 + AddedPairs(AddedListeners(prev, next, Keys(next)))
  {
    var r := RemovedListeners(prev, next, Keys(prev));
    var a := AddedListeners(prev, next, Keys(next));
    var k :| k in Keys(next) && IsEvent(k) && Registers(Lookup(next, k)) && p == (EventType(k), Lookup(next, k));
    if IsNew(prev, next, k) {
      assert AddListener(EventType(k), Lookup(next, k)) in a;
    } else {
      if !Has(prev, k) { LookupMissing(prev, k); }
      assert k in Keys(prev);
      assert p in Listeners(prev);
      forall op | op in r ensures (op.event, op.handler) != p {
        var k2 :| k2 in Keys(prev) && IsEvent(k2) && (IsGone(next, k2) || IsNew(prev, next, k2)) &&
                  op == RemoveListener(EventType(k2), Lookup(prev, k2));
        assert k2 != k;
        assert EventType(k2) != EventType(k);
      }
    }
  }

  /** Every listener left after the delta is one of `next`'s. */
  lemma ListenerAfterDelta(prev: JsObject, next: JsObject, p: (string, Value))
    ensures p in (Listeners(prev) - RemovedPairs(RemovedListeners(prev, next, Keys(prev))))
                 + AddedPairs(AddedListeners(prev, next, Keys(next)))
            ==> p in Listeners(next)
  {
    var r := RemovedListeners(prev, next, Keys(prev));
    var a := AddedListeners(prev, next, Keys(next));
    var R := RemovedPairs(r);
    if p !in (Listeners(prev) - R) + AddedPairs(a) {
    } else if p in AddedPairs(a) {
      var op :| op in a && Registers(op.handler) && p == (op.event, op.handler);
      var k :| k in Keys(next) && IsEvent(k) && IsNew(prev, next, k) && op == AddListener(EventType(k), Lookup(next, k));
    } else {
      var k :| k in Keys(prev) && IsEvent(k) && Registers(Lookup(prev, k)) && p == (EventType(k), Lookup(prev, k));
      var op := RemoveListener(EventType(k), Lookup(prev, k));
      assert (IsGone(next, k) || IsNew(prev, next, k)) ==> op in r;
      assert op in r ==> p in R;
      assert k in Keys(next);
    }
  }

  /** `{onClick: h, onclick: h}` and `{onClick: h}`, for one handler `h`. */
  function BothClicks(): JsObject { [Prop("onClick", Ref(1)), Prop("onclick", Ref(1))] }
  function OneClick(): JsObject { [Prop("onClick", Ref(1))] }

  lemma SharedEventRegistry()
    ensures Listeners(BothClicks()) == {("click", Ref(1))}
    ensures Listeners(OneClick()) == {("click", Ref(1))}
    ensures !DistinctEventTypes(BothClicks())
  {
    assert Keys(BothClicks()) == ["onClick", "onclick"];
    assert Keys(OneClick()) == ["onClick"];
    assert EventType("onClick") == "click" && EventType("onclick") == "click";
    assert Lookup(BothClicks(), "onClick") == Ref(1) && Lookup(BothClicks(), "onclick") == Ref(1);
    assert Lookup(OneClick(), "onClick") == Ref(1);
  }

  lemma SharedEventDelta()
    ensures UpdateDom(BothClicks(), OneClick()) == [RemoveListener("click", Ref(1))]
  {
    var prev, next := BothClicks(), OneClick();
    assert Keys(prev) == ["onClick", "onclick"];
    assert Keys(next) == ["onClick"];
    assert ["onClick", "onclick"][1..] == ["onclick"] && ["onclick"][1..] == [];
    assert EventType("onclick") == "click";
    assert Lookup(prev, "onClick") == Ref(1) && Lookup(prev, "onclick") == Ref(1);
    assert Lookup(next, "onClick") == Ref(1);
    assert Has(next, "onClick") && !Has(next, "onclick");
    assert RemovedListeners(prev, next, ["onclick"]) == [RemoveListener("click", Ref(1))];
    assert RemovedListeners(prev, next, Keys(prev)) == [RemoveListener("click", Ref(1))];
    assert ClearedProperties(next, Keys(prev)) == [];
    assert SetProperties(prev, next, Keys(next)) == [];
    assert AddedListeners(prev, next, Keys(next)) == [];
  }

  lemma SharedEventShown()
    ensures Shows(NodeState(map[], {("click", Ref(1))}), BothClicks())
  {
    SharedEventRegistry();
    forall k | IsProperty(k) ensures Lookup(BothClicks(), k) == Undefined {
      assert k != "onClick" && k != "onclick";
      assert Keys(BothClicks()) == ["onClick", "onclick"];
      LookupMissing(BothClicks(), k);
    }
  }

  lemma SharedEventUnregistered()
    ensures ApplyAll(NodeState(map[], {("click", Ref(1))}), UpdateDom(BothClicks(), OneClick())).listeners == {}
  {
    var n := NodeState(map[], {("click", Ref(1))});
    SharedEventDelta();
    assert ApplyAll(n, [RemoveListener("click", Ref(1))]) == ApplyOp(n, RemoveListener("click", Ref(1)));
  }

  /**
   * Why `UpdateDomReachesNext` needs `DistinctEventTypes`: `onClick` and
   * `onclick` with one handler register one `click` listener.  Dropping
   * `onclick` unregisters it, and `onClick`, unchanged, is not added back,
   * so the node is left with no `click` listener although `next` has one.
   */
  lemma SharedEventLosesListener()
    ensures var n := NodeState(map[], {("click", Ref(1))});
            && Shows(n, BothClicks()) && !DistinctEventTypes(BothClicks())
            && ApplyAll(n, UpdateDom(BothClicks(), OneClick())).listeners == {}
            && Listeners(OneClick()) == {("click", Ref(1))}
  {
    SharedEventRegistry();
    SharedEventShown();
    SharedEventUnregistered();
  }
}
