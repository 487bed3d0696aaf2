/**
 * Fibers and the arena that holds them.  The object graph of the program
 * (`parent`, `child`, `sibling`, `alternate` references) becomes a map from
 * integer ids to fiber records; ids are handed out in allocation order, so
 * a fiber's `child` and `sibling` were always allocated after it and its
 * `parent` and `alternate` before it.
 */
module Fibers {
  import opened Wrappers
  import opened Elements
  import opened Host

  type Id = nat

  /** `effectTag`. */
  datatype Tag = Placement | Update | Deletion

  /**
   * A fiber.  `ftype` is `None` only for a root built by `render`, which has
   * no `type`; an absent `child`, `sibling`, `parent`, `alternate`, `dom` or
   * `effectTag` is JavaScript's `null`/`undefined`.
   */
  datatype Fiber = Fiber(
    ftype: Option<string>,
    props: Props,
    dom: Option<Handle>,
    parent: Option<Id>,
    child: Option<Id>,
    sibling: Option<Id>,
    alternate: Option<Id>,
    effectTag: Option<Tag>)

  /** Every fiber ever allocated, and the next free id. */
  datatype Arena = Arena(fibers: map<Id, Fiber>, next: Id)

  /** A reference that is null or names a fiber of the arena. */
  predicate Points(a: Arena, link: Option<Id>) {
    link.Some? ==> link.value in a.fibers
  }

  /** A reference from `id` to a fiber allocated later. */
  predicate Later(a: Arena, id: Id, link: Option<Id>) {
    link.Some? ==> link.value in a.fibers && id < link.value
  }

  /** A reference from `id` to a fiber allocated earlier. */
  predicate Earlier(a: Arena, id: Id, link: Option<Id>) {
    link.Some? ==> link.value in a.fibers && link.value < id
  }

  /** The fiber `f` stored under `id` is below `next` and its references are allocation-ordered. */
  predicate LinksOk(a: Arena, id: Id, f: Fiber) {
    id < a.next && Later(a, id, f.child) && Later(a, id, f.sibling) && Earlier(a, id, f.parent) && Earlier(a, id, f.alternate)
  }

  /**
   * The arena invariant: all ids below `next`, all references dangling-free
   * and allocation-ordered.  The quantifier fires only on an explicit
   * `LinksOk` term (see `LinkedAt`), so that following references does not
   * unfold it without end.
   */
  predicate Linked(a: Arena) {
    forall id {:trigger LinksOk(a, id, a.fibers[id])} | id in a.fibers :: LinksOk(a, id, a.fibers[id])
  }

  /** `Linked` at one fiber. */
  lemma LinkedAt(a: Arena, id: Id)
    requires Linked(a) && id in a.fibers
    ensures LinksOk(a, id, a.fibers[id])
  {
  }

  /** `fiber.child`, as a reference into the arena. */
  function ChildOf(a: Arena, id: Id): (r: Option<Id>)
    requires Linked(a) && id in a.fibers
    ensures Points(a, r) && r == a.fibers[id].child
  {
    LinkedAt(a, id);
    a.fibers[id].child
  }

  /** `f` and `g` agree on everything but `child`, `sibling` and `effectTag`. */
  predicate SameCore(f: Fiber, g: Fiber) {
    f.ftype == g.ftype && f.props == g.props && f.dom == g.dom && f.parent == g.parent && f.alternate == g.alternate
  }

  /**
   * `b` keeps every fiber of `a`, rewriting at most its `child`, `sibling`
   * and `effectTag`.  Like `Linked`, the quantifier fires only on an
   * explicit `SameCore` term.
   */
  predicate Rewires(a: Arena, b: Arena) {
    && a.fibers.Keys <= b.fibers.Keys
    && forall id {:trigger SameCore(a.fibers[id], b.fibers[id])} | id in a.fibers :: SameCore(a.fibers[id], b.fibers[id])
  }

  /** `Rewires` composes. */
  lemma RewiresTrans(a: Arena, b: Arena, c: Arena)
    requires Rewires(a, b) && Rewires(b, c)
    ensures Rewires(a, c)
  {
    forall id | id in a.fibers ensures SameCore(a.fibers[id], c.fibers[id]) {
      assert SameCore(a.fibers[id], b.fibers[id]);
      assert SameCore(b.fibers[id], c.fibers[id]);
    }
  }

  /** The measure along `child`/`sibling` references. */
  function Rank(a: Arena, link: Option<Id>): nat {
    if link.Some? && link.value < a.next then a.next - link.value else 0
  }

  /** Store a new fiber under the next free id. */
  function Alloc(a: Arena, f: Fiber): (r: Arena)
    requires Linked(a)
    requires f.child.None? && f.sibling.None?
    requires Earlier(a, a.next, f.parent) && Earlier(a, a.next, f.alternate)
    ensures r.fibers == a.fibers[a.next := f] && r.next == a.next + 1
    ensures Linked(r) && Rewires(a, r)
  {
    var r := Arena(a.fibers[a.next := f], a.next + 1);
    assert Linked(r) && Rewires(a, r) by {
      forall i | i in a.fibers ensures LinksOk(r, i, r.fibers[i]) && SameCore(a.fibers[i], r.fibers[i]) { LinkedAt(a, i); }
    }
    r
  }

  /** `fiber.child = c`. */
  function SetChild(a: Arena, id: Id, c: Option<Id>): (r: Arena)
    requires Linked(a) && id in a.fibers && Later(a, id, c)
    ensures r.fibers == a.fibers[id := a.fibers[id].(child := c)] && r.next == a.next
    ensures Linked(r) && Rewires(a, r)
  {
    var r := Arena(a.fibers[id := a.fibers[id].(child := c)], a.next);
    assert Linked(r) by {
      forall i | i in r.fibers ensures LinksOk(r, i, r.fibers[i]) { LinkedAt(a, i); }
    }
    assert Rewires(a, r) by {
      forall i | i in a.fibers ensures SameCore(a.fibers[i], r.fibers[i]) {}
    }
    r
  }

  /** `fiber.sibling = s`. */
  function SetSibling(a: Arena, id: Id, s: Option<Id>): (r: Arena)
    requires Linked(a) && id in a.fibers && Later(a, id, s)
    ensures r.fibers == a.fibers[id := a.fibers[id].(sibling := s)] && r.next == a.next
    ensures Linked(r) && Rewires(a, r)
  {
    var r := Arena(a.fibers[id := a.fibers[id].(sibling := s)], a.next);
    assert Linked(r) by {
      forall i | i in r.fibers ensures LinksOk(r, i, r.fibers[i]) { LinkedAt(a, i); }
    }
    assert Rewires(a, r) by {
      forall i | i in a.fibers ensures SameCore(a.fibers[i], r.fibers[i]) {}
    }
    r
  }

  /** `fiber.effectTag = t`. */
  function SetTag(a: Arena, id: Id, t: Tag): (r: Arena)
    requires Linked(a) && id in a.fibers
    ensures r.fibers == a.fibers[id := a.fibers[id].(effectTag := Some(t))] && r.next == a.next
    ensures Linked(r) && Rewires(a, r)
  {
    var r := Arena(a.fibers[id := a.fibers[id].(effectTag := Some(t))], a.next);
    assert Linked(r) by {
      forall i | i in r.fibers ensures LinksOk(r, i, r.fibers[i]) { LinkedAt(a, i); }
    }
    assert Rewires(a, r) by {
      forall i | i in a.fibers ensures SameCore(a.fibers[i], r.fibers[i]) {}
    }
    r
  }

  /** `fiber.dom = h`. */
  function SetDom(a: Arena, id: Id, h: Handle): (r: Arena)
    requires Linked(a) && id in a.fibers
    ensures r.fibers == a.fibers[id := a.fibers[id].(dom := Some(h))] && r.next == a.next
    ensures Linked(r)
  {
    var r := Arena(a.fibers[id := a.fibers[id].(dom := Some(h))], a.next);
    assert Linked(r) by {
      forall i | i in r.fibers ensures LinksOk(r, i, r.fibers[i]) { LinkedAt(a, i); }
    }
    r
  }

  /** The sibling chain that starts at `start`: `start`, `start.sibling`, … */
  function Chain(a: Arena, start: Option<Id>): (r: seq<Id>)
    requires Linked(a) && Points(a, start)
    ensures forall i :: 0 <= i < |r| ==> r[i] in a.fibers
    ensures forall i, j :: 0 <= i < j < |r| ==> r[i] < r[j]
    ensures start.None? <==> r == []
    ensures start.Some? ==> r[0] == start.value
    decreases Rank(a, start)
  {
    if start.None? then []
    else
      LinkedAt(a, start.value);
      [start.value] + Chain(a, a.fibers[start.value].sibling)
  }

  /** Consecutive chain members are linked by `sibling`, and the last has none. */
  lemma {:induction false} ChainSiblings(a: Arena, start: Option<Id>, i: nat)
    requires Linked(a) && Points(a, start)
    requires i < |Chain(a, start)|
    ensures a.fibers[Chain(a, start)[i]].sibling ==
              if i + 1 < |Chain(a, start)| then Some(Chain(a, start)[i + 1]) else None
    decreases Rank(a, start)
  {
    LinkedAt(a, start.value);
    var s := a.fibers[start.value].sibling;
    assert Chain(a, start) == [start.value] + Chain(a, s);
    if i > 0 {
      ChainSiblings(a, s, i - 1);
    }
  }

  /**
   * The fibers reached from `start` in depth-first pre-order: `start`, its
   * children's forests, then the forests of the siblings after it.
   */
  function Forest(a: Arena, start: Option<Id>): (r: seq<Id>)
    requires Linked(a) && Points(a, start)
    ensures forall i :: 0 <= i < |r| ==> r[i] in a.fibers
    ensures forall i :: 0 <= i < |r| ==> start.Some? && start.value <= r[i]
    ensures start.None? <==> r == []
    ensures start.Some? ==> r[0] == start.value
    decreases Rank(a, start)
  {
    if start.None? then []
    else
      var f := a.fibers[start.value];
      LinkedAt(a, start.value);
      [start.value] + Forest(a, f.child) + Forest(a, f.sibling)
  }

  /** Each fiber is its `child`'s parent, and shares its parent with its `sibling`. */
  ghost predicate Shaped(a: Arena) {
    forall id | id in a.fibers :: ShapedAt(a, id)
  }

  ghost predicate ShapedAt(a: Arena, id: Id)
    requires id in a.fibers
  {
    var f := a.fibers[id];
    && (f.child.Some? && f.child.value in a.fibers ==> a.fibers[f.child.value].parent == Some(id))
    && (f.sibling.Some? && f.sibling.value in a.fibers ==> a.fibers[f.sibling.value].parent == f.parent)
  }
}
