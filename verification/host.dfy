/**
 * The render target as the renderer sees it: opaque node handles and the
 * calls made on them.  None of these calls is executed; the model only
 * records them, in order.
 */
module Host {
  import opened Wrappers
  import opened PropDelta

  /** A render-target node: a container handed to `render`, or one made by `createDom`. */
  datatype Handle = Mount(n: nat) | Created(n: nat)

  /** What `createDom` asks the document for. */
  datatype NodeKind = TextNode | ElementNode(tag: string)

  /** One call into the render target. */
  datatype HostOp =
    | CreateNode(node: Handle, kind: NodeKind)
    | Patch(node: Handle, op: DomOp)
    | Append(parent: Handle, child: Handle)
    | Remove(parent: Handle, child: Handle)

  /** `updateDom(node, …)`'s calls, addressed to `node`. */
  function PatchAll(node: Handle, ops: seq<DomOp>): (r: seq<HostOp>)
    ensures |r| == |ops|
    ensures forall i :: 0 <= i < |ops| ==> r[i] == Patch(node, ops[i])
  {
    seq(|ops|, i requires 0 <= i < |ops| => Patch(node, ops[i]))
  }

  /** The `DomOp`s carried by a list of `Patch` calls. */
  function Patches(ops: seq<HostOp>): (r: seq<DomOp>)
    requires forall i :: 0 <= i < |ops| ==> ops[i].Patch?
    ensures |r| == |ops| && forall i :: 0 <= i < |ops| ==> r[i] == ops[i].op
  {
    seq(|ops|, i requires 0 <= i < |ops| => ops[i].op)
  }

  /**
   * The part of the document that `appendChild` and `removeChild` look at:
   * the parent each attached node hangs under.
   */
  type Parents = map<Handle, Handle>

  /** `removeChild` of a node that is not a child of the given parent throws `NotFoundError`. */
  datatype HostError = NotFound(parent: Handle, child: Handle)

  /** One call's effect on the node tree. */
  function ReplayOne(t: Parents, op: HostOp): (r: Result<Parents, HostError>)
    ensures op.Append? ==> r == Ok(t[op.child := op.parent])
    ensures op.Remove? ==> (r.Ok? <==> op.child in t && t[op.child] == op.parent)
    ensures op.Remove? && r.Ok? ==> r.value == t - {op.child}
    ensures op.Remove? && r.Fail? ==> r.error == NotFound(op.parent, op.child)
    ensures !op.Append? && !op.Remove? ==> r == Ok(t)
  {
    match op
    case Append(p, c) => Ok(t[c := p])
    case Remove(p, c) => if c in t && t[c] == p then Ok(t - {c}) else Fail(NotFound(p, c))
    case _ => Ok(t)
  }

  /**
   * The effect of the calls on the node tree: `appendChild` (re)attaches the
   * child under the parent, `removeChild` detaches it, and the rest leave
   * the tree alone.  The first failing call stops the run.
   */
  function Replay(t: Parents, ops: seq<HostOp>): (r: Result<Parents, HostError>)
    ensures (forall i :: 0 <= i < |ops| ==> !ops[i].Remove?) ==> r.Ok?
    decreases |ops|
  {
    if ops == [] then Ok(t)
    else
      var t' := ReplayOne(t, ops[0]);
      if t'.Fail? then Fail(t'.error) else
        assert forall i :: 0 <= i < |ops[1..]| ==> ops[1..][i] == ops[i + 1];
        Replay(t'.value, ops[1..])
  }

  /** No call of `ops` attaches the node `c`. */
  predicate NoAppendOf(ops: seq<HostOp>, c: Handle) {
    forall m :: 0 <= m < |ops| ==> !(ops[m].Append? && ops[m].child == c)
  }

  /** `removeChild` of a detached node throws, unless a call before it attaches the node again. */
  lemma {:induction false} ReplayDetached(t: Parents, ops: seq<HostOp>, k: nat)
    requires k < |ops| && ops[k].Remove? && ops[k].child !in t
    requires NoAppendOf(ops, ops[k].child)
    ensures Replay(t, ops).Fail?
    decreases |ops|
  {
    var c := ops[k].child;
    var t' := ReplayOne(t, ops[0]);
    if k > 0 && t'.Ok? {
      assert c !in t'.value by {
        assert !(ops[0].Append? && ops[0].child == c);
      }
      assert ops[1..][k - 1] == ops[k];
      assert NoAppendOf(ops[1..], c) by {
        forall m | 0 <= m < |ops[1..]| ensures !(ops[1..][m].Append? && ops[1..][m].child == c) {
          assert ops[1..][m] == ops[m + 1];
        }
      }
      ReplayDetached(t'.value, ops[1..], k - 1);
    }
  }

  /** Removing the same node twice throws, unless some call attaches it again. */
  lemma {:induction false} ReplayRemovesTwice(t: Parents, ops: seq<HostOp>, j: nat, k: nat)
    requires j < k < |ops| && ops[j] == ops[k] && ops[j].Remove?
    requires NoAppendOf(ops, ops[j].child)
    ensures Replay(t, ops).Fail?
    decreases |ops|
  {
    var c := ops[j].child;
    var t' := ReplayOne(t, ops[0]);
    if t'.Ok? {
      assert ops[1..][k - 1] == ops[k];
      assert NoAppendOf(ops[1..], c) by {
        forall m | 0 <= m < |ops[1..]| ensures !(ops[1..][m].Append? && ops[1..][m].child == c) {
          assert ops[1..][m] == ops[m + 1];
        }
      }
      if j == 0 {
        ReplayDetached(t'.value, ops[1..], k - 1);
      } else {
        assert ops[1..][j - 1] == ops[j];
        ReplayRemovesTwice(t'.value, ops[1..], j - 1, k - 1);
      }
    }
  }
}
