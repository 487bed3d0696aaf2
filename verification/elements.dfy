/**
 * The element builder: immutable element trees built from a type, a props
 * object and a list of children, with primitive children wrapped as text
 * elements.  Also the model of a JavaScript props object as an ordered list
 * of key/value pairs, which the prop delta and the fibers share.
 */
module Elements {
  import opened Wrappers

  /** The tag that marks a text element. */
  const TextElement: string := "TEXT_ELEMENT"

  /** The props key that holds the child elements. */
  const ChildrenKey: string := "children"

  /** The props key that holds a text element's content. */
  const NodeValueKey: string := "nodeValue"

  /**
   * A JavaScript value as far as the renderer looks at it.  Equality of two
   * `Value`s is JavaScript's strict equality: primitives compare by value,
   * objects and functions (`Ref`) by identity.  `ChildList` stands for the
   * `children` array, whose identity the renderer never compares.
   */
  datatype Value =
    | Str(s: string)
    | Num(n: int)
    | Bool(b: bool)
    | Null
    | Undefined
    | Ref(id: nat)
    | ChildList

  /** One own property of an object. */
  datatype Prop = Prop(key: string, val: Value)

  /** A plain object: its own properties in key-insertion order. */
  type JsObject = seq<Prop>

  /** An element's props: the plain attributes and, separately, the children. */
  datatype Props = Props(attrs: JsObject, children: seq<Element>)

  /** An element: its type and its props; never mutated once built. */
  datatype Element = Element(etype: string, props: Props)

  /**
   * A value whose `typeof` is not `"object"`: a string, a number, a boolean
   * or `undefined`.  `null`, arrays and other objects are objects.
   */
  type Primitive = v: Value | v.Str? || v.Num? || v.Bool? || v.Undefined? witness Undefined

  /** An argument in child position: either an element or a primitive. */
  datatype Child = Node(elem: Element) | Prim(value: Primitive)

  /** `Object.keys(o)`. */
  function Keys(o: JsObject): (ks: seq<string>)
    ensures |ks| == |o|
    ensures forall i :: 0 <= i < |o| ==> ks[i] == o[i].key
  {
    if o == [] then [] else [o[0].key] + Keys(o[1..])
  }

  /** `key in o`, for the object's own keys. */
  predicate Has(o: JsObject, key: string) {
    key in Keys(o)
  }

  /** `o[key]`, for the object's own keys; `undefined` for a key it does not have. */
  function Lookup(o: JsObject, key: string): Value {
    if o == [] then Undefined
    else if o[0].key == key then o[0].val
    else Lookup(o[1..], key)
  }

  /** A missing key reads as `undefined`. */
  lemma {:induction false} LookupMissing(o: JsObject, key: string)
    requires !Has(o, key)
    ensures Lookup(o, key) == Undefined
  {
    if o != [] {
      assert Keys(o) == [o[0].key] + Keys(o[1..]);
      LookupMissing(o[1..], key);
    }
  }

  /** `o` without the properties named `key`, the others kept in order. */
  function Without(o: JsObject, key: string): (r: JsObject)
    ensures forall p :: p in r <==> p in o && p.key != key
  {
    if o == [] then []
    else if o[0].key == key then Without(o[1..], key)
    else [o[0]] + Without(o[1..], key)
  }

  /** Removing one key leaves every other key's reading alone. */
  lemma {:induction false} WithoutLookup(o: JsObject, key: string, k: string)
    requires k != key
    ensures Lookup(Without(o, key), k) == Lookup(o, k)
    ensures Has(Without(o, key), k) <==> Has(o, k)
  {
    if o != [] {
      WithoutLookup(o[1..], key, k);
      assert Keys(o) == [o[0].key] + Keys(o[1..]);
      if o[0].key != key {
        var r := [o[0]] + Without(o[1..], key);
        assert r[1..] == Without(o[1..], key);
        assert Keys(r) == [o[0].key] + Keys(Without(o[1..], key));
      }
    }
  }

  /** The props object a fiber's props stand for: the attributes, then `children`. */
  function PropsObject(p: Props): (o: JsObject)
    ensures Has(o, ChildrenKey)
    ensures forall k :: k != ChildrenKey && !Has(p.attrs, k) ==> !Has(o, k)
  {
    var o := p.attrs + [Prop(ChildrenKey, ChildList)];
    assert Keys(o)[|p.attrs|] == ChildrenKey;
    assert forall k :: k in Keys(o) ==> k in Keys(p.attrs) || k == ChildrenKey by {
      forall k | k in Keys(o) ensures k in Keys(p.attrs) || k == ChildrenKey {
        var i :| 0 <= i < |Keys(o)| && Keys(o)[i] == k;
        if i < |p.attrs| { assert Keys(p.attrs)[i] == k; }
      }
    }
    o
  }

  /**
   * `createTextElement(text)`: a `TEXT_ELEMENT` without children whose only
   * prop is `nodeValue`, holding the text.
   */
  function CreateTextElement(text: Value): (e: Element)
    ensures e.etype == TextElement && e.props.children == []
    ensures Keys(e.props.attrs) == [NodeValueKey] && Lookup(e.props.attrs, NodeValueKey) == text
  {
    Element(TextElement, Props([Prop(NodeValueKey, text)], []))
  }

  /** The normalisation `createElement` applies to each child. */
  function NormalizeChild(c: Child): Element {
    match c
    case Node(e) => e
    case Prim(v) => CreateTextElement(v)
  }

  /** The keys a spread `{...props}` copies; a `null` props object copies none. */
  function Spread(props: Option<JsObject>): JsObject {
    props.GetOr([])
  }

  /**
   * `createElement(type, props, ...children)`: the spread props with
   * `children` replaced by the normalised children, in argument order.
   */
  function CreateElement(etype: string, props: Option<JsObject>, children: seq<Child>): (e: Element)
    ensures e.etype == etype
    ensures |e.props.children| == |children|
    ensures forall i :: 0 <= i < |children| && children[i].Node? ==>
              e.props.children[i] == children[i].elem
    ensures forall i :: 0 <= i < |children| && children[i].Prim? ==>
              var t := e.props.children[i];
              t.etype == TextElement && t.props.children == [] &&
              Keys(t.props.attrs) == [NodeValueKey] && Lookup(t.props.attrs, NodeValueKey) == children[i].value
    ensures forall p :: p in e.props.attrs <==> p in Spread(props) && p.key != ChildrenKey
    ensures !Has(e.props.attrs, ChildrenKey)
  {
    var kids := seq(|children|, i requires 0 <= i < |children| => NormalizeChild(children[i]));
    var attrs := Without(Spread(props), ChildrenKey);
    Element(etype, Props(attrs, kids))
  }

  /** Every key other than `children` reads the same on the element as on the given props. */
  lemma CreateElementKeepsProps(etype: string, props: Option<JsObject>, children: seq<Child>, k: string)
    requires k != ChildrenKey
    ensures Lookup(CreateElement(etype, props, children).props.attrs, k) == Lookup(Spread(props), k)
    ensures Has(CreateElement(etype, props, children).props.attrs, k) <==> Has(Spread(props), k)
  {
    WithoutLookup(Spread(props), ChildrenKey, k);
  }
}
