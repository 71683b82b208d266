/**
 * The configuration tree that ConfigurationUtil works on. The node classes are
 * generated from the configuration schema and are not part of this model;
 * what follows is the behaviour the utility code relies on, stated as values:
 *
 *  - an inner node is a record whose fields, in schema order, are leaves
 *    (a nullable scalar), nested inner nodes (nullable) or named lists;
 *  - a named list maps element names to nullable inner nodes and keeps its
 *    names in insertion order; `null` under a name marks a deletion;
 *  - `new X()` and a named list's element supplier are modelled by the `blank`
 *    node stored beside every inner field and in every named list;
 *  - `getClass()` equality is modelled by `SameClass` (equal shapes).
 */
module ConfigTree {
  import opened Wrappers

  /** A leaf value (a `Serializable` in the source); only equality is used. */
  type Value(==)

  /** An inner node: its fields in schema order. */
  datatype InnerNode = InnerNode(children: seq<Child>)

  /** One field of an inner node. */
  datatype Child = Child(key: string, slot: Slot)

  /** The contents of a field: a leaf, a nullable inner node or a named list. */
  datatype Slot =
    | LeafSlot(value: Option<Value>)
    | InnerSlot(blank: InnerNode, node: Option<InnerNode>)
    | ListSlot(list: NamedListNode)

  /** A named list: its elements in the order of `namedListKeys()`. */
  datatype NamedListNode = NamedListNode(blank: InnerNode, elements: seq<Element>)

  /** One named-list entry; `None` is a deleted element. */
  datatype Element = Element(key: string, node: Option<InnerNode>)

  /** A `TraversableTreeNode`: an inner node or a named list. */
  datatype Traversable = TInner(inner: InnerNode) | TList(list: NamedListNode)

  // ---------------------------------------------------------------------
  // Fields of an inner node

  function FieldIndexFrom(children: seq<Child>, key: string, from: nat): (r: Option<nat>)
    requires from <= |children|
    ensures r.Some? ==> from <= r.value < |children| && children[r.value].key == key
    ensures r.Some? ==> forall j :: from <= j < r.value ==> children[j].key != key
    ensures r.None? ==> forall j :: from <= j < |children| ==> children[j].key != key
    decreases |children| - from
  {
    if from == |children| then None
    else if children[from].key == key then Some(from)
    else FieldIndexFrom(children, key, from + 1)
  }

  /** The field a generated `switch (key)` selects: the first one named `key`. */
  function FieldIndex(n: InnerNode, key: string): (r: Option<nat>)
    ensures r.Some? ==> r.value < |n.children| && n.children[r.value].key == key
    ensures r.Some? ==> forall j :: 0 <= j < r.value ==> n.children[j].key != key
    ensures r.None? <==> forall j :: 0 <= j < |n.children| ==> n.children[j].key != key
  {
    FieldIndexFrom(n.children, key, 0)
  }

  /** `n` with the field at `i` holding `s`. */
  function SetSlot(n: InnerNode, i: nat, s: Slot): (r: InnerNode)
    requires i < |n.children|
    ensures |r.children| == |n.children|
    ensures r.children[i] == Child(n.children[i].key, s)
    ensures forall j :: 0 <= j < |n.children| && j != i ==> r.children[j] == n.children[j]
  {
    InnerNode(n.children[i := Child(n.children[i].key, s)])
  }

  predicate DistinctFields(n: InnerNode) {
    forall i, j :: 0 <= i < j < |n.children| ==> n.children[i].key != n.children[j].key
  }

  // ---------------------------------------------------------------------
  // Elements of a named list

  function ElementIndexFrom(elements: seq<Element>, key: string, from: nat): (r: Option<nat>)
    requires from <= |elements|
    ensures r.Some? ==> from <= r.value < |elements| && elements[r.value].key == key
    ensures r.Some? ==> forall j :: from <= j < r.value ==> elements[j].key != key
    ensures r.None? ==> forall j :: from <= j < |elements| ==> elements[j].key != key
    decreases |elements| - from
  {
    if from == |elements| then None
    else if elements[from].key == key then Some(from)
    else ElementIndexFrom(elements, key, from + 1)
  }

  function ElementIndex(l: NamedListNode, key: string): (r: Option<nat>)
    ensures r.Some? ==> r.value < |l.elements| && l.elements[r.value].key == key
    ensures r.None? <==> forall j :: 0 <= j < |l.elements| ==> l.elements[j].key != key
  {
    ElementIndexFrom(l.elements, key, 0)
  }

  /** `namedListKeys()`. */
  function Keys(l: NamedListNode): (r: seq<string>)
    ensures |r| == |l.elements|
    ensures forall j :: 0 <= j < |r| ==> r[j] == l.elements[j].key
  {
    seq(|l.elements|, j requires 0 <= j < |l.elements| => l.elements[j].key)
  }

  predicate DistinctKeys(l: NamedListNode) {
    forall i, j :: 0 <= i < j < |l.elements| ==> l.elements[i].key != l.elements[j].key
  }

  /** `get(key)`: the element under `key`, `None` when it is absent or deleted. */
  function Get(l: NamedListNode, key: string): (r: Option<InnerNode>)
    ensures r.Some? ==> exists j :: 0 <= j < |l.elements| && l.elements[j] == Element(key, r)
    ensures (forall j :: 0 <= j < |l.elements| ==> l.elements[j].key != key) ==> r.None?
  {
    match ElementIndex(l, key)
    case None => None
    case Some(j) => l.elements[j].node
  }

  /**
   * `map.put(key, v)` on the list's insertion-ordered map: an existing name
   * keeps its position, a new one is appended.
   */
  function Put(l: NamedListNode, key: string, v: Option<InnerNode>): (r: NamedListNode)
    ensures r.blank == l.blank
    ensures ElementIndex(l, key).Some? ==> |r.elements| == |l.elements|
    ensures ElementIndex(l, key).None? ==> r.elements == l.elements + [Element(key, v)]
    ensures forall j :: 0 <= j < |l.elements| ==> r.elements[j].key == l.elements[j].key
    ensures forall j :: 0 <= j < |l.elements| && l.elements[j].key != key ==> r.elements[j] == l.elements[j]
    ensures ElementIndex(l, key).Some? ==> r.elements[ElementIndex(l, key).value] == Element(key, v)
  {
    match ElementIndex(l, key)
    case None => NamedListNode(l.blank, l.elements + [Element(key, v)])
    case Some(j) => NamedListNode(l.blank, l.elements[j := Element(key, v)])
  }

  // ---------------------------------------------------------------------
  // Classes

  /** A field with its value dropped: what the class alone determines. */
  function ShapeOf(c: Child): Child {
    match c.slot
    case LeafSlot(_) => Child(c.key, LeafSlot(None))
    case InnerSlot(b, _) => Child(c.key, InnerSlot(b, None))
    case ListSlot(l) => Child(c.key, ListSlot(NamedListNode(l.blank, [])))
  }

  /** The class of an inner node: its field names, kinds and field types. */
  function Shape(n: InnerNode): (r: InnerNode)
    ensures |r.children| == |n.children|
    ensures forall i :: 0 <= i < |n.children| ==> r.children[i] == ShapeOf(n.children[i])
  {
    InnerNode(seq(|n.children|, i requires 0 <= i < |n.children| => ShapeOf(n.children[i])))
  }

  /** `a.getClass() == b.getClass()`. */
  predicate SameClass(a: InnerNode, b: InnerNode) {
    Shape(a) == Shape(b)
  }

  /**
   * Distinct field names in every inner node and distinct element names in
   * every named list, blanks included: what Java classes and maps guarantee.
   */
  predicate WellFormed(n: InnerNode) {
    DistinctFields(n) &&
    forall i :: 0 <= i < |n.children| ==> WellFormedSlot(n.children[i].slot)
  }

  predicate WellFormedSlot(s: Slot) {
    match s
    case LeafSlot(_) => true
    case InnerSlot(b, v) => WellFormed(b) && (v.Some? ==> WellFormed(v.value))
    case ListSlot(l) => WellFormedList(l)
  }

  predicate WellFormedList(l: NamedListNode) {
    WellFormed(l.blank) && DistinctKeys(l) &&
    forall j :: 0 <= j < |l.elements| ==> WellFormedElement(l.elements[j].node)
  }

  predicate WellFormedElement(v: Option<InnerNode>)
    decreases v
  {
    v.Some? ==> WellFormed(v.value)
  }

  /**
   * A well-typed tree: well formed, and every present inner node of the class
   * its field or its named list declares.
   */
  predicate Typed(n: InnerNode) {
    DistinctFields(n) &&
    forall i :: 0 <= i < |n.children| ==> TypedSlot(n.children[i].slot)
  }

  predicate TypedSlot(s: Slot) {
    match s
    case LeafSlot(_) => true
    case InnerSlot(b, v) =>
      Typed(b) && (v.Some? ==> SameClass(v.value, b) && Typed(v.value))
    case ListSlot(l) => TypedList(l)
  }

  predicate TypedList(l: NamedListNode) {
    Typed(l.blank) && DistinctKeys(l) &&
    forall j :: 0 <= j < |l.elements| ==> TypedElement(l.blank, l.elements[j].node)
  }

  predicate TypedElement(blank: InnerNode, v: Option<InnerNode>)
    decreases v
  {
    v.Some? ==> SameClass(v.value, blank) && Typed(v.value)
  }

  /** Equal classes give equal field names at every position. */
  lemma SameClassKeys(a: InnerNode, b: InnerNode)
    requires SameClass(a, b)
    ensures |a.children| == |b.children|
    ensures forall i :: 0 <= i < |a.children| ==> a.children[i].key == b.children[i].key
  {
    forall i | 0 <= i < |a.children|
      ensures a.children[i].key == b.children[i].key
    {
      assert Shape(a).children[i] == Shape(b).children[i];
    }
  }

  /** A typed tree is well formed. */
  lemma {:induction false} TypedWellFormed(n: InnerNode)
    requires Typed(n)
    ensures WellFormed(n)
    decreases n, 1
  {
    forall i | 0 <= i < |n.children|
      ensures WellFormedSlot(n.children[i].slot)
    {
      TypedSlotWellFormed(n.children[i].slot);
    }
  }

  lemma {:induction false} TypedSlotWellFormed(s: Slot)
    requires TypedSlot(s)
    ensures WellFormedSlot(s)
    decreases s, 0
  {
    match s
    case LeafSlot(_) =>
    case InnerSlot(b, v) =>
      TypedWellFormed(b);
      if v.Some? {
        TypedWellFormed(v.value);
      }
    case ListSlot(l) =>
      TypedWellFormed(l.blank);
      forall j | 0 <= j < |l.elements|
        ensures WellFormedElement(l.elements[j].node)
      {
        var e := l.elements[j];
        if e.node.Some? {
          assert TypedElement(l.blank, e.node);
          TypedWellFormed(e.node.value);
        }
      }
  }

  /** What `construct(key, null)` leaves in a field. */
  function Cleared(s: Slot): (r: Slot)
    ensures ShapeOf(Child("", r)) == ShapeOf(Child("", s))
  {
    match s
    case LeafSlot(_) => LeafSlot(None)
    case InnerSlot(b, _) => InnerSlot(b, None)
    case ListSlot(l) => ListSlot(NamedListNode(l.blank, []))
  }

  /** `get` after `put` sees the new value under its name and the old ones elsewhere. */
  lemma GetPut(l: NamedListNode, key: string, v: Option<InnerNode>, k: string)
    ensures Get(Put(l, key, v), k) == if k == key then v else Get(l, k)
  {
    var r := Put(l, key, v);
    var oi := ElementIndex(l, k);
    var ni := ElementIndex(r, k);
    if k == key {
      match ElementIndex(l, key)
      case None =>
        assert r.elements[|l.elements|] == Element(key, v);
        ElementIndexFirst(r.elements, k, 0, |l.elements|);
      case Some(j) =>
        ElementIndexFirst(r.elements, k, 0, j);
        ElementIndexFirst(l.elements, k, 0, j);
    } else {
      ElementIndexOther(l, key, v, k);
    }
  }

  /** The first match of `key` from `from` is at `j` when `j` matches and nothing before it does. */
  lemma {:induction false} ElementIndexFirst(elements: seq<Element>, key: string, from: nat, j: nat)
    requires from <= j < |elements| && elements[j].key == key
    requires forall i :: from <= i < j ==> elements[i].key != key
    ensures ElementIndexFrom(elements, key, from) == Some(j)
    decreases j - from
  {
    if from < j {
      ElementIndexFirst(elements, key, from + 1, j);
    }
  }

  lemma {:induction false} ElementIndexFromSame(a: seq<Element>, b: seq<Element>, key: string, from: nat)
    requires from <= |a| <= |b|
    requires forall i :: from <= i < |a| ==> (a[i].key == key <==> b[i].key == key)
    requires forall i :: |a| <= i < |b| ==> b[i].key != key
    ensures ElementIndexFrom(a, key, from) == ElementIndexFrom(b, key, from)
    decreases |a| - from
  {
    if from < |a| && a[from].key != key {
      ElementIndexFromSame(a, b, key, from + 1);
    } else if from == |a| {
      assert ElementIndexFrom(b, key, from).None?;
    }
  }

  lemma ElementIndexOther(l: NamedListNode, key: string, v: Option<InnerNode>, k: string)
    requires k != key
    ensures ElementIndex(Put(l, key, v), k) == ElementIndex(l, k)
    ensures Get(Put(l, key, v), k) == Get(l, k)
  {
    var r := Put(l, key, v);
    ElementIndexFromSame(l.elements, r.elements, k, 0);
  }

  /** `put` keeps the names distinct. */
  lemma PutDistinct(l: NamedListNode, key: string, v: Option<InnerNode>)
    requires DistinctKeys(l)
    ensures DistinctKeys(Put(l, key, v))
  {
  }

  /** The names of a list after `put`: unchanged for a present name, one more at the end otherwise. */
  lemma KeysPut(l: NamedListNode, key: string, v: Option<InnerNode>)
    ensures Keys(Put(l, key, v)) == if key in Keys(l) then Keys(l) else Keys(l) + [key]
  {
    var r := Put(l, key, v);
    if key in Keys(l) {
      assert ElementIndex(l, key).Some?;
      assert Keys(r) == Keys(l);
    } else {
      assert forall j :: 0 <= j < |l.elements| ==> l.elements[j].key != key;
      assert Keys(r) == Keys(l) + [key];
    }
  }

  /** In a list with distinct names, `get` of an element's name is that element. */
  lemma GetDistinct(l: NamedListNode, j: nat)
    requires DistinctKeys(l) && j < |l.elements|
    ensures Get(l, l.elements[j].key) == l.elements[j].node
  {
    ElementIndexFirst(l.elements, l.elements[j].key, 0, j);
  }

  /** Every element of a typed list is typed. */
  lemma GetTyped(l: NamedListNode, key: string)
    requires TypedList(l)
    ensures TypedElement(l.blank, Get(l, key))
  {
    match ElementIndex(l, key)
    case None =>
    case Some(j) =>
      assert TypedElement(l.blank, l.elements[j].node);
  }

  /** `put` of a typed element keeps a list typed. */
  lemma PutTyped(l: NamedListNode, key: string, v: Option<InnerNode>)
    requires TypedList(l) && TypedElement(l.blank, v)
    ensures TypedList(Put(l, key, v))
  {
    var r := Put(l, key, v);
    PutDistinct(l, key, v);
    forall j | 0 <= j < |r.elements|
      ensures TypedElement(r.blank, r.elements[j].node)
    {
      if j < |l.elements| && r.elements[j] == l.elements[j] {
        assert TypedElement(l.blank, l.elements[j].node);
      }
    }
  }

  /**
   * What a source or a generated `construct` throws: `UnsupportedOperationException`
   * with the named operation, `NoSuchElementException` for an unknown field, or
   * a failed class check.
   */
  datatype Fault = Unsupported(op: string) | NoSuchElement(key: string) | ClassMismatch

  /** A root node that is filled in place or copied: a `ConstructableTreeNode` object. */
  class ConfigNode {
    var tree: Traversable

    constructor (t: Traversable)
      ensures tree == t
    {
      tree := t;
    }

    /** `copy()`: a new object holding the same tree. */
    method Copy() returns (c: ConfigNode)
      ensures fresh(c) && c.tree == tree
    {
      c := new ConfigNode(tree);
    }
  }
}
