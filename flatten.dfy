/**
 * `nodeToFlatMap`: a changes tree turned into a flat map from dotted keys to
 * values. The visitor keeps the key prefix built so far (`currentKey`), the
 * unescaped path to the node at hand (`currentPath`, whose first entry is the
 * root key) and a tombstone flag (`writeNulls`). Field names are appended as
 * they are and named-list names escaped. A deleted named-list element is
 * looked up in the cached tree with `find`, and every non-null leaf of it is
 * written as `null`; the path stays frozen meanwhile.
 */
module Flatten {
  import opened Wrappers
  import opened ConfigTree
  import opened Lookup
  import PathCodec

  /** The flat map: a Java `HashMap<String, Serializable>` that may hold `null`. */
  type Flat = map<string, Option<Value>>

  /** The assertions the visitor can violate. */
  datatype FlatFault =
    | NestedDeletion                   // a deletion met while writing tombstones
    | NotAnInnerNode(path: seq<string>) // the cached element is not an inner node

  // ---------------------------------------------------------------------
  // The traversal as functions. `prefix`, `path` and `nulls` are the visitor's
  // `currentKey`, `currentPath` and `writeNulls`, `acc` its `values`.
  //
  // Termination: tombstone writing only reads the cached tree and never
  // starts another deletion, so the measure puts a deletion (2) below the
  // ordinary traversal (3) and tombstone traversal (1) below the deletion.

  /** The path after `startVisit(key, _)`: extended unless tombstones are being written. */
  function Extend(path: seq<string>, key: string, nulls: bool): seq<string> {
    if nulls then path else path + [key]
  }

  /** `visitLeafNode(key, val)`. */
  function FlatLeaf(key: string, val: Option<Value>, prefix: string, nulls: bool, acc: Flat): (r: Flat)
    ensures val.Some? ==> prefix + key in r
    ensures forall k :: k in r && k != prefix + key ==> k in acc && r[k] == acc[k]
  {
    if val.Some? then acc[prefix + key := if nulls then None else val] else acc
  }

  /** `visitInnerNode(key, node)`. */
  function FlatInnerNode(key: string, node: Option<InnerNode>, prefix: string, path: seq<string>, nulls: bool,
                         curRoot: Traversable, acc: Flat): Result<Flat, FlatFault>
    requires nulls ==> path != []
    decreases if nulls then 1 else 3, node, 0, 0
  {
    match node
    case None => Ok(acc)
    case Some(n) => FlatChildren(n, 0, prefix + key + ".", Extend(path, key, nulls), nulls, curRoot, acc)
  }

  /** `node.traverseChildren(this)` from the `i`-th field on. */
  function FlatChildren(n: InnerNode, i: nat, prefix: string, path: seq<string>, nulls: bool,
                        curRoot: Traversable, acc: Flat): Result<Flat, FlatFault>
    requires i <= |n.children| && path != []
    decreases if nulls then 1 else 3, n, 1, |n.children| - i
  {
    if i == |n.children| then Ok(acc)
    else
      match FlatChild(n.children[i], prefix, path, nulls, curRoot, acc)
      case Err(e) => Err(e)
      case Ok(a) => FlatChildren(n, i + 1, prefix, path, nulls, curRoot, a)
  }

  /** The visit `traverseChildren` makes for one field. */
  function FlatChild(c: Child, prefix: string, path: seq<string>, nulls: bool,
                     curRoot: Traversable, acc: Flat): Result<Flat, FlatFault>
    requires path != []
    decreases if nulls then 1 else 3, c, 0, 0
  {
    match c.slot
    case LeafSlot(v) => Ok(FlatLeaf(c.key, v, prefix, nulls, acc))
    case InnerSlot(_, node) => FlatInnerNode(c.key, node, prefix, path, nulls, curRoot, acc)
    case ListSlot(l) => FlatListNode(c.key, l, prefix, path, nulls, curRoot, acc)
  }

  /** `visitNamedListNode(key, node)`. */
  function FlatListNode(key: string, l: NamedListNode, prefix: string, path: seq<string>, nulls: bool,
                        curRoot: Traversable, acc: Flat): Result<Flat, FlatFault>
    requires nulls ==> path != []
    decreases if nulls then 1 else 3, l, 2, 0
  {
    FlatElements(l, 0, prefix + key + ".", Extend(path, key, nulls), nulls, curRoot, acc)
  }

  /** The loop of `visitNamedListNode` from the `j`-th name on. */
  function FlatElements(l: NamedListNode, j: nat, prefix: string, path: seq<string>, nulls: bool,
                        curRoot: Traversable, acc: Flat): Result<Flat, FlatFault>
    requires j <= |l.elements| && path != []
    decreases if nulls then 1 else 3, l, 1, |l.elements| - j
  {
    if j == |l.elements| then Ok(acc)
    else
      match FlatElement(l.elements[j], prefix, path, nulls, curRoot, acc)
      case Err(e) => Err(e)
      case Ok(a) => FlatElements(l, j + 1, prefix, path, nulls, curRoot, a)
  }

  /** One name of the list: its element's fields, or the tombstones of a deleted element. */
  function FlatElement(e: Element, prefix: string, path: seq<string>, nulls: bool,
                       curRoot: Traversable, acc: Flat): Result<Flat, FlatFault>
    requires path != []
    decreases if nulls then 1 else 3, e, 0, 0
  {
    var p := prefix + PathCodec.Escape(e.key) + ".";
    match e.node
    case None => FlatDeleted(p, Extend(path, e.key, nulls), nulls, curRoot, acc)
    case Some(n) => FlatChildren(n, 0, p, Extend(path, e.key, nulls), nulls, curRoot, acc)
  }

  /**
   * `visitDeletedNamedListElement()`: the cached element at the path without
   * its root key, written as tombstones. A failed lookup or a `null` there
   * writes nothing.
   */
  function FlatDeleted(prefix: string, path: seq<string>, nulls: bool, curRoot: Traversable, acc: Flat): Result<Flat, FlatFault>
    requires path != []
    decreases if nulls then 0 else 2
  {
    if nulls then Err(NestedDeletion)
    else
      match FindSpec(path[1..], curRoot)
      case Err(_) => Ok(acc)
      case Ok(FoundInner(Some(n))) => FlatChildren(n, 0, prefix, path, true, curRoot, acc)
      case Ok(FoundInner(None)) => Ok(acc)
      case Ok(FoundValue(None)) => Ok(acc)
      case Ok(_) => Err(NotAnInnerNode(path))
  }

  /** `nodeToFlatMap(rootKey, curRoot, updates)`. */
  function FlatTree(rootKey: string, curRoot: Traversable, updates: Traversable): Result<Flat, FlatFault> {
    match updates
    case TInner(n) => FlatInnerNode(rootKey, Some(n), "", [], false, curRoot, map[])
    case TList(l) => FlatListNode(rootKey, l, "", [], false, curRoot, map[])
  }

  // ---------------------------------------------------------------------
  // The visitor object

  /** The anonymous `ConfigurationVisitor` of `nodeToFlatMap`, with its four fields. */
  class Flattener {
    const curRoot: Traversable
    var values: Flat
    var currentKey: string
    var currentPath: seq<string>
    var writeNulls: bool

    constructor (curRoot: Traversable)
      ensures this.curRoot == curRoot
      ensures values == map[] && currentKey == "" && currentPath == [] && !writeNulls
    {
      this.curRoot := curRoot;
      values := map[];
      currentKey := "";
      currentPath := [];
      writeNulls := false;
    }

    /** `startVisit(key, escape)`: returns the length `endVisit` restores. */
    method StartVisit(key: string, escape: bool) returns (previousKeyLength: nat)
      modifies this
      ensures previousKeyLength == |old(currentKey)|
      ensures currentKey == old(currentKey) + (if escape then PathCodec.Escape(key) else key) + "."
      ensures currentPath == Extend(old(currentPath), key, old(writeNulls))
      ensures values == old(values) && writeNulls == old(writeNulls)
    {
      previousKeyLength := |currentKey|;
      currentKey := currentKey + (if escape then PathCodec.Escape(key) else key) + ".";
      if !writeNulls {
        currentPath := currentPath + [key];
      }
    }

    /** `endVisit(previousKeyLength)`. */
    method EndVisit(previousKeyLength: nat)
      requires previousKeyLength <= |currentKey|
      requires !writeNulls ==> currentPath != []
      modifies this
      ensures currentKey == old(currentKey)[..previousKeyLength]
      ensures currentPath == if old(writeNulls) then old(currentPath) else old(currentPath)[..|old(currentPath)| - 1]
      ensures values == old(values) && writeNulls == old(writeNulls)
    {
      currentKey := currentKey[..previousKeyLength];
      if !writeNulls {
        currentPath := currentPath[..|currentPath| - 1];
      }
    }

    method VisitLeafNode(key: string, val: Option<Value>)
      modifies this
      ensures values == FlatLeaf(key, val, old(currentKey), writeNulls, old(values))
      ensures currentKey == old(currentKey) && currentPath == old(currentPath) && writeNulls == old(writeNulls)
    {
      if val.Some? {
        values := values[currentKey + key := if writeNulls then None else val];
      }
    }

    method VisitInnerNode(key: string, node: Option<InnerNode>) returns (fault: Option<FlatFault>)
      requires writeNulls ==> currentPath != []
      modifies this
      ensures var r := FlatInnerNode(key, node, old(currentKey), old(currentPath), old(writeNulls), curRoot, old(values));
        (fault.None? <==> r.Ok?) && (fault.Some? ==> r == Err(fault.value)) &&
        (fault.None? ==> values == r.value && currentKey == old(currentKey) &&
                         currentPath == old(currentPath) && writeNulls == old(writeNulls))
      decreases if writeNulls then 1 else 3, node, 0, 0
    {
      if node.None? {
        return None;
      }
      var previousKeyLength := StartVisit(key, false);
      fault := TraverseChildren(node.value);
      if fault.Some? {
        return;
      }
      EndVisit(previousKeyLength);
      assert old(currentKey) + key + "." == old(currentKey) + (key + ".");
    }

    /** `node.traverseChildren(this)`. */
    method TraverseChildren(n: InnerNode) returns (fault: Option<FlatFault>)
      requires currentPath != []
      modifies this
      ensures var r := FlatChildren(n, 0, old(currentKey), old(currentPath), old(writeNulls), curRoot, old(values));
        (fault.None? <==> r.Ok?) && (fault.Some? ==> r == Err(fault.value)) &&
        (fault.None? ==> values == r.value && currentKey == old(currentKey) &&
                         currentPath == old(currentPath) && writeNulls == old(writeNulls))
      decreases if writeNulls then 1 else 3, n, 1, |n.children|
    {
      var i := 0;
      fault := None;
      while i < |n.children|
        invariant 0 <= i <= |n.children| && fault.None?
        invariant currentKey == old(currentKey) && currentPath == old(currentPath) && writeNulls == old(writeNulls)
        invariant FlatChildren(n, i, currentKey, currentPath, writeNulls, curRoot, values) ==
                  FlatChildren(n, 0, old(currentKey), old(currentPath), old(writeNulls), curRoot, old(values))
        decreases |n.children| - i
      {
        var c := n.children[i];
        ghost var before := values;
        match c.slot {
          case LeafSlot(v) =>
            VisitLeafNode(c.key, v);
          case InnerSlot(_, node) =>
            fault := VisitInnerNode(c.key, node);
          case ListSlot(l) =>
            fault := VisitNamedListNode(c.key, l);
        }
        assert fault.Some? ==> FlatChild(c, old(currentKey), old(currentPath), old(writeNulls), curRoot, before) == Err(fault.value);
        if fault.Some? {
          return;
        }
        i := i + 1;
      }
    }

    /**
     * `visitNamedListNode(key, node)`. The names of a list are distinct, so
     * `node.get(name)` is the element at hand.
     */
    method VisitNamedListNode(key: string, l: NamedListNode) returns (fault: Option<FlatFault>)
      requires writeNulls ==> currentPath != []
      modifies this
      ensures var r := FlatListNode(key, l, old(currentKey), old(currentPath), old(writeNulls), curRoot, old(values));
        (fault.None? <==> r.Ok?) && (fault.Some? ==> r == Err(fault.value)) &&
        (fault.None? ==> values == r.value && currentKey == old(currentKey) &&
                         currentPath == old(currentPath) && writeNulls == old(writeNulls))
      decreases if writeNulls then 1 else 3, l, 2, 0
    {
      var previousKeyLength := StartVisit(key, false);
      ghost var prefix, path := currentKey, currentPath;
      assert prefix == old(currentKey) + key + ".";
      var j := 0;
      fault := None;
      while j < |l.elements|
        invariant 0 <= j <= |l.elements| && fault.None?
        invariant currentKey == prefix && currentPath == path && writeNulls == old(writeNulls)
        invariant FlatElements(l, j, prefix, path, writeNulls, curRoot, values) ==
                  FlatListNode(key, l, old(currentKey), old(currentPath), old(writeNulls), curRoot, old(values))
        decreases |l.elements| - j
      {
        fault := VisitListEntry(l.elements[j]);
        if fault.Some? {
          return;
        }
        j := j + 1;
      }
      EndVisit(previousKeyLength);
      assert (old(currentKey) + key + ".")[..|old(currentKey)|] == old(currentKey);
      assert !writeNulls ==> (old(currentPath) + [key])[..|old(currentPath)|] == old(currentPath);
    }

    /** One round of the loop of `visitNamedListNode`: the name, then its element or its deletion. */
    method VisitListEntry(e: Element) returns (fault: Option<FlatFault>)
      requires currentPath != []
      modifies this
      ensures var r := FlatElement(e, old(currentKey), old(currentPath), old(writeNulls), curRoot, old(values));
        (fault.None? <==> r.Ok?) && (fault.Some? ==> r == Err(fault.value)) &&
        (fault.None? ==> values == r.value && currentKey == old(currentKey) &&
                         currentPath == old(currentPath) && writeNulls == old(writeNulls))
      decreases if writeNulls then 1 else 3, e, 0, 0
    {
      var previousKeyLength := StartVisit(e.key, true);
      if e.node.None? {
        fault := VisitDeletedNamedListElement();
      } else {
        fault := TraverseChildren(e.node.value);
      }
      if fault.Some? {
        return;
      }
      EndVisit(previousKeyLength);
      assert (old(currentKey) + PathCodec.Escape(e.key) + ".")[..|old(currentKey)|] == old(currentKey);
      assert !writeNulls ==> (old(currentPath) + [e.key])[..|old(currentPath)|] == old(currentPath);
    }

    /** `visitDeletedNamedListElement()`. */
    method VisitDeletedNamedListElement() returns (fault: Option<FlatFault>)
      requires currentPath != []
      modifies this
      ensures var r := FlatDeleted(old(currentKey), old(currentPath), old(writeNulls), curRoot, old(values));
        (fault.None? <==> r.Ok?) && (fault.Some? ==> r == Err(fault.value)) &&
        (fault.None? ==> values == r.value && currentKey == old(currentKey) &&
                         currentPath == old(currentPath) && writeNulls == old(writeNulls))
      decreases if writeNulls then 0 else 2
    {
      if writeNulls {
        return Some(NestedDeletion);
      }
      var original := Find(currentPath[1..], curRoot);
      if original.Err? {
        return None;
      }
      match original.value {
        case FoundInner(Some(n)) =>
          writeNulls := true;
          fault := TraverseChildren(n);
          if fault.Some? {
            return;
          }
          writeNulls := false;
        case FoundInner(None) =>
          fault := None;
        case FoundValue(None) =>
          fault := None;
        case _ =>
          fault := Some(NotAnInnerNode(currentPath));
      }
    }
  }

  /** `nodeToFlatMap(rootKey, curRoot, updates)`: a new visitor accepted by the updates tree. */
  method NodeToFlatMap(rootKey: string, curRoot: Traversable, updates: Traversable) returns (r: Result<Flat, FlatFault>)
    ensures r == FlatTree(rootKey, curRoot, updates)
  {
    var visitor := new Flattener(curRoot);
    var fault;
    if updates.TInner? {
      fault := visitor.VisitInnerNode(rootKey, Some(updates.inner));
    } else {
      fault := visitor.VisitNamedListNode(rootKey, updates.list);
    }
    r := if fault.Some? then Err(fault.value) else Ok(visitor.values);
  }
}
