/**
 * `patch(root, changes)`: the changes tree applied on top of a copy of the
 * root through the three patch sources. A `PatchInnerConfigurationSource`
 * checks that its node and the destination are of one class, then hands each
 * non-null field of its node to the destination's `construct`; a
 * `PatchNamedListConfigurationSource` hands every element name, with `null`
 * for a deleted element; a `PatchLeafConfigurationSource` is only unwrapped.
 */
module Patch {
  import opened Wrappers
  import opened ConfigTree

  // ---------------------------------------------------------------------
  // The patch as functions

  /** `root.getClass() == changes.getClass()`. */
  predicate SameRootClass(root: Traversable, changes: Traversable) {
    (root.TInner? && changes.TInner? && SameClass(root.inner, changes.inner)) ||
    (root.TList? && changes.TList?)
  }

  /** The tree `patch` returns: the root's copy with the changes' source descended into it. */
  function PatchTree(root: Traversable, changes: Traversable): (r: Result<Traversable, Fault>)
    requires SameRootClass(root, changes)
    ensures r.Ok? ==> (r.value.TInner? <==> root.TInner?)
  {
    if changes.TInner? then
      match PatchInner(changes.inner, root.inner)
      case Err(e) => Err(e)
      case Ok(n) => Ok(TInner(n))
    else
      match PatchList(changes.list, root.list)
      case Err(e) => Err(e)
      case Ok(l) => Ok(TList(l))
  }

  /** `PatchInnerConfigurationSource(src).descend(dst)`: the class check, then every field of `src` in order. */
  function PatchInner(src: InnerNode, dst: InnerNode): (r: Result<InnerNode, Fault>)
    ensures r.Ok? ==> SameClass(src, dst)
    decreases src, 2
  {
    if !SameClass(src, dst) then Err(ClassMismatch)
    else PatchChildren(src, 0, dst)
  }

  /** The fields of `src` from the `i`-th on, visited in order, stopping at the first that throws. */
  function PatchChildren(src: InnerNode, i: nat, dst: InnerNode): Result<InnerNode, Fault>
    requires i <= |src.children|
    decreases src, 1, |src.children| - i
  {
    if i == |src.children| then Ok(dst)
    else
      match PatchChild(src.children[i], dst)
      case Err(e) => Err(e)
      case Ok(d) => PatchChildren(src, i + 1, d)
  }

  /** A field of the changes that holds `null` asks for nothing. */
  predicate IsNullSource(s: Slot) {
    s == LeafSlot(None) || (s.InnerSlot? && s.node.None?)
  }

  /** One visited field: `construct(key, source)` unless it holds `null`. */
  function PatchChild(c: Child, dst: InnerNode): Result<InnerNode, Fault>
    decreases c, 0
  {
    if IsNullSource(c.slot) then Ok(dst)
    else
      match FieldIndex(dst, c.key)
      case None => Err(NoSuchElement(c.key))
      case Some(i) =>
        (match ConstructSlot(dst.children[i].slot, c.slot)
         case Err(e) => Err(e)
         case Ok(x) => Ok(SetSlot(dst, i, x)))
  }

  /**
   * The generated `construct` of the destination field `t` with the patch
   * source of the (non-null) changes field `s`: a leaf is unwrapped, a nested
   * node (the present one or a new one) and a named list are descended into.
   */
  function ConstructSlot(t: Slot, s: Slot): Result<Slot, Fault>
    decreases s, 0
  {
    match s
    case LeafSlot(v) =>
      if v.None? then Ok(t)
      else if t.LeafSlot? then Ok(LeafSlot(v))
      else Err(Unsupported("descend"))
    case InnerSlot(_, n) =>
      if n.None? then Ok(t)
      else if t.LeafSlot? then Err(Unsupported("unwrap"))
      else if t.ListSlot? then Err(ClassMismatch)
      else
        (match PatchInner(n.value, t.node.GetOr(t.blank))
         case Err(e) => Err(e)
         case Ok(x) => Ok(InnerSlot(t.blank, Some(x))))
    case ListSlot(l) =>
      if t.LeafSlot? then Err(Unsupported("unwrap"))
      else if t.InnerSlot? then Err(ClassMismatch)
      else
        match PatchList(l, t.list)
        case Err(e) => Err(e)
        case Ok(x) => Ok(ListSlot(x))
  }

  /**
   * `PatchNamedListConfigurationSource(src).descend(dst)`: every name of `src`
   * in order. The names of a list are distinct, so `src.get(key)` is the
   * element at hand.
   */
  function PatchList(src: NamedListNode, dst: NamedListNode): Result<NamedListNode, Fault>
    decreases src, 2
  {
    PatchElements(src, 0, dst)
  }

  function PatchElements(src: NamedListNode, j: nat, dst: NamedListNode): Result<NamedListNode, Fault>
    requires j <= |src.elements|
    decreases src, 1, |src.elements| - j
  {
    if j == |src.elements| then Ok(dst)
    else
      match PatchElement(src.elements[j], dst)
      case Err(e) => Err(e)
      case Ok(d) => PatchElements(src, j + 1, d)
  }

  /**
   * `construct(key, source)` on a named list: `null` deletes, a node patches
   * a copy of the present element (or a new one) and puts it under the name.
   */
  function PatchElement(e: Element, dst: NamedListNode): Result<NamedListNode, Fault>
    decreases e, 0
  {
    match e.node
    case None => Ok(Put(dst, e.key, None))
    case Some(n) =>
      (match PatchInner(n, Get(dst, e.key).GetOr(dst.blank))
       case Err(err) => Err(err)
       case Ok(x) => Ok(Put(dst, e.key, Some(x))))
  }

  // ---------------------------------------------------------------------
  // The patch as the source runs it

  /** `patch(root, changes)`: a new node; the root is left as it was. */
  method Patch(root: ConfigNode, changes: Traversable) returns (copy: Result<ConfigNode, Fault>)
    requires SameRootClass(root.tree, changes)
    ensures copy.Ok? <==> PatchTree(root.tree, changes).Ok?
    ensures copy.Ok? ==> fresh(copy.value) && copy.value.tree == PatchTree(root.tree, changes).value
  {
    var c := root.Copy();
    if changes.TInner? {
      var r := PatchInnerDescend(changes.inner, c.tree.inner);
      if r.Err? {
        return Err(r.error);
      }
      c.tree := TInner(r.value);
    } else {
      var r := PatchListDescend(changes.list, c.tree.list);
      if r.Err? {
        return Err(r.error);
      }
      c.tree := TList(r.value);
    }
    copy := Ok(c);
  }

  method PatchInnerDescend(src: InnerNode, dst: InnerNode) returns (r: Result<InnerNode, Fault>)
    ensures r == PatchInner(src, dst)
    decreases src, 2
  {
    if !SameClass(src, dst) {
      return Err(ClassMismatch);
    }
    var cur := dst;
    var i := 0;
    while i < |src.children|
      invariant 0 <= i <= |src.children|
      invariant PatchChildren(src, i, cur) == PatchInner(src, dst)
      decreases |src.children| - i
    {
      var c := src.children[i];
      if !IsNullSource(c.slot) {
        var idx := FieldIndex(cur, c.key);
        if idx.None? {
          return Err(NoSuchElement(c.key));
        }
        var x := ConstructField(cur.children[idx.value].slot, c.slot);
        if x.Err? {
          return Err(x.error);
        }
        cur := SetSlot(cur, idx.value, x.value);
      }
      i := i + 1;
    }
    r := Ok(cur);
  }

  /** `dstNode.construct(key, src)` for one field, with the patch source of the changes' field `s`. */
  method ConstructField(t: Slot, s: Slot) returns (r: Result<Slot, Fault>)
    ensures r == ConstructSlot(t, s)
    ensures (s.LeafSlot? && s.value.None?) || (s.InnerSlot? && s.node.None?) ==> r == Ok(t)
    ensures s.LeafSlot? && s.value.Some? ==> (r.Ok? <==> t.LeafSlot?) && (r.Ok? ==> r.value == s)
    ensures s.InnerSlot? && s.node.Some? && !t.InnerSlot? ==> r.Err?
    ensures s.InnerSlot? && s.node.Some? && r.Ok? ==>
      r.value.InnerSlot? && r.value.blank == t.blank && r.value.node.Some? && SameClass(s.node.value, t.node.GetOr(t.blank))
    ensures s.ListSlot? && !t.ListSlot? ==> r.Err?
    ensures s.ListSlot? && r.Ok? ==> r.value.ListSlot?
    decreases s, 0
  {
    match s {
      case LeafSlot(v) =>
        if v.None? {
          r := Ok(t);
        } else if t.LeafSlot? {
          r := Ok(LeafSlot(v));
        } else {
          r := Err(Unsupported("descend"));
        }
      case InnerSlot(_, n) =>
        if n.None? {
          r := Ok(t);
        } else if t.LeafSlot? {
          r := Err(Unsupported("unwrap"));
        } else if t.ListSlot? {
          r := Err(ClassMismatch);
        } else {
          var x := PatchInnerDescend(n.value, t.node.GetOr(t.blank));
          r := if x.Err? then Err(x.error) else Ok(InnerSlot(t.blank, Some(x.value)));
        }
      case ListSlot(l) =>
        if t.LeafSlot? {
          r := Err(Unsupported("unwrap"));
        } else if t.InnerSlot? {
          r := Err(ClassMismatch);
        } else {
          var x := PatchListDescend(l, t.list);
          r := if x.Err? then Err(x.error) else Ok(ListSlot(x.value));
        }
    }
  }

  method PatchListDescend(src: NamedListNode, dst: NamedListNode) returns (r: Result<NamedListNode, Fault>)
    ensures r == PatchList(src, dst)
    decreases src, 2
  {
    var cur := dst;
    var j := 0;
    while j < |src.elements|
      invariant 0 <= j <= |src.elements|
      invariant PatchElements(src, j, cur) == PatchList(src, dst)
      decreases |src.elements| - j
    {
      var e := src.elements[j];
      if e.node.None? {
        cur := Put(cur, e.key, None);
      } else {
        var x := PatchInnerDescend(e.node.value, Get(cur, e.key).GetOr(cur.blank));
        if x.Err? {
          return Err(x.error);
        }
        cur := Put(cur, e.key, Some(x.value));
      }
      j := j + 1;
    }
    r := Ok(cur);
  }
}
