/**
 * What `patch` promises for well-typed trees of one class: it throws nothing,
 * the result is of the root's class, fields are patched one by one (a field
 * holding `null` in the changes is left alone), and a named list keeps its
 * names and appends the new ones in the order of the changes.
 */
module PatchProperties {
  import opened Wrappers
  import opened ConfigTree
  import opened Patch

  /** Two slots of one kind and field type. */
  predicate SameKind(s: Slot, t: Slot) {
    ShapeOf(Child("", s)) == ShapeOf(Child("", t))
  }

  /** The names of `keys` not in `present`, in their order. */
  function Fresh(keys: seq<string>, present: seq<string>): (r: seq<string>)
    ensures forall x :: x in r ==> x in keys && x !in present
  {
    if keys == [] then []
    else Fresh(keys[..|keys| - 1], present) + (if keys[|keys| - 1] in present then [] else [keys[|keys| - 1]])
  }

  /** What the patch of a named list leaves under a name of the changes. */
  function ElementPatched(sv: Option<InnerNode>, dv: Option<InnerNode>, blank: InnerNode): Result<Option<InnerNode>, Fault> {
    match sv
    case None => Ok(None)
    case Some(n) =>
      match PatchInner(n, dv.GetOr(blank))
      case Err(e) => Err(e)
      case Ok(x) => Ok(Some(x))
  }

  // ---------------------------------------------------------------------
  // Well-typed patches

  /**
   * A patch of two typed nodes of one class throws nothing, gives a typed node
   * of that class, and leaves in each field what `construct` of that field
   * with the changes' field gives.
   */
  lemma {:induction false} PatchInnerTyped(src: InnerNode, dst: InnerNode)
    requires Typed(src) && Typed(dst) && SameClass(src, dst)
    ensures PatchInner(src, dst).Ok?
    ensures Typed(PatchInner(src, dst).value) && SameClass(PatchInner(src, dst).value, dst)
    ensures forall i :: 0 <= i < |dst.children| ==>
      Ok(PatchInner(src, dst).value.children[i].slot) == ConstructSlot(dst.children[i].slot, src.children[i].slot)
    decreases src, 2
  {
    SameClassKeys(src, dst);
    PatchChildrenTyped(src, 0, dst, dst);
  }

  lemma {:induction false} PatchChildrenTyped(src: InnerNode, i: nat, d: InnerNode, dst: InnerNode)
    requires i <= |src.children|
    requires Typed(src) && Typed(dst) && SameClass(src, dst)
    requires Typed(d) && SameClass(d, dst)
    requires forall j :: 0 <= j < i ==> Ok(d.children[j].slot) == ConstructSlot(dst.children[j].slot, src.children[j].slot)
    requires forall j :: i <= j < |d.children| ==> d.children[j] == dst.children[j]
    ensures PatchChildren(src, i, d).Ok?
    ensures Typed(PatchChildren(src, i, d).value) && SameClass(PatchChildren(src, i, d).value, dst)
    ensures forall j :: 0 <= j < |dst.children| ==>
      Ok(PatchChildren(src, i, d).value.children[j].slot) == ConstructSlot(dst.children[j].slot, src.children[j].slot)
    decreases src, 1, |src.children| - i
  {
    SameClassKeys(d, dst);
    if i < |src.children| {
      var d' := ChildStepTyped(src, i, d, dst);
      PatchChildrenTyped(src, i + 1, d', dst);
    }
  }

  /** One field of a well-typed patch. */
  lemma {:induction false} ChildStepTyped(src: InnerNode, i: nat, d: InnerNode, dst: InnerNode) returns (d': InnerNode)
    requires i < |src.children|
    requires Typed(src) && Typed(dst) && SameClass(src, dst)
    requires Typed(d) && SameClass(d, dst)
    requires forall j :: 0 <= j < i ==> Ok(d.children[j].slot) == ConstructSlot(dst.children[j].slot, src.children[j].slot)
    requires forall j :: i <= j < |d.children| ==> d.children[j] == dst.children[j]
    ensures PatchChild(src.children[i], d) == Ok(d')
    ensures Typed(d') && SameClass(d', dst)
    ensures forall j :: 0 <= j <= i ==> Ok(d'.children[j].slot) == ConstructSlot(dst.children[j].slot, src.children[j].slot)
    ensures forall j :: i < j < |d'.children| ==> d'.children[j] == dst.children[j]
    decreases src, 0
  {
    SameClassKeys(src, dst);
    SameClassKeys(d, dst);
    var c := src.children[i];
    var t := dst.children[i];
    assert d.children[i] == t;
    assert ShapeOf(c) == ShapeOf(t) by {
      assert Shape(src).children[i] == Shape(dst).children[i];
    }
    assert TypedSlot(c.slot) && TypedSlot(t.slot);
    ConstructSlotTyped(t.slot, c.slot);
    var x := ConstructSlot(t.slot, c.slot).value;
    if IsNullSource(c.slot) {
      d' := d;
    } else {
      assert FieldIndex(d, c.key) == Some(i);
      d' := SetSlot(d, i, x);
      SetSlotTyped(d, i, x);
    }
  }

  /** Replacing a field by a typed slot of its kind keeps a node typed and of its class. */
  lemma SetSlotTyped(d: InnerNode, i: nat, x: Slot)
    requires i < |d.children| && Typed(d) && TypedSlot(x) && SameKind(x, d.children[i].slot)
    ensures Typed(SetSlot(d, i, x)) && SameClass(SetSlot(d, i, x), d)
  {
    var d' := SetSlot(d, i, x);
    assert Shape(d').children == Shape(d).children;
  }

  /** `construct` of a typed field with a typed changes field of its kind throws nothing and keeps it typed. */
  lemma {:induction false} ConstructSlotTyped(t: Slot, s: Slot)
    requires TypedSlot(t) && TypedSlot(s) && SameKind(s, t)
    ensures ConstructSlot(t, s).Ok?
    ensures TypedSlot(ConstructSlot(t, s).value) && SameKind(ConstructSlot(t, s).value, t)
    decreases s, 0
  {
    match s
    case LeafSlot(v) =>
    case InnerSlot(b, n) =>
      if n.Some? {
        var start := t.node.GetOr(t.blank);
        assert SameClass(start, b) && Typed(start);
        PatchInnerTyped(n.value, start);
      }
    case ListSlot(l) =>
      PatchListTyped(l, t.list);
  }

  /**
   * A patch of two typed named lists with one element class throws nothing,
   * gives a typed list whose names are the old ones followed by the new names
   * of the changes in their order, and under each name of the changes what
   * patching its element gives; every other element is kept.
   */
  lemma {:induction false} PatchListTyped(src: NamedListNode, dst: NamedListNode)
    requires TypedList(src) && TypedList(dst) && src.blank == dst.blank
    ensures PatchList(src, dst).Ok?
    ensures TypedList(PatchList(src, dst).value) && PatchList(src, dst).value.blank == dst.blank
    ensures Keys(PatchList(src, dst).value) == Keys(dst) + Fresh(Keys(src), Keys(dst))
    ensures forall k :: (Ok(Get(PatchList(src, dst).value, k)) ==
      if k in Keys(src) then ElementPatched(Get(src, k), Get(dst, k), dst.blank) else Ok(Get(dst, k)))
    decreases src, 2
  {
    assert Keys(src)[..0] == [];
    PatchElementsTyped(src, 0, dst, dst);
    assert Keys(src)[..|src.elements|] == Keys(src);
  }

  lemma {:induction false} PatchElementsTyped(src: NamedListNode, j: nat, d: NamedListNode, dst: NamedListNode)
    requires j <= |src.elements|
    requires TypedList(src) && TypedList(dst) && src.blank == dst.blank
    requires TypedList(d) && d.blank == dst.blank
    requires Keys(d) == Keys(dst) + Fresh(Keys(src)[..j], Keys(dst))
    requires forall k :: (Ok(Get(d, k)) ==
      if k in Keys(src)[..j] then ElementPatched(Get(src, k), Get(dst, k), dst.blank) else Ok(Get(dst, k)))
    ensures PatchElements(src, j, d).Ok?
    ensures TypedList(PatchElements(src, j, d).value) && PatchElements(src, j, d).value.blank == dst.blank
    ensures Keys(PatchElements(src, j, d).value) == Keys(dst) + Fresh(Keys(src)[..|src.elements|], Keys(dst))
    ensures forall k :: (Ok(Get(PatchElements(src, j, d).value, k)) ==
      if k in Keys(src)[..|src.elements|] then ElementPatched(Get(src, k), Get(dst, k), dst.blank) else Ok(Get(dst, k)))
    decreases src, 1, |src.elements| - j
  {
    if j < |src.elements| {
      var d' := ElementStepTyped(src, j, d, dst);
      PatchElementsTyped(src, j + 1, d', dst);
    }
  }

  /** One element of a well-typed patch of a named list. */
  lemma {:induction false} ElementStepTyped(src: NamedListNode, j: nat, d: NamedListNode, dst: NamedListNode) returns (d': NamedListNode)
    requires j < |src.elements|
    requires TypedList(src) && TypedList(dst) && src.blank == dst.blank
    requires TypedList(d) && d.blank == dst.blank
    requires Keys(d) == Keys(dst) + Fresh(Keys(src)[..j], Keys(dst))
    requires forall k :: (Ok(Get(d, k)) ==
      if k in Keys(src)[..j] then ElementPatched(Get(src, k), Get(dst, k), dst.blank) else Ok(Get(dst, k)))
    ensures PatchElement(src.elements[j], d) == Ok(d')
    ensures TypedList(d') && d'.blank == dst.blank
    ensures Keys(d') == Keys(dst) + Fresh(Keys(src)[..j + 1], Keys(dst))
    ensures forall k :: (Ok(Get(d', k)) ==
      if k in Keys(src)[..j + 1] then ElementPatched(Get(src, k), Get(dst, k), dst.blank) else Ok(Get(dst, k)))
    decreases src, 0
  {
    var e := src.elements[j];
    var k := e.key;
    NotInPrefix(src, j);
    assert Get(d, k) == Get(dst, k);
    GetDistinct(src, j);
    GetTyped(dst, k);
    var v := ElementPatchedTyped(e.node, Get(dst, k), dst.blank, src.blank);
    d' := Put(d, k, v);
    PutTyped(d, k, v);
    StepKeys(src, j, d, dst, v);
    StepGets(src, j, d, dst, v);
  }

  /** Patching a typed element of the list's class gives a typed element. */
  lemma ElementPatchedTyped(sv: Option<InnerNode>, dv: Option<InnerNode>, blank: InnerNode, srcBlank: InnerNode) returns (v: Option<InnerNode>)
    requires Typed(blank) && SameClass(srcBlank, blank)
    requires TypedElement(srcBlank, sv) && TypedElement(blank, dv)
    ensures ElementPatched(sv, dv, blank) == Ok(v) && TypedElement(blank, v)
  {
    if sv.Some? {
      var start := dv.GetOr(blank);
      assert SameClass(start, blank) && Typed(start);
      PatchInnerTyped(sv.value, start);
      v := Some(PatchInner(sv.value, start).value);
    } else {
      v := None;
    }
  }

  lemma StepKeys(src: NamedListNode, j: nat, d: NamedListNode, dst: NamedListNode, v: Option<InnerNode>)
    requires j < |src.elements| && DistinctKeys(src)
    requires Keys(d) == Keys(dst) + Fresh(Keys(src)[..j], Keys(dst))
    ensures Keys(Put(d, src.elements[j].key, v)) == Keys(dst) + Fresh(Keys(src)[..j + 1], Keys(dst))
  {
    var k := src.elements[j].key;
    var prefix, next := Keys(src)[..j], Keys(src)[..j + 1];
    assert next[..|next| - 1] == prefix && next[|next| - 1] == k;
    NotInPrefix(src, j);
    FreshSnoc(next, Keys(dst));
    assert k !in Fresh(prefix, Keys(dst));
    KeysPut(d, k, v);
    if k in Keys(dst) {
      assert k in Keys(d);
    } else {
      assert k !in Keys(d);
      calc {
        Keys(Put(d, k, v));
        Keys(d) + [k];
        (Keys(dst) + Fresh(prefix, Keys(dst))) + [k];
        Keys(dst) + (Fresh(prefix, Keys(dst)) + [k]);
        Keys(dst) + Fresh(next, Keys(dst));
      }
    }
  }

  /** In a list with distinct names, the `j`-th name is not among the first `j`. */
  lemma NotInPrefix(l: NamedListNode, j: nat)
    requires j < |l.elements| && DistinctKeys(l)
    ensures l.elements[j].key !in Keys(l)[..j]
  {
    forall a | 0 <= a < j
      ensures Keys(l)[..j][a] != l.elements[j].key
    {
      assert Keys(l)[..j][a] == l.elements[a].key;
    }
  }

  lemma StepGets(src: NamedListNode, j: nat, d: NamedListNode, dst: NamedListNode, v: Option<InnerNode>)
    requires j < |src.elements| && DistinctKeys(src)
    requires ElementPatched(src.elements[j].node, Get(dst, src.elements[j].key), dst.blank) == Ok(v)
    requires forall k :: (Ok(Get(d, k)) ==
      if k in Keys(src)[..j] then ElementPatched(Get(src, k), Get(dst, k), dst.blank) else Ok(Get(dst, k)))
    ensures forall k :: (Ok(Get(Put(d, src.elements[j].key, v), k)) ==
      if k in Keys(src)[..j + 1] then ElementPatched(Get(src, k), Get(dst, k), dst.blank) else Ok(Get(dst, k)))
  {
    var k := src.elements[j].key;
    assert Keys(src)[..j + 1] == Keys(src)[..j] + [k];
    NotInPrefix(src, j);
    GetDistinct(src, j);
    forall k' | true
      ensures Ok(Get(Put(d, k, v), k')) ==
        if k' in Keys(src)[..j + 1] then ElementPatched(Get(src, k'), Get(dst, k'), dst.blank) else Ok(Get(dst, k'))
    {
      GetPut(d, k, v, k');
    }
  }

  lemma FreshSnoc(keys: seq<string>, present: seq<string>)
    requires keys != []
    ensures Fresh(keys, present) ==
      Fresh(keys[..|keys| - 1], present) + (if keys[|keys| - 1] in present then [] else [keys[|keys| - 1]])
  {
  }

  // ---------------------------------------------------------------------
  // Consequences

  /**
   * In a well-typed patch every field keeps its name, a field holding `null`
   * in the changes is left as it was, and a leaf given a value takes it.
   */
  lemma PatchFields(src: InnerNode, dst: InnerNode)
    requires Typed(src) && Typed(dst) && SameClass(src, dst)
    ensures PatchInner(src, dst).Ok?
    ensures |PatchInner(src, dst).value.children| == |dst.children|
    ensures forall i :: 0 <= i < |dst.children| ==> PatchInner(src, dst).value.children[i].key == dst.children[i].key
    ensures forall i :: 0 <= i < |dst.children| && IsNullSource(src.children[i].slot) ==>
      PatchInner(src, dst).value.children[i] == dst.children[i]
    ensures forall i :: 0 <= i < |dst.children| && src.children[i].slot.LeafSlot? && src.children[i].slot.value.Some? ==>
      PatchInner(src, dst).value.children[i].slot == src.children[i].slot
  {
    PatchInnerTyped(src, dst);
    var r := PatchInner(src, dst).value;
    SameClassKeys(r, dst);
    SameClassKeys(src, dst);
    forall i | 0 <= i < |dst.children| && src.children[i].slot.LeafSlot? && src.children[i].slot.value.Some?
      ensures r.children[i].slot == src.children[i].slot
    {
      assert Shape(src).children[i] == Shape(dst).children[i];
    }
  }

  /** Changes that hold nothing: every field `null` and every named list empty. */
  predicate NoChanges(n: InnerNode) {
    forall i :: 0 <= i < |n.children| ==>
      IsNullSource(n.children[i].slot) || (n.children[i].slot.ListSlot? && n.children[i].slot.list.elements == [])
  }

  /** Patching with changes that hold nothing gives the destination back. */
  lemma PatchNoChanges(src: InnerNode, dst: InnerNode)
    requires Typed(src) && Typed(dst) && SameClass(src, dst) && NoChanges(src)
    ensures PatchInner(src, dst) == Ok(dst)
  {
    PatchInnerTyped(src, dst);
    var r := PatchInner(src, dst).value;
    SameClassKeys(r, dst);
    SameClassKeys(src, dst);
    forall i | 0 <= i < |dst.children|
      ensures r.children[i] == dst.children[i]
    {
      assert Shape(src).children[i] == Shape(dst).children[i];
    }
    assert r.children == dst.children;
  }

  /**
   * `patch` of a typed root with typed changes of its class (for a named
   * list: of its element class) throws nothing and gives a typed tree of the
   * root's class.
   */
  lemma PatchTreeTyped(root: Traversable, changes: Traversable)
    requires SameRootClass(root, changes)
    requires root.TInner? ==> Typed(root.inner) && Typed(changes.inner)
    requires root.TList? ==> TypedList(root.list) && TypedList(changes.list) && root.list.blank == changes.list.blank
    ensures PatchTree(root, changes).Ok?
    ensures root.TInner? ==> Typed(PatchTree(root, changes).value.inner) && SameClass(PatchTree(root, changes).value.inner, root.inner)
    ensures root.TList? ==> TypedList(PatchTree(root, changes).value.list) && PatchTree(root, changes).value.list.blank == root.list.blank
  {
    if root.TInner? {
      PatchInnerTyped(changes.inner, root.inner);
    } else {
      PatchListTyped(changes.list, root.list);
    }
  }
}
