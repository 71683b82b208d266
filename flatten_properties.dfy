/**
 * What the flat map of `nodeToFlatMap` holds, and the vocabulary its
 * soundness and completeness are stated in. Its keys never leave the prefix
 * they were written under; without deletions every value is a non-null leaf
 * and nothing fails. For trees whose field names and root key need no
 * escaping, `At` ties a point of the traversal to the path `find` resolves,
 * and `Deleted` names an element the updates delete.
 */
module FlattenProperties {
  import opened Wrappers
  import opened ConfigTree
  import opened Lookup
  import PathCodec
  import opened Flatten

  // ---------------------------------------------------------------------
  // Keys stay under their prefix

  /** Every entry of `r` that is not an entry of `acc` has its key under `prefix`; no entry is dropped. */
  ghost predicate Within(acc: Flat, r: Flat, prefix: string) {
    acc.Keys <= r.Keys &&
    forall k :: k in r ==> (k in acc && r[k] == acc[k]) || prefix <= k
  }

  lemma WithinWeaken(acc: Flat, r: Flat, p: string, q: string)
    requires Within(acc, r, p + q)
    ensures Within(acc, r, p)
  {
    forall k | k in r && p + q <= k
      ensures p <= k
    {
      assert k[..|p|] == (p + q)[..|p|];
    }
  }

  lemma {:induction false} ChildrenWithin(n: InnerNode, i: nat, prefix: string, path: seq<string>, nulls: bool,
                                          curRoot: Traversable, acc: Flat)
    requires i <= |n.children| && path != []
    ensures var r := FlatChildren(n, i, prefix, path, nulls, curRoot, acc);
      r.Ok? ==> Within(acc, r.value, prefix)
    decreases if nulls then 1 else 3, n, 1, |n.children| - i
  {
    if i < |n.children| {
      ChildWithin(n.children[i], prefix, path, nulls, curRoot, acc);
      var a := FlatChild(n.children[i], prefix, path, nulls, curRoot, acc);
      if a.Ok? {
        ChildrenWithin(n, i + 1, prefix, path, nulls, curRoot, a.value);
      }
    }
  }

  lemma {:induction false} ChildWithin(c: Child, prefix: string, path: seq<string>, nulls: bool,
                                       curRoot: Traversable, acc: Flat)
    requires path != []
    ensures var r := FlatChild(c, prefix, path, nulls, curRoot, acc);
      r.Ok? ==> Within(acc, r.value, prefix)
    decreases if nulls then 1 else 3, c, 0, 0
  {
    match c.slot {
      case LeafSlot(v) =>
        assert (prefix + c.key)[..|prefix|] == prefix;
      case InnerSlot(_, node) =>
        InnerNodeWithin(c.key, node, prefix, path, nulls, curRoot, acc);
      case ListSlot(l) =>
        ListNodeWithin(c.key, l, prefix, path, nulls, curRoot, acc);
    }
  }

  lemma {:induction false} InnerNodeWithin(key: string, node: Option<InnerNode>, prefix: string, path: seq<string>,
                                           nulls: bool, curRoot: Traversable, acc: Flat)
    requires nulls ==> path != []
    ensures var r := FlatInnerNode(key, node, prefix, path, nulls, curRoot, acc);
      r.Ok? ==> Within(acc, r.value, prefix + key + ".")
    decreases if nulls then 1 else 3, node, 0, 0
  {
    if node.Some? {
      ChildrenWithin(node.value, 0, prefix + key + ".", Extend(path, key, nulls), nulls, curRoot, acc);
    }
    var r := FlatInnerNode(key, node, prefix, path, nulls, curRoot, acc);
    if r.Ok? {
      assert prefix + key + "." == prefix + (key + ".");
      WithinWeaken(acc, r.value, prefix, key + ".");
    }
  }

  lemma {:induction false} ListNodeWithin(key: string, l: NamedListNode, prefix: string, path: seq<string>,
                                          nulls: bool, curRoot: Traversable, acc: Flat)
    requires nulls ==> path != []
    ensures var r := FlatListNode(key, l, prefix, path, nulls, curRoot, acc);
      r.Ok? ==> Within(acc, r.value, prefix + key + ".")
    decreases if nulls then 1 else 3, l, 2, 0
  {
    ElementsWithin(l, 0, prefix + key + ".", Extend(path, key, nulls), nulls, curRoot, acc);
    var r := FlatListNode(key, l, prefix, path, nulls, curRoot, acc);
    if r.Ok? {
      assert prefix + key + "." == prefix + (key + ".");
      WithinWeaken(acc, r.value, prefix, key + ".");
    }
  }

  lemma {:induction false} ElementsWithin(l: NamedListNode, j: nat, prefix: string, path: seq<string>, nulls: bool,
                                          curRoot: Traversable, acc: Flat)
    requires j <= |l.elements| && path != []
    ensures var r := FlatElements(l, j, prefix, path, nulls, curRoot, acc);
      r.Ok? ==> Within(acc, r.value, prefix)
    decreases if nulls then 1 else 3, l, 1, |l.elements| - j
  {
    if j < |l.elements| {
      ElementWithin(l.elements[j], prefix, path, nulls, curRoot, acc);
      var a := FlatElement(l.elements[j], prefix, path, nulls, curRoot, acc);
      if a.Ok? {
        ElementsWithin(l, j + 1, prefix, path, nulls, curRoot, a.value);
      }
    }
  }

  lemma {:induction false} ElementWithin(e: Element, prefix: string, path: seq<string>, nulls: bool,
                                         curRoot: Traversable, acc: Flat)
    requires path != []
    ensures var r := FlatElement(e, prefix, path, nulls, curRoot, acc);
      r.Ok? ==> Within(acc, r.value, prefix)
    decreases if nulls then 1 else 3, e, 0, 0
  {
    var p := prefix + PathCodec.Escape(e.key) + ".";
    match e.node {
      case None =>
        DeletedWithin(p, Extend(path, e.key, nulls), nulls, curRoot, acc);
      case Some(n) =>
        ChildrenWithin(n, 0, p, Extend(path, e.key, nulls), nulls, curRoot, acc);
    }
    var r := FlatElement(e, prefix, path, nulls, curRoot, acc);
    if r.Ok? {
      assert p == prefix + (PathCodec.Escape(e.key) + ".");
      WithinWeaken(acc, r.value, prefix, PathCodec.Escape(e.key) + ".");
    }
  }

  lemma {:induction false} DeletedWithin(prefix: string, path: seq<string>, nulls: bool, curRoot: Traversable, acc: Flat)
    requires path != []
    ensures var r := FlatDeleted(prefix, path, nulls, curRoot, acc);
      r.Ok? ==> Within(acc, r.value, prefix)
    decreases if nulls then 0 else 2
  {
    if !nulls {
      match FindSpec(path[1..], curRoot) {
        case Ok(FoundInner(Some(n))) =>
          ChildrenWithin(n, 0, prefix, path, true, curRoot, acc);
        case _ =>
      }
    }
  }

  /** Every key of the flat map starts with the root key and a dot. */
  lemma FlatTreeKeys(rootKey: string, curRoot: Traversable, updates: Traversable)
    ensures var r := FlatTree(rootKey, curRoot, updates);
      r.Ok? ==> forall k :: k in r.value ==> rootKey + "." <= k
  {
    assert "" + rootKey + "." == rootKey + ".";
    match updates {
      case TInner(n) =>
        InnerNodeWithin(rootKey, Some(n), "", [], false, curRoot, map[]);
      case TList(l) =>
        ListNodeWithin(rootKey, l, "", [], false, curRoot, map[]);
    }
  }

  // ---------------------------------------------------------------------
  // Without deletions: no failure and no null

  /** No named list of the tree, at any depth, holds a deleted element. */
  predicate NoDeletions(n: InnerNode)
    decreases n, 1
  {
    forall i :: 0 <= i < |n.children| ==> NoDeletionsSlot(n.children[i].slot)
  }

  predicate NoDeletionsSlot(s: Slot)
    decreases s, 0
  {
    match s
    case LeafSlot(_) => true
    case InnerSlot(_, node) => node.Some? ==> NoDeletions(node.value)
    case ListSlot(l) => NoDeletionsList(l)
  }

  predicate NoDeletionsList(l: NamedListNode)
    decreases l, 0
  {
    forall j :: 0 <= j < |l.elements| ==> l.elements[j].node.Some? && NoDeletions(l.elements[j].node.value)
  }

  predicate NoNulls(m: Flat) {
    forall k :: k in m ==> m[k].Some?
  }

  lemma {:induction false} ChildrenNoNulls(n: InnerNode, i: nat, prefix: string, path: seq<string>,
                                           curRoot: Traversable, acc: Flat)
    requires i <= |n.children| && path != []
    requires NoDeletions(n) && NoNulls(acc)
    ensures var r := FlatChildren(n, i, prefix, path, false, curRoot, acc);
      r.Ok? && NoNulls(r.value)
    decreases n, 1, |n.children| - i
  {
    if i < |n.children| {
      ChildNoNulls(n.children[i], prefix, path, curRoot, acc);
      var a := FlatChild(n.children[i], prefix, path, false, curRoot, acc);
      ChildrenNoNulls(n, i + 1, prefix, path, curRoot, a.value);
    }
  }

  lemma {:induction false} ChildNoNulls(c: Child, prefix: string, path: seq<string>, curRoot: Traversable, acc: Flat)
    requires path != []
    requires NoDeletionsSlot(c.slot) && NoNulls(acc)
    ensures var r := FlatChild(c, prefix, path, false, curRoot, acc);
      r.Ok? && NoNulls(r.value)
    decreases c, 0, 0
  {
    match c.slot {
      case LeafSlot(v) =>
      case InnerSlot(_, node) =>
        if node.Some? {
          ChildrenNoNulls(node.value, 0, prefix + c.key + ".", path + [c.key], curRoot, acc);
        }
      case ListSlot(l) =>
        ElementsNoNulls(l, 0, prefix + c.key + ".", path + [c.key], curRoot, acc);
    }
  }

  lemma {:induction false} ElementsNoNulls(l: NamedListNode, j: nat, prefix: string, path: seq<string>,
                                           curRoot: Traversable, acc: Flat)
    requires j <= |l.elements| && path != []
    requires NoDeletionsList(l) && NoNulls(acc)
    ensures var r := FlatElements(l, j, prefix, path, false, curRoot, acc);
      r.Ok? && NoNulls(r.value)
    decreases l, 1, |l.elements| - j
  {
    if j < |l.elements| {
      var e := l.elements[j];
      ChildrenNoNulls(e.node.value, 0, prefix + PathCodec.Escape(e.key) + ".", path + [e.key], curRoot, acc);
      var a := FlatElement(e, prefix, path, false, curRoot, acc);
      ElementsNoNulls(l, j + 1, prefix, path, curRoot, a.value);
    }
  }

  /** An updates tree without deletions always flattens, and only to non-null values. */
  lemma FlatTreeNoDeletions(rootKey: string, curRoot: Traversable, updates: Traversable)
    requires updates.TInner? ==> NoDeletions(updates.inner)
    requires updates.TList? ==> NoDeletionsList(updates.list)
    ensures FlatTree(rootKey, curRoot, updates).Ok?
    ensures NoNulls(FlatTree(rootKey, curRoot, updates).value)
  {
    match updates {
      case TInner(n) =>
        ChildrenNoNulls(n, 0, "" + rootKey + ".", [] + [rootKey], curRoot, map[]);
      case TList(l) =>
        ElementsNoNulls(l, 0, "" + rootKey + ".", [] + [rootKey], curRoot, map[]);
    }
  }

  // ---------------------------------------------------------------------
  // Every entry is a leaf of the updates or a tombstone of the cached tree

  /** A key segment that `escape` leaves as it is: no `.` and no `\`. */
  predicate Plain(s: string) {
    forall i :: 0 <= i < |s| ==> s[i] != '.' && s[i] != '\\'
  }

  /**
   * Field names of schema classes are Java identifiers: distinct and plain.
   * Element names need not be plain, but are distinct within their list.
   */
  predicate PlainNames(n: InnerNode)
    decreases n, 1
  {
    DistinctFields(n) &&
    forall i :: 0 <= i < |n.children| ==> Plain(n.children[i].key) && PlainNamesSlot(n.children[i].slot)
  }

  predicate PlainNamesSlot(s: Slot)
    decreases s, 0
  {
    match s
    case LeafSlot(_) => true
    case InnerSlot(_, node) => node.Some? ==> PlainNames(node.value)
    case ListSlot(l) => PlainNamesList(l)
  }

  predicate PlainNamesList(l: NamedListNode)
    decreases l, 0
  {
    DistinctKeys(l) &&
    forall j :: 0 <= j < |l.elements| ==> l.elements[j].node.Some? ==> PlainNames(l.elements[j].node.value)
  }

  predicate PlainFound(f: Found) {
    match f
    case FoundValue(_) => true
    case FoundInner(node) => node.Some? ==> PlainNames(node.value)
    case FoundList(l) => PlainNamesList(l)
  }

  lemma StepPlain(f: Found, key: string)
    requires PlainFound(f) && Step(f, key).Some?
    ensures PlainFound(Step(f, key).value)
  {
    match f {
      case FoundInner(Some(n)) =>
        var j := FieldIndex(n, key).value;
        assert PlainNamesSlot(n.children[j].slot);
      case FoundList(l) =>
        var v := Get(l, key);
        if v.Some? {
          var j :| 0 <= j < |l.elements| && l.elements[j] == Element(key, v);
          assert PlainNames(l.elements[j].node.value);
        }
    }
  }

  /** The walk goes one `Step` at a time. */
  lemma WalkStep(keys: seq<string>, i: nat, at: Found)
    requires i < |keys|
    ensures Step(at, keys[i]).None? ==> Walk(keys, i, at).Err?
    ensures Step(at, keys[i]).Some? ==> Walk(keys, i, at) == Walk(keys, i + 1, Step(at, keys[i]).value)
  {
  }

  lemma {:induction false} WalkPlain(keys: seq<string>, i: nat, at: Found)
    requires i <= |keys| && PlainFound(at)
    requires Walk(keys, i, at).Ok?
    ensures PlainFound(Walk(keys, i, at).value)
    decreases |keys| - i
  {
    if i < |keys| {
      WalkStep(keys, i, at);
      StepPlain(at, keys[i]);
      WalkPlain(keys, i + 1, Step(at, keys[i]).value);
    }
  }

  /** What `find` returns from a tree with plain names has plain names. */
  lemma FindPlain(keys: seq<string>, node: Traversable)
    requires PlainFound(Start(node)) && FindSpec(keys, node).Ok?
    ensures PlainFound(FindSpec(keys, node).value)
  {
    WalkPlain(keys, 0, Start(node));
  }

  /** The arguments of one `nodeToFlatMap` call. */
  datatype Run = Run(rootKey: string, curRoot: Traversable, updates: Traversable)

  /** The tree the traversal walks: the updates, or the cached tree while writing tombstones. */
  function Walked(run: Run, nulls: bool): Traversable {
    if nulls then run.curRoot else run.updates
  }

  /** `find` reaches a non-null leaf. */
  predicate NonNullLeafAt(keys: seq<string>, node: Traversable) {
    var f := FindSpec(keys, node);
    f.Ok? && f.value.FoundValue? && f.value.value.Some?
  }

  /**
   * The traversal's state when it is at `f`, reached along `route` (the root
   * key, then the keys below it): the key prefix is `route` joined, plus a
   * dot; outside tombstone mode the path is the route itself.
   */
  ghost predicate At(run: Run, route: seq<string>, prefix: string, path: seq<string>, nulls: bool, f: Found) {
    route != [] && route[0] == run.rootKey && prefix == PathCodec.Join(route) + "." &&
    path != [] && (!nulls ==> path == route) &&
    FindSpec(route[1..], Walked(run, nulls)) == Ok(f) && PlainFound(f)
  }

  lemma AtStep(run: Run, route: seq<string>, prefix: string, path: seq<string>, nulls: bool, f: Found, key: string)
    requires At(run, route, prefix, path, nulls, f) && Step(f, key).Some?
    ensures At(run, route + [key], prefix + PathCodec.Escape(key) + ".", Extend(path, key, nulls), nulls, Step(f, key).value)
  {
    PathCodec.JoinSnoc(route, key);
    assert (route + [key])[1..] == route[1..] + [key];
    FindSnoc(route[1..], key, Walked(run, nulls), f);
    StepPlain(f, key);
  }

  // ---------------------------------------------------------------------
  // Deleted elements and walks that stop

  /** `p` names an element that a named list of `node` holds as deleted. */
  ghost predicate Deleted(node: Traversable, p: seq<string>) {
    p != [] &&
    var f := FindSpec(p[..|p| - 1], node);
    f.Ok? && f.value.FoundList? && p[|p| - 1] in Keys(f.value.list) && Get(f.value.list, p[|p| - 1]).None?
  }

  /** Something `find` can go on from. */
  predicate Live(f: Found) {
    (f.FoundInner? && f.node.Some?) || f.FoundList?
  }

  lemma DeletedFound(node: Traversable, p: seq<string>)
    ensures Deleted(node, p) ==> FindSpec(p, node) == Ok(FoundInner(None))
  {
    if Deleted(node, p) {
      var q := p[..|p| - 1];
      assert p == q + [p[|p| - 1]];
      FindSnoc(q, p[|p| - 1], node, FindSpec(q, node).value);
    }
  }

  /** A walk that goes past `x` went through something live at `x`. */
  lemma LiveAbove(x: seq<string>, q: seq<string>, node: Traversable)
    ensures q != [] && FindSpec(x + q, node).Ok? ==> FindSpec(x, node).Ok? && Live(FindSpec(x, node).value)
  {
    FindConcat(x, q, node);
    if q != [] && FindSpec(x, node).Ok? {
      WalkStep(q, 0, FindSpec(x, node).value);
    }
  }

  /** A walk that goes past `x` takes its first step from what `x` holds. */
  lemma Descend(x: seq<string>, q: seq<string>, node: Traversable, f: Found)
    requires FindSpec(x, node) == Ok(f) && q != [] && FindSpec(x + q, node).Ok?
    ensures Step(f, q[0]).Some?
    ensures FindSpec(x + [q[0]], node) == Ok(Step(f, q[0]).value)
  {
    FindConcat(x, q, node);
    WalkStep(q, 0, f);
    FindSnoc(x, q[0], node, f);
  }

}
