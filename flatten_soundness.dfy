/**
 * Every entry of the flat map of `nodeToFlatMap` is accounted for: for trees
 * whose field names and root key need no escaping, its key splits into the
 * root key and a path that `find` resolves, to the entry's value in the
 * updates or, for a `null` tombstone, to a non-null leaf of the cached tree
 * below an element that the updates delete.
 */
module FlattenSoundness {
  import opened Wrappers
  import opened ConfigTree
  import opened Lookup
  import PathCodec
  import opened Flatten
  import opened FlattenProperties

  /**
   * An entry of the flat map, read back: its key split into the root key and
   * a path; a value is the leaf `find` reaches along the path in the updates,
   * a `null` stands for a non-null leaf of the cached tree there, below an
   * element that the updates delete.
   */
  ghost predicate Sound(run: Run, k: string, v: Option<Value>) {
    var s := PathCodec.Segments(k);
    s[0] == run.rootKey &&
    (v.Some? ==> FindSpec(s[1..], run.updates) == Ok(FoundValue(v))) &&
    (v.None? ==> NonNullLeafAt(s[1..], run.curRoot) && exists i :: 1 < i <= |s| && Deleted(run.updates, s[1..i]))
  }

  /** In tombstone mode, the first `mark` keys of the route name the deleted element. */
  ghost predicate Marked(run: Run, route: seq<string>, nulls: bool, mark: nat) {
    nulls ==> 1 < mark <= |route| && Deleted(run.updates, route[1..mark])
  }

  lemma MarkedStep(run: Run, route: seq<string>, nulls: bool, mark: nat, key: string)
    requires Marked(run, route, nulls, mark)
    ensures Marked(run, route + [key], nulls, mark)
  {
    if nulls {
      assert (route + [key])[1..mark] == route[1..mark];
    }
  }

  ghost predicate AllSound(run: Run, m: Flat) {
    forall k :: k in m ==> Sound(run, k, m[k])
  }

  /** A non-null leaf reached along `route` and `key` reads back from the flat key it is written under. */
  lemma LeafSound(run: Run, route: seq<string>, key: string, v: Value, prefix: string, nulls: bool, mark: nat)
    requires route != [] && route[0] == run.rootKey && prefix == PathCodec.Join(route) + "."
    requires PathCodec.Escape(key) == key
    requires FindSpec((route + [key])[1..], Walked(run, nulls)) == Ok(FoundValue(Some(v)))
    requires Marked(run, route + [key], nulls, mark)
    ensures Sound(run, prefix + key, if nulls then None else Some(v))
  {
    PathCodec.JoinSnoc(route, key);
    PathCodec.SplitJoin(route + [key]);
    var s := PathCodec.Segments(prefix + key);
    assert s == route + [key];
    assert nulls ==> 1 < mark <= |s| && Deleted(run.updates, s[1..mark]);
  }

  lemma SoundPut(run: Run, acc: Flat, k: string, v: Option<Value>)
    requires AllSound(run, acc) && Sound(run, k, v)
    ensures AllSound(run, acc[k := v])
  {
  }

  lemma {:induction false} ChildrenSound(run: Run, route: seq<string>, n: InnerNode, i: nat, prefix: string,
                                         path: seq<string>, nulls: bool, acc: Flat, mark: nat)
    requires i <= |n.children|
    requires At(run, route, prefix, path, nulls, FoundInner(Some(n)))
    requires PlainFound(Start(run.curRoot)) && AllSound(run, acc) && Marked(run, route, nulls, mark)
    ensures var r := FlatChildren(n, i, prefix, path, nulls, run.curRoot, acc);
      r.Ok? ==> AllSound(run, r.value)
    decreases if nulls then 1 else 3, n, 1, |n.children| - i
  {
    if i < |n.children| {
      ChildSound(run, route, n, i, prefix, path, nulls, acc, mark);
      var a := FlatChild(n.children[i], prefix, path, nulls, run.curRoot, acc);
      if a.Ok? {
        ChildrenSound(run, route, n, i + 1, prefix, path, nulls, a.value, mark);
      }
    }
  }

  lemma {:induction false} ChildSound(run: Run, route: seq<string>, n: InnerNode, i: nat, prefix: string,
                                      path: seq<string>, nulls: bool, acc: Flat, mark: nat)
    requires i < |n.children|
    requires At(run, route, prefix, path, nulls, FoundInner(Some(n)))
    requires PlainFound(Start(run.curRoot)) && AllSound(run, acc) && Marked(run, route, nulls, mark)
    ensures var r := FlatChild(n.children[i], prefix, path, nulls, run.curRoot, acc);
      r.Ok? ==> AllSound(run, r.value)
    decreases if nulls then 1 else 3, n.children[i], 0, 0
  {
    var c := n.children[i];
    assert FieldIndex(n, c.key) == Some(i);
    assert Step(FoundInner(Some(n)), c.key) == Some(AtSlot(c.slot));
    PathCodec.EscapePlain(c.key);
    AtStep(run, route, prefix, path, nulls, FoundInner(Some(n)), c.key);
    MarkedStep(run, route, nulls, mark, c.key);
    match c.slot {
      case LeafSlot(v) =>
        if v.Some? {
          LeafSound(run, route, c.key, v.value, prefix, nulls, mark);
          SoundPut(run, acc, prefix + c.key, if nulls then None else v);
        }
      case InnerSlot(_, node) =>
        InnerNodeSound(run, route + [c.key], c.key, node, prefix, path, nulls, acc, mark);
      case ListSlot(l) =>
        ListNodeSound(run, route + [c.key], c.key, l, prefix, path, nulls, acc, mark);
    }
  }

  lemma {:induction false} InnerNodeSound(run: Run, route: seq<string>, key: string, node: Option<InnerNode>,
                                          prefix: string, path: seq<string>, nulls: bool, acc: Flat, mark: nat)
    requires nulls ==> path != []
    requires At(run, route, prefix + key + ".", Extend(path, key, nulls), nulls, FoundInner(node))
    requires PlainFound(Start(run.curRoot)) && AllSound(run, acc) && Marked(run, route, nulls, mark)
    ensures var r := FlatInnerNode(key, node, prefix, path, nulls, run.curRoot, acc);
      r.Ok? ==> AllSound(run, r.value)
    decreases if nulls then 1 else 3, node, 0, 0
  {
    if node.Some? {
      ChildrenSound(run, route, node.value, 0, prefix + key + ".", Extend(path, key, nulls), nulls, acc, mark);
    }
  }

  lemma {:induction false} ListNodeSound(run: Run, route: seq<string>, key: string, l: NamedListNode,
                                         prefix: string, path: seq<string>, nulls: bool, acc: Flat, mark: nat)
    requires nulls ==> path != []
    requires At(run, route, prefix + key + ".", Extend(path, key, nulls), nulls, FoundList(l))
    requires PlainFound(Start(run.curRoot)) && AllSound(run, acc) && Marked(run, route, nulls, mark)
    ensures var r := FlatListNode(key, l, prefix, path, nulls, run.curRoot, acc);
      r.Ok? ==> AllSound(run, r.value)
    decreases if nulls then 1 else 3, l, 2, 0
  {
    ElementsSound(run, route, l, 0, prefix + key + ".", Extend(path, key, nulls), nulls, acc, mark);
  }

  lemma {:induction false} ElementsSound(run: Run, route: seq<string>, l: NamedListNode, j: nat, prefix: string,
                                         path: seq<string>, nulls: bool, acc: Flat, mark: nat)
    requires j <= |l.elements|
    requires At(run, route, prefix, path, nulls, FoundList(l))
    requires PlainFound(Start(run.curRoot)) && AllSound(run, acc) && Marked(run, route, nulls, mark)
    ensures var r := FlatElements(l, j, prefix, path, nulls, run.curRoot, acc);
      r.Ok? ==> AllSound(run, r.value)
    decreases if nulls then 1 else 3, l, 1, |l.elements| - j
  {
    if j < |l.elements| {
      ElementSound(run, route, l, j, prefix, path, nulls, acc, mark);
      var a := FlatElement(l.elements[j], prefix, path, nulls, run.curRoot, acc);
      if a.Ok? {
        ElementsSound(run, route, l, j + 1, prefix, path, nulls, a.value, mark);
      }
    }
  }

  lemma {:induction false} ElementSound(run: Run, route: seq<string>, l: NamedListNode, j: nat, prefix: string,
                                        path: seq<string>, nulls: bool, acc: Flat, mark: nat)
    requires j < |l.elements|
    requires At(run, route, prefix, path, nulls, FoundList(l))
    requires PlainFound(Start(run.curRoot)) && AllSound(run, acc) && Marked(run, route, nulls, mark)
    ensures var r := FlatElement(l.elements[j], prefix, path, nulls, run.curRoot, acc);
      r.Ok? ==> AllSound(run, r.value)
    decreases if nulls then 1 else 3, l.elements[j], 0, 0
  {
    var e := l.elements[j];
    GetDistinct(l, j);
    var p := prefix + PathCodec.Escape(e.key) + ".";
    AtStep(run, route, prefix, path, nulls, FoundList(l), e.key);
    MarkedStep(run, route, nulls, mark, e.key);
    match e.node {
      case None =>
        if !nulls {
          var below := route + [e.key];
          assert below[1..][..|below[1..]| - 1] == route[1..];
          assert Keys(l)[j] == e.key;
          assert Deleted(run.updates, below[1..]);
          DeletedSound(run, below, p, path + [e.key], acc);
        }
      case Some(m) =>
        ChildrenSound(run, route + [e.key], m, 0, p, Extend(path, e.key, nulls), nulls, acc, mark);
    }
  }

  lemma {:induction false} DeletedSound(run: Run, route: seq<string>, prefix: string, path: seq<string>, acc: Flat)
    requires At(run, route, prefix, path, false, FoundInner(None))
    requires PlainFound(Start(run.curRoot)) && AllSound(run, acc)
    requires |route| > 1 && Deleted(run.updates, route[1..])
    ensures var r := FlatDeleted(prefix, path, false, run.curRoot, acc);
      r.Ok? ==> AllSound(run, r.value)
    decreases 2
  {
    match FindSpec(path[1..], run.curRoot) {
      case Ok(FoundInner(Some(n))) =>
        FindPlain(path[1..], run.curRoot);
        assert route[1..|route|] == route[1..];
        ChildrenSound(run, route, n, 0, prefix, path, true, acc, |route|);
      case _ =>
    }
  }

  /**
   * For a root key and field names that need no escaping, every entry of the
   * flat map splits into the root key and a path to a leaf: a value is the
   * updates' non-null leaf there, a `null` a tombstone for the cached tree's
   * non-null leaf there, below an element that the updates delete.
   */
  lemma FlatTreeSound(rootKey: string, curRoot: Traversable, updates: Traversable)
    requires Plain(rootKey) && PlainFound(Start(curRoot)) && PlainFound(Start(updates))
    ensures var r := FlatTree(rootKey, curRoot, updates);
      r.Ok? ==> forall k :: k in r.value ==> Sound(Run(rootKey, curRoot, updates), k, r.value[k])
  {
    var run := Run(rootKey, curRoot, updates);
    PathCodec.EscapePlain(rootKey);
    assert PathCodec.Join([rootKey]) == rootKey;
    assert [rootKey][1..] == [];
    FindEmpty(updates);
    assert Extend([], rootKey, false) == [rootKey];
    assert At(run, [rootKey], "" + rootKey + ".", Extend([], rootKey, false), false, Start(updates));
    match updates {
      case TInner(n) =>
        InnerNodeSound(run, [rootKey], rootKey, Some(n), "", [], false, map[], 0);
      case TList(l) =>
        ListNodeSound(run, [rootKey], rootKey, l, "", [], false, map[], 0);
    }
  }
}
