/**
 * The other half of what the flat map of `nodeToFlatMap` holds: every
 * non-null leaf of the updates is in it with its value, and every non-null
 * leaf of the cached element that the updates delete is in it as `null`.
 * One sub-traversal writes only keys whose `split` extends its own path, so
 * siblings never overwrite each other's entries.
 */
module FlattenCompleteness {
  import opened Wrappers
  import opened ConfigTree
  import opened Lookup
  import PathCodec
  import opened Flatten
  import opened FlattenProperties

  // ---------------------------------------------------------------------
  // Coverage and confinement

  /**
   * The flat map `r` holds everything under `route` (the root key, then the
   * keys below it): each non-null leaf of the walked tree with its value (as
   * `null` in tombstone mode), and outside tombstone mode each non-null leaf
   * of the cached tree below an element the updates delete, as `null`.
   */
  ghost predicate Covers(run: Run, route: seq<string>, nulls: bool, r: Flat) {
    route != [] &&
    (forall q :: NonNullLeafAt(route[1..] + q, Walked(run, nulls)) ==>
       PathCodec.Join(route + q) in r &&
       r[PathCodec.Join(route + q)] == (if nulls then None else FindSpec(route[1..] + q, Walked(run, nulls)).value.value)) &&
    (!nulls ==>
       forall p, q :: Deleted(run.updates, route[1..] + p) && NonNullLeafAt(route[1..] + p + q, run.curRoot) ==>
         PathCodec.Join(route + p + q) in r && r[PathCodec.Join(route + p + q)] == None)
  }

  /** `r` differs from `acc` only at keys whose segments extend `route`. */
  ghost predicate Confined(acc: Flat, r: Flat, route: seq<string>) {
    acc.Keys <= r.Keys &&
    forall k :: k in r ==> (k in acc && r[k] == acc[k]) || route <= PathCodec.Segments(k)
  }

  /** `s` extends `route` by a field of `n` from the `i`-th on. */
  predicate BelowField(route: seq<string>, n: InnerNode, i: nat, s: seq<string>) {
    |route| < |s| && route <= s && FieldIndex(n, s[|route|]).Some? && FieldIndex(n, s[|route|]).value >= i
  }

  ghost predicate ConfinedFields(acc: Flat, r: Flat, route: seq<string>, n: InnerNode, i: nat) {
    acc.Keys <= r.Keys &&
    forall k :: k in r ==> (k in acc && r[k] == acc[k]) || BelowField(route, n, i, PathCodec.Segments(k))
  }

  /** `s` extends `route` by a name of `l` from the `j`-th on. */
  predicate BelowElement(route: seq<string>, l: NamedListNode, j: nat, s: seq<string>) {
    |route| < |s| && route <= s && ElementIndex(l, s[|route|]).Some? && ElementIndex(l, s[|route|]).value >= j
  }

  ghost predicate ConfinedElements(acc: Flat, r: Flat, route: seq<string>, l: NamedListNode, j: nat) {
    acc.Keys <= r.Keys &&
    forall k :: k in r ==> (k in acc && r[k] == acc[k]) || BelowElement(route, l, j, PathCodec.Segments(k))
  }

  /** No key whose segments extend `route` changes from `a` to `r`. */
  ghost predicate Untouched(a: Flat, r: Flat, route: seq<string>) {
    a.Keys <= r.Keys &&
    forall k :: k in r && route <= PathCodec.Segments(k) ==> k in a && r[k] == a[k]
  }

  lemma CoversKept(run: Run, route: seq<string>, nulls: bool, a: Flat, r: Flat)
    requires Covers(run, route, nulls, a) && Untouched(a, r, route)
    ensures Covers(run, route, nulls, r)
  {
    forall q | NonNullLeafAt(route[1..] + q, Walked(run, nulls))
      ensures PathCodec.Join(route + q) in r && r[PathCodec.Join(route + q)] == a[PathCodec.Join(route + q)]
    {
      PathCodec.SplitJoin(route + q);
      assert route <= route + q;
    }
    if !nulls {
      forall p, q | Deleted(run.updates, route[1..] + p) && NonNullLeafAt(route[1..] + p + q, run.curRoot)
        ensures PathCodec.Join(route + p + q) in r && r[PathCodec.Join(route + p + q)] == a[PathCodec.Join(route + p + q)]
      {
        PathCodec.SplitJoin(route + p + q);
        assert route <= route + p + q;
      }
    }
  }

  lemma UntouchedField(a: Flat, r: Flat, route: seq<string>, n: InnerNode, i: nat)
    requires i < |n.children| && DistinctFields(n)
    requires ConfinedFields(a, r, route, n, i + 1)
    ensures Untouched(a, r, route + [n.children[i].key])
  {
    assert FieldIndex(n, n.children[i].key) == Some(i);
    forall k | k in r && route + [n.children[i].key] <= PathCodec.Segments(k)
      ensures k in a && r[k] == a[k]
    {
      assert PathCodec.Segments(k)[|route|] == n.children[i].key;
    }
  }

  lemma UntouchedElement(a: Flat, r: Flat, route: seq<string>, l: NamedListNode, j: nat)
    requires j < |l.elements| && DistinctKeys(l)
    requires ConfinedElements(a, r, route, l, j + 1)
    ensures Untouched(a, r, route + [l.elements[j].key])
  {
    ElementIndexFirst(l.elements, l.elements[j].key, 0, j);
    forall k | k in r && route + [l.elements[j].key] <= PathCodec.Segments(k)
      ensures k in a && r[k] == a[k]
    {
      assert PathCodec.Segments(k)[|route|] == l.elements[j].key;
    }
  }

  lemma ConfinedFieldStep(acc: Flat, a: Flat, r: Flat, route: seq<string>, n: InnerNode, i: nat)
    requires i < |n.children| && DistinctFields(n)
    requires Confined(acc, a, route + [n.children[i].key]) && ConfinedFields(a, r, route, n, i + 1)
    ensures ConfinedFields(acc, r, route, n, i)
  {
    assert FieldIndex(n, n.children[i].key) == Some(i);
    forall k | k in r && !(k in acc && r[k] == acc[k])
      ensures BelowField(route, n, i, PathCodec.Segments(k))
    {
      if k in a && r[k] == a[k] {
        assert PathCodec.Segments(k)[|route|] == n.children[i].key;
      }
    }
  }

  lemma ConfinedElementStep(acc: Flat, a: Flat, r: Flat, route: seq<string>, l: NamedListNode, j: nat)
    requires j < |l.elements| && DistinctKeys(l)
    requires Confined(acc, a, route + [l.elements[j].key]) && ConfinedElements(a, r, route, l, j + 1)
    ensures ConfinedElements(acc, r, route, l, j)
  {
    ElementIndexFirst(l.elements, l.elements[j].key, 0, j);
    forall k | k in r && !(k in acc && r[k] == acc[k])
      ensures BelowElement(route, l, j, PathCodec.Segments(k))
    {
      if k in a && r[k] == a[k] {
        assert PathCodec.Segments(k)[|route|] == l.elements[j].key;
      }
    }
  }

  /** A path below `route` read as a path below its first step. */
  lemma Shift(route: seq<string>, q: seq<string>)
    requires route != [] && q != []
    ensures (route + [q[0]])[1..] + q[1..] == route[1..] + q
    ensures (route + [q[0]]) + q[1..] == route + q
  {
    assert (route + [q[0]])[1..] == route[1..] + [q[0]];
    assert [q[0]] + q[1..] == q;
  }

  /** What a child's cover says about a leaf below the child. */
  lemma CoversLeaf(run: Run, route: seq<string>, nulls: bool, r: Flat, q: seq<string>)
    requires route != [] && q != [] && Covers(run, route + [q[0]], nulls, r)
    requires NonNullLeafAt(route[1..] + q, Walked(run, nulls))
    ensures PathCodec.Join(route + q) in r &&
            r[PathCodec.Join(route + q)] == (if nulls then None else FindSpec(route[1..] + q, Walked(run, nulls)).value.value)
  {
    Shift(route, q);
    var route' := route + [q[0]];
    assert NonNullLeafAt(route'[1..] + q[1..], Walked(run, nulls));
  }

  /** What a child's cover says about a tombstone below the child. */
  lemma CoversTombstone(run: Run, route: seq<string>, r: Flat, p: seq<string>, q: seq<string>)
    requires route != [] && p != [] && Covers(run, route + [p[0]], false, r)
    requires Deleted(run.updates, route[1..] + p) && NonNullLeafAt(route[1..] + p + q, run.curRoot)
    ensures PathCodec.Join(route + p + q) in r && r[PathCodec.Join(route + p + q)] == None
  {
    Shift(route, p);
    var route' := route + [p[0]];
    assert route'[1..] + p[1..] + q == route[1..] + p + q;
    assert route' + p[1..] + q == route + p + q;
    assert Deleted(run.updates, route'[1..] + p[1..]);
    assert NonNullLeafAt(route'[1..] + p[1..] + q, run.curRoot);
  }

  /** A node covers what all its fields cover. */
  lemma NodeCovers(run: Run, route: seq<string>, n: InnerNode, nulls: bool, r: Flat)
    requires route != [] && FindSpec(route[1..], Walked(run, nulls)) == Ok(FoundInner(Some(n)))
    requires forall j :: 0 <= j < |n.children| ==> Covers(run, route + [n.children[j].key], nulls, r)
    ensures Covers(run, route, nulls, r)
  {
    var t := Walked(run, nulls);
    var x := route[1..];
    forall q | NonNullLeafAt(x + q, t)
      ensures PathCodec.Join(route + q) in r &&
              r[PathCodec.Join(route + q)] == (if nulls then None else FindSpec(x + q, t).value.value)
    {
      NodeLeafCovered(run, route, n, nulls, r, q);
    }
    if !nulls {
      forall p, q | Deleted(run.updates, x + p) && NonNullLeafAt(x + p + q, run.curRoot)
        ensures PathCodec.Join(route + p + q) in r && r[PathCodec.Join(route + p + q)] == None
      {
        NodeTombstoneCovered(run, route, n, r, p, q);
      }
    }
  }

  /** A leaf below an inner node is below one of its fields. */
  lemma NodeLeafCovered(run: Run, route: seq<string>, n: InnerNode, nulls: bool, r: Flat, q: seq<string>)
    requires route != [] && FindSpec(route[1..], Walked(run, nulls)) == Ok(FoundInner(Some(n)))
    requires forall j :: 0 <= j < |n.children| ==> Covers(run, route + [n.children[j].key], nulls, r)
    requires NonNullLeafAt(route[1..] + q, Walked(run, nulls))
    ensures PathCodec.Join(route + q) in r &&
            r[PathCodec.Join(route + q)] == (if nulls then None else FindSpec(route[1..] + q, Walked(run, nulls)).value.value)
  {
    var x := route[1..];
    assert q == [] ==> x + q == x;
    Descend(x, q, Walked(run, nulls), FoundInner(Some(n)));
    var j := FieldIndex(n, q[0]).value;
    assert Covers(run, route + [n.children[j].key], nulls, r);
    CoversLeaf(run, route, nulls, r, q);
  }

  /** A deleted element below an inner node is below one of its fields. */
  lemma NodeTombstoneCovered(run: Run, route: seq<string>, n: InnerNode, r: Flat, p: seq<string>, q: seq<string>)
    requires route != [] && FindSpec(route[1..], run.updates) == Ok(FoundInner(Some(n)))
    requires forall j :: 0 <= j < |n.children| ==> Covers(run, route + [n.children[j].key], false, r)
    requires Deleted(run.updates, route[1..] + p) && NonNullLeafAt(route[1..] + p + q, run.curRoot)
    ensures PathCodec.Join(route + p + q) in r && r[PathCodec.Join(route + p + q)] == None
  {
    var x := route[1..];
    DeletedFound(run.updates, x + p);
    assert p == [] ==> x + p == x;
    Descend(x, p, run.updates, FoundInner(Some(n)));
    var j := FieldIndex(n, p[0]).value;
    assert Covers(run, route + [n.children[j].key], false, r);
    CoversTombstone(run, route, r, p, q);
  }

  /** A named list covers what all its elements cover. */
  lemma ListCovers(run: Run, route: seq<string>, l: NamedListNode, nulls: bool, r: Flat)
    requires route != [] && FindSpec(route[1..], Walked(run, nulls)) == Ok(FoundList(l))
    requires forall j :: 0 <= j < |l.elements| ==> Covers(run, route + [l.elements[j].key], nulls, r)
    ensures Covers(run, route, nulls, r)
  {
    var t := Walked(run, nulls);
    var x := route[1..];
    forall q | NonNullLeafAt(x + q, t)
      ensures PathCodec.Join(route + q) in r &&
              r[PathCodec.Join(route + q)] == (if nulls then None else FindSpec(x + q, t).value.value)
    {
      ListLeafCovered(run, route, l, nulls, r, q);
    }
    if !nulls {
      forall p, q | Deleted(run.updates, x + p) && NonNullLeafAt(x + p + q, run.curRoot)
        ensures PathCodec.Join(route + p + q) in r && r[PathCodec.Join(route + p + q)] == None
      {
        ListTombstoneCovered(run, route, l, r, p, q);
      }
    }
  }

  /** A leaf below a named list is below one of its elements. */
  lemma ListLeafCovered(run: Run, route: seq<string>, l: NamedListNode, nulls: bool, r: Flat, q: seq<string>)
    requires route != [] && FindSpec(route[1..], Walked(run, nulls)) == Ok(FoundList(l))
    requires forall j :: 0 <= j < |l.elements| ==> Covers(run, route + [l.elements[j].key], nulls, r)
    requires NonNullLeafAt(route[1..] + q, Walked(run, nulls))
    ensures PathCodec.Join(route + q) in r &&
            r[PathCodec.Join(route + q)] == (if nulls then None else FindSpec(route[1..] + q, Walked(run, nulls)).value.value)
  {
    var t := Walked(run, nulls);
    var x := route[1..];
    assert q == [] ==> x + q == x;
    var name := q[0];
    FindSnoc(x, name, t, FoundList(l));
    assert x + [name] + q[1..] == x + q;
    assert q[1..] == [] ==> x + q == x + [name];
    LiveAbove(x + [name], q[1..], t);
    assert Get(l, name).Some?;
    var j := ElementIndex(l, name).value;
    assert Covers(run, route + [l.elements[j].key], nulls, r);
    CoversLeaf(run, route, nulls, r, q);
  }

  /** A deleted element below a named list is one of its elements or below one. */
  lemma ListTombstoneCovered(run: Run, route: seq<string>, l: NamedListNode, r: Flat, p: seq<string>, q: seq<string>)
    requires route != [] && FindSpec(route[1..], run.updates) == Ok(FoundList(l))
    requires forall j :: 0 <= j < |l.elements| ==> Covers(run, route + [l.elements[j].key], false, r)
    requires Deleted(run.updates, route[1..] + p) && NonNullLeafAt(route[1..] + p + q, run.curRoot)
    ensures PathCodec.Join(route + p + q) in r && r[PathCodec.Join(route + p + q)] == None
  {
    var j := DeletedBelowList(run.updates, route[1..], l, p);
    assert Covers(run, route + [l.elements[j].key], false, r);
    CoversTombstone(run, route, r, p, q);
  }

  /** The element of the list that a deletion below it starts from. */
  lemma DeletedBelowList(node: Traversable, x: seq<string>, l: NamedListNode, p: seq<string>) returns (j: nat)
    requires FindSpec(x, node) == Ok(FoundList(l)) && Deleted(node, x + p)
    ensures p != [] && j < |l.elements| && l.elements[j].key == p[0]
  {
    DeletedFound(node, x + p);
    assert p == [] ==> x + p == x;
    var name := p[0];
    FindSnoc(x, name, node, FoundList(l));
    assert x + [name] + p[1..] == x + p;
    if |p| == 1 {
      assert (x + p)[..|x + p| - 1] == x;
      assert name in Keys(l);
      j :| 0 <= j < |l.elements| && Keys(l)[j] == name;
    } else {
      LiveAbove(x + [name], p[1..], node);
      j :| 0 <= j < |l.elements| && l.elements[j] == Element(name, Get(l, name));
    }
  }

  /**
   * A leaf or a null node covers at most itself: the leaf's own entry, when
   * it is non-null, and nothing more.
   */
  lemma CoversDead(run: Run, route: seq<string>, nulls: bool, r: Flat, f: Found)
    requires route != [] && FindSpec(route[1..], Walked(run, nulls)) == Ok(f) && !Live(f)
    requires f.FoundValue? && f.value.Some? ==>
      PathCodec.Join(route) in r && r[PathCodec.Join(route)] == (if nulls then None else f.value)
    requires !nulls ==> !Deleted(run.updates, route[1..])
    ensures Covers(run, route, nulls, r)
  {
    var t := Walked(run, nulls);
    var x := route[1..];
    forall q | NonNullLeafAt(x + q, t)
      ensures PathCodec.Join(route + q) in r &&
              r[PathCodec.Join(route + q)] == (if nulls then None else FindSpec(x + q, t).value.value)
    {
      LiveAbove(x, q, t);
      assert q == [] ==> x + q == x && route + q == route;
    }
    if !nulls {
      forall p
        ensures !Deleted(run.updates, x + p)
      {
        DeletedFound(run.updates, x + p);
        LiveAbove(x, p, t);
        assert p == [] ==> x + p == x;
      }
    }
  }

  /** Below a deleted element, what tombstone mode covers in the cached tree is all there is to cover. */
  lemma TombstonesCover(run: Run, route: seq<string>, r: Flat)
    requires route != [] && FindSpec(route[1..], run.updates) == Ok(FoundInner(None))
    requires Covers(run, route, true, r)
    ensures Covers(run, route, false, r)
  {
    var x := route[1..];
    forall q
      ensures !NonNullLeafAt(x + q, run.updates)
    {
      LiveAbove(x, q, run.updates);
      assert q == [] ==> x + q == x;
    }
    forall p, q | Deleted(run.updates, x + p) && NonNullLeafAt(x + p + q, run.curRoot)
      ensures PathCodec.Join(route + p + q) in r && r[PathCodec.Join(route + p + q)] == None
    {
      DeletedFound(run.updates, x + p);
      LiveAbove(x, p, run.updates);
      assert p == [] ==> x + p == x;
      assert x + p + q == x + q;
      assert route + p + q == route + q;
    }
  }

  // ---------------------------------------------------------------------
  // The traversal covers its subtree and writes only below it

  lemma {:induction false} ChildrenComplete(run: Run, route: seq<string>, n: InnerNode, i: nat, prefix: string,
                                            path: seq<string>, nulls: bool, acc: Flat)
    requires i <= |n.children|
    requires At(run, route, prefix, path, nulls, FoundInner(Some(n)))
    requires PlainFound(Start(run.curRoot))
    ensures var r := FlatChildren(n, i, prefix, path, nulls, run.curRoot, acc);
      r.Ok? ==> ConfinedFields(acc, r.value, route, n, i) &&
                forall j :: i <= j < |n.children| ==> Covers(run, route + [n.children[j].key], nulls, r.value)
    decreases if nulls then 1 else 3, n, 1, |n.children| - i
  {
    if i < |n.children| {
      ChildComplete(run, route, n, i, prefix, path, nulls, acc);
      var a := FlatChild(n.children[i], prefix, path, nulls, run.curRoot, acc);
      if a.Ok? {
        ChildrenComplete(run, route, n, i + 1, prefix, path, nulls, a.value);
        var r := FlatChildren(n, i + 1, prefix, path, nulls, run.curRoot, a.value);
        if r.Ok? {
          UntouchedField(a.value, r.value, route, n, i);
          CoversKept(run, route + [n.children[i].key], nulls, a.value, r.value);
          ConfinedFieldStep(acc, a.value, r.value, route, n, i);
        }
      }
    }
  }

  /** A leaf field writes nothing but its own flat key, the joined route. */
  lemma LeafConfined(route: seq<string>, key: string, v: Option<Value>, prefix: string, nulls: bool, acc: Flat)
    requires route != [] && prefix == PathCodec.Join(route) + "." && PathCodec.Escape(key) == key
    ensures PathCodec.Join(route + [key]) == prefix + key
    ensures Confined(acc, FlatLeaf(key, v, prefix, nulls, acc), route + [key])
  {
    PathCodec.JoinSnoc(route, key);
    PathCodec.SplitJoin(route + [key]);
  }

  /** A leaf field covers itself and writes nothing but its own flat key. */
  lemma LeafComplete(run: Run, route: seq<string>, key: string, v: Option<Value>,
                     prefix: string, nulls: bool, acc: Flat)
    requires route != [] && prefix == PathCodec.Join(route) + "." && PathCodec.Escape(key) == key
    requires FindSpec((route + [key])[1..], Walked(run, nulls)) == Ok(FoundValue(v))
    requires !nulls ==> !Deleted(run.updates, (route + [key])[1..])
    ensures var r := FlatLeaf(key, v, prefix, nulls, acc);
      Confined(acc, r, route + [key]) && Covers(run, route + [key], nulls, r)
  {
    LeafConfined(route, key, v, prefix, nulls, acc);
    CoversDead(run, route + [key], nulls, FlatLeaf(key, v, prefix, nulls, acc), FoundValue(v));
  }

  lemma {:induction false} ChildComplete(run: Run, route: seq<string>, n: InnerNode, i: nat, prefix: string,
                                         path: seq<string>, nulls: bool, acc: Flat)
    requires i < |n.children|
    requires At(run, route, prefix, path, nulls, FoundInner(Some(n)))
    requires PlainFound(Start(run.curRoot))
    ensures var r := FlatChild(n.children[i], prefix, path, nulls, run.curRoot, acc);
      r.Ok? ==> Confined(acc, r.value, route + [n.children[i].key]) &&
                Covers(run, route + [n.children[i].key], nulls, r.value)
    decreases if nulls then 1 else 3, n.children[i], 0, 0
  {
    var c := n.children[i];
    var route' := route + [c.key];
    assert FieldIndex(n, c.key) == Some(i);
    assert Step(FoundInner(Some(n)), c.key) == Some(AtSlot(c.slot));
    PathCodec.EscapePlain(c.key);
    AtStep(run, route, prefix, path, nulls, FoundInner(Some(n)), c.key);
    assert route'[1..] == route[1..] + [c.key];
    assert route'[1..][..|route'[1..]| - 1] == route[1..];
    match c.slot {
      case LeafSlot(v) =>
        LeafComplete(run, route, c.key, v, prefix, nulls, acc);
      case InnerSlot(_, node) =>
        InnerNodeComplete(run, route', c.key, node, prefix, path, nulls, acc);
      case ListSlot(l) =>
        ListNodeComplete(run, route', c.key, l, prefix, path, nulls, acc);
    }
  }

  lemma {:induction false} InnerNodeComplete(run: Run, route: seq<string>, key: string, node: Option<InnerNode>,
                                             prefix: string, path: seq<string>, nulls: bool, acc: Flat)
    requires nulls ==> path != []
    requires At(run, route, prefix + key + ".", Extend(path, key, nulls), nulls, FoundInner(node))
    requires !nulls ==> !Deleted(run.updates, route[1..])
    requires PlainFound(Start(run.curRoot))
    ensures var r := FlatInnerNode(key, node, prefix, path, nulls, run.curRoot, acc);
      r.Ok? ==> Confined(acc, r.value, route) && Covers(run, route, nulls, r.value)
    decreases if nulls then 1 else 3, node, 0, 0
  {
    match node {
      case None =>
        CoversDead(run, route, nulls, acc, FoundInner(None));
      case Some(m) =>
        ChildrenComplete(run, route, m, 0, prefix + key + ".", Extend(path, key, nulls), nulls, acc);
        var r := FlatInnerNode(key, node, prefix, path, nulls, run.curRoot, acc);
        if r.Ok? {
          NodeCovers(run, route, m, nulls, r.value);
        }
    }
  }

  lemma {:induction false} ListNodeComplete(run: Run, route: seq<string>, key: string, l: NamedListNode,
                                            prefix: string, path: seq<string>, nulls: bool, acc: Flat)
    requires nulls ==> path != []
    requires At(run, route, prefix + key + ".", Extend(path, key, nulls), nulls, FoundList(l))
    requires PlainFound(Start(run.curRoot))
    ensures var r := FlatListNode(key, l, prefix, path, nulls, run.curRoot, acc);
      r.Ok? ==> Confined(acc, r.value, route) && Covers(run, route, nulls, r.value)
    decreases if nulls then 1 else 3, l, 2, 0
  {
    ElementsComplete(run, route, l, 0, prefix + key + ".", Extend(path, key, nulls), nulls, acc);
    var r := FlatListNode(key, l, prefix, path, nulls, run.curRoot, acc);
    if r.Ok? {
      ListCovers(run, route, l, nulls, r.value);
    }
  }

  lemma {:induction false} ElementsComplete(run: Run, route: seq<string>, l: NamedListNode, j: nat, prefix: string,
                                            path: seq<string>, nulls: bool, acc: Flat)
    requires j <= |l.elements|
    requires At(run, route, prefix, path, nulls, FoundList(l))
    requires PlainFound(Start(run.curRoot))
    ensures var r := FlatElements(l, j, prefix, path, nulls, run.curRoot, acc);
      r.Ok? ==> ConfinedElements(acc, r.value, route, l, j) &&
                forall j' :: j <= j' < |l.elements| ==> Covers(run, route + [l.elements[j'].key], nulls, r.value)
    decreases if nulls then 1 else 3, l, 1, |l.elements| - j
  {
    if j < |l.elements| {
      ElementComplete(run, route, l, j, prefix, path, nulls, acc);
      var a := FlatElement(l.elements[j], prefix, path, nulls, run.curRoot, acc);
      if a.Ok? {
        ElementsComplete(run, route, l, j + 1, prefix, path, nulls, a.value);
        var r := FlatElements(l, j + 1, prefix, path, nulls, run.curRoot, a.value);
        if r.Ok? {
          UntouchedElement(a.value, r.value, route, l, j);
          CoversKept(run, route + [l.elements[j].key], nulls, a.value, r.value);
          ConfinedElementStep(acc, a.value, r.value, route, l, j);
        }
      }
    }
  }

  lemma {:induction false} ElementComplete(run: Run, route: seq<string>, l: NamedListNode, j: nat, prefix: string,
                                           path: seq<string>, nulls: bool, acc: Flat)
    requires j < |l.elements|
    requires At(run, route, prefix, path, nulls, FoundList(l))
    requires PlainFound(Start(run.curRoot))
    ensures var r := FlatElement(l.elements[j], prefix, path, nulls, run.curRoot, acc);
      r.Ok? ==> Confined(acc, r.value, route + [l.elements[j].key]) &&
                Covers(run, route + [l.elements[j].key], nulls, r.value)
    decreases if nulls then 1 else 3, l.elements[j], 0, 0
  {
    var e := l.elements[j];
    var route' := route + [e.key];
    GetDistinct(l, j);
    var p := prefix + PathCodec.Escape(e.key) + ".";
    AtStep(run, route, prefix, path, nulls, FoundList(l), e.key);
    match e.node {
      case None =>
        if !nulls {
          DeletedComplete(run, route', p, path + [e.key], acc);
        }
      case Some(m) =>
        ChildrenComplete(run, route', m, 0, p, Extend(path, e.key, nulls), nulls, acc);
        var r := FlatElement(e, prefix, path, nulls, run.curRoot, acc);
        if r.Ok? {
          NodeCovers(run, route', m, nulls, r.value);
        }
    }
  }

  lemma {:induction false} DeletedComplete(run: Run, route: seq<string>, prefix: string, path: seq<string>, acc: Flat)
    requires At(run, route, prefix, path, false, FoundInner(None))
    requires PlainFound(Start(run.curRoot))
    ensures var r := FlatDeleted(prefix, path, false, run.curRoot, acc);
      r.Ok? ==> Confined(acc, r.value, route) && Covers(run, route, false, r.value)
    decreases 2
  {
    var x := path[1..];
    var r := FlatDeleted(prefix, path, false, run.curRoot, acc);
    match FindSpec(x, run.curRoot) {
      case Ok(FoundInner(Some(m))) =>
        FindPlain(x, run.curRoot);
        ChildrenComplete(run, route, m, 0, prefix, path, true, acc);
        if r.Ok? {
          NodeCovers(run, route, m, true, r.value);
          TombstonesCover(run, route, r.value);
        }
      case Err(_) =>
        forall q
          ensures !NonNullLeafAt(x + q, run.curRoot)
        {
          FindConcat(x, q, run.curRoot);
        }
        TombstonesCover(run, route, acc);
      case Ok(FoundInner(None)) =>
        CoversDead(run, route, true, acc, FoundInner(None));
        TombstonesCover(run, route, acc);
      case Ok(FoundValue(None)) =>
        CoversDead(run, route, true, acc, FoundValue(None));
        TombstonesCover(run, route, acc);
      case Ok(_) =>
    }
  }

  /**
   * For a root key and field names that need no escaping, the flat map holds
   * every non-null leaf of the updates, under its path joined behind the root
   * key, with its value; and every non-null leaf of the cached tree below an
   * element that the updates delete, under its path, as `null`.
   */
  lemma FlatTreeComplete(rootKey: string, curRoot: Traversable, updates: Traversable)
    requires Plain(rootKey) && PlainFound(Start(curRoot)) && PlainFound(Start(updates))
    ensures var r := FlatTree(rootKey, curRoot, updates);
      r.Ok? ==>
        (forall q :: NonNullLeafAt(q, updates) ==>
           PathCodec.Join([rootKey] + q) in r.value &&
           r.value[PathCodec.Join([rootKey] + q)] == FindSpec(q, updates).value.value) &&
        (forall p, q :: Deleted(updates, p) && NonNullLeafAt(p + q, curRoot) ==>
           PathCodec.Join([rootKey] + p + q) in r.value && r.value[PathCodec.Join([rootKey] + p + q)] == None)
  {
    var run := Run(rootKey, curRoot, updates);
    var route := [rootKey];
    PathCodec.EscapePlain(rootKey);
    assert PathCodec.Join(route) == rootKey;
    assert route[1..] == [];
    FindEmpty(updates);
    assert Extend([], rootKey, false) == route;
    assert At(run, route, "" + rootKey + ".", Extend([], rootKey, false), false, Start(updates));
    match updates {
      case TInner(n) =>
        InnerNodeComplete(run, route, rootKey, Some(n), "", [], false, map[]);
      case TList(l) =>
        ListNodeComplete(run, route, rootKey, l, "", [], false, map[]);
    }
    var r := FlatTree(rootKey, curRoot, updates);
    if r.Ok? {
      assert Covers(run, route, false, r.value);
      forall q | NonNullLeafAt(q, updates)
        ensures PathCodec.Join(route + q) in r.value &&
                r.value[PathCodec.Join(route + q)] == FindSpec(q, updates).value.value
      {
        assert route[1..] + q == q;
        assert NonNullLeafAt(route[1..] + q, Walked(run, false));
      }
      forall p, q | Deleted(updates, p) && NonNullLeafAt(p + q, curRoot)
        ensures PathCodec.Join(route + p + q) in r.value && r.value[PathCodec.Join(route + p + q)] == None
      {
        assert route[1..] + p == p;
        assert route[1..] + p + q == p + q;
        assert Deleted(run.updates, route[1..] + p);
        assert NonNullLeafAt(route[1..] + p + q, run.curRoot);
      }
    }
  }
}
