/**
 * `fillFromPrefixMap`, then `find` and `nodeToFlatMap`: every scalar of the
 * prefix map is found again along its path in the filled tree, and flattening
 * the filled tree writes it back under that path.
 */
module FillRoundTrip {
  import opened Wrappers
  import opened ConfigTree
  import opened Lookup
  import opened Fill
  import PrefixMaps
  import PathCodec
  import Flatten
  import FlattenProperties
  import FlattenCompleteness

  /** A walk that takes its first key into `f` and then succeeds from there succeeds with the same result. */
  lemma WalkFirst(p: seq<string>, at: Found, f: Found)
    requires p != [] && Step(at, p[0]) == Some(f)
    requires Walk(p[1..], 0, f).Ok?
    ensures Walk(p, 0, at) == Walk(p[1..], 0, f)
  {
    WalkShift(p, 1, f);
  }

  /** A path to a non-null scalar of the map leads, in the filled node, to a leaf holding it. */
  lemma {:induction false} InnerFind(n: InnerNode, m: map<string, PrefixMaps.PrefixNode>, r: InnerNode,
                                     p: seq<string>, x: Value)
    requires FitsInner(n, m) && FillsInner(n, m, r)
    requires PrefixMaps.At(PrefixMaps.PMap(m), p) == Some(PrefixMaps.PValue(Some(x)))
    ensures Walk(p, 0, FoundInner(Some(r))) == Ok(FoundValue(Some(x)))
    decreases |p|
  {
    var k := p[0];
    var v := m[k];
    var i := FieldIndex(n, k).value;
    SameKeysFieldIndex(n, r, k);
    var s, rs := n.children[i].slot, r.children[i].slot;
    assert FillsSlot(s, v, rs) && FitsSlot(s, v);
    assert Step(FoundInner(Some(r)), k) == Some(AtSlot(rs));
    match v {
      case PValue(_) =>
        assert p[1..] == [];
        WalkFirst(p, FoundInner(Some(r)), AtSlot(rs));
      case PMap(sub) =>
        if s.InnerSlot? {
          InnerFind(s.node.GetOr(s.blank), sub, rs.node.value, p[1..], x);
        } else {
          ListFind(s.list, sub, rs.list, p[1..], x);
        }
        WalkFirst(p, FoundInner(Some(r)), AtSlot(rs));
    }
  }

  /** The same for a named list filled with a map of element names. */
  lemma {:induction false} ListFind(l: NamedListNode, m: map<string, PrefixMaps.PrefixNode>, r: NamedListNode,
                                    p: seq<string>, x: Value)
    requires FitsList(l, m) && FillsList(l, m, r)
    requires PrefixMaps.At(PrefixMaps.PMap(m), p) == Some(PrefixMaps.PValue(Some(x)))
    ensures Walk(p, 0, FoundList(r)) == Ok(FoundValue(Some(x)))
    decreases |p|
  {
    var k := p[0];
    var v := m[k];
    var j := ElementIndex(r, k).value;
    assert Get(r, k) == r.elements[j].node;
    assert FillsElement(Get(l, k), l.blank, v, Get(r, k)) && FitsElement(Get(l, k), l.blank, v);
    var sub := v.entries;
    InnerFind(Get(l, k).GetOr(l.blank), sub, Get(r, k).value, p[1..], x);
    WalkFirst(p, FoundList(r), FoundInner(Get(r, k)));
  }

  /**
   * After `fillFromPrefixMap(node, m)` throws nothing, `find` along the path of
   * any non-null scalar of `m` returns that scalar.
   */
  lemma FillFind(n: InnerNode, m: map<string, PrefixMaps.PrefixNode>, r: InnerNode, p: seq<string>, x: Value)
    requires FitsInner(n, m) && FillsInner(n, m, r)
    requires PrefixMaps.At(PrefixMaps.PMap(m), p) == Some(PrefixMaps.PValue(Some(x)))
    ensures FindSpec(p, TInner(r)) == Ok(FoundValue(Some(x)))
  {
    InnerFind(n, m, r, p, x);
  }

  /**
   * Fill, then flatten: for a root key and field names that need no escaping,
   * the flat map of the filled tree holds every non-null scalar of the prefix
   * map under its path joined behind the root key.
   */
  lemma FillFlatten(rootKey: string, curRoot: Traversable, n: InnerNode, m: map<string, PrefixMaps.PrefixNode>,
                    r: InnerNode, p: seq<string>, x: Value)
    requires FitsInner(n, m) && FillsInner(n, m, r)
    requires PrefixMaps.At(PrefixMaps.PMap(m), p) == Some(PrefixMaps.PValue(Some(x)))
    requires FlattenProperties.Plain(rootKey) && FlattenProperties.PlainFound(Start(curRoot))
    requires FlattenProperties.PlainFound(FoundInner(Some(r)))
    ensures var f := Flatten.FlatTree(rootKey, curRoot, TInner(r));
      f.Ok? ==> PathCodec.Join([rootKey] + p) in f.value && f.value[PathCodec.Join([rootKey] + p)] == Some(x)
  {
    FillFind(n, m, r, p, x);
    assert FlattenProperties.NonNullLeafAt(p, TInner(r));
    FlattenCompleteness.FlatTreeComplete(rootKey, curRoot, TInner(r));
  }
}
