/**
 * `fillFromPrefixMap`: a prefix map poured into a configuration tree through
 * the two sources it defines. An `InnerConfigurationSource` over a map hands
 * every entry to the node's `construct`, as a `null` source, as a nested
 * `InnerConfigurationSource` for a map, or as a `LeafConfigurationSource` for a
 * value; a leaf source can only be unwrapped and an inner one only descended
 * into. The entries of a Java `HashMap` come in no particular order, so the
 * loops pick any entry not yet handled, and the results are specified by
 * relations that hold whatever the order.
 */
module Fill {
  import opened Wrappers
  import opened ConfigTree
  import opened PrefixMaps

  // ---------------------------------------------------------------------
  // Which maps fit a tree, and what filling them produces

  /** Filling `n` with `m` throws nothing. */
  ghost predicate FitsInner(n: InnerNode, m: map<string, PrefixNode>)
    decreases PMap(m), 0
  {
    forall k :: k in m ==>
      FieldIndex(n, k).Some? && FitsSlot(n.children[FieldIndex(n, k).value].slot, m[k])
  }

  /** `construct` of a field holding `s` with the source for `v` throws nothing. */
  ghost predicate FitsSlot(s: Slot, v: PrefixNode)
    decreases v, 1
  {
    match v
    case PValue(None) => true
    case PValue(Some(_)) => s.LeafSlot?
    case PMap(sub) =>
      (s.InnerSlot? && FitsInner(s.node.GetOr(s.blank), sub)) ||
      (s.ListSlot? && FitsList(s.list, sub))
  }

  ghost predicate FitsList(l: NamedListNode, m: map<string, PrefixNode>)
    decreases PMap(m), 0
  {
    forall k :: k in m ==> FitsElement(Get(l, k), l.blank, m[k])
  }

  /** `construct` of the element `cur` (or a new `blank`) with the source for `v` throws nothing. */
  ghost predicate FitsElement(cur: Option<InnerNode>, blank: InnerNode, v: PrefixNode)
    decreases v, 1
  {
    match v
    case PValue(None) => true
    case PValue(Some(_)) => false
    case PMap(sub) => FitsInner(cur.GetOr(blank), sub)
  }

  /**
   * `r` is `n` filled with `m`: the fields `m` names (their first occurrence)
   * are filled from their entries, every other field is kept.
   */
  ghost predicate FillsInner(n: InnerNode, m: map<string, PrefixNode>, r: InnerNode)
    decreases PMap(m), 0
  {
    |r.children| == |n.children| &&
    forall i :: 0 <= i < |n.children| ==>
      r.children[i].key == n.children[i].key &&
      if n.children[i].key in m && FieldIndex(n, n.children[i].key) == Some(i)
      then FillsSlot(n.children[i].slot, m[n.children[i].key], r.children[i].slot)
      else r.children[i].slot == n.children[i].slot
  }

  /**
   * A `null` entry clears the field (a leaf or a nested node becomes `null`, a
   * named list becomes empty), a value replaces a leaf, and a map fills the
   * nested node (the present one or a new one) or the named list.
   */
  ghost predicate FillsSlot(s: Slot, v: PrefixNode, rs: Slot)
    decreases v, 1
  {
    match v
    case PValue(None) => rs == Cleared(s)
    case PValue(Some(x)) => s.LeafSlot? && rs == LeafSlot(Some(x))
    case PMap(sub) =>
      (s.InnerSlot? && rs.InnerSlot? && rs.blank == s.blank && rs.node.Some? &&
       FillsInner(s.node.GetOr(s.blank), sub, rs.node.value)) ||
      (s.ListSlot? && rs.ListSlot? && FillsList(s.list, sub, rs.list))
  }

  /**
   * `r` is the named list `l` filled with `m`: the old elements keep their
   * positions, the new names of `m` follow them in some order, every name of
   * `m` is present, and the elements `m` names are filled from their entries.
   */
  ghost predicate FillsList(l: NamedListNode, m: map<string, PrefixNode>, r: NamedListNode)
    decreases PMap(m), 0
  {
    r.blank == l.blank && DistinctKeys(r) &&
    |l.elements| <= |r.elements| &&
    (forall j :: 0 <= j < |l.elements| ==> r.elements[j].key == l.elements[j].key) &&
    (forall j :: |l.elements| <= j < |r.elements| ==> r.elements[j].key in m) &&
    (forall k :: k in m ==> ElementIndex(r, k).Some?) &&
    forall j :: 0 <= j < |r.elements| ==>
      if r.elements[j].key in m
      then FillsElement(Get(l, r.elements[j].key), l.blank, m[r.elements[j].key], r.elements[j].node)
      else j < |l.elements| && r.elements[j] == l.elements[j]
  }

  /** A `null` entry deletes the element; a map fills the present element or a new one. */
  ghost predicate FillsElement(cur: Option<InnerNode>, blank: InnerNode, v: PrefixNode, rv: Option<InnerNode>)
    decreases v, 1
  {
    match v
    case PValue(None) => rv.None?
    case PValue(Some(_)) => false
    case PMap(sub) => rv.Some? && FillsInner(cur.GetOr(blank), sub, rv.value)
  }

  // ---------------------------------------------------------------------
  // The calls `InnerConfigurationSource.descend` makes

  /** The source handed to `construct` for an entry. */
  datatype Arg = NullArg | LeafArg(value: Value) | InnerArg(entries: map<string, PrefixNode>)

  /** One `construct(key, source)` call. */
  datatype Call = Call(key: string, arg: Arg)

  function ArgFor(v: PrefixNode): Arg {
    match v
    case PValue(None) => NullArg
    case PValue(Some(x)) => LeafArg(x)
    case PMap(sub) => InnerArg(sub)
  }

  function CallKeys(calls: seq<Call>): set<string> {
    set j | 0 <= j < |calls| :: calls[j].key
  }

  /** `calls` construct each name of `keys` once, with the source its entry in `m` calls for. */
  predicate Logged(calls: seq<Call>, m: map<string, PrefixNode>, keys: set<string>) {
    CallKeys(calls) == keys &&
    (forall i, j :: 0 <= i < j < |calls| ==> calls[i].key != calls[j].key) &&
    forall j :: 0 <= j < |calls| ==> calls[j].key in m && calls[j].arg == ArgFor(m[calls[j].key])
  }

  function Restrict(m: map<string, PrefixNode>, keys: set<string>): map<string, PrefixNode> {
    map k | k in m && k in keys :: m[k]
  }

  // ---------------------------------------------------------------------
  // The sources at work

  /** `fillFromPrefixMap(node, prefixMap)`, which fills the root object in place. */
  method FillFromPrefixMap(node: ConfigNode, prefixMap: map<string, PrefixNode>) returns (fault: Option<Fault>)
    requires node.tree.TInner? && WellFormed(node.tree.inner)
    modifies node
    ensures fault.None? <==> FitsInner(old(node.tree.inner), prefixMap)
    ensures fault.None? ==> node.tree.TInner? && FillsInner(old(node.tree.inner), prefixMap, node.tree.inner)
    ensures fault.Some? ==> fault.value.Unsupported? || fault.value.NoSuchElement?
  {
    var r, calls := FillInner(prefixMap, node.tree.inner);
    if r.Err? {
      return Some(r.error);
    }
    node.tree := TInner(r.value);
    fault := None;
  }

  /**
   * `InnerConfigurationSource(m).descend(n)` on an inner node: one `construct`
   * per entry, returned in `calls`, stopping at the first that throws.
   */
  method FillInner(m: map<string, PrefixNode>, n: InnerNode) returns (r: Result<InnerNode, Fault>, calls: seq<Call>)
    requires WellFormed(n)
    ensures r.Ok? <==> FitsInner(n, m)
    ensures r.Ok? ==> FillsInner(n, m, r.value)
    ensures r.Err? ==> r.error.Unsupported? || r.error.NoSuchElement?
    ensures CallKeys(calls) <= m.Keys && (r.Ok? ==> CallKeys(calls) == m.Keys)
    ensures Logged(calls, m, CallKeys(calls))
    decreases PMap(m), 0
  {
    var cur := n;
    var todo := m.Keys;
    ghost var done: set<string> := {};
    calls := [];
    while todo != {}
      invariant todo !! done && todo + done == m.Keys
      invariant FitsInner(n, Restrict(m, done))
      invariant FillsInner(n, Restrict(m, done), cur)
      invariant Logged(calls, m, done)
      decreases todo
    {
      var k :| k in todo;
      assert m[k] in m.Values;
      LoggedStep(calls, m, done, k);
      calls := calls + [Call(k, ArgFor(m[k]))];
      FillsInnerUntouched(n, Restrict(m, done), cur, k);
      var step := ConstructInInner(cur, k, m[k]);
      if step.Err? {
        return Err(step.error), calls;
      }
      FillsInnerStep(n, Restrict(m, done), cur, k, m[k], step.value);
      RestrictAdd(m, done, k);
      cur := step.value;
      done := done + {k};
      todo := todo - {k};
    }
    assert Restrict(m, done) == m;
    r := Ok(cur);
  }

  /** `construct(k, source for v)` on an inner node, as the generated code does it. */
  method ConstructInInner(n: InnerNode, k: string, v: PrefixNode) returns (r: Result<InnerNode, Fault>)
    requires FieldIndex(n, k).Some? ==> WellFormedSlot(n.children[FieldIndex(n, k).value].slot)
    ensures r.Ok? <==> FieldIndex(n, k).Some? && FitsSlot(n.children[FieldIndex(n, k).value].slot, v)
    ensures r.Ok? ==>
      var i := FieldIndex(n, k).value;
      |r.value.children| == |n.children| &&
      r.value == SetSlot(n, i, r.value.children[i].slot) &&
      FillsSlot(n.children[i].slot, v, r.value.children[i].slot)
    ensures FieldIndex(n, k).None? ==> r == Err(NoSuchElement(k))
    ensures FieldIndex(n, k).Some? && v.PValue? && v.value.Some? && !n.children[FieldIndex(n, k).value].slot.LeafSlot? ==>
      r == Err(Unsupported("descend"))
    ensures FieldIndex(n, k).Some? && v.PMap? && n.children[FieldIndex(n, k).value].slot.LeafSlot? ==>
      r == Err(Unsupported("unwrap"))
    ensures r.Err? ==> r.error.Unsupported? || r.error.NoSuchElement?
    decreases v, 1
  {
    var idx := FieldIndex(n, k);
    if idx.None? {
      return Err(NoSuchElement(k));
    }
    var i := idx.value;
    var s := n.children[i].slot;
    match v {
      case PValue(None) =>
        r := Ok(SetSlot(n, i, Cleared(s)));
      case PValue(Some(x)) =>
        if s.LeafSlot? {
          r := Ok(SetSlot(n, i, LeafSlot(Some(x))));
        } else {
          r := Err(Unsupported("descend"));
        }
      case PMap(sub) =>
        match s {
          case LeafSlot(_) =>
            r := Err(Unsupported("unwrap"));
          case InnerSlot(b, cur) =>
            var c, nested := FillInner(sub, cur.GetOr(b));
            if c.Err? {
              return Err(c.error);
            }
            r := Ok(SetSlot(n, i, InnerSlot(b, Some(c.value))));
          case ListSlot(l) =>
            var c, nested := FillList(sub, l);
            if c.Err? {
              return Err(c.error);
            }
            r := Ok(SetSlot(n, i, ListSlot(c.value)));
        }
    }
  }

  /** `InnerConfigurationSource(m).descend(l)` on a named list. */
  method FillList(m: map<string, PrefixNode>, l: NamedListNode) returns (r: Result<NamedListNode, Fault>, calls: seq<Call>)
    requires WellFormedList(l)
    ensures r.Ok? <==> FitsList(l, m)
    ensures r.Ok? ==> FillsList(l, m, r.value)
    ensures r.Err? ==> r.error.Unsupported? || r.error.NoSuchElement?
    ensures CallKeys(calls) <= m.Keys && (r.Ok? ==> CallKeys(calls) == m.Keys)
    ensures Logged(calls, m, CallKeys(calls))
    decreases PMap(m), 0
  {
    var cur := l;
    var todo := m.Keys;
    ghost var done: set<string> := {};
    calls := [];
    while todo != {}
      invariant todo !! done && todo + done == m.Keys
      invariant FitsList(l, Restrict(m, done))
      invariant FillsList(l, Restrict(m, done), cur)
      invariant Logged(calls, m, done)
      decreases todo
    {
      var k :| k in todo;
      assert m[k] in m.Values;
      LoggedStep(calls, m, done, k);
      calls := calls + [Call(k, ArgFor(m[k]))];
      FillsListUntouched(l, Restrict(m, done), cur, k);
      GetWellFormed(l, k);
      var step := ConstructInList(cur, k, m[k]);
      if step.Err? {
        FillListFault(l, m, done, cur, k);
        return Err(step.error), calls;
      }
      FillListAdvance(l, m, done, cur, k, step.value);
      cur := step.value;
      done := done + {k};
      todo := todo - {k};
    }
    assert Restrict(m, done) == m;
    r := Ok(cur);
  }

  /**
   * `construct(k, source for v)` on a named list: a `null` source deletes the
   * element, any other puts a copy of the element (or a new one) and descends into it.
   */
  method ConstructInList(l: NamedListNode, k: string, v: PrefixNode) returns (r: Result<NamedListNode, Fault>)
    requires WellFormed(l.blank) && WellFormedElement(Get(l, k))
    ensures r.Ok? <==> FitsElement(Get(l, k), l.blank, v)
    ensures r.Ok? ==>
      r.value == Put(l, k, Get(r.value, k)) && FillsElement(Get(l, k), l.blank, v, Get(r.value, k))
    ensures v.PValue? && v.value.Some? ==> r == Err(Unsupported("descend"))
    ensures r.Err? ==> r.error.Unsupported? || r.error.NoSuchElement?
    decreases v, 1
  {
    match v {
      case PValue(None) =>
        r := Ok(Put(l, k, None));
        GetPut(l, k, None, k);
      case PValue(Some(_)) =>
        r := Err(Unsupported("descend"));
      case PMap(sub) =>
        var c, nested := FillInner(sub, Get(l, k).GetOr(l.blank));
        if c.Err? {
          return Err(c.error);
        }
        r := Ok(Put(l, k, Some(c.value)));
        GetPut(l, k, Some(c.value), k);
    }
  }

  // ---------------------------------------------------------------------
  // Lemmas for the loops

  lemma RestrictAdd(m: map<string, PrefixNode>, done: set<string>, k: string)
    requires k in m
    ensures Restrict(m, done + {k}) == Restrict(m, done)[k := m[k]]
  {
  }

  /** The field named `k`, not yet filled, is where it was and as it was. */
  lemma FillsInnerUntouched(n: InnerNode, m: map<string, PrefixNode>, cur: InnerNode, k: string)
    requires FillsInner(n, m, cur) && k !in m
    ensures FieldIndex(cur, k) == FieldIndex(n, k)
    ensures FieldIndex(n, k).Some? ==> cur.children[FieldIndex(n, k).value] == n.children[FieldIndex(n, k).value]
  {
    SameKeysFieldIndex(n, cur, k);
  }

  lemma SameKeysFieldIndex(a: InnerNode, b: InnerNode, k: string)
    requires |a.children| == |b.children|
    requires forall i :: 0 <= i < |a.children| ==> a.children[i].key == b.children[i].key
    ensures FieldIndex(a, k) == FieldIndex(b, k)
  {
    if FieldIndex(a, k).Some? && FieldIndex(b, k).Some? {
      var i, j := FieldIndex(a, k).value, FieldIndex(b, k).value;
      assert !(i < j) && !(j < i);
    }
  }

  lemma FillsInnerStep(n: InnerNode, m: map<string, PrefixNode>, cur: InnerNode, k: string, v: PrefixNode, r: InnerNode)
    requires FillsInner(n, m, cur) && k !in m
    requires FieldIndex(n, k).Some?
    requires |r.children| == |cur.children|
    requires r == SetSlot(cur, FieldIndex(n, k).value, r.children[FieldIndex(n, k).value].slot)
    requires FillsSlot(n.children[FieldIndex(n, k).value].slot, v, r.children[FieldIndex(n, k).value].slot)
    ensures FillsInner(n, m[k := v], r)
  {
    var i := FieldIndex(n, k).value;
    var m' := m[k := v];
    forall j | 0 <= j < |n.children|
      ensures r.children[j].key == n.children[j].key
      ensures if n.children[j].key in m' && FieldIndex(n, n.children[j].key) == Some(j)
              then FillsSlot(n.children[j].slot, m'[n.children[j].key], r.children[j].slot)
              else r.children[j].slot == n.children[j].slot
    {
      if j == i {
        assert m'[k] == v;
      } else if n.children[j].key == k {
        assert FieldIndex(n, k) != Some(j);
      }
    }
  }

  /** One more entry handled by the loop of `descend` over a named list. */
  lemma FillListAdvance(l: NamedListNode, m: map<string, PrefixNode>, done: set<string>, cur: NamedListNode, k: string, next: NamedListNode)
    requires k in m && k !in done
    requires FitsList(l, Restrict(m, done)) && FillsList(l, Restrict(m, done), cur)
    requires FitsElement(Get(cur, k), cur.blank, m[k])
    requires next == Put(cur, k, Get(next, k)) && FillsElement(Get(cur, k), cur.blank, m[k], Get(next, k))
    ensures FitsList(l, Restrict(m, done + {k})) && FillsList(l, Restrict(m, done + {k}), next)
  {
    FillsListUntouched(l, Restrict(m, done), cur, k);
    FillsListStep(l, Restrict(m, done), cur, k, m[k], Get(next, k));
    RestrictAdd(m, done, k);
  }

  /** An entry that does not fit its element makes the whole map not fit the list. */
  lemma FillListFault(l: NamedListNode, m: map<string, PrefixNode>, done: set<string>, cur: NamedListNode, k: string)
    requires k in m && k !in done && FillsList(l, Restrict(m, done), cur)
    requires !FitsElement(Get(cur, k), cur.blank, m[k])
    ensures !FitsList(l, m)
  {
    FillsListUntouched(l, Restrict(m, done), cur, k);
  }

  lemma FillsListUntouched(l: NamedListNode, m: map<string, PrefixNode>, cur: NamedListNode, k: string)
    requires FillsList(l, m, cur) && k !in m
    ensures Get(cur, k) == Get(l, k) && cur.blank == l.blank
  {
    ElementIndexFromSame(l.elements, cur.elements, k, 0);
    match ElementIndex(l, k)
    case None =>
    case Some(j) =>
      assert cur.elements[j] == l.elements[j];
  }

  lemma GetWellFormed(l: NamedListNode, k: string)
    requires WellFormedList(l)
    ensures WellFormedElement(Get(l, k))
  {
    match ElementIndex(l, k)
    case None =>
    case Some(j) =>
      assert WellFormedElement(l.elements[j].node);
  }

  lemma FillsListStep(l: NamedListNode, m: map<string, PrefixNode>, cur: NamedListNode, k: string, v: PrefixNode, x: Option<InnerNode>)
    requires FillsList(l, m, cur) && k !in m
    requires FillsElement(Get(l, k), l.blank, v, x)
    ensures FillsList(l, m[k := v], Put(cur, k, x))
  {
    if ElementIndex(cur, k).None? {
      FillsListAppend(l, m, cur, k, v, x);
    } else {
      FillsListReplace(l, m, cur, k, v, x);
    }
  }

  lemma FillsListAppend(l: NamedListNode, m: map<string, PrefixNode>, cur: NamedListNode, k: string, v: PrefixNode, x: Option<InnerNode>)
    requires FillsList(l, m, cur) && k !in m && ElementIndex(cur, k).None?
    requires FillsElement(Get(l, k), l.blank, v, x)
    ensures FillsList(l, m[k := v], Put(cur, k, x))
  {
    var r := Put(cur, k, x);
    assert r.elements == cur.elements + [Element(k, x)];
    FillsListAppendNames(l, m, cur, k, v, x);
    FillsListAppendElements(l, m, cur, k, v, x);
  }

  /** Appending a new name keeps the names distinct and every name of the map present. */
  lemma FillsListAppendNames(l: NamedListNode, m: map<string, PrefixNode>, cur: NamedListNode, k: string, v: PrefixNode, x: Option<InnerNode>)
    requires FillsList(l, m, cur) && ElementIndex(cur, k).None?
    ensures DistinctKeys(Put(cur, k, x)) && forall k' :: k' in m[k := v] ==> ElementIndex(Put(cur, k, x), k').Some?
  {
    var r := Put(cur, k, x);
    assert r.elements == cur.elements + [Element(k, x)];
    PutDistinct(cur, k, x);
    forall k' | k' in m[k := v]
      ensures ElementIndex(r, k').Some?
    {
      if k' == k {
        assert r.elements[|cur.elements|].key == k;
      } else {
        ElementIndexOther(cur, k, x, k');
      }
    }
  }

  /** Appending the element under a new name fills it from its entry and keeps every other element's relation. */
  lemma FillsListAppendElements(l: NamedListNode, m: map<string, PrefixNode>, cur: NamedListNode, k: string, v: PrefixNode, x: Option<InnerNode>)
    requires FillsList(l, m, cur) && k !in m && ElementIndex(cur, k).None?
    requires FillsElement(Get(l, k), l.blank, v, x)
    ensures var r := Put(cur, k, x);
      forall j :: 0 <= j < |r.elements| ==>
        if r.elements[j].key in m[k := v]
        then FillsElement(Get(l, r.elements[j].key), l.blank, m[k := v][r.elements[j].key], r.elements[j].node)
        else j < |l.elements| && r.elements[j] == l.elements[j]
  {
    var m' := m[k := v];
    var r := Put(cur, k, x);
    assert r.elements == cur.elements + [Element(k, x)];
    forall j | 0 <= j < |r.elements|
      ensures if r.elements[j].key in m'
              then FillsElement(Get(l, r.elements[j].key), l.blank, m'[r.elements[j].key], r.elements[j].node)
              else j < |l.elements| && r.elements[j] == l.elements[j]
    {
      if j < |cur.elements| {
        assert r.elements[j] == cur.elements[j];
      }
    }
  }

  lemma FillsListReplace(l: NamedListNode, m: map<string, PrefixNode>, cur: NamedListNode, k: string, v: PrefixNode, x: Option<InnerNode>)
    requires FillsList(l, m, cur) && k !in m && ElementIndex(cur, k).Some?
    requires FillsElement(Get(l, k), l.blank, v, x)
    ensures FillsList(l, m[k := v], Put(cur, k, x))
  {
    var i := ElementIndex(cur, k).value;
    assert Put(cur, k, x) == NamedListNode(cur.blank, cur.elements[i := Element(k, x)]);
    FillsListAt(l, m, cur, k, v, x, i);
  }

  lemma FillsListAt(l: NamedListNode, m: map<string, PrefixNode>, cur: NamedListNode, k: string, v: PrefixNode, x: Option<InnerNode>, i: nat)
    requires FillsList(l, m, cur) && k !in m
    requires i < |cur.elements| && cur.elements[i].key == k
    requires FillsElement(Get(l, k), l.blank, v, x)
    ensures FillsList(l, m[k := v], NamedListNode(cur.blank, cur.elements[i := Element(k, x)]))
  {
    var r := NamedListNode(cur.blank, cur.elements[i := Element(k, x)]);
    FillsListAtNames(l, m, cur, k, v, x, i);
    FillsListAtElements(l, m, cur, k, v, x, i);
    assert forall j :: 0 <= j < |cur.elements| ==> r.elements[j].key == cur.elements[j].key;
  }

  /** Replacing the element under `k` in place keeps the names distinct and every name of the map present. */
  lemma FillsListAtNames(l: NamedListNode, m: map<string, PrefixNode>, cur: NamedListNode, k: string, v: PrefixNode, x: Option<InnerNode>, i: nat)
    requires FillsList(l, m, cur) && k !in m
    requires i < |cur.elements| && cur.elements[i].key == k
    ensures var r := NamedListNode(cur.blank, cur.elements[i := Element(k, x)]);
      DistinctKeys(r) && forall k' :: k' in m[k := v] ==> ElementIndex(r, k').Some?
  {
    var m' := m[k := v];
    var r := NamedListNode(cur.blank, cur.elements[i := Element(k, x)]);
    assert DistinctKeys(r) by {
      forall a, b | 0 <= a < b < |r.elements|
        ensures r.elements[a].key != r.elements[b].key
      {
        assert r.elements[a].key == cur.elements[a].key;
        assert r.elements[b].key == cur.elements[b].key;
      }
    }
    forall k' | k' in m'
      ensures ElementIndex(r, k').Some?
    {
      if k' == k {
        assert r.elements[i].key == k;
      } else {
        var a := ElementIndex(cur, k').value;
        assert r.elements[a].key == k';
      }
    }
  }

  /** Replacing the element under `k` in place fills it from its entry and keeps every other element's relation. */
  lemma FillsListAtElements(l: NamedListNode, m: map<string, PrefixNode>, cur: NamedListNode, k: string, v: PrefixNode, x: Option<InnerNode>, i: nat)
    requires FillsList(l, m, cur) && k !in m
    requires i < |cur.elements| && cur.elements[i].key == k
    requires FillsElement(Get(l, k), l.blank, v, x)
    ensures var r := NamedListNode(cur.blank, cur.elements[i := Element(k, x)]);
      forall j :: 0 <= j < |r.elements| ==>
        if r.elements[j].key in m[k := v]
        then FillsElement(Get(l, r.elements[j].key), l.blank, m[k := v][r.elements[j].key], r.elements[j].node)
        else j < |l.elements| && r.elements[j] == l.elements[j]
  {
    var m' := m[k := v];
    var r := NamedListNode(cur.blank, cur.elements[i := Element(k, x)]);
    forall j | 0 <= j < |r.elements|
      ensures if r.elements[j].key in m'
              then FillsElement(Get(l, r.elements[j].key), l.blank, m'[r.elements[j].key], r.elements[j].node)
              else j < |l.elements| && r.elements[j] == l.elements[j]
    {
      if j == i {
        assert r.elements[j] == Element(k, x);
      } else {
        assert r.elements[j] == cur.elements[j];
        assert cur.elements[j].key != k;
      }
    }
  }

  lemma LoggedStep(calls: seq<Call>, m: map<string, PrefixNode>, done: set<string>, k: string)
    requires Logged(calls, m, done) && k in m && k !in done
    ensures Logged(calls + [Call(k, ArgFor(m[k]))], m, done + {k})
  {
    var c := calls + [Call(k, ArgFor(m[k]))];
    forall j | 0 <= j < |calls|
      ensures c[j].key != k
    {
      assert calls[j].key in CallKeys(calls);
    }
    assert c[|calls|].key == k;
    forall y | y in CallKeys(c)
      ensures y in done + {k}
    {
      var j :| 0 <= j < |c| && c[j].key == y;
      if j < |calls| {
        assert calls[j].key in CallKeys(calls);
      }
    }
    forall y | y in done + {k}
      ensures y in CallKeys(c)
    {
      if y == k {
        assert c[|calls|].key == y;
      } else {
        var j :| 0 <= j < |calls| && calls[j].key == y;
        assert c[j].key == y;
      }
    }
  }
}
