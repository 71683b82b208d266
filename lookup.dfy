/**
 * `find(keys, node)`: a visitor that walks a tree along a list of keys,
 * counting the keys it has consumed, and either returns what it reached (a
 * leaf value, an inner node, possibly null, or a named list) or fails with a
 * `KeyNotFoundException`.
 */
module Lookup {
  import opened Wrappers
  import opened ConfigTree
  import PathCodec

  /** Why `find` failed. */
  datatype Reason = IsLeaf | IsNull | NotFound

  /** A `KeyNotFoundException`: the consumed keys its message names, and the reason. */
  datatype KeyNotFound = KeyNotFound(path: seq<string>, reason: Reason)

  /** What `find` returns: a leaf value, an inner node or a named list. */
  datatype Found =
    | FoundValue(value: Option<Value>)
    | FoundInner(node: Option<InnerNode>)
    | FoundList(list: NamedListNode)

  /** The exception's message. */
  function Message(e: KeyNotFound): string {
    match e.reason
    case IsLeaf => "Configuration value '" + PathCodec.Join(e.path) + "' is a leaf"
    case IsNull => "Configuration node '" + PathCodec.Join(e.path) + "' is null"
    case NotFound => "Configuration '" + PathCodec.Join(e.path) + "' is not found"
  }

  /** The visit that `traverseChild` starts for a field. */
  function AtSlot(s: Slot): Found {
    match s
    case LeafSlot(v) => FoundValue(v)
    case InnerSlot(_, v) => FoundInner(v)
    case ListSlot(l) => FoundList(l)
  }

  /** The visit that `node.accept(null, visitor)` starts. */
  function Start(node: Traversable): Found {
    match node
    case TInner(n) => FoundInner(Some(n))
    case TList(l) => FoundList(l)
  }

  /**
   * One step of the walk from `at` along `key`, when `at` has something under
   * that key: a field of an inner node, or any name of a named list (whose
   * `get` yields null for an absent element).
   */
  function Step(at: Found, key: string): Option<Found> {
    match at
    case FoundValue(_) => None
    case FoundInner(None) => None
    case FoundInner(Some(n)) =>
      (match FieldIndex(n, key)
       case None => None
       case Some(j) => Some(AtSlot(n.children[j].slot)))
    case FoundList(l) => Some(FoundInner(Get(l, key)))
  }

  /** The visitor's state after `i` keys, at `at`: what the rest of the walk yields. */
  function Walk(keys: seq<string>, i: nat, at: Found): (r: Result<Found, KeyNotFound>)
    requires i <= |keys|
    ensures r.Err? ==> i <= |r.error.path| <= |keys| && r.error.path == keys[..|r.error.path|]
    ensures r.Err? && r.error.reason != NotFound ==> |r.error.path| < |keys|
    ensures r.Err? && r.error.reason == NotFound ==> |r.error.path| > i
    decreases |keys| - i
  {
    if i == |keys| then Ok(at)
    else
      match at
      case FoundValue(_) => Err(KeyNotFound(keys[..i], IsLeaf))
      case FoundInner(None) => Err(KeyNotFound(keys[..i], IsNull))
      case FoundInner(Some(n)) =>
        (match FieldIndex(n, keys[i])
         case None => Err(KeyNotFound(keys[..i + 1], NotFound))
         case Some(j) => Walk(keys, i + 1, AtSlot(n.children[j].slot)))
      case FoundList(l) => Walk(keys, i + 1, FoundInner(Get(l, keys[i])))
  }

  /** What `find(keys, node)` returns or throws. */
  function FindSpec(keys: seq<string>, node: Traversable): Result<Found, KeyNotFound> {
    Walk(keys, 0, Start(node))
  }

  /**
   * `find(keys, node)`: the visitor's counter `i` advances by one key per
   * visited node until the keys run out or a visit throws.
   */
  method Find(keys: seq<string>, node: Traversable) returns (r: Result<Found, KeyNotFound>)
    ensures r == FindSpec(keys, node)
  {
    var i := 0;
    var at := Start(node);
    while true
      invariant i <= |keys|
      invariant Walk(keys, i, at) == FindSpec(keys, node)
      decreases |keys| - i
    {
      if i == |keys| {
        return Ok(at);
      }
      match at
      case FoundValue(_) =>
        return Err(KeyNotFound(keys[..i], IsLeaf));
      case FoundInner(None) =>
        return Err(KeyNotFound(keys[..i], IsNull));
      case FoundInner(Some(n)) =>
        var j := FieldIndex(n, keys[i]);
        if j.None? {
          return Err(KeyNotFound(keys[..i + 1], NotFound));
        }
        at := AtSlot(n.children[j.value].slot);
        i := i + 1;
      case FoundList(l) =>
        var name := keys[i];
        i := i + 1;
        at := FoundInner(Get(l, name));
    }
  }

  // ---------------------------------------------------------------------
  // Properties

  /** The errors of a walk that starts after `p`, with the keys of `p` put in front. */
  function Behind(p: seq<string>, r: Result<Found, KeyNotFound>): Result<Found, KeyNotFound> {
    match r
    case Ok(f) => Ok(f)
    case Err(e) => Err(KeyNotFound(p + e.path, e.reason))
  }

  /** The walk over `keys` from position `i` is the walk over `keys[i..]` from the start. */
  lemma {:induction false} WalkShift(keys: seq<string>, i: nat, at: Found)
    requires i <= |keys|
    ensures Walk(keys, i, at) == Behind(keys[..i], Walk(keys[i..], 0, at))
    decreases |keys| - i
  {
    var rest := keys[i..];
    if i == |keys| {
      assert rest == [];
    } else {
      assert rest[0] == keys[i];
      assert keys[..i] + rest[..0] == keys[..i];
      assert keys[..i] + rest[..1] == keys[..i + 1];
      match at
      case FoundValue(_) =>
      case FoundInner(None) =>
      case FoundInner(Some(n)) =>
        match FieldIndex(n, keys[i]) {
          case None =>
          case Some(j) =>
            var next := AtSlot(n.children[j].slot);
            WalkShift(keys, i + 1, next);
            WalkShift(rest, 1, next);
            assert rest[1..] == keys[i + 1..];
            assert rest[..1] == [keys[i]];
            assert keys[..i] + [keys[i]] == keys[..i + 1];
            BehindBehind(keys[..i], [keys[i]], Walk(keys[i + 1..], 0, next));
        }
      case FoundList(l) =>
        var next := FoundInner(Get(l, keys[i]));
        WalkShift(keys, i + 1, next);
        WalkShift(rest, 1, next);
        assert rest[1..] == keys[i + 1..];
        assert rest[..1] == [keys[i]];
        assert keys[..i] + [keys[i]] == keys[..i + 1];
        BehindBehind(keys[..i], [keys[i]], Walk(keys[i + 1..], 0, next));
    }
  }

  lemma BehindBehind(p: seq<string>, q: seq<string>, r: Result<Found, KeyNotFound>)
    ensures Behind(p, Behind(q, r)) == Behind(p + q, r)
  {
    if r.Err? {
      assert p + (q + r.error.path) == (p + q) + r.error.path;
    }
  }

  /** After a successful walk over `p`, the walk over `p + q` goes on from where it ended. */
  lemma {:induction false} WalkConcat(p: seq<string>, q: seq<string>, at: Found)
    ensures Walk(p, 0, at).Err? ==> Walk(p + q, 0, at) == Walk(p, 0, at)
    ensures Walk(p, 0, at).Ok? ==> Walk(p + q, 0, at) == Behind(p, Walk(q, 0, Walk(p, 0, at).value))
    decreases |p|
  {
    if p == [] {
      assert [] + q == q;
      if Walk(q, 0, at).Err? {
        assert [] + Walk(q, 0, at).error.path == Walk(q, 0, at).error.path;
      }
    } else {
      var k := p[0];
      assert (p + q)[0] == k;
      assert (p + q)[1..] == p[1..] + q;
      match Step(at, k)
      case None =>
        assert (p + q)[..1] == p[..1];
        assert (p + q)[..0] == p[..0];
      case Some(next) =>
        assert Walk(p + q, 1, next) == Walk(p + q, 0, at);
        assert Walk(p, 1, next) == Walk(p, 0, at);
        WalkShift(p + q, 1, next);
        WalkShift(p, 1, next);
        assert (p + q)[..1] == [k] && p[..1] == [k];
        WalkConcat(p[1..], q, next);
        match Walk(p[1..], 0, next)
        case Err(e) =>
        case Ok(f) =>
          BehindBehind([k], p[1..], Walk(q, 0, f));
          assert [k] + p[1..] == p;
    }
  }

  /** `find(p + q, node)` is `find(p, node)` followed by a walk over `q` from its result. */
  lemma FindConcat(p: seq<string>, q: seq<string>, node: Traversable)
    ensures FindSpec(p, node).Err? ==> FindSpec(p + q, node) == FindSpec(p, node)
    ensures FindSpec(p, node).Ok? ==> FindSpec(p + q, node) == Behind(p, Walk(q, 0, FindSpec(p, node).value))
  {
    WalkConcat(p, q, Start(node));
  }

  /** Extending a found path by one key is one `Step`, or the matching exception. */
  lemma FindSnoc(p: seq<string>, k: string, node: Traversable, f: Found)
    requires FindSpec(p, node) == Ok(f)
    ensures Step(f, k).Some? ==> FindSpec(p + [k], node) == Ok(Step(f, k).value)
    ensures f.FoundValue? ==> FindSpec(p + [k], node) == Err(KeyNotFound(p, IsLeaf))
    ensures f == FoundInner(None) ==> FindSpec(p + [k], node) == Err(KeyNotFound(p, IsNull))
    ensures f.FoundInner? && f.node.Some? && Step(f, k).None? ==>
      FindSpec(p + [k], node) == Err(KeyNotFound(p + [k], NotFound))
  {
    FindConcat(p, [k], node);
    assert p + [] == p;
    assert [k][..1] == [k] && [k][..0] == [];
  }

  /** `find([], node)` returns `node` itself. */
  lemma FindEmpty(node: Traversable)
    ensures FindSpec([], node) == Ok(Start(node))
  {
  }

  /** A path that ends exactly on a leaf field returns the leaf's value. */
  lemma FindLeaf(p: seq<string>, k: string, node: Traversable, n: InnerNode, j: nat)
    requires FindSpec(p, node) == Ok(FoundInner(Some(n)))
    requires FieldIndex(n, k) == Some(j) && n.children[j].slot.LeafSlot?
    ensures FindSpec(p + [k], node) == Ok(FoundValue(n.children[j].slot.value))
  {
    FindSnoc(p, k, node, FoundInner(Some(n)));
  }

  /** An element absent from a named list, named by the last key, is found as `null`. */
  lemma FindAbsentElement(p: seq<string>, k: string, node: Traversable, l: NamedListNode)
    requires FindSpec(p, node) == Ok(FoundList(l))
    requires forall j :: 0 <= j < |l.elements| ==> l.elements[j].key != k
    ensures FindSpec(p + [k], node) == Ok(FoundInner(None))
  {
    FindSnoc(p, k, node, FoundList(l));
  }

  /**
   * Every `KeyNotFoundException` names a prefix of the keys: the one it
   * consumed before a leaf or a null node with keys still to go, or, for a
   * missing field, the prefix up to and including the key that matched nothing.
   */
  lemma FindError(keys: seq<string>, node: Traversable)
    requires FindSpec(keys, node).Err?
    ensures var e := FindSpec(keys, node).error;
      e.path == keys[..|e.path|] &&
      match e.reason
      case IsLeaf => |e.path| < |keys| && FindSpec(e.path, node).Ok? && FindSpec(e.path, node).value.FoundValue?
      case IsNull => |e.path| < |keys| && FindSpec(e.path, node) == Ok(FoundInner(None))
      case NotFound =>
        var p := e.path[..|e.path| - 1];
        |e.path| > 0 && FindSpec(p, node).Ok? && FindSpec(p, node).value.FoundInner? &&
        FindSpec(p, node).value.node.Some? && FieldIndex(FindSpec(p, node).value.node.value, e.path[|e.path| - 1]).None?
  {
    var e := FindSpec(keys, node).error;
    var i := if e.reason == NotFound then |e.path| - 1 else |e.path|;
    PrefixWalk(keys, node, i);
    var f := FindSpec(keys[..i], node).value;
    var q := keys[i..];
    assert keys == keys[..i] + q;
    FindConcat(keys[..i], q, node);
    var e2 := Walk(q, 0, f).error;
    assert e == KeyNotFound(keys[..i] + e2.path, e2.reason);
    if e.reason == NotFound {
      assert |e2.path| == 1;
      assert e.path[..i] == keys[..i];
    } else {
      assert e2.path == [];
      assert e.path == keys[..i];
    }
  }

  /**
   * The walk over `keys` fails at a position no earlier than `i` when it names
   * a path longer than `i` (or as long, for a leaf or a null node); then the
   * walk over the first `i` keys succeeds.
   */
  lemma {:induction false} PrefixWalk(keys: seq<string>, node: Traversable, i: nat)
    requires FindSpec(keys, node).Err?
    requires var e := FindSpec(keys, node).error;
      i == (if e.reason == NotFound then |e.path| - 1 else |e.path|)
    ensures i < |keys|
    ensures FindSpec(keys[..i], node).Ok?
  {
    var e := FindSpec(keys, node).error;
    assert keys == keys[..i] + keys[i..];
    FindConcat(keys[..i], keys[i..], node);
  }
}
