/**
 * `toPrefixMap` and `insert`: a flat map from dotted keys to values becomes a
 * nested map in which every key's segments lead to its value.
 */
module PrefixMaps {
  import opened Wrappers
  import opened ConfigTree
  import PathCodec

  /** A value of a prefix map: a scalar (null allowed) or a nested map. */
  datatype PrefixNode = PValue(value: Option<Value>) | PMap(entries: map<string, PrefixNode>)

  /** The assertions in `insert` that can fail. */
  datatype InsertFault =
    | DuplicateKey  // the last segment is already a key of its map
    | NotAMap       // a segment before the last names a non-null scalar

  /** What following `path` from `p` reaches, if anything. */
  function At(p: PrefixNode, path: seq<string>): Option<PrefixNode>
    decreases |path|
  {
    if path == [] then Some(p)
    else
      match p
      case PValue(_) => None
      case PMap(m) => if path[0] in m then At(m[path[0]], path[1..]) else None
  }

  predicate IsPrefix(q: seq<string>, p: seq<string>) {
    |q| <= |p| && p[..|q|] == q
  }

  /** Does `o` hold a non-null scalar? */
  predicate IsScalar(o: Option<PrefixNode>) {
    o.Some? && o.value.PValue? && o.value.value.Some?
  }

  /** No segment before the last of `path` names a non-null scalar under `p`. */
  predicate Passable(p: PrefixNode, path: seq<string>) {
    forall i :: 0 < i < |path| ==> !IsScalar(At(p, path[..i]))
  }

  /**
   * `insert(map, keys, idx, val)`: the value goes under `keys[idx..]`; a
   * missing or null intermediate entry is replaced by a new empty map.
   */
  function Insert(m: map<string, PrefixNode>, keys: seq<string>, idx: nat, val: Option<Value>)
    : (r: Result<map<string, PrefixNode>, InsertFault>)
    requires idx < |keys|
    ensures r.Ok? ==> r.value.Keys == m.Keys + {keys[idx]}
    ensures r.Ok? ==> forall k :: k in m && k != keys[idx] ==> r.value[k] == m[k]
    decreases |keys| - idx
  {
    var key := keys[idx];
    if |keys| == idx + 1 then
      if key in m then Err(DuplicateKey) else Ok(m[key := PValue(val)])
    else
      var node := if key in m then m[key] else PValue(None);
      match node
      case PValue(Some(_)) => Err(NotAMap)
      case PValue(None) =>
        var sub :- Insert(map[], keys, idx + 1, val);
        Ok(m[key := PMap(sub)])
      case PMap(sub) =>
        var sub' :- Insert(sub, keys, idx + 1, val);
        Ok(m[key := PMap(sub')])
  }

  // ---------------------------------------------------------------------
  // Properties of `insert`

  lemma PathCons(keys: seq<string>, idx: nat)
    requires idx < |keys|
    ensures keys[idx..][0] == keys[idx] && keys[idx..][1..] == keys[idx + 1..]
  {
  }

  lemma AtCons(m: map<string, PrefixNode>, k: string, rest: seq<string>)
    ensures At(PMap(m), [k] + rest) == if k in m then At(m[k], rest) else None
  {
    assert ([k] + rest)[0] == k && ([k] + rest)[1..] == rest;
  }

  lemma AtEmptyMap(q: seq<string>)
    requires q != []
    ensures At(PMap(map[]), q) == None
  {
  }

  /**
   * `insert` succeeds exactly when nothing is stored at the path yet and no
   * earlier segment names a non-null scalar.
   */
  lemma {:induction false} InsertOk(m: map<string, PrefixNode>, keys: seq<string>, idx: nat, val: Option<Value>)
    requires idx < |keys|
    ensures Insert(m, keys, idx, val).Ok? <==>
      At(PMap(m), keys[idx..]).None? && Passable(PMap(m), keys[idx..])
    ensures Insert(m, keys, idx, val) == Err(DuplicateKey) <==> At(PMap(m), keys[idx..]).Some?
    decreases |keys| - idx
  {
    var path := keys[idx..];
    var key := keys[idx];
    PathCons(keys, idx);
    assert path == [key] + keys[idx + 1..];
    AtCons(m, key, keys[idx + 1..]);
    var rest := keys[idx + 1..];
    if |keys| == idx + 1 {
      assert rest == [];
    } else {
      assert [key] + rest[..0] == path[..1];
      assert path[..1] == [key];
      AtCons(m, key, []);
      forall i | 1 < i < |path|
        ensures At(PMap(m), path[..i]) == (if key in m then At(m[key], rest[..i - 1]) else None)
      {
        assert path[..i] == [key] + rest[..i - 1];
        AtCons(m, key, rest[..i - 1]);
      }
      var node := if key in m then m[key] else PValue(None);
      match node
      case PValue(Some(_)) =>
        assert IsScalar(At(PMap(m), path[..1]));
      case PValue(None) =>
        InsertOk(map[], keys, idx + 1, val);
        AtEmptyMap(rest);
        forall i | 0 < i < |rest|
          ensures !IsScalar(At(PMap(map[]), rest[..i]))
        {
          AtEmptyMap(rest[..i]);
        }
        if key in m {
          assert At(PMap(m), path) == At(PValue(None), rest) == None;
          forall i | 1 < i < |path|
            ensures !IsScalar(At(PMap(m), path[..i]))
          {
            assert At(PValue(None), rest[..i - 1]) == None;
          }
        }
      case PMap(sub) =>
        InsertOk(sub, keys, idx + 1, val);
        assert At(PMap(m), path) == At(PMap(sub), rest);
        assert Passable(PMap(sub), rest) <==> Passable(PMap(m), path) by {
          forall i | 0 < i < |rest|
            ensures At(PMap(sub), rest[..i]) == At(PMap(m), path[..i + 1])
          {
          }
          if Passable(PMap(sub), rest) {
            forall i | 0 < i < |path|
              ensures !IsScalar(At(PMap(m), path[..i]))
            {
              if i > 1 {
                assert At(PMap(sub), rest[..i - 1]) == At(PMap(m), path[..i]);
              }
            }
          }
        }
    }
  }

  /** After `insert`, its path leads to the inserted value. */
  lemma {:induction false} InsertAt(m: map<string, PrefixNode>, keys: seq<string>, idx: nat, val: Option<Value>)
    requires idx < |keys|
    requires Insert(m, keys, idx, val).Ok?
    ensures At(PMap(Insert(m, keys, idx, val).value), keys[idx..]) == Some(PValue(val))
    decreases |keys| - idx
  {
    var r := Insert(m, keys, idx, val).value;
    var key := keys[idx];
    PathCons(keys, idx);
    assert keys[idx..] == [key] + keys[idx + 1..];
    AtCons(r, key, keys[idx + 1..]);
    if |keys| > idx + 1 {
      var node := if key in m then m[key] else PValue(None);
      match node
      case PValue(None) => InsertAt(map[], keys, idx + 1, val);
      case PMap(sub) => InsertAt(sub, keys, idx + 1, val);
    }
  }

  /** `insert` changes nothing off its path. */
  lemma {:induction false} InsertFrame(m: map<string, PrefixNode>, keys: seq<string>, idx: nat, val: Option<Value>, q: seq<string>)
    requires idx < |keys|
    requires Insert(m, keys, idx, val).Ok?
    requires !IsPrefix(q, keys[idx..])
    ensures At(PMap(Insert(m, keys, idx, val).value), q) == At(PMap(m), q)
    decreases |keys| - idx
  {
    var r := Insert(m, keys, idx, val).value;
    var key := keys[idx];
    assert q != [];
    assert q == [q[0]] + q[1..];
    AtCons(r, q[0], q[1..]);
    AtCons(m, q[0], q[1..]);
    if q[0] == key {
      PathCons(keys, idx);
      var rest := q[1..];
      assert !IsPrefix(rest, keys[idx + 1..]);
      if |keys| == idx + 1 {
        assert rest != [];
      } else {
        var node := if key in m then m[key] else PValue(None);
        match node
        case PValue(None) =>
          InsertFrame(map[], keys, idx + 1, val, rest);
          if rest != [] {
            AtEmptyMap(rest);
          }
        case PMap(sub) =>
          InsertFrame(sub, keys, idx + 1, val, rest);
      }
    }
  }

  /** Every segment before the last of the path leads to a map after `insert`. */
  lemma {:induction false} InsertAlong(m: map<string, PrefixNode>, keys: seq<string>, idx: nat, val: Option<Value>, i: nat)
    requires idx < |keys|
    requires Insert(m, keys, idx, val).Ok?
    requires i < |keys| - idx
    ensures var o := At(PMap(Insert(m, keys, idx, val).value), keys[idx..][..i]);
      o.Some? && o.value.PMap?
    decreases |keys| - idx
  {
    var r := Insert(m, keys, idx, val).value;
    var key := keys[idx];
    if i > 0 {
      PathCons(keys, idx);
      var path := keys[idx..];
      assert path[..i] == [key] + keys[idx + 1..][..i - 1];
      AtCons(r, key, keys[idx + 1..][..i - 1]);
      var node := if key in m then m[key] else PValue(None);
      match node
      case PValue(None) =>
        if i > 1 {
          InsertAlong(map[], keys, idx + 1, val, i - 1);
        }
      case PMap(sub) =>
        if i > 1 {
          InsertAlong(sub, keys, idx + 1, val, i - 1);
        }
    }
  }

  // ---------------------------------------------------------------------
  // `toPrefixMap`

  /** What a key's value became: the value itself, or, for a null, possibly a map built beneath it. */
  predicate Reaches(v: Option<Value>, o: Option<PrefixNode>) {
    o == Some(PValue(v)) || (v.None? && o.Some? && o.value.PMap?)
  }

  /**
   * `res` is what inserting the keys `done` of `raw` built: every key's
   * segments reach its value, every scalar sits at the segments of a key with
   * that value, and every path leads into the segments of some key.
   */
  ghost predicate Built(raw: map<string, Option<Value>>, done: set<string>, res: map<string, PrefixNode>)
    requires done <= raw.Keys
  {
    KeysReach(raw, done, res) && ScalarsFromKeys(raw, done, res) && PathsFromKeys(raw, done, res)
  }

  predicate KeysReach(raw: map<string, Option<Value>>, done: set<string>, res: map<string, PrefixNode>)
    requires done <= raw.Keys
  {
    forall k :: k in done ==> Reaches(raw[k], At(PMap(res), PathCodec.Segments(k)))
  }

  ghost predicate ScalarsFromKeys(raw: map<string, Option<Value>>, done: set<string>, res: map<string, PrefixNode>)
    requires done <= raw.Keys
  {
    forall q :: At(PMap(res), q).Some? && At(PMap(res), q).value.PValue? ==>
      exists k :: k in done && PathCodec.Segments(k) == q && Some(PValue(raw[k])) == At(PMap(res), q)
  }

  ghost predicate PathsFromKeys(raw: map<string, Option<Value>>, done: set<string>, res: map<string, PrefixNode>)
    requires done <= raw.Keys
  {
    forall q :: q != [] && At(PMap(res), q).Some? ==>
      exists k :: k in done && IsPrefix(q, PathCodec.Segments(k))
  }

  /** Every key's segments reach exactly its value. */
  predicate Exact(raw: map<string, Option<Value>>, done: set<string>, res: map<string, PrefixNode>)
    requires done <= raw.Keys
  {
    forall k :: k in done ==> At(PMap(res), PathCodec.Segments(k)) == Some(PValue(raw[k]))
  }

  /** No key's segments equal or begin another key's segments. */
  predicate NoCollisions(raw: map<string, Option<Value>>) {
    forall k1, k2 :: k1 in raw && k2 in raw && k1 != k2 ==>
      !IsPrefix(PathCodec.Segments(k1), PathCodec.Segments(k2))
  }

  /** Inserting one more key keeps `Built`. */
  lemma InsertBuilt(raw: map<string, Option<Value>>, done: set<string>, res: map<string, PrefixNode>, k: string)
    requires done <= raw.Keys && k in raw && k !in done
    requires Built(raw, done, res)
    requires Insert(res, PathCodec.Segments(k), 0, raw[k]).Ok?
    ensures Built(raw, done + {k}, Insert(res, PathCodec.Segments(k), 0, raw[k]).value)
    ensures NoCollisions(raw) && Exact(raw, done, res) ==>
      Exact(raw, done + {k}, Insert(res, PathCodec.Segments(k), 0, raw[k]).value)
  {
    var keys := PathCodec.Segments(k);
    var r := Insert(res, keys, 0, raw[k]).value;
    forall k' | k' in done + {k}
      ensures Reaches(raw[k'], At(PMap(r), PathCodec.Segments(k')))
      ensures NoCollisions(raw) && Exact(raw, done, res) ==>
        At(PMap(r), PathCodec.Segments(k')) == Some(PValue(raw[k']))
    {
      if k' == k {
        assert keys[0..] == keys;
        InsertAt(res, keys, 0, raw[k]);
      } else {
        InsertKeepsReach(res, keys, raw[k], PathCodec.Segments(k'), raw[k']);
      }
    }
    forall q | At(PMap(r), q).Some? && At(PMap(r), q).value.PValue?
      ensures exists k' :: k' in done + {k} && PathCodec.Segments(k') == q && Some(PValue(raw[k'])) == At(PMap(r), q)
    {
      InsertKeepsScalar(raw, done, res, k, q);
    }
    forall q | q != [] && At(PMap(r), q).Some?
      ensures exists k' :: k' in done + {k} && IsPrefix(q, PathCodec.Segments(k'))
    {
      if !IsPrefix(q, keys) {
        assert keys[0..] == keys;
        InsertFrame(res, keys, 0, raw[k], q);
      }
    }
  }

  /** A path that reached a value before `insert` still reaches it. */
  lemma InsertKeepsReach(res: map<string, PrefixNode>, keys: seq<string>, val: Option<Value>, s: seq<string>, v: Option<Value>)
    requires keys != []
    requires Insert(res, keys, 0, val).Ok?
    requires Reaches(v, At(PMap(res), s))
    ensures Reaches(v, At(PMap(Insert(res, keys, 0, val).value), s))
    ensures !IsPrefix(s, keys) ==> At(PMap(Insert(res, keys, 0, val).value), s) == At(PMap(res), s)
  {
    assert keys[0..] == keys;
    InsertOk(res, keys, 0, val);
    if s == keys {
      assert false;
    } else if !IsPrefix(s, keys) {
      InsertFrame(res, keys, 0, val, s);
    } else {
      assert |s| < |keys| && s == keys[..|s|];
      InsertAlong(res, keys, 0, val, |s|);
    }
  }

  lemma InsertKeepsScalar(raw: map<string, Option<Value>>, done: set<string>, res: map<string, PrefixNode>, k: string, q: seq<string>)
    requires done <= raw.Keys && k in raw && k !in done
    requires ScalarsFromKeys(raw, done, res)
    requires Insert(res, PathCodec.Segments(k), 0, raw[k]).Ok?
    requires var r := Insert(res, PathCodec.Segments(k), 0, raw[k]).value;
      At(PMap(r), q).Some? && At(PMap(r), q).value.PValue?
    ensures var r := Insert(res, PathCodec.Segments(k), 0, raw[k]).value;
      exists k' :: k' in done + {k} && PathCodec.Segments(k') == q && Some(PValue(raw[k'])) == At(PMap(r), q)
  {
    var keys := PathCodec.Segments(k);
    var val := raw[k];
    assert keys[0..] == keys;
    if !IsPrefix(q, keys) {
      InsertFrame(res, keys, 0, val, q);
    } else if |q| == |keys| {
      assert q == keys;
      InsertAt(res, keys, 0, val);
    } else {
      InsertAlong(res, keys, 0, val, |q|);
    }
  }

  /** Without collisions, the next key can always be inserted. */
  lemma InsertNoCollision(raw: map<string, Option<Value>>, done: set<string>, res: map<string, PrefixNode>, k: string)
    requires done <= raw.Keys && k in raw && k !in done
    requires Built(raw, done, res) && NoCollisions(raw)
    ensures Insert(res, PathCodec.Segments(k), 0, raw[k]).Ok?
  {
    var keys := PathCodec.Segments(k);
    assert keys[0..] == keys;
    InsertOk(res, keys, 0, raw[k]);
    forall i | 0 < i < |keys|
      ensures !IsScalar(At(PMap(res), keys[..i]))
    {
    }
  }

  /**
   * `toPrefixMap(rawConfig)`: the entries are taken in the map's unspecified
   * order, each key split into segments and inserted.
   */
  method ToPrefixMap(raw: map<string, Option<Value>>) returns (r: Result<map<string, PrefixNode>, InsertFault>)
    ensures r.Ok? ==> Built(raw, raw.Keys, r.value)
    ensures NoCollisions(raw) ==> r.Ok? && Exact(raw, raw.Keys, r.value)
  {
    var res: map<string, PrefixNode> := map[];
    var todo := raw.Keys;
    ghost var done: set<string> := {};
    while todo != {}
      invariant todo !! done && todo + done == raw.Keys
      invariant Built(raw, done, res)
      invariant NoCollisions(raw) ==> Exact(raw, done, res)
      decreases todo
    {
      var k :| k in todo;
      var keys := PathCodec.Split(k);
      ghost var plain := NoCollisions(raw);
      if plain {
        InsertNoCollision(raw, done, res, k);
      }
      var inserted := Insert(res, keys, 0, raw[k]);
      if inserted.Err? {
        return Err(inserted.error);
      }
      InsertBuilt(raw, done, res, k);
      res := inserted.value;
      todo := todo - {k};
      done := done + {k};
    }
    return Ok(res);
  }
}
