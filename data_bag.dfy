/**
 * A variant's data bag: the open-ended YAML tree handed to the templates, and
 * the path-creating traversal `UpdateAndGetMapElementByPath` of
 * utils/helpers.go. Go maps are references, so the Go function inserts into
 * the caller's map while it recurses and returns the nested map itself; here
 * the tree is a value, so the traversal returns the updated tree together with
 * the map it reached, and `PutAt` writes into that map inside the tree.
 */
module DataBag {
  import opened Wrappers

  /** A decoded YAML value: a mapping, a string, or anything else (number,
      boolean, list, null), which the traversal only ever treats as "not a
      map". */
  datatype Value = Map(entries: map<string, Value>) | Str(s: string) | Other

  type Bag = map<string, Value>

  /** The value reached from `v` by following `path`, if every step is a map
      holding the next key. */
  function Lookup(v: Value, path: seq<string>): Option<Value>
  {
    if path == [] then Some(v)
    else if v.Map? && path[0] in v.entries then Lookup(v.entries[path[0]], path[1..])
    else None
  }

  /** Following `path` through `m` meets an existing value that is not a map:
      every key before it holds a map. */
  predicate Blocked(m: Bag, path: seq<string>)
    decreases |path|
  {
    |path| > 0 && path[0] in m &&
    match m[path[0]]
    case Map(nested) => Blocked(nested, path[1..])
    case _ => true
  }

  /** `b` keeps everything `a` has: scalars stay as they are, and a map stays
      a map that keeps every entry (it may gain new ones). */
  predicate Preserves(a: Value, b: Value)
  {
    match a
    case Map(ea) => b.Map? && forall k :: k in ea ==> k in b.entries && Preserves(ea[k], b.entries[k])
    case _ => b == a
  }

  /** Two paths part ways: at some position both have a key and the keys differ. */
  predicate Diverges(p: seq<string>, q: seq<string>)
  {
    |p| > 0 && |q| > 0 && (p[0] != q[0] || Diverges(p[1..], q[1..]))
  }

  /** The outcome of the traversal: the tree after the insertions, and the map
      reached (`None` stands for Go's nil). */
  datatype Traversal = Traversal(structure: Bag, reached: Option<Bag>)

  /** utils/helpers.go:305-326. An empty path gives the map itself. Otherwise a
      missing first key gets a fresh empty map, and the walk goes on in the
      map under that key; an existing value that is not a map ends the walk
      with nil. */
  function UpdateAndGetMapElementByPath(structure: Bag, keyPath: seq<string>): (r: Traversal)
    ensures r.reached.None? <==> Blocked(structure, keyPath)
    ensures r.reached.None? ==> r.structure == structure
    ensures r.reached.Some? ==> Lookup(Map(r.structure), keyPath) == Some(Map(r.reached.value))
    ensures keyPath != [] ==> r.structure.Keys == structure.Keys + {keyPath[0]}
    ensures forall k :: k in structure && (keyPath == [] || k != keyPath[0]) ==> k in r.structure && r.structure[k] == structure[k]
    decreases |keyPath|
  {
    if |keyPath| == 0 then Traversal(structure, Some(structure))
    else
      var key := keyPath[0];
      var val := if key in structure then structure[key] else Map(map[]);
      var inserted := structure[key := val];
      match val
      case Map(nested) =>
        var sub := UpdateAndGetMapElementByPath(nested, keyPath[1..]);
        Traversal(inserted[key := Map(sub.structure)], sub.reached)
      case _ => Traversal(inserted, None)
  }

  /** Go's `elem[lastKey] = val` on the map found at `path`: the tree with
      `key` set to `v` in that map. Paths that do not lead to a map leave the
      tree as it is (the callers only use paths the traversal has just made). */
  function PutAt(m: Bag, path: seq<string>, key: string, v: Value): Bag
    decreases |path|
  {
    if path == [] then m[key := v]
    else if path[0] in m && m[path[0]].Map? then
      m[path[0] := Map(PutAt(m[path[0]].entries, path[1..], key, v))]
    else m
  }

  /** Reference definition of a nested assignment: `v` stored under the last
      key of `path`, in the map reached by the other keys, missing maps being
      created on the way; `None` when an existing non-map value is in the way. */
  function Assign(m: Bag, path: seq<string>, v: Value): Option<Bag>
    requires path != []
    decreases |path|
  {
    if |path| == 1 then Some(m[path[0] := v])
    else
      var child := if path[0] in m then m[path[0]] else Map(map[]);
      if !child.Map? then None
      else
        match Assign(child.entries, path[1..], v)
        case Some(c) => Some(m[path[0] := Map(c)])
        case None => None
  }

  lemma {:induction false} PreservesReflexive(v: Value)
    ensures Preserves(v, v)
  {
    match v
    case Map(e) =>
      forall k | k in e ensures Preserves(e[k], e[k]) {
        PreservesReflexive(e[k]);
      }
    case _ =>
  }

  /** The traversal never overwrites anything: every existing entry of the
      tree is still there afterwards, maps still maps. */
  lemma {:induction false} TraversalPreserves(structure: Bag, keyPath: seq<string>)
    ensures Preserves(Map(structure), Map(UpdateAndGetMapElementByPath(structure, keyPath).structure))
    decreases |keyPath|
  {
    var r := UpdateAndGetMapElementByPath(structure, keyPath);
    forall k | k in structure
      ensures k in r.structure && Preserves(structure[k], r.structure[k])
    {
      if keyPath != [] && k == keyPath[0] && structure[k].Map? {
        TraversalPreserves(structure[k].entries, keyPath[1..]);
      } else {
        PreservesReflexive(structure[k]);
      }
    }
  }

  /** When the whole path already leads to a map, the traversal inserts
      nothing and returns that map; when it does not and nothing blocks it,
      the map returned is a fresh empty one. */
  lemma {:induction false} TraversalReachedMap(structure: Bag, keyPath: seq<string>)
    ensures var r := UpdateAndGetMapElementByPath(structure, keyPath);
            var found := Lookup(Map(structure), keyPath);
            && (found.Some? && found.value.Map? ==> r == Traversal(structure, Some(found.value.entries)))
            && (found.None? && !Blocked(structure, keyPath) ==> r.reached == Some(map[]))
    decreases |keyPath|
  {
    if keyPath != [] {
      var key := keyPath[0];
      if key in structure {
        if structure[key].Map? {
          TraversalReachedMap(structure[key].entries, keyPath[1..]);
          var sub := UpdateAndGetMapElementByPath(structure[key].entries, keyPath[1..]);
          if sub.structure == structure[key].entries {
            assert structure[key := Map(sub.structure)] == structure;
          }
        }
      } else {
        EmptyTraversal(keyPath[1..]);
      }
    }
  }

  /** Below a freshly inserted empty map every key is missing, so the walk
      ends in an empty map. */
  lemma {:induction false} EmptyTraversal(keyPath: seq<string>)
    ensures UpdateAndGetMapElementByPath(map[], keyPath).reached == Some(map[])
    decreases |keyPath|
  {
    if keyPath != [] {
      EmptyTraversal(keyPath[1..]);
    }
  }

  /** The Go sequence "walk to the parent map, then assign the last key into
      it" is the nested assignment `Assign`: it succeeds exactly when the
      traversal reaches a map, and then writes the same tree. */
  lemma {:induction false} TraverseThenPutIsAssign(m: Bag, parent: seq<string>, key: string, v: Value)
    ensures var t := UpdateAndGetMapElementByPath(m, parent);
            Assign(m, parent + [key], v) == if t.reached.Some? then Some(PutAt(t.structure, parent, key, v)) else None
    decreases |parent|
  {
    if parent != [] {
      var k := parent[0];
      var child := if k in m then m[k] else Map(map[]);
      AssignStep(m, parent, key, v);
      TraversalStep(m, parent);
      if child.Map? {
        TraverseThenPutIsAssign(child.entries, parent[1..], key, v);
        var sub := UpdateAndGetMapElementByPath(child.entries, parent[1..]);
        if sub.reached.Some? {
          PutAtStep(m, sub.structure, parent, key, v);
        }
      }
    }
  }

  /** `Assign` on `parent + [key]`, unfolded once. */
  lemma AssignStep(m: Bag, parent: seq<string>, key: string, v: Value)
    requires parent != []
    ensures var k := parent[0];
            var child := if k in m then m[k] else Map(map[]);
            Assign(m, parent + [key], v) ==
              if !child.Map? then None
              else match Assign(child.entries, parent[1..] + [key], v)
                   case Some(c) => Some(m[k := Map(c)])
                   case None => None
  {
    assert (parent + [key])[0] == parent[0];
    assert (parent + [key])[1..] == parent[1..] + [key];
  }

  /** The traversal along `parent`, unfolded once. */
  lemma TraversalStep(m: Bag, parent: seq<string>)
    requires parent != []
    ensures var k := parent[0];
            var child := if k in m then m[k] else Map(map[]);
            var t := UpdateAndGetMapElementByPath(m, parent);
            && (!child.Map? ==> t.reached.None?)
            && (child.Map? ==>
                  var sub := UpdateAndGetMapElementByPath(child.entries, parent[1..]);
                  t.structure == m[k := Map(sub.structure)] && t.reached == sub.reached)
  {
    var k := parent[0];
    var child := if k in m then m[k] else Map(map[]);
    assert m[k := child][k := Map(map[])] == m[k := Map(map[])];
    if child.Map? {
      var sub := UpdateAndGetMapElementByPath(child.entries, parent[1..]);
      assert m[k := child][k := Map(sub.structure)] == m[k := Map(sub.structure)];
    }
  }

  /** `PutAt` along `parent`, through a tree whose first key holds a map. */
  lemma PutAtStep(m: Bag, nested: Bag, parent: seq<string>, key: string, v: Value)
    requires parent != []
    ensures PutAt(m[parent[0] := Map(nested)], parent, key, v) == m[parent[0] := Map(PutAt(nested, parent[1..], key, v))]
  {
  }

  /** An assignment fails exactly when an existing non-map value lies on the
      way to the last key. */
  lemma {:induction false} AssignFailsWhenBlocked(m: Bag, path: seq<string>, v: Value)
    requires path != []
    ensures Assign(m, path, v).None? <==> Blocked(m, path[..|path| - 1])
  {
    var parent := path[..|path| - 1];
    assert path == parent + [path[|path| - 1]];
    TraverseThenPutIsAssign(m, parent, path[|path| - 1], v);
  }

  /** After an assignment the value is found at its path. */
  lemma {:induction false} AssignReadBack(m: Bag, path: seq<string>, v: Value)
    requires path != [] && Assign(m, path, v).Some?
    ensures Lookup(Map(Assign(m, path, v).value), path) == Some(v)
    decreases |path|
  {
    if |path| > 1 {
      var child := if path[0] in m then m[path[0]] else Map(map[]);
      AssignReadBack(child.entries, path[1..], v);
    }
  }

  /** An assignment changes nothing that lies off its path: every path that
      parts ways with it looks up the same value as before. */
  lemma {:induction false} AssignLeavesOtherPaths(m: Bag, path: seq<string>, v: Value, q: seq<string>)
    requires path != [] && Assign(m, path, v).Some? && Diverges(path, q)
    ensures Lookup(Map(Assign(m, path, v).value), q) == Lookup(Map(m), q)
    decreases |path|
  {
    var m' := Assign(m, path, v).value;
    if path[0] == q[0] {
      var child := if path[0] in m then m[path[0]] else Map(map[]);
      AssignLeavesOtherPaths(child.entries, path[1..], v, q[1..]);
      if path[0] !in m {
        NothingInEmpty(q[1..]);
        EmptyAssignHasOnlyPath(path[1..], v, q[1..]);
      }
    }
  }

  lemma NothingInEmpty(q: seq<string>)
    requires q != []
    ensures Lookup(Map(map[]), q) == None
  {
  }

  /** A tree built by assigning into an empty map holds nothing off the path. */
  lemma {:induction false} EmptyAssignHasOnlyPath(path: seq<string>, v: Value, q: seq<string>)
    requires path != [] && Assign(map[], path, v).Some? && Diverges(path, q)
    ensures Lookup(Map(Assign(map[], path, v).value), q) == None
    decreases |path|
  {
    if path[0] == q[0] && |path| > 1 {
      EmptyAssignHasOnlyPath(path[1..], v, q[1..]);
    }
  }
}
