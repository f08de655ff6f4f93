/**
  Merging the parameters of query components: `deep_merge_into` and the fold over
  all components of a query.
 */
module ParameterMerge {
  import opened Wrappers

  type Key = string

  datatype Value =
    | Nil
    | Scalar(text: string)
    | List(items: seq<Value>)
    | Hash(entries: map<Key, Value>)

  // `Util.Array`
  function ToArray(v: Value): seq<Value> {
    match v
    case Nil => []
    case List(items) => items
    case _ => [v]
  }

  // The value of one key in the merge of two hashes.
  function MergeValue(left: Value, right: Value): Value
    decreases left, 1
  {
    if right == Nil || left == right then left
    else if !left.Hash? || !right.Hash? then List(ToArray(left) + ToArray(right))
    else Hash(Merge(left.entries, right.entries))
  }

  // `deep_merge`
  function Merge(left: map<Key, Value>, right: map<Key, Value>): (m: map<Key, Value>)
    ensures m.Keys == left.Keys + right.Keys
    ensures left == right || right == map[] ==> m == left
    ensures left == map[] ==> m == right
    decreases Hash(left), 0
  {
    map k | k in left.Keys + right.Keys ::
      if k in left then (if k in right then MergeValue(left[k], right[k]) else left[k]) else right[k]
  }

  // ---------------------------------------------------------------------------
  // Merging in place

  class HashObject {
    var entries: map<Key, Value>

    constructor (entries: map<Key, Value>)
      ensures this.entries == entries
    {
      this.entries := entries;
    }
  }

  // The value stored for a name that is in the left hash; nil stands for a name that
  // is not in the right one. A nested merge goes into a hash of its own.
  method ValueFor(leftValue: Value, rightValue: Value) returns (value: Value)
    ensures value == MergeValue(leftValue, rightValue)
    decreases leftValue, 2
  {
    if rightValue == Nil || leftValue == rightValue {
      value := leftValue;
    } else if !leftValue.Hash? || !rightValue.Hash? {
      value := List(ToArray(leftValue) + ToArray(rightValue));
    } else {
      var merged := new HashObject(map[]);
      var left := new HashObject(leftValue.entries);
      var right := new HashObject(rightValue.entries);
      DeepMergeInto(merged, left, right);
      assert map[] + Merge(leftValue.entries, rightValue.entries) == Merge(leftValue.entries, rightValue.entries);
      value := Hash(merged.entries);
    }
  }

  // The first half of a merge: every name of the left hash gets its value.
  method MergeNames(destination: HashObject, left: HashObject, right: HashObject)
    modifies destination
    ensures destination.entries.Keys == old(destination.entries.Keys) + old(left.entries.Keys)
    ensures forall k :: k in old(left.entries) ==>
              destination.entries[k] == Merge(old(left.entries), old(right.entries))[k]
    ensures forall k :: k in old(destination.entries) && k !in old(left.entries) ==>
              destination.entries[k] == old(destination.entries)[k]
    decreases Hash(left.entries), 0
  {
    ghost var d, l, r := destination.entries, left.entries, right.entries;
    var names := left.entries.Keys;
    ghost var done: set<Key> := {};
    while names != {}
      invariant done + names == l.Keys && done !! names
      invariant destination.entries.Keys == d.Keys + done
      invariant forall k :: k in done ==> destination.entries[k] == Merge(l, r)[k]
      invariant forall k :: k in d && k !in done ==> destination.entries[k] == d[k]
      decreases names
    {
      var name :| name in names;
      var rightValue := if name in right.entries then right.entries[name] else Nil;
      assert rightValue == if name in r then r[name] else Nil;
      var value := ValueFor(left.entries[name], rightValue);
      destination.entries := destination.entries[name := value];
      names, done := names - {name}, done + {name};
    }
  }

  // Merge two hashes into a third, which may be one of them. Nothing but the
  // destination changes.
  method DeepMergeInto(destination: HashObject, left: HashObject, right: HashObject)
    modifies destination
    ensures destination.entries == old(destination.entries) + Merge(old(left.entries), old(right.entries))
    decreases Hash(left.entries), 1
  {
    ghost var d, l, r := destination.entries, left.entries, right.entries;
    MergeNames(destination, left, right);
    var leftKeys := left.entries.Keys;
    var rest := map k | k in right.entries && k !in leftKeys :: right.entries[k];
    assert forall k :: k in rest <==> k in r && k !in l;
    MergeCompleted(d, l, r, destination.entries, rest);
    destination.entries := destination.entries + rest;
  }

  lemma MergeCompleted(d: map<Key, Value>, l: map<Key, Value>, r: map<Key, Value>,
                       merged: map<Key, Value>, rest: map<Key, Value>)
    requires merged.Keys == d.Keys + l.Keys
    requires forall k :: k in l ==> merged[k] == Merge(l, r)[k]
    requires forall k :: k in d && k !in l ==> merged[k] == d[k]
    requires forall k :: k in rest <==> k in r && k !in l
    requires forall k :: k in rest ==> rest[k] == r[k]
    ensures merged + rest == d + Merge(l, r)
  {
    var a, b := merged + rest, d + Merge(l, r);
    assert a.Keys == b.Keys;
    forall k | k in a ensures a[k] == b[k] {
      if k in rest {
        assert Merge(l, r)[k] == r[k];
      }
    }
  }

  // `deep_merge!`
  method DeepMergeInPlace(left: HashObject, right: HashObject)
    modifies left
    ensures left.entries == Merge(old(left.entries), old(right.entries))
  {
    DeepMergeInto(left, left, right);
    assert left.entries.Keys == old(left.entries).Keys + old(right.entries).Keys;
  }

  // `deep_merge`
  method DeepMerge(left: HashObject, right: HashObject) returns (merged: HashObject)
    ensures fresh(merged) && merged.entries == Merge(left.entries, right.entries)
    ensures left.entries == old(left.entries) && right.entries == old(right.entries)
  {
    merged := new HashObject(map[]);
    DeepMergeInto(merged, left, right);
    assert map[] + Merge(left.entries, right.entries) == Merge(left.entries, right.entries);
  }

  // ---------------------------------------------------------------------------
  // Nothing is lost and nothing is invented

  // Where parameters are: values at `Flat` places, hashes with fields of their own
  // at `Fields` places.
  datatype Schema = Flat | Fields(fields: map<Key, Schema>)

  predicate Conforms(v: Value, s: Schema)
    decreases v
  {
    match s
    case Flat => !v.Hash?
    case Fields(fields) =>
      v.Hash? && forall k :: k in v.entries ==> k in fields && Conforms(v.entries[k], fields[k])
  }

  // What a parameter stands for: nothing, one value, or several in a row.
  function Items(v: Value): seq<Value> {
    match v
    case Nil => []
    case Scalar(_) => [v]
    case List(items) => items
    case Hash(_) => [v]
  }

  // The values found at the end of a path of names.
  function ValuesAt(v: Value, path: seq<Key>): set<Value> {
    if path == [] then (if v.Hash? then {} else set x | x in Items(v))
    else if v.Hash? && path[0] in v.entries then ValuesAt(v.entries[path[0]], path[1..])
    else {}
  }

  /** Merging two values keeps the places of both and has, at every path, the values
      of both. */
  lemma {:induction false} MergeIsUnion(left: Value, right: Value, s: Schema, path: seq<Key>)
    requires Conforms(left, s) && Conforms(right, s)
    ensures Conforms(MergeValue(left, right), s)
    ensures ValuesAt(MergeValue(left, right), path) == ValuesAt(left, path) + ValuesAt(right, path)
    decreases left, 1
  {
    if right != Nil && left != right && s.Fields? {
      MergedHashIsUnion(left.entries, right.entries, s, path);
    }
  }

  lemma {:induction false} MergedHashIsUnion(left: map<Key, Value>, right: map<Key, Value>, s: Schema, path: seq<Key>)
    requires Conforms(Hash(left), s) && Conforms(Hash(right), s)
    ensures Conforms(Hash(Merge(left, right)), s)
    ensures ValuesAt(Hash(Merge(left, right)), path) == ValuesAt(Hash(left), path) + ValuesAt(Hash(right), path)
    decreases Hash(left), 0
  {
    var merged, rest := Merge(left, right), if path == [] then [] else path[1..];
    forall k | k in merged
      ensures Conforms(merged[k], s.fields[k])
      ensures k in left && k in right ==>
                ValuesAt(merged[k], rest) == ValuesAt(left[k], rest) + ValuesAt(right[k], rest)
    {
      if k in left && k in right {
        MergeIsUnion(left[k], right[k], s.fields[k], rest);
      }
    }
  }

  // The parameters of a query, component by component.
  function MergeAll(components: seq<map<Key, Value>>): map<Key, Value> {
    if components == [] then map[]
    else Merge(MergeAll(components[..|components| - 1]), components[|components| - 1])
  }

  predicate Contributed(components: seq<map<Key, Value>>, path: seq<Key>, x: Value) {
    exists i :: 0 <= i < |components| && x in ValuesAt(Hash(components[i]), path)
  }

  /** The parameters of a query have, at every path, exactly the values that some
      component contributes there. */
  lemma {:induction false} QueryKeepsEveryValue(components: seq<map<Key, Value>>, s: Schema, path: seq<Key>)
    requires s.Fields? && forall i :: 0 <= i < |components| ==> Conforms(Hash(components[i]), s)
    ensures Conforms(Hash(MergeAll(components)), s)
    ensures forall x :: x in ValuesAt(Hash(MergeAll(components)), path) <==> Contributed(components, path, x)
  {
    if components != [] {
      var n := |components| - 1;
      var before := components[..n];
      QueryKeepsEveryValue(before, s, path);
      MergedHashIsUnion(MergeAll(before), components[n], s, path);
      forall x ensures Contributed(components, path, x) <==>
        Contributed(before, path, x) || x in ValuesAt(Hash(components[n]), path)
      {
        if i :| 0 <= i < n && x in ValuesAt(Hash(before[i]), path) {
          assert x in ValuesAt(Hash(components[i]), path);
        }
        if i :| 0 <= i < n && x in ValuesAt(Hash(components[i]), path) {
          assert x in ValuesAt(Hash(before[i]), path);
        }
      }
    }
  }

  // Two strings become a list of both, in order; a string joins a list at its end or its
  // start; nil adds nothing, and neither does the same value again.
  lemma StringsAndLists(a: string, b: string, items: seq<Value>)
    requires a != b
    ensures MergeValue(Scalar(a), Scalar(b)) == List([Scalar(a), Scalar(b)])
    ensures MergeValue(List(items), Scalar(b)) == List(items + [Scalar(b)])
    ensures MergeValue(Scalar(a), List(items)) == List([Scalar(a)] + items)
    ensures MergeValue(Nil, Scalar(b)) == List([Scalar(b)]) && MergeValue(Scalar(a), Nil) == Scalar(a)
    ensures MergeValue(Scalar(a), Scalar(a)) == Scalar(a)
  {
    assert [Scalar(a)] + [Scalar(b)] == [Scalar(a), Scalar(b)] && [] + [Scalar(b)] == [Scalar(b)];
  }

  // ---------------------------------------------------------------------------
  // Nothing changes its place

  // The value at the end of a path of names, if there is one.
  function ValueAt(v: Value, path: seq<Key>): Option<Value> {
    if path == [] then Some(v)
    else if v.Hash? && path[0] in v.entries then ValueAt(v.entries[path[0]], path[1..])
    else None
  }

  predicate EndsFlat(s: Schema, path: seq<Key>)
    decreases |path|
  {
    if path == [] then s.Flat? else s.Fields? && path[0] in s.fields && EndsFlat(s.fields[path[0]], path[1..])
  }

  // What a contribution makes of the value so far: its items go behind those that are
  // there, unless it is nil or the same value again.
  function Extended(before: Option<Value>, next: Option<Value>): Option<Value> {
    if before.None? then next
    else if next.None? || next.value == Nil || next == before then before
    else Some(List(Items(before.value) + Items(next.value)))
  }

  // Looking up a merge is extending what is looked up on its left.
  lemma {:induction false} MergeExtends(left: Value, right: Value, s: Schema, path: seq<Key>)
    requires Conforms(left, s) && Conforms(right, s) && EndsFlat(s, path)
    ensures ValueAt(MergeValue(left, right), path) == Extended(ValueAt(left, path), ValueAt(right, path))
    decreases left, 1
  {
    if path != [] && left != right {
      MergedHashExtends(left.entries, right.entries, s, path);
    }
  }

  lemma {:induction false} MergedHashExtends(left: map<Key, Value>, right: map<Key, Value>, s: Schema, path: seq<Key>)
    requires Conforms(Hash(left), s) && Conforms(Hash(right), s) && EndsFlat(s, path)
    ensures ValueAt(Hash(Merge(left, right)), path) == Extended(ValueAt(Hash(left), path), ValueAt(Hash(right), path))
    decreases Hash(left), 0
  {
    var k := path[0];
    if k in left && k in right {
      MergeExtends(left[k], right[k], s.fields[k], path[1..]);
    }
  }

  // The values that components contribute at a path, one after the other.
  function Accumulated(components: seq<map<Key, Value>>, path: seq<Key>): Option<Value> {
    if components == [] then None
    else
      var n := |components| - 1;
      Extended(Accumulated(components[..n], path), ValueAt(Hash(components[n]), path))
  }

  /** What a query has at a path is what its components contribute there, in the order of
      the components. */
  lemma {:induction false} QueryKeepsOrder(components: seq<map<Key, Value>>, s: Schema, path: seq<Key>)
    requires forall i :: 0 <= i < |components| ==> Conforms(Hash(components[i]), s)
    requires path != [] && EndsFlat(s, path)
    ensures ValueAt(Hash(MergeAll(components)), path) == Accumulated(components, path)
  {
    if components != [] {
      var n := |components| - 1;
      QueryKeepsEveryValue(components[..n], s, []);
      QueryKeepsOrder(components[..n], s, path);
      MergedHashExtends(MergeAll(components[..n]), components[n], s, path);
    }
  }

  function ItemsAt(v: Option<Value>): seq<Value> {
    if v.None? then [] else Items(v.value)
  }

  // The items of all contributions at a path, in order.
  function AllItems(components: seq<map<Key, Value>>, path: seq<Key>): seq<Value> {
    if components == [] then []
    else
      var n := |components| - 1;
      AllItems(components[..n], path) + ItemsAt(ValueAt(Hash(components[n]), path))
  }

  // No component contributes just what is there already.
  predicate NoneRepeats(components: seq<map<Key, Value>>, path: seq<Key>) {
    components == [] ||
    var n := |components| - 1;
    var next := ValueAt(Hash(components[n]), path);
    && NoneRepeats(components[..n], path)
    && (ItemsAt(next) != [] ==> next != Accumulated(components[..n], path))
  }

  lemma ExtendedItems(before: Option<Value>, next: Option<Value>)
    ensures ItemsAt(Extended(before, next)) ==
            if before == next then ItemsAt(before) else ItemsAt(before) + ItemsAt(next)
  {
    assert ItemsAt(before) + [] == ItemsAt(before) && [] + ItemsAt(next) == ItemsAt(next);
  }

  // A contribution that repeats what is there makes the list shorter for good.
  lemma {:induction false} ItemsCounted(components: seq<map<Key, Value>>, path: seq<Key>)
    ensures if NoneRepeats(components, path)
            then ItemsAt(Accumulated(components, path)) == AllItems(components, path)
            else |ItemsAt(Accumulated(components, path))| < |AllItems(components, path)|
  {
    if components != [] {
      var n := |components| - 1;
      var before, next := Accumulated(components[..n], path), ValueAt(Hash(components[n]), path);
      ItemsCounted(components[..n], path);
      ExtendedItems(before, next);
      assert ItemsAt(before) + [] == ItemsAt(before);
    }
  }

  /** The items of a query at a path are those of all contributions in a row if and only
      if no component contributes just what is there already. */
  lemma ItemsInARow(components: seq<map<Key, Value>>, s: Schema, path: seq<Key>)
    requires forall i :: 0 <= i < |components| ==> Conforms(Hash(components[i]), s)
    requires path != [] && EndsFlat(s, path)
    ensures ItemsAt(ValueAt(Hash(MergeAll(components)), path)) == AllItems(components, path) <==>
              NoneRepeats(components, path)
  {
    QueryKeepsOrder(components, s, path);
    ItemsCounted(components, path);
  }

  // A block given to `adjust_solr_params`, which may do anything to the parameters.
  type Adjustment = map<Key, Value> -> map<Key, Value>

  // The parameters after the first n adjustments.
  function Adjusted(params: map<Key, Value>, adjustments: seq<Adjustment>, n: nat): map<Key, Value>
    requires n <= |adjustments|
  {
    if n == 0 then params else adjustments[n - 1](Adjusted(params, adjustments, n - 1))
  }

  // `CommonQuery#to_params`: merge, adjust, and ask for everything if there is no query.
  method ToParams(components: seq<map<Key, Value>>, adjustments: seq<Adjustment>) returns (params: HashObject)
    ensures fresh(params)
    ensures var adjusted := Adjusted(MergeAll(components), adjustments, |adjustments|);
            params.entries ==
              if "q" in adjusted && adjusted["q"] != Nil then adjusted else adjusted["q" := Scalar("*:*")]
  {
    params := new HashObject(map[]);
    for i := 0 to |components|
      invariant fresh(params) && params.entries == MergeAll(components[..i])
    {
      var component := new HashObject(components[i]);
      DeepMergeInPlace(params, component);
      assert components[..i + 1][..i] == components[..i];
    }
    assert components[..|components|] == components;
    for i := 0 to |adjustments|
      invariant fresh(params) && params.entries == Adjusted(MergeAll(components), adjustments, i)
    {
      params.entries := adjustments[i](params.entries);
    }
    if "q" !in params.entries || params.entries["q"] == Nil {
      params.entries := params.entries["q" := Scalar("*:*")];
    }
  }
}
