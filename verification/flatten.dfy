/** Recursive flattening of nested dicts into one level (`flatten_dict`),
    with a pluggable strategy that merges a parent key and a child key. */
module Flatten {
  import opened Wrappers
  import opened Values
  import opened Records

  /** A key-merge strategy: (parent key or None, child key) to merged key. */
  type KeyMerger = (Option<string>, string) -> string

  /** `DefaultKeyMergerStrategy.apply`: a falsy parent (None or the empty
      string) leaves the key as it is; otherwise the camelized key is
      appended to the parent (`type` + `id` gives `typeId`). */
  function MergeKey(camelize: string -> string, parent: Option<string>, key: string): (r: string)
    ensures parent == None || parent == Some("") ==> r == key
    ensures parent.Some? && parent.value != "" ==>
              |parent.value| <= |r| && r[..|parent.value|] == parent.value && r[|parent.value|..] == camelize(key)
  {
    if parent.Some? && parent.value != "" then parent.value + camelize(key) else key
  }

  function DefaultMerger(camelize: string -> string): KeyMerger {
    (parent, key) => MergeKey(camelize, parent, key)
  }

  /** `flatten_dict(d, parent, merge)`: the pairs the traversal emits, made
      into a dict. */
  function FlattenDict(d: Record, parent: Option<string>, merge: KeyMerger): (r: Record)
    ensures UniqueKeys(r)
    ensures Flat(r)
    decreases d, 1
  {
    FromItems(FlattenItems(d, parent, merge))
  }

  /** The pairs emitted for the entries of `d`, in order: a nested dict
      contributes the items of its own flattened dict, anything else one
      pair under its merged key. */
  function FlattenItems(d: Record, parent: Option<string>, merge: KeyMerger): (r: seq<Entry>)
    ensures forall e :: e in r ==> !e.value.Dict?
    decreases d, 0
  {
    if |d| == 0 then []
    else
      var key := merge(parent, d[0].key);
      var head := if d[0].value.Dict? then FlattenDict(d[0].value.entries, Some(key), merge)
                  else [Entry(key, d[0].value)];
      var rest := FlattenItems(d[1..], parent, merge);
      assert forall e :: e in head + rest ==> e in head || e in rest;
      head + rest
  }

  /** Reference semantics: every leaf of the tree (every value that is not
      a dict, lists included) under the merged key of its path, in
      depth-first order. */
  function Leaves(d: Record, parent: Option<string>, merge: KeyMerger): seq<Entry>
    decreases d
  {
    if |d| == 0 then []
    else
      var key := merge(parent, d[0].key);
      (if d[0].value.Dict? then Leaves(d[0].value.entries, Some(key), merge)
       else [Entry(key, d[0].value)])
      + Leaves(d[1..], parent, merge)
  }

  lemma {:induction false} FlattenItemsLookup(d: Record, parent: Option<string>, merge: KeyMerger, k: string)
    ensures Get(FlattenItems(d, parent, merge), k) == Get(Leaves(d, parent, merge), k)
    decreases d
  {
    if |d| > 0 {
      var key := merge(parent, d[0].key);
      var tail, tail' := FlattenItems(d[1..], parent, merge), Leaves(d[1..], parent, merge);
      FlattenItemsLookup(d[1..], parent, merge, k);
      if d[0].value.Dict? {
        var child := d[0].value.entries;
        FlattenItemsLookup(child, Some(key), merge, k);
        GetConcat(FlattenDict(child, Some(key), merge), tail, k);
        GetConcat(Leaves(child, Some(key), merge), tail', k);
      } else {
        GetConcat([Entry(key, d[0].value)], tail, k);
        GetConcat([Entry(key, d[0].value)], tail', k);
      }
    }
  }

  /** Flattening keeps every leaf: a key is present exactly when some leaf's
      path merges to it, and it holds the value of the LAST such leaf in
      depth-first order (later writes win). */
  lemma FlattenLookup(d: Record, parent: Option<string>, merge: KeyMerger)
    ensures forall k :: Get(FlattenDict(d, parent, merge), k) == Get(Leaves(d, parent, merge), k)
    ensures forall k :: k in Keys(FlattenDict(d, parent, merge)) <==> k in Keys(Leaves(d, parent, merge))
  {
    forall k ensures Get(FlattenDict(d, parent, merge), k) == Get(Leaves(d, parent, merge), k) {
      FlattenItemsLookup(d, parent, merge, k);
    }
  }

  /** Updating a dict with the emitted pairs is updating it with the
      leaves: the nested `dict(...)` calls lose nothing that the outer one
      would keep. */
  lemma {:induction false} FlattenItemsExtend(acc: Record, d: Record, parent: Option<string>, merge: KeyMerger)
    requires UniqueKeys(acc)
    ensures Extend(acc, FlattenItems(d, parent, merge)) == Extend(acc, Leaves(d, parent, merge))
    decreases d
  {
    if |d| > 0 {
      var key := merge(parent, d[0].key);
      var tail, tail' := FlattenItems(d[1..], parent, merge), Leaves(d[1..], parent, merge);
      var head := if d[0].value.Dict? then FlattenDict(d[0].value.entries, Some(key), merge)
                  else [Entry(key, d[0].value)];
      var head' := if d[0].value.Dict? then Leaves(d[0].value.entries, Some(key), merge)
                   else [Entry(key, d[0].value)];
      assert Extend(acc, head) == Extend(acc, head') by {
        if d[0].value.Dict? {
          var child := d[0].value.entries;
          ExtendFromItems(acc, FlattenItems(child, Some(key), merge));
          FlattenItemsExtend(acc, child, Some(key), merge);
        }
      }
      ExtendConcat(acc, head, tail);
      ExtendConcat(acc, head', tail');
      FlattenItemsExtend(Extend(acc, head'), d[1..], parent, merge);
    }
  }

  /** `flatten_dict` is `dict(...)` of the leaves in depth-first order: on
      a collision the key keeps the position of its FIRST leaf and the
      value of its LAST. */
  lemma FlattenAsLeaves(d: Record, parent: Option<string>, merge: KeyMerger)
    ensures FlattenDict(d, parent, merge) == FromItems(Leaves(d, parent, merge))
    ensures Keys(FlattenDict(d, parent, merge)) == Fresh({}, Keys(Leaves(d, parent, merge)))
  {
    FlattenItemsExtend([], d, parent, merge);
    ExtendKeys([], Leaves(d, parent, merge));
    assert KeySet([]) == {};
  }

  lemma UniqueSplit(a: Record, b: Record)
    requires UniqueKeys(a + b)
    ensures UniqueKeys(a) && UniqueKeys(b)
  {
    forall i, j | 0 <= i < j < |b| ensures b[i].key != b[j].key {
      assert b[i] == (a + b)[|a| + i] && b[j] == (a + b)[|a| + j];
    }
    forall i, j | 0 <= i < j < |a| ensures a[i].key != a[j].key {
      assert a[i] == (a + b)[i] && a[j] == (a + b)[j];
    }
  }

  lemma {:induction false} FlattenItemsDistinct(d: Record, parent: Option<string>, merge: KeyMerger)
    requires UniqueKeys(Leaves(d, parent, merge))
    ensures FlattenItems(d, parent, merge) == Leaves(d, parent, merge)
    decreases d
  {
    if |d| > 0 {
      var key := merge(parent, d[0].key);
      var head' := if d[0].value.Dict? then Leaves(d[0].value.entries, Some(key), merge)
                   else [Entry(key, d[0].value)];
      UniqueSplit(head', Leaves(d[1..], parent, merge));
      FlattenItemsDistinct(d[1..], parent, merge);
      if d[0].value.Dict? {
        FlattenItemsDistinct(d[0].value.entries, Some(key), merge);
        FromItemsDistinct(head');
      }
    }
  }

  /** When no two leaf paths merge to the same key, the flattened dict is
      exactly the leaves, in depth-first order: nothing is lost and nothing
      is reordered. */
  lemma FlattenDistinct(d: Record, parent: Option<string>, merge: KeyMerger)
    requires UniqueKeys(Leaves(d, parent, merge))
    ensures FlattenDict(d, parent, merge) == Leaves(d, parent, merge)
  {
    FlattenItemsDistinct(d, parent, merge);
    FromItemsDistinct(Leaves(d, parent, merge));
  }

  lemma {:induction false} LeavesOfFlat(d: Record, camelize: string -> string)
    requires Flat(d)
    ensures Leaves(d, None, DefaultMerger(camelize)) == d
    decreases d
  {
    if |d| > 0 {
      assert !d[0].value.Dict?;
      LeavesOfFlat(d[1..], camelize);
      assert [d[0]] + d[1..] == d;
    }
  }

  /** With the default strategy a dict that holds no dicts flattens to
      itself, so flattening twice is flattening once. */
  lemma FlattenIdempotent(d: Record, camelize: string -> string)
    ensures var once := FlattenDict(d, None, DefaultMerger(camelize));
            FlattenDict(once, None, DefaultMerger(camelize)) == once
  {
    var once := FlattenDict(d, None, DefaultMerger(camelize));
    LeavesOfFlat(once, camelize);
    FlattenDistinct(once, None, DefaultMerger(camelize));
  }
}
