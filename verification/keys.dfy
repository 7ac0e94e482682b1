/** The three key-normalisation stages: snake-casing every key
    (`pep8_compliant_keys`), renaming `(old, new)` pairs (`rename_keys`) and
    deleting keys (`remove_keys`). */
module KeyNormalizer {
  import opened Wrappers
  import opened Values
  import opened Records

  /** The entries of `d` with `f` applied to every key. */
  function MapKeys(d: Record, f: string -> string): (r: seq<Entry>)
    ensures |r| == |d|
    ensures forall i :: 0 <= i < |d| ==> r[i] == Entry(f(d[i].key), d[i].value)
  {
    if |d| == 0 then [] else [Entry(f(d[0].key), d[0].value)] + MapKeys(d[1..], f)
  }

  /** `pep8_compliant_keys`: the dict comprehension
      `{underscore(k): v for k, v in d.items()}`. */
  function Pep8Keys(d: Record, underscore: string -> string): (r: Record)
    ensures UniqueKeys(r)
    ensures forall k :: k in Keys(r) <==> exists i :: 0 <= i < |d| && underscore(d[i].key) == k
    ensures Flat(d) ==> Flat(r)
  {
    var items := MapKeys(d, underscore);
    var r := FromItems(items);
    assert forall k :: k in Keys(items) <==> exists i :: 0 <= i < |d| && underscore(d[i].key) == k by {
      assert forall i :: 0 <= i < |d| ==> Keys(items)[i] == underscore(d[i].key);
    }
    assert Flat(d) ==> Flat(r) by {
      if Flat(d) {
        forall i | 0 <= i < |r| ensures !r[i].value.Dict? {
          assert r[i] in items;
          var j :| 0 <= j < |items| && items[j] == r[i];
        }
      }
    }
    r
  }

  /** Snake-casing keeps every value: the value of key `k` is that of the
      last entry whose key snake-cases to `k` (a collision keeps the later
      entry, as the comprehension does). */
  lemma Pep8KeysValue(d: Record, underscore: string -> string, i: int)
    requires 0 <= i < |d|
    requires forall j :: i < j < |d| ==> underscore(d[j].key) != underscore(d[i].key)
    ensures Get(Pep8Keys(d, underscore), underscore(d[i].key)) == Some(d[i].value)
  {
    var items := MapKeys(d, underscore);
    var k := underscore(d[i].key);
    assert Keys(items)[i] == k;
    var v := Get(items, k);
    var i' :| 0 <= i' < |items| && items[i'] == Entry(k, v.value) &&
              forall j :: i' < j < |items| ==> items[j].key != k;
    assert i' == i;
  }

  /** A dict whose keys are already snake-case comes back unchanged. */
  lemma Pep8KeysIdentity(d: Record, underscore: string -> string)
    requires UniqueKeys(d)
    requires forall i :: 0 <= i < |d| ==> underscore(d[i].key) == d[i].key
    ensures Pep8Keys(d, underscore) == d
  {
    assert MapKeys(d, underscore) == d;
    FromItemsDistinct(d);
  }

  /** The value `rename_keys` moves for a pair: `d.pop(source, None)`. */
  function Popped(d: Record, source: string): (v: Value)
    ensures source in Keys(d) ==> Get(d, source) == Some(v)
    ensures source !in Keys(d) ==> v == NoneValue
  {
    Get(d, source).GetOr(NoneValue)
  }

  /** One `(old, new)` pair of `rename_keys`: pop `old` (None when absent)
      and store it under `new` unless suppression is on and it is falsy. */
  function RenameStep(d: Record, source: string, target: string, suppress: bool): (r: Record)
    ensures forall k :: Get(r, k) ==
              if k == target && (Truthy(Popped(d, source)) || !suppress) then Some(Popped(d, source))
              else if k == source then None
              else Get(d, k)
    ensures UniqueKeys(d) ==> UniqueKeys(r)
    ensures Flat(d) ==> Flat(r)
    ensures forall e :: e in r ==> e in d || e == Entry(target, Popped(d, source))
  {
    var value := Popped(d, source);
    var rest := Without(d, {source});
    assert Flat(d) ==> !value.Dict?;
    if Truthy(value) || !suppress then
      var r := Put(rest, target, value);
      assert Flat(d) ==> Flat(r) by {
        if Flat(d) {
          forall i | 0 <= i < |r| ensures !r[i].value.Dict? {
            assert r[i] in r;
          }
        }
      }
      r
    else rest
  }

  /** A key is named, as source or destination, by some pair. */
  predicate Mentioned(pairs: seq<(string, string)>, k: string) {
    exists i :: 0 <= i < |pairs| && (pairs[i].0 == k || pairs[i].1 == k)
  }

  /** The loop of `rename_keys` over all pairs, in order. */
  function RenameAll(d: Record, pairs: seq<(string, string)>, suppress: bool): (r: Record)
    ensures forall k :: !Mentioned(pairs, k) ==> Get(r, k) == Get(d, k)
    ensures UniqueKeys(d) ==> UniqueKeys(r)
    ensures Flat(d) ==> Flat(r)
    decreases |pairs|
  {
    if |pairs| == 0 then d
    else
      var step := RenameStep(d, pairs[0].0, pairs[0].1, suppress);
      var r := RenameAll(step, pairs[1..], suppress);
      assert forall k :: !Mentioned(pairs, k) ==> Get(r, k) == Get(d, k) by {
        forall k | !Mentioned(pairs, k) ensures Get(r, k) == Get(d, k) {
          MentionedParts(pairs, k);
          assert Get(r, k) == Get(step, k);
        }
      }
      r
  }

  /** A key the first pair or the rest mentions is mentioned by the
      pairs. */
  lemma MentionedParts(pairs: seq<(string, string)>, k: string)
    requires |pairs| > 0
    ensures k == pairs[0].0 || k == pairs[0].1 ==> Mentioned(pairs, k)
    ensures Mentioned(pairs[1..], k) ==> Mentioned(pairs, k)
  {
    if Mentioned(pairs[1..], k) {
      var i :| 0 <= i < |pairs[1..]| && (pairs[1..][i].0 == k || pairs[1..][i].1 == k);
      assert pairs[i + 1] == pairs[1..][i];
    }
  }

  /** `rename_keys(data, *pairs, suppress_none=suppress)`. A falsy `data`
      (None, an empty dict, ...) comes back as it is; any other non-dict is
      rejected; no pairs means no change; otherwise the pairs are applied in
      order to a copy. */
  function RenameKeys(data: Value, pairs: seq<(string, string)>, suppress: bool): (r: Result<Value, Error>)
    ensures !Truthy(data) ==> r == Success(data)
    ensures Truthy(data) && !data.Dict? ==> r == Failure(InvalidArgument(TypeName(data), ExpectedDict))
    ensures data.Dict? ==> r.Success? && r.value.Dict?
    ensures data.Dict? ==> forall k :: !Mentioned(pairs, k) ==> Get(r.value.entries, k) == Get(data.entries, k)
    ensures data.Dict? && |pairs| == 0 ==> r == Success(data)
    ensures data.Dict? && UniqueKeys(data.entries) ==> UniqueKeys(r.value.entries)
    ensures data.Dict? && Flat(data.entries) ==> Flat(r.value.entries)
  {
    if !Truthy(data) then Success(data)
    else if !data.Dict? then Failure(InvalidArgument(TypeName(data), ExpectedDict))
    else if |pairs| == 0 then Success(data)
    else Success(Dict(RenameAll(data.entries, pairs, suppress)))
  }

  /** Renaming a key the dict lacks stores None under the new name, or,
      with suppression on, drops that falsy None and leaves the dict as it
      was. */
  lemma RenameAbsentKey(d: Record, source: string, target: string, suppress: bool)
    requires |d| > 0
    requires source !in Keys(d) && target !in Keys(d)
    ensures RenameKeys(Dict(d), [(source, target)], suppress) ==
            Success(Dict(if suppress then d else d + [Entry(target, NoneValue)]))
  {
    var pairs := [(source, target)];
    assert pairs[1..] == [];
    assert Get(d, source) == None;
    assert Popped(d, source) == NoneValue;
    WithoutNothing(d, {source});
    assert Put(d, target, NoneValue) == d + [Entry(target, NoneValue)];
    assert RenameStep(d, source, target, suppress) == if suppress then d else d + [Entry(target, NoneValue)];
    assert RenameAll(d, pairs, suppress) == RenameStep(d, source, target, suppress);
  }

  /** No name occurs in two pairs, and no pair's source is any pair's
      destination. */
  predicate Independent(pairs: seq<(string, string)>) {
    forall i, j :: 0 <= i < |pairs| && 0 <= j < |pairs| ==>
      pairs[i].0 != pairs[j].1 && (i != j ==> pairs[i].0 != pairs[j].0 && pairs[i].1 != pairs[j].1)
  }

  /** Rename totality: for pairwise independent pairs, every source key is
      gone afterwards and every destination holds the value popped from its
      source (None when the source was absent) unless suppression dropped a
      falsy value, in which case the destination keeps what it had. */
  lemma {:induction false} RenameAllPairs(d: Record, pairs: seq<(string, string)>, suppress: bool)
    requires Independent(pairs)
    ensures forall i :: 0 <= i < |pairs| ==> Get(RenameAll(d, pairs, suppress), pairs[i].0) == None
    ensures forall i :: 0 <= i < |pairs| ==>
              var v := Popped(d, pairs[i].0);
              Get(RenameAll(d, pairs, suppress), pairs[i].1) ==
                if Truthy(v) || !suppress then Some(v) else Get(d, pairs[i].1)
    decreases |pairs|
  {
    if |pairs| > 0 {
      var (source, target) := pairs[0];
      var d' := RenameStep(d, source, target, suppress);
      var rest := pairs[1..];
      assert Independent(rest) by {
        forall i, j | 0 <= i < |rest| && 0 <= j < |rest|
          ensures rest[i].0 != rest[j].1 && (i != j ==> rest[i].0 != rest[j].0 && rest[i].1 != rest[j].1)
        {
          assert rest[i] == pairs[i + 1] && rest[j] == pairs[j + 1];
        }
      }
      RenameAllPairs(d', rest, suppress);
      var r := RenameAll(d, pairs, suppress);
      assert r == RenameAll(d', rest, suppress);
      forall i | 0 <= i < |pairs| ensures Get(r, pairs[i].0) == None {
        if i == 0 {
          NotMentionedInRest(pairs);
        } else {
          assert pairs[i] == rest[i - 1];
        }
      }
      forall i | 0 <= i < |pairs|
        ensures var v := Popped(d, pairs[i].0);
                Get(r, pairs[i].1) == if Truthy(v) || !suppress then Some(v) else Get(d, pairs[i].1)
      {
        if i == 0 {
          NotMentionedInRest(pairs);
        } else {
          assert pairs[i] == rest[i - 1];
          assert pairs[i].0 != source && pairs[i].0 != target;
          assert pairs[i].1 != source && pairs[i].1 != target;
          RenameStepElsewhere(d, source, target, suppress, pairs[i].0);
          RenameStepElsewhere(d, source, target, suppress, pairs[i].1);
        }
      }
    }
  }

  lemma NotMentionedInRest(pairs: seq<(string, string)>)
    requires Independent(pairs)
    requires |pairs| > 0
    ensures !Mentioned(pairs[1..], pairs[0].0) && !Mentioned(pairs[1..], pairs[0].1)
  {
    var rest := pairs[1..];
    forall j | 0 <= j < |rest|
      ensures rest[j].0 != pairs[0].0 && rest[j].1 != pairs[0].0
      ensures rest[j].0 != pairs[0].1 && rest[j].1 != pairs[0].1
    {
      assert rest[j] == pairs[j + 1];
    }
  }

  lemma RenameStepElsewhere(d: Record, source: string, target: string, suppress: bool, k: string)
    requires k != source && k != target
    ensures Get(RenameStep(d, source, target, suppress), k) == Get(d, k)
    ensures Popped(RenameStep(d, source, target, suppress), k) == Popped(d, k)
  {
  }

  /** `remove_keys(data, *keys)`. With no keys, or falsy data, the input
      comes back as it is; otherwise a non-dict is rejected and a dict loses
      exactly the listed keys: the other entries keep their values and their
      order. */
  function RemoveKeys(data: Value, keys: seq<string>): (r: Result<Value, Error>)
    ensures !(Truthy(data) && |keys| > 0) ==> r == Success(data)
    ensures Truthy(data) && |keys| > 0 && !data.Dict? ==>
              r == Failure(InvalidArgument(TypeName(data), ExpectedDict))
    ensures data.Dict? ==> r.Success? && r.value.Dict?
    ensures data.Dict? ==>
              forall k :: Get(r.value.entries, k) == if k in keys then None else Get(data.entries, k)
    ensures data.Dict? ==>
              forall e :: e in r.value.entries <==> e in data.entries && e.key !in keys
    ensures data.Dict? && UniqueKeys(data.entries) ==> UniqueKeys(r.value.entries)
    ensures data.Dict? && Flat(data.entries) ==> Flat(r.value.entries)
  {
    if Truthy(data) && |keys| > 0 then
      if !data.Dict? then Failure(InvalidArgument(TypeName(data), ExpectedDict))
      else Success(Dict(Without(data.entries, set k | k in keys)))
    else Success(data)
  }

  /** Removing the same keys twice is removing them once. */
  lemma RemoveKeysIdempotent(data: Value, keys: seq<string>)
    requires RemoveKeys(data, keys).Success?
    ensures RemoveKeys(RemoveKeys(data, keys).value, keys) == RemoveKeys(data, keys)
  {
    var once := RemoveKeys(data, keys).value;
    if Truthy(data) && |keys| > 0 && Truthy(once) {
      var ks := set k | k in keys;
      var d := data.entries;
      var d1 := Without(d, ks);
      assert forall i :: 0 <= i < |d1| ==> d1[i].key !in ks by {
        forall i | 0 <= i < |d1| ensures d1[i].key !in ks {
          assert d1[i] in d1;
        }
      }
      WithoutNothing(d1, ks);
    }
  }

  lemma {:induction false} WithoutNothing(d: Record, ks: set<string>)
    requires forall i :: 0 <= i < |d| ==> d[i].key !in ks
    ensures Without(d, ks) == d
    decreases |d|
  {
    DropNothing(d, ks);
  }

  lemma {:induction false} DropNothing(d: Record, ks: set<string>)
    requires forall i :: 0 <= i < |d| ==> d[i].key !in ks
    ensures Drop(d, ks) == d
    decreases |d|
  {
    if |d| > 0 {
      DropNothing(d[1..], ks);
      assert d[0].key !in ks;
      assert [d[0]] + d[1..] == d;
    }
  }

  /** Removing keys the dict does not hold gives back an equal dict. */
  lemma RemoveAbsentKeys(data: Value, keys: seq<string>)
    requires data.Dict?
    requires forall k :: k in keys ==> k !in Keys(data.entries)
    ensures RemoveKeys(data, keys) == Success(data)
  {
    if Truthy(data) && |keys| > 0 {
      var d := data.entries;
      forall i | 0 <= i < |d| ensures d[i].key !in set k | k in keys {
        assert Keys(d)[i] == d[i].key;
      }
      WithoutNothing(d, set k | k in keys);
    }
  }
}
