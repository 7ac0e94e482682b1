/** The Python dict operations the engine uses, on records held as ordered
    entry lists: lookup (`d.get(k)`), assignment (`d[k] = v`), deletion of a
    set of keys, and construction from a list of pairs (`dict(items)`).

    A Python dict never holds a key twice (`UniqueKeys`); every operation
    here keeps that invariant. Lookup takes the LAST entry with a key, which
    on a dict is its only one and on a list of pairs is the one `dict(items)`
    keeps. */
module Records {
  import opened Wrappers
  import opened Values

  /** The keys of a record, in order. */
  function Keys(d: Record): (ks: seq<string>)
    ensures |ks| == |d|
    ensures forall i :: 0 <= i < |d| ==> ks[i] == d[i].key
  {
    if |d| == 0 then [] else [d[0].key] + Keys(d[1..])
  }

  /** No key occurs twice: true of every Python dict. */
  predicate UniqueKeys(d: Record) {
    forall i, j :: 0 <= i < j < |d| ==> d[i].key != d[j].key
  }

  /** No value is itself a dict. */
  predicate Flat(d: Record) {
    forall i :: 0 <= i < |d| ==> !d[i].value.Dict?
  }

  /** `d.get(k)`: the value of the last entry with key `k`. */
  function Get(d: Record, k: string): (r: Option<Value>)
    ensures r.Some? <==> k in Keys(d)
    ensures r.Some? ==> exists i :: 0 <= i < |d| && d[i] == Entry(k, r.value) &&
                                    forall j :: i < j < |d| ==> d[j].key != k
  {
    if |d| == 0 then None
    else
      match Get(d[1..], k)
      case Some(v) =>
        assert Keys(d) == [d[0].key] + Keys(d[1..]);
        Some(v)
      case None =>
        if d[0].key == k then Some(d[0].value) else None
  }

  /** Looking a key up in a concatenation: the right part wins. */
  lemma {:induction false} GetConcat(a: Record, b: Record, k: string)
    ensures Get(a + b, k) == if k in Keys(b) then Get(b, k) else Get(a, k)
    decreases |a|
  {
    if |a| == 0 {
      assert a + b == b;
    } else {
      assert (a + b)[1..] == a[1..] + b;
      GetConcat(a[1..], b, k);
      assert Keys(a) == [a[0].key] + Keys(a[1..]);
    }
  }

  /** The keys of a concatenation. */
  lemma KeysConcat(a: Record, b: Record)
    ensures Keys(a + b) == Keys(a) + Keys(b)
  {
  }

  /** Replaces the value of every entry with key `k`. */
  function Replace(d: Record, k: string, v: Value): (r: Record)
    ensures Keys(r) == Keys(d)
    ensures forall i :: 0 <= i < |d| ==> r[i] == if d[i].key == k then Entry(k, v) else d[i]
  {
    if |d| == 0 then []
    else [if d[0].key == k then Entry(k, v) else d[0]] + Replace(d[1..], k, v)
  }

  lemma {:induction false} GetReplace(d: Record, k: string, v: Value, j: string)
    ensures Get(Replace(d, k, v), j) == if j == k && k in Keys(d) then Some(v) else Get(d, j)
    decreases |d|
  {
    if |d| > 0 {
      GetReplace(d[1..], k, v, j);
      assert Replace(d, k, v)[1..] == Replace(d[1..], k, v);
      assert Keys(d) == [d[0].key] + Keys(d[1..]);
    }
  }

  /** `d[k] = v`: an existing key keeps its place and takes the new value;
      a new key is appended. */
  function Put(d: Record, k: string, v: Value): (r: Record)
    ensures Keys(r) == if k in Keys(d) then Keys(d) else Keys(d) + [k]
    ensures forall j :: Get(r, j) == if j == k then Some(v) else Get(d, j)
    ensures UniqueKeys(d) ==> UniqueKeys(r)
    ensures forall e :: e in r ==> e in d || e == Entry(k, v)
  {
    if k in Keys(d) then
      var r := Replace(d, k, v);
      forall j ensures Get(r, j) == if j == k then Some(v) else Get(d, j) {
        GetReplace(d, k, v, j);
      }
      assert forall e :: e in r ==> e in d || e == Entry(k, v) by {
        forall e | e in r ensures e in d || e == Entry(k, v) {
          var i :| 0 <= i < |r| && r[i] == e;
        }
      }
      r
    else
      var r := d + [Entry(k, v)];
      KeysConcat(d, [Entry(k, v)]);
      forall j ensures Get(r, j) == if j == k then Some(v) else Get(d, j) {
        GetConcat(d, [Entry(k, v)], j);
      }
      r
  }

  /** The record without the entries whose key is in `ks`, in the same
      order and with the same values. */
  function Without(d: Record, ks: set<string>): (r: Record)
    ensures forall e :: e in r <==> e in d && e.key !in ks
    ensures forall j :: Get(r, j) == if j in ks then None else Get(d, j)
    ensures UniqueKeys(d) ==> UniqueKeys(r)
    ensures Flat(d) ==> Flat(r)
  {
    var r := Drop(d, ks);
    forall j ensures Get(r, j) == if j in ks then None else Get(d, j) {
      DropGet(d, ks, j);
    }
    DropUnique(d, ks);
    r
  }

  function Drop(d: Record, ks: set<string>): (r: Record)
    ensures forall e :: e in r <==> e in d && e.key !in ks
  {
    if |d| == 0 then []
    else (if d[0].key in ks then [] else [d[0]]) + Drop(d[1..], ks)
  }

  lemma {:induction false} DropGet(d: Record, ks: set<string>, j: string)
    ensures Get(Drop(d, ks), j) == if j in ks then None else Get(d, j)
    decreases |d|
  {
    if |d| > 0 {
      var rest := Drop(d[1..], ks);
      DropGet(d[1..], ks, j);
      GetConcat([d[0]], d[1..], j);
      assert [d[0]] + d[1..] == d;
      if d[0].key in ks {
        assert Drop(d, ks) == [] + rest == rest;
      } else {
        assert Drop(d, ks) == [d[0]] + rest;
        GetConcat([d[0]], rest, j);
      }
    }
  }

  lemma {:induction false} DropUnique(d: Record, ks: set<string>)
    ensures UniqueKeys(d) ==> UniqueKeys(Drop(d, ks))
    decreases |d|
  {
    if |d| > 0 && UniqueKeys(d) {
      DropUnique(d[1..], ks);
      var rest := Drop(d[1..], ks);
      if d[0].key !in ks {
        assert forall e :: e in rest ==> e in d[1..];
        forall i | 0 <= i < |rest| ensures rest[i].key != d[0].key {
          assert rest[i] in d[1..];
        }
      }
    }
  }

  lemma {:induction false} DropConcat(a: Record, b: Record, ks: set<string>)
    ensures Drop(a + b, ks) == Drop(a, ks) + Drop(b, ks)
    decreases |a|
  {
    if |a| == 0 {
      assert a + b == b;
    } else {
      assert (a + b)[0] == a[0];
      assert (a + b)[1..] == a[1..] + b;
      DropConcat(a[1..], b, ks);
    }
  }

  /** Deleting keys commutes with concatenation: the surviving entries keep
      the order they had. */
  lemma WithoutConcat(a: Record, b: Record, ks: set<string>)
    ensures Without(a + b, ks) == Without(a, ks) + Without(b, ks)
  {
    DropConcat(a, b, ks);
  }

  /** `acc.update(items)` performed pair by pair. */
  function Extend(acc: Record, items: seq<Entry>): (r: Record)
    ensures UniqueKeys(acc) ==> UniqueKeys(r)
    ensures forall k :: Get(r, k) == if k in Keys(items) then Get(items, k) else Get(acc, k)
    ensures forall e :: e in r ==> e in acc || e in items
    decreases |items|
  {
    if |items| == 0 then acc
    else
      var r := Extend(Put(acc, items[0].key, items[0].value), items[1..]);
      assert Keys(items) == [items[0].key] + Keys(items[1..]);
      assert forall e :: e in items[1..] ==> e in items;
      r
  }

  /** `dict(items)`: a dict holding, for every key, the value of its last
      pair. */
  function FromItems(items: seq<Entry>): (r: Record)
    ensures UniqueKeys(r)
    ensures forall k :: Get(r, k) == Get(items, k)
    ensures forall k :: k in Keys(r) <==> k in Keys(items)
    ensures forall e :: e in r ==> e in items
  {
    Extend([], items)
  }

  /** Pairs whose keys are already distinct make the same dict, unchanged. */
  lemma {:induction false} ExtendDistinct(acc: Record, items: seq<Entry>)
    requires UniqueKeys(acc + items)
    ensures Extend(acc, items) == acc + items
    decreases |items|
  {
    if |items| > 0 {
      var e := items[0];
      assert Put(acc, e.key, e.value) == acc + [e] by {
        forall i | 0 <= i < |acc| ensures Keys(acc)[i] != e.key {
          assert (acc + items)[i] == acc[i] && (acc + items)[|acc|] == e;
        }
      }
      assert acc + [e] + items[1..] == acc + items;
      ExtendDistinct(acc + [e], items[1..]);
    }
  }

  /** The keys of `ks` in order of first occurrence, leaving out those in
      `seen` and every repeat. */
  function Fresh(seen: set<string>, ks: seq<string>): (r: seq<string>)
    ensures forall k :: k in r ==> k in ks && k !in seen
    decreases |ks|
  {
    if |ks| == 0 then []
    else if ks[0] in seen then Fresh(seen, ks[1..])
    else [ks[0]] + Fresh(seen + {ks[0]}, ks[1..])
  }

  /** Filtering twice is filtering once against both sets. */
  lemma {:induction false} FreshFresh(s: set<string>, t: set<string>, ks: seq<string>)
    ensures Fresh(s, Fresh(t, ks)) == Fresh(s + t, ks)
    decreases |ks|
  {
    if |ks| > 0 {
      var x := ks[0];
      if x in t {
        FreshFresh(s, t, ks[1..]);
      } else {
        FreshFresh(s, t + {x}, ks[1..]);
        assert s + (t + {x}) == (s + t) + {x};
        if x in s {
          assert (s + t) + {x} == s + t;
        } else {
          assert Fresh(s, Fresh(t, ks)) == [x] + Fresh(s + {x}, Fresh(t + {x}, ks[1..]));
          FreshFresh(s + {x}, t + {x}, ks[1..]);
          assert (s + {x}) + (t + {x}) == (s + t) + {x};
        }
      }
    }
  }

  /** The keys of a record, as a set. */
  function KeySet(d: Record): set<string> {
    set k | k in Keys(d)
  }

  /** `acc.update(items)` keeps the keys of `acc` in place and appends the
      new keys of `items` in order of first occurrence. */
  lemma {:induction false} ExtendKeys(acc: Record, items: seq<Entry>)
    ensures Keys(Extend(acc, items)) == Keys(acc) + Fresh(KeySet(acc), Keys(items))
    decreases |items|
  {
    if |items| == 0 {
      assert Keys(items) == [];
      assert Extend(acc, items) == acc;
    } else {
      var e := items[0];
      assert Extend(acc, items) == Extend(Put(acc, e.key, e.value), items[1..]);
      ExtendKeys(Put(acc, e.key, e.value), items[1..]);
      ExtendKeysStep(acc, items);
    }
  }

  lemma ExtendKeysStep(acc: Record, items: seq<Entry>)
    requires |items| > 0
    ensures var acc' := Put(acc, items[0].key, items[0].value);
            Keys(acc') + Fresh(KeySet(acc'), Keys(items[1..])) == Keys(acc) + Fresh(KeySet(acc), Keys(items))
  {
    var e := items[0];
    var acc' := Put(acc, e.key, e.value);
    assert Keys(items) == [e.key] + Keys(items[1..]);
    assert e.key in KeySet(acc) <==> e.key in Keys(acc);
    KeySetPut(acc, e.key, e.value);
    FreshStep(Keys(acc), KeySet(acc), Keys(acc'), KeySet(acc'), e.key, Keys(items[1..]));
  }

  lemma FreshStep(ks: seq<string>, s: set<string>, ks': seq<string>, s': set<string>, x: string, rest: seq<string>)
    requires ks' == if x in s then ks else ks + [x]
    requires s' == s + {x}
    ensures ks' + Fresh(s', rest) == ks + Fresh(s, [x] + rest)
  {
    assert ([x] + rest)[0] == x && ([x] + rest)[1..] == rest;
    if x in s {
      assert s' == s;
    } else {
      assert ks' + Fresh(s', rest) == ks + ([x] + Fresh(s', rest));
    }
  }

  lemma KeySetPut(d: Record, k: string, v: Value)
    ensures KeySet(Put(d, k, v)) == KeySet(d) + {k}
  {
  }

  /** In a dict, every entry is what lookup of its key returns. */
  lemma GetUnique(d: Record, i: int)
    requires UniqueKeys(d) && 0 <= i < |d|
    ensures Get(d, d[i].key) == Some(d[i].value)
  {
    assert d[i].key in Keys(d);
  }

  /** Two dicts with the same keys in the same order and the same lookups
      are the same dict. */
  lemma RecordExt(a: Record, b: Record)
    requires UniqueKeys(a) && UniqueKeys(b) && Keys(a) == Keys(b)
    requires forall k :: Get(a, k) == Get(b, k)
    ensures a == b
  {
    forall i | 0 <= i < |a| ensures a[i] == b[i] {
      GetUnique(a, i);
      GetUnique(b, i);
    }
  }

  /** `acc.update(dict(items))` is `acc.update(items)`: collapsing the pairs
      into a dict first changes neither the values nor the key order. */
  lemma ExtendFromItems(acc: Record, items: seq<Entry>)
    requires UniqueKeys(acc)
    ensures Extend(acc, FromItems(items)) == Extend(acc, items)
  {
    var dict, seen := FromItems(items), KeySet(acc);
    assert Keys(dict) == Fresh({}, Keys(items)) by {
      ExtendKeys([], items);
      assert KeySet([]) == {};
    }
    assert Keys(Extend(acc, dict)) == Keys(Extend(acc, items)) by {
      ExtendKeys(acc, dict);
      ExtendKeys(acc, items);
      FreshFresh(seen, {}, Keys(items));
      assert seen + {} == seen;
    }
    RecordExt(Extend(acc, dict), Extend(acc, items));
  }

  /** Updating with a concatenation is updating with each part in turn. */
  lemma {:induction false} ExtendConcat(acc: Record, a: seq<Entry>, b: seq<Entry>)
    ensures Extend(acc, a + b) == Extend(Extend(acc, a), b)
    decreases |a|
  {
    if |a| == 0 {
      assert a + b == b;
    } else {
      assert (a + b)[0] == a[0] && (a + b)[1..] == a[1..] + b;
      ExtendConcat(Put(acc, a[0].key, a[0].value), a[1..], b);
    }
  }

  lemma FromItemsDistinct(items: seq<Entry>)
    requires UniqueKeys(items)
    ensures FromItems(items) == items
  {
    assert [] + items == items;
    ExtendDistinct([], items);
  }
}
