/** The public entry points: normalising one dict and materialising it as a
    dataclass instance (`from_dict`), choosing the dataclass
    (`resolve_data_class`), and mapping over collections (`from_collection`,
    eager) and over one-shot iterables (`from_iterable`, lazy), dispatched by
    shape (`from_dicts`). */
module Materializer {
  import opened Wrappers
  import opened Values
  import opened Records
  import opened Inflection
  import opened Flatten
  import opened KeyNormalizer
  import opened Converters

  /** A dataclass: its name and its fields, in declaration order. */
  datatype DataClass = DataClass(name: string, fields: seq<Field>)

  /** A module object, as far as lookup by attribute name goes: the
      dataclasses it defines, by name. */
  type Namespace = map<string, DataClass>

  /** The keyword arguments shared by every entry point. */
  datatype Options = Options(
    dataClass: Option<DataClass>,
    typeKey: Option<string>,
    namespace: Option<Namespace>,
    flatten: bool,
    rename: seq<(string, string)>,
    remove: seq<string>)

  /** The collaborators the engine calls but does not define: the inflector,
      the converter registry, the converter functions themselves (`run`),
      and typed construction of an instance from a record (`construct`,
      performed by the dacite library). Failures of the last two are
      exceptions, carried as their messages. `cached` selects converter
      resolution behind `lru_cache`, as the source declares it, or the
      corrected uncached resolution. */
  datatype Env = Env(
    inflector: Inflector,
    registry: Registry,
    run: (ConverterId, Value) -> Result<Value, string>,
    construct: (DataClass, Record) -> Result<Value, string>,
    cached: bool)

  /** The discriminator key used when none, or an empty one, is given. */
  const DefaultTypeKey := "resource_type"

  /** The key whose value names the dataclass. */
  function DiscriminatorKey(typeKey: Option<string>): string {
    if typeKey.Some? && typeKey.value != "" then typeKey.value else DefaultTypeKey
  }

  /** The discriminator value of a record: `data.get(key)`. */
  function Discriminator(d: Record, typeKey: Option<string>): Value {
    Get(d, DiscriminatorKey(typeKey)).GetOr(NoneValue)
  }

  /** `resolve_data_class(data, data_class, type_key, module)`. An explicit
      dataclass always wins. Otherwise, given a namespace, a truthy
      discriminator value names the class; a name the namespace lacks
      resolves to nothing (the lookup error is only logged), while a
      discriminator value that is not a string is an error. */
  function ResolveDataClass(d: Record, explicit: Option<DataClass>, typeKey: Option<string>,
                            namespace: Option<Namespace>): (r: Result<Option<DataClass>, Error>)
    ensures explicit.Some? ==> r == Success(explicit)
    ensures explicit.None? && namespace.None? ==> r == Success(None)
    ensures r.Failure? <==>
              explicit.None? && namespace.Some? &&
              Truthy(Discriminator(d, typeKey)) && !Discriminator(d, typeKey).Str?
    ensures r.Failure? ==> r.error == NonStringAttributeName(TypeName(Discriminator(d, typeKey)))
    ensures explicit.None? && r.Success? && r.value.Some? ==>
              && namespace.Some?
              && Discriminator(d, typeKey).Str?
              && Discriminator(d, typeKey).s in namespace.value
              && namespace.value[Discriminator(d, typeKey).s] == r.value.value
    ensures explicit.None? && !Truthy(Discriminator(d, typeKey)) ==> r == Success(None)
    ensures explicit.None? && namespace.Some? && Discriminator(d, typeKey).Str? && Discriminator(d, typeKey).s != "" ==>
              var name := Discriminator(d, typeKey).s;
              r == Success(if name in namespace.value then Some(namespace.value[name]) else None)
  {
    if explicit.Some? || namespace.None? then Success(explicit)
    else
      var name := Discriminator(d, typeKey);
      if !Truthy(name) then Success(None)
      else if !name.Str? then Failure(NonStringAttributeName(TypeName(name)))
      else if name.s in namespace.value then Success(Some(namespace.value[name.s]))
      else Success(None)
  }

  /** The key normalisation `from_dict` performs before anything else:
      optional flattening, snake-casing every key, the renames (with
      suppression off) and the removals. */
  function Normalise(d: Record, opts: Options, inflector: Inflector): (r: Record)
    ensures UniqueKeys(r)
    ensures forall k :: k in opts.remove ==> k !in Keys(r)
    ensures opts.flatten ==> Flat(r)
    ensures forall k :: k !in opts.remove && !Mentioned(opts.rename, k) ==>
              Get(r, k) == Get(Pep8Keys(Flattened(d, opts.flatten, inflector), inflector.underscore), k)
  {
    var flat := Flattened(d, opts.flatten, inflector);
    var snake := Pep8Keys(flat, inflector.underscore);
    var renamed := RenameKeys(Dict(snake), opts.rename, false).value.entries;
    var removed := RemoveKeys(Dict(renamed), opts.remove).value.entries;
    assert forall k :: k in opts.remove ==> Get(removed, k) == None;
    removed
  }

  /** `flatten_dict(d)` when flattening is asked for, with the default
      strategy; otherwise the record itself. */
  function Flattened(d: Record, flatten: bool, inflector: Inflector): (r: Record)
    ensures flatten ==> Flat(r) && UniqueKeys(r)
    ensures !flatten ==> r == d
  {
    if flatten then FlattenDict(d, None, DefaultMerger(inflector.camelize)) else d
  }

  /** `from_dict(data, ...)`. Falsy data comes back as it is and any other
      non-dict is rejected. A dict is normalised; if no dataclass resolves,
      the normalised dict is the result; otherwise its fields are converted
      and the instance is constructed from the converted record. */
  function FromDict(data: Value, opts: Options, env: Env): (r: Result<Value, Error>)
    ensures !Truthy(data) ==> r == Success(data)
    ensures Truthy(data) && !data.Dict? ==> r == Failure(InvalidArgument(TypeName(data), ExpectedDict))
    ensures r.Failure? ==>
              r.error == InvalidArgument(TypeName(data), ExpectedDict) ||
              r.error.NonStringAttributeName? || r.error.Raised? ||
              (env.cached && r.error.Unhashable?)
    ensures Truthy(data) && data.Dict? && opts.dataClass.None? && opts.namespace.None? ==>
              r == Success(Dict(Normalise(data.entries, opts, env.inflector)))
    ensures Truthy(data) && data.Dict? ==>
              var d := Normalise(data.entries, opts, env.inflector);
              var resolved := ResolveDataClass(d, opts.dataClass, opts.typeKey, opts.namespace);
              && (resolved.Failure? ==> r == Failure(resolved.error))
              && (resolved == Success(None) ==> r == Success(Dict(d)))
              && (resolved.Success? && resolved.value.Some? ==>
                    var c := resolved.value.value;
                    var converted := ConvertAttributes(c.fields, d, env.registry, env.run, env.cached);
                    && (converted.Failure? ==> r == Failure(converted.error))
                    && (converted.Success? ==>
                          var made := env.construct(c, converted.value);
                          && (made.Success? ==> r == Success(made.value))
                          && (made.Failure? ==> r == Failure(Raised(made.error)))))
  {
    if !Truthy(data) then Success(data)
    else if !data.Dict? then Failure(InvalidArgument(TypeName(data), ExpectedDict))
    else
      var d := Normalise(data.entries, opts, env.inflector);
      match ResolveDataClass(d, opts.dataClass, opts.typeKey, opts.namespace)
      case Failure(e) => Failure(e)
      case Success(None) => Success(Dict(d))
      case Success(Some(c)) =>
        match ConvertAttributes(c.fields, d, env.registry, env.run, env.cached)
        case Failure(e) => Failure(e)
        case Success(converted) =>
          match env.construct(c, converted)
          case Success(instance) => Success(instance)
          case Failure(message) => Failure(Raised(message))
  }

  /** `from_dict` with an explicit dataclass on a truthy dict: the
      outcome of converting the normalised record and constructing the
      instance from it. */
  lemma FromDictTyped(data: Value, opts: Options, env: Env, c: DataClass)
    requires Truthy(data) && data.Dict? && opts.dataClass == Some(c)
    ensures var converted := ConvertAttributes(c.fields, Normalise(data.entries, opts, env.inflector),
                                               env.registry, env.run, env.cached);
            FromDict(data, opts, env) ==
              if converted.Failure? then Failure(converted.error)
              else match env.construct(c, converted.value)
                   case Success(instance) => Success(instance)
                   case Failure(message) => Failure(Raised(message))
  {
  }

  /** With an explicit dataclass, `from_dict` on a truthy dict returns an
      instance exactly when every field the normalised record holds
      converts and construction from the converted record returns. */
  lemma FromDictInstance(data: Value, opts: Options, env: Env, c: DataClass)
    requires Truthy(data) && data.Dict? && opts.dataClass == Some(c) && DistinctNames(c.fields)
    ensures var d := Normalise(data.entries, opts, env.inflector);
            var converted := ConvertAttributes(c.fields, d, env.registry, env.run, env.cached);
            && (converted.Success? <==> AllFieldsConvert(c.fields, d, env.registry, env.run, env.cached))
            && (FromDict(data, opts, env).Success? <==> converted.Success? && env.construct(c, converted.value).Success?)
  {
    var d := Normalise(data.entries, opts, env.inflector);
    ConvertAttributesSucceeds(c.fields, d, env.registry, env.run, env.cached);
    FromDictTyped(data, opts, env, c);
  }

  /** `list(results)`: all the values, or the first error, in order. */
  function Collect(rs: seq<Result<Value, Error>>): (r: Result<seq<Value>, Error>)
    ensures r.Success? <==> forall i :: 0 <= i < |rs| ==> rs[i].Success?
    ensures r.Success? ==> |r.value| == |rs| && forall i :: 0 <= i < |rs| ==> rs[i] == Success(r.value[i])
    ensures r.Failure? ==> exists i :: 0 <= i < |rs| && rs[i] == Failure(r.error) &&
                                       forall j :: 0 <= j < i ==> rs[j].Success?
  {
    if |rs| == 0 then Success([])
    else
      match rs[0]
      case Failure(e) => Failure(e)
      case Success(v) =>
        match Collect(rs[1..])
        case Failure(e) =>
          assert forall i :: 0 < i < |rs| ==> rs[i] == rs[1..][i - 1];
          Failure(e)
        case Success(vs) =>
          assert forall i :: 0 < i < |rs| ==> rs[i] == rs[1..][i - 1];
          Success([v] + vs)
  }

  /** What iterating a collection other than a dict yields: a list's
      items, a string's one-character strings. */
  function Elements(data: Value): (r: seq<Value>)
    requires IsCollection(data) && !data.Dict?
    ensures data.List? ==> r == data.items
    ensures data.Str? ==> |r| == |data.s| && forall i :: 0 <= i < |data.s| ==> r[i] == Str([data.s[i]])
  {
    match data
    case List(items) => items
    case Str(s) => seq(|s|, i requires 0 <= i < |s| => Str([s[i]]))
  }

  /** `from_collection(data, ...)`: a collection other than a dict becomes
      the list of `from_dict` applied to each element, computed eagerly, so
      the first element that fails makes the whole call fail. Anything else
      is rejected. */
  function FromCollection(data: Value, opts: Options, env: Env): (r: Result<Value, Error>)
    ensures !(IsCollection(data) && !data.Dict?) ==>
              r == Failure(InvalidArgument(TypeName(data), ExpectedCollection))
    ensures r.Success? ==>
              && IsCollection(data) && !data.Dict? && r.value.List?
              && |r.value.items| == |Elements(data)|
              && forall i :: 0 <= i < |Elements(data)| ==> FromDict(Elements(data)[i], opts, env) == Success(r.value.items[i])
    ensures IsCollection(data) && !data.Dict? && r.Failure? ==>
              exists i :: 0 <= i < |Elements(data)| && FromDict(Elements(data)[i], opts, env) == Failure(r.error) &&
                          forall j :: 0 <= j < i ==> FromDict(Elements(data)[j], opts, env).Success?
    ensures IsCollection(data) && !data.Dict? ==>
              (r.Success? <==> forall i :: 0 <= i < |Elements(data)| ==> FromDict(Elements(data)[i], opts, env).Success?)
  {
    if IsCollection(data) && !data.Dict? then
      var xs := Elements(data);
      var rs := seq(|xs|, i requires 0 <= i < |xs| => FromDict(xs[i], opts, env));
      assert forall i :: 0 <= i < |xs| ==> rs[i] == FromDict(xs[i], opts, env);
      match Collect(rs)
      case Success(vs) => Success(List(vs))
      case Failure(e) => Failure(e)
    else Failure(InvalidArgument(TypeName(data), ExpectedCollection))
  }

  /** An iterable that is not a collection: a one-shot iterator, or a lazy
      `map` returned by an earlier call. */
  predicate IsStream(data: Value) {
    IsIterable(data) && !IsCollection(data)
  }

  /** `from_iterable(data, ...)`: a lazy `map` applying `from_dicts` to each
      element. Nothing is computed by the call itself, so it cannot fail on
      a stream; each element's outcome, error included, is delivered only
      when that element is consumed. An element the input stream itself
      raises on is raised again at the same position. */
  function FromIterable(data: Value, opts: Options, env: Env): (r: Result<Value, Error>)
    ensures !IsStream(data) ==> r == Failure(InvalidArgument(TypeName(data), ExpectedIterable))
    ensures IsStream(data) ==> r.Success? && r.value.MapIter?
    ensures data.Iter? ==>
              && |r.value.results| == |data.elements|
              && forall i :: 0 <= i < |data.elements| ==> r.value.results[i] == FromDicts(data.elements[i], opts, env)
    ensures data.MapIter? ==>
              && |r.value.results| == |data.results|
              && forall i :: 0 <= i < |data.results| ==>
                r.value.results[i] == if data.results[i].Failure? then data.results[i]
                                      else FromDicts(data.results[i].value, opts, env)
    decreases data, 1
  {
    match data
    case Iter(_, xs) =>
      Success(MapIter(seq(|xs|, i requires 0 <= i < |xs| => FromDicts(xs[i], opts, env))))
    case MapIter(rs) =>
      Success(MapIter(seq(|rs|, i requires 0 <= i < |rs| =>
        if rs[i].Failure? then rs[i] else FromDicts(rs[i].value, opts, env))))
    case _ => Failure(InvalidArgument(TypeName(data), ExpectedIterable))
  }

  /** `from_dicts(data, ...)`: streams go to `from_iterable`, other
      collections except dicts to `from_collection`, everything else to
      `from_dict`. */
  function FromDicts(data: Value, opts: Options, env: Env): (r: Result<Value, Error>)
    ensures IsStream(data) ==> r.Success? && r.value.MapIter?
    ensures IsStream(data) ==> r == FromIterable(data, opts, env)
    ensures IsCollection(data) && !data.Dict? ==> r == FromCollection(data, opts, env)
    ensures r.Failure? ==> !IsStream(data)
    ensures r.Failure? && r.error.InvalidArgument? ==> r.error.expected == ExpectedDict
    ensures data.Dict? || !IsIterable(data) ==> r == FromDict(data, opts, env)
    decreases data, 2
  {
    if IsStream(data) then FromIterable(data, opts, env)
    else if IsCollection(data) && !data.Dict? then FromCollection(data, opts, env)
    else FromDict(data, opts, env)
  }

  // ---------------------------------------------------------------------
  // Properties relating the entry points

  /** Dispatch for lists: `from_dicts` on a list succeeds exactly when
      `from_dict` succeeds on every item, and then yields their results. */
  lemma FromDictsList(items: seq<Value>, opts: Options, env: Env)
    ensures var r := FromDicts(List(items), opts, env);
            && (r.Success? <==> forall i :: 0 <= i < |items| ==> FromDict(items[i], opts, env).Success?)
            && (r.Success? ==>
                  && r.value.List? && |r.value.items| == |items|
                  && forall i :: 0 <= i < |items| ==> FromDict(items[i], opts, env) == Success(r.value.items[i]))
  {
    assert Elements(List(items)) == items;
  }

  /** Laziness: element `i` of a stream's result depends on element `i` of
      the input alone, so one failing element never disturbs the others. */
  lemma StreamElementIndependent(xs: seq<Value>, ys: seq<Value>, name: string, i: nat, opts: Options, env: Env)
    requires i < |xs| && i < |ys| && xs[i] == ys[i]
    ensures FromDicts(Iter(name, xs), opts, env).value.results[i] ==
            FromDicts(Iter(name, ys), opts, env).value.results[i]
  {
  }

  /** Items that are themselves lists are rejected by `from_dict`: nesting
      is not followed inside a collection. */
  lemma NestedListRejected(inner: seq<Value>, opts: Options, env: Env)
    requires |inner| > 0
    ensures FromDicts(List([List(inner)]), opts, env) ==
            Failure(InvalidArgument("list", ExpectedDict))
  {
    FromDictsList([List(inner)], opts, env);
    assert FromDict(List(inner), opts, env) == Failure(InvalidArgument("list", ExpectedDict));
  }

  /** The rename stage of `from_dict`: for pairwise independent pairs,
      every source key is gone after normalisation, and every destination
      the removals spare holds the value popped from the snake-cased record
      (None when the source was absent, since suppression is off), unless
      that record was empty and renaming returned it as it was. */
  lemma NormaliseRenames(d: Record, opts: Options, inflector: Inflector)
    requires Independent(opts.rename)
    ensures var r := Normalise(d, opts, inflector);
            forall i :: 0 <= i < |opts.rename| ==> opts.rename[i].0 !in Keys(r)
    ensures var r := Normalise(d, opts, inflector);
            var snake := Pep8Keys(Flattened(d, opts.flatten, inflector), inflector.underscore);
            |snake| > 0 ==>
              forall i :: 0 <= i < |opts.rename| && opts.rename[i].1 !in opts.remove ==>
                Get(r, opts.rename[i].1) == Some(Popped(snake, opts.rename[i].0))
    ensures var snake := Pep8Keys(Flattened(d, opts.flatten, inflector), inflector.underscore);
            |snake| == 0 ==> Normalise(d, opts, inflector) == []
  {
    var snake := Pep8Keys(Flattened(d, opts.flatten, inflector), inflector.underscore);
    assert Normalise(d, opts, inflector) == RenameThenRemove(snake, opts.rename, opts.remove);
    RenameThenRemoveKeys(snake, opts.rename, opts.remove);
  }

  /** The last two stages of the normalisation, on a snake-cased record. */
  function RenameThenRemove(snake: Record, pairs: seq<(string, string)>, remove: seq<string>): Record {
    var renamed := RenameKeys(Dict(snake), pairs, false).value.entries;
    RemoveKeys(Dict(renamed), remove).value.entries
  }

  lemma RenameThenRemoveKeys(snake: Record, pairs: seq<(string, string)>, remove: seq<string>)
    requires Independent(pairs)
    ensures var r := RenameThenRemove(snake, pairs, remove);
            forall i :: 0 <= i < |pairs| ==> pairs[i].0 !in Keys(r)
    ensures var r := RenameThenRemove(snake, pairs, remove);
            |snake| > 0 ==>
              forall i :: 0 <= i < |pairs| && pairs[i].1 !in remove ==>
                Get(r, pairs[i].1) == Some(Popped(snake, pairs[i].0))
    ensures |snake| == 0 ==> RenameThenRemove(snake, pairs, remove) == []
  {
    var renamed := RenameKeys(Dict(snake), pairs, false).value.entries;
    var r := RenameThenRemove(snake, pairs, remove);
    assert forall k :: Get(r, k) == if k in remove then None else Get(renamed, k);
    if |snake| == 0 {
      assert renamed == [];
    } else if |pairs| > 0 {
      assert Truthy(Dict(snake));
      assert RenameKeys(Dict(snake), pairs, false) == Success(Dict(RenameAll(snake, pairs, false)));
      RenameAllPairs(snake, pairs, false);
    }
    forall i | 0 <= i < |pairs| ensures pairs[i].0 !in Keys(r) {
      assert Get(r, pairs[i].0) == None;
    }
  }

  /** Plain mapping is idempotent on key names: a dict that is already
      normalised (snake-case keys fixed by `underscore`, nothing to rename
      or remove) comes back unchanged by a second plain `from_dict`. */
  lemma NormaliseFixedPoint(d: Record, opts: Options, inflector: Inflector)
    requires UniqueKeys(d)
    requires !opts.flatten && |opts.rename| == 0
    requires forall i :: 0 <= i < |d| ==> inflector.underscore(d[i].key) == d[i].key && d[i].key !in opts.remove
    ensures Normalise(d, opts, inflector) == d
  {
    var snake := Pep8Keys(d, inflector.underscore);
    Pep8KeysIdentity(d, inflector.underscore);
    assert snake == d;
    var removed := RemoveKeys(Dict(d), opts.remove);
    if Truthy(Dict(d)) && |opts.remove| > 0 {
      RemoveAbsentKeys(Dict(d), opts.remove);
    }
  }
}
