/** Concrete cases from the repository's own scenarios and unit tests,
    worked through the model. */
module Examples {
  import opened Wrappers
  import opened Values
  import opened Records
  import opened Inflection
  import opened Flatten
  import opened KeyNormalizer
  import opened Converters
  import opened Materializer

  /** The ASCII inflector camelizes `id` and `name` as the repository's
      inflector does. */
  lemma AsciiCamelizesTypeKeys()
    ensures Camelize("id") == "Id" && Camelize("name") == "Name"
  {
    assert CamelizeFrom("e", false) == "e";
    assert CamelizeFrom("me", false) == "me";
    assert CamelizeFrom("ame", false) == "ame";
  }

  lemma NestedTypeLeaves(camelize: string -> string, a: Value, b: Value)
    requires camelize("id") == "Id" && camelize("name") == "Name"
    requires !a.Dict? && !b.Dict?
    ensures Leaves([Entry("id", a), Entry("name", b)], Some("type"), DefaultMerger(camelize)) ==
            [Entry("typeId", a), Entry("typeName", b)]
  {
    var merge := DefaultMerger(camelize);
    var inner := [Entry("id", a), Entry("name", b)];
    assert merge(Some("type"), "id") == "typeId";
    assert merge(Some("type"), "name") == "typeName";
    assert inner[1..] == [Entry("name", b)];
    assert inner[1..][1..] == [];
    assert Leaves(inner[1..], Some("type"), merge) == [Entry("typeName", b)];
  }

  lemma TypeRecordLeaves(camelize: string -> string, x: Value, y: Value, a: Value, b: Value)
    requires camelize("id") == "Id" && camelize("name") == "Name"
    requires !x.Dict? && !y.Dict? && !a.Dict? && !b.Dict?
    ensures Leaves([Entry("id", x), Entry("createdBy", y), Entry("type", Dict([Entry("id", a), Entry("name", b)]))],
                   None, DefaultMerger(camelize)) ==
            [Entry("id", x), Entry("createdBy", y), Entry("typeId", a), Entry("typeName", b)]
  {
    var merge := DefaultMerger(camelize);
    var inner := [Entry("id", a), Entry("name", b)];
    var d := [Entry("id", x), Entry("createdBy", y), Entry("type", Dict(inner))];
    NestedTypeLeaves(camelize, a, b);
    var tail := [Entry("typeId", a), Entry("typeName", b)];
    assert d[1..][1..] == [Entry("type", Dict(inner))];
    assert d[1..][1..][1..] == [];
    assert Leaves(d[1..][1..], None, merge) == tail;
    assert Leaves(d[1..], None, merge) == [Entry("createdBy", y)] + tail;
  }

  /** A nested `type` dict flattens to `typeId` and `typeName` after the
      top-level keys, in order, whatever the leaf values are, with any
      inflector that camelizes `id` and `name` as `Id` and `Name` (the
      ASCII one does: `AsciiCamelizesTypeKeys`). */
  lemma FlattenTypeScenario(camelize: string -> string, x: Value, y: Value, a: Value, b: Value)
    requires camelize("id") == "Id" && camelize("name") == "Name"
    requires !x.Dict? && !y.Dict? && !a.Dict? && !b.Dict?
    ensures FlattenDict([Entry("id", x), Entry("createdBy", y), Entry("type", Dict([Entry("id", a), Entry("name", b)]))],
                        None, DefaultMerger(camelize)) ==
            [Entry("id", x), Entry("createdBy", y), Entry("typeId", a), Entry("typeName", b)]
  {
    var d := [Entry("id", x), Entry("createdBy", y), Entry("type", Dict([Entry("id", a), Entry("name", b)]))];
    var leaves := [Entry("id", x), Entry("createdBy", y), Entry("typeId", a), Entry("typeName", b)];
    TypeRecordLeaves(camelize, x, y, a, b);
    assert UniqueKeys(leaves);
    FlattenDistinct(d, None, DefaultMerger(camelize));
  }

  /** `rename_keys({"visible": True}, ("visible", "is_visible"))` */
  lemma RenameVisibleScenario()
    ensures RenameKeys(Dict([Entry("visible", Bool(true))]), [("visible", "is_visible")], false) ==
            Success(Dict([Entry("is_visible", Bool(true))]))
  {
    var d := [Entry("visible", Bool(true))];
    var pairs := [("visible", "is_visible")];
    assert pairs[1..] == [];
    assert Without(d, {"visible"}) == [];
    assert Popped(d, "visible") == Bool(true);
    assert Put([], "is_visible", Bool(true)) == [Entry("is_visible", Bool(true))];
    assert RenameAll(d, pairs, false) == RenameStep(d, "visible", "is_visible", false);
  }

  /** `rename_keys({"name": x}, ("fullname", "full_name"))`: without
      suppression `full_name` is added holding None; with it the dict is
      unchanged. */
  lemma RenameAbsentScenario(x: Value, suppress: bool)
    ensures RenameKeys(Dict([Entry("name", x)]), [("fullname", "full_name")], suppress) ==
            Success(Dict(if suppress then [Entry("name", x)] else [Entry("name", x), Entry("full_name", NoneValue)]))
  {
    var d := [Entry("name", x)];
    assert Keys(d) == ["name"];
    RenameAbsentKey(d, "fullname", "full_name", suppress);
    assert d + [Entry("full_name", NoneValue)] == [Entry("name", x), Entry("full_name", NoneValue)];
  }

  /** A list is not a dict. */
  lemma RenameListScenario()
    ensures RenameKeys(List([Str("value")]), [("id", "service_id")], false) ==
            Failure(InvalidArgument("list", ExpectedDict))
  {
  }

  /** `from_dict(["value"])` raises the dict guard's error, naming `list`. */
  lemma FromDictListScenario(opts: Options, env: Env)
    ensures FromDict(List([Str("value")]), opts, env) == Failure(InvalidArgument("list", ExpectedDict))
  {
    var data := List([Str("value")]);
    assert Truthy(data) && !data.Dict? && TypeName(data) == "list";
  }

  /** `from_collection({})` raises the collection guard's error: a dict,
      even an empty one, is not accepted. */
  lemma FromCollectionDictScenario(opts: Options, env: Env)
    ensures FromCollection(Dict([]), opts, env) == Failure(InvalidArgument("dict", ExpectedCollection))
  {
    var data := Dict([]);
    assert TypeName(data) == "dict";
  }

  /** `from_iterable({})` raises the iterable guard's error: a dict is a
      collection. */
  lemma FromIterableDictScenario(opts: Options, env: Env)
    ensures FromIterable(Dict([]), opts, env) == Failure(InvalidArgument("dict", ExpectedIterable))
  {
    var data := Dict([]);
    assert !IsStream(data) && TypeName(data) == "dict";
  }

  /** `remove_keys({"a": 1, "b": 2}, "b")` and `remove_keys({"a": 1}, "z")` */
  lemma RemoveScenario()
    ensures RemoveKeys(Dict([Entry("a", Int(1)), Entry("b", Int(2))]), ["b"]) == Success(Dict([Entry("a", Int(1))]))
    ensures RemoveKeys(Dict([Entry("a", Int(1))]), ["z"]) == Success(Dict([Entry("a", Int(1))]))
  {
    var d := [Entry("a", Int(1)), Entry("b", Int(2))];
    assert (set k | k in ["b"]) == {"b"};
    assert d[1..][1..] == [];
    assert Drop(d, {"b"}) == [Entry("a", Int(1))];
    assert Keys([Entry("a", Int(1))]) == ["a"];
    RemoveAbsentKeys(Dict([Entry("a", Int(1))]), ["z"]);
  }

  /** `converter_names("", ["str", "datetime", "UUID", "Any", "NoneType"])`:
      scoped by `str` first, then plain, all lower-case. */
  lemma ConverterNamesScenario(v: Value, names: seq<string>)
    requires v.Str? && names == ["str", "datetime", "UUID", "Any", "NoneType"]
    ensures ConverterNames(TypeName(v), names) ==
            ["str_str", "str_datetime", "str_uuid", "str_any", "str_nonetype",
             "str", "datetime", "uuid", "any", "nonetype"]
  {
    SpecificTier(TypeName(v), names);
    PlainTier(names);
    JoinTiers(TypeName(v), names, ["str_str", "str_datetime", "str_uuid", "str_any", "str_nonetype"],
              ["str", "datetime", "uuid", "any", "nonetype"]);
  }

  lemma JoinTiers(t: string, names: seq<string>, specific: seq<string>, plain: seq<string>)
    requires SpecificKeys(t, names) == specific && PlainKeys(names) == plain
    ensures ConverterNames(t, names) == specific + plain
  {
  }

  lemma SpecificTier(t: string, names: seq<string>)
    requires t == "str" && names == ["str", "datetime", "UUID", "Any", "NoneType"]
    ensures SpecificKeys(t, names) == ["str_str", "str_datetime", "str_uuid", "str_any", "str_nonetype"]
  {
    var r := SpecificKeys(t, names);
    assert r[0] == "str_str" by { LowerCaseKeys(t, "str"); }
    assert r[1] == "str_datetime" by { LowerCaseKeys(t, "datetime"); }
    assert r[2] == "str_uuid" by {
      LowerFixed(t + "_");
      LowerConcat(t + "_", "UUID");
    }
    assert r[3] == "str_any" by {
      LowerFixed(t + "_");
      LowerConcat(t + "_", "Any");
    }
    assert r[4] == "str_nonetype" by {
      LowerFixed(t + "_");
      LowerConcat(t + "_", "NoneType");
    }
  }

  lemma PlainTier(names: seq<string>)
    requires names == ["str", "datetime", "UUID", "Any", "NoneType"]
    ensures PlainKeys(names) == ["str", "datetime", "uuid", "any", "nonetype"]
  {
    var r := PlainKeys(names);
    assert r[0] == "str" by { LowerFixed("str"); }
    assert r[1] == "datetime" by { LowerFixed("datetime"); }
    assert r[2] == "uuid";
    assert r[3] == "any";
    assert r[4] == "nonetype";
  }

  lemma JoinThree(a: string, b: string, c: string)
    ensures Join([a, b, c], ',') == a + "," + b + "," + c
  {
    assert [a, b, c][1..] == [b, c];
    assert [b, c][1..] == [c];
    assert Join([b, c], ',') == b + [','] + c;
    assert Join([a, b, c], ',') == a + [','] + (b + [','] + c);
  }

  /** `Optional[int]` names `int`. */
  lemma OptionalIntNames()
    ensures ResolveAttributeTypeNames(Annotation("Optional[int]")) == ["int"]
  {
    WrappedAnnotationNames("Optional", "int");
    assert "Optional" + "[" + "int" + "]" == "Optional[int]";
  }

  /** `Union[Any,NoneType,int]` names all three, in order. */
  lemma UnionNames()
    ensures ResolveAttributeTypeNames(Annotation("Union[Any,NoneType,int]")) == ["Any", "NoneType", "int"]
  {
    JoinThree("Any", "NoneType", "int");
    assert "Union" + "[" + ("Any" + "," + "NoneType" + "," + "int") + "]" == "Union[Any,NoneType,int]";
    GenericAnnotationNames("Union", ["Any", "NoneType", "int"]);
  }

  /** The lazy bracket match closes at the first `]`: an annotation that
      nests brackets, such as `Union[List[int], None]`, yields the single
      name `List[int`. */
  lemma NestedAnnotationNames(p: string, q: string, inner: string, tail: string)
    requires '[' !in p && '[' !in tail
    requires forall c :: c in q + inner ==> c != ',' && c != ']' && c != '[' && c != '\n'
    ensures ResolveAttributeTypeNames(Annotation(p + "[" + q + "[" + inner + "]" + tail + "]")) == [q + "[" + inner]
  {
    var g := q + "[" + inner;
    var s := p + "[" + q + "[" + inner + "]" + tail + "]";
    assert s == p + "[" + g + "]" + (tail + "]");
    assert ']' !in g && '\n' !in g && ',' !in g by {
      assert forall c :: c in g ==> c == '[' || c in q + inner;
    }
    BracketGroupsCons(p, g, tail + "]");
    NoBracketGroups(tail + "]");
    assert BracketGroups(s) == [g];
    SplitJoin([g], ',');
    assert SplitAll([g], ',') == Split(g, ',') + SplitAll([], ',');
  }

  /** Every bracket group contributes its names, in order: `U[a]V[b]`
      yields the names of `a` followed by those of `b`. */
  lemma TwoGroupNames(p: string, x: string, q: string, y: string)
    requires '[' !in p && '[' !in q
    requires forall c :: c in x + y ==> c != ']' && c != '[' && c != '\n'
    ensures ResolveAttributeTypeNames(Annotation(p + "[" + x + "]" + q + "[" + y + "]")) ==
            Split(x, ',') + Split(y, ',')
  {
    assert ']' !in x && '\n' !in x && ']' !in y && '\n' !in y && '[' !in y by {
      assert forall c :: c in x ==> c in x + y;
      assert forall c :: c in y ==> c in x + y;
    }
    var b := q + "[" + y + "]";
    assert p + "[" + x + "]" + q + "[" + y + "]" == p + "[" + x + "]" + b;
    BracketGroupsCons(q, y, "");
    assert b == q + "[" + y + "]" + "";
    assert BracketGroups("") == [];
    AnnotationGroupNames(q, y, "");
    AnnotationGroupNames(p, x, b);
  }

  /** A live generic type yields its named arguments in declaration order,
      skipping those without a name. */
  lemma LiveArgumentNames(name: Option<string>, a: string, b: string)
    ensures ResolveAttributeTypeNames(Live(name, [Some(a), None, Some(b)])) == [a, b]
  {
    var args := [Some(a), None, Some(b)];
    assert args == [Some(a)] + ([None] + [Some(b)]);
    NamedArgsConcat([None], [Some(b)]);
    NamedArgsConcat([Some(a)], [None] + [Some(b)]);
    assert args[0] in args;
  }

  /** A bare `str` annotation names `str`. */
  lemma PlainStrNames()
    ensures ResolveAttributeTypeNames(Annotation("str")) == ["str"]
  {
    PlainAnnotationNames("str");
  }

  /** A field declared `datetime` holding an integer resolves to the
      timestamp parser through `int_datetime`. */
  lemma DatetimeFieldScenario(field: Field, stamp: int)
    requires field.declared == Live(Some("datetime"), [])
    ensures ResolveConverter(DefaultRegistry, field, Int(stamp)) == Registered(ParseTimestamp)
  {
    var names := ResolveAttributeTypeNames(field.declared);
    assert names == ["datetime"];
    LowerCaseKeys(TypeName(Int(stamp)), names[0]);
    assert SpecificKey(TypeName(Int(stamp)), names[0]) == "int_datetime";
  }

  /** A field declared `str` holding a string resolves to `identity`. */
  lemma StrFieldScenario(field: Field, s: string)
    requires field.declared == Live(Some("str"), [])
    ensures ResolveConverter(DefaultRegistry, field, Str(s)) == Identity
  {
    var names := ResolveAttributeTypeNames(field.declared);
    assert names == ["str"];
    LowerCaseKeys(TypeName(Str(s)), names[0]);
    assert |SpecificKey(TypeName(Str(s)), names[0])| == 7;
    assert SpecificKey(TypeName(Str(s)), names[0]) !in DefaultRegistry;
    assert PlainKey(names[0]) !in DefaultRegistry;
  }

  /** A field whose only candidate name is `int` resolves an integer to
      `identity`: neither `int_int` nor `int` is registered. */
  lemma IntNamesScenario(field: Field, n: int)
    requires ResolveAttributeTypeNames(field.declared) == ["int"]
    ensures ResolveConverter(DefaultRegistry, field, Int(n)) == Identity
  {
    var names := ResolveAttributeTypeNames(field.declared);
    LowerCaseKeys(TypeName(Int(n)), names[0]);
    assert |SpecificKey(TypeName(Int(n)), names[0])| == 7;
    assert SpecificKey(TypeName(Int(n)), names[0]) !in DefaultRegistry;
    assert PlainKey(names[0]) !in DefaultRegistry;
  }

  /** A field annotated with the string `Optional[int]` holding an integer
      looks up `int_int` and `int` and so resolves to `identity`. */
  lemma OptionalIntFieldScenario(field: Field, n: int)
    requires field.declared == Annotation("Optional[int]")
    ensures ResolveConverter(DefaultRegistry, field, Int(n)) == Identity
  {
    OptionalIntNames();
    IntNamesScenario(field, n);
  }

  /** With no dataclass and nothing to rename, remove or flatten, a dict
      whose keys are already snake-case comes back as it is. */
  lemma PlainRecordScenario(env: Env, x: Value)
    requires env.inflector == Ascii()
    ensures FromDict(Dict([Entry("id", x)]), Options(None, None, None, false, [], []), env) ==
            Success(Dict([Entry("id", x)]))
  {
    var opts := Options(None, None, None, false, [], []);
    var d := [Entry("id", x)];
    assert Normalise(d, opts, env.inflector) == d by {
      assert env.inflector.underscore("id") == "id" by { assert Underscore("id") == "id"; }
      NormaliseFixedPoint(d, opts, env.inflector);
    }
  }

  /** A dataclass whose one field is declared `List[str]`, say `tags`, and
      the record `{"tags": items}`: normalisation keeps the record, the
      resolution as written raises on the list, and the corrected one
      leaves it as it is. */
  lemma ListFieldConversion(env: Env, c: DataClass, k: string, items: seq<Value>)
    requires env.registry == DefaultRegistry && env.inflector.underscore(k) == k
    requires c.fields == [Field(k, Live(Some("List"), [Some("str")]))]
    ensures var d := [Entry(k, List(items))];
            && Normalise(d, Options(Some(c), None, None, false, [], []), env.inflector) == d
            && ConvertAttributes(c.fields, d, env.registry, env.run, env.cached) ==
               if env.cached then Failure(Unhashable("list")) else Success(d)
  {
    var d := [Entry(k, List(items))];
    NormaliseFixedPoint(d, Options(Some(c), None, None, false, [], []), env.inflector);
    ConvertOneField(c.fields, d, env.registry, env.run, env.cached);
    ListFieldStep(env, c.fields[0], k, items);
  }

  lemma ListFieldStep(env: Env, field: Field, k: string, items: seq<Value>)
    requires env.registry == DefaultRegistry
    requires field == Field(k, Live(Some("List"), [Some("str")]))
    ensures var d := [Entry(k, List(items))];
            ConvertField(field, d, env.registry, env.run, env.cached) ==
              if env.cached then Failure(Unhashable("list")) else Success(d)
  {
    var v := List(items);
    var d := [Entry(k, v)];
    assert Get(d, k) == Some(v);
    if env.cached {
      assert Resolve(DefaultRegistry, field, v, true) == Failure(Unhashable("list"));
    } else {
      CachedResolutionRejectsList();
      ResolveConverterDeterministic(DefaultRegistry, Field("tags", field.declared), v, List([Str("FR")]));
      assert ResolveConverter(DefaultRegistry, field, v) == Identity;
      assert Put(d, k, v) == d;
    }
  }

  /** As written, `from_dict` on that record raises `unhashable type:
      'list'` before any converter runs. */
  lemma UnhashableFieldScenario(env: Env, c: DataClass, k: string, items: seq<Value>)
    requires env.cached
    requires env.registry == DefaultRegistry && env.inflector.underscore(k) == k
    requires c.fields == [Field(k, Live(Some("List"), [Some("str")]))]
    ensures FromDict(Dict([Entry(k, List(items))]), Options(Some(c), None, None, false, [], []), env) ==
            Failure(Unhashable("list"))
  {
    var d := [Entry(k, List(items))];
    var opts := Options(Some(c), None, None, false, [], []);
    ListFieldConversion(env, c, k, items);
    FromDictTyped(Dict(d), opts, env, c);
  }

  /** With the corrected resolution the list passes through `identity`,
      and `from_dict` returns whatever construction makes of the record. */
  lemma CorrectedListFieldScenario(env: Env, c: DataClass, k: string, items: seq<Value>)
    requires !env.cached
    requires env.registry == DefaultRegistry && env.inflector.underscore(k) == k
    requires c.fields == [Field(k, Live(Some("List"), [Some("str")]))]
    ensures var d := [Entry(k, List(items))];
            var r := FromDict(Dict(d), Options(Some(c), None, None, false, [], []), env);
            && (r.Success? <==> env.construct(c, d).Success?)
            && (r.Success? ==> r.value == env.construct(c, d).value)
  {
    var d := [Entry(k, List(items))];
    var opts := Options(Some(c), None, None, false, [], []);
    ListFieldConversion(env, c, k, items);
    FromDictTyped(Dict(d), opts, env, c);
  }

  /** An empty string is a collection, not a dict: `from_dicts` sends it
      to `from_collection`, which yields the empty list. */
  lemma EmptyStringScenario(opts: Options, env: Env)
    ensures FromDicts(Str(""), opts, env) == Success(List([]))
  {
  }

  /** A stream of a record and an integer: the result is a lazy map whose
      first element is the record and whose second element holds the
      error, raised only when it is consumed. */
  lemma LazyStreamScenario(env: Env, x: Value)
    requires env.inflector == Ascii()
    ensures var opts := Options(None, None, None, false, [], []);
            var r := FromDicts(Iter("list_iterator", [Dict([Entry("id", x)]), Int(5)]), opts, env);
            && r.Success? && r.value.MapIter? && |r.value.results| == 2
            && r.value.results[0] == Success(Dict([Entry("id", x)]))
            && r.value.results[1] == Failure(InvalidArgument("int", ExpectedDict))
  {
    var opts := Options(None, None, None, false, [], []);
    var d := [Entry("id", x)];
    StreamOfTwo(Iter("list_iterator", [Dict(d), Int(5)]), opts, env, Dict(d), Int(5));
    assert FromDicts(Dict(d), opts, env) == Success(Dict(d)) by {
      PlainRecordScenario(env, x);
    }
    assert FromDicts(Int(5), opts, env) == Failure(InvalidArgument("int", ExpectedDict));
  }

  /** A stream of two elements maps each element through `from_dicts`. */
  lemma StreamOfTwo(data: Value, opts: Options, env: Env, a: Value, b: Value)
    requires data == Iter("list_iterator", [a, b])
    ensures var r := FromDicts(data, opts, env);
            && r.Success? && r.value.MapIter? && |r.value.results| == 2
            && r.value.results[0] == FromDicts(a, opts, env)
            && r.value.results[1] == FromDicts(b, opts, env)
  {
    assert IsStream(data) && data.elements[0] == a && data.elements[1] == b;
  }
}
