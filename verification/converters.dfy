/** Type-driven converter resolution: the candidate type names of a field's
    declared type, the prioritised lookup keys built from them, first-hit
    lookup in a registry with `identity` as the fallback, and the per-field
    conversion of a record. */
module Converters {
  import opened Wrappers
  import opened Values
  import opened Records
  import opened Inflection

  /** A field's declared type: either a string annotation such as
      `"Optional[int]"`, or a live type object, described by its own
      `__name__` (if it has one) and the `__name__` of each of its type
      arguments (None for an argument without one). */
  datatype DeclaredType =
    | Annotation(text: string)
    | Live(name: Option<string>, args: seq<Option<string>>)

  /** The metadata of one dataclass field. */
  datatype Field = Field(name: string, declared: DeclaredType)

  /** The conversion functions a registry can hold; `ParseTimestamp` is the
      built-in epoch-timestamp parser. */
  datatype ConverterId = ParseTimestamp | Custom(name: string)

  /** The converter registry: lookup key to conversion function. */
  type Registry = map<string, ConverterId>

  /** What resolution returns: `identity` or a registered function. */
  datatype Converter = Identity | Registered(id: ConverterId)

  /** The registry as shipped: its only entry is `"int_datetime"`. */
  const DefaultRegistry: Registry := map["int_datetime" := ParseTimestamp]

  lemma DefaultRegistryContents()
    ensures DefaultRegistry.Keys == {"int_datetime"}
    ensures DefaultRegistry["int_datetime"] == ParseTimestamp
  {
  }

  // ---------------------------------------------------------------------
  // Candidate type names

  /** The index of the first `]` at or after `i`, provided no line break
      comes before it: where a lazy `\[(.*?)\]` match that opened just
      before `i` closes. */
  function CloseBracket(s: string, i: nat): (r: Option<nat>)
    requires i <= |s|
    ensures r.Some? ==> i <= r.value < |s| && s[r.value] == ']' &&
                        forall j :: i <= j < r.value ==> s[j] != ']' && s[j] != '\n'
    ensures r.None? ==> forall j :: i <= j < |s| && s[j] == ']' ==> exists j' :: i <= j' < j && s[j'] == '\n'
    decreases |s| - i
  {
    if i == |s| || s[i] == '\n' then None
    else if s[i] == ']' then Some(i)
    else CloseBracket(s, i + 1)
  }

  /** `re.findall(r"\[(.*?)\]", s)`: scanning left to right, each `[` whose
      lazy match closes yields the text up to the first `]`, and scanning
      resumes after that `]`. */
  function BracketGroups(s: string): (r: seq<string>)
    ensures forall i :: 0 <= i < |r| ==> ']' !in r[i] && '\n' !in r[i]
    decreases |s|
  {
    if |s| == 0 then []
    else if s[0] == '[' then
      match CloseBracket(s, 1)
      case Some(j) => [s[1..j]] + BracketGroups(s[j + 1..])
      case None => BracketGroups(s[1..])
    else BracketGroups(s[1..])
  }

  /** `s.split(sep)` */
  function Split(s: string, sep: char): (r: seq<string>)
    ensures |r| >= 1
    ensures forall i :: 0 <= i < |r| ==> sep !in r[i]
    ensures Join(r, sep) == s
  {
    if |s| == 0 then [""]
    else
      var rest := Split(s[1..], sep);
      if s[0] == sep then
        assert [s[0]] + s[1..] == s;
        [""] + rest
      else
        var r := [[s[0]] + rest[0]] + rest[1..];
        assert r[1..] == rest[1..];
        assert [s[0]] + rest[0] + (if |rest| == 1 then "" else [sep] + Join(rest[1..], sep)) == s;
        r
  }

  /** `sep.join(parts)` */
  function Join(parts: seq<string>, sep: char): string
    requires |parts| >= 1
  {
    if |parts| == 1 then parts[0] else parts[0] + [sep] + Join(parts[1..], sep)
  }

  /** Splitting undoes joining when no part contains the separator. */
  lemma {:induction false} SplitJoin(parts: seq<string>, sep: char)
    requires |parts| >= 1
    requires forall i :: 0 <= i < |parts| ==> sep !in parts[i]
    ensures Split(Join(parts, sep), sep) == parts
    decreases |parts|, |parts[0]|, 1
  {
    if |parts[0]| > 0 {
      SplitJoinLeadingChar(parts, sep);
    } else if |parts| > 1 {
      SplitJoinEmptyFirst(parts, sep);
    }
  }

  lemma {:induction false} SplitJoinLeadingChar(parts: seq<string>, sep: char)
    requires |parts| >= 1 && |parts[0]| > 0
    requires forall i :: 0 <= i < |parts| ==> sep !in parts[i]
    ensures Split(Join(parts, sep), sep) == parts
    decreases |parts|, |parts[0]|, 0
  {
    var p := parts[0];
    var parts' := [p[1..]] + parts[1..];
    JoinFirstChar(parts, sep);
    assert forall i :: 0 <= i < |parts'| ==> sep !in parts'[i] by {
      forall i | 0 <= i < |parts'| ensures sep !in parts'[i] {
        if i > 0 {
          assert parts'[i] == parts[i];
        } else {
          assert forall c :: c in p[1..] ==> c in p;
        }
      }
    }
    SplitJoin(parts', sep);
    var s := Join(parts, sep);
    var rest := Split(s[1..], sep);
    assert rest[0] == p[1..] && rest[1..] == parts[1..];
    assert [p[0]] + p[1..] == p;
    assert [[p[0]] + rest[0]] + rest[1..] == parts;
  }

  lemma {:induction false} SplitJoinEmptyFirst(parts: seq<string>, sep: char)
    requires |parts| > 1 && parts[0] == ""
    requires forall i :: 0 <= i < |parts| ==> sep !in parts[i]
    ensures Split(Join(parts, sep), sep) == parts
    decreases |parts|, |parts[0]|, 0
  {
    SplitJoin(parts[1..], sep);
    var s := Join(parts, sep);
    assert s == [sep] + Join(parts[1..], sep);
    assert s[1..] == Join(parts[1..], sep);
    assert [""] + parts[1..] == parts;
  }

  /** A join that starts with a non-empty part starts with that part's
      first character, followed by the join with that character removed. */
  lemma JoinFirstChar(parts: seq<string>, sep: char)
    requires |parts| >= 1 && |parts[0]| > 0
    ensures var s := Join(parts, sep);
            |s| > 0 && s[0] == parts[0][0] && s[1..] == Join([parts[0][1..]] + parts[1..], sep)
  {
    var p := parts[0];
    var parts' := [p[1..]] + parts[1..];
    var s := Join(parts, sep);
    if |parts| == 1 {
      assert s == p;
    } else {
      assert parts'[1..] == parts[1..];
      assert s == p + [sep] + Join(parts[1..], sep);
      assert s[1..] == p[1..] + [sep] + Join(parts[1..], sep);
    }
  }

  /** `flatten(map(lambda g: g.split(sep), groups))` */
  function SplitAll(groups: seq<string>, sep: char): (r: seq<string>)
    ensures forall i :: 0 <= i < |r| ==> sep !in r[i]
    ensures |r| >= |groups|
  {
    if |groups| == 0 then [] else Split(groups[0], sep) + SplitAll(groups[1..], sep)
  }

  /** The `__name__` of every type argument that has one, in order. */
  function NamedArgs(args: seq<Option<string>>): (r: seq<string>)
    ensures forall n :: n in r <==> Some(n) in args
    ensures |r| <= |args|
    ensures |args| == 1 ==> r == if args[0].Some? then [args[0].value] else []
  {
    if |args| == 0 then []
    else
      assert forall a :: a in args <==> a == args[0] || a in args[1..];
      (if args[0].Some? then [args[0].value] else []) + NamedArgs(args[1..])
  }

  /** The names of a concatenation of arguments are the names of the first
      part followed by those of the second: with the single-argument case
      above, the names are exactly the named arguments, in their order and
      with their repeats. */
  lemma {:induction false} NamedArgsConcat(a: seq<Option<string>>, b: seq<Option<string>>)
    ensures NamedArgs(a + b) == NamedArgs(a) + NamedArgs(b)
    decreases |a|
  {
    if |a| == 0 {
      assert a + b == b;
    } else {
      assert (a + b)[0] == a[0];
      assert (a + b)[1..] == a[1..] + b;
      NamedArgsConcat(a[1..], b);
    }
  }

  /** `resolve_attribute_type_names`. A string annotation yields the
      comma-split contents of its bracket groups, or of the whole string
      when it has none; a live type yields its arguments' names, or failing
      those its own name, or nothing. */
  function ResolveAttributeTypeNames(t: DeclaredType): (r: seq<string>)
    ensures t.Annotation? ==> |r| >= 1 && forall i :: 0 <= i < |r| ==> ',' !in r[i]
    ensures t.Live? ==> forall n :: n in r ==> Some(n) in t.args || t.name == Some(n)
    ensures t.Live? && (exists a :: a in t.args && a.Some?) ==> forall n :: n in r <==> Some(n) in t.args
    ensures t.Live? && (exists a :: a in t.args && a.Some?) ==> r == NamedArgs(t.args)
    ensures t.Live? && (forall a :: a in t.args ==> a.None?) ==>
              r == if t.name.Some? then [t.name.value] else []
  {
    match t
    case Annotation(s) =>
      var groups := BracketGroups(s);
      SplitAll(if |groups| == 0 then [s] else groups, ',')
    case Live(name, args) =>
      var named := NamedArgs(args);
      if |named| > 0 then
        assert named[0] in named;
        named
      else if name.Some? then [name.value]
      else []
  }

  lemma {:induction false} CloseBracketAt(s: string, i: nat, j: nat)
    requires i <= j < |s| && s[j] == ']'
    requires forall k :: i <= k < j ==> s[k] != ']' && s[k] != '\n'
    ensures CloseBracket(s, i) == Some(j)
    decreases j - i
  {
    if i < j {
      CloseBracketAt(s, i + 1, j);
    }
  }

  lemma {:induction false} BracketGroupsWrapped(p: string, inner: string)
    requires '[' !in p
    requires ']' !in inner && '\n' !in inner
    ensures BracketGroups(p + "[" + inner + "]") == [inner]
    decreases |p|
  {
    var s := p + "[" + inner + "]";
    if |p| == 0 {
      assert s == "[" + inner + "]";
      CloseBracketAt(s, 1, |inner| + 1);
      assert s[1..|inner| + 1] == inner;
      assert s[|inner| + 2..] == "";
    } else {
      assert s[0] == p[0] && p[0] != '[';
      assert s[1..] == p[1..] + "[" + inner + "]";
      BracketGroupsWrapped(p[1..], inner);
    }
  }

  /** A first bracket group that closes: the scan skips the `[`-free text
      before it, yields its contents and resumes after its `]`. */
  lemma {:induction false} BracketGroupsCons(a: string, g: string, b: string)
    requires '[' !in a
    requires ']' !in g && '\n' !in g
    ensures BracketGroups(a + "[" + g + "]" + b) == [g] + BracketGroups(b)
    decreases |a|
  {
    var s := a + "[" + g + "]" + b;
    if |a| == 0 {
      assert s == "[" + g + "]" + b;
      CloseBracketAt(s, 1, |g| + 1);
      assert s[1..|g| + 1] == g;
      assert s[|g| + 2..] == b;
    } else {
      assert s[0] == a[0] && a[0] != '[';
      assert s[1..] == a[1..] + "[" + g + "]" + b;
      BracketGroupsCons(a[1..], g, b);
    }
  }

  /** The names of an annotation are the comma-split bracket groups, in
      order: a closing first group contributes its own names, followed by
      the names of the remaining text when it has groups of its own. */
  lemma AnnotationGroupNames(a: string, g: string, b: string)
    requires '[' !in a
    requires ']' !in g && '\n' !in g
    ensures BracketGroups(b) != [] ==>
              ResolveAttributeTypeNames(Annotation(a + "[" + g + "]" + b)) ==
              Split(g, ',') + ResolveAttributeTypeNames(Annotation(b))
    ensures BracketGroups(b) == [] ==>
              ResolveAttributeTypeNames(Annotation(a + "[" + g + "]" + b)) == Split(g, ',')
  {
    BracketGroupsCons(a, g, b);
    var groups := BracketGroups(b);
    assert ([g] + groups)[0] == g && ([g] + groups)[1..] == groups;
    assert SplitAll([g] + groups, ',') == Split(g, ',') + SplitAll(groups, ',');
    if groups == [] {
      assert SplitAll([], ',') == [];
      assert Split(g, ',') + [] == Split(g, ',');
    }
  }

  /** A generic annotation such as `"Optional[int]"` or
      `"Union[Any,NoneType,int]"` yields the comma-separated names between
      its brackets. */
  lemma WrappedAnnotationNames(p: string, inner: string)
    requires '[' !in p
    requires ']' !in inner && '\n' !in inner
    ensures ResolveAttributeTypeNames(Annotation(p + "[" + inner + "]")) == Split(inner, ',')
  {
    BracketGroupsWrapped(p, inner);
    assert [inner][1..] == [];
    assert SplitAll([], ',') == [];
    assert SplitAll([inner], ',') == Split(inner, ',') + SplitAll([], ',');
    assert Split(inner, ',') + [] == Split(inner, ',');
  }

  lemma {:induction false} JoinKeepsOut(parts: seq<string>, c: char)
    requires |parts| >= 1
    requires c != ','
    requires forall i :: 0 <= i < |parts| ==> c !in parts[i]
    ensures c !in Join(parts, ',')
    decreases |parts|
  {
    if |parts| > 1 {
      JoinKeepsOut(parts[1..], c);
    }
  }

  /** Round trip: the annotation `P[n1,...,nk]` written from type names
      yields exactly those names back, in order. */
  lemma GenericAnnotationNames(p: string, names: seq<string>)
    requires '[' !in p
    requires |names| >= 1
    requires forall i :: 0 <= i < |names| ==> ',' !in names[i] && ']' !in names[i] && '\n' !in names[i]
    ensures ResolveAttributeTypeNames(Annotation(p + "[" + Join(names, ',') + "]")) == names
  {
    JoinKeepsOut(names, ']');
    JoinKeepsOut(names, '\n');
    WrappedAnnotationNames(p, Join(names, ','));
    SplitJoin(names, ',');
  }

  lemma {:induction false} NoBracketGroups(s: string)
    requires '[' !in s
    ensures BracketGroups(s) == []
    decreases |s|
  {
    if |s| > 0 {
      assert forall c :: c in s[1..] ==> c in s;
      NoBracketGroups(s[1..]);
    }
  }

  /** An annotation without brackets, such as `"str"`, is split as a whole. */
  lemma PlainAnnotationNames(s: string)
    requires '[' !in s
    ensures ResolveAttributeTypeNames(Annotation(s)) == Split(s, ',')
  {
    NoBracketGroups(s);
    assert [s][1..] == [];
    assert SplitAll([], ',') == [];
    assert SplitAll([s], ',') == Split(s, ',') + SplitAll([], ',');
    assert Split(s, ',') + [] == Split(s, ',');
  }

  // ---------------------------------------------------------------------
  // Candidate keys and first-hit lookup

  /** The key scoped to a runtime type and a declared type, e.g. `int_datetime`. */
  function SpecificKey(typeName: string, name: string): string {
    Lower(typeName + "_" + name)
  }

  /** The key scoped to the declared type alone. */
  function PlainKey(name: string): string {
    Lower(name)
  }

  /** Names without capitals are their own keys. */
  lemma LowerCaseKeys(t: string, n: string)
    requires forall i :: 0 <= i < |t| ==> !IsUpper(t[i])
    requires forall i :: 0 <= i < |n| ==> !IsUpper(n[i])
    ensures SpecificKey(t, n) == t + "_" + n
    ensures PlainKey(n) == n
  {
    var s := t + "_" + n;
    forall i | 0 <= i < |s| ensures !IsUpper(s[i]) {
      if i < |t| {
        assert s[i] == t[i];
      } else if i > |t| {
        assert s[i] == n[i - |t| - 1];
      }
    }
    LowerFixed(s);
    LowerFixed(n);
  }

  function SpecificKeys(typeName: string, names: seq<string>): (r: seq<string>)
    ensures |r| == |names|
    ensures forall i :: 0 <= i < |names| ==> r[i] == SpecificKey(typeName, names[i])
  {
    if |names| == 0 then [] else [SpecificKey(typeName, names[0])] + SpecificKeys(typeName, names[1..])
  }

  function PlainKeys(names: seq<string>): (r: seq<string>)
    ensures |r| == |names|
    ensures forall i :: 0 <= i < |names| ==> r[i] == PlainKey(names[i])
  {
    if |names| == 0 then [] else [PlainKey(names[0])] + PlainKeys(names[1..])
  }

  /** `converter_names(value, names)`: all runtime-type-scoped keys first,
      then all plain keys, each tier in the order of `names`, lower-cased. */
  function ConverterNames(typeName: string, names: seq<string>): (r: seq<string>)
    ensures |r| == 2 * |names|
    ensures forall i :: 0 <= i < |names| ==> r[i] == SpecificKey(typeName, names[i])
    ensures forall i :: 0 <= i < |names| ==> r[|names| + i] == PlainKey(names[i])
  {
    SpecificKeys(typeName, names) + PlainKeys(names)
  }

  /** The registry entry of the first key the registry holds, or
      `identity` when it holds none. */
  function FirstHit(registry: Registry, keys: seq<string>): (c: Converter)
    ensures c == Identity <==> forall i :: 0 <= i < |keys| ==> keys[i] !in registry
    ensures c.Registered? ==> exists i :: 0 <= i < |keys| && keys[i] in registry && c.id == registry[keys[i]] &&
                                         forall j :: 0 <= j < i ==> keys[j] !in registry
  {
    if |keys| == 0 then Identity
    else if keys[0] in registry then Registered(registry[keys[0]])
    else
      var c := FirstHit(registry, keys[1..]);
      assert c == Identity <==> forall i :: 0 <= i < |keys| ==> keys[i] !in registry by {
        assert forall i :: 0 < i < |keys| ==> keys[i] == keys[1..][i - 1];
      }
      assert c.Registered? ==> exists i :: 0 <= i < |keys| && keys[i] in registry && c.id == registry[keys[i]] &&
                                           forall j :: 0 <= j < i ==> keys[j] !in registry by {
        if c.Registered? {
          var i :| 0 <= i < |keys[1..]| && keys[1..][i] in registry && c.id == registry[keys[1..][i]] &&
                   forall j :: 0 <= j < i ==> keys[1..][j] !in registry;
          assert keys[i + 1] == keys[1..][i];
          forall j | 0 <= j < i + 1 ensures keys[j] !in registry {
            if j > 0 {
              assert keys[j] == keys[1..][j - 1];
            }
          }
        }
      }
      c
  }

  /** The lookup at the heart of `resolve_converter`, for a runtime type
      name `t` and candidate names: the first runtime-type-scoped key the
      registry holds wins; only when it holds none of those does the first
      plain key it holds win; when it holds neither, `identity`. */
  function ResolveByNames(registry: Registry, t: string, names: seq<string>): (c: Converter)
    ensures (exists i :: 0 <= i < |names| && SpecificKey(t, names[i]) in registry) ==>
              exists i :: 0 <= i < |names| && SpecificKey(t, names[i]) in registry &&
                          c == Registered(registry[SpecificKey(t, names[i])]) &&
                          forall j :: 0 <= j < i ==> SpecificKey(t, names[j]) !in registry
    ensures (forall i :: 0 <= i < |names| ==> SpecificKey(t, names[i]) !in registry) &&
            (exists i :: 0 <= i < |names| && PlainKey(names[i]) in registry) ==>
              exists i :: 0 <= i < |names| && PlainKey(names[i]) in registry &&
                          c == Registered(registry[PlainKey(names[i])]) &&
                          forall j :: 0 <= j < i ==> PlainKey(names[j]) !in registry
    ensures c == Identity <==>
              forall i :: 0 <= i < |names| ==> SpecificKey(t, names[i]) !in registry && PlainKey(names[i]) !in registry
  {
    var specific, plain := SpecificKeys(t, names), PlainKeys(names);
    TwoTiers(registry, specific, plain);
    FirstHit(registry, specific + plain)
  }

  /** First-hit lookup over two tiers of keys of equal length. */
  lemma TwoTiers(registry: Registry, a: seq<string>, b: seq<string>)
    requires |a| == |b|
    ensures var c := FirstHit(registry, a + b);
            (exists i :: 0 <= i < |a| && a[i] in registry) ==>
              exists i :: 0 <= i < |a| && a[i] in registry && c == Registered(registry[a[i]]) &&
                          forall j :: 0 <= j < i ==> a[j] !in registry
    ensures var c := FirstHit(registry, a + b);
            (forall i :: 0 <= i < |a| ==> a[i] !in registry) && (exists i :: 0 <= i < |b| && b[i] in registry) ==>
              exists i :: 0 <= i < |b| && b[i] in registry && c == Registered(registry[b[i]]) &&
                          forall j :: 0 <= j < i ==> b[j] !in registry
    ensures var c := FirstHit(registry, a + b);
            c == Identity <==> forall i :: 0 <= i < |a| ==> a[i] !in registry && b[i] !in registry
  {
    if exists i :: 0 <= i < |a| && a[i] in registry {
      FirstHitInPrefix(registry, a, b);
    } else {
      FirstHitPastPrefix(registry, a, b);
    }
  }

  /** `resolve_converter(field, value)`: the lookup above, for the name of
      the value's runtime type and the candidate names of the field's
      declared type. */
  function ResolveConverter(registry: Registry, field: Field, value: Value): (c: Converter)
    ensures var names := ResolveAttributeTypeNames(field.declared);
            var t := TypeName(value);
            (exists i :: 0 <= i < |names| && SpecificKey(t, names[i]) in registry) ==>
              exists i :: 0 <= i < |names| && SpecificKey(t, names[i]) in registry &&
                          c == Registered(registry[SpecificKey(t, names[i])]) &&
                          forall j :: 0 <= j < i ==> SpecificKey(t, names[j]) !in registry
    ensures var names := ResolveAttributeTypeNames(field.declared);
            var t := TypeName(value);
            (forall i :: 0 <= i < |names| ==> SpecificKey(t, names[i]) !in registry) &&
            (exists i :: 0 <= i < |names| && PlainKey(names[i]) in registry) ==>
              exists i :: 0 <= i < |names| && PlainKey(names[i]) in registry &&
                          c == Registered(registry[PlainKey(names[i])]) &&
                          forall j :: 0 <= j < i ==> PlainKey(names[j]) !in registry
    ensures var names := ResolveAttributeTypeNames(field.declared);
            var t := TypeName(value);
            c == Identity <==>
              forall i :: 0 <= i < |names| ==> SpecificKey(t, names[i]) !in registry && PlainKey(names[i]) !in registry
  {
    var names := ResolveAttributeTypeNames(field.declared);
    ResolveByNames(registry, TypeName(value), names)
  }

  lemma {:induction false} FirstHitInPrefix(registry: Registry, a: seq<string>, b: seq<string>)
    requires exists i :: 0 <= i < |a| && a[i] in registry
    ensures FirstHit(registry, a + b) == FirstHit(registry, a)
    decreases |a|
  {
    assert (a + b)[0] == a[0];
    if a[0] !in registry {
      assert (a + b)[1..] == a[1..] + b;
      var i :| 0 <= i < |a| && a[i] in registry;
      assert a[1..][i - 1] == a[i];
      FirstHitInPrefix(registry, a[1..], b);
    }
  }

  lemma {:induction false} FirstHitPastPrefix(registry: Registry, a: seq<string>, b: seq<string>)
    requires forall i :: 0 <= i < |a| ==> a[i] !in registry
    ensures FirstHit(registry, a + b) == FirstHit(registry, b)
    decreases |a|
  {
    if |a| == 0 {
      assert a + b == b;
    } else {
      assert (a + b)[0] == a[0];
      assert (a + b)[1..] == a[1..] + b;
      FirstHitPastPrefix(registry, a[1..], b);
    }
  }

  /** Resolution depends on the value only through its type's name: two
      values of the same type resolve to the same converter. */
  lemma ResolveConverterDeterministic(registry: Registry, field: Field, a: Value, b: Value)
    requires TypeName(a) == TypeName(b)
    ensures ResolveConverter(registry, field, a) == ResolveConverter(registry, field, b)
  {
  }

  /** `hash(v)` succeeds: lists and dicts are unhashable, and so are objects
      such as dataclass instances that define equality but no hash. */
  predicate Hashable(v: Value) {
    match v
    case List(_) => false
    case Dict(_) => false
    case Object(_, hashable) => hashable
    case _ => true
  }

  /** `resolve_converter` as the source declares it, behind
      `lru_cache(typed=True)`: the cache hashes its arguments before
      anything is resolved, so an unhashable value raises. */
  function ResolveConverterCached(registry: Registry, field: Field, value: Value): (r: Result<Converter, Error>)
    ensures Hashable(value) ==> r == Success(ResolveConverter(registry, field, value))
    ensures !Hashable(value) ==> r == Failure(Unhashable(TypeName(value)))
  {
    if Hashable(value) then Success(ResolveConverter(registry, field, value))
    else Failure(Unhashable(TypeName(value)))
  }

  /** A `tags: List[str]` field holding `["FR"]`: the cached resolver
      raises `unhashable type: 'list'`, where resolution itself finds
      `identity`. */
  lemma CachedResolutionRejectsList()
    ensures var field := Field("tags", Live(Some("List"), [Some("str")]));
            var value := List([Str("FR")]);
            && ResolveConverterCached(DefaultRegistry, field, value) == Failure(Unhashable("list"))
            && ResolveConverter(DefaultRegistry, field, value) == Identity
  {
    var field := Field("tags", Live(Some("List"), [Some("str")]));
    var names := ResolveAttributeTypeNames(field.declared);
    assert names == ["str"];
    assert SpecificKey("list", "str") == "list_str";
    assert PlainKey("str") == "str";
  }

  /** The resolver `convert_attributes` calls: behind the cache, as the
      source declares it, when `cached` holds; the corrected uncached
      resolution otherwise. Either way a resolved converter is the one the
      lookup finds. */
  function Resolve(registry: Registry, field: Field, value: Value, cached: bool): (r: Result<Converter, Error>)
    ensures r.Success? ==> r.value == ResolveConverter(registry, field, value)
    ensures r.Failure? <==> cached && !Hashable(value)
    ensures r.Failure? ==> r.error == Unhashable(TypeName(value))
  {
    if cached then ResolveConverterCached(registry, field, value)
    else Success(ResolveConverter(registry, field, value))
  }

  // ---------------------------------------------------------------------
  // Applying converters

  /** Calls a resolved converter. `identity` returns the value unchanged;
      an exception raised by a registered function propagates. */
  function Apply(c: Converter, v: Value, run: (ConverterId, Value) -> Result<Value, string>): (r: Result<Value, Error>)
    ensures c == Identity ==> r == Success(v)
    ensures c.Registered? ==> (r.Success? <==> run(c.id, v).Success?)
    ensures c.Registered? && r.Success? ==> r.value == run(c.id, v).value
    ensures c.Registered? && r.Failure? ==> r.error == Raised(run(c.id, v).error)
  {
    match c
    case Identity => Success(v)
    case Registered(id) =>
      match run(id, v)
      case Success(w) => Success(w)
      case Failure(message) => Failure(Raised(message))
  }

  /** No field name occurs twice: true of every dataclass. */
  predicate DistinctNames(fields: seq<Field>) {
    forall i, j :: 0 <= i < j < |fields| ==> fields[i].name != fields[j].name
  }

  /** A key is the name of some field. */
  predicate IsFieldName(fields: seq<Field>, k: string) {
    exists i :: 0 <= i < |fields| && fields[i].name == k
  }

  /** `convert_attributes(fields, d)`: for each field, in order, whose name
      is a key of the record, the value is replaced by the resolved
      converter applied to it. Keys keep their order; entries that are not
      field names, and fields the record lacks, are left alone; the first
      resolution or converter that raises aborts the call. With `cached`
      (the source as written) resolution raises on an unhashable value;
      without it only converters raise. */
  function ConvertAttributes(fields: seq<Field>, d: Record, registry: Registry,
                             run: (ConverterId, Value) -> Result<Value, string>, cached: bool): (r: Result<Record, Error>)
    ensures r.Success? ==> Keys(r.value) == Keys(d)
    ensures r.Success? ==> forall k :: !IsFieldName(fields, k) ==> Get(r.value, k) == Get(d, k)
    ensures r.Success? && UniqueKeys(d) ==> UniqueKeys(r.value)
    ensures r.Failure? ==> r.error.Raised? || (cached && r.error.Unhashable?)
    decreases |fields|
  {
    if |fields| == 0 then Success(d)
    else
      var f := fields[0];
      var d' :- ConvertField(f, d, registry, run, cached);
      var r := ConvertAttributes(fields[1..], d', registry, run, cached);
      assert forall k :: IsFieldName(fields[1..], k) ==> IsFieldName(fields, k) by {
        forall k | IsFieldName(fields[1..], k) ensures IsFieldName(fields, k) {
          var i :| 0 <= i < |fields[1..]| && fields[1..][i].name == k;
          assert fields[i + 1].name == k;
        }
      }
      assert forall k :: !IsFieldName(fields, k) ==> k != f.name;
      r
  }

  /** One iteration of the loop of `convert_attributes`: a field the
      record holds has its value replaced by its converted value; a field
      it lacks leaves it as it is. */
  function ConvertField(f: Field, d: Record, registry: Registry,
                        run: (ConverterId, Value) -> Result<Value, string>, cached: bool): (r: Result<Record, Error>)
    ensures f.name !in Keys(d) ==> r == Success(d)
    ensures f.name in Keys(d) ==>
              var v := Get(d, f.name).value;
              && (r.Success? <==> Resolve(registry, f, v, cached).Success? &&
                                  Apply(ResolveConverter(registry, f, v), v, run).Success?)
              && (r.Success? ==> r.value == Put(d, f.name, Apply(ResolveConverter(registry, f, v), v, run).value))
    ensures r.Failure? ==> r.error.Raised? || (cached && r.error.Unhashable?)
  {
    if f.name in Keys(d) then
      var v := Get(d, f.name).value;
      var c :- Resolve(registry, f, v, cached);
      var w :- Apply(c, v, run);
      Success(Put(d, f.name, w))
    else Success(d)
  }

  /** With one field, `convert_attributes` is one iteration of its loop. */
  lemma ConvertOneField(fields: seq<Field>, d: Record, registry: Registry,
                        run: (ConverterId, Value) -> Result<Value, string>, cached: bool)
    requires |fields| == 1
    ensures var step := ConvertField(fields[0], d, registry, run, cached);
            ConvertAttributes(fields, d, registry, run, cached) ==
              if step.Failure? then Failure(step.error) else Success(step.value)
  {
    assert fields[1..] == [];
  }

  /** Every field the record holds ends up holding its converted value. */
  lemma {:induction false} ConvertAttributesFields(fields: seq<Field>, d: Record, registry: Registry,
                                                   run: (ConverterId, Value) -> Result<Value, string>, cached: bool)
    requires DistinctNames(fields)
    requires ConvertAttributes(fields, d, registry, run, cached).Success?
    ensures var r := ConvertAttributes(fields, d, registry, run, cached).value;
            forall i :: 0 <= i < |fields| && fields[i].name in Keys(d) ==>
              var v := Get(d, fields[i].name).value;
              Apply(ResolveConverter(registry, fields[i], v), v, run) == Success(Get(r, fields[i].name).value)
    decreases |fields|
  {
    if |fields| > 0 {
      var f := fields[0];
      var rest := fields[1..];
      var d' := ConvertField(f, d, registry, run, cached).value;
      assert ConvertAttributes(fields, d, registry, run, cached) == ConvertAttributes(rest, d', registry, run, cached);
      var r := ConvertAttributes(rest, d', registry, run, cached).value;
      RestDistinct(fields);
      ConvertAttributesFields(rest, d', registry, run, cached);
      assert Get(r, f.name) == Get(d', f.name);
      forall i | 0 <= i < |fields| && fields[i].name in Keys(d)
        ensures var v := Get(d, fields[i].name).value;
                Apply(ResolveConverter(registry, fields[i], v), v, run) == Success(Get(r, fields[i].name).value)
      {
        if i > 0 {
          assert fields[i] == rest[i - 1];
          assert fields[i].name != f.name;
          assert Get(d', fields[i].name) == Get(d, fields[i].name);
        }
      }
    }
  }

  /** Field `f`, holding `v`, converts: its resolution and its converter
      both return. */
  predicate FieldConverts(f: Field, v: Value, registry: Registry,
                          run: (ConverterId, Value) -> Result<Value, string>, cached: bool) {
    Resolve(registry, f, v, cached).Success? && Apply(ResolveConverter(registry, f, v), v, run).Success?
  }

  /** Every field the record holds converts. */
  predicate AllFieldsConvert(fields: seq<Field>, d: Record, registry: Registry,
                             run: (ConverterId, Value) -> Result<Value, string>, cached: bool) {
    forall i :: 0 <= i < |fields| && fields[i].name in Keys(d) ==>
      FieldConverts(fields[i], Get(d, fields[i].name).value, registry, run, cached)
  }

  /** `convert_attributes` returns exactly when every field the record
      holds converts: nothing else raises. */
  lemma {:induction false} ConvertAttributesSucceeds(fields: seq<Field>, d: Record, registry: Registry,
                                                     run: (ConverterId, Value) -> Result<Value, string>, cached: bool)
    requires DistinctNames(fields)
    ensures ConvertAttributes(fields, d, registry, run, cached).Success? <==>
            AllFieldsConvert(fields, d, registry, run, cached)
    decreases |fields|
  {
    if |fields| > 0 {
      var f := fields[0];
      var step := ConvertField(f, d, registry, run, cached);
      if step.Failure? {
        assert f.name in Keys(d) && !FieldConverts(f, Get(d, f.name).value, registry, run, cached);
      } else {
        var rest, d' := fields[1..], step.value;
        assert ConvertAttributes(fields, d, registry, run, cached) == ConvertAttributes(rest, d', registry, run, cached);
        RestDistinct(fields);
        ConvertAttributesSucceeds(rest, d', registry, run, cached);
        AllFieldsConvertStep(fields, d, registry, run, cached);
      }
    }
  }

  /** After a first field that converts, the remaining fields convert on
      the updated record exactly when all fields convert on the original. */
  lemma AllFieldsConvertStep(fields: seq<Field>, d: Record, registry: Registry,
                             run: (ConverterId, Value) -> Result<Value, string>, cached: bool)
    requires |fields| > 0 && DistinctNames(fields)
    requires ConvertField(fields[0], d, registry, run, cached).Success?
    ensures var d' := ConvertField(fields[0], d, registry, run, cached).value;
            AllFieldsConvert(fields, d, registry, run, cached) <==> AllFieldsConvert(fields[1..], d', registry, run, cached)
  {
    var f, rest := fields[0], fields[1..];
    var d' := ConvertField(f, d, registry, run, cached).value;
    RestDistinct(fields);
    if AllFieldsConvert(fields, d, registry, run, cached) {
      forall i | 0 <= i < |rest| && rest[i].name in Keys(d')
        ensures FieldConverts(rest[i], Get(d', rest[i].name).value, registry, run, cached)
      {
        assert rest[i] == fields[i + 1];
        ConvertFieldElsewhere(f, d, registry, run, cached, rest[i].name);
      }
    }
    if AllFieldsConvert(rest, d', registry, run, cached) {
      forall i | 0 <= i < |fields| && fields[i].name in Keys(d)
        ensures FieldConverts(fields[i], Get(d, fields[i].name).value, registry, run, cached)
      {
        if i > 0 {
          assert fields[i] == rest[i - 1];
          ConvertFieldElsewhere(f, d, registry, run, cached, fields[i].name);
        }
      }
    }
  }

  /** A converted field leaves every other key as it was. */
  lemma ConvertFieldElsewhere(f: Field, d: Record, registry: Registry,
                              run: (ConverterId, Value) -> Result<Value, string>, cached: bool, k: string)
    requires ConvertField(f, d, registry, run, cached).Success? && k != f.name
    ensures var d' := ConvertField(f, d, registry, run, cached).value;
            (k in Keys(d') <==> k in Keys(d)) && Get(d', k) == Get(d, k)
  {
  }

  /** The fields after the first have distinct names, none of them the
      first's. */
  lemma RestDistinct(fields: seq<Field>)
    requires |fields| > 0 && DistinctNames(fields)
    ensures DistinctNames(fields[1..])
    ensures !IsFieldName(fields[1..], fields[0].name)
  {
    var rest := fields[1..];
    forall i, j | 0 <= i < j < |rest| ensures rest[i].name != rest[j].name {
      assert rest[i] == fields[i + 1] && rest[j] == fields[j + 1];
    }
    forall i | 0 <= i < |rest| ensures rest[i].name != fields[0].name {
      assert rest[i] == fields[i + 1];
    }
  }

  /** The cache is invisible when every field value the record holds is
      hashable: the call as written agrees with the corrected one. */
  lemma {:induction false} ConvertAttributesCacheTransparent(fields: seq<Field>, d: Record, registry: Registry,
                                                             run: (ConverterId, Value) -> Result<Value, string>)
    requires DistinctNames(fields)
    requires forall i :: 0 <= i < |fields| && fields[i].name in Keys(d) ==> Hashable(Get(d, fields[i].name).value)
    ensures ConvertAttributes(fields, d, registry, run, true) == ConvertAttributes(fields, d, registry, run, false)
    decreases |fields|
  {
    if |fields| > 0 {
      var f := fields[0];
      var rest := fields[1..];
      var step := ConvertField(f, d, registry, run, true);
      assert step == ConvertField(f, d, registry, run, false);
      if step.Success? {
        var d' := step.value;
        RestDistinct(fields);
        forall i | 0 <= i < |rest| && rest[i].name in Keys(d') ensures Hashable(Get(d', rest[i].name).value) {
          assert rest[i] == fields[i + 1];
          assert Get(d', rest[i].name) == Get(d, rest[i].name);
        }
        ConvertAttributesCacheTransparent(rest, d', registry, run);
      }
    }
  }

  /** Field `i` is one the record holds, with an unhashable value. */
  predicate UnhashableAt(fields: seq<Field>, d: Record, i: nat) {
    i < |fields| && fields[i].name in Keys(d) && !Hashable(Get(d, fields[i].name).value)
  }

  /** As written, a field whose value is unhashable makes the whole call
      fail, whatever its converter would have done. */
  lemma {:induction false} ConvertAttributesCachedRejects(fields: seq<Field>, d: Record, registry: Registry,
                                                          run: (ConverterId, Value) -> Result<Value, string>, i: nat)
    requires DistinctNames(fields)
    requires UnhashableAt(fields, d, i)
    ensures ConvertAttributes(fields, d, registry, run, true).Failure?
    decreases |fields|
  {
    var step := ConvertField(fields[0], d, registry, run, true);
    if i == 0 {
      assert step.Failure?;
    } else if step.Success? {
      var rest, d' := fields[1..], step.value;
      assert ConvertAttributes(fields, d, registry, run, true) == ConvertAttributes(rest, d', registry, run, true);
      assert DistinctNames(rest) && UnhashableAt(rest, d', i - 1) by {
        RestDistinct(fields);
        assert rest[i - 1] == fields[i];
        assert fields[i].name != fields[0].name;
      }
      ConvertAttributesCachedRejects(rest, d', registry, run, i - 1);
    }
  }
}
