# dataclass-mapper, modelled in Dafny

This project models the mapping engine of `dataclass-mapper`. The engine takes loosely structured nested key/value records (Python dicts, lists of them, or one-shot iterators over them) and turns them into dataclass instances. It has two parts.

**Record transforms** (`datamap/dicts.py`):
- recursive flattening of nested dicts, with a key-merge strategy;
- the three key-normalisation stages, in order: snake-casing every key, renaming `(old, new)` pairs, and removing keys;
- choice of the target dataclass, either explicit or named by a discriminator key and looked up in a module;
- dispatch on the input's shape: one dict, a finite collection (eager), or a lazy non-collection iterable.

**Converter resolution** (`datamap/converters.py`):
- candidate type names from a field's declared type;
- prioritised lookup keys built from those names;
- first-hit lookup in the converter registry, with `identity` as the fallback;
- per-field conversion of a record.

Modules, one per component:
- `Wrappers`: `Option` and `Result`.
- `Values`:
  - Python values as the engine distinguishes them;
  - `type(v).__name__` and truthiness;
  - the errors the engine raises, with their messages.
- `Records`: the dict operations used, on ordered entry lists whose keys are unique.
  - Lookup returns the last entry with a key.
  - Assignment replaces in place or appends.
  - Deletion is of a set of keys.
  - `dict(items)` keeps the last value of each key.
- `Inflection`: the inflector's `camelize` and `underscore`, as function parameters, plus an ASCII instance.
- `Flatten`: `DefaultKeyMergerStrategy.apply` and `flatten_dict`, with a reference definition (`Leaves`).
- `KeyNormalizer`: `pep8_compliant_keys`, `rename_keys` and `remove_keys`.
- `Converters`: `converters.py` as a whole.
- `Materializer`: `resolve_data_class`, `from_dict`, `from_collection`, `from_iterable` and `from_dicts`.
- `Examples`: the repository's own scenarios and unit-test cases, worked through the model.

The parts the engine calls but does not define are parameters of the model:
- the inflector;
- the converter registry;
- the converter functions (`Env.run`);
- typed construction of an instance from a record, which the dacite library performs (`Env.construct`);
- whether converter resolution sits behind `lru_cache`, as the code declares it (`Env.cached` true), or is the corrected uncached resolution (`Env.cached` false). See "## Findings".

An exception is a `Failure` carrying an `Error`. A module object is a map from attribute names to dataclasses.

Where the code differs from its prose description, the model follows the code:
- With suppression on, renaming drops every falsy value (None, False, 0, ""), not only None.
- Bracket groups of a string annotation are found by a lazy `\[(.*?)\]` scan. The first `]` closes a group, so `"Optional[List[int]]"` yields `List[int`, not the outermost group.
- For a field annotated with the string `"Optional[int]"` and an integer value, the lookup keys are `int_int` and `int`. Neither is registered, so resolution gives `identity`, not `int_datetime` (`Examples.OptionalIntFieldScenario`). The timestamp converter is reached through a live `datetime` field (`Examples.DatetimeFieldScenario`).

## Model

| member | source | states |
|---|---|---|
| Records.FromItems | datamap/dicts.py:59 | `dict(items)` holds no key twice; each key holds the value of its last pair; keys present are exactly those of the pairs |
| Records.ExtendKeys | datamap/dicts.py:59 | updating keeps the existing keys in place and appends new keys in order of first occurrence |
| Records.FromItemsDistinct | datamap/dicts.py:59 | pairs with distinct keys make the same dict, in the same order |
| Records.ExtendFromItems | datamap/dicts.py:55-59 | `acc.update(dict(items))` equals `acc.update(items)`: collapsing pairs into a dict first changes neither values nor key order |
| Flatten.MergeKey | datamap/dicts.py:41-44 | a falsy parent (None or "") leaves the key unchanged; otherwise the merged key is the parent followed by the camelized key |
| Flatten.FlattenDict | datamap/dicts.py:47-59 | the flattened dict holds no key twice and no dict values |
| Flatten.FlattenLookup | datamap/dicts.py:53-59 | a key is present exactly when some leaf path merges to it, lists included, and holds the value of the last such leaf in depth-first order |
| Flatten.FlattenDistinct | datamap/dicts.py:53-59 | when leaf paths merge to distinct keys, the result is exactly the leaves, in depth-first order |
| Flatten.FlattenAsLeaves | datamap/dicts.py:47-59 | flattening is `dict(...)` of the leaves in depth-first order, so on a collision the key sits where its first leaf would and holds its last leaf's value |
| Flatten.FlattenIdempotent | datamap/dicts.py:47-59 | with the default strategy, flattening a flattened dict changes nothing |
| KeyNormalizer.Pep8Keys | datamap/dicts.py:27-28 | the keys are exactly the snake-cased input keys, none twice; flatness is kept |
| KeyNormalizer.Pep8KeysValue | datamap/dicts.py:27-28 | every value survives under its snake-cased key unless a later key snake-cases to the same name |
| KeyNormalizer.Pep8KeysIdentity | datamap/dicts.py:27-28 | a dict whose keys are already snake-case comes back unchanged |
| KeyNormalizer.RenameStep | datamap/dicts.py:221-224 | the old key is gone; the new key holds the popped value (None if absent) when that value is truthy or suppression is off, and otherwise keeps what it had; every other key is unchanged |
| KeyNormalizer.Popped | datamap/dicts.py:222 | `pop(old, None)` gives the value stored under the key when present, and None when absent |
| KeyNormalizer.RenameAll | datamap/dicts.py:221-224 | keys no pair mentions keep their values; unique keys and flatness are kept |
| KeyNormalizer.RenameKeys | datamap/dicts.py:212-225 | falsy data and empty pair lists return the input; truthy non-dicts fail with the expected-a-dict error; unmentioned keys keep their values |
| KeyNormalizer.RenameAllPairs | datamap/dicts.py:219-224 | for pairs naming distinct keys, every old key ends absent and every new key holds the old value when it is truthy or suppression is off |
| KeyNormalizer.RenameAbsentKey | datamap/dicts.py:222-224 | in a non-empty dict holding neither key, renaming appends `new: None`, or with suppression on leaves the dict as it was |
| KeyNormalizer.RemoveKeys | datamap/dicts.py:228-237 | with no keys or falsy data the input comes back; a truthy non-dict fails; otherwise exactly the listed keys go and every other entry keeps its value |
| Records.WithoutConcat | datamap/dicts.py:234-236 | removal keeps the surviving entries in their original order |
| KeyNormalizer.RemoveKeysIdempotent | datamap/dicts.py:228-237 | removing the same keys twice is removing them once |
| KeyNormalizer.RemoveAbsentKeys | datamap/dicts.py:228-237 | removing keys the dict lacks returns it unchanged |
| Materializer.ResolveDataClass | datamap/dicts.py:92-112 | an explicit class wins; without a namespace nothing resolves; a falsy discriminator (absent, None, `""`, 0, False or empty) gives nothing even when the namespace has a `""` entry; a non-empty string discriminator (default key `resource_type`) names the class when it is in the namespace, a missing name gives nothing, and a truthy non-string name is an error |
| Materializer.Normalise | datamap/dicts.py:79-83 | after normalisation no key occurs twice, removed keys are absent, a flattened record is flat, and keys neither renamed nor removed hold their snake-cased values |
| Materializer.NormaliseRenames | datamap/dicts.py:81-83 | for pairwise independent pairs, no source key survives normalisation; every destination that is not removed holds the value popped from the snake-cased record, or None when its source was absent; an empty snake-cased record normalises to the empty record |
| Materializer.NormaliseFixedPoint | datamap/dicts.py:79-83 | a record that is already normalised passes through unchanged |
| Materializer.FromDict | datamap/dicts.py:65-89 | falsy input comes back; a truthy non-dict fails with the dict guard's error; otherwise, by the class `resolve_data_class` finds for the normalised record: its error is the result; no class gives the normalised record; a class gives the instance constructed from the converted record, or the conversion's error, or the construction's exception. Resolution raises `unhashable type` only when `Env.cached` is on |
| Materializer.FromDictInstance | datamap/dicts.py:84-89 | with an explicit class whose field names are distinct, the conversion succeeds exactly when every present field converts, and `from_dict` succeeds exactly when the conversion and then the construction succeed |
| Materializer.Collect | datamap/dicts.py:153-166 | `list(...)` of per-element outcomes gives every value in order, or the first error |
| Materializer.FromCollection | datamap/dicts.py:143-169 | a non-dict collection yields one `from_dict` result per element, in order, and fails exactly when some element fails, with the first failure; anything else fails with the expected-a-collection error |
| Materializer.FromIterable | datamap/dicts.py:115-140 | a non-collection iterable yields a lazy map with one outcome per element, each element's `from_dicts` result; anything else fails with the expected-an-iterable error |
| Materializer.FromDicts | datamap/dicts.py:172-209 | a non-collection iterable gives exactly the `from_iterable` result, a non-dict collection exactly the `from_collection` result, and a dict or non-iterable exactly the `from_dict` result; streams never fail at the call, and failures are never the collection or iterable guards' errors |
| Examples.EmptyStringScenario | datamap/dicts.py:191-200 | an empty string is a collection, so `from_dicts` gives the empty list, for any options |
| Materializer.FromDictsList | datamap/dicts.py:191-200 | a list succeeds exactly when every item succeeds under `from_dict`, and yields their results in order |
| Materializer.StreamElementIndependent | datamap/dicts.py:124-136 | element i of a stream's result depends only on element i of the input |
| Materializer.NestedListRejected | datamap/dicts.py:152-166 | a list nested in a list is rejected by `from_dict` |
| Converters.DefaultRegistryContents | datamap/converters.py:17-19 | the shipped registry's only key is `int_datetime`, mapped to the timestamp parser |
| Converters.ConverterNames | datamap/converters.py:22-29 | exactly 2k keys: every type-scoped key lower-cased, then every plain key lower-cased, each tier in name order |
| Converters.Split | datamap/converters.py:37 | the parts hold no separator and join back to the input |
| Converters.SplitJoin | datamap/converters.py:37 | splitting undoes joining of separator-free parts |
| Converters.NamedArgs | datamap/converters.py:42-47 | a single argument yields its name if it has one; the names of a concatenation are the names of each part, concatenated (with `NamedArgsConcat`), so order and repeats are kept |
| Converters.NamedArgsConcat | datamap/converters.py:42-47 | the names of `a + b` are the names of `a` followed by those of `b` |
| Converters.BracketGroups | datamap/converters.py:38 | every group is free of `]` and of line breaks |
| Converters.BracketGroupsCons | datamap/converters.py:38 | in `a[g]b`, with no `[` in `a` and no `]` or line break in `g`, the groups are `g` followed by the groups of `b` |
| Converters.AnnotationGroupNames | datamap/converters.py:33-41 | in `a[g]b`, with no `[` in `a` and no `]` or line break in `g`, the names are the comma-split parts of `g` followed by the names of `b` when `b` holds a group, and only those parts when it holds none |
| Converters.ResolveAttributeTypeNames | datamap/converters.py:32-48 | an annotation yields at least one comma-free name (group by group in order: `AnnotationGroupNames`); a live type yields exactly its named arguments in order (as `NamedArgs`), or else its own name, or else nothing |
| Converters.WrappedAnnotationNames | datamap/converters.py:33-41 | `P[inner]` yields the comma-split contents of the brackets |
| Converters.GenericAnnotationNames | datamap/converters.py:33-41 | an annotation written as `P[n1,...,nk]` yields exactly `n1..nk` |
| Converters.PlainAnnotationNames | datamap/converters.py:33-41 | an annotation without brackets is split as a whole |
| Converters.FirstHit | datamap/converters.py:54-63 | the entry of the first key the registry holds, or `identity` exactly when it holds none |
| Converters.ResolveByNames | datamap/converters.py:53-64 | any type-scoped hit beats every plain hit; within a tier the first hit wins; `identity` exactly when no key hits |
| Converters.ResolveConverter | datamap/converters.py:51-64 | the two-tier first-hit rule applied to the value's type name and the field's candidate names |
| Converters.ResolveConverterDeterministic | datamap/converters.py:51-64 | values of the same type resolve to the same converter |
| Converters.Apply | datamap/converters.py:13-14 | `identity` returns its argument; a registered converter's result or exception is passed on |
| Converters.ConvertField | datamap/converters.py:70-74 | a field absent from the record leaves it unchanged; a present field succeeds exactly when its resolution and its converter both succeed, and then holds the converted value in place of the old one |
| Converters.ConvertAttributes | datamap/converters.py:67-75 | keys and their order are kept; keys that are not field names are unchanged; failures are converter exceptions, plus `unhashable type` from the cached resolver when `cached` is on (when it succeeds: `ConvertAttributesSucceeds`) |
| Converters.ConvertAttributesSucceeds | datamap/converters.py:67-75 | for fields with distinct names, the call succeeds exactly when every field present in the record resolves (no `unhashable type` under the cache) and its converter does not raise on its value |
| Converters.ConvertAttributesCacheTransparent | datamap/converters.py:51-52 | when every field value the record holds is hashable, the cached call and the uncached call give the same result |
| Converters.ConvertAttributesCachedRejects | datamap/converters.py:51-52 | with the cache, one unhashable value under a field name makes the whole call fail |
| Converters.ConvertAttributesFields | datamap/converters.py:69-74 | for fields with distinct names (`DistinctNames`) and a call that succeeds, every field present in the record ends up holding its resolved converter applied to its value; whether the call succeeds is stated by `ConvertAttributesSucceeds` |
| Converters.ResolveConverterCached | datamap/converters.py:51-52 | resolution behind the cache raises `unhashable type` for an unhashable value and otherwise agrees with resolution |
| Converters.Resolve | datamap/converters.py:51-52 | the resolution step of one field (the call at line 72): with the cache it raises `unhashable type` exactly for an unhashable value; whenever it succeeds it gives the uncached resolution's converter |
| Converters.CachedResolutionRejectsList | datamap/converters.py:51-52 | a `List[str]` field holding a list makes the cached resolver raise where resolution itself gives `identity` |
| Examples.FlattenTypeScenario | tests/unit/test_dicts.py:16-59 | a nested `type` dict flattens to `typeId` and `typeName` after the top-level keys, for any inflector that camelizes `id` and `name` as `Id` and `Name` |
| Examples.RenameAbsentScenario | tests/unit/test_dicts.py:358-395 | a missing old key gives `full_name: None`, or nothing under suppression |
| Examples.ConverterNamesScenario | tests/unit/test_converters.py:76-88 | for a `str` value and the names `str`, `datetime`, `UUID`, `Any`, `NoneType`, the ten keys `str_str` … `str_nonetype` followed by `str` … `nonetype`, lower-cased |
| Examples.NestedAnnotationNames | datamap/converters.py:33-41 | an annotation nesting brackets, such as `Union[List[int], None]`, yields the single name `List[int` |
| Examples.TwoGroupNames | datamap/converters.py:33-41 | `p[x]q[y]` yields the comma-split parts of `x` followed by those of `y` |
| Examples.LiveArgumentNames | datamap/converters.py:42-48 | a live generic type yields its named arguments in declaration order, skipping unnamed ones |
| Examples.UnionNames | tests/unit/test_converters.py:55-60 | `Union[Any,NoneType,int]` names all three |
| Examples.DatetimeFieldScenario | tests/unit/test_converters.py:69-74 | any field declared `datetime` holding any integer resolves to the timestamp parser |
| Examples.OptionalIntFieldScenario | datamap/converters.py:51-64 | a field annotated with the string `Optional[int]` holding an integer resolves to `identity`, since neither `int_int` nor `int` is registered |
| Examples.FromDictListScenario | tests/unit/test_dicts.py:511-515 | `from_dict` on a list fails with the dict guard's error naming `list` |
| Examples.FromCollectionDictScenario | tests/unit/test_dicts.py:517-521 | `from_collection` on a dict, even an empty one, fails with the collection guard's error |
| Examples.FromIterableDictScenario | tests/unit/test_dicts.py:523-527 | `from_iterable` on a dict fails with the iterable guard's error |
| Examples.UnhashableFieldScenario | datamap/converters.py:51-52 | with the cache, `from_dict` of a class with one `List[str]` field, on a record holding a list there, raises `unhashable type: 'list'` |
| Examples.CorrectedListFieldScenario | datamap/converters.py:67-75 | without the cache, the same call returns exactly what construction from the unchanged record returns |
| Examples.LazyStreamScenario | tests/unit/test_dicts.py:268-311 | a stream's good element is delivered while its bad element holds its error |

## Left out

- `parse_timestamp` (the only built-in converter) is an opaque converter id. Running converters is the `run` parameter, because the parser depends on the local timezone and on float division.
- Typed construction by dacite and field introspection by `dataclasses.fields` are the `construct` parameter and declared `Field` metadata. Both are foreign library calls.
- The inflector library is a pair of function parameters. The ASCII `Camelize`/`Underscore` only approximate its rules; they cover the keys of the repository's examples.
- Module lookup by a dotted module name (`__import__`) is not modelled; a module is a map from names to dataclasses. An attribute that exists but is not a dataclass is not modelled either.
- The warning logged when a class name is missing is I/O; the model returns "no class".
- `Materializer.ResolveDataClass`: a non-string discriminator is modelled as the error `getattr` raises on a module object. The string-module path, which goes through `__import__`, is not modelled.
- The `lru_cache` on `resolve_converter` is modelled only as the hashing failure below, which `Env.cached` switches on. A cache entry that outlives a registry change is not modelled, because the registry is a parameter.
- `deepcopy` in `rename_keys` and `convert_attributes` is not modelled: all values are immutable.
- Tuples, sets, floats, bytes and user-defined iterables are not among the modelled values. Iterating a string yields its characters. Iterating a dict is not modelled, because every entry point sends a dict to `from_dict` or rejects it before iterating.
- Laziness is modelled as a per-element sequence of outcomes (`MapIter`). Interleaving with the caller's consumption is not modelled.
- Inflection.Lower: lower-cases ASCII letters only. Python's `str.lower`, used for the lookup keys, also lower-cases non-ASCII letters (`"Über"` becomes `"über"`), so `Converters.ConverterNames` and the resolution members do not promise anything about keys with non-ASCII capitals. Unicode case tables are outside the model.
- `datamap/decorators.py` only forwards arguments to the functions above, so it is not part of this model.

## Findings

| source | as written | input that shows it | evidently intended | confidence | as-written member | corrected member |
|---|---|---|---|---|---|---|
| datamap/converters.py:51-52 | `resolve_converter` is wrapped in `lru_cache(typed=True)`, which hashes `(attribute, value)` before resolving | a dataclass field `tags: List[str]` and a record holding `["FR"]`: `convert_attributes` raises `TypeError: unhashable type: 'list'` (dict values and eq-only dataclass instances behave the same) | resolution depends only on the field and the value's type name, so list and dict values resolve like any other (to `identity` here) | high (reading of `functools.lru_cache`), not executed | Converters.ResolveConverterCached, Converters.CachedResolutionRejectsList, Converters.ConvertAttributesCachedRejects, Examples.UnhashableFieldScenario | Converters.ResolveConverter, Converters.ResolveConverterDeterministic, Converters.ConvertAttributesCacheTransparent, Examples.CorrectedListFieldScenario |
