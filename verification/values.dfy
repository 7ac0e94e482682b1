/** The Python values the mapping engine receives and returns, the errors it
    raises, and the two questions it asks of every value: what its type is
    called and whether it is truthy. */
module Values {
  import opened Wrappers

  /** A Python value as far as the engine can tell them apart.
      `Dict` is an ordered mapping (insertion order, as Python dicts keep it);
      `Iter` is an iterable that is not a collection (an iterator or a
      generator, carrying its type name); `MapIter` is the lazy `map` object
      the engine itself returns, one outcome per element, an error being
      raised only when that element is consumed; `Object` is any other object
      (a dataclass instance, a `datetime`, ...). */
  datatype Value =
    | NoneValue
    | Bool(b: bool)
    | Int(i: int)
    | Str(s: string)
    | List(items: seq<Value>)
    | Dict(entries: seq<Entry>)
    | Iter(typeName: string, elements: seq<Value>)
    | MapIter(results: seq<Result<Value, Error>>)
    | Object(typeName: string, hashable: bool)

  /** One key/value pair of a dict. */
  datatype Entry = Entry(key: string, value: Value)

  /** The entries of a dict, in insertion order. */
  type Record = seq<Entry>

  /** What a shape guard expected to receive. */
  datatype Expected = ExpectedDict | ExpectedCollection | ExpectedIterable

  datatype Error =
      /** The `AttributeError` raised by the shape guards. */
    | InvalidArgument(typeName: string, expected: Expected)
      /** The `TypeError` raised when a discriminator value that is not a
          string is used as an attribute name. */
    | NonStringAttributeName(typeName: string)
      /** The `TypeError` raised when an unhashable value reaches a cache. */
    | Unhashable(typeName: string)
      /** An exception raised by a converter or by typed construction,
          propagated unchanged. */
    | Raised(message: string)

  /** `type(v).__name__` */
  function TypeName(v: Value): string {
    match v
    case NoneValue => "NoneType"
    case Bool(_) => "bool"
    case Int(_) => "int"
    case Str(_) => "str"
    case List(_) => "list"
    case Dict(_) => "dict"
    case Iter(name, _) => name
    case MapIter(_) => "map"
    case Object(name, _) => name
  }

  /** Python truthiness: `None`, `False`, `0`, empty strings, lists and
      dicts are falsy; iterators and other objects are truthy. */
  predicate Truthy(v: Value) {
    match v
    case NoneValue => false
    case Bool(b) => b
    case Int(i) => i != 0
    case Str(s) => |s| > 0
    case List(xs) => |xs| > 0
    case Dict(es) => |es| > 0
    case Iter(_, _) => true
    case MapIter(_) => true
    case Object(_, _) => true
  }

  /** `isinstance(v, Collection)`: sized, iterable containers. */
  predicate IsCollection(v: Value) {
    v.List? || v.Dict? || v.Str?
  }

  /** `isinstance(v, Iterable)` */
  predicate IsIterable(v: Value) {
    IsCollection(v) || v.Iter? || v.MapIter?
  }

  /** The closing words of a shape guard's message. */
  function Expectation(expected: Expected): string {
    match expected
    case ExpectedDict => "expected a dict!"
    case ExpectedCollection => "expected a collection!"
    case ExpectedIterable => "expected an iterable which isn't a collection!"
  }

  /** The text of the exception an error stands for. */
  function Message(e: Error): string {
    match e
    case InvalidArgument(name, expected) =>
      "Invalid argument type " + name + " passed as data, " + Expectation(expected)
    case NonStringAttributeName(name) => "attribute name must be string, not '" + name + "'"
    case Unhashable(name) => "unhashable type: '" + name + "'"
    case Raised(message) => message
  }
}
