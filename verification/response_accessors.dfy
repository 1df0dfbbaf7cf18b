/** The typed accessors of a response value: the `set<T>`, `get<T>` and
    `release<T>` specialisations. The String family accepts both the String
    and the EnumValue kind; every other family accepts exactly one kind. A
    wrong kind fails with InvalidCall.
 */
module ResponseAccessors {
  import opened ResponseErrors
  import opened ResponseValue

  /** `get<const MapType&>()`: the members in insertion order. */
  function GetMap(v: Value): (r: Result<seq<Entry>>)
    requires Valid(v)
    ensures r.Ok? <==> KindOf(v) == Kind.Map
    ensures r.Err? ==> r.error == InvalidCall
    ensures r.Ok? ==> r.value == v.entries && DistinctNames(r.value)
    ensures r.Ok? ==> forall i | 0 <= i < |r.value| :: Valid(r.value[i].1)
  {
    match v
    case Map(entries, index) =>
      ConsistentIndexHasDistinctNames(entries, index);
      Ok(entries)
    case _ => Err(InvalidCall)
  }

  /** `get<const ListType&>()`. */
  function GetList(v: Value): (r: Result<seq<Value>>)
    ensures r.Ok? <==> KindOf(v) == Kind.List
    ensures r.Err? ==> r.error == InvalidCall
    ensures r.Ok? ==> r.value == v.items
    ensures r.Ok? && Valid(v) ==> forall i | 0 <= i < |r.value| :: Valid(r.value[i])
  {
    match v
    case List(items) => Ok(items)
    case _ => Err(InvalidCall)
  }

  /** `get<const StringType&>()`: the text of a String or an EnumValue. */
  function GetString(v: Value): (r: Result<string>)
    ensures r.Ok? <==> KindOf(v) in {Kind.String, Kind.EnumValue}
    ensures r.Err? ==> r.error == InvalidCall
    ensures r.Ok? ==> r.value == v.text
  {
    match v
    case String(s) => Ok(s)
    case EnumValue(s) => Ok(s)
    case _ => Err(InvalidCall)
  }

  /** `get<BooleanType>()`. */
  function GetBoolean(v: Value): (r: Result<bool>)
    ensures r.Ok? <==> KindOf(v) == Kind.Boolean
    ensures r.Err? ==> r.error == InvalidCall
    ensures r.Ok? ==> r.value == v.flag
  {
    match v
    case Boolean(b) => Ok(b)
    case _ => Err(InvalidCall)
  }

  /** `get<IntType>()`. */
  function GetInt(v: Value): (r: Result<Int32>)
    ensures r.Ok? <==> KindOf(v) == Kind.Int
    ensures r.Err? ==> r.error == InvalidCall
    ensures r.Ok? ==> r.value == v.integer
  {
    match v
    case Int(n) => Ok(n)
    case _ => Err(InvalidCall)
  }

  /** `get<FloatType>()`. */
  function GetFloat(v: Value): (r: Result<real>)
    ensures r.Ok? <==> KindOf(v) == Kind.Float
    ensures r.Err? ==> r.error == InvalidCall
    ensures r.Ok? ==> r.value == v.number
  {
    match v
    case Float(x) => Ok(x)
    case _ => Err(InvalidCall)
  }

  /** `get<const ScalarType&>()`: the value the Scalar wraps. */
  function GetScalar(v: Value): (r: Result<Value>)
    requires Valid(v)
    ensures r.Ok? <==> KindOf(v) == Kind.Scalar
    ensures r.Err? ==> r.error == InvalidCall
    ensures r.Ok? ==> r.value == v.inner && Valid(r.value)
  {
    match v
    case Scalar(inner) => Ok(inner)
    case _ => Err(InvalidCall)
  }

  /** `set<StringType>(s)`: replaces the text and keeps the kind, so an
      EnumValue stays an EnumValue. */
  function SetString(v: Value, s: string): (r: Result<Value>)
    ensures r.Ok? <==> KindOf(v) in {Kind.String, Kind.EnumValue}
    ensures r.Err? ==> r.error == InvalidCall
    ensures r.Ok? ==> KindOf(r.value) == KindOf(v) && GetString(r.value) == Ok(s) && Valid(r.value)
  {
    match v
    case String(_) => Ok(Value.String(s))
    case EnumValue(_) => Ok(Value.EnumValue(s))
    case _ => Err(InvalidCall)
  }

  /** `set<BooleanType>(b)`. */
  function SetBoolean(v: Value, b: bool): (r: Result<Value>)
    ensures r.Ok? <==> KindOf(v) == Kind.Boolean
    ensures r.Err? ==> r.error == InvalidCall
    ensures r.Ok? ==> KindOf(r.value) == KindOf(v) && GetBoolean(r.value) == Ok(b) && Valid(r.value)
  {
    match v
    case Boolean(_) => Ok(Value.Boolean(b))
    case _ => Err(InvalidCall)
  }

  /** `set<IntType>(n)`. */
  function SetInt(v: Value, n: Int32): (r: Result<Value>)
    ensures r.Ok? <==> KindOf(v) == Kind.Int
    ensures r.Err? ==> r.error == InvalidCall
    ensures r.Ok? ==> KindOf(r.value) == KindOf(v) && GetInt(r.value) == Ok(n) && Valid(r.value)
  {
    match v
    case Int(_) => Ok(Value.Int(n))
    case _ => Err(InvalidCall)
  }

  /** `set<FloatType>(x)`. */
  function SetFloat(v: Value, x: real): (r: Result<Value>)
    ensures r.Ok? <==> KindOf(v) == Kind.Float
    ensures r.Err? ==> r.error == InvalidCall
    ensures r.Ok? ==> KindOf(r.value) == KindOf(v) && GetFloat(r.value) == Ok(x) && Valid(r.value)
  {
    match v
    case Float(_) => Ok(Value.Float(x))
    case _ => Err(InvalidCall)
  }

  /** `set<ScalarType>(s)`: the wrapped value becomes `s` (move-assigned into
      place). */
  function SetScalar(v: Value, s: Value): (r: Result<Value>)
    requires Valid(s)
    ensures r.Ok? <==> KindOf(v) == Kind.Scalar
    ensures r.Err? ==> r.error == InvalidCall
    ensures r.Ok? ==> Valid(r.value) && KindOf(r.value) == KindOf(v) && GetScalar(r.value) == Ok(s)
  {
    match v
    case Scalar(_) => Ok(Value.Scalar(s))
    case _ => Err(InvalidCall)
  }

  /** `release<MapType>()`: hands over the members in insertion order and
      leaves an empty Map with a cleared index (a moved-from `std::vector` is
      empty). Returns the members and the value left behind. */
  function ReleaseMap(v: Value): (r: Result<(seq<Entry>, Value)>)
    requires Valid(v)
    ensures r.Ok? <==> KindOf(v) == Kind.Map
    ensures r.Err? ==> r.error == InvalidCall
    ensures r.Ok? ==> GetMap(v) == Ok(r.value.0)
    ensures r.Ok? ==> forall i | 0 <= i < |r.value.0| :: Valid(r.value.0[i].1)
    ensures r.Ok? ==> r.value.1 == Construct(Kind.Map) && Valid(r.value.1)
  {
    match v
    case Map(entries, _) => Ok((entries, Value.Map([], map[])))
    case _ => Err(InvalidCall)
  }

  /** `release<ListType>()`: hands over the items and leaves an empty List.
      Returns the items and the value left behind. */
  function ReleaseList(v: Value): (r: Result<(seq<Value>, Value)>)
    ensures r.Ok? <==> KindOf(v) == Kind.List
    ensures r.Err? ==> r.error == InvalidCall
    ensures r.Ok? ==> GetList(v) == Ok(r.value.0)
    ensures r.Ok? && Valid(v) ==> forall i | 0 <= i < |r.value.0| :: Valid(r.value.0[i])
    ensures r.Ok? ==> r.value.1 == Construct(Kind.List)
  {
    match v
    case List(items) => Ok((items, Value.List([])))
    case _ => Err(InvalidCall)
  }

  /** `release<StringType>()`: hands over the text of a String or an
      EnumValue; what the value holds afterwards is unspecified. */
  function ReleaseString(v: Value): (r: Result<string>)
    ensures r.Ok? <==> KindOf(v) in {Kind.String, Kind.EnumValue}
    ensures r.Err? ==> r.error == InvalidCall
    ensures r.Ok? ==> GetString(v) == Ok(r.value)
  {
    match v
    case String(s) => Ok(s)
    case EnumValue(s) => Ok(s)
    case _ => Err(InvalidCall)
  }

  /** `release<ScalarType>()`: hands over the wrapped value; the Scalar keeps
      the value it was move-constructed from (see `MoveConstruct`). */
  function ReleaseScalar(v: Value): (r: Result<Value>)
    requires Valid(v)
    ensures r.Ok? <==> KindOf(v) == Kind.Scalar
    ensures r.Err? ==> r.error == InvalidCall
    ensures r.Ok? ==> GetScalar(v) == Ok(r.value) && Valid(r.value)
  {
    match v
    case Scalar(inner) => Ok(inner)
    case _ => Err(InvalidCall)
  }
}
