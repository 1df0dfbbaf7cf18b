/** The GraphQL response value: a tagged union over the nine result kinds.

    The C++ class keeps a `Type` tag next to one slot per kind and only the
    slot of the active kind is meaningful; here each kind is a constructor
    that carries exactly that slot. A Map holds its insertion-ordered
    `(name, value)` entries, which are the source of truth, together with a
    name-to-position index that must agree with them (see `Valid`).
 */
module ResponseValue {

  /** The `Type` tag of a value. */
  datatype Kind = Map | List | String | Null | Boolean | Int | Float | EnumValue | Scalar

  /** The C++ `IntType` is a plain `int`; the model fixes it at 32 bits. The
      payload is only stored and returned, never computed with. */
  newtype Int32 = x: int | -0x8000_0000 <= x < 0x8000_0000

  /** One member of a Map: its name and its value. */
  type Entry = (string, Value)

  datatype Value =
    | Null
    | Boolean(flag: bool)
    | Int(integer: Int32)
      // the C++ `FloatType` is a `double`; only its storage is modelled
    | Float(number: real)
    | String(text: string)
    | EnumValue(text: string)
    | Map(entries: seq<Entry>, index: map<string, nat>)
    | List(items: seq<Value>)
    | Scalar(inner: Value)

  /** `type()`: the tag of a value. A Null tag carries no payload at all, and
      the tag says whether the payload is owned or stored inline. */
  function KindOf(v: Value): (r: Kind)
    ensures r == Kind.Null <==> v == Value.Null
    ensures OwnsPayload(r) <==> !(v.Null? || v.Boolean? || v.Int? || v.Float?)
  {
    match v
    case Null => Kind.Null
    case Boolean(_) => Kind.Boolean
    case Int(_) => Kind.Int
    case Float(_) => Kind.Float
    case String(_) => Kind.String
    case EnumValue(_) => Kind.EnumValue
    case Map(_, _) => Kind.Map
    case List(_) => Kind.List
    case Scalar(_) => Kind.Scalar
  }

  /** The kinds whose payload lives behind an owning pointer (and so is
      taken away from the source by a move); the others are stored inline. */
  predicate OwnsPayload(k: Kind) {
    k in {Kind.Map, Kind.List, Kind.String, Kind.EnumValue, Kind.Scalar}
  }

  /** Some entry of `entries` carries `name`. */
  predicate HasName(entries: seq<Entry>, name: string) {
    exists i | 0 <= i < |entries| :: entries[i].0 == name
  }

  /** No two entries share a name. */
  ghost predicate DistinctNames(entries: seq<Entry>) {
    forall i, j | 0 <= i < j < |entries| :: entries[i].0 != entries[j].0
  }

  /** The Map index agrees with the entries: every entry's name is indexed at
      that entry's own position, and every indexed name points at an entry
      carrying that name. */
  ghost predicate IndexConsistent(entries: seq<Entry>, index: map<string, nat>) {
    && (forall i | 0 <= i < |entries| :: entries[i].0 in index && index[entries[i].0] == i)
    && (forall name | name in index :: index[name] < |entries| && entries[index[name]].0 == name)
  }

  /** The invariant every value built through this interface keeps: each Map
      in the tree has a consistent index. */
  ghost predicate Valid(v: Value)
    decreases v
  {
    match v
    case Map(entries, index) =>
      && IndexConsistent(entries, index)
      && forall i | 0 <= i < |entries| :: Valid(entries[i].1)
    case List(items) => forall i | 0 <= i < |items| :: Valid(items[i])
    case Scalar(inner) => Valid(inner)
    case _ => true
  }

  /** A consistent index forces distinct names. */
  lemma ConsistentIndexHasDistinctNames(entries: seq<Entry>, index: map<string, nat>)
    requires IndexConsistent(entries, index)
    ensures DistinctNames(entries)
  {
  }

  /** The index is determined by the entries: two consistent indexes of the
      same entries are the same map. */
  lemma {:induction false} ConsistentIndexIsUnique(entries: seq<Entry>, a: map<string, nat>, b: map<string, nat>)
    requires IndexConsistent(entries, a)
    requires IndexConsistent(entries, b)
    ensures a == b
  {
    forall name | name in a
      ensures name in b && b[name] == a[name]
    {
      var p := a[name];
      assert entries[p].0 == name;
    }
    forall name | name in b
      ensures name in a
    {
      var p := b[name];
      assert entries[p].0 == name;
    }
  }

  /** The index has exactly one key per entry. */
  lemma {:induction false} IndexSizeMatchesEntries(entries: seq<Entry>, index: map<string, nat>)
    requires IndexConsistent(entries, index)
    ensures |index| == |entries|
    decreases |entries|
  {
    if |entries| > 0 {
      var n := |entries| - 1;
      var last := entries[n].0;
      var rest := index - {last};
      ConsistentIndexHasDistinctNames(entries, index);
      forall i | 0 <= i < n
        ensures entries[..n][i].0 in rest && rest[entries[..n][i].0] == i
      {
        assert entries[i].0 != last;
      }
      forall name | name in rest
        ensures rest[name] < n && entries[..n][rest[name]].0 == name
      {
        assert index[name] != n;
      }
      IndexSizeMatchesEntries(entries[..n], rest);
      assert index.Keys == rest.Keys + {last};
    }
  }

  /** `Value(Type)`: a value of the given kind holding that kind's zero
      payload; a Scalar wraps a Null value. */
  function Construct(kind: Kind): (r: Value)
    ensures KindOf(r) == kind
    ensures Valid(r)
  {
    match kind
    case Map => Value.Map([], map[])
    case List => Value.List([])
    case String => Value.String("")
    case EnumValue => Value.EnumValue("")
    case Boolean => Value.Boolean(false)
    case Int => Value.Int(0)
    case Float => Value.Float(0.0)
    case Scalar => Value.Scalar(Value.Null)
    case Null => Value.Null
  }

  /** `Value(StringType&&)`: always the String kind, never EnumValue. */
  function FromString(s: string): (r: Value)
    ensures KindOf(r) == Kind.String && r.text == s
    ensures Valid(r)
  {
    Value.String(s)
  }

  /** `Value(BooleanType)`. */
  function FromBoolean(b: bool): (r: Value)
    ensures KindOf(r) == Kind.Boolean && r.flag == b
    ensures Valid(r)
  {
    Value.Boolean(b)
  }

  /** `Value(IntType)`. */
  function FromInt(n: Int32): (r: Value)
    ensures KindOf(r) == Kind.Int && r.integer == n
    ensures Valid(r)
  {
    Value.Int(n)
  }

  /** `Value(FloatType)`. */
  function FromFloat(x: real): (r: Value)
    ensures KindOf(r) == Kind.Float && r.number == x
    ensures Valid(r)
  {
    Value.Float(x)
  }

  /** The copy constructor: rebuilds every owned payload, recursing into the
      members of a Map, the items of a List and the value inside a Scalar,
      and copies the index as it is. The copy equals the original, so (values
      being immutable here) nothing done to one can be seen in the other. */
  function Copy(v: Value): (r: Value)
    ensures r == v
    decreases v
  {
    match v
    case Map(entries, index) =>
      var copied := seq(|entries|, i requires 0 <= i < |entries| => (entries[i].0, Copy(entries[i].1)));
      assert copied == entries by {
        forall i | 0 <= i < |entries|
          ensures copied[i] == entries[i]
        {
          assert copied[i] == (entries[i].0, entries[i].1);
        }
      }
      Value.Map(copied, index)
    case List(items) =>
      var copied := seq(|items|, i requires 0 <= i < |items| => Copy(items[i]));
      assert copied == items by {
        forall i | 0 <= i < |items|
          ensures copied[i] == items[i]
        {
          assert copied[i] == Copy(items[i]);
        }
      }
      Value.List(copied)
    case String(s) => Value.String(s)
    case EnumValue(s) => Value.EnumValue(s)
    case Boolean(b) => Value.Boolean(b)
    case Int(n) => Value.Int(n)
    case Float(x) => Value.Float(x)
    case Scalar(inner) => Value.Scalar(Copy(inner))
    case Null => Value.Null
  }

  /** What the move constructor leaves behind in its source: the kind is kept,
      inline payloads (Boolean, Int, Float) are copied rather than taken, and
      an owned payload is taken away, leaving a kind with nothing behind it. */
  datatype Remnant = Intact(value: Value) | Hollow(kind: Kind)

  function RemnantKind(rem: Remnant): Kind {
    match rem
    case Intact(v) => KindOf(v)
    case Hollow(k) => k
  }

  /** `Value(Value&&)`: the new value takes the source's kind and payload; the
      source keeps its kind (it is not reset to Null) and loses only an owned
      payload. */
  function MoveConstruct(other: Value): (r: (Value, Remnant))
    ensures r.0 == other
    ensures RemnantKind(r.1) == KindOf(other)
    ensures r.1.Hollow? <==> OwnsPayload(KindOf(other))
    ensures r.1.Intact? ==> r.1.value == other
  {
    var kind := KindOf(other);
    (other, if OwnsPayload(kind) then Hollow(kind) else Intact(other))
  }

  /** `operator=(Value&&)` on two distinct objects: the target's old content is
      dropped, it takes the source's kind and payload, and the source becomes
      Null. Returns the target and the source after the assignment. */
  function MoveAssign(target: Value, source: Value): (r: (Value, Value))
    ensures r.0 == source
    ensures KindOf(r.1) == Kind.Null
    ensures Valid(source) ==> Valid(r.0) && Valid(r.1)
  {
    (source, Value.Null)
  }
}
