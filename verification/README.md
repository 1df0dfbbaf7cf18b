# GraphQL response value — a Dafny model

This project models `facebook::graphql::response::Value` from cppgraphqlgen
(`GraphQLResponse.cpp`). It is the dynamic value that resolvers build and the
serializer walks. It is a hand-tagged union over the GraphQL result kinds:
Null, Boolean, Int, Float, String, EnumValue, Map, List and Scalar. A Scalar
wraps a nested value.

A Map keeps two things:
- its members as an insertion-ordered sequence of `(name, value)` pairs, which
  is the source of truth;
- a name-to-position index (`_members` in the C++).

The predicate `ResponseValue.Valid` states that the two agree at every level
of the tree. Every indexed name points at an entry with that name. Every entry
is indexed at its own position. It follows that names are distinct and that
the index has one key per entry. Construction establishes `Valid`, and every
operation that returns a value keeps it. The operations that read a Map rely
on it, so they take it as a precondition.

Every operation checks the kind of its receiver first. A C++ exception becomes
an `Err` of the `ResponseErrors.Result` type:
- `InvalidCall` is the `logic_error` thrown on a wrong kind;
- `DuplicateMember` and `MissingMember` are the two `runtime_error`s;
- `OutOfRange` is thrown by `std::vector::at`.

Each of these four errors is thrown before anything is modified. So an `Err`
also means that the receiver keeps its old value. Allocation and length errors
are not modelled (see "## Left out").

Modules:
- `ResponseErrors` (`response_errors.dfy`): the error and result types.
- `ResponseValue` (`response_value.dfy`): the value type, the index
  invariant, and the constructors, copy and moves.
- `ResponseContainers` (`response_containers.dfy`): `reserve`, `size`, both
  `emplace_back` overloads, `find` and both `operator[]` overloads.
- `ResponseAccessors` (`response_accessors.dfy`): the `set<T>`, `get<T>` and
  `release<T>` specialisations.
- `ResponseProperties` (`response_properties.dfy`): properties that span
  several operations.

The C++ `type()` accessor (GraphQLResponse.cpp:175-178) is `ResponseValue.KindOf`.

A move is sometimes described as leaving its source Null. In the code only
move assignment does that (GraphQLResponse.cpp:146). The move constructor
(GraphQLResponse.cpp:76-101) keeps the source's kind and takes only its owned
payload.
`ResponseValue.MoveConstruct` models the constructor, and its `Remnant` result
describes the source it leaves behind.

## Model

| member | source | states |
|---|---|---|
| `ResponseValue.KindOf` | GraphQLResponse.cpp:175-178 | The kind tag of a value. The tag is Null exactly for the Null value, which has no payload. The tag names an owned payload exactly for Map, List, String, EnumValue and Scalar. |
| `ResponseValue.Construct` | GraphQLResponse.cpp:12-50 | The value constructed from a kind tag has exactly that kind and satisfies the index invariant. |
| `ResponseValue.FromString` | GraphQLResponse.cpp:52-56 | Constructing from text always gives the String kind (never EnumValue), holding that text. |
| `ResponseValue.FromBoolean` | GraphQLResponse.cpp:58-62 | Constructing from a boolean gives the Boolean kind holding it. |
| `ResponseValue.FromInt` | GraphQLResponse.cpp:64-68 | Constructing from an integer gives the Int kind holding it. |
| `ResponseValue.FromFloat` | GraphQLResponse.cpp:70-74 | Constructing from a float gives the Float kind holding it. |
| `ResponseValue.MoveConstruct` | GraphQLResponse.cpp:76-101 | The new value equals the source. The source keeps its kind. It stays intact exactly when its kind is stored inline (Null, Boolean, Int, Float). For the other kinds it is left hollow. |
| `ResponseValue.Copy` | GraphQLResponse.cpp:103-141 | Copying rebuilds the whole tree kind by kind, and the copy equals the original: same kind, same members in the same order, same index, same items and text. |
| `ResponseValue.MoveAssign` | GraphQLResponse.cpp:143-173 | The target takes the source's kind and payload, whatever it held before. The source's kind becomes Null. Validity carries over to the target. |
| `ResponseValue.ConsistentIndexHasDistinctNames` | GraphQLResponse.cpp:220-226 | A Map whose index agrees with its entries has no two entries with the same name. |
| `ResponseValue.ConsistentIndexIsUnique` | GraphQLResponse.cpp:220-226 | The entries determine the index: two indexes that both agree with the same entries are equal. |
| `ResponseValue.IndexSizeMatchesEntries` | GraphQLResponse.cpp:198-203 | The index has exactly as many names as the Map has entries. |
| `ResponseContainers.Reserve` | GraphQLResponse.cpp:180-196 | On a Map or a List it succeeds and changes nothing; capacity errors are not modelled. Any other kind fails with InvalidCall. |
| `ResponseContainers.Size` | GraphQLResponse.cpp:198-211 | A Map gives its entry count, which equals its index size. A List gives its item count. Any other kind fails with InvalidCall. |
| `ResponseContainers.AppendKeepsIndexConsistent` | GraphQLResponse.cpp:220-226 | Indexing a new name at the old size while appending its entry keeps the index consistent. |
| `ResponseContainers.EmplaceMember` | GraphQLResponse.cpp:213-227 | A non-Map fails with InvalidCall. A name already among the entries fails with DuplicateMember. Otherwise the size grows by exactly one, earlier entries are untouched, the new entry is last, its name is indexed at the old size, and the result is valid. |
| `ResponseContainers.Find` | GraphQLResponse.cpp:229-244 | A non-Map fails with InvalidCall. A Map never fails. The answer is End exactly when no entry carries the name. Otherwise it is a position whose entry carries the name. |
| `ResponseContainers.FindMatchesScan` | GraphQLResponse.cpp:236-243 | Lookup through the index gives the same answer as a linear scan of the entries for the first entry with that name. |
| `ResponseContainers.LookupMember` | GraphQLResponse.cpp:246-256 | A non-Map fails with InvalidCall. MissingMember happens exactly when `find` reaches End, that is, when no entry has the name. Otherwise the result is the value of the entry with that name. |
| `ResponseContainers.EmplaceItem` | GraphQLResponse.cpp:258-266 | A non-List fails with InvalidCall. Otherwise the item is appended last, earlier items are untouched, and the size grows by one. |
| `ResponseContainers.LookupItem` | GraphQLResponse.cpp:268-276 | A non-List fails with InvalidCall. A position below the size gives that item. Any other position fails with OutOfRange. |
| `ResponseAccessors.SetString` | GraphQLResponse.cpp:278-288 | Accepts exactly String and EnumValue and keeps the kind. A following `get` returns the new text. Any other kind fails with InvalidCall. |
| `ResponseAccessors.SetBoolean` | GraphQLResponse.cpp:290-299 | Accepts exactly Boolean. A following `get` returns the value set. Any other kind fails with InvalidCall. |
| `ResponseAccessors.SetInt` | GraphQLResponse.cpp:301-310 | Accepts exactly Int. A following `get` returns the value set. Any other kind fails with InvalidCall. |
| `ResponseAccessors.SetFloat` | GraphQLResponse.cpp:312-321 | Accepts exactly Float. A following `get` returns the value set. Any other kind fails with InvalidCall. |
| `ResponseAccessors.SetScalar` | GraphQLResponse.cpp:323-332 | Accepts exactly Scalar and keeps the kind. A following `get` returns the value set. Any other kind fails with InvalidCall. |
| `ResponseAccessors.GetMap` | GraphQLResponse.cpp:334-343 | Accepts exactly Map and returns its entries in insertion order. Their names are distinct and their values are valid. Any other kind fails with InvalidCall. |
| `ResponseAccessors.GetList` | GraphQLResponse.cpp:345-354 | Accepts exactly List and returns its items, each valid when the List is. Any other kind fails with InvalidCall. |
| `ResponseAccessors.GetString` | GraphQLResponse.cpp:356-366 | Accepts exactly String and EnumValue and returns the text. Any other kind fails with InvalidCall. |
| `ResponseAccessors.GetBoolean` | GraphQLResponse.cpp:368-377 | Accepts exactly Boolean and returns its payload. Any other kind fails with InvalidCall. |
| `ResponseAccessors.GetInt` | GraphQLResponse.cpp:379-388 | Accepts exactly Int and returns its payload. Any other kind fails with InvalidCall. |
| `ResponseAccessors.GetFloat` | GraphQLResponse.cpp:390-399 | Accepts exactly Float and returns its payload. Any other kind fails with InvalidCall. |
| `ResponseAccessors.GetScalar` | GraphQLResponse.cpp:401-410 | Accepts exactly Scalar and returns the wrapped value, which is valid. Any other kind fails with InvalidCall. |
| `ResponseAccessors.ReleaseMap` | GraphQLResponse.cpp:412-425 | Accepts exactly Map and hands over the same entries `get` shows, in order, with valid values. It leaves an empty Map with a cleared index, which equals a freshly constructed Map. Any other kind fails with InvalidCall. |
| `ResponseAccessors.ReleaseList` | GraphQLResponse.cpp:427-438 | Accepts exactly List and hands over the items `get` shows, each valid when the List is. It leaves an empty List. Any other kind fails with InvalidCall. |
| `ResponseAccessors.ReleaseString` | GraphQLResponse.cpp:440-452 | Accepts exactly String and EnumValue and hands over the text `get` shows. Any other kind fails with InvalidCall. |
| `ResponseAccessors.ReleaseScalar` | GraphQLResponse.cpp:454-465 | Accepts exactly Scalar and hands over the wrapped value `get` shows. Any other kind fails with InvalidCall. |
| `ResponseProperties.ConstructedHoldsZero` | GraphQLResponse.cpp:12-50 | A value constructed from a kind reads back that kind's zero payload. Map and List are empty with size 0. The text is empty. Boolean is false, Int is 0, Float is 0. A Scalar wraps Null. Null has no size. |
| `ResponseProperties.RebuildMap` | GraphQLResponse.cpp:213-227 | Inserting a sequence of members into a fresh Map one by one succeeds exactly when the names are distinct. Otherwise it fails with DuplicateMember. On success the Map's entries are exactly that sequence and the Map is valid. |
| `ResponseProperties.ReleaseMapRoundTrip` | GraphQLResponse.cpp:412-425 | Releasing a Map's members and inserting them in order into a fresh Map gives back the original value, index included. |
| `ResponseProperties.RebuildList` | GraphQLResponse.cpp:258-266 | Appending a sequence of items to a fresh List one by one gives a valid List holding exactly that sequence. |
| `ResponseProperties.ReleaseListRoundTrip` | GraphQLResponse.cpp:427-438 | Releasing a List's items and appending them to a fresh List gives back the original value. |
| `ResponseProperties.ReleaseStringRoundTrip` | GraphQLResponse.cpp:440-452 | Releasing the text and setting it into a fresh value of the same kind (String or EnumValue) gives back the original. For a String, the text constructor does the same. |
| `ResponseProperties.ReleaseScalarRoundTrip` | GraphQLResponse.cpp:454-465 | Releasing the wrapped value and setting it into a fresh Scalar gives back the original. |
| `ResponseProperties.EmplaceMemberThenLookup` | GraphQLResponse.cpp:213-256 | After inserting a new name, `find` places it at the old size and `operator[]` returns its value. Every other name gets the same `find` and `operator[]` answers as before. |
| `ResponseProperties.EmplaceItemThenLookup` | GraphQLResponse.cpp:258-276 | After appending an item, the List's size is one larger, and the item is at the old size. Every earlier position answers as before. |
| `ResponseProperties.EmplaceEach` | GraphQLResponse.cpp:213-227 | Inserting a sequence of members and carrying on past each DuplicateMember failure keeps the Map valid. The original entries stay in front, and the entry count grows by exactly the number of successful insertions. |
| `ResponseProperties.EmplaceMemberNames` | GraphQLResponse.cpp:213-227 | One insertion succeeds exactly when its name is not among the Map's names. After a success the names are the old ones plus that name. |
| `ResponseProperties.EmplaceEachCountsSuccesses` | GraphQLResponse.cpp:213-227 | The number of insertions that succeed equals the number of calls whose name was new: not in the Map at the start and not carried by an earlier call. |
| `ResponseProperties.EmplaceEachSize` | GraphQLResponse.cpp:198-227 | After such a sequence, `size` is the old size plus the number of calls that carried a new name. |
| `ResponseProperties.EmplaceEachKeepsNames` | GraphQLResponse.cpp:213-227 | After such a sequence, every name that was inserted is present, whether its insertion succeeded or was rejected as a duplicate. |
| `ResponseProperties.MovedFromSourceRejects` | GraphQLResponse.cpp:143-173 | After a move assignment, every kind-checked operation on the source fails with InvalidCall. |

## Left out

- The schema surface in `samples/TodaySchema.h`. It is generated code: pure-virtual getters that return futures, plus resolver prototypes without bodies. There is no behaviour in it to model.
- Resolver dispatch, the `Operations` root binding, introspection, request ids and concurrent field resolution: the code for these is not part of this model. Asynchrony also falls outside a sequential model.
- JSON serialization, query parsing and transport: collaborators not present in the modelled file.
- Float payloads are `real` and are only stored and returned. Double-precision arithmetic and rounding do not arise.
- The Int payload is a 32-bit integer. `GraphQLResponse.h`, which declares `IntType`, is not part of this model; the type is taken to be a 32-bit `int`. The payload is only stored and returned.
- `size_t` sizes and positions are unbounded `nat`s. Wrap-around at `SIZE_MAX` is not modelled.
- ResponseContainers.Reserve: allocation and length errors are not modelled. In the C++, `reserve` throws `length_error` when `count` exceeds the container's `max_size()`, and any allocation (`reserve`, `insert`, `emplace_back`) can throw `bad_alloc`. The model's `Reserve` succeeds on every Map or List.
- ResponseContainers.EmplaceMember: an allocation failure partway through is not modelled. In the C++ the index entry is inserted (line 225) before the member is appended (line 226). If the append throws, the index keeps a name with no entry behind it. `find` then reports End for that name while a retry reports DuplicateMember.
- Container capacity: `reserve` is modelled as a no-op on contents and size, with its kind check.
- Exception message texts are not modelled, only the exception class. The message at GraphQLResponse.cpp:272 names `emplace_back` although it is raised by `operator[](size_t)`. This affects the text only.
- Self-move-assignment (`x = std::move(x)`) is not modelled. The functions take the target and the source as separate values, so aliasing cannot be expressed. In the C++ such a call leaves `x` with kind Null.
- ResponseValue.MoveConstruct: a hollow source is recorded only by its kind. Using one would dereference a null pointer, and that is not modelled.
- ResponseAccessors.ReleaseString: does not state what the value holds afterwards. A moved-from `std::string` is valid but unspecified.
- ResponseAccessors.ReleaseScalar: does not state what the Scalar holds afterwards. The wrapped value is move-constructed out. As `MoveConstruct` describes, that leaves it intact when its kind is Null, Boolean, Int or Float, and hollow for the other kinds.
- ResponseAccessors.SetScalar: does not return the argument's own state afterwards. It is move-assigned from, so it becomes Null, as `MoveAssign` describes.
- Raw pointers and ownership (`unique_ptr` resets and the unused slots of inactive kinds) are not modelled. Each kind carries only its own payload.
