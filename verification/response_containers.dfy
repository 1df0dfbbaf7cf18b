/** The container operations of a response value: `reserve`, `size`, the two
    `emplace_back` overloads, `find` and the two `operator[]` overloads.
    Each checks the kind first and fails with InvalidCall on the wrong one.
 */
module ResponseContainers {
  import opened ResponseErrors
  import opened ResponseValue

  /** A `MapType::const_iterator` as `find` returns it: the position of an
      entry, or the end of the entries. */
  datatype Position = At(offset: nat) | End

  /** `reserve(count)`: a capacity hint, so for a Map or a List it changes
      nothing the model can observe. */
  function Reserve(v: Value, count: nat): (r: Result<Value>)
    ensures r.Ok? <==> KindOf(v) in {Kind.Map, Kind.List}
    ensures r.Err? ==> r.error == InvalidCall
    ensures r.Ok? ==> r.value == v
  {
    match v
    case Map(_, _) => Ok(v)
    case List(_) => Ok(v)
    case _ => Err(InvalidCall)
  }

  /** `size()`: the number of members of a Map or items of a List; for a Map
      it is also the number of indexed names. */
  function Size(v: Value): (r: Result<nat>)
    requires Valid(v)
    ensures r.Ok? <==> KindOf(v) in {Kind.Map, Kind.List}
    ensures r.Err? ==> r.error == InvalidCall
    ensures v.Map? ==> r == Ok(|v.entries|) && |v.entries| == |v.index|
    ensures v.List? ==> r == Ok(|v.items|)
  {
    match v
    case Map(entries, index) =>
      IndexSizeMatchesEntries(entries, index);
      Ok(|entries|)
    case List(items) => Ok(|items|)
    case _ => Err(InvalidCall)
  }

  /** The index after adding a name that is not yet present still agrees with
      the entries after appending that name's entry. */
  lemma AppendKeepsIndexConsistent(entries: seq<Entry>, index: map<string, nat>, name: string, member: Value)
    requires IndexConsistent(entries, index)
    requires name !in index
    ensures IndexConsistent(entries + [(name, member)], index[name := |entries|])
  {
    var entries', index' := entries + [(name, member)], index[name := |entries|];
    forall i | 0 <= i < |entries'|
      ensures entries'[i].0 in index' && index'[entries'[i].0] == i
    {
      if i < |entries| {
        assert entries'[i] == entries[i];
      }
    }
  }

  /** `emplace_back(name, value)` on a Map: rejects a name already present,
      otherwise appends the member at the end and indexes it at the old size. */
  function EmplaceMember(v: Value, name: string, member: Value): (r: Result<Value>)
    requires Valid(v) && Valid(member)
    ensures !v.Map? ==> r == Err(InvalidCall)
    ensures v.Map? && HasName(v.entries, name) ==> r == Err(DuplicateMember)
    ensures v.Map? && !HasName(v.entries, name) ==>
      && r.Ok? && r.value.Map? && Valid(r.value)
      && |r.value.entries| == |v.entries| + 1
      && r.value.entries[..|v.entries|] == v.entries
      && r.value.entries[|v.entries|] == (name, member)
      && r.value.index[name] == |v.entries|
  {
    match v
    case Map(entries, index) =>
      if name in index then
        Err(DuplicateMember)
      else
        assert !HasName(entries, name);
        AppendKeepsIndexConsistent(entries, index, name, member);
        var entries' := entries + [(name, member)];
        assert forall i | 0 <= i < |entries'| :: Valid(entries'[i].1) by {
          forall i | 0 <= i < |entries'|
            ensures Valid(entries'[i].1)
          {
            if i < |entries| {
              assert entries'[i] == entries[i];
            }
          }
        }
        Ok(Value.Map(entries', index[name := |entries|]))
    case _ => Err(InvalidCall)
  }

  /** Linear search for the first entry carrying `name`, starting at `from`:
      the reference `find` answers without the index. */
  function ScanFrom(entries: seq<Entry>, name: string, from: nat): (r: Position)
    requires from <= |entries|
    ensures r.At? ==> from <= r.offset < |entries| && entries[r.offset].0 == name
    ensures r.At? ==> forall i | from <= i < r.offset :: entries[i].0 != name
    ensures r.End? ==> forall i | from <= i < |entries| :: entries[i].0 != name
    decreases |entries| - from
  {
    if from == |entries| then End
    else if entries[from].0 == name then At(from)
    else ScanFrom(entries, name, from + 1)
  }

  /** `find(name)` on a Map: the position the index records for `name`, or
      End; never fails for a missing name. */
  function Find(v: Value, name: string): (r: Result<Position>)
    requires Valid(v)
    ensures !v.Map? ==> r == Err(InvalidCall)
    ensures v.Map? ==> r.Ok?
    ensures v.Map? && r.value.At? ==> r.value.offset < |v.entries| && v.entries[r.value.offset].0 == name
    ensures v.Map? ==> (r.value.End? <==> !HasName(v.entries, name))
  {
    match v
    case Map(entries, index) =>
      if name !in index then
        Ok(End)
      else
        Ok(At(index[name]))
    case _ => Err(InvalidCall)
  }

  /** Going through the index gives the same answer as scanning the entries
      from the front. */
  lemma FindMatchesScan(v: Value, name: string)
    requires Valid(v) && v.Map?
    ensures Find(v, name) == Ok(ScanFrom(v.entries, name, 0))
  {
    var scan := ScanFrom(v.entries, name, 0);
    ConsistentIndexHasDistinctNames(v.entries, v.index);
    if scan.At? {
      assert v.index[v.entries[scan.offset].0] == scan.offset;
    }
  }

  /** `operator[](name)` on a Map: the value of the member `find` locates,
      MissingMember when `find` reaches the end. */
  function LookupMember(v: Value, name: string): (r: Result<Value>)
    requires Valid(v)
    ensures !v.Map? ==> r == Err(InvalidCall)
    ensures v.Map? ==> (r == Err(MissingMember) <==> Find(v, name) == Ok(End))
    ensures v.Map? ==> (r == Err(MissingMember) <==> !HasName(v.entries, name))
    ensures v.Map? && HasName(v.entries, name) ==> r.Ok?
    ensures r.Ok? ==> exists i | 0 <= i < |v.entries| :: v.entries[i] == (name, r.value)
    ensures r.Ok? ==> Valid(r.value)
  {
    var position :- Find(v, name);
    match position
    case End => Err(MissingMember)
    case At(offset) =>
      assert v.entries[offset] == (name, v.entries[offset].1);
      Ok(v.entries[offset].1)
  }

  /** `emplace_back(value)` on a List: appends the item at the end. */
  function EmplaceItem(v: Value, item: Value): (r: Result<Value>)
    requires Valid(v) && Valid(item)
    ensures !v.List? ==> r == Err(InvalidCall)
    ensures v.List? ==>
      && r.Ok? && r.value.List? && Valid(r.value)
      && |r.value.items| == |v.items| + 1
      && r.value.items[..|v.items|] == v.items
      && r.value.items[|v.items|] == item
  {
    match v
    case List(items) =>
      var items' := items + [item];
      assert forall i | 0 <= i < |items'| :: Valid(items'[i]) by {
        forall i | 0 <= i < |items'|
          ensures Valid(items'[i])
        {
          if i < |items| {
            assert items'[i] == items[i];
          }
        }
      }
      Ok(Value.List(items'))
    case _ => Err(InvalidCall)
  }

  /** `operator[](index)` on a List: the item at that position, bounds-checked
      by `at`. */
  function LookupItem(v: Value, i: nat): (r: Result<Value>)
    requires Valid(v)
    ensures !v.List? ==> r == Err(InvalidCall)
    ensures v.List? && i < |v.items| ==> r == Ok(v.items[i])
    ensures v.List? && i >= |v.items| ==> r == Err(OutOfRange)
    ensures r.Ok? ==> Valid(r.value)
  {
    match v
    case List(items) =>
      if i < |items| then Ok(items[i]) else Err(OutOfRange)
    case _ => Err(InvalidCall)
  }
}
