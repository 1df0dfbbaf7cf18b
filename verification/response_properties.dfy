/** Properties that relate several operations on a response value: the zero
    payloads of fresh values, what a sequence of Map insertions does, lookups
    after an insertion, the release-and-rebuild round trips, and the state a
    move-assignment leaves its source in.
 */
module ResponseProperties {
  import opened ResponseErrors
  import opened ResponseValue
  import opened ResponseContainers
  import opened ResponseAccessors

  /** Every kind constructed from its tag reads back its zero payload: an
      empty Map or List, empty text, false, 0, 0.0, a Scalar wrapping Null,
      and a Null that answers no container call. */
  lemma ConstructedHoldsZero(kind: Kind)
    ensures kind == Kind.Map ==> GetMap(Construct(kind)) == Ok([]) && Size(Construct(kind)) == Ok(0)
    ensures kind == Kind.List ==> GetList(Construct(kind)) == Ok([]) && Size(Construct(kind)) == Ok(0)
    ensures kind in {Kind.String, Kind.EnumValue} ==> GetString(Construct(kind)) == Ok("")
    ensures kind == Kind.Boolean ==> GetBoolean(Construct(kind)) == Ok(false)
    ensures kind == Kind.Int ==> GetInt(Construct(kind)) == Ok(0)
    ensures kind == Kind.Float ==> GetFloat(Construct(kind)) == Ok(0.0)
    ensures kind == Kind.Scalar ==> GetScalar(Construct(kind)) == Ok(Value.Null)
    ensures kind == Kind.Null ==> Construct(kind) == Value.Null && Size(Construct(kind)) == Err(InvalidCall)
  {
  }

  /** A Map rebuilt from scratch by inserting `entries` one after another:
      a fresh Map followed by one `emplace_back(name, value)` per entry. */
  function RebuildMap(entries: seq<Entry>): (r: Result<Value>)
    requires forall i | 0 <= i < |entries| :: Valid(entries[i].1)
    ensures r.Ok? <==> DistinctNames(entries)
    ensures r.Err? ==> r.error == DuplicateMember
    ensures r.Ok? ==> r.value.Map? && Valid(r.value) && r.value.entries == entries
    decreases |entries|
  {
    if |entries| == 0 then
      Ok(Construct(Kind.Map))
    else
      var n := |entries| - 1;
      assert entries == entries[..n] + [entries[n]];
      var prefix :- RebuildMap(entries[..n]);
      assert DistinctNames(entries) <==> DistinctNames(entries[..n]) && !HasName(entries[..n], entries[n].0);
      EmplaceMember(prefix, entries[n].0, entries[n].1)
  }

  /** Releasing a Map's members and inserting them into a fresh Map in the
      order released gives back the original value, index included. */
  lemma ReleaseMapRoundTrip(v: Value)
    requires Valid(v) && v.Map?
    ensures ReleaseMap(v).Ok?
    ensures RebuildMap(ReleaseMap(v).value.0) == Ok(v)
  {
    ConsistentIndexHasDistinctNames(v.entries, v.index);
    var rebuilt := RebuildMap(v.entries);
    ConsistentIndexIsUnique(v.entries, rebuilt.value.index, v.index);
  }

  /** A List rebuilt from scratch by appending `items` one after another. */
  function RebuildList(items: seq<Value>): (r: Result<Value>)
    requires forall i | 0 <= i < |items| :: Valid(items[i])
    ensures r.Ok? && r.value.List? && Valid(r.value) && r.value.items == items
    decreases |items|
  {
    if |items| == 0 then
      Ok(Construct(Kind.List))
    else
      var n := |items| - 1;
      assert items == items[..n] + [items[n]];
      EmplaceItem(RebuildList(items[..n]).value, items[n])
  }

  /** Releasing a List's items and appending them to a fresh List gives back
      the original value. */
  lemma ReleaseListRoundTrip(v: Value)
    requires Valid(v) && v.List?
    ensures ReleaseList(v).Ok?
    ensures RebuildList(ReleaseList(v).value.0) == Ok(v)
  {
  }

  /** Releasing the text of a String or an EnumValue and setting it into a
      fresh value of the same kind gives back the original value. */
  lemma ReleaseStringRoundTrip(v: Value)
    requires KindOf(v) in {Kind.String, Kind.EnumValue}
    ensures ReleaseString(v).Ok?
    ensures SetString(Construct(KindOf(v)), ReleaseString(v).value) == Ok(v)
    ensures v.String? ==> FromString(ReleaseString(v).value) == v
  {
  }

  /** Releasing the value a Scalar wraps and setting it into a fresh Scalar
      gives back the original value. */
  lemma ReleaseScalarRoundTrip(v: Value)
    requires Valid(v) && v.Scalar?
    ensures ReleaseScalar(v).Ok?
    ensures SetScalar(Construct(Kind.Scalar), ReleaseScalar(v).value) == Ok(v)
  {
  }

  /** After a successful `emplace_back(name, member)`, looking up `name`
      finds the new member at the old size, and every other name is found
      exactly where, and as, it was before. */
  lemma EmplaceMemberThenLookup(v: Value, name: string, member: Value, other: string)
    requires Valid(v) && Valid(member) && v.Map?
    requires !HasName(v.entries, name)
    requires other != name
    ensures EmplaceMember(v, name, member).Ok?
    ensures Find(EmplaceMember(v, name, member).value, name) == Ok(At(|v.entries|))
    ensures LookupMember(EmplaceMember(v, name, member).value, name) == Ok(member)
    ensures Find(EmplaceMember(v, name, member).value, other) == Find(v, other)
    ensures LookupMember(EmplaceMember(v, name, member).value, other) == LookupMember(v, other)
  {
    var v' := EmplaceMember(v, name, member).value;
    assert v'.entries == v.entries + [(name, member)];
  }

  /** After `emplace_back(item)`, the item is at the old size and every earlier
      position still holds what it held. */
  lemma EmplaceItemThenLookup(v: Value, item: Value, i: nat)
    requires Valid(v) && Valid(item) && v.List?
    ensures EmplaceItem(v, item).Ok?
    ensures LookupItem(EmplaceItem(v, item).value, |v.items|) == Ok(item)
    ensures i < |v.items| ==> LookupItem(EmplaceItem(v, item).value, i) == LookupItem(v, i)
    ensures Size(EmplaceItem(v, item).value) == Ok(|v.items| + 1)
  {
    var v' := EmplaceItem(v, item).value;
    if i < |v.items| {
      assert v'.items[i] == v'.items[..|v.items|][i];
    }
  }

  /** A caller inserting `calls` into a Map one by one and carrying on past
      each DuplicateMember failure, which leaves the Map as it was. Returns
      the final Map and the number of insertions that succeeded. */
  function EmplaceEach(v: Value, calls: seq<Entry>): (r: (Value, nat))
    requires Valid(v) && v.Map?
    requires forall i | 0 <= i < |calls| :: Valid(calls[i].1)
    ensures Valid(r.0) && r.0.Map?
    ensures r.1 <= |calls|
    ensures |r.0.entries| == |v.entries| + r.1
    ensures r.0.entries[..|v.entries|] == v.entries
    decreases |calls|
  {
    if |calls| == 0 then
      (v, 0)
    else
      var step := EmplaceMember(v, calls[0].0, calls[0].1);
      var v' := if step.Ok? then step.value else v;
      var rest := EmplaceEach(v', calls[1..]);
      assert rest.0.entries[..|v.entries|] == rest.0.entries[..|v'.entries|][..|v.entries|];
      (rest.0, rest.1 + (if step.Ok? then 1 else 0))
  }

  /** The names `entries` carry. */
  ghost function Names(entries: seq<Entry>): set<string> {
    set i | 0 <= i < |entries| :: entries[i].0
  }

  /** Reference count for a sequence of insertions: the calls whose name is
      neither in `seen` nor carried by an earlier call. */
  function CountFresh(seen: set<string>, calls: seq<Entry>): nat
    decreases |calls|
  {
    if |calls| == 0 then 0
    else (if calls[0].0 in seen then 0 else 1) + CountFresh(seen + {calls[0].0}, calls[1..])
  }

  /** One insertion attempt succeeds exactly when its name is new, and
      afterwards the Map's names are the old ones plus that name. */
  lemma EmplaceMemberNames(v: Value, name: string, member: Value)
    requires Valid(v) && Valid(member) && v.Map?
    ensures EmplaceMember(v, name, member).Ok? <==> name !in Names(v.entries)
    ensures EmplaceMember(v, name, member).Ok? ==>
      Names(EmplaceMember(v, name, member).value.entries) == Names(v.entries) + {name}
  {
    var step := EmplaceMember(v, name, member);
    assert HasName(v.entries, name) <==> name in Names(v.entries);
    if step.Ok? {
      var entries' := step.value.entries;
      assert entries' == v.entries + [(name, member)];
      forall n | n in Names(v.entries)
        ensures n in Names(entries')
      {
        var k :| 0 <= k < |v.entries| && v.entries[k].0 == n;
        assert entries'[k].0 == n;
      }
      assert entries'[|v.entries|].0 == name;
    }
  }

  /** The insertions that succeed are exactly those whose name was not yet
      present, either in the Map at the start or from an earlier call; `size`
      grows by that count. */
  lemma {:induction false} EmplaceEachCountsSuccesses(v: Value, calls: seq<Entry>)
    requires Valid(v) && v.Map?
    requires forall i | 0 <= i < |calls| :: Valid(calls[i].1)
    ensures EmplaceEach(v, calls).1 == CountFresh(Names(v.entries), calls)
    decreases |calls|
  {
    var r := EmplaceEach(v, calls);
    if |calls| > 0 {
      var name := calls[0].0;
      var seen := Names(v.entries);
      var step := EmplaceMember(v, name, calls[0].1);
      var v' := if step.Ok? then step.value else v;
      var rest := EmplaceEach(v', calls[1..]);
      assert r.1 == rest.1 + (if step.Ok? then 1 else 0);
      assert CountFresh(seen, calls) == (if name in seen then 0 else 1) + CountFresh(seen + {name}, calls[1..]);
      EmplaceMemberNames(v, name, calls[0].1);
      assert Names(v'.entries) == seen + {name};
      EmplaceEachCountsSuccesses(v', calls[1..]);
    }
  }

  /** `size` after such a sequence is the old size plus the number of calls
      that carried a new name. */
  lemma EmplaceEachSize(v: Value, calls: seq<Entry>)
    requires Valid(v) && v.Map?
    requires forall i | 0 <= i < |calls| :: Valid(calls[i].1)
    ensures Size(EmplaceEach(v, calls).0) == Ok(|v.entries| + CountFresh(Names(v.entries), calls))
  {
    var r := EmplaceEach(v, calls);
    assert r.1 == CountFresh(Names(v.entries), calls) by {
      EmplaceEachCountsSuccesses(v, calls);
    }
    assert Size(r.0) == Ok(|v.entries| + r.1);
  }

  /** Every name inserted, whether the insertion succeeded or was a
      duplicate, is present at the end. */
  lemma {:induction false} EmplaceEachKeepsNames(v: Value, calls: seq<Entry>)
    requires Valid(v) && v.Map?
    requires forall i | 0 <= i < |calls| :: Valid(calls[i].1)
    ensures forall i | 0 <= i < |calls| :: HasName(EmplaceEach(v, calls).0.entries, calls[i].0)
    decreases |calls|
  {
    if |calls| > 0 {
      var step := EmplaceMember(v, calls[0].0, calls[0].1);
      var v' := if step.Ok? then step.value else v;
      var final := EmplaceEach(v', calls[1..]).0;
      assert EmplaceEach(v, calls).0 == final;
      EmplaceEachKeepsNames(v', calls[1..]);
      assert HasName(v'.entries, calls[0].0) by {
        if step.Ok? {
          assert v'.entries[|v.entries|].0 == calls[0].0;
        }
      }
      forall i | 0 <= i < |calls|
        ensures HasName(final.entries, calls[i].0)
      {
        if i == 0 {
          var j :| 0 <= j < |v'.entries| && v'.entries[j].0 == calls[0].0;
          assert final.entries[..|v'.entries|][j] == final.entries[j];
        } else {
          assert calls[i] == calls[1..][i - 1];
        }
      }
    }
  }

  /** After a move-assignment, its source is Null and every kind-checked
      operation on it fails with InvalidCall. */
  lemma MovedFromSourceRejects(target: Value, source: Value, name: string, member: Value, i: nat, count: nat)
    requires Valid(member)
    ensures var after := MoveAssign(target, source).1;
      && Reserve(after, count) == Err(InvalidCall)
      && Size(after) == Err(InvalidCall)
      && EmplaceMember(after, name, member) == Err(InvalidCall)
      && EmplaceItem(after, member) == Err(InvalidCall)
      && Find(after, name) == Err(InvalidCall)
      && LookupMember(after, name) == Err(InvalidCall)
      && LookupItem(after, i) == Err(InvalidCall)
      && SetString(after, name) == Err(InvalidCall)
      && SetBoolean(after, true) == Err(InvalidCall)
      && SetInt(after, 0) == Err(InvalidCall)
      && SetFloat(after, 0.0) == Err(InvalidCall)
      && SetScalar(after, member) == Err(InvalidCall)
      && GetMap(after) == Err(InvalidCall)
      && GetList(after) == Err(InvalidCall)
      && GetString(after) == Err(InvalidCall)
      && GetBoolean(after) == Err(InvalidCall)
      && GetInt(after) == Err(InvalidCall)
      && GetFloat(after) == Err(InvalidCall)
      && GetScalar(after) == Err(InvalidCall)
      && ReleaseMap(after) == Err(InvalidCall)
      && ReleaseList(after) == Err(InvalidCall)
      && ReleaseString(after) == Err(InvalidCall)
      && ReleaseScalar(after) == Err(InvalidCall)
  {
  }
}
