/** The nested map of ZoneStore as a value, and how it stands for a zone. */
module ZoneIndex {
  import opened Packet
  import opened CanonicalName
  import opened ZoneList

  type TypeMap = map<u16, seq<ResourceRecord>>
  type Index = map<Key, TypeMap>

  function TypesOf(index: Index, key: Key): TypeMap {
    if key in index then index[key] else map[]
  }

  function Entries(types: TypeMap, t: u16): seq<ResourceRecord> {
    if t in types then types[t] else []
  }

  // No name without types and no type without records.
  ghost predicate NoEmptyEntries(index: Index) {
    && (forall key :: key in index ==> index[key] != map[])
    && (forall key, t :: key in index && t in index[key] ==> index[key][t] != [])
  }

  /** `index` stands for `zone`: every bucket is the zone's, and nothing empty is kept. */
  ghost predicate Represents(index: Index, zone: Zone) {
    && NoEmptyEntries(index)
    && forall key, t :: Entries(TypesOf(index, key), t) == Bucket(zone, key, t)
  }

  // ----- Counting -----

  ghost function CountTypes(types: TypeMap): nat {
    if types == map[] then 0 else
      var t :| t in types;
      |types[t]| + CountTypes(types - {t})
  }

  /** The double sum of the sizes of all record lists. */
  ghost function Count(index: Index): nat {
    if index == map[] then 0 else
      var key :| key in index;
      CountTypes(index[key]) + Count(index - {key})
  }

  lemma {:induction false} CountTypesAt(types: TypeMap, t: u16)
    requires t in types
    ensures CountTypes(types) == |types[t]| + CountTypes(types - {t})
    decreases |types|
  {
    var u :| u in types && CountTypes(types) == |types[u]| + CountTypes(types - {u});
    if u != t {
      CountTypesAt(types - {u}, t);
      CountTypesAt(types - {t}, u);
      assert types - {u} - {t} == types - {t} - {u};
    }
  }

  lemma {:induction false} CountAt(index: Index, key: Key)
    requires key in index
    ensures Count(index) == CountTypes(index[key]) + Count(index - {key})
    decreases |index|
  {
    var k :| k in index && Count(index) == CountTypes(index[k]) + Count(index - {k});
    if k != key {
      CountAt(index - {k}, key);
      CountAt(index - {key}, k);
      assert index - {k} - {key} == index - {key} - {k};
    }
  }

  lemma CountTypesUpdate(types: TypeMap, t: u16, rs: seq<ResourceRecord>)
    ensures CountTypes(types[t := rs]) + |Entries(types, t)| == CountTypes(types) + |rs|
  {
    CountTypesAt(types[t := rs], t);
    assert types[t := rs] - {t} == types - {t};
    if t in types { CountTypesAt(types, t); } else { assert types - {t} == types; }
  }

  lemma CountUpdate(index: Index, key: Key, types: TypeMap)
    ensures Count(index[key := types]) + CountTypes(TypesOf(index, key)) == Count(index) + CountTypes(types)
  {
    CountAt(index[key := types], key);
    assert index[key := types] - {key} == index - {key};
    if key in index { CountAt(index, key); } else { assert index - {key} == index; }
  }

  // ----- The two updates -----

  function Inserted(index: Index, record: ResourceRecord): Index {
    var key := KeyOf(record.name.labels);
    var types := TypesOf(index, key);
    index[key := types[record.rtype := Entries(types, record.rtype) + [record]]]
  }

  lemma InsertRepresents(index: Index, zone: Zone, record: ResourceRecord)
    requires Represents(index, zone)
    ensures Represents(Inserted(index, record), zone + [record])
    ensures Count(Inserted(index, record)) == Count(index) + 1
  {
    hide Inserted, NoEmptyEntries, Matches;
    InsertedCount(index, record);
    InsertedEntries(index, record);
    forall k, u ensures Entries(TypesOf(Inserted(index, record), k), u) == Bucket(zone + [record], k, u) {
      BucketOfAdd(zone, record, k, u);
      assert Entries(TypesOf(index, k), u) == Bucket(zone, k, u);
    }
  }

  lemma InsertedCount(index: Index, record: ResourceRecord)
    ensures Count(Inserted(index, record)) == Count(index) + 1
  {
    var key, t := KeyOf(record.name.labels), record.rtype;
    hide KeyOf;
    var types := TypesOf(index, key);
    var rs := Entries(types, t) + [record];
    CountTypesUpdate(types, t, rs);
    CountUpdate(index, key, types[t := rs]);
  }

  lemma InsertedEntries(index: Index, record: ResourceRecord)
    requires NoEmptyEntries(index)
    ensures NoEmptyEntries(Inserted(index, record))
    ensures forall k, u :: Entries(TypesOf(Inserted(index, record), k), u) ==
                           Entries(TypesOf(index, k), u) + if Matches(record, k, u) then [record] else []
  {
    hide KeyOf;
    var types := TypesOf(index, KeyOf(record.name.labels));
    assert record.rtype in types[record.rtype := Entries(types, record.rtype) + [record]];
  }

  function Erased(index: Index, key: Key, t: u16): Index
    requires key in index
  {
    var types := index[key] - {t};
    if types == map[] then index - {key} else index[key := types]
  }

  lemma EraseRepresents(index: Index, zone: Zone, key: Key, t: u16)
    requires Represents(index, zone) && key in index && t in index[key]
    ensures Represents(Erased(index, key, t), Without(zone, key, t))
    ensures Count(Erased(index, key, t)) + |index[key][t]| == Count(index)
  {
    forall k, u ensures Entries(TypesOf(Erased(index, key, t), k), u) == Bucket(Without(zone, key, t), k, u) {
      BucketOfRest(zone, key, t, k, u);
      assert Entries(TypesOf(index, k), u) == Bucket(zone, k, u);
    }
    CountTypesAt(index[key], t);
    CountAt(index, key);
    if index[key] - {t} != map[] { CountUpdate(index, key, index[key] - {t}); }
  }

  function Updated(index: Index, w: Write): Index {
    match w
    case Add(record) => Inserted(index, record)
    case Remove(name, t) =>
      var key := KeyOf(name.labels);
      if key in index && t in index[key] then Erased(index, key, t) else index
    case Clear => map[]
  }

  /** Every write on the index is the same write on the list, and keeps the count of records. */
  lemma WriteRefines(index: Index, zone: Zone, w: Write)
    requires Represents(index, zone) && Count(index) == |zone|
    ensures Represents(Updated(index, w), Apply(zone, w)) && Count(Updated(index, w)) == |Apply(zone, w)|
  {
    hide Inserted, Erased, KeyOf;
    match w
    case Add(record) =>
      InsertRepresents(index, zone, record);
    case Remove(name, t) =>
      var key := KeyOf(name.labels);
      RestAndBucketMakeAll(zone, key, t);
      assert Entries(TypesOf(index, key), t) == Bucket(zone, key, t);
      if key in index && t in index[key] { EraseRepresents(index, zone, key, t); }
    case Clear =>
  }

  /** What a removal does to the zone, and how the index tells whether it does anything. */
  lemma RemovalRefines(index: Index, zone: Zone, name: Name, t: u16)
    requires Represents(index, zone) && Count(index) == |zone|
    ensures var rest, after := Without(zone, KeyOf(name.labels), t), Updated(index, Remove(name, t));
            Represents(after, rest) && Count(after) == |rest| && Spared(zone, name, t, rest)
    ensures var key, rest := KeyOf(name.labels), Without(zone, KeyOf(name.labels), t);
            if key in index && t in index[key] then
              HasRecordFor(zone, name, t) && |rest| + |index[key][t]| == |zone|
            else
              !HasRecordFor(zone, name, t) && rest == zone
  {
    var key := KeyOf(name.labels);
    WriteRefines(index, zone, Remove(name, t));
    RestIsSpared(zone, name, t, Without(zone, key, t));
    BucketIsForRecords(zone, name, t);
    RestAndBucketMakeAll(zone, key, t);
    assert Entries(TypesOf(index, key), t) == Bucket(zone, key, t);
    hide Spared, HasRecordFor, Without, KeyOf, Bucket, Updated, Count;
  }

  function UpdatedAll(writes: seq<Write>): Index {
    if writes == [] then map[] else Updated(UpdatedAll(Init(writes)), Last(writes))
  }

  function ApplyAll(writes: seq<Write>): Zone {
    if writes == [] then [] else Apply(ApplyAll(Init(writes)), Last(writes))
  }

  /** In every state that writes can reach from the empty store, the index stands
      for the list of records: no empty entry, every bucket in insertion order,
      and as many records in all as the list is long. */
  lemma {:induction false} EveryStateIsRepresented(writes: seq<Write>)
    ensures Represents(UpdatedAll(writes), ApplyAll(writes))
    ensures Count(UpdatedAll(writes)) == |ApplyAll(writes)|
    decreases |writes|
  {
    hide Apply, Updated;
    if writes != [] {
      EveryStateIsRepresented(Init(writes));
      WriteRefines(UpdatedAll(Init(writes)), ApplyAll(Init(writes)), Last(writes));
    }
  }

  // ----- What the index tells -----

  /** The zone determines its index. */
  lemma IndexIsUnique(index: Index, other: Index, zone: Zone)
    requires Represents(index, zone) && Represents(other, zone)
    ensures index == other
  {
    SameEntries(index, other, zone);
    SameEntries(other, index, zone);
  }

  lemma SameEntries(index: Index, other: Index, zone: Zone)
    requires Represents(index, zone) && Represents(other, zone)
    ensures forall key :: key in index ==> key in other && index[key] == other[key]
  {
    forall key | key in index ensures key in other && index[key] == other[key] {
      forall t ensures Entries(TypesOf(index, key), t) == Entries(TypesOf(other, key), t) {
        assert Entries(TypesOf(index, key), t) == Bucket(zone, key, t);
      }
      var t :| t in index[key];
      assert Entries(TypesOf(other, key), t) != [];
      SameTypes(index[key], other[key]);
    }
  }

  lemma SameTypes(types: TypeMap, other: TypeMap)
    requires forall t :: Entries(types, t) == Entries(other, t)
    requires forall t :: t in types ==> types[t] != []
    requires forall t :: t in other ==> other[t] != []
    ensures types == other
  {
    forall t ensures t in types <==> t in other {
      assert Entries(types, t) == Entries(other, t);
    }
    forall t | t in types ensures types[t] == other[t] {
      assert Entries(types, t) == Entries(other, t);
    }
  }

  lemma KeyIsName(index: Index, zone: Zone, key: Key)
    requires Represents(index, zone)
    ensures key in index <==> NameExists(zone, key)
  {
    NameExistsByBucket(zone, key);
    if key in index {
      var t :| t in index[key];
      assert Entries(TypesOf(index, key), t) == Bucket(zone, key, t);
    }
    if NameExists(zone, key) {
      var t: u16 :| Bucket(zone, key, t) != [];
      assert Entries(TypesOf(index, key), t) == Bucket(zone, key, t);
    }
  }

  /** A name is a key of the index exactly when some record of the zone bears it,
      and every stored record sits under its own canonical name and type. */
  lemma KeysAreNames(index: Index, zone: Zone)
    requires Represents(index, zone)
    ensures forall key :: key in index <==> NameExists(zone, key)
    ensures forall key, t, r ::
              key in index && t in index[key] && r in index[key][t] ==> Matches(r, key, t) && r in zone
  {
    forall key ensures key in index <==> NameExists(zone, key) { KeyIsName(index, zone, key); }
    forall key, t, r | key in index && t in index[key] && r in index[key][t]
      ensures Matches(r, key, t) && r in zone
    {
      assert Entries(TypesOf(index, key), t) == Bucket(zone, key, t);
      BucketMembers(zone, key, t, r);
    }
  }
}
