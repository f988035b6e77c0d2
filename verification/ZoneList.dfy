/** A zone as the plain list of its records in insertion order. This is what
    ZoneStore's nested index is proved to represent. */
module ZoneList {
  import opened Packet
  import opened CanonicalName

  type Zone = seq<ResourceRecord>

  predicate Matches(r: ResourceRecord, key: Key, t: u16) {
    KeyOf(r.name.labels) == key && r.rtype == t
  }

  /** The records of one canonical name and type, in insertion order. */
  function Bucket(zone: Zone, key: Key, t: u16): seq<ResourceRecord> {
    if zone == [] then []
    else Bucket(Init(zone), key, t) + if Matches(Last(zone), key, t) then [Last(zone)] else []
  }

  function Without(zone: Zone, key: Key, t: u16): Zone {
    if zone == [] then []
    else Without(Init(zone), key, t) + if Matches(Last(zone), key, t) then [] else [Last(zone)]
  }

  predicate NameExists(zone: Zone, key: Key) {
    exists i :: 0 <= i < |zone| && KeyOf(zone[i].name.labels) == key
  }

  datatype Write =
    | Add(record: ResourceRecord)
    | Remove(name: Name, rtype: u16)
    | Clear

  function Apply(zone: Zone, w: Write): Zone {
    match w
    case Add(record) => zone + [record]
    case Remove(name, t) => Without(zone, KeyOf(name.labels), t)
    case Clear => []
  }

  lemma BucketOfAdd(zone: Zone, r: ResourceRecord, key: Key, t: u16)
    ensures Bucket(zone + [r], key, t) == Bucket(zone, key, t) + if Matches(r, key, t) then [r] else []
  {
    assert Init(zone + [r]) == zone;
  }

  lemma BucketOfOne(r: ResourceRecord, key: Key, t: u16)
    ensures Bucket([r], key, t) == if Matches(r, key, t) then [r] else []
  {
    hide Matches;
    assert Init([r]) == [] && Last([r]) == r;
  }

  /** Removing one bucket empties it and leaves every other bucket as it is. */
  lemma {:induction false} BucketOfRest(zone: Zone, key: Key, t: u16, key': Key, t': u16)
    ensures Bucket(Without(zone, key, t), key', t') ==
            if key == key' && t == t' then [] else Bucket(zone, key', t')
    decreases |zone|
  {
    hide Matches;
    if zone != [] {
      BucketOfRest(Init(zone), key, t, key', t');
      var rest := Without(Init(zone), key, t);
      MatchesOne(Last(zone), key, t, key', t');
      if Matches(Last(zone), key, t) {
        assert Without(zone, key, t) == rest;
      } else {
        BucketOfAdd(rest, Last(zone), key', t');
      }
    }
  }

  lemma MatchesOne(r: ResourceRecord, key: Key, t: u16, key': Key, t': u16)
    ensures Matches(r, key, t) && Matches(r, key', t') ==> key == key' && t == t'
  {
  }

  /** Removing a bucket takes away exactly its records. */
  lemma {:induction false} RestAndBucketMakeAll(zone: Zone, key: Key, t: u16)
    ensures |Without(zone, key, t)| + |Bucket(zone, key, t)| == |zone|
    ensures Bucket(zone, key, t) == [] ==> Without(zone, key, t) == zone
    decreases |zone|
  {
    hide Matches;
    if zone != [] {
      RestAndBucketMakeAll(Init(zone), key, t);
      assert zone == Init(zone) + [Last(zone)];
    }
  }

  /** A bucket holds those records of the zone that belong to it. */
  lemma {:induction false} BucketMembers(zone: Zone, key: Key, t: u16, r: ResourceRecord)
    ensures r in Bucket(zone, key, t) <==> r in zone && Matches(r, key, t)
    decreases |zone|
  {
    hide Matches;
    if zone != [] {
      BucketMembers(Init(zone), key, t, r);
      assert zone == Init(zone) + [Last(zone)];
    }
  }

  lemma BucketIsEmptyIff(zone: Zone, key: Key, t: u16)
    ensures Bucket(zone, key, t) != [] <==> exists i :: 0 <= i < |zone| && Matches(zone[i], key, t)
  {
    if Bucket(zone, key, t) != [] {
      var r := Bucket(zone, key, t)[0];
      BucketMembers(zone, key, t, r);
      var i :| 0 <= i < |zone| && zone[i] == r;
    }
    if i :| 0 <= i < |zone| && Matches(zone[i], key, t) {
      BucketMembers(zone, key, t, zone[i]);
    }
  }

  lemma NameExistsByBucket(zone: Zone, key: Key)
    ensures NameExists(zone, key) <==> exists t: u16 :: Bucket(zone, key, t) != []
  {
    if NameExists(zone, key) {
      var i :| 0 <= i < |zone| && KeyOf(zone[i].name.labels) == key;
      BucketMembers(zone, key, zone[i].rtype, zone[i]);
    }
    if t: u16 :| Bucket(zone, key, t) != [] {
      var r := Bucket(zone, key, t)[0];
      BucketMembers(zone, key, t, r);
      var i :| 0 <= i < |zone| && zone[i] == r;
    }
  }

  // ----- The same without keys -----

  /** The record has the type, and its name reads as the given one: label by
      label up to ASCII case, every label taken apart at the dots inside it. */
  predicate IsFor(r: ResourceRecord, name: Name, t: u16) {
    r.rtype == t && SameName(Pieces(r.name.labels), Pieces(name.labels))
  }

  predicate HasRecordFor(zone: Zone, name: Name, t: u16) {
    exists i :: 0 <= i < |zone| && IsFor(zone[i], name, t)
  }

  predicate HasNameOf(zone: Zone, name: Name) {
    exists i :: 0 <= i < |zone| && SameName(Pieces(zone[i].name.labels), Pieces(name.labels))
  }

  /** `rs` are the records of the zone at the given places, from front to back. */
  predicate StandAt(zone: Zone, rs: seq<ResourceRecord>, places: seq<nat>) {
    && |places| == |rs|
    && (forall j, k :: 0 <= j < k < |places| ==> places[j] < places[k])
    && (forall k :: 0 <= k < |places| ==> places[k] < |zone| && rs[k] == zone[places[k]])
  }

  /** `rs` are the records of a name and type, all of them, in insertion order. */
  ghost predicate Found(zone: Zone, name: Name, t: u16, rs: seq<ResourceRecord>) {
    exists places: seq<nat> ::
      StandAt(zone, rs, places) && forall i: nat :: i < |zone| ==> (i in places <==> IsFor(zone[i], name, t))
  }

  /** `rs` are the other records, all of them, in insertion order. */
  ghost predicate Spared(zone: Zone, name: Name, t: u16, rs: seq<ResourceRecord>) {
    exists places: seq<nat> ::
      StandAt(zone, rs, places) && forall i: nat :: i < |zone| ==> (i in places <==> !IsFor(zone[i], name, t))
  }

  lemma MatchesIff(r: ResourceRecord, name: Name, t: u16)
    ensures Matches(r, KeyOf(name.labels), t) <==>
            r.rtype == t && SameName(Pieces(r.name.labels), Pieces(name.labels))
  {
    KeysReadAlike(r.name.labels, name.labels);
  }

  lemma NameExistsIff(zone: Zone, name: Name)
    ensures NameExists(zone, KeyOf(name.labels)) <==> HasNameOf(zone, name)
  {
    forall i | 0 <= i < |zone|
      ensures KeyOf(zone[i].name.labels) == KeyOf(name.labels) <==>
              SameName(Pieces(zone[i].name.labels), Pieces(name.labels))
    {
      KeysReadAlike(zone[i].name.labels, name.labels);
    }
  }

  // One more record at the end of the zone, chosen or not.
  lemma ChosenLonger(zone: Zone, rs: seq<ResourceRecord>, places: seq<nat>, chosen: bool) returns (longer: seq<nat>)
    requires zone != [] && StandAt(Init(zone), rs, places)
    ensures StandAt(zone, rs + if chosen then [Last(zone)] else [], longer)
    ensures forall i: nat :: i < |zone| ==> (i in longer <==> if i == |zone| - 1 then chosen else i in places)
  {
    assert forall i :: i in places ==> i < |zone| - 1;
    if chosen {
      longer := places + [|zone| - 1];
      LastStands(zone, rs, places);
    } else {
      longer := places;
      assert rs + [] == rs;
    }
  }

  lemma LastStands(zone: Zone, rs: seq<ResourceRecord>, places: seq<nat>)
    requires zone != [] && StandAt(Init(zone), rs, places)
    ensures StandAt(zone, rs + [Last(zone)], places + [|zone| - 1])
  {
    var longer := places + [|zone| - 1];
    forall k | 0 <= k < |longer| ensures longer[k] < |zone| && (rs + [Last(zone)])[k] == zone[longer[k]] {
      assert k < |places| ==> longer[k] == places[k] && Init(zone)[places[k]] == zone[places[k]];
    }
  }

  ghost predicate AreMatches(zone: Zone, places: seq<nat>, key: Key, t: u16) {
    forall i: nat :: i < |zone| ==> (i in places <==> Matches(zone[i], key, t))
  }

  ghost predicate AreOthers(zone: Zone, places: seq<nat>, key: Key, t: u16) {
    forall i: nat :: i < |zone| ==> (i in places <==> !Matches(zone[i], key, t))
  }

  lemma {:induction false} BucketPlaces(zone: Zone, key: Key, t: u16) returns (places: seq<nat>)
    ensures StandAt(zone, Bucket(zone, key, t), places) && AreMatches(zone, places, key, t)
    decreases |zone|
  {
    hide Matches, StandAt;
    if zone == [] {
      places := [];
      NoPlaces();
    } else {
      places := BucketPlaces(Init(zone), key, t);
      places := ChosenLonger(zone, Bucket(Init(zone), key, t), places, Matches(Last(zone), key, t));
    }
  }

  lemma {:induction false} RestPlaces(zone: Zone, key: Key, t: u16) returns (places: seq<nat>)
    ensures StandAt(zone, Without(zone, key, t), places) && AreOthers(zone, places, key, t)
    decreases |zone|
  {
    hide Matches, StandAt;
    if zone == [] {
      places := [];
      NoPlaces();
    } else {
      places := RestPlaces(Init(zone), key, t);
      places := ChosenLonger(zone, Without(Init(zone), key, t), places, !Matches(Last(zone), key, t));
    }
  }

  lemma NoPlaces()
    ensures StandAt([], [], [])
  {
  }

  // Without the zone's last record, only the last place can be missing.
  lemma ChosenShorter(zone: Zone, rs: seq<ResourceRecord>, places: seq<nat>)
    returns (shorter: seq<ResourceRecord>, cut: seq<nat>)
    requires zone != [] && StandAt(zone, rs, places)
    ensures StandAt(Init(zone), shorter, cut)
    ensures rs == shorter + if |zone| - 1 in places then [Last(zone)] else []
    ensures forall i: nat :: i < |zone| - 1 ==> (i in cut <==> i in places)
  {
    if |zone| - 1 in places {
      shorter, cut := Init(rs), Init(places);
      assert Last(places) == |zone| - 1;
      assert places == cut + [|zone| - 1];
    } else {
      shorter, cut := rs, places;
    }
  }

  /** The set of places determines the records. */
  lemma {:induction false} SamePlacesSameRecords(
    zone: Zone, rs: seq<ResourceRecord>, places: seq<nat>, rs': seq<ResourceRecord>, places': seq<nat>)
    requires StandAt(zone, rs, places) && StandAt(zone, rs', places')
    requires forall i: nat :: i < |zone| ==> (i in places <==> i in places')
    ensures rs == rs'
    decreases |zone|
  {
    if rs != [] || rs' != [] {
      assert if rs != [] then places[0] < |zone| else places'[0] < |zone|;
      var shorter, cut := ChosenShorter(zone, rs, places);
      var shorter', cut' := ChosenShorter(zone, rs', places');
      hide StandAt;
      SamePlacesSameRecords(Init(zone), shorter, cut, shorter', cut');
    }
  }

  /** The bucket of a name and a type is what Found says, and nothing else is. */
  lemma BucketIsFound(zone: Zone, name: Name, t: u16, rs: seq<ResourceRecord>)
    ensures Found(zone, name, t, rs) <==> rs == Bucket(zone, KeyOf(name.labels), t)
  {
    var places := BucketPlaces(zone, KeyOf(name.labels), t);
    forall r: ResourceRecord { MatchesIff(r, name, t); }
    hide Matches, StandAt;
    if Found(zone, name, t, rs) {
      var places': seq<nat> :|
        StandAt(zone, rs, places') && forall i: nat :: i < |zone| ==> (i in places' <==> IsFor(zone[i], name, t));
      SamePlacesSameRecords(zone, rs, places', Bucket(zone, KeyOf(name.labels), t), places);
    }
  }

  /** What a removal leaves is what Spared says, and nothing else is. */
  lemma RestIsSpared(zone: Zone, name: Name, t: u16, rs: seq<ResourceRecord>)
    ensures Spared(zone, name, t, rs) <==> rs == Without(zone, KeyOf(name.labels), t)
  {
    var places := RestPlaces(zone, KeyOf(name.labels), t);
    forall r: ResourceRecord { MatchesIff(r, name, t); }
    hide Matches, StandAt;
    if Spared(zone, name, t, rs) {
      var places': seq<nat> :|
        StandAt(zone, rs, places') && forall i: nat :: i < |zone| ==> (i in places' <==> !IsFor(zone[i], name, t));
      SamePlacesSameRecords(zone, rs, places', Without(zone, KeyOf(name.labels), t), places);
    }
  }

  lemma BucketIsForRecords(zone: Zone, name: Name, t: u16)
    ensures Bucket(zone, KeyOf(name.labels), t) != [] <==> HasRecordFor(zone, name, t)
  {
    BucketIsEmptyIff(zone, KeyOf(name.labels), t);
    forall r: ResourceRecord { MatchesIff(r, name, t); }
  }
}
