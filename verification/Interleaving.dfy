/** One resolve running beside writers. lookup and hasName are two separately
    locked reads, so writes can land between them. */
module Interleaving {
  import opened Packet
  import opened CanonicalName
  import opened ZoneList
  import opened Resolvers

  datatype Event =
    | Written(write: Write)   // some writer's operation, atomic under the store's lock
    | LookedUp                // resolve calls lookup
    | Checked                 // resolve calls hasName

  datatype Phase =
    | Started                 // the query is parsed, the zone not yet read
    | Missed                  // lookup returned nothing
    | Answered(response: Message)

  datatype State = State(zone: Zone, phase: Phase)

  predicate Enabled(s: State, e: Event) {
    match e
    case Written(_) => true
    case LookedUp => s.phase == Started
    case Checked => s.phase == Missed
  }

  function Step(query: Message, s: State, e: Event): State
    requires query.questions != []
  {
    match e
    case Written(w) => s.(zone := Apply(s.zone, w))
    case LookedUp =>
      var matches := Answers(query, s.zone);
      s.(phase := if matches == [] then Missed else Answered(Compose(query, matches, true)))
    case Checked =>
      s.(phase := Answered(Compose(query, [], NameExists(s.zone, AskedKey(query)))))
  }

  function Run(query: Message, zone: Zone, events: seq<Event>): State
    requires query.questions != []
  {
    if events == [] then State(zone, Started) else Step(query, Run(query, zone, Init(events)), Last(events))
  }

  /** Every event of the schedule is enabled when its turn comes. */
  predicate Possible(query: Message, zone: Zone, events: seq<Event>)
    requires query.questions != []
  {
    events != [] ==> Possible(query, zone, Init(events)) && Enabled(Run(query, zone, Init(events)), Last(events))
  }

  /** The zone after the writes among the first `i` events. */
  function ZoneAt(zone: Zone, events: seq<Event>, i: nat): Zone
    requires i <= |events|
    decreases i
  {
    if i == 0 then zone
    else
      var before := ZoneAt(zone, events, i - 1);
      match events[i - 1] case Written(w) => Apply(before, w) case _ => before
  }

  lemma {:induction false} ZoneAtOfInit(zone: Zone, events: seq<Event>, i: nat)
    requires events != [] && i < |events|
    ensures ZoneAt(zone, Init(events), i) == ZoneAt(zone, events, i)
    decreases i
  {
    if i > 0 { ZoneAtOfInit(zone, events, i - 1); }
  }

  lemma {:induction false} RunZone(query: Message, zone: Zone, events: seq<Event>)
    requires query.questions != []
    ensures Run(query, zone, events).zone == ZoneAt(zone, events, |events|)
    decreases |events|
  {
    if events != [] {
      RunZone(query, zone, Init(events));
      ZoneAtOfInit(zone, events, |events| - 1);
    }
  }

  // ----- Where the reads fall -----

  ghost predicate MissedAt(query: Message, zone: Zone, events: seq<Event>, i: nat)
    requires query.questions != []
  {
    i < |events| && events[i] == LookedUp && Answers(query, ZoneAt(zone, events, i)) == []
  }

  ghost predicate HitAt(query: Message, zone: Zone, events: seq<Event>, i: nat)
    requires query.questions != []
  {
    i < |events| && events[i] == LookedUp && Answers(query, ZoneAt(zone, events, i)) != []
  }

  ghost predicate AnsweredByLookup(query: Message, zone: Zone, events: seq<Event>, i: nat, m: Message)
    requires query.questions != []
  {
    HitAt(query, zone, events, i) && m == Compose(query, Answers(query, ZoneAt(zone, events, i)), true)
  }

  ghost predicate AnsweredByCheck(query: Message, zone: Zone, events: seq<Event>, i: nat, j: nat, m: Message)
    requires query.questions != []
  {
    && i < j < |events| && MissedAt(query, zone, events, i) && events[j] == Checked
    && m == Compose(query, [], NameExists(ZoneAt(zone, events, j), AskedKey(query)))
  }

  /** The invariant of every run: what the phase says was true at the instants of the reads. */
  ghost predicate Explained(query: Message, zone: Zone, events: seq<Event>)
    requires query.questions != []
  {
    match Run(query, zone, events).phase
    case Started => true
    case Missed => exists i :: 0 <= i < |events| && MissedAt(query, zone, events, i)
    case Answered(m) =>
      || (exists i: nat :: AnsweredByLookup(query, zone, events, i, m))
      || (exists i: nat, j: nat :: AnsweredByCheck(query, zone, events, i, j, m))
  }

  lemma {:induction false} EveryRunIsExplained(query: Message, zone: Zone, events: seq<Event>)
    requires query.questions != [] && Possible(query, zone, events)
    ensures Explained(query, zone, events)
    decreases |events|
  {
    hide Compose, Answers, NameExists, Apply, AskedKey;
    if events != [] {
      var init, n := Init(events), |events| - 1;
      EveryRunIsExplained(query, zone, init);
      RunZone(query, zone, init);
      forall i: nat | i <= n ensures ZoneAt(zone, init, i) == ZoneAt(zone, events, i) {
        ZoneAtOfInit(zone, events, i);
      }
      var s := Run(query, zone, init);
      assert forall i: nat :: i < n ==> events[i] == init[i];
      match s.phase
      case Started =>
        if Last(events).LookedUp? {
          assert HitAt(query, zone, events, n) || MissedAt(query, zone, events, n);
          assert HitAt(query, zone, events, n) ==>
            AnsweredByLookup(query, zone, events, n, Compose(query, Answers(query, s.zone), true));
        }
      case Missed =>
        var i: nat :| i < n && MissedAt(query, zone, init, i);
        assert MissedAt(query, zone, events, i);
        if Last(events).Checked? {
          assert AnsweredByCheck(query, zone, events, i, n, Compose(query, [], NameExists(s.zone, AskedKey(query))));
        }
      case Answered(m) =>
        if i: nat :| AnsweredByLookup(query, zone, init, i, m) {
          assert AnsweredByLookup(query, zone, events, i, m);
        } else {
          var i: nat, j: nat :| AnsweredByCheck(query, zone, init, i, j, m);
          assert AnsweredByCheck(query, zone, events, i, j, m);
        }
    }
  }

  // ----- What the writers may have done between the reads -----

  predicate Adds(e: Event, key: Key, t: u16) {
    e.Written? && e.write.Add? && Matches(e.write.record, key, t)
  }

  predicate Empties(e: Event, key: Key, t: u16) {
    e.Written? && (e.write.Clear? || (e.write.Remove? && KeyOf(e.write.name.labels) == key && e.write.rtype == t))
  }

  ghost predicate EmptiedBetween(events: seq<Event>, a: int, j: nat, key: Key, t: u16)
    requires 0 <= a && j <= |events|
  {
    exists e :: a < e < j && Empties(events[e], key, t)
  }

  /** Every record added to the bucket between the events i and j was gone again before j. */
  ghost predicate AddsUndone(events: seq<Event>, i: nat, j: nat, key: Key, t: u16)
    requires j <= |events|
  {
    forall a :: i <= a < j && Adds(events[a], key, t) ==> EmptiedBetween(events, a, j, key, t)
  }

  lemma StepOfBucket(zone: Zone, e: Event, key: Key, t: u16)
    requires e.Written?
    ensures Bucket(Apply(zone, e.write), key, t) == [] <==>
            !Adds(e, key, t) && (Empties(e, key, t) || Bucket(zone, key, t) == [])
  {
    hide Matches;
    match e.write
    case Add(r) => BucketOfAdd(zone, r, key, t);
    case Remove(name, u) => BucketOfRest(zone, KeyOf(name.labels), u, key, t);
    case Clear =>
  }

  lemma {:induction false} BucketStaysEmpty(zone: Zone, events: seq<Event>, i: nat, j: nat, key: Key, t: u16)
    requires i <= j <= |events| && Bucket(ZoneAt(zone, events, i), key, t) == []
    ensures Bucket(ZoneAt(zone, events, j), key, t) == [] <==> AddsUndone(events, i, j, key, t)
    decreases j
  {
    hide Bucket, Apply, Adds, Empties, AddsUndone;
    if i == j {
      NoneYet(events, i, key, t);
    } else {
      BucketStaysEmpty(zone, events, i, j - 1, key, t);
      var last := events[j - 1];
      ReadsChangeNothing(last, key, t);
      if last.Written? { StepOfBucket(ZoneAt(zone, events, j - 1), last, key, t); }
      OneMoreEvent(events, i, j, key, t);
    }
  }

  lemma NoneYet(events: seq<Event>, i: nat, key: Key, t: u16)
    requires i <= |events|
    ensures AddsUndone(events, i, i, key, t)
  {
  }

  lemma ReadsChangeNothing(e: Event, key: Key, t: u16)
    ensures e.Written? || (!Adds(e, key, t) && !Empties(e, key, t))
  {
  }

  lemma OneMoreEvent(events: seq<Event>, i: nat, j: nat, key: Key, t: u16)
    requires i < j <= |events|
    ensures AddsUndone(events, i, j, key, t) <==>
            !Adds(events[j - 1], key, t) && (Empties(events[j - 1], key, t) || AddsUndone(events, i, j - 1, key, t))
  {
    hide Adds, Empties;
    var last := events[j - 1];
    if AddsUndone(events, i, j, key, t) {
      assert !EmptiedBetween(events, j - 1, j, key, t);
      if !Empties(last, key, t) {
        forall a | i <= a < j - 1 && Adds(events[a], key, t) ensures EmptiedBetween(events, a, j - 1, key, t) {
          assert EmptiedBetween(events, a, j, key, t);
        }
      }
    } else {
      var a :| i <= a < j && Adds(events[a], key, t) && !EmptiedBetween(events, a, j, key, t);
      if a < j - 1 {
        assert !Empties(last, key, t);
        assert !EmptiedBetween(events, a, j - 1, key, t);
      }
    }
  }

  // ----- The result -----

  /** The response is the one a zone frozen at instant `i` would have got. */
  ghost predicate TrueAt(query: Message, zone: Zone, events: seq<Event>, i: nat, response: Message)
    requires i <= |events|
  {
    response == Respond(query, ZoneAt(zone, events, i))
  }

  /** A NODATA response, whenever it is compared: right at an instant exactly
      when the name exists then and no record of the asked type does. */
  lemma NodataIsTrueWhen(query: Message, zone: Zone, events: seq<Event>, i: nat)
    requires query.questions != [] && i <= |events|
    ensures TrueAt(query, zone, events, i, Compose(query, [], true)) <==>
            NameExists(ZoneAt(zone, events, i), AskedKey(query)) && Answers(query, ZoneAt(zone, events, i)) == []
  {
    hide ZoneAt;
  }

  /** From the lookup that missed on: a NODATA is right at an instant exactly
      when the name exists then and every record added to the asked bucket since
      the lookup is gone again. */
  lemma NodataIsTrueAfterMiss(query: Message, zone: Zone, events: seq<Event>, lookup: nat, i: nat)
    requires query.questions != [] && MissedAt(query, zone, events, lookup) && lookup <= i <= |events|
    ensures TrueAt(query, zone, events, i, Compose(query, [], true)) <==>
            && NameExists(ZoneAt(zone, events, i), AskedKey(query))
            && AddsUndone(events, lookup, i, AskedKey(query), AskedType(query))
  {
    hide ZoneAt, AddsUndone, TrueAt;
    BucketStaysEmpty(zone, events, lookup, i, AskedKey(query), AskedType(query));
    NodataIsTrueWhen(query, zone, events, i);
  }

  /** The response is right at some instant from the lookup to the check. */
  ghost predicate TrueBetween(query: Message, zone: Zone, events: seq<Event>, lookup: nat, check: nat, m: Message)
    requires check <= |events|
  {
    exists i: nat :: lookup <= i <= check && TrueAt(query, zone, events, i, m)
  }

  ghost predicate NameButNoType(query: Message, zone: Zone, events: seq<Event>, lookup: nat, i: nat)
    requires query.questions != [] && i <= |events|
  {
    && NameExists(ZoneAt(zone, events, i), AskedKey(query))
    && AddsUndone(events, lookup, i, AskedKey(query), AskedType(query))
  }

  lemma {:induction false} AbsentNameAppears(zone: Zone, events: seq<Event>, lookup: nat, i: nat, key: Key)
    requires lookup <= i <= |events| && !NameExists(ZoneAt(zone, events, lookup), key)
    ensures NameExists(ZoneAt(zone, events, i), key) <==> exists u: u16 :: !AddsUndone(events, lookup, i, key, u)
  {
    hide ZoneAt, AddsUndone, NameExists, Bucket;
    NameExistsByBucket(ZoneAt(zone, events, lookup), key);
    NameExistsByBucket(ZoneAt(zone, events, i), key);
    if NameExists(ZoneAt(zone, events, i), key) {
      var u: u16 :| Bucket(ZoneAt(zone, events, i), key, u) != [];
      BucketStaysEmpty(zone, events, lookup, i, key, u);
      assert !AddsUndone(events, lookup, i, key, u);
    }
    if u: u16 :| !AddsUndone(events, lookup, i, key, u) {
      BucketStaysEmpty(zone, events, lookup, i, key, u);
      assert Bucket(ZoneAt(zone, events, i), key, u) != [];
    }
  }

  /** At some instant between the reads, records added to the asked name since
      the lookup are there, but none of the asked type. */
  ghost predicate OnlyOtherTypes(events: seq<Event>, lookup: nat, check: nat, key: Key, t: u16)
    requires check <= |events|
  {
    exists i: nat :: lookup <= i <= check && OnlyOtherTypesAt(events, lookup, i, key, t)
  }

  ghost predicate OnlyOtherTypesAt(events: seq<Event>, lookup: nat, i: nat, key: Key, t: u16)
    requires i <= |events|
  {
    AddsUndone(events, lookup, i, key, t) && exists u: u16 :: !AddsUndone(events, lookup, i, key, u)
  }

  /** A NODATA is right at some instant between the two reads exactly when the
      name existed at the lookup, and it is right at the lookup then, or when the
      writes in between leave, for an instant, added records of other types only. */
  lemma NodataIsTrueBetweenReads(query: Message, zone: Zone, events: seq<Event>, lookup: nat, check: nat)
    requires query.questions != [] && MissedAt(query, zone, events, lookup) && lookup <= check <= |events|
    ensures var m := Compose(query, [], true);
            var existed := NameExists(ZoneAt(zone, events, lookup), AskedKey(query));
            && (existed ==> TrueAt(query, zone, events, lookup, m))
            && (TrueBetween(query, zone, events, lookup, check, m) <==>
                existed || OnlyOtherTypes(events, lookup, check, AskedKey(query), AskedType(query)))
  {
    hide ZoneAt, AddsUndone, TrueAt, Compose, MissedAt, NameExists;
    var m, key, t := Compose(query, [], true), AskedKey(query), AskedType(query);
    NoneYet(events, lookup, key, t);
    NodataIsTrueAfterMiss(query, zone, events, lookup, lookup);
    if !NameExists(ZoneAt(zone, events, lookup), key) {
      forall i: nat | lookup <= i <= check
        ensures TrueAt(query, zone, events, i, m) <==> OnlyOtherTypesAt(events, lookup, i, key, t)
      {
        NodataIsTrueAfterMiss(query, zone, events, lookup, i);
        AbsentNameAppears(zone, events, lookup, i, key);
      }
    }
  }

  /** The answers are the bucket at the lookup, and the response is right then. */
  ghost predicate RightHit(query: Message, zone: Zone, events: seq<Event>, lookup: nat, m: Message)
    requires query.questions != [] && lookup <= |events|
  {
    && m.answers == Bucket(ZoneAt(zone, events, lookup), AskedKey(query), AskedType(query))
    && TrueAt(query, zone, events, lookup, m)
  }

  /** NXDOMAIN means that the name did not exist at the check, and is right then. */
  ghost predicate RightNxdomain(query: Message, zone: Zone, events: seq<Event>, check: nat, m: Message)
    requires query.questions != [] && check <= |events|
  {
    && (m.header.rcode == 3 <==> !NameExists(ZoneAt(zone, events, check), AskedKey(query)))
    && (m.header.rcode == 3 ==> TrueAt(query, zone, events, check, m))
  }

  /** NODATA is right at the check exactly when every record added to the asked
      bucket since the lookup is gone again, and at any instant from the lookup
      on exactly when besides the name exists then. */
  ghost predicate RightNodata(query: Message, zone: Zone, events: seq<Event>, lookup: nat, check: nat, m: Message)
    requires query.questions != [] && check <= |events|
  {
    && (TrueAt(query, zone, events, check, m) <==>
        AddsUndone(events, lookup, check, AskedKey(query), AskedType(query)))
    && forall i: nat :: lookup <= i <= |events| ==>
         (TrueAt(query, zone, events, i, m) <==> NameButNoType(query, zone, events, lookup, i))
  }

  lemma LookupIsRight(query: Message, zone: Zone, events: seq<Event>, i: nat, m: Message)
    requires query.questions != [] && AnsweredByLookup(query, zone, events, i, m)
    ensures m.answers != [] && RightHit(query, zone, events, i, m)
  {
    hide ZoneAt;
    AnswersMeanName(query, ZoneAt(zone, events, i));
  }

  lemma NxdomainIsTrue(query: Message, zone: Zone)
    requires query.questions != []
    ensures !NameExists(zone, AskedKey(query)) ==> Respond(query, zone) == Compose(query, [], false)
  {
    var key, t := AskedKey(query), AskedType(query);
    BucketIsEmptyIff(zone, key, t);
    if Bucket(zone, key, t) != [] {
      var i :| 0 <= i < |zone| && Matches(zone[i], key, t);
      assert NameExists(zone, key);
    }
  }

  lemma CheckIsRight(query: Message, zone: Zone, events: seq<Event>, i: nat, j: nat, m: Message)
    requires query.questions != [] && AnsweredByCheck(query, zone, events, i, j, m)
    ensures m.answers == [] && RightNxdomain(query, zone, events, j, m)
    ensures m.header.rcode != 3 ==> RightNodata(query, zone, events, i, j, m)
  {
    NxdomainIsTrue(query, ZoneAt(zone, events, j));
    hide ZoneAt, AddsUndone;
    assert RightNxdomain(query, zone, events, j, m);
    if m.header.rcode != 3 {
      assert m == Compose(query, [], true) && NameExists(ZoneAt(zone, events, j), AskedKey(query));
      hide TrueAt, NameExists, Compose;
      forall k: nat | i <= k <= |events|
        ensures TrueAt(query, zone, events, k, m) <==> NameButNoType(query, zone, events, i, k)
      {
        NodataIsTrueAfterMiss(query, zone, events, i, k);
      }
    }
  }

  /** In every interleaving: a response with answers is right at the instant of
      the lookup; without answers, an NXDOMAIN is right at the instant of the
      hasName check, and RightNodata tells at which instants a NODATA is right. */
  lemma ResponseIsTrueAtARead(query: Message, zone: Zone, events: seq<Event>)
    returns (lookup: nat, check: nat)
    requires query.questions != [] && Possible(query, zone, events) && Run(query, zone, events).phase.Answered?
    ensures lookup < |events| && events[lookup] == LookedUp
    ensures var m := Run(query, zone, events).phase.response;
            if m.answers != [] then RightHit(query, zone, events, lookup, m)
            else
              && lookup < check < |events| && events[check] == Checked && MissedAt(query, zone, events, lookup)
              && RightNxdomain(query, zone, events, check, m)
              && (m.header.rcode != 3 ==> RightNodata(query, zone, events, lookup, check, m))
  {
    EveryRunIsExplained(query, zone, events);
    var m := Run(query, zone, events).phase.response;
    hide Run, Possible, ZoneAt, RightHit, RightNxdomain, RightNodata;
    check := 0;
    if i: nat :| AnsweredByLookup(query, zone, events, i, m) {
      lookup := i;
      LookupIsRight(query, zone, events, i, m);
    } else {
      lookup, check :| AnsweredByCheck(query, zone, events, lookup, check, m);
      CheckIsRight(query, zone, events, lookup, check, m);
    }
  }

  /** When the response of a run is right at all, at some instant from its lookup
      to its last read: always with answers or NXDOMAIN, and a NODATA exactly
      when the name existed at the lookup or stood for an instant with added
      records of other types only. */
  lemma ResponseIsEverTrueIff(query: Message, zone: Zone, events: seq<Event>)
    returns (lookup: nat, last: nat)
    requires query.questions != [] && Possible(query, zone, events) && Run(query, zone, events).phase.Answered?
    ensures lookup <= last < |events| && events[lookup] == LookedUp
    ensures if lookup == last then Run(query, zone, events).phase.response.answers != [] else events[last] == Checked
    ensures var m := Run(query, zone, events).phase.response;
            var key, t := AskedKey(query), AskedType(query);
            TrueBetween(query, zone, events, lookup, last, m) <==>
            || m.answers != [] || m.header.rcode == 3
            || NameExists(ZoneAt(zone, events, lookup), key) || OnlyOtherTypes(events, lookup, last, key, t)
  {
    EveryRunIsExplained(query, zone, events);
    var m := Run(query, zone, events).phase.response;
    hide Run, Possible, ZoneAt, TrueAt, OnlyOtherTypes, RightNodata;
    if i: nat :| AnsweredByLookup(query, zone, events, i, m) {
      lookup, last := i, i;
      LookupIsRight(query, zone, events, i, m);
    } else {
      lookup, last :| AnsweredByCheck(query, zone, events, lookup, last, m);
      CheckIsRight(query, zone, events, lookup, last, m);
      if m.header.rcode != 3 { NodataIsTrueBetweenReads(query, zone, events, lookup, last); }
    }
  }

  lemma AnswersMeanName(query: Message, zone: Zone)
    requires query.questions != [] && Answers(query, zone) != []
    ensures Respond(query, zone) == Compose(query, Answers(query, zone), true)
  {
  }

  lemma {:induction false} NoWritesNoChange(zone: Zone, events: seq<Event>, i: nat)
    requires i <= |events| && forall k :: 0 <= k < |events| ==> !events[k].Written?
    ensures ZoneAt(zone, events, i) == zone
    decreases i
  {
    if i > 0 { NoWritesNoChange(zone, events, i - 1); }
  }

  /** Left alone, a run gives the response that Resolver.Resolve builds. */
  lemma {:induction false} UndisturbedRunResponds(query: Message, zone: Zone, events: seq<Event>)
    requires query.questions != [] && Possible(query, zone, events) && Run(query, zone, events).phase.Answered?
    requires forall k :: 0 <= k < |events| ==> !events[k].Written?
    ensures Run(query, zone, events).phase.response == Respond(query, zone)
  {
    hide Run, Possible, Respond, Adds;
    var lookup, check := ResponseIsTrueAtARead(query, zone, events);
    NoWritesNoChange(zone, events, lookup);
    if check <= |events| { NoWritesNoChange(zone, events, check); }
    assert forall a :: 0 <= a < |events| ==> !Adds(events[a], AskedKey(query), AskedType(query)) by {
      NothingAdded(events, AskedKey(query), AskedType(query));
    }
  }

  lemma NothingAdded(events: seq<Event>, key: Key, t: u16)
    requires forall k :: 0 <= k < |events| ==> !events[k].Written?
    ensures forall a :: 0 <= a < |events| ==> !Adds(events[a], key, t)
  {
  }

  /** A NODATA response can be wrong at every instant of its run: the name was
      absent until a record of the asked type was added between the two reads. */
  lemma NodataCanBeWrongThroughout(query: Message, record: ResourceRecord)
    requires query.questions != [] && record.rtype == query.questions[0].qtype
    requires SameName(Pieces(record.name.labels), Pieces(query.questions[0].qname.labels))
    ensures var events := [LookedUp, Written(Add(record)), Checked];
            && Possible(query, [], events)
            && var s := Run(query, [], events);
            && s.phase.Answered? && s.phase.response.answers == [] && s.phase.response.header.rcode == 0
            && forall i :: 0 <= i <= 3 ==> !TrueAt(query, [], events, i, s.phase.response)
  {
    MatchesIff(record, query.questions[0].qname, query.questions[0].qtype);
    hide KeyOf, SameName, Pieces;
    var w: Event := Written(Add(record));
    var e0: seq<Event>, e1, e2, e3 := [], [LookedUp], [LookedUp, w], [LookedUp, w, Checked];
    assert Init(e1) == e0 && Init(e2) == e1 && Init(e3) == e2;
    assert Answers(query, []) == [];
    assert Possible(query, [], e0) && Possible(query, [], e1);
    assert Run(query, [], e1) == State([], Missed);
    assert Possible(query, [], e2);
    assert Run(query, [], e2) == State([record], Missed);
    assert [record][0] == record && NameExists([record], AskedKey(query));
    assert Run(query, [], e3) == State([record], Answered(Compose(query, [], true)));
    assert ZoneAt([], e3, 0) == [] && ZoneAt([], e3, 1) == [];
    assert ZoneAt([], e3, 2) == [record] && ZoneAt([], e3, 3) == [record];
    assert Init([record]) == [] && Answers(query, [record]) == [record];
  }
}
