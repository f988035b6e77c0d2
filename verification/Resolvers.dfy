/** src/DnsPro/Resolver.cpp: raw query in, raw response out. */
module Resolvers {
  import opened Packet
  import opened Encoding
  import opened Reading
  import opened CanonicalName
  import opened ZoneList
  import opened ZoneStores
  import opened ByteVectors
  import Parser
  import Builder
  import opened MessageMeaning
  import opened RoundTrip
  import opened Rebuild

  const RCODE_NOERROR: u4 := 0
  const RCODE_FORMERR: u4 := 1
  const RCODE_NXDOMAIN: u4 := 3

  function ResponseHeader(query: Header, rcode: u4): Header {
    query.(qr := 1, aa := 1, ra := 0, rcode := rcode)
  }

  /** The response message, given what the two reads of the zone returned. */
  function Compose(query: Message, matches: seq<ResourceRecord>, nameExists: bool): Message {
    if query.questions == [] then
      Message(ResponseHeader(query.header, RCODE_FORMERR), [], [], [], [])
    else
      var rcode := if matches == [] && !nameExists then RCODE_NXDOMAIN else RCODE_NOERROR;
      Message(ResponseHeader(query.header, rcode), [query.questions[0]], matches, [], [])
  }

  // The canonical name and the type that the query asks for.
  function AskedKey(query: Message): Key
    requires query.questions != []
  {
    KeyOf(query.questions[0].qname.labels)
  }

  function AskedType(query: Message): u16
    requires query.questions != []
  {
    query.questions[0].qtype
  }

  function Answers(query: Message, zone: Zone): seq<ResourceRecord> {
    if query.questions == [] then [] else Bucket(zone, AskedKey(query), AskedType(query))
  }

  /** The response to a query over a zone that does not change meanwhile. */
  function Respond(query: Message, zone: Zone): Message {
    Compose(query, Answers(query, zone), query.questions != [] && NameExists(zone, AskedKey(query)))
  }

  // ----- What a response says -----

  // Equal in every field but the place in a buffer.
  predicate SameRecord(r: ResourceRecord, other: ResourceRecord) {
    && r.name == other.name && r.rtype == other.rtype && r.rclass == other.rclass
    && r.ttl == other.ttl && r.rdata == other.rdata
  }

  predicate SameRecords(rs: seq<ResourceRecord>, others: seq<ResourceRecord>) {
    |rs| == |others| && forall i :: 0 <= i < |rs| ==> SameRecord(rs[i], others[i])
  }

  /** The answers to the first question: all records of its name and type, in insertion order. */
  ghost predicate AnswersQuestion(question: Question, zone: Zone, answers: seq<ResourceRecord>) {
    exists found: seq<ResourceRecord> ::
      Found(zone, question.qname, question.qtype, found) && SameRecords(answers, found)
  }

  /** What the reader of a response is promised. */
  ghost predicate AnswersQuery(q: Message, r: Message, zone: Zone) {
    && r.header.id == q.header.id && r.header.opcode == q.header.opcode && r.header.tc == q.header.tc
    && r.header.rd == q.header.rd && r.header.z == q.header.z
    && r.header.qr == 1 && r.header.aa == 1 && r.header.ra == 0
    && r.authorities == [] && r.additionals == []
    && if q.questions == [] then
         r.questions == [] && r.answers == [] && r.header.rcode == 1
       else
         var question := q.questions[0];
         && r.questions == [question]
         && AnswersQuestion(question, zone, r.answers)
         && r.header.rcode in {0, 3}
         && (r.header.rcode == 3 <==>
             forall i :: 0 <= i < |zone| ==>
               !SameName(Pieces(zone[i].name.labels), Pieces(question.qname.labels)))
  }

  lemma RcodeIsRight(q: Message, zone: Zone)
    requires q.questions != []
    ensures Respond(q, zone).header.rcode == if HasNameOf(zone, q.questions[0].qname) then 0 else 3
  {
    NameExistsIff(zone, q.questions[0].qname);
    BucketIsEmptyIff(zone, AskedKey(q), AskedType(q));
  }

  lemma ResponseAnswersQuery(q: Message, zone: Zone)
    ensures AnswersQuery(q, Respond(q, zone), zone)
  {
    if q.questions != [] {
      RcodeIsRight(q, zone);
      BucketIsFound(zone, q.questions[0].qname, q.questions[0].qtype, Answers(q, zone));
      assert SameRecords(Answers(q, zone), Answers(q, zone));
      hide Bucket, Found, NameExists, SameName, SameRecords;
    }
  }

  /** Which records are answers, whatever the zone. */
  lemma AnswersAreTheAsked(q: Message, zone: Zone, r: ResourceRecord)
    requires q.questions != []
    ensures r in Respond(q, zone).answers <==>
            && r in zone && r.rtype == q.questions[0].qtype
            && SameName(Pieces(r.name.labels), Pieces(q.questions[0].qname.labels))
  {
    BucketMembers(zone, AskedKey(q), AskedType(q), r);
    MatchesIff(r, q.questions[0].qname, q.questions[0].qtype);
  }

  class Resolver {
    const zone: ZoneStore

    constructor (zone: ZoneStore)
      ensures this.zone == zone
    {
      this.zone := zone;
    }

    /** A query that does not parse is refused with the parser's status.
        Otherwise the response is built over the zone's records. */
    method Resolve(query: seq<byte>, response: ByteVector) returns (status: Status)
      requires zone.Valid()
      modifies response
      ensures MessageAt(query).Err? ==> status == MessageAt(query).status && response.data == old(response.data)
      ensures MessageAt(query).Ok? ==>
                var m := Respond(MessageAt(query).value, zone.contents);
                && (status == OK <==> Encodable(m))
                && (status == OK ==> response.data == MessageBytes(m))
                && Builder.BuildReturns(m, status)
                && AnswersQuery(MessageAt(query).value, m, zone.contents)
    {
      hide MessageAt, MessageBytes, Encodable, Builder.BuildReturns, AnswersQuery, Found, HasNameOf;
      var parsed := Parser.Parse(query);
      if parsed.Err? { return parsed.status; }
      var queryMessage := parsed.value;
      var header := queryMessage.header.(qr := 1, aa := 1, ra := 0, rcode := RCODE_NOERROR);
      if queryMessage.questions == [] {
        header := header.(rcode := RCODE_FORMERR);
        status := Builder.Build(Message(header, [], [], [], []), response);
        ResponseAnswersQuery(queryMessage, zone.contents);
        return;
      }
      var question := queryMessage.questions[0];
      var answers: seq<ResourceRecord> := [];
      var matches := zone.Lookup(question.qname, question.qtype);
      if matches != [] {
        answers := matches;
      } else {
        var found := zone.HasName(question.qname);
        if !found { header := header.(rcode := RCODE_NXDOMAIN); }
      }
      status := Builder.Build(Message(header, [question], answers, [], []), response);
      ResponseAnswersQuery(queryMessage, zone.contents);
    }
  }

  // ----- End to end -----

  /** What a record must satisfy to be sent and read back. */
  predicate Sendable(r: ResourceRecord) {
    |r.rdata| <= 65535 && forall i :: 0 <= i < |r.name.labels| ==> 1 <= |r.name.labels[i]| <= 63
  }

  predicate Servable(zone: Zone) {
    forall i :: 0 <= i < |zone| ==> Sendable(zone[i])
  }

  lemma ServableIff(zone: Zone)
    ensures Servable(zone) <==> EncodableRecords(zone) && WellNamedRecords(zone)
  {
    forall i | 0 <= i < |zone|
      ensures Sendable(zone[i]) <==> EncodableRecord(zone[i]) && NonEmptyLabels(zone[i].name.labels)
    {
      SendableIff(zone[i]);
    }
    hide Sendable, EncodableRecord, NonEmptyLabels;
  }

  lemma SendableIff(r: ResourceRecord)
    ensures Sendable(r) <==> EncodableRecord(r) && NonEmptyLabels(r.name.labels)
  {
  }

  /** `found` are all records that a query asks for, in insertion order. */
  ghost predicate AsksFor(q: Message, zone: Zone, found: seq<ResourceRecord>) {
    if q.questions == [] then found == [] else Found(zone, q.questions[0].qname, q.questions[0].qtype, found)
  }

  lemma AnswersAreAskedFor(q: Message, zone: Zone, found: seq<ResourceRecord>)
    ensures AsksFor(q, zone, found) <==> found == Answers(q, zone)
  {
    if q.questions != [] { BucketIsFound(zone, q.questions[0].qname, q.questions[0].qtype, found); }
  }

  lemma AnswersComeFromZone(query: Message, zone: Zone)
    requires Servable(zone)
    ensures Servable(Answers(query, zone))
  {
    hide Sendable;
    var answers := Answers(query, zone);
    forall i | 0 <= i < |answers| ensures Sendable(answers[i]) {
      BucketMembers(zone, AskedKey(query), AskedType(query), answers[i]);
      var j :| 0 <= j < |zone| && zone[j] == answers[i];
    }
  }

  /** A parsed query fails to be answered exactly when its answers cannot be encoded. */
  lemma AnsweredIffEncodable(query: seq<byte>, zone: Zone)
    ensures MessageAt(query).Ok? ==>
              var q := MessageAt(query).value;
              Encodable(Respond(q, zone)) <==> |Answers(q, zone)| <= MAX_U16 && EncodableRecords(Answers(q, zone))
  {
    ParsedMessage(query);
    hide MessageAt, EncodableRecord, Bucket, NameExists;
  }

  /** The built response parses back in full, to what was asked for. */
  ghost predicate ReadsBack(q: Message, zone: Zone)
    requires Encodable(Respond(q, zone))
  {
    var out := MessageBytes(Respond(q, zone));
    var r := MessageAt(out);
    r.Ok? && r.end == |out| && AnswersQuery(q, r.value, zone)
  }

  // Placing records leaves them the same, and nothing else does.
  lemma {:induction false} PlacelessMeansSame(rs: seq<ResourceRecord>, others: seq<ResourceRecord>)
    ensures PlacelessAll(rs) == PlacelessAll(others) <==> SameRecords(rs, others)
    decreases |rs|
  {
    PlacelessRecords(rs);
    PlacelessRecords(others);
    if rs != [] && |rs| == |others| {
      PlacelessMeansSame(Init(rs), Init(others));
      SplitLast(PlacelessAll(rs), PlacelessAll(Init(rs)), Placeless(Last(rs)));
      SplitLast(PlacelessAll(others), PlacelessAll(Init(others)), Placeless(Last(others)));
      SameInit(rs, others);
    }
  }

  lemma SameInit(rs: seq<ResourceRecord>, others: seq<ResourceRecord>)
    requires rs != [] && |rs| == |others|
    ensures SameRecords(rs, others) <==> SameRecords(Init(rs), Init(others)) && SameRecord(Last(rs), Last(others))
  {
    hide SameRecord;
    if SameRecords(Init(rs), Init(others)) && SameRecord(Last(rs), Last(others)) {
      forall i | 0 <= i < |rs| ensures SameRecord(rs[i], others[i]) {
        assert i < |rs| - 1 ==> rs[i] == Init(rs)[i] && others[i] == Init(others)[i];
      }
    }
  }

  lemma SameAnswers(question: Question, zone: Zone, rs: seq<ResourceRecord>, others: seq<ResourceRecord>)
    requires PlacelessAll(rs) == PlacelessAll(others) && AnswersQuestion(question, zone, rs)
    ensures AnswersQuestion(question, zone, others)
  {
    PlacelessMeansSame(rs, others);
    hide Found;
    var found: seq<ResourceRecord> :| Found(zone, question.qname, question.qtype, found) && SameRecords(rs, found);
    assert SameRecords(others, found);
  }

  // Only the content of a response counts.
  lemma SameContentAnswers(q: Message, r: Message, other: Message, zone: Zone)
    requires Content(r) == Content(other) && AnswersQuery(q, r, zone)
    ensures AnswersQuery(q, other, zone)
  {
    PlacelessRecords(other.answers);
    PlacelessRecords(other.authorities);
    PlacelessRecords(other.additionals);
    assert PlacelessAll([]) == [];
    hide PlacelessAll, AnswersQuestion, SameName, Pieces;
    SameHeader(r.header, other.header);
    if q.questions != [] { SameAnswers(q.questions[0], zone, r.answers, other.answers); }
  }

  lemma SameHeader(h: Header, other: Header)
    requires Uncounted(h) == Uncounted(other)
    ensures other == h.(qdcount := other.qdcount, ancount := other.ancount,
                        nscount := other.nscount, arcount := other.arcount)
  {
  }

  lemma ResponseReads(q: Message, zone: Zone)
    requires Encodable(Respond(q, zone)) && WellNamed(Respond(q, zone))
    ensures ReadsBack(q, zone)
  {
    var m := Respond(q, zone);
    ParseOfBuilt(m);
    PlacedContent(m);
    ResponseAnswersQuery(q, zone);
    hide MessageAt, MessageBytes, Respond, AnswersQuery, Content;
    SameContentAnswers(q, m, PlacedMessage(m), zone);
  }

  lemma ReadingTellsNames(q: Message, zone: Zone)
    requires Encodable(Respond(q, zone))
    ensures ReadsBack(q, zone) ==> WellNamedRecords(Answers(q, zone))
  {
    if !ReadsBack(q, zone) || q.questions == [] { return; }
    var out := MessageBytes(Respond(q, zone));
    ParsedMessage(out);
    var read := MessageAt(out).value.answers;
    hide MessageAt, MessageBytes, Answers, Found;
    var found: seq<ResourceRecord> :|
      Found(zone, q.questions[0].qname, q.questions[0].qtype, found) && SameRecords(read, found);
    AnswersAreAskedFor(q, zone, found);
    forall i | 0 <= i < |found| ensures NonEmptyLabels(found[i].name.labels) {
      assert SameRecord(read[i], found[i]);
    }
  }

  /** An answered query reads back in full, as what was asked for, exactly when
      no matching record has an empty label. */
  lemma AnswerReadsBackIff(query: seq<byte>, zone: Zone)
    ensures MessageAt(query).Ok? && Encodable(Respond(MessageAt(query).value, zone)) ==>
              var q := MessageAt(query).value;
              WellNamedRecords(Answers(q, zone)) <==> ReadsBack(q, zone)
  {
    ParsedMessage(query);
    if MessageAt(query).Ok? && Encodable(Respond(MessageAt(query).value, zone)) {
      var q := MessageAt(query).value;
      if WellNamedRecords(Answers(q, zone)) { ResponseReads(q, zone); }
      ReadingTellsNames(q, zone);
    }
  }

  /** End to end, over every zone: a query that parses is answered, and the
      answer parses back in full to what was asked for, exactly when the records
      asked for are at most 65535, each of them with labels of 1 to 63 octets and
      with at most 65535 octets of rdata. */
  lemma AnsweredAndReadBackIff(query: seq<byte>, zone: Zone, found: seq<ResourceRecord>)
    ensures MessageAt(query).Ok? && AsksFor(MessageAt(query).value, zone, found) ==>
              var q := MessageAt(query).value;
              Encodable(Respond(q, zone)) && ReadsBack(q, zone) <==> |found| <= 65535 && Servable(found)
  {
    hide MessageAt, Respond, Answers, AsksFor, ReadsBack, Servable;
    AnsweredIffEncodable(query, zone);
    AnswerReadsBackIff(query, zone);
    ServableIff(found);
    if MessageAt(query).Ok? { AnswersAreAskedFor(MessageAt(query).value, zone, found); }
  }

  /** Over a zone of such records, every query that parses and asks for at most
      65535 of them is answered, and the answer reads back. */
  lemma EveryQueryIsAnswered(query: seq<byte>, zone: Zone, found: seq<ResourceRecord>)
    requires Servable(zone)
    ensures MessageAt(query).Ok? && AsksFor(MessageAt(query).value, zone, found) && |found| <= 65535 ==>
              Encodable(Respond(MessageAt(query).value, zone)) && ReadsBack(MessageAt(query).value, zone)
  {
    hide MessageAt, Respond, Answers, AsksFor, ReadsBack, Servable;
    AnsweredAndReadBackIff(query, zone, found);
    if MessageAt(query).Ok? {
      AnswersAreAskedFor(MessageAt(query).value, zone, found);
      AnswersComeFromZone(MessageAt(query).value, zone);
    }
  }

  /** resolve can also fail in building the response: the zone accepts a record
      whose rdata no message can carry. */
  lemma AnswerCanBeRefused(query: Message, record: ResourceRecord)
    requires |query.questions| == 1 && Encodable(query) && WellNamed(query)
    requires record.rtype == query.questions[0].qtype
    requires SameName(Pieces(record.name.labels), Pieces(query.questions[0].qname.labels))
    requires |record.rdata| > 65535
    ensures var r := MessageAt(MessageBytes(query));
            && r.Ok? && r.value.questions == query.questions
            && var m := Respond(r.value, [record]);
            && !Encodable(m)
            && ((forall i :: 0 <= i < |record.name.labels| ==> |record.name.labels[i]| <= 63) ==>
                  Builder.BuildReturns(m, RDATA_LENGTH_MISMATCH))
            && ((exists i :: 0 <= i < |record.name.labels| && |record.name.labels[i]| > 63) ==>
                  Builder.BuildReturns(m, LABEL_TOO_LONG))
  {
    ParseOfBuilt(query);
    hide MessageAt, MessageBytes, NameExists, KeyOf, Builder.BuildReturns;
    OneRecordRefused(PlacedMessage(query), record);
  }

  lemma OneRecordRefused(query: Message, record: ResourceRecord)
    requires |query.questions| == 1 && ShortLabels(query.questions[0].qname.labels)
    requires record.rtype == query.questions[0].qtype
    requires SameName(Pieces(record.name.labels), Pieces(query.questions[0].qname.labels))
    requires |record.rdata| > 65535
    ensures var m := Respond(query, [record]);
            && !Encodable(m)
            && Builder.BuildReturns(m, if Builder.HasLongLabel(record.name.labels) then LABEL_TOO_LONG
                                       else RDATA_LENGTH_MISMATCH)
  {
    var question, m := query.questions[0], Respond(query, [record]);
    MatchesIff(record, question.qname, question.qtype);
    OneRecordAnswers(query, record);
    hide Respond, SameName, Pieces;
    var es := Builder.Entries(m);
    assert es[0] == Builder.Entry(question.qname.labels, []);
    assert es[1] == Builder.Entry(record.name.labels, record.rdata);
    assert Builder.FirstRefused(es, 1);
  }

  lemma OneRecordAnswers(query: Message, record: ResourceRecord)
    requires |query.questions| == 1 && Matches(record, AskedKey(query), AskedType(query))
    ensures var m := Respond(query, [record]);
            m.questions == query.questions && m.answers == [record] && m.authorities == [] && m.additionals == []
  {
    BucketOfOne(record, AskedKey(query), AskedType(query));
    hide Bucket, KeyOf, NameExists, Matches;
    assert Answers(query, [record]) == [record];
    hide Answers, AskedKey, AskedType, ResponseHeader;
  }
}
