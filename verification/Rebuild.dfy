/** Parse, build, parse: built packets as canonical forms of what packets say. */
module Rebuild {
  import opened Packet
  import opened Encoding
  import opened NameWalk
  import opened Reading
  import opened MessageMeaning
  import opened RoundTrip
  import Layout
  import Truncation

  // ----- What a parse can yield -----

  lemma ParsedRecord(b: seq<byte>, o: nat)
    ensures RecordAt(b, o).Ok? ==>
              EncodableRecord(RecordAt(b, o).value) && NonEmptyLabels(RecordAt(b, o).value.name.labels)
  {
    hide NameAt;
    if NameAt(b, o).Ok? { NameShape(b, o); }
  }

  lemma ParsedQuestion(b: seq<byte>, o: nat)
    ensures QuestionAt(b, o).Ok? ==>
              ShortLabels(QuestionAt(b, o).value.qname.labels) && NonEmptyLabels(QuestionAt(b, o).value.qname.labels)
  {
    hide NameAt;
    if NameAt(b, o).Ok? { NameShape(b, o); }
  }

  lemma {:induction false} ParsedSections(b: seq<byte>, o: nat, n: nat)
    ensures QuestionsAt(b, o, n).Ok? ==>
              var qs := QuestionsAt(b, o, n).value; |qs| == n && EncodableQuestions(qs) && WellNamedQuestions(qs)
    ensures RecordsAt(b, o, n).Ok? ==>
              var rs := RecordsAt(b, o, n).value; |rs| == n && EncodableRecords(rs) && WellNamedRecords(rs)
    decreases n
  {
    hide QuestionAt, RecordAt, ShortLabels, NonEmptyLabels;
    if n > 0 {
      ParsedSections(b, o, n - 1);
      var q, r := QuestionsAt(b, o, n - 1), RecordsAt(b, o, n - 1);
      if q.Ok? { ParsedQuestion(b, q.end); }
      if r.Ok? { ParsedRecord(b, r.end); }
    }
  }

  /** Whatever parse yields can be built again, and its counts are its section sizes. */
  lemma ParsedMessage(b: seq<byte>)
    ensures MessageAt(b).Ok? ==>
              var m := MessageAt(b).value;
              Encodable(m) && WellNamed(m) && CountsAgree(m) && CountedHeader(m) == m.header
  {
    hide HeaderAt, QuestionsAt, RecordsAt;
    hide EncodableQuestions, EncodableRecords, WellNamedQuestions, WellNamedRecords;
    if MessageAt(b).Ok? {
      var h := HeaderAt(b, 0);
      var q := QuestionsAt(b, h.end, h.value.qdcount);
      var a := RecordsAt(b, q.end, h.value.ancount);
      var n := RecordsAt(b, a.end, h.value.nscount);
      ParsedSections(b, h.end, h.value.qdcount);
      ParsedSections(b, q.end, h.value.ancount);
      ParsedSections(b, a.end, h.value.nscount);
      ParsedSections(b, n.end, h.value.arcount);
    }
  }

  // ----- Content -----

  lemma {:induction false} PlacelessRecords(rs: seq<ResourceRecord>)
    ensures |PlacelessAll(rs)| == |rs|
    ensures EncodableRecords(PlacelessAll(rs)) <==> EncodableRecords(rs)
    ensures EncodableRecords(rs) ==> RecordsBytes(PlacelessAll(rs)) == RecordsBytes(rs)
    decreases |rs|
  {
    hide NameBytes;
    if rs != [] {
      PlacelessRecords(Init(rs));
      var p := PlacelessAll(rs);
      assert Init(p) == PlacelessAll(Init(rs)) && Last(p) == Placeless(Last(rs));
      assert EncodableRecord(Last(p)) <==> EncodableRecord(Last(rs));
      SplitLast(rs, Init(rs), Last(rs));
      SplitLast(p, Init(p), Last(p));
      EncodableInit(rs);
      EncodableInit(p);
    }
  }

  lemma EncodableInit(rs: seq<ResourceRecord>)
    requires rs != []
    ensures EncodableRecords(rs) <==> EncodableRecords(Init(rs)) && EncodableRecord(Last(rs))
  {
    hide EncodableRecord;
    if EncodableRecords(Init(rs)) && EncodableRecord(Last(rs)) {
      forall i | 0 <= i < |rs| ensures EncodableRecord(rs[i]) {
        assert i < |rs| - 1 ==> rs[i] == Init(rs)[i];
      }
    }
  }

  lemma {:induction false} PlacingIsInvisible(rs: seq<ResourceRecord>, o: nat)
    requires EncodableRecords(rs)
    ensures |PlacedAll(rs, o)| == |rs| && PlacelessAll(PlacedAll(rs, o)) == PlacelessAll(rs)
    decreases |rs|
  {
    if rs != [] {
      PlacingIsInvisible(Init(rs), o);
      var p := PlacedAll(rs, o);
      assert Init(p) == PlacedAll(Init(rs), o);
    }
  }

  lemma CountsAreNotContent(m: Message)
    requires CountsFit(m)
    ensures Uncounted(CountedHeader(m)) == Uncounted(m.header)
  {
  }

  lemma PlacedContent(m: Message)
    requires Encodable(m)
    ensures Content(PlacedMessage(m)) == Content(m)
  {
    hide QuestionsBytes, RecordsBytes, PlacedAll, PlacelessAll, EncodableQuestions, EncodableRecords;
    hide Uncounted, CountedHeader;
    var e1 := 12 + |QuestionsBytes(m.questions)|;
    var e2 := e1 + |RecordsBytes(m.answers)|;
    var e3 := e2 + |RecordsBytes(m.authorities)|;
    CountsAreNotContent(m);
    PlacingIsInvisible(m.answers, e1);
    PlacingIsInvisible(m.authorities, e2);
    PlacingIsInvisible(m.additionals, e3);
  }

  /** build depends on the content alone: neither the header counts nor any
      rdataOffset of its input reaches the output. */
  lemma BytesOfContent(m: Message)
    ensures Encodable(Content(m)) <==> Encodable(m)
    ensures Encodable(m) ==> MessageBytes(Content(m)) == MessageBytes(m)
  {
    hide QuestionsBytes, RecordsBytes, HeaderBytes, PlacelessAll, EncodableRecords, EncodableQuestions;
    PlacelessRecords(m.answers);
    PlacelessRecords(m.authorities);
    PlacelessRecords(m.additionals);
    assert CountsFit(m) ==> CountedHeader(Content(m)) == CountedHeader(m);
  }

  // ----- The laws -----

  lemma ParseOfBuilt(m: Message)
    requires Encodable(m) && WellNamed(m)
    ensures MessageAt(MessageBytes(m)) == Ok(PlacedMessage(m), |MessageBytes(m)|)
  {
    var out := MessageBytes(m);
    assert out[0..0 + |out|] == out;
    BuildThenParse(out, m);
  }

  /** Built bytes are a canonical form: two messages build to the same bytes
      exactly when they say the same. */
  lemma BuiltFormIsCanonical(m: Message, n: Message)
    requires Encodable(m) && WellNamed(m) && Encodable(n) && WellNamed(n)
    ensures MessageBytes(m) == MessageBytes(n) <==> Content(m) == Content(n)
  {
    hide MessageBytes, Content, MessageAt, PlacedMessage;
    BytesOfContent(m);
    BytesOfContent(n);
    ParseOfBuilt(m);
    ParseOfBuilt(n);
    PlacedContent(m);
    PlacedContent(n);
  }

  /** Two packets, compressed in any way, parse to the same content exactly when
      rebuilding them gives the same bytes. */
  lemma CompressionIsInvisible(b: seq<byte>, c: seq<byte>)
    ensures MessageAt(b).Ok? && MessageAt(c).Ok? ==>
              var m, n := MessageAt(b).value, MessageAt(c).value;
              && Encodable(m) && Encodable(n)
              && (Content(m) == Content(n) <==> MessageBytes(m) == MessageBytes(n))
  {
    hide MessageAt, MessageBytes, Content;
    ParsedMessage(b);
    ParsedMessage(c);
    if MessageAt(b).Ok? && MessageAt(c).Ok? { BuiltFormIsCanonical(MessageAt(b).value, MessageAt(c).value); }
  }

  /** Reading back a built message gives its content exactly when none of its
      labels is empty. */
  lemma RoundTripNeedsLabels(m: Message)
    requires Encodable(m)
    ensures WellNamed(m) <==>
            var r := MessageAt(MessageBytes(m)); r.Ok? && Content(r.value) == Content(m)
  {
    var r := MessageAt(MessageBytes(m));
    hide MessageAt, MessageBytes;
    if WellNamed(m) {
      ParseOfBuilt(m);
      PlacedContent(m);
    }
    if r.Ok? && Content(r.value) == Content(m) {
      ParsedMessage(MessageBytes(m));
      ContentKeepsNames(r.value);
      ContentKeepsNames(m);
    }
  }

  lemma {:induction false} PlacelessKeepsNames(rs: seq<ResourceRecord>)
    ensures WellNamedRecords(PlacelessAll(rs)) <==> WellNamedRecords(rs)
    decreases |rs|
  {
    if rs != [] {
      PlacelessKeepsNames(Init(rs));
      var p := PlacelessAll(rs);
      assert Init(p) == PlacelessAll(Init(rs)) && Last(p) == Placeless(Last(rs));
      NamedInit(rs);
      NamedInit(p);
    }
  }

  lemma NamedInit(rs: seq<ResourceRecord>)
    requires rs != []
    ensures WellNamedRecords(rs) <==> WellNamedRecords(Init(rs)) && NonEmptyLabels(Last(rs).name.labels)
  {
    hide NonEmptyLabels;
    if WellNamedRecords(Init(rs)) && NonEmptyLabels(Last(rs).name.labels) {
      forall i | 0 <= i < |rs| ensures NonEmptyLabels(rs[i].name.labels) {
        assert i < |rs| - 1 ==> rs[i] == Init(rs)[i];
      }
    }
  }

  lemma ContentKeepsNames(m: Message)
    ensures WellNamed(Content(m)) <==> WellNamed(m)
  {
    hide WellNamedRecords, WellNamedQuestions, PlacelessAll;
    PlacelessKeepsNames(m.answers);
    PlacelessKeepsNames(m.authorities);
    PlacelessKeepsNames(m.additionals);
  }

  /** Parse, build, parse, build. Rebuilding a parsed packet cannot fail, the
      rebuilt packet parses in full to an equal message up to rdataOffset, and
      rebuilding that gives the same bytes again. */
  lemma RebuildReachesFixedPoint(b: seq<byte>)
    ensures MessageAt(b).Ok? ==>
              var m := MessageAt(b).value;
              && Encodable(m)
              && var rebuilt := MessageBytes(m);
              var reparsed := MessageAt(rebuilt);
              && reparsed.Ok? && reparsed.end == |rebuilt|
              && reparsed.value.header == m.header && Content(reparsed.value) == Content(m)
              && Encodable(reparsed.value) && MessageBytes(reparsed.value) == rebuilt
  {
    ParsedMessage(b);
    if MessageAt(b).Ok? {
      var m := MessageAt(b).value;
      ParseOfBuilt(m);
      PlacedContent(m);
      assert PlacedMessage(m).header == m.header;
      ParsedMessage(MessageBytes(m));
      hide MessageAt, MessageBytes, Content, PlacedMessage;
      BytesOfContent(m);
      BytesOfContent(PlacedMessage(m));
    }
  }

  lemma PlainMessageIsBuilt(b: seq<byte>)
    ensures PlainMessage(b) ==>
              var m := MessageAt(b).value;
              Encodable(m) && Holds(b, 0, MessageBytes(m)) && MessageAt(b).end == |MessageBytes(m)|
  {
    hide MessageAt, PlainMessage;
    hide HeaderBytes, QuestionsBytes, RecordsBytes, EncodableQuestions, EncodableRecords, WellNamed, Holds;
    ParsedMessage(b);
    var e1, e2, e3 := PlainSectionsAreBuilt(b);
    if PlainMessage(b) { HoldsSections(b, MessageAt(b).value); }
  }

  lemma PlainSectionsAreBuilt(b: seq<byte>) returns (e1: nat, e2: nat, e3: nat)
    ensures PlainMessage(b) ==> MessageAt(b).Ok?
    ensures PlainMessage(b) ==>
              var m, end := MessageAt(b).value, MessageAt(b).end;
              && EncodableQuestions(m.questions) && EncodableRecords(m.answers)
              && EncodableRecords(m.authorities) && EncodableRecords(m.additionals)
              && Holds(b, 0, HeaderBytes(m.header))
              && Holds(b, 12, QuestionsBytes(m.questions)) && e1 == 12 + |QuestionsBytes(m.questions)|
              && Holds(b, e1, RecordsBytes(m.answers)) && e2 == e1 + |RecordsBytes(m.answers)|
              && Holds(b, e2, RecordsBytes(m.authorities)) && e3 == e2 + |RecordsBytes(m.authorities)|
              && Holds(b, e3, RecordsBytes(m.additionals)) && end == e3 + |RecordsBytes(m.additionals)|
  {
    e1, e2, e3 := Layout.SectionBounds(b);
    if PlainMessage(b) {
      var m := MessageAt(b).value;
      AssembledMessage(b, m, e1, e2, e3, MessageAt(b).end);
      hide MessageAt, HeaderAt, QuestionsAt, RecordsAt, PlainMessage, PlainQuestions, PlainRecords;
      hide HeaderBytes, QuestionsBytes, RecordsBytes, EncodableQuestions, EncodableRecords, Holds;
      HeaderIsHeld(b, 0, m.header);
      PlainQuestionsAreBuilt(b, 12, m.header.qdcount);
      PlainRecordsAreBuilt(b, e1, m.header.ancount);
      PlainRecordsAreBuilt(b, e2, m.header.nscount);
      PlainRecordsAreBuilt(b, e3, m.header.arcount);
    }
  }

  /** Rebuilding reproduces the consumed bytes of a packet, all sixteen flag bits
      among them, exactly when none of its owner names and qnames is compressed. */
  lemma RebuildIsByteExact(b: seq<byte>)
    ensures MessageAt(b).Ok? ==>
              var m, end := MessageAt(b).value, MessageAt(b).end;
              && Encodable(m) && end <= |b|
              && (MessageBytes(m) == b[..end] <==> PlainMessage(b))
  {
    ParsedMessage(b);
    Layout.MessageBounds(b);
    if MessageAt(b).Ok? {
      var m, end := MessageAt(b).value, MessageAt(b).end;
      PlainMessageIsBuilt(b);
      hide MessageAt, MessageBytes, PlainMessage;
      assert b[0..end] == b[..end];
      if MessageBytes(m) == b[..end] { BuildThenParse(b, m); }
    }
  }

  /** Without compressed names a parse reads no further than it consumes, so the
      consumed length is the truncation threshold. */
  lemma PlainMessageReach(b: seq<byte>)
    ensures PlainMessage(b) ==> Truncation.MessageReach(b) == MessageAt(b).end
  {
    if PlainMessage(b) {
      var m, end := MessageAt(b).value, MessageAt(b).end;
      ParsedMessage(b);
      RebuildIsByteExact(b);
      ParseOfBuilt(m);
      hide MessageAt, MessageBytes, PlainMessage, Truncation.MessageReach;
      Truncation.TruncationThreshold(b, end);
    }
  }
}
