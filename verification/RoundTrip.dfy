/** Builder and Parser as a print/parse pair: what reading back a built packet
    gives, and which packets are already in the built form. */
module RoundTrip {
  import opened Packet
  import opened Encoding
  import opened NameWalk
  import opened Reading
  import opened NameMeaning
  import opened MessageMeaning

  // ----- Names -----

  /** The in-place encoding at `c` uses no pointer: labels down to a zero octet. */
  predicate PlainName(b: seq<byte>, c: nat)
    decreases |b| - c
  {
    match Look(b, c)
    case Root => true
    case Read(_, next) => PlainName(b, next)
    case _ => false
  }

  lemma {:induction false} BuiltName(b: seq<byte>, o: nat, labels: seq<Label>, k: nat)
    requires ShortLabels(labels) && NonEmptyLabels(labels) && Holds(b, o, NameBytes(labels)) && k > |labels|
    ensures Walk(b, o, k) == Ok(labels, o + |NameBytes(labels)|) && PlainName(b, o)
    decreases |labels|
  {
    hide Holds;
    if labels == [] {
      RootBytes(b, o);
    } else {
      HoldsConcat(b, o, LabelBytes(labels[0]), NameBytes(labels[1..]));
      LabelIsRead(b, o, labels[0]);
      BuiltName(b, o + 1 + |labels[0]|, labels[1..], k - 1);
      assert labels == [labels[0]] + labels[1..];
    }
  }

  /** A name written out in full is read back as it is. */
  lemma BuiltNameIsRead(b: seq<byte>, o: nat, labels: seq<Label>)
    requires ShortLabels(labels) && NonEmptyLabels(labels) && Holds(b, o, NameBytes(labels))
    ensures NameAt(b, o) == Ok(labels, o + |NameBytes(labels)|) && PlainName(b, o)
  {
    BuiltName(b, o, labels, |labels| + 1);
    BudgetSuffices(b, o, |labels| + 1);
  }

  /** A name read without meeting a pointer stands in the buffer written out in full. */
  lemma {:induction false} PlainNameIsBuilt(b: seq<byte>, o: nat, k: nat)
    requires Walk(b, o, k).Ok? && PlainName(b, o)
    ensures var r := Walk(b, o, k);
            ShortLabels(r.value) && Holds(b, o, NameBytes(r.value)) && r.end == o + |NameBytes(r.value)|
    decreases k
  {
    hide Holds;
    match Look(b, o)
    case Root => RootBytes(b, o);
    case Read(text, next) =>
      PlainNameIsBuilt(b, next, k - 1);
      var rest := Walk(b, next, k - 1).value;
      LabelIsRead(b, o, text);
      HoldsConcat(b, o, LabelBytes(text), NameBytes(rest));
      assert ([text] + rest)[1..] == rest;
  }

  lemma PlainNameAtIsBuilt(b: seq<byte>, o: nat)
    requires NameAt(b, o).Ok? && PlainName(b, o)
    ensures var r := NameAt(b, o);
            ShortLabels(r.value) && Holds(b, o, NameBytes(r.value)) && r.end == o + |NameBytes(r.value)|
  {
    PlainNameIsBuilt(b, o, |b| + 1);
  }

  // ----- Entries -----

  predicate WellNamedQuestions(qs: seq<Question>) {
    forall i :: 0 <= i < |qs| ==> NonEmptyLabels(qs[i].qname.labels)
  }

  predicate WellNamedRecords(rs: seq<ResourceRecord>) {
    forall i :: 0 <= i < |rs| ==> NonEmptyLabels(rs[i].name.labels)
  }

  /** No label of any name is empty: an empty label would be written as the end of its name. */
  predicate WellNamed(m: Message) {
    && WellNamedQuestions(m.questions) && WellNamedRecords(m.answers)
    && WellNamedRecords(m.authorities) && WellNamedRecords(m.additionals)
  }

  // The record with rdataOffset at the place where its rdata is written.
  function Placed(r: ResourceRecord, o: nat): ResourceRecord
    requires EncodableRecord(r)
  {
    r.(rdataOffset := o + |NameBytes(r.name.labels)| + 10)
  }

  function PlacedAll(rs: seq<ResourceRecord>, o: nat): seq<ResourceRecord>
    requires EncodableRecords(rs)
  {
    if rs == [] then [] else
      PlacedAll(Init(rs), o) + [Placed(Last(rs), o + |RecordsBytes(Init(rs))|)]
  }

  function PlacedMessage(m: Message): Message
    requires Encodable(m)
  {
    var e1 := 12 + |QuestionsBytes(m.questions)|;
    var e2 := e1 + |RecordsBytes(m.answers)|;
    var e3 := e2 + |RecordsBytes(m.authorities)|;
    Message(CountedHeader(m), m.questions,
            PlacedAll(m.answers, e1), PlacedAll(m.authorities, e2), PlacedAll(m.additionals, e3))
  }

  lemma BuiltQuestionIsRead(b: seq<byte>, o: nat, q: Question)
    requires ShortLabels(q.qname.labels) && NonEmptyLabels(q.qname.labels) && Holds(b, o, QuestionBytes(q))
    ensures QuestionAt(b, o) == Ok(q, o + |QuestionBytes(q)|) && PlainName(b, o)
  {
    hide NameAt, NameBytes, QuestionTail, PlainName, Holds;
    var m := o + |NameBytes(q.qname.labels)|;
    HoldsConcat(b, o, NameBytes(q.qname.labels), QuestionTail(q));
    BuiltNameIsRead(b, o, q.qname.labels);
    QuestionTailIsRead(b, m, q);
  }

  lemma BuiltRecordIsRead(b: seq<byte>, o: nat, r: ResourceRecord)
    requires EncodableRecord(r) && NonEmptyLabels(r.name.labels) && Holds(b, o, RecordBytes(r))
    ensures RecordAt(b, o) == Ok(Placed(r, o), o + |RecordBytes(r)|) && PlainName(b, o)
  {
    hide NameAt, NameBytes, RecordFields, PlainName;
    var m := o + |NameBytes(r.name.labels)|;
    HoldsConcat(b, o, NameBytes(r.name.labels) + RecordFields(r), r.rdata);
    HoldsConcat(b, o, NameBytes(r.name.labels), RecordFields(r));
    BuiltNameIsRead(b, o, r.name.labels);
    RecordFieldsAreRead(b, m, r);
  }

  // ----- Sections -----

  /** None of the first n names of a section is compressed. */
  predicate PlainQuestions(b: seq<byte>, o: nat, n: nat)
    decreases n
  {
    n > 0 ==>
      && PlainQuestions(b, o, n - 1)
      && (QuestionsAt(b, o, n - 1).Ok? ==> PlainName(b, QuestionsAt(b, o, n - 1).end))
  }

  predicate PlainRecords(b: seq<byte>, o: nat, n: nat)
    decreases n
  {
    n > 0 ==>
      && PlainRecords(b, o, n - 1)
      && (RecordsAt(b, o, n - 1).Ok? ==> PlainName(b, RecordsAt(b, o, n - 1).end))
  }

  lemma {:induction false} BuiltQuestionsAreRead(b: seq<byte>, o: nat, qs: seq<Question>)
    requires EncodableQuestions(qs) && WellNamedQuestions(qs) && Holds(b, o, QuestionsBytes(qs))
    ensures QuestionsAt(b, o, |qs|) == Ok(qs, o + |QuestionsBytes(qs)|) && PlainQuestions(b, o, |qs|)
    decreases |qs|
  {
    hide QuestionAt, PlainName;
    if qs != [] {
      HoldsConcat(b, o, QuestionsBytes(Init(qs)), QuestionBytes(Last(qs)));
      SplitLast(qs, Init(qs), Last(qs));
      BuiltQuestionsAreRead(b, o, Init(qs));
      BuiltQuestionIsRead(b, o + |QuestionsBytes(Init(qs))|, Last(qs));
    }
  }

  lemma {:induction false} BuiltRecordsAreRead(b: seq<byte>, o: nat, rs: seq<ResourceRecord>)
    requires EncodableRecords(rs) && WellNamedRecords(rs) && Holds(b, o, RecordsBytes(rs))
    ensures RecordsAt(b, o, |rs|) == Ok(PlacedAll(rs, o), o + |RecordsBytes(rs)|) && PlainRecords(b, o, |rs|)
    decreases |rs|
  {
    hide RecordAt, PlainName;
    if rs != [] {
      HoldsConcat(b, o, RecordsBytes(Init(rs)), RecordBytes(Last(rs)));
      BuiltRecordsAreRead(b, o, Init(rs));
      BuiltRecordIsRead(b, o + |RecordsBytes(Init(rs))|, Last(rs));
    }
  }

  lemma {:induction false} PlainQuestionsAreBuilt(b: seq<byte>, o: nat, n: nat)
    requires o <= |b| && QuestionsAt(b, o, n).Ok? && PlainQuestions(b, o, n)
    ensures var r := QuestionsAt(b, o, n);
            && EncodableQuestions(r.value) && Holds(b, o, QuestionsBytes(r.value))
            && r.end == o + |QuestionsBytes(r.value)|
    decreases n
  {
    hide QuestionAt, PlainName, QuestionBytes;
    if n > 0 {
      var before, all := QuestionsAt(b, o, n - 1), QuestionsAt(b, o, n);
      PlainQuestionsAreBuilt(b, o, n - 1);
      var q := Last(all.value);
      assert Init(all.value) == before.value;
      PlainQuestionIsBuilt(b, before.end);
      HoldsConcat(b, o, QuestionsBytes(before.value), QuestionBytes(q));
    }
  }

  lemma PlainQuestionIsBuilt(b: seq<byte>, o: nat)
    requires QuestionAt(b, o).Ok? && PlainName(b, o)
    ensures var r := QuestionAt(b, o);
            && ShortLabels(r.value.qname.labels) && Holds(b, o, QuestionBytes(r.value))
            && r.end == o + |QuestionBytes(r.value)|
  {
    hide NameAt, NameBytes, QuestionTail, PlainName, Holds;
    var name, r := NameAt(b, o), QuestionAt(b, o);
    PlainNameAtIsBuilt(b, o);
    QuestionTailIsRead(b, name.end, r.value);
    HoldsConcat(b, o, NameBytes(name.value), QuestionTail(r.value));
  }

  // What stands behind the name of a record that was read.
  lemma RecordTailIsHeld(b: seq<byte>, o: nat)
    requires RecordAt(b, o).Ok?
    ensures var m, r := NameAt(b, o).end, RecordAt(b, o);
            && NameAt(b, o).Ok? && r.value.name.labels == NameAt(b, o).value
            && |r.value.rdata| <= MAX_U16 && Holds(b, m, RecordFields(r.value))
            && Holds(b, m + 10, r.value.rdata) && r.end == m + 10 + |r.value.rdata|
  {
    hide NameAt, RecordFields, U32Of;
    var m, r := NameAt(b, o).end, RecordAt(b, o);
    assert |r.value.rdata| == U16Of(b, m + 8);
    RecordFieldsAreRead(b, m, r.value);
  }

  lemma PlainRecordIsBuilt(b: seq<byte>, o: nat)
    requires RecordAt(b, o).Ok? && PlainName(b, o)
    ensures var r := RecordAt(b, o);
            EncodableRecord(r.value) && Holds(b, o, RecordBytes(r.value)) && r.end == o + |RecordBytes(r.value)|
  {
    var name, r := NameAt(b, o), RecordAt(b, o);
    RecordTailIsHeld(b, o);
    hide NameAt, RecordAt, PlainName, NameBytes, RecordFields, Holds;
    PlainNameAtIsBuilt(b, o);
    HoldsConcat(b, o, NameBytes(name.value), RecordFields(r.value));
    HoldsConcat(b, o, NameBytes(name.value) + RecordFields(r.value), r.value.rdata);
  }

  lemma {:induction false} PlainRecordsAreBuilt(b: seq<byte>, o: nat, n: nat)
    requires o <= |b| && RecordsAt(b, o, n).Ok? && PlainRecords(b, o, n)
    ensures var r := RecordsAt(b, o, n);
            EncodableRecords(r.value) && Holds(b, o, RecordsBytes(r.value)) && r.end == o + |RecordsBytes(r.value)|
    decreases n
  {
    hide RecordAt, PlainName, RecordBytes;
    if n > 0 {
      var before, all := RecordsAt(b, o, n - 1), RecordsAt(b, o, n);
      PlainRecordsAreBuilt(b, o, n - 1);
      var r := Last(all.value);
      assert Init(all.value) == before.value;
      PlainRecordIsBuilt(b, before.end);
      HoldsConcat(b, o, RecordsBytes(before.value), RecordBytes(r));
    }
  }

  // ----- Messages -----

  /** `b` holds a message, and none of its names uses a pointer where it stands. */
  predicate PlainMessage(b: seq<byte>) {
    && MessageAt(b).Ok?
    && var h := HeaderAt(b, 0);
    var q := QuestionsAt(b, h.end, h.value.qdcount);
    var a := RecordsAt(b, q.end, h.value.ancount);
    var n := RecordsAt(b, a.end, h.value.nscount);
    && PlainQuestions(b, h.end, h.value.qdcount) && PlainRecords(b, q.end, h.value.ancount)
    && PlainRecords(b, a.end, h.value.nscount) && PlainRecords(b, n.end, h.value.arcount)
  }

  predicate PlainSections(b: seq<byte>, h: Header, e1: nat, e2: nat, e3: nat) {
    && PlainQuestions(b, 12, h.qdcount) && PlainRecords(b, e1, h.ancount)
    && PlainRecords(b, e2, h.nscount) && PlainRecords(b, e3, h.arcount)
  }

  lemma HoldsSections(b: seq<byte>, m: Message)
    requires Encodable(m)
    ensures Holds(b, 0, MessageBytes(m)) <==>
            var e1 := 12 + |QuestionsBytes(m.questions)|;
            var e2 := e1 + |RecordsBytes(m.answers)|;
            var e3 := e2 + |RecordsBytes(m.authorities)|;
            && Holds(b, 0, HeaderBytes(CountedHeader(m))) && Holds(b, 12, QuestionsBytes(m.questions))
            && Holds(b, e1, RecordsBytes(m.answers)) && Holds(b, e2, RecordsBytes(m.authorities))
            && Holds(b, e3, RecordsBytes(m.additionals))
  {
    hide HeaderBytes, QuestionsBytes, RecordsBytes, Holds;
    HoldsFive(b, HeaderBytes(CountedHeader(m)), QuestionsBytes(m.questions),
              RecordsBytes(m.answers), RecordsBytes(m.authorities), RecordsBytes(m.additionals));
  }

  lemma HoldsFive(b: seq<byte>, h: seq<byte>, q: seq<byte>, a: seq<byte>, n: seq<byte>, x: seq<byte>)
    ensures Holds(b, 0, h + q + a + n + x) <==>
            && Holds(b, 0, h) && Holds(b, |h|, q) && Holds(b, |h| + |q|, a)
            && Holds(b, |h| + |q| + |a|, n) && Holds(b, |h| + |q| + |a| + |n|, x)
  {
    hide Holds;
    HoldsConcat(b, 0, h + q + a + n, x);
    HoldsConcat(b, 0, h + q + a, n);
    HoldsConcat(b, 0, h + q, a);
    HoldsConcat(b, 0, h, q);
  }

  lemma AssembledMessage(b: seq<byte>, m: Message, e1: nat, e2: nat, e3: nat, end: nat)
    ensures SectionsRead(b, m, e1, e2, e3, end) ==>
              MessageAt(b) == Ok(m, end) && (PlainMessage(b) <==> PlainSections(b, m.header, e1, e2, e3))
  {
    hide HeaderAt, QuestionsAt, RecordsAt, PlainQuestions, PlainRecords;
  }

  /** Build then parse: any buffer that starts with a built message parses to
      that message, its counts the section sizes and each rdataOffset the place
      where the builder wrote that rdata, consuming exactly the built bytes. */
  lemma BuildThenParse(b: seq<byte>, m: Message)
    requires Encodable(m) && WellNamed(m) && Holds(b, 0, MessageBytes(m))
    ensures MessageAt(b) == Ok(PlacedMessage(m), |MessageBytes(m)|)
    ensures PlainMessage(b)
  {
    hide HeaderAt, QuestionsAt, RecordsAt, MessageAt, PlainQuestions, PlainRecords, PlainMessage;
    hide HeaderBytes, QuestionsBytes, RecordsBytes, Holds, PlacedAll;
    var e1 := 12 + |QuestionsBytes(m.questions)|;
    var e2 := e1 + |RecordsBytes(m.answers)|;
    var e3 := e2 + |RecordsBytes(m.authorities)|;
    HoldsSections(b, m);
    HeaderIsHeld(b, 0, CountedHeader(m));
    BuiltQuestionsAreRead(b, 12, m.questions);
    BuiltRecordsAreRead(b, e1, m.answers);
    BuiltRecordsAreRead(b, e2, m.authorities);
    BuiltRecordsAreRead(b, e3, m.additionals);
    AssembledMessage(b, PlacedMessage(m), e1, e2, e3, e3 + |RecordsBytes(m.additionals)|);
  }
}
