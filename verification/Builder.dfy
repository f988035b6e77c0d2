/** src/DnsPro/Builder.cpp. Every writer appends to the shared output buffer. */
module Builder {
  import opened Packet
  import opened Encoding
  import opened Bits
  import opened ByteVectors

  // ----- Which status is returned -----

  function NameStatus(name: Name): Status {
    if ShortLabels(name.labels) then OK else LABEL_TOO_LONG
  }

  function RecordStatus(r: ResourceRecord): Status {
    if !ShortLabels(r.name.labels) then LABEL_TOO_LONG
    else if |r.rdata| > MAX_U16 then RDATA_LENGTH_MISMATCH
    else OK
  }

  function QuestionVerdicts(qs: seq<Question>): seq<Status> {
    seq(|qs|, i requires 0 <= i < |qs| => NameStatus(qs[i].qname))
  }

  function RecordVerdicts(rs: seq<ResourceRecord>): seq<Status> {
    seq(|rs|, i requires 0 <= i < |rs| => RecordStatus(rs[i]))
  }

  /** The verdicts on the entries of a message, in wire order. */
  function Verdicts(m: Message): seq<Status> {
    QuestionVerdicts(m.questions) +
    (RecordVerdicts(m.answers) + (RecordVerdicts(m.authorities) + RecordVerdicts(m.additionals)))
  }

  /** `s` is the first verdict that is not OK, or OK if there is none. */
  ghost predicate FirstViolation(verdicts: seq<Status>, s: Status) {
    if s == OK then forall i :: 0 <= i < |verdicts| ==> verdicts[i] == OK
    else exists i :: 0 <= i < |verdicts| && verdicts[i] == s && forall j :: 0 <= j < i ==> verdicts[j] == OK
  }

  lemma FirstViolationIsUnique(verdicts: seq<Status>, s: Status, t: Status)
    requires FirstViolation(verdicts, s) && FirstViolation(verdicts, t)
    ensures s == t
  {
  }

  lemma NoViolationYet(before: seq<Status>, rest: seq<Status>, s: Status)
    requires FirstViolation(before, OK) && FirstViolation(rest, s)
    ensures FirstViolation(before + rest, s)
  {
    if s != OK {
      var i :| 0 <= i < |rest| && rest[i] == s && forall j :: 0 <= j < i ==> rest[j] == OK;
      assert (before + rest)[|before| + i] == s;
    }
  }

  lemma ViolationStands(before: seq<Status>, rest: seq<Status>, s: Status)
    requires s != OK && FirstViolation(before, s)
    ensures FirstViolation(before + rest, s)
  {
    var i :| 0 <= i < |before| && before[i] == s && forall j :: 0 <= j < i ==> before[j] == OK;
    assert (before + rest)[i] == s;
  }

  /** Past the size check, no entry is in violation exactly when the message can be encoded. */
  lemma NoViolationMeansEncodable(m: Message)
    requires CountsFit(m)
    ensures FirstViolation(Verdicts(m), OK) <==> Encodable(m)
  {
    var q, a := QuestionVerdicts(m.questions), RecordVerdicts(m.answers);
    var n, x := RecordVerdicts(m.authorities), RecordVerdicts(m.additionals);
    NoQuestionViolation(m.questions);
    NoRecordViolation(m.answers);
    NoRecordViolation(m.authorities);
    NoRecordViolation(m.additionals);
    hide FirstViolation, QuestionVerdicts, RecordVerdicts, EncodableQuestions, EncodableRecords;
    AllOk(q, a + (n + x));
    AllOk(a, n + x);
    AllOk(n, x);
  }

  /** The section at which the writing stopped decides the status of the message. */
  lemma SectionDecides(m: Message, s: Status)
    requires CountsFit(m)
    requires var q, a, n, x := QuestionVerdicts(m.questions), RecordVerdicts(m.answers),
               RecordVerdicts(m.authorities), RecordVerdicts(m.additionals);
             || (s != OK && FirstViolation(q, s))
             || (s != OK && FirstViolation(q, OK) && FirstViolation(a, s))
             || (s != OK && FirstViolation(q, OK) && FirstViolation(a, OK) && FirstViolation(n, s))
             || (FirstViolation(q, OK) && FirstViolation(a, OK) && FirstViolation(n, OK) && FirstViolation(x, s))
    ensures FirstViolation(Verdicts(m), s)
    ensures s == OK <==> Encodable(m)
  {
    hide FirstViolation, Encodable, QuestionVerdicts, RecordVerdicts;
    var q, a, n, x := QuestionVerdicts(m.questions), RecordVerdicts(m.answers),
      RecordVerdicts(m.authorities), RecordVerdicts(m.additionals);
    if s != OK && FirstViolation(q, s) {
      ViolationStands(q, a + (n + x), s);
    } else if s != OK && FirstViolation(a, s) {
      ViolationStands(a, n + x, s);
      NoViolationYet(q, a + (n + x), s);
    } else {
      if s != OK && FirstViolation(n, s) { ViolationStands(n, x, s); } else { NoViolationYet(n, x, s); }
      NoViolationYet(a, n + x, s);
      NoViolationYet(q, a + (n + x), s);
    }
    NoViolationMeansEncodable(m);
    if FirstViolation(Verdicts(m), OK) { FirstViolationIsUnique(Verdicts(m), s, OK); }
  }

  lemma NoQuestionViolation(qs: seq<Question>)
    ensures FirstViolation(QuestionVerdicts(qs), OK) <==> EncodableQuestions(qs)
  {
    hide ShortLabels;
    assert forall i :: 0 <= i < |qs| ==> (QuestionVerdicts(qs)[i] == OK <==> ShortLabels(qs[i].qname.labels));
  }

  lemma NoRecordViolation(rs: seq<ResourceRecord>)
    ensures FirstViolation(RecordVerdicts(rs), OK) <==> EncodableRecords(rs)
  {
    hide ShortLabels;
    assert forall i :: 0 <= i < |rs| ==> (RecordVerdicts(rs)[i] == OK <==> EncodableRecord(rs[i]));
  }

  lemma AllOk(v: seq<Status>, w: seq<Status>)
    ensures FirstViolation(v + w, OK) <==> FirstViolation(v, OK) && FirstViolation(w, OK)
  {
    if FirstViolation(v + w, OK) {
      forall i | 0 <= i < |v| ensures v[i] == OK { assert (v + w)[i] == v[i]; }
      forall i | 0 <= i < |w| ensures w[i] == OK { assert (v + w)[|v| + i] == w[i]; }
    }
  }

  // ----- What is refused, without the verdicts -----

  /** What of an entry can stop the writing: its name and its rdata, a question having none. */
  datatype Entry = Entry(labels: seq<Label>, rdata: seq<byte>)

  function QuestionEntries(qs: seq<Question>): seq<Entry> {
    seq(|qs|, i requires 0 <= i < |qs| => Entry(qs[i].qname.labels, []))
  }

  function RecordEntries(rs: seq<ResourceRecord>): seq<Entry> {
    seq(|rs|, i requires 0 <= i < |rs| => Entry(rs[i].name.labels, rs[i].rdata))
  }

  /** The entries of a message in wire order. */
  function Entries(m: Message): seq<Entry> {
    QuestionEntries(m.questions) + RecordEntries(m.answers) + RecordEntries(m.authorities) +
    RecordEntries(m.additionals)
  }

  predicate HasLongLabel(labels: seq<Label>) {
    exists i :: 0 <= i < |labels| && |labels[i]| > 63
  }

  predicate IsRefused(e: Entry) {
    HasLongLabel(e.labels) || |e.rdata| > 65535
  }

  predicate FirstRefused(es: seq<Entry>, i: int) {
    0 <= i < |es| && IsRefused(es[i]) && forall j :: 0 <= j < i ==> !IsRefused(es[j])
  }

  /** What build returns: OK when no entry is refused; LABEL_TOO_LONG when the
      first refused one has a label of more than 63 octets, RDATA_LENGTH_MISMATCH
      when it has none, its rdata being more than 65535 octets; and before all
      that SECTION_TOO_LARGE when a section has more than 65535 entries. */
  ghost predicate BuildReturns(m: Message, s: Status) {
    if |m.questions| > 65535 || |m.answers| > 65535 || |m.authorities| > 65535 || |m.additionals| > 65535 then
      s == SECTION_TOO_LARGE
    else
      || (s == OK && forall i :: 0 <= i < |Entries(m)| ==> !IsRefused(Entries(m)[i]))
      || (s == LABEL_TOO_LONG && exists i :: FirstRefused(Entries(m), i) && HasLongLabel(Entries(m)[i].labels))
      || (s == RDATA_LENGTH_MISMATCH &&
          exists i :: FirstRefused(Entries(m), i) && !HasLongLabel(Entries(m)[i].labels))
  }

  // What a verdict says of its entry.
  predicate Tells(v: Status, e: Entry) {
    && (v == OK <==> !IsRefused(e))
    && (v == LABEL_TOO_LONG <==> HasLongLabel(e.labels))
    && (v == RDATA_LENGTH_MISMATCH <==> !HasLongLabel(e.labels) && |e.rdata| > 65535)
    && v in {OK, LABEL_TOO_LONG, RDATA_LENGTH_MISMATCH}
  }

  lemma VerdictsTell(m: Message)
    ensures |Verdicts(m)| == |Entries(m)|
    ensures forall i :: 0 <= i < |Entries(m)| ==> Tells(Verdicts(m)[i], Entries(m)[i])
  {
    QuestionVerdictsTell(m.questions);
    RecordVerdictsTell(m.answers);
    RecordVerdictsTell(m.authorities);
    RecordVerdictsTell(m.additionals);
    hide Tells, QuestionVerdicts, RecordVerdicts, QuestionEntries, RecordEntries;
  }

  lemma QuestionVerdictsTell(qs: seq<Question>)
    ensures |QuestionVerdicts(qs)| == |QuestionEntries(qs)| == |qs|
    ensures forall i :: 0 <= i < |qs| ==> Tells(QuestionVerdicts(qs)[i], QuestionEntries(qs)[i])
  {
  }

  lemma RecordVerdictsTell(rs: seq<ResourceRecord>)
    ensures |RecordVerdicts(rs)| == |RecordEntries(rs)| == |rs|
    ensures forall i :: 0 <= i < |rs| ==> Tells(RecordVerdicts(rs)[i], RecordEntries(rs)[i])
  {
  }

  /** The first violation is the first refused entry's. */
  lemma ViolationIsFirstRefused(m: Message, s: Status)
    requires CountsFit(m)
    ensures FirstViolation(Verdicts(m), s) <==> BuildReturns(m, s)
  {
    VerdictsTell(m);
    var v, es := Verdicts(m), Entries(m);
    hide Verdicts, Entries, IsRefused, HasLongLabel;
    if FirstViolation(v, s) && s != OK {
      var i :| 0 <= i < |v| && v[i] == s && forall j :: 0 <= j < i ==> v[j] == OK;
      assert FirstRefused(es, i);
    }
    if BuildReturns(m, s) && s != OK {
      var i :| FirstRefused(es, i);
      assert v[i] == s;
    }
  }

  lemma BuildReturnsOne(m: Message, s: Status, t: Status)
    requires BuildReturns(m, s) && BuildReturns(m, t)
    ensures s == t
  {
    hide Entries, IsRefused, HasLongLabel;
  }

  // ----- Primitive writers -----

  method WriteU16(value: u16, out: ByteVector)
    modifies out
    ensures out.data == old(out.data) + U16Bytes(value)
  {
    SplitTwo(value);
    hide And, Shr;
    out.PushBack(And(Shr(value, 8), 0xFF));
    out.PushBack(And(value, 0xFF));
  }

  method WriteU32(value: u32, out: ByteVector)
    modifies out
    ensures out.data == old(out.data) + U32Bytes(value)
  {
    U32Octets(value);
    SplitFour(value);
    hide And, Shr;
    out.PushBack(And(Shr(value, 24), 0xFF));
    out.PushBack(And(Shr(value, 16), 0xFF));
    out.PushBack(And(Shr(value, 8), 0xFF));
    out.PushBack(And(value, 0xFF));
  }

  method WriteFlags(header: Header, out: ByteVector)
    modifies out
    ensures out.data == old(out.data) + FlagBytes(header)
  {
    PackFlags1(header.qr, header.opcode, header.aa, header.tc, header.rd);
    PackFlags2(header.ra, header.z, header.rcode);
    hide Or, Shl;
    var flags1 :=
      Or(Or(Or(Or(Shl(header.qr, 7), Shl(header.opcode, 3)), Shl(header.aa, 2)), Shl(header.tc, 1)), header.rd);
    var flags2 := Or(Or(Shl(header.ra, 7), Shl(header.z, 4)), header.rcode);
    out.PushBack(flags1);
    out.PushBack(flags2);
  }

  method WriteHeader(header: Header, out: ByteVector)
    modifies out
    ensures out.data == old(out.data) + HeaderBytes(header)
  {
    hide U16Bytes, FlagBytes;
    WriteU16(header.id, out);
    WriteFlags(header, out);
    WriteU16(header.qdcount, out);
    WriteU16(header.ancount, out);
    WriteU16(header.nscount, out);
    WriteU16(header.arcount, out);
  }

  // ----- Names and entries -----

  method WriteName(name: Name, out: ByteVector) returns (status: Status)
    modifies out
    ensures status == NameStatus(name)
    ensures status == if HasLongLabel(name.labels) then LABEL_TOO_LONG else OK
    ensures status == OK ==> out.data == old(out.data) + NameBytes(name.labels)
  {
    var labels := name.labels;
    for i := 0 to |labels|
      invariant ShortLabels(labels[..i])
      invariant ShortLabels(labels) ==>
                  out.data + NameBytes(labels[i..]) == old(out.data) + NameBytes(labels)
    {
      var text := labels[i];
      if |text| > MAX_LABEL { return LABEL_TOO_LONG; }
      ghost var before := out.data;
      out.PushBack(|text|);
      for j := 0 to |text|
        invariant out.data == before + [|text|] + text[..j]
      {
        out.PushBack(text[j]);
      }
      assert text[..|text|] == text;
      assert out.data == before + LabelBytes(text);
      assert labels[i..][1..] == labels[i + 1..];
      assert ShortLabels(labels) ==> before + NameBytes(labels[i..]) == out.data + NameBytes(labels[i + 1..]);
    }
    assert labels[..|labels|] == labels;
    out.PushBack(0);
    return OK;
  }

  method WriteQuestion(question: Question, out: ByteVector) returns (status: Status)
    modifies out
    ensures status == NameStatus(question.qname)
    ensures status == if HasLongLabel(question.qname.labels) then LABEL_TOO_LONG else OK
    ensures status == OK ==> out.data == old(out.data) + QuestionBytes(question)
  {
    status := WriteName(question.qname, out);
    if status != OK { return; }
    WriteU16(question.qtype, out);
    WriteU16(question.qclass, out);
    return OK;
  }

  method WriteResourceRecord(record: ResourceRecord, out: ByteVector) returns (status: Status)
    modifies out
    ensures status == RecordStatus(record)
    ensures status == LABEL_TOO_LONG <==> HasLongLabel(record.name.labels)
    ensures status == RDATA_LENGTH_MISMATCH <==> !HasLongLabel(record.name.labels) && |record.rdata| > 65535
    ensures status == OK <==> !HasLongLabel(record.name.labels) && |record.rdata| <= 65535
    ensures status == OK ==> out.data == old(out.data) + RecordBytes(record)
  {
    status := WriteName(record.name, out);
    if status != OK { return; }
    WriteU16(record.rtype, out);
    WriteU16(record.rclass, out);
    WriteU32(record.ttl, out);
    if |record.rdata| > MAX_U16 { return RDATA_LENGTH_MISMATCH; }
    WriteU16(|record.rdata|, out);
    ghost var before := out.data;
    for i := 0 to |record.rdata|
      invariant out.data == before + record.rdata[..i]
    {
      out.PushBack(record.rdata[i]);
    }
    assert record.rdata[..|record.rdata|] == record.rdata;
    return OK;
  }

  method WriteQuestions(questions: seq<Question>, out: ByteVector) returns (status: Status)
    modifies out
    ensures FirstViolation(QuestionVerdicts(questions), status)
    ensures status == OK ==> EncodableQuestions(questions) && out.data == old(out.data) + QuestionsBytes(questions)
  {
    hide QuestionBytes, ShortLabels;
    for i := 0 to |questions|
      invariant EncodableQuestions(questions[..i])
      invariant out.data == old(out.data) + QuestionsBytes(questions[..i])
    {
      status := WriteQuestion(questions[i], out);
      if status != OK {
        assert QuestionVerdicts(questions)[i] == status;
        return;
      }
      assert Init(questions[..i + 1]) == questions[..i] && Last(questions[..i + 1]) == questions[i];
    }
    assert questions[..|questions|] == questions;
    NoQuestionViolation(questions);
    return OK;
  }

  method WriteRecords(records: seq<ResourceRecord>, out: ByteVector) returns (status: Status)
    modifies out
    ensures FirstViolation(RecordVerdicts(records), status)
    ensures status == OK ==> EncodableRecords(records) && out.data == old(out.data) + RecordsBytes(records)
  {
    hide RecordBytes, ShortLabels;
    for i := 0 to |records|
      invariant EncodableRecords(records[..i])
      invariant out.data == old(out.data) + RecordsBytes(records[..i])
    {
      status := WriteResourceRecord(records[i], out);
      if status != OK {
        assert RecordVerdicts(records)[i] == status;
        return;
      }
      assert Init(records[..i + 1]) == records[..i] && Last(records[..i + 1]) == records[i];
    }
    assert records[..|records|] == records;
    NoRecordViolation(records);
    return OK;
  }

  lemma SectionsMakeMessage(m: Message)
    requires Encodable(m)
    ensures MessageBytes(m) ==
            [] + HeaderBytes(CountedHeader(m)) + QuestionsBytes(m.questions) +
            RecordsBytes(m.answers) + RecordsBytes(m.authorities) + RecordsBytes(m.additionals)
  {
    assert [] + HeaderBytes(CountedHeader(m)) == HeaderBytes(CountedHeader(m));
  }

  /** Serializes a message. OK exactly when the message can be encoded, and then
      the buffer holds its encoding; otherwise the status of what is refused
      first, and a message with too large a section leaves the buffer as it is. */
  method Build(message: Message, out: ByteVector) returns (status: Status)
    modifies out
    ensures status == OK <==> Encodable(message)
    ensures status == OK ==> out.data == MessageBytes(message)
    ensures BuildReturns(message, status)
    ensures status == SECTION_TOO_LARGE ==> out.data == old(out.data)
  {
    if |message.questions| > MAX_U16 || |message.answers| > MAX_U16 ||
       |message.authorities| > MAX_U16 || |message.additionals| > MAX_U16 {
      return SECTION_TOO_LARGE;
    }
    out.Clear();
    var header := message.header.(
      qdcount := |message.questions|, ancount := |message.answers|,
      nscount := |message.authorities|, arcount := |message.additionals|);
    assert header == CountedHeader(message);
    hide FirstViolation, Encodable, Verdicts, QuestionVerdicts, RecordVerdicts, CountedHeader, MessageBytes;
    hide HeaderBytes, QuestionsBytes, RecordsBytes, EncodableQuestions, EncodableRecords;
    WriteHeader(header, out);
    status := WriteQuestions(message.questions, out);
    if status != OK { SectionDecides(message, status); ViolationIsFirstRefused(message, status); return; }
    status := WriteRecords(message.answers, out);
    if status != OK { SectionDecides(message, status); ViolationIsFirstRefused(message, status); return; }
    status := WriteRecords(message.authorities, out);
    if status != OK { SectionDecides(message, status); ViolationIsFirstRefused(message, status); return; }
    status := WriteRecords(message.additionals, out);
    SectionDecides(message, status);
    ViolationIsFirstRefused(message, status);
    if status == OK { SectionsMakeMessage(message); }
  }
}
