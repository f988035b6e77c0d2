/** The length of a built packet as a sum over its parts. */
module WireLength {
  import opened Packet
  import opened Encoding

  // One length octet for each label and for the terminator, plus the text.
  function NameLength(labels: seq<Label>): nat {
    1 + |labels| + TextLength(labels)
  }

  function TextLength(labels: seq<Label>): nat {
    if labels == [] then 0 else TextLength(Init(labels)) + |Last(labels)|
  }

  function QuestionsLength(qs: seq<Question>): nat {
    if qs == [] then 0 else QuestionsLength(Init(qs)) + NameLength(Last(qs).qname.labels) + 4
  }

  function RecordsLength(rs: seq<ResourceRecord>): nat {
    if rs == [] then 0 else RecordsLength(Init(rs)) + NameLength(Last(rs).name.labels) + 10 + |Last(rs).rdata|
  }

  lemma {:induction false} TextOfFirst(labels: seq<Label>)
    requires labels != []
    ensures TextLength(labels) == |labels[0]| + TextLength(labels[1..])
    decreases |labels|
  {
    if |labels| > 1 {
      TextOfFirst(Init(labels));
      assert Init(labels)[1..] == Init(labels[1..]);
    }
  }

  lemma {:induction false} NameBytesLength(labels: seq<Label>)
    requires ShortLabels(labels)
    ensures |NameBytes(labels)| == NameLength(labels)
    decreases |labels|
  {
    if labels != [] {
      NameBytesLength(labels[1..]);
      TextOfFirst(labels);
    }
  }

  lemma {:induction false} QuestionsBytesLength(qs: seq<Question>)
    requires EncodableQuestions(qs)
    ensures |QuestionsBytes(qs)| == QuestionsLength(qs)
    decreases |qs|
  {
    hide NameBytes, NameLength;
    if qs != [] {
      QuestionsBytesLength(Init(qs));
      NameBytesLength(Last(qs).qname.labels);
    }
  }

  lemma {:induction false} RecordsBytesLength(rs: seq<ResourceRecord>)
    requires EncodableRecords(rs)
    ensures |RecordsBytes(rs)| == RecordsLength(rs)
    decreases |rs|
  {
    hide NameBytes, NameLength;
    if rs != [] {
      RecordsBytesLength(Init(rs));
      NameBytesLength(Last(rs).name.labels);
    }
  }

  /** 12 octets of header, 4 behind each qname, 10 between each owner name and
      its rdata, and every name uncompressed. */
  lemma BuiltLength(m: Message)
    requires Encodable(m)
    ensures |MessageBytes(m)| ==
            12 + QuestionsLength(m.questions) + RecordsLength(m.answers) +
            RecordsLength(m.authorities) + RecordsLength(m.additionals)
  {
    QuestionsBytesLength(m.questions);
    RecordsBytesLength(m.answers);
    RecordsBytesLength(m.authorities);
    RecordsBytesLength(m.additionals);
  }
}
