/** The uncompressed wire format of sections 4.1.1 to 4.1.4 of RFC 1035 as byte
    sequences: what a value looks like, independently of how it is read. */
module Encoding {
  import opened Packet

  const MAX_LABEL := 63
  const MAX_U16 := 0xFFFF

  /** `bytes` stands in `buffer` at `offset`. */
  predicate Holds(buffer: seq<byte>, offset: nat, bytes: seq<byte>) {
    offset + |bytes| <= |buffer| && buffer[offset..offset + |bytes|] == bytes
  }

  function U16Bytes(v: u16): seq<byte> {
    [v / 0x100, v % 0x100]
  }

  function U32Bytes(v: u32): seq<byte> {
    U16Bytes(v / 0x1_0000) + U16Bytes(v % 0x1_0000)
  }

  // QR(1) OPCODE(4) AA(1) TC(1) RD(1), then RA(1) Z(3) RCODE(4), high bit first.
  function FlagBytes(h: Header): seq<byte> {
    [0x80 * h.qr + 0x08 * h.opcode + 0x04 * h.aa + 0x02 * h.tc + h.rd,
     0x80 * h.ra + 0x10 * h.z + h.rcode]
  }

  function HeaderBytes(h: Header): (r: seq<byte>)
    ensures |r| == 12
  {
    U16Bytes(h.id) + FlagBytes(h) +
    U16Bytes(h.qdcount) + U16Bytes(h.ancount) + U16Bytes(h.nscount) + U16Bytes(h.arcount)
  }

  predicate ShortLabels(labels: seq<Label>) {
    forall i :: 0 <= i < |labels| ==> |labels[i]| <= MAX_LABEL
  }

  predicate NonEmptyLabels(labels: seq<Label>) {
    forall i :: 0 <= i < |labels| ==> labels[i] != []
  }

  function LabelBytes(l: Label): seq<byte>
    requires |l| <= MAX_LABEL
  {
    [|l|] + l
  }

  function NameBytes(labels: seq<Label>): (r: seq<byte>)
    requires ShortLabels(labels)
    ensures |r| >= 1
  {
    if labels == [] then [0] else LabelBytes(labels[0]) + NameBytes(labels[1..])
  }

  // What follows the name in a question.
  function QuestionTail(q: Question): (r: seq<byte>)
    ensures |r| == 4
  {
    U16Bytes(q.qtype) + U16Bytes(q.qclass)
  }

  function QuestionBytes(q: Question): (r: seq<byte>)
    requires ShortLabels(q.qname.labels)
  {
    NameBytes(q.qname.labels) + QuestionTail(q)
  }

  predicate EncodableRecord(r: ResourceRecord) {
    ShortLabels(r.name.labels) && |r.rdata| <= MAX_U16
  }

  // What stands between the name and the rdata of a record.
  function RecordFields(r: ResourceRecord): (f: seq<byte>)
    requires |r.rdata| <= MAX_U16
    ensures |f| == 10
  {
    U16Bytes(r.rtype) + U16Bytes(r.rclass) + U32Bytes(r.ttl) + U16Bytes(|r.rdata|)
  }

  function RecordBytes(r: ResourceRecord): seq<byte>
    requires EncodableRecord(r)
  {
    NameBytes(r.name.labels) + RecordFields(r) + r.rdata
  }

  predicate EncodableQuestions(qs: seq<Question>) {
    forall i :: 0 <= i < |qs| ==> ShortLabels(qs[i].qname.labels)
  }

  predicate EncodableRecords(rs: seq<ResourceRecord>) {
    forall i :: 0 <= i < |rs| ==> EncodableRecord(rs[i])
  }

  // Sections grow at the end, one entry at a time.
  function QuestionsBytes(qs: seq<Question>): seq<byte>
    requires EncodableQuestions(qs)
  {
    if qs == [] then [] else
      QuestionsBytes(Init(qs)) + QuestionBytes(Last(qs))
  }

  function RecordsBytes(rs: seq<ResourceRecord>): seq<byte>
    requires EncodableRecords(rs)
  {
    if rs == [] then [] else
      RecordsBytes(Init(rs)) + RecordBytes(Last(rs))
  }

  predicate CountsFit(m: Message) {
    |m.questions| <= MAX_U16 && |m.answers| <= MAX_U16 && |m.authorities| <= MAX_U16 && |m.additionals| <= MAX_U16
  }

  predicate Encodable(m: Message) {
    && CountsFit(m)
    && EncodableQuestions(m.questions) && EncodableRecords(m.answers)
    && EncodableRecords(m.authorities) && EncodableRecords(m.additionals)
  }

  // The header with its counts replaced by the section sizes.
  function CountedHeader(m: Message): Header
    requires CountsFit(m)
  {
    m.header.(qdcount := |m.questions|, ancount := |m.answers|,
              nscount := |m.authorities|, arcount := |m.additionals|)
  }

  function MessageBytes(m: Message): seq<byte>
    requires Encodable(m)
  {
    HeaderBytes(CountedHeader(m)) + QuestionsBytes(m.questions) +
    RecordsBytes(m.answers) + RecordsBytes(m.authorities) + RecordsBytes(m.additionals)
  }

  // ----- Octet by octet -----

  /** Section 4.1.1 of RFC 1035: the place of every field of a header. */
  lemma HeaderOctets(h: Header)
    ensures HeaderBytes(h) ==
            [h.id / 0x100, h.id % 0x100,
             128 * h.qr + 8 * h.opcode + 4 * h.aa + 2 * h.tc + h.rd, 128 * h.ra + 16 * h.z + h.rcode,
             h.qdcount / 0x100, h.qdcount % 0x100, h.ancount / 0x100, h.ancount % 0x100,
             h.nscount / 0x100, h.nscount % 0x100, h.arcount / 0x100, h.arcount % 0x100]
  {
  }

  /** Section 4.1.2 of RFC 1035: QTYPE and QCLASS stand behind the name. */
  lemma QuestionOctets(q: Question)
    ensures QuestionTail(q) == [q.qtype / 0x100, q.qtype % 0x100, q.qclass / 0x100, q.qclass % 0x100]
  {
  }

  /** Section 4.1.3 of RFC 1035: TYPE, CLASS, TTL and RDLENGTH stand between name and rdata. */
  lemma RecordOctets(r: ResourceRecord)
    requires |r.rdata| <= 0xFFFF
    ensures RecordFields(r) ==
            [r.rtype / 0x100, r.rtype % 0x100, r.rclass / 0x100, r.rclass % 0x100,
             r.ttl / 0x100_0000, r.ttl / 0x1_0000 % 0x100, r.ttl / 0x100 % 0x100, r.ttl % 0x100,
             |r.rdata| / 0x100, |r.rdata| % 0x100]
  {
    U32Octets(r.ttl);
  }

  lemma U32Octets(v: u32)
    ensures U32Bytes(v) == [v / 0x100_0000, v / 0x1_0000 % 0x100, v / 0x100 % 0x100, v % 0x100]
  {
    HighDigits(v);
    LowDigits(v);
  }

  lemma HighDigits(v: u32)
    ensures v / 0x1_0000 / 0x100 == v / 0x100_0000
  {
  }

  lemma LowDigits(v: u32)
    ensures v % 0x1_0000 / 0x100 == v / 0x100 % 0x100 && v % 0x1_0000 % 0x100 == v % 0x100
  {
    var high, mid, low := v / 0x1_0000, v % 0x1_0000 / 0x100, v % 0x1_0000 % 0x100;
    assert v == 0x100 * (0x100 * high as int + mid) + low;
  }
}
