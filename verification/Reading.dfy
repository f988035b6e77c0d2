/** What Parser reads from a buffer, as functions of the buffer and an offset.
    The methods of module Parser are proved to compute these. */
module Reading {
  import opened Packet
  import opened NameWalk

  function U16Of(b: seq<byte>, o: nat): u16
    requires o + 2 <= |b|
  {
    b[o] as int * 0x100 + b[o + 1] as int
  }

  function U32Of(b: seq<byte>, o: nat): u32
    requires o + 4 <= |b|
  {
    U16Of(b, o) as int * 0x1_0000 + U16Of(b, o + 2) as int
  }

  // The fixed-size fields in front fail in one way only: the buffer ends among them.
  function HeaderAt(b: seq<byte>, o: nat): Parsed<Header> {
    if o + 12 > |b| then Err(BUFFER_TOO_SMALL) else
      var flags1, flags2 := b[o + 2], b[o + 3];
      Ok(Header(U16Of(b, o),
                flags1 / 0x80, flags1 / 0x08 % 0x10, flags1 / 0x04 % 2, flags1 / 0x02 % 2, flags1 % 2,
                flags2 / 0x80, flags2 / 0x10 % 0x08, flags2 % 0x10,
                U16Of(b, o + 4), U16Of(b, o + 6), U16Of(b, o + 8), U16Of(b, o + 10)), o + 12)
  }

  function QuestionAt(b: seq<byte>, o: nat): Parsed<Question> {
    match NameAt(b, o)
    case Err(s) => Err(s)
    case Ok(labels, m) =>
      if m + 4 > |b| then Err(BUFFER_TOO_SMALL)
      else Ok(Question(Name(labels), U16Of(b, m), U16Of(b, m + 2)), m + 4)
  }

  function RecordAt(b: seq<byte>, o: nat): Parsed<ResourceRecord> {
    match NameAt(b, o)
    case Err(s) => Err(s)
    case Ok(labels, m) =>
      if m + 10 > |b| then Err(BUFFER_TOO_SMALL) else
        var start, end := m + 10, m + 10 + U16Of(b, m + 8);
        if end > |b| then Err(RDATA_LENGTH_MISMATCH)
        else Ok(ResourceRecord(Name(labels), U16Of(b, m), U16Of(b, m + 2), U32Of(b, m + 4), b[start..end], start), end)
  }

  function QuestionsAt(b: seq<byte>, o: nat, count: nat): Parsed<seq<Question>>
    decreases count
  {
    if count == 0 then Ok([], o) else
      match QuestionsAt(b, o, count - 1)
      case Err(s) => Err(s)
      case Ok(before, m) =>
        match QuestionAt(b, m)
        case Err(s) => Err(s)
        case Ok(last, end) => Ok(before + [last], end)
  }

  function RecordsAt(b: seq<byte>, o: nat, count: nat): Parsed<seq<ResourceRecord>>
    decreases count
  {
    if count == 0 then Ok([], o) else
      match RecordsAt(b, o, count - 1)
      case Err(s) => Err(s)
      case Ok(before, m) =>
        match RecordAt(b, m)
        case Err(s) => Err(s)
        case Ok(last, end) => Ok(before + [last], end)
  }

  function MessageAt(b: seq<byte>): Parsed<Message> {
    match HeaderAt(b, 0)
    case Err(s) => Err(s)
    case Ok(h, e0) =>
      match QuestionsAt(b, e0, h.qdcount)
      case Err(s) => Err(s)
      case Ok(questions, e1) =>
        match RecordsAt(b, e1, h.ancount)
        case Err(s) => Err(s)
        case Ok(answers, e2) =>
          match RecordsAt(b, e2, h.nscount)
          case Err(s) => Err(s)
          case Ok(authorities, e3) =>
            match RecordsAt(b, e3, h.arcount)
            case Err(s) => Err(s)
            case Ok(additionals, end) => Ok(Message(h, questions, answers, authorities, additionals), end)
  }

  // The parts of a message with the offsets between its sections.
  predicate SectionsRead(b: seq<byte>, m: Message, e1: nat, e2: nat, e3: nat, end: nat) {
    && HeaderAt(b, 0) == Ok(m.header, 12)
    && QuestionsAt(b, 12, m.header.qdcount) == Ok(m.questions, e1)
    && RecordsAt(b, e1, m.header.ancount) == Ok(m.answers, e2)
    && RecordsAt(b, e2, m.header.nscount) == Ok(m.authorities, e3)
    && RecordsAt(b, e3, m.header.arcount) == Ok(m.additionals, end)
  }

  lemma DissectedMessage(b: seq<byte>) returns (e1: nat, e2: nat, e3: nat)
    ensures MessageAt(b).Ok? ==> SectionsRead(b, MessageAt(b).value, e1, e2, e3, MessageAt(b).end)
  {
    hide QuestionsAt, RecordsAt;
    e1, e2, e3 := 0, 0, 0;
    if MessageAt(b).Ok? {
      var h := MessageAt(b).value.header;
      e1 := QuestionsAt(b, 12, h.qdcount).end;
      e2 := RecordsAt(b, e1, h.ancount).end;
      e3 := RecordsAt(b, e2, h.nscount).end;
    }
  }

  // ----- A section fails as soon as one of its entries does -----

  lemma {:induction false} QuestionsStop(b: seq<byte>, o: nat, i: nat, count: nat)
    requires i <= count && QuestionsAt(b, o, i).Err?
    ensures QuestionsAt(b, o, count) == QuestionsAt(b, o, i)
    decreases count
  {
    hide QuestionAt;
    if i < count { QuestionsStop(b, o, i, count - 1); }
  }

  lemma {:induction false} RecordsStop(b: seq<byte>, o: nat, i: nat, count: nat)
    requires i <= count && RecordsAt(b, o, i).Err?
    ensures RecordsAt(b, o, count) == RecordsAt(b, o, i)
    decreases count
  {
    hide RecordAt;
    if i < count { RecordsStop(b, o, i, count - 1); }
  }
}
