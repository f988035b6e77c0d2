/** src/DnsPro/Parser.cpp. A reader takes the offset it starts at and returns the
    advanced offset with its value, or the status of the first failure. */
module Parser {
  import opened Packet
  import opened Bits
  import opened NameWalk
  import opened Reading

  method ReadU16(buffer: seq<byte>, offset: nat) returns (r: Parsed<u16>)
    ensures r == if offset + 2 > |buffer| then Err(BUFFER_TOO_SMALL) else Ok(U16Of(buffer, offset), offset + 2)
  {
    if offset + 2 > |buffer| { return Err(BUFFER_TOO_SMALL); }
    JoinTwo(buffer[offset], buffer[offset + 1]);
    hide Or, Shl;
    var value := Or(Shl(buffer[offset], 8), buffer[offset + 1]);
    return Ok(value, offset + 2);
  }

  method ReadU32(buffer: seq<byte>, offset: nat) returns (r: Parsed<u32>)
    ensures r == if offset + 4 > |buffer| then Err(BUFFER_TOO_SMALL) else Ok(U32Of(buffer, offset), offset + 4)
  {
    if offset + 4 > |buffer| { return Err(BUFFER_TOO_SMALL); }
    var b3, b2, b1, b0 := buffer[offset], buffer[offset + 1], buffer[offset + 2], buffer[offset + 3];
    JoinFour(b3, b2, b1, b0);
    assert U32Of(buffer, offset) == b3 as int * 0x100_0000 + b2 as int * 0x1_0000 + b1 as int * 0x100 + b0 as int;
    hide Or, Shl, U32Of, U16Of;
    var value := Or(Or(Or(Shl(b3, 24), Shl(b2, 16)), Shl(b1, 8)), b0);
    return Ok(value, offset + 4);
  }

  /** The bit-fields of the two flag octets, as FlagsUnpack characterises them. */
  method UnpackFlags(flags1: byte, flags2: byte)
    returns (qr: bit, opcode: u4, aa: bit, tc: bit, rd: bit, ra: bit, z: u3, rcode: u4)
    ensures qr == flags1 / 0x80 && opcode == flags1 / 0x08 % 0x10
    ensures aa == flags1 / 0x04 % 2 && tc == flags1 / 0x02 % 2 && rd == flags1 % 2
    ensures ra == flags2 / 0x80 && z == flags2 / 0x10 % 0x08 && rcode == flags2 % 0x10
  {
    UnpackFlags1(flags1);
    UnpackFlags2(flags2);
    hide And, Shr;
    qr, opcode := And(Shr(flags1, 7), 0x1), And(Shr(flags1, 3), 0xF);
    aa, tc, rd := And(Shr(flags1, 2), 0x1), And(Shr(flags1, 1), 0x1), And(flags1, 0x1);
    ra, z, rcode := And(Shr(flags2, 7), 0x1), And(Shr(flags2, 4), 0x7), And(flags2, 0xF);
  }

  method ParseHeader(buffer: seq<byte>, offset: nat) returns (r: Parsed<Header>)
    ensures r == HeaderAt(buffer, offset)
  {
    var id :- ReadU16(buffer, offset);
    if id.end + 2 > |buffer| { return Err(BUFFER_TOO_SMALL); }
    var flags1 := buffer[id.end];
    var flags2 := buffer[id.end + 1];
    var qdcount :- ReadU16(buffer, id.end + 2);
    var ancount :- ReadU16(buffer, qdcount.end);
    var nscount :- ReadU16(buffer, ancount.end);
    var arcount :- ReadU16(buffer, nscount.end);
    var qr, opcode, aa, tc, rd, ra, z, rcode := UnpackFlags(flags1, flags2);
    return Ok(Header(id.value, qr, opcode, aa, tc, rd, ra, z, rcode,
                     qdcount.value, ancount.value, nscount.value, arcount.value), arcount.end);
  }

  // The result of a walk whose first part collected `labels` and, if it
  // jumped, fixed where the caller resumes.
  ghost function Resumed(labels: seq<Label>, jumped: bool, resumeOffset: nat, rest: Parsed<seq<Label>>)
    : Parsed<seq<Label>>
  {
    match rest
    case Err(s) => Err(s)
    case Ok(more, end) => Ok(labels + more, if jumped then resumeOffset else end)
  }

  // How one look moves the loop of ParseName on.
  lemma LookAgain(b: seq<byte>, cursor: nat, steps: nat, labels: seq<Label>, jumped: bool, resumeOffset: nat)
    ensures var before := Resumed(labels, jumped, resumeOffset, Walk(b, cursor, steps));
            if steps == 0 then before == Err(COMPRESSION_LOOP) else
            match Look(b, cursor)
            case Halt(s) => before == Err(s)
            case Root => before == Ok(labels, if jumped then resumeOffset else cursor + 1)
            case Hop(target) =>
              before == Resumed(labels, true, if jumped then resumeOffset else cursor + 2, Walk(b, target, steps - 1))
            case Read(text, next) =>
              before == Resumed(labels + [text], jumped, resumeOffset, Walk(b, next, steps - 1))
  {
    if steps == 0 { return; }
    match Look(b, cursor)
    case Halt(_) =>
    case Root => assert labels + [] == labels;
    case Hop(_) =>
    case Read(text, next) =>
      var rest := Walk(b, next, steps - 1);
      if rest.Ok? { assert labels + ([text] + rest.value) == (labels + [text]) + rest.value; }
  }

  /** The pointer at the cursor: its target, or the status it is refused with. */
  method ReadPointer(buffer: seq<byte>, cursor: nat) returns (r: Parsed<nat>)
    requires cursor < |buffer| && buffer[cursor] >= 0xC0
    ensures Look(buffer, cursor) == (match r case Ok(target, _) => Hop(target) case Err(s) => Halt(s))
    ensures r.Ok? ==> r.end == cursor + 2
  {
    if cursor + 2 > |buffer| { return Err(BUFFER_TOO_SMALL); }
    var lengthByte, lowByte := buffer[cursor], buffer[cursor + 1];
    PointerTarget(lengthByte, lowByte);
    hide And, Or, Shl;
    var target := Or(Shl(And(lengthByte, 0x3F), 8), lowByte);
    if target >= cursor { return Err(COMPRESSION_FORWARD_POINTER); }
    return Ok(target, cursor + 2);
  }

  /** The label at the cursor, or the status it is refused with. */
  method ReadLabel(buffer: seq<byte>, cursor: nat) returns (r: Parsed<Label>)
    requires cursor < |buffer| && 0 < buffer[cursor] < 0xC0
    ensures Look(buffer, cursor) == (match r case Ok(text, next) => Read(text, next) case Err(s) => Halt(s))
  {
    var lengthByte: nat := buffer[cursor];
    LengthOctet(buffer[cursor]);
    hide And;
    if And(lengthByte, 0xC0) != 0x00 { return Err(MALFORMED_NAME); }
    var labelStart := cursor + 1;
    if labelStart + lengthByte > |buffer| { return Err(BUFFER_TOO_SMALL); }
    return Ok(buffer[labelStart..labelStart + lengthByte], labelStart + lengthByte);
  }

  lemma LookAtEnds(b: seq<byte>, c: nat)
    ensures c >= |b| ==> Look(b, c) == Halt(BUFFER_TOO_SMALL)
    ensures c < |b| && b[c] == 0 ==> Look(b, c) == Root
  {
  }

  method ParseName(buffer: seq<byte>, offset: nat) returns (r: Parsed<seq<Label>>)
    ensures r == NameAt(buffer, offset)
  {
    var labels: seq<Label> := [];
    var cursor: nat := offset;
    var jumped := false;
    var resumeOffset: nat := 0;
    var stepsRemaining: nat := |buffer| + 1;
    ghost var whole := NameAt(buffer, offset);
    assert whole.Ok? ==> [] + whole.value == whole.value;
    assert whole == Resumed(labels, jumped, resumeOffset, whole);
    hide Walk, Resumed, Look, And;
    while true
      invariant whole == Resumed(labels, jumped, resumeOffset, Walk(buffer, cursor, stepsRemaining))
      decreases stepsRemaining
    {
      LookAgain(buffer, cursor, stepsRemaining, labels, jumped, resumeOffset);
      if stepsRemaining == 0 { return Err(COMPRESSION_LOOP); }
      stepsRemaining := stepsRemaining - 1;
      LookAtEnds(buffer, cursor);
      if cursor >= |buffer| { return Err(BUFFER_TOO_SMALL); }
      LengthOctet(buffer[cursor]);
      if And(buffer[cursor], 0xC0) == 0xC0 {
        var pointer :- ReadPointer(buffer, cursor);
        if !jumped {
          resumeOffset := pointer.end;
          jumped := true;
        }
        cursor := pointer.value;
        continue;
      }
      if buffer[cursor] == 0 {
        cursor := cursor + 1;
        break;
      }
      var text :- ReadLabel(buffer, cursor);
      labels := labels + [text.value];
      cursor := text.end;
    }
    return Ok(labels, if jumped then resumeOffset else cursor);
  }

  method ParseQuestion(buffer: seq<byte>, offset: nat) returns (r: Parsed<Question>)
    ensures r == QuestionAt(buffer, offset)
  {
    var qname :- ParseName(buffer, offset);
    var qtype :- ReadU16(buffer, qname.end);
    var qclass :- ReadU16(buffer, qtype.end);
    return Ok(Question(Name(qname.value), qtype.value, qclass.value), qclass.end);
  }

  method ParseResourceRecord(buffer: seq<byte>, offset: nat) returns (r: Parsed<ResourceRecord>)
    ensures r == RecordAt(buffer, offset)
  {
    var name :- ParseName(buffer, offset);
    var rtype :- ReadU16(buffer, name.end);
    var rclass :- ReadU16(buffer, rtype.end);
    var ttl :- ReadU32(buffer, rclass.end);
    var rdlength :- ReadU16(buffer, ttl.end);
    var start := rdlength.end;
    if start + rdlength.value > |buffer| { return Err(RDATA_LENGTH_MISMATCH); }
    var rdata: seq<byte> := [];
    for i := 0 to rdlength.value
      invariant rdata == buffer[start..start + i]
    {
      rdata := rdata + [buffer[start + i]];
    }
    return Ok(ResourceRecord(Name(name.value), rtype.value, rclass.value, ttl.value, rdata, start),
              start + rdlength.value);
  }

  method ParseRecords(buffer: seq<byte>, start: nat, count: u16) returns (r: Parsed<seq<ResourceRecord>>)
    ensures r == RecordsAt(buffer, start, count)
  {
    hide RecordAt;
    var offset: nat := start;
    var records: seq<ResourceRecord> := [];
    for i := 0 to count
      invariant RecordsAt(buffer, start, i) == Ok(records, offset)
    {
      var rr := ParseResourceRecord(buffer, offset);
      if rr.Err? {
        RecordsStop(buffer, start, i + 1, count);
        return Err(rr.status);
      }
      offset := rr.end;
      records := records + [rr.value];
    }
    return Ok(records, offset);
  }

  /** Reads a whole message. The end of the message, local in the code, is part of the result. */
  method Parse(buffer: seq<byte>) returns (r: Parsed<Message>)
    ensures r == MessageAt(buffer)
  {
    hide HeaderAt, QuestionAt, RecordAt;
    var header :- ParseHeader(buffer, 0);
    var offset: nat := header.end;
    var questions: seq<Question> := [];
    for i := 0 to header.value.qdcount
      invariant QuestionsAt(buffer, header.end, i) == Ok(questions, offset)
    {
      var q := ParseQuestion(buffer, offset);
      if q.Err? {
        QuestionsStop(buffer, header.end, i + 1, header.value.qdcount);
        return Err(q.status);
      }
      offset := q.end;
      questions := questions + [q.value];
    }
    var answers :- ParseRecords(buffer, offset, header.value.ancount);
    var authorities :- ParseRecords(buffer, answers.end, header.value.nscount);
    var additionals :- ParseRecords(buffer, authorities.end, header.value.arcount);
    return Ok(Message(header.value, questions, answers.value, authorities.value, additionals.value), additionals.end);
  }
}
