/** The packet structures of include/DnsPro/Packet/ and the status vocabulary.
    Integer widths are subset types, so every narrowing the code performs is a
    proof obligation of the model. Offsets (`std::size_t`) are naturals. */
module Packet {

  type byte = x: int | 0 <= x < 0x100
  type u16 = x: int | 0 <= x < 0x1_0000
  type u32 = x: int | 0 <= x < 0x1_0000_0000
  // The bit-fields of Header.
  type bit = x: int | 0 <= x < 2
  type u3 = x: int | 0 <= x < 8
  type u4 = x: int | 0 <= x < 16

  type Label = seq<byte>

  datatype Name = Name(labels: seq<Label>)

  datatype Header = Header(
    id: u16,
    qr: bit, opcode: u4, aa: bit, tc: bit, rd: bit,
    ra: bit, z: u3, rcode: u4,
    qdcount: u16, ancount: u16, nscount: u16, arcount: u16)

  datatype Question = Question(qname: Name, qtype: u16, qclass: u16)

  datatype ResourceRecord = ResourceRecord(
    name: Name, rtype: u16, rclass: u16, ttl: u32,
    rdata: seq<byte>, rdataOffset: nat)

  datatype Message = Message(
    header: Header,
    questions: seq<Question>,
    answers: seq<ResourceRecord>,
    authorities: seq<ResourceRecord>,
    additionals: seq<ResourceRecord>)

  datatype Status =
    | OK
    | BUFFER_TOO_SMALL
    | MALFORMED_NAME
    | COMPRESSION_LOOP
    | COMPRESSION_FORWARD_POINTER
    | SECTION_COUNT_MISMATCH
    | RDATA_LENGTH_MISMATCH
    | LABEL_TOO_LONG
    | SECTION_TOO_LARGE

  /** A value read from a buffer together with the offset just past it, or the
      status that stopped the read. With `:-` a failed read is returned as is. */
  datatype Parsed<+T> = Ok(value: T, end: nat) | Err(status: Status) {
    predicate IsFailure() {
      Err?
    }

    function PropagateFailure<U>(): Parsed<U>
      requires Err?
    {
      Err(status)
    }

    function Extract(): Parsed<T>
      requires Ok?
    {
      this
    }
  }

  function Init<T>(s: seq<T>): seq<T>
    requires s != []
  {
    s[..|s| - 1]
  }

  function Last<T>(s: seq<T>): T
    requires s != []
  {
    s[|s| - 1]
  }

  // The record without its position in a particular buffer.
  function Placeless(record: ResourceRecord): ResourceRecord {
    record.(rdataOffset := 0)
  }

  function PlacelessAll(records: seq<ResourceRecord>): seq<ResourceRecord> {
    if records == [] then [] else PlacelessAll(Init(records)) + [Placeless(Last(records))]
  }

  function Uncounted(h: Header): Header {
    h.(qdcount := 0, ancount := 0, nscount := 0, arcount := 0)
  }

  /** What a message says, apart from where it was read from: the header counts
      restate the section sizes and rdataOffset is a position in one buffer. */
  function Content(m: Message): Message {
    Message(Uncounted(m.header), m.questions,
            PlacelessAll(m.answers), PlacelessAll(m.authorities), PlacelessAll(m.additionals))
  }
}
