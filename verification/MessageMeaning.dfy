/** What sections 4.1.1 to 4.1.4 of RFC 1035 mean by a message in a buffer, as a
    relation that leaves every choice of compression open, and the proof that
    Parser::parse decides it. */
module MessageMeaning {
  import opened Packet
  import opened Encoding
  import opened NameWalk
  import opened NameMeaning
  import opened Reading

  ghost predicate QuestionEncoded(b: seq<byte>, o: nat, q: Question, end: nat) {
    exists m: nat ::
      NameEncoded(b, o, q.qname.labels, m) && Holds(b, m, QuestionTail(q)) && end == m + 4
  }

  ghost predicate RecordEncoded(b: seq<byte>, o: nat, r: ResourceRecord, end: nat) {
    exists m: nat ::
      && NameEncoded(b, o, r.name.labels, m)
      && |r.rdata| <= MAX_U16 && Holds(b, m, RecordFields(r))
      && r.rdataOffset == m + 10 && Holds(b, m + 10, r.rdata) && end == m + 10 + |r.rdata|
  }

  ghost predicate QuestionsEncoded(b: seq<byte>, o: nat, qs: seq<Question>, end: nat) {
    if qs == [] then end == o else
      exists m: nat :: QuestionsEncoded(b, o, Init(qs), m) && QuestionEncoded(b, m, Last(qs), end)
  }

  ghost predicate RecordsEncoded(b: seq<byte>, o: nat, rs: seq<ResourceRecord>, end: nat) {
    if rs == [] then end == o else
      exists m: nat :: RecordsEncoded(b, o, Init(rs), m) && RecordEncoded(b, m, Last(rs), end)
  }

  ghost predicate CountsAgree(m: Message) {
    && m.header.qdcount == |m.questions| && m.header.ancount == |m.answers|
    && m.header.nscount == |m.authorities| && m.header.arcount == |m.additionals|
  }

  ghost predicate SectionsEncoded(b: seq<byte>, m: Message, e1: nat, e2: nat, e3: nat, end: nat) {
    && QuestionsEncoded(b, 12, m.questions, e1)
    && RecordsEncoded(b, e1, m.answers, e2)
    && RecordsEncoded(b, e2, m.authorities, e3)
    && RecordsEncoded(b, e3, m.additionals, end)
  }

  /** `m` stands in `b`, from its first byte to before `end`. */
  ghost predicate MessageEncoded(b: seq<byte>, m: Message, end: nat) {
    && CountsAgree(m)
    && Holds(b, 0, HeaderBytes(m.header))
    && exists e1: nat, e2: nat, e3: nat :: SectionsEncoded(b, m, e1, e2, e3, end)
  }

  // ----- Fixed-size fields -----

  lemma HoldsConcat(b: seq<byte>, o: nat, x: seq<byte>, y: seq<byte>)
    ensures Holds(b, o, x + y) <==> Holds(b, o, x) && Holds(b, o + |x|, y)
  {
    if o + |x| + |y| <= |b| {
      assert b[o..o + |x| + |y|] == b[o..o + |x|] + b[o + |x|..o + |x| + |y|];
      if Holds(b, o, x + y) {
        assert b[o..o + |x|] == (x + y)[..|x|] == x;
        assert b[o + |x|..o + |x| + |y|] == (x + y)[|x|..] == y;
      }
    }
  }

  lemma U16IsHeld(b: seq<byte>, o: nat, v: u16)
    ensures Holds(b, o, U16Bytes(v)) <==> o + 2 <= |b| && U16Of(b, o) == v
  {
    if o + 2 <= |b| {
      assert b[o..o + 2] == [b[o], b[o + 1]];
      assert v == v / 0x100 * 0x100 + v % 0x100;
    }
  }

  lemma U32IsHeld(b: seq<byte>, o: nat, v: u32)
    ensures Holds(b, o, U32Bytes(v)) <==> o + 4 <= |b| && U32Of(b, o) == v
  {
    var high, low := v / 0x1_0000, v % 0x1_0000;
    HoldsConcat(b, o, U16Bytes(high), U16Bytes(low));
    U16IsHeld(b, o, high);
    U16IsHeld(b, o + 2, low);
    assert v == high * 0x1_0000 + low;
  }

  lemma Flags1Unpack(qr: bit, opcode: u4, aa: bit, tc: bit, rd: bit, f: byte)
    ensures f == 0x80 * qr + 0x08 * opcode + 0x04 * aa + 0x02 * tc + rd <==>
            qr == f / 0x80 && opcode == f / 0x08 % 0x10 && aa == f / 0x04 % 2 && tc == f / 0x02 % 2 && rd == f % 2
  {
    var f2: int, f4: int, f8: int := f / 2, f / 4, f / 8;
    assert f4 == f2 / 2 && f8 == f4 / 2 && f / 0x80 == f8 / 0x10;
    assert f == 2 * f2 + f % 2 && f2 == 2 * f4 + f2 % 2 && f4 == 2 * f8 + f4 % 2;
    assert f8 == 0x10 * (f8 / 0x10) + f8 % 0x10;
    if f == 0x80 * qr + 0x08 * opcode + 0x04 * aa + 0x02 * tc + rd {
      assert f2 == 0x40 * qr + 0x04 * opcode + 0x02 * aa + tc;
      assert f4 == 0x20 * qr + 0x02 * opcode + aa;
      assert f8 == 0x10 * qr + opcode;
    }
  }

  lemma Flags2Unpack(ra: bit, z: u3, rcode: u4, f: byte)
    ensures f == 0x80 * ra + 0x10 * z + rcode <==>
            ra == f / 0x80 && z == f / 0x10 % 0x08 && rcode == f % 0x10
  {
    var f16: int := f / 0x10;
    assert f / 0x80 == f16 / 8 && f == 0x10 * f16 + f % 0x10 && f16 == 8 * (f16 / 8) + f16 % 8;
    if f == 0x80 * ra + 0x10 * z + rcode {
      assert f16 == 8 * ra + z;
    }
  }

  /** Packing the flag bits and unpacking them are inverse to each other. */
  lemma FlagsUnpack(h: Header, f1: byte, f2: byte)
    ensures [f1, f2] == FlagBytes(h) <==>
            && h.qr == f1 / 0x80 && h.opcode == f1 / 0x08 % 0x10 && h.aa == f1 / 0x04 % 2
            && h.tc == f1 / 0x02 % 2 && h.rd == f1 % 2
            && h.ra == f2 / 0x80 && h.z == f2 / 0x10 % 0x08 && h.rcode == f2 % 0x10
  {
    Flags1Unpack(h.qr, h.opcode, h.aa, h.tc, h.rd, f1);
    Flags2Unpack(h.ra, h.z, h.rcode, f2);
    assert [f1, f2] == FlagBytes(h) <==> f1 == FlagBytes(h)[0] && f2 == FlagBytes(h)[1];
  }

  /** A header is read at an offset exactly when its twelve octets stand there,
      and fails to be read only when the buffer ends before that. */
  lemma HeaderIsHeld(b: seq<byte>, o: nat, h: Header)
    ensures HeaderAt(b, o) == Ok(h, o + 12) <==> Holds(b, o, HeaderBytes(h))
    ensures if o + 12 <= |b| then HeaderAt(b, o).Ok? && HeaderAt(b, o).end == o + 12
            else HeaderAt(b, o) == Err(BUFFER_TOO_SMALL)
  {
    var id, flags, qd, an, ns, ar := U16Bytes(h.id), FlagBytes(h), U16Bytes(h.qdcount),
      U16Bytes(h.ancount), U16Bytes(h.nscount), U16Bytes(h.arcount);
    HoldsConcat(b, o, id + flags + qd + an + ns, ar);
    HoldsConcat(b, o, id + flags + qd + an, ns);
    HoldsConcat(b, o, id + flags + qd, an);
    HoldsConcat(b, o, id + flags, qd);
    HoldsConcat(b, o, id, flags);
    U16IsHeld(b, o, h.id);
    U16IsHeld(b, o + 4, h.qdcount);
    U16IsHeld(b, o + 6, h.ancount);
    U16IsHeld(b, o + 8, h.nscount);
    U16IsHeld(b, o + 10, h.arcount);
    if |b| >= o + 12 {
      assert b[o + 2..o + 4] == [b[o + 2], b[o + 3]];
      FlagsUnpack(h, b[o + 2], b[o + 3]);
    }
  }

  // ----- Entries -----

  lemma QuestionAtDecidesMeaning(b: seq<byte>, o: nat, q: Question, end: nat)
    ensures QuestionAt(b, o) == Ok(q, end) <==> QuestionEncoded(b, o, q, end)
  {
    var name := NameAt(b, o);
    if name.Ok? {
      NameAtDecidesMeaning(b, o, name.value, name.end);
      QuestionTailIsRead(b, name.end, q);
    }
    if QuestionEncoded(b, o, q, end) {
      var m: nat :| NameEncoded(b, o, q.qname.labels, m) && Holds(b, m, QuestionTail(q)) && end == m + 4;
      NameAtDecidesMeaning(b, o, q.qname.labels, m);
    }
  }

  lemma QuestionTailIsRead(b: seq<byte>, m: nat, q: Question)
    ensures Holds(b, m, QuestionTail(q)) <==>
            m + 4 <= |b| && U16Of(b, m) == q.qtype && U16Of(b, m + 2) == q.qclass
  {
    HoldsConcat(b, m, U16Bytes(q.qtype), U16Bytes(q.qclass));
    U16IsHeld(b, m, q.qtype);
    U16IsHeld(b, m + 2, q.qclass);
  }

  lemma RecordFieldsAreRead(b: seq<byte>, m: nat, r: ResourceRecord)
    requires |r.rdata| <= MAX_U16
    ensures Holds(b, m, RecordFields(r)) <==>
            && m + 10 <= |b| && U16Of(b, m) == r.rtype && U16Of(b, m + 2) == r.rclass
            && U32Of(b, m + 4) == r.ttl && U16Of(b, m + 8) == |r.rdata|
  {
    var t, c, l, n := U16Bytes(r.rtype), U16Bytes(r.rclass), U32Bytes(r.ttl), U16Bytes(|r.rdata|);
    HoldsConcat(b, m, t + c + l, n);
    HoldsConcat(b, m, t + c, l);
    HoldsConcat(b, m, t, c);
    U16IsHeld(b, m, r.rtype);
    U16IsHeld(b, m + 2, r.rclass);
    U32IsHeld(b, m + 4, r.ttl);
    U16IsHeld(b, m + 8, |r.rdata|);
  }

  lemma RecordIsEncoded(b: seq<byte>, o: nat, r: ResourceRecord, end: nat)
    requires RecordAt(b, o) == Ok(r, end)
    ensures RecordEncoded(b, o, r, end)
  {
    var name := NameAt(b, o);
    NameAtDecidesMeaning(b, o, name.value, name.end);
    var m := name.end;
    assert |r.rdata| == U16Of(b, m + 8);
    RecordFieldsAreRead(b, m, r);
  }

  lemma RecordIsRead(b: seq<byte>, o: nat, r: ResourceRecord, m: nat)
    requires NameEncoded(b, o, r.name.labels, m) && |r.rdata| <= MAX_U16 && Holds(b, m, RecordFields(r))
    requires r.rdataOffset == m + 10 && Holds(b, m + 10, r.rdata)
    ensures RecordAt(b, o) == Ok(r, m + 10 + |r.rdata|)
  {
    NameAtDecidesMeaning(b, o, r.name.labels, m);
    RecordFieldsAreRead(b, m, r);
    hide NameAt, NameEncoded, U16Of, U32Of, RecordFields;
  }

  lemma RecordAtDecidesMeaning(b: seq<byte>, o: nat, r: ResourceRecord, end: nat)
    ensures RecordAt(b, o) == Ok(r, end) <==> RecordEncoded(b, o, r, end)
  {
    hide NameAt, NameEncoded, RecordAt, Holds;
    if RecordAt(b, o) == Ok(r, end) { RecordIsEncoded(b, o, r, end); }
    if RecordEncoded(b, o, r, end) {
      var m: nat :|
        && NameEncoded(b, o, r.name.labels, m)
        && |r.rdata| <= MAX_U16 && Holds(b, m, RecordFields(r))
        && r.rdataOffset == m + 10 && Holds(b, m + 10, r.rdata) && end == m + 10 + |r.rdata|;
      RecordIsRead(b, o, r, m);
    }
  }

  // ----- Sections -----

  lemma SplitLast<T>(s: seq<T>, init: seq<T>, last: T)
    ensures s == init + [last] <==> s != [] && init == Init(s) && last == Last(s)
  {
  }

  lemma {:induction false} QuestionsAtDecidesMeaning(b: seq<byte>, o: nat, qs: seq<Question>, end: nat)
    ensures QuestionsAt(b, o, |qs|) == Ok(qs, end) <==> QuestionsEncoded(b, o, qs, end)
    decreases |qs|
  {
    hide QuestionAt, QuestionEncoded;
    if qs != [] {
      var before := QuestionsAt(b, o, |qs| - 1);
      if before.Ok? {
        var last := QuestionAt(b, before.end);
        if last.Ok? {
          SplitLast(qs, before.value, last.value);
          QuestionAtDecidesMeaning(b, before.end, last.value, last.end);
        }
        QuestionsAtDecidesMeaning(b, o, Init(qs), before.end);
      }
      if QuestionsEncoded(b, o, qs, end) {
        var m: nat :| QuestionsEncoded(b, o, Init(qs), m) && QuestionEncoded(b, m, Last(qs), end);
        QuestionsAtDecidesMeaning(b, o, Init(qs), m);
        QuestionAtDecidesMeaning(b, m, Last(qs), end);
        SplitLast(qs, Init(qs), Last(qs));
      }
    }
  }

  lemma {:induction false} RecordsAtDecidesMeaning(b: seq<byte>, o: nat, rs: seq<ResourceRecord>, end: nat)
    ensures RecordsAt(b, o, |rs|) == Ok(rs, end) <==> RecordsEncoded(b, o, rs, end)
    decreases |rs|
  {
    hide RecordAt, RecordEncoded;
    if rs != [] {
      var before := RecordsAt(b, o, |rs| - 1);
      if before.Ok? {
        var last := RecordAt(b, before.end);
        if last.Ok? {
          SplitLast(rs, before.value, last.value);
          RecordAtDecidesMeaning(b, before.end, last.value, last.end);
        }
        RecordsAtDecidesMeaning(b, o, Init(rs), before.end);
      }
      if RecordsEncoded(b, o, rs, end) {
        var m: nat :| RecordsEncoded(b, o, Init(rs), m) && RecordEncoded(b, m, Last(rs), end);
        RecordsAtDecidesMeaning(b, o, Init(rs), m);
        RecordAtDecidesMeaning(b, m, Last(rs), end);
        SplitLast(rs, Init(rs), Last(rs));
      }
    }
  }

  // ----- Whole messages -----

  lemma {:induction false} SectionLengths(b: seq<byte>, o: nat, n: nat)
    ensures QuestionsAt(b, o, n).Ok? ==> |QuestionsAt(b, o, n).value| == n
    ensures RecordsAt(b, o, n).Ok? ==> |RecordsAt(b, o, n).value| == n
    decreases n
  {
    hide QuestionAt, RecordAt;
    if n > 0 { SectionLengths(b, o, n - 1); }
  }

  lemma MessageIsEncoded(b: seq<byte>, m: Message, end: nat)
    ensures MessageAt(b) == Ok(m, end) ==> MessageEncoded(b, m, end)
  {
    if MessageAt(b) != Ok(m, end) { return; }
    var h := m.header;
    HeaderIsHeld(b, 0, h);
    var e1 := QuestionsAt(b, 12, h.qdcount).end;
    var e2 := RecordsAt(b, e1, h.ancount).end;
    var e3 := RecordsAt(b, e2, h.nscount).end;
    SectionLengths(b, 12, h.qdcount);
    SectionLengths(b, e1, h.ancount);
    SectionLengths(b, e2, h.nscount);
    SectionLengths(b, e3, h.arcount);
    QuestionsAtDecidesMeaning(b, 12, m.questions, e1);
    RecordsAtDecidesMeaning(b, e1, m.answers, e2);
    RecordsAtDecidesMeaning(b, e2, m.authorities, e3);
    RecordsAtDecidesMeaning(b, e3, m.additionals, end);
    assert SectionsEncoded(b, m, e1, e2, e3, end);
  }

  /** parse is OK with `m`, consuming `end` bytes, exactly when `m` stands in the
      buffer under some choice of compression at each of its names. */
  lemma MessageAtDecidesMeaning(b: seq<byte>, m: Message, end: nat)
    ensures MessageAt(b) == Ok(m, end) <==> MessageEncoded(b, m, end)
  {
    MessageIsEncoded(b, m, end);
    if MessageEncoded(b, m, end) {
      var e1: nat, e2: nat, e3: nat :| SectionsEncoded(b, m, e1, e2, e3, end);
      HeaderIsHeld(b, 0, m.header);
      QuestionsAtDecidesMeaning(b, 12, m.questions, e1);
      RecordsAtDecidesMeaning(b, e1, m.answers, e2);
      RecordsAtDecidesMeaning(b, e2, m.authorities, e3);
      RecordsAtDecidesMeaning(b, e3, m.additionals, end);
    }
  }

  /** At most one message, with one end, stands in a buffer. */
  lemma MessageIsUnique(b: seq<byte>, m: Message, end: nat, m': Message, end': nat)
    requires MessageEncoded(b, m, end) && MessageEncoded(b, m', end')
    ensures m == m' && end == end'
  {
    hide MessageAt, MessageEncoded;
    MessageAtDecidesMeaning(b, m, end);
    MessageAtDecidesMeaning(b, m', end');
  }
}
