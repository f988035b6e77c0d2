/** Which status parse returns for which buffer: the relations of MessageMeaning
    say how far the message stands, the octets there say why no further. */
module Failures {
  import opened Packet
  import opened NameWalk
  import opened NameMeaning
  import opened NameFailures
  import opened Reading
  import opened MessageMeaning

  /** The name at `o` stands, up to `m`. */
  ghost predicate NameStands(b: seq<byte>, o: nat, m: nat) {
    exists labels: seq<Label> :: NameEncoded(b, o, labels, m)
  }

  /** No question stands at `o`, for the reason `s`. */
  ghost predicate QuestionFails(b: seq<byte>, o: nat, s: Status) {
    || NameFails(b, o, s)
    || (s == BUFFER_TOO_SMALL && exists m: nat :: NameStands(b, o, m) && m + 4 > |b|)
  }

  /** No record stands at `o`, for the reason `s`: its name fails, the ten octets
      behind the name are cut, or what is left is less than their last two count. */
  ghost predicate RecordFails(b: seq<byte>, o: nat, s: Status) {
    || NameFails(b, o, s)
    || (s == BUFFER_TOO_SMALL && exists m: nat :: NameStands(b, o, m) && m + 10 > |b|)
    || (s == RDATA_LENGTH_MISMATCH && exists m: nat :: NameStands(b, o, m) && RdataIsCut(b, m))
  }

  predicate RdataIsCut(b: seq<byte>, m: nat) {
    m + 10 <= |b| && b[m + 8] as int * 0x100 + b[m + 9] as int > |b| - (m + 10)
  }

  /** Of the `count` questions from `o` on, some stand and the next does not, for the reason `s`. */
  ghost predicate QuestionsFail(b: seq<byte>, o: nat, count: nat, s: Status) {
    exists before: seq<Question>, m: nat ::
      |before| < count && QuestionsEncoded(b, o, before, m) && QuestionFails(b, m, s)
  }

  ghost predicate RecordsFail(b: seq<byte>, o: nat, count: nat, s: Status) {
    exists before: seq<ResourceRecord>, m: nat ::
      |before| < count && RecordsEncoded(b, o, before, m) && RecordFails(b, m, s)
  }

  /** `count` entries stand from `o` to `end`. */
  ghost predicate QuestionsStand(b: seq<byte>, o: nat, count: nat, end: nat) {
    exists qs: seq<Question> :: |qs| == count && QuestionsEncoded(b, o, qs, end)
  }

  ghost predicate RecordsStand(b: seq<byte>, o: nat, count: nat, end: nat) {
    exists rs: seq<ResourceRecord> :: |rs| == count && RecordsEncoded(b, o, rs, end)
  }

  /** The two octets at `o` as a count, high octet first. */
  function CountAt(b: seq<byte>, o: nat): nat
    requires o + 2 <= |b|
  {
    b[o] as int * 0x100 + b[o + 1] as int
  }

  /** No message stands in `b`, for the reason `s`: the header is cut, or one of
      the four sections counted at octets 4, 6, 8 and 10 fails behind the others. */
  ghost predicate MessageFails(b: seq<byte>, s: Status) {
    if |b| < 12 then s == BUFFER_TOO_SMALL else
      || QuestionsFail(b, 12, CountAt(b, 4), s)
      || exists e1: nat :: QuestionsStand(b, 12, CountAt(b, 4), e1) &&
           (|| RecordsFail(b, e1, CountAt(b, 6), s)
            || exists e2: nat :: RecordsStand(b, e1, CountAt(b, 6), e2) &&
                 (|| RecordsFail(b, e2, CountAt(b, 8), s)
                  || exists e3: nat :: RecordsStand(b, e2, CountAt(b, 8), e3) && RecordsFail(b, e3, CountAt(b, 10), s)))
  }

  // ----- Entries -----

  lemma NameStandsIff(b: seq<byte>, o: nat, m: nat)
    ensures NameStands(b, o, m) <==> NameAt(b, o).Ok? && NameAt(b, o).end == m
  {
    hide NameAt;
    if labels: seq<Label> :| NameEncoded(b, o, labels, m) { NameAtDecidesMeaning(b, o, labels, m); }
    if NameAt(b, o).Ok? { NameAtDecidesMeaning(b, o, NameAt(b, o).value, NameAt(b, o).end); }
  }

  /** parseQuestion is refused with a status exactly when the octets say so. */
  lemma QuestionFailsIff(b: seq<byte>, o: nat, s: Status)
    ensures QuestionAt(b, o) == Err(s) <==> QuestionFails(b, o, s)
  {
    hide NameAt, NameFails, NameStands;
    NameFailsIff(b, o, s);
    forall m: nat { NameStandsIff(b, o, m); }
    if NameAt(b, o).Ok? { NameStandsIff(b, o, NameAt(b, o).end); }
  }

  /** parseResourceRecord is refused with a status exactly when the octets say so. */
  lemma RecordFailsIff(b: seq<byte>, o: nat, s: Status)
    ensures RecordAt(b, o) == Err(s) <==> RecordFails(b, o, s)
  {
    hide NameAt, NameFails, NameStands;
    NameFailsIff(b, o, s);
    forall m: nat { NameStandsIff(b, o, m); }
    if NameAt(b, o).Ok? { NameStandsIff(b, o, NameAt(b, o).end); }
  }

  // ----- Sections -----

  lemma {:induction false} QuestionsFailAt(b: seq<byte>, o: nat, n: nat) returns (before: seq<Question>, m: nat)
    ensures QuestionsAt(b, o, n).Err? ==>
              && |before| < n && QuestionsAt(b, o, |before|) == Ok(before, m)
              && QuestionAt(b, m) == Err(QuestionsAt(b, o, n).status)
    decreases n
  {
    hide QuestionAt;
    before, m := [], o;
    if n > 0 && QuestionsAt(b, o, n).Err? {
      var r := QuestionsAt(b, o, n - 1);
      if r.Err? {
        before, m := QuestionsFailAt(b, o, n - 1);
      } else {
        before, m := r.value, r.end;
        SectionLengths(b, o, n - 1);
      }
    }
  }

  /** The question section is refused with the status of its first question that does not stand. */
  lemma QuestionsFailIff(b: seq<byte>, o: nat, n: nat, s: Status)
    ensures QuestionsAt(b, o, n) == Err(s) <==> QuestionsFail(b, o, n, s)
  {
    hide QuestionAt, QuestionFails, QuestionsEncoded;
    if QuestionsAt(b, o, n) == Err(s) {
      var before, m := QuestionsFailAt(b, o, n);
      QuestionsAtDecidesMeaning(b, o, before, m);
      QuestionFailsIff(b, m, s);
    }
    if before: seq<Question>, m: nat :|
       |before| < n && QuestionsEncoded(b, o, before, m) && QuestionFails(b, m, s) {
      QuestionsAtDecidesMeaning(b, o, before, m);
      QuestionFailsIff(b, m, s);
      assert QuestionsAt(b, o, |before| + 1) == Err(s);
      QuestionsStop(b, o, |before| + 1, n);
    }
  }

  lemma {:induction false} RecordsFailAt(b: seq<byte>, o: nat, n: nat)
    returns (before: seq<ResourceRecord>, m: nat)
    ensures RecordsAt(b, o, n).Err? ==>
              && |before| < n && RecordsAt(b, o, |before|) == Ok(before, m)
              && RecordAt(b, m) == Err(RecordsAt(b, o, n).status)
    decreases n
  {
    hide RecordAt;
    before, m := [], o;
    if n > 0 && RecordsAt(b, o, n).Err? {
      var r := RecordsAt(b, o, n - 1);
      if r.Err? {
        before, m := RecordsFailAt(b, o, n - 1);
      } else {
        before, m := r.value, r.end;
        SectionLengths(b, o, n - 1);
      }
    }
  }

  /** A record section is refused with the status of its first record that does not stand. */
  lemma RecordsFailIff(b: seq<byte>, o: nat, n: nat, s: Status)
    ensures RecordsAt(b, o, n) == Err(s) <==> RecordsFail(b, o, n, s)
  {
    hide RecordAt, RecordFails, RecordsEncoded;
    if RecordsAt(b, o, n) == Err(s) {
      var before, m := RecordsFailAt(b, o, n);
      RecordsAtDecidesMeaning(b, o, before, m);
      RecordFailsIff(b, m, s);
    }
    if before: seq<ResourceRecord>, m: nat :|
       |before| < n && RecordsEncoded(b, o, before, m) && RecordFails(b, m, s) {
      RecordsAtDecidesMeaning(b, o, before, m);
      RecordFailsIff(b, m, s);
      assert RecordsAt(b, o, |before| + 1) == Err(s);
      RecordsStop(b, o, |before| + 1, n);
    }
  }

  lemma QuestionsStandIff(b: seq<byte>, o: nat, n: nat, end: nat)
    ensures QuestionsStand(b, o, n, end) <==> QuestionsAt(b, o, n).Ok? && QuestionsAt(b, o, n).end == end
  {
    hide QuestionsAt, QuestionsEncoded;
    SectionLengths(b, o, n);
    if qs: seq<Question> :| |qs| == n && QuestionsEncoded(b, o, qs, end) { QuestionsAtDecidesMeaning(b, o, qs, end); }
    var r := QuestionsAt(b, o, n);
    if r.Ok? { QuestionsAtDecidesMeaning(b, o, r.value, r.end); }
  }

  lemma RecordsStandIff(b: seq<byte>, o: nat, n: nat, end: nat)
    ensures RecordsStand(b, o, n, end) <==> RecordsAt(b, o, n).Ok? && RecordsAt(b, o, n).end == end
  {
    hide RecordsAt, RecordsEncoded;
    SectionLengths(b, o, n);
    if rs: seq<ResourceRecord> :| |rs| == n && RecordsEncoded(b, o, rs, end) { RecordsAtDecidesMeaning(b, o, rs, end); }
    var r := RecordsAt(b, o, n);
    if r.Ok? { RecordsAtDecidesMeaning(b, o, r.value, r.end); }
  }

  // ----- Messages -----

  lemma CountsAreRead(b: seq<byte>)
    ensures |b| < 12 ==> HeaderAt(b, 0) == Err(BUFFER_TOO_SMALL)
    ensures |b| >= 12 ==>
              && HeaderAt(b, 0).Ok? && HeaderAt(b, 0).end == 12
              && var h := HeaderAt(b, 0).value;
              && h.qdcount == CountAt(b, 4) && h.ancount == CountAt(b, 6)
              && h.nscount == CountAt(b, 8) && h.arcount == CountAt(b, 10)
  {
  }

  /** parse is refused with a status exactly when the octets say so. */
  lemma MessageFailsIff(b: seq<byte>, s: Status)
    ensures MessageAt(b) == Err(s) <==> MessageFails(b, s)
  {
    CountsAreRead(b);
    hide HeaderAt, QuestionsAt, RecordsAt, QuestionsFail, RecordsFail, QuestionsStand, RecordsStand, CountAt;
    if |b| >= 12 {
      var qd, an, ns, ar := CountAt(b, 4), CountAt(b, 6), CountAt(b, 8), CountAt(b, 10);
      QuestionsFailIff(b, 12, qd, s);
      forall e: nat { QuestionsStandIff(b, 12, qd, e); }
      var q := QuestionsAt(b, 12, qd);
      if q.Ok? {
        RecordsFailIff(b, q.end, an, s);
        forall e: nat { RecordsStandIff(b, q.end, an, e); }
        var a := RecordsAt(b, q.end, an);
        if a.Ok? {
          RecordsFailIff(b, a.end, ns, s);
          forall e: nat { RecordsStandIff(b, a.end, ns, e); }
          var n := RecordsAt(b, a.end, ns);
          if n.Ok? { RecordsFailIff(b, n.end, ar, s); }
        }
      }
    }
  }

  /** parse fails in five ways only. In particular it never reports
      SECTION_COUNT_MISMATCH: a header that counts too much runs out of buffer
      or meets bytes that are no entry. */
  lemma ParseFailures(b: seq<byte>)
    ensures MessageAt(b).Err? ==>
              MessageAt(b).status in {BUFFER_TOO_SMALL, MALFORMED_NAME, COMPRESSION_LOOP,
                                      COMPRESSION_FORWARD_POINTER, RDATA_LENGTH_MISMATCH}
  {
    hide MessageAt;
    if MessageAt(b).Err? { MessageFailsIff(b, MessageAt(b).status); }
  }
}
