/** Where the parts of a parsed message lie in the buffer. */
module Layout {
  import opened Packet
  import opened Encoding
  import opened NameWalk
  import opened Reading
  import opened MessageMeaning

  function RdataEnd(r: ResourceRecord): nat {
    r.rdataOffset + |r.rdata|
  }

  /** Each rdata is the buffer's slice at its rdataOffset; the slices lie between
      `lo` and `hi`, in order and apart: at least 11 octets of name and fixed
      fields stand before each. */
  ghost predicate SlicesInOrder(b: seq<byte>, rs: seq<ResourceRecord>, lo: nat, hi: nat) {
    && (forall i :: 0 <= i < |rs| ==>
          lo + 11 <= rs[i].rdataOffset && RdataEnd(rs[i]) <= hi && Holds(b, rs[i].rdataOffset, rs[i].rdata))
    && (forall i, j :: 0 <= i < j < |rs| ==> RdataEnd(rs[i]) + 11 <= rs[j].rdataOffset)
  }

  lemma SlicesConcat(b: seq<byte>, rs: seq<ResourceRecord>, more: seq<ResourceRecord>, lo: nat, mid: nat, hi: nat)
    requires SlicesInOrder(b, rs, lo, mid) && SlicesInOrder(b, more, mid, hi) && lo <= mid <= hi
    ensures SlicesInOrder(b, rs + more, lo, hi)
  {
    hide Holds;
  }

  lemma RecordBounds(b: seq<byte>, o: nat)
    ensures RecordAt(b, o).Ok? ==>
              var r := RecordAt(b, o);
              && o + 11 <= r.value.rdataOffset && r.end == RdataEnd(r.value) <= |b|
              && Holds(b, r.value.rdataOffset, r.value.rdata)
  {
    hide NameAt;
    if NameAt(b, o).Ok? { NameShape(b, o); }
  }

  lemma QuestionBounds(b: seq<byte>, o: nat)
    ensures QuestionAt(b, o).Ok? ==> o + 5 <= QuestionAt(b, o).end <= |b|
  {
    hide NameAt;
    if NameAt(b, o).Ok? { NameShape(b, o); }
  }

  lemma {:induction false} QuestionsBounds(b: seq<byte>, o: nat, n: nat)
    requires o <= |b|
    ensures QuestionsAt(b, o, n).Ok? ==>
              o + 5 * n <= QuestionsAt(b, o, n).end <= |b| && |QuestionsAt(b, o, n).value| == n
    decreases n
  {
    hide QuestionAt;
    if n > 0 {
      QuestionsBounds(b, o, n - 1);
      var before := QuestionsAt(b, o, n - 1);
      if before.Ok? { QuestionBounds(b, before.end); }
    }
  }

  lemma {:induction false} RecordsBounds(b: seq<byte>, o: nat, n: nat)
    requires o <= |b|
    ensures RecordsAt(b, o, n).Ok? ==>
              var r := RecordsAt(b, o, n);
              o + 11 * n <= r.end <= |b| && |r.value| == n && SlicesInOrder(b, r.value, o, r.end)
    decreases n
  {
    hide RecordAt, Holds;
    if n > 0 {
      RecordsBounds(b, o, n - 1);
      var before := RecordsAt(b, o, n - 1);
      if before.Ok? {
        RecordBounds(b, before.end);
        var last := RecordAt(b, before.end);
        if last.Ok? {
          assert SlicesInOrder(b, [last.value], before.end, last.end);
          SlicesConcat(b, before.value, [last.value], o, before.end, last.end);
        }
      }
    }
  }

  /** The size of a parsed message: its sections have the lengths the header
      counts, every entry takes its least space, and nothing is read past the buffer. */
  lemma MessageBounds(b: seq<byte>)
    ensures MessageAt(b).Ok? ==>
              var m, end := MessageAt(b).value, MessageAt(b).end;
              && CountsAgree(m)
              && 12 + 5 * m.header.qdcount + 11 * (m.header.ancount + m.header.nscount + m.header.arcount) <= end <= |b|
  {
    var e1, e2, e3 := SectionBounds(b);
  }

  lemma SectionBounds(b: seq<byte>) returns (e1: nat, e2: nat, e3: nat)
    ensures MessageAt(b).Ok? ==>
              var m, end := MessageAt(b).value, MessageAt(b).end;
              && SectionsRead(b, m, e1, e2, e3, end) && CountsAgree(m)
              && 12 + 5 * m.header.qdcount <= e1 && e1 + 11 * m.header.ancount <= e2
              && e2 + 11 * m.header.nscount <= e3 && e3 + 11 * m.header.arcount <= end <= |b|
              && SlicesInOrder(b, m.answers, e1, e2) && SlicesInOrder(b, m.authorities, e2, e3)
              && SlicesInOrder(b, m.additionals, e3, end)
  {
    e1, e2, e3 := DissectedMessage(b);
    hide MessageAt, QuestionsAt, RecordsAt, HeaderBytes, SlicesInOrder;
    if MessageAt(b).Ok? {
      var h := MessageAt(b).value.header;
      QuestionsBounds(b, 12, h.qdcount);
      RecordsBounds(b, e1, h.ancount);
      RecordsBounds(b, e2, h.nscount);
      RecordsBounds(b, e3, h.arcount);
    }
  }

  /** Across answers, authorities and additionals, the parsed rdata are an
      ordered, disjoint slicing of the consumed bytes. */
  lemma RdataSlicesTheBuffer(b: seq<byte>)
    ensures MessageAt(b).Ok? ==>
              var m := MessageAt(b).value;
              SlicesInOrder(b, m.answers + m.authorities + m.additionals, 12, MessageAt(b).end)
  {
    hide MessageAt, SectionsRead;
    var e1, e2, e3 := SectionBounds(b);
    if MessageAt(b).Ok? {
      var m, end := MessageAt(b).value, MessageAt(b).end;
      assert SlicesInOrder(b, [], 12, e1);
      hide SlicesInOrder;
      SlicesConcat(b, [], m.answers, 12, e1, e2);
      assert [] + m.answers == m.answers;
      SlicesConcat(b, m.answers, m.authorities, 12, e2, e3);
      SlicesConcat(b, m.answers + m.authorities, m.additionals, 12, e3, end);
    }
  }
}
