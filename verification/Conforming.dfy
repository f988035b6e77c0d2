/** Names compressed as section 4.1.4 of RFC 1035 has it: every pointer leads to
    a name that stands earlier. Such names always read, and read no further than
    they stand. */
module Conforming {
  import opened Packet
  import opened NameWalk
  import opened Reading
  import opened Truncation
  import opened RoundTrip

  // What ends the run of labels at `c`: a zero octet, a pointer or a fault.
  function RunEnd(b: seq<byte>, c: nat): Move
    decreases |b| - c
  {
    match Look(b, c)
    case Read(_, next) => RunEnd(b, next)
    case other => other
  }

  /** The name at `c` ends in place in a zero octet, or in a pointer to a name
      that stands wholly before `c` and conforms in turn. */
  predicate ConformingName(b: seq<byte>, c: nat)
    decreases c
  {
    match RunEnd(b, c)
    case Root => true
    case Hop(target) => target < c && InPlaceEnd(b, target) <= c && ConformingName(b, target)
    case _ => false
  }

  lemma {:induction false} ReachStable(b: seq<byte>, c: nat, k: nat, more: nat)
    requires k <= more && !Cut(Walk(b, c, k))
    ensures WalkReach(b, c, more) == WalkReach(b, c, k)
    decreases k
  {
    match Look(b, c)
    case Hop(target) => ReachStable(b, target, k - 1, more - 1);
    case Read(_, next) => ReachStable(b, next, k - 1, more - 1);
    case _ =>
  }

  /** Along the labels of a name the walk needs as many more looks as there are labels. */
  lemma {:induction false} RunReads(b: seq<byte>, c: nat, k: nat) returns (budget: nat)
    requires match RunEnd(b, c)
             case Root => true
             case Hop(target) => Walk(b, target, k).Ok? && WalkReach(b, target, k) <= InPlaceEnd(b, c)
             case _ => false
    ensures Walk(b, c, budget).Ok? && WalkReach(b, c, budget) == InPlaceEnd(b, c)
    decreases |b| - c
  {
    match Look(b, c)
    case Root => budget := 1;
    case Hop(_) => budget := k + 1;
    case Read(_, next) =>
      budget := RunReads(b, next, k);
      budget := budget + 1;
  }

  lemma {:induction false} InPlaceEndIsBehind(b: seq<byte>, c: nat)
    ensures InPlaceEnd(b, c) >= c
    decreases |b| - c
  {
    if Look(b, c).Read? { InPlaceEndIsBehind(b, Look(b, c).next); }
  }

  lemma {:induction false} ConformingWalk(b: seq<byte>, c: nat) returns (budget: nat)
    requires ConformingName(b, c)
    ensures Walk(b, c, budget).Ok? && WalkReach(b, c, budget) == InPlaceEnd(b, c)
    decreases c
  {
    InPlaceEndIsBehind(b, c);
    var k := 0;
    if RunEnd(b, c).Hop? { k := ConformingWalk(b, RunEnd(b, c).target); }
    budget := RunReads(b, c, k);
  }

  /** A conforming name always reads, in particular it never loops, and nothing
      behind its place is looked at. */
  lemma ConformingNameReads(b: seq<byte>, c: nat)
    requires ConformingName(b, c)
    ensures NameAt(b, c).Ok? && NameReach(b, c) == NameAt(b, c).end
  {
    var budget := ConformingWalk(b, c);
    BudgetSuffices(b, c, budget);
    WalkEndsInPlace(b, c, |b| + 1);
    if budget <= |b| + 1 { ReachStable(b, c, budget, |b| + 1); } else { ReachStable(b, c, |b| + 1, budget); }
  }

  // ----- Messages -----

  predicate ConformingQuestions(b: seq<byte>, o: nat, n: nat)
    decreases n
  {
    n > 0 ==>
      && ConformingQuestions(b, o, n - 1)
      && (QuestionsAt(b, o, n - 1).Ok? ==> ConformingName(b, QuestionsAt(b, o, n - 1).end))
  }

  predicate ConformingRecords(b: seq<byte>, o: nat, n: nat)
    decreases n
  {
    n > 0 ==>
      && ConformingRecords(b, o, n - 1)
      && (RecordsAt(b, o, n - 1).Ok? ==> ConformingName(b, RecordsAt(b, o, n - 1).end))
  }

  predicate ConformingSections(b: seq<byte>, h: Header, e1: nat, e2: nat, e3: nat) {
    && ConformingQuestions(b, 12, h.qdcount) && ConformingRecords(b, e1, h.ancount)
    && ConformingRecords(b, e2, h.nscount) && ConformingRecords(b, e3, h.arcount)
  }

  lemma {:induction false} QuestionsReachTheirEnd(b: seq<byte>, o: nat, n: nat)
    ensures QuestionsAt(b, o, n).Ok? && ConformingQuestions(b, o, n) ==>
              o <= QuestionsAt(b, o, n).end && QuestionsReach(b, o, n) <= QuestionsAt(b, o, n).end
    decreases n
  {
    hide NameAt, NameReach, ConformingName;
    if n > 0 && QuestionsAt(b, o, n).Ok? && ConformingQuestions(b, o, n) {
      QuestionsReachTheirEnd(b, o, n - 1);
      var start := QuestionsAt(b, o, n - 1).end;
      ConformingNameReads(b, start);
      NameShape(b, start);
    }
  }

  lemma {:induction false} RecordsReachTheirEnd(b: seq<byte>, o: nat, n: nat)
    ensures RecordsAt(b, o, n).Ok? && ConformingRecords(b, o, n) ==>
              o <= RecordsAt(b, o, n).end && RecordsReach(b, o, n) <= RecordsAt(b, o, n).end
    decreases n
  {
    hide NameAt, NameReach, ConformingName;
    if n > 0 && RecordsAt(b, o, n).Ok? && ConformingRecords(b, o, n) {
      RecordsReachTheirEnd(b, o, n - 1);
      var start := RecordsAt(b, o, n - 1).end;
      ConformingNameReads(b, start);
      NameShape(b, start);
    }
  }

  /** `b` holds a message all of whose names conform. */
  predicate ConformingMessage(b: seq<byte>) {
    && MessageAt(b).Ok?
    && var h := MessageAt(b).value.header;
    var e1 := QuestionsAt(b, 12, h.qdcount).end;
    var e2 := RecordsAt(b, e1, h.ancount).end;
    ConformingSections(b, h, e1, e2, RecordsAt(b, e2, h.nscount).end)
  }

  lemma ConformingSectionsReach(b: seq<byte>, m: Message, e1: nat, e2: nat, e3: nat, end: nat)
    ensures SectionsRead(b, m, e1, e2, e3, end) && ConformingSections(b, m.header, e1, e2, e3) ==>
              SectionsReach(b, m.header, e1, e2, e3) <= end
  {
    hide HeaderAt, QuestionsAt, RecordsAt, ConformingQuestions, ConformingRecords, QuestionsReach, RecordsReach;
    QuestionsReachTheirEnd(b, 12, m.header.qdcount);
    RecordsReachTheirEnd(b, e1, m.header.ancount);
    RecordsReachTheirEnd(b, e2, m.header.nscount);
    RecordsReachTheirEnd(b, e3, m.header.arcount);
  }

  /** If every name of a message conforms, the parse looks at no byte behind those
      it consumes, and every prefix that covers these parses to the identical message. */
  lemma ConformingReach(b: seq<byte>)
    ensures ConformingMessage(b) ==>
              && MessageReach(b) == MessageAt(b).end
              && forall k :: MessageAt(b).end <= k <= |b| ==> MessageAt(b[..k]) == MessageAt(b)
  {
    hide HeaderAt, QuestionsAt, RecordsAt, ConformingSections, SectionsReach;
    if ConformingMessage(b) {
      var e1, e2, e3 := DissectedMessage(b);
      ConformingSectionsReach(b, MessageAt(b).value, e1, e2, e3, MessageAt(b).end);
      TruncationThreshold(b, |b|);
      ConsumedIsThreshold(b);
    }
  }

  /** Names without compression conform. */
  lemma {:induction false} PlainConforms(b: seq<byte>, c: nat)
    requires PlainName(b, c)
    ensures ConformingName(b, c)
  {
    PlainRunEnd(b, c);
  }

  lemma {:induction false} PlainRunEnd(b: seq<byte>, c: nat)
    requires PlainName(b, c)
    ensures RunEnd(b, c) == Root
    decreases |b| - c
  {
    if Look(b, c).Read? { PlainRunEnd(b, Look(b, c).next); }
  }
}
