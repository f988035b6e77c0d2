/** How the result of a parse changes when bytes are appended to the buffer or
    cut off its end. */
module Truncation {
  import opened Packet
  import opened NameWalk
  import opened Reading

  /** A result that more bytes cannot change: success, or a fault of the bytes
      already present. */
  predicate Settled<T>(r: Parsed<T>) {
    r.Ok? || (r.status != BUFFER_TOO_SMALL && r.status != RDATA_LENGTH_MISMATCH)
  }

  // ----- Appending -----

  lemma PrefixSlice(b: seq<byte>, longer: seq<byte>, lo: nat, hi: nat)
    requires b <= longer && lo <= hi <= |b|
    ensures longer[lo..hi] == b[lo..hi]
  {
    assert b == longer[..|b|];
  }

  lemma LookStable(b: seq<byte>, longer: seq<byte>, c: nat)
    requires b <= longer
    ensures Look(b, c) == Halt(BUFFER_TOO_SMALL) || Look(longer, c) == Look(b, c)
  {
    if Look(b, c).Read? {
      var n := c + 1 + b[c];
      assert longer[c + 1..n] == longer[..|b|][c + 1..n];
    }
  }

  lemma {:induction false} WalkStable(b: seq<byte>, longer: seq<byte>, c: nat, k: nat)
    requires b <= longer
    ensures Walk(b, c, k) == Err(BUFFER_TOO_SMALL) || Walk(longer, c, k) == Walk(b, c, k)
    decreases k
  {
    if k > 0 {
      LookStable(b, longer, c);
      match Look(b, c)
      case Hop(target) => WalkStable(b, longer, target, k - 1);
      case Read(_, next) => WalkStable(b, longer, next, k - 1);
      case _ =>
    }
  }

  /** Appending bytes changes the result of parseName only if it was
      BUFFER_TOO_SMALL. A loop stays a loop although the budget has grown. */
  lemma NameAtStable(b: seq<byte>, longer: seq<byte>, c: nat)
    requires b <= longer
    ensures NameAt(b, c) == Err(BUFFER_TOO_SMALL) || NameAt(longer, c) == NameAt(b, c)
  {
    if Cut(NameAt(b, c)) {
      BudgetIsExact(b, c);
      CutMeansMoves(b, c, |longer| + 1);
      WalkStable(b, longer, c, |longer| + 1);
    } else if NameAt(b, c) != Err(BUFFER_TOO_SMALL) {
      WalkStable(b, longer, c, |b| + 1);
      BudgetSuffices(longer, c, |b| + 1);
    }
  }

  lemma QuestionAtStable(b: seq<byte>, longer: seq<byte>, o: nat)
    requires b <= longer
    ensures Settled(QuestionAt(b, o)) ==> QuestionAt(longer, o) == QuestionAt(b, o)
  {
    hide NameAt;
    NameAtStable(b, longer, o);
  }

  lemma RecordAtStable(b: seq<byte>, longer: seq<byte>, o: nat)
    requires b <= longer
    ensures Settled(RecordAt(b, o)) ==> RecordAt(longer, o) == RecordAt(b, o)
  {
    hide NameAt;
    NameAtStable(b, longer, o);
    var r := RecordAt(b, o);
    if r.Ok? { PrefixSlice(b, longer, r.value.rdataOffset, r.end); }
  }

  lemma {:induction false} QuestionsAtStable(b: seq<byte>, longer: seq<byte>, o: nat, n: nat)
    requires b <= longer
    ensures Settled(QuestionsAt(b, o, n)) ==> QuestionsAt(longer, o, n) == QuestionsAt(b, o, n)
    decreases n
  {
    hide QuestionAt;
    if n > 0 {
      QuestionsAtStable(b, longer, o, n - 1);
      var before := QuestionsAt(b, o, n - 1);
      if before.Ok? { QuestionAtStable(b, longer, before.end); }
    }
  }

  lemma {:induction false} RecordsAtStable(b: seq<byte>, longer: seq<byte>, o: nat, n: nat)
    requires b <= longer
    ensures Settled(RecordsAt(b, o, n)) ==> RecordsAt(longer, o, n) == RecordsAt(b, o, n)
    decreases n
  {
    hide RecordAt;
    if n > 0 {
      RecordsAtStable(b, longer, o, n - 1);
      var before := RecordsAt(b, o, n - 1);
      if before.Ok? { RecordAtStable(b, longer, before.end); }
    }
  }

  /** Appending bytes changes the result of parse only if it was
      BUFFER_TOO_SMALL or RDATA_LENGTH_MISMATCH. */
  lemma MessageAtStable(b: seq<byte>, longer: seq<byte>)
    requires b <= longer
    ensures Settled(MessageAt(b)) ==> MessageAt(longer) == MessageAt(b)
  {
    hide QuestionsAt, RecordsAt;
    if Settled(MessageAt(b)) {
      var h := HeaderAt(b, 0);
      assert HeaderAt(longer, 0) == h;
      QuestionsAtStable(b, longer, h.end, h.value.qdcount);
      var q := QuestionsAt(b, h.end, h.value.qdcount);
      if q.Ok? {
        RecordsAtStable(b, longer, q.end, h.value.ancount);
        var a := RecordsAt(b, q.end, h.value.ancount);
        if a.Ok? {
          RecordsAtStable(b, longer, a.end, h.value.nscount);
          var n := RecordsAt(b, a.end, h.value.nscount);
          if n.Ok? { RecordsAtStable(b, longer, n.end, h.value.arcount); }
        }
      }
    }
  }

  // ----- Cutting -----

  function Max(x: nat, y: nat): nat {
    if x < y then y else x
  }

  /** How far into the buffer the walk reads. A pointer leads back to labels
      that may extend beyond the pointer itself. */
  function WalkReach(b: seq<byte>, c: nat, k: nat): nat
    decreases k
  {
    if k == 0 then c else
      match Look(b, c)
      case Halt(_) => c
      case Root => c + 1
      case Hop(target) => Max(c + 2, WalkReach(b, target, k - 1))
      case Read(_, next) => WalkReach(b, next, k - 1)
  }

  function NameReach(b: seq<byte>, c: nat): nat {
    WalkReach(b, c, |b| + 1)
  }

  lemma LookCut(shorter: seq<byte>, b: seq<byte>, c: nat)
    requires shorter <= b
    ensures match Look(b, c)
            case Halt(_) => true
            case Root => Look(shorter, c) == if c < |shorter| then Root else Halt(BUFFER_TOO_SMALL)
            case Hop(t) => Look(shorter, c) == if c + 2 <= |shorter| then Hop(t) else Halt(BUFFER_TOO_SMALL)
            case Read(l, n) => Look(shorter, c) == if n <= |shorter| then Read(l, n) else Halt(BUFFER_TOO_SMALL)
  {
    LookStable(shorter, b, c);
  }

  lemma {:induction false} WalkCut(shorter: seq<byte>, b: seq<byte>, c: nat, k: nat)
    requires shorter <= b && Walk(b, c, k).Ok?
    ensures Walk(b, c, k).end <= WalkReach(b, c, k) <= |b| && c < WalkReach(b, c, k)
    ensures Walk(shorter, c, k) ==
            if WalkReach(b, c, k) <= |shorter| then Walk(b, c, k) else Err(BUFFER_TOO_SMALL)
    decreases k
  {
    LookCut(shorter, b, c);
    match Look(b, c)
    case Hop(target) => WalkCut(shorter, b, target, k - 1);
    case Read(_, next) => WalkCut(shorter, b, next, k - 1);
    case Root =>
  }

  /** Cutting a buffer under a name that was read leaves the name as it is down
      to its reach, and below that parseName runs out of buffer. */
  lemma NameCut(shorter: seq<byte>, b: seq<byte>, c: nat)
    requires shorter <= b && NameAt(b, c).Ok?
    ensures NameAt(b, c).end <= NameReach(b, c) <= |b|
    ensures NameAt(shorter, c) ==
            if NameReach(b, c) <= |shorter| then NameAt(b, c) else Err(BUFFER_TOO_SMALL)
  {
    WalkCut(shorter, b, c, |b| + 1);
    BudgetSuffices(shorter, c, |b| + 1);
  }

  function QuestionsReach(b: seq<byte>, o: nat, n: nat): nat
    decreases n
  {
    if n == 0 || QuestionsAt(b, o, n).Err? then 0 else
      var start := QuestionsAt(b, o, n - 1).end;
      Max(QuestionsReach(b, o, n - 1), Max(NameReach(b, start), QuestionsAt(b, o, n).end))
  }

  function RecordsReach(b: seq<byte>, o: nat, n: nat): nat
    decreases n
  {
    if n == 0 || RecordsAt(b, o, n).Err? then 0 else
      var start := RecordsAt(b, o, n - 1).end;
      Max(RecordsReach(b, o, n - 1), Max(NameReach(b, start), RecordsAt(b, o, n).end))
  }

  /** One past the last byte that a successful parse looks at. */
  function MessageReach(b: seq<byte>): nat {
    if MessageAt(b).Err? then 0 else
      var h := HeaderAt(b, 0).value;
      var e1 := QuestionsAt(b, 12, h.qdcount).end;
      var e2 := RecordsAt(b, e1, h.ancount).end;
      SectionsReach(b, h, e1, e2, RecordsAt(b, e2, h.nscount).end)
  }

  function SectionsReach(b: seq<byte>, h: Header, e1: nat, e2: nat, e3: nat): nat {
    Max(Max(12, QuestionsReach(b, 12, h.qdcount)),
        Max(RecordsReach(b, e1, h.ancount), Max(RecordsReach(b, e2, h.nscount), RecordsReach(b, e3, h.arcount))))
  }

  // The cut result: unchanged from `reach` on, and out of bytes below.
  predicate CutAt<T(==)>(cut: Parsed<T>, whole: Parsed<T>, length: nat, reach: nat) {
    if reach <= length then cut == whole else !Settled(cut)
  }

  lemma QuestionCut(shorter: seq<byte>, b: seq<byte>, o: nat)
    requires shorter <= b && QuestionAt(b, o).Ok?
    ensures QuestionAt(b, o).end <= |b| && NameReach(b, o) <= |b|
    ensures CutAt(QuestionAt(shorter, o), QuestionAt(b, o), |shorter|, Max(NameReach(b, o), QuestionAt(b, o).end))
  {
    hide NameAt, NameReach;
    NameCut(shorter, b, o);
  }

  lemma RecordCut(shorter: seq<byte>, b: seq<byte>, o: nat)
    requires shorter <= b && RecordAt(b, o).Ok?
    ensures RecordAt(b, o).end <= |b| && NameReach(b, o) <= |b|
    ensures CutAt(RecordAt(shorter, o), RecordAt(b, o), |shorter|, Max(NameReach(b, o), RecordAt(b, o).end))
  {
    hide NameAt, NameReach;
    NameCut(shorter, b, o);
    var r := RecordAt(b, o);
    if r.end <= |shorter| { PrefixSlice(shorter, b, r.value.rdataOffset, r.end); }
  }

  lemma {:induction false} QuestionsCut(shorter: seq<byte>, b: seq<byte>, o: nat, n: nat)
    requires shorter <= b && QuestionsAt(b, o, n).Ok?
    ensures QuestionsReach(b, o, n) <= |b| && (n > 0 ==> QuestionsAt(b, o, n).end <= QuestionsReach(b, o, n))
    ensures CutAt(QuestionsAt(shorter, o, n), QuestionsAt(b, o, n), |shorter|, QuestionsReach(b, o, n))
    decreases n
  {
    hide QuestionAt, NameReach;
    if n > 0 {
      QuestionsCut(shorter, b, o, n - 1);
      QuestionCut(shorter, b, QuestionsAt(b, o, n - 1).end);
    }
  }

  lemma {:induction false} RecordsCut(shorter: seq<byte>, b: seq<byte>, o: nat, n: nat)
    requires shorter <= b && RecordsAt(b, o, n).Ok?
    ensures RecordsReach(b, o, n) <= |b| && (n > 0 ==> RecordsAt(b, o, n).end <= RecordsReach(b, o, n))
    ensures CutAt(RecordsAt(shorter, o, n), RecordsAt(b, o, n), |shorter|, RecordsReach(b, o, n))
    decreases n
  {
    hide RecordAt, NameReach;
    if n > 0 {
      RecordsCut(shorter, b, o, n - 1);
      RecordCut(shorter, b, RecordsAt(b, o, n - 1).end);
    }
  }

  lemma HeaderCut(shorter: seq<byte>, b: seq<byte>)
    requires shorter <= b
    ensures HeaderAt(b, 0).Ok? ==>
              && HeaderAt(b, 0).end == 12 <= |b|
              && CutAt(HeaderAt(shorter, 0), HeaderAt(b, 0), |shorter|, 12)
  {
  }

  lemma SectionsCut(shorter: seq<byte>, b: seq<byte>, m: Message, e1: nat, e2: nat, e3: nat, end: nat)
    requires shorter <= b && 12 <= |b|
    ensures SectionsRead(b, m, e1, e2, e3, end) ==>
              var h := m.header;
              var k := |shorter|;
              && CutAt(QuestionsAt(shorter, 12, h.qdcount), Ok(m.questions, e1), k, QuestionsReach(b, 12, h.qdcount))
              && CutAt(RecordsAt(shorter, e1, h.ancount), Ok(m.answers, e2), k, RecordsReach(b, e1, h.ancount))
              && CutAt(RecordsAt(shorter, e2, h.nscount), Ok(m.authorities, e3), k, RecordsReach(b, e2, h.nscount))
              && CutAt(RecordsAt(shorter, e3, h.arcount), Ok(m.additionals, end), k, RecordsReach(b, e3, h.arcount))
              && end <= SectionsReach(b, h, e1, e2, e3) <= |b|
  {
    EmptySections(b, 12, e1, e2, e3);
    hide HeaderAt, QuestionsAt, RecordsAt, QuestionsReach, RecordsReach, CutAt;
    if SectionsRead(b, m, e1, e2, e3, end) {
      QuestionsCut(shorter, b, 12, m.header.qdcount);
      RecordsCut(shorter, b, e1, m.header.ancount);
      RecordsCut(shorter, b, e2, m.header.nscount);
      RecordsCut(shorter, b, e3, m.header.arcount);
    }
  }

  /** The exact truncation threshold. A prefix as long as the reach parses to
      the identical message; every shorter one runs out of bytes. */
  lemma TruncationThreshold(b: seq<byte>, k: nat)
    requires k <= |b|
    ensures MessageAt(b).Ok? ==>
              && MessageAt(b).end <= MessageReach(b) <= |b|
              && CutAt(MessageAt(b[..k]), MessageAt(b), k, MessageReach(b))
  {
    HeaderCut(b[..k], b);
    hide HeaderAt, QuestionsAt, RecordsAt, QuestionsReach, RecordsReach;
    if MessageAt(b).Ok? {
      var e1, e2, e3 := DissectedMessage(b);
      SectionsCut(b[..k], b, MessageAt(b).value, e1, e2, e3, MessageAt(b).end);
    }
  }

  lemma EmptySections(b: seq<byte>, o1: nat, o2: nat, o3: nat, o4: nat)
    ensures QuestionsAt(b, o1, 0) == Ok([], o1)
    ensures RecordsAt(b, o2, 0) == Ok([], o2) && RecordsAt(b, o3, 0) == Ok([], o3) && RecordsAt(b, o4, 0) == Ok([], o4)
  {
  }

  /** The consumed length is the threshold exactly when no name reaches past it. */
  lemma ConsumedIsThreshold(b: seq<byte>)
    ensures MessageAt(b).Ok? ==>
              ((forall k :: MessageAt(b).end <= k <= |b| ==> MessageAt(b[..k]) == MessageAt(b))
               <==> MessageReach(b) == MessageAt(b).end)
  {
    hide MessageAt, MessageReach;
    if MessageAt(b).Ok? {
      TruncationThreshold(b, |b|);
      TruncationThreshold(b, MessageAt(b).end);
      forall k | MessageAt(b).end <= k <= |b| && MessageReach(b) == MessageAt(b).end
        ensures MessageAt(b[..k]) == MessageAt(b)
      {
        TruncationThreshold(b, k);
      }
    }
  }

  // A question whose qname points at offset 0. There the id octet 20 is read as
  // a label length, and the label covers the whole 18-octet message and more.
  const OVERREACHING: seq<byte> :=
    [20, 0, 0, 0, 0, 1, 0, 0, 0, 0, 0, 0, 0xC0, 0, 0, 1, 0, 1, 0, 0, 0, 0]

  /** A parse can depend on bytes behind the end of the message. */
  lemma ParseCanReachPastItsEnd()
    ensures MessageAt(OVERREACHING).Ok? && MessageAt(OVERREACHING).end == 18
    ensures MessageAt(OVERREACHING[..18]) == Err(BUFFER_TOO_SMALL)
  {
    var b, cut := OVERREACHING, OVERREACHING[..18];
    NameInOverreaching();
    hide NameAt, Walk;
    assert HeaderAt(b, 0).Ok? && HeaderAt(b, 0).end == 12;
    assert HeaderAt(b, 0).value.qdcount == 1 && HeaderAt(b, 0).value.ancount == 0;
    assert HeaderAt(b, 0).value.nscount == 0 && HeaderAt(b, 0).value.arcount == 0;
    HeaderCut(cut, b);
    hide HeaderAt, Look;
    assert QuestionAt(b, 12).Ok? && QuestionAt(b, 12).end == 18;
    hide QuestionAt;
    assert QuestionsAt(b, 12, 0) == Ok([], 12);
    assert QuestionsAt(b, 12, 1).end == 18;
    assert RecordsAt(b, 18, 0) == Ok([], 18);
    assert QuestionsAt(cut, 12, 0) == Ok([], 12);
    assert QuestionsAt(cut, 12, 1) == Err(BUFFER_TOO_SMALL);
  }

  lemma NameInOverreaching()
    ensures NameAt(OVERREACHING, 12).Ok? && NameAt(OVERREACHING, 12).end == 14
    ensures QuestionAt(OVERREACHING[..18], 12) == Err(BUFFER_TOO_SMALL)
  {
    var b, cut := OVERREACHING, OVERREACHING[..18];
    assert Look(b, 12) == Hop(0) && Look(b, 0) == Read(b[1..21], 21) && Look(b, 21) == Root;
    assert Walk(b, 21, 21).Ok?;
    assert Walk(b, 0, 22).Ok?;
    LookCut(cut, b, 12);
    LookCut(cut, b, 0);
    assert Walk(cut, 0, 18) == Err(BUFFER_TOO_SMALL);
  }
}
