/** What section 4.1.4 of RFC 1035 means by a name at an offset, as an inductive
    relation, and the proof that parseName decides it. */
module NameMeaning {
  import opened Packet
  import opened Encoding
  import opened NameWalk

  // The zero octet that ends a name.
  predicate RootStands(b: seq<byte>, c: nat) {
    c < |b| && b[c] == 0
  }

  // A length octet of 1 to 63 and as many octets of text.
  predicate LabelStands(b: seq<byte>, c: nat, l: Label) {
    1 <= |l| <= 63 && c + 1 + |l| <= |b| && b[c] == |l| && b[c + 1..c + 1 + |l|] == l
  }

  // Two set bits and a 14-bit offset, which lies before the pointer.
  predicate PointerStands(b: seq<byte>, c: nat, target: nat) {
    target < c && c + 2 <= |b| && b[c] == 0xC0 + target / 0x100 && b[c + 1] == target % 0x100
  }

  /** `labels` stands at `c` in `b`, its in-place encoding ending before `end`:
      a zero octet, or a label and then the rest, or a pointer to an earlier
      offset at which `labels` stands. */
  least predicate NameEncoded[nat](b: seq<byte>, c: nat, labels: seq<Label>, end: nat) {
    || (labels == [] && RootStands(b, c) && end == c + 1)
    || (&& labels != [] && LabelStands(b, c, labels[0])
        && NameEncoded(b, c + 1 + |labels[0]|, labels[1..], end))
    || (&& end == c + 2
        && exists target: nat, targetEnd: nat ::
             PointerStands(b, c, target) && NameEncoded(b, target, labels, targetEnd))
  }

  // ----- The octets behind each look -----

  lemma RootIsSeen(b: seq<byte>, c: nat)
    ensures Look(b, c) == Root <==> RootStands(b, c)
  {
  }

  lemma LabelIsSeen(b: seq<byte>, c: nat, l: Label)
    ensures Look(b, c) == Read(l, c + 1 + |l|) <==> LabelStands(b, c, l)
  {
  }

  lemma PointerIsSeen(b: seq<byte>, c: nat, target: nat)
    ensures Look(b, c) == Hop(target) <==> PointerStands(b, c, target)
  {
  }

  // What the builder writes is seen as what it is.

  lemma RootBytes(b: seq<byte>, c: nat)
    ensures Look(b, c) == Root <==> Holds(b, c, [0])
  {
    if c < |b| { assert b[c..c + 1] == [b[c]]; }
  }

  lemma LabelIsRead(b: seq<byte>, c: nat, l: Label)
    requires 1 <= |l| <= MAX_LABEL
    ensures Look(b, c) == Read(l, c + 1 + |l|) <==> Holds(b, c, LabelBytes(l))
  {
    if c + 1 + |l| <= |b| {
      assert b[c..c + 1 + |l|] == [b[c]] + b[c + 1..c + 1 + |l|];
      if Holds(b, c, LabelBytes(l)) {
        assert b[c] == LabelBytes(l)[0];
        assert b[c + 1..c + 1 + |l|] == LabelBytes(l)[1..] == l;
      }
    }
  }

  // ----- Sound and complete -----

  lemma {:induction false} WalkIsSound(b: seq<byte>, c: nat, budget: nat)
    requires Walk(b, c, budget).Ok?
    ensures NameEncoded(b, c, Walk(b, c, budget).value, Walk(b, c, budget).end)
    decreases budget
  {
    var r := Walk(b, c, budget);
    match Look(b, c)
    case Root =>
      RootIsSeen(b, c);
    case Hop(target) =>
      PointerIsSeen(b, c, target);
      WalkIsSound(b, target, budget - 1);
    case Read(text, next) =>
      LabelIsSeen(b, c, text);
      WalkIsSound(b, next, budget - 1);
      assert r.value[1..] == Walk(b, next, budget - 1).value;
  }

  /** A derivation of height k is found within k looks. */
  lemma {:induction false} WalkIsComplete(b: seq<byte>, c: nat, labels: seq<Label>, end: nat, k: nat)
    requires NameEncoded#[k](b, c, labels, end)
    ensures Walk(b, c, k) == Ok(labels, end)
    decreases k
  {
    if labels == [] && RootStands(b, c) && end == c + 1 {
      RootIsSeen(b, c);
    } else if && labels != [] && LabelStands(b, c, labels[0])
              && NameEncoded#[k - 1](b, c + 1 + |labels[0]|, labels[1..], end) {
      LabelIsSeen(b, c, labels[0]);
      WalkIsComplete(b, c + 1 + |labels[0]|, labels[1..], end, k - 1);
      assert labels == [labels[0]] + labels[1..];
    } else {
      var target: nat, targetEnd: nat :|
        PointerStands(b, c, target) && NameEncoded#[k - 1](b, target, labels, targetEnd);
      PointerIsSeen(b, c, target);
      WalkIsComplete(b, target, labels, targetEnd, k - 1);
    }
  }

  /** parseName is OK with `labels`, ending at `end`, exactly when they are encoded there. */
  lemma NameAtDecidesMeaning(b: seq<byte>, c: nat, labels: seq<Label>, end: nat)
    ensures NameAt(b, c) == Ok(labels, end) <==> NameEncoded(b, c, labels, end)
  {
    if NameAt(b, c) == Ok(labels, end) { WalkIsSound(b, c, |b| + 1); }
    if NameEncoded(b, c, labels, end) {
      var k: nat :| NameEncoded#[k](b, c, labels, end);
      WalkIsComplete(b, c, labels, end, k);
      BudgetSuffices(b, c, k);
    }
  }

  /** At most one name, with one end, is encoded at an offset. */
  lemma NameIsUnique(b: seq<byte>, c: nat, labels: seq<Label>, end: nat, labels': seq<Label>, end': nat)
    requires NameEncoded(b, c, labels, end) && NameEncoded(b, c, labels', end')
    ensures labels == labels' && end == end'
  {
    NameAtDecidesMeaning(b, c, labels, end);
    NameAtDecidesMeaning(b, c, labels', end');
  }

  lemma {:induction false} WalkStops(b: seq<byte>, c: nat, n: nat, budget: nat)
    requires CursorAfter(b, c, n).At? && n < budget
    requires Look(b, CursorAfter(b, c, n).offset).Halt?
    ensures Walk(b, c, budget) == Err(Look(b, CursorAfter(b, c, n).offset).status)
    decreases n
  {
    if n > 0 {
      match Look(b, c)
      case Hop(target) => WalkStops(b, target, n - 1, budget - 1);
      case Read(_, next) => WalkStops(b, next, n - 1, budget - 1);
    }
  }

  lemma {:induction false} WhereWalkStops(b: seq<byte>, c: nat, budget: nat) returns (n: nat)
    requires Walk(b, c, budget).Err? && !Cut(Walk(b, c, budget))
    ensures CursorAfter(b, c, n).At? && Look(b, CursorAfter(b, c, n).offset) == Halt(Walk(b, c, budget).status)
    decreases budget
  {
    match Look(b, c)
    case Halt(_) => n := 0;
    case Hop(target) => n := WhereWalkStops(b, target, budget - 1); n := n + 1;
    case Read(_, next) => n := WhereWalkStops(b, next, budget - 1); n := n + 1;
  }

  ghost predicate StopsWith(b: seq<byte>, c: nat, s: Status) {
    exists n: nat :: CursorAfter(b, c, n).At? && Look(b, CursorAfter(b, c, n).offset) == Halt(s)
  }

  /** Every other status is the one the unbounded walk stops with, and no other
      status than these four is returned. */
  lemma NameAtReportsTheStop(b: seq<byte>, c: nat, s: Status)
    requires s != COMPRESSION_LOOP
    ensures NameAt(b, c) == Err(s) <==> StopsWith(b, c, s)
    ensures NameAt(b, c) == Err(s) ==> s in {BUFFER_TOO_SMALL, MALFORMED_NAME, COMPRESSION_FORWARD_POINTER}
  {
    if NameAt(b, c) == Err(s) {
      var n := WhereWalkStops(b, c, |b| + 1);
    }
    if StopsWith(b, c, s) {
      var n: nat :| CursorAfter(b, c, n).At? && Look(b, CursorAfter(b, c, n).offset) == Halt(s);
      WalkStops(b, c, n, n + 1);
      BudgetSuffices(b, c, n + 1);
    }
  }
}
