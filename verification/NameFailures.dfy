/** When parseName fails, and how, told by the octets of the buffer alone. */
module NameFailures {
  import opened Packet
  import opened NameWalk
  import opened NameMeaning

  // ----- The walk by its octets -----

  /** Reading a name goes on from `o` to `next`: over a label of 1 to 63 octets,
      or back along a 14-bit pointer. */
  predicate MovesTo(b: seq<byte>, o: nat, next: nat) {
    || (o < |b| && 0 < b[o] < 0x40 && next == o + 1 + b[o] && next <= |b|)
    || (o + 2 <= |b| && b[o] >= 0xC0 && next == b[o] as int % 0x40 * 0x100 + b[o + 1] as int && next < o)
  }

  /** The offsets from `c` on, one move after the other. */
  predicate PathFrom(b: seq<byte>, c: nat, path: seq<nat>) {
    path != [] && path[0] == c && forall i :: 0 <= i < |path| - 1 ==> MovesTo(b, path[i], path[i + 1])
  }

  ghost predicate Visits(b: seq<byte>, c: nat, o: nat) {
    exists path: seq<nat> :: PathFrom(b, c, path) && Last(path) == o
  }

  ghost predicate ComesBack(b: seq<byte>, c: nat) {
    exists path: seq<nat> :: PathFrom(b, c, path) && Last(path) in Init(path)
  }

  // ----- What stops it -----

  // The buffer ends before `o`, inside the pointer there or inside the label there.
  predicate RunsOut(b: seq<byte>, o: nat) {
    || o >= |b|
    || (b[o] >= 0xC0 && o + 2 > |b|)
    || (0 < b[o] < 0x40 && o + 1 + b[o] > |b|)
  }

  // A pointer that does not lead back.
  predicate PointsForward(b: seq<byte>, o: nat) {
    o + 2 <= |b| && b[o] >= 0xC0 && b[o] as int % 0x40 * 0x100 + b[o + 1] as int >= o
  }

  // The two top bits are 01 or 10.
  predicate ReservedLength(b: seq<byte>, o: nat) {
    o < |b| && 0x40 <= b[o] < 0xC0
  }

  /** What it takes of the octets for the name at `c` to be refused with `s`. */
  ghost predicate NameFails(b: seq<byte>, c: nat, s: Status) {
    match s
    case BUFFER_TOO_SMALL => exists o: nat :: Visits(b, c, o) && RunsOut(b, o)
    case MALFORMED_NAME => exists o: nat :: Visits(b, c, o) && ReservedLength(b, o)
    case COMPRESSION_FORWARD_POINTER => exists o: nat :: Visits(b, c, o) && PointsForward(b, o)
    case COMPRESSION_LOOP => ComesBack(b, c)
    case _ => false
  }

  // ----- The octets behind each look -----

  lemma MoveByOctets(b: seq<byte>, o: nat, next: nat)
    ensures CursorAfter(b, o, 1) == At(next) <==> MovesTo(b, o, next)
  {
  }

  lemma StopByOctets(b: seq<byte>, o: nat)
    ensures Look(b, o) == Halt(BUFFER_TOO_SMALL) <==> RunsOut(b, o)
    ensures Look(b, o) == Halt(MALFORMED_NAME) <==> ReservedLength(b, o)
    ensures Look(b, o) == Halt(COMPRESSION_FORWARD_POINTER) <==> PointsForward(b, o)
  {
  }

  /** A path goes where the walk goes. */
  lemma {:induction false} PathIsWalk(b: seq<byte>, c: nat, path: seq<nat>, n: nat)
    requires PathFrom(b, c, path) && n < |path|
    ensures CursorAfter(b, c, n) == At(path[n])
    decreases n
  {
    hide Look, CursorAfter, MovesTo;
    if n == 0 {
      NoMoves(b, c);
    } else {
      PathIsWalk(b, c, path, n - 1);
      MovesCompose(b, c, n - 1, 1);
      MoveByOctets(b, path[n - 1], path[n]);
    }
  }

  lemma NoMoves(b: seq<byte>, c: nat)
    ensures CursorAfter(b, c, 0) == At(c)
  {
  }

  lemma TrailIsPath(b: seq<byte>, c: nat, n: nat) returns (path: seq<nat>)
    requires CursorAfter(b, c, n).At?
    ensures PathFrom(b, c, path) && |path| == n + 1
    ensures forall i: nat :: i <= n ==> CursorAfter(b, c, i) == At(path[i])
  {
    forall i: nat | i <= n ensures CursorAfter(b, c, i).At? { EarlierMoves(b, c, i, n); }
    path := Trail(b, c, n + 1);
    NoMoves(b, c);
    hide Look, CursorAfter, MovesTo;
    forall i | 0 <= i < n ensures MovesTo(b, path[i], path[i + 1]) {
      MovesCompose(b, c, i, 1);
      MoveByOctets(b, path[i], path[i + 1]);
    }
  }

  lemma VisitsAreMoves(b: seq<byte>, c: nat, o: nat)
    ensures Visits(b, c, o) <==> exists n: nat :: CursorAfter(b, c, n) == At(o)
  {
    hide Look, CursorAfter, MovesTo;
    if path: seq<nat> :| PathFrom(b, c, path) && Last(path) == o {
      PathIsWalk(b, c, path, |path| - 1);
    }
    if n: nat :| CursorAfter(b, c, n) == At(o) {
      var path := TrailIsPath(b, c, n);
    }
  }

  lemma ComingBackIsRevisiting(b: seq<byte>, c: nat)
    ensures ComesBack(b, c) <==> Revisits(b, c)
  {
    hide Look, CursorAfter, MovesTo;
    if path: seq<nat> :| PathFrom(b, c, path) && Last(path) in Init(path) {
      var i :| 0 <= i < |path| - 1 && path[i] == Last(path);
      PathIsWalk(b, c, path, i);
      PathIsWalk(b, c, path, |path| - 1);
    }
    if i: nat, j: nat :| i < j && CursorAfter(b, c, i).At? && CursorAfter(b, c, i) == CursorAfter(b, c, j) {
      var path := TrailIsPath(b, c, j);
      assert Init(path)[i] == Last(path);
    }
  }

  lemma StopIsVisited(b: seq<byte>, c: nat, s: Status)
    ensures StopsWith(b, c, s) <==> exists o: nat :: Visits(b, c, o) && Look(b, o) == Halt(s)
  {
    hide Look, CursorAfter, Visits;
    if StopsWith(b, c, s) {
      var n: nat :| CursorAfter(b, c, n).At? && Look(b, CursorAfter(b, c, n).offset) == Halt(s);
      var o := CursorAfter(b, c, n).offset;
      assert CursorAfter(b, c, n) == At(o);
      VisitsAreMoves(b, c, o);
      assert Visits(b, c, o);
    }
    if o: nat :| Visits(b, c, o) && Look(b, o) == Halt(s) {
      VisitsAreMoves(b, c, o);
      var n: nat :| CursorAfter(b, c, n) == At(o);
      assert CursorAfter(b, c, n).At?;
    }
  }

  // ----- The result -----

  /** parseName is refused with a status exactly when the octets say so. */
  lemma NameFailsIff(b: seq<byte>, c: nat, s: Status)
    ensures NameAt(b, c) == Err(s) <==> NameFails(b, c, s)
  {
    hide Look, NameAt, Visits, RunsOut, ReservedLength, PointsForward, ComesBack, Revisits, StopsWith;
    if s == COMPRESSION_LOOP {
      BudgetIsExact(b, c);
      ComingBackIsRevisiting(b, c);
    } else {
      NameAtReportsTheStop(b, c, s);
      StopIsVisited(b, c, s);
      forall o: nat { StopByOctets(b, o); }
    }
  }
}
