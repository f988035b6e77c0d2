/** The cursor walk of Parser::parseName and the proof that its step budget is
    exact: the walk is cut off if and only if it would never end. */
module NameWalk {
  import opened Packet

  /** What one look at the byte under the cursor decides. */
  datatype Move =
    | Halt(status: Status)
    | Root
    | Hop(target: nat)
    | Read(text: Label, next: nat)

  function Look(b: seq<byte>, c: nat): Move {
    if c >= |b| then Halt(BUFFER_TOO_SMALL)
    else if b[c] >= 0xC0 then
      if c + 2 > |b| then Halt(BUFFER_TOO_SMALL)
      else
        var high: nat := b[c] % 0x40;
        var target := high * 0x100 + b[c + 1];
        if target >= c then Halt(COMPRESSION_FORWARD_POINTER) else Hop(target)
    else if b[c] == 0 then Root
    else if b[c] >= 0x40 then Halt(MALFORMED_NAME)
    else if c + 1 + b[c] > |b| then Halt(BUFFER_TOO_SMALL)
    else Read(b[c + 1..c + 1 + b[c]], c + 1 + b[c])
  }

  /** The name read from `c` with at most `budget` looks. A pointer contributes
      its target's labels but ends right behind itself. */
  function Walk(b: seq<byte>, c: nat, budget: nat): Parsed<seq<Label>>
    decreases budget
  {
    if budget == 0 then Err(COMPRESSION_LOOP)
    else match Look(b, c)
      case Halt(s) => Err(s)
      case Root => Ok([], c + 1)
      case Hop(target) =>
        (match Walk(b, target, budget - 1)
         case Err(s) => Err(s)
         case Ok(labels, _) => Ok(labels, c + 2))
      case Read(text, next) =>
        match Walk(b, next, budget - 1)
        case Err(s) => Err(s)
        case Ok(labels, end) => Ok([text] + labels, end)
  }

  function NameAt(b: seq<byte>, offset: nat): Parsed<seq<Label>> {
    Walk(b, offset, |b| + 1)
  }

  // ----- The unbounded walk -----

  datatype Cursor = At(offset: nat) | Ended

  /** The cursor after `n` moves of the walk without any budget. */
  function CursorAfter(b: seq<byte>, c: nat, n: nat): Cursor
    decreases n
  {
    if n == 0 then At(c) else
      match Look(b, c)
      case Hop(target) => CursorAfter(b, target, n - 1)
      case Read(_, next) => CursorAfter(b, next, n - 1)
      case _ => Ended
  }

  ghost predicate NeverEnds(b: seq<byte>, c: nat) {
    forall n: nat :: CursorAfter(b, c, n).At?
  }

  ghost predicate Revisits(b: seq<byte>, c: nat) {
    exists i: nat, j: nat :: i < j && CursorAfter(b, c, i).At? && CursorAfter(b, c, i) == CursorAfter(b, c, j)
  }

  predicate Cut(r: Parsed<seq<Label>>) {
    r == Err(COMPRESSION_LOOP)
  }

  /** A budget of k runs out exactly when the walk makes k moves. */
  lemma {:induction false} CutMeansMoves(b: seq<byte>, c: nat, k: nat)
    ensures Cut(Walk(b, c, k)) <==> CursorAfter(b, c, k).At?
    decreases k
  {
    if k > 0 {
      match Look(b, c)
      case Hop(target) => CutMeansMoves(b, target, k - 1);
      case Read(_, next) => CutMeansMoves(b, next, k - 1);
      case _ =>
    }
  }

  /** Once a walk finishes within a budget, a larger one changes nothing. */
  lemma {:induction false} LargerBudget(b: seq<byte>, c: nat, k: nat, more: nat)
    requires k <= more && !Cut(Walk(b, c, k))
    ensures Walk(b, c, more) == Walk(b, c, k)
    decreases k
  {
    match Look(b, c)
    case Hop(target) => LargerBudget(b, target, k - 1, more - 1);
    case Read(_, next) => LargerBudget(b, next, k - 1, more - 1);
    case _ =>
  }

  lemma {:induction false} MovesCompose(b: seq<byte>, c: nat, m: nat, n: nat)
    requires CursorAfter(b, c, m).At?
    ensures CursorAfter(b, c, m + n) == CursorAfter(b, CursorAfter(b, c, m).offset, n)
    decreases m
  {
    if m > 0 {
      match Look(b, c)
      case Hop(target) => MovesCompose(b, target, m - 1, n);
      case Read(_, next) => MovesCompose(b, next, m - 1, n);
    }
  }

  lemma {:induction false} EarlierMoves(b: seq<byte>, c: nat, m: nat, n: nat)
    requires m <= n && CursorAfter(b, c, n).At?
    ensures CursorAfter(b, c, m).At?
    decreases m
  {
    if m > 0 {
      match Look(b, c)
      case Hop(target) => EarlierMoves(b, target, m - 1, n - 1);
      case Read(_, next) => EarlierMoves(b, next, m - 1, n - 1);
    }
  }

  /** A cursor that comes back to where it was after p moves keeps moving. */
  lemma {:induction false} CycleMovesOn(b: seq<byte>, c: nat, p: nat, n: nat)
    requires p > 0 && CursorAfter(b, c, p) == At(c)
    ensures CursorAfter(b, c, n).At?
    decreases n
  {
    if n <= p {
      EarlierMoves(b, c, n, p);
    } else {
      MovesCompose(b, c, p, n - p);
      CycleMovesOn(b, c, p, n - p);
    }
  }

  lemma RevisitNeverEnds(b: seq<byte>, c: nat)
    requires Revisits(b, c)
    ensures NeverEnds(b, c)
  {
    var i: nat, j: nat :| i < j && CursorAfter(b, c, i).At? && CursorAfter(b, c, i) == CursorAfter(b, c, j);
    MovesCompose(b, c, i, j - i);
    forall n: nat ensures CursorAfter(b, c, n).At? {
      if n <= i {
        EarlierMoves(b, c, n, i);
      } else {
        MovesCompose(b, c, i, n - i);
        CycleMovesOn(b, CursorAfter(b, c, i).offset, j - i, n - i);
      }
    }
  }

  lemma {:induction false} Pigeonhole(s: seq<nat>, n: nat)
    requires forall i :: 0 <= i < |s| ==> s[i] < n
    requires forall i, j :: 0 <= i < j < |s| ==> s[i] != s[j]
    ensures |s| <= n
    decreases n
  {
    if s != [] {
      var last := |s| - 1;
      // Renaming the hole n - 1 to the last pigeon's frees the last pigeon.
      var rest := seq(last, i requires 0 <= i < last => if s[i] == n - 1 then s[last] else s[i]);
      assert forall i :: 0 <= i < last ==> rest[i] == (if s[i] == n - 1 then s[last] else s[i]);
      Pigeonhole(rest, n - 1);
    }
  }

  // The offsets under the cursor before each of the first n moves.
  ghost function Trail(b: seq<byte>, c: nat, n: nat): (t: seq<nat>)
    requires forall i: nat :: i < n ==> CursorAfter(b, c, i).At?
    ensures |t| == n && forall i: nat :: i < n ==> At(t[i]) == CursorAfter(b, c, i)
  {
    seq(n, i requires 0 <= i < n => CursorAfter(b, c, i).offset)
  }

  /** The pigeonhole argument. Every move starts inside the buffer, so a walk
      that never comes back to an offset makes at most |b| moves, and fewer if
      it comes to rest inside the buffer. */
  lemma MovesAreBounded(b: seq<byte>, c: nat, n: nat)
    requires CursorAfter(b, c, n).At? && !Revisits(b, c)
    ensures n <= |b|
    ensures CursorAfter(b, c, n).offset < |b| ==> n < |b|
  {
    forall i: nat | i <= n ensures CursorAfter(b, c, i).At? { EarlierMoves(b, c, i, n); }
    forall i: nat | i < n ensures CursorAfter(b, c, i).offset < |b| { MovesCompose(b, c, i, 1); }
    var looked := if CursorAfter(b, c, n).offset < |b| then n + 1 else n;
    Pigeonhole(Trail(b, c, looked), |b|);
  }

  /** Whatever budget lets the walk finish, the budget |b| + 1 does, with the same result. */
  lemma BudgetSuffices(b: seq<byte>, c: nat, k: nat)
    requires !Cut(Walk(b, c, k))
    ensures NameAt(b, c) == Walk(b, c, k)
  {
    CutMeansMoves(b, c, k);
    CutMeansMoves(b, c, |b| + 1);
    if Revisits(b, c) { RevisitNeverEnds(b, c); }
    if CursorAfter(b, c, |b| + 1).At? { MovesAreBounded(b, c, |b| + 1); }
    if k <= |b| + 1 { LargerBudget(b, c, k, |b| + 1); } else { LargerBudget(b, c, |b| + 1, k); }
  }

  /** The budget of |b| + 1 looks is exact: COMPRESSION_LOOP is returned if and
      only if the unbounded walk never ends, which is if and only if it comes
      back to an offset it has already looked at. */
  lemma BudgetIsExact(b: seq<byte>, c: nat)
    ensures Cut(NameAt(b, c)) <==> NeverEnds(b, c)
    ensures Cut(NameAt(b, c)) <==> Revisits(b, c)
  {
    CutMeansMoves(b, c, |b| + 1);
    if Cut(NameAt(b, c)) && !Revisits(b, c) { MovesAreBounded(b, c, |b| + 1); }
    if Revisits(b, c) { RevisitNeverEnds(b, c); }
  }

  /** Strictly backward pointers do not exclude loops: the label "a" followed by
      a pointer back to it passes every other check and is caught by the budget. */
  lemma BackwardPointersCanLoop()
    ensures var b := [1, 97, 0xC0, 0];
            Look(b, 2) == Hop(0) && Revisits(b, 0) && Cut(NameAt(b, 0))
  {
    var b := [1, 97, 0xC0, 0];
    assert Look(b, 0) == Read([97], 2);
    assert CursorAfter(b, 0, 2) == CursorAfter(b, 2, 1) == CursorAfter(b, 0, 0);
    BudgetIsExact(b, 0);
  }

  /** How a name that was read came about: the walk rested on its root, inside
      the buffer, after at least one move for each label. */
  lemma {:induction false} RestsOnRoot(b: seq<byte>, c: nat, k: nat) returns (moves: nat)
    requires Walk(b, c, k).Ok?
    ensures CursorAfter(b, c, moves).At? && CursorAfter(b, c, moves).offset < |b|
    ensures |Walk(b, c, k).value| <= moves && moves < k
    ensures var r := Walk(b, c, k);
            c < r.end <= |b| && forall i :: 0 <= i < |r.value| ==> 1 <= |r.value[i]| <= 63
    ensures CursorAfter(b, c, moves + 1) == Ended
    decreases k
  {
    match Look(b, c)
    case Hop(target) => moves := RestsOnRoot(b, target, k - 1); moves := moves + 1;
    case Read(_, next) => moves := RestsOnRoot(b, next, k - 1); moves := moves + 1;
    case Root => moves := 0;
  }

  /** Where the encoding of a name ends in place, without following any pointer:
      behind its zero octet or behind its first pointer. */
  function InPlaceEnd(b: seq<byte>, c: nat): nat
    decreases |b| - c
  {
    match Look(b, c)
    case Root => c + 1
    case Hop(_) => c + 2
    case Read(_, next) => InPlaceEnd(b, next)
    case Halt(_) => c
  }

  lemma {:induction false} WalkEndsInPlace(b: seq<byte>, c: nat, k: nat)
    requires Walk(b, c, k).Ok?
    ensures Walk(b, c, k).end == InPlaceEnd(b, c)
    decreases k
  {
    match Look(b, c)
    case Hop(_) =>
    case Read(_, next) => WalkEndsInPlace(b, next, k - 1);
    case Root =>
  }

  /** A name that was read has fewer labels than the buffer has bytes, each of 1
      to 63 bytes; the offset moves forward to just past the in-place encoding
      and stays inside the buffer. */
  lemma NameShape(b: seq<byte>, c: nat)
    requires NameAt(b, c).Ok?
    ensures var r := NameAt(b, c);
            && c < r.end <= |b| && r.end == InPlaceEnd(b, c) && |r.value| < |b|
            && (forall i :: 0 <= i < |r.value| ==> 1 <= |r.value[i]| <= 63)
  {
    var moves := RestsOnRoot(b, c, |b| + 1);
    WalkEndsInPlace(b, c, |b| + 1);
    hide Walk, CursorAfter;
    if Revisits(b, c) { RevisitNeverEnds(b, c); }
    MovesAreBounded(b, c, moves);
  }
}
