/** ZoneStore::canonicalize, and what equality of canonical keys means. */
module CanonicalName {
  import opened Packet

  type Key = seq<byte>

  // What canonicalize puts between two labels.
  const DOT: byte := 46

  // ASCII lower-casing of one octet.
  function LowerByte(c: byte): byte {
    if 65 <= c <= 90 then c + 32 else c
  }

  function Lower(l: Label): (r: Label)
    ensures |r| == |l| && forall i :: 0 <= i < |l| ==> r[i] == LowerByte(l[i])
  {
    seq(|l|, i requires 0 <= i < |l| => LowerByte(l[i]))
  }

  function KeyOf(labels: seq<Label>): Key {
    if labels == [] then []
    else if |labels| == 1 then Lower(labels[0])
    else KeyOf(Init(labels)) + [DOT] + Lower(Last(labels))
  }

  method Canonicalize(name: Name) returns (key: Key)
    ensures key == KeyOf(name.labels)
  {
    key := [];
    var labels := name.labels;
    for i := 0 to |labels|
      invariant key == KeyOf(labels[..i])
    {
      if i > 0 { key := key + [DOT]; }
      ghost var before := key;
      var text := labels[i];
      for j := 0 to |text|
        invariant key == before + Lower(text)[..j]
      {
        key := key + [LowerByte(text[j])];
      }
      assert Lower(text)[..|text|] == Lower(text);
      assert Init(labels[..i + 1]) == labels[..i] && Last(labels[..i + 1]) == text;
    }
    assert labels[..|labels|] == labels;
  }

  // ----- What equal keys mean -----

  /** The same octet, or one ASCII letter in its two cases. */
  predicate SameLetter(x: byte, y: byte) {
    x == y || (65 <= x <= 90 && y == x + 32) || (65 <= y <= 90 && x == y + 32)
  }

  predicate SameLabel(l: Label, m: Label) {
    |l| == |m| && forall i :: 0 <= i < |l| ==> SameLetter(l[i], m[i])
  }

  /** Equality of names in the sense of section 2.3.3 of RFC 1035: label by label, ignoring ASCII case. */
  predicate SameName(a: seq<Label>, b: seq<Label>) {
    |a| == |b| && forall i :: 0 <= i < |a| ==> SameLabel(a[i], b[i])
  }

  lemma LowerIsCaseFolding(l: Label, m: Label)
    ensures Lower(l) == Lower(m) <==> SameLabel(l, m)
  {
    if |l| == |m| {
      assert forall i :: 0 <= i < |l| ==> (Lower(l)[i] == Lower(m)[i] <==> SameLetter(l[i], m[i]));
    }
  }

  // Octet 46 is the dot.
  predicate DotFree(labels: seq<Label>) {
    forall i :: 0 <= i < |labels| ==> 46 !in labels[i]
  }

  lemma LowerKeepsDots(l: Label)
    ensures 46 in Lower(l) <==> 46 in l
  {
    if 46 in l {
      var i :| 0 <= i < |l| && l[i] == 46;
      assert Lower(l)[i] == 46;
    }
    if 46 in Lower(l) {
      var i :| 0 <= i < |l| && Lower(l)[i] == 46;
      assert l[i] == 46;
    }
  }

  lemma {:induction false} SameNameSameKey(a: seq<Label>, b: seq<Label>)
    requires SameName(a, b)
    ensures KeyOf(a) == KeyOf(b)
    decreases |a|
  {
    if a != [] { LowerIsCaseFolding(Last(a), Last(b)); }
    if |a| > 1 { SameNameSameKey(Init(a), Init(b)); }
  }

  /** The text behind the last separator of a key is unique. */
  lemma LastSeparator(x: Key, s: Label, y: Key, t: Label)
    requires x + [46] + s == y + [46] + t && 46 !in s && 46 !in t
    ensures x == y && s == t
  {
    var k := x + [46] + s;
    assert k[|x|] == 46 && k[|y|] == 46;
    assert forall i :: |x| < i < |k| ==> k[i] == s[i - |x| - 1];
    assert forall i :: |y| < i < |k| ==> k[i] == t[i - |y| - 1];
    assert |x| == |y|;
    assert x == k[..|x|] && y == k[..|y|];
    assert s == k[|x| + 1..] && t == k[|y| + 1..];
  }

  lemma DotsSeparate(a: seq<Label>)
    requires DotFree(a)
    ensures 46 in KeyOf(a) <==> |a| > 1
  {
    if |a| == 1 { LowerKeepsDots(a[0]); }
  }

  /** With at least one label each and no dot inside a label, equal keys mean equal names. */
  lemma {:induction false} SameKeySameName(a: seq<Label>, b: seq<Label>)
    requires DotFree(a) && DotFree(b) && a != [] && b != []
    requires KeyOf(a) == KeyOf(b)
    ensures SameName(a, b)
    decreases |a|
  {
    DotsSeparate(a);
    DotsSeparate(b);
    LowerIsCaseFolding(Last(a), Last(b));
    if |a| > 1 {
      LowerKeepsDots(Last(a));
      LowerKeepsDots(Last(b));
      LastSeparator(KeyOf(Init(a)), Lower(Last(a)), KeyOf(Init(b)), Lower(Last(b)));
      SameKeySameName(Init(a), Init(b));
      forall i | 0 <= i < |a| ensures SameLabel(a[i], b[i]) {
        if i < |a| - 1 { assert a[i] == Init(a)[i] && b[i] == Init(b)[i]; }
      }
    }
  }

  // ----- What a key reads as -----

  /** The pieces of a label between its dots. */
  function Split(l: Label): (pieces: seq<Label>)
    ensures pieces != [] && DotFree(pieces)
  {
    if l == [] then [[]]
    else
      var before := Split(Init(l));
      if Last(l) == 46 then before + [[]]
      else Init(before) + [Last(before) + [Last(l)]]
  }

  /** The name that a key reads as: every label taken apart at its dots, the root
      as one empty piece. */
  function Pieces(labels: seq<Label>): (pieces: seq<Label>)
    ensures pieces != [] && DotFree(pieces)
  {
    if labels == [] then [[]]
    else if |labels| == 1 then Split(labels[0])
    else Pieces(Init(labels)) + Split(Last(labels))
  }

  lemma {:induction false} KeyOfConcat(a: seq<Label>, b: seq<Label>)
    requires a != [] && b != []
    ensures KeyOf(a + b) == KeyOf(a) + [46] + KeyOf(b)
    decreases |b|
  {
    assert Init(a + b) == a + Init(b) && Last(a + b) == Last(b);
    if |b| > 1 {
      KeyOfConcat(a, Init(b));
    } else {
      assert a + Init(b) == a;
    }
  }

  /** What a key is, octet by octet: the root's is empty, a single label's is its
      text in lower case, and longer names have the keys of their parts joined by
      one dot. */
  lemma KeyIsJoined(l: Label, a: seq<Label>, b: seq<Label>)
    ensures KeyOf([]) == [] && |KeyOf([l])| == |l|
    ensures forall i :: 0 <= i < |l| ==> KeyOf([l])[i] == if 65 <= l[i] <= 90 then l[i] + 32 else l[i]
    ensures a != [] && b != [] ==> KeyOf(a + b) == KeyOf(a) + [46] + KeyOf(b)
  {
    if a != [] && b != [] { KeyOfConcat(a, b); }
  }

  lemma LowerConcat(l: Label, c: byte)
    ensures Lower(l + [c]) == Lower(l) + [LowerByte(c)]
  {
  }

  lemma KeyOfLonger(a: seq<Label>, c: byte)
    requires a != []
    ensures KeyOf(Init(a) + [Last(a) + [c]]) == KeyOf(a) + [LowerByte(c)]
  {
    var longer := Init(a) + [Last(a) + [c]];
    LowerConcat(Last(a), c);
    assert Init(longer) == Init(a) && Last(longer) == Last(a) + [c];
    hide Lower;
    if |a| > 1 {
      assert KeyOf(longer) == KeyOf(Init(a)) + [46] + (Lower(Last(a)) + [LowerByte(c)]);
    }
  }

  lemma {:induction false} KeyOfSplit(l: Label)
    ensures KeyOf(Split(l)) == Lower(l)
    decreases |l|
  {
    if l != [] {
      var before, c := Split(Init(l)), Last(l);
      assert l == Init(l) + [c];
      LowerConcat(Init(l), c);
      KeyOfSplit(Init(l));
      assert KeyOf([[]]) == [];
      hide KeyOf, Lower, DotFree;
      if c == 46 {
        KeyOfConcat(before, [[]]);
        assert KeyOf(before) + [46] + [] == KeyOf(before) + [LowerByte(46)];
      } else {
        KeyOfLonger(before, c);
      }
    }
  }

  lemma {:induction false} KeyOfPieces(labels: seq<Label>)
    ensures KeyOf(Pieces(labels)) == KeyOf(labels)
    decreases |labels|
  {
    if labels != [] { KeyOfSplit(Last(labels)); }
    if |labels| > 1 {
      KeyOfPieces(Init(labels));
      KeyOfConcat(Pieces(Init(labels)), Split(Last(labels)));
    }
  }

  /** What equal keys mean, for all names: that they read as the same name, in
      the sense of section 2.3.3 of RFC 1035, once every label is taken apart at
      the dots inside it. */
  lemma KeysReadAlike(a: seq<Label>, b: seq<Label>)
    ensures KeyOf(a) == KeyOf(b) <==> SameName(Pieces(a), Pieces(b))
  {
    KeyOfPieces(a);
    KeyOfPieces(b);
    if KeyOf(a) == KeyOf(b) { SameKeySameName(Pieces(a), Pieces(b)); }
    if SameName(Pieces(a), Pieces(b)) { SameNameSameKey(Pieces(a), Pieces(b)); }
  }

  lemma {:induction false} DotFreePieces(labels: seq<Label>)
    requires DotFree(labels)
    ensures Pieces(labels) == if labels == [] then [[]] else labels
    decreases |labels|
  {
    if labels != [] { DotFreeSplit(Last(labels)); }
    if |labels| > 1 {
      DotFreePieces(Init(labels));
      assert labels == Init(labels) + [Last(labels)];
    }
  }

  lemma {:induction false} DotFreeSplit(l: Label)
    requires 46 !in l
    ensures Split(l) == [l]
    decreases |l|
  {
    if l != [] {
      var before, c := Init(l), Last(l);
      assert l == before + [c];
      assert 46 !in before && c != 46;
      DotFreeSplit(before);
      assert Init([before]) == [] && Last([before]) == before;
    }
  }

  /** One of the two is the root and the other a single empty label. */
  predicate RootAndEmptyLabel(a: seq<Label>, b: seq<Label>) {
    (a == [] && b == [[]]) || (a == [[]] && b == [])
  }

  /** Without dots inside labels, two names share a key exactly when they are
      equal label by label under ASCII case folding, but for one pair: the root
      and the name of one empty label. */
  lemma KeysAreExact(a: seq<Label>, b: seq<Label>)
    requires forall i :: 0 <= i < |a| ==> 46 !in a[i]
    requires forall i :: 0 <= i < |b| ==> 46 !in b[i]
    ensures (KeyOf(a) == KeyOf(b) <==> SameName(a, b)) <==> !RootAndEmptyLabel(a, b)
  {
    KeysReadAlike(a, b);
    DotFreePieces(a);
    DotFreePieces(b);
  }

  /** A dot inside a label is taken for a separator: the names "a.b" with one
      label and "a", "b" with two share a key. */
  lemma DottedLabelsCollide()
    ensures var one, two := [[97, 46, 98]], [[97], [98]];
            KeyOf(one) == KeyOf(two) && !SameName(one, two)
  {
    var one: seq<Label>, two: seq<Label> := [[97, 46, 98]], [[97], [98]];
    assert Init(two) == [[97]] && Last(two) == [98];
    assert KeyOf(one) == [97, 46, 98];
    assert KeyOf(two) == [97, 46, 98];
  }
}
