/**
 Redacting what is redacted already. A value ends before a closing bracket, so the `]` of a replacement is not part of
 the value that the next pass finds: it stays behind the new replacement. Hence a second redaction changes a text
 exactly when a marker occurs in it, and one redaction doubles brackets when a field name ends in a later one.
 */
module RedactionTwice {
  import opened Options
  import opened PythonText
  import opened InlineRedaction

  predicate SpecialsAreNotAlnum(u: Unicode) {
    !u.isAlnum('[')
  }

  // ----- brackets are never lost and never left alone -----

  /** How many closing brackets there are. */
  function Closings(s: string): (n: nat) {
    if s == [] then 0 else (if s[0] == ']' then 1 else 0) + Closings(s[1..])
  }

  lemma {:induction false} ClosingsAppend(a: string, b: string)
    ensures Closings(a + b) == Closings(a) + Closings(b)
  {
    if a == [] {
      assert a + b == b;
    } else {
      assert (a + b)[1..] == a[1..] + b;
      ClosingsAppend(a[1..], b);
    }
  }

  lemma {:induction false} ClosingsWithout(s: string)
    requires Without(s, ']')
    ensures Closings(s) == 0
  {
    if s != [] {
      ClosingsWithout(s[1..]);
    }
  }

  lemma ClosingsOfThree(a: string, b: string, c: string)
    ensures Closings(a + b + c) == Closings(a) + Closings(b) + Closings(c)
  {
    ClosingsAppend(a + b, c);
    ClosingsAppend(a, b);
  }

  lemma ClosingsOfReplacement()
    ensures Closings(REDACTED) == 1 && Closings(REDACTED[..9]) == 0
  {
    ClosingsWithout(REDACTED[..9]);
    assert REDACTED == REDACTED[..9] + "]";
    ClosingsAppend(REDACTED[..9], "]");
    assert Closings("]") == 1;
  }

  // ----- a pass over covered text -----

  lemma ValueOfReplacement(u: Unicode, s: string, from: nat)
    requires Followed(s, from) && SpecialsAreNotAlnum(u)
    ensures ValueEnd(u, s, from) == from + 9
  {
    assert s[from] == s[from..from + 10][0] == '[';
    assert Skip(IsQuoteOrBlank, s, from) == from;
    assert Skip(c => IsSchemeChar(u, c), s, from) == from;
    assert s[from..from] == [];
    assert |Lower(u, s[from..from])| == 0;
    SkipTo(s, from, 9);
  }

  lemma {:induction false} SkipTo(s: string, from: nat, k: nat)
    requires k <= 9 && Followed(s, from)
    ensures Skip(IsValueChar, s, from + 9 - k) == from + 9
  {
    assert s[from + 9 - k] == s[from..from + 10][9 - k] == REDACTED[9 - k];
    if k > 0 {
      SkipTo(s, from, k - 1);
    }
  }

  ghost predicate Absent(u: Unicode, s: string, marker: Marker) {
    forall p: nat :: !Occurs(u, s, marker, p)
  }

  /** Each occurrence costs the replacement behind it a closing bracket more; without one the text stays as it is. */
  lemma {:induction false} PassOverCovered(u: Unicode, s: string, marker: Marker)
    requires KeepsBrackets(u) && SpecialsAreNotAlnum(u) && Covered(u, s, marker)
    ensures if Absent(u, s, marker) then Pass(u, s, marker) == s else Closings(Pass(u, s, marker)) > Closings(s)
    decreases |s|
  {
    hide Occurs, Followed, KeepsBrackets, SpecialsAreNotAlnum;
    var found := FindMarker(u, s, marker, 0);
    if found.Some? {
      var from := found.value + |marker|;
      assert Followed(s, from);
      OccursFits(u, s, marker, found.value);
      ValueOfReplacement(u, s, from);
      SuffixIsCovered(u, s, marker, from + 9);
      var rest := s[from + 9..];
      PassOverCovered(u, rest, marker);
      SplitAtReplacement(s, from);
      ClosingsOfThree(s[..from], REDACTED[..9], rest);
      ClosingsOfThree(s[..from], REDACTED, Pass(u, rest, marker));
      ClosingsOfReplacement();
    } else {
      NotFound(u, s, marker);
    }
  }

  lemma SplitAtReplacement(s: string, from: nat)
    requires Followed(s, from)
    ensures s == s[..from] + REDACTED[..9] + s[from + 9..]
  {
    assert s[from..from + 9] == s[from..from + 10][..9] == REDACTED[..9];
  }

  ghost predicate NoneOccurs(u: Unicode, s: string, markers: seq<Marker>) {
    forall m :: m in markers ==> Absent(u, s, m)
  }

  ghost predicate AllCovered(u: Unicode, s: string, markers: seq<Marker>) {
    forall m :: m in markers ==> IsMarker(m) && Covered(u, s, m)
  }

  lemma {:induction false} PassAllOverCovered(u: Unicode, s: string, markers: seq<Marker>)
    requires KeepsBrackets(u) && SpecialsAreNotAlnum(u) && AllCovered(u, s, markers)
    ensures if NoneOccurs(u, s, markers) then PassAll(u, s, markers) == s else Closings(PassAll(u, s, markers)) > Closings(s)
  {
    hide KeepsBrackets, SpecialsAreNotAlnum, Covered, Absent, IsMarker, Pass;
    if markers != [] {
      var init, last := markers[..|markers| - 1], markers[|markers| - 1];
      assert last in markers && markers == init + [last];
      PassAllOverCovered(u, s, init);
      PassAllCovers(u, s, init, last);
      PassOverCovered(u, PassAll(u, s, init), last);
    }
  }

  ghost predicate FieldsCovered(u: Unicode, s: string, fields: seq<string>) {
    forall f :: f in fields ==> AllCovered(u, s, MarkersOf(f))
  }

  /** No marker of any of the fields occurs in the text. */
  ghost predicate NoFieldOccurs(u: Unicode, s: string, fields: seq<string>) {
    forall f :: f in fields ==> NoneOccurs(u, s, MarkersOf(f))
  }

  lemma {:induction false} PassFieldsOverCovered(u: Unicode, s: string, fields: seq<string>)
    requires KeepsBrackets(u) && SpecialsAreNotAlnum(u) && FieldsCovered(u, s, fields)
    ensures if NoFieldOccurs(u, s, fields) then PassFields(u, s, fields) == s else Closings(PassFields(u, s, fields)) > Closings(s)
    ensures forall m :: IsMarker(m) && Covered(u, s, m) ==> Covered(u, PassFields(u, s, fields), m)
  {
    hide KeepsBrackets, SpecialsAreNotAlnum, Covered, NoneOccurs, IsMarker, PassAll, MarkersOf;
    if fields != [] {
      var init, last := fields[..|fields| - 1], fields[|fields| - 1];
      assert last in fields && fields == init + [last];
      PassFieldsOverCovered(u, s, init);
      var t := PassFields(u, s, init);
      assert AllCovered(u, t, MarkersOf(last));
      PassAllOverCovered(u, t, MarkersOf(last));
      forall m | IsMarker(m) && Covered(u, t, m) ensures Covered(u, PassAll(u, t, MarkersOf(last)), m) {
        PassAllCovers(u, t, MarkersOf(last), m);
      }
    }
  }

  // ----- the bearer substitution -----

  lemma TokenHasNoBracket(t: string)
    requires BearerHead(t).Some?
    ensures Without(t[BearerHead(t).value.0..BearerHead(t).value.1], ']')
  {
    var (from, to) := BearerHead(t).value;
    SkipClass(IsTokenChar, t, from);
  }

  /** The bearer substitution takes no closing bracket away. */
  lemma {:induction false} SubBearerKeepsClosings(u: Unicode, s: string, i: nat)
    requires i <= |s|
    ensures Closings(SubBearer(u, s, i)) >= Closings(s[i..])
    decreases |s| - i
  {
    hide BearerHead, NextBearer, Closings, Without;
    var next := NextBearer(u, s, i);
    if next.Some? {
      var at := next.value;
      var (from, to) := BearerHead(s[at..]).value;
      SubBearerKeepsClosings(u, s, at + to);
      TokenHasNoBracket(s[at..]);
      ClosingsOfCut(s, i, at, from, to);
      ClosingsOfThree(s[i..at + from], REDACTED, SubBearer(u, s, at + to));
      ClosingsOfReplacement();
    }
  }

  lemma ClosingsOfCut(s: string, i: nat, at: nat, from: nat, to: nat)
    requires i <= at && from <= to && at + to <= |s| && Without(s[at..][from..to], ']')
    ensures Closings(s[i..]) == Closings(s[i..at + from]) + Closings(s[at + to..])
  {
    var token := s[at..][from..to];
    ClosingsWithout(token);
    assert s[i..] == s[i..at + from] + token + s[at + to..];
    ClosingsOfThree(s[i..at + from], token, s[at + to..]);
  }

  /** A text in which the pattern does not match is left alone. */
  lemma WithoutBearerUnchanged(u: Unicode, s: string)
    requires forall p: nat :: p <= |s| ==> !BearerAt(u, s, p)
    ensures SubBearer(u, s, 0) == s
  {
    hide BearerAt;
  }

  // ----- the whole redaction -----

  /** A second redaction with the same fields leaves a redacted text as it is if and only if no marker of any field occurs in it. */
  lemma RedactingTwice(u: Unicode, s: string, fields: seq<string>)
    requires KeepsBrackets(u) && SpecialsAreNotAlnum(u) && forall f :: f in fields ==> Without(f, '[') && Without(f, ']')
    ensures var t := RedactInline(u, s, fields); RedactInline(u, t, fields) == t <==> NoFieldOccurs(u, t, fields)
  {
    hide KeepsBrackets, SpecialsAreNotAlnum, Covered, PassFields, SubBearer, BearerAt, MarkersOf, NoFieldOccurs, Without;
    var t := RedactInline(u, s, fields);
    forall f, m | f in fields && m in MarkersOf(f) ensures IsMarker(m) && Covered(u, t, m) {
      FieldMarkers(f);
      RedactionCoversMarkers(u, s, fields, f, m);
    }
    PassFieldsOverCovered(u, t, fields);
    if NoFieldOccurs(u, t, fields) {
      forall p: nat | p <= |t| ensures !BearerAt(u, t, p) {
        RedactionLeavesNoBearer(u, s, fields, p);
      }
      WithoutBearerUnchanged(u, t);
    } else {
      SubBearerKeepsClosings(u, PassFields(u, t, fields), 0);
      assert PassFields(u, t, fields)[0..] == PassFields(u, t, fields);
    }
  }

  // ----- doubled brackets within one redaction -----

  predicate ReplacementAt(s: string, q: nat) {
    q + |REDACTED| <= |s| && s[q..q + |REDACTED|] == REDACTED
  }

  predicate DoubledAt(s: string, q: nat) {
    ReplacementAt(s, q) && q + 10 < |s| && s[q + 10] == ']'
  }

  /** A replacement has a second closing bracket. */
  ghost predicate Doubled(s: string) {
    exists q: nat :: DoubledAt(s, q)
  }

  predicate MarkedAt(u: Unicode, s: string, m: Marker, p: nat) {
    Occurs(u, s, m, p) && ReplacementAt(s, p + |m|)
  }

  /** The marker occurs with the replacement behind it. */
  ghost predicate Marked(u: Unicode, s: string, m: Marker) {
    exists p: nat :: MarkedAt(u, s, m, p)
  }

  predicate IsSolid(c: char) { !IsDelimiter(c) && !IsSpace(c) }

  ghost predicate KeepsDelimiters(u: Unicode) {
    forall c :: !IsSolid(c) ==> u.lower(c) == c
  }

  /** From `a` on neither delimiters nor white space, up to the replacement at `b`. */
  predicate SegmentAt(s: string, a: nat, b: nat) {
    a <= b && ReplacementAt(s, b) && All(IsSolid, s[a..b])
  }

  lemma SegmentChar(s: string, a: nat, b: nat, k: nat)
    requires SegmentAt(s, a, b) && a <= k < b + 10
    ensures k < |s| && (k < b + 9 ==> IsSolid(s[k])) && (k == b ==> s[k] == '[') && (k == b + 9 ==> s[k] == ']')
  {
    if k < b {
      assert s[k] == s[a..b][k - a];
    } else {
      assert s[k] == s[b..b + 10][k - b] == REDACTED[k - b];
    }
  }

  /** A value either ends before such a segment or in front of the closing bracket of its replacement. */
  lemma {:induction false} RunThroughSegment(s: string, x: nat, a: nat, b: nat)
    requires SegmentAt(s, a, b) && a <= b && x <= b + 9
    ensures var r := Skip(IsValueChar, s, x); r == b + 9 || (x < a && r < a)
    decreases b + 9 - x
  {
    hide SegmentAt;
    SegmentChar(s, a, b, b + 9);
    if x >= a {
      SegmentChar(s, a, b, x);
    }
    if x < b + 9 && IsValueChar(s[x]) {
      RunThroughSegment(s, x + 1, a, b);
      if x < a {
        SegmentChar(s, a, b, a);
      }
    }
  }

  lemma ValueAtSegment(u: Unicode, s: string, from: nat, a: nat, b: nat)
    requires SpecialsAreNotAlnum(u) && SegmentAt(s, a, b) && a <= b && from <= b
    ensures var to := ValueEnd(u, s, from); to == b + 9 || (from < a && to < a)
  {
    hide SegmentAt, Skip;
    var x := if from < a then a else from;
    SegmentChar(s, a, b, x);
    SegmentChar(s, a, b, b);
    SkipWithin(IsQuoteOrBlank, s, from, x);
    var first := Skip(IsQuoteOrBlank, s, from);
    var schemeChar := c => IsSchemeChar(u, c);
    SkipWithin(schemeChar, s, first, b);
    var schemeEnd := Skip(schemeChar, s, first);
    if schemeEnd >= a {
      SegmentChar(s, a, b, schemeEnd);
    } else {
      SegmentChar(s, a, b, a);
      SkipWithin(IsSpace, s, schemeEnd, a);
      RunThroughSegment(s, Skip(IsSpace, s, schemeEnd), a, b);
    }
    RunThroughSegment(s, first, a, b);
  }

  lemma MarkedIsSegment(u: Unicode, s: string, m: Marker, p: nat)
    requires KeepsDelimiters(u) && All(IsSolid, m) && MarkedAt(u, s, m, p)
    ensures SegmentAt(s, p, p + |m|)
  {
    var q := s[p..p + |m|];
    forall i | 0 <= i < |q| ensures IsSolid(q[i]) {
      OccursAt(u, s, m, p, p + i);
    }
  }

  lemma DoubledInside(x: string, y: string, z: string)
    requires Doubled(y)
    ensures Doubled(x + y + z)
  {
    var q: nat :| DoubledAt(y, q);
    var s := x + y + z;
    assert s[|x| + q..|x| + q + 10] == y[q..q + 10];
    assert DoubledAt(s, |x| + q);
  }

  lemma DoubledBefore(x: string, z: string)
    requires z != [] && z[0] == ']'
    ensures Doubled(x + REDACTED + z)
  {
    var s := x + REDACTED + z;
    assert s[|x|..|x| + 10] == REDACTED;
    assert DoubledAt(s, |x|);
  }

  lemma MarkedInside(u: Unicode, x: string, y: string, z: string, m: Marker)
    requires Marked(u, y, m)
    ensures Marked(u, x + y + z, m)
  {
    var p: nat :| MarkedAt(u, y, m, p);
    var s := x + y + z;
    var q := |x| + p;
    assert s[q..q + |m|] == y[p..p + |m|];
    assert s[q + |m|..q + |m| + 10] == y[p + |m|..p + |m| + 10];
    assert MarkedAt(u, s, m, q);
  }

  /** A pass leaves a replacement alone or ends a value in front of its closing bracket. */
  lemma {:induction false} PassKeepsDoubled(u: Unicode, s: string, o: Marker)
    requires KeepsBrackets(u) && SpecialsAreNotAlnum(u) && IsMarker(o) && Doubled(s)
    ensures Doubled(Pass(u, s, o))
    decreases |s|
  {
    hide Occurs, ValueEnd, KeepsBrackets, SpecialsAreNotAlnum, IsMarker, Doubled, DoubledAt;
    var found := FindMarker(u, s, o, 0);
    if found.Some? {
      var from := found.value + |o|;
      OccursFits(u, s, o, found.value);
      var to := ValueEnd(u, s, from);
      var q := DoubledBeside(u, s, o, found.value);
      if from <= q {
        DoubledIsSegment(s, q);
        ValueAtSegment(u, s, from, q, q);
        if to == q + 9 {
          PassKeepsHead(u, s[to..], o);
          DoubledBefore(s[..from], Pass(u, s[to..], o));
        } else {
          DoubledBehind(s, q, to);
          PassKeepsDoubled(u, s[to..], o);
          DoubledInside(s[..from] + REDACTED, Pass(u, s[to..], o), []);
          assert s[..from] + REDACTED + Pass(u, s[to..], o) + [] == s[..from] + REDACTED + Pass(u, s[to..], o);
        }
      } else {
        DoubledInside([], s[..from], REDACTED + Pass(u, s[to..], o));
        Regroup([], s[..from], REDACTED, Pass(u, s[to..], o));
        assert [] + s[..from] == s[..from];
        Regroup(s[..from], REDACTED, Pass(u, s[to..], o), []);
      }
    }
  }

  lemma DoubledIsSegment(s: string, q: nat)
    requires DoubledAt(s, q)
    ensures SegmentAt(s, q, q) && q + 10 < |s| && s[q + 9] == ']'
  {
    assert s[q + 9] == s[q..q + 10][9];
  }

  lemma DoubledBehind(s: string, q: nat, to: nat)
    requires DoubledAt(s, q) && to <= q
    ensures Doubled(s[to..])
  {
    assert s[to..][q - to..q - to + 10] == s[q..q + 10];
    assert DoubledAt(s[to..], q - to);
  }

  /** A marker lies before or behind a doubled replacement. */
  lemma DoubledBeside(u: Unicode, s: string, o: Marker, p: nat) returns (q: nat)
    requires KeepsBrackets(u) && IsMarker(o) && Doubled(s) && Occurs(u, s, o, p)
    ensures DoubledAt(s, q) && (p + |o| <= q || (p + |o| <= |s| && Doubled(s[..p + |o|])))
  {
    hide Occurs, IsMarker;
    q :| DoubledAt(s, q);
    assert s == s[..q] + REDACTED + s[q + 10..];
    OccursBeside(u, s[..q], s[q + 10..], o, p);
    OccursFits(u, s, o, p);
    if p >= q + 10 {
      if p == q + 10 {
        OccursAt(u, s, o, p, p);
        MarkerHasNoClosing(o, 0);
      }
      var a := s[..p + |o|];
      assert a[q..q + 10] == s[q..q + 10];
      assert DoubledAt(a, q);
    }
  }

  lemma MarkerHasNoClosing(o: Marker, i: nat)
    requires IsMarker(o) && i < |o|
    ensures o[i] != ']'
  {
  }

  lemma MarkedSplits(u: Unicode, s: string, m: Marker, p: nat, o: Marker, at: nat)
    requires KeepsBrackets(u) && IsMarker(o) && MarkedAt(u, s, m, p) && Occurs(u, s, o, at)
    ensures at + |o| <= p + |m| || (at + |o| <= |s| && Marked(u, s[..at + |o|], m))
  {
    hide Occurs, IsMarker, KeepsBrackets;
    var b := p + |m|;
    assert s == s[..b] + REDACTED + s[b + 10..];
    OccursBeside(u, s[..b], s[b + 10..], o, at);
    if at >= b + 10 {
      OccursFits(u, s, o, at);
      var a := s[..at + |o|];
      assert s == a + s[|a|..];
      OccursInPrefix(u, a, s[|a|..], m, p);
      assert a[b..b + 10] == s[b..b + 10];
      assert MarkedAt(u, a, m, p);
    }
  }

  lemma MarkedBehind(u: Unicode, s: string, m: Marker, p: nat, to: nat)
    requires MarkedAt(u, s, m, p) && to <= p
    ensures to <= |s| && MarkedAt(u, s[to..], m, p - to)
  {
    var q := p - to;
    assert s[to..][q..q + |m|] == s[p..p + |m|];
    assert s[to..][q + |m|..q + |m| + 10] == s[p + |m|..p + |m| + 10];
  }

  /** The later marker is the end of the earlier one. */
  predicate EndsIn(m: string, o: string) {
    |o| <= |m| && m[|m| - |o|..] == o
  }

  lemma EndOccurs(u: Unicode, s: string, m: Marker, p: nat, o: Marker)
    requires MarkedAt(u, s, m, p) && EndsIn(m, o)
    ensures Occurs(u, s, o, p + |m| - |o|)
  {
    var at := p + |m| - |o|;
    assert s[at..p + |m|] == s[p..p + |m|][|m| - |o|..];
  }

  /**
   A marked replacement survives a pass or gets a second bracket; it gets one from a pass for a marker in which its
   own one ends.
   */
  lemma {:induction false} PassOverMarked(u: Unicode, s: string, o: Marker, m: Marker, p: nat)
    requires KeepsBrackets(u) && KeepsDelimiters(u) && SpecialsAreNotAlnum(u) && IsMarker(o) && All(IsSolid, m)
    requires MarkedAt(u, s, m, p)
    ensures Doubled(Pass(u, s, o)) || (!EndsIn(m, o) && Marked(u, Pass(u, s, o), m))
    decreases |s|
  {
    hide Occurs, ValueEnd, KeepsBrackets, KeepsDelimiters, SpecialsAreNotAlnum, IsMarker, Doubled, Marked, MarkedAt, EndsIn, All;
    var found := FindMarker(u, s, o, 0);
    if EndsIn(m, o) {
      EndFound(u, s, m, p, o);
    }
    if found.Some? {
      var from := found.value + |o|;
      OccursFits(u, s, o, found.value);
      var to := ValueEnd(u, s, from);
      var tail := Pass(u, s[to..], o);
      MarkedSplits(u, s, m, p, o, found.value);
      if from <= p + |m| {
        MarkedIsSegment(u, s, m, p);
        ValueAtSegment(u, s, from, p, p + |m|);
        if to < p {
          MarkedBehind(u, s, m, p, to);
          PassOverMarked(u, s[to..], o, m, p - to);
          Inside(u, s[..from] + REDACTED, tail, m);
        } else {
          SegmentChar(s, p, p + |m|, to);
          PassKeepsHead(u, s[to..], o);
          DoubledBefore(s[..from], tail);
        }
      } else {
        MarkedInside(u, [], s[..from], REDACTED + tail, m);
        assert [] + s[..from] + (REDACTED + tail) == s[..from] + REDACTED + tail;
      }
    } else {
      assert Marked(u, s, m) by {
        MarkedWitness(u, s, m, p);
      }
    }
  }

  lemma MarkedWitness(u: Unicode, s: string, m: Marker, p: nat)
    requires MarkedAt(u, s, m, p)
    ensures Marked(u, s, m)
  {
  }

  lemma Inside(u: Unicode, x: string, y: string, m: Marker)
    ensures Doubled(y) ==> Doubled(x + y)
    ensures Marked(u, y, m) ==> Marked(u, x + y, m)
  {
    assert x + y + [] == x + y;
    if Doubled(y) {
      DoubledInside(x, y, []);
    }
    if Marked(u, y, m) {
      MarkedInside(u, x, y, [], m);
    }
  }

  /** The first occurrence of the shorter marker lies no further than in the longer one. */
  lemma EndFound(u: Unicode, s: string, m: Marker, p: nat, o: Marker)
    requires MarkedAt(u, s, m, p) && EndsIn(m, o)
    ensures FindMarker(u, s, o, 0).Some? && FindMarker(u, s, o, 0).value + |o| <= p + |m|
  {
    hide Occurs;
    EndOccurs(u, s, m, p, o);
    OccursFits(u, s, o, p + |m| - |o|);
  }

  ghost predicate DoubledOrMarked(u: Unicode, s: string, m: Marker) {
    Doubled(s) || Marked(u, s, m)
  }

  ghost predicate PlainText(u: Unicode) {
    KeepsBrackets(u) && KeepsDelimiters(u) && SpecialsAreNotAlnum(u)
  }

  lemma AsciiIsPlain()
    ensures PlainText(ASCII)
  {
    AsciiKeepsBrackets();
  }

  lemma PassKeepsDoubledOrMarked(u: Unicode, s: string, o: Marker, m: Marker)
    requires PlainText(u) && IsMarker(o) && All(IsSolid, m) && DoubledOrMarked(u, s, m)
    ensures DoubledOrMarked(u, Pass(u, s, o), m)
    ensures EndsIn(m, o) ==> Doubled(Pass(u, s, o))
  {
    hide KeepsBrackets, KeepsDelimiters, SpecialsAreNotAlnum, IsMarker, All, Doubled, EndsIn, Pass, MarkedAt;
    if Doubled(s) {
      PassKeepsDoubled(u, s, o);
    } else {
      var p: nat :| MarkedAt(u, s, m, p);
      hide Marked;
      PassOverMarked(u, s, o, m, p);
    }
  }

  lemma {:induction false} PassAllKeepsDoubledOrMarked(u: Unicode, s: string, markers: seq<Marker>, m: Marker)
    requires PlainText(u) && (forall o :: o in markers ==> IsMarker(o)) && All(IsSolid, m) && DoubledOrMarked(u, s, m)
    ensures DoubledOrMarked(u, PassAll(u, s, markers), m)
    ensures (exists o :: o in markers && EndsIn(m, o)) || Doubled(s) ==> Doubled(PassAll(u, s, markers))
  {
    hide PlainText, IsMarker, All, Doubled, Marked, EndsIn, Pass;
    if markers != [] {
      var init, last := markers[..|markers| - 1], markers[|markers| - 1];
      assert last in markers && markers == init + [last];
      PassAllKeepsDoubledOrMarked(u, s, init, m);
      PassKeepsDoubledOrMarked(u, PassAll(u, s, init), last, m);
      if Doubled(PassAll(u, s, init)) {
        KeepsDoubled(u, PassAll(u, s, init), last);
      }
    }
  }

  lemma KeepsDoubled(u: Unicode, s: string, o: Marker)
    requires PlainText(u) && IsMarker(o) && Doubled(s)
    ensures Doubled(Pass(u, s, o))
  {
    hide KeepsBrackets, SpecialsAreNotAlnum, IsMarker, Doubled, Pass;
    PassKeepsDoubled(u, s, o);
  }

  /** What the fields behind the first `k` do to a marked replacement. */
  lemma {:induction false} LaterFieldsDouble(u: Unicode, s: string, fields: seq<string>, k: nat, m: Marker)
    requires PlainText(u) && (forall f :: f in fields ==> Without(f, '[') && Without(f, ']')) && All(IsSolid, m)
    requires k <= |fields| && DoubledOrMarked(u, PassFields(u, s, fields[..k]), m)
    ensures DoubledOrMarked(u, PassFields(u, s, fields), m)
    ensures (exists j :: k <= j < |fields| && EndsIn(m, fields[j] + "=")) ==> Doubled(PassFields(u, s, fields))
    decreases |fields|
  {
    hide PlainText, IsMarker, All, Doubled, Marked, EndsIn, Without, PassAll;
    if k == |fields| {
      assert fields[..k] == fields;
    } else {
      var init, last := fields[..|fields| - 1], fields[|fields| - 1];
      assert last in fields && fields == init + [last] && init[..k] == fields[..k];
      LaterFieldsDouble(u, s, init, k, m);
      FieldMarkers(last);
      PassAllKeepsDoubledOrMarked(u, PassFields(u, s, init), MarkersOf(last), m);
      if j :| k <= j < |fields| && EndsIn(m, fields[j] + "=") {
        if j == |fields| - 1 {
          assert MarkersOf(last)[0] in MarkersOf(last);
        } else {
          assert init[j] == fields[j];
        }
      }
    }
  }

  /** The first pass of a field puts the replacement behind its marker. */
  lemma FieldMarks(u: Unicode, s: string, field: string, p: nat)
    requires PlainText(u) && Without(field, '[') && Without(field, ']') && All(IsSolid, field)
    requires Occurs(u, s, field + "=", p)
    ensures DoubledOrMarked(u, PassAll(u, s, MarkersOf(field)), field + "=")
  {
    hide Occurs, Doubled, Marked, KeepsBrackets, KeepsDelimiters, SpecialsAreNotAlnum;
    var markers := MarkersOf(field);
    var m := markers[0];
    var m0: Marker := field + "=";
    FieldMarkers(field);
    assert All(IsSolid, m);
    PassMarks(u, s, m, p);
    var s0 := Pass(u, s, m);
    assert markers[..1] == [m] && [m][..0] == [];
    assert PassAll(u, s, markers[..1]) == s0;
    hide IsMarker, All, Pass, MarkersOf;
    assert markers[..2][..1] == markers[..1] && markers[..3] == markers && markers[..3][..2] == markers[..2];
    PassKeepsDoubledOrMarked(u, s0, markers[1], m);
    assert PassAll(u, s, markers[..2]) == Pass(u, s0, markers[1]);
    PassKeepsDoubledOrMarked(u, PassAll(u, s, markers[..2]), markers[2], m);
  }

  lemma PassMarks(u: Unicode, s: string, m: Marker, p: nat)
    requires Occurs(u, s, m, p)
    ensures Marked(u, Pass(u, s, m), m)
  {
    hide Occurs, ValueEnd;
    OccursFits(u, s, m, p);
    var found := FindMarker(u, s, m, 0);
    var from := found.value + |m|;
    OccursFits(u, s, m, found.value);
    var rest := Pass(u, s[ValueEnd(u, s, from)..], m);
    var t := s[..from] + REDACTED + rest;
    assert s == s[..from] + s[from..] && t == s[..from] + (REDACTED + rest);
    OccursInPrefix(u, s[..from], s[from..], m, found.value);
    OccursInPrefix(u, s[..from], REDACTED + rest, m, found.value);
    assert t[from..from + 10] == REDACTED;
    assert MarkedAt(u, t, m, found.value);
  }

  // ----- and the bearer substitution keeps them -----

  lemma BearerHasNoBracket(t: string)
    requires BearerHead(t).Some?
    ensures forall k :: 0 <= k < BearerHead(t).value.1 ==> t[k] != '[' && t[k] != ']'
  {
    var (from, to) := BearerHead(t).value;
    SkipClass(IsSpace, t, 6);
    SkipClass(IsTokenChar, t, from);
    forall k | 0 <= k < 6 ensures t[k] != '[' && t[k] != ']' {
      assert t[..6][k] == t[k] && MatchesLetter(t[..6][k], "bearer"[k]);
    }
  }

  lemma BearerCharacters(s: string, at: nat)
    requires at <= |s| && BearerHead(s[at..]).Some?
    ensures var (from, to) := BearerHead(s[at..]).value;
            && at + to <= |s| && IsSpace(s[at + from - 1])
            && forall k :: at <= k < at + to ==> s[k] != '[' && s[k] != ']'
  {
    hide BearerHead;
    var t := s[at..];
    BearerHasNoBracket(t);
    var (from, to) := BearerHead(t).value;
    assert t[from - 1] == s[at + from - 1];
    forall k | at <= k < at + to ensures s[k] != '[' && s[k] != ']' {
      assert t[k - at] == s[k];
    }
  }

  /** A bearer token with its word lies before or behind a doubled replacement. */
  lemma BearerBeside(s: string, at: nat, q: nat)
    requires at <= |s| && BearerHead(s[at..]).Some? && DoubledAt(s, q)
    ensures at + BearerHead(s[at..]).value.1 <= q || at > q + 10
  {
    hide BearerHead;
    BearerCharacters(s, at);
    DoubledIsSegment(s, q);
    forall k | q <= k < q + 9 ensures !IsSpace(s[k]) {
      SegmentChar(s, q, q, k);
    }
    SegmentChar(s, q, q, q);
  }

  lemma {:induction false} SubBearerKeepsDoubled(u: Unicode, s: string, i: nat, q: nat)
    requires i <= q && DoubledAt(s, q)
    ensures i <= |s| && Doubled(SubBearer(u, s, i))
    decreases |s| - i
  {
    hide BearerHead, NextBearer, Doubled, DoubledAt;
    DoubledIsSegment(s, q);
    var next := NextBearer(u, s, i);
    if next.Some? {
      var at := next.value;
      var (from, to) := BearerHead(s[at..]).value;
      var a, tail := s[i..at + from], SubBearer(u, s, at + to);
      BearerBeside(s, at, q);
      if at + to <= q {
        SubBearerKeepsDoubled(u, s, at + to, q);
        DoubledInside(a + REDACTED, tail, []);
        assert a + REDACTED + tail + [] == a + REDACTED + tail;
      } else {
        DoubledCut(s, q, i, at + from);
        DoubledInside([], a, REDACTED + tail);
        assert [] + a + (REDACTED + tail) == a + REDACTED + tail;
      }
    } else {
      DoubledCut(s, q, i, |s|);
      assert s[i..|s|] == s[i..];
    }
  }

  lemma DoubledCut(s: string, q: nat, i: nat, j: nat)
    requires DoubledAt(s, q) && i <= q && q + 10 < j <= |s|
    ensures Doubled(s[i..j])
  {
    SliceOfSlice(s, i, q, q + 10, j);
    assert DoubledAt(s[i..j], q - i);
  }

  lemma SliceOfSlice(s: string, i: nat, x: nat, y: nat, j: nat)
    requires i <= x <= y <= j <= |s|
    ensures s[i..j][x - i..y - i] == s[x..y]
  {
    var a := s[i..j];
    var b := a[x - i..y - i];
    forall k | 0 <= k < |b| ensures b[k] == s[x..y][k] {
      assert b[k] == a[x - i + k] == s[x + k];
    }
  }

  // ----- nested fields -----

  /**
   One redaction doubles brackets by itself: when a field's marker occurs in the text that its pass gets, and a later
   field is the end of that field, as `token` is of `access_token`, the result holds `[REDACTED]]`.
   */
  lemma NestedFieldsDouble(u: Unicode, s: string, fields: seq<string>, i: nat, j: nat, p: nat)
    requires PlainText(u) && forall f :: f in fields ==> Without(f, '[') && Without(f, ']')
    requires i < j < |fields| && All(IsSolid, fields[i]) && EndsIn(fields[i], fields[j])
    requires Occurs(u, PassFields(u, s, fields[..i]), fields[i] + "=", p)
    ensures Doubled(RedactInline(u, s, fields))
  {
    hide Occurs, Doubled, Marked, EndsIn, Without, PassAll, PlainText, SubBearer;
    var m: Marker := fields[i] + "=";
    assert fields[i] in fields;
    assert fields[..i + 1][..i] == fields[..i];
    FieldMarks(u, PassFields(u, s, fields[..i]), fields[i], p);
    MarkerEndsIn(fields[i], fields[j]);
    LaterFieldsDouble(u, s, fields, i + 1, m);
    var t := PassFields(u, s, fields);
    var q: nat := DoubledPlace(t);
    SubBearerKeepsDoubled(u, t, 0, q);
  }

  lemma DoubledPlace(s: string) returns (q: nat)
    requires Doubled(s)
    ensures DoubledAt(s, q)
  {
    q :| DoubledAt(s, q);
  }

  lemma MarkerEndsIn(f: string, g: string)
    requires EndsIn(f, g) && All(IsSolid, f)
    ensures EndsIn(f + "=", g + "=") && All(IsSolid, f + "=")
  {
    var m := f + "=";
    assert m[|f| - |g|..] == f[|f| - |g|..] + "=";
  }

  const DEFAULT_REDACT_FIELDS: seq<string> :=
    ["authorization", "api_key", "access_token", "refresh_token", "bearer", "password", "secret", "token"]

  /** Lower-case letters and underscores. */
  predicate IsName(s: string) {
    forall c :: c in s ==> 'a' <= c <= 'z' || c == '_'
  }

  lemma NameIsPlain(s: string)
    requires IsName(s)
    ensures Without(s, '[') && Without(s, ']') && All(IsSolid, s)
  {
    assert forall i :: 0 <= i < |s| ==> s[i] in s;
  }

  lemma DefaultFieldsAreNames(i: nat)
    requires i < |DEFAULT_REDACT_FIELDS|
    ensures IsName(DEFAULT_REDACT_FIELDS[i])
  {
  }

  lemma DefaultFieldsAreNested()
    ensures forall f :: f in DEFAULT_REDACT_FIELDS ==> Without(f, '[') && Without(f, ']')
    ensures All(IsSolid, DEFAULT_REDACT_FIELDS[2]) && EndsIn(DEFAULT_REDACT_FIELDS[2], DEFAULT_REDACT_FIELDS[7])
    ensures DEFAULT_REDACT_FIELDS[2] + "=" == "access_token="
  {
    hide IsName, Without, All;
    forall i | 0 <= i < |DEFAULT_REDACT_FIELDS|
      ensures Without(DEFAULT_REDACT_FIELDS[i], '[') && Without(DEFAULT_REDACT_FIELDS[i], ']') && All(IsSolid, DEFAULT_REDACT_FIELDS[i])
    {
      DefaultFieldsAreNames(i);
      NameIsPlain(DEFAULT_REDACT_FIELDS[i]);
    }
    assert EndsIn("access_token", "token");
  }

  /** So it is with the platform's own fields, for every text with an access token that no earlier field touches. */
  lemma DefaultFieldsDouble(u: Unicode, s: string, p: nat)
    requires PlainText(u) && NoFieldOccurs(u, s, DEFAULT_REDACT_FIELDS[..2]) && Occurs(u, s, "access_token=", p)
    ensures Doubled(RedactInline(u, s, DEFAULT_REDACT_FIELDS))
  {
    hide Occurs, Doubled, Absent, RedactInline, PlainText, Without, All, EndsIn, NoFieldOccurs, PassFields;
    DefaultFieldsAreNested();
    AbsentFieldsChangeNothing(u, s, DEFAULT_REDACT_FIELDS[..2]);
    NestedFieldsDouble(u, s, DEFAULT_REDACT_FIELDS, 2, 7, p);
  }

  lemma {:induction false} AbsentFieldsChangeNothing(u: Unicode, s: string, fields: seq<string>)
    requires NoFieldOccurs(u, s, fields)
    ensures PassFields(u, s, fields) == s
  {
    hide NoneOccurs, PassAll, MarkersOf;
    if fields != [] {
      var init, last := fields[..|fields| - 1], fields[|fields| - 1];
      assert last in fields && fields == init + [last];
      AbsentFieldsChangeNothing(u, s, init);
      AbsentMarkersChangeNothing(u, s, MarkersOf(last));
    }
  }

  lemma {:induction false} AbsentMarkersChangeNothing(u: Unicode, s: string, markers: seq<Marker>)
    requires NoneOccurs(u, s, markers)
    ensures PassAll(u, s, markers) == s
  {
    hide Occurs;
    if markers != [] {
      var init, last := markers[..|markers| - 1], markers[|markers| - 1];
      assert last in markers && markers == init + [last];
      AbsentMarkersChangeNothing(u, s, init);
      assert Absent(u, s, last);
    }
  }
}
