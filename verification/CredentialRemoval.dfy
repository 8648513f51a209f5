/**
 Credentials behind an authorization scheme: behind quotes and blanks, one of the five schemes in any letter case and
 white space, a credential is one value with its scheme, and a pass takes it or leaves it behind its marker.
 */
module CredentialRemoval {
  import opened Options
  import opened PythonText
  import opened InlineRedaction
  import opened RedactionTwice
  import opened SecretRemoval

  /** Letters stay letters when folded, and white space is no letter. */
  ghost predicate FoldsWords(u: Unicode) {
    && FoldsLetters(u) && KeepsBrackets(u) && SpecialsAreNotAlnum(u)
    && (forall c :: 'a' <= u.lower(c) <= 'z' ==> u.isAlnum(c))
    && (forall c :: u.lower(c) == '-' || u.lower(c) == '=' || u.lower(c) == ':' ==> u.lower(c) == c)
    && u.lower('=') == '=' && u.lower(':') == ':'
    && (forall c :: IsSpace(c) ==> !u.isAlnum(c))
  }

  lemma AsciiFoldsWords()
    ensures FoldsWords(ASCII)
  {
    AsciiFoldsLetters();
    AsciiKeepsBrackets();
  }

  /** A plain field without an opening bracket. */
  predicate IsPlainName(f: string) {
    IsPlainField(f) && Without(f, '[')
  }

  /** What the three markers of such a field have in common. */
  predicate IsNameMarker(o: Marker) {
    IsPlainMarker(o) && IsMarker(o) && (IsSolid(o[0]) || o[0] == '"')
  }

  lemma NameMarkers(f: string)
    requires IsPlainName(f)
    ensures forall o :: o in MarkersOf(f) ==> IsNameMarker(o)
  {
    PlainFieldMarkers(f);
    NoClosing(f);
    FieldMarkers(f);
    hide IsPlainMarker, IsMarker, IsSolid;
    SolidHead(f, "=");
    SolidHead(f, ":");
  }

  lemma NoClosing(f: string)
    requires All(IsSolid, f)
    ensures Without(f, ']')
  {
  }

  lemma SolidHead(f: string, end: string)
    requires All(IsSolid, f) && (end == "=" || end == ":")
    ensures IsSolid((f + end)[0])
  {
    assert f != [] ==> (f + end)[0] == f[0];
  }

  // ----- the credential with its scheme -----

  /** The marker does not start in the body, whatever bounded text stands behind it. */
  ghost predicate IsSealed(u: Unicode, body: string, o: Marker) {
    forall rest: string, q: nat {:trigger Occurs(u, body + rest, o, q)} ::
      Bounded(rest) && q < |body| ==> !Occurs(u, body + rest, o, q)
  }

  ghost predicate IsWholeValue(u: Unicode, body: string) {
    body != [] && forall rest: string {:trigger ValueEnd(u, body + rest, 0)} :: Bounded(rest) ==> ValueEnd(u, body + rest, 0) == |body|
  }

  /** Quotes and blanks, a scheme and the white space behind it. */
  ghost predicate IsPreface(u: Unicode, lead: string, scheme: string, gap: string) {
    && (forall i :: 0 <= i < |lead| ==> lead[i] == ' ' || lead[i] == '\'' || lead[i] == '"')
    && IsScheme(Lower(u, scheme))
    && gap != [] && All(IsSpace, gap)
  }

  lemma SchemeCharacters(u: Unicode, scheme: string)
    requires FoldsWords(u) && IsScheme(Lower(u, scheme))
    ensures scheme != [] && All(c => IsSchemeChar(u, c), scheme) && !IsQuoteOrBlank(scheme[0])
  {
    var folded := Lower(u, scheme);
    forall i | 0 <= i < |scheme| ensures IsSchemeChar(u, scheme[i]) {
      assert folded[i] == u.lower(scheme[i]);
      assert 'a' <= folded[i] <= 'z' || folded[i] == '-';
    }
    assert |folded| > 0;
    assert IsSchemeChar(u, scheme[0]);
  }

  lemma CredentialIsValue(u: Unicode, lead: string, scheme: string, gap: string, v: string)
    requires FoldsWords(u) && IsPreface(u, lead, scheme, gap) && v != [] && All(IsSolid, v)
    ensures IsWholeValue(u, lead + scheme + gap + v)
  {
    SchemeCharacters(u, scheme);
    ClassesAgree(u, Lower(u, scheme), []);
    assert All(IsQuoteOrBlank, lead) && All(IsValueChar, v);
    hide IsScheme, Lower, ValueEnd, IsSchemeChar;
    forall rest: string | Bounded(rest) ensures ValueEnd(u, lead + scheme + gap + v + rest, 0) == |lead + scheme + gap + v| {
      GapIsNoScheme(u, gap);
      SchemeValue(u, lead, scheme, gap, v, rest);
    }
  }

  lemma GapIsNoScheme(u: Unicode, gap: string)
    requires FoldsWords(u) && gap != [] && All(IsSpace, gap)
    ensures !IsSchemeChar(u, gap[0])
  {
  }

  /** The four parts of the body, position by position. */
  lemma PartOf(lead: string, scheme: string, gap: string, v: string, rest: string, i: nat)
    requires i < |lead + scheme + gap + v + rest|
    ensures var s := lead + scheme + gap + v + rest; var a, b, c := |lead|, |lead| + |scheme|, |lead| + |scheme| + |gap|;
            s[i] == if i < a then lead[i] else if i < b then scheme[i - a] else if i < c then gap[i - b]
                    else if i < c + |v| then v[i - c] else rest[i - c - |v|]
  {
  }

  /** White space in front of the last character of a marker is none of it. */
  lemma NotOverSpace(u: Unicode, s: string, o: Marker, q: nat, i: nat)
    requires FoldsWords(u) && IsNameMarker(o) && i < |s| && IsSpace(s[i]) && q <= i < q + |o|
    ensures !Occurs(u, s, o, q)
  {
    hide Occurs, Without;
    if Occurs(u, s, o, q) {
      OccursAt(u, s, o, q, i);
    }
  }

  /** A marker ends in none of these. */
  lemma EndsElsewhere(u: Unicode, s: string, o: Marker, q: nat)
    requires FoldsWords(u) && IsNameMarker(o) && q + |o| <= |s|
    requires var c := s[q + |o| - 1]; !IsSolid(c) || IsSchemeChar(u, c)
    ensures !Occurs(u, s, o, q)
  {
    hide Occurs, Without;
    if Occurs(u, s, o, q) {
      OccursAt(u, s, o, q, q + |o| - 1);
    }
  }

  /** Nor does one reach from such a character into what ends a value. */
  lemma EndsBefore(u: Unicode, s: string, o: Marker, q: nat, i: nat)
    requires FoldsWords(u) && IsNameMarker(o) && q < i < q + |o| && i < |s| && IsDelimiter(s[i])
    requires IsSolid(s[q])
    ensures !Occurs(u, s, o, q)
  {
    hide Occurs, Without;
    if Occurs(u, s, o, q) {
      OccursAt(u, s, o, q, i);
      OccursAt(u, s, o, q, q);
    }
  }

  lemma CredentialIsSealed(u: Unicode, lead: string, scheme: string, gap: string, v: string, o: Marker)
    requires FoldsWords(u) && IsPreface(u, lead, scheme, gap) && v != [] && All(IsSolid, v) && IsNameMarker(o) && Absent(u, v, o)
    ensures IsSealed(u, lead + scheme + gap + v, o)
  {
    var body := lead + scheme + gap + v;
    SchemeCharacters(u, scheme);
    hide Occurs, Lower, IsScheme;
    forall rest: string, q: nat | Bounded(rest) && q < |body| ensures !Occurs(u, body + rest, o, q) {
      if q + |o| <= |body + rest| {
        SealedAt(u, lead, scheme, gap, v, rest, o, q);
      } else if Occurs(u, body + rest, o, q) {
        OccursFits(u, body + rest, o, q);
      }
    }
  }

  lemma SealedAt(u: Unicode, lead: string, scheme: string, gap: string, v: string, rest: string, o: Marker, q: nat)
    requires FoldsWords(u) && IsPreface(u, lead, scheme, gap) && v != [] && All(IsSolid, v) && IsNameMarker(o) && Absent(u, v, o)
    requires All(c => IsSchemeChar(u, c), scheme)
    requires Bounded(rest) && q < |lead + scheme + gap + v| && q + |o| <= |lead + scheme + gap + v + rest|
    ensures !Occurs(u, lead + scheme + gap + v + rest, o, q)
  {
    hide Occurs, Lower, IsScheme;
    var s := lead + scheme + gap + v + rest;
    var g, b := |lead| + |scheme| + |gap|, |lead| + |scheme| + |gap| + |v|;
    var last := q + |o| - 1;
    PartOf(lead, scheme, gap, v, rest, last);
    PartOf(lead, scheme, gap, v, rest, g - 1);
    PartOf(lead, scheme, gap, v, rest, q);
    if last < g {
      assert last < |lead| ==> !IsSolid(s[last]);
      EndsElsewhere(u, s, o, q);
    } else if q < g {
      NotOverSpace(u, s, o, q, g - 1);
    } else if last < b {
      var front := lead + scheme + gap;
      assert s == front + (v + rest);
      OccursShift(u, front, v + rest, o, q - g);
      OccursInPrefix(u, v, rest, o, q - g);
    } else {
      PartOf(lead, scheme, gap, v, rest, b);
      EndsBefore(u, s, o, q, b);
    }
  }

  // ----- values in front of the marker -----

  /** The value behind each occurrence of the other marker in front of this one ends before this one begins. */
  ghost predicate IsClear(u: Unicode, a: string, m: Marker, o: Marker) {
    forall p: nat {:trigger Occurs(u, a, o, p)} :: Occurs(u, a, o, p) && p + |o| < |a| ==> ValueEnd(u, a, p + |o|) <= |a| - |m|
  }

  lemma {:induction false} SkipFewer(narrow: char -> bool, wide: char -> bool, s: string, i: nat)
    requires i <= |s| && forall c :: narrow(c) ==> wide(c)
    ensures Skip(narrow, s, i) <= Skip(wide, s, i)
    decreases |s| - i
  {
    if i < |s| && narrow(s[i]) {
      SkipFewer(narrow, wide, s, i + 1);
    }
  }

  /** A value that ends inside a text ends there whatever stands behind the text. */
  lemma ValueEndsInside(u: Unicode, a: string, s: string, from: nat)
    requires FoldsWords(u) && from <= |a| && ValueEnd(u, a, from) < |a|
    ensures ValueEnd(u, a + s, from) == ValueEnd(u, a, from)
  {
    hide Skip, Lower;
    var schemeChar := c => IsSchemeChar(u, c);
    var first := Skip(IsQuoteOrBlank, a, from);
    var schemeEnd := Skip(schemeChar, a, first);
    SkipAcross(IsQuoteOrBlank, a, s, from);
    SkipAcross(schemeChar, a, s, first);
    assert forall c :: schemeChar(c) ==> IsValueChar(c);
    SkipFewer(schemeChar, IsValueChar, a, first);
    SkipAcross(IsValueChar, a, s, first);
    if schemeEnd < |a| {
      assert (a + s)[first..schemeEnd] == a[first..schemeEnd];
      SkipAcross(IsSpace, a, s, schemeEnd);
      SkipAcross(IsValueChar, a, s, Skip(IsSpace, a, schemeEnd));
    }
  }

  lemma ClearSuffix(u: Unicode, a: string, m: Marker, o: Marker, to: nat)
    requires IsClear(u, a, m, o) && |m| <= |a| && to <= |a| - |m|
    ensures IsClear(u, a[to..], m, o)
  {
    hide Occurs, ValueEnd;
    var b := a[to..];
    assert a == a[..to] + b;
    forall p: nat | Occurs(u, b, o, p) && p + |o| < |b| ensures ValueEnd(u, b, p + |o|) <= |b| - |m| {
      OccursShift(u, a[..to], b, o, p);
      ValueEndShift(u, a[..to], b, p + |o|);
    }
  }

  /** A value in front of a replacement ends in it at the latest. */
  lemma ClearFront(u: Unicode, x: string, b: string, m: Marker, o: Marker)
    requires FoldsWords(u) && IsNameMarker(o) && IsClear(u, b, m, o) && |m| <= |b|
    ensures IsClear(u, x + REDACTED + b, m, o)
  {
    hide Occurs, ValueEnd, IsPlainMarker, IsMarker;
    var s := x + REDACTED + b;
    forall p: nat | Occurs(u, s, o, p) && p + |o| < |s| ensures ValueEnd(u, s, p + |o|) <= |s| - |m| {
      OccursBeside(u, x, b, o, p);
      if p + |o| <= |x| {
        assert s[|x|..|x| + |REDACTED|] == REDACTED;
        assert All(IsSolid, s[|x|..|x|]);
        ValueAtSegment(u, s, p + |o|, |x|, |x|);
      } else {
        var k := p - |x + REDACTED|;
        OccursShift(u, x + REDACTED, b, o, k);
        ValueEndShift(u, x + REDACTED, b, k + |o|);
      }
    }
  }

  // ----- one pass -----

  /** A body that a pass for the marker takes as a whole or leaves alone. */
  ghost predicate IsBody(u: Unicode, body: string, o: Marker) {
    FoldsWords(u) && IsNameMarker(o) && IsWholeValue(u, body) && IsSealed(u, body, o)
  }

  predicate EndsInMark(m: Marker) {
    m[|m| - 1] == '=' || m[|m| - 1] == ':'
  }

  lemma NothingBeforeBody(u: Unicode, a: string, m: Marker, body: string, rest: string, o: Marker)
    requires IsBody(u, body, o) && EndsInMark(m) && EndsWith(u, a, m) && Bounded(rest) && FindMarker(u, a, o, 0).None?
    ensures Pass(u, a + (body + rest), o) == a + (body + Pass(u, rest, o)) && o != m
  {
    hide Occurs, ValueEnd, Pass, IsPlainMarker, IsMarker, FoldsWords, IsWholeValue;
    NotFound(u, a, o);
    assert a + (body + rest) == a + body + rest;
    forall q: nat | q < |a + body| ensures !Occurs(u, a + body + rest, o, q) {
      NotAtOrBefore(u, a, m, body, rest, o, q);
    }
    PassBehind(u, a + body, rest, o);
    assert a + body + Pass(u, rest, o) == a + (body + Pass(u, rest, o));
  }

  lemma NotAtOrBefore(u: Unicode, a: string, m: Marker, body: string, rest: string, o: Marker, q: nat)
    requires IsBody(u, body, o) && EndsInMark(m) && EndsWith(u, a, m) && Bounded(rest) && q < |a + body|
    requires !Occurs(u, a, o, q)
    ensures !Occurs(u, a + body + rest, o, q)
  {
    hide Occurs, FoldsWords, IsWholeValue, IsMarker;
    var s, last := a + body + rest, |a| - 1;
    assert s == a + (body + rest);
    OccursAt(u, a, m, |a| - |m|, last);
    assert s[last] == a[last];
    if q + |o| <= |a| {
      OccursInPrefix(u, a, body + rest, o, q);
    } else if q >= |a| {
      OccursShift(u, a, body + rest, o, q - |a|);
    } else if Occurs(u, s, o, q) {
      OccursAt(u, s, o, q, last);
    }
  }

  lemma FindsTheSame(u: Unicode, a: string, s: string, o: Marker)
    requires FindMarker(u, a, o, 0).Some?
    ensures FindMarker(u, a + s, o, 0) == FindMarker(u, a, o, 0)
  {
    hide Occurs;
    var p := FindMarker(u, a, o, 0).value;
    OccursFits(u, a, o, p);
    forall q: nat | q <= p ensures Occurs(u, a + s, o, q) <==> q == p {
      OccursInPrefix(u, a, s, o, q);
    }
    FindsAt(u, a + s, o, 0, p);
  }

  lemma ValueAtBody(u: Unicode, a: string, body: string, rest: string)
    requires IsWholeValue(u, body) && Bounded(rest)
    ensures ValueEnd(u, a + (body + rest), |a|) == |a| + |body|
  {
    hide ValueEnd;
    ValueEndShift(u, a, body + rest, 0);
  }

  lemma ValueEndOfAll(u: Unicode, a: string)
    ensures ValueEnd(u, a, |a|) == |a|
  {
    hide Lower;
  }

  /** The pass for the other marker, from left to right: no value it replaces in front of this marker reaches it. */
  predicate Spares(u: Unicode, a: string, m: Marker, o: Marker)
    decreases |a|
  {
    match FindMarker(u, a, o, 0)
    case None => true
    case Some(p) =>
      var from := p + |o|;
      from == |a| || (var to := ValueEnd(u, a, from); to <= |a| - |m| && Spares(u, a[to..], m, o))
  }

  lemma {:induction false} ClearIsSpared(u: Unicode, a: string, m: Marker, o: Marker)
    requires IsClear(u, a, m, o) && |m| <= |a|
    ensures Spares(u, a, m, o)
    decreases |a|
  {
    hide Occurs, ValueEnd, FindMarker;
    var found := FindMarker(u, a, o, 0);
    if found.Some? && found.value + |o| < |a| {
      OccursFits(u, a, o, found.value);
      var to := ValueEnd(u, a, found.value + |o|);
      ClearSuffix(u, a, m, o, to);
      ClearIsSpared(u, a[to..], m, o);
    }
  }

  /** A pass that spares the marker is the pass around the body: it takes the body as a whole or leaves it behind its marker. */
  lemma {:induction false} SparingPassIsAround(u: Unicode, a: string, m: Marker, body: string, rest: string, o: Marker)
    requires IsBody(u, body, o) && EndsInMark(m) && EndsWith(u, a, m) && Bounded(rest) && Spares(u, a, m, o)
    ensures Pass(u, a + (body + rest), o) == Put(PassAround(u, a, rest, o), body)
    ensures IsHole(u, PassAround(u, a, rest, o), m) && (o == m ==> PassAround(u, a, rest, o).Gone?)
    decreases |a|
  {
    hide Occurs, ValueEnd, IsBody, EndsWith, FindMarker, Bounded, Pass, EndsInMark;
    var found := FindMarker(u, a, o, 0);
    EndFits(u, a, m);
    if found.None? {
      NothingBeforeBody(u, a, m, body, rest, o);
      PassStaysBounded(u, rest, o);
    } else {
      var from := found.value + |o|;
      OccursFits(u, a, o, found.value);
      FindsTheSame(u, a, body + rest, o);
      var to := ValueEnd(u, a, from);
      ValueAround(u, a, m, body, rest, o, from);
      PassFrom(u, a + (body + rest), o, from, if to == |a| then |a| + |body| else to);
      CutAround(a, body, rest, from, to);
      if to != |a| {
        EndsWithSuffix(u, a, m, to);
        SparingPassIsAround(u, a[to..], m, body, rest, o);
        var x := PassAround(u, a[to..], rest, o);
        if x.Left? {
          EndsWithFront(u, x.before, m, a[..from] + REDACTED);
        }
      }
    }
  }

  lemma EndFits(u: Unicode, a: string, m: Marker)
    requires EndsWith(u, a, m)
    ensures |m| <= |a|
  {
  }

  lemma ValueAround(u: Unicode, a: string, m: Marker, body: string, rest: string, o: Marker, from: nat)
    requires IsBody(u, body, o) && |m| <= |a| && Bounded(rest) && from <= |a|
    requires from == |a| || ValueEnd(u, a, from) <= |a| - |m|
    ensures var to := ValueEnd(u, a, from);
            && (to == |a| <==> from == |a|)
            && ValueEnd(u, a + (body + rest), from) == if to == |a| then |a| + |body| else to
  {
    hide ValueEnd, IsSealed, IsNameMarker;
    if from == |a| {
      ValueEndOfAll(u, a);
      ValueAtBody(u, a, body, rest);
    } else {
      ValueEndsInside(u, a, body + rest, from);
    }
  }

  /** What is clear for another marker stays so. */
  lemma {:induction false} PassKeepsClear(u: Unicode, a: string, m: Marker, rest: string, o: Marker, other: Marker)
    requires FoldsWords(u) && IsNameMarker(o) && IsNameMarker(other) && EndsWith(u, a, m)
    requires IsClear(u, a, m, o) && IsClear(u, a, m, other)
    ensures var x := PassAround(u, a, rest, o); x.Left? ==> IsClear(u, x.before, m, other) && |m| <= |x.before|
    decreases |a|
  {
    hide Occurs, ValueEnd, FindMarker, Pass, FoldsWords, IsNameMarker;
    var found := FindMarker(u, a, o, 0);
    if found.Some? {
      var from := found.value + |o|;
      OccursFits(u, a, o, found.value);
      var to := ValueEnd(u, a, from);
      if from == |a| {
        ValueEndOfAll(u, a);
      } else {
        EndsWithSuffix(u, a, m, to);
        ClearSuffix(u, a, m, o, to);
        ClearSuffix(u, a, m, other, to);
        PassKeepsClear(u, a[to..], m, rest, o, other);
        var x := PassAround(u, a[to..], rest, o);
        if x.Left? {
          ClearFront(u, a[..from], x.before, m, other);
        }
      }
    }
  }

  lemma MarkerOfField(f: string, m: Marker)
    requires m == f + "=" || m == f + ":" || m == "\"" + f + "\":"
    ensures EndsInMark(m) && m in MarkersOf(f)
  {
    var markers := MarkersOf(f);
    assert markers[0] in markers && markers[1] in markers && markers[2] in markers;
  }
}
