/**
 When a credential behind a scheme is redacted, exactly: a value of an earlier pass that reaches the marker takes the
 scheme at most, and the credential behind it stays in the text for good.
 */
module CredentialExposure {
  import opened Options
  import opened PythonText
  import opened InlineRedaction
  import opened RedactionTwice
  import opened SecretRemoval
  import opened CredentialRemoval
  import opened BearerPattern

  /** What the three markers of a plain field that is not empty have in common. */
  predicate IsProper(o: Marker) {
    && IsNameMarker(o) && EndsInMark(o) && |o| >= 2
    && (o[0] == '"' ==> |o| > 3 && o[|o| - 2] == '"' && o[|o| - 1] == ':')
    && forall k :: 0 < k < |o| && !IsSolid(o[k]) ==> k == |o| - 2 && o[0] == '"'
  }

  lemma ProperMarkers(f: string)
    requires IsPlainName(f) && f != []
    ensures forall o :: o in MarkersOf(f) ==> IsProper(o)
  {
    NameMarkers(f);
    hide IsNameMarker, IsSolid;
    ProperEnd(f, '=');
    ProperEnd(f, ':');
    ProperQuoted(f);
  }

  lemma ProperEnd(f: string, end: char)
    requires All(IsSolid, f) && f != [] && (end == '=' || end == ':') && IsNameMarker(f + [end])
    ensures IsProper(f + [end])
  {
    var o := f + [end];
    assert forall k :: 0 <= k < |f| ==> o[k] == f[k];
    assert IsSolid(end);
  }

  lemma ProperQuoted(f: string)
    requires All(IsSolid, f) && f != [] && IsNameMarker("\"" + f + "\":")
    ensures IsProper("\"" + f + "\":")
  {
    var o := "\"" + f + "\":";
    assert forall k :: 1 <= k <= |f| ==> o[k] == f[k - 1];
    assert o[0] == '"' && o[|f| + 1] == '"' && o[|f| + 2] == ':' && IsSolid(':');
  }

  // ----- the pass that reaches the marker -----

  /** The text up to the replacement that reaches the marker, and what is left of the marker behind it. */
  function Reach(u: Unicode, a: string, m: Marker, o: Marker): (r: (string, string))
    decreases |a|
  {
    match FindMarker(u, a, o, 0)
    case None => ([], [])
    case Some(p) =>
      var from := p + |o|;
      var to := ValueEnd(u, a, from);
      if from == |a| then ([], [])
      else if to <= |a| - |m| then
        var (wall, left) := Reach(u, a[to..], m, o);
        (a[..from] + REDACTED + wall, left)
      else (a[..from] + REDACTED, a[to..])
  }

  /** What a value that reaches a quoted marker leaves of it. */
  function Quote(m: Marker): (left: string) {
    if m[0] == '"' then "\":" else []
  }

  /** What the replacement leaves in front of the credential: the scheme goes along if it follows the marker at once. */
  function Remainder(left: string, lead: string, scheme: string, gap: string): (t: string) {
    if left == [] && lead == [] then gap else left + lead + scheme + gap
  }

  /** A value that reaches over the end of the text in front takes the scheme along at most. */
  lemma ValueReachesScheme(u: Unicode, a: string, m: Marker, scheme: string, gap: string, rest: string, from: nat)
    requires FoldsWords(u) && EndsInMark(m) && EndsWith(u, a, m) && from < |a| && ValueEnd(u, a, from) == |a|
    requires All(IsValueChar, scheme) && gap != [] && IsDelimiter(gap[0])
    ensures ValueEnd(u, a + (scheme + (gap + rest)), from) == |a| + |scheme|
  {
    hide Skip, Lower, EndsWith, Occurs;
    var s := scheme + (gap + rest);
    LastIsMark(u, a, m);
    var end := |a| - 1;
    SkipWithin(IsQuoteOrBlank, a, from, end);
    SkipAcross(IsQuoteOrBlank, a, s, from);
    var first := Skip(IsQuoteOrBlank, a, from);
    var schemeChar := c => IsSchemeChar(u, c);
    SkipWithin(schemeChar, a, first, end);
    SkipAcross(schemeChar, a, s, first);
    var schemeEnd := Skip(schemeChar, a, first);
    assert (a + s)[first..schemeEnd] == a[first..schemeEnd];
    SkipWithin(IsSpace, a, schemeEnd, end);
    SkipAcross(IsSpace, a, s, schemeEnd);
    SkipAcross(IsValueChar, a, s, Skip(IsSpace, a, schemeEnd));
    SkipAcross(IsValueChar, a, s, first);
    SchemeIsValueRun(scheme, gap, rest);
  }

  lemma SchemeIsValueRun(scheme: string, gap: string, rest: string)
    requires All(IsValueChar, scheme) && gap != [] && IsDelimiter(gap[0])
    ensures Skip(IsValueChar, scheme + (gap + rest), 0) == |scheme|
  {
    assert [] + scheme + (gap + rest) == scheme + (gap + rest);
    SkipRun(IsValueChar, [], scheme, gap + rest);
  }

  lemma LastIsMark(u: Unicode, a: string, m: Marker)
    requires FoldsWords(u) && EndsInMark(m) && EndsWith(u, a, m)
    ensures a != [] && IsSolid(a[|a| - 1]) && !IsSchemeChar(u, a[|a| - 1])
  {
    OccursAt(u, a, m, |a| - |m|, |a| - 1);
  }

  /** A value that ends in the marker ends at its closing quote. */
  lemma EndsAtClosingQuote(u: Unicode, a: string, m: Marker, from: nat)
    requires FoldsWords(u) && IsProper(m) && EndsWith(u, a, m) && from <= |a| && |a| - |m| < ValueEnd(u, a, from) < |a|
    ensures a[ValueEnd(u, a, from)..] == "\":" && m[0] == '"'
  {
    hide ValueEnd, Occurs, IsNameMarker;
    var to := ValueEnd(u, a, from);
    ValueStops(u, a, from);
    OccursAt(u, a, m, |a| - |m|, to);
    OccursAt(u, a, m, |a| - |m|, |a| - 1);
    assert a[to..][0] == a[to];
  }

  /** A value ends at a delimiter at the latest, unless it is a blank. */
  lemma ValueStopsAt(u: Unicode, s: string, from: nat, end: nat)
    requires FoldsWords(u) && from <= end < |s| && (s[end] == ']' || s[end] == '"') && Skip(IsQuoteOrBlank, s, from) <= end
    ensures ValueEnd(u, s, from) <= end
  {
    hide Skip, Lower;
    var first := Skip(IsQuoteOrBlank, s, from);
    var schemeChar := c => IsSchemeChar(u, c);
    SkipWithin(schemeChar, s, first, end);
    var schemeEnd := Skip(schemeChar, s, first);
    SkipWithin(IsSpace, s, schemeEnd, end);
    SkipWithin(IsValueChar, s, Skip(IsSpace, s, schemeEnd), end);
    SkipWithin(IsValueChar, s, first, end);
  }

  /** A value that starts in front of a quoted marker does not run through it. */
  lemma NotThroughQuotes(u: Unicode, a: string, m: Marker, o: Marker, p: nat)
    requires FoldsWords(u) && IsProper(m) && EndsWith(u, a, m) && m[0] == '"' && IsNameMarker(o) && Occurs(u, a, o, p)
    requires p + |o| < |a|
    ensures ValueEnd(u, a, p + |o|) < |a|
  {
    hide Skip, Occurs, ValueEnd, IsNameMarker;
    var end, at := |a| - 2, |a| - |m|;
    NameInFront(u, a, m);
    NotBehindName(u, a, m, o, p);
    SkipWithin(IsQuoteOrBlank, a, p + |o|, end - 1);
    ValueStopsAt(u, a, p + |o|, end);
  }

  lemma NameInFront(u: Unicode, a: string, m: Marker)
    requires FoldsWords(u) && IsProper(m) && EndsWith(u, a, m) && m[0] == '"'
    ensures |a| > 3 && !IsQuoteOrBlank(a[|a| - 3]) && a[|a| - 2] == '"'
  {
    hide Occurs, IsNameMarker;
    OccursAt(u, a, m, |a| - |m|, |a| - 3);
    OccursAt(u, a, m, |a| - |m|, |a| - 2);
  }

  lemma NotBehindName(u: Unicode, a: string, m: Marker, o: Marker, p: nat)
    requires FoldsWords(u) && IsProper(m) && EndsWith(u, a, m) && m[0] == '"' && IsNameMarker(o) && Occurs(u, a, o, p)
    requires p + |o| < |a|
    ensures p + |o| < |a| - 2
  {
    hide Occurs;
    var last, at := p + |o| - 1, |a| - |m|;
    OccursAt(u, a, o, p, last);
    if last >= |a| - 3 {
      OccursAt(u, a, m, at, last);
    }
  }

  lemma {:induction false} ReachIsWall(u: Unicode, a: string, m: Marker, o: Marker)
    requires FoldsWords(u) && IsProper(m) && IsNameMarker(o) && EndsWith(u, a, m) && !Spares(u, a, m, o)
    ensures var (wall, left) := Reach(u, a, m, o); IsWall(wall) && left == if m[0] == '"' then "\":" else []
    decreases |a|
  {
    hide Occurs, ValueEnd, EndsWith, FindMarker, IsProper, IsNameMarker, FoldsWords;
    var p := FindMarker(u, a, o, 0).value;
    var from := p + |o|;
    OccursFits(u, a, o, p);
    var to := ValueEnd(u, a, from);
    if to <= |a| - |m| {
      EndsWithSuffix(u, a, m, to);
      ReachIsWall(u, a[to..], m, o);
    } else if to < |a| {
      EndsAtClosingQuote(u, a, m, from);
    } else if m[0] == '"' {
      NotThroughQuotes(u, a, m, o, p);
    }
  }

  // ----- the credential behind it -----

  /** What is given of a credential: the preface, a run of characters, and the markers that do not occur in it. */
  ghost predicate IsCredential(u: Unicode, lead: string, scheme: string, gap: string, v: string, o: Marker) {
    FoldsWords(u) && IsPreface(u, lead, scheme, gap) && IsDelimiter(gap[0]) && v != [] && All(IsSolid, v) && IsProper(o) && Absent(u, v, o)
  }

  lemma CredentialBody(u: Unicode, lead: string, scheme: string, gap: string, v: string, o: Marker)
    requires IsCredential(u, lead, scheme, gap, v, o)
    ensures IsBody(u, lead + scheme + gap + v, o)
  {
    hide FoldsWords, IsPreface, IsSealed, IsWholeValue, IsNameMarker, Absent;
    CredentialIsValue(u, lead, scheme, gap, v);
    CredentialIsSealed(u, lead, scheme, gap, v, o);
  }

  lemma SealedBehind(u: Unicode, front: string, body: string, o: Marker)
    requires IsSealed(u, front + body, o)
    ensures IsSealed(u, body, o)
  {
    hide Occurs;
    forall rest: string, q: nat | Bounded(rest) && q < |body| ensures !Occurs(u, body + rest, o, q) {
      assert front + body + rest == front + (body + rest);
      assert !Occurs(u, front + body + rest, o, |front| + q);
      OccursShift(u, front, body + rest, o, q);
    }
  }

  lemma SealedBehindQuote(u: Unicode, body: string, o: Marker)
    requires FoldsWords(u) && IsProper(o) && IsSealed(u, body, o)
    ensures IsSealed(u, "\":" + body, o)
  {
    hide Occurs;
    var b := "\":" + body;
    forall rest: string, q: nat | Bounded(rest) && q < |b| ensures !Occurs(u, b + rest, o, q) {
      var s := b + rest;
      assert s == "\":" + (body + rest);
      assert s[0] == '"' && s[1] == ':';
      if q >= 2 {
        OccursShift(u, "\":", body + rest, o, q - 2);
      } else if Occurs(u, s, o, q) {
        OccursAt(u, s, o, q, q);
        OccursAt(u, s, o, q, 1);
      }
    }
  }

  lemma RemainderIsSealed(u: Unicode, left: string, lead: string, scheme: string, gap: string, v: string, o: Marker)
    requires IsCredential(u, lead, scheme, gap, v, o) && (left == [] || left == "\":")
    ensures IsSealed(u, Remainder(left, lead, scheme, gap) + v, o)
  {
    hide FoldsWords, IsPreface, IsSealed, IsProper, IsWholeValue, IsNameMarker, Absent;
    var body := lead + scheme + gap + v;
    CredentialBody(u, lead, scheme, gap, v, o);
    if left != [] {
      SealedBehindQuote(u, body, o);
      assert left + lead + scheme + gap + v == left + body;
    } else if lead == [] {
      assert body == scheme + (gap + v);
      SealedBehind(u, scheme, gap + v, o);
    } else {
      assert left + lead + scheme + gap + v == body;
    }
  }

  lemma PassOverSealed(u: Unicode, body: string, rest: string, o: Marker)
    requires IsSealed(u, body, o) && Bounded(rest)
    ensures Pass(u, body + rest, o) == body + Pass(u, rest, o)
  {
    hide Occurs, Pass, Bounded;
    PassBehind(u, body, rest, o);
  }

  /** A value that reaches the marker stops at once, at the white space behind the scheme, or at the marker's own quote. */
  predicate StopsAtOnce(m: Marker, lead: string, scheme: string, gap: string) {
    && All(IsValueChar, scheme)
    && (lead != [] ==> IsDelimiter(lead[0]))
    && (lead == [] && m[0] != '"' ==> gap != [] && IsDelimiter(gap[0]))
  }

  /** How far a value reaches that reaches the marker. */
  lemma ReachingValue(u: Unicode, a: string, m: Marker, lead: string, scheme: string, gap: string, more: string, o: Marker, p: nat)
    requires FoldsWords(u) && IsProper(m) && EndsWith(u, a, m) && StopsAtOnce(m, lead, scheme, gap)
    requires IsNameMarker(o) && Occurs(u, a, o, p) && p + |o| < |a|
    ensures ValueEnd(u, a + (lead + scheme + gap + more), p + |o|)
         == var to := ValueEnd(u, a, p + |o|); if to == |a| && lead == [] then |a| + |scheme| else to
  {
    hide ValueEnd, Occurs, EndsWith, IsProper, IsNameMarker, FoldsWords, EndsInMark;
    var from := p + |o|;
    if m[0] == '"' {
      NotThroughQuotes(u, a, m, o, p);
    }
    if ValueEnd(u, a, from) < |a| {
      ValueEndsInside(u, a, lead + scheme + gap + more, from);
    } else if lead == [] {
      assert lead + scheme + gap + more == scheme + (gap + more);
      MarkEnds(m);
      ValueReachesScheme(u, a, m, scheme, gap, more, from);
    } else {
      assert lead + scheme + gap + more == [] + (lead + (scheme + gap + more));
      MarkEnds(m);
      ValueReachesScheme(u, a, m, [], lead, scheme + gap + more, from);
    }
  }

  /** What a pass for a marker that reaches this one makes of scheme and credential does not depend on what they are. */
  ghost predicate IsExposable(u: Unicode, m: Marker, lead: string, scheme: string, gap: string, v: string, o: Marker) {
    && FoldsWords(u) && IsProper(m) && IsProper(o) && StopsAtOnce(m, lead, scheme, gap)
    && IsBody(u, lead + scheme + gap + v, o) && IsSealed(u, Remainder(Quote(m), lead, scheme, gap) + v, o)
  }

  lemma CredentialIsExposable(u: Unicode, m: Marker, lead: string, scheme: string, gap: string, v: string, o: Marker)
    requires IsCredential(u, lead, scheme, gap, v, o) && IsProper(m)
    ensures IsExposable(u, m, lead, scheme, gap, v, o)
  {
    hide IsProper, IsBody, IsSealed, Remainder, IsWholeValue, Absent;
    CredentialBody(u, lead, scheme, gap, v, o);
    RemainderIsSealed(u, Quote(m), lead, scheme, gap, v, o);
    SchemeCharacters(u, scheme);
  }

  lemma MarkEnds(m: Marker)
    requires IsProper(m)
    ensures EndsInMark(m)
  {
  }

  lemma NameOf(o: Marker)
    requires IsProper(o)
    ensures IsNameMarker(o)
  {
  }

  /** A pass that reaches the marker leaves the credential in the text. */
  lemma {:induction false} ReachedPassExposes(u: Unicode, a: string, m: Marker, lead: string, scheme: string, gap: string, v: string,
                                              rest: string, o: Marker)
    requires IsExposable(u, m, lead, scheme, gap, v, o) && EndsWith(u, a, m) && Bounded(rest) && !Spares(u, a, m, o)
    ensures var (wall, left) := Reach(u, a, m, o);
            Pass(u, a + (lead + scheme + gap + v + rest), o) == wall + (Remainder(left, lead, scheme, gap) + v + Pass(u, rest, o))
    decreases |a|
  {
    hide Occurs, ValueEnd, EndsWith, FindMarker, IsProper, FoldsWords, IsBody, StopsAtOnce, IsSealed, Pass, Bounded, Remainder;
    var t := lead + scheme + gap + v + rest;
    var from := FindMarker(u, a, o, 0).value + |o|;
    var to := ValueEnd(u, a, from);
    FirstReplacement(u, a, m, lead, scheme, gap, v, rest, o);
    if to <= |a| - |m| {
      EndsWithSuffix(u, a, m, to);
      assert (a + t)[to..] == a[to..] + t;
      ReachedPassExposes(u, a[to..], m, lead, scheme, gap, v, rest, o);
      var (wall, left) := Reach(u, a[to..], m, o);
      Regroup(a[..from], REDACTED, wall, Remainder(left, lead, scheme, gap) + v + Pass(u, rest, o));
    } else {
      LeftOver(u, a, m, o);
      RestBehindReach(a, lead, scheme, gap, v, rest, to);
      RemainderStays(u, m, lead, scheme, gap, v, rest, o);
    }
  }

  /** What the pass makes of the text up to its first replacement. */
  lemma FirstReplacement(u: Unicode, a: string, m: Marker, lead: string, scheme: string, gap: string, v: string, rest: string, o: Marker)
    requires IsExposable(u, m, lead, scheme, gap, v, o) && EndsWith(u, a, m) && FindMarker(u, a, o, 0).Some?
    requires FindMarker(u, a, o, 0).value + |o| < |a|
    ensures var t := lead + scheme + gap + v + rest;
            var from := FindMarker(u, a, o, 0).value + |o|; var to := ValueEnd(u, a, from);
            var end := if to == |a| && lead == [] then |a| + |scheme| else to;
            end <= |a + t| && Pass(u, a + t, o) == a[..from] + REDACTED + Pass(u, (a + t)[end..], o)
  {
    hide Occurs, ValueEnd, EndsWith, FindMarker, IsProper, FoldsWords, IsBody, StopsAtOnce, Pass, IsSealed, Remainder;
    var t := lead + scheme + gap + v + rest;
    var p := FindMarker(u, a, o, 0).value;
    var from := p + |o|;
    var to := ValueEnd(u, a, from);
    FindsTheSame(u, a, t, o);
    NameOf(o);
    assert t == lead + scheme + gap + (v + rest);
    ReachingValue(u, a, m, lead, scheme, gap, v + rest, o, p);
    PassFrom(u, a + t, o, from, if to == |a| && lead == [] then |a| + |scheme| else to);
    assert (a + t)[..from] == a[..from];
  }

  lemma {:induction false} LeftOver(u: Unicode, a: string, m: Marker, o: Marker)
    requires FoldsWords(u) && IsProper(m) && IsProper(o) && EndsWith(u, a, m) && !Spares(u, a, m, o)
    requires ValueEnd(u, a, FindMarker(u, a, o, 0).value + |o|) > |a| - |m|
    ensures a[ValueEnd(u, a, FindMarker(u, a, o, 0).value + |o|)..] == Reach(u, a, m, o).1 == Quote(m)
  {
    hide Occurs, ValueEnd, EndsWith, FindMarker, IsProper, FoldsWords;
    NameOf(o);
    ReachIsWall(u, a, m, o);
  }

  lemma RemainderStays(u: Unicode, m: Marker, lead: string, scheme: string, gap: string, v: string, rest: string, o: Marker)
    requires IsExposable(u, m, lead, scheme, gap, v, o) && Bounded(rest)
    ensures var t := Remainder(Quote(m), lead, scheme, gap); Pass(u, t + v + rest, o) == t + v + Pass(u, rest, o)
  {
    hide FoldsWords, IsProper, IsBody, StopsAtOnce, Pass, Bounded, IsSealed, Remainder;
    PassOverSealed(u, Remainder(Quote(m), lead, scheme, gap) + v, rest, o);
  }

  lemma RestBehindReach(a: string, lead: string, scheme: string, gap: string, v: string, rest: string, to: nat)
    requires to <= |a|
    ensures (a + (lead + scheme + gap + v + rest))[if to == |a| && lead == [] then |a| + |scheme| else to..]
         == Remainder(a[to..], lead, scheme, gap) + v + rest
  {
    if to == |a| && lead == [] {
      assert a + (lead + scheme + gap + v + rest) == (a + scheme) + (gap + v + rest);
    } else {
      assert a + (lead + scheme + gap + v + rest) == a[..to] + (a[to..] + lead + scheme + gap + v + rest);
    }
  }

  // ----- later passes -----

  /** A value in front of the end of a replacement ends there at the latest. */
  lemma ValueEndsAtWall(u: Unicode, wall: string, from: nat)
    requires FoldsWords(u) && IsWall(wall) && from < |wall|
    ensures ValueEnd(u, wall, from) < |wall|
  {
    hide Skip, ValueEnd;
    SkipWithin(IsQuoteOrBlank, wall, from, |wall| - 1);
    ValueStopsAt(u, wall, from, |wall| - 1);
  }

  lemma NotOverWall(u: Unicode, wall: string, s: string, o: Marker, q: nat)
    requires FoldsWords(u) && IsNameMarker(o) && IsWall(wall) && q < |wall| && Occurs(u, wall + s, o, q)
    ensures q + |o| < |wall|
  {
    hide Occurs;
    if q + |o| >= |wall| {
      OccursAt(u, wall + s, o, q, |wall| - 1);
    }
  }

  /** A pass works on both sides of the end of a replacement by itself. */
  lemma {:induction false} PassSplitsAtWall(u: Unicode, wall: string, s: string, o: Marker)
    requires FoldsWords(u) && IsNameMarker(o) && IsWall(wall)
    ensures Pass(u, wall + s, o) == Pass(u, wall, o) + Pass(u, s, o) && IsWall(Pass(u, wall, o))
    decreases |wall|
  {
    hide Occurs, ValueEnd, FindMarker, Pass, FoldsWords, IsNameMarker;
    var found := FindMarker(u, wall, o, 0);
    if found.None? {
      NotFound(u, wall, o);
      forall q: nat | q < |wall| ensures !Occurs(u, wall + s, o, q) {
        if Occurs(u, wall + s, o, q) {
          NotOverWall(u, wall, s, o, q);
          OccursInPrefix(u, wall, s, o, q);
        }
      }
      PassBehind(u, wall, s, o);
      NothingLeft(u, wall, o);
    } else {
      var p := found.value;
      var from := p + |o|;
      OccursFits(u, wall, o, p);
      FindsTheSame(u, wall, s, o);
      OccursFits(u, wall + s, o, p);
      assert Occurs(u, wall + s, o, p) by { OccursInPrefix(u, wall, s, o, p); }
      NotOverWall(u, wall, s, o, p);
      ValueEndsAtWall(u, wall, from);
      var to := ValueEnd(u, wall, from);
      ValueEndsInside(u, wall, s, from);
      PassFrom(u, wall, o, from, to);
      PassFrom(u, wall + s, o, from, to);
      assert (wall + s)[to..] == wall[to..] + s && (wall + s)[..from] == wall[..from];
      PassSplitsAtWall(u, wall[to..], s, o);
      Regroup4(wall[..from], REDACTED, Pass(u, wall[to..], o), Pass(u, s, o));
    }
  }

  ghost predicate AllSealed(u: Unicode, body: string, markers: seq<Marker>) {
    forall o :: o in markers ==> IsNameMarker(o) && IsSealed(u, body, o)
  }

  /** What stays in the text stays for good: later passes work in front of it and behind it only. */
  lemma {:induction false} LaterPassesKeep(u: Unicode, wall: string, body: string, rest: string, markers: seq<Marker>)
    requires FoldsWords(u) && AllSealed(u, body, markers) && IsWall(wall) && Bounded(rest)
    ensures PassAll(u, wall + (body + rest), markers) == PassAll(u, wall, markers) + (body + PassAll(u, rest, markers))
    ensures IsWall(PassAll(u, wall, markers)) && Bounded(PassAll(u, rest, markers))
  {
    hide FoldsWords, IsNameMarker, IsSealed, Pass, Bounded, IsWall;
    if markers != [] {
      var init, last := markers[..|markers| - 1], markers[|markers| - 1];
      assert last in markers && markers == init + [last];
      LaterPassesKeep(u, wall, body, rest, init);
      var w, r := PassAll(u, wall, init), PassAll(u, rest, init);
      PassSplitsAtWall(u, w, body + r, last);
      PassOverSealed(u, body, r, last);
      PassStaysBounded(u, r, last);
    }
  }

  lemma {:induction false} PassAllAppend(u: Unicode, s: string, first: seq<Marker>, second: seq<Marker>)
    ensures PassAll(u, s, first + second) == PassAll(u, PassAll(u, s, first), second)
  {
    hide Pass;
    if second == [] {
      assert first + second == first;
    } else {
      var init := second[..|second| - 1];
      assert (first + second)[..|first + second| - 1] == first + init;
      PassAllAppend(u, s, first, init);
    }
  }

  /** The markers of all fields in the order of their passes. */
  function AllMarkers(fields: seq<string>): (markers: seq<Marker>) {
    if fields == [] then [] else AllMarkers(fields[..|fields| - 1]) + MarkersOf(fields[|fields| - 1])
  }

  lemma {:induction false} FieldsAreMarkers(u: Unicode, s: string, fields: seq<string>)
    ensures PassFields(u, s, fields) == PassAll(u, s, AllMarkers(fields))
  {
    hide MarkersOf;
    if fields != [] {
      var init, last := fields[..|fields| - 1], fields[|fields| - 1];
      FieldsAreMarkers(u, s, init);
      PassAllAppend(u, s, AllMarkers(init), MarkersOf(last));
    }
  }

  // ----- all passes -----

  /** The front alone decides whether a pass takes the credential, and what it makes of the front. */
  lemma {:induction false} FrontAlone(u: Unicode, a: string, rest: string, o: Marker)
    ensures var x, y := PassAround(u, a, [], o), PassAround(u, a, rest, o);
            (x.Gone? <==> y.Gone?) && (y.Left? ==> y.before == x.before && y.after == Pass(u, rest, o))
    decreases |a|
  {
    hide Occurs, ValueEnd, FindMarker, Pass;
    var found := FindMarker(u, a, o, 0);
    if found.Some? {
      OccursFits(u, a, o, found.value);
      FrontAlone(u, a[ValueEnd(u, a, found.value + |o|)..], rest, o);
    }
  }

  /** No value that a pass for these markers replaces in front of the marker reaches it, up to the pass that takes the credential. */
  predicate SparedByAll(u: Unicode, a: string, m: Marker, markers: seq<Marker>)
    decreases |markers|
  {
    markers != [] ==>
      Spares(u, a, m, markers[0])
      && match PassAround(u, a, [], markers[0])
         case Gone(_) => true
         case Left(b, _) => SparedByAll(u, b, m, markers[1..])
  }

  lemma PassAllFirst(u: Unicode, s: string, markers: seq<Marker>)
    requires markers != []
    ensures PassAll(u, s, markers) == PassAll(u, Pass(u, s, markers[0]), markers[1..])
  {
    hide Pass;
    assert markers == [markers[0]] + markers[1..];
    PassAllAppend(u, s, [markers[0]], markers[1..]);
    assert [markers[0]][..0] == [];
    assert PassAll(u, s, [markers[0]]) == Pass(u, PassAll(u, s, []), markers[0]);
  }

  ghost predicate BothBodies(u: Unicode, b: string, c: string, o: Marker) {
    IsBody(u, b, o) && IsBody(u, c, o)
  }

  /** Spared up to its own pass, the credential plays no part in the result. */
  lemma {:induction false} SparedIsHidden(u: Unicode, a: string, m: Marker, b: string, c: string, rest: string, markers: seq<Marker>)
    requires (forall o :: o in markers ==> BothBodies(u, b, c, o)) && EndsInMark(m) && EndsWith(u, a, m) && Bounded(rest)
    requires m in markers && SparedByAll(u, a, m, markers)
    ensures PassAll(u, a + (b + rest), markers) == PassAll(u, a + (c + rest), markers)
    decreases |markers|
  {
    hide IsBody, EndsInMark, EndsWith, Bounded, Pass, PassAround, Spares, PassAll;
    var o := markers[0];
    assert BothBodies(u, b, c, o);
    SparingPassIsAround(u, a, m, b, rest, o);
    SparingPassIsAround(u, a, m, c, rest, o);
    FrontAlone(u, a, rest, o);
    PassAllFirst(u, a + (b + rest), markers);
    PassAllFirst(u, a + (c + rest), markers);
    var x := PassAround(u, a, rest, o);
    if x.Left? {
      SparedIsHidden(u, x.before, m, b, c, x.after, markers[1..]);
    }
  }

  /** The texts around what stays of the scheme and the credential. */
  datatype Exposure = Exposure(wall: string, after: string)

  function ExposedBy(u: Unicode, a: string, m: Marker, rest: string, markers: seq<Marker>): (x: Exposure)
    decreases |markers|
  {
    if markers == [] then Exposure([], [])
    else if !Spares(u, a, m, markers[0]) then
      Exposure(PassAll(u, Reach(u, a, m, markers[0]).0, markers[1..]), PassAll(u, Pass(u, rest, markers[0]), markers[1..]))
    else
      match PassAround(u, a, [], markers[0])
      case Gone(_) => Exposure([], [])
      case Left(b, _) => ExposedBy(u, b, m, Pass(u, rest, markers[0]), markers[1..])
  }

  /** Not spared, what stays of the scheme and the credential stays in the text behind all passes. */
  lemma {:induction false} ReachedIsExposed(u: Unicode, a: string, m: Marker, lead: string, scheme: string, gap: string, v: string,
                                            rest: string, markers: seq<Marker>)
    requires (forall o :: o in markers ==> IsExposable(u, m, lead, scheme, gap, v, o)) && IsProper(m)
    requires EndsWith(u, a, m) && Bounded(rest) && !SparedByAll(u, a, m, markers)
    ensures var x := ExposedBy(u, a, m, rest, markers);
            && IsWall(x.wall) && Bounded(x.after)
            && PassAll(u, a + (lead + scheme + gap + v + rest), markers)
               == x.wall + (Remainder(Quote(m), lead, scheme, gap) + v + x.after)
    decreases |markers|
  {
    hide IsProper, EndsWith, Bounded, Pass, PassAround, Spares, PassAll, Reach, IsWall, IsBody, IsSealed, StopsAtOnce, FoldsWords;
    var o, body := markers[0], lead + scheme + gap + v;
    PassAllFirst(u, a + (body + rest), markers);
    if Spares(u, a, m, o) {
      assert IsExposable(u, m, lead, scheme, gap, v, o);
      MarkEnds(m);
      SparingPassIsAround(u, a, m, body, rest, o);
      FrontAlone(u, a, rest, o);
      var x := PassAround(u, a, rest, o);
      ReachedIsExposed(u, x.before, m, lead, scheme, gap, v, x.after, markers[1..]);
    } else {
      ReachedByFirst(u, a, m, lead, scheme, gap, v, rest, markers);
    }
  }

  lemma ReachedByFirst(u: Unicode, a: string, m: Marker, lead: string, scheme: string, gap: string, v: string,
                       rest: string, markers: seq<Marker>)
    requires (forall o :: o in markers ==> IsExposable(u, m, lead, scheme, gap, v, o)) && IsProper(m)
    requires EndsWith(u, a, m) && Bounded(rest) && markers != [] && !Spares(u, a, m, markers[0])
    ensures var x := ExposedBy(u, a, m, rest, markers);
            && IsWall(x.wall) && Bounded(x.after)
            && PassAll(u, Pass(u, a + (lead + scheme + gap + v + rest), markers[0]), markers[1..])
               == x.wall + (Remainder(Quote(m), lead, scheme, gap) + v + x.after)
  {
    hide FoldsWords, IsProper, IsNameMarker, IsBody, StopsAtOnce, EndsWith, Bounded, Pass, PassAround, Spares, PassAll, Reach, IsWall, IsSealed;
    var o := markers[0];
    var (wall, left) := Reach(u, a, m, o);
    assert IsExposable(u, m, lead, scheme, gap, v, o);
    NameOf(o);
    ReachIsWall(u, a, m, o);
    assert left == Quote(m);
    ReachedPassExposes(u, a, m, lead, scheme, gap, v, rest, o);
    PassStaysBounded(u, rest, o);
    var stays := Remainder(left, lead, scheme, gap) + v;
    forall other | other in markers[1..] ensures IsNameMarker(other) && IsSealed(u, stays, other) {
      assert other in markers && IsExposable(u, m, lead, scheme, gap, v, other);
      NameOf(other);
    }
    LaterPassesKeep(u, wall, stays, Pass(u, rest, o), markers[1..]);
  }

  // ----- when the credential is gone -----

  lemma {:induction false} MarkerHasField(fields: seq<string>, o: Marker) returns (f: string)
    requires o in AllMarkers(fields)
    ensures f in fields && o in MarkersOf(f)
  {
    hide MarkersOf;
    var init, last := fields[..|fields| - 1], fields[|fields| - 1];
    if o in MarkersOf(last) {
      f := last;
    } else {
      f := MarkerHasField(init, o);
    }
  }

  lemma {:induction false} FieldHasMarkers(fields: seq<string>, i: nat, o: Marker)
    requires i < |fields| && o in MarkersOf(fields[i])
    ensures o in AllMarkers(fields)
  {
    hide MarkersOf;
    if i < |fields| - 1 {
      FieldHasMarkers(fields[..|fields| - 1], i, o);
    }
  }

  /** A run of characters in which no field's marker occurs. */
  ghost predicate IsToken(u: Unicode, v: string, fields: seq<string>) {
    IsOneRun(v) && NoFieldOccurs(u, v, fields)
  }

  lemma TokenIsCredential(u: Unicode, lead: string, scheme: string, gap: string, v: string, fields: seq<string>)
    requires FoldsWords(u) && forall f :: f in fields ==> IsPlainName(f) && f != []
    requires IsPreface(u, lead, scheme, gap) && EndsValue(gap[0]) && IsToken(u, v, fields)
    ensures forall o :: o in AllMarkers(fields) ==> IsCredential(u, lead, scheme, gap, v, o)
  {
    hide FoldsWords, IsPlainName, MarkersOf, Absent, IsProper, AllMarkers, IsScheme, Lower;
    ClassesAgree(u, v, []);
    assert IsDelimiter(gap[0]);
    forall o | o in AllMarkers(fields) ensures IsProper(o) && Absent(u, v, o) {
      var f := MarkerHasField(fields, o);
      ProperMarkers(f);
      assert NoneOccurs(u, v, MarkersOf(f));
    }
  }

  /** The scheme is the one of the bearer pattern, and no value that reaches the marker takes it along. */
  predicate LeftToPattern(m: Marker, lead: string, scheme: string) {
    MatchesWord(scheme, "bearer") && (lead != [] || m[0] == '"')
  }

  lemma LeftIsBefore(u: Unicode, m: Marker, lead: string, scheme: string, gap: string)
    requires IsPreface(u, lead, scheme, gap)
    ensures IsBefore(Quote(m) + lead) && (Quote(m) == [] <==> m[0] != '"')
  {
    hide IsScheme, Lower;
    assert Quote(m) == [] || (Quote(m)[0] == '"' && Quote(m)[1] == ':');
  }

  /** What the substitution makes of a credential that all passes have left in the text. */
  lemma PatternTakes(u: Unicode, m: Marker, lead: string, scheme: string, gap: string, v: string, after: string)
    requires FoldsWords(u) && IsPreface(u, lead, scheme, gap) && LeftToPattern(m, lead, scheme)
    requires v != [] && All(IsTokenChar, v) && Bounded(after)
    ensures var t := Remainder(Quote(m), lead, scheme, gap); SubBearer(u, t + v + after, 0) == t + REDACTED + SubBearer(u, after, 0)
  {
    hide FoldsWords, SubBearer, MatchesWord, IsTokenChar, Bounded, IsBefore, Lower, IsScheme;
    LeftIsBefore(u, m, lead, scheme, gap);
    BearerIsTaken(u, Quote(m) + lead, scheme, gap, v, after);
  }

  lemma PatternLeaves(u: Unicode, m: Marker, lead: string, scheme: string, gap: string, v: string)
    requires FoldsWords(u) && IsPreface(u, lead, scheme, gap) && All(IsSolid, v) && !LeftToPattern(m, lead, scheme)
    ensures IsNoBearer(Remainder(Quote(m), lead, scheme, gap) + v)
  {
    hide FoldsWords, MatchesWord, WordBeforeSpace, IsBefore, Lower, IsScheme, IsSchemeText, IsLetter, All;
    LeftIsBefore(u, m, lead, scheme, gap);
    if MatchesWord(scheme, "bearer") {
      NoWordInGap(gap, v);
    } else if Quote(m) == [] && lead == [] {
      NoWordInGap(gap, v);
    } else {
      BeforeIsNoWord(u, Quote(m) + lead);
      SchemeText(u, scheme);
      forall i: nat ensures !WordBeforeSpace(Quote(m) + lead + scheme + gap + v, i) {
        NoWordAt(Quote(m) + lead, scheme, gap, v, i);
      }
    }
  }

  /** Two runs of characters in front of delimiters are told apart. */
  lemma RunsDiffer(front: string, v: string, w: string, r: string, q: string)
    requires All(IsSolid, v) && All(IsSolid, w) && Bounded(r) && Bounded(q) && front + (v + r) == front + (w + q)
    ensures v == w
  {
    hide Skip, Bounded;
    assert v + r == (front + (v + r))[|front|..];
    assert w + q == (front + (w + q))[|front|..];
    SecretIsValueRun(v, r);
    SecretIsValueRun(w, q);
    assert v == (v + r)[..|v|] && w == (w + q)[..|w|];
  }

  /** What the substitution does not take stays different. */
  lemma UntakenDiffer(u: Unicode, wall: string, t: string, v: string, w: string, after: string)
    requires FoldsWords(u) && IsWall(wall) && Bounded(after) && v != w && All(IsSolid, v) && All(IsSolid, w)
    requires IsNoBearer(t + v) && IsNoBearer(t + w)
    ensures SubBearer(u, wall + (t + v + after), 0) != SubBearer(u, wall + (t + w + after), 0)
  {
    hide FoldsWords, IsNoBearer, SubBearer, Bounded, All, IsWall;
    WallIsNoWord(u);
    SubSplitsAtWall(u, wall, t + v + after, 0);
    SubSplitsAtWall(u, wall, t + w + after, 0);
    var r := SubKeeps(u, t + v, after, 0);
    var q := SubKeeps(u, t + w, after, 0);
    var front := SubBearer(u, wall, 0) + t;
    assert SubBearer(u, wall, 0) + ((t + v)[0..] + r) == front + (v + r);
    assert SubBearer(u, wall, 0) + ((t + w)[0..] + q) == front + (w + q);
    if front + (v + r) == front + (w + q) {
      RunsDiffer(front, v, w, r, q);
    }
  }

  lemma ExposedTellsApart(u: Unicode, m: Marker, lead: string, scheme: string, gap: string, v: string, w: string, wall: string,
                          after: string)
    requires FoldsWords(u) && IsPreface(u, lead, scheme, gap) && IsWall(wall) && Bounded(after) && v != w
    requires v != [] && All(IsSolid, v) && w != [] && All(IsSolid, w)
    requires LeftToPattern(m, lead, scheme) ==> All(IsTokenChar, v) && All(IsTokenChar, w)
    ensures var t := Remainder(Quote(m), lead, scheme, gap);
            SubBearer(u, wall + (t + v + after), 0) == SubBearer(u, wall + (t + w + after), 0) <==> LeftToPattern(m, lead, scheme)
  {
    hide FoldsWords, IsPreface, LeftToPattern, IsNoBearer, SubBearer, Bounded, Remainder, All, IsWall;
    var t := Remainder(Quote(m), lead, scheme, gap);
    if LeftToPattern(m, lead, scheme) {
      WallIsNoWord(u);
      SubSplitsAtWall(u, wall, t + v + after, 0);
      SubSplitsAtWall(u, wall, t + w + after, 0);
      PatternTakes(u, m, lead, scheme, gap, v, after);
      PatternTakes(u, m, lead, scheme, gap, w, after);
    } else {
      PatternLeaves(u, m, lead, scheme, gap, v);
      PatternLeaves(u, m, lead, scheme, gap, w);
      UntakenDiffer(u, wall, t, v, w, after);
    }
  }

  lemma WallIsNoWord(u: Unicode)
    requires FoldsWords(u)
    ensures !IsWordChar(u, ']')
  {
  }

  /**
   Exactly when a credential behind a scheme is redacted: two different ones behind a field's marker are redacted to the
   same text if and only if no value that an earlier pass replaces in front of the marker reaches it, or the scheme is
   the bearer pattern's and is left in the text for it.
   */
  lemma CredentialIsGoneIff(u: Unicode, a: string, lead: string, scheme: string, gap: string, v: string, w: string, rest: string,
                            fields: seq<string>, i: nat, m: Marker)
    requires FoldsWords(u) && i < |fields| && forall f :: f in fields ==> IsPlainName(f) && f != []
    requires m == fields[i] + "=" || m == fields[i] + ":" || m == "\"" + fields[i] + "\":"
    requires EndsWith(u, a, m) && IsPreface(u, lead, scheme, gap) && EndsValue(gap[0]) && IsBehindValue(rest)
    requires IsToken(u, v, fields) && IsToken(u, w, fields) && v != w
    requires LeftToPattern(m, lead, scheme) ==> All(IsTokenChar, v) && All(IsTokenChar, w)
    ensures RedactInline(u, a + (lead + scheme + gap + v + rest), fields) == RedactInline(u, a + (lead + scheme + gap + w + rest), fields)
       <==> SparedByAll(u, a, m, AllMarkers(fields)) || LeftToPattern(m, lead, scheme)
  {
    hide FoldsWords, EndsWith, IsPlainName, IsPreface, PassFields, SubBearer, Bounded, MarkersOf, IsBehindValue, EndsInMark,
         IsCredential, IsProper, AllMarkers, SparedByAll, PassAll, LeftToPattern, Remainder, ExposedBy, IsWall, NoFieldOccurs;
    var markers, s, t := AllMarkers(fields), a + (lead + scheme + gap + v + rest), a + (lead + scheme + gap + w + rest);
    ClassesAgree(u, v, rest);
    ClassesAgree(u, w, rest);
    MarkerOfField(fields[i], m);
    ProperMarkers(fields[i]);
    FieldHasMarkers(fields, i, m);
    TokenIsCredential(u, lead, scheme, gap, v, fields);
    TokenIsCredential(u, lead, scheme, gap, w, fields);
    FieldsAreMarkers(u, s, fields);
    FieldsAreMarkers(u, t, fields);
    if SparedByAll(u, a, m, markers) {
      forall o | o in markers ensures BothBodies(u, lead + scheme + gap + v, lead + scheme + gap + w, o) {
        CredentialBody(u, lead, scheme, gap, v, o);
        CredentialBody(u, lead, scheme, gap, w, o);
      }
      SparedIsHidden(u, a, m, lead + scheme + gap + v, lead + scheme + gap + w, rest, markers);
    } else {
      forall o | o in markers ensures IsExposable(u, m, lead, scheme, gap, v, o) && IsExposable(u, m, lead, scheme, gap, w, o) {
        CredentialIsExposable(u, m, lead, scheme, gap, v, o);
        CredentialIsExposable(u, m, lead, scheme, gap, w, o);
      }
      ReachedIsExposed(u, a, m, lead, scheme, gap, v, rest, markers);
      ReachedIsExposed(u, a, m, lead, scheme, gap, w, rest, markers);
      var x := ExposedBy(u, a, m, rest, markers);
      ExposedTellsApart(u, m, lead, scheme, gap, v, w, x.wall, x.after);
    }
  }

  lemma {:induction false} LaterFieldsAgree(u: Unicode, s: string, t: string, fields: seq<string>, k: nat)
    requires k <= |fields| && PassFields(u, s, fields[..k]) == PassFields(u, t, fields[..k])
    ensures PassFields(u, s, fields) == PassFields(u, t, fields)
  {
    hide PassAll, MarkersOf;
    if k == |fields| {
      assert fields[..k] == fields;
    } else {
      assert fields[..|fields| - 1][..k] == fields[..k];
      LaterFieldsAgree(u, s, t, fields[..|fields| - 1], k);
    }
  }

  lemma {:induction false} ClearIsSparedByAll(u: Unicode, a: string, m: Marker, markers: seq<Marker>)
    requires FoldsWords(u) && EndsWith(u, a, m) && forall o :: o in markers ==> IsNameMarker(o) && IsClear(u, a, m, o)
    ensures SparedByAll(u, a, m, markers)
    decreases |markers|
  {
    hide FoldsWords, EndsWith, IsNameMarker, IsClear, Spares, PassAround;
    if markers != [] {
      var o := markers[0];
      EndFits(u, a, m);
      ClearIsSpared(u, a, m, o);
      var x := PassAround(u, a, [], o);
      if x.Left? {
        StaysBehind(u, a, m, o);
        forall other | other in markers[1..] ensures IsNameMarker(other) && IsClear(u, x.before, m, other) {
          PassKeepsClear(u, a, m, [], o, other);
        }
        ClearIsSparedByAll(u, x.before, m, markers[1..]);
      }
    }
  }

  /** What a sparing pass leaves of the front ends in the marker. */
  lemma {:induction false} StaysBehind(u: Unicode, a: string, m: Marker, o: Marker)
    requires EndsWith(u, a, m) && Spares(u, a, m, o) && PassAround(u, a, [], o).Left?
    ensures EndsWith(u, PassAround(u, a, [], o).before, m)
    decreases |a|
  {
    hide Occurs, ValueEnd, EndsWith, FindMarker, Pass;
    var found := FindMarker(u, a, o, 0);
    if found.Some? {
      var from := found.value + |o|;
      OccursFits(u, a, o, found.value);
      ValueEndOfAll(u, a);
      var to := ValueEnd(u, a, from);
      EndsWithSuffix(u, a, m, to);
      StaysBehind(u, a[to..], m, o);
      EndsWithFront(u, PassAround(u, a[to..], [], o).before, m, a[..from] + REDACTED);
    }
  }

  lemma TokenIsBody(u: Unicode, lead: string, scheme: string, gap: string, v: string, fields: seq<string>, o: Marker)
    requires FoldsWords(u) && forall f :: f in fields ==> IsPlainName(f)
    requires IsPreface(u, lead, scheme, gap) && IsToken(u, v, fields) && o in AllMarkers(fields)
    ensures IsBody(u, lead + scheme + gap + v, o)
  {
    hide FoldsWords, IsPlainName, MarkersOf, Absent, AllMarkers, IsPreface, IsWholeValue, IsSealed, IsNameMarker;
    ClassesAgree(u, v, []);
    var f := MarkerHasField(fields, o);
    NameMarkers(f);
    assert NoneOccurs(u, v, MarkersOf(f));
    CredentialIsValue(u, lead, scheme, gap, v);
    CredentialIsSealed(u, lead, scheme, gap, v, o);
  }

  /**
   Behind each of a field's markers, quotes and blanks, one of the five schemes in any letter case and white space, two
   credentials without markers are redacted to the same text, provided that behind no marker of this field or an
   earlier one the value that starts further in front reaches the marker.
   */
  lemma CredentialIsGone(u: Unicode, a: string, lead: string, scheme: string, gap: string, v: string, w: string, rest: string,
                         fields: seq<string>, i: nat, m: Marker)
    requires FoldsWords(u) && i < |fields| && forall f :: f in fields ==> IsPlainName(f)
    requires m == fields[i] + "=" || m == fields[i] + ":" || m == "\"" + fields[i] + "\":"
    requires EndsWith(u, a, m) && forall o :: o in AllMarkers(fields[..i + 1]) ==> IsClear(u, a, m, o)
    requires IsPreface(u, lead, scheme, gap) && IsBehindValue(rest)
    requires IsToken(u, v, fields) && IsToken(u, w, fields)
    ensures RedactInline(u, a + (lead + scheme + gap + v + rest), fields) == RedactInline(u, a + (lead + scheme + gap + w + rest), fields)
  {
    hide FoldsWords, EndsWith, IsPlainName, IsPreface, PassFields, SubBearer, Bounded, MarkersOf, IsBehindValue, EndsInMark,
         AllMarkers, SparedByAll, PassAll, IsClear, IsNameMarker, IsToken, IsBody;
    var upTo, b, c := fields[..i + 1], lead + scheme + gap + v, lead + scheme + gap + w;
    var markers := AllMarkers(upTo);
    ClassesAgree(u, v, rest);
    MarkerOfField(fields[i], m);
    FieldHasMarkers(upTo, i, m);
    FewerFields(u, v, fields, i);
    FewerFields(u, w, fields, i);
    forall o | o in markers ensures IsNameMarker(o) && BothBodies(u, b, c, o) {
      TokenIsBody(u, lead, scheme, gap, v, upTo, o);
      TokenIsBody(u, lead, scheme, gap, w, upTo, o);
      BodyHasName(u, b, o);
    }
    ClearIsSparedByAll(u, a, m, markers);
    SparedIsHidden(u, a, m, b, c, rest, markers);
    FieldsAreMarkers(u, a + (b + rest), upTo);
    FieldsAreMarkers(u, a + (c + rest), upTo);
    LaterFieldsAgree(u, a + (b + rest), a + (c + rest), fields, i + 1);
  }

  lemma BodyHasName(u: Unicode, body: string, o: Marker)
    requires IsBody(u, body, o)
    ensures IsNameMarker(o)
  {
  }

  lemma FewerFields(u: Unicode, v: string, fields: seq<string>, i: nat)
    requires IsToken(u, v, fields) && i < |fields|
    ensures IsToken(u, v, fields[..i + 1])
  {
    hide NoneOccurs, IsOneRun;
  }

  // ----- two examples -----

  /** A value of one field can take the scheme of the next: the credential stays in the text. */
  lemma ReachedCredentialStays(v: string, w: string)
    requires IsToken(ASCII, v, ["a", "b"]) && IsToken(ASCII, w, ["a", "b"]) && v != w
    ensures RedactInline(ASCII, "a=b=basic " + v, ["a", "b"]) != RedactInline(ASCII, "a=b=basic " + w, ["a", "b"])
  {
    hide RedactInline, IsToken, FoldsWords, AllMarkers, SparedByAll, IsPreface, EndsWith;
    AsciiFoldsWords();
    ReachedFront();
    assert "a=b=basic " + v == "a=b=" + ([] + "basic" + " " + v + []);
    assert "a=b=basic " + w == "a=b=" + ([] + "basic" + " " + w + []);
    CredentialIsGoneIff(ASCII, "a=b=", [], "basic", " ", v, w, [], ["a", "b"], 1, "b=");
  }

  lemma ReachedFront()
    ensures EndsWith(ASCII, "a=b=", "b=") && IsPreface(ASCII, [], "basic", " ")
    ensures !SparedByAll(ASCII, "a=b=", "b=", AllMarkers(["a", "b"]))
  {
    hide ValueEnd, AllMarkers;
    FirstMarkers("a", "b");
    assert Lower(ASCII, "basic") == "basic";
    assert Lower(ASCII, "b=") == "b=" && "a=b="[2..] == "b=";
    assert Occurs(ASCII, "a=b=", "a=", 0);
    ValueTakesMarker();
  }

  lemma ValueTakesMarker()
    ensures ValueEnd(ASCII, "a=b=", 2) == 4
  {
  }

  lemma FirstMarkers(f: string, g: string)
    ensures AllMarkers([f, g]) != [] && AllMarkers([f, g])[0] == f + "="
  {
    assert [f, g][..1] == [f];
    assert [f][..0] == [];
    assert AllMarkers([f]) == AllMarkers([]) + MarkersOf(f);
  }

  /** Behind the platform's own `authorization:` and a blank a bearer token is redacted whatever stands in front. */
  lemma BearerTokenIsGone(a: string, v: string, w: string, rest: string)
    requires IsToken(ASCII, v, DEFAULT_REDACT_FIELDS) && IsToken(ASCII, w, DEFAULT_REDACT_FIELDS)
    requires All(IsOfToken, v) && All(IsOfToken, w) && IsBehindValue(rest)
    ensures RedactInline(ASCII, a + "authorization: Bearer " + v + rest, DEFAULT_REDACT_FIELDS)
         == RedactInline(ASCII, a + "authorization: Bearer " + w + rest, DEFAULT_REDACT_FIELDS)
  {
    hide RedactInline, IsToken, FoldsWords, AllMarkers, SparedByAll, IsPreface, EndsWith, All, IsPlainName;
    AsciiFoldsWords();
    PlatformNames();
    BearerFront(a);
    var front := a + "authorization:";
    BearerText(a, v, rest);
    BearerText(a, w, rest);
    SameTokens(v);
    SameTokens(w);
    if v != w {
      CredentialIsGoneIff(ASCII, front, " ", "Bearer", " ", v, w, rest, DEFAULT_REDACT_FIELDS, 0, "authorization:");
    }
  }

  lemma SameTokens(v: string)
    requires All(IsOfToken, v)
    ensures All(IsTokenChar, v)
  {
  }

  lemma BearerText(a: string, v: string, rest: string)
    ensures a + "authorization: Bearer " + v + rest == a + "authorization:" + (" " + "Bearer" + " " + v + rest)
  {
    assert "authorization: Bearer " == "authorization:" + " " + "Bearer" + " ";
  }

  lemma PlatformNames()
    ensures forall f :: f in DEFAULT_REDACT_FIELDS ==> IsPlainName(f) && f != []
    ensures DEFAULT_REDACT_FIELDS != [] && "authorization:" == DEFAULT_REDACT_FIELDS[0] + ":"
  {
    hide IsPlainField, Without;
    DefaultFieldsArePlain();
    DefaultFieldsAreNested();
  }

  lemma BearerFront(a: string)
    ensures EndsWith(ASCII, a + "authorization:", "authorization:") && IsPreface(ASCII, " ", "Bearer", " ")
    ensures LeftToPattern("authorization:", " ", "Bearer")
  {
    var m := "authorization:";
    assert (a + m)[|a|..] == m;
    assert Lower(ASCII, m) == m;
    assert Lower(ASCII, "Bearer") == "bearer";
  }
}
