/**
 Secrets without a scheme behind quotes and blanks, as in the text of a JSON member: behind each of a field's three
 markers one secret is as good as another, unless a value in front of the marker runs into it.
 */
module LeadingSecrets {
  import opened Options
  import opened PythonText
  import opened InlineRedaction
  import opened RedactionTwice
  import opened SecretRemoval
  import opened CredentialRemoval
  import opened BearerPattern
  import opened CredentialExposure

  predicate IsBlankOrQuotes(lead: string) {
    forall i :: 0 <= i < |lead| ==> lead[i] == ' ' || lead[i] == '\'' || lead[i] == '"'
  }

  /** The secret is not the name of a field, which with quotes around it and a colon behind it would be a marker. */
  predicate IsNoName(u: Unicode, v: string, o: Marker) {
    "\"" + Lower(u, v) + "\":" != o
  }

  lemma QuotedName(u: Unicode, s: string, o: Marker, q: nat, v: string)
    requires IsProper(o) && o[0] == '"' && Occurs(u, s, o, q) && |o| == |v| + 3 && q + |o| <= |s| && s[q + 1..q + 1 + |v|] == v
    ensures "\"" + Lower(u, v) + "\":" == o
  {
    hide Occurs, IsNameMarker, Lower;
    var l := Lower(u, v);
    forall k: nat | k < |v| ensures l[k] == o[k + 1] {
      OccursAt(u, s, o, q, q + 1 + k);
      assert s[q + 1..q + 1 + |v|][k] == s[q + 1 + k];
    }
    assert "\"" + l + "\":" == o by {
      assert |"\"" + l + "\":"| == |o|;
    }
  }

  /** The three parts of the text, position by position. */
  lemma PartIs(lead: string, v: string, rest: string, i: nat)
    requires i < |lead + v + rest|
    ensures var s := lead + v + rest; var b := |lead| + |v|;
            s[i] == if i < |lead| then lead[i] else if i < b then v[i - |lead|] else rest[i - b]
  {
  }

  lemma SecretSealedAt(u: Unicode, lead: string, v: string, rest: string, o: Marker, q: nat)
    requires FoldsWords(u) && IsBlankOrQuotes(lead) && v != [] && All(IsSolid, v) && IsProper(o) && Absent(u, v, o) && IsNoName(u, v, o)
    requires Bounded(rest) && q < |lead + v|
    ensures !Occurs(u, lead + v + rest, o, q)
  {
    hide Occurs, Lower, IsNoName, IsPlainMarker, IsMarker;
    var s, b := lead + v + rest, |lead| + |v|;
    if Occurs(u, s, o, q) {
      OccursFits(u, s, o, q);
      OccursAt(u, s, o, q, q);
      PartIs(lead, v, rest, q);
      if q < |lead| {
        InLead(u, lead, v, rest, o, q);
      } else if q + |o| <= b {
        assert s == lead + (v + rest);
        OccursShift(u, lead, v + rest, o, q - |lead|);
        OccursInPrefix(u, v, rest, o, q - |lead|);
      } else {
        PartIs(lead, v, rest, b);
        OccursAt(u, s, o, q, b);
      }
    }
  }

  /** A quoted marker that starts in front of the secret is the secret between quotes. */
  lemma InLead(u: Unicode, lead: string, v: string, rest: string, o: Marker, q: nat)
    requires FoldsWords(u) && IsBlankOrQuotes(lead) && v != [] && All(IsSolid, v) && IsProper(o) && IsNoName(u, v, o)
    requires q < |lead| && o[0] == '"' && Bounded(rest)
    ensures !Occurs(u, lead + v + rest, o, q)
  {
    hide Occurs, Lower, IsNoName, IsPlainMarker, IsMarker;
    var s, b := lead + v + rest, |lead| + |v|;
    if Occurs(u, s, o, q) {
      OccursFits(u, s, o, q);
      var end := q + |o| - 2;
      PartIs(lead, v, rest, q + 1);
      PartIs(lead, v, rest, end);
      OccursAt(u, s, o, q, q + 1);
      OccursAt(u, s, o, q, end);
      if q + 1 == |lead| && end >= b {
        PartIs(lead, v, rest, b);
        OccursAt(u, s, o, q, b);
        IsTheName(u, lead, v, rest, o, q);
      }
    }
  }

  lemma IsTheName(u: Unicode, lead: string, v: string, rest: string, o: Marker, q: nat)
    requires IsProper(o) && o[0] == '"' && q + 1 == |lead| && |o| == |v| + 3 && Occurs(u, lead + v + rest, o, q)
    ensures !IsNoName(u, v, o)
  {
    hide Occurs, Lower, IsNameMarker;
    var s := lead + v + rest;
    OccursFits(u, s, o, q);
    assert s[q + 1..q + 1 + |v|] == v;
    QuotedName(u, s, o, q, v);
  }

  lemma SecretIsWhole(u: Unicode, lead: string, v: string)
    requires FoldsWords(u) && IsBlankOrQuotes(lead) && v != [] && All(IsSolid, v) && Lower(u, v) !in AUTH_SCHEMES
    ensures IsWholeValue(u, lead + v)
  {
    hide ValueEnd, Lower;
    forall rest: string | Bounded(rest) ensures ValueEnd(u, lead + v + rest, 0) == |lead + v| {
      PlainValue(u, lead, v, rest);
    }
  }

  /** One run of characters that is no scheme and no field's name, and in which no field's marker occurs. */
  ghost predicate IsPlainSecret(u: Unicode, v: string, fields: seq<string>) {
    && IsOneRun(v) && !IsScheme(Lower(u, v)) && NoFieldOccurs(u, v, fields)
    && forall f :: f in fields ==> Lower(u, v) != f
  }

  lemma SecretIsBody(u: Unicode, lead: string, v: string, fields: seq<string>, i: nat, o: Marker)
    requires FoldsWords(u) && (forall f :: f in fields ==> IsPlainName(f) && f != []) && IsBlankOrQuotes(lead)
    requires IsPlainSecret(u, v, fields) && i < |fields| && o in AllMarkers(fields[..i + 1])
    ensures IsBody(u, lead + v, o)
  {
    hide FoldsWords, IsPlainName, MarkersOf, Absent, AllMarkers, Occurs, IsProper, IsNoName, Lower, IsScheme;
    ClassesAgree(u, v, []);
    ClassesAgree(u, Lower(u, v), []);
    var f := MarkerHasField(fields[..i + 1], o);
    assert f in fields;
    ProperMarkers(f);
    NameOf(o);
    assert NoneOccurs(u, v, MarkersOf(f));
    SecretIsWhole(u, lead, v);
    NamesDiffer(u, v, f, o);
    forall rest: string, q: nat | Bounded(rest) && q < |lead + v| ensures !Occurs(u, lead + v + rest, o, q) {
      SecretSealedAt(u, lead, v, rest, o, q);
    }
  }

  lemma NamesDiffer(u: Unicode, v: string, f: string, o: Marker)
    requires IsPlainName(f) && f != [] && o in MarkersOf(f) && Lower(u, v) != f
    ensures IsNoName(u, v, o)
  {
    hide Lower;
    var l, quoted := Lower(u, v), "\"" + f + "\":";
    assert l == ("\"" + l + "\":")[1..|l| + 1] && f == quoted[1..|f| + 1];
    assert (f + "=")[0] == f[0] && (f + ":")[0] == f[0];
    assert |"\"" + l + "\":"| == |l| + 3 && |quoted| == |f| + 3;
  }

  /**
   Behind each of a field's markers and quotes and blanks, two secrets that are no schemes and no field names are
   redacted to the same text, provided that behind no marker of this field or an earlier one the value that starts
   further in front reaches the marker.
   */
  lemma LeadingSecretIsGone(u: Unicode, a: string, lead: string, v: string, w: string, rest: string,
                            fields: seq<string>, i: nat, m: Marker)
    requires FoldsWords(u) && i < |fields| && forall f :: f in fields ==> IsPlainName(f) && f != []
    requires m == fields[i] + "=" || m == fields[i] + ":" || m == "\"" + fields[i] + "\":"
    requires EndsWith(u, a, m) && forall o :: o in AllMarkers(fields[..i + 1]) ==> IsClear(u, a, m, o)
    requires IsBlankOrQuotes(lead) && IsBehindValue(rest) && IsPlainSecret(u, v, fields) && IsPlainSecret(u, w, fields)
    ensures RedactInline(u, a + (lead + v + rest), fields) == RedactInline(u, a + (lead + w + rest), fields)
  {
    hide FoldsWords, EndsWith, IsPlainName, PassFields, SubBearer, Bounded, MarkersOf, IsBehindValue, EndsInMark,
         AllMarkers, SparedByAll, PassAll, IsClear, IsNameMarker, IsPlainSecret, IsBody, IsBlankOrQuotes;
    var upTo, b, c := fields[..i + 1], lead + v, lead + w;
    var markers := AllMarkers(upTo);
    ClassesAgree(u, v, rest);
    MarkerOfField(fields[i], m);
    FieldHasMarkers(upTo, i, m);
    forall o | o in markers ensures IsNameMarker(o) && BothBodies(u, b, c, o) {
      SecretIsBody(u, lead, v, fields, i, o);
      SecretIsBody(u, lead, w, fields, i, o);
      BodyHasName(u, b, o);
    }
    ClearIsSparedByAll(u, a, m, markers);
    SparedIsHidden(u, a, m, b, c, rest, markers);
    FieldsAreMarkers(u, a + (b + rest), upTo);
    FieldsAreMarkers(u, a + (c + rest), upTo);
    LaterFieldsAgree(u, a + (b + rest), a + (c + rest), fields, i + 1);
  }

  // ----- exactly when -----

  lemma SecretIsExposable(u: Unicode, m: Marker, lead: string, v: string, fields: seq<string>, i: nat, o: Marker)
    requires FoldsWords(u) && (forall f :: f in fields ==> IsPlainName(f) && f != []) && IsBlankOrQuotes(lead)
    requires IsPlainSecret(u, v, fields) && i < |fields| && o in AllMarkers(fields[..i + 1])
    requires IsProper(m) && (lead != [] || m[0] == '"')
    ensures IsExposable(u, m, lead, [], [], v, o)
  {
    hide FoldsWords, IsPlainName, MarkersOf, AllMarkers, IsProper, IsBody, IsPlainSecret, IsSealed, Remainder, StopsAtOnce, Quote,
         IsBlankOrQuotes;
    var f := MarkerHasField(fields[..i + 1], o);
    assert f in fields;
    ProperMarkers(f);
    SecretIsBody(u, lead, v, fields, i, o);
    NoScheme(m, lead, v);
    RemainderOfSecret(u, m, lead, v, o);
  }

  lemma NoScheme(m: Marker, lead: string, v: string)
    requires IsBlankOrQuotes(lead) && (lead != [] || m[0] == '"')
    ensures StopsAtOnce(m, lead, [], []) && lead + [] + [] + v == lead + v
    ensures Remainder(Quote(m), lead, [], []) == Quote(m) + lead
  {
  }

  lemma RemainderOfSecret(u: Unicode, m: Marker, lead: string, v: string, o: Marker)
    requires IsBody(u, lead + v, o) && IsProper(o)
    ensures IsSealed(u, Quote(m) + lead + v, o)
  {
    hide FoldsWords, IsProper, IsNameMarker, IsWholeValue, IsSealed;
    if m[0] == '"' {
      SealedBehindQuote(u, lead + v, o);
      assert Quote(m) + lead + v == "\":" + (lead + v);
    } else {
      assert Quote(m) + lead + v == lead + v;
    }
  }

  /** In front of the secret stands no word, so the bearer pattern leaves it alone. */
  lemma SecretIsUntaken(m: Marker, lead: string, v: string)
    requires IsBlankOrQuotes(lead) && All(IsSolid, v) && (lead != [] || m[0] == '"')
    ensures IsNoBearer(Remainder(Quote(m), lead, [], []) + v)
  {
    hide WordBeforeSpace;
    var pre := Quote(m) + lead;
    assert forall k :: 0 <= k < |pre| ==> !IsLetter(pre[k]);
    assert Remainder(Quote(m), lead, [], []) + v == pre + [] + [] + v;
    forall i: nat ensures !WordBeforeSpace(pre + [] + [] + v, i) {
      NoWordAt(pre, [], [], v, i);
    }
  }

  /**
   Exactly when: two different secrets behind quotes and blanks, or behind a quoted marker, are redacted to the same text
   if and only if no value that an earlier pass replaces in front of the marker reaches it.
   */
  lemma LeadingSecretIsGoneIff(u: Unicode, a: string, lead: string, v: string, w: string, rest: string,
                               fields: seq<string>, i: nat, m: Marker)
    requires FoldsWords(u) && i < |fields| && forall f :: f in fields ==> IsPlainName(f) && f != []
    requires m == fields[i] + "=" || m == fields[i] + ":" || m == "\"" + fields[i] + "\":"
    requires EndsWith(u, a, m) && (lead != [] || m[0] == '"')
    requires IsBlankOrQuotes(lead) && IsBehindValue(rest) && IsPlainSecret(u, v, fields) && IsPlainSecret(u, w, fields) && v != w
    ensures RedactInline(u, a + (lead + v + rest), fields) == RedactInline(u, a + (lead + w + rest), fields)
       <==> SparedByAll(u, a, m, AllMarkers(fields))
  {
    hide FoldsWords, EndsWith, IsPlainName, PassFields, SubBearer, Bounded, MarkersOf, IsBehindValue, EndsInMark, AllMarkers,
         SparedByAll, PassAll, IsNameMarker, IsPlainSecret, IsBody, IsBlankOrQuotes, IsExposable, Remainder, ExposedBy, IsWall, IsProper;
    var markers := AllMarkers(fields);
    assert fields[..|fields| - 1 + 1] == fields;
    ClassesAgree(u, v, rest);
    MarkerOfField(fields[i], m);
    ProperMarkers(fields[i]);
    FieldHasMarkers(fields, i, m);
    FieldsAreMarkers(u, a + (lead + v + rest), fields);
    FieldsAreMarkers(u, a + (lead + w + rest), fields);
    if SparedByAll(u, a, m, markers) {
      forall o | o in markers ensures BothBodies(u, lead + v, lead + w, o) {
        SecretIsBody(u, lead, v, fields, |fields| - 1, o);
        SecretIsBody(u, lead, w, fields, |fields| - 1, o);
      }
      SparedIsHidden(u, a, m, lead + v, lead + w, rest, markers);
    } else {
      SecretStays(u, a, m, lead, v, rest, fields);
      SecretStays(u, a, m, lead, w, rest, fields);
      var x := ExposedBy(u, a, m, rest, markers);
      SecretRuns(u, v, fields);
      SecretRuns(u, w, fields);
      SecretIsUntaken(m, lead, v);
      SecretIsUntaken(m, lead, w);
      UntakenDiffer(u, x.wall, Remainder(Quote(m), lead, [], []), v, w, x.after);
    }
  }

  lemma SecretRuns(u: Unicode, v: string, fields: seq<string>)
    requires IsPlainSecret(u, v, fields)
    ensures All(IsSolid, v)
  {
    ClassesAgree(u, v, []);
  }

  lemma SecretStays(u: Unicode, a: string, m: Marker, lead: string, v: string, rest: string, fields: seq<string>)
    requires FoldsWords(u) && fields != [] && forall f :: f in fields ==> IsPlainName(f) && f != []
    requires EndsWith(u, a, m) && IsProper(m) && (lead != [] || m[0] == '"')
    requires IsBlankOrQuotes(lead) && Bounded(rest) && IsPlainSecret(u, v, fields) && !SparedByAll(u, a, m, AllMarkers(fields))
    ensures var x := ExposedBy(u, a, m, rest, AllMarkers(fields));
            && IsWall(x.wall) && Bounded(x.after)
            && PassAll(u, a + (lead + v + rest), AllMarkers(fields)) == x.wall + (Remainder(Quote(m), lead, [], []) + v + x.after)
  {
    hide FoldsWords, EndsWith, IsPlainName, Bounded, AllMarkers, SparedByAll, PassAll, IsPlainSecret, IsBlankOrQuotes, IsExposable,
         Remainder, ExposedBy, IsWall, IsProper;
    assert fields[..|fields| - 1 + 1] == fields;
    forall o | o in AllMarkers(fields) ensures IsExposable(u, m, lead, [], [], v, o) {
      SecretIsExposable(u, m, lead, v, fields, |fields| - 1, o);
    }
    ReachedIsExposed(u, a, m, lead, [], [], v, rest, AllMarkers(fields));
    assert lead + [] + [] + v + rest == lead + v + rest;
  }
}
