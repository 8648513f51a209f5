/**
 What redaction is for: behind a field's marker one secret is as good as another. For plain field names the redacted
 text does not depend on the secret at all, whatever the earlier and later passes make of the text around it.
 */
module SecretRemoval {
  import opened Options
  import opened PythonText
  import opened InlineRedaction
  import opened RedactionTwice

  /** Folding changes letters only, and neither delimiters nor what folds to `=` or `:` are taken for letters. */
  ghost predicate FoldsLetters(u: Unicode) {
    && (forall c :: !IsSolid(c) || !IsSolid(u.lower(c)) ==> u.lower(c) == c)
    && (forall c :: IsDelimiter(c) ==> !u.isAlnum(c))
    && (forall c :: u.lower(c) == '=' || u.lower(c) == ':' ==> !IsSchemeChar(u, c))
  }

  lemma AsciiFoldsLetters()
    ensures FoldsLetters(ASCII)
  {
  }

  /** Neither delimiters nor white space, and none of the characters that end a marker. */
  predicate IsPlainField(f: string) {
    All(IsSolid, f) && Without(f, '=') && Without(f, ':')
  }

  /** Where a value ends. */
  predicate EndsValue(c: char) {
    c == ' ' || c == '\n' || c == '\r' || c == '\t' || c == ',' || c == '}' || c == ']' || c == '\'' || c == '"'
  }

  /** The text behind a value: none, or a character that ends it. */
  predicate IsBehindValue(rest: string) {
    rest == [] || EndsValue(rest[0])
  }

  /** One run of characters that end no value and are no white space. */
  predicate IsOneRun(v: string) {
    v != [] && forall i :: 0 <= i < |v| ==> !EndsValue(v[i]) && !IsSpace(v[i])
  }

  predicate IsScheme(s: string) {
    s == "bearer" || s == "basic" || s == "token" || s == "apikey" || s == "api-key"
  }

  lemma ClassesAgree(u: Unicode, v: string, rest: string)
    ensures IsBehindValue(rest) <==> Bounded(rest)
    ensures IsOneRun(v) <==> v != [] && All(IsSolid, v)
    ensures IsScheme(v) <==> v in AUTH_SCHEMES
    ensures IsOneRun(v) && !IsScheme(Lower(u, v)) ==> IsSecret(u, v)
  {
  }

  /** The platform's own fields are plain. */
  lemma DefaultFieldsArePlain()
    ensures forall f :: f in DEFAULT_REDACT_FIELDS ==> IsPlainField(f)
  {
    forall i | 0 <= i < |DEFAULT_REDACT_FIELDS| ensures IsPlainField(DEFAULT_REDACT_FIELDS[i]) {
      DefaultFieldsAreNames(i);
      NameIsPlainField(DEFAULT_REDACT_FIELDS[i]);
    }
  }

  lemma NameIsPlainField(f: string)
    requires IsName(f)
    ensures IsPlainField(f)
  {
    NameIsPlain(f);
    assert forall i :: 0 <= i < |f| ==> f[i] in f;
  }

  /** The shape of the markers of plain fields. */
  predicate IsPlainMarker(o: Marker) {
    && (forall k :: 0 <= k < |o| - 1 ==> o[k] != '=' && o[k] != ':')
    && (forall k :: 0 < k < |o| ==> IsSolid(o[k]) || (o[k] == '"' && o[0] == '"'))
  }

  lemma PlainFieldMarkers(f: string)
    requires IsPlainField(f)
    ensures forall o :: o in MarkersOf(f) ==> IsPlainMarker(o)
  {
    hide IsSolid;
    PlainEnd(f, '=');
    PlainEnd(f, ':');
    QuotedField(f);
  }

  lemma PlainEnd(f: string, end: char)
    requires IsPlainField(f) && (end == '=' || end == ':')
    ensures IsPlainMarker(f + [end])
  {
    var o := f + [end];
    assert forall k :: 0 <= k < |f| ==> o[k] == f[k];
  }

  lemma QuotedField(f: string)
    requires IsPlainField(f)
    ensures IsPlainMarker("\"" + f + "\":")
  {
    var o := "\"" + f + "\":";
    assert forall k :: 1 <= k <= |f| ==> o[k] == f[k - 1];
    assert o[0] == '"' && o[|f| + 1] == '"' && o[|f| + 2] == ':';
  }

  /** A marker in front of a secret. */
  predicate IsLead(m: Marker) {
    All(IsSolid, m) && (m[|m| - 1] == '=' || m[|m| - 1] == ':')
  }

  predicate EndsWith(u: Unicode, a: string, m: Marker) {
    |m| <= |a| && Occurs(u, a, m, |a| - |m|)
  }

  /** A secret of its own kind: one run of characters, no authorization scheme. */
  predicate IsSecret(u: Unicode, v: string) {
    v != [] && All(IsSolid, v) && Lower(u, v) !in AUTH_SCHEMES
  }

  // ----- where values end -----

  /** Scanning over the end of a text goes on in the next one. */
  lemma {:induction false} SkipAcross(class_: char -> bool, a: string, s: string, i: nat)
    requires i <= |a|
    ensures var r := Skip(class_, a, i); Skip(class_, a + s, i) == if r < |a| then r else |a| + Skip(class_, s, 0)
    decreases |a| - i
  {
    if i == |a| {
      SkipShift(class_, a, s, 0);
    } else {
      assert (a + s)[i] == a[i];
      if class_(a[i]) {
        SkipAcross(class_, a, s, i + 1);
      }
    }
  }

  lemma SecretIsValueRun(v: string, rest: string)
    requires All(IsSolid, v) && Bounded(rest)
    ensures Skip(IsValueChar, v + rest, 0) == |v|
  {
    assert [] + v + rest == v + rest;
    SkipRun(IsValueChar, [], v, rest);
  }

  lemma LastCharacter(u: Unicode, a: string, m: Marker)
    requires FoldsLetters(u) && EndsWith(u, a, m) && IsLead(m)
    ensures a != [] && IsSolid(a[|a| - 1]) && !IsSchemeChar(u, a[|a| - 1])
  {
    OccursAt(u, a, m, |a| - |m|, |a| - 1);
  }

  /** A value that starts before the secret takes it as a whole or ends before the marker in front of it. */
  lemma ValueAcross(u: Unicode, a: string, m: Marker, v: string, rest: string, from: nat)
    requires FoldsLetters(u) && EndsWith(u, a, m) && IsLead(m) && IsSecret(u, v) && Bounded(rest) && from <= |a|
    ensures var to := ValueEnd(u, a, from);
            ValueEnd(u, a + (v + rest), from) == if to == |a| then |a| + |v| else to
  {
    hide Skip, Lower, IsLead, EndsWith, Occurs, FoldsLetters;
    var s := v + rest;
    if from == |a| {
      SecretIsOneValue(u, v, rest);
      ValueEndShift(u, a, s, 0);
    } else {
      LastCharacter(u, a, m);
      var end := |a| - 1;
      SkipWithin(IsQuoteOrBlank, a, from, end);
      SkipAcross(IsQuoteOrBlank, a, s, from);
      var first := Skip(IsQuoteOrBlank, a, from);
      var schemeChar := c => IsSchemeChar(u, c);
      SkipWithin(schemeChar, a, first, end);
      SkipAcross(schemeChar, a, s, first);
      var schemeEnd := Skip(schemeChar, a, first);
      assert (a + s)[first..schemeEnd] == a[first..schemeEnd];
      SkipWithin(IsSpace, a, schemeEnd, end);
      SkipAcross(IsSpace, a, s, schemeEnd);
      SkipAcross(IsValueChar, a, s, Skip(IsSpace, a, schemeEnd));
      SkipAcross(IsValueChar, a, s, first);
      SecretIsValueRun(v, rest);
    }
  }

  lemma SecretIsOneValue(u: Unicode, v: string, rest: string)
    requires FoldsLetters(u) && IsSecret(u, v) && Bounded(rest)
    ensures ValueEnd(u, v + rest, 0) == |v|
  {
    assert [] + v == v;
    PlainValue(u, [], v, rest);
  }

  lemma ValueBeforeMarker(u: Unicode, a: string, m: Marker, from: nat)
    requires FoldsLetters(u) && EndsWith(u, a, m) && IsLead(m) && from <= |a|
    ensures var to := ValueEnd(u, a, from); to == |a| || to < |a| - |m|
  {
    var to := ValueEnd(u, a, from);
    hide Skip, Lower;
    ValueStops(u, a, from);
    if |a| - |m| <= to < |a| {
      OccursAt(u, a, m, |a| - |m|, to);
    }
  }

  lemma ValueStops(u: Unicode, s: string, from: nat)
    requires from <= |s|
    ensures Bounded(s[ValueEnd(u, s, from)..])
  {
    hide Skip;
    var first := Skip(IsQuoteOrBlank, s, from);
    var schemeEnd := Skip(c => IsSchemeChar(u, c), s, first);
    SkipStops(IsValueChar, s, first);
    SkipStops(IsValueChar, s, Skip(IsSpace, s, schemeEnd));
  }

  // ----- where markers occur -----

  /** No marker reaches into the secret from either side, and none lies in it. */
  lemma OccursAround(u: Unicode, a: string, m: Marker, v: string, rest: string, o: Marker, p: nat)
    requires FoldsLetters(u) && EndsWith(u, a, m) && IsLead(m) && IsSecret(u, v) && Bounded(rest)
    requires IsPlainMarker(o) && Absent(u, v, o) && Occurs(u, a + (v + rest), o, p)
    ensures p + |o| <= |a| || p >= |a| + |v|
  {
    hide Occurs;
    var s := a + (v + rest);
    var last := |a| - 1;
    OccursFits(u, s, o, p);
    OccursAt(u, a, m, |a| - |m|, last);
    assert s[last] == a[last] && (rest != [] ==> s[|a| + |v|] == rest[0]) && (|a| <= p < |a| + |v| ==> s[p] == v[p - |a|]);
    if p < |a| < p + |o| {
      OccursAt(u, s, o, p, last);
    } else if |a| <= p < |a| + |v| {
      OccursAt(u, s, o, p, p);
      if p + |o| <= |a| + |v| {
        OccursShift(u, a, v + rest, o, p - |a|);
        OccursInPrefix(u, v, rest, o, p - |a|);
      } else {
        OccursAt(u, s, o, p, |a| + |v|);
      }
    }
  }

  // ----- what redaction makes of the text around a secret -----

  /** A text with a hole for the secret, or without one. */
  datatype Around = Gone(text: string) | Left(before: string, after: string)

  function Put(x: Around, v: string): (s: string) {
    match x
    case Gone(text) => text
    case Left(before, after) => before + (v + after)
  }

  /** The hole still stands behind the marker and in front of a delimiter or the end. */
  ghost predicate IsHole(u: Unicode, x: Around, m: Marker) {
    x.Left? ==> EndsWith(u, x.before, m) && Bounded(x.after)
  }

  /** One pass, computed without the secret. */
  function PassAround(u: Unicode, before: string, after: string, o: Marker): (x: Around)
    decreases |before|
  {
    match FindMarker(u, before, o, 0)
    case None => Left(before, Pass(u, after, o))
    case Some(p) =>
      var from := p + |o|;
      var to := ValueEnd(u, before, from);
      var head := before[..from] + REDACTED;
      if to == |before| then Gone(head + Pass(u, after, o))
      else
        match PassAround(u, before[to..], after, o)
        case Gone(text) => Gone(head + text)
        case Left(b, a) => Left(head + b, a)
  }

  function PassOn(u: Unicode, x: Around, o: Marker): (y: Around) {
    match x
    case Gone(text) => Gone(Pass(u, text, o))
    case Left(before, after) => PassAround(u, before, after, o)
  }

  function AllOn(u: Unicode, x: Around, markers: seq<Marker>): (y: Around) {
    if markers == [] then x
    else PassOn(u, AllOn(u, x, markers[..|markers| - 1]), markers[|markers| - 1])
  }

  function FieldsOn(u: Unicode, x: Around, fields: seq<string>): (y: Around) {
    if fields == [] then x
    else AllOn(u, FieldsOn(u, x, fields[..|fields| - 1]), MarkersOf(fields[|fields| - 1]))
  }

  // ----- the secret plays no part in it -----

  /** The secret fits the hole, and the marker of a pass does not occur in it. */
  ghost predicate Fits(u: Unicode, m: Marker, v: string, o: Marker) {
    FoldsLetters(u) && IsLead(m) && IsSecret(u, v) && IsPlainMarker(o) && Absent(u, v, o)
  }

  lemma FindsInFront(u: Unicode, a: string, m: Marker, v: string, rest: string, o: Marker)
    requires Fits(u, m, v, o) && EndsWith(u, a, m) && Bounded(rest) && FindMarker(u, a, o, 0).Some?
    ensures FindMarker(u, a + (v + rest), o, 0) == FindMarker(u, a, o, 0)
  {
    hide Occurs;
    var p := FindMarker(u, a, o, 0).value;
    OccursFits(u, a, o, p);
    forall q: nat | q <= p ensures Occurs(u, a + (v + rest), o, q) <==> q == p {
      OccursInPrefix(u, a, v + rest, o, q);
    }
    FindsAt(u, a + (v + rest), o, 0, p);
  }

  lemma {:induction false} FindFrom(u: Unicode, s: string, o: Marker, from: nat, to: nat)
    requires from <= to <= |s| && forall q: nat :: from <= q < to ==> !Occurs(u, s, o, q)
    ensures FindMarker(u, s, o, from) == FindMarker(u, s, o, to)
    decreases |s| - from
  {
    hide Occurs;
    if from < to {
      FindFrom(u, s, o, from + 1, to);
    }
  }

  /** Without an occurrence in front a pass leaves the front and the secret alone. */
  lemma PassBehind(u: Unicode, x: string, rest: string, o: Marker)
    requires forall q: nat :: q < |x| ==> !Occurs(u, x + rest, o, q)
    ensures Pass(u, x + rest, o) == x + Pass(u, rest, o)
  {
    hide Occurs, ValueEnd, Pass, FindMarker;
    FindFrom(u, x + rest, o, 0, |x|);
    FindShift(u, x, rest, o, 0);
    var found := FindMarker(u, rest, o, 0);
    if found.Some? {
      var from := found.value + |o|;
      OccursFits(u, rest, o, found.value);
      ValueEndShift(u, x, rest, from);
      var to := ValueEnd(u, rest, from);
      PassFrom(u, rest, o, from, to);
      PassFrom(u, x + rest, o, |x| + from, |x| + to);
      CutBehind(x, rest, from, to, Pass(u, rest[to..], o));
    } else {
      NothingLeft(u, rest, o);
      NothingLeft(u, x + rest, o);
    }
  }

  lemma CutBehind(x: string, rest: string, from: nat, to: nat, tail: string)
    requires from <= to <= |rest|
    ensures (x + rest)[|x| + to..] == rest[to..]
    ensures (x + rest)[..|x| + from] + REDACTED + tail == x + (rest[..from] + REDACTED + tail)
  {
    assert (x + rest)[..|x| + from] == x + rest[..from];
    Regroup(x, rest[..from], REDACTED, tail);
  }

  lemma NothingInFront(u: Unicode, a: string, m: Marker, v: string, rest: string, o: Marker)
    requires Fits(u, m, v, o) && EndsWith(u, a, m) && Bounded(rest) && FindMarker(u, a, o, 0).None?
    ensures Pass(u, a + (v + rest), o) == a + (v + Pass(u, rest, o)) && o != m
  {
    hide Occurs, ValueEnd, Pass, IsLead, IsPlainMarker, IsSecret, FoldsLetters;
    NotFound(u, a, o);
    assert a + (v + rest) == a + v + rest;
    forall q: nat | q < |a + v| ensures !Occurs(u, a + v + rest, o, q) {
      if Occurs(u, a + v + rest, o, q) {
        OccursAround(u, a, m, v, rest, o, q);
        OccursInPrefix(u, a, v + rest, o, q);
      }
    }
    PassBehind(u, a + v, rest, o);
    assert a + v + Pass(u, rest, o) == a + (v + Pass(u, rest, o));
  }

  lemma EndsWithSuffix(u: Unicode, a: string, m: Marker, to: nat)
    requires EndsWith(u, a, m) && to <= |a| - |m|
    ensures EndsWith(u, a[to..], m)
  {
    assert a == a[..to] + a[to..];
    OccursShift(u, a[..to], a[to..], m, |a| - |m| - to);
  }

  lemma EndsWithFront(u: Unicode, a: string, m: Marker, head: string)
    requires EndsWith(u, a, m)
    ensures EndsWith(u, head + a, m)
  {
    OccursShift(u, head, a, m, |a| - |m|);
  }

  /** A pass over a text with a secret is the pass around it; its own marker's pass leaves no hole. */
  lemma {:induction false} PassIsAround(u: Unicode, a: string, m: Marker, v: string, rest: string, o: Marker)
    requires Fits(u, m, v, o) && EndsWith(u, a, m) && Bounded(rest)
    ensures Pass(u, a + (v + rest), o) == Put(PassAround(u, a, rest, o), v)
    ensures IsHole(u, PassAround(u, a, rest, o), m) && (o == m ==> PassAround(u, a, rest, o).Gone?)
    decreases |a|
  {
    hide Occurs, ValueEnd, Fits, EndsWith, FindMarker, Bounded, Pass;
    var found := FindMarker(u, a, o, 0);
    if found.None? {
      NothingInFront(u, a, m, v, rest, o);
      PassStaysBounded(u, rest, o);
    } else {
      var from := found.value + |o|;
      OccursFits(u, a, o, found.value);
      FindsInFront(u, a, m, v, rest, o);
      var to := ValueEnd(u, a, from);
      ValueOfHole(u, a, m, v, rest, o, from);
      PassFrom(u, a + (v + rest), o, from, if to == |a| then |a| + |v| else to);
      CutAround(a, v, rest, from, to);
      if to != |a| {
        EndsWithSuffix(u, a, m, to);
        PassIsAround(u, a[to..], m, v, rest, o);
        var x := PassAround(u, a[to..], rest, o);
        if x.Left? {
          EndsWithFront(u, x.before, m, a[..from] + REDACTED);
        }
      }
    }
  }

  lemma PassStaysBounded(u: Unicode, rest: string, o: Marker)
    requires Bounded(rest)
    ensures Bounded(Pass(u, rest, o))
  {
    hide Pass;
    PassKeepsHead(u, rest, o);
  }

  lemma ValueOfHole(u: Unicode, a: string, m: Marker, v: string, rest: string, o: Marker, from: nat)
    requires Fits(u, m, v, o) && EndsWith(u, a, m) && Bounded(rest) && from <= |a|
    ensures var to := ValueEnd(u, a, from);
            && (to == |a| || to < |a| - |m|)
            && ValueEnd(u, a + (v + rest), from) == if to == |a| then |a| + |v| else to
  {
    hide ValueEnd, IsLead, IsSecret, EndsWith, Bounded, FoldsLetters;
    ValueAcross(u, a, m, v, rest, from);
    ValueBeforeMarker(u, a, m, from);
  }

  lemma CutAround(a: string, v: string, rest: string, from: nat, to: nat)
    requires from <= to <= |a|
    ensures (a + (v + rest))[..from] == a[..from] && (a + (v + rest))[|a| + |v|..] == rest
    ensures (a + (v + rest))[to..] == a[to..] + (v + rest)
  {
  }

  lemma PassOnHole(u: Unicode, x: Around, m: Marker, v: string, o: Marker)
    requires Fits(u, m, v, o) && IsHole(u, x, m)
    ensures Pass(u, Put(x, v), o) == Put(PassOn(u, x, o), v)
    ensures IsHole(u, PassOn(u, x, o), m) && (x.Gone? || o == m ==> PassOn(u, x, o).Gone?)
  {
    hide Fits, EndsWith, Bounded, Pass, PassAround;
    if x.Left? {
      PassIsAround(u, x.before, m, v, x.after, o);
    }
  }

  lemma {:induction false} AllOnHole(u: Unicode, x: Around, m: Marker, v: string, markers: seq<Marker>)
    requires (forall o :: o in markers ==> Fits(u, m, v, o)) && IsHole(u, x, m)
    ensures PassAll(u, Put(x, v), markers) == Put(AllOn(u, x, markers), v)
    ensures IsHole(u, AllOn(u, x, markers), m) && (x.Gone? || m in markers ==> AllOn(u, x, markers).Gone?)
  {
    hide Fits, IsHole, Pass, PassOn, Put;
    if markers != [] {
      var init, last := markers[..|markers| - 1], markers[|markers| - 1];
      assert last in markers && markers == init + [last];
      AllOnHole(u, x, m, v, init);
      PassOnHole(u, AllOn(u, x, init), m, v, last);
    }
  }

  ghost predicate FieldFits(u: Unicode, m: Marker, v: string, f: string) {
    forall o :: o in MarkersOf(f) ==> Fits(u, m, v, o)
  }

  lemma {:induction false} FieldsOnHole(u: Unicode, x: Around, m: Marker, v: string, fields: seq<string>)
    requires (forall f :: f in fields ==> FieldFits(u, m, v, f)) && IsHole(u, x, m)
    ensures PassFields(u, Put(x, v), fields) == Put(FieldsOn(u, x, fields), v)
    ensures IsHole(u, FieldsOn(u, x, fields), m)
    ensures x.Gone? || (exists f :: f in fields && m in MarkersOf(f)) ==> FieldsOn(u, x, fields).Gone?
  {
    hide Fits, IsHole, PassAll, AllOn, Put, MarkersOf;
    if fields != [] {
      var init, last := fields[..|fields| - 1], fields[|fields| - 1];
      assert last in fields && fields == init + [last];
      FieldsOnHole(u, x, m, v, init);
      AllOnHole(u, FieldsOn(u, x, init), m, v, MarkersOf(last));
    }
  }

  lemma SecretFits(u: Unicode, m: Marker, v: string, fields: seq<string>)
    requires FoldsLetters(u) && IsLead(m) && IsSecret(u, v) && NoFieldOccurs(u, v, fields)
    requires forall f :: f in fields ==> IsPlainField(f)
    ensures forall f :: f in fields ==> FieldFits(u, m, v, f)
  {
    hide FoldsLetters, IsLead, IsSecret, Absent, IsPlainField, IsPlainMarker, MarkersOf;
    forall f | f in fields ensures FieldFits(u, m, v, f) {
      PlainFieldMarkers(f);
      assert NoneOccurs(u, v, MarkersOf(f));
    }
  }

  /** A plain field followed by `=` or `:`. */
  lemma LeadOfField(f: string, m: Marker)
    requires IsPlainField(f) && (m == f + "=" || m == f + ":")
    ensures IsLead(m) && m in MarkersOf(f)
  {
    assert MarkersOf(f)[0] in MarkersOf(f) && MarkersOf(f)[1] in MarkersOf(f);
    assert forall k :: 0 <= k < |f| ==> m[k] == f[k];
  }

  /**
   The secret is gone: behind `field=` or `field:`, in any letter case, two secrets that hold no marker themselves are
   redacted to the same text, whatever stands around them and whichever fields come before and after.
   */
  lemma SecretIsGone(u: Unicode, a: string, v: string, w: string, rest: string, fields: seq<string>, field: string, m: Marker)
    requires FoldsLetters(u) && field in fields && forall f :: f in fields ==> IsPlainField(f)
    requires (m == field + "=" || m == field + ":") && EndsWith(u, a, m) && IsBehindValue(rest)
    requires IsOneRun(v) && !IsScheme(Lower(u, v)) && NoFieldOccurs(u, v, fields)
    requires IsOneRun(w) && !IsScheme(Lower(u, w)) && NoFieldOccurs(u, w, fields)
    ensures RedactInline(u, a + (v + rest), fields) == RedactInline(u, a + (w + rest), fields)
  {
    hide FoldsLetters, EndsWith, IsSecret, NoFieldOccurs, IsPlainField, IsLead, FieldFits, FieldsOn, PassFields, SubBearer,
         Bounded, MarkersOf, IsOneRun, IsScheme, IsBehindValue;
    ClassesAgree(u, v, rest);
    ClassesAgree(u, w, rest);
    LeadOfField(field, m);
    SecretFits(u, m, v, fields);
    SecretFits(u, m, w, fields);
    FieldsOnHole(u, Left(a, rest), m, v, fields);
    FieldsOnHole(u, Left(a, rest), m, w, fields);
  }
}
