/**
 Inline redaction of secrets in free text: for every field and each of its three markers, what
 follows a marker is replaced, and finally every bearer token. The lower-casing and the letter
 classes are those of any `Unicode`; lower-casing is character by character.
 */
module InlineRedaction {
  import opened Options
  import opened PythonText

  datatype Unicode = Unicode(lower: char -> char, isAlnum: char -> bool)

  type Marker = m: string | m != [] witness "="

  const REDACTED: string := "[REDACTED]"

  const AUTH_SCHEMES: set<string> := {"bearer", "basic", "token", "apikey", "api-key"}

  /** Lower-casing leaves brackets alone and makes no `=` or `:` of white space or of a letter of the replacement. */
  ghost predicate KeepsBrackets(u: Unicode) {
    && u.lower('[') == '[' && u.lower(']') == ']'
    && forall c :: c in REDACTED || IsSpace(c) ==> u.lower(c) != '=' && u.lower(c) != ':'
  }

  const ASCII := Unicode(
    (c: char) => if 'A' <= c <= 'Z' then (c as int + 32) as char else c,
    (c: char) => 'a' <= c <= 'z' || 'A' <= c <= 'Z' || '0' <= c <= '9')

  lemma AsciiKeepsBrackets()
    ensures KeepsBrackets(ASCII) && !ASCII.isAlnum('[')
  {
  }

  function Lower(u: Unicode, s: string): (t: string)
    ensures |t| == |s| && forall i :: 0 <= i < |s| ==> t[i] == u.lower(s[i])
  {
    seq(|s|, i requires 0 <= i < |s| => u.lower(s[i]))
  }

  // ----- _secret_value_end -----

  /** The first position from `i` on whose character is not in the class. */
  function Skip(class_: char -> bool, s: string, i: nat): (j: nat)
    requires i <= |s|
    ensures i <= j <= |s|
    decreases |s| - i
  {
    if i < |s| && class_(s[i]) then Skip(class_, s, i + 1) else i
  }

  predicate IsQuoteOrBlank(c: char) { c in {' ', '\'', '"'} }

  predicate IsDelimiter(c: char) { c in {' ', '\n', '\r', '\t', ',', '}', ']', '\'', '"'} }

  predicate IsValueChar(c: char) { !IsDelimiter(c) }

  predicate IsSchemeChar(u: Unicode, c: char) { u.isAlnum(c) || c == '-' || c == '_' }

  /** Where the value that starts at `start` ends; an authorization scheme takes the credential after it along. */
  function ValueEnd(u: Unicode, s: string, start: nat): (end: nat)
    requires start <= |s|
    ensures start <= end <= |s|
  {
    var first := Skip(IsQuoteOrBlank, s, start);
    var schemeEnd := Skip(c => IsSchemeChar(u, c), s, first);
    if Lower(u, s[first..schemeEnd]) in AUTH_SCHEMES && schemeEnd < |s| && IsSpace(s[schemeEnd]) then
      Skip(IsValueChar, s, Skip(IsSpace, s, schemeEnd))
    else Skip(IsValueChar, s, first)
  }

  method SecretValueEnd(u: Unicode, text: string, start: nat) returns (end: nat)
    requires start <= |text|
    ensures end == ValueEnd(u, text, start)
  {
    var first := start;
    while first < |text| && IsQuoteOrBlank(text[first])
      invariant first <= |text| && Skip(IsQuoteOrBlank, text, first) == Skip(IsQuoteOrBlank, text, start)
    {
      first := first + 1;
    }
    ghost var schemeChar := c => IsSchemeChar(u, c);
    var schemeEnd := first;
    while schemeEnd < |text| && IsSchemeChar(u, text[schemeEnd])
      invariant first <= schemeEnd <= |text| && Skip(schemeChar, text, schemeEnd) == Skip(schemeChar, text, first)
    {
      schemeEnd := schemeEnd + 1;
    }
    end := first;
    if Lower(u, text[first..schemeEnd]) in AUTH_SCHEMES && schemeEnd < |text| && IsSpace(text[schemeEnd]) {
      var tokenStart := schemeEnd;
      while tokenStart < |text| && IsSpace(text[tokenStart])
        invariant tokenStart <= |text| && Skip(IsSpace, text, tokenStart) == Skip(IsSpace, text, schemeEnd)
      {
        tokenStart := tokenStart + 1;
      }
      end := tokenStart;
    }
    ghost var from := end;
    while end < |text| && !IsDelimiter(text[end])
      invariant end <= |text| && Skip(IsValueChar, text, end) == Skip(IsValueChar, text, from)
    {
      end := end + 1;
    }
  }

  // ----- one marker -----

  /** The lower-cased text holds the marker at `p`. */
  predicate Occurs(u: Unicode, s: string, marker: Marker, p: nat) {
    p + |marker| <= |s| && Lower(u, s[p..p + |marker|]) == marker
  }

  /** `lower.find(marker, from)` */
  function FindMarker(u: Unicode, s: string, marker: Marker, from: nat): (p: Option<nat>)
    requires from <= |s|
    ensures p.Some? ==> from <= p.value && Occurs(u, s, marker, p.value)
    ensures forall q :: from <= q < (if p.Some? then p.value else |s| + 1) ==> !Occurs(u, s, marker, q)
    decreases |s| - from
  {
    if Occurs(u, s, marker, from) then Some(from)
    else if from == |s| then None
    else FindMarker(u, s, marker, from + 1)
  }

  /** The text with the value after each occurrence of the marker replaced, from left to right. */
  function Pass(u: Unicode, s: string, marker: Marker): (r: string)
  {
    match FindMarker(u, s, marker, 0)
    case None => s
    case Some(p) =>
      var valueStart := p + |marker|;
      s[..valueStart] + REDACTED + Pass(u, s[ValueEnd(u, s, valueStart)..], marker)
  }

  lemma {:induction false} SkipShift(class_: char -> bool, a: string, s: string, i: nat)
    requires i <= |s|
    ensures Skip(class_, a + s, |a| + i) == |a| + Skip(class_, s, i)
    decreases |s| - i
  {
    if i < |s| && class_(s[i]) {
      SkipShift(class_, a, s, i + 1);
    }
  }

  lemma ValueEndShift(u: Unicode, a: string, s: string, start: nat)
    requires start <= |s|
    ensures ValueEnd(u, a + s, |a| + start) == |a| + ValueEnd(u, s, start)
  {
    hide Skip;
    SkipShift(IsQuoteOrBlank, a, s, start);
    var first := Skip(IsQuoteOrBlank, s, start);
    var schemeChar := c => IsSchemeChar(u, c);
    SkipShift(schemeChar, a, s, first);
    var schemeEnd := Skip(schemeChar, s, first);
    assert (a + s)[|a| + first..|a| + schemeEnd] == s[first..schemeEnd];
    SkipShift(IsSpace, a, s, schemeEnd);
    SkipShift(IsValueChar, a, s, Skip(IsSpace, s, schemeEnd));
    SkipShift(IsValueChar, a, s, first);
  }

  lemma OccursShift(u: Unicode, a: string, s: string, marker: Marker, p: nat)
    ensures Occurs(u, a + s, marker, |a| + p) <==> Occurs(u, s, marker, p)
  {
    if p + |marker| <= |s| {
      assert (a + s)[|a| + p..|a| + p + |marker|] == s[p..p + |marker|];
    }
  }

  lemma {:induction false} FindShift(u: Unicode, a: string, s: string, marker: Marker, from: nat)
    requires from <= |s|
    ensures FindMarker(u, a + s, marker, |a| + from)
         == match FindMarker(u, s, marker, from) case None => None case Some(p) => Some(|a| + p)
    decreases |s| - from
  {
    hide Occurs;
    OccursShift(u, a, s, marker, from);
    if from < |s| {
      FindShift(u, a, s, marker, from + 1);
    }
  }

  lemma OccursFits(u: Unicode, s: string, marker: Marker, p: nat)
    requires Occurs(u, s, marker, p)
    ensures p + |marker| <= |s|
  {
  }

  lemma ReplaceValue(done: string, rest: string, from: nat, to: nat)
    requires from <= to <= |rest|
    ensures (done + rest)[..|done| + from] + REDACTED + (done + rest)[|done| + to..] == done + rest[..from] + REDACTED + rest[to..]
  {
  }

  /** What one round of the loop replaces, when `rest` is the text from the cursor on. */
  lemma PassStep(u: Unicode, done: string, rest: string, marker: Marker)
    requires FindMarker(u, rest, marker, 0).Some?
    ensures var from := FindMarker(u, rest, marker, 0).value + |marker|;
            && from <= |rest|
            && var to := ValueEnd(u, rest, from);
            && to <= |rest|
            && ValueEnd(u, done + rest, |done| + from) == |done| + to
            && (done + rest)[..|done| + from] + REDACTED + (done + rest)[|done| + to..] == done + rest[..from] + REDACTED + rest[to..]
            && done + Pass(u, rest, marker) == done + rest[..from] + REDACTED + Pass(u, rest[to..], marker)
  {
    hide FindMarker, ValueEnd, Occurs;
    var p := FindMarker(u, rest, marker, 0).value;
    OccursFits(u, rest, marker, p);
    var from := p + |marker|;
    ValueEndShift(u, done, rest, from);
    var to := ValueEnd(u, rest, from);
    ReplaceValue(done, rest, from, to);
    Regroup(done, rest[..from], REDACTED, Pass(u, rest[to..], marker));
  }

  /** The loop for one marker; the text behind the cursor shrinks even when the whole text grows. */
  method RedactMarker(u: Unicode, text: string, marker: Marker) returns (redacted: string)
    ensures redacted == Pass(u, text, marker)
  {
    hide Occurs, ValueEnd, Pass, FindMarker;
    redacted := text;
    ghost var done, rest := [], text;
    assert done + rest == text && done + Pass(u, rest, marker) == Pass(u, rest, marker);
    var start := FindMarker(u, redacted, marker, 0);
    while start.Some?
      invariant redacted == done + rest
      invariant done + Pass(u, rest, marker) == Pass(u, text, marker)
      invariant start == match FindMarker(u, rest, marker, 0) case None => None case Some(p) => Some(|done| + p)
      decreases |rest|
    {
      PassStep(u, done, rest, marker);
      ghost var from := FindMarker(u, rest, marker, 0).value + |marker|;
      var valueStart := start.value + |marker|;
      var valueEnd := SecretValueEnd(u, redacted, valueStart);
      redacted := redacted[..valueStart] + REDACTED + redacted[valueEnd..];
      done, rest := done + rest[..from] + REDACTED, rest[valueEnd - |done|..];
      FindShift(u, done, rest, marker, 0);
      start := FindMarker(u, redacted, marker, valueStart + |REDACTED|);
    }
    NothingLeft(u, rest, marker);
  }

  lemma NothingLeft(u: Unicode, s: string, marker: Marker)
    requires FindMarker(u, s, marker, 0).None?
    ensures Pass(u, s, marker) == s
  {
  }

  // ----- bearer tokens -----

  /** The class `[a-z0-9._\-+/=]` when case is ignored. */
  predicate IsTokenChar(c: char) {
    || 'a' <= c <= 'z' || 'A' <= c <= 'Z' || '0' <= c <= '9' || c in "._-+/="
    || c in {'\U{130}', '\U{131}', '\U{17F}', '\U{212A}'}
  }

  predicate IsWordChar(u: Unicode, c: char) { u.isAlnum(c) || c == '_' }

  /** `bearer\s+` followed by a token, at the head of `t`: where the token starts and ends. */
  function BearerHead(t: string): (r: Option<(nat, nat)>)
    ensures r.Some? ==> 6 < r.value.0 < r.value.1 <= |t| && IsSpace(t[r.value.0 - 1])
  {
    if |t| < 6 || !MatchesWord(t[..6], "bearer") then None
    else
      var tokenStart := Skip(IsSpace, t, 6);
      var tokenEnd := Skip(IsTokenChar, t, tokenStart);
      if tokenStart == 6 || tokenEnd == tokenStart then None
      else
        SkipStopsAfter(IsSpace, t, 6);
        Some((tokenStart, tokenEnd))
  }

  lemma {:induction false} SkipStopsAfter(class_: char -> bool, s: string, i: nat)
    requires i <= |s|
    ensures var j := Skip(class_, s, i); j > i ==> class_(s[j - 1])
    decreases |s| - i
  {
    if i < |s| && class_(s[i]) {
      SkipStopsAfter(class_, s, i + 1);
    }
  }

  /** A word character stands before position `i`. */
  predicate InsideWord(u: Unicode, s: string, i: nat)
    requires i <= |s|
  {
    i > 0 && IsWordChar(u, s[i - 1])
  }

  /** A match of the whole pattern, `\b` included. */
  predicate BearerAt(u: Unicode, s: string, i: nat)
    requires i <= |s|
  {
    !InsideWord(u, s, i) && BearerHead(s[i..]).Some?
  }

  function NextBearer(u: Unicode, s: string, i: nat): (at: Option<nat>)
    requires i <= |s|
    ensures at.Some? ==> i <= at.value <= |s| && BearerAt(u, s, at.value)
    decreases |s| - i
  {
    if BearerAt(u, s, i) then Some(i)
    else if i == |s| then None
    else NextBearer(u, s, i + 1)
  }

  lemma {:induction false} NextBearerIsFirst(u: Unicode, s: string, i: nat)
    requires i <= |s|
    ensures var at := NextBearer(u, s, i);
            forall j :: i <= j < (if at.Some? then at.value else |s| + 1) ==> !BearerAt(u, s, j)
    decreases |s| - i
  {
    hide BearerAt;
    if !BearerAt(u, s, i) && i < |s| {
      NextBearerIsFirst(u, s, i + 1);
    }
  }

  /** What the substitution makes of the text from `i` on. */
  function SubBearer(u: Unicode, s: string, i: nat): (r: string)
    requires i <= |s|
    decreases |s| - i
  {
    match NextBearer(u, s, i)
    case None => s[i..]
    case Some(at) =>
      var (tokenStart, tokenEnd) := BearerHead(s[at..]).value;
      s[i..at + tokenStart] + REDACTED + SubBearer(u, s, at + tokenEnd)
  }

  // ----- redact_inline_secret -----

  function MarkersOf(field: string): (m: seq<Marker>)
    ensures |m| == 3
  {
    [field + "=", field + ":", "\"" + field + "\":"]
  }

  function PassAll(u: Unicode, s: string, markers: seq<Marker>): (r: string)
  {
    if markers == [] then s
    else Pass(u, PassAll(u, s, markers[..|markers| - 1]), markers[|markers| - 1])
  }

  function PassFields(u: Unicode, s: string, fields: seq<string>): (r: string) {
    if fields == [] then s
    else PassAll(u, PassFields(u, s, fields[..|fields| - 1]), MarkersOf(fields[|fields| - 1]))
  }

  function RedactInline(u: Unicode, s: string, fields: seq<string>): (r: string) {
    SubBearer(u, PassFields(u, s, fields), 0)
  }

  method RedactField(u: Unicode, text: string, field: string) returns (redacted: string)
    ensures redacted == PassAll(u, text, MarkersOf(field))
  {
    hide Pass, MarkersOf;
    redacted := text;
    var markers := MarkersOf(field);
    for j := 0 to |markers|
      invariant redacted == PassAll(u, text, markers[..j])
    {
      assert markers[..j + 1][..j] == markers[..j];
      redacted := RedactMarker(u, redacted, markers[j]);
    }
    assert markers[..|markers|] == markers;
  }

  method RedactInlineSecret(u: Unicode, text: string, fields: seq<string>) returns (redacted: string)
    ensures redacted == RedactInline(u, text, fields)
  {
    hide PassAll, MarkersOf, SubBearer;
    redacted := text;
    for i := 0 to |fields|
      invariant redacted == PassFields(u, text, fields[..i])
    {
      assert fields[..i + 1][..i] == fields[..i];
      redacted := RedactField(u, redacted, fields[i]);
    }
    assert fields[..|fields|] == fields;
    redacted := SubBearer(u, redacted, 0);
  }

  // ----- every occurrence of every marker is followed by the replacement -----

  /** Nothing of a value comes first: the text is over or goes on with a delimiter. */
  predicate Bounded(s: string) {
    s == [] || IsDelimiter(s[0])
  }

  /** The replacement stands at `q`, and nothing of a value behind it. */
  predicate Followed(s: string, q: nat) {
    q + |REDACTED| <= |s| && s[q..q + |REDACTED|] == REDACTED && Bounded(s[q + |REDACTED|..])
  }

  ghost predicate Covered(u: Unicode, s: string, marker: Marker) {
    forall p: nat {:trigger Occurs(u, s, marker, p)} :: Occurs(u, s, marker, p) ==> Followed(s, p + |marker|)
  }

  /** A marker ends in `=` or `:`; those of fields without brackets hold no bracket. */
  predicate IsMarker(m: Marker) {
    Without(m, '[') && Without(m, ']') && (m[|m| - 1] == '=' || m[|m| - 1] == ':')
  }

  lemma OccursAt(u: Unicode, s: string, marker: Marker, p: nat, i: nat)
    requires Occurs(u, s, marker, p) && p <= i < p + |marker|
    ensures i < |s| && u.lower(s[i]) == marker[i - p]
  {
    assert s[p..p + |marker|][i - p] == s[i];
  }

  /** A marker does not overlap the replacement. */
  lemma OccursBeside(u: Unicode, a: string, rest: string, marker: Marker, p: nat)
    requires KeepsBrackets(u) && IsMarker(marker) && Occurs(u, a + REDACTED + rest, marker, p)
    ensures p + |marker| <= |a| || p >= |a| + |REDACTED|
  {
    hide Occurs, Without;
    var s := a + REDACTED + rest;
    assert s[|a|] == '[' && s[|a| + 9] == ']';
    if |a| < p + |marker| && p < |a| + |REDACTED| {
      if p <= |a| {
        OccursAt(u, s, marker, p, |a|);
        WithoutAt(marker, '[', |a| - p);
      } else if p + |marker| > |a| + 9 {
        OccursAt(u, s, marker, p, |a| + 9);
        WithoutAt(marker, ']', |a| + 9 - p);
      } else {
        var i := p + |marker| - 1;
        assert s[i] == REDACTED[i - |a|] && REDACTED[i - |a|] in REDACTED;
        OccursAt(u, s, marker, p, i);
      }
    }
  }

  /** A marker inside the first part of a text, wherever it occurs in it, with the same text behind it. */
  lemma OccursInPrefix(u: Unicode, a: string, b: string, marker: Marker, p: nat)
    requires p + |marker| <= |a|
    ensures Occurs(u, a + b, marker, p) <==> Occurs(u, a, marker, p)
    ensures p + |marker| + |REDACTED| < |a| ==> (Followed(a + b, p + |marker|) <==> Followed(a, p + |marker|))
  {
    assert (a + b)[p..p + |marker|] == a[p..p + |marker|];
    var q := p + |marker|;
    if q + |REDACTED| < |a| {
      assert (a + b)[q..q + |REDACTED|] == a[q..q + |REDACTED|];
    }
  }

  lemma FollowedShift(a: string, s: string, q: nat)
    ensures Followed(a + s, |a| + q) <==> Followed(s, q)
  {
    if q + |REDACTED| <= |s| {
      assert (a + s)[|a| + q..|a| + q + |REDACTED|] == s[q..q + |REDACTED|];
      assert (a + s)[|a| + q + |REDACTED|..] == s[q + |REDACTED|..];
    }
  }

  /** Every occurrence inside `a` is covered inside `a`, or ends where `a` does. */
  ghost predicate CoveredOrLast(u: Unicode, a: string, marker: Marker) {
    forall p: nat {:trigger Occurs(u, a, marker, p)} ::
      Occurs(u, a, marker, p) ==> p + |marker| == |a| || Followed(a, p + |marker|)
  }

  /** A cut behind a character that is none of the replacement's, and behind an occurrence only before bounded text. */
  ghost predicate CutFits(u: Unicode, a: string, rest: string, marker: Marker) {
    && a != [] && a[|a| - 1] !in REDACTED
    && (Bounded(rest) || (|marker| <= |a| ==> !Occurs(u, a, marker, |a| - |marker|)))
  }

  /** Putting the replacement behind such a part, and covered text behind that, gives covered text. */
  lemma SpliceIsCovered(u: Unicode, a: string, rest: string, marker: Marker)
    requires KeepsBrackets(u) && IsMarker(marker) && CoveredOrLast(u, a, marker) && Covered(u, rest, marker)
    requires CutFits(u, a, rest, marker)
    ensures Covered(u, a + REDACTED + rest, marker)
  {
    hide Occurs, Followed, IsMarker, KeepsBrackets, CutFits, CoveredOrLast;
    var s := a + REDACTED + rest;
    forall p: nat | Occurs(u, s, marker, p) ensures Followed(s, p + |marker|) {
      SplicePart(u, a, rest, marker, p);
    }
  }

  lemma ReplacementIsFollowed(rest: string)
    requires Bounded(rest)
    ensures Followed(REDACTED + rest, 0)
  {
    assert (REDACTED + rest)[0..|REDACTED|] == REDACTED && (REDACTED + rest)[|REDACTED|..] == rest;
  }

  lemma FollowedEndsInside(a: string, q: nat)
    requires Followed(a, q) && a[|a| - 1] !in REDACTED
    ensures q + |REDACTED| < |a|
  {
    hide Bounded;
    if q + |REDACTED| == |a| {
      InReplacement(a, q, |a| - 1);
    }
  }

  lemma SplicePart(u: Unicode, a: string, rest: string, marker: Marker, p: nat)
    requires KeepsBrackets(u) && IsMarker(marker) && CoveredOrLast(u, a, marker) && Covered(u, rest, marker)
    requires CutFits(u, a, rest, marker)
    requires Occurs(u, a + REDACTED + rest, marker, p)
    ensures Followed(a + REDACTED + rest, p + |marker|)
  {
    hide Occurs, Without, Followed, KeepsBrackets, IsMarker, Bounded;
    OccursBeside(u, a, rest, marker, p);
    var q := p + |marker|;
    if q <= |a| {
      assert a + REDACTED + rest == a + (REDACTED + rest);
      OccursInPrefix(u, a, REDACTED + rest, marker, p);
      if q == |a| {
        assert p == |a| - |marker|;
        ReplacementIsFollowed(rest);
        FollowedShift(a, REDACTED + rest, 0);
      } else {
        assert Followed(a, q);
        FollowedEndsInside(a, q);
      }
    } else {
      var k := p - |a + REDACTED|;
      OccursShift(u, a + REDACTED, rest, marker, k);
      FollowedShift(a + REDACTED, rest, k + |marker|);
    }
  }

  /** What stands behind a cut of a covered text is covered. */
  lemma SuffixIsCovered(u: Unicode, s: string, marker: Marker, cut: nat)
    requires Covered(u, s, marker) && cut <= |s|
    ensures Covered(u, s[cut..], marker)
  {
    assert s == s[..cut] + s[cut..];
    hide Occurs, Followed;
    forall p: nat | Occurs(u, s[cut..], marker, p) ensures Followed(s[cut..], p + |marker|) {
      OccursShift(u, s[..cut], s[cut..], marker, p);
      FollowedShift(s[..cut], s[cut..], p + |marker|);
    }
  }

  lemma InReplacement(s: string, q: nat, i: nat)
    requires Followed(s, q) && q <= i < q + |REDACTED|
    ensures s[i] in REDACTED
  {
    assert s[i] == s[q..q + |REDACTED|][i - q] == REDACTED[i - q];
  }

  /** A covered text cut behind a character that is none of the replacement's. */
  lemma PrefixIsCovered(u: Unicode, s: string, marker: Marker, cut: nat)
    requires Covered(u, s, marker) && 0 < cut <= |s| && s[cut - 1] !in REDACTED
    ensures CoveredOrLast(u, s[..cut], marker)
  {
    var a := s[..cut];
    assert s == a + s[cut..];
    hide Occurs, Followed;
    forall p: nat | Occurs(u, a, marker, p) && p + |marker| != |a| ensures Followed(a, p + |marker|) {
      OccursFits(u, a, marker, p);
      OccursInPrefix(u, a, s[cut..], marker, p);
      var q := p + |marker|;
      assert Followed(s, q);
      if cut <= q + |REDACTED| {
        InReplacement(s, q, cut - 1);
      }
    }
  }

  lemma {:induction false} SkipStops(class_: char -> bool, s: string, i: nat)
    requires i <= |s|
    ensures var j := Skip(class_, s, i); j == |s| || !class_(s[j])
    decreases |s| - i
  {
    if i < |s| && class_(s[i]) {
      SkipStops(class_, s, i + 1);
    }
  }

  /** A value ends at a delimiter or with the text, and a pass leaves the first character behind it in place. */
  lemma PassIsBounded(u: Unicode, s: string, from: nat, marker: Marker)
    requires from <= |s|
    ensures Bounded(Pass(u, s[ValueEnd(u, s, from)..], marker))
  {
    var rest := s[ValueEnd(u, s, from)..];
    hide Skip, Occurs;
    var first := Skip(IsQuoteOrBlank, s, from);
    var schemeEnd := Skip(c => IsSchemeChar(u, c), s, first);
    SkipStops(IsValueChar, s, first);
    SkipStops(IsValueChar, s, Skip(IsSpace, s, schemeEnd));
    PassKeepsHead(u, rest, marker);
  }

  lemma PassKeepsHead(u: Unicode, s: string, marker: Marker)
    ensures s == [] ==> Pass(u, s, marker) == []
    ensures s != [] ==> Pass(u, s, marker) != [] && Pass(u, s, marker)[0] == s[0]
  {
    var found := FindMarker(u, s, marker, 0);
    if found.Some? {
      OccursFits(u, s, marker, found.value);
    }
  }

  lemma MarkerEnds(u: Unicode, s: string, marker: Marker, p: nat)
    requires Occurs(u, s, marker, p) && IsMarker(marker) && KeepsBrackets(u)
    ensures p + |marker| <= |s| && s[p + |marker| - 1] !in REDACTED && !IsSpace(s[p + |marker| - 1])
  {
    OccursAt(u, s, marker, p, p + |marker| - 1);
  }

  /** A pass covers its own marker. */
  lemma {:induction false} PassCovers(u: Unicode, s: string, marker: Marker)
    requires KeepsBrackets(u) && IsMarker(marker)
    ensures Covered(u, Pass(u, s, marker), marker)
    decreases |s|
  {
    hide Occurs, IsMarker, KeepsBrackets, Followed, Bounded, ValueEnd;
    var found := FindMarker(u, s, marker, 0);
    if found.Some? {
      var from := found.value + |marker|;
      OccursFits(u, s, marker, found.value);
      var rest := s[ValueEnd(u, s, from)..];
      PassCovers(u, rest, marker);
      var a := s[..from];
      assert s == a + s[from..];
      forall p: nat | Occurs(u, a, marker, p) ensures p + |marker| == |a| {
        OccursFits(u, a, marker, p);
        OccursInPrefix(u, a, s[from..], marker, p);
      }
      MarkerEnds(u, s, marker, found.value);
      PassIsBounded(u, s, from, marker);
      SpliceIsCovered(u, a, Pass(u, rest, marker), marker);
    } else {
      NotFound(u, s, marker);
    }
  }

  lemma NotFound(u: Unicode, s: string, marker: Marker)
    requires FindMarker(u, s, marker, 0).None?
    ensures forall p: nat :: !Occurs(u, s, marker, p)
  {
    forall p: nat ensures !Occurs(u, s, marker, p) {
      assert p + |marker| <= |s| ==> p <= |s|;
    }
  }

  /** And keeps every other one covered. */
  lemma {:induction false} PassKeepsCovered(u: Unicode, s: string, other: Marker, marker: Marker)
    requires KeepsBrackets(u) && IsMarker(marker) && IsMarker(other) && Covered(u, s, marker)
    ensures Covered(u, Pass(u, s, other), marker)
    decreases |s|
  {
    hide Occurs, Followed, Covered, CoveredOrLast, Bounded, ValueEnd, KeepsBrackets, IsMarker;
    var found := FindMarker(u, s, other, 0);
    if found.Some? {
      var from := found.value + |other|;
      OccursFits(u, s, other, found.value);
      MarkerEnds(u, s, other, found.value);
      PassIsBounded(u, s, from, other);
      var to := ValueEnd(u, s, from);
      SuffixIsCovered(u, s, marker, to);
      PassKeepsCovered(u, s[to..], other, marker);
      PrefixIsCovered(u, s, marker, from);
      SpliceIsCovered(u, s[..from], Pass(u, s[to..], other), marker);
    }
  }

  lemma SpaceFits(u: Unicode, a: string, marker: Marker)
    requires KeepsBrackets(u) && IsMarker(marker) && a != [] && IsSpace(a[|a| - 1])
    ensures a[|a| - 1] !in REDACTED
    ensures |marker| <= |a| ==> !Occurs(u, a, marker, |a| - |marker|)
  {
    if |marker| <= |a| {
      SpaceEndsNoMarker(u, a, marker, |a| - |marker|);
    }
  }

  lemma SpaceEndsNoMarker(u: Unicode, a: string, marker: Marker, p: nat)
    requires KeepsBrackets(u) && IsMarker(marker) && p + |marker| <= |a| && IsSpace(a[p + |marker| - 1])
    ensures !Occurs(u, a, marker, p)
  {
    hide Occurs;
    if Occurs(u, a, marker, p) {
      OccursAt(u, a, marker, p, p + |marker| - 1);
    }
  }

  lemma {:induction false} SubBearerKeepsCovered(u: Unicode, s: string, i: nat, marker: Marker)
    requires KeepsBrackets(u) && IsMarker(marker) && i <= |s| && Covered(u, s, marker)
    ensures Covered(u, SubBearer(u, s, i), marker)
    decreases |s| - i
  {
    hide Occurs, Followed, Covered, CoveredOrLast, IsMarker, KeepsBrackets, BearerHead;
    SuffixIsCovered(u, s, marker, i);
    var next := NextBearer(u, s, i);
    if next.Some? {
      var at := next.value;
      var (from, to) := BearerHead(s[at..]).value;
      SubBearerKeepsCovered(u, s, at + to, marker);
      var a := s[i..at + from];
      assert s[i..][..at + from - i] == a && a[|a| - 1] == s[at..][from - 1];
      SpaceFits(u, a, marker);
      PrefixIsCovered(u, s[i..], marker, at + from - i);
      SpliceIsCovered(u, a, SubBearer(u, s, at + to), marker);
    }
  }

  /** The characters of a field leave its markers without brackets. */
  lemma FieldMarkers(field: string)
    requires Without(field, '[') && Without(field, ']')
    ensures forall m :: m in MarkersOf(field) ==> IsMarker(m)
  {
  }

  lemma {:induction false} PassAllCovers(u: Unicode, s: string, markers: seq<Marker>, marker: Marker)
    requires KeepsBrackets(u) && IsMarker(marker) && forall i :: 0 <= i < |markers| ==> IsMarker(markers[i])
    requires marker in markers || Covered(u, s, marker)
    ensures Covered(u, PassAll(u, s, markers), marker)
  {
    hide Covered, IsMarker, KeepsBrackets;
    if markers != [] {
      var init, last := markers[..|markers| - 1], markers[|markers| - 1];
      if marker == last {
        PassCovers(u, PassAll(u, s, init), last);
      } else {
        PassAllCovers(u, s, init, marker);
        PassKeepsCovered(u, PassAll(u, s, init), last, marker);
      }
    }
  }

  lemma {:induction false} PassFieldsCovers(u: Unicode, s: string, fields: seq<string>, field: string, marker: Marker)
    requires KeepsBrackets(u) && forall f :: f in fields ==> Without(f, '[') && Without(f, ']')
    requires field in fields && marker in MarkersOf(field)
    ensures Covered(u, PassFields(u, s, fields), marker)
  {
    hide Covered, Without, KeepsBrackets;
    var init, last := fields[..|fields| - 1], fields[|fields| - 1];
    assert last in fields;
    FieldMarkers(field);
    FieldMarkers(last);
    if field != last {
      assert field in init;
      PassFieldsCovers(u, s, init, field, marker);
    }
    PassAllCovers(u, PassFields(u, s, init), MarkersOf(last), marker);
  }

  /**
   For fields without brackets: after the redaction every occurrence of every marker, in any letter case, is
   immediately followed by the replacement and then by a delimiter or the end of the text, all later passes and the
   bearer substitution included.
   */
  lemma RedactionCoversMarkers(u: Unicode, s: string, fields: seq<string>, field: string, marker: Marker)
    requires KeepsBrackets(u) && forall f :: f in fields ==> Without(f, '[') && Without(f, ']')
    requires field in fields && marker in MarkersOf(field)
    ensures Covered(u, RedactInline(u, s, fields), marker)
  {
    PassFieldsCovers(u, s, fields, field, marker);
    FieldMarkers(field);
    SubBearerKeepsCovered(u, PassFields(u, s, fields), 0, marker);
  }

  // ----- no bearer token is left -----

  /** No match in `r`, when `inside` says whether a word character stands before it. */
  ghost predicate NoBearer(u: Unicode, inside: bool, r: string) {
    forall p: nat :: p <= |r| ==> (if p == 0 then inside else InsideWord(u, r, p)) || BearerHead(r[p..]).None?
  }

  lemma NoBearerLetter(t: string)
    requires t == [] || !MatchesLetter(t[0], 'b')
    ensures BearerHead(t).None?
  {
    if |t| >= 6 {
      assert t[..6][0] == t[0];
    }
  }

  lemma {:induction false} SkipSame(class_: char -> bool, x: string, s: string, i: nat, end: nat)
    requires i <= end < |x| && !class_(x[end])
    ensures Skip(class_, x + s, i) == Skip(class_, x, i) <= end
    decreases end - i
  {
    assert (x + s)[i] == x[i];
    if i < end && class_(x[i]) {
      SkipSame(class_, x, s, i + 1, end);
    }
  }

  lemma LetterInWord(x: string, d: nat)
    requires 0 < d < 6 <= |x| && MatchesWord(x[..6], "bearer")
    ensures !MatchesLetter(x[d], 'b')
  {
    assert x[..6][d] == x[d];
  }

  /** A `b` further on decides whether there is a match at the head, whatever stands behind it. */
  lemma HeadDecided(x: string, s1: string, s2: string, d: nat)
    requires 0 < d && d + 6 < |x| && MatchesLetter(x[d], 'b')
    ensures BearerHead(x + s1).Some? <==> BearerHead(x + s2).Some?
  {
    assert (x + s1)[..6] == x[..6] == (x + s2)[..6];
    if MatchesWord(x[..6], "bearer") {
      if d < 6 {
        LetterInWord(x, d);
      }
      SkipSame(IsSpace, x, s1, 6, d);
      SkipSame(IsSpace, x, s2, 6, d);
      var k := Skip(IsSpace, x, 6);
      assert (x + s1)[k] == x[k] == (x + s2)[k];
    }
  }

  /** In front of the replacement there is a word and white space, but no token. */
  lemma HeadBeforeReplacement(t: string, rest: string, from: nat)
    requires 6 < from <= |t| && BearerHead(t).Some? && BearerHead(t).value.0 == from
    ensures BearerHead(t[..from] + REDACTED + rest).None?
  {
    var w, gap, r := t[..6], t[6..from], t[..from] + REDACTED + rest;
    SkipClass(IsSpace, t, 6);
    assert forall i :: 0 <= i < |gap| ==> gap[i] == t[6 + i];
    assert r == w + gap + (REDACTED + rest);
    SkipRun(IsSpace, w, gap, REDACTED + rest);
    assert r[from] == '[';
  }

  lemma {:induction false} SkipClass(class_: char -> bool, s: string, i: nat)
    requires i <= |s|
    ensures forall k :: i <= k < Skip(class_, s, i) ==> class_(s[k])
    decreases |s| - i
  {
    if i < |s| && class_(s[i]) {
      SkipClass(class_, s, i + 1);
    }
  }

  /** The other letters of the word, white space and the replacement start no match. */
  lemma NoMatchAfterWord(t: string, from: nat, p: nat)
    requires BearerHead(t).Some? && BearerHead(t).value.0 == from && 0 < p < from
    ensures !MatchesLetter(t[p], 'b')
  {
    SkipClass(IsSpace, t, 6);
    if p < 6 {
      LetterInWord(t, p);
    }
  }

  lemma SubBearerHead(u: Unicode, s: string, i: nat)
    requires i <= |s|
    ensures i == |s| ==> SubBearer(u, s, i) == []
    ensures i < |s| ==> SubBearer(u, s, i) != [] && SubBearer(u, s, i)[0] == s[i]
  {
    hide BearerHead;
    assert i == |s| ==> BearerHead(s[i..]).None? by {
      assert i == |s| ==> s[i..] == [];
      NoBearerLetter([]);
    }
  }

  /** The three parts of a text after one substitution, position by position. */
  lemma NoBearerInParts(u: Unicode, inside: bool, s: string, at: nat, tail: string)
    requires at <= |s| && BearerHead(s[at..]).Some?
    requires forall p: nat :: p < at ==> (if p == 0 then inside else InsideWord(u, s, p)) || BearerHead(s[p..]).None?
    requires NoBearer(u, true, tail) && (tail == [] || !MatchesLetter(tail[0], 'b'))
    ensures NoBearer(u, inside, s[..at + BearerHead(s[at..]).value.0] + REDACTED + tail)
  {
    hide BearerHead, IsSpace;
    var cut := at + BearerHead(s[at..]).value.0;
    var a := s[..cut];
    var r := a + REDACTED + tail;
    forall p: nat | p <= |r| ensures (if p == 0 then inside else InsideWord(u, r, p)) || BearerHead(r[p..]).None? {
      if p < at {
        BeforeMatch(u, s, at, p, tail);
      } else if p < cut {
        AtMatch(s, at, p, tail);
      } else if p < cut + |REDACTED| {
        assert r[p..][0] == REDACTED[p - cut];
        NoBearerLetter(r[p..]);
      } else {
        var q := p - |a + REDACTED|;
        assert r[p..] == tail[q..];
        if q == 0 {
          NoBearerLetter(tail[q..]);
        } else {
          assert r[p - 1] == tail[q - 1];
        }
      }
    }
  }

  lemma BeforeMatch(u: Unicode, s: string, at: nat, p: nat, tail: string)
    requires p < at <= |s| && BearerHead(s[at..]).Some?
    ensures var r := s[..at + BearerHead(s[at..]).value.0] + REDACTED + tail;
            && p < |r| && (InsideWord(u, r, p) <==> InsideWord(u, s, p))
            && (BearerHead(r[p..]).Some? <==> BearerHead(s[p..]).Some?)
  {
    var cut := at + BearerHead(s[at..]).value.0;
    var x := s[p..cut];
    assert s[at..][..6][0] == s[at] == x[at - p];
    hide BearerHead;
    var r := s[..cut] + REDACTED + tail;
    assert r[p..] == x + (REDACTED + tail);
    assert s[p..] == x + s[cut..];
    HeadDecided(x, REDACTED + tail, s[cut..], at - p);
  }

  lemma AtMatch(s: string, at: nat, p: nat, tail: string)
    requires at <= p && at <= |s| && BearerHead(s[at..]).Some? && p < at + BearerHead(s[at..]).value.0
    ensures BearerHead((s[..at + BearerHead(s[at..]).value.0] + REDACTED + tail)[p..]).None?
  {
    hide BearerHead;
    var t := s[at..];
    var from := BearerHead(t).value.0;
    var r := s[..at + from] + REDACTED + tail;
    if p == at {
      HeadBeforeReplacement(t, tail, from);
      assert r[at..] == t[..from] + REDACTED + tail;
    } else {
      NoMatchAfterWord(t, from, p - at);
      assert r[p..][0] == t[p - at];
      NoBearerLetter(r[p..]);
    }
  }

  lemma TokenEndsBeforeLetter(t: string)
    requires BearerHead(t).Some?
    ensures var to := BearerHead(t).value.1; to == |t| || !MatchesLetter(t[to], 'b')
  {
    SkipStops(IsTokenChar, t, Skip(IsSpace, t, 6));
  }

  lemma WeakerContext(u: Unicode, inside: bool, r: string)
    requires NoBearer(u, inside, r) && (r == [] || !MatchesLetter(r[0], 'b'))
    ensures NoBearer(u, true, r)
  {
  }

  /** The substitution leaves no bearer token behind. */
  lemma {:induction false} SubstitutionLeavesNoBearer(u: Unicode, s: string, i: nat)
    requires i <= |s|
    ensures NoBearer(u, InsideWord(u, s, i), SubBearer(u, s, i))
    decreases |s| - i
  {
    hide BearerHead, MatchesLetter, NoBearer, NextBearer;
    var next := NextBearer(u, s, i);
    if next.None? {
      NoneFound(u, s, i);
    } else {
      var to := next.value + BearerHead(s[next.value..]).value.1;
      SubstitutionLeavesNoBearer(u, s, to);
      TailFits(u, s, next.value);
      FirstFound(u, s, i, SubBearer(u, s, to));
    }
  }

  lemma NoneFound(u: Unicode, s: string, i: nat)
    requires i <= |s| && NextBearer(u, s, i).None?
    ensures NoBearer(u, InsideWord(u, s, i), s[i..])
  {
    hide BearerHead, InsideWord, BearerAt;
    NextBearerIsFirst(u, s, i);
    forall p: nat | p <= |s[i..]|
      ensures (if p == 0 then InsideWord(u, s, i) else InsideWord(u, s[i..], p)) || BearerHead(s[i..][p..]).None?
    {
      NoMatchAt(u, s, i, p);
    }
  }

  lemma NoMatchAt(u: Unicode, s: string, i: nat, p: nat)
    requires i + p <= |s| && !BearerAt(u, s, i + p)
    ensures (if p == 0 then InsideWord(u, s, i) else InsideWord(u, s[i..], p)) || BearerHead(s[i..][p..]).None?
  {
    hide BearerHead;
    assert s[i..][p..] == s[i + p..];
  }

  /** What is made of the text behind a token goes on as that text does. */
  lemma TailFits(u: Unicode, s: string, at: nat)
    requires at <= |s| && BearerHead(s[at..]).Some?
    requires var to := at + BearerHead(s[at..]).value.1; NoBearer(u, InsideWord(u, s, to), SubBearer(u, s, to))
    ensures var tail := SubBearer(u, s, at + BearerHead(s[at..]).value.1);
            NoBearer(u, true, tail) && (tail == [] || !MatchesLetter(tail[0], 'b'))
  {
    hide BearerHead, NoBearer, MatchesLetter;
    var to := at + BearerHead(s[at..]).value.1;
    TokenEndsBeforeLetter(s[at..]);
    SubBearerHead(u, s, to);
    WeakerContext(u, InsideWord(u, s, to), SubBearer(u, s, to));
  }

  lemma FirstFound(u: Unicode, s: string, i: nat, tail: string)
    requires i <= |s| && NextBearer(u, s, i).Some?
    requires NoBearer(u, true, tail) && (tail == [] || !MatchesLetter(tail[0], 'b'))
    ensures var at := NextBearer(u, s, i).value;
            NoBearer(u, InsideWord(u, s, i), s[i..at + BearerHead(s[at..]).value.0] + REDACTED + tail)
  {
    hide BearerHead, MatchesLetter, NoBearer, NextBearer, InsideWord;
    var t, at := s[i..], NextBearer(u, s, i).value - i;
    NextBearerIsFirst(u, s, i);
    forall p: nat | p < at ensures (if p == 0 then InsideWord(u, s, i) else InsideWord(u, t, p)) || BearerHead(t[p..]).None? {
      NoMatchAt(u, s, i, p);
    }
    assert t[at..] == s[i + at..];
    var from := BearerHead(t[at..]).value.0;
    assert t[..at + from] == s[i..i + at + from];
    NoBearerInParts(u, InsideWord(u, s, i), t, at, tail);
  }

  /** So no match of the bearer pattern is left in a redacted text. */
  lemma RedactionLeavesNoBearer(u: Unicode, s: string, fields: seq<string>, p: nat)
    requires p <= |RedactInline(u, s, fields)|
    ensures !BearerAt(u, RedactInline(u, s, fields), p)
  {
    SubstitutionLeavesNoBearer(u, PassFields(u, s, fields), 0);
  }

  // ----- a pass does not depend on the values it replaces -----

  /** `v` is taken for the value in front of `rest`. */
  predicate IsValue(u: Unicode, v: string, rest: string) {
    ValueEnd(u, v + rest, 0) == |v|
  }

  /** Behind the first occurrence of the marker any value is replaced as any other one is, and the pass goes on behind it. */
  lemma PassHidesValue(u: Unicode, a: string, v: string, rest: string, marker: Marker)
    requires |marker| <= |a| && Occurs(u, a, marker, |a| - |marker|)
    requires forall p: nat :: p < |a| - |marker| ==> !Occurs(u, a, marker, p)
    requires IsValue(u, v, rest)
    ensures Pass(u, a + (v + rest), marker) == a + REDACTED + Pass(u, rest, marker)
  {
    hide Occurs, ValueEnd, FindMarker, Pass;
    FindsFirstMarker(u, a, v + rest, marker);
    PassAfter(u, a, v + rest, marker);
    assert (v + rest)[|v|..] == rest;
  }

  lemma PassAfter(u: Unicode, a: string, tail: string, marker: Marker)
    requires |marker| <= |a| && FindMarker(u, a + tail, marker, 0) == Some(|a| - |marker|)
    ensures Pass(u, a + tail, marker) == a + REDACTED + Pass(u, tail[ValueEnd(u, tail, 0)..], marker)
  {
    hide Occurs, ValueEnd, FindMarker, Pass;
    ValueEndShift(u, a, tail, 0);
    PassFrom(u, a + tail, marker, |a|, |a| + ValueEnd(u, tail, 0));
    TwoParts(a, tail, ValueEnd(u, tail, 0));
  }

  lemma TwoParts(a: string, tail: string, k: nat)
    requires k <= |tail|
    ensures (a + tail)[..|a|] == a && (a + tail)[|a| + k..] == tail[k..]
  {
  }

  lemma PassFrom(u: Unicode, s: string, marker: Marker, from: nat, to: nat)
    requires |marker| <= from <= |s| && FindMarker(u, s, marker, 0) == Some(from - |marker|) && ValueEnd(u, s, from) == to
    ensures to <= |s| && Pass(u, s, marker) == s[..from] + REDACTED + Pass(u, s[to..], marker)
  {
    hide FindMarker, ValueEnd;
  }

  lemma FindsFirstMarker(u: Unicode, a: string, b: string, marker: Marker)
    requires |marker| <= |a| && Occurs(u, a, marker, |a| - |marker|)
    requires forall p: nat :: p < |a| - |marker| ==> !Occurs(u, a, marker, p)
    ensures FindMarker(u, a + b, marker, 0) == Some(|a| - |marker|)
  {
    hide Occurs;
    var at := |a| - |marker|;
    forall p: nat | p <= at ensures Occurs(u, a + b, marker, p) <==> p == at {
      OccursInPrefix(u, a, b, marker, p);
    }
    FindsAt(u, a + b, marker, 0, at);
  }

  lemma {:induction false} FindsAt(u: Unicode, s: string, marker: Marker, from: nat, at: nat)
    requires from <= at <= |s| && forall p: nat :: from <= p <= at ==> (Occurs(u, s, marker, p) <==> p == at)
    ensures FindMarker(u, s, marker, from) == Some(at)
    decreases at - from
  {
    hide Occurs;
    if from < at {
      FindsAt(u, s, marker, from + 1, at);
    }
  }

  lemma {:induction false} SkipRun(class_: char -> bool, a: string, run: string, rest: string)
    requires All(class_, run) && (rest == [] || !class_(rest[0]))
    ensures Skip(class_, a + run + rest, |a|) == |a + run|
    decreases |run|
  {
    var s := a + run + rest;
    if run != [] {
      assert s[|a|] == run[0];
      assert a + [run[0]] + run[1..] + rest == s;
      SkipRun(class_, a + [run[0]], run[1..], rest);
    }
  }

  lemma {:induction false} SkipWithin(class_: char -> bool, s: string, i: nat, end: nat)
    requires i <= end <= |s| && (end == |s| || !class_(s[end]))
    ensures Skip(class_, s, i) <= end
    decreases end - i
  {
    if i < end && class_(s[i]) {
      SkipWithin(class_, s, i + 1, end);
    }
  }

  /** Quotes and blanks, and then characters that are neither delimiters nor white space and spell no authorization scheme. */
  lemma PlainValue(u: Unicode, lead: string, x: string, rest: string)
    requires forall c :: IsDelimiter(c) ==> !u.isAlnum(c)
    requires All(IsQuoteOrBlank, lead) && x != [] && All(IsValueChar, x) && All(c => !IsSpace(c), x)
    requires Lower(u, x) !in AUTH_SCHEMES && Bounded(rest)
    ensures IsValue(u, lead + x, rest)
  {
    var s := lead + x + rest;
    assert s == [] + lead + (x + rest) && s[|lead|] == x[0];
    SkipRun(IsQuoteOrBlank, [], lead, x + rest);
    SkipRun(IsValueChar, lead, x, rest);
    var schemeChar := c => IsSchemeChar(u, c);
    assert rest != [] ==> s[|lead + x|] == rest[0];
    SkipWithin(schemeChar, s, |lead|, |lead + x|);
    var schemeEnd := Skip(schemeChar, s, |lead|);
    if schemeEnd < |lead + x| {
      assert s[schemeEnd] == x[schemeEnd - |lead|];
    } else {
      assert s[|lead|..schemeEnd] == x;
    }
  }

  /** An authorization scheme, white space and the credential behind it go together. */
  lemma SchemeValue(u: Unicode, lead: string, scheme: string, gap: string, x: string, rest: string)
    requires All(IsQuoteOrBlank, lead) && All(c => IsSchemeChar(u, c), scheme) && All(IsSpace, gap) && gap != []
    requires scheme != [] && !IsQuoteOrBlank(scheme[0]) && !IsSchemeChar(u, gap[0]) && Lower(u, scheme) in AUTH_SCHEMES
    requires x != [] && !IsSpace(x[0]) && All(IsValueChar, x) && Bounded(rest)
    ensures IsValue(u, lead + scheme + gap + x, rest)
  {
    var s := lead + scheme + gap + x + rest;
    assert s == [] + lead + (scheme + gap + x + rest) && s == lead + scheme + (gap + x + rest);
    assert s == lead + scheme + gap + (x + rest) && s[|lead + scheme|] == gap[0];
    SkipRun(IsQuoteOrBlank, [], lead, scheme + gap + x + rest);
    SkipRun(c => IsSchemeChar(u, c), lead, scheme, gap + x + rest);
    SkipRun(IsSpace, lead + scheme, gap, x + rest);
    SkipRun(IsValueChar, lead + scheme + gap, x, rest);
    assert s[|lead|..|lead + scheme|] == scheme;
  }
}
