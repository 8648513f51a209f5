/**
 Creating a legal hold: the normalisation and validation of its scope, and which of the
 accepted segment scopes the eligibility query recognises.
 */
module LegalHolds {
  import opened Options
  import opened AuditRows
  import opened AuditTable
  import opened AuditSealing
  import opened AuditWorld
  import Numerals

  datatype HoldError = InvalidInput | SegmentNotFound | AlreadyHeld

  datatype HoldRequest = HoldRequest(tenantId: Uuid, scopeType: string, scopeId: Option<string>, resourceType: Option<string>)

  /** `char::is_whitespace`: the Unicode property White_Space. */
  predicate IsWhitespace(c: char) {
    var n := c as int;
    9 <= n <= 13 || n == 32 || n == 0x85 || n == 0xA0 || n == 0x1680 || 0x2000 <= n <= 0x200A
    || n == 0x2028 || n == 0x2029 || n == 0x202F || n == 0x205F || n == 0x3000
  }

  function TrimStart(s: string): (t: string) {
    if s != [] && IsWhitespace(s[0]) then TrimStart(s[1..]) else s
  }

  function TrimEnd(s: string): (t: string) {
    if s != [] && IsWhitespace(s[|s| - 1]) then TrimEnd(s[..|s| - 1]) else s
  }

  function Trim(s: string): (t: string) {
    TrimEnd(TrimStart(s))
  }

  function LowerAscii(s: string): (t: string)
    ensures |t| == |s|
  {
    seq(|s|, i requires 0 <= i < |s| => if 'A' <= s[i] <= 'Z' then (s[i] as int + 32) as char else s[i])
  }

  /** `normalize_optional_text`: absent, or trimmed and of bounded length. */
  function NormalizeOptional(s: Option<string>, maxChars: nat): (r: Result<Option<string>, HoldError>) {
    match s
    case None => Ok(None)
    case Some(text) =>
      var t := Trim(text);
      if t == [] || |t| > maxChars then Err(InvalidInput) else Ok(Some(t))
  }

  // ----- Uuid::parse_str -----

  predicate AllHexDigits(s: string) {
    forall i :: 0 <= i < |s| ==> Numerals.DigitValue(s[i]) < 16
  }

  /** The 32 digits of a simple or hyphenated UUID text. */
  function UuidDigits(s: string): (d: Option<string>)
    ensures d.Some? ==> |d.value| == 32
  {
    if |s| == 32 then Some(s)
    else if |s| == 36 && s[8] == '-' && s[13] == '-' && s[18] == '-' && s[23] == '-' then
      Some(s[..8] + s[9..13] + s[14..18] + s[19..23] + s[24..])
    else None
  }

  /** Simple, hyphenated, braced or URN form, in either letter case. */
  function ParseUuid(s: string): (u: Option<Uuid>)
  {
    var body :=
      if |s| == 38 && s[0] == '{' && s[37] == '}' then s[1..37]
      else if |s| == 45 && s[..9] == "urn:uuid:" then s[9..]
      else s;
    match UuidDigits(body)
    case None => None
    case Some(d) =>
      if AllHexDigits(d) && Numerals.Value(d, 16) < 0x1_0000_0000_0000_0000_0000_0000_0000_0000
      then Some(Numerals.Value(d, 16)) else None
  }

  /** The text the database renders for an id parses back to it. */
  lemma ParseUuidText(u: Uuid)
    ensures ParseUuid(UuidText(u)) == Some(u)
  {
    var h, s := Numerals.Hex(u, 32), UuidText(u);
    assert s[8] == '-' && s[13] == '-' && s[18] == '-' && s[23] == '-';
    assert s[..8] == h[..8] && s[9..13] == h[8..12] && s[14..18] == h[12..16] && s[19..23] == h[16..20] && s[24..] == h[20..];
    assert h == h[..8] + h[8..12] + h[12..16] + h[16..20] + h[20..];
    assert UuidDigits(s) == Some(h);
    HexDigitsOfHex(u, 32);
    Pow16Of32();
    Numerals.HexDenotes(u, 32);
  }

  lemma {:induction false} HexDigitsOfHex(n: nat, width: nat)
    ensures AllHexDigits(Numerals.Hex(n, width))
  {
    if width > 0 {
      HexDigitsOfHex(n / 16, width - 1);
      Numerals.DigitHasItsValue(n % 16);
    }
  }

  lemma {:induction false} ValueInLowerCase(d: string)
    requires AllHexDigits(d)
    ensures LowerAscii(d) == Numerals.Hex(Numerals.Value(d, 16), |d|)
  {
    if d != [] {
      var init, last := d[..|d| - 1], d[|d| - 1];
      assert Numerals.DigitValue(last) < 16;
      ValueInLowerCase(init);
      LowerDigit(last);
      var v, x := Numerals.Value(init, 16), Numerals.DigitValue(last);
      assert Numerals.Value(d, 16) == v * 16 + x;
      assert (v * 16 + x) / 16 == v && (v * 16 + x) % 16 == x;
      assert d == init + [last] && LowerAscii(d) == LowerAscii(init) + LowerAscii([last]);
    }
  }

  lemma LowerDigit(c: char)
    requires Numerals.DigitValue(c) < 16
    ensures LowerAscii([c]) == [Numerals.Digit(Numerals.DigitValue(c))]
  {
    var s: string := "0123456789abcdef";
    assert s == Numerals.DIGITS;
  }

  lemma LowerOfHex(d: string, u: Uuid)
    requires LowerAscii(d) == Numerals.Hex(u, 32)
    ensures |d| == 32 && AllHexDigits(d) && Numerals.Value(d, 16) == u
  {
    HexDigitsOfHex(u, 32);
    forall i | 0 <= i < |d| ensures Numerals.DigitValue(d[i]) < 16 {
      assert Numerals.DigitValue(LowerAscii(d)[i]) < 16;
    }
    ValueInLowerCase(d);
    HexIsOne(d, u);
  }

  lemma HexIsOne(d: string, u: Uuid)
    requires |d| == 32 && AllHexDigits(d) && Numerals.Hex(Numerals.Value(d, 16), 32) == Numerals.Hex(u, 32)
    ensures Numerals.Value(d, 16) == u
  {
    Pow16Of32();
    ValueIsBounded(d);
    Numerals.HexDenotes(Numerals.Value(d, 16), 32);
    Numerals.HexDenotes(u, 32);
  }

  lemma {:induction false} ValueIsBounded(d: string)
    requires AllHexDigits(d)
    ensures Numerals.Value(d, 16) < Numerals.Pow16(|d|)
  {
    if d != [] {
      assert Numerals.DigitValue(d[|d| - 1]) < 16;
      ValueIsBounded(d[..|d| - 1]);
    }
  }

  /** 32 digits, or 36 characters with hyphens, in either letter case. */
  predicate Spells(s: string, u: Uuid) {
    LowerAscii(s) == Numerals.Hex(u, 32) || LowerAscii(s) == UuidText(u)
  }

  /** The texts that parse: the digits with or without hyphens, and with hyphens also in braces or as a URN. */
  lemma ParseUuidIff(s: string, u: Uuid)
    ensures ParseUuid(s) == Some(u) <==>
            || Spells(s, u)
            || (|s| == 38 && s[0] == '{' && s[37] == '}' && Spells(s[1..37], u))
            || (|s| == 45 && s[..9] == "urn:uuid:" && Spells(s[9..], u))
  {
    hide Numerals.Hex, UuidText, AllHexDigits, Spells, UuidDigits;
    SpellingLength(s, u);
    if |s| == 38 && s[0] == '{' && s[37] == '}' {
      SpellsIff(s[1..37], u);
      SpellingLength(s, u);
    } else if |s| == 45 && s[..9] == "urn:uuid:" {
      SpellsIff(s[9..], u);
    } else {
      SpellsIff(s, u);
    }
  }

  lemma SpellingLength(s: string, u: Uuid)
    ensures Spells(s, u) ==> |s| == 32 || |s| == 36
  {
  }

  lemma SpellsIff(s: string, u: Uuid)
    ensures Spells(s, u) <==> var d := UuidDigits(s); d.Some? && AllHexDigits(d.value) && Numerals.Value(d.value, 16) == u
  {
    hide Numerals.Hex, AllHexDigits, Numerals.Value;
    var d := UuidDigits(s);
    if |s| == 36 {
      HyphensInPlace(s, u);
    }
    if d.Some? {
      if AllHexDigits(d.value) {
        ValueInLowerCase(d.value);
      }
      if LowerAscii(d.value) == Numerals.Hex(u, 32) {
        LowerOfHex(d.value, u);
      }
    }
  }

  /** Lower-casing leaves the hyphens in place. */
  lemma HyphensInPlace(s: string, u: Uuid)
    requires |s| == 36
    ensures LowerAscii(s) == UuidText(u) <==>
            UuidDigits(s).Some? && LowerAscii(UuidDigits(s).value) == Numerals.Hex(u, 32)
  {
    hide Numerals.Hex;
    var h, l, x := Numerals.Hex(u, 32), LowerAscii(s), UuidText(u);
    GroupsAreDigits(h);
    assert x[8] == '-' && x[13] == '-' && x[18] == '-' && x[23] == '-';
    if s[8] == '-' && s[13] == '-' && s[18] == '-' && s[23] == '-' {
      var d := s[..8] + s[9..13] + s[14..18] + s[19..23] + s[24..];
      GroupsLower(s, d);
      if LowerAscii(d) == h {
        SameGroups(l, h);
      }
    }
  }

  lemma GroupsLower(s: string, d: string)
    requires |s| == 36 && d == s[..8] + s[9..13] + s[14..18] + s[19..23] + s[24..]
    ensures var l := LowerAscii(s); LowerAscii(d) == l[..8] + l[9..13] + l[14..18] + l[19..23] + l[24..]
  {
  }

  lemma SameGroups(l: string, h: string)
    requires |l| == 36 && l[8] == '-' && l[13] == '-' && l[18] == '-' && l[23] == '-'
    requires |h| == 32 && h == l[..8] + l[9..13] + l[14..18] + l[19..23] + l[24..]
    ensures l == h[..8] + "-" + h[8..12] + "-" + h[12..16] + "-" + h[16..20] + "-" + h[20..]
  {
    assert h[..8] == l[..8] && h[8..12] == l[9..13] && h[12..16] == l[14..18] && h[16..20] == l[19..23] && h[20..] == l[24..];
  }

  // ----- create_audit_legal_hold -----

  /** `normalize_scope_type` and `validate_hold_scope`, with the scope they accept. */
  function ScopeOf(scopeType: string, scopeId: Option<string>, resourceType: Option<string>): (r: Result<Scope, HoldError>) {
    var kind := LowerAscii(Trim(scopeType));
    if kind == "tenant" then
      if scopeId == None && resourceType == None then Ok(TenantScope) else Err(InvalidInput)
    else if kind == "segment" then
      if scopeId.Some? && resourceType == None then Ok(SegmentScope(scopeId.value)) else Err(InvalidInput)
    else if kind == "resource" then
      if scopeId.Some? && resourceType.Some? then Ok(ResourceScope(resourceType.value, scopeId.value)) else Err(InvalidInput)
    else Err(InvalidInput)
  }

  /** A segment hold must name, by any text that parses, a segment of the tenant. */
  function CheckSegment(w: World, tenant: Uuid, scope: Scope): (e: Option<HoldError>) {
    match scope
    case SegmentScope(text) =>
      (match ParseUuid(text)
       case None => Some(InvalidInput)
       case Some(u) =>
         if exists s :: s in w.segments && s.seal.id == u && s.seal.tenantId == tenant then None else Some(SegmentNotFound))
    case _ => None
  }

  /** The hold a request creates, or why it creates none. */
  function NewHold(w: World, request: HoldRequest, id: Uuid): (r: Result<Hold, HoldError>) {
    match NormalizeOptional(request.scopeId, 512)
    case Err(e) => Err(e)
    case Ok(scopeId) =>
      match NormalizeOptional(request.resourceType, 128)
      case Err(e) => Err(e)
      case Ok(resourceType) =>
        match ScopeOf(request.scopeType, scopeId, resourceType)
        case Err(e) => Err(e)
        case Ok(scope) =>
          match CheckSegment(w, request.tenantId, scope)
          case Some(e) => Err(e)
          case None =>
            if exists h :: h in w.holds && h.active && h.tenantId == request.tenantId && h.scope == scope then Err(AlreadyHeld)
            else Ok(Hold(id, request.tenantId, scope, true))
  }

  /**
   A request for a segment hold that is accepted names a segment of its tenant. The hold keeps that segment's rows from
   cleanup exactly when the requested text, trimmed, is the database's own rendering of the id; the other accepted
   spellings, capital letters among them, block nothing at all.
   */
  lemma SegmentHoldBlocksIffCanonical(w: World, request: HoldRequest, id: Uuid, h: Hold)
    requires NewHold(w, request, id) == Ok(h) && h.scope.SegmentScope?
    ensures request.scopeId.Some? && h.tenantId == request.tenantId
    ensures var text := Trim(request.scopeId.value);
            && (exists s :: s in w.segments && s.seal.tenantId == request.tenantId && ParseUuid(text) == Some(s.seal.id))
            && (forall s, r: Row :: s in w.segments && s.seal.tenantId == request.tenantId && ParseUuid(text) == Some(s.seal.id) ==>
                  (HoldBlocks(h, s.seal, r) <==> text == UuidText(s.seal.id)))
            && (forall s, r: Row :: s in w.segments && ParseUuid(text) != Some(s.seal.id) ==> !HoldBlocks(h, s.seal, r))
  {
    SegmentText(w, request, id, h);
    forall s | s in w.segments ensures ParseUuid(UuidText(s.seal.id)) == Some(s.seal.id) {
      ParseUuidText(s.seal.id);
    }
  }

  lemma SegmentText(w: World, request: HoldRequest, id: Uuid, h: Hold)
    requires NewHold(w, request, id) == Ok(h) && h.scope.SegmentScope?
    ensures request.scopeId.Some? && h.scope.scopeId == Trim(request.scopeId.value)
  {
    hide Trim, LowerAscii;
  }

  lemma HexIsTrimmed(s: string)
    requires AllHexDigits(s)
    ensures Trim(s) == s
  {
    if s != [] {
      assert Numerals.DigitValue(s[0]) < 16 && Numerals.DigitValue(s[|s| - 1]) < 16;
    }
  }

  lemma ParseSimpleText(u: Uuid)
    ensures ParseUuid(Numerals.Hex(u, 32)) == Some(u)
  {
    HexDigitsOfHex(u, 32);
    Pow16Of32();
    Numerals.HexDenotes(u, 32);
  }

  /**
   Every segment has such a spelling: its id without hyphens is accepted, the hold is created as
   active, and no row of any segment is kept by it.
   */
  lemma UnhyphenatedHoldBlocksNothing(w: World, s: Segment, id: Uuid)
    requires s in w.segments
    requires forall h :: h in w.holds && h.active && h.tenantId == s.seal.tenantId ==> h.scope != SegmentScope(Numerals.Hex(s.seal.id, 32))
    ensures var request := HoldRequest(s.seal.tenantId, "segment", Some(Numerals.Hex(s.seal.id, 32)), None);
            NewHold(w, request, id) == Ok(Hold(id, s.seal.tenantId, SegmentScope(Numerals.Hex(s.seal.id, 32)), true))
    ensures var h := Hold(id, s.seal.tenantId, SegmentScope(Numerals.Hex(s.seal.id, 32)), true);
            forall x: Segment, r: Row :: !HoldBlocks(h, x.seal, r)
  {
    hide HoldBlocks, Numerals.Hex, ParseUuid, Trim;
    var text := Numerals.Hex(s.seal.id, 32);
    UnhyphenatedIsAccepted(s.seal.id);
    ParseSimpleText(s.seal.id);
    forall x: Segment, r: Row ensures !HoldBlocks(Hold(id, s.seal.tenantId, SegmentScope(text), true), x.seal, r) {
      ShortTextBlocksNothing(Hold(id, s.seal.tenantId, SegmentScope(text), true), x.seal, r);
    }
  }

  lemma UnhyphenatedIsAccepted(u: Uuid)
    ensures var text := Numerals.Hex(u, 32);
            && |text| == 32 && NormalizeOptional(Some(text), 512) == Ok(Some(text))
            && ScopeOf("segment", Some(text), None) == Ok(SegmentScope(text))
  {
    HexDigitsOfHex(u, 32);
    HexIsTrimmed(Numerals.Hex(u, 32));
    SegmentKind();
  }

  lemma SegmentKind()
    ensures LowerAscii(Trim("segment")) == "segment"
  {
  }

  lemma ShortTextBlocksNothing(h: Hold, s: Seal, r: Row)
    requires h.scope.SegmentScope? && |h.scope.scopeId| == 32
    ensures !HoldBlocks(h, s, r)
  {
    assert |UuidText(s.id)| == 36;
  }
}
