/**
 What a legal hold request asks for and what it gets: which rows the created hold protects, which requests are refused,
 and that a protected row stays in the table, whatever happens, until that very hold is released.
 */
module HoldProtection {
  import opened Options
  import opened AuditRows
  import opened AuditTable
  import opened AuditSealing
  import opened AuditWorld
  import opened AuditSafety
  import opened LegalHolds

  // ----- the request in the caller's terms -----

  /** The scope type, white space around it and the case of ASCII letters aside. */
  predicate AsksFor(request: HoldRequest, kind: string) {
    LowerAscii(Trim(request.scopeType)) == kind
  }

  /** Trimming takes white space away at both ends, and nothing else. */
  lemma TrimTakesWhitespaceOnly(s: string) returns (front: string, back: string)
    ensures s == front + Trim(s) + back
    ensures forall c :: c in front || c in back ==> IsWhitespace(c)
    ensures Trim(s) != [] ==> !IsWhitespace(Trim(s)[0]) && !IsWhitespace(Trim(s)[|Trim(s)| - 1])
  {
    front := TrimmedFront(s);
    back := TrimmedBack(TrimStart(s));
    assert s == front + (Trim(s) + back);
    assert Trim(s) != [] ==> Trim(s)[0] == TrimStart(s)[0];
  }

  lemma {:induction false} TrimmedFront(s: string) returns (front: string)
    ensures s == front + TrimStart(s) && forall c :: c in front ==> IsWhitespace(c)
    ensures TrimStart(s) != [] ==> !IsWhitespace(TrimStart(s)[0])
  {
    if s != [] && IsWhitespace(s[0]) {
      var rest := TrimmedFront(s[1..]);
      front := [s[0]] + rest;
      assert s == [s[0]] + s[1..];
    } else {
      front := [];
    }
  }

  lemma {:induction false} TrimmedBack(s: string) returns (back: string)
    ensures s == TrimEnd(s) + back && forall c :: c in back ==> IsWhitespace(c)
    ensures TrimEnd(s) != [] ==> !IsWhitespace(TrimEnd(s)[|TrimEnd(s)| - 1])
  {
    if s != [] && IsWhitespace(s[|s| - 1]) {
      var rest := TrimmedBack(s[..|s| - 1]);
      back := rest + [s[|s| - 1]];
      assert s == s[..|s| - 1] + [s[|s| - 1]];
    } else {
      back := [];
    }
  }

  // ----- which rows a created hold protects -----

  /** The row is one the request names; a segment by the text the database renders for its id. */
  ghost predicate Named(w: World, request: HoldRequest, r: Row) {
    && r.entry.tenantId == request.tenantId
    && (|| AsksFor(request, "tenant")
        || (&& AsksFor(request, "resource") && request.resourceType.Some? && request.scopeId.Some?
            && r.entry.resourceType == Trim(request.resourceType.value) && r.entry.resourceId == Trim(request.scopeId.value))
        || (&& AsksFor(request, "segment") && request.scopeId.Some?
            && exists s :: s in w.segments && Trim(request.scopeId.value) == UuidText(s.seal.id) && Listed(s.seal, r.id)))
  }

  /** An accepted hold is active, has the request's tenant, and protects exactly the rows the request names. */
  lemma AcceptedHoldCoversNamed(w: World, request: HoldRequest, id: Uuid, h: Hold, r: Row)
    requires NewHold(w, request, id) == Ok(h)
    ensures h.active && h.id == id && h.tenantId == request.tenantId
    ensures HoldCovers(w, h, r) <==> Named(w, request, r)
  {
    hide Trim, LowerAscii, ParseUuid, UuidText, Listed;
  }

  /** In the cleanup's own test, which looks at a row inside its covering segment. */
  lemma AcceptedHoldBlocks(w: World, request: HoldRequest, id: Uuid, h: Hold, covering: Seal, r: Row)
    requires NewHold(w, request, id) == Ok(h)
    ensures AsksFor(request, "tenant") ==> (HoldBlocks(h, covering, r) <==> covering.tenantId == request.tenantId)
    ensures AsksFor(request, "resource") ==>
              && request.resourceType.Some? && request.scopeId.Some?
              && (HoldBlocks(h, covering, r) <==>
                    && covering.tenantId == request.tenantId
                    && r.entry.resourceType == Trim(request.resourceType.value)
                    && r.entry.resourceId == Trim(request.scopeId.value))
  {
    hide Trim, LowerAscii, ParseUuid, UuidText, Listed;
  }

  // ----- which requests are refused -----

  predicate FitsIn(text: Option<string>, maxChars: nat) {
    text.Some? ==> 1 <= |Trim(text.value)| <= maxChars
  }

  /** The texts a scope type needs, and no others. */
  predicate WellFormed(request: HoldRequest) {
    && FitsIn(request.scopeId, 512) && FitsIn(request.resourceType, 128)
    && (|| (AsksFor(request, "tenant") && request.scopeId.None? && request.resourceType.None?)
        || (AsksFor(request, "segment") && request.scopeId.Some? && request.resourceType.None? && ParseUuid(Trim(request.scopeId.value)).Some?)
        || (AsksFor(request, "resource") && request.scopeId.Some? && request.resourceType.Some?))
  }

  ghost predicate NamesSegment(w: World, request: HoldRequest) {
    && request.scopeId.Some?
    && exists s :: s in w.segments && s.seal.tenantId == request.tenantId && ParseUuid(Trim(request.scopeId.value)) == Some(s.seal.id)
  }

  /** An active hold of the tenant with the scope the request asks for. */
  ghost predicate AlreadyActive(w: World, request: HoldRequest) {
    exists h :: h in w.holds && h.active && h.tenantId == request.tenantId
      && match h.scope
         case TenantScope => AsksFor(request, "tenant")
         case SegmentScope(text) => AsksFor(request, "segment") && request.scopeId.Some? && text == Trim(request.scopeId.value)
         case ResourceScope(resourceType, scopeId) =>
           && AsksFor(request, "resource") && request.scopeId.Some? && request.resourceType.Some?
           && scopeId == Trim(request.scopeId.value) && resourceType == Trim(request.resourceType.value)
  }

  /** Every answer to a request, with its exact condition. */
  lemma HoldRequestAnswers(w: World, request: HoldRequest, id: Uuid)
    ensures NewHold(w, request, id) == Err(InvalidInput) <==> !WellFormed(request)
    ensures NewHold(w, request, id) == Err(SegmentNotFound) <==>
              WellFormed(request) && AsksFor(request, "segment") && !NamesSegment(w, request)
    ensures NewHold(w, request, id).Ok? <==>
              WellFormed(request) && (AsksFor(request, "segment") ==> NamesSegment(w, request)) && !AlreadyActive(w, request)
  {
    hide Trim, LowerAscii, ParseUuid;
  }

  // ----- from the request to the release -----

  /** Once the hold is in the table, no row the request names is released. */
  lemma NamedRowIsNotReleased(w: World, request: HoldRequest, id: Uuid, h: Hold, r: Row, now: int)
    requires NewHold(w, request, id) == Ok(h) && Named(w, request, r)
    ensures h in CreateHoldTx(w, h).holds && HoldCovers(CreateHoldTx(w, h), h, r)
    ensures !Released(CreateHoldTx(w, h), r, now)
  {
    AcceptedHoldCoversNamed(w, request, id, h, r);
    AcceptedIsCreated(w, request, id, h);
    hide NewHold, Named;
    var w' := CreateHoldTx(w, h);
    assert HoldCovers(w', h, r);
  }

  lemma AcceptedIsCreated(w: World, request: HoldRequest, id: Uuid, h: Hold)
    requires NewHold(w, request, id) == Ok(h)
    ensures CreateHoldTx(w, h) == w.(holds := w.holds + {h})
  {
    hide Trim, LowerAscii, ParseUuid;
  }

  /** A release ends the holds of that id and tenant and spares every other one. */
  lemma ReleaseEndsOnlyThatHold(w: World, tenant: Uuid, id: Uuid, h: Hold)
    ensures var w' := ReleaseHoldTx(w, tenant, id);
            && (h.active ==> (h in w'.holds <==> h in w.holds && !(h.id == id && h.tenantId == tenant)))
            && w' == w.(holds := w'.holds)
  {
    var w' := ReleaseHoldTx(w, tenant, id);
    if h in w.holds && !(h.id == id && h.tenantId == tenant) {
      assert h in w'.holds;
    }
  }

  predicate Releases(step: Step, h: Hold) {
    step.ReleaseHold? && step.tenant == h.tenantId && step.holdId == h.id
  }

  /** Segments only grow, and what they list stays listed. */
  lemma StepKeepsListing(p: Platform, w: World, step: Step, s: Segment)
    requires UniqueKeys(w.rows) && SegmentsHaveRows(w.segments) && s in w.segments
    ensures exists s' :: s' in Apply(p, w, step).segments && s'.seal == s.seal
  {
    var w' := Apply(p, w, step);
    var i :| 0 <= i < |w.segments| && w.segments[i] == s;
    assert Seals(w.segments)[i] == s.seal;
    if step.SealNext? {
      SealKeepsSegments(p, w, step);
    } else {
      OtherStepsKeepSeals(p, w, step);
      assert |Seals(w'.segments)| == |w'.segments|;
    }
    assert Seals(w'.segments)[i] == w'.segments[i].seal;
    assert w'.segments[i] in w'.segments;
  }

  lemma SealKeepsSegments(p: Platform, w: World, step: Step)
    requires SegmentsHaveRows(w.segments) && step.SealNext? && UniqueKeys(w.rows)
    ensures Seals(w.segments) <= Seals(Apply(p, w, step).segments)
  {
    hide RowsToSeal;
  }

  lemma StepKeepsHold(p: Platform, w: World, step: Step, h: Hold)
    requires UniqueKeys(w.rows) && SegmentsHaveRows(w.segments) && h in w.holds && h.active && !Releases(step, h)
    ensures h in Apply(p, w, step).holds
  {
    if step.ReleaseHold? {
      ReleaseEndsOnlyThatHold(w, step.tenant, step.holdId, h);
    }
  }

  lemma StepKeepsCover(p: Platform, w: World, step: Step, h: Hold, r: Row, r': Row)
    requires UniqueKeys(w.rows) && SegmentsHaveRows(w.segments) && HoldCovers(w, h, r) && SameContent(r', r)
    ensures HoldCovers(Apply(p, w, step), h, r')
  {
    if h.scope.SegmentScope? {
      var s :| s in w.segments && h.scope.scopeId == UuidText(s.seal.id) && Listed(s.seal, r.id);
      StepKeepsListing(p, w, step, s);
      var s' :| s' in Apply(p, w, step).segments && s'.seal == s.seal;
      assert Listed(s'.seal, r'.id);
    }
    hide Apply;
  }

  /** No step but a cleanup loses a row, and a cleanup does not lose a covered one. */
  lemma StepKeepsCoveredRow(p: Platform, w: World, step: Step, h: Hold, r: Row)
    requires Safe(p, w) && UniqueKeys(w.rows) && SegmentsHaveRows(w.segments) && NoCollisions(w.ledger)
    requires h in w.holds && HoldCovers(w, h, r) && r in w.rows
    ensures exists r' :: r' in Apply(p, w, step).rows && SameContent(r', r)
  {
    hide Safe, NoCollisions, HoldCovers, UniqueKeys, SegmentsHaveRows;
    StepKeepsRow(p, w, step, r);
    if step.Cleanup? {
      CoveredIsNotReleased(w, h, r, step.now);
      CleanupDropsExactlyReleased(p, w, step.name, step.now, step.monthStart);
    }
    assert SameContent(r, r);
  }

  lemma CoveredIsNotReleased(w: World, h: Hold, r: Row, now: int)
    requires h in w.holds && HoldCovers(w, h, r)
    ensures !Released(w, r, now)
  {
  }

  /** Over every run: a row under an active hold stays in the table until that hold is released. */
  lemma {:induction false} HeldRowsStay(p: Platform, ws: seq<World>, steps: seq<Step>, i: nat, j: nat, h: Hold, r: Row)
    requires Run(p, ws, steps) && i <= j < |ws| && NoCollisions(ws[j].ledger)
    requires h in ws[i].holds && HoldCovers(ws[i], h, r) && r in ws[i].rows
    requires forall k :: i <= k < j ==> !Releases(steps[k], h)
    ensures h in ws[j].holds
    ensures exists r' :: r' in ws[j].rows && SameContent(r', r) && HoldCovers(ws[j], h, r')
    decreases j
  {
    if i == j {
      assert SameContent(r, r);
    } else {
      hide Initial, Safe, Apply, NoCollisions, Admissible, UniqueKeys, SegmentsHaveRows, HoldCovers, Releases;
      var k := j - 1;
      LedgerKeepsNoCollisions(p, ws, steps, k, j);
      HeldRowsStay(p, ws, steps, i, k, h, r);
      var x :| x in ws[k].rows && SameContent(x, r) && HoldCovers(ws[k], h, x);
      RunsAreSafe(p, ws, steps, k);
      SafeIsWellFormed(p, ws[k]);
      assert Next(p, ws[k], steps[k], ws[k + 1]);
      CoverIsActive(ws[k], h, x);
      StepKeepsHold(p, ws[k], steps[k], h);
      StepKeepsCoveredRow(p, ws[k], steps[k], h, x);
      var y :| y in ws[j].rows && SameContent(y, x);
      StepKeepsCover(p, ws[k], steps[k], h, x, y);
    }
  }

  lemma CoverIsActive(w: World, h: Hold, r: Row)
    requires HoldCovers(w, h, r)
    ensures h.active
  {
  }

  /** From the request on: while its hold is not released, a row it names cannot be dropped. */
  lemma RequestedRowsStay(p: Platform, ws: seq<World>, steps: seq<Step>, i: nat, j: nat, request: HoldRequest, id: Uuid, h: Hold, r: Row)
    requires Run(p, ws, steps) && i < j < |ws| && NoCollisions(ws[j].ledger)
    requires NewHold(ws[i], request, id) == Ok(h) && steps[i] == CreateHold(h) && Named(ws[i], request, r) && r in ws[i].rows
    requires forall k :: i < k < j ==> !Releases(steps[k], h)
    ensures exists r' :: r' in ws[j].rows && SameContent(r', r)
  {
    hide Initial, Safe, NoCollisions, Admissible, Named, NewHold, HoldCovers, Released;
    RunsAreSafe(p, ws, steps, i);
    SafeIsWellFormed(p, ws[i]);
    assert Next(p, ws[i], steps[i], ws[i + 1]);
    NamedRowIsNotReleased(ws[i], request, id, h, r, 0);
    AcceptedIsCreated(ws[i], request, id, h);
    HeldRowsStay(p, ws, steps, i + 1, j, h, r);
  }

  // ----- one active hold per scope -----

  ghost predicate OnePerScope(holds: set<Hold>) {
    forall g, h :: g in holds && h in holds && g.active && h.active && g.tenantId == h.tenantId && g.scope == h.scope ==> g == h
  }

  /** No step adds a second active hold on a scope. */
  lemma StepKeepsOnePerScope(p: Platform, w: World, step: Step)
    requires UniqueKeys(w.rows) && SegmentsHaveRows(w.segments) && OnePerScope(w.holds)
    ensures OnePerScope(Apply(p, w, step).holds)
  {
  }

  lemma {:induction false} OneHoldPerScope(p: Platform, ws: seq<World>, steps: seq<Step>, i: nat)
    requires Run(p, ws, steps) && i < |ws| && OnePerScope(ws[0].holds)
    ensures OnePerScope(ws[i].holds)
  {
    if i > 0 {
      hide Initial, Safe, Apply, Admissible, UniqueKeys, SegmentsHaveRows, OnePerScope;
      OneHoldPerScope(p, ws, steps, i - 1);
      RunsAreSafe(p, ws, steps, i - 1);
      SafeIsWellFormed(p, ws[i - 1]);
      assert Next(p, ws[i - 1], steps[i - 1], ws[i - 1 + 1]);
      StepKeepsOnePerScope(p, ws[i - 1], steps[i - 1]);
    }
  }
}
