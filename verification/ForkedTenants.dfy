/**
 What the clock assumption of `AuditChains` is for. An insert that is not the newest of its tenant lets the next one
 link to the same predecessor. The walk of a seal refuses such a fork, nothing ever removes it, and the worker's
 query goes on selecting the tenant: with as many of them as its limit, tenants with larger ids are never selected.
 */
module ForkedTenants {
  import opened Options
  import opened AuditRows
  import opened AuditTable
  import opened AuditSealing
  import opened AuditWorld
  import opened AuditSafety
  import opened AuditChains
  import opened StrandedTenants

  /** A walk of `n` rows from the end of the tenant's last segment meets two rows with one predecessor. */
  ghost predicate Forked(w: World, t: Uuid, n: nat) {
    && (forall s :: s in Seals(w.segments) ==> NonEmpty(s))
    && NextChainRows(w.rows, t, SealedHash(Seals(w.segments), t), n) == Err(ForkDetected)
  }

  /** That is when a seal answers so, and the worker's query then selects the tenant. */
  lemma ForkedIsRefused(p: Platform, w: World, t: Uuid, n: nat)
    requires forall s :: s in Seals(w.segments) ==> NonEmpty(s)
    ensures Forked(w, t, n) <==> RowsToSeal(p.hash, w.rows, Seals(w.segments), t, n) == Err(ForkDetected)
    ensures Forked(w, t, n) ==> n >= 1 && HasUnsealedRows(w.rows, Seals(w.segments), t)
  {
    if Forked(w, t, n) {
      WorkerQueryIsExact(p.hash, w.rows, Seals(w.segments), t, n);
    }
  }

  // ----- the walk -----

  lemma OnlyCandidate(candidates: set<Row>) returns (r: Row)
    requires candidates != {} && |candidates| <= 1
    ensures candidates == {r}
  {
    SoleMember(candidates);
    r :| r in candidates;
  }

  lemma WalkOn(rows: set<Row>, t: Uuid, cursor: Option<string>, n: nat, r: Row)
    requires n > 0 && Candidates(rows, t, cursor) == {r}
    ensures NextChainRows(rows, t, cursor, n) == Prepend([r], NextChainRows(rows, t, r.rowHash, n - 1))
  {
    assert |{r}| == 1;
  }

  lemma LargerSet(a: set<Row>, b: set<Row>)
    requires a <= b
    ensures |a| <= |b|
  {
    assert b == a + (b - a);
  }

  /** More rows do not undo a fork. */
  lemma {:induction false} ForkWithMoreRows(rows: set<Row>, rows': set<Row>, t: Uuid, cursor: Option<string>, n: nat)
    requires HashedRows(rows, t) <= HashedRows(rows', t)
    requires NextChainRows(rows, t, cursor, n) == Err(ForkDetected)
    ensures NextChainRows(rows', t, cursor, n) == Err(ForkDetected)
    decreases n
  {
    var a, b := Candidates(rows, t, cursor), Candidates(rows', t, cursor);
    assert a <= b;
    LargerSet(a, b);
    if |b| <= 1 {
      var r := OnlyCandidate(a);
      assert b == {r} by {
        var x := OnlyCandidate(b);
      }
      hide NextChainRows, Candidates, HashedRows;
      WalkOn(rows, t, cursor, n, r);
      WalkOn(rows', t, cursor, n, r);
      ForkWithMoreRows(rows, rows', t, r.rowHash, n - 1);
    }
  }

  /** Nor does a longer walk. */
  lemma {:induction false} ForkFurther(rows: set<Row>, t: Uuid, cursor: Option<string>, n: nat, m: nat)
    requires NextChainRows(rows, t, cursor, n) == Err(ForkDetected) && n <= m
    ensures NextChainRows(rows, t, cursor, m) == Err(ForkDetected)
    decreases n
  {
    var a := Candidates(rows, t, cursor);
    if |a| <= 1 {
      var r := OnlyCandidate(a);
      WalkOn(rows, t, cursor, n, r);
      WalkOn(rows, t, cursor, m, r);
      ForkFurther(rows, t, r.rowHash, n - 1, m - 1);
    }
  }

  /** What a shorter walk returns lies in front of the fork. */
  lemma {:induction false} ForkBehind(rows: set<Row>, t: Uuid, cursor: Option<string>, n: nat, m: nat, q: seq<Row>)
    requires NextChainRows(rows, t, cursor, n) == Err(ForkDetected)
    requires NextChainRows(rows, t, cursor, m) == Ok(q) && q != []
    ensures NextChainRows(rows, t, q[|q| - 1].rowHash, n) == Err(ForkDetected)
    decreases n
  {
    var r := OnlyCandidate(Candidates(rows, t, cursor));
    WalkOn(rows, t, cursor, n, r);
    WalkOn(rows, t, cursor, m, r);
    hide NextChainRows, Candidates;
    var rest := NextChainRows(rows, t, r.rowHash, m - 1).value;
    assert q == [r] + rest;
    if rest == [] {
      ForkFurther(rows, t, r.rowHash, n - 1, n);
    } else {
      ForkBehind(rows, t, r.rowHash, n - 1, m - 1, rest);
      ForkFurther(rows, t, q[|q| - 1].rowHash, n - 1, n);
    }
  }

  /** A linked list of rows that ends in front of two candidates leads to a fork, there or before. */
  lemma {:induction false} ListLeadsToFork(rows: set<Row>, t: Uuid, cursor: Option<string>, q: seq<Row>)
    requires RowsLinkedFrom(cursor, q) && forall r :: r in q ==> r in HashedRows(rows, t)
    requires |Candidates(rows, t, RowToContinue(cursor, q, |q|))| > 1
    ensures NextChainRows(rows, t, cursor, |q| + 1) == Err(ForkDetected)
    decreases |q|
  {
    if q != [] && |Candidates(rows, t, cursor)| <= 1 {
      var first, rest := q[0], q[1..];
      assert first.prevHash == RowToContinue(cursor, q, 0);
      assert first in Candidates(rows, t, cursor);
      var r := OnlyCandidate(Candidates(rows, t, cursor));
      forall i | 0 <= i < |rest| ensures rest[i].prevHash == RowToContinue(first.rowHash, rest, i) {
        assert q[i + 1].prevHash == RowToContinue(cursor, q, i + 1);
      }
      ListLeadsToFork(rows, t, first.rowHash, rest);
      WalkOn(rows, t, cursor, |q| + 1, first);
    }
  }

  // ----- cleanups -----

  ghost predicate Unlisted(seals: seq<Seal>, t: Uuid, r: Row) {
    forall m :: m in Entries(seals, t) ==> m.id != r.id
  }

  /** The hash is where the next seal starts, or that of a row no segment lists. */
  ghost predicate IsAhead(w: World, t: Uuid, h: Option<string>)
    requires forall s :: s in Seals(w.segments) ==> NonEmpty(s)
  {
    || h == SealedHash(Seals(w.segments), t)
    || exists y :: y in w.ledger && y.rowHash == h && Unlisted(Seals(w.segments), t, y)
  }

  /** Such a row is recorded under one hash only, so a listed entry with it is that row's. */
  lemma SameHashSameId(p: Platform, w: World, t: Uuid, m: ManifestRow, y: Row)
    requires Safe(p, w) && NoCollisions(w.ledger)
    requires m in Entries(Seals(w.segments), t) && y in w.ledger && y.rowHash == Some(m.rowHash)
    ensures m.id == y.id
  {
    EntriesRecorded(Seals(w.segments), w.ledger, t);
    var x :| x in w.ledger && x.rowHash.Some? && x.entry.tenantId == t && m == ManifestOf(x);
    assert x.rowHash == y.rowHash;
    assert HashInput(x) == HashInput(y);
  }

  /** No segment lists a row that continues a hash ahead: the entry before it would have that hash. */
  lemma AheadIsUnlisted(p: Platform, w: World, t: Uuid, h: Option<string>, r: Row)
    requires Safe(p, w) && NoCollisions(w.ledger) && SegmentsHaveRows(w.segments)
    requires forall s :: s in Seals(w.segments) ==> NonEmpty(s)
    requires IsAhead(w, t, h) && r in Candidates(w.rows, t, h)
    ensures Unlisted(Seals(w.segments), t, r) && IsAhead(w, t, r.rowHash)
  {
    var e := Entries(Seals(w.segments), t);
    forall m | m in e ensures m.id != r.id {
      if m.id == r.id {
        EntriesRecorded(Seals(w.segments), w.ledger, t);
        var x :| x in w.ledger && x.rowHash.Some? && x.entry.tenantId == t && m == ManifestOf(x);
        SameIdSameRow(w.ledger, x, r);
        var pos :| 0 <= pos < |e| && e[pos] == m;
        ListedBehindItself(p, w, t, h, pos);
      }
    }
  }

  /** An entry does not continue a hash ahead. */
  lemma ListedBehindItself(p: Platform, w: World, t: Uuid, h: Option<string>, pos: nat)
    requires Safe(p, w) && NoCollisions(w.ledger)
    requires (forall s :: s in Seals(w.segments) ==> NonEmpty(s)) && IsAhead(w, t, h)
    requires pos < |Entries(Seals(w.segments), t)|
    ensures Entries(Seals(w.segments), t)[pos].prevHash != h
  {
    var e := Entries(Seals(w.segments), t);
    SealedHashEndsEntries(Seals(w.segments), t);
    assert ManifestLinked(e);
    assert e[pos].prevHash == HashToContinue(None, e, pos);
    if h == SealedHash(Seals(w.segments), t) {
      if pos > 0 {
        EntriesRecorded(Seals(w.segments), w.ledger, t);
        SealedOnce(w.ledger, t, e, pos - 1, |e| - 1);
      }
    } else {
      var y :| y in w.ledger && y.rowHash == h && Unlisted(Seals(w.segments), t, y);
      if pos > 0 && Some(e[pos - 1].rowHash) == h {
        SameHashSameId(p, w, t, e[pos - 1], y);
      }
    }
  }

  lemma CleanupKeepsUnlisted(p: Platform, w: World, step: Step, t: Uuid, r: Row)
    requires Safe(p, w) && step.Cleanup? && r in HashedRows(w.rows, t) && Unlisted(Seals(w.segments), t, r)
    ensures r in HashedRows(CleanupTx(w, step.name, step.now, step.monthStart).rows, t)
  {
    var w' := CleanupTx(w, step.name, step.now, step.monthStart);
    if r !in w'.rows {
      assert InPartition(w.partitions[step.name], r);
      var g :| 0 <= g < |w.segments| && CoversForCleanup(w, w.segments[g], r, step.now);
      ListedIsEntry(Seals(w.segments), g, r.id);
    }
  }

  lemma ListedIsEntry(seals: seq<Seal>, g: nat, id: Uuid)
    requires g < |seals| && Listed(seals[g], id)
    ensures exists m :: m in Entries(seals, seals[g].tenantId) && m.id == id
  {
    var k :| 0 <= k < |seals[g].rows| && seals[g].rows[k].id == id;
    var pos := EntryPosition(seals, g, k);
    assert Entries(seals, seals[g].tenantId)[pos] in Entries(seals, seals[g].tenantId);
  }

  /** In every safe state: whatever a cleanup drops, the walk of the next seal returns what it returned before. */
  lemma {:induction false} CleanupKeepsWalk(p: Platform, w: World, step: Step, t: Uuid, h: Option<string>, n: nat)
    requires Safe(p, w) && NoCollisions(w.ledger) && SegmentsHaveRows(w.segments) && step.Cleanup?
    requires (forall s :: s in Seals(w.segments) ==> NonEmpty(s)) && IsAhead(w, t, h)
    ensures var w' := CleanupTx(w, step.name, step.now, step.monthStart);
            NextChainRows(w'.rows, t, h, n) == NextChainRows(w.rows, t, h, n)
    decreases n
  {
    hide Safe, NoCollisions, Unlisted, IsAhead, CleanupTx, Candidates, SegmentsHaveRows;
    var w' := CleanupTx(w, step.name, step.now, step.monthStart);
    CleanupKeepsCandidates(p, w, step, t, h);
    var candidates := Candidates(w.rows, t, h);
    if n > 0 && candidates != {} && |candidates| <= 1 {
      var r := OnlyCandidate(candidates);
      AheadIsUnlisted(p, w, t, h, r);
      hide NextChainRows;
      WalkOn(w.rows, t, h, n, r);
      WalkOn(w'.rows, t, h, n, r);
      CleanupKeepsWalk(p, w, step, t, r.rowHash, n - 1);
    }
  }

  lemma CleanupKeepsCandidates(p: Platform, w: World, step: Step, t: Uuid, h: Option<string>)
    requires Safe(p, w) && NoCollisions(w.ledger) && SegmentsHaveRows(w.segments) && step.Cleanup?
    requires (forall s :: s in Seals(w.segments) ==> NonEmpty(s)) && IsAhead(w, t, h)
    ensures var w' := CleanupTx(w, step.name, step.now, step.monthStart);
            Candidates(w'.rows, t, h) == Candidates(w.rows, t, h)
  {
    var w' := CleanupTx(w, step.name, step.now, step.monthStart);
    assert w'.rows <= w.rows;
    hide Safe, NoCollisions, CleanupTx, IsAhead, Unlisted;
    forall r | r in Candidates(w.rows, t, h) ensures r in Candidates(w'.rows, t, h) {
      AheadIsUnlisted(p, w, t, h, r);
      CleanupKeepsUnlisted(p, w, step, t, r);
    }
  }

  // ----- over a run -----

  lemma TakenIsWalked(p: Platform, w: World, t: Uuid, m: nat, q: seq<Row>)
    requires SegmentsHaveRows(w.segments) && RowsToSeal(p.hash, w.rows, Seals(w.segments), t, m) == Ok(q)
    ensures NextChainRows(w.rows, t, SealedHash(Seals(w.segments), t), m) == Ok(q) && q != []
  {
  }

  lemma LastOfManifest(s: Seal, q: seq<Row>)
    requires AllHashed(q) && q != [] && s.rows == Manifest(q)
    ensures NonEmpty(s) && Some(LastRowHash(s)) == q[|q| - 1].rowHash
  {
  }

  lemma SealKeepsForked(p: Platform, w: World, step: Step, t: Uuid, n: nat)
    requires Safe(p, w) && SegmentsHaveRows(w.segments) && step.SealNext? && Admissible(w, step) && Forked(w, t, n)
    ensures Forked(SealTx(p, w, step.tenant, step.segmentId, step.now, step.maxRows, step.storage), t, n)
  {
    hide Safe, RowsToSeal, Manifest, NextChainRows, LatestSeal, SealedHash, AllHashed, Verifies;
    var seals := Seals(w.segments);
    var answer := RowsToSeal(p.hash, w.rows, seals, step.tenant, step.maxRows);
    if answer.Ok? && !step.storage.Unavailable? {
      var q := answer.value;
      var s := NewSeal(step.tenant, step.segmentId, step.now, q);
      SealTxAppends(p, w, step.tenant, step.segmentId, step.now, step.maxRows, step.storage);
      FreshAmongSeals(w, step.tenant, step.segmentId, step.now);
      hide Admissible, SealTx, Seals, SegmentsHaveRows;
      TakenIsWalked(p, w, step.tenant, step.maxRows, q);
      LastOfManifest(s, q);
      if t == step.tenant {
        SealedHashAfterSeal(seals, s);
        ForkBehind(w.rows, t, SealedHash(seals, t), n, step.maxRows, q);
      } else {
        OtherTenantsSeal(seals, s, t);
      }
    }
  }

  lemma NoRowsNoFork(rows: set<Row>, t: Uuid, h: Option<string>, n: nat)
    requires HashedRows(rows, t) == {}
    ensures NextChainRows(rows, t, h, n) == Ok([])
  {
    assert Candidates(rows, t, h) == {};
  }

  lemma BackfillKeepsForked(p: Platform, w: World, tenant: Uuid, t: Uuid, n: nat)
    requires UniqueKeys(w.rows) && Forked(w, t, n)
    ensures Forked(BackfillTx(p, w, tenant), t, n)
  {
    if t == tenant {
      if HashedRows(w.rows, t) == {} {
        NoRowsNoFork(w.rows, t, SealedHash(Seals(w.segments), t), n);
      }
    } else {
      BackfillFrame(p.hash, w.rows, tenant, t);
      ForkWithMoreRows(w.rows, BackfillTx(p, w, tenant).rows, t, SealedHash(Seals(w.segments), t), n);
    }
  }

  lemma StepKeepsForked(p: Platform, w: World, step: Step, t: Uuid, n: nat)
    requires Safe(p, w) && UniqueKeys(w.rows) && SegmentsHaveRows(w.segments) && Admissible(w, step)
    requires Forked(w, t, n) && NoCollisions(w.ledger)
    ensures Forked(Apply(p, w, step), t, n)
  {
    hide Safe, NoCollisions, NextChainRows, Admissible, SealTx, BackfillTx, CleanupTx, NewRow;
    var h := SealedHash(Seals(w.segments), t);
    match step
    case Insert(_, _, _) => ForkWithMoreRows(w.rows, Apply(p, w, step).rows, t, h, n);
    case Backfill(tenant) => BackfillKeepsForked(p, w, tenant, t, n);
    case SealNext(_, _, _, _, _) => SealKeepsForked(p, w, step, t, n);
    case Cleanup(_, _, _) =>
      CleanupKeepsWalk(p, w, step, t, h, n);
      OtherStepsKeepSeals(p, w, step);
    case _ =>
      OtherStepsKeepSeals(p, w, step);
      OtherStepsKeepRows(p, w, step);
  }

  /** Over every run: once a seal of `n` rows meets a fork it meets one for ever, and the query selects the tenant for ever. */
  lemma {:induction false} ForkedForGood(p: Platform, ws: seq<World>, steps: seq<Step>, i: nat, j: nat, t: Uuid, n: nat)
    requires Run(p, ws, steps) && i <= j < |ws| && NoCollisions(ws[j].ledger) && Forked(ws[i], t, n)
    ensures Forked(ws[j], t, n) && SegmentsHaveRows(ws[j].segments)
    ensures RowsToSeal(p.hash, ws[j].rows, Seals(ws[j].segments), t, n) == Err(ForkDetected)
    ensures HasUnsealedRows(ws[j].rows, Seals(ws[j].segments), t)
    decreases j
  {
    hide Initial, Safe, Forked, Apply, NoCollisions, RowsToSeal, HasUnsealedRows, Admissible, SegmentsHaveRows, UniqueKeys;
    RunsAreSafe(p, ws, steps, j);
    SafeIsWellFormed(p, ws[j]);
    if i < j {
      LedgerKeepsNoCollisions(p, ws, steps, j - 1, j);
      ForkedForGood(p, ws, steps, i, j - 1, t, n);
      RunsAreSafe(p, ws, steps, j - 1);
      SafeIsWellFormed(p, ws[j - 1]);
      assert Next(p, ws[j - 1], steps[j - 1], ws[j - 1 + 1]);
      StepKeepsForked(p, ws[j - 1], steps[j - 1], t, n);
    }
    SealsAreNonEmpty(ws[j].segments);
    ForkedIsRefused(p, ws[j], t, n);
  }

  lemma SealsAreNonEmpty(segments: seq<Segment>)
    requires SegmentsHaveRows(segments)
    ensures forall s :: s in Seals(segments) ==> NonEmpty(s)
  {
  }

  // ----- tenants behind forked ones -----

  ghost predicate Selected(w: World, limit: int, t: Uuid) {
    SegmentsHaveRows(w.segments) && t in SelectTenants(w.rows, Seals(w.segments), limit)
  }

  /** As many forked tenants as the limit, all with smaller ids. */
  ghost predicate Blocked(w: World, limit: int, t: Uuid, n: nat, forked: set<Uuid>) {
    && |forked| >= (if limit < 1 then 1 else limit)
    && forall u :: u in forked ==> u < t && Forked(w, u, n)
  }

  /** Over every run: a tenant behind that many forked ones is never selected again. */
  lemma StarvedForGood(p: Platform, ws: seq<World>, steps: seq<Step>, i: nat, j: nat, limit: int, t: Uuid, n: nat, forked: set<Uuid>)
    requires Run(p, ws, steps) && i <= j < |ws| && NoCollisions(ws[j].ledger) && Blocked(ws[i], limit, t, n, forked)
    ensures SegmentsHaveRows(ws[j].segments) && !Selected(ws[j], limit, t)
  {
    hide Run, NoCollisions, Forked, RowsToSeal, HasUnsealedRows, SelectTenants;
    RunsAreSafe(p, ws, steps, j);
    SafeIsWellFormed(p, ws[j]);
    forall u | u in forked ensures HasUnsealedRows(ws[j].rows, Seals(ws[j].segments), u) {
      ForkedForGood(p, ws, steps, i, j, u, n);
    }
    BlockedIsNotSelected(ws[j], limit, t, forked);
  }

  lemma BlockedIsNotSelected(w: World, limit: int, t: Uuid, forked: set<Uuid>)
    requires SegmentsHaveRows(w.segments) && |forked| >= (if limit < 1 then 1 else limit)
    requires forall u :: u in forked ==> u < t && HasUnsealedRows(w.rows, Seals(w.segments), u)
    ensures t !in SelectTenants(w.rows, Seals(w.segments), limit)
  {
    hide HasUnsealedRows;
    var unsealed := UnsealedTenants(w.rows, Seals(w.segments));
    LargerIdSet(forked, Below(unsealed, t));
    FirstTenantsIff(unsealed, if limit < 1 then 1 else limit, t);
  }

  lemma LargerIdSet(a: set<Uuid>, b: set<Uuid>)
    requires a <= b
    ensures |a| <= |b|
  {
    assert b == a + (b - a);
  }

  /** From `i` on the tenant is sealed by the worker only, in passes that have selected it. */
  ghost predicate SealedByWorker(ws: seq<World>, steps: seq<Step>, i: nat, limit: int, t: Uuid)
    requires |ws| == |steps| + 1
  {
    forall k :: i <= k < |steps| && steps[k].SealNext? && steps[k].tenant == t ==> exists m :: i <= m <= k && Selected(ws[m], limit, t)
  }

  /** So nothing of it is ever sealed, however many rows it gets. */
  lemma {:induction false} StarvedIsNeverSealed(p: Platform, ws: seq<World>, steps: seq<Step>, i: nat, j: nat, limit: int, t: Uuid,
                                                n: nat, forked: set<Uuid>)
    requires Run(p, ws, steps) && i <= j < |ws| && NoCollisions(ws[j].ledger) && Blocked(ws[i], limit, t, n, forked)
    requires SealedByWorker(ws, steps, i, limit, t)
    ensures Entries(Seals(ws[j].segments), t) == Entries(Seals(ws[i].segments), t)
    decreases j
  {
    hide Initial, Safe, Admissible, NoCollisions, Blocked, Selected, Apply, Entries, UniqueKeys, SegmentsHaveRows;
    if i < j {
      LedgerKeepsNoCollisions(p, ws, steps, j - 1, j);
      StarvedIsNeverSealed(p, ws, steps, i, j - 1, limit, t, n, forked);
      RunsAreSafe(p, ws, steps, j - 1);
      SafeIsWellFormed(p, ws[j - 1]);
      var step := steps[j - 1];
      assert Next(p, ws[j - 1], step, ws[j - 1 + 1]);
      if step.SealNext? && step.tenant == t {
        var m :| i <= m <= j - 1 && Selected(ws[m], limit, t);
        LedgerKeepsNoCollisions(p, ws, steps, m, j);
        StarvedForGood(p, ws, steps, i, m, limit, t, n, forked);
      } else {
        StepSealsOthers(p, ws[j - 1], step, t);
      }
    }
  }

  lemma StepSealsOthers(p: Platform, w: World, step: Step, t: Uuid)
    requires UniqueKeys(w.rows) && SegmentsHaveRows(w.segments) && !(step.SealNext? && step.tenant == t)
    ensures Entries(Seals(Apply(p, w, step).segments), t) == Entries(Seals(w.segments), t)
  {
    hide RowsToSeal, Manifest, UniqueKeys;
    if step.SealNext? {
      var answer := RowsToSeal(p.hash, w.rows, Seals(w.segments), step.tenant, step.maxRows);
      if answer.Ok? && !step.storage.Unavailable? {
        SealExtendsEntries(w.segments, Apply(p, w, step).segments, NewSeal(step.tenant, step.segmentId, step.now, answer.value), t);
        assert Entries(Seals(w.segments), t) + [] == Entries(Seals(w.segments), t);
      }
    } else {
      OtherStepsKeepSeals(p, w, step);
    }
  }

  // ----- where forks come from -----

  /** The rows from `k` on, as a seal walks them. */
  lemma SuffixIsLinked(hash: RowHasher, chain: seq<Row>, k: nat)
    requires Intact(hash, chain) && k <= |chain|
    ensures RowsLinkedFrom(HashBefore(chain, k), chain[k..])
    ensures RowToContinue(HashBefore(chain, k), chain[k..], |chain| - k) == HashBefore(chain, |chain|)
  {
    var q := chain[k..];
    forall i | 0 <= i < |q| ensures q[i].prevHash == RowToContinue(HashBefore(chain, k), q, i) {
      assert Linked(chain, k + i);
    }
  }

  /** Two rows that continue the end of a chain are a fork ahead of every position of it. */
  lemma EndForks(hash: RowHasher, rows: set<Row>, t: Uuid, chain: seq<Row>, k: nat, a: Row, b: Row)
    requires Intact(hash, chain) && k <= |chain| && forall i :: k <= i < |chain| ==> chain[i] in HashedRows(rows, t)
    requires a != b && a in HashedRows(rows, t) && b in HashedRows(rows, t)
    requires a.prevHash == b.prevHash == HashBefore(chain, |chain|)
    ensures NextChainRows(rows, t, HashBefore(chain, k), |chain| - k + 1) == Err(ForkDetected)
  {
    SuffixIsLinked(hash, chain, k);
    hide Intact, HashBefore, RowsLinkedFrom, NextChainRows, RowToContinue;
    var end := RowToContinue(HashBefore(chain, k), chain[k..], |chain| - k);
    assert {a, b} <= Candidates(rows, t, end);
    LargerSet({a, b}, Candidates(rows, t, end));
    ListLeadsToFork(rows, t, HashBefore(chain, k), chain[k..]);
  }

  lemma TwoContinuationsFork(p: Platform, w: World, w': World, t: Uuid, a: Row, b: Row)
    requires Safe(p, w) && ChainSound(p, w, t) && w'.segments == w.segments && w.rows <= w'.rows
    requires a != b && a in HashedRows(w'.rows, t) && b in HashedRows(w'.rows, t)
    requires var chain := LedgerOf(w.ledger, t); a.prevHash == b.prevHash == HashBefore(chain, |chain|)
    ensures exists n: nat :: Forked(w', t, n)
  {
    var chain, k := LedgerOf(w.ledger, t), |Entries(Seals(w.segments), t)|;
    SealedHashOfChain(p, w, t);
    hide Safe, LedgerOf, Entries, SealedHash, NextChainRows, HashBefore, Manifest;
    assert forall i :: k <= i < |chain| ==> chain[i] in HashedRows(w'.rows, t);
    EndForks(p.hash, w'.rows, t, chain, k, a, b);
    assert Forked(w', t, |chain| - k + 1);
  }

  /** While every hashed row links to the one hashed before it there is no fork, in whatever order their keys are. */
  lemma LinkedRowsDoNotFork(p: Platform, w: World, w': World, t: Uuid, chain: seq<Row>, n: nat)
    requires Safe(p, w) && ChainSound(p, w, t) && w'.segments == w.segments
    requires LedgerOf(w.ledger, t) <= chain && Intact(p.hash, chain) && AllHashed(chain) && DistinctHashes(chain)
    requires Covers(w'.rows, t, chain, |Entries(Seals(w.segments), t)|)
    ensures !Forked(w', t, n)
  {
    SealedHashOfChain(p, w, t);
    var k := |Entries(Seals(w.segments), t)|;
    assert HashBefore(chain, k) == HashBefore(LedgerOf(w.ledger, t), k);
    hide Safe, ChainSound, Intact, AllHashed, DistinctHashes, Covers, NextChainRows;
    WalkFollowsChain(p.hash, w'.rows, t, chain, k, n);
  }

  lemma AppendKeepsDistinct(p: Platform, w: World, t: Uuid, r: Row)
    requires Safe(p, w) && ChainSound(p, w, t) && r.id !in w.identities && NoCollisions(w.ledger + [r])
    ensures DistinctHashes(LedgerOf(w.ledger, t) + [r])
  {
    hide SealsAccounted, ChainSound, LedgerOf, StrictlySorted;
    assert forall x :: x in w.ledger ==> x in w.ledger + [r];
    LedgerIsSorted(p, w, t);
    LedgerHashesDistinct(w.ledger, t);
    LedgerOfMembers(w.ledger, t);
    NewHashIsDistinct(w.ledger, LedgerOf(w.ledger, t), r);
  }

  lemma NewHashIsDistinct(ledger: seq<Row>, chain: seq<Row>, r: Row)
    requires DistinctHashes(chain) && NoCollisions(ledger + [r]) && forall x :: x in chain ==> x in ledger
    requires forall x :: x in ledger ==> x.id != r.id
    ensures DistinctHashes(chain + [r])
  {
    forall i | 0 <= i < |chain| ensures chain[i].rowHash != r.rowHash {
      assert chain[i] in chain && chain[i] in ledger + [r] && r in ledger + [r];
      assert chain[i].rowHash == r.rowHash ==> HashInput(chain[i]) == HashInput(r);
    }
  }

  lemma CoversAppend(rows: set<Row>, t: Uuid, chain: seq<Row>, k: nat, r: Row)
    requires Covers(rows, t, chain, k) && r.entry.tenantId == t && r.rowHash.Some?
    ensures Covers(rows + {r}, t, chain + [r], k)
  {
  }

  /** From an orderly state one insert, whatever its time, makes no fork. */
  lemma OneInsertDoesNotFork(p: Platform, w: World, e: Entry, id: Uuid, now: int, n: nat)
    requires Safe(p, w) && UniqueKeys(w.rows) && ChainSound(p, w, e.tenantId) && id !in w.identities
    requires NoCollisions(InsertTx(p, w, e, id, now).ledger)
    ensures !Forked(InsertTx(p, w, e, id, now), e.tenantId, n)
  {
    hide Safe, LedgerOf, Entries, NoCollisions, Chain, Intact, StrictlySorted, DistinctHashes, UniqueKeys, Manifest, HashedRows, Forked,
         PreviousHash, Covers, NewRow;
    var t := e.tenantId;
    var chain, r := LedgerOf(w.ledger, t), NewRow(p.hash, w.rows, e, id, now);
    NewRowFacts(p.hash, w.rows, e, id, now);
    NewRowHasId(p.hash, w.rows, e, id, now);
    InsertLinksToLedger(p, w, t);
    IntactAppend(p.hash, chain, r);
    AppendKeepsDistinct(p, w, t, r);
    CoversAppend(w.rows, t, chain, |Entries(Seals(w.segments), t)|, r);
    LinkedRowsDoNotFork(p, w, InsertTx(p, w, e, id, now), t, chain + [r], n);
  }

  lemma NewRowHasId(hash: RowHasher, rows: set<Row>, e: Entry, id: Uuid, now: int)
    requires UniqueKeys(rows)
    ensures NewRow(hash, rows, e, id, now).id == id
  {
  }

  lemma InTimeDoesNotFork(p: Platform, w: World, e: Entry, id: Uuid, now: int, f: Entry, id': Uuid, now': int, n: nat)
    requires Safe(p, w) && UniqueKeys(w.rows) && ChainSound(p, w, e.tenantId) && f.tenantId == e.tenantId
    requires AfterChain(w.rows, NewRow(p.hash, w.rows, e, id, now))
    requires id !in w.identities && id' !in w.identities && id != id' && UniqueKeys(InsertTx(p, w, e, id, now).rows)
    requires NoCollisions(InsertTx(p, InsertTx(p, w, e, id, now), f, id', now').ledger)
    ensures !Forked(InsertTx(p, InsertTx(p, w, e, id, now), f, id', now'), e.tenantId, n)
  {
    hide Safe, UniqueKeys, ChainSound, AfterChain, NewRow, NoCollisions, Forked;
    InsertKeepsChainSound(p, w, e, id, now, e.tenantId);
    InsertKeepsSafe(p, w, e, id, now);
    OneInsertDoesNotFork(p, InsertTx(p, w, e, id, now), f, id', now', n);
  }

  lemma NewerRow(rows: set<Row>, r: Row) returns (x: Row)
    requires UniqueKeys(rows + {r}) && r !in rows && !AfterChain(rows, r)
    ensures x in HashedRows(rows, r.entry.tenantId) && Before(r, x)
  {
    x :| x in HashedRows(rows, r.entry.tenantId) && !Before(x, r);
    assert x in rows + {r} && r in rows + {r};
  }

  lemma HashedWithRow(rows: set<Row>, r: Row)
    requires r.rowHash.Some?
    ensures HashedRows(rows + {r}, r.entry.tenantId) == HashedRows(rows, r.entry.tenantId) + {r}
  {
  }

  /** A row below the newest one does not become the newest. */
  lemma LateKeepsPrevious(rows: set<Row>, r: Row)
    requires UniqueKeys(rows) && UniqueKeys(rows + {r}) && r !in rows && r.rowHash.Some? && !AfterChain(rows, r)
    ensures PreviousHash(rows + {r}, r.entry.tenantId) == PreviousHash(rows, r.entry.tenantId)
  {
    hide UniqueKeys, AfterChain, Chain, HashedRows, Before, StrictlySorted;
    var t := r.entry.tenantId;
    var x := NewerRow(rows, r);
    HashedWithRow(rows, r);
    ChainHoldsHashedRows(rows, t);
    ChainHoldsHashedRows(rows + {r}, t);
    var c, c' := Chain(rows, t), Chain(rows + {r}, t);
    assert x in c && x in c';
    LastIsAbove(c', r, x);
    assert c[|c| - 1] in c && c'[|c'| - 1] in c';
    SameLast(c, c');
  }

  lemma LastIsAbove(c: seq<Row>, r: Row, x: Row)
    requires StrictlySorted(c) && x in c && Before(r, x)
    ensures c != [] && c[|c| - 1] != r
  {
    var i :| 0 <= i < |c| && c[i] == x;
  }

  lemma LateForks(p: Platform, w: World, e: Entry, id: Uuid, now: int, f: Entry, id': Uuid, now': int)
    requires Safe(p, w) && UniqueKeys(w.rows) && ChainSound(p, w, e.tenantId) && f.tenantId == e.tenantId
    requires !AfterChain(w.rows, NewRow(p.hash, w.rows, e, id, now))
    requires id !in w.identities && id' !in w.identities && id != id' && UniqueKeys(InsertTx(p, w, e, id, now).rows)
    ensures exists n: nat :: Forked(InsertTx(p, InsertTx(p, w, e, id, now), f, id', now'), e.tenantId, n)
  {
    var w1 := InsertTx(p, w, e, id, now);
    var w2 := InsertTx(p, w1, f, id', now');
    var a, b := NewRow(p.hash, w.rows, e, id, now), NewRow(p.hash, w1.rows, f, id', now');
    assert a !in w.rows;
    hide Safe, UniqueKeys, ChainSound, AfterChain, PreviousHash, HashBefore, Forked, LedgerOf;
    LateKeepsPrevious(w.rows, a);
    InsertLinksToLedger(p, w, e.tenantId);
    TwoContinuationsFork(p, w, w2, e.tenantId, a, b);
  }

  /**
   Where the next rows of a tenant whose chain is intact lead: after two inserts its seals meet a fork if and only if
   the first of them was not the newest of its tenant.
   */
  lemma SecondInsertForksIffFirstWasLate(p: Platform, w: World, e: Entry, id: Uuid, now: int, f: Entry, id': Uuid, now': int)
    requires Safe(p, w) && UniqueKeys(w.rows) && ChainSound(p, w, e.tenantId) && f.tenantId == e.tenantId
    requires id !in w.identities && id' !in w.identities && id != id'
    ensures UniqueKeys(InsertTx(p, w, e, id, now).rows)
    ensures var w' := InsertTx(p, InsertTx(p, w, e, id, now), f, id', now');
            NoCollisions(w'.ledger) ==>
              ((exists n: nat :: Forked(w', e.tenantId, n)) <==> !AfterChain(w.rows, NewRow(p.hash, w.rows, e, id, now)))
  {
    var t := e.tenantId;
    var w1 := InsertTx(p, w, e, id, now);
    InsertKeepsSafe(p, w, e, id, now);
    SafeIsWellFormed(p, w1);
    var w2 := InsertTx(p, w1, f, id', now');
    InsertKeepsSafe(p, w1, f, id', now');
    var a, b := NewRow(p.hash, w.rows, e, id, now), NewRow(p.hash, w1.rows, f, id', now');
    if NoCollisions(w2.ledger) {
      hide Safe, ChainSound, NoCollisions, UniqueKeys, Forked, AfterChain, NewRow, Chain;
      if AfterChain(w.rows, a) {
        forall n: nat ensures !Forked(w2, t, n) {
          InTimeDoesNotFork(p, w, e, id, now, f, id', now', n);
        }
      } else {
        LateForks(p, w, e, id, now, f, id', now');
      }
    }
  }

  lemma InsertKeepsSafe(p: Platform, w: World, e: Entry, id: Uuid, now: int)
    requires Safe(p, w) && UniqueKeys(w.rows) && id !in w.identities
    ensures Safe(p, InsertTx(p, w, e, id, now))
  {
    SafeIsWellFormed(p, w);
    ApplyKeepsSafe(p, w, Insert(e, id, now));
  }

  // ----- such a run -----

  function LinkedRow(p: Platform, e: Entry, id: Uuid, now: int, prev: Option<string>): (r: Row) {
    Row(id, now, e, prev, Some(p.hash(e, id, now, prev)))
  }

  /** The rows of one tenant with its second insert late, and one of another tenant. */
  function InsertedRows(p: Platform, e: Entry, f: Entry, k: nat): (q: seq<Row>)
    ensures |q| == if k < 4 then k else 4
  {
    var first := LinkedRow(p, e, 5, 0, None);
    if k == 0 then []
    else if k == 1 then [first]
    else if k == 2 then [first, LinkedRow(p, e, 3, 0, first.rowHash)]
    else if k == 3 then [first, LinkedRow(p, e, 3, 0, first.rowHash), LinkedRow(p, e, 7, 1, first.rowHash)]
    else [first, LinkedRow(p, e, 3, 0, first.rowHash), LinkedRow(p, e, 7, 1, first.rowHash), LinkedRow(p, f, 9, 2, None)]
  }

  function InsertedIds(k: nat): (s: set<Uuid>) {
    if k == 0 then {} else if k == 1 then {5} else if k == 2 then {5, 3} else if k == 3 then {5, 3, 7} else {5, 3, 7, 9}
  }

  function StateOf(p: Platform, e: Entry, f: Entry, k: nat): (w: World) {
    World(SeqToSet(InsertedRows(p, e, f, k)), InsertedIds(k), [], {}, map[], map[], map[], map[], InsertedRows(p, e, f, k))
  }

  function InsertOf(e: Entry, f: Entry, k: nat): (s: Step) {
    if k == 0 then Insert(e, 5, 0) else if k == 1 then Insert(e, 3, 0) else if k == 2 then Insert(e, 7, 1) else Insert(f, 9, 2)
  }

  lemma PreviousOfSorted(rows: set<Row>, t: Uuid, q: seq<Row>)
    requires UniqueKeys(rows) && StrictlySorted(q) && forall r :: r in q <==> r in HashedRows(rows, t)
    ensures PreviousHash(rows, t) == HashBefore(q, |q|)
  {
    SortByKeyIs(HashedRows(rows, t), q);
  }

  lemma EachRowIsNew(p: Platform, e: Entry, f: Entry, k: nat)
    requires e.tenantId != f.tenantId && k < 4 && UniqueKeys(StateOf(p, e, f, k).rows)
    ensures var step := InsertOf(e, f, k);
            NewRow(p.hash, StateOf(p, e, f, k).rows, step.entry, step.id, step.now) == InsertedRows(p, e, f, k + 1)[k]
  {
    hide PreviousHash, UniqueKeys;
    var q, rows := InsertedRows(p, e, f, k), StateOf(p, e, f, k).rows;
    if k == 0 {
      PreviousOfSorted(rows, e.tenantId, []);
    } else if k == 1 {
      PreviousOfSorted(rows, e.tenantId, [q[0]]);
    } else if k == 2 {
      PreviousOfSorted(rows, e.tenantId, [q[1], q[0]]);
    } else {
      PreviousOfSorted(rows, f.tenantId, []);
    }
  }

  lemma OneMoreRow(p: Platform, e: Entry, f: Entry, k: nat)
    requires k < 4
    ensures var q := InsertedRows(p, e, f, k + 1);
            q == InsertedRows(p, e, f, k) + [q[k]] && SeqToSet(q) == SeqToSet(InsertedRows(p, e, f, k)) + {q[k]}
            && InsertedIds(k + 1) == InsertedIds(k) + {InsertOf(e, f, k).id}
  {
  }

  lemma EachInsertFollows(p: Platform, e: Entry, f: Entry, k: nat)
    requires e.tenantId != f.tenantId && k < 4
    ensures Next(p, StateOf(p, e, f, k), InsertOf(e, f, k), StateOf(p, e, f, k + 1))
  {
    hide NewRow, UniqueKeys, InsertedRows, SeqToSet;
    OneMoreRow(p, e, f, k);
    if UniqueKeys(StateOf(p, e, f, k).rows) {
      EachRowIsNew(p, e, f, k);
    }
  }

  lemma LateRowForks(p: Platform, e: Entry, f: Entry, n: nat)
    requires n >= 2
    ensures Forked(StateOf(p, e, f, 4), e.tenantId, n)
  {
    var q, w, t := InsertedRows(p, e, f, 4), StateOf(p, e, f, 4), e.tenantId;
    assert Seals(w.segments) == [];
    var end := RowToContinue(None, [q[0]], 1);
    assert {q[1], q[2]} <= Candidates(w.rows, t, end);
    LargerSet({q[1], q[2]}, Candidates(w.rows, t, end));
    hide NextChainRows, Candidates;
    ListLeadsToFork(w.rows, t, None, [q[0]]);
    ForkFurther(w.rows, t, None, 2, n);
  }

  /**
   Starvation happens on every platform: three inserts of one tenant, the second below the first, and a worker that
   selects one tenant at a time never gets to the next one, which has a row to seal.
   */
  lemma StarvationIsReachable(p: Platform, e: Entry, f: Entry, n: nat) returns (ws: seq<World>, steps: seq<Step>)
    requires e.tenantId < f.tenantId && n >= 2
    ensures Run(p, ws, steps) && |steps| == 4 && steps[0] == Insert(e, 5, 0) && steps[1] == Insert(e, 3, 0)
    ensures Blocked(ws[4], 1, f.tenantId, n, {e.tenantId})
    ensures SegmentsHaveRows(ws[4].segments) && HasUnsealedRows(ws[4].rows, Seals(ws[4].segments), f.tenantId)
  {
    hide Next, Forked;
    ws := seq(5, k requires 0 <= k < 5 => StateOf(p, e, f, k));
    steps := seq(4, k requires 0 <= k < 4 => InsertOf(e, f, k));
    forall k | 0 <= k < |steps| ensures Next(p, ws[k], steps[k], ws[k + 1]) {
      EachInsertFollows(p, e, f, k);
    }
    LateRowForks(p, e, f, n);
    assert InsertedRows(p, e, f, 4)[3] in ws[4].rows;
    assert Seals(ws[4].segments) == [];
  }
}
