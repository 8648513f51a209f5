/**
 What the retention assumption of `AuditChains` is for. An insert looks up its predecessor among the rows that are
 left, a seal continues the last segment; once a cleanup has dropped a tenant's newest hashed row the two never meet
 again: the tenant is stranded, whatever happens later, and such a state is reachable.
 */
module StrandedTenants {
  import opened Options
  import opened AuditRows
  import opened AuditTable
  import opened AuditSealing
  import opened AuditWorld
  import opened AuditSafety
  import opened AuditChains

  /** An insert links to the end of the tenant's chain if and only if the chain's newest row is still in the table. */
  lemma InsertLinksIffNewestIsKept(p: Platform, w: World, t: Uuid)
    requires Safe(p, w) && NoCollisions(w.ledger) && StrictlySorted(LedgerOf(w.ledger, t))
    ensures UniqueKeys(w.rows)
    ensures var chain := LedgerOf(w.ledger, t);
            PreviousHash(w.rows, t) == HashBefore(chain, |chain|) <==> NewestIsKept(chain, w.rows)
  {
    SafeIsWellFormed(p, w);
    LedgerHashesDistinct(w.ledger, t);
    LedgerOfMembers(w.ledger, t);
    ChainHoldsHashedRows(w.rows, t);
    LinksIffLast(LedgerOf(w.ledger, t), Chain(w.rows, t));
  }

  lemma LinksIffLast(chain: seq<Row>, c: seq<Row>)
    requires StrictlySorted(chain) && AllHashed(chain) && DistinctHashes(chain)
    requires StrictlySorted(c) && AllHashed(c) && forall r :: r in c ==> r in chain
    ensures HashBefore(c, |c|) == HashBefore(chain, |chain|) <==> chain == [] || chain[|chain| - 1] in c
  {
    if c == [] {
    } else {
      assert c[|c| - 1] in c && c[|c| - 1] in chain;
      var j :| 0 <= j < |chain| && chain[j] == c[|c| - 1];
      if chain[|chain| - 1] in c {
        SameLast(chain, c);
      }
    }
  }

  // ----- stranded tenants -----

  /** The tenant has segments, and none of its hashed rows carries or continues the hash that ends the last one. */
  ghost predicate Stranded(w: World, t: Uuid) {
    && (forall s :: s in Seals(w.segments) ==> NonEmpty(s))
    && var h := SealedHash(Seals(w.segments), t);
    && h.Some? && NoneTouches(HashedRows(w.rows, t), h)
  }

  predicate NoneTouches(rows: set<Row>, h: Option<string>) {
    forall r :: r in rows ==> r.rowHash != h && r.prevHash != h
  }

  /** No seal finds a row of a stranded tenant, and the worker's query does not select it. */
  lemma StrandedIsNotSealed(p: Platform, w: World, t: Uuid, n: nat)
    requires Stranded(w, t) && n >= 1
    ensures RowsToSeal(p.hash, w.rows, Seals(w.segments), t, n) == Err(NoUnsealedRows)
    ensures !HasUnsealedRows(w.rows, Seals(w.segments), t)
  {
    assert Candidates(w.rows, t, SealedHash(Seals(w.segments), t)) == {};
    WorkerQueryIsExact(p.hash, w.rows, Seals(w.segments), t, n);
  }

  lemma SealedHashOfChain(p: Platform, w: World, t: Uuid)
    requires Safe(p, w) && ChainSound(p, w, t)
    ensures var chain, k := LedgerOf(w.ledger, t), |Entries(Seals(w.segments), t)|;
            k <= |chain| && (forall s :: s in Seals(w.segments) ==> NonEmpty(s)) && SealedHash(Seals(w.segments), t) == HashBefore(chain, k)
  {
    var seals, chain := Seals(w.segments), LedgerOf(w.ledger, t);
    var entries := Entries(seals, t);
    var k := |entries|;
    SealedHashEndsEntries(seals, t);
    assert k > 0 ==> entries[k - 1] == Manifest(chain)[k - 1];
  }

  /** Among rows of an intact chain, with all from `k` on, none touches the hash before `k` exactly when the newest is missing. */
  lemma StrandedIffNewestDropped(hash: RowHasher, chain: seq<Row>, rows: set<Row>, t: Uuid, k: nat)
    requires Intact(hash, chain) && AllHashed(chain) && DistinctHashes(chain) && k <= |chain| && Covers(rows, t, chain, k)
    requires forall r :: r in chain ==> r.entry.tenantId == t
    ensures HashBefore(chain, k).Some? && NoneTouches(HashedRows(rows, t), HashBefore(chain, k)) <==> !NewestIsKept(chain, rows)
  {
    var h := HashBefore(chain, k);
    if h.Some? {
      if k < |chain| {
        assert Linked(chain, k) && chain[k] in HashedRows(rows, t);
        assert chain[|chain| - 1] in HashedRows(rows, t);
      } else {
        assert chain[k - 1] in chain && h == chain[k - 1].rowHash;
        forall r | r in HashedRows(rows, t) && chain[k - 1] !in rows ensures r.rowHash != h && r.prevHash != h {
          var i :| 0 <= i < |chain| && chain[i] == r;
          assert Linked(chain, i) && i != k - 1;
        }
      }
    } else if chain != [] {
      assert chain[|chain| - 1] in HashedRows(rows, t);
    }
  }

  /** Among the rows that are left, stranded and in order are decided by the newest one. */
  lemma StrandedIffNewestIsLost(p: Platform, w: World, step: Step, t: Uuid)
    requires Safe(p, w) && ChainSound(p, w, t) && NoCollisions(w.ledger) && step.Cleanup?
    ensures var w' := CleanupTx(w, step.name, step.now, step.monthStart);
            && (Stranded(w', t) <==> !NewestIsKept(LedgerOf(w.ledger, t), w'.rows))
            && (ChainSound(p, w', t) <==> NewestIsKept(LedgerOf(w.ledger, t), w'.rows))
  {
    var w' := CleanupTx(w, step.name, step.now, step.monthStart);
    var chain, k := LedgerOf(w.ledger, t), |Entries(Seals(w.segments), t)|;
    CleanupKeepsUnsealedRows(p, w, step, t);
    SealedHashOfChain(p, w, t);
    LedgerHashesDistinct(w.ledger, t);
    LedgerOfMembers(w.ledger, t);
    assert w'.segments == w.segments && w'.ledger == w.ledger;
    assert forall r :: r in HashedRows(w'.rows, t) ==> r in chain;
    assert Intact(p.hash, chain) && AllHashed(chain);
    if NewestIsKept(chain, w'.rows) {
      CleanupKeepsChainSound(p, w, step, t);
    }
    hide CleanupTx, Safe, NoCollisions, ChainFits, LedgerOf, Entries, Seals, SealedHash, HashedRows, DistinctHashes, Intact, Covers;
    StrandedIffNewestDropped(p.hash, chain, w'.rows, t, k);
  }

  /** The cleanup goes through, and the tenant's newest hashed row lies in its partition: what a caller can look up before. */
  ghost predicate DropsNewest(w: World, step: Step, t: Uuid) {
    && step.Cleanup? && step.name in w.partitions && UniqueKeys(w.rows)
    && var part, c := w.partitions[step.name], Chain(w.rows, t);
    && part.hi <= step.monthStart && !ContainsIneligible(w, part, step.now)
    && c != [] && InPartition(part, c[|c| - 1])
  }

  /**
   What a cleanup does to a tenant whose chain is intact and sealed in order: it strands the tenant if and only if it
   may drop its partition and the tenant's newest hashed row lies in it, whatever other rows of the tenant it leaves;
   otherwise everything stays in order.
   */
  lemma CleanupStrandsIffNewestDropped(p: Platform, w: World, step: Step, t: Uuid)
    requires Safe(p, w) && ChainSound(p, w, t) && NoCollisions(w.ledger) && step.Cleanup?
    ensures var w' := CleanupTx(w, step.name, step.now, step.monthStart);
            && (Stranded(w', t) <==> DropsNewest(w, step, t))
            && (ChainSound(p, w', t) <==> !DropsNewest(w, step, t))
  {
    hide Safe, ChainSound, Stranded, NoCollisions, ContainsIneligible, LedgerOf, Chain, UniqueKeys;
    SafeIsWellFormed(p, w);
    StrandedIffNewestIsLost(p, w, step, t);
    NewestOfTable(p, w, t);
  }

  /** In an orderly state the newest row of the table is that of the ledger's chain. */
  lemma NewestOfTable(p: Platform, w: World, t: Uuid)
    requires UniqueKeys(w.rows) && ChainSound(p, w, t)
    ensures var c, chain := Chain(w.rows, t), LedgerOf(w.ledger, t);
            && (c == [] <==> chain == [])
            && (c != [] ==> c[|c| - 1] == chain[|chain| - 1] && c[|c| - 1] in w.rows)
  {
    var c, chain := Chain(w.rows, t), LedgerOf(w.ledger, t);
    ChainHoldsHashedRows(w.rows, t);
    assert c != [] ==> c[|c| - 1] in c;
    hide Chain, Intact, LedgerOf, HashedRows;
    if c != [] {
      SameLast(chain, c);
    }
  }

  // ----- over a run -----

  /** The hash that ends the tenant's last segment is that of a row in the ledger. */
  lemma SealedHashIsRecorded(p: Platform, w: World, t: Uuid)
    requires Safe(p, w) && SegmentsHaveRows(w.segments)
    ensures var h := SealedHash(Seals(w.segments), t);
            h.Some? ==> exists x :: x in w.ledger && x.rowHash == h
  {
    var latest := LatestSeal(Seals(w.segments), t);
    if latest.Some? {
      var m := latest.value.rows[|latest.value.rows| - 1];
      assert m in latest.value.rows && Recorded(w.ledger, t, m);
      var x :| x in w.ledger && x.rowHash.Some? && x.entry.tenantId == t && m == ManifestOf(x);
      assert x.rowHash == Some(LastRowHash(latest.value));
    }
  }

  /** A new row neither has the sealed hash, its id being new, nor continues it, as no row that is left has it. */
  lemma InsertKeepsStranded(p: Platform, w: World, e: Entry, id: Uuid, now: int, t: Uuid)
    requires Safe(p, w) && UniqueKeys(w.rows) && SegmentsHaveRows(w.segments) && Stranded(w, t) && id !in w.identities
    requires NoCollisions(InsertTx(p, w, e, id, now).ledger)
    ensures Stranded(InsertTx(p, w, e, id, now), t)
  {
    var r, w' := NewRow(p.hash, w.rows, e, id, now), InsertTx(p, w, e, id, now);
    if e.tenantId == t {
      SealedHashIsRecorded(p, w, t);
      var x :| x in w.ledger && x.rowHash == SealedHash(Seals(w.segments), t);
      assert x in w'.ledger && r in w'.ledger;
      assert r.rowHash == x.rowHash ==> HashInput(r) == HashInput(x);
      PreviousIsLeft(w.rows, t);
      assert HashedRows(w'.rows, t) == HashedRows(w.rows, t) + {r};
    } else {
      OtherTenantsRow(w.rows, r, t);
    }
  }

  lemma PreviousIsLeft(rows: set<Row>, t: Uuid)
    requires UniqueKeys(rows)
    ensures var h := PreviousHash(rows, t); h == None || exists x :: x in HashedRows(rows, t) && x.rowHash == h
  {
    ChainHoldsHashedRows(rows, t);
    var c := Chain(rows, t);
    assert c != [] ==> c[|c| - 1] in c;
  }

  lemma BackfillKeepsStranded(p: Platform, w: World, tenant: Uuid, t: Uuid)
    requires UniqueKeys(w.rows) && Stranded(w, t)
    ensures Stranded(BackfillTx(p, w, tenant), t)
  {
    if t != tenant {
      BackfillFrame(p.hash, w.rows, tenant, t);
    }
  }

  lemma SealKeepsStranded(p: Platform, w: World, step: Step, t: Uuid)
    requires SegmentsHaveRows(w.segments) && Stranded(w, t) && step.SealNext?
    ensures Stranded(SealTx(p, w, step.tenant, step.segmentId, step.now, step.maxRows, step.storage), t)
  {
    var w' := SealTx(p, w, step.tenant, step.segmentId, step.now, step.maxRows, step.storage);
    var taken := RowsToSeal(p.hash, w.rows, Seals(w.segments), step.tenant, step.maxRows);
    if taken.Ok? && !step.storage.Unavailable? {
      if t == step.tenant {
        StrandedIsNotSealed(p, w, t, step.maxRows);
      } else {
        SealTxAppends(p, w, step.tenant, step.segmentId, step.now, step.maxRows, step.storage);
        OtherTenantsSeal(Seals(w.segments), NewSeal(step.tenant, step.segmentId, step.now, taken.value), t);
      }
    }
  }

  lemma OtherTenantsSeal(seals: seq<Seal>, s: Seal, t: Uuid)
    requires s.tenantId != t && NonEmpty(s) && forall x :: x in seals ==> NonEmpty(x)
    ensures SealedHash(seals + [s], t) == SealedHash(seals, t)
  {
    assert (seals + [s])[..|seals|] == seals;
  }

  /** No step of anyone gets a tenant out of it. */
  lemma StepKeepsStranded(p: Platform, w: World, step: Step, t: Uuid)
    requires Safe(p, w) && UniqueKeys(w.rows) && SegmentsHaveRows(w.segments) && Admissible(w, step)
    requires Stranded(w, t) && NoCollisions(Apply(p, w, step).ledger)
    ensures Stranded(Apply(p, w, step), t)
  {
    match step
    case Insert(e, id, now) => InsertKeepsStranded(p, w, e, id, now, t);
    case Backfill(tenant) => BackfillKeepsStranded(p, w, tenant, t);
    case SealNext(_, _, _, _, _) => SealKeepsStranded(p, w, step, t);
    case Cleanup(_, _, _) => assert Apply(p, w, step).rows <= w.rows;
    case _ =>
      OtherStepsKeepSeals(p, w, step);
      OtherStepsKeepRows(p, w, step);
  }

  /** Once stranded, over every run: never in order again, never sealed, never selected, and every new row is left out. */
  lemma {:induction false} StrandedForGood(p: Platform, ws: seq<World>, steps: seq<Step>, i: nat, j: nat, t: Uuid, n: nat)
    requires Run(p, ws, steps) && i <= j < |ws| && NoCollisions(ws[j].ledger) && n >= 1
    requires Stranded(ws[i], t)
    ensures Stranded(ws[j], t) && SegmentsHaveRows(ws[j].segments)
    ensures RowsToSeal(p.hash, ws[j].rows, Seals(ws[j].segments), t, n) == Err(NoUnsealedRows)
    ensures !HasUnsealedRows(ws[j].rows, Seals(ws[j].segments), t)
    decreases j
  {
    hide Safe, Stranded, Apply, NoCollisions, RowsToSeal, HasUnsealedRows, Admissible, SegmentsHaveRows;
    RunsAreSafe(p, ws, steps, j);
    SafeIsWellFormed(p, ws[j]);
    if i < j {
      LedgerKeepsNoCollisions(p, ws, steps, j - 1, j);
      StrandedForGood(p, ws, steps, i, j - 1, t, n);
      RunsAreSafe(p, ws, steps, j - 1);
      SafeIsWellFormed(p, ws[j - 1]);
      assert Next(p, ws[j - 1], steps[j - 1], ws[j - 1 + 1]);
      StepKeepsStranded(p, ws[j - 1], steps[j - 1], t);
    }
    StrandedIsNotSealed(p, ws[j], t, n);
  }

  lemma StrandedIsNotSound(p: Platform, w: World, t: Uuid)
    requires Safe(p, w) && NoCollisions(w.ledger)
    ensures !ChainSound(p, w, t) || !Stranded(w, t)
  {
    if ChainSound(p, w, t) {
      var chain, k := LedgerOf(w.ledger, t), |Entries(Seals(w.segments), t)|;
      SealedHashOfChain(p, w, t);
      LedgerHashesDistinct(w.ledger, t);
      LedgerOfMembers(w.ledger, t);
      StrandedIffNewestDropped(p.hash, chain, w.rows, t, k);
    }
  }

  lemma StartsInOrder(p: Platform, ws: seq<World>, steps: seq<Step>, t: Uuid)
    requires Run(p, ws, steps) && NoCollisions(ws[0].ledger)
    ensures ChainSound(p, ws[0], t) && !Stranded(ws[0], t)
  {
    hide ChainSound, Stranded, Safe, NoCollisions;
    InitialIsChainSound(p, ws[0]);
    RunsAreSafe(p, ws, steps, 0);
    StrandedIsNotSound(p, ws[0], t);
  }

  lemma StepFromOrder(p: Platform, w: World, step: Step, t: Uuid)
    requires Safe(p, w) && UniqueKeys(w.rows) && SegmentsHaveRows(w.segments) && Admissible(w, step) && InsertsInTime(p, w, step)
    requires ChainSound(p, w, t) && NoCollisions(w.ledger) && NoCollisions(Apply(p, w, step).ledger)
    ensures var w' := Apply(p, w, step);
            && (Stranded(w', t) <==> !ChainSound(p, w', t))
            && (Stranded(w', t) <==> DropsNewest(w, step, t))
  {
    hide Safe, ChainSound, Stranded, NoCollisions, Admissible, InsertsInTime, NewestIsKept, LedgerOf, CleanupTx, UniqueKeys,
         SegmentsHaveRows;
    if step.Cleanup? {
      CleanupStrandsIffNewestDropped(p, w, step, t);
    } else {
      StepKeepsChainSound(p, w, step, t);
      ApplyKeepsSafe(p, w, step);
      StrandedIsNotSound(p, Apply(p, w, step), t);
    }
  }

  /**
   Over every run whose inserts come in time, without any assumption on cleanups: at each moment a tenant is either in
   order, its segments partitioning its chain, or stranded; and it is stranded if and only if some cleanup has dropped
   its newest hashed row.
   */
  lemma {:induction false} StrandedIffNewestWasDropped(p: Platform, ws: seq<World>, steps: seq<Step>, i: nat, t: Uuid)
    requires ClockedRun(p, ws, steps) && i < |ws| && NoCollisions(ws[i].ledger)
    ensures Stranded(ws[i], t) <==> !ChainSound(p, ws[i], t)
    ensures Stranded(ws[i], t) <==> exists k :: 0 <= k < i && DropsNewest(ws[k], steps[k], t)
  {
    hide Initial, Next, Safe, Apply, Stranded, ChainSound, NoCollisions, Admissible, InsertsInTime, DropsNewest, UniqueKeys,
         SegmentsHaveRows;
    if i == 0 {
      StartsInOrder(p, ws, steps, t);
    } else {
      LedgerKeepsNoCollisions(p, ws, steps, i - 1, i);
      StrandedIffNewestWasDropped(p, ws, steps, i - 1, t);
      ClockedStep(p, ws, steps, i - 1);
      if Stranded(ws[i - 1], t) {
        StepKeepsStranded(p, ws[i - 1], steps[i - 1], t);
        RunsAreSafe(p, ws, steps, i);
        StrandedIsNotSound(p, ws[i], t);
      } else {
        StepFromOrder(p, ws[i - 1], steps[i - 1], t);
      }
    }
  }

  // ----- such a run -----

  function RowOf(p: Platform, e: Entry, id: Uuid, now: int): (r: Row) {
    Row(id, now, e, None, Some(p.hash(e, id, now, None)))
  }

  function OneSeal(p: Platform, e: Entry): (s: Seal) {
    Seal(0, e.tenantId, [ManifestOf(RowOf(p, e, 0, 0))], 0)
  }

  function StateAfter(p: Platform, e: Entry, k: nat): (w: World) {
    var first, s := RowOf(p, e, 0, 0), OneSeal(p, e);
    var month := map["audit_logs_p197001" := Partition(0, 1)];
    var refs := map[0 as Uuid := ObjectRef(KeyOf(s), p.sha(p.evidence(s)))];
    var objects := map[KeyOf(s) := p.evidence(s)];
    var pending := Archive(Pending, 0, None, None, None, Some(0));
    var archiving := pending.(status := Archiving, startedAt := Some(p.minimumAge));
    var archived := archiving.(status := Archived, attempts := 1, verifiedAt := Some(0), retentionUntil := Some(p.retention));
    if k == 0 then World({}, {}, [], {}, month, map[], map[], map[], [])
    else if k == 1 then World({first}, {0}, [], {}, month, map[], map[], map[], [first])
    else if k == 2 then World({first}, {0}, [Segment(s, pending)], {}, month, refs, objects, map[], [first])
    else if k == 3 then World({first}, {0}, [Segment(s, archiving)], {}, month, refs, objects, map[0 := Claimed(0, Some(0))], [first])
    else if k == 4 then World({first}, {0}, [Segment(s, archiving)], {}, month, refs, objects, map[0 := Checked(0, 0)], [first])
    else if k == 5 then World({first}, {0}, [Segment(s, archived)], {}, month, refs, objects, map[], [first])
    else if k == 6 then World({}, {0}, [Segment(s, archived)], {}, map[], refs, objects, map[], [first])
    else World({RowOf(p, e, 1, 1)}, {0, 1}, [Segment(s, archived)], {}, map[], refs, objects, map[], [first, RowOf(p, e, 1, 1)])
  }

  function StepAfter(p: Platform, e: Entry, k: nat): (s: Step) {
    if k == 0 then Insert(e, 0, 0)
    else if k == 1 then SealNext(e.tenantId, 0, 0, 1, Enabled(0))
    else if k == 2 then ClaimArchive(0, 0, p.minimumAge)
    else if k == 3 then CheckArchive(0, Disabled)
    else if k == 4 then CommitArchive(0, 0)
    else if k == 5 then Cleanup("audit_logs_p197001", p.retention, 1)
    else Insert(e, 1, 1)
  }

  lemma FirstSeal(p: Platform, e: Entry)
    ensures RowsToSeal(p.hash, {RowOf(p, e, 0, 0)}, [], e.tenantId, 1) == Ok([RowOf(p, e, 0, 0)])
  {
    var r := RowOf(p, e, 0, 0);
    assert Candidates({r}, e.tenantId, None) == {r};
    WalkStep({r}, e.tenantId, None, 1, r, []);
    assert [r] + [] == [r];
    assert Linked([r], 0) && CorrectlyHashed(p.hash, [r][0]);
  }

  lemma FirstInsert(p: Platform, e: Entry, id: Uuid, now: int)
    ensures NewRow(p.hash, {}, e, id, now) == RowOf(p, e, id, now)
  {
    assert HashedRows({}, e.tenantId) == {};
  }

  lemma SealStepFollows(p: Platform, e: Entry)
    ensures SealTx(p, StateAfter(p, e, 1), e.tenantId, 0, 0, 1, Enabled(0)) == StateAfter(p, e, 2)
  {
    hide RowsToSeal;
    FirstSeal(p, e);
    assert Seals([]) == [];
    assert Manifest([RowOf(p, e, 0, 0)]) == [ManifestOf(RowOf(p, e, 0, 0))];
  }

  lemma ArchiveStepsFollow(p: Platform, e: Entry)
    requires p.maxAttempts >= 1
    ensures ClaimTx(p, StateAfter(p, e, 2), 0, 0, p.minimumAge) == StateAfter(p, e, 3)
    ensures CheckTx(p, StateAfter(p, e, 3), 0, Disabled) == StateAfter(p, e, 4)
    ensures CommitTx(p, StateAfter(p, e, 4), 0, 0) == StateAfter(p, e, 5)
  {
  }

  lemma CleanupStepFollows(p: Platform, e: Entry)
    ensures CleanupTx(StateAfter(p, e, 5), "audit_logs_p197001", p.retention, 1) == StateAfter(p, e, 6)
  {
    var w := StateAfter(p, e, 5);
    assert CoversForCleanup(w, w.segments[0], RowOf(p, e, 0, 0), p.retention);
  }

  lemma EachStepFollows(p: Platform, e: Entry, k: nat)
    requires p.maxAttempts >= 1 && k < 7
    ensures Next(p, StateAfter(p, e, k), StepAfter(p, e, k), StateAfter(p, e, k + 1))
  {
    hide SealTx, ClaimTx, CheckTx, CommitTx, CleanupTx, NewRow, UniqueKeys, SegmentsHaveRows;
    if k == 0 {
      FirstInsert(p, e, 0, 0);
    } else if k == 1 {
      SealStepFollows(p, e);
    } else if k < 5 {
      ArchiveStepsFollow(p, e);
    } else if k == 5 {
      CleanupStepFollows(p, e);
    } else {
      FirstInsert(p, e, 1, 1);
    }
  }

  /**
   Stranding happens: on every platform that archives at all, insert, seal, archive and drop one month of a tenant. The
   next insert then is a hashed row that no seal takes, provided the two rows have different hashes.
   */
  lemma StrandingIsReachable(p: Platform, e: Entry) returns (ws: seq<World>, steps: seq<Step>)
    requires p.maxAttempts >= 1
    ensures ClockedRun(p, ws, steps) && |steps| == 7
    ensures Stranded(ws[6], e.tenantId) && steps[6] == Insert(e, 1, 1)
    ensures ws[7].rows == HashedRows(ws[7].rows, e.tenantId) == {RowOf(p, e, 1, 1)}
    ensures p.hash(e, 0, 0, None) != p.hash(e, 1, 1, None) ==> NoCollisions(ws[7].ledger) && Stranded(ws[7], e.tenantId)
  {
    hide Next;
    ws := seq(8, k requires 0 <= k < 8 => StateAfter(p, e, k));
    steps := seq(7, k requires 0 <= k < 7 => StepAfter(p, e, k));
    forall k | 0 <= k < |steps| ensures Next(p, ws[k], steps[k], ws[k + 1]) {
      EachStepFollows(p, e, k);
    }
    forall k | 0 <= k < |steps| ensures UniqueKeys(ws[k].rows) ==> InsertsInTime(p, ws[k], steps[k]) {
    }
    var s := OneSeal(p, e);
    assert Seals(ws[6].segments) == [s] && Seals(ws[7].segments) == [s];
    assert LatestSeal([s], e.tenantId) == Some(s);
    assert HashedRows(ws[6].rows, e.tenantId) == {};
  }
}
