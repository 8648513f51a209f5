/**
 The audit tables as the backend updates them: each method is one of its functions, with the
 loops it runs, and leaves the tables as the corresponding transaction of `AuditWorld` says.
 */
module AuditStore {
  import opened Options
  import opened AuditRows
  import opened AuditTable
  import opened AuditSealing
  import opened AuditWorld
  import LegalHolds

  datatype BackfillReport = BackfillReport(
    unhashedRows: nat, hashedRows: nat, sealedSegments: nat, executableInPlace: bool,
    requiresOfflineRechain: bool, dryRun: bool, updatedRows: nat)

  datatype Conflict = OfflineRechainRequired

  datatype CleanupError = InvalidName | PartitionNotFound | CleanupDisabled | NotOldEnough | EligibilityChanged

  datatype BlockingReason = CurrentOrFuturePartition | ContainsIneligibleRows

  datatype CleanupStatus = CleanupStatus(rowCount: nat, blockingReason: Option<BlockingReason>)

  datatype SealingSummary = SealingSummary(tenantsScanned: nat, segmentsSealed: nat, failedTenants: nat)

  /** One tenant of a sealing pass, with the id and the time its seal draws. */
  datatype SealRequest = SealRequest(tenant: Uuid, segmentId: Uuid, now: int, storage: Storage)

  // ----- partition names -----

  const PARTITION_PREFIX: string := "audit_logs_p"

  /** `validate_partition_name`: `audit_logs_pYYYYMM`. */
  predicate ValidPartitionName(name: string) {
    |name| == 18 && name[..12] == PARTITION_PREFIX && forall i :: 12 <= i < 18 ==> '0' <= name[i] <= '9'
  }

  /** A name spliced into the DDL text is a plain identifier, and never the default partition's. */
  lemma ValidNamesAreIdentifiers(name: string)
    requires ValidPartitionName(name)
    ensures forall i :: 0 <= i < |name| ==> 'a' <= name[i] <= 'z' || '0' <= name[i] <= '9' || name[i] == '_'
    ensures "audit_logs_p" <= name && name != "audit_logs_default"
  {
    forall i | 0 <= i < 12 ensures 'a' <= name[i] <= 'z' || name[i] == '_' {
      assert name[i] == name[..12][i] == PARTITION_PREFIX[i];
    }
    assert '0' <= name[12] <= '9';
  }

  // ----- a pass of the sealing worker -----

  function SealPass(p: Platform, w: World, requests: seq<SealRequest>, maxRows: nat): (w': World)
    requires SegmentsHaveRows(w.segments)
    ensures SegmentsHaveRows(w'.segments)
  {
    if requests == [] then w
    else
      var w1 := SealPass(p, w, requests[..|requests| - 1], maxRows);
      var q := requests[|requests| - 1];
      SealTx(p, w1, q.tenant, q.segmentId, q.now, maxRows, q.storage)
  }

  /** How the last seal of a pass is answered, after the ones before it. */
  function SealAnswer(p: Platform, w: World, q: SealRequest, maxRows: nat): (r: Result<Seal, SealError>)
    requires SegmentsHaveRows(w.segments)
  {
    match RowsToSeal(p.hash, w.rows, Seals(w.segments), q.tenant, maxRows)
    case Err(e) => Err(e)
    case Ok(taken) =>
      if q.storage.Unavailable? then Err(ObjectStoreFailed) else Ok(NewSeal(q.tenant, q.segmentId, q.now, taken))
  }

  function PassSummary(p: Platform, w: World, requests: seq<SealRequest>, maxRows: nat): (s: SealingSummary)
    requires SegmentsHaveRows(w.segments)
    ensures s.tenantsScanned == |requests| && s.segmentsSealed + s.failedTenants <= |requests|
  {
    if requests == [] then SealingSummary(0, 0, 0)
    else
      var init := requests[..|requests| - 1];
      var s := PassSummary(p, w, init, maxRows);
      Counted(s, SealAnswer(p, SealPass(p, w, init, maxRows), requests[|requests| - 1], maxRows))
  }

  /** One more tenant and what its seal answered. */
  function Counted(s: SealingSummary, r: Result<Seal, SealError>): (s': SealingSummary) {
    match r
    case Ok(_) => SealingSummary(s.tenantsScanned + 1, s.segmentsSealed + 1, s.failedTenants)
    case Err(NoUnsealedRows) => SealingSummary(s.tenantsScanned + 1, s.segmentsSealed, s.failedTenants)
    case Err(_) => SealingSummary(s.tenantsScanned + 1, s.segmentsSealed, s.failedTenants + 1)
  }

  lemma NothingPassed(p: Platform, w: World, maxRows: nat)
    requires SegmentsHaveRows(w.segments)
    ensures SealPass(p, w, [], maxRows) == w && PassSummary(p, w, [], maxRows) == SealingSummary(0, 0, 0)
  {
  }

  lemma PassStep(p: Platform, w: World, requests: seq<SealRequest>, i: nat, maxRows: nat)
    requires SegmentsHaveRows(w.segments) && i < |requests|
    ensures var w1, q := SealPass(p, w, requests[..i], maxRows), requests[i];
            && SealPass(p, w, requests[..i + 1], maxRows) == SealTx(p, w1, q.tenant, q.segmentId, q.now, maxRows, q.storage)
            && PassSummary(p, w, requests[..i + 1], maxRows)
                 == Counted(PassSummary(p, w, requests[..i], maxRows), SealAnswer(p, w1, q, maxRows))
            && |SealTx(p, w1, q.tenant, q.segmentId, q.now, maxRows, q.storage).segments|
                 == |w1.segments| + if SealAnswer(p, w1, q, maxRows).Ok? then 1 else 0
  {
    hide RowsToSeal;
    assert requests[..i + 1][..i] == requests[..i];
  }

  function BackfillReportOf(rows: set<Row>, segments: seq<Segment>, tenant: Uuid, dryRun: bool, updated: nat): (r: BackfillReport) {
    var unhashed, hashed := |UnhashedRows(rows, tenant)|, |HashedRows(rows, tenant)|;
    var sealed := |set i | 0 <= i < |segments| && segments[i].seal.tenantId == tenant|;
    var inPlace := unhashed > 0 && hashed == 0 && sealed == 0;
    BackfillReport(unhashed, hashed, sealed, inPlace, unhashed > 0 && !inPlace, dryRun, updated)
  }

  /** The report's counts decide as the transaction does. */
  lemma ReportDecides(rows: set<Row>, segments: seq<Segment>, tenant: Uuid, dryRun: bool)
    ensures var r := BackfillReportOf(rows, segments, tenant, dryRun, 0);
            r.unhashedRows > 0 ==> (r.executableInPlace <==> !RequiresOfflineRechain(rows, Seals(segments), tenant))
  {
    var sealed := set i | 0 <= i < |segments| && segments[i].seal.tenantId == tenant;
    if |sealed| == 0 {
      forall s | s in Seals(segments) ensures s.tenantId != tenant {
        var i :| 0 <= i < |segments| && Seals(segments)[i] == s;
        assert i !in sealed;
      }
    } else {
      var i :| i in sealed;
      assert Seals(segments)[i] in Seals(segments);
    }
  }

  lemma RelinkStep(rows: set<Row>, pending: seq<Row>, linked: seq<Row>, i: nat)
    requires i < |pending| == |linked| && forall j :: 0 <= j < |linked| ==> linked[j].rowHash.Some?
    requires pending[i].rowHash.None?
    ensures (((rows - SeqToSet(pending[..i])) + SeqToSet(linked[..i])) - {pending[i]}) + {linked[i]}
         == (rows - SeqToSet(pending[..i + 1])) + SeqToSet(linked[..i + 1])
  {
    assert pending[..i + 1] == pending[..i] + [pending[i]] && linked[..i + 1] == linked[..i] + [linked[i]];
  }

  /** The loop of the backfill: each historical row in order gets its predecessor's hash and its own. */
  method RelinkRows(hash: RowHasher, rows: set<Row>, tenant: Uuid) returns (table: set<Row>, updatedRows: nat)
    requires UniqueKeys(rows)
    ensures table == BackfilledRows(hash, rows, tenant)
    ensures updatedRows == |UnhashedRows(rows, tenant)|
  {
    var unhashed := UnhashedRows(rows, tenant);
    var pending := SortByKey(unhashed);
    SortByKeySorts(unhashed);
    ghost var linked := LinkUp(hash, pending, None);
    forall j | 0 <= j < |linked| ensures linked[j].rowHash.Some? && pending[j].rowHash.None? {
      LinkUpAt(hash, pending, None, j);
      assert pending[j] in pending;
    }
    table := rows;
    var previousHash: Option<string> := None;
    updatedRows := 0;
    for i := 0 to |pending|
      invariant updatedRows == i
      invariant previousHash == HashBefore(linked, i)
      invariant table == (rows - SeqToSet(pending[..i])) + SeqToSet(linked[..i])
    {
      var row := pending[i];
      var rowHash := hash(row.entry, row.id, row.createdAt, previousHash);
      var updated := row.(prevHash := previousHash, rowHash := Some(rowHash));
      LinkUpAt(hash, pending, None, i);
      RelinkStep(rows, pending, linked, i);
      table := (table - {row}) + {updated};
      previousHash := Some(rowHash);
      updatedRows := updatedRows + 1;
    }
    assert pending[..|pending|] == pending && linked[..|pending|] == linked;
    assert SeqToSet(pending) == unhashed;
  }

  class AuditStore {
    const p: Platform
    var rows: set<Row>
    var identities: set<Uuid>
    var segments: seq<Segment>
    var holds: set<Hold>
    var partitions: map<string, Partition>
    var objectRefs: map<Uuid, ObjectRef>
    var objects: map<ObjectKey, string>
    ghost var workers: map<nat, Worker>
    ghost var ledger: seq<Row>

    ghost predicate Valid()
      reads this
    {
      UniqueKeys(rows) && SegmentsHaveRows(segments)
    }

    ghost function Tables(): (w: World)
      reads this
    {
      World(rows, identities, segments, holds, partitions, objectRefs, objects, workers, ledger)
    }

    method InsertAuditLog(e: Entry, id: Uuid, now: int)
      requires Valid() && UniqueKeys(rows + {NewRow(p.hash, rows, e, id, now)})
      modifies this
      ensures Valid() && Tables() == InsertTx(p, old(Tables()), e, id, now)
    {
      var previousHash := PreviousHash(rows, e.tenantId);
      var rowHash := p.hash(e, id, now, previousHash);
      var row := Row(id, now, e, previousHash, Some(rowHash));
      rows := rows + {row};
      identities := identities + {id};
      ledger := ledger + [row];
    }

    method VerifyAuditHashChain(tenant: Uuid, limit: nat) returns (r: VerifyResponse)
      requires Valid()
      ensures Reports(p.hash, RecentWindow(rows, tenant, limit), r)
    {
      ChainHoldsHashedRows(rows, tenant);
      r := VerifyStoredAuditRows(p.hash, RecentWindow(rows, tenant, limit));
    }

    method BackfillHistoricalAuditHashes(tenant: Uuid, dryRun: bool) returns (r: Result<BackfillReport, Conflict>)
      requires Valid()
      modifies this
      ensures Valid()
      ensures var before := old(BackfillReportOf(rows, segments, tenant, dryRun, 0));
              if dryRun || before.unhashedRows == 0 then r == Ok(before) && Tables() == old(Tables())
              else if !before.executableInPlace then r == Err(OfflineRechainRequired) && Tables() == old(Tables())
              else && Tables() == BackfillTx(p, old(Tables()), tenant)
                   && r == Ok(BackfillReportOf(rows, segments, tenant, false, before.unhashedRows))
    {
      var initial := BackfillReportOf(rows, segments, tenant, dryRun, 0);
      if dryRun || initial.unhashedRows == 0 {
        return Ok(initial);
      }
      if !initial.executableInPlace {
        return Err(OfflineRechainRequired);
      }
      ReportDecides(rows, segments, tenant, dryRun);
      BackfillUniqueKeys(p.hash, rows, tenant);
      ledger := ledger + LinkUp(p.hash, SortByKey(UnhashedRows(rows, tenant)), None);
      var table, updatedRows := RelinkRows(p.hash, rows, tenant);
      rows := table;
      return Ok(BackfillReportOf(rows, segments, tenant, false, updatedRows));
    }

    method SealAuditHashChain(tenant: Uuid, segmentId: Uuid, now: int, maxRows: nat, storage: Storage)
      returns (r: Result<Seal, SealError>)
      requires Valid()
      modifies this
      ensures Valid() && Tables() == SealTx(p, old(Tables()), tenant, segmentId, now, maxRows, storage)
      ensures r == SealAnswer(p, old(Tables()), SealRequest(tenant, segmentId, now, storage), maxRows)
    {
      var taken := LoadNextChainRows(rows, tenant, SealedHash(Seals(segments), tenant), maxRows);
      if taken.Err? {
        return Err(taken.error);
      }
      WalkIsLinked(rows, tenant, SealedHash(Seals(segments), tenant), maxRows);
      if taken.value == [] {
        return Err(NoUnsealedRows);
      }
      assert AllHashed(taken.value) by {
        assert forall i :: 0 <= i < |taken.value| ==> taken.value[i] in taken.value;
      }
      var verification := VerifyStoredAuditRows(p.hash, taken.value);
      if !verification.valid {
        return Err(InvalidSegment);
      }
      var s := NewSeal(tenant, segmentId, now, taken.value);
      match storage {
        case Unavailable =>
          return Err(ObjectStoreFailed);
        case Disabled =>
          segments := segments + [Segment(s, Archive(Pending, 0, None, None, None, None))];
        case Enabled(refId) =>
          objects := objects[KeyOf(s) := p.evidence(s)];
          objectRefs := objectRefs[refId := ObjectRef(KeyOf(s), p.sha(p.evidence(s)))];
          segments := segments + [Segment(s, Archive(Pending, 0, None, None, None, Some(refId)))];
      }
      return Ok(s);
    }

    /** A pass over the tenants the worker's query selected. */
    method ProcessAuditHashChainSeals(requests: seq<SealRequest>, maxRows: nat) returns (summary: SealingSummary)
      requires Valid()
      modifies this
      ensures Valid() && Tables() == SealPass(p, old(Tables()), requests, maxRows)
      ensures summary == PassSummary(p, old(Tables()), requests, maxRows)
      ensures summary.segmentsSealed == |segments| - |old(segments)|
    {
      hide SealPass, PassSummary, SealTx, SealAnswer, RowsToSeal;
      summary := SealingSummary(|requests|, 0, 0);
      NothingPassed(p, Tables(), maxRows);
      assert requests[..0] == [];
      for i := 0 to |requests|
        invariant Valid() && Tables() == SealPass(p, old(Tables()), requests[..i], maxRows)
        invariant summary == PassSummary(p, old(Tables()), requests[..i], maxRows).(tenantsScanned := |requests|)
        invariant summary.segmentsSealed == |segments| - |old(segments)|
      {
        PassStep(p, old(Tables()), requests, i, maxRows);
        var q := requests[i];
        var r := SealAuditHashChain(q.tenant, q.segmentId, q.now, maxRows, q.storage);
        if r.Ok? {
          summary := summary.(segmentsSealed := summary.segmentsSealed + 1);
        } else if r.error != NoUnsealedRows {
          summary := summary.(failedTenants := summary.failedTenants + 1);
        }
      }
      assert requests[..|requests|] == requests;
    }

    // ----- archive worker -----

    method ClaimArchiveCandidate(ghost worker: nat, segmentId: Uuid, now: int) returns (candidate: Option<Segment>)
      modifies this
      ensures Tables() == ClaimTx(p, old(Tables()), worker, segmentId, now)
      ensures var found := Find(old(segments), segmentId);
              candidate == if found.Some? && ClaimableBy(p, found.value, now) then found else None
    {
      var found := Find(segments, segmentId);
      if found.None? || !ClaimableBy(p, found.value, now) {
        return None;
      }
      segments := UpdateArchive(segments, segmentId, MarkClaimed(now));
      workers := workers[worker := Claimed(segmentId, found.value.archive.objectRef)];
      return found;
    }

    /** The first request of `archive_segment`: an existing object is read and compared, a missing one is put. */
    method CheckArchiveEvidence(ghost worker: nat, candidate: Segment, storage: Storage) returns (phase: Option<Worker>)
      requires worker in workers && workers[worker] == Claimed(candidate.seal.id, candidate.archive.objectRef)
      requires Find(segments, candidate.seal.id).Some? && Find(segments, candidate.seal.id).value.seal == candidate.seal
      modifies this
      ensures Tables() == CheckTx(p, old(Tables()), worker, storage)
      ensures phase == None ==> Tables() == old(Tables())
      ensures phase.Some? ==> workers == old(workers)[worker := phase.value]
    {
      var contentHash := p.sha(p.evidence(candidate.seal));
      match candidate.archive.objectRef {
        case Some(existing) =>
          if existing !in objectRefs || objectRefs[existing].key !in objects {
            return None;
          }
          var storedHash := p.sha(objects[objectRefs[existing].key]);
          if storedHash != objectRefs[existing].contentHash || storedHash != contentHash {
            return None;
          }
          phase := Some(Checked(candidate.seal.id, existing));
        case None =>
          if !storage.Enabled? {
            return None;
          }
          objects := objects[KeyOf(candidate.seal) := p.evidence(candidate.seal)];
          phase := Some(Written(candidate.seal.id));
      }
      workers := workers[worker := phase.value];
    }

    /** The read back of an object that was put, whatever has happened to it since. */
    method ReadBackArchiveEvidence(ghost worker: nat, candidate: Segment, storage: Storage) returns (refId: Option<Uuid>)
      requires worker in workers && workers[worker] == Written(candidate.seal.id)
      requires Find(segments, candidate.seal.id).Some? && Find(segments, candidate.seal.id).value.seal == candidate.seal
      modifies this
      ensures Tables() == CheckTx(p, old(Tables()), worker, storage)
      ensures refId == None ==> Tables() == old(Tables())
      ensures refId.Some? ==>
                && workers == old(workers)[worker := Checked(candidate.seal.id, refId.value)]
                && var key := KeyOf(candidate.seal);
                && key in objects && objectRefs == old(objectRefs)[refId.value := ObjectRef(key, p.sha(objects[key]))]
    {
      var contentHash := p.sha(p.evidence(candidate.seal));
      if !storage.Enabled? || KeyOf(candidate.seal) !in objects || p.sha(objects[KeyOf(candidate.seal)]) != contentHash {
        return None;
      }
      objectRefs := objectRefs[storage.refId := ObjectRef(KeyOf(candidate.seal), contentHash)];
      workers := workers[worker := Checked(candidate.seal.id, storage.refId)];
      return Some(storage.refId);
    }

    method CommitArchive(ghost worker: nat, candidate: Segment, refId: Uuid, now: int)
      requires worker in workers && workers[worker] == Checked(candidate.seal.id, refId)
      requires Find(segments, candidate.seal.id).Some? && Find(segments, candidate.seal.id).value.seal == candidate.seal
      modifies this
      ensures Tables() == CommitTx(p, old(Tables()), worker, now)
    {
      var retentionUntil := candidate.seal.sealedAt + p.retention;
      segments := UpdateArchive(segments, candidate.seal.id, MarkArchived(refId, now, retentionUntil));
      workers := workers - {worker};
    }

    method RecordArchiveFailure(ghost worker: nat, segmentId: Uuid)
      requires worker in workers && workers[worker].segmentId == segmentId
      modifies this
      ensures Tables() == FailTx(p, old(Tables()), worker)
    {
      segments := UpdateArchive(segments, segmentId, MarkFailed(p.maxAttempts));
      workers := workers - {worker};
    }

    // ----- legal holds -----

    method CreateAuditLegalHold(request: LegalHolds.HoldRequest, id: Uuid) returns (r: Result<Hold, LegalHolds.HoldError>)
      modifies this
      ensures r == old(LegalHolds.NewHold(TablesAlone(), request, id))
      ensures Tables() == if r.Ok? then CreateHoldTx(old(Tables()), r.value) else old(Tables())
    {
      r := LegalHolds.NewHold(World(rows, identities, segments, holds, partitions, objectRefs, objects, map[], []), request, id);
      if r.Ok? {
        holds := holds + {r.value};
      }
    }

    ghost function TablesAlone(): (w: World)
      reads this
    {
      Tables().(workers := map[], ledger := [])
    }

    method ReleaseAuditLegalHold(tenant: Uuid, holdId: Uuid) returns (found: bool)
      modifies this
      ensures Tables() == ReleaseHoldTx(old(Tables()), tenant, holdId)
      ensures found <==> exists h :: h in old(holds) && h.id == holdId && h.tenantId == tenant && h.active
    {
      found := exists h :: h in holds && h.id == holdId && h.tenantId == tenant && h.active;
      holds := set h | h in holds :: if h.id == holdId && h.tenantId == tenant then h.(active := false) else h;
    }

    // ----- partition cleanup -----

    /** The first half of a cleanup: what a dry run answers. */
    method AuditPartitionCleanupStatus(name: string, now: int, monthStart: int) returns (r: Result<CleanupStatus, CleanupError>)
      ensures r == if !ValidPartitionName(name) then Err(InvalidName)
                   else if name !in partitions then Err(PartitionNotFound)
                   else Ok(CleanupStatus(
                          |set x | x in rows && InPartition(partitions[name], x)|,
                          if partitions[name].hi > monthStart then Some(CurrentOrFuturePartition)
                          else if ContainsIneligible(Tables(), partitions[name], now) then Some(ContainsIneligibleRows)
                          else None))
    {
      if !ValidPartitionName(name) {
        return Err(InvalidName);
      }
      if name !in partitions {
        return Err(PartitionNotFound);
      }
      var part := partitions[name];
      var ineligible := HasIneligible(part, now);
      var reason := if part.hi > monthStart then Some(CurrentOrFuturePartition)
                    else if ineligible then Some(ContainsIneligibleRows) else None;
      var count := |set x | x in rows && InPartition(part, x)|;
      return Ok(CleanupStatus(count, reason));
    }

    method HasIneligible(part: Partition, now: int) returns (b: bool)
      ensures b == ContainsIneligible(Tables(), part, now)
    {
      b := ContainsIneligible(World(rows, identities, segments, holds, partitions, objectRefs, objects, map[], []), part, now);
      assert forall r, i :: 0 <= i < |segments| ==>
        CoversForCleanup(World(rows, identities, segments, holds, partitions, objectRefs, objects, map[], []), segments[i], r, now)
        == CoversForCleanup(Tables(), segments[i], r, now);
    }

    /** The second half, under the table lock: everything is tested again before the partition goes. */
    method DropAuditPartition(name: string, cleanupEnabled: bool, now: int, monthStart: int) returns (r: Result<(), CleanupError>)
      requires ValidPartitionName(name)
      modifies this
      ensures Tables() == if cleanupEnabled then CleanupTx(old(Tables()), name, now, monthStart) else old(Tables())
      ensures r.Ok? <==> cleanupEnabled && name in old(partitions) && name !in partitions
    {
      if !cleanupEnabled {
        return Err(CleanupDisabled);
      }
      if name !in partitions {
        return Err(PartitionNotFound);
      }
      var part := partitions[name];
      if part.hi > monthStart {
        return Err(NotOldEnough);
      }
      var ineligible := HasIneligible(part, now);
      if ineligible {
        return Err(EligibilityChanged);
      }
      rows := RowsOutside(rows, part);
      partitions := partitions - {name};
      return Ok(());
    }
  }
}
