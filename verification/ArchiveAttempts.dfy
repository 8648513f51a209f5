/**
 How often a segment is archived: what a claim, a failure and a success each leave behind, when a segment is claimable
 again, and that over every run its attempts are the recorded failures and the archiving, so that retries end.
 */
module ArchiveAttempts {
  import opened Options
  import opened AuditRows
  import opened AuditTable
  import opened AuditSealing
  import opened AuditWorld
  import opened AuditSafety
  import opened AuditArchiving

  // ----- one step at a time -----

  /** The segments before and after a step differ in the archive columns of the one with this id only. */
  predicate OnlyChanges(w: World, w': World, id: Uuid) {
    && |w'.segments| == |w.segments|
    && forall i :: 0 <= i < |w.segments| ==>
         w'.segments[i].seal == w.segments[i].seal && (w.segments[i].seal.id != id ==> w'.segments[i] == w.segments[i])
  }

  /** Waiting, failed, or given up: an archiving segment whose worker has been silent for longer than the stale time. */
  predicate MayBeClaimed(p: Platform, s: Segment, now: int) {
    && s.archive.attempts < p.maxAttempts
    && now - s.seal.sealedAt >= p.minimumAge
    && match s.archive.status
       case Pending => true
       case Failed => true
       case Archived => false
       case Archiving => s.archive.startedAt.Some? && now - s.archive.startedAt.value > p.staleAfter
  }

  /** A claim takes a segment that may be claimed, gives it to the worker with the reference it has, and starts its clock. */
  lemma ClaimStartsArchiving(p: Platform, w: World, worker: nat, id: Uuid, now: int, i: nat)
    requires DistinctIds(w.segments) && i < |w.segments| && w.segments[i].seal.id == id
    ensures var w' := ClaimTx(p, w, worker, id, now); var s := w.segments[i];
            if MayBeClaimed(p, s, now) then
              && OnlyChanges(w, w', id)
              && w'.segments[i].archive == s.archive.(status := Archiving, startedAt := Some(now))
              && w'.workers == w.workers[worker := Claimed(id, s.archive.objectRef)]
            else w' == w
  {
    var found := Find(w.segments, id);
    assert w.segments[i] in w.segments;
  }

  /** A claimed segment may be claimed again, under the same conditions, only once the worker has been silent too long. */
  lemma ClaimedRestsUntilStale(p: Platform, w: World, worker: nat, id: Uuid, now: int, i: nat, t: int)
    requires DistinctIds(w.segments) && i < |w.segments| && w.segments[i].seal.id == id && MayBeClaimed(p, w.segments[i], now) && t >= now
    ensures i < |ClaimTx(p, w, worker, id, now).segments|
    ensures MayBeClaimed(p, ClaimTx(p, w, worker, id, now).segments[i], t) <==> t - now > p.staleAfter
  {
    ClaimStartsArchiving(p, w, worker, id, now, i);
  }

  /** A recorded failure counts one attempt, and the segment may be claimed again unless that was the last one. */
  lemma FailureCountsOnce(p: Platform, w: World, worker: nat, i: nat, now: int)
    requires ArchiveSound(p, w) && DistinctIds(w.segments) && i < |w.segments|
    requires worker in w.workers && w.workers[worker].segmentId == w.segments[i].seal.id
    ensures var w' := FailTx(p, w, worker); var s := w.segments[i];
            && OnlyChanges(w, w', s.seal.id) && w'.workers == w.workers - {worker}
            && (s.archive.status != Archiving ==> w'.segments == w.segments)
            && (s.archive.status == Archiving ==>
                  && w'.segments[i].archive == s.archive.(status := Failed, attempts := s.archive.attempts + 1, startedAt := None)
                  && (MayBeClaimed(p, w'.segments[i], now) <==>
                        s.archive.attempts + 1 < p.maxAttempts && now - s.seal.sealedAt >= p.minimumAge))
  {
    assert SegmentSound(p, w, w.segments[i]);
    assert w.segments[i] in w.segments;
    if w.segments[i].archive.status != Archiving {
      forall k | 0 <= k < |w.segments| ensures FailTx(p, w, worker).segments[k] == w.segments[k] {
        assert w.segments[k] in w.segments;
      }
    }
  }

  /** A success counts one attempt too, and dates verification and retention. */
  lemma SuccessCountsOnce(p: Platform, w: World, worker: nat, i: nat, now: int)
    requires DistinctIds(w.segments) && i < |w.segments| && w.segments[i].archive.status == Archiving
    requires worker in w.workers && w.workers[worker].Checked? && w.workers[worker].segmentId == w.segments[i].seal.id
    ensures var w' := CommitTx(p, w, worker, now); var s := w.segments[i];
            && OnlyChanges(w, w', s.seal.id) && w'.workers == w.workers - {worker}
            && w'.segments[i].archive.status == Archived
            && w'.segments[i].archive.attempts == s.archive.attempts + 1
            && w'.segments[i].archive.objectRef == Some(w.workers[worker].refId)
            && w'.segments[i].archive.verifiedAt == Some(now)
            && w'.segments[i].archive.retentionUntil == Some(s.seal.sealedAt + p.retention)
  {
    assert w.segments[i] in w.segments;
  }

  /** With storage enabled a seal stores the evidence of its segment and refers to it; without, the segment has no object yet. */
  lemma SealStoresEvidence(p: Platform, w: World, step: Step)
    requires SegmentsHaveRows(w.segments) && step.SealNext? && !step.storage.Unavailable?
    requires RowsToSeal(p.hash, w.rows, Seals(w.segments), step.tenant, step.maxRows).Ok?
    ensures var w' := SealTx(p, w, step.tenant, step.segmentId, step.now, step.maxRows, step.storage); var n := |w.segments|;
            && |w'.segments| == n + 1 && w'.segments[..n] == w.segments
            && var s := w'.segments[n];
            && s.seal.id == step.segmentId && s.seal.tenantId == step.tenant && s.seal.sealedAt == step.now
            && s.archive.status == Pending && s.archive.attempts == 0
            && (step.storage.Disabled? ==> s.archive.objectRef == None && w'.objects == w.objects && w'.objectRefs == w.objectRefs)
            && (step.storage.Enabled? ==>
                  s.archive.objectRef == Some(step.storage.refId) && RefersTo(p, w', step.storage.refId, s.seal) && Stored(p, w', s.seal)
                  && w'.objectRefs[step.storage.refId].key == ObjectKey(step.tenant, step.now, step.segmentId))
  {
    hide RowsToSeal;
  }

  /** An object that is referenced already passes if and only if it is there and hashes both as recorded and as the evidence. */
  lemma ExistingObjectPassesIff(p: Platform, w: World, worker: nat, storage: Storage, s: Segment, refId: Uuid)
    requires worker in w.workers && w.workers[worker] == Claimed(s.seal.id, Some(refId)) && Find(w.segments, s.seal.id) == Some(s)
    ensures var w' := CheckTx(p, w, worker, storage);
            && (w' != w <==>
                  && refId in w.objectRefs && w.objectRefs[refId].key in w.objects
                  && p.sha(w.objects[w.objectRefs[refId].key]) == w.objectRefs[refId].contentHash == p.sha(p.evidence(s.seal)))
            && (w' != w ==> w' == w.(workers := w.workers[worker := Checked(s.seal.id, refId)]))
  {
    assert w.workers[worker := Checked(s.seal.id, refId)][worker] != w.workers[worker];
  }

  /** A missing object is put and, when nothing happens to it in between, read back and referenced with the second request. */
  lemma MissingObjectIsStored(p: Platform, w: World, worker: nat, refId: Uuid, s: Segment)
    requires worker in w.workers && w.workers[worker] == Claimed(s.seal.id, None) && Find(w.segments, s.seal.id) == Some(s)
    ensures var w' := CheckTx(p, CheckTx(p, w, worker, Enabled(refId)), worker, Enabled(refId));
            && worker in w'.workers && w'.workers[worker] == Checked(s.seal.id, refId) && w'.segments == w.segments
            && RefersTo(p, w', refId, s.seal) && Stored(p, w', s.seal)
            && w'.objectRefs[refId].key == ObjectKey(s.seal.tenantId, s.seal.sealedAt, s.seal.id)
  {
    var w1 := CheckTx(p, w, worker, Enabled(refId));
    assert w1.workers[worker] == Written(s.seal.id) && w1.segments == w.segments;
  }

  // ----- over a run -----

  /** The step records a failure of the segment, which is being archived. */
  ghost predicate RecordsFailure(w: World, step: Step, k: nat) {
    && k < |w.segments| && w.segments[k].archive.status == Archiving
    && step.FailArchive? && step.worker in w.workers && w.workers[step.worker].segmentId == w.segments[k].seal.id
  }

  /** Recorded failures of segment `k` in the first steps of a run. */
  ghost function Failures(ws: seq<World>, steps: seq<Step>, k: nat, j: nat): (n: nat)
    requires j <= |steps| < |ws|
  {
    if j == 0 then 0 else Failures(ws, steps, k, j - 1) + if RecordsFailure(ws[j - 1], steps[j - 1], k) then 1 else 0
  }

  function ArchivedOnce(s: Segment): (n: nat) {
    if s.archive.status == Archived then 1 else 0
  }

  lemma UntouchedSegment(p: Platform, w: World, step: Step, k: nat)
    requires UniqueKeys(w.rows) && SegmentsHaveRows(w.segments) && k < |w.segments|
    requires !step.ClaimArchive? && !step.CommitArchive? && !step.FailArchive?
    ensures k < |Apply(p, w, step).segments| && Apply(p, w, step).segments[k] == w.segments[k]
  {
    hide RowsToSeal;
  }

  /** Segment and attempts before, apart from the archiving: what a step adds to it. */
  predicate Adds(w: World, w': World, k: nat, n: nat) {
    && k < |w.segments| && k < |w'.segments| && w'.segments[k].seal == w.segments[k].seal
    && w'.segments[k].archive.attempts - ArchivedOnce(w'.segments[k])
         == w.segments[k].archive.attempts - ArchivedOnce(w.segments[k]) + n
  }

  lemma ClaimAddsNone(p: Platform, w: World, worker: nat, id: Uuid, now: int, k: nat)
    requires DistinctIds(w.segments) && k < |w.segments|
    ensures Adds(w, ClaimTx(p, w, worker, id, now), k, 0)
  {
    var found := Find(w.segments, id);
    assert w.segments[k] in w.segments;
  }

  lemma CommitAddsNone(p: Platform, w: World, worker: nat, now: int, k: nat)
    requires k < |w.segments|
    ensures Adds(w, CommitTx(p, w, worker, now), k, 0)
  {
  }

  lemma FailAddsOne(p: Platform, w: World, worker: nat, k: nat)
    requires ArchiveSound(p, w) && k < |w.segments|
    ensures Adds(w, FailTx(p, w, worker), k, if RecordsFailure(w, FailArchive(worker), k) then 1 else 0)
  {
    assert SegmentSound(p, w, w.segments[k]);
  }

  /** What any step makes of the attempts of a segment. */
  lemma StepCountsAttempts(p: Platform, w: World, step: Step, k: nat)
    requires ArchiveSound(p, w) && DistinctIds(w.segments) && UniqueKeys(w.rows) && SegmentsHaveRows(w.segments)
    requires k < |w.segments|
    ensures Adds(w, Apply(p, w, step), k, if RecordsFailure(w, step, k) then 1 else 0)
  {
    hide ArchiveSound, DistinctIds, UniqueKeys, SegmentsHaveRows, ClaimTx, CommitTx, FailTx, InsertTx, BackfillTx, SealTx, CheckTx,
         CreateHoldTx, ReleaseHoldTx, CleanupTx;
    match step
    case ClaimArchive(worker, id, now) => ClaimAddsNone(p, w, worker, id, now, k);
    case CommitArchive(worker, now) => CommitAddsNone(p, w, worker, now, k);
    case FailArchive(worker) => FailAddsOne(p, w, worker, k);
    case _ => UntouchedSegment(p, w, step, k);
  }

  lemma NewSegmentIsUntried(p: Platform, w: World, step: Step, k: nat)
    requires UniqueKeys(w.rows) && SegmentsHaveRows(w.segments) && |w.segments| <= k < |Apply(p, w, step).segments|
    ensures Apply(p, w, step).segments[k].archive.attempts == 0 && Apply(p, w, step).segments[k].archive.status == Pending
    ensures !RecordsFailure(w, step, k) && ArchivedOnce(Apply(p, w, step).segments[k]) == 0
  {
    hide RowsToSeal;
  }

  lemma {:induction false} NoFailuresYet(ws: seq<World>, steps: seq<Step>, k: nat, j: nat)
    requires j <= |steps| < |ws| && forall i :: 0 <= i < j ==> |ws[i].segments| <= k
    ensures Failures(ws, steps, k, j) == 0
  {
    if j > 0 {
      NoFailuresYet(ws, steps, k, j - 1);
    }
  }

  lemma SegmentsOnlyGrow(p: Platform, w: World, step: Step)
    requires UniqueKeys(w.rows) && SegmentsHaveRows(w.segments)
    ensures |w.segments| <= |Apply(p, w, step).segments|
  {
    hide RowsToSeal;
  }

  lemma {:induction false} SegmentsGrewTo(p: Platform, ws: seq<World>, steps: seq<Step>, i: nat, j: nat)
    requires Run(p, ws, steps) && i <= j < |ws|
    ensures |ws[i].segments| <= |ws[j].segments|
    decreases j
  {
    hide Initial, Safe, Apply, Admissible, UniqueKeys, SegmentsHaveRows;
    if i < j {
      SegmentsGrewTo(p, ws, steps, i, j - 1);
      RunsAreSafe(p, ws, steps, j - 1);
      SafeIsWellFormed(p, ws[j - 1]);
      assert Next(p, ws[j - 1], steps[j - 1], ws[j - 1 + 1]);
      SegmentsOnlyGrow(p, ws[j - 1], steps[j - 1]);
    }
  }

  /** What holds at each step of a run. */
  lemma RunStep(p: Platform, ws: seq<World>, steps: seq<Step>, i: nat)
    requires Run(p, ws, steps) && i < |steps|
    ensures UniqueKeys(ws[i].rows) && SegmentsHaveRows(ws[i].segments) && DistinctIds(ws[i].segments) && ArchiveSound(p, ws[i])
    ensures ws[i + 1] == Apply(p, ws[i], steps[i])
  {
    hide Initial, Safe, Apply, Admissible, UniqueKeys, SegmentsHaveRows, ArchiveSound, DistinctIds;
    RunsAreSafe(p, ws, steps, i);
    SafeIsWellFormed(p, ws[i]);
    SafeSegmentsHaveDistinctIds(p, ws[i]);
    RunsAreArchiveSound(p, ws, steps, i);
    assert Next(p, ws[i], steps[i], ws[i + 1]);
  }

  lemma NoFailuresBefore(p: Platform, ws: seq<World>, steps: seq<Step>, k: nat, j: nat)
    requires Run(p, ws, steps) && j < |ws| && |ws[j].segments| <= k
    ensures Failures(ws, steps, k, j) == 0
  {
    hide Initial, Next;
    forall i | 0 <= i < j ensures |ws[i].segments| <= k {
      SegmentsGrewTo(p, ws, steps, i, j);
    }
    NoFailuresYet(ws, steps, k, j);
  }

  /** Over every run the attempts of a segment are its recorded failures, and one more once it is archived. */
  lemma {:induction false} AttemptsAreFailuresAndArchiving(p: Platform, ws: seq<World>, steps: seq<Step>, j: nat, k: nat)
    requires Run(p, ws, steps) && j < |ws| && k < |ws[j].segments|
    ensures ws[j].segments[k].archive.attempts == Failures(ws, steps, k, j) + ArchivedOnce(ws[j].segments[k])
  {
    if j > 0 {
      hide Initial, Next, Apply, UniqueKeys, SegmentsHaveRows, ArchiveSound, DistinctIds, RecordsFailure, ArchivedOnce;
      var w := ws[j - 1];
      RunStep(p, ws, steps, j - 1);
      if k < |w.segments| {
        AttemptsAreFailuresAndArchiving(p, ws, steps, j - 1, k);
        StepCountsAttempts(p, w, steps[j - 1], k);
      } else {
        NewSegmentIsUntried(p, w, steps[j - 1], k);
        NoFailuresBefore(p, ws, steps, k, j - 1);
      }
    }
  }

  /** No step changes a segment whose attempts are used up. */
  lemma ExhaustedIsLeftAlone(p: Platform, w: World, step: Step, k: nat)
    requires ArchiveSound(p, w) && DistinctIds(w.segments) && UniqueKeys(w.rows) && SegmentsHaveRows(w.segments)
    requires k < |w.segments| && w.segments[k].archive.attempts == p.maxAttempts
    ensures k < |Apply(p, w, step).segments| && Apply(p, w, step).segments[k] == w.segments[k]
  {
    var s := w.segments[k];
    assert s in w.segments && SegmentSound(p, w, s);
    hide ArchiveSound, RowsToSeal;
    if step.ClaimArchive? && Find(w.segments, step.segmentId).Some? && s.seal.id == step.segmentId {
      assert Find(w.segments, step.segmentId).value == s;
    }
  }

  /** So retries end: with as many recorded failures as there may be attempts, a segment stays failed for good. */
  lemma {:induction false} RetriesEnd(p: Platform, ws: seq<World>, steps: seq<Step>, i: nat, j: nat, k: nat)
    requires Run(p, ws, steps) && i <= j < |ws| && k < |ws[i].segments| && Failures(ws, steps, k, i) >= p.maxAttempts
    ensures Failures(ws, steps, k, i) == p.maxAttempts
    ensures k < |ws[j].segments| && ws[j].segments[k] == ws[i].segments[k] && ws[j].segments[k].archive.status != Archived
    ensures forall now :: !MayBeClaimed(p, ws[j].segments[k], now)
    decreases j
  {
    hide Initial, Safe, Apply, Admissible, UniqueKeys, SegmentsHaveRows, DistinctIds;
    AttemptsAreFailuresAndArchiving(p, ws, steps, i, k);
    RunsAreArchiveSound(p, ws, steps, i);
    assert SegmentSound(p, ws[i], ws[i].segments[k]);
    if i < j {
      var w := ws[j - 1];
      RetriesEnd(p, ws, steps, i, j - 1, k);
      RunStep(p, ws, steps, j - 1);
      ExhaustedIsLeftAlone(p, w, steps[j - 1], k);
    }
  }
}
