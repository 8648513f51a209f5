/**
 The archive worker's state machine: claims without a token, slow workers, stale re-claims,
 crashes and failed checks, interleaved with every other step on the audit tables.
 */
module AuditArchiving {
  import opened Options
  import opened AuditRows
  import opened AuditTable
  import opened AuditSealing
  import opened AuditWorld
  import opened AuditSafety

  /** The object reference belongs to this segment and carries the hash of its evidence. */
  ghost predicate RefersTo(p: Platform, w: World, refId: Uuid, s: Seal) {
    refId in w.objectRefs && w.objectRefs[refId] == ObjectRef(KeyOf(s), p.sha(p.evidence(s)))
  }

  /** The object store holds bytes that hash like the segment's evidence. */
  ghost predicate Stored(p: Platform, w: World, s: Seal) {
    KeyOf(s) in w.objects && p.sha(w.objects[KeyOf(s)]) == p.sha(p.evidence(s))
  }

  ghost predicate SegmentSound(p: Platform, w: World, s: Segment) {
    && s.archive.attempts <= p.maxAttempts
    && (s.archive.status == Archiving ==> s.archive.attempts < p.maxAttempts)
    && (s.archive.objectRef.Some? ==> RefersTo(p, w, s.archive.objectRef.value, s.seal))
    && (s.archive.status == Archived ==>
          && s.archive.verifiedAt.Some?
          && s.archive.retentionUntil == Some(s.seal.sealedAt + p.retention)
          && s.archive.objectRef.Some?
          && Stored(p, w, s.seal))
  }

  ghost predicate WorkerSound(p: Platform, w: World, worker: Worker) {
    exists s :: s in w.segments && s.seal.id == worker.segmentId
             && match worker
                case Claimed(_, objectRef) => objectRef.Some? ==> RefersTo(p, w, objectRef.value, s.seal)
                case Written(_) => true
                case Checked(_, refId) => RefersTo(p, w, refId, s.seal) && Stored(p, w, s.seal)
  }

  ghost predicate ArchiveSound(p: Platform, w: World) {
    && (forall s :: s in w.segments ==> SegmentSound(p, w, s))
    && (forall n :: n in w.workers ==> WorkerSound(p, w, w.workers[n]))
  }

  ghost predicate DistinctIds(segments: seq<Segment>) {
    forall s, t :: s in segments && t in segments && s.seal.id == t.seal.id ==> s == t
  }

  lemma SafeSegmentsHaveDistinctIds(p: Platform, w: World)
    requires Safe(p, w)
    ensures DistinctIds(w.segments)
  {
    var seals := Seals(w.segments);
    forall s, t | s in w.segments && t in w.segments && s.seal.id == t.seal.id ensures s == t {
      var i :| 0 <= i < |w.segments| && w.segments[i] == s;
      var j :| 0 <= j < |w.segments| && w.segments[j] == t;
      assert seals[i].id == seals[j].id;
    }
  }

  // ----- growth of references and objects -----

  /** Every reference stays, and every stored evidence of these segments stays. */
  ghost predicate Keeps(p: Platform, w: World, w': World) {
    && (forall r :: r in w.objectRefs ==> r in w'.objectRefs && w'.objectRefs[r] == w.objectRefs[r])
    && (forall s :: s in w.segments && Stored(p, w, s.seal) ==> Stored(p, w', s.seal))
  }

  lemma KeepsSegmentSound(p: Platform, w: World, w': World, s: Segment)
    requires Keeps(p, w, w') && s in w.segments && SegmentSound(p, w, s)
    ensures SegmentSound(p, w', s)
  {
  }

  lemma KeepsWorkerSound(p: Platform, w: World, w': World, worker: Worker)
    requires Keeps(p, w, w') && WorkerSound(p, w, worker)
    requires forall s :: s in w.segments ==> exists s' :: s' in w'.segments && s'.seal == s.seal
    ensures WorkerSound(p, w', worker)
  {
    var s :| s in w.segments && s.seal.id == worker.segmentId
          && match worker
             case Claimed(_, objectRef) => objectRef.Some? ==> RefersTo(p, w, objectRef.value, s.seal)
             case Written(_) => true
             case Checked(_, refId) => RefersTo(p, w, refId, s.seal) && Stored(p, w, s.seal);
    var s' :| s' in w'.segments && s'.seal == s.seal;
    assert s'.seal.id == worker.segmentId;
  }

  // ----- one transaction at a time -----

  /** A seal adds one pending segment, whose object, if it has one, holds its evidence. */
  lemma SealAddsPending(p: Platform, w: World, tenant: Uuid, id: Uuid, now: int, maxRows: nat, storage: Storage)
    requires SegmentsHaveRows(w.segments) && Admissible(w, SealNext(tenant, id, now, maxRows, storage))
    ensures var w' := SealTx(p, w, tenant, id, now, maxRows, storage);
            w' != w ==> && |w'.segments| == |w.segments| + 1 && w'.segments[..|w.segments|] == w.segments
                        && w'.segments[|w.segments|].archive.status == Pending
                        && w'.segments[|w.segments|].archive.attempts == 0
                        && (w'.segments[|w.segments|].archive.objectRef.Some? ==>
                              RefersTo(p, w', w'.segments[|w.segments|].archive.objectRef.value, w'.segments[|w.segments|].seal))
                        && Keeps(p, w, w') && w'.workers == w.workers
  {
    hide RowsToSeal;
  }

  lemma SealKeepsSound(p: Platform, w: World, step: Step)
    requires ArchiveSound(p, w) && SegmentsHaveRows(w.segments) && step.SealNext? && Admissible(w, step)
    ensures ArchiveSound(p, SealTx(p, w, step.tenant, step.segmentId, step.now, step.maxRows, step.storage))
  {
    hide SealTx, Keeps, Stored, RefersTo, SegmentSound, WorkerSound;
    var w' := SealTx(p, w, step.tenant, step.segmentId, step.now, step.maxRows, step.storage);
    SealAddsPending(p, w, step.tenant, step.segmentId, step.now, step.maxRows, step.storage);
    if w' != w {
      hide Admissible;
      var added := w'.segments[|w.segments|];
      assert w'.segments == w.segments + [added];
      PendingIsSound(p, w', added);
      forall s | s in w'.segments ensures SegmentSound(p, w', s) {
        if s in w.segments {
          KeepsSegmentSound(p, w, w', s);
        }
      }
      forall n | n in w'.workers ensures WorkerSound(p, w', w'.workers[n]) {
        KeepsWorkerSound(p, w, w', w.workers[n]);
      }
    }
  }

  lemma PendingIsSound(p: Platform, w: World, s: Segment)
    requires s.archive.status == Pending && s.archive.attempts == 0
    requires s.archive.objectRef.Some? ==> RefersTo(p, w, s.archive.objectRef.value, s.seal)
    ensures SegmentSound(p, w, s)
  {
  }

  /** An update of one segment's archive columns keeps soundness if it does so for that segment. */
  lemma UpdateKeepsSound(p: Platform, w: World, id: Uuid, f: Archive -> Archive, workers: map<nat, Worker>)
    requires ArchiveSound(p, w)
    requires forall s :: s in w.segments && s.seal.id == id ==> SegmentSound(p, w, s.(archive := f(s.archive)))
    requires forall n :: n in workers ==> WorkerSound(p, w, workers[n])
    ensures ArchiveSound(p, w.(segments := UpdateArchive(w.segments, id, f), workers := workers))
  {
    var segments := UpdateArchive(w.segments, id, f);
    var w' := w.(segments := segments, workers := workers);
    forall s' | s' in segments ensures SegmentSound(p, w', s') {
      var i :| 0 <= i < |segments| && segments[i] == s';
      assert w.segments[i] in w.segments;
      assert SegmentSound(p, w, s');
    }
    assert Keeps(p, w, w');
    forall s | s in w.segments ensures exists s' :: s' in segments && s'.seal == s.seal {
      var i :| 0 <= i < |w.segments| && w.segments[i] == s;
      assert segments[i] in segments;
    }
    forall n | n in workers ensures WorkerSound(p, w', workers[n]) {
      KeepsWorkerSound(p, w, w', workers[n]);
    }
  }

  lemma ClaimKeepsSound(p: Platform, w: World, worker: nat, id: Uuid, now: int)
    requires ArchiveSound(p, w) && DistinctIds(w.segments)
    ensures ArchiveSound(p, ClaimTx(p, w, worker, id, now))
  {
    var found := Find(w.segments, id);
    if found.Some? && ClaimableBy(p, found.value, now) {
      var s := found.value;
      assert SegmentSound(p, w, s);
      var workers := w.workers[worker := Claimed(id, s.archive.objectRef)];
      forall n | n in workers ensures WorkerSound(p, w, workers[n]) {
        if n != worker {
          assert WorkerSound(p, w, w.workers[n]);
        }
      }
      UpdateKeepsSound(p, w, id, MarkClaimed(now), workers);
    }
  }

  /** A step of a check leaves a worker that has written, or that holds a reference to stored evidence of its segment. */
  lemma CheckShape(p: Platform, w: World, worker: nat, storage: Storage) returns (s: Segment, phase: Worker)
    requires ArchiveSound(p, w) && DistinctIds(w.segments)
    requires storage.Enabled? ==> storage.refId !in w.objectRefs
    requires CheckTx(p, w, worker, storage) != w
    ensures var w' := CheckTx(p, w, worker, storage);
            && s in w.segments && w'.segments == w.segments && Keeps(p, w, w')
            && w'.workers == w.workers[worker := phase] && phase.segmentId == s.seal.id
            && (phase.Written? || (phase.Checked? && RefersTo(p, w', phase.refId, s.seal) && Stored(p, w', s.seal)))
  {
    hide SegmentSound;
    var c := w.workers[worker];
    assert WorkerSound(p, w, c);
    s := Find(w.segments, c.segmentId).value;
    phase := CheckEvidence(p, w, s.seal, c, storage).value.1;
  }

  lemma CheckKeepsSound(p: Platform, w: World, worker: nat, storage: Storage)
    requires ArchiveSound(p, w) && DistinctIds(w.segments)
    requires storage.Enabled? ==> storage.refId !in w.objectRefs
    ensures ArchiveSound(p, CheckTx(p, w, worker, storage))
  {
    hide CheckTx, Keeps, Stored, RefersTo, SegmentSound, DistinctIds;
    var w' := CheckTx(p, w, worker, storage);
    if w' != w {
      var s, phase := CheckShape(p, w, worker, storage);
      forall x | x in w'.segments ensures SegmentSound(p, w', x) {
        KeepsSegmentSound(p, w, w', x);
      }
      forall n | n in w'.workers ensures WorkerSound(p, w', w'.workers[n]) {
        if n == worker {
          assert s.seal.id == w'.workers[n].segmentId;
        } else {
          KeepsWorkerSound(p, w, w', w.workers[n]);
        }
      }
    }
  }

  lemma CommitKeepsSound(p: Platform, w: World, worker: nat, now: int)
    requires ArchiveSound(p, w) && DistinctIds(w.segments)
    ensures ArchiveSound(p, CommitTx(p, w, worker, now))
  {
    hide ArchiveSound, SegmentSound, DistinctIds;
    if worker in w.workers && w.workers[worker].Checked? {
      var Checked(id, refId) := w.workers[worker];
      var found := Find(w.segments, id);
      if found.Some? {
        var s := found.value;
        CheckedMayArchive(p, w, worker, now);
        UpdateKeepsSound(p, w, id, MarkArchived(refId, now, s.seal.sealedAt + p.retention), w.workers - {worker});
      }
    }
  }

  lemma CheckedMayArchive(p: Platform, w: World, worker: nat, now: int)
    requires ArchiveSound(p, w) && DistinctIds(w.segments) && worker in w.workers && w.workers[worker].Checked?
    requires Find(w.segments, w.workers[worker].segmentId).Some?
    ensures var Checked(id, refId) := w.workers[worker];
            var f := MarkArchived(refId, now, Find(w.segments, id).value.seal.sealedAt + p.retention);
            && (forall s :: s in w.segments && s.seal.id == id ==> SegmentSound(p, w, s.(archive := f(s.archive))))
            && forall n :: n in w.workers - {worker} ==> WorkerSound(p, w, w.workers[n])
  {
    var Checked(id, refId) := w.workers[worker];
    assert WorkerSound(p, w, w.workers[worker]);
    var s := Find(w.segments, id).value;
    assert SegmentSound(p, w, s);
  }

  lemma FailKeepsSound(p: Platform, w: World, worker: nat)
    requires ArchiveSound(p, w)
    ensures ArchiveSound(p, FailTx(p, w, worker))
  {
    if worker in w.workers {
      forall s | s in w.segments
        ensures SegmentSound(p, w, s.(archive := MarkFailed(p.maxAttempts)(s.archive)))
      {
        assert SegmentSound(p, w, s);
      }
      hide SegmentSound, WorkerSound;
      UpdateKeepsSound(p, w, w.workers[worker].segmentId, MarkFailed(p.maxAttempts), w.workers - {worker});
    }
  }

  lemma AlterKeepsSound(p: Platform, w: World, step: Step)
    requires ArchiveSound(p, w) && DistinctIds(w.segments) && step.AlterObject? && Admissible(w, step)
    requires UniqueKeys(w.rows) && SegmentsHaveRows(w.segments)
    ensures ArchiveSound(p, Apply(p, w, step))
  {
    var w' := Apply(p, w, step);
    forall s | s in w'.segments ensures SegmentSound(p, w', s) {
      assert SegmentSound(p, w, s);
    }
    forall n | n in w'.workers ensures WorkerSound(p, w', w'.workers[n]) {
      assert WorkerSound(p, w, w.workers[n]);
    }
  }

  lemma FrameKeepsSound(p: Platform, w: World, w': World)
    requires ArchiveSound(p, w)
    requires w'.segments == w.segments && w'.objectRefs == w.objectRefs && w'.objects == w.objects
    requires forall n :: n in w'.workers ==> n in w.workers && w'.workers[n] == w.workers[n]
    ensures ArchiveSound(p, w')
  {
    forall s | s in w'.segments ensures SegmentSound(p, w', s) {
      KeepsSegmentSound(p, w, w', s);
    }
    forall n | n in w'.workers ensures WorkerSound(p, w', w'.workers[n]) {
      KeepsWorkerSound(p, w, w', w.workers[n]);
    }
  }

  lemma ApplyKeepsArchiveSound(p: Platform, w: World, step: Step)
    requires ArchiveSound(p, w) && DistinctIds(w.segments) && Admissible(w, step)
    requires UniqueKeys(w.rows) && SegmentsHaveRows(w.segments)
    ensures ArchiveSound(p, Apply(p, w, step))
  {
    hide ArchiveSound, DistinctIds, SealTx, CheckTx, CommitTx, FailTx, ClaimTx;
    match step
    case SealNext(_, _, _, _, _) => SealKeepsSound(p, w, step);
    case ClaimArchive(worker, id, now) => ClaimKeepsSound(p, w, worker, id, now);
    case CheckArchive(worker, storage) => CheckKeepsSound(p, w, worker, storage);
    case CommitArchive(worker, now) => CommitKeepsSound(p, w, worker, now);
    case FailArchive(worker) => FailKeepsSound(p, w, worker);
    case AlterObject(_, _) => AlterKeepsSound(p, w, step);
    case _ => FrameKeepsSound(p, w, Apply(p, w, step));
  }

  // ----- archived is absorbing -----

  /** No step, whoever takes it, changes the archive columns of an archived segment. */
  lemma ArchivedIsAbsorbing(p: Platform, w: World, step: Step, i: nat)
    requires UniqueKeys(w.rows) && SegmentsHaveRows(w.segments)
    requires i < |w.segments| && w.segments[i].archive.status == Archived && DistinctIds(w.segments)
    ensures i < |Apply(p, w, step).segments| && Apply(p, w, step).segments[i] == w.segments[i]
  {
    if step.ClaimArchive? {
      var found := Find(w.segments, step.segmentId);
      assert w.segments[i] in w.segments;
    }
  }

  // ----- runs -----

  lemma {:induction false} RunsAreArchiveSound(p: Platform, ws: seq<World>, steps: seq<Step>, i: nat)
    requires Run(p, ws, steps) && i < |ws|
    ensures ArchiveSound(p, ws[i])
  {
    if i > 0 {
      RunsAreArchiveSound(p, ws, steps, i - 1);
      RunsAreSafe(p, ws, steps, i - 1);
      SafeIsWellFormed(p, ws[i - 1]);
      SafeSegmentsHaveDistinctIds(p, ws[i - 1]);
      assert Next(p, ws[i - 1], steps[i - 1], ws[i - 1 + 1]);
      ApplyKeepsArchiveSound(p, ws[i - 1], steps[i - 1]);
    }
  }

  /** Once archived, a segment stays exactly as it was archived for the rest of the run. */
  lemma {:induction false} ArchivedForGood(p: Platform, ws: seq<World>, steps: seq<Step>, i: nat, j: nat, k: nat)
    requires Run(p, ws, steps) && i <= j < |ws|
    requires k < |ws[i].segments| && ws[i].segments[k].archive.status == Archived
    ensures k < |ws[j].segments| && ws[j].segments[k] == ws[i].segments[k]
    decreases j
  {
    if i < j {
      ArchivedForGood(p, ws, steps, i, j - 1, k);
      RunsAreSafe(p, ws, steps, j - 1);
      SafeIsWellFormed(p, ws[j - 1]);
      SafeSegmentsHaveDistinctIds(p, ws[j - 1]);
      assert Next(p, ws[j - 1], steps[j - 1], ws[j - 1 + 1]);
      ArchivedIsAbsorbing(p, ws[j - 1], steps[j - 1], k);
    }
  }

  /** So every row a cleanup drops is listed in evidence that the object store holds when it is dropped. */
  lemma DroppedRowsAreArchived(p: Platform, ws: seq<World>, steps: seq<Step>, i: nat, r: Row)
    requires Run(p, ws, steps) && i < |steps| && steps[i].Cleanup? && NoCollisions(ws[i].ledger)
    requires r in ws[i].rows && r !in ws[i + 1].rows
    ensures exists s :: s in ws[i].segments && Listed(s.seal, r.id) && s.seal.tenantId == r.entry.tenantId
                        && s.archive.objectRef.Some? && RefersTo(p, ws[i], s.archive.objectRef.value, s.seal)
                        && Stored(p, ws[i], s.seal)
  {
    var w := ws[i];
    RunsAreSafe(p, ws, steps, i);
    SafeIsWellFormed(p, w);
    RunsAreArchiveSound(p, ws, steps, i);
    assert Next(p, ws[i], steps[i], ws[i + 1]);
    CleanupDropsExactlyReleased(p, w, steps[i].name, steps[i].now, steps[i].monthStart);
    assert Released(w, r, steps[i].now);
    var s :| s in w.segments && s.seal.tenantId == r.entry.tenantId && Listed(s.seal, r.id) && s.archive.status == Archived;
    assert SegmentSound(p, w, s);
  }
}
