/**
 The audit tables, the object store and the archive workers as one state, and every
 transaction on them as one atomic step. A step that the platform answers with an error
 leaves the state as it is. The ledger records each row when it gets its hash and never
 forgets one; no transaction reads it.
 */
module AuditWorld {
  import opened Options
  import opened AuditRows
  import opened AuditTable
  import opened AuditSealing

  // ----- state -----

  datatype ArchiveStatus = Pending | Archiving | Archived | Failed

  datatype Archive = Archive(status: ArchiveStatus, attempts: nat, startedAt: Option<int>,
                             verifiedAt: Option<int>, retentionUntil: Option<int>, objectRef: Option<Uuid>)

  datatype Segment = Segment(seal: Seal, archive: Archive)

  /** The scope of a legal hold; a segment is named by the text the caller sent. */
  datatype Scope = TenantScope | SegmentScope(scopeId: string) | ResourceScope(resourceType: string, scopeId: string)

  datatype Hold = Hold(id: Uuid, tenantId: Uuid, scope: Scope, active: bool)

  /** A range partition of `audit_logs`: the rows with `lo <= created_at < hi`. */
  datatype Partition = Partition(lo: int, hi: int)

  /** What `audit_segment_object_key` renders: tenant, date of sealing and segment id. */
  datatype ObjectKey = ObjectKey(tenantId: Uuid, sealedAt: int, segmentId: Uuid)

  datatype ObjectRef = ObjectRef(key: ObjectKey, contentHash: string)

  /** An archive worker between its claim and its last update; `Written` has put an object and not read it back yet. */
  datatype Worker =
    | Claimed(segmentId: Uuid, objectRef: Option<Uuid>)
    | Written(segmentId: Uuid)
    | Checked(segmentId: Uuid, refId: Uuid)

  datatype World = World(
    rows: set<Row>,
    identities: set<Uuid>,
    segments: seq<Segment>,
    holds: set<Hold>,
    partitions: map<string, Partition>,
    objectRefs: map<Uuid, ObjectRef>,
    objects: map<ObjectKey, string>,
    workers: map<nat, Worker>,
    ledger: seq<Row>)

  datatype Platform = Platform(
    hash: RowHasher,
    sha: Digest,
    evidence: Seal -> string,
    maxAttempts: nat,
    minimumAge: int,
    retention: int,
    staleAfter: int)

  function Seals(segments: seq<Segment>): (s: seq<Seal>)
    ensures |s| == |segments|
    ensures forall i :: 0 <= i < |s| ==> s[i] == segments[i].seal
  {
    seq(|segments|, i requires 0 <= i < |segments| => segments[i].seal)
  }

  predicate Listed(s: Seal, id: Uuid) {
    exists m :: m in s.rows && m.id == id
  }

  function KeyOf(s: Seal): (k: ObjectKey) {
    ObjectKey(s.tenantId, s.sealedAt, s.id)
  }

  // ----- rows -----

  function InsertTx(p: Platform, w: World, e: Entry, id: Uuid, now: int): (w': World)
    requires UniqueKeys(w.rows)
  {
    var r := NewRow(p.hash, w.rows, e, id, now);
    w.(rows := w.rows + {r}, identities := w.identities + {id}, ledger := w.ledger + [r])
  }

  /** The refusal of a backfill: the tenant has hashed rows or sealed segments already. */
  predicate RequiresOfflineRechain(rows: set<Row>, seals: seq<Seal>, tenant: Uuid) {
    HashedRows(rows, tenant) != {} || exists s :: s in seals && s.tenantId == tenant
  }

  function BackfillTx(p: Platform, w: World, tenant: Uuid): (w': World)
    requires UniqueKeys(w.rows)
  {
    if RequiresOfflineRechain(w.rows, Seals(w.segments), tenant) then w
    else w.(rows := BackfilledRows(p.hash, w.rows, tenant),
            ledger := w.ledger + LinkUp(p.hash, SortByKey(UnhashedRows(w.rows, tenant)), None))
  }

  // ----- segments -----

  predicate SegmentsHaveRows(segments: seq<Segment>) {
    forall i :: 0 <= i < |segments| ==> NonEmpty(segments[i].seal)
  }

  function NewSeal(tenant: Uuid, id: Uuid, now: int, rows: seq<Row>): (s: Seal)
    requires AllHashed(rows)
  {
    Seal(id, tenant, Manifest(rows), now)
  }

  /** Whether object storage takes part in a seal. */
  datatype Storage = Disabled | Enabled(refId: Uuid) | Unavailable

  function SealTx(p: Platform, w: World, tenant: Uuid, id: Uuid, now: int, maxRows: nat, storage: Storage): (w': World)
    requires SegmentsHaveRows(w.segments)
  {
    match RowsToSeal(p.hash, w.rows, Seals(w.segments), tenant, maxRows)
    case Err(_) => w
    case Ok(rows) =>
      var s := NewSeal(tenant, id, now, rows);
      match storage
      case Unavailable => w
      case Disabled => w.(segments := w.segments + [Segment(s, Archive(Pending, 0, None, None, None, None))])
      case Enabled(refId) =>
        w.(segments := w.segments + [Segment(s, Archive(Pending, 0, None, None, None, Some(refId)))],
           objectRefs := w.objectRefs[refId := ObjectRef(KeyOf(s), p.sha(p.evidence(s)))],
           objects := w.objects[KeyOf(s) := p.evidence(s)])
  }

  // ----- archive worker -----

  /** `UPDATE audit_hash_chain_segments SET ... WHERE id = $1` */
  function UpdateArchive(segments: seq<Segment>, id: Uuid, f: Archive -> Archive): (s: seq<Segment>)
    ensures |s| == |segments|
    ensures forall i :: 0 <= i < |s| ==>
      s[i] == if segments[i].seal.id == id then segments[i].(archive := f(segments[i].archive)) else segments[i]
  {
    seq(|segments|, i requires 0 <= i < |segments| =>
      if segments[i].seal.id == id then segments[i].(archive := f(segments[i].archive)) else segments[i])
  }

  /** The segment an update or a lookup by id finds. */
  function Find(segments: seq<Segment>, id: Uuid): (s: Option<Segment>)
    ensures s.Some? ==> s.value in segments && s.value.seal.id == id
    ensures s == None ==> forall x :: x in segments ==> x.seal.id != id
  {
    if segments == [] then None
    else if segments[0].seal.id == id then Some(segments[0])
    else Find(segments[1..], id)
  }

  predicate ClaimableBy(p: Platform, s: Segment, now: int) {
    && (s.archive.status == Pending || s.archive.status == Failed
        || (s.archive.status == Archiving && s.archive.startedAt.Some? && s.archive.startedAt.value < now - p.staleAfter))
    && s.archive.attempts < p.maxAttempts
    && s.seal.sealedAt <= now - p.minimumAge
  }

  function MarkClaimed(now: int): (f: Archive -> Archive) {
    (a: Archive) => a.(status := Archiving, startedAt := Some(now))
  }

  function ClaimTx(p: Platform, w: World, worker: nat, id: Uuid, now: int): (w': World) {
    match Find(w.segments, id)
    case None => w
    case Some(s) =>
      if ClaimableBy(p, s, now) then
        w.(segments := UpdateArchive(w.segments, id, MarkClaimed(now)),
           workers := w.workers[worker := Claimed(id, s.archive.objectRef)])
      else w
  }

  /**
   The part of `archive_segment` before its last update, request by request: an existing object is read and its hash
   compared; a missing one is put, and in a second step read back, compared and referenced. `None` is an error.
   */
  function CheckEvidence(p: Platform, w: World, s: Seal, worker: Worker, storage: Storage): (w': Option<(World, Worker)>) {
    match worker
    case Claimed(_, Some(refId)) =>
      if && refId in w.objectRefs
         && w.objectRefs[refId].key in w.objects
         && p.sha(w.objects[w.objectRefs[refId].key]) == w.objectRefs[refId].contentHash
         && p.sha(w.objects[w.objectRefs[refId].key]) == p.sha(p.evidence(s))
      then Some((w, Checked(s.id, refId))) else None
    case Claimed(_, None) =>
      if storage.Enabled? then Some((w.(objects := w.objects[KeyOf(s) := p.evidence(s)]), Written(s.id))) else None
    case Written(_) =>
      if storage.Enabled? && KeyOf(s) in w.objects && p.sha(w.objects[KeyOf(s)]) == p.sha(p.evidence(s)) then
        Some((w.(objectRefs := w.objectRefs[storage.refId := ObjectRef(KeyOf(s), p.sha(p.evidence(s)))]), Checked(s.id, storage.refId)))
      else None
    case Checked(_, _) => None
  }

  function CheckTx(p: Platform, w: World, worker: nat, storage: Storage): (w': World) {
    if worker !in w.workers then w
    else
      match Find(w.segments, w.workers[worker].segmentId)
      case None => w
      case Some(s) =>
        match CheckEvidence(p, w, s.seal, w.workers[worker], storage)
        case None => w
        case Some((w1, phase)) => w1.(workers := w1.workers[worker := phase])
  }

  /** `SET archive_status = 'archived' ... WHERE archive_status = 'archiving'` */
  function MarkArchived(refId: Uuid, now: int, retentionUntil: int): (f: Archive -> Archive) {
    (a: Archive) =>
      if a.status == Archiving then
        a.(objectRef := Some(refId), status := Archived, attempts := a.attempts + 1,
           verifiedAt := Some(now), retentionUntil := Some(retentionUntil))
      else a
  }

  function CommitTx(p: Platform, w: World, worker: nat, now: int): (w': World) {
    if worker !in w.workers || !w.workers[worker].Checked? then w
    else
      var Checked(id, refId) := w.workers[worker];
      match Find(w.segments, id)
      case None => w
      case Some(s) =>
        w.(segments := UpdateArchive(w.segments, id, MarkArchived(refId, now, s.seal.sealedAt + p.retention)),
           workers := w.workers - {worker})
  }

  function Min(a: nat, b: nat): (m: nat) { if a <= b then a else b }

  /** `SET archive_status = 'failed' ... WHERE archive_status = 'archiving'` */
  function MarkFailed(maxAttempts: nat): (f: Archive -> Archive) {
    (a: Archive) =>
      if a.status == Archiving then
        a.(status := Failed, attempts := Min(a.attempts + 1, maxAttempts), startedAt := None)
      else a
  }

  function FailTx(p: Platform, w: World, worker: nat): (w': World) {
    if worker !in w.workers then w
    else w.(segments := UpdateArchive(w.segments, w.workers[worker].segmentId, MarkFailed(p.maxAttempts)),
            workers := w.workers - {worker})
  }

  // ----- legal holds and partition cleanup -----

  /** One active hold per scope, as the unique index demands. */
  function CreateHoldTx(w: World, h: Hold): (w': World) {
    if exists x :: x in w.holds && x.active && x.tenantId == h.tenantId && x.scope == h.scope then w
    else w.(holds := w.holds + {h})
  }

  function ReleaseHoldTx(w: World, tenant: Uuid, id: Uuid): (w': World) {
    w.(holds := set h | h in w.holds :: if h.id == id && h.tenantId == tenant then h.(active := false) else h)
  }

  /** The three ways a hold blocks a candidate row inside its covering segment. */
  predicate HoldBlocks(h: Hold, covering: Seal, r: Row) {
    && h.tenantId == covering.tenantId
    && h.active
    && match h.scope
       case TenantScope => true
       case SegmentScope(scopeId) => scopeId == UuidText(covering.id)
       case ResourceScope(resourceType, scopeId) => resourceType == r.entry.resourceType && scopeId == r.entry.resourceId
  }

  predicate CoversForCleanup(w: World, s: Segment, r: Row, now: int) {
    && s.seal.tenantId == r.entry.tenantId
    && s.archive.status == Archived
    && s.archive.verifiedAt.Some?
    && s.archive.retentionUntil.Some? && s.archive.retentionUntil.value <= now
    && Listed(s.seal, r.id)
    && !exists h :: h in w.holds && HoldBlocks(h, s.seal, r)
  }

  predicate InPartition(part: Partition, r: Row) {
    part.lo <= r.createdAt < part.hi
  }

  function RowsOutside(rows: set<Row>, part: Partition): (s: set<Row>) {
    set r | r in rows && !InPartition(part, r)
  }

  /** `PARTITION_CONTAINS_INELIGIBLE_SQL` */
  predicate ContainsIneligible(w: World, part: Partition, now: int) {
    exists r :: r in w.rows && InPartition(part, r)
             && !exists i :: 0 <= i < |w.segments| && CoversForCleanup(w, w.segments[i], r, now)
  }

  /** The cleanup transaction under its table lock: old enough, nothing ineligible, then detach and drop. */
  function CleanupTx(w: World, name: string, now: int, monthStart: int): (w': World) {
    if name !in w.partitions then w
    else
      var part := w.partitions[name];
      if part.hi > monthStart || ContainsIneligible(w, part, now) then w
      else w.(rows := RowsOutside(w.rows, part), partitions := w.partitions - {name})
  }

  // ----- steps -----

  datatype Step =
    | Insert(entry: Entry, id: Uuid, now: int)
    | Backfill(tenant: Uuid)
    | SealNext(tenant: Uuid, segmentId: Uuid, now: int, maxRows: nat, storage: Storage)
    | ClaimArchive(worker: nat, segmentId: Uuid, now: int)
    | CheckArchive(worker: nat, storage: Storage)
    | CommitArchive(worker: nat, now: int)
    | FailArchive(worker: nat)
    | CrashWorker(worker: nat)
    | AlterObject(key: ObjectKey, content: Option<string>)
    | CreateHold(hold: Hold)
    | ReleaseHold(tenant: Uuid, holdId: Uuid)
    | AddPartition(name: string, part: Partition)
    | Cleanup(name: string, now: int, monthStart: int)

  function Apply(p: Platform, w: World, step: Step): (w': World)
    requires UniqueKeys(w.rows) && SegmentsHaveRows(w.segments)
  {
    match step
    case Insert(e, id, now) => InsertTx(p, w, e, id, now)
    case Backfill(tenant) => BackfillTx(p, w, tenant)
    case SealNext(tenant, id, now, maxRows, storage) => SealTx(p, w, tenant, id, now, maxRows, storage)
    case ClaimArchive(worker, id, now) => ClaimTx(p, w, worker, id, now)
    case CheckArchive(worker, storage) => CheckTx(p, w, worker, storage)
    case CommitArchive(worker, now) => CommitTx(p, w, worker, now)
    case FailArchive(worker) => FailTx(p, w, worker)
    case CrashWorker(worker) => w.(workers := w.workers - {worker})
    case AlterObject(key, content) =>
      w.(objects := if content.Some? then w.objects[key := content.value] else w.objects - {key})
    case CreateHold(hold) => CreateHoldTx(w, hold)
    case ReleaseHold(tenant, id) => ReleaseHoldTx(w, tenant, id)
    case AddPartition(name, part) => w.(partitions := w.partitions[name := part])
    case Cleanup(name, now, monthStart) => CleanupTx(w, name, now, monthStart)
  }

  /**
   What the platform may rely on: fresh UUIDs, a clock that does not repeat an earlier sealing
   time of the tenant, and an object store that keeps what a worker has read back.
   */
  ghost predicate Admissible(w: World, step: Step) {
    match step
    case Insert(_, id, _) => id !in w.identities
    case SealNext(tenant, id, now, _, storage) =>
      && (forall s :: s in w.segments ==> s.seal.id != id)
      && (forall s :: s in w.segments && s.seal.tenantId == tenant ==> s.seal.sealedAt < now)
      && (storage.Enabled? ==> storage.refId !in w.objectRefs)
    case CheckArchive(_, storage) => storage.Enabled? ==> storage.refId !in w.objectRefs
    case ClaimArchive(worker, _, _) => worker !in w.workers
    case AlterObject(key, _) =>
      && (forall s :: s in w.segments && s.archive.status == Archived ==> KeyOf(s.seal) != key)
      && (forall n, s :: n in w.workers && w.workers[n].Checked? && s in w.segments && s.seal.id == w.workers[n].segmentId
            ==> KeyOf(s.seal) != key)
    case _ => true
  }
}
