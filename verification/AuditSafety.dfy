/**
 What every step on the audit tables keeps, and the theorem this is for: a row leaves the
 table only when a sealed, archived, verified and expired segment lists it and no active hold
 covers it.
 */
module AuditSafety {
  import opened Options
  import opened AuditRows
  import opened AuditTable
  import opened AuditSealing
  import opened AuditWorld

  // ----- invariants -----

  /** Row ids are unique and registered; the ledger holds every hashed row, once. */
  ghost predicate RowsAccounted(hash: RowHasher, rows: set<Row>, identities: set<Uuid>, ledger: seq<Row>) {
    && (forall a, b :: a in rows && b in rows && a.id == b.id ==> a == b)
    && (forall r :: r in rows ==> r.id in identities)
    && (forall r :: r in ledger ==> r.id in identities && r.rowHash.Some? && CorrectlyHashed(hash, r))
    && (forall i, j :: 0 <= i < j < |ledger| ==> ledger[i].id != ledger[j].id)
    && (forall r :: r in rows && r.rowHash.Some? ==> r in ledger)
    && (forall r, x :: r in rows && r.rowHash.None? && x in ledger ==> x.id != r.id)
  }

  /** A tenant's sealed rows in seal order. */
  function Entries(seals: seq<Seal>, tenant: Uuid): (e: seq<ManifestRow>) {
    if seals == [] then []
    else
      var last := seals[|seals| - 1];
      Entries(seals[..|seals| - 1], tenant) + if last.tenantId == tenant then last.rows else []
  }

  /** The hash entry `k` has to continue, when the entries continue from `start`. */
  function HashToContinue(start: Option<string>, e: seq<ManifestRow>, k: nat): (h: Option<string>)
    requires k <= |e|
  {
    if k == 0 then start else Some(e[k - 1].rowHash)
  }

  predicate LinkedFrom(start: Option<string>, e: seq<ManifestRow>) {
    forall i {:trigger HashToContinue(start, e, i)} :: 0 <= i < |e| ==> e[i].prevHash == HashToContinue(start, e, i)
  }

  predicate ManifestLinked(e: seq<ManifestRow>) {
    LinkedFrom(None, e)
  }

  ghost predicate Recorded(ledger: seq<Row>, tenant: Uuid, m: ManifestRow) {
    exists r :: r in ledger && r.rowHash.Some? && r.entry.tenantId == tenant && m == ManifestOf(r)
  }

  ghost predicate SealsOrdered(seals: seq<Seal>) {
    && (forall s :: s in seals ==> NonEmpty(s))
    && (forall i, j :: 0 <= i < j < |seals| ==> seals[i].id != seals[j].id)
    && (forall i, j :: 0 <= i < j < |seals| && seals[i].tenantId == seals[j].tenantId ==> seals[i].sealedAt < seals[j].sealedAt)
  }

  ghost predicate SealsAccounted(seals: seq<Seal>, ledger: seq<Row>) {
    && SealsOrdered(seals)
    && (forall t: Uuid :: ManifestLinked(Entries(seals, t)))
    && (forall s, m :: s in seals && m in s.rows ==> Recorded(ledger, s.tenantId, m))
  }

  ghost predicate Safe(p: Platform, w: World) {
    && RowsAccounted(p.hash, w.rows, w.identities, w.ledger)
    && SealsAccounted(Seals(w.segments), w.ledger)
  }

  /** No two rows that ever got a hash share one, unless their hash inputs are equal. */
  ghost predicate NoCollisions(ledger: seq<Row>) {
    forall a, b :: a in ledger && b in ledger && a.rowHash == b.rowHash ==> HashInput(a) == HashInput(b)
  }

  lemma SafeIsWellFormed(p: Platform, w: World)
    requires Safe(p, w)
    ensures UniqueKeys(w.rows) && SegmentsHaveRows(w.segments)
  {
    forall i | 0 <= i < |w.segments| ensures NonEmpty(w.segments[i].seal) {
      assert Seals(w.segments)[i] in Seals(w.segments);
    }
  }

  // ----- rows and ledger -----

  lemma InsertKeepsRowsAccounted(p: Platform, w: World, e: Entry, id: Uuid, now: int)
    requires UniqueKeys(w.rows) && RowsAccounted(p.hash, w.rows, w.identities, w.ledger) && id !in w.identities
    ensures var w' := InsertTx(p, w, e, id, now);
            RowsAccounted(p.hash, w'.rows, w'.identities, w'.ledger)
  {
  }

  lemma BackfillKeepsRowsAccounted(p: Platform, w: World, tenant: Uuid)
    requires UniqueKeys(w.rows) && RowsAccounted(p.hash, w.rows, w.identities, w.ledger)
    ensures var w' := BackfillTx(p, w, tenant);
            RowsAccounted(p.hash, w'.rows, w'.identities, w'.ledger)
  {
    if !RequiresOfflineRechain(w.rows, Seals(w.segments), tenant) {
      BackfillPairs(p.hash, w.rows, tenant);
      var q := SortByKey(UnhashedRows(w.rows, tenant));
      LinkedRowsAccounted(p.hash, w.rows, w.identities, w.ledger, tenant, q, LinkUp(p.hash, q, None));
    }
  }

  lemma LinkedRowsAccounted(hash: RowHasher, rows: set<Row>, identities: set<Uuid>, ledger: seq<Row>,
                            tenant: Uuid, q: seq<Row>, linked: seq<Row>)
    requires RowsAccounted(hash, rows, identities, ledger)
    requires |q| == |linked| && StrictlySorted(q)
    requires forall r :: r in q <==> r in UnhashedRows(rows, tenant)
    requires forall i :: 0 <= i < |q| ==> SameContent(linked[i], q[i]) && CorrectlyHashed(hash, linked[i])
    ensures RowsAccounted(hash, (rows - UnhashedRows(rows, tenant)) + SeqToSet(linked), identities, ledger + linked)
  {
    forall i | 0 <= i < |linked| ensures q[i] in rows && q[i].rowHash.None? && linked[i].id == q[i].id {
      assert q[i] in q;
    }
    forall i, j | 0 <= i < j < |linked| ensures linked[i].id != linked[j].id {
      assert Before(q[i], q[j]) && q[i] in rows && q[j] in rows;
    }
    forall a, b | a in linked && b in linked && a.id == b.id ensures a == b {
      var i :| 0 <= i < |linked| && linked[i] == a;
      var j :| 0 <= j < |linked| && linked[j] == b;
    }
  }

  lemma ApplyKeepsRowsAccounted(p: Platform, w: World, step: Step)
    requires Safe(p, w) && UniqueKeys(w.rows) && SegmentsHaveRows(w.segments) && Admissible(w, step)
    ensures var w' := Apply(p, w, step); RowsAccounted(p.hash, w'.rows, w'.identities, w'.ledger)
  {
    hide UniqueKeys, SegmentsHaveRows, SealsAccounted, InsertTx, BackfillTx, RowsAccounted, NewRow;
    match step
    case Insert(e, id, now) => InsertKeepsRowsAccounted(p, w, e, id, now);
    case Backfill(tenant) => BackfillKeepsRowsAccounted(p, w, tenant);
    case _ =>
      OtherStepsAddNoRow(p, w, step);
      FewerRowsAccounted(p.hash, w.rows, Apply(p, w, step).rows, w.identities, w.ledger);
  }

  lemma OtherStepsAddNoRow(p: Platform, w: World, step: Step)
    requires UniqueKeys(w.rows) && SegmentsHaveRows(w.segments) && !step.Insert? && !step.Backfill?
    ensures var w' := Apply(p, w, step); w'.rows <= w.rows && w'.identities == w.identities && w'.ledger == w.ledger
  {
    hide InsertTx, BackfillTx, UniqueKeys, SegmentsHaveRows, RowsToSeal, NewSeal, UpdateArchive, MarkClaimed, MarkArchived, MarkFailed,
         ContainsIneligible, ClaimableBy, Find;
  }

  lemma FewerRowsAccounted(hash: RowHasher, rows: set<Row>, rows': set<Row>, identities: set<Uuid>, ledger: seq<Row>)
    requires RowsAccounted(hash, rows, identities, ledger) && rows' <= rows
    ensures RowsAccounted(hash, rows', identities, ledger)
  {
  }

  // ----- seals -----

  /** The segment that is last by `(sealed_at, id)` is the last one appended for its tenant. */
  lemma LatestSealStep(seals: seq<Seal>, tenant: Uuid)
    requires SealsOrdered(seals) && seals != []
    ensures var init, last := seals[..|seals| - 1], seals[|seals| - 1];
            LatestSeal(seals, tenant) == if last.tenantId == tenant then Some(last) else LatestSeal(init, tenant)
  {
    var init := seals[..|seals| - 1];
    if LatestSeal(init, tenant).Some? {
      var i :| 0 <= i < |init| && init[i] == LatestSeal(init, tenant).value;
      assert seals[i] == init[i];
    }
  }

  lemma SealsOrderedInit(seals: seq<Seal>)
    requires SealsOrdered(seals) && seals != []
    ensures SealsOrdered(seals[..|seals| - 1])
  {
  }

  /** So its last hash is the one that ends the tenant's sealed rows. */
  lemma {:induction false} SealedHashEndsEntries(seals: seq<Seal>, tenant: Uuid)
    requires SealsOrdered(seals)
    ensures var e := Entries(seals, tenant); SealedHash(seals, tenant) == HashToContinue(None, e, |e|)
  {
    if seals != [] {
      var init, last := seals[..|seals| - 1], seals[|seals| - 1];
      LatestSealStep(seals, tenant);
      SealsOrderedInit(seals);
      SealedHashEndsEntries(init, tenant);
      assert Entries(seals, tenant) == Entries(init, tenant) + if last.tenantId == tenant then last.rows else [];
      hide LatestSeal, Entries, SealsOrdered;
      if last.tenantId == tenant {
        assert last in seals && NonEmpty(last);
      } else {
        assert Entries(seals, tenant) == Entries(init, tenant);
      }
    }
  }

  lemma SealAppendsInOrder(seals: seq<Seal>, s: Seal)
    requires SealsOrdered(seals) && NonEmpty(s)
    requires forall x :: x in seals ==> x.id != s.id && (x.tenantId == s.tenantId ==> x.sealedAt < s.sealedAt)
    ensures SealsOrdered(seals + [s])
  {
    assert forall i :: 0 <= i < |seals| ==> seals[i] in seals;
  }

  lemma SealAppends(seals: seq<Seal>, ledger: seq<Row>, s: Seal)
    requires SealsAccounted(seals, ledger) && NonEmpty(s)
    requires forall x :: x in seals ==> x.id != s.id && (x.tenantId == s.tenantId ==> x.sealedAt < s.sealedAt)
    requires forall m :: m in s.rows ==> Recorded(ledger, s.tenantId, m)
    requires LinkedFrom(SealedHash(seals, s.tenantId), s.rows)
    ensures SealsAccounted(seals + [s], ledger)
    ensures Entries(seals + [s], s.tenantId) == Entries(seals, s.tenantId) + s.rows
  {
    var after := seals + [s];
    SealAppendsInOrder(seals, s);
    SealedHashEndsEntries(seals, s.tenantId);
    hide SealsOrdered, SealedHash, Recorded, LinkedFrom;
    assert after[..|after| - 1] == seals;
    forall t: Uuid ensures ManifestLinked(Entries(after, t)) {
      var e := Entries(seals, t);
      assert ManifestLinked(e);
      if t == s.tenantId {
        LinkedAppend(e, s.rows);
      } else {
        assert e + [] == e;
      }
    }
  }

  lemma LinkedAppend(e: seq<ManifestRow>, f: seq<ManifestRow>)
    requires ManifestLinked(e)
    requires LinkedFrom(HashToContinue(None, e, |e|), f)
    ensures ManifestLinked(e + f)
  {
    var g := e + f;
    var start := HashToContinue(None, e, |e|);
    forall i | 0 <= i < |g| ensures g[i].prevHash == HashToContinue(None, g, i) {
      if i < |e| {
        assert e[i].prevHash == HashToContinue(None, e, i);
      } else {
        assert f[i - |e|].prevHash == HashToContinue(start, f, i - |e|);
      }
    }
  }

  /** The manifest of walked rows continues the sealed rows link by link, and lists recorded rows only. */
  lemma WalkedRowsContinue(hash: RowHasher, rows: set<Row>, identities: set<Uuid>, ledger: seq<Row>,
                           tenant: Uuid, start: Option<string>, walked: seq<Row>)
    requires RowsAccounted(hash, rows, identities, ledger) && AllHashed(walked)
    requires RowsLinkedFrom(start, walked) && forall x :: x in walked ==> x in HashedRows(rows, tenant)
    ensures LinkedFrom(start, Manifest(walked))
    ensures forall m :: m in Manifest(walked) ==> Recorded(ledger, tenant, m)
  {
    var e := Manifest(walked);
    forall m | m in e ensures Recorded(ledger, tenant, m) {
      var i :| 0 <= i < |e| && e[i] == m;
      assert walked[i] in walked && m == ManifestOf(walked[i]);
    }
    forall i | 0 <= i < |e| ensures e[i].prevHash == HashToContinue(start, e, i) {
      assert walked[i].prevHash == RowToContinue(start, walked, i);
    }
  }

  lemma FreshAmongSeals(w: World, tenant: Uuid, id: Uuid, now: int)
    requires forall s :: s in w.segments ==> s.seal.id != id
    requires forall s :: s in w.segments && s.seal.tenantId == tenant ==> s.seal.sealedAt < now
    ensures forall x :: x in Seals(w.segments) ==> x.id != id && (x.tenantId == tenant ==> x.sealedAt < now)
  {
    forall x | x in Seals(w.segments) ensures x.id != id && (x.tenantId == tenant ==> x.sealedAt < now) {
      var i :| 0 <= i < |w.segments| && Seals(w.segments)[i] == x;
      assert w.segments[i] in w.segments;
    }
  }

  lemma SealKeepsAccounts(p: Platform, w: World, tenant: Uuid, id: Uuid, now: int, maxRows: nat, storage: Storage)
    requires Safe(p, w) && SegmentsHaveRows(w.segments)
    requires Admissible(w, SealNext(tenant, id, now, maxRows, storage))
    ensures SealsAccounted(Seals(SealTx(p, w, tenant, id, now, maxRows, storage).segments), w.ledger)
  {
    var seals := Seals(w.segments);
    var taken := RowsToSeal(p.hash, w.rows, seals, tenant, maxRows);
    var w' := SealTx(p, w, tenant, id, now, maxRows, storage);
    if taken.Ok? && !storage.Unavailable? {
      var s := NewSeal(tenant, id, now, taken.value);
      assert Seals(w'.segments) == seals + [s];
      WalkIsLinked(w.rows, tenant, SealedHash(seals, tenant), maxRows);
      WalkedRowsContinue(p.hash, w.rows, w.identities, w.ledger, tenant, SealedHash(seals, tenant), taken.value);
      FreshAmongSeals(w, tenant, id, now);
      hide SealsAccounted, RowsAccounted, NextChainRows, SealTx, Admissible, Seals;
      SealAppends(seals, w.ledger, s);
    }
  }

  lemma LedgerGrowthKeepsAccounts(seals: seq<Seal>, ledger: seq<Row>, more: seq<Row>)
    requires SealsAccounted(seals, ledger)
    ensures SealsAccounted(seals, ledger + more)
  {
    forall s, m | s in seals && m in s.rows ensures Recorded(ledger + more, s.tenantId, m) {
      assert Recorded(ledger, s.tenantId, m);
      var r :| r in ledger && r.rowHash.Some? && r.entry.tenantId == s.tenantId && m == ManifestOf(r);
      assert r in ledger + more;
    }
  }

  /** Only a seal adds a segment, and nothing changes what a segment has sealed. */
  lemma OtherStepsKeepSeals(p: Platform, w: World, step: Step)
    requires UniqueKeys(w.rows) && SegmentsHaveRows(w.segments) && !step.SealNext?
    ensures Seals(Apply(p, w, step).segments) == Seals(w.segments)
  {
  }

  /** The ledger only grows. */
  lemma LedgerGrows(p: Platform, w: World, step: Step) returns (more: seq<Row>)
    requires UniqueKeys(w.rows) && SegmentsHaveRows(w.segments)
    ensures Apply(p, w, step).ledger == w.ledger + more
  {
    more := Apply(p, w, step).ledger[|w.ledger|..];
  }

  lemma ApplyKeepsSafe(p: Platform, w: World, step: Step)
    requires Safe(p, w) && UniqueKeys(w.rows) && SegmentsHaveRows(w.segments) && Admissible(w, step)
    ensures Safe(p, Apply(p, w, step))
  {
    ApplyKeepsRowsAccounted(p, w, step);
    var more := LedgerGrows(p, w, step);
    if step.SealNext? {
      SealKeepsAccounts(p, w, step.tenant, step.segmentId, step.now, step.maxRows, step.storage);
    } else {
      OtherStepsKeepSeals(p, w, step);
      LedgerGrowthKeepsAccounts(Seals(w.segments), w.ledger, more);
    }
  }

  // ----- no row lies in two segments -----

  /** Where row `k` of segment `i` stands among its tenant's sealed rows. */
  lemma {:induction false} EntryPosition(seals: seq<Seal>, i: nat, k: nat) returns (pos: nat)
    requires i < |seals| && k < |seals[i].rows|
    ensures pos == |Entries(seals[..i], seals[i].tenantId)| + k
    ensures pos < |Entries(seals, seals[i].tenantId)| && Entries(seals, seals[i].tenantId)[pos] == seals[i].rows[k]
  {
    var t := seals[i].tenantId;
    var init := seals[..|seals| - 1];
    if i == |seals| - 1 {
      pos := |Entries(init, t)| + k;
    } else {
      assert init[i] == seals[i] && init[..i] == seals[..i];
      pos := EntryPosition(init, i, k);
    }
  }

  lemma {:induction false} EntriesGrow(seals: seq<Seal>, i: nat, j: nat, t: Uuid)
    requires i < j <= |seals|
    ensures |Entries(seals[..i], t)| + (if seals[i].tenantId == t then |seals[i].rows| else 0) <= |Entries(seals[..j], t)|
    decreases j
  {
    assert seals[..j][..j - 1] == seals[..j - 1];
    if i < j - 1 {
      EntriesGrow(seals, i, j - 1, t);
    }
  }

  /** A row sealed at two positions would have its predecessor sealed at the two positions before. */
  lemma {:induction false} SealedOnce(ledger: seq<Row>, tenant: Uuid, e: seq<ManifestRow>, a: nat, b: nat)
    requires forall m :: m in e ==> Recorded(ledger, tenant, m)
    requires forall i, j :: 0 <= i < j < |ledger| ==> ledger[i].id != ledger[j].id
    requires NoCollisions(ledger) && ManifestLinked(e)
    requires a < b < |e|
    ensures e[a].rowHash != e[b].rowHash
    decreases a
  {
    if e[a].rowHash == e[b].rowHash {
      assert e[a] in e && e[b] in e;
      var x :| x in ledger && x.rowHash.Some? && x.entry.tenantId == tenant && e[a] == ManifestOf(x);
      var y :| y in ledger && y.rowHash.Some? && y.entry.tenantId == tenant && e[b] == ManifestOf(y);
      assert x.rowHash == y.rowHash;
      assert HashInput(x) == HashInput(y) && x.id == y.id;
      var i :| 0 <= i < |ledger| && ledger[i] == x;
      var j :| 0 <= j < |ledger| && ledger[j] == y;
      assert i == j;
      assert e[a].prevHash == HashToContinue(None, e, a) && e[b].prevHash == HashToContinue(None, e, b);
      if a > 0 {
        SealedOnce(ledger, tenant, e, a - 1, b - 1);
      }
    }
  }

  lemma {:induction false} EntriesRecorded(seals: seq<Seal>, ledger: seq<Row>, t: Uuid)
    requires forall s, m :: s in seals && m in s.rows ==> Recorded(ledger, s.tenantId, m)
    ensures forall m :: m in Entries(seals, t) ==> Recorded(ledger, t, m)
  {
    if seals != [] {
      var init, last := seals[..|seals| - 1], seals[|seals| - 1];
      EntriesRecorded(init, ledger, t);
      forall m | m in Entries(seals, t) ensures Recorded(ledger, t, m) {
        assert m in Entries(init, t) || (last.tenantId == t && last in seals && m in last.rows);
      }
    }
  }

  lemma RecordedOnce(ledger: seq<Row>, t: Uuid, m: ManifestRow, u: Uuid, n: ManifestRow)
    requires forall i, j :: 0 <= i < j < |ledger| ==> ledger[i].id != ledger[j].id
    requires Recorded(ledger, t, m) && Recorded(ledger, u, n) && m.id == n.id
    ensures t == u && m == n
  {
    var x :| x in ledger && x.rowHash.Some? && x.entry.tenantId == t && m == ManifestOf(x);
    var y :| y in ledger && y.rowHash.Some? && y.entry.tenantId == u && n == ManifestOf(y);
    var i :| 0 <= i < |ledger| && ledger[i] == x;
    var j :| 0 <= j < |ledger| && ledger[j] == y;
  }

  /** No row is listed in two segments. */
  lemma OneSegmentPerRow(seals: seq<Seal>, ledger: seq<Row>, i: nat, j: nat, id: Uuid)
    requires SealsAccounted(seals, ledger) && NoCollisions(ledger)
    requires forall a, b :: 0 <= a < b < |ledger| ==> ledger[a].id != ledger[b].id
    requires i < |seals| && j < |seals| && Listed(seals[i], id) && Listed(seals[j], id)
    ensures i == j
  {
    if i < j {
      NotListedLater(seals, ledger, i, j, id);
    } else if j < i {
      NotListedLater(seals, ledger, j, i, id);
    }
  }

  lemma NotListedLater(seals: seq<Seal>, ledger: seq<Row>, i: nat, j: nat, id: Uuid)
    requires SealsAccounted(seals, ledger) && NoCollisions(ledger)
    requires forall a, b :: 0 <= a < b < |ledger| ==> ledger[a].id != ledger[b].id
    requires i < j < |seals| && Listed(seals[i], id)
    ensures !Listed(seals[j], id)
  {
    if Listed(seals[j], id) {
      var k :| 0 <= k < |seals[i].rows| && seals[i].rows[k].id == id;
      var l :| 0 <= l < |seals[j].rows| && seals[j].rows[l].id == id;
      assert seals[i] in seals && seals[i].rows[k] in seals[i].rows;
      assert seals[j] in seals && seals[j].rows[l] in seals[j].rows;
      RecordedOnce(ledger, seals[i].tenantId, seals[i].rows[k], seals[j].tenantId, seals[j].rows[l]);
      var t := seals[i].tenantId;
      var a := EntryPosition(seals, i, k);
      var b := EntryPosition(seals, j, l);
      EntriesGrow(seals, i, j, t);
      EntriesRecorded(seals, ledger, t);
      assert ManifestLinked(Entries(seals, t));
      SealedOnce(ledger, t, Entries(seals, t), a, b);
    }
  }

  // ----- what a cleanup may drop -----

  /** The hold protects the row: by tenant, by resource, or by naming a segment that lists the row. */
  ghost predicate HoldCovers(w: World, h: Hold, r: Row) {
    && h.active
    && h.tenantId == r.entry.tenantId
    && match h.scope
       case TenantScope => true
       case ResourceScope(resourceType, scopeId) => resourceType == r.entry.resourceType && scopeId == r.entry.resourceId
       case SegmentScope(scopeId) => exists s :: s in w.segments && scopeId == UuidText(s.seal.id) && Listed(s.seal, r.id)
  }

  /** An archived, verified segment past its retention lists the row, and no active hold covers the row. */
  ghost predicate Released(w: World, r: Row, now: int) {
    && (exists s :: s in w.segments
          && s.seal.tenantId == r.entry.tenantId && Listed(s.seal, r.id)
          && s.archive.status == Archived && s.archive.verifiedAt.Some?
          && s.archive.retentionUntil.Some? && s.archive.retentionUntil.value <= now)
    && forall h :: h in w.holds ==> !HoldCovers(w, h, r)
  }

  /** In the one segment that lists a row, the query's hold test is the whole protection. */
  lemma HoldsAgree(p: Platform, w: World, i: nat, r: Row, h: Hold)
    requires Safe(p, w) && NoCollisions(w.ledger)
    requires i < |w.segments| && w.segments[i].seal.tenantId == r.entry.tenantId && Listed(w.segments[i].seal, r.id)
    ensures HoldBlocks(h, w.segments[i].seal, r) <==> HoldCovers(w, h, r)
  {
    var s := w.segments[i];
    assert s in w.segments;
    if HoldCovers(w, h, r) && h.scope.SegmentScope? {
      var g :| g in w.segments && h.scope.scopeId == UuidText(g.seal.id) && Listed(g.seal, r.id);
      var j :| 0 <= j < |w.segments| && w.segments[j] == g;
      OneSegmentPerRow(Seals(w.segments), w.ledger, i, j, r.id);
    }
  }

  /** The eligibility query, which tests holds against the covering segment only, answers whether the row is released. */
  lemma EligibleIffReleased(p: Platform, w: World, r: Row, now: int)
    requires Safe(p, w) && NoCollisions(w.ledger)
    ensures (exists i :: 0 <= i < |w.segments| && CoversForCleanup(w, w.segments[i], r, now)) <==> Released(w, r, now)
  {
    hide Safe, NoCollisions;
    if i :| 0 <= i < |w.segments| && CoversForCleanup(w, w.segments[i], r, now) {
      assert w.segments[i] in w.segments;
      forall h | h in w.holds ensures !HoldCovers(w, h, r) {
        HoldsAgree(p, w, i, r, h);
      }
    }
    if Released(w, r, now) {
      var s :| s in w.segments
          && s.seal.tenantId == r.entry.tenantId && Listed(s.seal, r.id)
          && s.archive.status == Archived && s.archive.verifiedAt.Some?
          && s.archive.retentionUntil.Some? && s.archive.retentionUntil.value <= now;
      var i :| 0 <= i < |w.segments| && w.segments[i] == s;
      forall h | h in w.holds ensures !HoldBlocks(h, s.seal, r) {
        HoldsAgree(p, w, i, r, h);
      }
      assert CoversForCleanup(w, w.segments[i], r, now);
    }
  }

  /** A cleanup drops a partition exactly when it ended before the current month and each of its rows is released; it drops nothing else. */
  lemma CleanupDropsExactlyReleased(p: Platform, w: World, name: string, now: int, monthStart: int)
    requires Safe(p, w) && NoCollisions(w.ledger)
    ensures var w' := CleanupTx(w, name, now, monthStart);
            if && name in w.partitions && w.partitions[name].hi <= monthStart
               && forall r :: r in w.rows && InPartition(w.partitions[name], r) ==> Released(w, r, now)
            then w'.rows == RowsOutside(w.rows, w.partitions[name])
            else w' == w
  {
    forall r | r in w.rows
      ensures (exists i :: 0 <= i < |w.segments| && CoversForCleanup(w, w.segments[i], r, now)) <==> Released(w, r, now)
    {
      EligibleIffReleased(p, w, r, now);
    }
  }

  /** Whatever a cleanup is asked for, rows of the current month and later stay, and so do those outside its partition. */
  lemma CleanupKeepsCurrentMonth(w: World, name: string, now: int, monthStart: int, r: Row)
    requires r in w.rows
    ensures r.createdAt >= monthStart ==> r in CleanupTx(w, name, now, monthStart).rows
    ensures name in w.partitions && !(w.partitions[name].lo <= r.createdAt < w.partitions[name].hi) ==>
              r in CleanupTx(w, name, now, monthStart).rows
    ensures name !in w.partitions ==> CleanupTx(w, name, now, monthStart) == w
  {
    hide ContainsIneligible;
  }

  // ----- runs -----

  /** One step of a run; what the step does is only said of well-formed tables, which `Safe` guarantees. */
  ghost predicate Next(p: Platform, w: World, step: Step, w': World) {
    && Admissible(w, step)
    && (UniqueKeys(w.rows) && SegmentsHaveRows(w.segments) ==> w' == Apply(p, w, step))
  }

  /** Before hashing started: registered rows without hashes, and nothing sealed. */
  ghost predicate Initial(w: World) {
    && (forall a, b :: a in w.rows && b in w.rows && a.id == b.id ==> a == b)
    && (forall r :: r in w.rows ==> r.id in w.identities && r.rowHash == None)
    && w.segments == [] && w.ledger == [] && w.workers == map[]
  }

  ghost predicate Run(p: Platform, ws: seq<World>, steps: seq<Step>) {
    && |ws| == |steps| + 1
    && Initial(ws[0])
    && forall i :: 0 <= i < |steps| ==> Next(p, ws[i], steps[i], ws[i + 1])
  }

  lemma {:induction false} RunsAreSafe(p: Platform, ws: seq<World>, steps: seq<Step>, i: nat)
    requires Run(p, ws, steps) && i < |ws|
    ensures Safe(p, ws[i])
  {
    if i == 0 {
      assert Seals(ws[0].segments) == [];
    } else {
      RunsAreSafe(p, ws, steps, i - 1);
      SafeIsWellFormed(p, ws[i - 1]);
      assert Next(p, ws[i - 1], steps[i - 1], ws[i - 1 + 1]);
      ApplyKeepsSafe(p, ws[i - 1], steps[i - 1]);
    }
  }

  /** Over every run a segment lists rows that got their hash, each with its id, its time and both its hashes. */
  lemma SegmentsListRecordedRows(p: Platform, ws: seq<World>, steps: seq<Step>, i: nat, k: nat, m: ManifestRow)
    requires Run(p, ws, steps) && i < |ws| && k < |ws[i].segments| && m in ws[i].segments[k].seal.rows
    ensures exists r :: r in ws[i].ledger && r.entry.tenantId == ws[i].segments[k].seal.tenantId && CorrectlyHashed(p.hash, r)
                        && r.id == m.id && r.createdAt == m.createdAt && r.prevHash == m.prevHash && r.rowHash == Some(m.rowHash)
  {
    hide Run, SealsOrdered;
    RunsAreSafe(p, ws, steps, i);
    var s := ws[i].segments[k].seal;
    assert Seals(ws[i].segments)[k] == s;
    assert Recorded(ws[i].ledger, s.tenantId, m);
    var r :| r in ws[i].ledger && r.rowHash.Some? && r.entry.tenantId == s.tenantId && m == ManifestOf(r);
    assert CorrectlyHashed(p.hash, r);
  }

  lemma StepKeepsNoCollisions(p: Platform, w: World, step: Step)
    requires UniqueKeys(w.rows) && SegmentsHaveRows(w.segments) && NoCollisions(Apply(p, w, step).ledger)
    ensures NoCollisions(w.ledger)
  {
    hide Apply, UniqueKeys, SegmentsHaveRows;
    var more := LedgerGrows(p, w, step);
  }

  /** What was hashed once stays in the ledger, so a ledger without collisions never had one. */
  lemma {:induction false} LedgerKeepsNoCollisions(p: Platform, ws: seq<World>, steps: seq<Step>, i: nat, j: nat)
    requires Run(p, ws, steps) && i <= j < |ws| && NoCollisions(ws[j].ledger)
    ensures NoCollisions(ws[i].ledger)
    decreases j
  {
    hide Initial, Apply, Safe, NoCollisions, Admissible, UniqueKeys, SegmentsHaveRows;
    if i < j {
      RunsAreSafe(p, ws, steps, j - 1);
      SafeIsWellFormed(p, ws[j - 1]);
      assert Next(p, ws[j - 1], steps[j - 1], ws[j - 1 + 1]);
      StepKeepsNoCollisions(p, ws[j - 1], steps[j - 1]);
      LedgerKeepsNoCollisions(p, ws, steps, i, j - 1);
    }
  }

  /** Only a cleanup loses a row; a backfill may give it a hash, and nothing changes its content. */
  lemma StepKeepsRow(p: Platform, w: World, step: Step, r: Row)
    requires UniqueKeys(w.rows) && SegmentsHaveRows(w.segments) && r in w.rows
    ensures var w' := Apply(p, w, step);
            (exists r' :: r' in w'.rows && SameContent(r', r)) || (step.Cleanup? && r !in w'.rows)
  {
    assert SameContent(r, r);
    if step.Backfill? {
      BackfillImage(p.hash, w.rows, step.tenant, r);
    }
  }

  /**
   Over every run: for a row that is in the table at one point and gone at a later one there is a cleanup in
   between that dropped it, by then perhaps hashed, and at that moment it was released.
   */
  lemma {:induction false} DroppedRowsWereReleased(p: Platform, ws: seq<World>, steps: seq<Step>, i: nat, j: nat, r: Row)
    requires Run(p, ws, steps) && i <= j < |ws| && NoCollisions(ws[j].ledger)
    requires r in ws[i].rows && !exists r' :: r' in ws[j].rows && SameContent(r', r)
    ensures exists k, d :: i <= k < j && steps[k].Cleanup? && d in ws[k].rows && d !in ws[k + 1].rows && SameContent(d, r)
                           && Released(ws[k], d, steps[k].now)
    decreases j - i
  {
    assert SameContent(r, r);
    assert i < j;
    var w, step := ws[i], steps[i];
    RunsAreSafe(p, ws, steps, i);
    SafeIsWellFormed(p, w);
    assert Next(p, ws[i], steps[i], ws[i + 1]);
    StepKeepsRow(p, w, step, r);
    if r' :| r' in ws[i + 1].rows && SameContent(r', r) {
      DroppedRowsWereReleased(p, ws, steps, i + 1, j, r');
      var k, d :| i + 1 <= k < j && steps[k].Cleanup? && d in ws[k].rows && d !in ws[k + 1].rows && SameContent(d, r')
                  && Released(ws[k], d, steps[k].now);
      assert SameContent(d, r);
    } else {
      LedgerKeepsNoCollisions(p, ws, steps, i, j);
      CleanupDropsExactlyReleased(p, w, step.name, step.now, step.monthStart);
      assert InPartition(w.partitions[step.name], r);
      assert Released(w, r, step.now);
    }
  }
}
