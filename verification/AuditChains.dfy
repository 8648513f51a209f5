/**
 One linked chain per tenant, over every interleaving of all transactions, and the seals
 that cut it into segments. Two more assumptions enter here: an insert's `(created_at, id)`
 is above the tenant's hashed rows, and a cleanup leaves each tenant its newest hashed row.
 */
module AuditChains {
  import opened Options
  import opened AuditRows
  import opened AuditTable
  import opened AuditSealing
  import opened AuditWorld
  import opened AuditSafety

  /** Every row of the tenant that ever got a hash, in hashing order. */
  function LedgerOf(ledger: seq<Row>, t: Uuid): (q: seq<Row>)
  {
    if ledger == [] then []
    else
      var last := ledger[|ledger| - 1];
      LedgerOf(ledger[..|ledger| - 1], t) + if last.entry.tenantId == t && last.rowHash.Some? then [last] else []
  }

  lemma {:induction false} LedgerOfMembers(ledger: seq<Row>, t: Uuid)
    ensures forall r :: r in LedgerOf(ledger, t) <==> r in ledger && r.entry.tenantId == t && r.rowHash.Some?
    ensures AllHashed(LedgerOf(ledger, t))
  {
    if ledger != [] {
      var init, last := ledger[..|ledger| - 1], ledger[|ledger| - 1];
      LedgerOfMembers(init, t);
      assert ledger == init + [last];
      var q := LedgerOf(ledger, t);
      forall i | 0 <= i < |q| ensures q[i].rowHash.Some? {
        assert i < |LedgerOf(init, t)| ==> q[i] == LedgerOf(init, t)[i];
      }
    }
  }

  lemma {:induction false} LedgerOfAppend(ledger: seq<Row>, more: seq<Row>, t: Uuid)
    ensures LedgerOf(ledger + more, t) == LedgerOf(ledger, t) + LedgerOf(more, t)
  {
    var all := ledger + more;
    if more == [] {
      assert all == ledger;
      assert LedgerOf(ledger, t) + [] == LedgerOf(ledger, t);
    } else {
      assert all[..|all| - 1] == ledger + more[..|more| - 1];
      LedgerOfAppend(ledger, more[..|more| - 1], t);
    }
  }

  lemma {:induction false} LedgerOfTenant(more: seq<Row>, tenant: Uuid, t: Uuid)
    requires forall r :: r in more ==> r.entry.tenantId == tenant && r.rowHash.Some?
    ensures LedgerOf(more, t) == if t == tenant then more else []
  {
    if more != [] {
      var init := more[..|more| - 1];
      LedgerOfTenant(init, tenant, t);
      assert more == init + [more[|more| - 1]];
    }
  }

  /** The hashed rows form one intact chain, the sealed entries list a prefix of it, and the rest is in the table. */
  ghost predicate ChainFits(hash: RowHasher, rows: set<Row>, t: Uuid, chain: seq<Row>, entries: seq<ManifestRow>) {
    && AllHashed(chain)
    && Intact(hash, chain)
    && StrictlySorted(chain)
    && |entries| <= |chain|
    && entries == Manifest(chain)[..|entries|]
    && Covers(rows, t, chain, |entries|)
    && (chain != [] ==> chain[|chain| - 1] in HashedRows(rows, t))
  }

  ghost predicate ChainSound(p: Platform, w: World, t: Uuid) {
    ChainFits(p.hash, w.rows, t, LedgerOf(w.ledger, t), Entries(Seals(w.segments), t))
  }

  /** The clock assumption of this module. */
  ghost predicate InsertsInTime(p: Platform, w: World, step: Step)
    requires UniqueKeys(w.rows)
  {
    step.Insert? ==> AfterChain(w.rows, NewRow(p.hash, w.rows, step.entry, step.id, step.now))
  }

  ghost predicate NewestIsKept(chain: seq<Row>, rows: set<Row>) {
    chain == [] || chain[|chain| - 1] in rows
  }

  /** And its retention assumption, which `StrandedTenants` does without. */
  ghost predicate KeepsNewest(w: World, step: Step) {
    step.Cleanup? ==> forall t: Uuid :: NewestIsKept(LedgerOf(w.ledger, t), CleanupTx(w, step.name, step.now, step.monthStart).rows)
  }

  lemma LedgerHashesDistinct(ledger: seq<Row>, t: Uuid)
    requires NoCollisions(ledger) && StrictlySorted(LedgerOf(ledger, t))
    ensures DistinctHashes(LedgerOf(ledger, t))
  {
    LedgerOfMembers(ledger, t);
    var q := LedgerOf(ledger, t);
    forall i, j | 0 <= i < j < |q| ensures q[i].rowHash != q[j].rowHash {
      assert q[i] in q && q[j] in q && Before(q[i], q[j]);
      assert q[i].rowHash == q[j].rowHash ==> HashInput(q[i]) == HashInput(q[j]);
    }
  }

  // ----- inserts and backfills -----

  /** With the newest hashed row still in the table, an insert links to the end of the ledger's chain. */
  lemma InsertLinksToLedger(p: Platform, w: World, t: Uuid)
    requires UniqueKeys(w.rows) && ChainSound(p, w, t)
    ensures var chain := LedgerOf(w.ledger, t); PreviousHash(w.rows, t) == HashBefore(chain, |chain|)
  {
    var chain, c := LedgerOf(w.ledger, t), Chain(w.rows, t);
    LedgerOfMembers(w.ledger, t);
    ChainHoldsHashedRows(w.rows, t);
    hide Chain, Intact, LedgerOf, HashedRows;
    if chain == [] {
      EmptyIfNoMember(c);
    } else {
      SameLast(chain, c);
    }
  }

  /** Two ordered lists of which each has the last row of the other end in the same row. */
  lemma SameLast(a: seq<Row>, b: seq<Row>)
    requires StrictlySorted(a) && StrictlySorted(b) && a != [] && b != []
    requires a[|a| - 1] in b && b[|b| - 1] in a
    ensures a[|a| - 1] == b[|b| - 1]
  {
    var i :| 0 <= i < |b| && b[i] == a[|a| - 1];
    var j :| 0 <= j < |a| && a[j] == b[|b| - 1];
  }

  lemma IntactAppend(hash: RowHasher, chain: seq<Row>, r: Row)
    requires Intact(hash, chain) && r.prevHash == HashBefore(chain, |chain|) && CorrectlyHashed(hash, r)
    ensures Intact(hash, chain + [r])
  {
    var q := chain + [r];
    forall i | 0 <= i < |q| ensures Linked(q, i) && CorrectlyHashed(hash, q[i]) {
      if i < |chain| {
        assert Linked(chain, i) && CorrectlyHashed(hash, chain[i]);
      }
    }
  }

  lemma FitsAppend(hash: RowHasher, rows: set<Row>, t: Uuid, chain: seq<Row>, entries: seq<ManifestRow>, r: Row)
    requires ChainFits(hash, rows, t, chain, entries)
    requires r.entry.tenantId == t && CorrectlyHashed(hash, r) && r.prevHash == HashBefore(chain, |chain|)
    requires AfterChain(rows, r)
    ensures ChainFits(hash, rows + {r}, t, chain + [r], entries)
  {
    IntactAppend(hash, chain, r);
    var q := chain + [r];
    forall i, j | 0 <= i < j < |q| ensures Before(q[i], q[j]) {
      var last := chain[|chain| - 1];
      assert last in HashedRows(rows, t) && Before(last, r);
      assert i < |chain| - 1 ==> Before(chain[i], last);
    }
    assert Manifest(q)[..|entries|] == Manifest(chain)[..|entries|];
    assert HashedRows(rows + {r}, t) == HashedRows(rows, t) + {r};
    hide Intact, StrictlySorted, Manifest, HashedRows;
  }

  lemma FitsFrame(hash: RowHasher, rows: set<Row>, rows': set<Row>, t: Uuid, chain: seq<Row>, entries: seq<ManifestRow>)
    requires ChainFits(hash, rows, t, chain, entries) && HashedRows(rows', t) == HashedRows(rows, t)
    ensures ChainFits(hash, rows', t, chain, entries)
  {
  }

  lemma InsertKeepsChainSound(p: Platform, w: World, e: Entry, id: Uuid, now: int, t: Uuid)
    requires UniqueKeys(w.rows) && ChainSound(p, w, t)
    requires AfterChain(w.rows, NewRow(p.hash, w.rows, e, id, now))
    ensures ChainSound(p, InsertTx(p, w, e, id, now), t)
  {
    hide ChainFits, Chain, NewRow, AfterChain, UniqueKeys;
    var r := NewRow(p.hash, w.rows, e, id, now);
    NewRowFacts(p.hash, w.rows, e, id, now);
    var chain := LedgerOf(w.ledger, t);
    assert (w.ledger + [r])[..|w.ledger|] == w.ledger;
    if t == e.tenantId {
      InsertLinksToLedger(p, w, t);
      FitsAppend(p.hash, w.rows, t, chain, Entries(Seals(w.segments), t), r);
    } else {
      assert chain + [] == chain;
      OtherTenantsRow(w.rows, r, t);
      FitsFrame(p.hash, w.rows, w.rows + {r}, t, chain, Entries(Seals(w.segments), t));
    }
  }

  lemma NewRowFacts(hash: RowHasher, rows: set<Row>, e: Entry, id: Uuid, now: int)
    requires UniqueKeys(rows)
    ensures var r := NewRow(hash, rows, e, id, now);
            && r.entry.tenantId == e.tenantId && r.rowHash.Some? && CorrectlyHashed(hash, r)
            && r.prevHash == PreviousHash(rows, e.tenantId)
  {
  }

  lemma OtherTenantsRow(rows: set<Row>, r: Row, t: Uuid)
    requires r.entry.tenantId != t
    ensures HashedRows(rows + {r}, t) == HashedRows(rows, t)
  {
  }

  lemma {:induction false} NoSealsNoEntries(seals: seq<Seal>, t: Uuid)
    requires forall s :: s in seals ==> s.tenantId != t
    ensures Entries(seals, t) == []
  {
    if seals != [] {
      NoSealsNoEntries(seals[..|seals| - 1], t);
      assert seals[|seals| - 1] in seals;
    }
  }

  /** A tenant that a backfill accepts has an empty ledger. */
  lemma UnsealedUnhashedIsNew(p: Platform, w: World, t: Uuid)
    requires ChainSound(p, w, t) && !RequiresOfflineRechain(w.rows, Seals(w.segments), t)
    ensures LedgerOf(w.ledger, t) == [] && Entries(Seals(w.segments), t) == []
  {
    NoSealsNoEntries(Seals(w.segments), t);
  }

  lemma LinkedRowsAreTheTenants(hash: RowHasher, rows: set<Row>, tenant: Uuid)
    requires UniqueKeys(rows)
    ensures forall r :: r in LinkUp(hash, SortByKey(UnhashedRows(rows, tenant)), None) ==> r.entry.tenantId == tenant && r.rowHash.Some?
  {
    BackfillPairs(hash, rows, tenant);
    var q := SortByKey(UnhashedRows(rows, tenant));
    var linked := LinkUp(hash, q, None);
    forall r | r in linked ensures r.entry.tenantId == tenant && r.rowHash.Some? {
      var i :| 0 <= i < |linked| && linked[i] == r;
      assert SameContent(linked[i], q[i]) && q[i] in q && CorrectlyHashed(hash, linked[i]);
    }
  }

  lemma FitsBackfill(hash: RowHasher, rows: set<Row>, t: Uuid)
    requires UniqueKeys(rows) && HashedRows(rows, t) == {}
    ensures ChainFits(hash, BackfilledRows(hash, rows, t), t, LinkUp(hash, SortByKey(UnhashedRows(rows, t)), None), [])
  {
    ChainOfBackfill(hash, rows, t);
    FitsUnsealed(hash, BackfilledRows(hash, rows, t), t);
  }

  lemma FitsUnsealed(hash: RowHasher, rows: set<Row>, t: Uuid)
    requires UniqueKeys(rows) && Intact(hash, Chain(rows, t))
    ensures ChainFits(hash, rows, t, Chain(rows, t), [])
  {
    ChainHoldsHashedRows(rows, t);
    hide Chain, Intact, HashedRows;
    var chain := Chain(rows, t);
    assert forall i :: 0 <= i < |chain| ==> chain[i] in chain;
  }

  lemma BackfillKeepsChainSound(p: Platform, w: World, tenant: Uuid, t: Uuid)
    requires UniqueKeys(w.rows) && ChainSound(p, w, t)
    ensures ChainSound(p, BackfillTx(p, w, tenant), t)
  {
    if !RequiresOfflineRechain(w.rows, Seals(w.segments), tenant) {
      var linked := LinkUp(p.hash, SortByKey(UnhashedRows(w.rows, tenant)), None);
      var chain := LedgerOf(w.ledger, t);
      LinkedRowsAreTheTenants(p.hash, w.rows, tenant);
      LedgerOfAppend(w.ledger, linked, t);
      LedgerOfTenant(linked, tenant, t);
      if t == tenant {
        UnsealedUnhashedIsNew(p, w, t);
        FitsBackfill(p.hash, w.rows, t);
        assert chain + linked == linked;
      } else {
        BackfillFrame(p.hash, w.rows, tenant, t);
        assert chain + [] == chain;
        hide ChainFits, HashedRows, BackfilledRows, LinkUp;
        FitsFrame(p.hash, w.rows, BackfilledRows(p.hash, w.rows, tenant), t, chain, Entries(Seals(w.segments), t));
      }
    }
  }

  lemma BackfillFrame(hash: RowHasher, rows: set<Row>, tenant: Uuid, t: Uuid)
    requires UniqueKeys(rows) && t != tenant
    ensures HashedRows(BackfilledRows(hash, rows, tenant), t) == HashedRows(rows, t)
  {
    LinkedRowsAreTheTenants(hash, rows, tenant);
  }

  // ----- seals -----

  /** The answer to a seal when the rows from `k` on are unsealed. */
  function RowsFrom(chain: seq<Row>, k: nat, n: nat): (r: Result<seq<Row>, SealError>) {
    if k >= |chain| then Err(NoUnsealedRows) else Ok(ChainSlice(chain, k, n))
  }

  /** What a seal finds when the latest segment ends where row `k` of an intact chain goes on. */
  lemma RowsToSealFrom(hash: RowHasher, rows: set<Row>, seals: seq<Seal>, t: Uuid, chain: seq<Row>, k: nat, n: nat)
    requires forall s :: s in seals ==> NonEmpty(s)
    requires Intact(hash, chain) && AllHashed(chain) && DistinctHashes(chain) && k <= |chain| && Covers(rows, t, chain, k)
    requires SealedHash(seals, t) == HashBefore(chain, k) && n >= 1
    ensures RowsToSeal(hash, rows, seals, t, n) == RowsFrom(chain, k, n)
  {
    hide Intact, AllHashed, DistinctHashes, Covers, SealedHash, HashBefore, Verifies, NextChainRows;
    WalkFollowsChain(hash, rows, t, chain, k, n);
    SliceVerifies(hash, chain, k, n);
  }

  /** A seal takes exactly the next unsealed rows of the chain, as many as it may; it finds none only when all are sealed. */
  lemma SealTakesNextRows(p: Platform, w: World, t: Uuid, maxRows: nat)
    requires Safe(p, w) && SegmentsHaveRows(w.segments) && ChainSound(p, w, t) && NoCollisions(w.ledger) && maxRows >= 1
    ensures var k := |Entries(Seals(w.segments), t)|;
            && k <= |LedgerOf(w.ledger, t)|
            && RowsToSeal(p.hash, w.rows, Seals(w.segments), t, maxRows) == RowsFrom(LedgerOf(w.ledger, t), k, maxRows)
  {
    var seals, chain := Seals(w.segments), LedgerOf(w.ledger, t);
    var entries := Entries(seals, t);
    var k := |entries|;
    SealedHashEndsEntries(seals, t);
    LedgerHashesDistinct(w.ledger, t);
    assert k > 0 ==> entries[k - 1] == Manifest(chain)[k - 1];
    hide RowsToSeal, Intact, Covers, LedgerOf, Entries, SealedHash;
    RowsToSealFrom(p.hash, w.rows, seals, t, chain, k, maxRows);
  }

  lemma SliceVerifies(hash: RowHasher, chain: seq<Row>, k: nat, n: nat)
    requires Intact(hash, chain) && k <= |chain|
    ensures Verifies(hash, ChainSlice(chain, k, n))
  {
    var q := ChainSlice(chain, k, n);
    forall i | 0 <= i < |q| ensures Linked(q, i) && CorrectlyHashed(hash, q[i]) {
      assert Linked(chain, k + i) && q[i] == chain[k + i];
    }
  }

  /** What a seal finds behind one more segment of the tenant, whose rows are the next ones of the chain. */
  lemma RowsBehindSeal(p: Platform, w: World, t: Uuid, s: Seal, taken: seq<Row>, n: nat)
    requires Safe(p, w) && SegmentsHaveRows(w.segments) && ChainSound(p, w, t) && NoCollisions(w.ledger) && n >= 1
    requires taken != [] && s.tenantId == t && AllHashed(taken) && s.rows == Manifest(taken)
    requires SliceAt(LedgerOf(w.ledger, t), |Entries(Seals(w.segments), t)|, taken)
    ensures RowsToSeal(p.hash, w.rows, Seals(w.segments) + [s], t, n)
         == if IsNewest(Seals(w.segments), s) then RowsFrom(LedgerOf(w.ledger, t), |Entries(Seals(w.segments), t)| + |taken|, n)
            else RowsToSeal(p.hash, w.rows, Seals(w.segments), t, n)
  {
    var seals, chain := Seals(w.segments), LedgerOf(w.ledger, t);
    var k := |Entries(seals, t)| + |taken|;
    hide Safe, IsNewest, LatestSeal, Entries, LedgerOf, Covers, StrictlySorted, NoCollisions, Intact, DistinctHashes, SealedHash,
         RowsToSeal, RowsFrom, AllHashed;
    SealedHashAfterSeal(seals, s);
    if IsNewest(seals, s) {
      LedgerHashesDistinct(w.ledger, t);
      LastOfSlice(chain, k - |taken|, taken, s);
      CoversFurther(w.rows, t, chain, |Entries(seals, t)|, k);
      hide ChainSound, Manifest;
      RowsToSealFrom(p.hash, w.rows, seals + [s], t, chain, k, n);
    } else {
      SameSealedHash(p.hash, w.rows, seals, seals + [s], t, n);
    }
  }

  predicate SliceAt(chain: seq<Row>, k: nat, q: seq<Row>) {
    k + |q| <= |chain| && chain[k..k + |q|] == q
  }

  lemma LastOfSlice(chain: seq<Row>, k: nat, q: seq<Row>, s: Seal)
    requires SliceAt(chain, k, q) && q != [] && AllHashed(q) && s.rows == Manifest(q)
    ensures NonEmpty(s) && k + |q| <= |chain| && Some(LastRowHash(s)) == HashBefore(chain, k + |q|)
  {
    assert LastRowHash(s) == ManifestOf(q[|q| - 1]).rowHash;
    assert q[|q| - 1] == chain[k + |q| - 1];
  }

  lemma SameSealedHash(hash: RowHasher, rows: set<Row>, a: seq<Seal>, b: seq<Seal>, t: Uuid, n: nat)
    requires (forall s :: s in a ==> NonEmpty(s)) && (forall s :: s in b ==> NonEmpty(s)) && SealedHash(a, t) == SealedHash(b, t)
    ensures RowsToSeal(hash, rows, a, t, n) == RowsToSeal(hash, rows, b, t, n)
  {
  }

  lemma CoversFurther(rows: set<Row>, t: Uuid, chain: seq<Row>, k: nat, l: nat)
    requires Covers(rows, t, chain, k) && k <= l
    ensures Covers(rows, t, chain, l)
  {
  }

  predicate ListsNoneOf(next: Result<seq<Row>, SealError>, taken: seq<Row>) {
    next.Err? || forall r :: r in next.value ==> r !in taken
  }

  /** The rows behind a slice share none with it; those from the same place on share the first one. */
  lemma SlicesApart(chain: seq<Row>, k: nat, m: nat, n: nat, taken: seq<Row>)
    requires StrictlySorted(chain) && RowsFrom(chain, k, m) == Ok(taken) && m >= 1 && n >= 1
    ensures taken != [] && SliceAt(chain, k, taken)
    ensures ListsNoneOf(RowsFrom(chain, k + |taken|, n), taken) && !ListsNoneOf(RowsFrom(chain, k, n), taken)
  {
    var again := ChainSlice(chain, k, n);
    assert taken[0] == chain[k] == again[0] && taken[0] in taken && again[0] in again;
    BehindSlice(chain, k, |taken|, n);
  }

  lemma BehindSlice(chain: seq<Row>, k: nat, m: nat, n: nat)
    requires StrictlySorted(chain) && k + m <= |chain|
    ensures ListsNoneOf(Ok(ChainSlice(chain, k + m, n)), chain[k..k + m])
  {
    var next, taken := ChainSlice(chain, k + m, n), chain[k..k + m];
    forall r | r in next ensures r !in taken {
      var i :| 0 <= i < |next| && next[i] == r;
      assert chain[k + m + i] == r;
      assert forall j :: 0 <= j < |taken| ==> taken[j] == chain[k + j] && Before(chain[k + j], r);
    }
  }

  lemma SealTxAppends(p: Platform, w: World, t: Uuid, id: Uuid, now: int, maxRows: nat, storage: Storage)
    requires SegmentsHaveRows(w.segments)
    requires RowsToSeal(p.hash, w.rows, Seals(w.segments), t, maxRows).Ok? && !storage.Unavailable?
    ensures var w' := SealTx(p, w, t, id, now, maxRows, storage);
            var s := NewSeal(t, id, now, RowsToSeal(p.hash, w.rows, Seals(w.segments), t, maxRows).value);
            && w'.rows == w.rows && SegmentsHaveRows(w'.segments) && Seals(w'.segments) == Seals(w.segments) + [s]
            && |Entries(Seals(w'.segments), t)| == |Entries(Seals(w.segments), t)| + |s.rows|
  {
    hide RowsToSeal, Entries, Manifest;
    var taken := RowsToSeal(p.hash, w.rows, Seals(w.segments), t, maxRows).value;
    SealExtendsEntries(w.segments, SealTx(p, w, t, id, now, maxRows, storage).segments, NewSeal(t, id, now, taken), t);
  }

  lemma LedgerIsSorted(p: Platform, w: World, t: Uuid)
    requires ChainSound(p, w, t)
    ensures StrictlySorted(LedgerOf(w.ledger, t))
  {
  }

  lemma TakenRows(p: Platform, w: World, t: Uuid, maxRows: nat, n: nat, taken: seq<Row>)
    requires Safe(p, w) && SegmentsHaveRows(w.segments) && ChainSound(p, w, t) && NoCollisions(w.ledger) && n >= 1
    requires RowsToSeal(p.hash, w.rows, Seals(w.segments), t, maxRows) == Ok(taken)
    ensures var chain, k := LedgerOf(w.ledger, t), |Entries(Seals(w.segments), t)|;
            && taken != [] && SliceAt(chain, k, taken) && ListsNoneOf(RowsFrom(chain, k + |taken|, n), taken)
    ensures !ListsNoneOf(RowsToSeal(p.hash, w.rows, Seals(w.segments), t, n), taken)
  {
    hide Safe, ChainSound, RowsToSeal, LedgerOf, Entries, NoCollisions, Seals, SegmentsHaveRows, ListsNoneOf, StrictlySorted, RowsFrom,
         SliceAt, Verifies, AllHashed;
    SealTakesNextRows(p, w, t, maxRows);
    SealTakesNextRows(p, w, t, n);
    LedgerIsSorted(p, w, t);
    SlicesApart(LedgerOf(w.ledger, t), |Entries(Seals(w.segments), t)|, maxRows, n, taken);
  }

  /**
   Why a seal's clock must be above the tenant's earlier ones: the next seal goes on behind the new segment if and
   only if the segment's `(sealed_at, id)` is above the latest so far; otherwise it lists the same rows again.
   */
  lemma NextSealGoesOnIffNewest(p: Platform, w: World, t: Uuid, id: Uuid, now: int, maxRows: nat, storage: Storage,
                                w': World, n: nat, taken: seq<Row>)
    requires Safe(p, w) && SegmentsHaveRows(w.segments) && ChainSound(p, w, t) && NoCollisions(w.ledger) && n >= 1
    requires RowsToSeal(p.hash, w.rows, Seals(w.segments), t, maxRows) == Ok(taken) && !storage.Unavailable?
    requires w' == SealTx(p, w, t, id, now, maxRows, storage)
    ensures SegmentsHaveRows(w'.segments)
    ensures var next := RowsToSeal(p.hash, w'.rows, Seals(w'.segments), t, n);
            var newest := IsNewest(Seals(w.segments), NewSeal(t, id, now, taken));
            && (newest <==> ListsNoneOf(next, taken))
            && next == if newest then RowsFrom(LedgerOf(w.ledger, t), |Entries(Seals(w'.segments), t)|, n)
                       else RowsToSeal(p.hash, w.rows, Seals(w.segments), t, n)
  {
    hide Safe, ChainSound, RowsToSeal, LedgerOf, Entries, Manifest, NoCollisions, IsNewest, SealTx, Seals, SegmentsHaveRows, ListsNoneOf,
         RowsFrom;
    TakenRows(p, w, t, maxRows, n, taken);
    SealTxAppends(p, w, t, id, now, maxRows, storage);
    RowsBehindSeal(p, w, t, NewSeal(t, id, now, taken), taken, n);
  }

  lemma FitsSealed(hash: RowHasher, rows: set<Row>, t: Uuid, chain: seq<Row>, entries: seq<ManifestRow>, n: nat)
    requires ChainFits(hash, rows, t, chain, entries)
    ensures AllHashed(ChainSlice(chain, |entries|, n))
    ensures ChainFits(hash, rows, t, chain, entries + Manifest(ChainSlice(chain, |entries|, n)))
  {
    SliceManifest(chain, |entries|, n);
  }

  lemma SealKeepsChainSound(p: Platform, w: World, tenant: Uuid, id: Uuid, now: int, maxRows: nat, storage: Storage, t: Uuid)
    requires Safe(p, w) && SegmentsHaveRows(w.segments) && ChainSound(p, w, t) && NoCollisions(w.ledger)
    ensures ChainSound(p, SealTx(p, w, tenant, id, now, maxRows, storage), t)
  {
    var w' := SealTx(p, w, tenant, id, now, maxRows, storage);
    var taken := RowsToSeal(p.hash, w.rows, Seals(w.segments), tenant, maxRows);
    if taken.Ok? && !storage.Unavailable? {
      assert maxRows >= 1;
      var s := NewSeal(tenant, id, now, taken.value);
      SealExtendsEntries(w.segments, w'.segments, s, t);
      var chain, entries := LedgerOf(w.ledger, t), Entries(Seals(w.segments), t);
      if t == tenant {
        SealTakesNextRows(p, w, tenant, maxRows);
        FitsSealed(p.hash, w.rows, t, chain, entries, maxRows);
        hide ChainFits, RowsToSeal, Manifest, Safe;
        assert Entries(Seals(w'.segments), t) == entries + s.rows;
      } else {
        assert entries + [] == entries;
      }
    }
  }

  lemma SealExtendsEntries(segments: seq<Segment>, segments': seq<Segment>, s: Seal, t: Uuid)
    requires |segments'| == |segments| + 1 && segments'[..|segments|] == segments && segments'[|segments|].seal == s
    ensures Entries(Seals(segments'), t) == Entries(Seals(segments), t) + if s.tenantId == t then s.rows else []
  {
    var after := Seals(segments');
    assert after[..|after| - 1] == Seals(segments) by {
      assert forall i :: 0 <= i < |segments| ==> segments'[i] == segments'[..|segments|][i];
    }
  }

  lemma SliceManifest(chain: seq<Row>, k: nat, n: nat)
    requires AllHashed(chain) && k <= |chain|
    ensures AllHashed(ChainSlice(chain, k, n))
    ensures Manifest(chain)[..k] + Manifest(ChainSlice(chain, k, n)) == Manifest(chain)[..k + |ChainSlice(chain, k, n)|]
  {
    var slice := ChainSlice(chain, k, n);
    forall i | 0 <= i < |slice| ensures slice[i] == chain[k + i] {
    }
  }

  // ----- cleanups -----

  /** A cleanup takes away sealed rows only. */
  lemma CleanupKeepsUnsealedRows(p: Platform, w: World, step: Step, t: Uuid)
    requires Safe(p, w) && step.Cleanup? && ChainSound(p, w, t)
    ensures var w' := CleanupTx(w, step.name, step.now, step.monthStart);
            && HashedRows(w'.rows, t) <= HashedRows(w.rows, t) && w'.segments == w.segments && w'.ledger == w.ledger
            && Covers(w'.rows, t, LedgerOf(w.ledger, t), |Entries(Seals(w.segments), t)|)
  {
    var w' := CleanupTx(w, step.name, step.now, step.monthStart);
    var chain, entries := LedgerOf(w.ledger, t), Entries(Seals(w.segments), t);
    LedgerOfMembers(w.ledger, t);
    forall i | |entries| <= i < |chain| ensures chain[i] in HashedRows(w'.rows, t) {
      var r := chain[i];
      assert r in chain && r in HashedRows(w.rows, t);
      if r !in w'.rows {
        assert InPartition(w.partitions[step.name], r);
        var g :| 0 <= g < |w.segments| && CoversForCleanup(w, w.segments[g], r, step.now);
        ListedRowsAreSealed(p, w, t, g, i);
      }
    }
  }

  lemma CleanupKeepsChainSound(p: Platform, w: World, step: Step, t: Uuid)
    requires Safe(p, w) && step.Cleanup? && ChainSound(p, w, t)
    requires NewestIsKept(LedgerOf(w.ledger, t), CleanupTx(w, step.name, step.now, step.monthStart).rows)
    ensures ChainSound(p, CleanupTx(w, step.name, step.now, step.monthStart), t)
  {
    hide CleanupTx, Safe, Intact, StrictlySorted, Manifest, LedgerOf, Entries;
    CleanupKeepsUnsealedRows(p, w, step, t);
    LedgerOfMembers(w.ledger, t);
  }

  lemma PlaceIsUnique(chain: seq<Row>, i: nat, j: nat)
    requires StrictlySorted(chain) && i < |chain| && j < |chain| && chain[i] == chain[j]
    ensures i == j
  {
  }

  /** A row of the chain that a segment of the tenant lists lies in the sealed prefix. */
  lemma ListedRowsAreSealed(p: Platform, w: World, t: Uuid, g: nat, i: nat)
    requires Safe(p, w) && ChainSound(p, w, t)
    requires g < |w.segments| && w.segments[g].seal.tenantId == t
    requires i < |LedgerOf(w.ledger, t)| && Listed(w.segments[g].seal, LedgerOf(w.ledger, t)[i].id)
    ensures i < |Entries(Seals(w.segments), t)|
  {
    var seals, chain := Seals(w.segments), LedgerOf(w.ledger, t);
    var k :| 0 <= k < |seals[g].rows| && seals[g].rows[k].id == chain[i].id;
    var pos := EntryPosition(seals, g, k);
    EntriesAreTheChains(p.hash, w.rows, t, chain, Entries(seals, t), pos);
    LedgerOfMembers(w.ledger, t);
    hide ChainSound, LedgerOf, Entries, SealsAccounted, AllHashed;
    assert chain[pos] in chain && chain[i] in chain;
    SameIdSameRow(w.ledger, chain[pos], chain[i]);
    PlaceIsUnique(chain, i, pos);
  }

  lemma EntriesAreTheChains(hash: RowHasher, rows: set<Row>, t: Uuid, chain: seq<Row>, entries: seq<ManifestRow>, pos: nat)
    requires ChainFits(hash, rows, t, chain, entries) && pos < |entries|
    ensures pos < |chain| && entries[pos].id == chain[pos].id && StrictlySorted(chain)
  {
    assert entries[pos] == Manifest(chain)[pos];
  }

  lemma SameIdSameRow(ledger: seq<Row>, a: Row, b: Row)
    requires forall i, j :: 0 <= i < j < |ledger| ==> ledger[i].id != ledger[j].id
    requires a in ledger && b in ledger && a.id == b.id
    ensures a == b
  {
    var i :| 0 <= i < |ledger| && ledger[i] == a;
    var j :| 0 <= j < |ledger| && ledger[j] == b;
  }

  // ----- every step, every run -----

  /** Only a cleanup that drops the tenant's newest hashed row, or an insert below one, can break the order. */
  lemma StepKeepsChainSound(p: Platform, w: World, step: Step, t: Uuid)
    requires UniqueKeys(w.rows) && SegmentsHaveRows(w.segments) && Safe(p, w) && NoCollisions(w.ledger)
    requires ChainSound(p, w, t) && InsertsInTime(p, w, step)
    requires step.Cleanup? ==> NewestIsKept(LedgerOf(w.ledger, t), CleanupTx(w, step.name, step.now, step.monthStart).rows)
    ensures ChainSound(p, Apply(p, w, step), t)
  {
    hide Safe, ChainSound, UniqueKeys, SegmentsHaveRows, NoCollisions, AfterChain, InsertTx, BackfillTx, SealTx,
         ClaimTx, CheckTx, CommitTx, FailTx, CreateHoldTx, ReleaseHoldTx, CleanupTx, NewestIsKept;
    match step
    case Insert(e, id, now) => InsertKeepsChainSound(p, w, e, id, now, t);
    case Backfill(tenant) => BackfillKeepsChainSound(p, w, tenant, t);
    case SealNext(tenant, id, now, maxRows, storage) => SealKeepsChainSound(p, w, tenant, id, now, maxRows, storage, t);
    case Cleanup(_, _, _) => CleanupKeepsChainSound(p, w, step, t);
    case _ => OtherStepsKeepChainSound(p, w, step, t);
  }

  /** Archive workers, holds and partitions do not touch rows, ledger or what is sealed. */
  lemma OtherStepsKeepChainSound(p: Platform, w: World, step: Step, t: Uuid)
    requires UniqueKeys(w.rows) && SegmentsHaveRows(w.segments) && ChainSound(p, w, t)
    requires !step.Insert? && !step.Backfill? && !step.SealNext? && !step.Cleanup?
    ensures ChainSound(p, Apply(p, w, step), t)
  {
    OtherStepsKeepSeals(p, w, step);
    OtherStepsKeepRows(p, w, step);
    hide Apply, ChainFits;
  }

  lemma OtherStepsKeepRows(p: Platform, w: World, step: Step)
    requires UniqueKeys(w.rows) && SegmentsHaveRows(w.segments)
    requires !step.Insert? && !step.Backfill? && !step.SealNext? && !step.Cleanup?
    ensures Apply(p, w, step).rows == w.rows && Apply(p, w, step).ledger == w.ledger
  {
  }

  ghost predicate ClockedRun(p: Platform, ws: seq<World>, steps: seq<Step>) {
    && Run(p, ws, steps)
    && forall i :: 0 <= i < |steps| ==> (UniqueKeys(ws[i].rows) ==> InsertsInTime(p, ws[i], steps[i]))
  }

  ghost predicate TimelyRun(p: Platform, ws: seq<World>, steps: seq<Step>) {
    && ClockedRun(p, ws, steps)
    && forall i :: 0 <= i < |steps| ==> KeepsNewest(ws[i], steps[i])
  }

  lemma ClockedStep(p: Platform, ws: seq<World>, steps: seq<Step>, i: nat)
    requires ClockedRun(p, ws, steps) && i < |steps|
    ensures Safe(p, ws[i]) && UniqueKeys(ws[i].rows) && SegmentsHaveRows(ws[i].segments)
    ensures Admissible(ws[i], steps[i]) && ws[i + 1] == Apply(p, ws[i], steps[i]) && InsertsInTime(p, ws[i], steps[i])
  {
    hide Safe, Admissible, Apply, InsertsInTime, UniqueKeys, SegmentsHaveRows;
    RunsAreSafe(p, ws, steps, i);
    SafeIsWellFormed(p, ws[i]);
    assert Next(p, ws[i], steps[i], ws[i + 1]);
  }

  /**
   Over every timely run, for every tenant: the rows that ever got a hash form one intact chain, and the
   segments' row lists, in seal order, concatenate to exactly a prefix of it, with the rest still in the table.
   */
  lemma {:induction false} SealingPartitionsTheChain(p: Platform, ws: seq<World>, steps: seq<Step>, i: nat)
    requires TimelyRun(p, ws, steps) && i < |ws| && NoCollisions(ws[i].ledger)
    ensures forall t: Uuid :: ChainSound(p, ws[i], t)
  {
    if i == 0 {
      InitialIsChainSound(p, ws[0]);
    } else {
      hide Run, ClockedRun, Next, NoCollisions, ChainSound, InsertsInTime, Apply, Safe, Admissible;
      LedgerKeepsNoCollisions(p, ws, steps, i - 1, i);
      SealingPartitionsTheChain(p, ws, steps, i - 1);
      ClockedStep(p, ws, steps, i - 1);
      assert KeepsNewest(ws[i - 1], steps[i - 1]);
      forall t: Uuid ensures ChainSound(p, ws[i], t) {
        StepKeepsChainSound(p, ws[i - 1], steps[i - 1], t);
      }
    }
  }

  lemma InitialIsChainSound(p: Platform, w: World)
    requires Initial(w)
    ensures forall t: Uuid :: ChainSound(p, w, t)
  {
    assert Seals(w.segments) == [];
  }

  // ----- verification requests -----

  /** While no cleanup has taken rows away, the table holds each tenant's whole chain. */
  ghost predicate NothingDropped(w: World) {
    forall r :: r in w.ledger ==> r in w.rows
  }

  lemma {:induction false} WithoutCleanupNothingIsDropped(p: Platform, ws: seq<World>, steps: seq<Step>, i: nat)
    requires Run(p, ws, steps) && i < |ws| && forall k :: 0 <= k < i ==> !steps[k].Cleanup?
    ensures NothingDropped(ws[i])
  {
    if i > 0 {
      WithoutCleanupNothingIsDropped(p, ws, steps, i - 1);
      RunsAreSafe(p, ws, steps, i - 1);
      SafeIsWellFormed(p, ws[i - 1]);
      assert Next(p, ws[i - 1], steps[i - 1], ws[i - 1 + 1]);
      StepDropsNothing(p, ws[i - 1], steps[i - 1]);
    }
  }

  lemma StepDropsNothing(p: Platform, w: World, step: Step)
    requires UniqueKeys(w.rows) && SegmentsHaveRows(w.segments) && NothingDropped(w) && !step.Cleanup?
    requires RowsAccounted(p.hash, w.rows, w.identities, w.ledger)
    ensures NothingDropped(Apply(p, w, step))
  {
  }

  /** Every verification request over such a run is answered "valid", whatever its limit and however tenants interleave. */
  lemma VerificationIsAlwaysValid(p: Platform, ws: seq<World>, steps: seq<Step>, i: nat, t: Uuid, limit: nat)
    requires TimelyRun(p, ws, steps) && i < |ws| && NoCollisions(ws[i].ledger)
    requires forall k :: 0 <= k < i ==> !steps[k].Cleanup?
    ensures UniqueKeys(ws[i].rows) && Chain(ws[i].rows, t) == LedgerOf(ws[i].ledger, t)
    ensures Verifies(p.hash, RecentWindow(ws[i].rows, t, limit))
  {
    hide Run, ChainSound, Safe, NothingDropped, UniqueKeys, InsertsInTime, KeepsNewest, RecentWindow, Verifies;
    RunsAreSafe(p, ws, steps, i);
    SafeIsWellFormed(p, ws[i]);
    SealingPartitionsTheChain(p, ws, steps, i);
    assert ChainSound(p, ws[i], t);
    WithoutCleanupNothingIsDropped(p, ws, steps, i);
    WholeChainVerifies(p, ws[i], t, limit);
  }

  lemma WholeChainVerifies(p: Platform, w: World, t: Uuid, limit: nat)
    requires UniqueKeys(w.rows) && ChainSound(p, w, t) && NothingDropped(w)
    ensures Chain(w.rows, t) == LedgerOf(w.ledger, t)
    ensures Verifies(p.hash, RecentWindow(w.rows, t, limit))
  {
    LedgerOfMembers(w.ledger, t);
    SortByKeyIs(HashedRows(w.rows, t), LedgerOf(w.ledger, t));
    hide LedgerOf, HashedRows, SortByKey, NothingDropped, StrictlySorted, Covers, Verifies, RecentWindow;
    WindowVerifies(p.hash, w.rows, t, limit);
  }

  lemma WindowVerifies(hash: RowHasher, rows: set<Row>, t: Uuid, limit: nat)
    requires UniqueKeys(rows) && Intact(hash, Chain(rows, t))
    ensures Verifies(hash, RecentWindow(rows, t, limit))
  {
    hide Chain, Verifies;
    var chain := Chain(rows, t);
    SliceVerifies(hash, chain, if limit < |chain| then |chain| - limit else 0, |chain|);
    assert chain[0..] == chain;
  }

  /**
   With cleanups, over every timely run: a verification request is answered "valid" exactly when nothing of the
   tenant's chain is missing between the oldest and the newest row it reads.
   */
  lemma VerifiesIffContiguous(p: Platform, ws: seq<World>, steps: seq<Step>, i: nat, t: Uuid, limit: nat)
    requires TimelyRun(p, ws, steps) && i < |ws| && NoCollisions(ws[i].ledger)
    ensures UniqueKeys(ws[i].rows)
    ensures var window, chain := RecentWindow(ws[i].rows, t, limit), LedgerOf(ws[i].ledger, t);
            Verifies(p.hash, window) <==> exists k :: 0 <= k <= |chain| && window == ChainSlice(chain, k, |window|)
  {
    hide Run, Safe, UniqueKeys, InsertsInTime, KeepsNewest, Verifies;
    RunsAreSafe(p, ws, steps, i);
    SafeIsWellFormed(p, ws[i]);
    SealingPartitionsTheChain(p, ws, steps, i);
    WindowIsOfLedger(p, ws[i], t, limit);
    VerifiesIffSlice(p.hash, LedgerOf(ws[i].ledger, t), RecentWindow(ws[i].rows, t, limit));
  }

  lemma WindowIsOfLedger(p: Platform, w: World, t: Uuid, limit: nat)
    requires UniqueKeys(w.rows) && ChainSound(p, w, t) && NoCollisions(w.ledger)
    ensures var window, chain := RecentWindow(w.rows, t, limit), LedgerOf(w.ledger, t);
            && Intact(p.hash, chain) && AllHashed(chain) && StrictlySorted(chain) && DistinctHashes(chain)
            && StrictlySorted(window) && forall r :: r in window ==> r in chain
  {
    LedgerHashesDistinct(w.ledger, t);
    ChainHoldsHashedRows(w.rows, t);
  }

  lemma VerifiesIffSlice(hash: RowHasher, chain: seq<Row>, left: seq<Row>)
    requires Intact(hash, chain) && AllHashed(chain) && StrictlySorted(chain) && DistinctHashes(chain)
    requires StrictlySorted(left) && forall r :: r in left ==> r in chain
    ensures Verifies(hash, left) <==> exists k :: 0 <= k <= |chain| && left == ChainSlice(chain, k, |left|)
  {
    if k :| 0 <= k <= |chain| && left == ChainSlice(chain, k, |left|) {
      SliceVerifies(hash, chain, k, |left|);
    }
    if Verifies(hash, left) {
      if left == [] {
        assert left == ChainSlice(chain, 0, 0);
      } else {
        assert left[0] in left;
        var k :| 0 <= k < |chain| && chain[k] == left[0];
        FollowsChain(hash, chain, left, k, |left| - 1);
        assert left == ChainSlice(chain, k, |left|);
      }
    }
  }

  lemma {:induction false} FollowsChain(hash: RowHasher, chain: seq<Row>, left: seq<Row>, k: nat, n: nat)
    requires Intact(hash, chain) && AllHashed(chain) && DistinctHashes(chain)
    requires Verifies(hash, left) && forall r :: r in left ==> r in chain
    requires k < |chain| && n < |left| && chain[k] == left[0]
    ensures k + n < |chain| && forall i :: 0 <= i <= n ==> left[i] == chain[k + i]
  {
    if n > 0 {
      FollowsChain(hash, chain, left, k, n - 1);
      assert Linked(left, n) && left[n] in left;
      var j :| 0 <= j < |chain| && chain[j] == left[n];
      assert Linked(chain, j);
      assert j > 0 && chain[j - 1].rowHash == chain[k + n - 1].rowHash;
      assert j - 1 == k + n - 1;
    }
  }

  // ----- how many seals a chain needs -----

  function Unsealed(w: World, t: Uuid): (n: int) {
    |LedgerOf(w.ledger, t)| - |Entries(Seals(w.segments), t)|
  }

  function SealsNeeded(rows: nat, maxRows: nat): (n: nat)
    requires maxRows >= 1
  {
    if rows == 0 then 0 else 1 + SealsNeeded(rows - Min(rows, maxRows), maxRows)
  }

  /** That is the quotient rounded up. */
  lemma {:induction false} SealsNeededIsCeiling(rows: nat, maxRows: nat)
    requires maxRows >= 1
    ensures var n := SealsNeeded(rows, maxRows); n * maxRows >= rows && (n > 0 ==> (n - 1) * maxRows < rows)
  {
    if rows > 0 {
      var rest := rows - Min(rows, maxRows);
      var m := SealsNeeded(rest, maxRows);
      SealsNeededIsCeiling(rest, maxRows);
      assert (m + 1) * maxRows == m * maxRows + maxRows;
      assert m > 0 ==> m * maxRows == (m - 1) * maxRows + maxRows;
    }
  }

  /** A run of seals of one tenant, with storage that answers. */
  ghost predicate SealRun(p: Platform, ws: seq<World>, steps: seq<Step>, t: Uuid, maxRows: nat) {
    && |ws| == |steps| + 1
    && forall i :: 0 <= i < |steps| ==>
         && steps[i].SealNext? && steps[i].tenant == t && steps[i].maxRows == maxRows && !steps[i].storage.Unavailable?
         && Next(p, ws[i], steps[i], ws[i + 1])
  }

  /**
   `n` unsealed rows take exactly ceil(n / max_rows) segments: each of the first so many seals adds
   one, and from then on the answer is that no unsealed rows are left.
   */
  lemma {:induction false} SealsUntilDone(p: Platform, ws: seq<World>, steps: seq<Step>, t: Uuid, maxRows: nat)
    requires SealRun(p, ws, steps, t, maxRows) && maxRows >= 1
    requires Safe(p, ws[0]) && ChainSound(p, ws[0], t) && NoCollisions(ws[0].ledger)
    ensures Unsealed(ws[0], t) >= 0
    ensures var last := ws[|steps|]; var needed := SealsNeeded(Unsealed(ws[0], t), maxRows);
            && |last.segments| == |ws[0].segments| + Min(|steps|, needed)
            && Safe(p, last) && SegmentsHaveRows(last.segments)
            && (RowsToSeal(p.hash, last.rows, Seals(last.segments), t, maxRows) == Err(NoUnsealedRows) <==> |steps| >= needed)
  {
    hide Safe, ChainSound, NoCollisions, RowsToSeal, SegmentsHaveRows, Seals, Next;
    SafeIsWellFormed(p, ws[0]);
    EntriesAreFewer(p, ws[0], t);
    if |steps| == 0 {
      SealTakesNextRows(p, ws[0], t, maxRows);
    } else {
      SealRunTail(p, ws, steps, t, maxRows);
      OneSealOfRun(p, ws[0], steps[0], ws[1], t);
      hide SealRun, Unsealed;
      SealsUntilDone(p, ws[1..], steps[1..], t, maxRows);
      assert ws[1..][|steps| - 1] == ws[|steps|];
    }
  }

  lemma SealRunTail(p: Platform, ws: seq<World>, steps: seq<Step>, t: Uuid, maxRows: nat)
    requires SealRun(p, ws, steps, t, maxRows) && |steps| > 0
    ensures SealRun(p, ws[1..], steps[1..], t, maxRows)
    ensures steps[0].SealNext? && steps[0].tenant == t && steps[0].maxRows == maxRows && !steps[0].storage.Unavailable?
    ensures Next(p, ws[0], steps[0], ws[1])
  {
    assert Next(p, ws[0], steps[0], ws[0 + 1]);
    hide Next;
    forall i | 0 <= i < |steps| - 1 ensures Next(p, ws[1..][i], steps[1..][i], ws[1..][i + 1]) {
      assert Next(p, ws[i + 1], steps[i + 1], ws[i + 1 + 1]);
    }
  }

  lemma OneSealOfRun(p: Platform, w: World, step: Step, w': World, t: Uuid)
    requires Safe(p, w) && ChainSound(p, w, t) && NoCollisions(w.ledger) && Next(p, w, step, w')
    requires step.SealNext? && step.tenant == t && step.maxRows >= 1 && !step.storage.Unavailable?
    ensures Safe(p, w') && ChainSound(p, w', t) && NoCollisions(w'.ledger)
    ensures var u := Unsealed(w, t);
            && u >= 0 && Unsealed(w', t) == u - Min(u, step.maxRows)
            && |w'.segments| == |w.segments| + if u > 0 then 1 else 0
  {
    SafeIsWellFormed(p, w);
    ApplyKeepsSafe(p, w, step);
    SealKeepsChainSound(p, w, t, step.segmentId, step.now, step.maxRows, step.storage, t);
    hide ChainSound;
    SealReducesUnsealed(p, w, step, t);
  }

  lemma EntriesAreFewer(p: Platform, w: World, t: Uuid)
    requires ChainSound(p, w, t)
    ensures Unsealed(w, t) >= 0
  {
  }

  lemma SealReducesUnsealed(p: Platform, w: World, step: Step, t: Uuid)
    requires Safe(p, w) && UniqueKeys(w.rows) && SegmentsHaveRows(w.segments) && ChainSound(p, w, t) && NoCollisions(w.ledger)
    requires step.SealNext? && step.tenant == t && step.maxRows >= 1 && !step.storage.Unavailable?
    ensures var w' := Apply(p, w, step); var u := Unsealed(w, t);
            && u >= 0 && w'.ledger == w.ledger
            && Unsealed(w', t) == u - Min(u, step.maxRows)
            && |w'.segments| == |w.segments| + if u > 0 then 1 else 0
  {
    hide ChainSound, Safe, UniqueKeys, NoCollisions, RowsToSeal, Manifest;
    assert Unsealed(w, t) >= 0 by {
      EntriesAreFewer(p, w, t);
    }
    SealTakesNextRows(p, w, t, step.maxRows);
    var w' := Apply(p, w, step);
    if Unsealed(w, t) > 0 {
      var taken := RowsToSeal(p.hash, w.rows, Seals(w.segments), t, step.maxRows).value;
      SealExtendsEntries(w.segments, w'.segments, NewSeal(t, step.segmentId, step.now, taken), t);
    }
  }
}
