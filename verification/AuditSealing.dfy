/**
 Sealing: the walk along `prev_hash` that collects the next unsealed rows, the segment a seal
 appends, and the worker's question which tenants have something to seal.
 */
module AuditSealing {
  import opened Options
  import opened AuditRows
  import opened AuditTable

  /** One item of `audit_rows` in a segment manifest. */
  datatype ManifestRow = ManifestRow(id: Uuid, prevHash: Option<string>, rowHash: string, createdAt: int)

  function ManifestOf(r: Row): (m: ManifestRow)
    requires r.rowHash.Some?
  {
    ManifestRow(r.id, r.prevHash, r.rowHash.value, r.createdAt)
  }

  /** The immutable part of a row of `audit_hash_chain_segments`; never without rows. */
  datatype Seal = Seal(id: Uuid, tenantId: Uuid, rows: seq<ManifestRow>, sealedAt: int)

  predicate NonEmpty(s: Seal) { s.rows != [] }

  function LastRowHash(s: Seal): (h: string)
    requires NonEmpty(s)
  {
    s.rows[|s.rows| - 1].rowHash
  }

  datatype SealError = NoUnsealedRows | ForkDetected | InvalidSegment | ObjectStoreFailed

  // ----- load_last_audit_segment_tx -----

  predicate SealedBefore(a: Seal, b: Seal) {
    a.sealedAt < b.sealedAt || (a.sealedAt == b.sealedAt && a.id < b.id)
  }

  /** The tenant's segment that is last by `(sealed_at, id)`. */
  function LatestSeal(seals: seq<Seal>, tenant: Uuid): (s: Option<Seal>)
    ensures s.Some? ==> s.value in seals && s.value.tenantId == tenant
    ensures s == None ==> forall x :: x in seals ==> x.tenantId != tenant
    ensures s.Some? ==> forall x :: x in seals && x.tenantId == tenant ==> x == s.value || !SealedBefore(s.value, x)
  {
    if seals == [] then None
    else
      var last := seals[|seals| - 1];
      var before := LatestSeal(seals[..|seals| - 1], tenant);
      assert seals == seals[..|seals| - 1] + [last];
      if last.tenantId == tenant && (before == None || SealedBefore(before.value, last)) then Some(last) else before
  }

  function SealedHash(seals: seq<Seal>, tenant: Uuid): (h: Option<string>)
    requires forall s :: s in seals ==> NonEmpty(s)
  {
    match LatestSeal(seals, tenant)
    case None => None
    case Some(s) => Some(LastRowHash(s))
  }

  /** The latest segment has the highest sealing time of the tenant, and among those with that time the highest id. */
  lemma LatestIsHighest(seals: seq<Seal>, tenant: Uuid, s: Seal)
    requires LatestSeal(seals, tenant) == Some(s)
    ensures s in seals && s.tenantId == tenant
    ensures forall x :: x in seals && x.tenantId == tenant ==> x.sealedAt < s.sealedAt || (x.sealedAt == s.sealedAt && x.id <= s.id)
  {
    hide LatestSeal;
  }

  /** A new segment is the one the next walk continues exactly when its `(sealed_at, id)` is above the latest so far. */
  lemma SealedHashAfterSeal(seals: seq<Seal>, s: Seal)
    requires NonEmpty(s) && forall x :: x in seals ==> NonEmpty(x)
    ensures SealedHash(seals + [s], s.tenantId)
         == if IsNewest(seals, s) then Some(LastRowHash(s)) else SealedHash(seals, s.tenantId)
  {
    var after := seals + [s];
    assert after[..|after| - 1] == seals;
  }

  predicate IsNewest(seals: seq<Seal>, s: Seal) {
    var latest := LatestSeal(seals, s.tenantId);
    latest == None || SealedBefore(latest.value, s)
  }

  // ----- load_next_chain_rows_tx -----

  /** The hashed rows whose predecessor hash is `cursor`. */
  function Candidates(rows: set<Row>, tenant: Uuid, cursor: Option<string>): (s: set<Row>) {
    set r | r in HashedRows(rows, tenant) && r.prevHash == cursor
  }

  /** Up to `n` rows, each the only candidate after the one before it. */
  function NextChainRows(rows: set<Row>, tenant: Uuid, cursor: Option<string>, n: nat): (r: Result<seq<Row>, SealError>)
    decreases n
  {
    var candidates := Candidates(rows, tenant, cursor);
    if n == 0 || candidates == {} then Ok([])
    else if |candidates| > 1 then Err(ForkDetected)
    else
      SoleMember(candidates);
      var next :| next in candidates;
      match NextChainRows(rows, tenant, next.rowHash, n - 1)
      case Err(e) => Err(e)
      case Ok(rest) => Ok([next] + rest)
  }

  /** The hash row `k` has to continue, when the rows continue from `start`. */
  function RowToContinue(start: Option<string>, rows: seq<Row>, k: nat): (h: Option<string>)
    requires k <= |rows|
  {
    if k == 0 then start else rows[k - 1].rowHash
  }

  predicate RowsLinkedFrom(start: Option<string>, rows: seq<Row>) {
    forall i {:trigger RowToContinue(start, rows, i)} :: 0 <= i < |rows| ==> rows[i].prevHash == RowToContinue(start, rows, i)
  }

  lemma LinkedCons(start: Option<string>, first: Row, rest: seq<Row>)
    requires first.prevHash == start && RowsLinkedFrom(first.rowHash, rest)
    ensures RowsLinkedFrom(start, [first] + rest)
  {
    var rows := [first] + rest;
    forall i | 0 <= i < |rows| ensures rows[i].prevHash == RowToContinue(start, rows, i) {
      if i > 0 {
        assert rest[i - 1].prevHash == RowToContinue(first.rowHash, rest, i - 1);
      }
    }
  }

  /** What the walk returns continues from the cursor, link by link, through hashed rows of the tenant. */
  lemma {:induction false} WalkIsLinked(rows: set<Row>, tenant: Uuid, cursor: Option<string>, n: nat)
    ensures var r := NextChainRows(rows, tenant, cursor, n);
            && (r.Err? ==> r.error == ForkDetected)
            && (r.Ok? ==> |r.value| <= n)
            && (r.Ok? && n > 0 ==> (r.value == [] <==> Candidates(rows, tenant, cursor) == {}))
            && (r.Ok? ==> (forall x :: x in r.value ==> x in HashedRows(rows, tenant)) && RowsLinkedFrom(cursor, r.value))
    decreases n
  {
    var candidates := Candidates(rows, tenant, cursor);
    if n > 0 && candidates != {} && |candidates| <= 1 {
      SoleMember(candidates);
      var next :| next in candidates;
      WalkIsLinked(rows, tenant, next.rowHash, n - 1);
      var rest := NextChainRows(rows, tenant, next.rowHash, n - 1);
      if rest.Ok? {
        LinkedCons(cursor, next, rest.value);
      }
    }
  }

  lemma SoleMember(s: set<Row>)
    requires s != {} && |s| <= 1
    ensures exists x :: x in s
    ensures forall x, y :: x in s && y in s ==> x == y
  {
    var x :| x in s;
    assert |s - {x}| == 0;
    assert s == (s - {x}) + {x};
  }

  function Prepend(q: seq<Row>, r: Result<seq<Row>, SealError>): (p: Result<seq<Row>, SealError>) {
    match r
    case Err(e) => Err(e)
    case Ok(rest) => Ok(q + rest)
  }

  method LoadNextChainRows(rows: set<Row>, tenant: Uuid, previousHash: Option<string>, maxRows: nat)
    returns (r: Result<seq<Row>, SealError>)
    ensures r == NextChainRows(rows, tenant, previousHash, maxRows)
  {
    var found: seq<Row> := [];
    var cursor := previousHash;
    assert NextChainRows(rows, tenant, cursor, maxRows).Ok? ==>
             found + NextChainRows(rows, tenant, cursor, maxRows).value == NextChainRows(rows, tenant, cursor, maxRows).value;
    for i := 0 to maxRows
      invariant NextChainRows(rows, tenant, previousHash, maxRows)
             == Prepend(found, NextChainRows(rows, tenant, cursor, maxRows - i))
    {
      var candidates := Candidates(rows, tenant, cursor);
      if candidates == {} {
        assert found + [] == found;
        return Ok(found);
      }
      if |candidates| > 1 {
        return Err(ForkDetected);
      }
      SoleMember(candidates);
      var next :| next in candidates;
      ghost var rest := NextChainRows(rows, tenant, next.rowHash, maxRows - i - 1);
      assert rest.Ok? ==> found + ([next] + rest.value) == found + [next] + rest.value;
      cursor := next.rowHash;
      found := found + [next];
    }
    assert found + [] == found;
    return Ok(found);
  }

  // ----- seal_audit_hash_chain -----

  /** The rows a seal would take, or why it takes none. */
  function RowsToSeal(hash: RowHasher, rows: set<Row>, seals: seq<Seal>, tenant: Uuid, maxRows: nat): (r: Result<seq<Row>, SealError>)
    requires forall s :: s in seals ==> NonEmpty(s)
    ensures r.Ok? ==> r.value != [] && |r.value| <= maxRows && AllHashed(r.value) && Verifies(hash, r.value)
  {
    WalkIsLinked(rows, tenant, SealedHash(seals, tenant), maxRows);
    match NextChainRows(rows, tenant, SealedHash(seals, tenant), maxRows)
    case Err(e) => Err(e)
    case Ok(next) =>
      if next == [] then Err(NoUnsealedRows)
      else if !Verifies(hash, next) then Err(InvalidSegment)
      else Ok(next)
  }

  function Manifest(rows: seq<Row>): (m: seq<ManifestRow>)
    requires AllHashed(rows)
    ensures |m| == |rows|
    ensures forall i :: 0 <= i < |rows| ==> m[i] == ManifestOf(rows[i])
  {
    seq(|rows|, i requires 0 <= i < |rows| => ManifestOf(rows[i]))
  }

  // ----- find_tenants_with_unsealed_hash_chain_rows -----

  /** The join of the worker's query: a hashed row that starts, or continues, the tenant's sealed part. */
  predicate HasUnsealedRows(rows: set<Row>, seals: seq<Seal>, tenant: Uuid)
    requires forall s :: s in seals ==> NonEmpty(s)
  {
    exists r :: r in rows && r.entry.tenantId == tenant && r.rowHash.Some?
             && match LatestSeal(seals, tenant)
                case None => r.prevHash == None
                case Some(s) => r.prevHash == Some(LastRowHash(s))
  }

  /** The worker's query selects exactly the tenants whose next seal finds a row, in every state of the tables. */
  lemma WorkerQueryIsExact(hash: RowHasher, rows: set<Row>, seals: seq<Seal>, tenant: Uuid, maxRows: nat)
    requires forall s :: s in seals ==> NonEmpty(s)
    requires maxRows >= 1
    ensures HasUnsealedRows(rows, seals, tenant) <==> RowsToSeal(hash, rows, seals, tenant, maxRows) != Err(NoUnsealedRows)
  {
    var cursor := SealedHash(seals, tenant);
    WalkIsLinked(rows, tenant, cursor, maxRows);
    assert HasUnsealedRows(rows, seals, tenant) <==> Candidates(rows, tenant, cursor) != {} by {
      if Candidates(rows, tenant, cursor) != {} {
        var r :| r in Candidates(rows, tenant, cursor);
      }
      if HasUnsealedRows(rows, seals, tenant) {
        var r :| r in rows && r.entry.tenantId == tenant && r.rowHash.Some? && r.prevHash == cursor;
        assert r in Candidates(rows, tenant, cursor);
      }
    }
  }

  function UnsealedTenants(rows: set<Row>, seals: seq<Seal>): (s: set<Uuid>)
    requires forall s :: s in seals ==> NonEmpty(s)
    ensures forall t :: t in s <==> HasUnsealedRows(rows, seals, t)
  {
    set r | r in rows && HasUnsealedRows(rows, seals, r.entry.tenantId) :: r.entry.tenantId
  }

  predicate IsLeastId(s: set<Uuid>, m: Uuid) {
    m in s && forall x :: x in s ==> m <= x
  }

  lemma {:induction false} LeastIdExists(s: set<Uuid>)
    requires s != {}
    ensures exists m :: IsLeastId(s, m)
  {
    var y :| y in s;
    if s == {y} {
      assert IsLeastId(s, y);
    } else {
      LeastIdExists(s - {y});
      var m :| IsLeastId(s - {y}, m);
      var least := if y < m then y else m;
      forall x | x in s ensures least <= x {
        assert x == y || x in s - {y};
      }
      assert IsLeastId(s, least);
    }
  }

  /** `ORDER BY tenant_id LIMIT`: the least ids, in order. */
  function FirstTenants(s: set<Uuid>, limit: nat): (q: seq<Uuid>)
    decreases limit
  {
    if s == {} || limit == 0 then []
    else
      LeastIdExists(s);
      var m :| IsLeastId(s, m);
      [m] + FirstTenants(s - {m}, limit - 1)
  }

  /** `find_tenants_with_unsealed_hash_chain_rows` with its limit, which is at least one. */
  function SelectTenants(rows: set<Row>, seals: seq<Seal>, limit: int): (q: seq<Uuid>)
    requires forall s :: s in seals ==> NonEmpty(s)
  {
    FirstTenants(UnsealedTenants(rows, seals), if limit < 1 then 1 else limit)
  }

  function Below(s: set<Uuid>, t: Uuid): (b: set<Uuid>) {
    set u | u in s && u < t
  }

  lemma {:induction false} FirstTenantsIff(s: set<Uuid>, limit: nat, t: Uuid)
    ensures t in FirstTenants(s, limit) <==> t in s && |Below(s, t)| < limit
    decreases limit
  {
    if s != {} && limit > 0 {
      var m := FirstTenants(s, limit)[0];
      assert IsLeastId(s, m) && FirstTenants(s, limit) == [m] + FirstTenants(s - {m}, limit - 1);
      FirstTenantsIff(s - {m}, limit - 1, t);
      if t == m {
        assert Below(s, t) == {};
      } else if t in s {
        assert Below(s, t) == Below(s - {m}, t) + {m};
      }
    }
  }

  /**
   The query returns a tenant if and only if its next seal finds a row and fewer tenants with smaller ids than the
   limit have unsealed rows as well.
   */
  lemma WorkerQueryWithLimit(hash: RowHasher, rows: set<Row>, seals: seq<Seal>, limit: int, tenant: Uuid, maxRows: nat)
    requires forall s :: s in seals ==> NonEmpty(s)
    requires maxRows >= 1
    ensures tenant in SelectTenants(rows, seals, limit) <==>
              && RowsToSeal(hash, rows, seals, tenant, maxRows) != Err(NoUnsealedRows)
              && |Below(UnsealedTenants(rows, seals), tenant)| < if limit < 1 then 1 else limit
  {
    WorkerQueryIsExact(hash, rows, seals, tenant, maxRows);
    hide RowsToSeal, HasUnsealedRows;
    FirstTenantsIff(UnsealedTenants(rows, seals), if limit < 1 then 1 else limit, tenant);
  }

  // ----- walking an intact chain -----

  /** `chain` accounts for every hashed row of the tenant, and from position `k` on nothing of it is missing. */
  ghost predicate Covers(rows: set<Row>, tenant: Uuid, chain: seq<Row>, k: nat) {
    && (forall r :: r in HashedRows(rows, tenant) ==> r in chain)
    && (forall i :: k <= i < |chain| ==> chain[i] in HashedRows(rows, tenant))
  }

  ghost predicate DistinctHashes(chain: seq<Row>) {
    forall i, j :: 0 <= i < j < |chain| ==> chain[i].rowHash != chain[j].rowHash
  }

  lemma CandidatesInChain(hash: RowHasher, rows: set<Row>, tenant: Uuid, chain: seq<Row>, k: nat)
    requires Intact(hash, chain) && AllHashed(chain) && DistinctHashes(chain) && k <= |chain| && Covers(rows, tenant, chain, k)
    ensures Candidates(rows, tenant, HashBefore(chain, k)) == if k < |chain| then {chain[k]} else {}
  {
    var cursor := HashBefore(chain, k);
    if k < |chain| {
      assert Linked(chain, k);
    }
    forall r | r in Candidates(rows, tenant, cursor) ensures k < |chain| && r == chain[k] {
      var i :| 0 <= i < |chain| && chain[i] == r;
      assert Linked(chain, i) && CorrectlyHashed(hash, chain[i]);
      if k == 0 {
        assert i == 0;
      } else {
        assert i > 0 && chain[i - 1].rowHash == chain[k - 1].rowHash;
        assert i == k;
      }
    }
  }

  lemma WalkStep(rows: set<Row>, tenant: Uuid, cursor: Option<string>, n: nat, next: Row, rest: seq<Row>)
    requires n > 0 && Candidates(rows, tenant, cursor) == {next}
    requires NextChainRows(rows, tenant, next.rowHash, n - 1) == Ok(rest)
    ensures NextChainRows(rows, tenant, cursor, n) == Ok([next] + rest)
  {
    assert |{next}| == 1;
  }

  lemma WalkEnd(rows: set<Row>, tenant: Uuid, cursor: Option<string>, n: nat)
    requires n == 0 || Candidates(rows, tenant, cursor) == {}
    ensures NextChainRows(rows, tenant, cursor, n) == Ok([])
  {
  }

  /** At most `n` rows of the chain, from position `k` on. */
  function ChainSlice(chain: seq<Row>, k: nat, n: nat): (q: seq<Row>)
    requires k <= |chain|
  {
    if k + n <= |chain| then chain[k..k + n] else chain[k..]
  }

  /** On an intact chain the walk from position `k` returns exactly the next rows of the chain, and never a fork. */
  lemma {:induction false} WalkFollowsChain(hash: RowHasher, rows: set<Row>, tenant: Uuid, chain: seq<Row>, k: nat, n: nat)
    requires Intact(hash, chain) && AllHashed(chain) && DistinctHashes(chain) && k <= |chain| && Covers(rows, tenant, chain, k)
    ensures NextChainRows(rows, tenant, HashBefore(chain, k), n) == Ok(ChainSlice(chain, k, n))
    decreases n
  {
    hide Intact, DistinctHashes, AllHashed, Candidates, NextChainRows, HashedRows;
    CandidatesInChain(hash, rows, tenant, chain, k);
    if n == 0 || k == |chain| {
      WalkEnd(rows, tenant, HashBefore(chain, k), n);
      assert ChainSlice(chain, k, n) == [];
    } else {
      WalkFollowsChain(hash, rows, tenant, chain, k + 1, n - 1);
      WalkStep(rows, tenant, HashBefore(chain, k), n, chain[k], ChainSlice(chain, k + 1, n - 1));
      assert ChainSlice(chain, k, n) == [chain[k]] + ChainSlice(chain, k + 1, n - 1);
    }
  }
}
