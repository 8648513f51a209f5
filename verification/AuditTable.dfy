/**
 The table `audit_logs` as the chain transactions see it: the ordered queries, the insert,
 the backfill of historical rows and the walk along `prev_hash`. The table is a set of rows
 with distinct keys, as the primary key `(created_at, id)` guarantees.
 */
module AuditTable {
  import opened Options
  import opened AuditRows

  // ----- ORDER BY created_at, id -----

  predicate UniqueKeys(s: set<Row>) {
    forall a, b :: a in s && b in s && a != b ==> Before(a, b) || Before(b, a)
  }

  predicate IsLeast(s: set<Row>, m: Row) {
    m in s && forall r :: r in s && r != m ==> Before(m, r)
  }

  lemma {:induction false} LeastExists(s: set<Row>)
    requires s != {} && UniqueKeys(s)
    ensures exists m :: IsLeast(s, m)
  {
    var x :| x in s;
    if s == {x} {
      assert IsLeast(s, x);
    } else {
      var rest := s - {x};
      LeastExists(rest);
      var m :| IsLeast(rest, m);
      var least := if Before(x, m) then x else m;
      forall r | r in s && r != least ensures Before(least, r) {
        assert r == x || r == m || Before(m, r);
      }
      assert IsLeast(s, least);
    }
  }

  function SortByKey(s: set<Row>): (q: seq<Row>)
    requires UniqueKeys(s)
  {
    if s == {} then []
    else
      LeastExists(s);
      var m :| IsLeast(s, m);
      [m] + SortByKey(s - {m})
  }

  ghost predicate StrictlySorted(q: seq<Row>) {
    forall i, j :: 0 <= i < j < |q| ==> Before(q[i], q[j])
  }

  lemma FirstOfSorted(s: set<Row>) returns (m: Row)
    requires UniqueKeys(s) && s != {}
    ensures IsLeast(s, m) && SortByKey(s) == [m] + SortByKey(s - {m})
  {
    LeastExists(s);
    m := SortByKey(s)[0];
  }

  /** Ordering a set of rows loses nothing, repeats nothing and leaves each row after those before it. */
  lemma {:induction false} SortByKeySorts(s: set<Row>)
    requires UniqueKeys(s)
    ensures StrictlySorted(SortByKey(s)) && |SortByKey(s)| == |s|
    ensures forall r :: r in SortByKey(s) <==> r in s
  {
    if s != {} {
      var m := FirstOfSorted(s);
      hide SortByKey;
      var q, rest := SortByKey(s), SortByKey(s - {m});
      SortByKeySorts(s - {m});
      forall r ensures r in q <==> r in s {
        assert r in q <==> r == m || r in rest;
      }
      forall i, j | 0 <= i < j < |q| ensures Before(q[i], q[j]) {
        assert q[j] == rest[j - 1] && rest[j - 1] in rest;
        if i > 0 {
          assert q[i] == rest[i - 1];
        }
      }
    }
  }

  lemma EmptyIfNoMember(q: seq<Row>)
    ensures (forall r :: r !in q) <==> q == []
  {
    assert q != [] ==> q[0] in q;
  }

  /** There is only one way to order given rows by key. */
  lemma {:induction false} SortedIsUnique(a: seq<Row>, b: seq<Row>)
    requires StrictlySorted(a) && StrictlySorted(b)
    requires forall r :: r in a <==> r in b
    ensures a == b
  {
    if a == [] {
      EmptyIfNoMember(b);
    } else {
      assert a[0] in b && b != [];
      assert b[0] in a;
      assert a[0] == b[0];
      var x := a[0];
      forall r ensures r in a[1..] <==> r in b[1..] {
        assert r in a <==> r == x || r in a[1..];
        assert r in b <==> r == x || r in b[1..];
        assert x !in a[1..] && x !in b[1..];
      }
      SortedIsUnique(a[1..], b[1..]);
      assert a == [x] + a[1..] && b == [x] + b[1..];
    }
  }

  lemma SortByKeyIs(s: set<Row>, q: seq<Row>)
    requires UniqueKeys(s) && StrictlySorted(q)
    requires forall r :: r in q <==> r in s
    ensures SortByKey(s) == q
  {
    SortByKeySorts(s);
    SortedIsUnique(SortByKey(s), q);
  }

  // ----- the hashed rows of one tenant -----

  function HashedRows(rows: set<Row>, tenant: Uuid): (s: set<Row>) {
    set r | r in rows && r.entry.tenantId == tenant && r.rowHash.Some?
  }

  function UnhashedRows(rows: set<Row>, tenant: Uuid): (s: set<Row>) {
    set r | r in rows && r.entry.tenantId == tenant && r.rowHash.None?
  }

  /** A tenant's hashed rows, oldest first. */
  function Chain(rows: set<Row>, tenant: Uuid): (q: seq<Row>)
    requires UniqueKeys(rows)
  {
    SortByKey(HashedRows(rows, tenant))
  }

  lemma ChainHoldsHashedRows(rows: set<Row>, tenant: Uuid)
    requires UniqueKeys(rows)
    ensures StrictlySorted(Chain(rows, tenant)) && AllHashed(Chain(rows, tenant))
    ensures forall r :: r in Chain(rows, tenant) <==> r in HashedRows(rows, tenant)
  {
    SortByKeySorts(HashedRows(rows, tenant));
    var c := Chain(rows, tenant);
    forall i | 0 <= i < |c| ensures c[i].rowHash.Some? {
      assert c[i] in c;
    }
  }

  /** The newest `limit` hashed rows, oldest first: what a verification request reads. */
  function RecentWindow(rows: set<Row>, tenant: Uuid, limit: nat): (q: seq<Row>)
    requires UniqueKeys(rows)
  {
    var c := Chain(rows, tenant);
    if limit < |c| then c[|c| - limit..] else c
  }

  /**
   What a verification request reads: as many hashed rows of the tenant as the limit allows, in order, and none of the
   others is newer than one of them.
   */
  lemma WindowIsNewest(rows: set<Row>, tenant: Uuid, limit: nat)
    requires UniqueKeys(rows)
    ensures var w := RecentWindow(rows, tenant, limit); var hashed := HashedRows(rows, tenant);
            && StrictlySorted(w) && |w| == (if limit < |hashed| then limit else |hashed|)
            && (forall r :: r in w ==> r in hashed)
            && (forall r, x :: r in hashed && r !in w && x in w ==> Before(r, x))
  {
    hide StrictlySorted, Before;
    var c, n := Chain(rows, tenant), if limit < |HashedRows(rows, tenant)| then limit else |HashedRows(rows, tenant)|;
    ChainHoldsHashedRows(rows, tenant);
    SortByKeySorts(HashedRows(rows, tenant));
    WindowOfSorted(c, n);
  }

  lemma WindowOfSorted(c: seq<Row>, n: nat)
    requires StrictlySorted(c) && n <= |c|
    ensures var w := c[|c| - n..];
            StrictlySorted(w) && (forall r :: r in w ==> r in c) && (forall r, x :: r in c && r !in w && x in w ==> Before(r, x))
  {
    var w := c[|c| - n..];
    forall r, x | r in c && r !in w && x in w ensures Before(r, x) {
      var i :| 0 <= i < |c| && c[i] == r;
      var k :| 0 <= k < |w| && w[k] == x;
      BeforeWindow(c, w, i, k);
    }
  }

  lemma BeforeWindow(c: seq<Row>, w: seq<Row>, i: nat, k: nat)
    requires StrictlySorted(c) && |w| <= |c| && w == c[|c| - |w|..] && i < |c| && k < |w| && c[i] !in w
    ensures Before(c[i], w[k])
  {
    if i >= |c| - |w| {
      InWindow(c, w, i);
    }
  }

  lemma InWindow(c: seq<Row>, w: seq<Row>, i: nat)
    requires |w| <= |c| && w == c[|c| - |w|..] && |c| - |w| <= i < |c|
    ensures c[i] in w
  {
    assert c[i] == w[i - (|c| - |w|)];
  }

  /** A chain as the platform promises it: it starts without predecessor, and each row fits the one before. */
  ghost predicate Intact(hash: RowHasher, chain: seq<Row>) {
    Verifies(hash, chain) && (chain != [] ==> chain[0].prevHash == None)
  }

  // ----- insert_audit_log_tx -----

  function PreviousHash(rows: set<Row>, tenant: Uuid): (h: Option<string>)
    requires UniqueKeys(rows)
  {
    var c := Chain(rows, tenant);
    HashBefore(c, |c|)
  }

  /** The row an insert adds: linked to the tenant's newest hashed row. */
  function NewRow(hash: RowHasher, rows: set<Row>, e: Entry, id: Uuid, createdAt: int): (r: Row)
    requires UniqueKeys(rows)
  {
    var previous := PreviousHash(rows, e.tenantId);
    Row(id, createdAt, e, previous, Some(hash(e, id, createdAt, previous)))
  }

  /** The row holds the entry, the id and the time it was inserted with, and its own hash over them and the predecessor's. */
  lemma NewRowHoldsEntry(hash: RowHasher, rows: set<Row>, e: Entry, id: Uuid, createdAt: int)
    requires UniqueKeys(rows)
    ensures var r := NewRow(hash, rows, e, id, createdAt);
            && r.entry == e && r.id == id && r.createdAt == createdAt
            && r.prevHash == PreviousHash(rows, e.tenantId)
            && r.rowHash == Some(hash(e, id, createdAt, r.prevHash))
  {
  }

  ghost predicate AfterChain(rows: set<Row>, r: Row)
  {
    forall x :: x in HashedRows(rows, r.entry.tenantId) ==> Before(x, r)
  }

  lemma ChainOfInsert(rows: set<Row>, r: Row)
    requires UniqueKeys(rows) && UniqueKeys(rows + {r}) && r.rowHash.Some? && AfterChain(rows, r)
    ensures Chain(rows + {r}, r.entry.tenantId) == Chain(rows, r.entry.tenantId) + [r]
  {
    var t := r.entry.tenantId;
    ChainHoldsHashedRows(rows, t);
    var q := Chain(rows, t) + [r];
    forall i, j | 0 <= i < j < |q| ensures Before(q[i], q[j]) {
      assert q[i] in Chain(rows, t);
    }
    SortByKeyIs(HashedRows(rows + {r}, t), q);
  }

  lemma InsertKeepsChain(hash: RowHasher, rows: set<Row>, e: Entry, id: Uuid, createdAt: int)
    requires UniqueKeys(rows)
    requires var r := NewRow(hash, rows, e, id, createdAt); UniqueKeys(rows + {r}) && AfterChain(rows, r)
    requires Intact(hash, Chain(rows, e.tenantId))
    ensures var r := NewRow(hash, rows, e, id, createdAt);
            var c := Chain(rows + {r}, e.tenantId);
            Intact(hash, c) && c == Chain(rows, e.tenantId) + [r]
  {
    var r := NewRow(hash, rows, e, id, createdAt);
    ChainOfInsert(rows, r);
    var c := Chain(rows, e.tenantId);
    forall i | 0 <= i < |c| + 1 ensures Linked(c + [r], i) && CorrectlyHashed(hash, (c + [r])[i]) {
      if i < |c| {
        assert Linked(c, i) && CorrectlyHashed(hash, c[i]);
      }
    }
  }

  /**
   The clock assumption is exactly what an insert needs: with a hash no row of the chain has,
   the chain stays intact if and only if the new key is above every hashed key of the tenant.
   */
  lemma InsertKeepsChainIffNewest(hash: RowHasher, rows: set<Row>, e: Entry, id: Uuid, createdAt: int)
    requires UniqueKeys(rows)
    requires var r := NewRow(hash, rows, e, id, createdAt);
             UniqueKeys(rows + {r}) && r !in rows && forall x :: x in HashedRows(rows, e.tenantId) ==> x.rowHash != r.rowHash
    requires Intact(hash, Chain(rows, e.tenantId))
    ensures var r := NewRow(hash, rows, e, id, createdAt);
            Intact(hash, Chain(rows + {r}, e.tenantId)) <==> AfterChain(rows, r)
  {
    var r := NewRow(hash, rows, e, id, createdAt);
    var t := e.tenantId;
    if AfterChain(rows, r) {
      InsertKeepsChain(hash, rows, e, id, createdAt);
    } else if Intact(hash, Chain(rows + {r}, t)) {
      // the row after `r` would have to carry the new hash as its predecessor
      var x :| x in HashedRows(rows, t) && !Before(x, r);
      var next := RowAfter(rows + {r}, t, r, x);
      assert next.prevHash == r.rowHash by {
        var c := Chain(rows + {r}, t);
        var i :| 0 <= i < |c| - 1 && c[i] == r && c[i + 1] == next;
        assert Linked(c, i + 1);
      }
      ChainHoldsHashedRows(rows, t);
      PredecessorInChain(hash, Chain(rows, t), next);
      assert false;
    }
  }

  /** It breaks with two inserts of one tenant at one time, of which the second has the smaller id. */
  lemma TieBreaksChain(hash: RowHasher, e: Entry)
    ensures var a := NewRow(hash, {}, e, 5, 0); var b := NewRow(hash, {a}, e, 3, 0);
            && UniqueKeys({a, b})
            && Intact(hash, Chain({a}, e.tenantId))
            && b.prevHash == a.rowHash && Chain({a, b}, e.tenantId) == [b, a]
            && !Intact(hash, Chain({a, b}, e.tenantId))
  {
    var t := e.tenantId;
    assert HashedRows({}, t) == {};
    var a := NewRow(hash, {}, e, 5, 0);
    SortByKeyIs(HashedRows({a}, t), [a]);
    assert Linked([a], 0) && CorrectlyHashed(hash, [a][0]);
    var b := NewRow(hash, {a}, e, 3, 0);
    SortByKeyIs(HashedRows({a, b}, t), [b, a]);
  }

  lemma LaterInOrder(c: seq<Row>, i: nat, j: nat)
    requires StrictlySorted(c) && i < |c| && j < |c| && c[i] != c[j] && !Before(c[j], c[i])
    ensures i < j
  {
  }

  /** A row with a later row in its chain has a next row, which is another one. */
  lemma RowAfter(rows: set<Row>, t: Uuid, r: Row, later: Row) returns (next: Row)
    requires UniqueKeys(rows) && r in HashedRows(rows, t) && later in HashedRows(rows, t) && r != later && !Before(later, r)
    ensures next in HashedRows(rows, t) && next != r
    ensures exists i :: 0 <= i < |Chain(rows, t)| - 1 && Chain(rows, t)[i] == r && Chain(rows, t)[i + 1] == next
  {
    ChainHoldsHashedRows(rows, t);
    var c := Chain(rows, t);
    assert r in c && later in c;
    var i :| 0 <= i < |c| && c[i] == r;
    var j :| 0 <= j < |c| && c[j] == later;
    LaterInOrder(c, i, j);
    next := c[i + 1];
    assert next in c && Before(c[i], c[i + 1]);
  }

  lemma PredecessorInChain(hash: RowHasher, c: seq<Row>, x: Row)
    requires Intact(hash, c) && AllHashed(c) && x in c
    ensures x.prevHash == None || exists y :: y in c && y.rowHash == x.prevHash
  {
    var k :| 0 <= k < |c| && c[k] == x;
    assert Linked(c, k);
    if k > 0 {
      assert c[k - 1] in c;
    }
  }

  // ----- backfill_historical_audit_hashes -----

  function Rehash(hash: RowHasher, r: Row, prevHash: Option<string>): (r': Row) {
    r.(prevHash := prevHash, rowHash := Some(hash(r.entry, r.id, r.createdAt, prevHash)))
  }

  function LinkUp(hash: RowHasher, rows: seq<Row>, prevHash: Option<string>): (linked: seq<Row>)
    ensures |linked| == |rows|
  {
    if rows == [] then []
    else
      var r := Rehash(hash, rows[0], prevHash);
      [r] + LinkUp(hash, rows[1..], r.rowHash)
  }

  function SeqToSet(q: seq<Row>): (s: set<Row>) {
    set r | r in q
  }

  function BackfilledRows(hash: RowHasher, rows: set<Row>, tenant: Uuid): (rows': set<Row>)
    requires UniqueKeys(rows)
  {
    var unhashed := UnhashedRows(rows, tenant);
    (rows - unhashed) + SeqToSet(LinkUp(hash, SortByKey(unhashed), None))
  }

  predicate SameContent(a: Row, b: Row) {
    a.id == b.id && a.createdAt == b.createdAt && a.entry == b.entry
  }

  lemma {:induction false} LinkUpAt(hash: RowHasher, rows: seq<Row>, prevHash: Option<string>, i: nat)
    requires i < |rows|
    ensures var linked := LinkUp(hash, rows, prevHash);
            linked[i] == Rehash(hash, rows[i], if i == 0 then prevHash else linked[i - 1].rowHash)
  {
    if i > 0 {
      LinkUpAt(hash, rows[1..], Rehash(hash, rows[0], prevHash).rowHash, i - 1);
    }
  }

  lemma {:induction false} LinkUpLinks(hash: RowHasher, rows: seq<Row>, prevHash: Option<string>)
    ensures var linked := LinkUp(hash, rows, prevHash);
            && (forall i :: 0 <= i < |rows| ==> SameContent(linked[i], rows[i]) && CorrectlyHashed(hash, linked[i]))
            && (forall i :: 0 <= i < |rows| ==> linked[i].prevHash == if i == 0 then prevHash else linked[i - 1].rowHash)
  {
    if rows != [] {
      var r := Rehash(hash, rows[0], prevHash);
      LinkUpLinks(hash, rows[1..], r.rowHash);
    }
  }

  /** The unhashed rows in order, and what they become. */
  lemma BackfillPairs(hash: RowHasher, rows: set<Row>, tenant: Uuid)
    requires UniqueKeys(rows)
    ensures var q := SortByKey(UnhashedRows(rows, tenant));
            var linked := LinkUp(hash, q, None);
            && StrictlySorted(q) && StrictlySorted(linked)
            && (forall r :: r in q <==> r in UnhashedRows(rows, tenant))
            && (forall i :: 0 <= i < |q| ==> SameContent(linked[i], q[i]) && CorrectlyHashed(hash, linked[i]))
            && Intact(hash, linked)
  {
    var q := SortByKey(UnhashedRows(rows, tenant));
    SortByKeySorts(UnhashedRows(rows, tenant));
    LinkUpLinks(hash, q, None);
    var linked := LinkUp(hash, q, None);
    forall i, j | 0 <= i < j < |linked| ensures Before(linked[i], linked[j]) {
      assert SameContent(linked[i], q[i]) && SameContent(linked[j], q[j]) && Before(q[i], q[j]);
    }
  }

  /** The row that a backfilled one was before, and the other way round. */
  lemma BackfillImage(hash: RowHasher, rows: set<Row>, tenant: Uuid, r: Row)
    requires UniqueKeys(rows)
    ensures r in rows ==> exists r' :: r' in BackfilledRows(hash, rows, tenant) && SameContent(r, r')
    ensures r in BackfilledRows(hash, rows, tenant) ==> exists o :: o in rows && SameContent(o, r)
                                                         && (o in UnhashedRows(rows, tenant) || o == r)
  {
    BackfillPairs(hash, rows, tenant);
    var q := SortByKey(UnhashedRows(rows, tenant));
    var linked := LinkUp(hash, q, None);
    if r in rows {
      if r in q {
        var i :| 0 <= i < |q| && q[i] == r;
        assert linked[i] in linked && SameContent(r, linked[i]);
        assert linked[i] in BackfilledRows(hash, rows, tenant);
      } else {
        assert r in BackfilledRows(hash, rows, tenant) && SameContent(r, r);
      }
    }
    if r in BackfilledRows(hash, rows, tenant) {
      if r in linked {
        var i :| 0 <= i < |linked| && linked[i] == r;
        assert SameContent(linked[i], q[i]) && q[i] in q;
      } else {
        assert SameContent(r, r);
      }
    }
  }

  lemma KeyOfOther(rows: set<Row>, r': Row, r: Row, other: Row)
    requires UniqueKeys(rows) && r in rows && other in rows && r != other && SameContent(r', r)
    ensures Before(r', other) || Before(other, r')
  {
  }

  lemma UniqueKeysOfUnion(kept: set<Row>, q: seq<Row>)
    requires UniqueKeys(kept) && StrictlySorted(q)
    requires forall i, b :: 0 <= i < |q| && b in kept ==> Before(q[i], b) || Before(b, q[i])
    ensures UniqueKeys(kept + SeqToSet(q))
  {
  }

  lemma BackfillUniqueKeys(hash: RowHasher, rows: set<Row>, tenant: Uuid)
    requires UniqueKeys(rows)
    ensures UniqueKeys(BackfilledRows(hash, rows, tenant))
  {
    BackfillPairs(hash, rows, tenant);
    hide SortByKey, LinkUp, Verifies;
    var q := SortByKey(UnhashedRows(rows, tenant));
    var linked := LinkUp(hash, q, None);
    var kept := rows - UnhashedRows(rows, tenant);
    forall i, b | 0 <= i < |linked| && b in kept ensures Before(linked[i], b) || Before(b, linked[i]) {
      assert q[i] in q;
      KeyOfOther(rows, linked[i], q[i], b);
    }
    UniqueKeysOfUnion(kept, linked);
  }

  /** After a backfill the tenant's chain is its historical rows in order, linked from no predecessor. */
  lemma ChainOfBackfill(hash: RowHasher, rows: set<Row>, tenant: Uuid)
    requires UniqueKeys(rows) && HashedRows(rows, tenant) == {}
    ensures UniqueKeys(BackfilledRows(hash, rows, tenant))
    ensures Chain(BackfilledRows(hash, rows, tenant), tenant) == LinkUp(hash, SortByKey(UnhashedRows(rows, tenant)), None)
    ensures Intact(hash, Chain(BackfilledRows(hash, rows, tenant), tenant))
    ensures UnhashedRows(BackfilledRows(hash, rows, tenant), tenant) == {}
  {
    BackfillUniqueKeys(hash, rows, tenant);
    BackfillPairs(hash, rows, tenant);
    var q := SortByKey(UnhashedRows(rows, tenant));
    var linked := LinkUp(hash, q, None);
    var rows' := BackfilledRows(hash, rows, tenant);
    forall r ensures r in linked <==> r in HashedRows(rows', tenant) {
      if r in linked {
        var i :| 0 <= i < |linked| && linked[i] == r;
        assert SameContent(linked[i], q[i]) && q[i] in q;
      } else {
        assert r in rows' ==> r in rows && r !in HashedRows(rows, tenant);
      }
    }
    SortByKeyIs(HashedRows(rows', tenant), linked);
  }

  lemma BackfillLeavesOtherTenants(hash: RowHasher, rows: set<Row>, tenant: Uuid, t: Uuid)
    requires UniqueKeys(rows) && t != tenant
    ensures UniqueKeys(BackfilledRows(hash, rows, tenant))
    ensures Chain(BackfilledRows(hash, rows, tenant), t) == Chain(rows, t)
  {
    BackfillUniqueKeys(hash, rows, tenant);
    BackfillPairs(hash, rows, tenant);
    var q := SortByKey(UnhashedRows(rows, tenant));
    var linked := LinkUp(hash, q, None);
    forall r | r in linked ensures r.entry.tenantId == tenant {
      var i :| 0 <= i < |linked| && linked[i] == r;
      assert SameContent(linked[i], q[i]) && q[i] in q;
    }
    assert HashedRows(BackfilledRows(hash, rows, tenant), t) == HashedRows(rows, t);
  }
}
