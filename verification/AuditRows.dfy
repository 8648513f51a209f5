/**
 Audit rows, the text a row hash is computed over, and the verification of a window of
 stored rows. `sha` stands for the hexadecimal SHA-256 of the UTF-8 bytes of a text; nothing is
 assumed about it, so each theorem that needs collision resistance exhibits the colliding rows
 instead. UTF-8 is injective (`Utf8.EncodeIsInjective`), so two texts differ exactly when the
 hashed bytes do. The chain itself only ever uses the row hash as a function of a row's content
 and its predecessor's hash, and is stated for any such function.
 */
module AuditRows {
  import opened Options
  import CanonicalJson
  import Numerals

  type Digest = string -> string

  /** An audit entry as `NewAuditLog` carries it once its summaries are sanitised. */
  datatype Entry = Entry(
    tenantId: Uuid,
    actorUserId: Option<Uuid>,
    actorDeviceId: Option<Uuid>,
    sessionId: Option<Uuid>,
    resourceType: string,
    resourceId: string,
    action: string,
    decision: string,
    policyVersion: string,
    reasonCode: Option<string>,
    runId: Option<Uuid>,
    conversationId: Option<Uuid>,
    workflowRunId: Option<Uuid>,
    toolCallId: Option<Uuid>,
    approvalId: Option<Uuid>,
    argsHash: Option<string>,
    inputSummary: Option<string>,
    outputSummary: Option<string>,
    riskLevel: Option<string>,
    ip: Option<string>,
    userAgent: Option<string>,
    traceId: Option<string>)

  /** A row of `audit_logs`; historical rows have no `rowHash`. `createdAt` is in Unix nanoseconds. */
  datatype Row = Row(id: Uuid, createdAt: int, entry: Entry, prevHash: Option<string>, rowHash: Option<string>)

  /** The order of `ORDER BY created_at, id`. */
  predicate Before(a: Row, b: Row) {
    a.createdAt < b.createdAt || (a.createdAt == b.createdAt && a.id < b.id)
  }

  // ----- the hashed text -----

  /** The hyphenated lower-case text of a UUID. */
  function UuidText(u: Uuid): (s: string)
    ensures |s| == 36
  {
    var h := Numerals.Hex(u, 32);
    h[..8] + "-" + h[8..12] + "-" + h[12..16] + "-" + h[16..20] + "-" + h[20..]
  }

  function OptionalUuidText(u: Option<Uuid>): (s: Option<string>) {
    match u
    case None => None
    case Some(v) => Some(UuidText(v))
  }

  /** The keys of the canonical object, in the order a `BTreeMap` keeps them. */
  const CANONICAL_KEYS: seq<string> := [
    "action", "actor_device_id", "actor_user_id", "approval_id", "args_hash", "conversation_id",
    "created_at", "decision", "id", "input_summary", "ip", "output_summary", "policy_version",
    "reason_code", "resource_id", "resource_type", "risk_level", "run_id", "session_id",
    "tenant_id", "tool_call_id", "trace_id", "user_agent", "workflow_run_id"]

  function CanonicalValues(e: Entry, id: Uuid, createdAt: int): (values: seq<Option<string>>)
    ensures |values| == |CANONICAL_KEYS|
  {
    [Some(e.action), OptionalUuidText(e.actorDeviceId), OptionalUuidText(e.actorUserId),
     OptionalUuidText(e.approvalId), e.argsHash, OptionalUuidText(e.conversationId),
     Some(Numerals.DecimalInt(createdAt)), Some(e.decision), Some(UuidText(id)), e.inputSummary, e.ip,
     e.outputSummary, Some(e.policyVersion), e.reasonCode, Some(e.resourceId), Some(e.resourceType),
     e.riskLevel, OptionalUuidText(e.runId), OptionalUuidText(e.sessionId), Some(UuidText(e.tenantId)),
     OptionalUuidText(e.toolCallId), e.traceId, e.userAgent, OptionalUuidText(e.workflowRunId)]
  }

  function CanonicalAuditJson(e: Entry, id: Uuid, createdAt: int): (s: string) {
    CanonicalJson.EncodeObject(CANONICAL_KEYS, CanonicalValues(e, id, createdAt))
  }

  /** What is fed to the hasher: the canonical object, then the previous hash or nothing. */
  function Preimage(e: Entry, id: Uuid, createdAt: int, prevHash: Option<string>): (text: string) {
    CanonicalAuditJson(e, id, createdAt) + prevHash.GetOr("")
  }

  function ComputeAuditRowHash(sha: Digest, e: Entry, id: Uuid, createdAt: int, prevHash: Option<string>): (h: string) {
    sha(Preimage(e, id, createdAt, prevHash))
  }

  type RowHasher = (Entry, Uuid, int, Option<string>) -> string

  /** The hasher the platform uses. */
  function AuditRowHasher(sha: Digest): (hash: RowHasher) {
    (e: Entry, id: Uuid, createdAt: int, prevHash: Option<string>) => ComputeAuditRowHash(sha, e, id, createdAt, prevHash)
  }

  function RowHash(hash: RowHasher, r: Row): (h: string) {
    hash(r.entry, r.id, r.createdAt, r.prevHash)
  }

  /** The digits are the text without its hyphens. */
  lemma GroupsAreDigits(h: string)
    requires |h| == 32
    ensures var x := h[..8] + "-" + h[8..12] + "-" + h[12..16] + "-" + h[16..20] + "-" + h[20..];
            |x| == 36 && h == x[..8] + x[9..13] + x[14..18] + x[19..23] + x[24..]
  {
    var x := h[..8] + "-" + h[8..12] + "-" + h[12..16] + "-" + h[16..20] + "-" + h[20..];
    forall i | 0 <= i < 32 ensures h[i] == (x[..8] + x[9..13] + x[14..18] + x[19..23] + x[24..])[i] {
      var k := if i < 8 then i else if i < 12 then i + 1 else if i < 16 then i + 2 else if i < 20 then i + 3 else i + 4;
      assert x[k] == h[i];
    }
  }

  lemma UuidTextIsInjective(u: Uuid, v: Uuid)
    requires UuidText(u) == UuidText(v)
    ensures u == v
  {
    var s, t := Numerals.Hex(u, 32), Numerals.Hex(v, 32);
    GroupsAreDigits(s);
    GroupsAreDigits(t);
    Pow16Of32();
    Numerals.HexDenotes(u, 32);
    Numerals.HexDenotes(v, 32);
  }

  lemma Pow16Of32()
    ensures Numerals.Pow16(32) == 0x1_0000_0000_0000_0000_0000_0000_0000_0000
  {
    assert Numerals.Pow16(4) == 0x1_0000 by {
      assert Numerals.Pow16(2) == 256;
    }
    assert Numerals.Pow16(8) == 0x1_0000_0000 by {
      assert Numerals.Pow16(6) == 0x100_0000;
    }
    assert Numerals.Pow16(12) == 0x1_0000_0000_0000 by {
      assert Numerals.Pow16(10) == 0x100_0000_0000;
    }
    assert Numerals.Pow16(16) == 0x1_0000_0000_0000_0000 by {
      assert Numerals.Pow16(14) == 0x100_0000_0000_0000;
    }
    assert Numerals.Pow16(20) == 0x1_0000_0000_0000_0000_0000 by {
      assert Numerals.Pow16(18) == 0x100_0000_0000_0000_0000;
    }
    assert Numerals.Pow16(24) == 0x1_0000_0000_0000_0000_0000_0000 by {
      assert Numerals.Pow16(22) == 0x100_0000_0000_0000_0000_0000;
    }
    assert Numerals.Pow16(28) == 0x1_0000_0000_0000_0000_0000_0000_0000 by {
      assert Numerals.Pow16(26) == 0x100_0000_0000_0000_0000_0000_0000;
    }
    assert Numerals.Pow16(30) == 0x100_0000_0000_0000_0000_0000_0000_0000;
  }

  lemma OptionalUuidTextIsInjective(u: Option<Uuid>, v: Option<Uuid>)
    ensures OptionalUuidText(u) == OptionalUuidText(v) ==> u == v
  {
    if u.Some? && v.Some? && OptionalUuidText(u) == OptionalUuidText(v) {
      UuidTextIsInjective(u.value, v.value);
    }
  }

  lemma CanonicalValuesAreInjective(e: Entry, id: Uuid, at: int, f: Entry, jd: Uuid, bt: int)
    requires CanonicalValues(e, id, at) == CanonicalValues(f, jd, bt)
    ensures e == f && id == jd && at == bt
  {
    var v, w := CanonicalValues(e, id, at), CanonicalValues(f, jd, bt);
    OptionalUuidTextIsInjective(e.actorDeviceId, f.actorDeviceId);
    assert v[1] == w[1];
    OptionalUuidTextIsInjective(e.actorUserId, f.actorUserId);
    assert v[2] == w[2];
    OptionalUuidTextIsInjective(e.approvalId, f.approvalId);
    assert v[3] == w[3];
    OptionalUuidTextIsInjective(e.conversationId, f.conversationId);
    assert v[5] == w[5];
    assert v[6] == w[6];
    Numerals.DecimalIntIsInjective(at, bt);
    assert v[8] == w[8];
    UuidTextIsInjective(id, jd);
    OptionalUuidTextIsInjective(e.runId, f.runId);
    assert v[17] == w[17];
    OptionalUuidTextIsInjective(e.sessionId, f.sessionId);
    assert v[18] == w[18];
    assert v[19] == w[19];
    UuidTextIsInjective(e.tenantId, f.tenantId);
    OptionalUuidTextIsInjective(e.toolCallId, f.toolCallId);
    assert v[20] == w[20];
    OptionalUuidTextIsInjective(e.workflowRunId, f.workflowRunId);
    assert v[23] == w[23];
    assert v[0] == w[0] && v[4] == w[4] && v[7] == w[7] && v[9] == w[9] && v[10] == w[10] && v[11] == w[11];
    assert v[12] == w[12] && v[13] == w[13] && v[14] == w[14] && v[15] == w[15] && v[16] == w[16];
    assert v[21] == w[21] && v[22] == w[22];
  }

  /** The hashed text determines the row's content and its predecessor's hash (an absent one reading as the empty text). */
  lemma PreimageIsInjective(e: Entry, id: Uuid, at: int, p: Option<string>, f: Entry, jd: Uuid, bt: int, q: Option<string>)
    requires Preimage(e, id, at, p) == Preimage(f, jd, bt, q)
    ensures e == f && id == jd && at == bt && p.GetOr("") == q.GetOr("")
  {
    CanonicalJson.EncodeObjectIsPrefixFree(CANONICAL_KEYS, CanonicalValues(e, id, at), p.GetOr(""),
                                           CanonicalValues(f, jd, bt), q.GetOr(""));
    CanonicalValuesAreInjective(e, id, at, f, jd, bt);
  }

  // ----- verification of a window of stored rows -----

  predicate AllHashed(rows: seq<Row>) {
    forall i :: 0 <= i < |rows| ==> rows[i].rowHash.Some?
  }

  /** Row `i` continues the row before it in the window, if there is one. */
  predicate Linked(rows: seq<Row>, i: nat)
    requires i < |rows|
  {
    i > 0 ==> rows[i].prevHash == rows[i - 1].rowHash
  }

  predicate CorrectlyHashed(hash: RowHasher, r: Row) {
    r.rowHash == Some(RowHash(hash, r))
  }

  predicate Verifies(hash: RowHasher, rows: seq<Row>) {
    forall i {:trigger Linked(rows, i)} :: 0 <= i < |rows| ==> Linked(rows, i) && CorrectlyHashed(hash, rows[i])
  }

  datatype BreakReason = PrevHashMismatch | RowHashMismatch

  datatype Break = Break(
    auditId: Uuid, reason: BreakReason,
    expectedPrevHash: Option<string>, actualPrevHash: Option<string>,
    expectedRowHash: Option<string>, actualRowHash: Option<string>)

  datatype VerifyResponse = VerifyResponse(
    valid: bool, rowsChecked: nat, firstAuditId: Option<Uuid>, lastAuditId: Option<Uuid>,
    firstPrevHash: Option<string>, lastRowHash: Option<string>, brokenAt: Option<Break>)

  /** The hash of the row before position `k`, if any. */
  function HashBefore(rows: seq<Row>, k: nat): (h: Option<string>)
    requires k <= |rows|
  {
    if k == 0 then None else rows[k - 1].rowHash
  }

  /** The report names the first row that does not fit, and says which of the two tests it fails. */
  ghost predicate Reports(hash: RowHasher, rows: seq<Row>, r: VerifyResponse) {
    && r.firstAuditId == (if rows == [] then None else Some(rows[0].id))
    && r.lastAuditId == (if rows == [] then None else Some(rows[|rows| - 1].id))
    && r.firstPrevHash == (if rows == [] then None else rows[0].prevHash)
    && (r.valid <==> Verifies(hash, rows))
    && (r.valid ==> r.rowsChecked == |rows| && r.lastRowHash == HashBefore(rows, |rows|) && r.brokenAt == None)
    && (!r.valid ==>
          && 1 <= r.rowsChecked <= |rows|
          && var k := r.rowsChecked - 1;
          && Verifies(hash, rows[..k])
          && r.lastRowHash == HashBefore(rows, k)
          && (if !Linked(rows, k) then
                r.brokenAt == Some(Break(rows[k].id, PrevHashMismatch, HashBefore(rows, k), rows[k].prevHash,
                                         None, rows[k].rowHash))
              else
                && !CorrectlyHashed(hash, rows[k])
                && r.brokenAt == Some(Break(rows[k].id, RowHashMismatch, rows[k].prevHash, rows[k].prevHash,
                                            Some(RowHash(hash, rows[k])), rows[k].rowHash))))
  }

  lemma WindowExtends(hash: RowHasher, rows: seq<Row>, k: nat)
    requires k < |rows| && Verifies(hash, rows[..k]) && Linked(rows, k) && CorrectlyHashed(hash, rows[k])
    ensures Verifies(hash, rows[..k + 1])
  {
    var window := rows[..k + 1];
    forall i | 0 <= i < |window| ensures Linked(window, i) && CorrectlyHashed(hash, window[i]) {
      if i < k {
        assert Linked(rows[..k], i) && rows[..k][i] == rows[i];
      }
    }
  }

  method VerifyStoredAuditRows(hash: RowHasher, rows: seq<Row>) returns (r: VerifyResponse)
    requires AllHashed(rows)
    ensures Reports(hash, rows, r)
  {
    var firstId := if rows == [] then None else Some(rows[0].id);
    var lastId := if rows == [] then None else Some(rows[|rows| - 1].id);
    var firstPrev := if rows == [] then None else rows[0].prevHash;
    var previous: Option<string> := None;
    for index := 0 to |rows|
      invariant previous == HashBefore(rows, index)
      invariant Verifies(hash, rows[..index])
    {
      var row := rows[index];
      if previous.Some? && row.prevHash != previous {
        assert !Linked(rows, index);
        return VerifyResponse(false, index + 1, firstId, lastId, firstPrev, previous,
                              Some(Break(row.id, PrevHashMismatch, previous, row.prevHash, None, row.rowHash)));
      }
      var expected := RowHash(hash, row);
      if row.rowHash != Some(expected) {
        assert Linked(rows, index) && !CorrectlyHashed(hash, rows[index]);
        return VerifyResponse(false, index + 1, firstId, lastId, firstPrev, previous,
                              Some(Break(row.id, RowHashMismatch, row.prevHash, row.prevHash, Some(expected), row.rowHash)));
      }
      previous := row.rowHash;
      WindowExtends(hash, rows, index);
    }
    assert rows[..|rows|] == rows;
    return VerifyResponse(true, |rows|, firstId, lastId, firstPrev, previous, None);
  }

  // ----- the last hash commits to the history -----

  /** What a row hash is a function of: an absent predecessor hash reads as the empty text. */
  function HashInput(r: Row): (i: (Entry, Uuid, int, string)) {
    (r.entry, r.id, r.createdAt, r.prevHash.GetOr(""))
  }

  /** Some position holds two rows with different hash inputs and the same hash. */
  ghost predicate Collide(hash: RowHasher, a: seq<Row>, b: seq<Row>)
    requires |a| == |b|
  {
    exists i :: 0 <= i < |a| && HashInput(a[i]) != HashInput(b[i]) && RowHash(hash, a[i]) == RowHash(hash, b[i])
  }

  /**
   Two windows that verify and end in the same hash are the same rows, or exhibit a hash collision. Only the first
   predecessor hash may differ, and only in being absent or empty.
   */
  lemma LastHashCommitsToHistory(hash: RowHasher, a: seq<Row>, b: seq<Row>)
    requires |a| == |b| && AllHashed(a) && AllHashed(b)
    requires Verifies(hash, a) && Verifies(hash, b)
    requires HashBefore(a, |a|) == HashBefore(b, |b|)
    ensures Collide(hash, a, b)
         || (&& (forall i :: 0 < i < |a| ==> a[i] == b[i])
             && (a != [] ==> a[0] == b[0].(prevHash := a[0].prevHash) && HashInput(a[0]) == HashInput(b[0])))
    ensures Collide(hash, a, b) || a == b || a[0].prevHash == Some("") || b[0].prevHash == Some("")
  {
    if !Collide(hash, a, b) {
      HashCommitsUpTo(hash, a, b, |a|);
    }
  }

  lemma {:induction false} HashCommitsUpTo(hash: RowHasher, a: seq<Row>, b: seq<Row>, k: nat)
    requires |a| == |b| && AllHashed(a) && AllHashed(b)
    requires Verifies(hash, a) && Verifies(hash, b) && !Collide(hash, a, b)
    requires k <= |a| && HashBefore(a, k) == HashBefore(b, k)
    ensures forall i :: 0 <= i < k ==> HashInput(a[i]) == HashInput(b[i]) && a[i].rowHash == b[i].rowHash
    ensures forall i :: 0 < i < k ==> a[i] == b[i]
  {
    if k > 0 {
      var x, y := a[k - 1], b[k - 1];
      assert Linked(a, k - 1) && Linked(b, k - 1) && CorrectlyHashed(hash, x) && CorrectlyHashed(hash, y);
      assert HashInput(x) == HashInput(y);
      HashesMeetBefore(hash, a, b, k - 1);
      HashCommitsUpTo(hash, a, b, k - 1);
    }
  }

  /** Rows that link to hashed rows and have equal hash inputs link to the same hash. */
  lemma HashesMeetBefore(hash: RowHasher, a: seq<Row>, b: seq<Row>, k: nat)
    requires |a| == |b| && k < |a| && AllHashed(a) && AllHashed(b)
    requires Linked(a, k) && Linked(b, k) && HashInput(a[k]) == HashInput(b[k])
    ensures HashBefore(a, k) == HashBefore(b, k)
  {
    assert k > 0 ==> a[k].prevHash == a[k - 1].rowHash && b[k].prevHash == b[k - 1].rowHash;
  }

  /** With the platform's hasher such a collision is one of SHA-256: two different texts, one digest. */
  lemma RowHashCollisionIsDigestCollision(sha: Digest, x: Row, y: Row)
    requires HashInput(x) != HashInput(y) && RowHash(AuditRowHasher(sha), x) == RowHash(AuditRowHasher(sha), y)
    ensures Preimage(x.entry, x.id, x.createdAt, x.prevHash) != Preimage(y.entry, y.id, y.createdAt, y.prevHash)
    ensures sha(Preimage(x.entry, x.id, x.createdAt, x.prevHash)) == sha(Preimage(y.entry, y.id, y.createdAt, y.prevHash))
  {
    if Preimage(x.entry, x.id, x.createdAt, x.prevHash) == Preimage(y.entry, y.id, y.createdAt, y.prevHash) {
      PreimageIsInjective(x.entry, x.id, x.createdAt, x.prevHash, y.entry, y.id, y.createdAt, y.prevHash);
    }
  }

  /** Why an empty predecessor hash is excluded above: it hashes like an absent one, whatever the digest. */
  lemma EmptyPrevHashHashesLikeNone(sha: Digest, e: Entry, id: Uuid, at: int)
    ensures var hash := AuditRowHasher(sha);
            var h := Some(hash(e, id, at, None));
            var a, b := [Row(id, at, e, None, h)], [Row(id, at, e, Some(""), h)];
            Verifies(hash, a) && Verifies(hash, b) && HashBefore(a, 1) == HashBefore(b, 1) && a != b && !Collide(hash, a, b)
  {
    var hash := AuditRowHasher(sha);
    var h := Some(hash(e, id, at, None));
    var a, b := [Row(id, at, e, None, h)], [Row(id, at, e, Some(""), h)];
    assert Preimage(e, id, at, None) == Preimage(e, id, at, Some(""));
    assert CorrectlyHashed(hash, a[0]) && CorrectlyHashed(hash, b[0]);
    assert HashInput(a[0]) == HashInput(b[0]);
    assert a[0] != b[0];
  }

  // ----- which value stands under which key -----

  /** The value a JSON object has under a key, by position. */
  function Member(keys: seq<string>, values: seq<Option<string>>, key: string): (v: Option<Option<string>>)
    requires |keys| == |values|
  {
    if keys == [] then None
    else if keys[0] == key then Some(values[0])
    else Member(keys[1..], values[1..], key)
  }

  lemma {:induction false} MemberAt(keys: seq<string>, values: seq<Option<string>>, i: nat)
    requires |keys| == |values| && i < |keys| && forall j :: 0 <= j < i ==> keys[j] != keys[i]
    ensures Member(keys, values, keys[i]) == Some(values[i])
  {
    if i > 0 {
      MemberAt(keys[1..], values[1..], i - 1);
    }
  }

  lemma CanonicalKeysDiffer()
    ensures forall i, j :: 0 <= i < j < |CANONICAL_KEYS| ==> CANONICAL_KEYS[i] != CANONICAL_KEYS[j]
  {
  }

  /** What a reader of the hashed text finds under a name. */
  ghost predicate Finds(e: Entry, id: Uuid, createdAt: int, rest: string, key: string, value: Option<string>) {
    var r := CanonicalJson.ReadObject(24, CanonicalAuditJson(e, id, createdAt) + rest);
    r.Some? && |r.value.0| == |r.value.1| && Member(r.value.0, r.value.1, key) == Some(value) && r.value.2 == rest
  }

  lemma FindsAt(e: Entry, id: Uuid, createdAt: int, rest: string, i: nat)
    requires i < |CANONICAL_KEYS|
    ensures Finds(e, id, createdAt, rest, CANONICAL_KEYS[i], CanonicalValues(e, id, createdAt)[i])
  {
    CanonicalJson.ReadEncodedObject(CANONICAL_KEYS, CanonicalValues(e, id, createdAt), rest);
    CanonicalKeysDiffer();
    MemberAt(CANONICAL_KEYS, CanonicalValues(e, id, createdAt), i);
  }

  /**
   A reader of RFC 8259 finds each column of a row under its name in the hashed text, whatever stands behind it: first
   what every row has.
   */
  lemma HashedTextHoldsTheRow(e: Entry, id: Uuid, createdAt: int, rest: string)
    ensures Finds(e, id, createdAt, rest, "id", Some(UuidText(id)))
    ensures Finds(e, id, createdAt, rest, "tenant_id", Some(UuidText(e.tenantId)))
    ensures Finds(e, id, createdAt, rest, "resource_type", Some(e.resourceType))
    ensures Finds(e, id, createdAt, rest, "resource_id", Some(e.resourceId))
    ensures Finds(e, id, createdAt, rest, "action", Some(e.action))
    ensures Finds(e, id, createdAt, rest, "decision", Some(e.decision))
    ensures Finds(e, id, createdAt, rest, "policy_version", Some(e.policyVersion))
    ensures Finds(e, id, createdAt, rest, "created_at", Some(Numerals.DecimalInt(createdAt)))
  {
    hide Finds, UuidText;
    FindsAt(e, id, createdAt, rest, 8);
    FindsAt(e, id, createdAt, rest, 19);
    FindsAt(e, id, createdAt, rest, 15);
    FindsAt(e, id, createdAt, rest, 14);
    FindsAt(e, id, createdAt, rest, 0);
    FindsAt(e, id, createdAt, rest, 7);
    FindsAt(e, id, createdAt, rest, 12);
    FindsAt(e, id, createdAt, rest, 6);
  }

  /** The optional ids, null when absent. */
  lemma HashedTextHoldsTheIds(e: Entry, id: Uuid, createdAt: int, rest: string)
    ensures Finds(e, id, createdAt, rest, "actor_user_id", OptionalUuidText(e.actorUserId))
    ensures Finds(e, id, createdAt, rest, "actor_device_id", OptionalUuidText(e.actorDeviceId))
    ensures Finds(e, id, createdAt, rest, "session_id", OptionalUuidText(e.sessionId))
    ensures Finds(e, id, createdAt, rest, "run_id", OptionalUuidText(e.runId))
    ensures Finds(e, id, createdAt, rest, "conversation_id", OptionalUuidText(e.conversationId))
    ensures Finds(e, id, createdAt, rest, "workflow_run_id", OptionalUuidText(e.workflowRunId))
    ensures Finds(e, id, createdAt, rest, "tool_call_id", OptionalUuidText(e.toolCallId))
    ensures Finds(e, id, createdAt, rest, "approval_id", OptionalUuidText(e.approvalId))
  {
    hide Finds, UuidText;
    FindsAt(e, id, createdAt, rest, 2);
    FindsAt(e, id, createdAt, rest, 1);
    FindsAt(e, id, createdAt, rest, 18);
    FindsAt(e, id, createdAt, rest, 17);
    FindsAt(e, id, createdAt, rest, 5);
    FindsAt(e, id, createdAt, rest, 23);
    FindsAt(e, id, createdAt, rest, 20);
    FindsAt(e, id, createdAt, rest, 3);
  }

  /** The optional texts, null when absent. */
  lemma HashedTextHoldsTheTexts(e: Entry, id: Uuid, createdAt: int, rest: string)
    ensures Finds(e, id, createdAt, rest, "reason_code", e.reasonCode)
    ensures Finds(e, id, createdAt, rest, "args_hash", e.argsHash)
    ensures Finds(e, id, createdAt, rest, "input_summary", e.inputSummary)
    ensures Finds(e, id, createdAt, rest, "output_summary", e.outputSummary)
    ensures Finds(e, id, createdAt, rest, "risk_level", e.riskLevel)
    ensures Finds(e, id, createdAt, rest, "ip", e.ip)
    ensures Finds(e, id, createdAt, rest, "user_agent", e.userAgent)
    ensures Finds(e, id, createdAt, rest, "trace_id", e.traceId)
  {
    hide Finds, UuidText;
    FindsAt(e, id, createdAt, rest, 13);
    FindsAt(e, id, createdAt, rest, 4);
    FindsAt(e, id, createdAt, rest, 9);
    FindsAt(e, id, createdAt, rest, 11);
    FindsAt(e, id, createdAt, rest, 16);
    FindsAt(e, id, createdAt, rest, 10);
    FindsAt(e, id, createdAt, rest, 22);
    FindsAt(e, id, createdAt, rest, 21);
  }

  predicate LexBefore(a: string, b: string) {
    exists d :: 0 <= d < |a| && d < |b| && a[..d] == b[..d] && a[d] < b[d]
  }

  /** The keys stand in the order of a sorted map. */
  lemma CanonicalKeysAreSorted(i: nat)
    requires i + 1 < |CANONICAL_KEYS|
    ensures LexBefore(CANONICAL_KEYS[i], CANONICAL_KEYS[i + 1])
  {
    hide LexBefore;
    if i < 12 {
      FirstKeysAreSorted(i);
    } else {
      LastKeysAreSorted(i);
    }
  }

  lemma FirstKeysAreSorted(i: nat)
    requires i < 12 && i + 1 < |CANONICAL_KEYS|
    ensures LexBefore(CANONICAL_KEYS[i], CANONICAL_KEYS[i + 1])
  {
    var d: nat := [3, 6, 1, 1, 0, 1, 0, 0, 1, 1, 0, 0][i];
    assert CANONICAL_KEYS[i][d] < CANONICAL_KEYS[i + 1][d];
    assert CANONICAL_KEYS[i][..d] == CANONICAL_KEYS[i + 1][..d];
  }

  lemma LastKeysAreSorted(i: nat)
    requires 12 <= i && i + 1 < |CANONICAL_KEYS|
    ensures LexBefore(CANONICAL_KEYS[i], CANONICAL_KEYS[i + 1])
  {
    var d: nat := [0, 2, 9, 1, 1, 0, 0, 1, 1, 0, 0][i - 12];
    assert CANONICAL_KEYS[i][d] < CANONICAL_KEYS[i + 1][d];
    assert CANONICAL_KEYS[i][..d] == CANONICAL_KEYS[i + 1][..d];
  }
}
