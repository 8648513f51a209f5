/**
 Automatic credential rotation: workers claim due credentials, ask the gateway for a new
 secret reference and record success or failure. Workers interleave freely, may be slow or
 crash, and a claim that has gone stale is taken up again under the same attempt id.
 */
module CredentialRotation {
  import opened Options

  // ----- tables -----

  /** `enabled` stands for automatic rotation being on, the status active and the credential not revoked. */
  datatype Credential = Credential(
    secretRef: string, enabled: bool, nextRotationAt: int, expiresAt: Option<int>, rotateBefore: int, interval: int,
    startedAt: Option<int>, claimId: Option<Uuid>, rotationAttempts: nat)

  datatype AttemptStatus = Running | Succeeded | Failed

  datatype Attempt = Attempt(credentialId: Uuid, status: AttemptStatus)

  /** What a worker carries from its claim to its last update. */
  datatype Claim = Claim(attemptId: Uuid, credentialId: Uuid, secretRef: string, interval: int)

  datatype Rotated = Rotated(secretRef: string, expiresAt: Option<int>)

  datatype World = World(credentials: map<Uuid, Credential>, attempts: map<Uuid, Attempt>, claims: map<nat, Claim>)

  const LOCAL_PREFIX: string := "local://"

  /** The candidates of `claim_due_rotations`. */
  predicate Due(c: Credential, now: int, staleAfter: nat) {
    && c.enabled
    && !(LOCAL_PREFIX <= c.secretRef)
    && (c.nextRotationAt <= now || (c.expiresAt.Some? && c.expiresAt.value <= now + c.rotateBefore))
    && (c.startedAt.None? || c.startedAt.value < now - staleAfter)
  }

  /** Claiming keeps the id of a claim that is still open, so a stale claim continues as the same attempt. */
  function ClaimTx(w: World, worker: nat, id: Uuid, freshId: Uuid, now: int, staleAfter: nat): (w': World) {
    if id !in w.credentials || !Due(w.credentials[id], now, staleAfter) then w
    else
      var c := w.credentials[id];
      var attemptId := c.claimId.GetOr(freshId);
      World(w.credentials[id := c.(startedAt := Some(now), claimId := Some(attemptId))],
            if attemptId in w.attempts then w.attempts else w.attempts[attemptId := Attempt(id, Running)],
            w.claims[worker := Claim(attemptId, id, c.secretRef, c.interval)])
  }

  /** `WHERE id = $1 AND rotation_claim_id = $2` finds the row. */
  predicate StillActive(credentials: map<Uuid, Credential>, claim: Claim) {
    claim.credentialId in credentials && credentials[claim.credentialId].claimId == Some(claim.attemptId)
  }

  /** `UPDATE llm_credential_rotation_attempts ... WHERE id = $1 AND status = 'running'` */
  function EndAttempt(attempts: map<Uuid, Attempt>, id: Uuid, status: AttemptStatus): (a: map<Uuid, Attempt>) {
    if id in attempts && attempts[id].status == Running then attempts[id := attempts[id].(status := status)] else attempts
  }

  /** A success whose claim is no longer active changes nothing; its worker goes on to record a failure. */
  function SucceedTx(w: World, worker: nat, rotated: Rotated, now: int): (w': World) {
    if worker !in w.claims || !StillActive(w.credentials, w.claims[worker]) then w
    else
      var claim := w.claims[worker];
      var c := w.credentials[claim.credentialId];
      World(w.credentials[claim.credentialId :=
              c.(secretRef := rotated.secretRef, expiresAt := rotated.expiresAt, nextRotationAt := now + claim.interval,
                 startedAt := None, claimId := None, rotationAttempts := 0)],
            EndAttempt(w.attempts, claim.attemptId, Succeeded),
            w.claims - {worker})
  }

  function Min(a: nat, b: nat): (m: nat) { if a <= b then a else b }

  function Power2(n: nat): (p: nat) {
    if n == 0 then 1 else 2 * Power2(n - 1)
  }

  /** `LEAST(3600, 60 * power(2, LEAST(rotation_attempts, 5)))` */
  function RetryDelay(rotationAttempts: nat): (seconds: nat) {
    Min(3600, 60 * Power2(Min(rotationAttempts, 5)))
  }

  function FailTx(w: World, worker: nat, now: int): (w': World) {
    if worker !in w.claims then w
    else
      var claim := w.claims[worker];
      World(if StillActive(w.credentials, claim) then
              var c := w.credentials[claim.credentialId];
              w.credentials[claim.credentialId :=
                c.(startedAt := None, claimId := None, rotationAttempts := c.rotationAttempts + 1,
                   nextRotationAt := now + RetryDelay(c.rotationAttempts))]
            else w.credentials,
            EndAttempt(w.attempts, claim.attemptId, Failed),
            w.claims - {worker})
  }

  /** The retry delay grows with each failure and stays between one and thirty-two minutes; the bound of an hour never takes effect. */
  lemma {:induction false} RetryDelayBounds(a: nat, b: nat)
    requires a <= b
    ensures 60 <= RetryDelay(a) <= RetryDelay(b) <= 1920
    ensures RetryDelay(a) == 60 * Power2(Min(a, 5))
  {
    Power2Grows(Min(a, 5), Min(b, 5));
    Power2Grows(0, Min(a, 5));
    Power2Grows(Min(b, 5), 5);
    assert Power2(5) == 32 by {
      assert Power2(3) == 8;
    }
  }

  lemma {:induction false} Power2Grows(a: nat, b: nat)
    requires a <= b
    ensures Power2(a) <= Power2(b)
    decreases b
  {
    if a < b {
      Power2Grows(a, b - 1);
    }
  }

  /** After a recorded failure the credential is due again once its delay has passed, or as soon as it is about to expire. */
  lemma FailedCredentialRests(w: World, worker: nat, now: int, t: int, staleAfter: nat)
    requires worker in w.claims && StillActive(w.credentials, w.claims[worker])
    ensures var id := w.claims[worker].credentialId; var c := w.credentials[id];
            && id in FailTx(w, worker, now).credentials
            && var c' := FailTx(w, worker, now).credentials[id];
            Due(c', t, staleAfter) <==>
              && c.enabled && !("local://" <= c.secretRef)
              && (t - now >= RetryDelay(c.rotationAttempts) || (c.expiresAt.Some? && c.expiresAt.value <= t + c.rotateBefore))
  {
    hide RetryDelay;
  }

  /** An ending step touches the credential and the attempt of its claim and nothing else. */
  predicate OnlyTouches(w: World, w': World, claim: Claim) {
    && w'.credentials.Keys == w.credentials.Keys && w'.attempts.Keys == w.attempts.Keys
    && (forall id :: id in w.credentials && id != claim.credentialId ==> w'.credentials[id] == w.credentials[id])
    && (forall a :: a in w.attempts && a != claim.attemptId ==> w'.attempts[a] == w.attempts[a])
  }

  /**
   A recorded success gives the credential the answer's reference and expiry, forgets its failures and rests it: it is
   due again once the interval of its claim has passed, or as soon as the new expiry is near.
   */
  lemma SucceededCredentialRests(w: World, worker: nat, rotated: Rotated, now: int, t: int, staleAfter: nat)
    requires worker in w.claims && StillActive(w.credentials, w.claims[worker])
    ensures var claim := w.claims[worker]; var w' := SucceedTx(w, worker, rotated, now);
            && OnlyTouches(w, w', claim) && w'.claims == w.claims - {worker}
            && claim.credentialId in w'.credentials
            && var c, c' := w.credentials[claim.credentialId], w'.credentials[claim.credentialId];
            && c'.secretRef == rotated.secretRef && c'.expiresAt == rotated.expiresAt && c'.enabled == c.enabled
            && c'.claimId == None && c'.rotationAttempts == 0
            && (Due(c', t, staleAfter) <==>
                  && c.enabled && !("local://" <= rotated.secretRef)
                  && (t - now >= claim.interval || (rotated.expiresAt.Some? && rotated.expiresAt.value - t <= c.rotateBefore)))
            && (claim.attemptId in w.attempts && w.attempts[claim.attemptId].status == Running ==>
                  w'.attempts[claim.attemptId] == w.attempts[claim.attemptId].(status := Succeeded))
  {
  }

  /** A recorded failure leaves reference and expiry alone, counts one more attempt and ends its own. */
  lemma FailureIsCounted(w: World, worker: nat, now: int)
    requires worker in w.claims && StillActive(w.credentials, w.claims[worker])
    ensures var claim := w.claims[worker]; var w' := FailTx(w, worker, now);
            && OnlyTouches(w, w', claim) && w'.claims == w.claims - {worker}
            && claim.credentialId in w'.credentials
            && var c, c' := w.credentials[claim.credentialId], w'.credentials[claim.credentialId];
            && c'.secretRef == c.secretRef && c'.expiresAt == c.expiresAt && c'.enabled == c.enabled
            && c'.claimId == None && c'.rotationAttempts == c.rotationAttempts + 1
            && (claim.attemptId in w.attempts && w.attempts[claim.attemptId].status == Running ==>
                  w'.attempts[claim.attemptId] == w.attempts[claim.attemptId].(status := Failed))
  {
    hide RetryDelay;
  }

  /** The schedule of a credential, apart from who is at work on it. */
  predicate IsScheduled(c: Credential, t: int) {
    && c.enabled && !("local://" <= c.secretRef)
    && (t >= c.nextRotationAt || (c.expiresAt.Some? && c.expiresAt.value - t <= c.rotateBefore))
  }

  /**
   A claim is given for a scheduled credential that nobody is at work on, or whose claim has gone stale. It carries the
   reference and the interval along, opens an attempt or goes on with the open one, and keeps others away exactly until
   it has gone stale itself: a crashed claim is taken up again.
   */
  lemma ClaimedCredentialRests(w: World, worker: nat, id: Uuid, freshId: Uuid, now: int, staleAfter: nat, t: int)
    requires id in w.credentials && freshId !in w.attempts && t >= now
    ensures var c := w.credentials[id]; var w' := ClaimTx(w, worker, id, freshId, now, staleAfter);
            if IsScheduled(c, now) && (c.startedAt.Some? ==> now - c.startedAt.value > staleAfter) then
              var attemptId := if c.claimId.Some? then c.claimId.value else freshId;
              && w'.claims == w.claims[worker := Claim(attemptId, id, c.secretRef, c.interval)]
              && w'.credentials.Keys == w.credentials.Keys
              && (forall x :: x in w.credentials && x != id ==> w'.credentials[x] == w.credentials[x])
              && w'.credentials[id].claimId == Some(attemptId)
              && (c.claimId.None? ==> w'.attempts == w.attempts[freshId := Attempt(id, Running)])
              && (c.claimId.Some? && attemptId in w.attempts ==> w'.attempts == w.attempts)
              && (Due(w'.credentials[id], t, staleAfter) <==> IsScheduled(c, t) && t - now > staleAfter)
            else w' == w
  {
  }

  // ----- the store -----

  datatype Summary = Summary(claimed: nat, succeeded: nat, failed: nat)

  /** The gateway has answered, and the claim is still active. */
  predicate Succeeds(w: World, worker: nat, answer: Result<Rotated, ()>) {
    answer.Ok? && worker in w.claims && StillActive(w.credentials, w.claims[worker])
  }

  /** A success, or a failure of the gateway or of the claim. */
  function ProcessOne(w: World, worker: nat, answer: Result<Rotated, ()>, now: int): (w': World) {
    if Succeeds(w, worker, answer) then SucceedTx(w, worker, answer.value, now) else FailTx(w, worker, now)
  }

  /** A claimed batch, one claim after the other. */
  function ProcessAll(w: World, workers: seq<nat>, answers: seq<Result<Rotated, ()>>, now: int): (w': World)
    requires |workers| == |answers|
  {
    if workers == [] then w
    else
      var k := |workers| - 1;
      ProcessOne(ProcessAll(w, workers[..k], answers[..k], now), workers[k], answers[k], now)
  }

  /** How many of the batch succeed, each in the state the ones before it leave. */
  function SucceededIn(w: World, workers: seq<nat>, answers: seq<Result<Rotated, ()>>, now: int): (n: nat)
    requires |workers| == |answers|
  {
    if workers == [] then 0
    else
      var k := |workers| - 1;
      SucceededIn(w, workers[..k], answers[..k], now)
      + if Succeeds(ProcessAll(w, workers[..k], answers[..k], now), workers[k], answers[k]) then 1 else 0
  }

  class CredentialStore {
    var credentials: map<Uuid, Credential>
    var attempts: map<Uuid, Attempt>
    ghost var claims: map<nat, Claim>

    ghost function Tables(): (w: World)
      reads this
    {
      World(credentials, attempts, claims)
    }

    method ClaimDueRotation(ghost worker: nat, id: Uuid, freshId: Uuid, now: int, staleAfter: nat) returns (claim: Option<Claim>)
      modifies this
      ensures Tables() == ClaimTx(old(Tables()), worker, id, freshId, now, staleAfter)
      ensures claim.Some? <==> id in old(credentials) && Due(old(credentials)[id], now, staleAfter)
      ensures claim.Some? ==> worker in claims && claims[worker] == claim.value
    {
      if id !in credentials || !Due(credentials[id], now, staleAfter) {
        return None;
      }
      var c := credentials[id];
      var attemptId := c.claimId.GetOr(freshId);
      credentials := credentials[id := c.(startedAt := Some(now), claimId := Some(attemptId))];
      if attemptId !in attempts {
        attempts := attempts[attemptId := Attempt(id, Running)];
      }
      claim := Some(Claim(attemptId, id, c.secretRef, c.interval));
      claims := claims[worker := claim.value];
    }

    method PersistRotationSuccess(ghost worker: nat, claim: Claim, rotated: Rotated, now: int) returns (updated: bool)
      requires worker in claims && claims[worker] == claim
      modifies this
      ensures Tables() == SucceedTx(old(Tables()), worker, rotated, now)
      ensures updated <==> StillActive(old(credentials), claim)
    {
      if !StillActive(credentials, claim) {
        return false;
      }
      var c := credentials[claim.credentialId];
      credentials := credentials[claim.credentialId :=
        c.(secretRef := rotated.secretRef, expiresAt := rotated.expiresAt, nextRotationAt := now + claim.interval,
           startedAt := None, claimId := None, rotationAttempts := 0)];
      if claim.attemptId in attempts && attempts[claim.attemptId].status == Running {
        attempts := attempts[claim.attemptId := attempts[claim.attemptId].(status := Succeeded)];
      }
      claims := claims - {worker};
      return true;
    }

    method RecordRotationFailure(ghost worker: nat, claim: Claim, now: int)
      requires worker in claims && claims[worker] == claim
      modifies this
      ensures Tables() == FailTx(old(Tables()), worker, now)
    {
      if StillActive(credentials, claim) {
        var c := credentials[claim.credentialId];
        credentials := credentials[claim.credentialId :=
          c.(startedAt := None, claimId := None, rotationAttempts := c.rotationAttempts + 1,
             nextRotationAt := now + RetryDelay(c.rotationAttempts))];
      }
      if claim.attemptId in attempts && attempts[claim.attemptId].status == Running {
        attempts := attempts[claim.attemptId := attempts[claim.attemptId].(status := Failed)];
      }
      claims := claims - {worker};
    }

    method ProcessClaim(ghost worker: nat, claim: Claim, answer: Result<Rotated, ()>, now: int) returns (succeeded: bool)
      requires worker in claims && claims[worker] == claim
      modifies this
      ensures Tables() == ProcessOne(old(Tables()), worker, answer, now)
      ensures succeeded <==> Succeeds(old(Tables()), worker, answer)
      ensures forall n :: n != worker && n in old(claims) ==> n in claims && claims[n] == old(claims)[n]
    {
      succeeded := false;
      if answer.Ok? {
        succeeded := PersistRotationSuccess(worker, claim, answer.value, now);
      }
      if !succeeded {
        RecordRotationFailure(worker, claim, now);
      }
    }

    /** The loop of `process_due_credential_rotations` over what it has claimed. */
    method ProcessClaims(ghost workers: seq<nat>, batch: seq<Claim>, answers: seq<Result<Rotated, ()>>, now: int)
      returns (summary: Summary)
      requires |workers| == |batch| == |answers|
      requires forall i, j :: 0 <= i < j < |workers| ==> workers[i] != workers[j]
      requires forall i :: 0 <= i < |workers| ==> workers[i] in claims && claims[workers[i]] == batch[i]
      modifies this
      ensures Tables() == ProcessAll(old(Tables()), workers, answers, now)
      ensures summary.claimed == |batch|
      ensures summary.succeeded == SucceededIn(old(Tables()), workers, answers, now)
      ensures summary.failed == |batch| - summary.succeeded
    {
      hide ProcessOne, Succeeds;
      summary := Summary(|batch|, 0, 0);
      for i := 0 to |batch|
        invariant Tables() == ProcessAll(old(Tables()), workers[..i], answers[..i], now)
        invariant summary.claimed == |batch| && summary.failed == i - summary.succeeded
        invariant summary.succeeded == SucceededIn(old(Tables()), workers[..i], answers[..i], now)
        invariant forall j :: i <= j < |workers| ==> workers[j] in claims && claims[workers[j]] == batch[j]
      {
        assert workers[..i + 1][..i] == workers[..i] && answers[..i + 1][..i] == answers[..i];
        var succeeded := ProcessClaim(workers[i], batch[i], answers[i], now);
        if succeeded {
          summary := summary.(succeeded := summary.succeeded + 1);
        } else {
          summary := summary.(failed := summary.failed + 1);
        }
      }
      assert workers[..|batch|] == workers && answers[..|batch|] == answers;
    }
  }

  // ----- interleavings -----

  datatype Step =
    | ClaimDue(worker: nat, id: Uuid, freshId: Uuid, now: int)
    | Succeed(worker: nat, rotated: Rotated, now: int)
    | Fail(worker: nat, now: int)
    | Crash(worker: nat)

  function Apply(w: World, step: Step, staleAfter: nat): (w': World) {
    match step
    case ClaimDue(worker, id, freshId, now) => ClaimTx(w, worker, id, freshId, now, staleAfter)
    case Succeed(worker, rotated, now) => SucceedTx(w, worker, rotated, now)
    case Fail(worker, now) => FailTx(w, worker, now)
    case Crash(worker) => w.(claims := w.claims - {worker})
  }

  /** Fresh ids, and a resolver that rejects the reference it was given. */
  predicate Admissible(w: World, step: Step) {
    match step
    case ClaimDue(worker, _, freshId, _) => freshId !in w.attempts && worker !in w.claims
    case Succeed(worker, rotated, _) => worker in w.claims ==> rotated.secretRef != w.claims[worker].secretRef
    case _ => true
  }

  predicate RunsFor(w: World, a: Uuid, id: Uuid) {
    a in w.attempts && w.attempts[a] == Attempt(id, Running)
  }

  predicate ClaimedAs(w: World, id: Uuid, a: Uuid) {
    id in w.credentials && w.credentials[id].claimId == Some(a)
  }

  ghost predicate ClaimSound(w: World, claim: Claim) {
    && claim.credentialId in w.credentials
    && claim.attemptId in w.attempts && w.attempts[claim.attemptId].credentialId == claim.credentialId
    && (w.attempts[claim.attemptId].status == Running ==> w.credentials[claim.credentialId].secretRef == claim.secretRef)
  }

  /** An attempt is running exactly while its credential holds its id as the claim. */
  ghost predicate Sound(w: World) {
    && (forall a, id :: RunsFor(w, a, id) <==> ClaimedAs(w, id, a))
    && (forall id :: id in w.credentials ==> (w.credentials[id].startedAt.Some? <==> w.credentials[id].claimId.Some?))
    && (forall worker :: worker in w.claims ==> ClaimSound(w, w.claims[worker]))
  }

  lemma ClaimKeepsSound(w: World, step: Step, staleAfter: nat)
    requires Sound(w) && Admissible(w, step) && step.ClaimDue?
    ensures Sound(Apply(w, step, staleAfter))
  {
    var w' := Apply(w, step, staleAfter);
    if step.id in w.credentials && Due(w.credentials[step.id], step.now, staleAfter) {
      var c := w.credentials[step.id];
      var attemptId := c.claimId.GetOr(step.freshId);
      assert c.claimId.Some? ==> ClaimedAs(w, step.id, attemptId) && RunsFor(w, attemptId, step.id);
      forall a, id ensures RunsFor(w', a, id) <==> ClaimedAs(w', id, a) {
        assert RunsFor(w, a, id) <==> ClaimedAs(w, id, a);
        assert RunsFor(w, attemptId, id) <==> ClaimedAs(w, id, attemptId);
      }
      forall worker | worker in w'.claims ensures ClaimSound(w', w'.claims[worker]) {
        assert worker != step.worker ==> ClaimSound(w, w.claims[worker]);
      }
    }
  }

  lemma EndKeepsSound(w: World, step: Step, staleAfter: nat)
    requires Sound(w) && Admissible(w, step) && !step.ClaimDue?
    ensures Sound(Apply(w, step, staleAfter))
  {
    var w' := Apply(w, step, staleAfter);
    if step.worker !in w.claims {
      assert w' == w;
    } else {
      var claim := w.claims[step.worker];
      assert ClaimSound(w, claim);
      assert RunsFor(w, claim.attemptId, claim.credentialId) <==> ClaimedAs(w, claim.credentialId, claim.attemptId);
      forall a, id ensures RunsFor(w', a, id) <==> ClaimedAs(w', id, a) {
        assert RunsFor(w, a, id) <==> ClaimedAs(w, id, a);
      }
      forall worker | worker in w'.claims ensures ClaimSound(w', w'.claims[worker]) {
        assert ClaimSound(w, w.claims[worker]);
        var other := w.claims[worker];
        assert RunsFor(w, other.attemptId, other.credentialId) <==> ClaimedAs(w, other.credentialId, other.attemptId);
      }
    }
  }

  ghost predicate Initial(w: World) {
    && w.attempts == map[] && w.claims == map[]
    && forall id :: id in w.credentials ==> w.credentials[id].claimId == None && w.credentials[id].startedAt == None
  }

  ghost predicate Run(ws: seq<World>, steps: seq<Step>, staleAfter: nat) {
    && |ws| == |steps| + 1
    && Initial(ws[0])
    && forall i :: 0 <= i < |steps| ==> Admissible(ws[i], steps[i]) && ws[i + 1] == Apply(ws[i], steps[i], staleAfter)
  }

  /** Over every run an attempt is running if and only if its credential still holds that claim id. */
  lemma {:induction false} RunningIffClaimed(ws: seq<World>, steps: seq<Step>, staleAfter: nat, i: nat)
    requires Run(ws, steps, staleAfter) && i < |ws|
    ensures Sound(ws[i])
  {
    if i > 0 {
      RunningIffClaimed(ws, steps, staleAfter, i - 1);
      assert ws[i - 1 + 1] == Apply(ws[i - 1], steps[i - 1], staleAfter);
      if steps[i - 1].ClaimDue? {
        ClaimKeepsSound(ws[i - 1], steps[i - 1], staleAfter);
      } else {
        EndKeepsSound(ws[i - 1], steps[i - 1], staleAfter);
      }
    }
  }

  /** An attempt ends at most once: what it ended as, it stays. */
  lemma {:induction false} AttemptsEndOnce(ws: seq<World>, steps: seq<Step>, staleAfter: nat, i: nat, j: nat, a: Uuid)
    requires Run(ws, steps, staleAfter) && i <= j < |ws| && a in ws[i].attempts
    ensures a in ws[j].attempts && ws[j].attempts[a].credentialId == ws[i].attempts[a].credentialId
    ensures ws[i].attempts[a].status != Running ==> ws[j].attempts[a] == ws[i].attempts[a]
    decreases j
  {
    if i < j {
      AttemptsEndOnce(ws, steps, staleAfter, i, j - 1, a);
      assert ws[j - 1 + 1] == Apply(ws[j - 1], steps[j - 1], staleAfter);
    }
  }

  // ----- one new secret reference per succeeded attempt -----

  function EndedAs(w: World, id: Uuid, status: AttemptStatus): (s: set<Uuid>) {
    set a | a in w.attempts && w.attempts[a] == Attempt(id, status)
  }

  /** What a step does to a credential and to its ended attempts, taken together. */
  lemma StepOnCredential(w: World, step: Step, staleAfter: nat, id: Uuid)
    requires Sound(w) && Admissible(w, step) && id in w.credentials
    ensures var w' := Apply(w, step, staleAfter);
            && id in w'.credentials
            && var c, c' := w.credentials[id], w'.credentials[id];
            && var succeeded, failed := EndedAs(w, id, Succeeded), EndedAs(w, id, Failed);
            || (&& c'.secretRef == c.secretRef && c'.rotationAttempts == c.rotationAttempts
                && EndedAs(w', id, Succeeded) == succeeded && EndedAs(w', id, Failed) == failed)
            || (&& c'.secretRef != c.secretRef && c'.rotationAttempts == 0
                && (exists a :: a !in succeeded && EndedAs(w', id, Succeeded) == succeeded + {a})
                && EndedAs(w', id, Failed) == failed)
            || (&& c'.secretRef == c.secretRef && c'.rotationAttempts == c.rotationAttempts + 1
                && EndedAs(w', id, Succeeded) == succeeded
                && (exists a :: a !in failed && EndedAs(w', id, Failed) == failed + {a}))
  {
    var w' := Apply(w, step, staleAfter);
    var succeeded, failed := EndedAs(w, id, Succeeded), EndedAs(w, id, Failed);
    if !step.ClaimDue? && step.worker in w.claims {
      var claim := w.claims[step.worker];
      assert ClaimSound(w, claim);
      var a := claim.attemptId;
      assert RunsFor(w, a, claim.credentialId) <==> ClaimedAs(w, claim.credentialId, a);
      if claim.credentialId == id && ClaimedAs(w, id, a) && !step.Crash? {
        if step.Succeed? {
          assert EndedAs(w', id, Succeeded) == succeeded + {a};
          assert EndedAs(w', id, Failed) == failed;
        } else {
          assert EndedAs(w', id, Failed) == failed + {a};
          assert EndedAs(w', id, Succeeded) == succeeded;
        }
      } else {
        assert EndedAs(w', id, Succeeded) == succeeded && EndedAs(w', id, Failed) == failed;
      }
    } else {
      assert EndedAs(w', id, Succeeded) == succeeded && EndedAs(w', id, Failed) == failed;
    }
  }

  function SecretOf(w: World, id: Uuid): (s: Option<string>) {
    if id in w.credentials then Some(w.credentials[id].secretRef) else None
  }

  /** How often the secret reference changed along a run. */
  function Changes(ws: seq<World>, id: Uuid): (n: nat) {
    if |ws| <= 1 then 0
    else
      Changes(ws[..|ws| - 1], id) + if SecretOf(ws[|ws| - 1], id) != SecretOf(ws[|ws| - 2], id) then 1 else 0
  }

  /** How many attempts in a row have failed since the last success along a run, starting from the stored count. */
  function FailuresSinceSuccess(ws: seq<World>, id: Uuid): (n: nat) {
    if |ws| == 0 then 0
    else if |ws| == 1 then if id in ws[0].credentials then ws[0].credentials[id].rotationAttempts else 0
    else
      var before, now := ws[|ws| - 2], ws[|ws| - 1];
      if EndedAs(now, id, Succeeded) != EndedAs(before, id, Succeeded) then 0
      else if EndedAs(now, id, Failed) != EndedAs(before, id, Failed) then FailuresSinceSuccess(ws[..|ws| - 1], id) + 1
      else FailuresSinceSuccess(ws[..|ws| - 1], id)
  }

  /**
   Over every run: the secret reference has changed exactly once per succeeded attempt of the credential, and the
   stored number of attempts is the number of failed ones since the last success.
   */
  lemma {:induction false} OneNewSecretPerSuccess(ws: seq<World>, steps: seq<Step>, staleAfter: nat, i: nat, id: Uuid)
    requires Run(ws, steps, staleAfter) && i < |ws| && id in ws[0].credentials
    ensures id in ws[i].credentials
    ensures Changes(ws[..i + 1], id) == |EndedAs(ws[i], id, Succeeded)|
    ensures ws[i].credentials[id].rotationAttempts == FailuresSinceSuccess(ws[..i + 1], id)
  {
    if i == 0 {
      assert EndedAs(ws[0], id, Succeeded) == {};
    } else {
      OneNewSecretPerSuccess(ws, steps, staleAfter, i - 1, id);
      RunningIffClaimed(ws, steps, staleAfter, i - 1);
      var w, w' := ws[i - 1], ws[i - 1 + 1];
      assert Admissible(w, steps[i - 1]) && w' == Apply(w, steps[i - 1], staleAfter);
      StepOnCredential(w, steps[i - 1], staleAfter, id);
      var upTo := ws[..i + 1];
      assert upTo[..i] == ws[..i] && upTo[i - 1] == w && upTo[i] == w';
      hide Apply, Sound, Run, Admissible, EndedAs;
    }
  }

  // ----- stale claims -----

  /** While an attempt runs, its credential is claimed again only after the claim before has gone stale. */
  lemma {:induction false} ReclaimOnlyWhenStale(ws: seq<World>, steps: seq<Step>, staleAfter: nat, i: nat, j: nat, id: Uuid, a: Uuid)
    requires Run(ws, steps, staleAfter) && i < j < |steps|
    requires steps[i].ClaimDue? && steps[i].id == id && ws[i + 1] != ws[i] && ClaimedAs(ws[i + 1], id, a)
    requires steps[j].ClaimDue? && steps[j].id == id && ws[j + 1] != ws[j] && ClaimedAs(ws[j], id, a)
    ensures steps[j].now > steps[i].now + staleAfter
    ensures ClaimedAs(ws[j + 1], id, a)
  {
    assert ws[i + 1] == Apply(ws[i], steps[i], staleAfter) && ws[j + 1] == Apply(ws[j], steps[j], staleAfter);
    StartedSince(ws, steps, staleAfter, i, j, id, a);
  }

  lemma RunsWhileClaimed(ws: seq<World>, steps: seq<Step>, staleAfter: nat, i: nat, id: Uuid, a: Uuid)
    requires Run(ws, steps, staleAfter) && i < |ws|
    ensures RunsFor(ws[i], a, id) <==> ClaimedAs(ws[i], id, a)
  {
    RunningIffClaimed(ws, steps, staleAfter, i);
  }

  predicate StartedAfter(w: World, id: Uuid, t: int) {
    id in w.credentials && w.credentials[id].startedAt.Some? && w.credentials[id].startedAt.value >= t
  }

  lemma StepKeepsStarted(w: World, step: Step, staleAfter: nat, id: Uuid, a: Uuid, t: int)
    requires StartedAfter(w, id, t) && ClaimedAs(w, id, a) && ClaimedAs(Apply(w, step, staleAfter), id, a)
    ensures StartedAfter(Apply(w, step, staleAfter), id, t)
  {
  }

  /** A claim id that a credential holds at two points it holds all the time between them. */
  lemma ClaimedBetween(ws: seq<World>, steps: seq<Step>, staleAfter: nat, i: nat, k: nat, j: nat, id: Uuid, a: Uuid)
    requires Run(ws, steps, staleAfter) && i <= k <= j < |ws|
    requires ClaimedAs(ws[i], id, a) && ClaimedAs(ws[j], id, a)
    ensures ClaimedAs(ws[k], id, a)
  {
    RunsWhileClaimed(ws, steps, staleAfter, i, id, a);
    RunsWhileClaimed(ws, steps, staleAfter, k, id, a);
    RunsWhileClaimed(ws, steps, staleAfter, j, id, a);
    AttemptsEndOnce(ws, steps, staleAfter, i, k, a);
    AttemptsEndOnce(ws, steps, staleAfter, k, j, a);
    hide Run, ClaimedAs;
  }

  lemma ClaimStarts(w: World, step: Step, staleAfter: nat)
    requires step.ClaimDue? && Apply(w, step, staleAfter) != w
    ensures StartedAfter(Apply(w, step, staleAfter), step.id, step.now)
  {
  }

  lemma {:induction false} StartedSince(ws: seq<World>, steps: seq<Step>, staleAfter: nat, i: nat, j: nat, id: Uuid, a: Uuid)
    requires Run(ws, steps, staleAfter) && i < j < |ws|
    requires steps[i].ClaimDue? && steps[i].id == id && ws[i + 1] != ws[i] && ClaimedAs(ws[i + 1], id, a)
    requires ClaimedAs(ws[j], id, a)
    ensures StartedAfter(ws[j], id, steps[i].now)
    decreases j
  {
    hide Apply, ClaimedAs, StartedAfter, Initial, Admissible;
    var k := j - 1;
    assert ws[k + 1] == Apply(ws[k], steps[k], staleAfter);
    if i == k {
      ClaimStarts(ws[i], steps[i], staleAfter);
    } else {
      ClaimedBetween(ws, steps, staleAfter, i + 1, k, j, id, a);
      StartedSince(ws, steps, staleAfter, i, k, id, a);
      StepKeepsStarted(ws[k], steps[k], staleAfter, id, a, steps[i].now);
    }
  }
}
