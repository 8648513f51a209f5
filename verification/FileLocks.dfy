/**
 Advisory locks on workspace files: acquired or extended by an actor, released by its holder
 or by a bearer of the token, and consulted by every write. Each request is one transaction;
 a refused one leaves the table as it was.
 */
module FileLocks {
  import opened Options

  /** Tenant, project and path hash. */
  datatype Key = Key(tenantId: Uuid, projectId: Uuid, pathHash: string)

  /** A row of `file_locks`. */
  datatype Lock = Lock(key: Key, token: string, holderUser: Uuid, holderRun: Option<Uuid>, path: string, expiresAt: int)

  datatype LockError = LockedByAnother | NotFound

  datatype Actor = Actor(userId: Uuid, runId: Option<Uuid>)

  const DEFAULT_TTL_SECONDS: int := 15 * 60
  const MAX_TTL_SECONDS: int := 24 * 60 * 60

  function TtlSeconds(requested: Option<int>): (ttl: int)
    ensures 1 <= ttl <= MAX_TTL_SECONDS
  {
    var ttl := requested.GetOr(DEFAULT_TTL_SECONDS);
    if ttl < 1 then 1 else if ttl > MAX_TTL_SECONDS then MAX_TTL_SECONDS else ttl
  }

  // ----- transactions -----

  function WithoutExpired(locks: seq<Lock>, key: Key, now: int): (kept: seq<Lock>)
    ensures forall l :: l in kept <==> l in locks && !(l.key == key && l.expiresAt <= now)
  {
    if locks == [] then []
    else
      var l := locks[0];
      (if l.key == key && l.expiresAt <= now then [] else [l]) + WithoutExpired(locks[1..], key, now)
  }

  /** The position of the key's first unexpired row, or the length. */
  function ActiveAt(locks: seq<Lock>, key: Key, now: int): (i: nat)
    ensures i <= |locks|
    ensures i < |locks| ==> locks[i].key == key && locks[i].expiresAt > now
    ensures forall j :: 0 <= j < i ==> !(locks[j].key == key && locks[j].expiresAt > now)
  {
    if locks == [] then 0
    else if locks[0].key == key && locks[0].expiresAt > now then 0
    else 1 + ActiveAt(locks[1..], key, now)
  }

  /** `lock_held_by_actor`: a lock taken in a run belongs to the run, any other one to its user. */
  predicate HeldByActor(l: Lock, actor: Actor) {
    if l.holderRun.Some? then l.holderRun == actor.runId else l.holderUser == actor.userId
  }

  /** `lock_held_by_unlocker`: a presented token decides alone. */
  predicate HeldByUnlocker(l: Lock, actor: Actor, token: Option<string>) {
    if token.Some? then token.value == l.token else HeldByActor(l, actor)
  }

  /** The row an acquisition leaves: the active one extended, or a new one. */
  function AcquiredLock(kept: seq<Lock>, key: Key, actor: Actor, path: string, ttl: Option<int>, freshToken: string, now: int): (l: Lock)
    ensures l.key == key
  {
    var i, expiresAt := ActiveAt(kept, key, now), now + TtlSeconds(ttl);
    if i == |kept| then Lock(key, freshToken, actor.userId, actor.runId, path, expiresAt)
    else kept[i].(path := path, expiresAt := expiresAt)
  }

  function AcquireTx(locks: seq<Lock>, key: Key, actor: Actor, path: string, ttl: Option<int>, freshToken: string, now: int)
    : (r: (Result<Lock, LockError>, seq<Lock>))
  {
    var kept := WithoutExpired(locks, key, now);
    var i, l := ActiveAt(kept, key, now), AcquiredLock(kept, key, actor, path, ttl, freshToken, now);
    if i == |kept| then (Ok(l), kept + [l])
    else if !HeldByActor(kept[i], actor) then (Err(LockedByAnother), locks)
    else (Ok(l), kept[i := l])
  }

  function ReleaseTx(locks: seq<Lock>, key: Key, actor: Actor, token: Option<string>, now: int)
    : (r: (Result<Lock, LockError>, seq<Lock>))
  {
    var kept := WithoutExpired(locks, key, now);
    var i := ActiveAt(kept, key, now);
    if i == |kept| then (Err(NotFound), locks)
    else if !HeldByUnlocker(kept[i], actor, token) then (Err(LockedByAnother), locks)
    else (Ok(kept[i]), kept[..i] + kept[i + 1..])
  }

  function WriteTx(locks: seq<Lock>, key: Key, actor: Actor, token: Option<string>, now: int)
    : (r: (Result<(), LockError>, seq<Lock>))
  {
    var kept := WithoutExpired(locks, key, now);
    var i := ActiveAt(kept, key, now);
    if i == |kept| || token == Some(kept[i].token) || HeldByActor(kept[i], actor) then (Ok(()), kept)
    else (Err(LockedByAnother), locks)
  }

  // ----- the table -----

  class FileLockTable {
    var locks: seq<Lock>

    method AcquireLock(key: Key, actor: Actor, path: string, ttl: Option<int>, freshToken: string, now: int)
      returns (r: Result<Lock, LockError>)
      modifies this
      ensures (r, locks) == AcquireTx(old(locks), key, actor, path, ttl, freshToken, now)
    {
      var kept := WithoutExpired(locks, key, now);
      var i := ActiveAt(kept, key, now);
      if i < |kept| {
        if !HeldByActor(kept[i], actor) {
          return Err(LockedByAnother);
        }
        var extended := kept[i].(path := path, expiresAt := now + TtlSeconds(ttl));
        locks := kept[i := extended];
        return Ok(extended);
      }
      var l := Lock(key, freshToken, actor.userId, actor.runId, path, now + TtlSeconds(ttl));
      locks := kept + [l];
      return Ok(l);
    }

    method ReleaseLock(key: Key, actor: Actor, token: Option<string>, now: int) returns (r: Result<Lock, LockError>)
      modifies this
      ensures (r, locks) == ReleaseTx(old(locks), key, actor, token, now)
    {
      var kept := WithoutExpired(locks, key, now);
      var i := ActiveAt(kept, key, now);
      if i == |kept| {
        return Err(NotFound);
      }
      if !HeldByUnlocker(kept[i], actor, token) {
        return Err(LockedByAnother);
      }
      locks := kept[..i] + kept[i + 1..];
      return Ok(kept[i]);
    }

    method EnsureWritePermitted(key: Key, actor: Actor, token: Option<string>, now: int) returns (r: Result<(), LockError>)
      modifies this
      ensures (r, locks) == WriteTx(old(locks), key, actor, token, now)
    {
      var kept := WithoutExpired(locks, key, now);
      var i := ActiveAt(kept, key, now);
      if i < |kept| && token != Some(kept[i].token) && !HeldByActor(kept[i], actor) {
        return Err(LockedByAnother);
      }
      locks := kept;
      return Ok(());
    }
  }

  // ----- one lock per path -----

  /** No two rows are for the same file, expired or not; the unique index on the key never has to refuse anything. */
  predicate OnePerKey(locks: seq<Lock>) {
    forall i, j :: 0 <= i < j < |locks| ==> locks[i].key != locks[j].key
  }

  lemma {:induction false} WithoutExpiredKeepsOne(locks: seq<Lock>, key: Key, now: int)
    requires OnePerKey(locks)
    ensures OnePerKey(WithoutExpired(locks, key, now))
  {
    if locks != [] {
      var rest := WithoutExpired(locks[1..], key, now);
      WithoutExpiredKeepsOne(locks[1..], key, now);
      forall j | 0 <= j < |rest| ensures rest[j].key != locks[0].key {
        assert rest[j] in rest;
        assert rest[j] in locks[1..];
      }
    }
  }

  /** When a key has no unexpired row left after the expired ones are gone, it has no row at all. */
  lemma NoRowLeft(locks: seq<Lock>, key: Key, now: int)
    requires var kept := WithoutExpired(locks, key, now); ActiveAt(kept, key, now) == |kept|
    ensures forall l :: l in WithoutExpired(locks, key, now) ==> l.key != key
  {
  }

  datatype Step =
    | Acquire(key: Key, actor: Actor, path: string, ttl: Option<int>, freshToken: string, now: int)
    | Release(key: Key, actor: Actor, token: Option<string>, now: int)
    | Write(key: Key, actor: Actor, token: Option<string>, now: int)

  function Apply(locks: seq<Lock>, step: Step): (locks': seq<Lock>) {
    match step
    case Acquire(key, actor, path, ttl, freshToken, now) => AcquireTx(locks, key, actor, path, ttl, freshToken, now).1
    case Release(key, actor, token, now) => ReleaseTx(locks, key, actor, token, now).1
    case Write(key, actor, token, now) => WriteTx(locks, key, actor, token, now).1
  }

  lemma EditKeepsOnePerKey(kept: seq<Lock>, i: nat, l: Lock)
    requires OnePerKey(kept) && i <= |kept|
    ensures i < |kept| ==> OnePerKey(kept[..i] + kept[i + 1..])
    ensures i < |kept| && l.key == kept[i].key ==> OnePerKey(kept[i := l])
    ensures (forall x :: x in kept ==> x.key != l.key) ==> OnePerKey(kept + [l])
  {
    assert forall k :: 0 <= k < |kept| ==> kept[k] in kept;
  }

  lemma ApplyKeepsOnePerKey(locks: seq<Lock>, step: Step)
    requires OnePerKey(locks)
    ensures OnePerKey(Apply(locks, step))
  {
    hide WithoutExpired, ActiveAt, OnePerKey;
    WithoutExpiredKeepsOne(locks, step.key, step.now);
    var kept := WithoutExpired(locks, step.key, step.now);
    var i := ActiveAt(kept, step.key, step.now);
    if i == |kept| {
      NoRowLeft(locks, step.key, step.now);
    }
    if step.Acquire? {
      EditKeepsOnePerKey(kept, i, AcquiredLock(kept, step.key, step.actor, step.path, step.ttl, step.freshToken, step.now));
    } else if i < |kept| {
      EditKeepsOnePerKey(kept, i, kept[i]);
    }
  }

  ghost predicate Run(ws: seq<seq<Lock>>, steps: seq<Step>) {
    && |ws| == |steps| + 1
    && ws[0] == []
    && forall i :: 0 <= i < |steps| ==> ws[i + 1] == Apply(ws[i], steps[i])
  }

  /** Over every run, whatever the clock does, there is at most one lock per file. */
  lemma {:induction false} RunsKeepOnePerKey(ws: seq<seq<Lock>>, steps: seq<Step>, i: nat)
    requires Run(ws, steps) && i < |ws|
    ensures OnePerKey(ws[i])
  {
    if i > 0 {
      RunsKeepOnePerKey(ws, steps, i - 1);
      assert ws[i - 1 + 1] == Apply(ws[i - 1], steps[i - 1]);
      ApplyKeepsOnePerKey(ws[i - 1], steps[i - 1]);
    }
  }

  // ----- who may do what while a lock is active -----

  /** The row an unexpired lock makes every request find. */
  lemma FindsTheLock(locks: seq<Lock>, l: Lock, now: int)
    requires OnePerKey(locks) && l in locks && l.expiresAt > now
    ensures var kept := WithoutExpired(locks, l.key, now); var i := ActiveAt(kept, l.key, now);
            i < |kept| && kept[i] == l
  {
    WithoutExpiredKeepsOne(locks, l.key, now);
    var kept := WithoutExpired(locks, l.key, now);
    assert l in kept;
    var k :| 0 <= k < |kept| && kept[k] == l;
  }

  /** The recorded run and nobody else, or the user when no run is recorded. */
  predicate IsHolder(l: Lock, actor: Actor) {
    || (l.holderRun.Some? && actor.runId.Some? && l.holderRun.value == actor.runId.value)
    || (l.holderRun.None? && l.holderUser == actor.userId)
  }

  lemma HolderIs(l: Lock, actor: Actor)
    ensures HeldByActor(l, actor) <==> IsHolder(l, actor)
  {
  }

  /** Fifteen minutes unless asked otherwise, and between a second and a day in any case. */
  lemma TtlIs(requested: Option<int>)
    ensures requested.None? ==> TtlSeconds(requested) == 900
    ensures requested.Some? && 1 <= requested.value <= 86400 ==> TtlSeconds(requested) == requested.value
    ensures requested.Some? && requested.value < 1 ==> TtlSeconds(requested) == 1
    ensures requested.Some? && requested.value > 86400 ==> TtlSeconds(requested) == 86400
  {
  }

  /** While a lock is unexpired, its holder and a bearer of its token may write, and nobody else. */
  lemma WriteNeedsHolderOrToken(locks: seq<Lock>, l: Lock, actor: Actor, token: Option<string>, now: int)
    requires OnePerKey(locks) && l in locks && l.expiresAt > now
    ensures WriteTx(locks, l.key, actor, token, now).0.Ok? <==> token == Some(l.token) || IsHolder(l, actor)
  {
    hide WithoutExpired, ActiveAt, OnePerKey, HeldByActor, IsHolder;
    HolderIs(l, actor);
    FindsTheLock(locks, l, now);
  }

  /** Only its holder extends it, which keeps holder and token. */
  lemma OnlyHolderExtends(locks: seq<Lock>, l: Lock, actor: Actor, path: string, ttl: Option<int>, freshToken: string, now: int)
    requires OnePerKey(locks) && l in locks && l.expiresAt > now
    ensures AcquireTx(locks, l.key, actor, path, ttl, freshToken, now).0
         == if IsHolder(l, actor) then Ok(l.(path := path, expiresAt := now + TtlSeconds(ttl))) else Err(LockedByAnother)
  {
    hide WithoutExpired, ActiveAt, OnePerKey, HeldByActor, IsHolder, TtlSeconds;
    HolderIs(l, actor);
    FindsTheLock(locks, l, now);
  }

  /** It is released by its token, or by its holder presenting no token; then no lock is left on the file. */
  lemma ReleaseNeedsTokenOrHolder(locks: seq<Lock>, l: Lock, actor: Actor, token: Option<string>, now: int)
    requires OnePerKey(locks) && l in locks && l.expiresAt > now
    ensures var (r, locks') := ReleaseTx(locks, l.key, actor, token, now);
            if token == Some(l.token) || (token == None && IsHolder(l, actor))
            then r == Ok(l) && forall x :: x in locks' ==> x.key != l.key
            else r == Err(LockedByAnother) && locks' == locks
  {
    hide WithoutExpired, ActiveAt, OnePerKey, HeldByActor, IsHolder;
    HolderIs(l, actor);
    FindsTheLock(locks, l, now);
    WithoutExpiredKeepsOne(locks, l.key, now);
    var kept := WithoutExpired(locks, l.key, now);
    RemovedForGood(kept, ActiveAt(kept, l.key, now));
  }

  lemma RemovedForGood(kept: seq<Lock>, i: nat)
    requires OnePerKey(kept) && i < |kept|
    ensures forall x :: x in kept[..i] + kept[i + 1..] ==> x.key != kept[i].key
  {
    forall x | x in kept[..i] + kept[i + 1..] ensures x.key != kept[i].key {
      assert x in kept[..i] || x in kept[i + 1..];
    }
  }

  /** Without an unexpired lock anyone writes and anyone acquires. */
  lemma WithoutLockAnyoneMay(locks: seq<Lock>, key: Key, actor: Actor, token: Option<string>, path: string, ttl: Option<int>,
                             freshToken: string, now: int)
    requires forall l :: l in locks && l.key == key ==> l.expiresAt <= now
    ensures WriteTx(locks, key, actor, token, now).0 == Ok(())
    ensures AcquireTx(locks, key, actor, path, ttl, freshToken, now).0
         == Ok(Lock(key, freshToken, actor.userId, actor.runId, path, now + TtlSeconds(ttl)))
    ensures ReleaseTx(locks, key, actor, token, now).0 == Err(NotFound)
  {
    NoneActive(WithoutExpired(locks, key, now), key, now);
  }

  lemma {:induction false} NoneActive(kept: seq<Lock>, key: Key, now: int)
    requires forall l :: l in kept && l.key == key ==> l.expiresAt <= now
    ensures ActiveAt(kept, key, now) == |kept|
  {
    if kept != [] {
      NoneActive(kept[1..], key, now);
    }
  }

  /** The same lock, possibly extended. */
  predicate SameLock(l: Lock, x: Lock) {
    x == l.(path := x.path, expiresAt := x.expiresAt)
  }

  ghost predicate Present(locks: seq<Lock>, l: Lock) {
    exists x :: x in locks && SameLock(l, x)
  }

  /** The lock ends here: someone entitled releases it, or a request finds it expired. */
  ghost predicate EndsLock(locks: seq<Lock>, step: Step, l: Lock) {
    && step.key == l.key
    && ((step.Release? && (step.token == Some(l.token) || (step.token == None && IsHolder(l, step.actor))))
        || exists x :: x in locks && SameLock(l, x) && x.expiresAt <= step.now)
  }

  lemma StaysAtOtherPlace(kept: seq<Lock>, x: Lock, i: nat, l: Lock)
    requires x in kept && i <= |kept| && (i < |kept| ==> kept[i] != x)
    ensures x in kept + [l]
    ensures i < |kept| ==> x in kept[i := l] && x in kept[..i] + kept[i + 1..]
  {
    var k :| 0 <= k < |kept| && kept[k] == x;
    if i < |kept| {
      assert kept[i := l][k] == x;
      assert k < i ==> (kept[..i] + kept[i + 1..])[k] == x;
      assert k > i ==> (kept[..i] + kept[i + 1..])[k - 1] == x;
    }
  }

  /** A request on one file leaves the locks of all others alone. */
  lemma OtherFilesStay(locks: seq<Lock>, step: Step, x: Lock)
    requires x in locks && x.key != step.key
    ensures x in Apply(locks, step)
  {
    var kept := WithoutExpired(locks, step.key, step.now);
    var i := ActiveAt(kept, step.key, step.now);
    if step.Acquire? {
      StaysAtOtherPlace(kept, x, i, AcquiredLock(kept, step.key, step.actor, step.path, step.ttl, step.freshToken, step.now));
    } else {
      StaysAtOtherPlace(kept, x, i, x);
    }
    hide WithoutExpired, ActiveAt, AcquiredLock;
  }

  lemma StepKeepsLock(locks: seq<Lock>, step: Step, l: Lock)
    requires OnePerKey(locks) && Present(locks, l) && !EndsLock(locks, step, l)
    ensures Present(Apply(locks, step), l)
  {
    hide Apply, OnePerKey;
    var x :| x in locks && SameLock(l, x);
    if step.key == l.key {
      StepOnLock(locks, step, x);
    } else {
      OtherFilesStay(locks, step, x);
    }
  }

  lemma StepOnLock(locks: seq<Lock>, step: Step, x: Lock)
    requires OnePerKey(locks) && x in locks && step.key == x.key && x.expiresAt > step.now
    requires step.Release? ==> !(step.token == Some(x.token) || (step.token == None && IsHolder(x, step.actor)))
    ensures Present(Apply(locks, step), x)
  {
    FindsTheLock(locks, x, step.now);
    var kept := WithoutExpired(locks, step.key, step.now);
    var i := ActiveAt(kept, step.key, step.now);
    hide WithoutExpired;
    var locks' := Apply(locks, step);
    assert SameLock(x, x);
    if step.Acquire? && HeldByActor(x, step.actor) {
      assert locks'[i] in locks' && SameLock(x, locks'[i]);
    } else if step.Write? {
      assert kept[i] in kept;
    }
  }

  /** A lock stays in the table until someone entitled releases it or it is found expired. */
  lemma {:induction false} LockStays(ws: seq<seq<Lock>>, steps: seq<Step>, i: nat, j: nat, l: Lock)
    requires Run(ws, steps) && i <= j < |ws| && l in ws[i]
    requires forall k :: i <= k < j ==> !EndsLock(ws[k], steps[k], l)
    ensures Present(ws[j], l)
    decreases j
  {
    hide Apply, EndsLock, OnePerKey;
    if i == j {
      assert SameLock(l, l);
    } else {
      LockStays(ws, steps, i, j - 1, l);
      RunsKeepOnePerKey(ws, steps, j - 1);
      assert ws[j - 1 + 1] == Apply(ws[j - 1], steps[j - 1]);
      StepKeepsLock(ws[j - 1], steps[j - 1], l);
    }
  }

  /**
   Over every run: when a request on a locked file is granted to someone who neither holds the lock nor presents
   its token, then since the lock was there someone entitled has released it, or it has been found expired.
   */
  lemma OnlyEntitledUntilEnd(ws: seq<seq<Lock>>, steps: seq<Step>, i: nat, j: nat, l: Lock)
    requires Run(ws, steps) && i <= j < |steps| && l in ws[i] && steps[j].key == l.key && !IsHolder(l, steps[j].actor)
    requires match steps[j]
             case Write(key, actor, token, now) => WriteTx(ws[j], key, actor, token, now).0.Ok? && token != Some(l.token)
             case Acquire(key, actor, path, ttl, freshToken, now) =>
               AcquireTx(ws[j], key, actor, path, ttl, freshToken, now).0.Ok?
             case Release(key, actor, token, now) => ReleaseTx(ws[j], key, actor, token, now).0.Ok? && token != Some(l.token)
    ensures exists k :: i <= k <= j && EndsLock(ws[k], steps[k], l)
  {
    if forall k :: i <= k < j ==> !EndsLock(ws[k], steps[k], l) {
      LockStays(ws, steps, i, j, l);
      RunsKeepOnePerKey(ws, steps, j);
      var x :| x in ws[j] && SameLock(l, x);
      if x.expiresAt > steps[j].now {
        match steps[j] {
          case Write(_, actor, token, now) => WriteNeedsHolderOrToken(ws[j], x, actor, token, now);
          case Acquire(_, actor, path, ttl, freshToken, now) => OnlyHolderExtends(ws[j], x, actor, path, ttl, freshToken, now);
          case Release(_, actor, token, now) => ReleaseNeedsTokenOrHolder(ws[j], x, actor, token, now);
        }
      }
      assert EndsLock(ws[j], steps[j], l);
    }
  }
}
