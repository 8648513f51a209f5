/**
 The Redis key that guards the resumption of a run after an approval, and the workers that
 take it: every script and every `SET` is one atomic step, workers interleave freely, may be
 slow, and may crash while they hold the lease.
 */
module ResumeLease {
  import opened Options

  type Approval = string

  datatype Status = Running | Completed | Failed

  type Keys = map<Approval, Status>

  // ----- the store -----

  /** The acquire script gets the lease when the key is missing or says that an execution failed. */
  predicate Free(keys: Keys, a: Approval) {
    a !in keys || keys[a] == Failed
  }

  /** How the body of a resumption can end. */
  datatype Body = CancelledBefore | Finished | RaisesCancelled | NeedsApproval | RaisesError

  /** Only an error leaves the approval open for another execution. */
  function MarkOf(body: Body): (s: Status) {
    if body == RaisesError then Failed else Completed
  }

  /** `marks` records every call that marks an approval. */
  class ResumeIdempotencyStore {
    var keys: Keys
    ghost var marks: seq<(Approval, Status)>

    method Acquire(a: Approval) returns (acquired: bool)
      modifies this`keys
      ensures acquired <==> Free(old(keys), a)
      ensures keys == if acquired then old(keys)[a := Running] else old(keys)
    {
      if a !in keys || keys[a] == Failed {
        keys := keys[a := Running];
        return true;
      }
      return false;
    }

    method MarkCompleted(a: Approval)
      modifies this
      ensures keys == old(keys)[a := Completed] && marks == old(marks) + [(a, Completed)]
    {
      keys := keys[a := Completed];
      marks := marks + [(a, Completed)];
    }

    method MarkFailed(a: Approval)
      modifies this
      ensures keys == old(keys)[a := Failed] && marks == old(marks) + [(a, Failed)]
    {
      keys := keys[a := Failed];
      marks := marks + [(a, Failed)];
    }
  }

  /** One worker alone: nothing without the lease, and otherwise the body and exactly one mark. */
  method ResumeRunPayload(store: ResumeIdempotencyStore, a: Approval, body: Body) returns (executed: bool)
    modifies store
    ensures executed <==> Free(old(store.keys), a)
    ensures store.keys == if executed then old(store.keys)[a := MarkOf(body)] else old(store.keys)
    ensures store.marks == old(store.marks) + if executed then [(a, MarkOf(body))] else []
  {
    var acquired := store.Acquire(a);
    if !acquired {
      return false;
    }
    match body {
      case RaisesError => store.MarkFailed(a);
      case _ => store.MarkCompleted(a);
    }
    return true;
  }

  // ----- many workers -----

  /** An execution: it holds the lease until it marks the key or crashes. */
  datatype Phase = Holding(approval: Approval) | Marked(approval: Approval, status: Status) | Crashed(approval: Approval)

  datatype World = World(keys: Keys, executions: map<nat, Phase>)

  datatype Step =
    | Acquire(execution: nat, approval: Approval)
    | Mark(execution: nat, body: Body)
    | Crash(execution: nat)
    | Expire(approval: Approval)

  function Apply(w: World, step: Step): (w': World) {
    match step
    case Acquire(x, a) =>
      if Free(w.keys, a) then World(w.keys[a := Running], w.executions[x := Holding(a)]) else w
    case Mark(x, body) =>
      if x in w.executions && w.executions[x].Holding? then
        var a := w.executions[x].approval;
        World(w.keys[a := MarkOf(body)], w.executions[x := Marked(a, MarkOf(body))])
      else w
    case Crash(x) =>
      if x in w.executions && w.executions[x].Holding? then w.(executions := w.executions[x := Crashed(w.executions[x].approval)]) else w
    case Expire(a) => w.(keys := w.keys - {a})
  }

  predicate Holds(w: World, x: nat, a: Approval) {
    x in w.executions && w.executions[x] == Holding(a)
  }

  predicate HasCompleted(w: World, x: nat, a: Approval) {
    x in w.executions && w.executions[x] == Marked(a, Completed)
  }

  /** The key of an approval may run out only once nobody executes it and nobody has completed it. */
  ghost predicate MayExpire(w: World, a: Approval) {
    forall x :: x in w.executions ==> !Holds(w, x, a) && !HasCompleted(w, x, a)
  }

  ghost predicate Admissible(w: World, step: Step) {
    match step
    case Acquire(x, _) => x !in w.executions
    case Expire(a) => MayExpire(w, a)
    case _ => true
  }

  /** At most one execution holds or has completed an approval, and its key says which. */
  ghost predicate Sound(w: World) {
    && (forall x, a :: Holds(w, x, a) ==> a in w.keys && w.keys[a] == Running)
    && (forall x, a :: HasCompleted(w, x, a) ==> a in w.keys && w.keys[a] == Completed)
    && (forall x, y, a :: Holds(w, x, a) && Holds(w, y, a) ==> x == y)
    && (forall x, y, a :: HasCompleted(w, x, a) && HasCompleted(w, y, a) ==> x == y)
  }

  lemma StepKeepsSound(w: World, step: Step)
    requires Sound(w) && Admissible(w, step)
    ensures Sound(Apply(w, step))
  {
    var w' := Apply(w, step);
    match step
    case Expire(a) => ExpiryKeepsSoundIff(w, a);
    case Acquire(x, a) =>
      assert forall y, b :: HasCompleted(w', y, b) ==> HasCompleted(w, y, b);
      assert forall y, b :: Holds(w', y, b) ==> Holds(w, y, b) || (y == x && b == a && Free(w.keys, a));
    case Mark(x, body) =>
      if x in w.executions && w.executions[x].Holding? {
        assert Holds(w, x, w.executions[x].approval);
        assert forall y, b :: HasCompleted(w', y, b) && y != x ==> HasCompleted(w, y, b);
        assert forall y, b :: Holds(w', y, b) ==> Holds(w, y, b) && y != x;
      }
    case Crash(x) =>
      assert forall y, b :: HasCompleted(w', y, b) ==> HasCompleted(w, y, b);
      assert forall y, b :: Holds(w', y, b) ==> Holds(w, y, b);
  }

  /** The condition on expiry is exact: a key that runs out under a live or completed execution breaks the protocol. */
  lemma ExpiryKeepsSoundIff(w: World, a: Approval)
    requires Sound(w)
    ensures Sound(Apply(w, Expire(a))) <==> MayExpire(w, a)
  {
    var w' := Apply(w, Expire(a));
    assert forall x, b :: (Holds(w', x, b) <==> Holds(w, x, b)) && (HasCompleted(w', x, b) <==> HasCompleted(w, x, b));
  }

  /** And then a second worker gets in beside the first. */
  lemma ExpiryAdmitsSecondHolder(w: World, a: Approval, x: nat, y: nat)
    requires Holds(w, x, a) && y !in w.executions
    ensures var w' := Apply(Apply(w, Expire(a)), Acquire(y, a)); Holds(w', x, a) && Holds(w', y, a)
  {
  }

  // ----- runs -----

  ghost predicate Run(ws: seq<World>, steps: seq<Step>) {
    && |ws| == |steps| + 1
    && ws[0] == World(map[], map[])
    && forall i :: 0 <= i < |steps| ==> Admissible(ws[i], steps[i]) && ws[i + 1] == Apply(ws[i], steps[i])
  }

  /** Over every run: at most one execution holds an approval at a time, and at most one is ever marked completed. */
  lemma {:induction false} RunsAreSound(ws: seq<World>, steps: seq<Step>, i: nat)
    requires Run(ws, steps) && i < |ws|
    ensures Sound(ws[i])
  {
    if i > 0 {
      RunsAreSound(ws, steps, i - 1);
      StepKeepsSound(ws[i - 1], steps[i - 1]);
      assert ws[i - 1 + 1] == Apply(ws[i - 1], steps[i - 1]);
    }
  }

  /** Once an execution is completed, its approval stays completed and its mark stays the only one. */
  lemma {:induction false} CompletedForGood(ws: seq<World>, steps: seq<Step>, i: nat, j: nat, x: nat, a: Approval)
    requires Run(ws, steps) && i <= j < |ws| && HasCompleted(ws[i], x, a)
    ensures HasCompleted(ws[j], x, a) && !Free(ws[j].keys, a)
    ensures forall y :: !Holds(ws[j], y, a) && (HasCompleted(ws[j], y, a) ==> y == x)
    decreases j
  {
    RunsAreSound(ws, steps, j);
    if i < j {
      CompletedForGood(ws, steps, i, j - 1, x, a);
      assert ws[j - 1 + 1] == Apply(ws[j - 1], steps[j - 1]);
    }
  }

  predicate Acquires(ws: seq<World>, steps: seq<Step>, i: nat, x: nat, a: Approval)
    requires i < |steps| && i < |ws|
  {
    steps[i] == Acquire(x, a) && Free(ws[i].keys, a)
  }

  ghost predicate GivesUp(ws: seq<World>, steps: seq<Step>, k: nat, x: nat, a: Approval)
    requires k < |steps| && k < |ws|
  {
    Holds(ws[k], x, a) && (steps[k] == Mark(x, RaisesError) || steps[k] == Crash(x))
  }

  /** An execution keeps holding until it marks the key or crashes. */
  lemma {:induction false} HoldsUntil(ws: seq<World>, steps: seq<Step>, i: nat, j: nat, x: nat, a: Approval)
    requires Run(ws, steps) && i < j < |ws| && Acquires(ws, steps, i, x, a)
    ensures Holds(ws[j], x, a) || HasCompleted(ws[j], x, a) || exists k :: i < k < j && GivesUp(ws, steps, k, x, a)
    decreases j
  {
    assert ws[j - 1 + 1] == Apply(ws[j - 1], steps[j - 1]);
    if i < j - 1 {
      HoldsUntil(ws, steps, i, j - 1, x, a);
      assert Admissible(ws[j - 1], steps[j - 1]);
      if Holds(ws[j - 1], x, a) && !Holds(ws[j], x, a) && !HasCompleted(ws[j], x, a) {
        assert GivesUp(ws, steps, j - 1, x, a);
      }
    }
  }

  /** A body runs a second time only after the execution before it was marked failed, or crashed and its key ran out. */
  lemma ReRunOnlyAfterGivingUp(ws: seq<World>, steps: seq<Step>, i: nat, j: nat, x: nat, y: nat, a: Approval)
    requires Run(ws, steps) && i < j < |steps| && Acquires(ws, steps, i, x, a) && Acquires(ws, steps, j, y, a)
    ensures exists k :: i < k < j && GivesUp(ws, steps, k, x, a)
  {
    HoldsUntil(ws, steps, i, j, x, a);
    RunsAreSound(ws, steps, j);
  }

  /** While nothing crashed and nothing expired, giving up means being marked failed. */
  lemma ReRunOnlyAfterFailure(ws: seq<World>, steps: seq<Step>, i: nat, j: nat, x: nat, y: nat, a: Approval)
    requires Run(ws, steps) && i < j < |steps| && Acquires(ws, steps, i, x, a) && Acquires(ws, steps, j, y, a)
    requires forall k :: i < k < j ==> steps[k] != Expire(a)
    ensures exists k :: i < k < j && Holds(ws[k], x, a) && steps[k] == Mark(x, RaisesError)
  {
    HoldsUntil(ws, steps, i, j, x, a);
    RunsAreSound(ws, steps, j);
    var k :| i < k < j && GivesUp(ws, steps, k, x, a);
    if steps[k] == Crash(x) {
      CrashedKeyStays(ws, steps, k, j, x, a);
    }
  }

  /** Without expiry a crashed execution's key says running for ever. */
  lemma {:induction false} CrashedKeyStays(ws: seq<World>, steps: seq<Step>, k: nat, j: nat, x: nat, a: Approval)
    requires Run(ws, steps) && k < j < |ws| && Holds(ws[k], x, a) && steps[k] == Crash(x)
    requires forall l :: k < l < j ==> steps[l] != Expire(a)
    ensures !Free(ws[j].keys, a) && forall y :: !Holds(ws[j], y, a)
    decreases j
  {
    var w, w' := ws[j - 1], ws[j - 1 + 1];
    assert Admissible(w, steps[j - 1]) && w' == Apply(w, steps[j - 1]);
    if k == j - 1 {
      RunsAreSound(ws, steps, k);
      assert w'.keys == w.keys;
    } else {
      CrashedKeyStays(ws, steps, k, j - 1, x, a);
      assert steps[j - 1].Mark? ==> !Holds(w, steps[j - 1].execution, a);
      assert steps[j - 1] != Expire(a);
    }
    forall y ensures !Holds(w', y, a) {
      assert Holds(w', y, a) ==> Holds(w, y, a);
    }
  }

  // ----- what an approval is left as -----

  /** An execution that ends marks its approval: an error leaves it free for another execution, and nothing else does. */
  lemma OnlyErrorsFreeTheApproval(w: World, x: nat, a: Approval, body: Body)
    requires Holds(w, x, a)
    ensures var w' := Apply(w, Mark(x, body));
            && !Holds(w', x, a)
            && (Free(w'.keys, a) <==> body == RaisesError)
            && (HasCompleted(w', x, a) <==> body != RaisesError)
            && forall b :: b != a ==> (b in w'.keys <==> b in w.keys) && (b in w.keys ==> w'.keys[b] == w.keys[b])
  {
  }

  /** A free approval is granted to the next execution that asks, and kept from all others while that one is at work. */
  lemma FreeIsGranted(w: World, x: nat, a: Approval)
    requires x !in w.executions
    ensures var w' := Apply(w, Acquire(x, a));
            && (Holds(w', x, a) <==> a !in w.keys || w.keys[a] == Failed)
            && (Holds(w', x, a) ==> !Free(w'.keys, a))
            && (!Holds(w', x, a) ==> w' == w)
  {
  }
}
