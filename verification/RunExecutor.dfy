/**
 One run of an agent as the worker executes it, against any stream and any schedule of
 cancellation answers: which events it emits, in which order.
 */
module RunExecutor {
  import opened Options
  import opened ReasoningFilter
  import opened EventNormalizer

  /** How a run breaks off: cancelled from inside a tool, waiting for an approval, or failed. */
  datatype Failure = CancelledInside | NeedsApproval | Error

  datatype Ending = Finished | Raises(failure: Failure)

  /** An agent that streams raw events, or one that only answers at once. */
  datatype Agent = Streaming(items: seq<RawEvent>, ending: Ending) | Invoking(answer: Result<string, Failure>)

  /** What `run_deepagent` emits, and whether the run is to be completed, is closed already, or failed. */
  datatype End = Completed | Closed | Failed(failure: Failure)

  datatype Outcome = Outcome(events: seq<Event>, end: End)

  /** The `k`-th answer of `is_run_cancelled`. */
  type Polls = nat -> bool

  const NO_RESPONSE: string := "Run completed without an assistant response."

  predicate IsWaiting(e: Event) {
    e.InterruptRequested? || e.ApprovalRequested?
  }

  predicate HasWaiting(events: seq<Event>) {
    exists e :: e in events && IsWaiting(e)
  }

  predicate IsClosing(e: Event) {
    IsWaiting(e) || e.RunCompleted? || e.RunFailed? || e.RunCancelled?
  }

  // ----- run_deepagent -----

  /** The message that closes a stream: the pending one, or a substitute if nothing was emitted at all. */
  function FinalMessage(n: Normalizer, emittedAny: bool): (events: seq<Event>) {
    match Pending(n).0
    case Some(content) => [MessageCompleted(content)]
    case None =>
      if emittedAny then []
      else if !n.completed && n.platformResult.Some? then [MessageCompleted(StripReasoningContent(n.platformResult.value))]
      else [MessageCompleted(StripReasoningContent(NO_RESPONSE))]
  }

  /** One item: a poll before it, its events, and a poll after them; `rest` is what the items after it come to. */
  function AfterItem(stopBefore: bool, events: seq<Event>, stopAfter: bool, rest: Outcome): (out: Outcome) {
    if stopBefore then Outcome([RunCancelled], Closed)
    else if HasWaiting(events) then Outcome(events, Closed)
    else if stopAfter then Outcome(events + [RunCancelled], Closed)
    else Outcome(events + rest.events, rest.end)
  }

  /** The stream from item `i` on. */
  function StreamFrom(items: seq<RawEvent>, ending: Ending, cancelled: Polls, i: nat): (out: Outcome)
    requires i <= |items|
    decreases |items| - i
  {
    var (before, n) := NormalizedAll(NEW, items[..i]);
    if i == |items| then
      match ending
      case Raises(failure) => Outcome([], Failed(failure))
      case Finished => Outcome(FinalMessage(n, before != []), Completed)
    else
      AfterItem(cancelled(2 + 2 * i), Normalized(n, items[i]).0, cancelled(3 + 2 * i),
                StreamFrom(items, ending, cancelled, i + 1))
  }

  function DeepagentRun(agent: Agent, cancelled: Polls): (out: Outcome) {
    if cancelled(1) then Outcome([RunCancelled], Closed)
    else
      match agent
      case Streaming(items, ending) => StreamFrom(items, ending, cancelled, 0)
      case Invoking(Err(failure)) => Outcome([], Failed(failure))
      case Invoking(Ok(text)) =>
        if cancelled(2) then Outcome([RunCancelled], Closed)
        else Outcome([MessageCompleted(StripReasoningContent(text))], Completed)
  }

  // ----- execute_run_payload -----

  /** The event that closes a run after `run_deepagent`, unless it has closed the run itself. */
  function ClosingEvents(end: End): (events: seq<Event>) {
    match end
    case Completed => [RunCompleted]
    case Closed => []
    case Failed(CancelledInside) => [RunCancelled]
    case Failed(NeedsApproval) => [ApprovalRequested]
    case Failed(Error) => [RunFailed]
  }

  function ExecutedRun(snapshotValid: bool, agent: Agent, cancelled: Polls): (events: seq<Event>) {
    if cancelled(0) then [RunCancelled]
    else if !snapshotValid then [RunFailed]
    else
      var out := DeepagentRun(agent, cancelled);
      FromStart(out)
  }

  function FromStart(out: Outcome): (events: seq<Event>) {
    [RunStarted] + out.events + ClosingEvents(out.end)
  }

  // ----- the worker -----

  /** An item that does not close the run adds its events, and the rest follows. */
  lemma AfterOpenItem(emitted: seq<Event>, before: bool, events: seq<Event>, after: bool, rest: Outcome)
    ensures var all, item := AfterItem(before, events, after, rest), AfterItem(before, events, after, Outcome([], Completed));
            if item.end == Closed then all == item
            else emitted + all.events == emitted + item.events + rest.events && all.end == rest.end && item.events == events
  {
    AppendTwice(emitted, events, rest.events);
    AppendTwice(events, [], []);
  }

  lemma NormalizedStep(items: seq<RawEvent>, i: nat)
    requires i < |items|
    ensures var (before, n) := NormalizedAll(NEW, items[..i]);
            NormalizedAll(NEW, items[..i + 1]) == (before + Normalized(n, items[i]).0, Normalized(n, items[i]).1)
  {
    hide Normalized;
    var upTo := items[..i + 1];
    assert upTo[..|upTo| - 1] == items[..i] && upTo[|upTo| - 1] == items[i];
  }

  /** What item `i` adds to a stream's run. */
  lemma StreamStep(items: seq<RawEvent>, ending: Ending, cancelled: Polls, i: nat)
    requires i < |items|
    ensures StreamFrom(items, ending, cancelled, i)
         == AfterItem(cancelled(2 + 2 * i), Normalized(NormalizedAll(NEW, items[..i]).1, items[i]).0, cancelled(3 + 2 * i),
                      StreamFrom(items, ending, cancelled, i + 1))
  {
    hide Normalized, NormalizedAll, AfterItem;
  }

  lemma StreamEnd(items: seq<RawEvent>, ending: Ending, cancelled: Polls)
    ensures var (before, n) := NormalizedAll(NEW, items);
            StreamFrom(items, ending, cancelled, |items|)
              == if ending.Raises? then Outcome([], Failed(ending.failure)) else Outcome(FinalMessage(n, before != []), Completed)
  {
    assert items[..|items|] == items;
    hide Normalized, FinalMessage;
  }

  class Worker {
    const cancelled: Polls
    var polls: nat
    var emitted: seq<Event>

    constructor (schedule: Polls)
      ensures cancelled == schedule && polls == 0 && emitted == []
    {
      cancelled := schedule;
      polls := 0;
      emitted := [];
    }

    method IsRunCancelled() returns (b: bool)
      modifies this`polls
      ensures b == cancelled(old(polls)) && polls == old(polls) + 1
    {
      b := cancelled(polls);
      polls := polls + 1;
    }

    method Emit(events: seq<Event>)
      modifies this`emitted
      ensures emitted == old(emitted) + events
    {
      emitted := emitted + events;
    }

    /** One item of the stream; `closed` means that the run is over. */
    method TakeRawEvent(normalizer: AgentEventNormalizer, raw: RawEvent) returns (closed: bool, emittedAny: bool)
      modifies this, normalizer, normalizer.reasoningFilter
      ensures var events := Normalized(old(normalizer.State()), raw).0;
              var out := AfterItem(cancelled(old(polls)), events, cancelled(old(polls) + 1), Outcome([], Completed));
              && emitted == old(emitted) + out.events
              && (closed <==> out.end == Closed)
              && (!closed ==> polls == old(polls) + 2 && normalizer.State() == Normalized(old(normalizer.State()), raw).1
                              && (emittedAny <==> events != []))
    {
      hide Normalized;
      emittedAny := false;
      var stop := IsRunCancelled();
      if stop {
        Emit([RunCancelled]);
        return true, emittedAny;
      }
      var events := normalizer.Normalize(raw);
      AppendTwice(emitted, events, [RunCancelled]);
      if events != [] {
        emittedAny := true;
        Emit(events);
        if HasWaiting(events) {
          return true, emittedAny;
        }
      }
      stop := IsRunCancelled();
      if stop {
        Emit([RunCancelled]);
        return true, emittedAny;
      }
      closed := false;
    }

    /** After the stream: the message that completes it. */
    method CompleteStream(normalizer: AgentEventNormalizer, emittedAny: bool)
      modifies this`emitted, normalizer, normalizer.reasoningFilter
      ensures emitted == old(emitted) + FinalMessage(old(normalizer.State()), emittedAny)
    {
      hide Pending, StripReasoningContent;
      var pending := normalizer.PendingCompletedMessage();
      if pending.Some? {
        Emit([MessageCompleted(pending.value)]);
      } else if !emittedAny {
        var text := NO_RESPONSE;
        if !normalizer.messageCompletedEmitted && normalizer.latestPlatformToolResult.Some? {
          text := normalizer.latestPlatformToolResult.value;
        }
        var content := normalizer.CompletedMessage(text);
        Emit([MessageCompleted(content)]);
      }
    }

    method RunStream(items: seq<RawEvent>, ending: Ending) returns (end: End)
      requires polls == 2
      modifies this
      ensures var out := StreamFrom(items, ending, cancelled, 0);
              emitted == old(emitted) + out.events && end == out.end
    {
      hide Normalized, NormalizedAll, AfterItem, FinalMessage, StreamFrom;
      var normalizer := new AgentEventNormalizer();
      var emittedAny := false;
      ghost var whole := StreamFrom(items, ending, cancelled, 0);
      ghost var start := emitted;
      NothingYet(items);
      for i := 0 to |items|
        invariant polls == 2 + 2 * i
        invariant fresh(normalizer) && fresh(normalizer.reasoningFilter)
        invariant normalizer.State() == NormalizedAll(NEW, items[..i]).1
        invariant emittedAny <==> NormalizedAll(NEW, items[..i]).0 != []
        invariant emitted + StreamFrom(items, ending, cancelled, i).events == start + whole.events
        invariant StreamFrom(items, ending, cancelled, i).end == whole.end
      {
        NormalizedStep(items, i);
        StreamStep(items, ending, cancelled, i);
        ghost var events := Normalized(normalizer.State(), items[i]).0;
        AfterOpenItem(emitted, cancelled(polls), events, cancelled(polls + 1), StreamFrom(items, ending, cancelled, i + 1));
        var closed, more := TakeRawEvent(normalizer, items[i]);
        if closed {
          return Closed;
        }
        emittedAny := emittedAny || more;
      }
      assert items[..|items|] == items;
      StreamEnd(items, ending, cancelled);
      if ending.Raises? {
        AppendTwice(emitted, [], []);
        return Failed(ending.failure);
      }
      CompleteStream(normalizer, emittedAny);
      return Completed;
    }

    method RunDeepagent(agent: Agent) returns (end: End)
      requires polls == 1
      modifies this
      ensures var out := DeepagentRun(agent, cancelled);
              emitted == old(emitted) + out.events && end == out.end
    {
      var stop := IsRunCancelled();
      if stop {
        Emit([RunCancelled]);
        return Closed;
      }
      match agent {
        case Streaming(items, ending) =>
          end := RunStream(items, ending);
        case Invoking(answer) =>
          if answer.Err? {
            return Failed(answer.error);
          }
          stop := IsRunCancelled();
          if stop {
            Emit([RunCancelled]);
            return Closed;
          }
          Emit([MessageCompleted(StripReasoningContent(answer.value))]);
          return Completed;
      }
    }

    method ExecuteRunPayload(snapshotValid: bool, agent: Agent)
      requires polls == 0 && emitted == []
      modifies this
      ensures emitted == ExecutedRun(snapshotValid, agent, cancelled)
    {
      var stop := IsRunCancelled();
      if stop {
        Emit([RunCancelled]);
        return;
      }
      if !snapshotValid {
        Emit([RunFailed]);
        return;
      }
      ghost var out := DeepagentRun(agent, cancelled);
      hide DeepagentRun;
      assert emitted + [RunStarted] == [RunStarted];
      Emit([RunStarted]);
      var end := RunDeepagent(agent);
      assert emitted + ClosingEvents(end) == FromStart(out);
      AppendTwice(emitted, [], []);
      match end {
        case Closed =>
        case Completed => Emit([RunCompleted]);
        case Failed(CancelledInside) => Emit([RunCancelled]);
        case Failed(NeedsApproval) => Emit([ApprovalRequested]);
        case Failed(Error) => Emit([RunFailed]);
      }
    }
  }

  lemma AppendTwice(a: seq<Event>, b: seq<Event>, c: seq<Event>)
    ensures a + (b + c) == (a + b) + c
    ensures a + [] == a
  {
  }

  // ----- one closing event -----

  /** Exactly one event closes the run, and nothing comes after it. */
  predicate ClosesOnce(events: seq<Event>) {
    && events != []
    && IsClosing(events[|events| - 1])
    && forall i :: 0 <= i < |events| - 1 ==> !IsClosing(events[i])
  }

  predicate IsRunEvent(e: Event) {
    e.RunStarted? || e.RunCompleted? || e.RunFailed? || e.RunCancelled?
  }

  /** The agent does not pretend to be the run. */
  predicate NoRunEvents(items: seq<RawEvent>) {
    forall raw :: raw in items ==> raw.Explicit? ==> !IsRunEvent(raw.event)
  }

  predicate WellBehaved(agent: Agent) {
    agent.Streaming? ==> NoRunEvents(agent.items)
  }

  predicate Quiet(events: seq<Event>) {
    forall e :: e in events ==> !IsClosing(e) && !e.RunStarted?
  }

  lemma {:induction false} ItemsAreQuiet(n: Normalizer, items: seq<Item>)
    ensures Quiet(TakeItems(n, items).0)
  {
    if items != [] {
      ItemsAreQuiet(n, items[..|items| - 1]);
    }
  }

  /** A raw event yields no closing event, or is a waiting event alone. */
  lemma OneRawEvent(n: Normalizer, raw: RawEvent)
    requires raw.Explicit? ==> !IsRunEvent(raw.event)
    ensures var events := Normalized(n, raw).0;
            Quiet(events) || (|events| == 1 && IsWaiting(events[0]))
  {
    if raw.Messages? {
      ItemsAreQuiet(n, raw.items);
    }
  }

  ghost predicate FitsEnd(out: Outcome) {
    if out.end == Closed then ClosesOnce(out.events) && (forall e :: e in out.events ==> !e.RunStarted? && !e.RunCompleted?)
    else Quiet(out.events)
  }

  lemma QuietThen(events: seq<Event>, out: Outcome)
    requires Quiet(events) && FitsEnd(out)
    ensures FitsEnd(Outcome(events + out.events, out.end))
  {
    var all := events + out.events;
    if out.end == Closed {
      forall i | 0 <= i < |all| - 1 ensures !IsClosing(all[i]) {
        assert i < |events| ==> all[i] in events;
      }
    }
  }

  lemma ItemFitsEnd(stopBefore: bool, events: seq<Event>, stopAfter: bool, rest: Outcome)
    requires Quiet(events) || (|events| == 1 && IsWaiting(events[0]))
    requires FitsEnd(rest)
    ensures FitsEnd(AfterItem(stopBefore, events, stopAfter, rest))
  {
    if HasWaiting(events) {
      var e :| e in events && IsWaiting(e);
    } else {
      assert |events| == 1 ==> events[0] in events;
      QuietThen(events, rest);
      QuietThen(events, Outcome([RunCancelled], Closed));
    }
  }

  lemma EndFitsEnd(n: Normalizer, emittedAny: bool, failure: Failure)
    ensures FitsEnd(Outcome(FinalMessage(n, emittedAny), Completed))
    ensures FitsEnd(Outcome([], Failed(failure)))
  {
    hide Pending, StripReasoningContent;
  }

  lemma {:induction false} StreamFitsEnd(items: seq<RawEvent>, ending: Ending, cancelled: Polls, i: nat)
    requires i <= |items| && NoRunEvents(items)
    ensures FitsEnd(StreamFrom(items, ending, cancelled, i))
    decreases |items| - i
  {
    var (before, n) := NormalizedAll(NEW, items[..i]);
    if i < |items| {
      assert items[i] in items;
      OneRawEvent(n, items[i]);
      StreamFitsEnd(items, ending, cancelled, i + 1);
      ItemFitsEnd(cancelled(2 + 2 * i), Normalized(n, items[i]).0, cancelled(3 + 2 * i),
                  StreamFrom(items, ending, cancelled, i + 1));
    } else {
      EndFitsEnd(n, before != [], if ending.Raises? then ending.failure else Error);
    }
    hide Normalized, NormalizedAll, FitsEnd, AfterItem, FinalMessage;
  }

  lemma StartedRunCloses(out: Outcome)
    requires FitsEnd(out)
    ensures var events := FromStart(out);
            && ClosesOnce(events)
            && events[0] == RunStarted
            && (forall i :: 0 < i < |events| ==> events[i] != RunStarted)
  {
    var events, tail := FromStart(out), out.events + ClosingEvents(out.end);
    assert events == [RunStarted] + tail;
    forall i | 0 < i < |events|
      ensures events[i] != RunStarted && (i < |events| - 1 ==> !IsClosing(events[i])) && (i == |events| - 1 ==> IsClosing(events[i]))
    {
      assert events[i] == tail[i - 1];
      assert i - 1 < |out.events| ==> tail[i - 1] in out.events;
    }
  }

  lemma DeepagentFitsEnd(agent: Agent, cancelled: Polls)
    requires WellBehaved(agent)
    ensures FitsEnd(DeepagentRun(agent, cancelled))
  {
    hide StreamFrom, StripReasoningContent;
    if agent.Streaming? {
      StreamFitsEnd(agent.items, agent.ending, cancelled, 0);
    }
  }

  /**
   For any agent that emits no run events of its own and any cancellation schedule: a run emits exactly one
   closing event, as its last one; the start event comes first and only once, unless the run closes before it.
   */
  lemma RunClosesOnce(snapshotValid: bool, agent: Agent, cancelled: Polls)
    requires WellBehaved(agent)
    ensures var events := ExecutedRun(snapshotValid, agent, cancelled);
            && ClosesOnce(events)
            && (events[0] == RunStarted || |events| == 1)
            && (forall i :: 0 < i < |events| ==> events[i] != RunStarted)
  {
    DeepagentFitsEnd(agent, cancelled);
    StartedRunCloses(DeepagentRun(agent, cancelled));
    hide FromStart, DeepagentRun, WellBehaved, FitsEnd;
  }

  // ----- when a run completes, and with what message -----

  /** From item `from` up to, not including, item `to`: no poll finds the run cancelled, and no item asks for a decision. */
  ghost predicate Undisturbed(items: seq<RawEvent>, cancelled: Polls, from: nat, to: nat)
    requires to <= |items|
  {
    && (forall k :: 2 * from + 2 <= k < 2 * to + 2 ==> !cancelled(k))
    && (forall k :: from <= k < to ==> !AsksForDecision(items[k]))
  }

  /** An interrupt, or a request for a decision that the agent passes on. */
  predicate AsksForDecision(raw: RawEvent) {
    raw == Interrupt || raw == Explicit(InterruptRequested) || raw == Explicit(ApprovalRequested)
  }

  /** The first disturbance from item `from` on is a poll that finds the run cancelled. */
  ghost predicate CancelledAmong(items: seq<RawEvent>, cancelled: Polls, from: nat) {
    exists k :: from <= k < |items| && CancelledAt(items, cancelled, from, k)
  }

  ghost predicate CancelledAt(items: seq<RawEvent>, cancelled: Polls, from: nat, k: nat)
    requires k < |items|
  {
    && Undisturbed(items, cancelled, from, k)
    && (cancelled(2 * k + 2) || (!AsksForDecision(items[k]) && cancelled(2 * k + 3)))
  }

  function EventsOf(items: seq<RawEvent>, k: nat): (events: seq<Event>)
    requires k < |items|
  {
    Normalized(NormalizedAll(NEW, items[..k]).1, items[k]).0
  }

  function EventsFrom(items: seq<RawEvent>, i: nat): (events: seq<Event>)
    requires i <= |items|
    decreases |items| - i
  {
    if i == |items| then [] else EventsOf(items, i) + EventsFrom(items, i + 1)
  }

  lemma {:induction false} EventsFromSplits(items: seq<RawEvent>, i: nat)
    requires i <= |items|
    ensures NormalizedAll(NEW, items).0 == NormalizedAll(NEW, items[..i]).0 + EventsFrom(items, i)
    decreases |items| - i
  {
    if i == |items| {
      assert items[..i] == items;
      AppendTwice(NormalizedAll(NEW, items).0, [], []);
    } else {
      EventsFromSplits(items, i + 1);
      assert items[..i + 1][..i] == items[..i];
      AppendTwice(NormalizedAll(NEW, items[..i]).0, EventsOf(items, i), EventsFrom(items, i + 1));
    }
  }

  /** The events of an item ask for a decision exactly when the item does. */
  lemma WaitsIffAsked(n: Normalizer, raw: RawEvent)
    ensures HasWaiting(Normalized(n, raw).0) <==> AsksForDecision(raw)
  {
    OtherRawEventsAreReported(n, raw);
    if raw.Messages? {
      ItemsAreQuiet(n, raw.items);
    } else if raw.Interrupt? || raw.Explicit? {
      assert Normalized(n, raw).0[0] in Normalized(n, raw).0;
    }
    hide Fed;
  }

  lemma UndisturbedStep(items: seq<RawEvent>, cancelled: Polls, i: nat, to: nat)
    requires i < to <= |items|
    ensures Undisturbed(items, cancelled, i, to) <==>
      !cancelled(2 + 2 * i) && !cancelled(3 + 2 * i) && !AsksForDecision(items[i]) && Undisturbed(items, cancelled, i + 1, to)
  {
    hide AsksForDecision;
  }

  lemma CancelledStep(items: seq<RawEvent>, cancelled: Polls, i: nat)
    requires i < |items|
    ensures CancelledAmong(items, cancelled, i) <==>
      cancelled(2 + 2 * i) || (!AsksForDecision(items[i]) && (cancelled(3 + 2 * i) || CancelledAmong(items, cancelled, i + 1)))
  {
    hide AsksForDecision;
    assert CancelledAt(items, cancelled, i, i) <==> cancelled(2 + 2 * i) || (!AsksForDecision(items[i]) && cancelled(3 + 2 * i));
    if CancelledAmong(items, cancelled, i) {
      var k :| i <= k < |items| && CancelledAt(items, cancelled, i, k);
      if i < k {
        UndisturbedStep(items, cancelled, i, k);
        assert CancelledAt(items, cancelled, i + 1, k);
      }
    }
    if CancelledAmong(items, cancelled, i + 1) && !cancelled(2 + 2 * i) && !cancelled(3 + 2 * i) && !AsksForDecision(items[i]) {
      var k :| i + 1 <= k < |items| && CancelledAt(items, cancelled, i + 1, k);
      UndisturbedStep(items, cancelled, i, k);
      assert CancelledAt(items, cancelled, i, k);
    }
  }

  predicate EndsCancelled(out: Outcome) {
    out.end == Closed && out.events != [] && out.events[|out.events| - 1] == RunCancelled
  }

  /** How one item decides what becomes of the rest. */
  lemma ItemEnds(before: bool, events: seq<Event>, after: bool, rest: Outcome)
    requires Quiet(events) || (|events| == 1 && IsWaiting(events[0]))
    ensures var out := AfterItem(before, events, after, rest); var goesOn := !before && !HasWaiting(events) && !after;
            && (out.end != Closed ==> goesOn)
            && (goesOn ==> out == Outcome(events + rest.events, rest.end))
            && (EndsCancelled(out) <==> before || (!HasWaiting(events) && (after || EndsCancelled(rest))))
  {
    if !before && !HasWaiting(events) && !after {
      assert rest.events == [] ==> forall e :: e in events ==> e != RunCancelled;
      assert events != [] ==> events[|events| - 1] in events;
    }
  }

  lemma {:induction false} StreamEnds(items: seq<RawEvent>, ending: Ending, cancelled: Polls, i: nat)
    requires i <= |items| && NoRunEvents(items)
    ensures var out, all := StreamFrom(items, ending, cancelled, i), NormalizedAll(NEW, items);
            && (out.end != Closed <==> Undisturbed(items, cancelled, i, |items|))
            && (out.end != Closed ==> out.end == if ending.Raises? then Failed(ending.failure) else Completed)
            && (out.end == Completed ==> out.events == EventsFrom(items, i) + FinalMessage(all.1, all.0 != []))
            && (EndsCancelled(out) <==> CancelledAmong(items, cancelled, i))
    decreases |items| - i
  {
    var all := NormalizedAll(NEW, items);
    if i == |items| {
      assert items[..i] == items;
      assert EventsFrom(items, i) + FinalMessage(all.1, all.0 != []) == FinalMessage(all.1, all.0 != []);
      hide NormalizedAll, FinalMessage;
    } else {
      hide Normalized, NormalizedAll, FinalMessage, HasWaiting, AfterItem, EndsCancelled, NoRunEvents, Quiet, IsWaiting;
      var n := NormalizedAll(NEW, items[..i]).1;
      RawOf(items, i, n);
      WaitsIffAsked(n, items[i]);
      hide AsksForDecision;
      StreamEnds(items, ending, cancelled, i + 1);
      UndisturbedStep(items, cancelled, i, |items|);
      CancelledStep(items, cancelled, i);
      hide Undisturbed, CancelledAmong;
      ItemEnds(cancelled(2 + 2 * i), EventsOf(items, i), cancelled(3 + 2 * i), StreamFrom(items, ending, cancelled, i + 1));
      AppendTwice(EventsOf(items, i), EventsFrom(items, i + 1), FinalMessage(all.1, all.0 != []));
    }
  }

  lemma RawOf(items: seq<RawEvent>, i: nat, n: Normalizer)
    requires i < |items| && NoRunEvents(items)
    ensures var events := Normalized(n, items[i]).0; Quiet(events) || (|events| == 1 && IsWaiting(events[0]))
  {
    assert items[i] in items;
    OneRawEvent(n, items[i]);
  }

  /** The last event of a run tells how the stream ended. */
  lemma LastEvent(out: Outcome)
    requires FitsEnd(out)
    ensures var events := FromStart(out); var last := events[|events| - 1];
            && (last == RunCompleted <==> out.end == Completed)
            && (last == RunFailed ==> out.end == Failed(Error) || (out.end == Closed && out.events[|out.events| - 1] == RunFailed))
            && (out.end == Failed(Error) ==> last == RunFailed)
            && (last == RunCancelled <==> out.end == Failed(CancelledInside) || EndsCancelled(out))
            && (out.end == Completed ==> events == [RunStarted] + out.events + [RunCompleted])
  {
    var events := FromStart(out);
    if out.end == Closed {
      assert events[|events| - 1] == out.events[|out.events| - 1];
      assert out.events[|out.events| - 1] in out.events;
    }
  }

  lemma {:induction false} StreamNeverFails(items: seq<RawEvent>, ending: Ending, cancelled: Polls, i: nat)
    requires i <= |items| && NoRunEvents(items)
    ensures forall e :: e in StreamFrom(items, ending, cancelled, i).events ==> e != RunFailed
    decreases |items| - i
  {
    hide Normalized, NormalizedAll, NoRunEvents, HasWaiting, Pending, StripReasoningContent;
    if i < |items| {
      RawOf(items, i, NormalizedAll(NEW, items[..i]).1);
      StreamNeverFails(items, ending, cancelled, i + 1);
    }
  }

  /**
   How a streaming run ends, decided by its inputs alone. It completes exactly when its snapshot is valid, none of its
   polls says cancelled, no item asks for a decision and the stream does not raise; it fails exactly when the snapshot
   is not valid or an undisturbed stream raises an error; it is cancelled exactly when the first disturbance is a poll,
   or an undisturbed stream is cancelled from inside. In all other cases it waits.
   */
  lemma RunClosesAs(snapshotValid: bool, items: seq<RawEvent>, ending: Ending, cancelled: Polls)
    requires NoRunEvents(items)
    ensures var events := ExecutedRun(snapshotValid, Streaming(items, ending), cancelled);
            var last := events[|events| - 1];
            var started := snapshotValid && !cancelled(0);
            var undisturbed := !cancelled(1) && Undisturbed(items, cancelled, 0, |items|);
            && (last == RunCompleted <==> started && undisturbed && ending == Finished)
            && (last == RunFailed <==> !cancelled(0) && (!snapshotValid || (undisturbed && ending == Raises(Error))))
            && (last == RunCancelled <==>
                  cancelled(0) || (started && (cancelled(1) || CancelledAmong(items, cancelled, 0)
                                               || (undisturbed && ending == Raises(CancelledInside)))))
  {
    var out := DeepagentRun(Streaming(items, ending), cancelled);
    DeepagentEnds(items, ending, cancelled);
    hide Undisturbed, CancelledAmong, StreamFrom, FitsEnd, NoRunEvents, DeepagentRun, FromStart, EndsCancelled;
    LastEvent(out);
    StartsNonEmpty(out);
  }

  lemma StartsNonEmpty(out: Outcome)
    ensures FromStart(out) != []
  {
  }

  lemma DeepagentEnds(items: seq<RawEvent>, ending: Ending, cancelled: Polls)
    requires NoRunEvents(items)
    ensures var out := DeepagentRun(Streaming(items, ending), cancelled);
            var undisturbed := !cancelled(1) && Undisturbed(items, cancelled, 0, |items|);
            && FitsEnd(out)
            && (out.end != Closed <==> undisturbed)
            && (out.end != Closed ==> out.end == if ending.Raises? then Failed(ending.failure) else Completed)
            && (EndsCancelled(out) <==> cancelled(1) || CancelledAmong(items, cancelled, 0))
            && (out.end == Closed ==> out.events != [] && out.events[|out.events| - 1] != RunFailed)
  {
    StreamEnds(items, ending, cancelled, 0);
    StreamNeverFails(items, ending, cancelled, 0);
    DeepagentFitsEnd(Streaming(items, ending), cancelled);
    hide Undisturbed, CancelledAmong, StreamFrom, FitsEnd, NoRunEvents;
    ClosedIsNotEmpty(DeepagentRun(Streaming(items, ending), cancelled));
  }

  lemma ClosedIsNotEmpty(out: Outcome)
    requires FitsEnd(out)
    ensures out.end == Closed ==> out.events != [] && out.events[|out.events| - 1] in out.events
  {
  }

  /** A completed run has emitted every event of its stream, in order, and after them the message that completes the deltas. */
  lemma CompletedRunEmitsAll(snapshotValid: bool, items: seq<RawEvent>, ending: Ending, cancelled: Polls)
    requires NoRunEvents(items)
    requires var events := ExecutedRun(snapshotValid, Streaming(items, ending), cancelled); events[|events| - 1] == RunCompleted
    ensures var streamed, n := NormalizedAll(NEW, items).0, NormalizedAll(NEW, items).1;
            ExecutedRun(snapshotValid, Streaming(items, ending), cancelled)
              == [RunStarted] + (streamed + FinalMessage(n, streamed != [])) + [RunCompleted]
  {
    RunClosesAs(snapshotValid, items, ending, cancelled);
    StreamEnds(items, ending, cancelled, 0);
    DeepagentFitsEnd(Streaming(items, ending), cancelled);
    EventsFromSplits(items, 0);
    assert items[..0] == [];
    hide Undisturbed, CancelledAmong, FinalMessage, StreamFrom, EventsFrom, FitsEnd, NoRunEvents;
    assert NormalizedAll(NEW, items).0 == EventsFrom(items, 0) by {
      assert NormalizedAll(NEW, []).0 + EventsFrom(items, 0) == EventsFrom(items, 0);
    }
    LastEvent(DeepagentRun(Streaming(items, ending), cancelled));
    hide NormalizedAll;
  }

  /**
   When the agent completes no message itself, a stream with visible text is closed by one message, the stripped
   text; without visible text by none, unless nothing at all was emitted: then by one substitute.
   */
  lemma FinalMessageIsStrippedText(items: seq<RawEvent>)
    requires OnlyDeltas(items)
    ensures var streamed, n := NormalizedAll(NEW, items).0, NormalizedAll(NEW, items).1;
            var content := StripReasoningContent(StreamText(items));
            && (content != [] ==> FinalMessage(n, streamed != []) == [MessageCompleted(content)])
            && (content == [] && streamed != [] ==> FinalMessage(n, true) == [])
            && (content == [] && streamed == [] ==>
                  FinalMessage(n, false) == [MessageCompleted(StripReasoningContent(
                    n.platformResult.GetOr("Run completed without an assistant response.")))])
  {
    PendingMessageIsStrippedText(items);
    StreamIsAssembled(items);
    hide Pending, NormalizedAll, StripReasoningContent;
  }

  // ----- runs that wait for a decision -----

  /** The first disturbance from item `from` on is item `k`, which asks for a decision. */
  ghost predicate WaitsAt(items: seq<RawEvent>, cancelled: Polls, from: nat, k: nat) {
    from <= k < |items| && Undisturbed(items, cancelled, from, k) && !cancelled(2 * k + 2) && AsksForDecision(items[k])
  }

  ghost predicate WaitsAmong(items: seq<RawEvent>, cancelled: Polls, from: nat) {
    exists k: nat :: WaitsAt(items, cancelled, from, k)
  }

  /** What comes first: nothing, a poll, or an item. */
  lemma {:induction false} FirstDisturbance(items: seq<RawEvent>, cancelled: Polls, i: nat)
    requires i <= |items|
    ensures Undisturbed(items, cancelled, i, |items|) || CancelledAmong(items, cancelled, i) || WaitsAmong(items, cancelled, i)
    decreases |items| - i
  {
    hide AsksForDecision;
    if i < |items| {
      FirstDisturbance(items, cancelled, i + 1);
      UndisturbedStep(items, cancelled, i, |items|);
      CancelledStep(items, cancelled, i);
      if !cancelled(2 + 2 * i) && AsksForDecision(items[i]) {
        assert WaitsAt(items, cancelled, i, i);
      } else if !cancelled(2 + 2 * i) && !cancelled(3 + 2 * i) && WaitsAmong(items, cancelled, i + 1) {
        var k: nat :| WaitsAt(items, cancelled, i + 1, k);
        UndisturbedStep(items, cancelled, i, k);
        assert WaitsAt(items, cancelled, i, k);
      }
    }
  }

  lemma {:induction false} StreamWaits(items: seq<RawEvent>, ending: Ending, cancelled: Polls, i: nat, k: nat)
    requires WaitsAt(items, cancelled, i, k)
    ensures StreamFrom(items, ending, cancelled, i).end == Closed
    ensures NormalizedAll(NEW, items[..i]).0 + StreamFrom(items, ending, cancelled, i).events == NormalizedAll(NEW, items[..k + 1]).0
    decreases k - i
  {
    hide Normalized, HasWaiting, AsksForDecision, FinalMessage;
    var (before, n) := NormalizedAll(NEW, items[..i]);
    assert items[..i + 1][..i] == items[..i];
    WaitsIffAsked(n, items[i]);
    if i < k {
      UndisturbedStep(items, cancelled, i, k);
      StreamWaits(items, ending, cancelled, i + 1, k);
      AppendTwice(before, Normalized(n, items[i]).0, StreamFrom(items, ending, cancelled, i + 1).events);
    }
  }

  /** The event by which a run asks for the decision. */
  function DecisionOf(raw: RawEvent): (e: Event)
    requires AsksForDecision(raw)
  {
    if raw.Explicit? then raw.event else InterruptRequested
  }

  /** Such a run emits every event up to that item and no more; the last one asks for the decision. */
  lemma WaitingRunStopsThere(snapshotValid: bool, items: seq<RawEvent>, ending: Ending, cancelled: Polls, k: nat)
    requires snapshotValid && !cancelled(0) && !cancelled(1) && WaitsAt(items, cancelled, 0, k)
    ensures var events := ExecutedRun(snapshotValid, Streaming(items, ending), cancelled);
            && events == [RunStarted] + NormalizedAll(NEW, items[..k + 1]).0
            && events[|events| - 1] == DecisionOf(items[k])
  {
    hide Undisturbed, Normalized, NormalizedAll, StreamFrom, AsksForDecision, DecisionOf;
    StreamWaits(items, ending, cancelled, 0, k);
    EventsEndWith(items, k);
    NothingYet(items);
    var out := StreamFrom(items, ending, cancelled, 0);
    AppendTwice([], out.events, []);
    AppendTwice([RunStarted], out.events, []);
  }

  lemma NothingYet(items: seq<RawEvent>)
    ensures items[..0] == [] && NormalizedAll(NEW, items[..0]) == ([], NEW)
    ensures forall events: seq<Event> :: [] + events == events
  {
  }

  lemma EventsEndWith(items: seq<RawEvent>, k: nat)
    requires k < |items| && AsksForDecision(items[k])
    ensures var events := NormalizedAll(NEW, items[..k + 1]).0;
            events != [] && events[|events| - 1] == DecisionOf(items[k])
  {
    hide Normalized;
    assert items[..k + 1][..k] == items[..k];
    OtherRawEventsAreReported(NormalizedAll(NEW, items[..k]).1, items[k]);
  }

  lemma UndisturbedApproval(snapshotValid: bool, items: seq<RawEvent>, cancelled: Polls)
    requires NoRunEvents(items) && snapshotValid && !cancelled(0) && !cancelled(1) && Undisturbed(items, cancelled, 0, |items|)
    ensures var events := ExecutedRun(snapshotValid, Streaming(items, Raises(NeedsApproval)), cancelled);
            events[|events| - 1] == ApprovalRequested
  {
    DeepagentEnds(items, Raises(NeedsApproval), cancelled);
    hide Undisturbed, CancelledAmong, StreamFrom, FitsEnd, NoRunEvents;
  }

  /**
   The runs that wait, decided by their inputs too: for an interrupt exactly when an interrupt is the first disturbance,
   for an approval exactly when a request for one is, or an undisturbed stream stops at a tool that needs approval.
   */
  lemma RunWaitsAs(snapshotValid: bool, items: seq<RawEvent>, ending: Ending, cancelled: Polls)
    requires NoRunEvents(items)
    ensures var events := ExecutedRun(snapshotValid, Streaming(items, ending), cancelled);
            var last := events[|events| - 1];
            var started := snapshotValid && !cancelled(0) && !cancelled(1);
            && (last == InterruptRequested <==> started && WaitsFor(items, cancelled, InterruptRequested))
            && (last == ApprovalRequested <==>
                  started && (|| WaitsFor(items, cancelled, ApprovalRequested)
                              || (Undisturbed(items, cancelled, 0, |items|) && ending == Raises(NeedsApproval))))
  {
    RunIsNotEmpty(snapshotValid, Streaming(items, ending), cancelled);
    RunClosesAs(snapshotValid, items, ending, cancelled);
    FirstDisturbance(items, cancelled, 0);
    WaitsOrNot(items, cancelled);
    hide ExecutedRun, Undisturbed, CancelledAmong, NormalizedAll, AsksForDecision, DecisionOf;
    if snapshotValid && !cancelled(0) && !cancelled(1) {
      if Undisturbed(items, cancelled, 0, |items|) {
        AnyEnding(ending);
        if ending == Raises(NeedsApproval) {
          UndisturbedApproval(snapshotValid, items, cancelled);
        }
      } else {
        forall k: nat | WaitsAt(items, cancelled, 0, k)
          ensures var events := ExecutedRun(snapshotValid, Streaming(items, ending), cancelled);
                  events[|events| - 1] == DecisionOf(items[k])
        {
          WaitingRunStopsThere(snapshotValid, items, ending, cancelled, k);
        }
        assert CancelledAmong(items, cancelled, 0) || WaitsAmong(items, cancelled, 0);
      }
    }
  }

  lemma AnyEnding(ending: Ending)
    ensures ending == Finished || ending == Raises(Error) || ending == Raises(CancelledInside) || ending == Raises(NeedsApproval)
  {
    match ending
    case Finished =>
    case Raises(CancelledInside) =>
    case Raises(NeedsApproval) =>
    case Raises(Error) =>
  }

  /** The first disturbance is an item that asks for a decision by this event. */
  ghost predicate WaitsFor(items: seq<RawEvent>, cancelled: Polls, e: Event) {
    exists k: nat :: WaitsAt(items, cancelled, 0, k) && DecisionOf(items[k]) == e
  }

  lemma RunIsNotEmpty(snapshotValid: bool, agent: Agent, cancelled: Polls)
    ensures ExecutedRun(snapshotValid, agent, cancelled) != []
  {
    hide DeepagentRun;
  }

  /** A first disturbance is either a poll or an item. */
  lemma WaitsOrNot(items: seq<RawEvent>, cancelled: Polls)
    ensures forall k: nat :: WaitsAt(items, cancelled, 0, k) ==> !Undisturbed(items, cancelled, 0, |items|)
  {
  }

  // ----- agents that only answer -----

  /** Every run of an agent without a stream, event by event. */
  lemma AnsweringRun(snapshotValid: bool, answer: Result<string, Failure>, cancelled: Polls)
    ensures ExecutedRun(snapshotValid, Invoking(answer), cancelled)
         == if cancelled(0) then [RunCancelled]
            else if !snapshotValid then [RunFailed]
            else if cancelled(1) then [RunStarted, RunCancelled]
            else if answer == Err(Error) then [RunStarted, RunFailed]
            else if answer == Err(NeedsApproval) then [RunStarted, ApprovalRequested]
            else if answer.Err? || cancelled(2) then [RunStarted, RunCancelled]
            else [RunStarted, MessageCompleted(StripReasoningContent(answer.value)), RunCompleted]
  {
    hide StripReasoningContent;
  }
}
