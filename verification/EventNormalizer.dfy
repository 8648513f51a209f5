/**
 The normalizer that turns what an agent streams into platform events, and assembles the
 visible text deltas into one completed message.
 */
module EventNormalizer {
  import opened Options
  import opened PythonText
  import opened ReasoningFilter

  // ----- events -----

  /** A platform event: its type and, for messages, the content. */
  datatype Event =
    | RunStarted | RunCompleted | RunFailed | RunCancelled
    | InterruptRequested | ApprovalRequested
    | MessageDelta(content: string) | MessageCompleted(content: string)
    | ToolEvent | TaskUpdated | OtherEvent

  /** One item of a message stream; `toolCalls` counts its tool call deltas and starts that are reported. */
  datatype Item =
    | TextItem(toolCalls: nat, text: string)
    | BuiltinToolResult(toolCalls: nat)
    | PlatformToolResult(toolCalls: nat, result: string)

  /** What an agent yields; `Explicit` is a platform event that is passed on as it is. */
  datatype RawEvent =
    | Messages(items: seq<Item>)
    | ExplicitDelta(text: string)
    | ExplicitCompleted(text: string)
    | Explicit(event: Event)
    | Todos(count: nat)
    | Interrupt
    | Unrecognised

  // ----- the normalizer on values -----

  datatype Normalizer = Normalizer(filter: Filter, deltas: seq<string>, completed: bool, platformResult: Option<string>)

  const NEW := Normalizer(FRESH, [], false, None)

  function VisibleDelta(n: Normalizer, content: string, final: bool): (r: (string, Filter)) {
    var (visible, f) := Fed(n.filter, content, final);
    (if n.deltas == [] then Lstrip(visible) else visible, f)
  }

  /** A text delta: hidden or empty ones are not reported. */
  function TakeText(n: Normalizer, text: string): (r: (seq<Event>, Normalizer)) {
    var (visible, f) := VisibleDelta(n, text, false);
    if visible == [] then ([], n.(filter := f))
    else ([MessageDelta(visible)], n.(filter := f, deltas := n.deltas + [visible]))
  }

  function ToolEvents(count: nat): (events: seq<Event>) {
    seq(count, _ => ToolEvent)
  }

  function TakeItem(n: Normalizer, item: Item): (r: (seq<Event>, Normalizer)) {
    match item
    case BuiltinToolResult(calls) => (ToolEvents(calls) + [ToolEvent], n)
    case PlatformToolResult(calls, result) => (ToolEvents(calls), n.(platformResult := Some(result)))
    case TextItem(calls, text) =>
      if text == [] then (ToolEvents(calls), n)
      else
        var (events, n') := TakeText(n, text);
        (ToolEvents(calls) + events, n')
  }

  function TakeItems(n: Normalizer, items: seq<Item>): (r: (seq<Event>, Normalizer)) {
    if items == [] then ([], n)
    else
      var (before, n1) := TakeItems(n, items[..|items| - 1]);
      var (events, n2) := TakeItem(n1, items[|items| - 1]);
      (before + events, n2)
  }

  function Normalized(n: Normalizer, raw: RawEvent): (r: (seq<Event>, Normalizer)) {
    match raw
    case Messages(items) => TakeItems(n, items)
    case ExplicitDelta(text) => TakeText(n, text)
    case ExplicitCompleted(text) =>
      ([MessageCompleted(StripReasoningContent(text))], n.(completed := true, deltas := []))
    case Explicit(event) => ([event], n)
    case Todos(count) => (seq(count, _ => TaskUpdated), n)
    case Interrupt => ([InterruptRequested], n)
    case Unrecognised => ([], n)
  }

  /** The message that completes the deltas when the stream is over, unless there is nothing to complete. */
  function Pending(n: Normalizer): (r: (Option<string>, Normalizer))
    ensures r.1.platformResult == n.platformResult
    ensures r.1.completed == (n.completed || r.0.Some?)
  {
    var (trailing, f) := VisibleDelta(n, [], true);
    var deltas := if trailing == [] then n.deltas else n.deltas + [trailing];
    if n.completed || deltas == [] then (None, n.(filter := f, deltas := deltas))
    else (Some(Strip(Join(deltas))), n.(filter := f, deltas := [], completed := true))
  }

  // ----- the class -----

  class AgentEventNormalizer {
    const reasoningFilter: ReasoningStreamFilter
    var messageDeltaBuffer: seq<string>
    var messageCompletedEmitted: bool
    var latestPlatformToolResult: Option<string>

    function State(): (n: Normalizer)
      reads this, reasoningFilter
    {
      Normalizer(reasoningFilter.State(), messageDeltaBuffer, messageCompletedEmitted, latestPlatformToolResult)
    }

    constructor ()
      ensures fresh(reasoningFilter) && State() == NEW
    {
      reasoningFilter := new ReasoningStreamFilter();
      messageDeltaBuffer := [];
      messageCompletedEmitted := false;
      latestPlatformToolResult := None;
    }

    method VisibleMessageDelta(content: string, final: bool) returns (visible: string)
      modifies reasoningFilter
      ensures (visible, reasoningFilter.State()) == VisibleDelta(old(State()), content, final)
    {
      visible := reasoningFilter.Feed(content, final);
      if messageDeltaBuffer == [] {
        visible := Lstrip(visible);
      }
    }

    method TakeMessageText(text: string) returns (events: seq<Event>)
      modifies this, reasoningFilter
      ensures (events, State()) == TakeText(old(State()), text)
    {
      var visible := VisibleMessageDelta(text, false);
      if visible == [] {
        return [];
      }
      messageDeltaBuffer := messageDeltaBuffer + [visible];
      events := [MessageDelta(visible)];
    }

    method MessagesToEvents(items: seq<Item>) returns (events: seq<Event>)
      modifies this, reasoningFilter
      ensures (events, State()) == TakeItems(old(State()), items)
    {
      events := [];
      for i := 0 to |items|
        invariant (events, State()) == TakeItems(old(State()), items[..i])
      {
        assert items[..i + 1][..i] == items[..i];
        events := TakeOneItem(events, items[i]);
      }
      assert items[..|items|] == items;
    }

    method TakeOneItem(before: seq<Event>, item: Item) returns (events: seq<Event>)
      modifies this, reasoningFilter
      ensures var (more, n) := TakeItem(old(State()), item); events == before + more && State() == n
    {
      events := before + ToolEvents(item.toolCalls);
      match item {
        case BuiltinToolResult(_) =>
          events := events + [ToolEvent];
        case PlatformToolResult(_, result) =>
          latestPlatformToolResult := Some(result);
        case TextItem(_, text) =>
          if text != [] {
            var more := TakeMessageText(text);
            events := events + more;
          }
      }
    }

    method Normalize(raw: RawEvent) returns (events: seq<Event>)
      modifies this, reasoningFilter
      ensures (events, State()) == Normalized(old(State()), raw)
    {
      match raw {
        case Messages(items) =>
          events := MessagesToEvents(items);
        case ExplicitDelta(text) =>
          events := TakeMessageText(text);
        case ExplicitCompleted(text) =>
          messageCompletedEmitted := true;
          messageDeltaBuffer := [];
          events := [MessageCompleted(StripReasoningContent(text))];
        case Explicit(event) =>
          events := [event];
        case Todos(count) =>
          events := seq(count, _ => TaskUpdated);
        case Interrupt =>
          events := [InterruptRequested];
        case Unrecognised =>
          events := [];
      }
    }

    method PendingCompletedMessage() returns (content: Option<string>)
      modifies this, reasoningFilter
      ensures (content, State()) == Pending(old(State()))
    {
      var trailing := VisibleMessageDelta([], true);
      if trailing != [] {
        messageDeltaBuffer := messageDeltaBuffer + [trailing];
      }
      if messageCompletedEmitted || messageDeltaBuffer == [] {
        return None;
      }
      content := Some(Strip(Join(messageDeltaBuffer)));
      messageCompletedEmitted := true;
      messageDeltaBuffer := [];
    }

    method CompletedMessage(text: string) returns (content: string)
      modifies this
      ensures content == StripReasoningContent(text)
      ensures State() == old(State()).(completed := true, deltas := [])
    {
      content := StripReasoningContent(text);
      messageCompletedEmitted := true;
      messageDeltaBuffer := [];
    }
  }

  // ----- the assembled message -----

  function TextOfItem(item: Item): (s: string) {
    if item.TextItem? then item.text else []
  }

  /** The text items of a message stream, in order. */
  function ItemTexts(items: seq<Item>): (s: string) {
    if items == [] then []
    else ItemTexts(items[..|items| - 1]) + TextOfItem(items[|items| - 1])
  }

  function TextOf(raw: RawEvent): (s: string) {
    match raw
    case Messages(items) => ItemTexts(items)
    case ExplicitDelta(text) => text
    case _ => []
  }

  /** All text an agent has streamed. */
  function StreamText(raws: seq<RawEvent>): (s: string) {
    if raws == [] then [] else StreamText(raws[..|raws| - 1]) + TextOf(raws[|raws| - 1])
  }

  function NormalizedAll(n: Normalizer, raws: seq<RawEvent>): (r: (seq<Event>, Normalizer)) {
    if raws == [] then ([], n)
    else
      var (before, n1) := NormalizedAll(n, raws[..|raws| - 1]);
      var (events, n2) := Normalized(n1, raws[|raws| - 1]);
      (before + events, n2)
  }

  /** The contents of the reported message deltas. */
  function DeltasOf(events: seq<Event>): (d: seq<string>) {
    if events == [] then []
    else
      var last := events[|events| - 1];
      DeltasOf(events[..|events| - 1]) + if last.MessageDelta? then [last.content] else []
  }

  lemma {:induction false} DeltasOfAppend(a: seq<Event>, b: seq<Event>)
    ensures DeltasOf(a + b) == DeltasOf(a) + DeltasOf(b)
  {
    if b == [] {
      assert a + b == a;
    } else {
      DeltasOfAppend(a, b[..|b| - 1]);
      assert (a + b)[..|a + b| - 1] == a + b[..|b| - 1];
    }
  }

  lemma {:induction false} NoDeltas(events: seq<Event>)
    requires forall e :: e in events ==> !e.MessageDelta?
    ensures DeltasOf(events) == []
  {
    if events != [] {
      NoDeltas(events[..|events| - 1]);
      assert events[|events| - 1] in events;
    }
  }

  /** The buffered deltas are what a fresh filter shows of `text` without the white space in front. */
  ghost predicate Assembled(n: Normalizer, text: string) {
    && Fed(FRESH, text, false).1 == n.filter
    && Join(n.deltas) == Lstrip(Fed(FRESH, text, false).0)
    && (n.deltas == [] <==> Join(n.deltas) == [])
    && !n.completed
  }

  /** One more visible part, first or not. */
  lemma DeltaExtends(deltas: seq<string>, shown: string, part: string)
    requires Join(deltas) == Lstrip(shown) && (deltas == [] <==> Join(deltas) == [])
    ensures var visible := if deltas == [] then Lstrip(part) else part;
            var deltas' := if visible == [] then deltas else deltas + [visible];
            Join(deltas') == Lstrip(shown + part) && (deltas' == [] <==> Join(deltas') == [])
  {
    LstripAppend(shown, part);
    var visible := if deltas == [] then Lstrip(part) else part;
    JoinSnoc(deltas, visible);
    assert Lstrip(shown) + [] == Lstrip(shown);
  }

  lemma TextKeepsAssembled(n: Normalizer, text: string, more: string)
    requires Assembled(n, text)
    ensures var (events, n') := TakeText(n, more);
            Assembled(n', text + more) && n'.deltas == n.deltas + DeltasOf(events)
  {
    FeedInChunks(FRESH, text, more, false);
    hide Fed;
    DeltaExtends(n.deltas, Fed(FRESH, text, false).0, Fed(n.filter, more, false).0);
    var visible := VisibleDelta(n, more, false).0;
    assert [MessageDelta(visible)][..0] == [];
  }

  lemma ItemKeepsAssembled(n: Normalizer, text: string, item: Item)
    requires Assembled(n, text)
    ensures var (events, n') := TakeItem(n, item);
            && Assembled(n', text + TextOfItem(item))
            && n'.deltas == n.deltas + DeltasOf(events)
  {
    NoDeltas(ToolEvents(item.toolCalls));
    NoDeltas(ToolEvents(item.toolCalls) + [ToolEvent]);
    assert text + [] == text;
    if item.TextItem? && item.text != [] {
      var (events, n') := TakeText(n, item.text);
      TextKeepsAssembled(n, text, item.text);
      DeltasOfAppend(ToolEvents(item.toolCalls), events);
    }
  }

  lemma {:induction false} ItemsKeepAssembled(n: Normalizer, text: string, items: seq<Item>)
    requires Assembled(n, text)
    ensures var (events, n') := TakeItems(n, items);
            Assembled(n', text + ItemTexts(items)) && n'.deltas == n.deltas + DeltasOf(events)
  {
    if items == [] {
      assert text + [] == text;
    } else {
      var init, last := items[..|items| - 1], items[|items| - 1];
      ItemsKeepAssembled(n, text, init);
      var (before, n1) := TakeItems(n, init);
      var (events, n2) := TakeItem(n1, last);
      ItemKeepsAssembled(n1, text + ItemTexts(init), last);
      DeltasOfAppend(before, events);
      hide Assembled, TakeItem, TextOfItem;
      Regroup(text, ItemTexts(init), TextOfItem(last), []);
      Regroup(n.deltas, DeltasOf(before), DeltasOf(events), []);
    }
  }

  lemma RawKeepsAssembled(n: Normalizer, text: string, raw: RawEvent)
    requires Assembled(n, text) && !raw.ExplicitCompleted? && !(raw.Explicit? && raw.event.MessageDelta?)
    ensures var (events, n') := Normalized(n, raw);
            Assembled(n', text + TextOf(raw)) && n'.deltas == n.deltas + DeltasOf(events)
  {
    assert text + [] == text;
    match raw
    case Messages(items) => ItemsKeepAssembled(n, text, items);
    case ExplicitDelta(more) => TextKeepsAssembled(n, text, more);
    case _ => NoDeltas(Normalized(n, raw).0);
  }

  /** A stream that completes no message itself; every delta with text comes as a text delta. */
  predicate OnlyDeltas(raws: seq<RawEvent>) {
    forall raw :: raw in raws ==> !raw.ExplicitCompleted? && !(raw.Explicit? && raw.event.MessageDelta?)
  }

  lemma {:induction false} StreamIsAssembled(raws: seq<RawEvent>)
    requires OnlyDeltas(raws)
    ensures var (events, n) := NormalizedAll(NEW, raws);
            Assembled(n, StreamText(raws)) && n.deltas == DeltasOf(events)
  {
    if raws == [] {
      SplitUnique([], NoTag([]));
    } else {
      var init, last := raws[..|raws| - 1], raws[|raws| - 1];
      StreamIsAssembled(init);
      var (before, n1) := NormalizedAll(NEW, init);
      var (events, n2) := Normalized(n1, last);
      assert last in raws;
      RawKeepsAssembled(n1, StreamText(init), last);
      DeltasOfAppend(before, events);
    }
  }

  /**
   However an agent cuts its text into deltas, and whatever else it streams in between: the pending
   completed message is the stripped text, and there is none exactly when that is empty.
   */
  lemma PendingMessageIsStrippedText(raws: seq<RawEvent>)
    requires OnlyDeltas(raws)
    ensures var content := StripReasoningContent(StreamText(raws));
            Pending(NormalizedAll(NEW, raws).1).0 == if content == [] then None else Some(content)
  {
    StreamIsAssembled(raws);
    var n, text := NormalizedAll(NEW, raws).1, StreamText(raws);
    PendingOfAssembled(n, text);
  }

  lemma PendingOfAssembled(n: Normalizer, text: string)
    requires Assembled(n, text)
    ensures var content := StripReasoningContent(text);
            Pending(n).0 == if content == [] then None else Some(content)
    ensures Pending(n).0.Some? ==> Pending(n).1.completed
  {
    FeedInChunks(FRESH, text, [], true);
    assert text + [] == text;
    hide Fed;
    DeltaExtends(n.deltas, Fed(FRESH, text, false).0, Fed(n.filter, [], true).0);
    StripTwice(Fed(FRESH, text, true).0);
  }

  /** What the client has seen as deltas is an initial part of the whole visible text, white space in front aside. */
  lemma DeltasArePrefix(raws: seq<RawEvent>)
    requires OnlyDeltas(raws)
    ensures Join(DeltasOf(NormalizedAll(NEW, raws).0)) <= Lstrip(Fed(FRESH, StreamText(raws), true).0)
  {
    StreamIsAssembled(raws);
    var text := StreamText(raws);
    FeedInChunks(FRESH, text, [], true);
    assert text + [] == text;
    LstripAppend(Fed(FRESH, text, false).0, Fed(Fed(FRESH, text, false).1, [], true).0);
  }

  /** Once a message is completed, by an explicit event or as the pending one, none is pending whatever is streamed after it. */
  lemma {:induction false} CompletedOnce(n: Normalizer, raws: seq<RawEvent>)
    requires n.completed
    ensures NormalizedAll(n, raws).1.completed
    ensures Pending(NormalizedAll(n, raws).1).0 == None
  {
    if raws != [] {
      CompletedOnce(n, raws[..|raws| - 1]);
      StaysCompleted(NormalizedAll(n, raws[..|raws| - 1]).1, raws[|raws| - 1]);
    }
  }

  lemma StaysCompleted(n: Normalizer, raw: RawEvent)
    requires n.completed
    ensures Normalized(n, raw).1.completed
  {
    if raw.Messages? {
      ItemsStayCompleted(n, raw.items);
    }
  }

  lemma {:induction false} ItemsStayCompleted(n: Normalizer, items: seq<Item>)
    requires n.completed
    ensures TakeItems(n, items).1.completed
  {
    if items != [] {
      ItemsStayCompleted(n, items[..|items| - 1]);
    }
  }

  // ----- everything else in a stream -----

  /** What is no text is reported as it is: each interrupt, platform event and todo list, in its own events and nothing else. */
  lemma OtherRawEventsAreReported(n: Normalizer, raw: RawEvent)
    ensures raw == Interrupt ==> Normalized(n, raw) == ([InterruptRequested], n)
    ensures raw == Unrecognised ==> Normalized(n, raw) == ([], n)
    ensures raw.Explicit? ==> Normalized(n, raw) == ([raw.event], n)
    ensures raw.Todos? ==> && |Normalized(n, raw).0| == raw.count && Normalized(n, raw).1 == n
                           && forall e :: e in Normalized(n, raw).0 ==> e == TaskUpdated
    ensures raw.ExplicitCompleted? ==>
              && Normalized(n, raw).0 == [MessageCompleted(StripReasoningContent(raw.text))]
              && Normalized(n, raw).1 == n.(completed := true, deltas := [])
  {
  }

  /** Tool call deltas and starts, and results of built-in tools; a platform tool reports its own result. */
  function ToolsIn(items: seq<Item>): (n: nat) {
    if items == [] then 0
    else
      var last := items[|items| - 1];
      ToolsIn(items[..|items| - 1]) + last.toolCalls + if last.BuiltinToolResult? then 1 else 0
  }

  function CountTools(events: seq<Event>): (n: nat) {
    if events == [] then 0 else CountTools(events[..|events| - 1]) + if events[|events| - 1] == ToolEvent then 1 else 0
  }

  lemma {:induction false} CountToolsAppend(a: seq<Event>, b: seq<Event>)
    ensures CountTools(a + b) == CountTools(a) + CountTools(b)
  {
    if b == [] {
      assert a + b == a;
    } else {
      CountToolsAppend(a, b[..|b| - 1]);
      assert (a + b)[..|a + b| - 1] == a + b[..|b| - 1];
    }
  }

  lemma {:induction false} CountToolEvents(count: nat)
    ensures CountTools(ToolEvents(count)) == count
  {
    if count > 0 {
      CountToolEvents(count - 1);
      assert ToolEvents(count)[..count - 1] == ToolEvents(count - 1);
    }
  }

  /** The last result a platform tool gave, in the items or before them. */
  function LastPlatformResult(items: seq<Item>, before: Option<string>): (r: Option<string>) {
    if items == [] then before
    else if items[|items| - 1].PlatformToolResult? then Some(items[|items| - 1].result)
    else LastPlatformResult(items[..|items| - 1], before)
  }

  lemma ItemReportsTools(n: Normalizer, item: Item)
    ensures CountTools(TakeItem(n, item).0) == item.toolCalls + if item.BuiltinToolResult? then 1 else 0
    ensures TakeItem(n, item).1.platformResult == if item.PlatformToolResult? then Some(item.result) else n.platformResult
  {
    CountToolEvents(item.toolCalls);
    CountToolsAppend(ToolEvents(item.toolCalls), [ToolEvent]);
    assert CountTools([ToolEvent]) == 1;
    if item.TextItem? && item.text != [] {
      hide VisibleDelta;
      var events := TakeText(n, item.text).0;
      CountToolsAppend(ToolEvents(item.toolCalls), events);
      assert CountTools(events) == 0;
    }
  }

  /** Every tool call and every result of a built-in tool is reported once, and the last platform tool's result is kept. */
  lemma {:induction false} ToolsAreReported(n: Normalizer, items: seq<Item>)
    ensures CountTools(TakeItems(n, items).0) == ToolsIn(items)
    ensures TakeItems(n, items).1.platformResult == LastPlatformResult(items, n.platformResult)
  {
    hide TakeItem;
    if items != [] {
      var init, last := items[..|items| - 1], items[|items| - 1];
      ToolsAreReported(n, init);
      var (before, n1) := TakeItems(n, init);
      ItemReportsTools(n1, last);
      CountToolsAppend(before, TakeItem(n1, last).0);
    }
  }
}
