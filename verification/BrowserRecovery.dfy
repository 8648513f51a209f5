/**
 The bounded table of browser failures: a dictionary in insertion order from failure
 fingerprints to the number of times each was seen, trimmed oldest first.
 */
module BrowserRecovery {
  import opened Options

  type Fingerprint = string

  datatype Failure = Failure(fingerprint: Fingerprint, attempts: nat)

  const MAX_TRACKED_BROWSER_FAILURES: nat := 32
  const BROWSER_RECOVERY_ATTEMPTS_PER_FINGERPRINT: nat := 2

  /** The position of a fingerprint, or the length. */
  function Position(t: seq<Failure>, f: Fingerprint): (i: nat)
    ensures i <= |t|
    ensures i < |t| ==> t[i].fingerprint == f
    ensures forall j :: 0 <= j < i ==> t[j].fingerprint != f
  {
    if t == [] || t[0].fingerprint == f then 0 else 1 + Position(t[1..], f)
  }

  predicate Has(t: seq<Failure>, f: Fingerprint) {
    Position(t, f) < |t|
  }

  /** `attempts.get(f, 0)` */
  function Stored(t: seq<Failure>, f: Fingerprint): (n: nat) {
    if Has(t, f) then t[Position(t, f)].attempts else 0
  }

  /** Assignment keeps the place of a known fingerprint and puts a new one last. */
  function Put(t: seq<Failure>, f: Fingerprint, n: nat): (t': seq<Failure>) {
    if Has(t, f) then t[Position(t, f) := Failure(f, n)] else t + [Failure(f, n)]
  }

  function Trim(t: seq<Failure>): (t': seq<Failure>) {
    if |t| > MAX_TRACKED_BROWSER_FAILURES then Trim(t[1..]) else t
  }

  function RegisterOn(t: seq<Failure>, f: Fingerprint): (t': seq<Failure>) {
    Trim(Put(t, f, Stored(t, f) + 1))
  }

  class PlatformAdapters {
    var browserFailureAttempts: seq<Failure>

    constructor ()
      ensures browserFailureAttempts == []
    {
      browserFailureAttempts := [];
    }

    /** `Some` is a recovery with its attempt number; `None` stands for the error that recovery is exhausted. */
    method RegisterBrowserRecovery(f: Fingerprint) returns (recovery: Option<nat>)
      modifies this
      ensures browserFailureAttempts == RegisterOn(old(browserFailureAttempts), f)
      ensures var attempt := Stored(old(browserFailureAttempts), f) + 1;
              recovery == if attempt <= BROWSER_RECOVERY_ATTEMPTS_PER_FINGERPRINT then Some(attempt) else None
    {
      var attempt := Stored(browserFailureAttempts, f) + 1;
      browserFailureAttempts := Put(browserFailureAttempts, f, attempt);
      while |browserFailureAttempts| > MAX_TRACKED_BROWSER_FAILURES
        invariant Trim(browserFailureAttempts) == RegisterOn(old(browserFailureAttempts), f)
      {
        browserFailureAttempts := browserFailureAttempts[1..];
      }
      if attempt > BROWSER_RECOVERY_ATTEMPTS_PER_FINGERPRINT {
        return None;
      }
      return Some(attempt);
    }

    /** An action that may have changed the page ends all recovery episodes. */
    method ClearBrowserFailures()
      modifies this
      ensures browserFailureAttempts == []
    {
      browserFailureAttempts := [];
    }
  }

  // ----- histories -----

  datatype Event = Register(fingerprint: Fingerprint) | Clear

  function Table(events: seq<Event>): (t: seq<Failure>) {
    if events == [] then []
    else
      match events[|events| - 1]
      case Clear => []
      case Register(f) => RegisterOn(Table(events[..|events| - 1]), f)
  }

  predicate Distinct(t: seq<Failure>) {
    forall i, j :: 0 <= i < j < |t| ==> t[i].fingerprint != t[j].fingerprint
  }

  /** The entry is updated in place, or put last, and the oldest goes when there were thirty-two. */
  function Registered(t: seq<Failure>, f: Fingerprint): (t': seq<Failure>) {
    var e := Failure(f, Stored(t, f) + 1);
    if Has(t, f) then t[Position(t, f) := e]
    else if |t| == MAX_TRACKED_BROWSER_FAILURES then t[1..] + [e]
    else t + [e]
  }

  lemma TrimIsShort(t: seq<Failure>)
    ensures |t| <= MAX_TRACKED_BROWSER_FAILURES ==> Trim(t) == t
    ensures |t| == MAX_TRACKED_BROWSER_FAILURES + 1 ==> Trim(t) == t[1..]
  {
    assert |t| == MAX_TRACKED_BROWSER_FAILURES + 1 ==> Trim(t) == Trim(t[1..]) == t[1..];
  }

  lemma RegisterShape(t: seq<Failure>, f: Fingerprint)
    requires |t| <= MAX_TRACKED_BROWSER_FAILURES
    ensures RegisterOn(t, f) == Registered(t, f) && |Registered(t, f)| <= MAX_TRACKED_BROWSER_FAILURES
  {
    TrimIsShort(Put(t, f, Stored(t, f) + 1));
    hide Trim;
    assert t != [] ==> forall e :: (t + [e])[1..] == t[1..] + [e];
  }

  lemma RegisteredKeepsDistinct(t: seq<Failure>, f: Fingerprint)
    requires Distinct(t)
    ensures Distinct(Registered(t, f))
  {
  }

  /** Over every history the table holds at most thirty-two fingerprints, each once. */
  lemma {:induction false} TableIsBounded(events: seq<Event>)
    ensures Distinct(Table(events)) && |Table(events)| <= 32
  {
    if events != [] && events[|events| - 1].Register? {
      var init := events[..|events| - 1];
      TableIsBounded(init);
      RegisterShape(Table(init), events[|events| - 1].fingerprint);
      RegisteredKeepsDistinct(Table(init), events[|events| - 1].fingerprint);
    }
  }

  lemma PositionIs(t: seq<Failure>, f: Fingerprint, i: nat)
    requires Distinct(t) && i < |t| && t[i].fingerprint == f
    ensures Position(t, f) == i
  {
  }

  /** What a registration does to any fingerprint. */
  lemma StoredAfter(t: seq<Failure>, f: Fingerprint, g: Fingerprint)
    requires Distinct(t) && |t| <= MAX_TRACKED_BROWSER_FAILURES
    ensures var t' := RegisterOn(t, f);
            && (g == f ==> Has(t', g) && Stored(t', g) == Stored(t, g) + 1)
            && (g != f && Has(t', g) ==> Has(t, g) && Stored(t', g) == Stored(t, g))
  {
    RegisterShape(t, f);
    RegisteredKeepsDistinct(t, f);
    var t' := RegisterOn(t, f);
    hide RegisterOn;
    if g == f {
      PositionIs(t', f, if Has(t, f) then Position(t, f) else |t'| - 1);
    } else if Has(t', g) {
      var i := Position(t', g);
      if Has(t, f) {
        PositionIs(t, g, i);
      } else if |t| == MAX_TRACKED_BROWSER_FAILURES {
        PositionIs(t, g, i + 1);
      } else {
        PositionIs(t, g, i);
      }
    }
  }

  /** Registrations of a fingerprint since the table last was cleared or lost it. */
  function Registrations(events: seq<Event>, g: Fingerprint): (n: nat) {
    if events == [] then 0
    else
      var init := events[..|events| - 1];
      match events[|events| - 1]
      case Clear => 0
      case Register(f) =>
        if f == g then Registrations(init, g) + 1 else if Has(Table(events), g) then Registrations(init, g) else 0
  }

  /** Recoveries returned for a fingerprint since then. */
  function Recoveries(events: seq<Event>, g: Fingerprint): (n: nat) {
    if events == [] then 0
    else
      var init := events[..|events| - 1];
      match events[|events| - 1]
      case Clear => 0
      case Register(f) =>
        if f == g then
          Recoveries(init, g) + if Stored(Table(init), g) + 1 <= BROWSER_RECOVERY_ATTEMPTS_PER_FINGERPRINT then 1 else 0
        else if Has(Table(events), g) then Recoveries(init, g) else 0
  }

  /**
   Over every history: the stored count is the number of registrations since the last clear or eviction of the
   fingerprint, and in that span recovery was returned for the first two of them and never again.
   */
  lemma {:induction false} CountsAndRecoveries(events: seq<Event>, g: Fingerprint)
    ensures Stored(Table(events), g) == Registrations(events, g)
    ensures Recoveries(events, g) == if Registrations(events, g) < 2 then Registrations(events, g) else 2
  {
    if events != [] && events[|events| - 1].Register? {
      var init := events[..|events| - 1];
      CountsAndRecoveries(init, g);
      TableIsBounded(init);
      hide RegisterOn, Stored, Has;
      StoredAfter(Table(init), events[|events| - 1].fingerprint, g);
      NoneStored(Table(events), g);
      NoneStored(Table(init), g);
    }
  }

  lemma NoneStored(t: seq<Failure>, g: Fingerprint)
    ensures !Has(t, g) ==> Stored(t, g) == 0
  {
  }

  // ----- evictions -----

  /** The event at `k` puts a fingerprint into the table that was not there. */
  predicate Inserts(events: seq<Event>, k: nat, f: Fingerprint)
    requires k < |events|
  {
    events[k] == Register(f) && !Has(Table(events[..k]), f)
  }

  /** Some event after `i` and before `j` inserts the fingerprint. */
  predicate InsertedBetween(events: seq<Event>, i: nat, j: nat, f: Fingerprint)
    requires j <= |events|
  {
    exists k :: i < k < j && Inserts(events, k, f)
  }

  predicate HasAfter(events: seq<Event>, k: nat, g: Fingerprint)
    requires k <= |events|
  {
    Has(Table(events[..k]), g)
  }

  /** The fingerprint is in the table after each of the events from `i` up to, not including, `j`. */
  predicate Stays(events: seq<Event>, i: nat, j: nat, g: Fingerprint)
    requires i <= j <= |events|
  {
    forall k :: i < k <= j ==> HasAfter(events, k, g)
  }

  /** Registering puts a fingerprint that is not there behind all others. */
  lemma InsertedLast(t: seq<Failure>, g: Fingerprint)
    requires Distinct(t) && !Has(t, g)
    ensures var t' := Registered(t, g); Position(t', g) == |t'| - 1
  {
    RegisteredKeepsDistinct(t, g);
    var t' := Registered(t, g);
    PositionIs(t', g, |t'| - 1);
  }

  /** Registering one fingerprint leaves the order of the others. */
  lemma OrderStays(t: seq<Failure>, f: Fingerprint, g: Fingerprint, m: nat)
    requires Distinct(t) && Has(t, g)
    requires var t' := Registered(t, f); Has(t', g) && Position(t', g) < m < |t'|
    ensures var h := Registered(t, f)[m].fingerprint;
            (h == f && !Has(t, f)) || exists n :: Position(t, g) < n < |t| && t[n].fingerprint == h
  {
    RegisteredKeepsDistinct(t, f);
    var t' := Registered(t, f);
    var p := Position(t', g);
    if Has(t, f) || |t| != MAX_TRACKED_BROWSER_FAILURES {
      assert p < |t| && t[p].fingerprint == g;
      PositionIs(t, g, p);
      assert m < |t| ==> t[m].fingerprint == t'[m].fingerprint;
    } else {
      assert p < |t| - 1 && t[p + 1].fingerprint == g;
      PositionIs(t, g, p + 1);
      assert m < |t| - 1 ==> t[m + 1].fingerprint == t'[m].fingerprint;
    }
  }

  lemma LastStep(events: seq<Event>, j: nat, g: Fingerprint)
    requires 0 < j <= |events| && HasAfter(events, j, g)
    ensures Distinct(Table(events[..j - 1])) && events[j - 1].Register?
    ensures Table(events[..j]) == Registered(Table(events[..j - 1]), events[j - 1].fingerprint)
  {
    assert events[..j][..j - 1] == events[..j - 1] && events[..j][j - 1] == events[j - 1];
    TableIsBounded(events[..j - 1]);
    if events[j - 1].Register? {
      RegisterShape(Table(events[..j - 1]), events[j - 1].fingerprint);
    }
  }

  lemma InsertedLater(events: seq<Event>, i: nat, k: nat, j: nat, f: Fingerprint)
    requires i < k < j <= |events|
    requires InsertedBetween(events, i, k, f) || (events[k] == Register(f) && !Has(Table(events[..k]), f))
    ensures InsertedBetween(events, i, j, f)
  {
    assert (events[k] == Register(f) && !Has(Table(events[..k]), f)) <==> Inserts(events, k, f);
  }

  predicate Behind(t: seq<Failure>, g: Fingerprint, h: Fingerprint) {
    exists n :: Position(t, g) < n < |t| && t[n].fingerprint == h
  }

  lemma NothingBehindNew(events: seq<Event>, i: nat, g: Fingerprint, h: Fingerprint)
    requires i < |events| && Inserts(events, i, g) && HasAfter(events, i + 1, g)
    ensures !Behind(Table(events[..i + 1]), g, h)
  {
    LastStep(events, i + 1, g);
    InsertedLast(Table(events[..i]), g);
  }

  lemma BehindBefore(events: seq<Event>, j: nat, g: Fingerprint, h: Fingerprint)
    requires 0 < j <= |events| && HasAfter(events, j, g) && HasAfter(events, j - 1, g) && Behind(Table(events[..j]), g, h)
    ensures (events[j - 1] == Register(h) && !Has(Table(events[..j - 1]), h)) || Behind(Table(events[..j - 1]), g, h)
  {
    LastStep(events, j, g);
    var t, t', f := Table(events[..j - 1]), Table(events[..j]), events[j - 1].fingerprint;
    hide Table, Registered, Distinct, Position;
    var m :| Position(t', g) < m < |t'| && t'[m].fingerprint == h;
    OrderStays(t, f, g, m);
  }

  /** Whatever stands behind a fingerprint in the table was inserted after it. */
  lemma {:induction false} LaterEntries(events: seq<Event>, i: nat, j: nat, g: Fingerprint, h: Fingerprint)
    requires i < j <= |events| && Inserts(events, i, g) && Stays(events, i, j, g)
    requires Behind(Table(events[..j]), g, h)
    ensures InsertedBetween(events, i, j, h)
    decreases j
  {
    hide Table, Behind, InsertedBetween, Inserts, HasAfter;
    assert HasAfter(events, j, g);
    if j - 1 == i {
      NothingBehindNew(events, i, g, h);
    } else {
      assert HasAfter(events, j - 1, g);
      BehindBefore(events, j, g, h);
      if Behind(Table(events[..j - 1]), g, h) {
        LaterEntries(events, i, j - 1, g, h);
      }
      InsertedLater(events, i, j - 1, j, h);
    }
  }

  function FingerprintsOf(t: seq<Failure>): (s: set<Fingerprint>) {
    set i | 0 <= i < |t| :: t[i].fingerprint
  }

  lemma {:induction false} DistinctCount(t: seq<Failure>)
    requires Distinct(t)
    ensures |FingerprintsOf(t)| == |t|
  {
    if t != [] {
      FingerprintsCons(t);
      DistinctCount(t[1..]);
      assert t[0].fingerprint !in FingerprintsOf(t[1..]);
    }
  }

  lemma FingerprintsCons(t: seq<Failure>)
    requires t != []
    ensures FingerprintsOf(t) == FingerprintsOf(t[1..]) + {t[0].fingerprint}
  {
    forall f | f in FingerprintsOf(t) ensures f in FingerprintsOf(t[1..]) + {t[0].fingerprint} {
      var i :| 0 <= i < |t| && t[i].fingerprint == f;
      assert i > 0 ==> t[1..][i - 1].fingerprint == f;
    }
    forall f | f in FingerprintsOf(t[1..]) ensures f in FingerprintsOf(t) {
      var i :| 0 <= i < |t| - 1 && t[1..][i].fingerprint == f;
      assert t[i + 1].fingerprint == f;
    }
  }

  /** Only a full table loses an entry to another fingerprint, and it loses its first one. */
  lemma EvictedWasHead(t: seq<Failure>, f: Fingerprint, g: Fingerprint)
    requires Distinct(t) && Has(t, g)
    ensures var t' := Registered(t, f);
            Has(t', g) || (!Has(t, f) && |t| == MAX_TRACKED_BROWSER_FAILURES && Position(t, g) == 0 && t[0].fingerprint == g && f != g)
  {
    var t', p := Registered(t, f), Position(t, g);
    if Has(t, f) || |t| != MAX_TRACKED_BROWSER_FAILURES {
      assert t'[p].fingerprint == g;
    } else if p > 0 {
      assert t'[p - 1].fingerprint == g;
    }
  }

  /** The fingerprints behind the first one of a full table, and the new one. */
  lemma OthersCount(t: seq<Failure>, f: Fingerprint)
    requires Distinct(t) && |t| == MAX_TRACKED_BROWSER_FAILURES && !Has(t, f)
    ensures var others := FingerprintsOf(t[1..]) + {f};
            |others| == MAX_TRACKED_BROWSER_FAILURES && (t[0].fingerprint != f ==> t[0].fingerprint !in others)
  {
    var tail := t[1..];
    DistinctCount(tail);
    assert f !in FingerprintsOf(tail);
  }

  lemma OthersAreLater(events: seq<Event>, i: nat, j: nat, g: Fingerprint)
    requires i < j < |events| && Inserts(events, i, g) && Stays(events, i, j, g)
    requires events[j].Register? && !Has(Table(events[..j]), events[j].fingerprint)
    requires var t := Table(events[..j]); t != [] && Position(t, g) == 0
    ensures forall h :: h in FingerprintsOf(Table(events[..j])[1..]) + {events[j].fingerprint} ==> InsertedBetween(events, i, j + 1, h)
  {
    var t, f := Table(events[..j]), events[j].fingerprint;
    hide Table, Position, Stays;
    assert Inserts(events, j, f);
    forall h | h in FingerprintsOf(t[1..]) + {f} ensures InsertedBetween(events, i, j + 1, h) {
      if h != f {
        var m :| 0 <= m < |t| - 1 && t[1..][m].fingerprint == h;
        assert t[m + 1].fingerprint == h && Behind(t, g, h);
        LaterEntries(events, i, j, g, h);
        InsertedLater(events, i, j, j + 1, h);
      }
    }
  }

  /** What a registration that drops a fingerprint finds in the table. */
  lemma EvictionStep(events: seq<Event>, j: nat, g: Fingerprint)
    requires j < |events| && HasAfter(events, j, g) && events[j].Register? && !HasAfter(events, j + 1, g)
    ensures var t, f := Table(events[..j]), events[j].fingerprint;
            Distinct(t) && !Has(t, f) && |t| == MAX_TRACKED_BROWSER_FAILURES && Position(t, g) == 0 && t[0].fingerprint == g && f != g
  {
    hide Registered, Distinct, Position, RegisterOn, Has;
    var t, f := Table(events[..j]), events[j].fingerprint;
    assert events[..j + 1][..j] == events[..j];
    TableIsBounded(events[..j]);
    RegisterShape(t, f);
    EvictedWasHead(t, f, g);
  }

  /** A fingerprint is evicted only after thirty-two others were inserted after it. */
  lemma EvictionNeedsThirtyTwoOthers(events: seq<Event>, i: nat, j: nat, g: Fingerprint) returns (others: set<Fingerprint>)
    requires i < j < |events| && Inserts(events, i, g) && Stays(events, i, j, g)
    requires events[j].Register? && !HasAfter(events, j + 1, g)
    ensures |others| == 32 && g !in others
    ensures forall f :: f in others ==> InsertedBetween(events, i, j + 1, f)
  {
    hide Distinct, Position, InsertedBetween, Inserts, FingerprintsOf, Table, Has, HasAfter;
    var t, f := Table(events[..j]), events[j].fingerprint;
    EvictionStep(events, j, g);
    OthersCount(t, f);
    OthersAreLater(events, i, j, g);
    others := FingerprintsOf(t[1..]) + {f};
  }
}
