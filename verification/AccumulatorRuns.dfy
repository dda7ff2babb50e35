/** RawEventAccumulator over whole runs: the records of one identifier become one event. */
module AccumulatorRuns {
  import A = AckQueue
  import opened Cache
  import R = RawEvent
  import opened Accumulator
  import opened RawEventRuns
  import opened Wrappers

  datatype Step = Arrives(r: R.Rec, now: nat) | Flushes(n: nat)

  /** The n oldest events are sent. */
  ghost function SentFirst(s: State, n: nat): State
    requires n <= |s.cached|
  {
    State(s.cached[n..], s.sent + Datas(s.cached[..n]))
  }

  /** Trimming sends exactly the oldest events beyond 256. */
  lemma {:induction false} TrimmedIs(s: State)
    ensures Trimmed(s) == SentFirst(s, if |s.cached| > 256 then |s.cached| - 256 else 0)
    decreases |s.cached|
  {
    if |s.cached| > 256 {
      var t := State(s.cached[1..], s.sent + [s.cached[0].item]);
      TrimmedIs(t);
      var n := |s.cached| - 256;
      assert t.cached[n - 1..] == s.cached[n..];
      assert Datas(s.cached[..n]) == [s.cached[0].item] + Datas(t.cached[..n - 1]);
    } else {
      assert s.cached[0..] == s.cached && s.sent + Datas(s.cached[..0]) == s.sent;
    }
  }

  /** With a positive limit an event is flushed exactly when its last touch is a whole millisecond longer ago. */
  lemma ExpiredIff(touched: nat, milliseconds: int, now: nat)
    ensures milliseconds > 0 ==> (Expired(touched, milliseconds, now) <==> now - touched >= (milliseconds + 1) * 1_000_000)
    ensures milliseconds <= 0 ==> Expired(touched, milliseconds, now)
  {
  }

  /** One call of AddRecord, with a record that does not fault, or of Flush. */
  ghost predicate Goes(s: State, step: Step, t: State) {
    match step
    case Flushes(n) => n <= |s.cached| && t == SentFirst(s, n)
    case Arrives(r, now) =>
      if Ignored(r) then t == s
      else Taken(s, r) && t == Trimmed(Placed(s, r, now))
  }

  ghost predicate Taken(s: State, r: R.Rec) {
    r.size <= R.MAX_RECORD_SIZE && (r.kind != R.EOE ==> !R.Faults(Gathered(s.cached, r.id), r))
  }

  ghost predicate Run(ss: seq<State>, steps: seq<Step>) {
    && |ss| == |steps| + 1 && ss[0] == State([], [])
    && forall i | 0 <= i < |steps| :: Goes(ss[i], steps[i], ss[i + 1])
  }

  // ---------------------------------------------------------------- looking up an event

  ghost function Lookup(s: seq<Cached>, id: A.EventId): Option<R.Data> {
    if s == [] then None
    else if s[|s| - 1].key == id then Some(s[|s| - 1].item)
    else Lookup(s[..|s| - 1], id)
  }

  lemma {:induction false} LookupIs(s: seq<Cached>, id: A.EventId)
    ensures Gathered(s, id) == if Lookup(s, id).Some? then Lookup(s, id).value else R.Fresh(id)
    ensures Lookup(s, id).Some? <==> HasKey(s, id)
  {
    if s != [] {
      var n := |s| - 1;
      LookupIs(s[..n], id);
      if HasKey(s[..n], id) { PrefixKey(s, n, id); }
      if HasKey(s, id) && s[n].key != id {
        var i :| 0 <= i < |s| && s[i].key == id;
        assert s[..n][i].key == id;
      }
    }
  }

  lemma {:induction false} LookupDrop(s: seq<Cached>, k: A.EventId, id: A.EventId)
    ensures Lookup(DropKey(s, k), id) == if id == k then None else Lookup(s, id)
  {
    if s != [] {
      var n := |s| - 1;
      LookupDrop(s[..n], k, id);
      if s[n].key == k {
        assert DropKey(s, k) == DropKey(s[..n], k);
      } else {
        LookupSnoc(DropKey(s[..n], k), s[n], id);
      }
    }
  }

  lemma LookupSnoc(s: seq<Cached>, e: Cached, id: A.EventId)
    ensures Lookup(s + [e], id) == if e.key == id then Some(e.item) else Lookup(s, id)
  {
    assert (s + [e])[..|s|] == s;
  }

  lemma {:induction false} LookupRest(s: seq<Cached>, n: nat, id: A.EventId)
    requires UniqueKeys(s) && n <= |s|
    ensures Lookup(s[n..], id) == if HasKey(s[..n], id) then None else Lookup(s, id)
    decreases |s|
  {
    if n == |s| {
      assert s[..n] == s && s[n..] == [];
      LookupIs(s, id);
    } else {
      var m := |s| - 1;
      LookupRest(s[..m], n, id);
      assert s[n..] == s[..m][n..] + [s[m]] && s[..m][..n] == s[..n];
      LookupSnoc(s[..m][n..], s[m], id);
      if s[m].key == id {
        forall i | 0 <= i < n ensures s[..n][i].key != id { assert s[i].key != s[m].key; }
      }
    }
  }

  // ---------------------------------------------------------------- what stays true

  ghost predicate Sane(e: Cached) {
    e.item.id == e.key && Whole(e.item)
  }

  /** An event with its books in order, which has lost nothing if its records keep to the limits. */
  ghost predicate Whole(d: R.Data) {
    R.Booked(d) && (WithinLimits(d.arrivals) ==> AllKept(d))
  }

  lemma FreshIsWhole(id: A.EventId)
    ensures Whole(R.Fresh(id))
  {
    R.FreshIsBooked(id);
    NothingYet(id);
  }

  lemma WholeSays(d: R.Data)
    requires Whole(d)
    ensures R.Booked(d) && (WithinLimits(d.arrivals) ==> AllKept(d))
  {
    hide R.Booked, WithinLimits, AllKept;
  }

  lemma StoredIsWhole(d: R.Data, r: R.Rec)
    requires Whole(d) && r.size <= R.MAX_RECORD_SIZE && !R.Faults(d, r)
    ensures Whole(R.Stored(d, r)) && R.Stored(d, r).arrivals == d.arrivals + [r]
  {
    hide R.Booked, R.Stored, R.Faults, WithinLimits, AllKept;
    R.StoredKeepsBooks(d, r);
    StoredArrival(d, r);
    var rs := d.arrivals + [r];
    if WithinLimits(rs) {
      LimitsBefore(rs, |d.arrivals|);
      assert rs[..|d.arrivals|] == d.arrivals;
      StepWithin(d, r);
    }
  }

  /** One entry for each identifier, at most 256 of them, each with an event of that identifier. */
  ghost predicate Tidy(s: State) {
    UniqueKeys(s.cached) && |s.cached| <= 256 && forall i | 0 <= i < |s.cached| :: Sane(s.cached[i])
  }

  lemma SentFirstTidy(s: State, n: nat)
    requires UniqueKeys(s.cached) && n <= |s.cached| <= n + 256
    requires forall i | 0 <= i < |s.cached| :: Sane(s.cached[i])
    ensures Tidy(SentFirst(s, n))
  {
    hide Whole;
    forall i | 0 <= i < |s.cached[n..]| ensures Sane(s.cached[n..][i]) { assert Sane(s.cached[n + i]); }
  }

  lemma DropTidy(s: seq<Cached>, k: A.EventId)
    requires UniqueKeys(s) && forall i | 0 <= i < |s| :: Sane(s[i])
    ensures var t := DropKey(s, k);
            UniqueKeys(t) && !HasKey(t, k) && |t| <= |s| && forall i | 0 <= i < |t| :: Sane(t[i])
    ensures HasKey(s, k) ==> |DropKey(s, k)| < |s|
  {
    hide DropKey, Sane;
    if HasKey(s, k) {
      var p :| 0 <= p < |s| && s[p].key == k;
      DropAt(s, p);
      var t := s[..p] + s[p + 1..];
      forall i | 0 <= i < |t| ensures Sane(t[i]) && t[i].key != k {
        assert t[i] == s[if i < p then i else i + 1] && Sane(s[if i < p then i else i + 1]);
      }
    } else {
      DropAbsent(s, k);
    }
  }

  lemma GatheredId(s: seq<Cached>, id: A.EventId)
    requires forall i | 0 <= i < |s| :: Sane(s[i])
    ensures Gathered(s, id).id == id && Whole(Gathered(s, id))
  {
    hide Whole;
    FreshIsWhole(id);
    if s != [] && s[|s| - 1].key == id { assert Sane(s[|s| - 1]); }
  }

  lemma ExtendedId(d: R.Data, r: R.Rec)
    requires Whole(d) && r.size <= R.MAX_RECORD_SIZE && (r.kind != R.EOE ==> !R.Faults(d, r))
    ensures Extended(d, r).id == d.id && Whole(Extended(d, r))
    ensures Extended(d, r).arrivals == if r.kind == R.EOE then d.arrivals else d.arrivals + [r]
  {
    hide R.Victim, R.Without, R.Counted, Whole;
    if r.kind != R.EOE { StoredIsWhole(d, r); }
  }

  /**
   * A record that does not complete its event makes it the newest; the other events keep their order,
   * their times and their records.
   */
  lemma RecordTouches(s: State, r: R.Rec, now: nat) returns (d: R.Data)
    requires Tidy(s) && Taken(s, r) && GoesOn(r.kind)
    ensures d.arrivals == Gathered(s.cached, r.id).arrivals + [r] && Placed(s, r, now).sent == s.sent
    ensures !HasKey(s.cached, r.id) ==> Placed(s, r, now).cached == s.cached + [Entry(r.id, now, d)]
    ensures forall p | 0 <= p < |s.cached| && s.cached[p].key == r.id ::
              Placed(s, r, now).cached == s.cached[..p] + s.cached[p + 1..] + [Entry(r.id, now, d)]
  {
    hide DropKey, Gathered, Extended, Sane, Whole, Completes, HasKey, R.Faults;
    CompletesIff(r);
    GatheredId(s.cached, r.id);
    ExtendedId(Gathered(s.cached, r.id), r);
    d := Extended(Gathered(s.cached, r.id), r);
    if !HasKey(s.cached, r.id) { DropAbsent(s.cached, r.id); }
    forall p | 0 <= p < |s.cached| && s.cached[p].key == r.id
      ensures DropKey(s.cached, r.id) == s.cached[..p] + s.cached[p + 1..]
    {
      DropAt(s.cached, p);
    }
  }

  lemma PlacedTidy(s: State, r: R.Rec, now: nat)
    requires Tidy(s) && Taken(s, r)
    ensures Tidy(Trimmed(Placed(s, r, now)))
  {
    hide Whole, DropKey, Gathered, Extended, Completes, Trimmed;
    var t := Placed(s, r, now);
    DropTidy(s.cached, r.id);
    GatheredId(s.cached, r.id);
    ExtendedId(Gathered(s.cached, r.id), r);
    TrimmedIs(t);
    SentFirstTidy(t, if |t.cached| > 256 then |t.cached| - 256 else 0);
  }

  lemma {:induction false} RunTidy(ss: seq<State>, steps: seq<Step>, i: nat)
    requires Run(ss, steps) && i <= |steps|
    ensures Tidy(ss[i])
    decreases i
  {
    hide Tidy, Placed, Trimmed, SentFirst, R.Faults;
    if i == 0 {
      NothingIsTidy();
    } else {
      RunTidy(ss, steps, i - 1);
      assert Goes(ss[i - 1], steps[i - 1], ss[i]);
      GoesTidy(ss[i - 1], steps[i - 1], ss[i]);
    }
  }

  lemma NothingIsTidy()
    ensures Tidy(State([], []))
  {
  }

  lemma GoesTidy(s: State, step: Step, t: State)
    requires Tidy(s) && Goes(s, step, t)
    ensures Tidy(t)
  {
    hide Placed, Trimmed, R.Faults;
    if step.Flushes? {
      SentFirstTidy(s, step.n);
    } else if !Ignored(step.r) {
      PlacedTidy(s, step.r, step.now);
    }
  }

  // ---------------------------------------------------------------- the records of one event

  /** Is this a record for the event of this identifier? */
  predicate IsFor(step: Step, id: A.EventId) {
    step.Arrives? && step.r.id == id && !step.r.blank && step.r.kind != R.EOE
  }

  /** The records of an identifier that come in steps i to j - 1. */
  ghost function RecordsOf(steps: seq<Step>, id: A.EventId, i: nat, j: nat): seq<R.Rec>
    requires i <= j <= |steps|
  {
    if i == j then []
    else RecordsOf(steps, id, i, j - 1) + if IsFor(steps[j - 1], id) then [steps[j - 1].r] else []
  }

  /** Types from SYSCALL up to the anomaly messages, but for the kernel's own and EOE. */
  predicate GoesOn(kind: int) {
    1300 <= kind < 2100 && kind != 2000 && kind != 1320
  }

  /** An EOE record, or one of a type that comes alone, completes its event; no other record does. */
  lemma CompletesIff(r: R.Rec)
    ensures Completes(r) <==> !GoesOn(r.kind)
  {
  }

  /** The steps in between are no EOE record of the event and none that comes alone. */
  ghost predicate Open(steps: seq<Step>, id: A.EventId, i: nat, j: nat)
    requires i <= j <= |steps|
  {
    forall k | i <= k < j && steps[k].Arrives? && steps[k].r.id == id :: Ignored(steps[k].r) || GoesOn(steps[k].r.kind)
  }

  /** From its first record on the event stays in the cache: it is neither trimmed nor flushed. */
  ghost predicate Stays(ss: seq<State>, steps: seq<Step>, id: A.EventId, i: nat, j: nat)
    requires i <= j <= |steps| && j < |ss|
  {
    forall k | i < k <= j && RecordsOf(steps, id, i, k) != [] :: HasKey(ss[k].cached, id)
  }

  /** What the cache has of the event in step k. */
  ghost predicate Holding(s: State, rs: seq<R.Rec>, id: A.EventId) {
    match Lookup(s.cached, id)
    case None => rs == []
    case Some(d) => rs != [] && d.id == id && d.arrivals == rs
  }

  /** Nothing was sent for the identifier between these states. */
  ghost predicate NothingSentFor(s: State, t: State, id: A.EventId) {
    && |s.sent| <= |t.sent| && t.sent[..|s.sent|] == s.sent
    && forall m | |s.sent| <= m < |t.sent| :: t.sent[m].id != id
  }

  lemma SentFirstHolds(s: State, n: nat, id: A.EventId)
    requires UniqueKeys(s.cached) && n <= |s.cached| && forall i | 0 <= i < |s.cached| :: Sane(s.cached[i])
    requires HasKey(s.cached, id) ==> HasKey(SentFirst(s, n).cached, id)
    ensures Lookup(SentFirst(s, n).cached, id) == Lookup(s.cached, id)
    ensures NothingSentFor(s, SentFirst(s, n), id)
  {
    hide Lookup, Whole;
    LookupRest(s.cached, n, id);
    LookupIs(s.cached, id);
    LookupIs(s.cached[n..], id);
    if HasKey(s.cached[..n], id) { PrefixKey(s.cached, n, id); }
    forall m | 0 <= m < n ensures s.cached[m].item.id != id {
      assert Sane(s.cached[m]) && s.cached[..n][m].key == s.cached[m].key;
    }
  }

  lemma NothingThenNothing(s: State, t: State, u: State, id: A.EventId)
    requires NothingSentFor(s, t, id) && NothingSentFor(t, u, id)
    ensures NothingSentFor(s, u, id)
  {
    assert u.sent[..|t.sent|][..|s.sent|] == u.sent[..|s.sent|];
    forall m | |s.sent| <= m < |u.sent| ensures u.sent[m].id != id {
      if m < |t.sent| { assert u.sent[..|t.sent|][m] == t.sent[m]; }
    }
  }

  /** A record of another event leaves this one alone. */
  lemma OtherRecord(s: State, r: R.Rec, now: nat, id: A.EventId)
    requires Tidy(s) && r.id != id && Taken(s, r)
    ensures Lookup(Placed(s, r, now).cached, id) == Lookup(s.cached, id)
    ensures NothingSentFor(s, Placed(s, r, now), id)
  {
    hide Whole, DropKey, Gathered, Extended, Completes, Lookup;
    LookupDrop(s.cached, r.id, id);
    GatheredId(s.cached, r.id);
    ExtendedId(Gathered(s.cached, r.id), r);
    var d := Extended(Gathered(s.cached, r.id), r);
    LookupSnoc(DropKey(s.cached, r.id), Entry(r.id, now, d), id);
  }

  /** A record of this event that does not complete it joins it. */
  lemma OwnRecord(s: State, r: R.Rec, now: nat, rs: seq<R.Rec>)
    requires Tidy(s) && r.kind != R.EOE && Taken(s, r)
    requires Holding(s, rs, r.id) && GoesOn(r.kind)
    ensures Holding(Placed(s, r, now), rs + [r], r.id) && Placed(s, r, now).sent == s.sent
  {
    hide Whole, DropKey, Gathered, Extended, Lookup;
    LookupIs(s.cached, r.id);
    GatheredId(s.cached, r.id);
    ExtendedId(Gathered(s.cached, r.id), r);
    CompletesIff(r);
    var d := Extended(Gathered(s.cached, r.id), r);
    LookupSnoc(DropKey(s.cached, r.id), Entry(r.id, now, d), r.id);
  }

  lemma StepHolds(s: State, step: Step, t: State, id: A.EventId, rs: seq<R.Rec>)
    requires Tidy(s) && Goes(s, step, t) && Holding(s, rs, id)
    requires step.Arrives? && step.r.id == id ==> Ignored(step.r) || GoesOn(step.r.kind)
    requires var after := rs + if IsFor(step, id) then [step.r] else []; after != [] ==> HasKey(t.cached, id)
    ensures Holding(t, rs + if IsFor(step, id) then [step.r] else [], id) && NothingSentFor(s, t, id)
  {
    hide Whole, DropKey, Gathered, Extended, Lookup, Placed, Trimmed, Completes, SentFirst, R.Faults;
    LookupIs(s.cached, id);
    LookupIs(t.cached, id);
    assert rs + [] == rs;
    match step {
      case Flushes(n) => SentFirstHolds(s, n, id);
      case Arrives(r, now) =>
        if !Ignored(r) {
          var u := Placed(s, r, now);
          if r.id == id { OwnRecord(s, r, now, rs); } else { OtherRecord(s, r, now, id); }
          PlacedOwn(s, r, now);
          LookupIs(u.cached, id);
          TrimmedIs(u);
          SentFirstHolds(u, if |u.cached| > 256 then |u.cached| - 256 else 0, id);
          NothingThenNothing(s, u, t, id);
        }
    }
  }

  lemma PlacedOwn(s: State, r: R.Rec, now: nat)
    requires Tidy(s) && Taken(s, r)
    ensures var u := Placed(s, r, now); UniqueKeys(u.cached) && forall i | 0 <= i < |u.cached| :: Sane(u.cached[i])
  {
    hide Whole, DropKey, Gathered, Extended, Completes;
    DropTidy(s.cached, r.id);
    GatheredId(s.cached, r.id);
    ExtendedId(Gathered(s.cached, r.id), r);
  }

  lemma {:induction false} StillHolding(ss: seq<State>, steps: seq<Step>, id: A.EventId, i: nat, j: nat)
    requires Run(ss, steps) && i <= j <= |steps| && !HasKey(ss[i].cached, id)
    requires Open(steps, id, i, j) && Stays(ss, steps, id, i, j)
    ensures Holding(ss[j], RecordsOf(steps, id, i, j), id) && NothingSentFor(ss[i], ss[j], id)
    decreases j
  {
    hide Tidy, Goes, NothingSentFor, Holding, Open, Stays, RecordsOf, HasKey, IsFor;
    if j == i {
      HoldingNothing(ss[i], steps, id, i);
      NothingMeanwhile(ss[i], id);
    } else {
      OneStepLess(ss, steps, id, i, j);
      StillHolding(ss, steps, id, i, j - 1);
      RunTidy(ss, steps, j - 1);
      assert Goes(ss[j - 1], steps[j - 1], ss[j]);
      StepHolds(ss[j - 1], steps[j - 1], ss[j], id, RecordsOf(steps, id, i, j - 1));
      NothingThenNothing(ss[i], ss[j - 1], ss[j], id);
    }
  }

  lemma HoldingNothing(s: State, steps: seq<Step>, id: A.EventId, i: nat)
    requires i <= |steps| && !HasKey(s.cached, id)
    ensures Holding(s, RecordsOf(steps, id, i, i), id)
  {
    LookupIs(s.cached, id);
  }

  lemma OneStepLess(ss: seq<State>, steps: seq<Step>, id: A.EventId, i: nat, j: nat)
    requires i < j <= |steps| && j < |ss| && Open(steps, id, i, j) && Stays(ss, steps, id, i, j)
    ensures Open(steps, id, i, j - 1) && Stays(ss, steps, id, i, j - 1)
    ensures var step := steps[j - 1];
            var rs := RecordsOf(steps, id, i, j - 1) + if IsFor(step, id) then [step.r] else [];
            && rs == RecordsOf(steps, id, i, j) && (rs != [] ==> HasKey(ss[j].cached, id))
            && (step.Arrives? && step.r.id == id ==> Ignored(step.r) || GoesOn(step.r.kind))
  {
    hide HasKey, Ignored, GoesOn, IsFor;
  }

  lemma NothingMeanwhile(s: State, id: A.EventId)
    ensures NothingSentFor(s, s, id)
  {
  }

  /**
   * The records of one identifier that come before its EOE record, and none of which comes alone,
   * are sent in one event, all of them and in their order, when the EOE record comes, and not
   * before: unless the event is trimmed or flushed in between. None of them is lost if together
   * they keep to the limits.
   */
  lemma OneEvent(ss: seq<State>, steps: seq<Step>, id: A.EventId, i: nat, j: nat) returns (d: R.Data)
    requires Run(ss, steps) && i <= j < |steps| && !HasKey(ss[i].cached, id)
    requires Open(steps, id, i, j) && Stays(ss, steps, id, i, j)
    requires steps[j].Arrives? && steps[j].r.id == id && steps[j].r.kind == 1320
    ensures NothingSentFor(ss[i], ss[j], id) && ss[j + 1].sent == ss[j].sent + [d]
    ensures d.id == id && d.arrivals == RecordsOf(steps, id, i, j) && R.Booked(d)
    ensures WithinLimits(RecordsOf(steps, id, i, j)) ==> AllKept(d)
    ensures !HasKey(ss[j + 1].cached, id)
  {
    hide Whole, WithinLimits, AllKept, R.Booked, Open, Stays, HasKey, Lookup, NothingSentFor, DropKey, Gathered, Trimmed,
         RecordsOf, R.Faults, Sane;
    StillHolding(ss, steps, id, i, j);
    RunTidy(ss, steps, j);
    assert Goes(ss[j], steps[j], ss[j + 1]);
    var s, r := ss[j], steps[j].r;
    d := Gathered(s.cached, id);
    LookupIs(s.cached, id);
    GatheredId(s.cached, id);
    WholeSays(d);
    DropTidy(s.cached, id);
    var t := Placed(s, r, steps[j].now);
    TrimmedIs(t);
    assert t.cached[0..] == t.cached && t.sent + Datas(t.cached[..0]) == t.sent;
  }

  /** A record of a type that comes alone is sent at once, with whatever its identifier has in the cache. */
  lemma SentAlone(ss: seq<State>, steps: seq<Step>, j: nat) returns (d: R.Data)
    requires Run(ss, steps) && j < |steps| && steps[j].Arrives? && !Ignored(steps[j].r)
    requires steps[j].r.kind != 1320 && !GoesOn(steps[j].r.kind)
    ensures ss[j + 1].sent == ss[j].sent + [d] && !HasKey(ss[j + 1].cached, steps[j].r.id)
    ensures d.id == steps[j].r.id && d.arrivals == Gathered(ss[j].cached, d.id).arrivals + [steps[j].r]
    ensures !HasKey(ss[j].cached, d.id) ==> d.arrivals == [steps[j].r]
  {
    hide Whole, Lookup, DropKey, Gathered, Trimmed, Extended, R.Faults;
    RunTidy(ss, steps, j);
    assert Goes(ss[j], steps[j], ss[j + 1]);
    var s, r := ss[j], steps[j].r;
    CompletesIff(r);
    d := Extended(Gathered(s.cached, r.id), r);
    GatheredId(s.cached, r.id);
    ExtendedId(Gathered(s.cached, r.id), r);
    LookupIs(s.cached, r.id);
    DropTidy(s.cached, r.id);
    var t := Placed(s, r, steps[j].now);
    TrimmedIs(t);
    assert t.cached[0..] == t.cached && t.sent + Datas(t.cached[..0]) == t.sent;
  }
}
