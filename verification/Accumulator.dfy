/** RawEventAccumulator: records grouped into events by event identifier, in a bounded recency cache. */
module Accumulator {
  import A = AckQueue
  import opened Cache
  import R = RawEvent
  import opened Wrappers

  const MAX_CACHE_ENTRY := 256
  const NANOS := 1_000_000   // steady_clock ticks in a millisecond

  type Cached = Entry<A.EventId, R.Data>

  // ---------------------------------------------------------------- the books

  /** What the event of this identifier has gathered so far. */
  ghost function Gathered(s: seq<Cached>, id: A.EventId): R.Data {
    if s == [] then R.Fresh(id)
    else if s[|s| - 1].key == id then s[|s| - 1].item
    else Gathered(s[..|s| - 1], id)
  }

  /** All records that came to these events. */
  ghost function Arrived(ds: seq<R.Data>): multiset<R.Rec> {
    if ds == [] then multiset{} else Arrived(ds[..|ds| - 1]) + multiset(ds[|ds| - 1].arrivals)
  }

  ghost function Datas(s: seq<Cached>): (ds: seq<R.Data>)
    ensures |ds| == |s| && forall i | 0 <= i < |s| :: ds[i] == s[i].item
  {
    seq(|s|, i requires 0 <= i < |s| => s[i].item)
  }

  ghost predicate AllBooked(ds: seq<R.Data>) {
    forall i | 0 <= i < |ds| :: R.Booked(ds[i])
  }

  /** The events a builder without faults commits for these. */
  ghost function Committed(ds: seq<R.Data>): seq<R.Emitted>
    requires AllBooked(ds)
  {
    if ds == [] then []
    else
      assert R.Booked(ds[|ds| - 1]);
      Committed(ds[..|ds| - 1]) + match R.Built(ds[|ds| - 1]) case Some(e) => [e] case None => []
  }

  /** Every accepted record came to exactly one event, sent or cached. */
  ghost predicate Books(cached: seq<Cached>, sent: seq<R.Data>, accepted: seq<R.Rec>) {
    && AllBooked(Datas(cached)) && AllBooked(sent)
    && Arrived(sent) + Arrived(Datas(cached)) == multiset(accepted)
  }

  lemma ArrivedSnoc(ds: seq<R.Data>, d: R.Data)
    ensures Arrived(ds + [d]) == Arrived(ds) + multiset(d.arrivals)
  {
    assert (ds + [d])[..|ds|] == ds;
  }

  lemma {:induction false} ArrivedOut(ds: seq<R.Data>, p: nat)
    requires p < |ds|
    ensures Arrived(ds[..p] + ds[p + 1..]) + multiset(ds[p].arrivals) == Arrived(ds)
    decreases |ds|
  {
    hide Arrived;
    var n := |ds| - 1;
    var before, last := ds[..n], ds[n];
    assert ds == before + [last];
    ArrivedSnoc(before, last);
    if p == n {
      assert ds[..p] + ds[p + 1..] == before;
    } else {
      ArrivedOut(before, p);
      var rest := before[..p] + before[p + 1..];
      assert before[p] == ds[p];
      assert ds[..p] + ds[p + 1..] == rest + [last];
      ArrivedSnoc(rest, last);
      Swap(Arrived(rest), multiset(ds[p].arrivals), multiset(last.arrivals));
    }
  }

  lemma Swap(a: multiset<R.Rec>, b: multiset<R.Rec>, c: multiset<R.Rec>)
    ensures (a + b) + c == (a + c) + b
  {
  }

  lemma {:induction false} GatheredAt(s: seq<Cached>, p: nat)
    requires UniqueKeys(s) && p < |s|
    ensures Gathered(s, s[p].key) == s[p].item
    decreases |s|
  {
    var n := |s| - 1;
    if p < n {
      assert s[p].key != s[n].key;
      assert s[..n][p] == s[p];
      GatheredAt(s[..n], p);
    }
  }

  lemma {:induction false} GatheredNone(s: seq<Cached>, id: A.EventId)
    requires !HasKey(s, id)
    ensures Gathered(s, id) == R.Fresh(id)
  {
    if s != [] {
      var n: nat := |s| - 1;
      assert s[n].key != id;
      forall i | 0 <= i < n ensures s[..n][i].key != id { assert s[..n][i] == s[i]; }
      GatheredNone(s[..n], id);
    }
  }

  /** The event taken out of the cache carries its records along. */
  lemma DropKeepsBooks(s: seq<Cached>, id: A.EventId)
    requires UniqueKeys(s) && AllBooked(Datas(s))
    ensures AllBooked(Datas(DropKey(s, id))) && R.Booked(Gathered(s, id))
    ensures Arrived(Datas(DropKey(s, id))) + multiset(Gathered(s, id).arrivals) == Arrived(Datas(s))
  {
    hide R.Booked, Gathered, DropKey, Arrived;
    if HasKey(s, id) {
      var p :| 0 <= p < |s| && s[p].key == id;
      DropAt(s, p);
      GatheredAt(s, p);
      ArrivedOut(Datas(s), p);
      var t := s[..p] + s[p + 1..];
      assert Datas(t) == Datas(s)[..p] + Datas(s)[p + 1..];
      assert Datas(s)[p] == s[p].item;
      forall i | 0 <= i < |t| ensures R.Booked(Datas(t)[i]) {
        assert R.Booked(Datas(s)[if i < p then i else i + 1]);
      }
    } else {
      DropAbsent(s, id);
      GatheredNone(s, id);
      R.FreshIsBooked(id);
    }
  }

  // ---------------------------------------------------------------- AddRecord as a function

  datatype State = State(cached: seq<Cached>, sent: seq<R.Data>)

  predicate Ignored(r: R.Rec) {
    r.blank && r.kind != R.EOE
  }

  predicate Completes(r: R.Rec) {
    r.kind == R.EOE || R.IsSingleRecordEvent(r.kind)
  }

  /** The event after a record: an EOE record leaves it as it is. */
  ghost function Extended(d: R.Data, r: R.Rec): R.Data
    requires r.kind != R.EOE ==> !R.Faults(d, r)
  {
    if r.kind == R.EOE then d else R.Stored(d, r)
  }

  /** The record goes to its event, which is then sent, or is the newest in the cache. */
  ghost function Placed(s: State, r: R.Rec, now: nat): State
    requires r.kind != R.EOE ==> !R.Faults(Gathered(s.cached, r.id), r)
  {
    var d := Extended(Gathered(s.cached, r.id), r);
    if Completes(r) then State(DropKey(s.cached, r.id), s.sent + [d])
    else State(DropKey(s.cached, r.id) + [Entry(r.id, now, d)], s.sent)
  }

  /** The oldest events are sent while there are too many. */
  ghost function Trimmed(s: State): (t: State)
    ensures |t.cached| <= MAX_CACHE_ENTRY
    decreases |s.cached|
  {
    if |s.cached| > MAX_CACHE_ENTRY then Trimmed(State(s.cached[1..], s.sent + [s.cached[0].item])) else s
  }

  ghost function AcceptedBy(r: R.Rec): seq<R.Rec> {
    if Ignored(r) || r.kind == R.EOE then [] else [r]
  }

  lemma PlacedKeepsBooks(s: State, accepted: seq<R.Rec>, r: R.Rec, now: nat)
    requires UniqueKeys(s.cached) && Books(s.cached, s.sent, accepted) && !Ignored(r) && r.size <= R.MAX_RECORD_SIZE
    requires r.kind != R.EOE ==> !R.Faults(Gathered(s.cached, r.id), r)
    ensures var t := Placed(s, r, now); Books(t.cached, t.sent, accepted + AcceptedBy(r))
  {
    hide R.Booked, Gathered, DropKey, Arrived, R.Stored, R.Faults;
    DropKeepsBooks(s.cached, r.id);
    var was := Gathered(s.cached, r.id);
    var d := Extended(was, r);
    var rest := DropKey(s.cached, r.id);
    if r.kind != R.EOE {
      R.StoredKeepsBooks(was, r);
      StoredArrives(was, r);
    }
    assert multiset(d.arrivals) == multiset(was.arrivals) + multiset(AcceptedBy(r));
    assert multiset(accepted + AcceptedBy(r)) == multiset(accepted) + multiset(AcceptedBy(r));
    ArrivedSnoc(s.sent, d);
    ArrivedSnoc(Datas(rest), d);
    assert Datas(rest + [Entry(r.id, now, d)]) == Datas(rest) + [d];
  }

  lemma StoredArrives(d: R.Data, r: R.Rec)
    requires !R.Faults(d, r)
    ensures R.Stored(d, r).arrivals == d.arrivals + [r]
  {
  }

  /** Sending the oldest event only moves it. */
  lemma OldestSent(cached: seq<Cached>, sent: seq<R.Data>, accepted: seq<R.Rec>)
    requires Books(cached, sent, accepted) && cached != []
    ensures Books(cached[1..], sent + [cached[0].item], accepted)
  {
    hide R.Booked, Arrived;
    var ds := Datas(cached);
    ArrivedOut(ds, 0);
    assert ds[..0] + ds[1..] == Datas(cached[1..]);
    ArrivedSnoc(sent, cached[0].item);
    forall i | 0 <= i < |cached| - 1 ensures R.Booked(Datas(cached[1..])[i]) { assert R.Booked(ds[i + 1]); }
    assert R.Booked(ds[0]);
  }

  lemma CommittedSnoc(ds: seq<R.Data>, d: R.Data)
    requires AllBooked(ds) && R.Booked(d)
    ensures AllBooked(ds + [d])
    ensures Committed(ds + [d]) == Committed(ds) + match R.Built(d) case Some(e) => [e] case None => []
  {
    hide R.Booked;
    assert (ds + [d])[..|ds|] == ds;
  }

  // ---------------------------------------------------------------- conservation

  /** The raw records in the committed events, the kept ones of cached events, the count of the lost ones. */
  ghost function SentRecords(es: seq<R.Emitted>): multiset<R.Rec> {
    if es == [] then multiset{} else SentRecords(es[..|es| - 1]) + R.Sent(es[|es| - 1].outs)
  }

  ghost function KeptRecords(ds: seq<R.Data>): multiset<R.Rec> {
    if ds == [] then multiset{} else KeptRecords(ds[..|ds| - 1]) + R.Kept(ds[|ds| - 1])
  }

  ghost function DroppedCount(ds: seq<R.Data>): nat {
    if ds == [] then 0 else DroppedCount(ds[..|ds| - 1]) + ds[|ds| - 1].dropped
  }

  lemma {:induction false} KeptAndLost(ds: seq<R.Data>)
    requires AllBooked(ds)
    ensures KeptRecords(ds) <= Arrived(ds) && |Arrived(ds) - KeptRecords(ds)| == DroppedCount(ds)
  {
    hide R.Booked, R.Kept, Arrived, KeptRecords, DroppedCount;
    Latest(ds);
    if ds != [] {
      var n := |ds| - 1;
      assert R.Booked(ds[n]);
      KeptAndLost(ds[..n]);
      KeptOfOne(ds[n]);
      BothLost(Arrived(ds[..n]), KeptRecords(ds[..n]), multiset(ds[n].arrivals), R.Kept(ds[n]));
    }
  }

  lemma Latest(ds: seq<R.Data>)
    ensures ds == [] ==> Arrived(ds) == KeptRecords(ds) == multiset{} && DroppedCount(ds) == 0
    ensures ds != [] ==>
              var n := |ds| - 1;
              && Arrived(ds) == Arrived(ds[..n]) + multiset(ds[n].arrivals)
              && KeptRecords(ds) == KeptRecords(ds[..n]) + R.Kept(ds[n])
              && DroppedCount(ds) == DroppedCount(ds[..n]) + ds[n].dropped
  {
    hide R.Kept;
  }

  lemma BothLost(a: multiset<R.Rec>, k: multiset<R.Rec>, a': multiset<R.Rec>, k': multiset<R.Rec>)
    requires k <= a && k' <= a'
    ensures k + k' <= a + a' && |(a + a') - (k + k')| == |a - k| + |a' - k'|
  {
    assert (a + a') - (k + k') == (a - k) + (a' - k');
  }

  lemma KeptOfOne(d: R.Data)
    requires R.Booked(d)
    ensures R.Kept(d) <= multiset(d.arrivals) && |multiset(d.arrivals) - R.Kept(d)| == d.dropped
  {
    hide R.SizesOk, R.ExtrasOk, R.SyscallOk, R.Subsequence, R.Tallied;
  }

  lemma {:induction false} CommittedIsKept(ds: seq<R.Data>)
    requires AllBooked(ds)
    ensures SentRecords(Committed(ds)) == KeptRecords(ds)
  {
    hide R.Booked, R.Kept, R.Built, R.Sent, SentRecords, Committed;
    var none: seq<R.Emitted> := [];
    if ds == [] {
      NothingCommitted();
    } else {
      var n := |ds| - 1;
      var d := ds[n];
      assert R.Booked(d) && ds == ds[..n] + [d];
      CommittedIsKept(ds[..n]);
      CommittedSnoc(ds[..n], d);
      BuiltIsKept(d);
      if R.Built(d).Some? {
        SentRecordsSnoc(Committed(ds[..n]), R.Built(d).value);
      } else {
        assert Committed(ds[..n]) + none == Committed(ds[..n]);
      }
    }
  }

  lemma NothingCommitted()
    ensures SentRecords(Committed([])) == multiset{}
  {
  }

  lemma SentRecordsSnoc(es: seq<R.Emitted>, e: R.Emitted)
    ensures SentRecords(es + [e]) == SentRecords(es) + R.Sent(e.outs)
  {
    assert (es + [e])[..|es|] == es;
  }

  lemma BuiltIsKept(d: R.Data)
    requires R.Booked(d)
    ensures -1 <= d.syscall < |d.records|
    ensures R.Kept(d) == match R.Built(d) case Some(e) => R.Sent(e.outs) case None => multiset{}
  {
    hide R.SizesOk, R.ExtrasOk, R.CountsOk, R.Outs, R.Sent;
    R.OutsAreKept(d);
    if R.Built(d).None? { NothingKept(d); }
  }

  lemma NothingKept(d: R.Data)
    requires R.Booked(d) && d.records == [] && d.dropped == 0
    ensures R.Kept(d) == multiset{}
  {
    hide R.Subsequence, R.Tallied, R.Sum, IsSuffix, R.Balanced;
    assert R.Execs(d.records) == [];
  }

  /**
   * Conservation: every record accepted is in exactly one committed event, kept by exactly one
   * cached event, or one of those lost, and the drop counts say how many were lost.
   */
  lemma Conserved(cached: seq<Cached>, sent: seq<R.Data>, accepted: seq<R.Rec>) returns (lost: multiset<R.Rec>)
    requires Books(cached, sent, accepted)
    ensures multiset(accepted) == SentRecords(Committed(sent)) + KeptRecords(Datas(cached)) + lost
    ensures |lost| == DroppedCount(sent) + DroppedCount(Datas(cached))
  {
    hide R.Booked, Arrived, KeptRecords, SentRecords, Committed;
    CommittedIsKept(sent);
    KeptAndLost(sent);
    KeptAndLost(Datas(cached));
    lost := (Arrived(sent) - KeptRecords(sent)) + (Arrived(Datas(cached)) - KeptRecords(Datas(cached)));
  }

  // ---------------------------------------------------------------- the class

  /** The cache's entries are these events, and they have gathered what the books say. */
  ghost predicate Mirrors(log: seq<Entry<A.EventId, R.RawEvent?>>, events: seq<R.RawEvent>, cached: seq<Cached>)
    reads set e | e in events
  {
    && |log| == |events| == |cached|
    && forall i | 0 <= i < |log| :: log[i].item == events[i] && events[i].id == log[i].key && EventIs(events[i], cached[i], log[i].touched)
  }

  ghost predicate EventIs(e: R.RawEvent, c: Cached, touched: nat)
    reads e
  {
    e.Valid() && c == Entry(e.id, touched, e.View())
  }

  lemma MirrorKeys(log: seq<Entry<A.EventId, R.RawEvent?>>, events: seq<R.RawEvent>, cached: seq<Cached>)
    requires Mirrors(log, events, cached)
    ensures UniqueKeys(log) ==> UniqueKeys(cached)
    ensures ByAge(log) ==> ByAge(cached)
    ensures forall k :: HasKey(log, k) <==> HasKey(cached, k)
    ensures forall now :: NotAfter(cached, now) ==> NotAfter(log, now)
  {
    hide EventIs, UniqueKeys, ByAge, HasKey, NotAfter;
    forall i | 0 <= i < |log| ensures log[i].key == cached[i].key && log[i].touched == cached[i].touched {
      MirrorAt(log, events, cached, i);
      EventIsEntry(events[i], cached[i], log[i].touched);
    }
    SameOrder(log, cached);
    forall k ensures HasKey(log, k) <==> HasKey(cached, k) { SameKey(log, cached, k); }
  }

  lemma EventIsEntry(e: R.RawEvent, c: Cached, touched: nat)
    requires EventIs(e, c, touched)
    ensures c.key == e.id && c.touched == touched
  {
    hide R.Booked;
  }

  /** Two logs with the same keys and times. */
  ghost predicate SameTimes<T, U>(a: seq<Entry<A.EventId, T>>, b: seq<Entry<A.EventId, U>>) {
    |a| == |b| && forall i | 0 <= i < |a| :: a[i].key == b[i].key && a[i].touched == b[i].touched
  }

  lemma {:induction false} SameOrder<T, U>(a: seq<Entry<A.EventId, T>>, b: seq<Entry<A.EventId, U>>)
    requires SameTimes(a, b)
    ensures UniqueKeys(a) ==> UniqueKeys(b)
    ensures ByAge(a) ==> ByAge(b)
    ensures forall now :: NotAfter(b, now) ==> NotAfter(a, now)
  {
  }

  lemma {:induction false} SameKey<T, U>(a: seq<Entry<A.EventId, T>>, b: seq<Entry<A.EventId, U>>, k: A.EventId)
    requires SameTimes(a, b)
    ensures HasKey(a, k) <==> HasKey(b, k)
  {
    if HasKey(a, k) {
      var i :| 0 <= i < |a| && a[i].key == k;
      assert b[i].key == k;
    }
    if HasKey(b, k) {
      var i :| 0 <= i < |b| && b[i].key == k;
      assert a[i].key == k;
    }
  }

  lemma MirrorAt(log: seq<Entry<A.EventId, R.RawEvent?>>, events: seq<R.RawEvent>, cached: seq<Cached>, p: nat)
    requires Mirrors(log, events, cached) && p < |events|
    ensures |log| == |events| == |cached|
    ensures log[p].item == events[p] && EventIs(events[p], cached[p], log[p].touched)
            && cached[p].key == log[p].key == events[p].id
  {
  }

  lemma MirrorSize(log: seq<Entry<A.EventId, R.RawEvent?>>, events: seq<R.RawEvent>, cached: seq<Cached>)
    requires Mirrors(log, events, cached)
    ensures |log| == |events| == |cached|
  {
  }

  /** Taking entry p out of all three. */
  lemma MirrorOut(log: seq<Entry<A.EventId, R.RawEvent?>>, events: seq<R.RawEvent>, cached: seq<Cached>, p: nat)
    requires Mirrors(log, events, cached) && p < |log| && UniqueKeys(log)
    ensures Mirrors(DropKey(log, log[p].key), events[..p] + events[p + 1..], cached[..p] + cached[p + 1..])
  {
    hide EventIs, DropKey;
    DropAt(log, p);
    var l, e, c := log[..p] + log[p + 1..], events[..p] + events[p + 1..], cached[..p] + cached[p + 1..];
    forall i | 0 <= i < |l| ensures l[i].item == e[i] && e[i].id == l[i].key && EventIs(e[i], c[i], l[i].touched) {
      var j := if i < p then i else i + 1;
      assert l[i] == log[j] && e[i] == events[j] && c[i] == cached[j];
    }
  }

  lemma MirrorNewest(log: seq<Entry<A.EventId, R.RawEvent?>>, events: seq<R.RawEvent>, cached: seq<Cached>,
                     e: R.RawEvent, now: nat)
    requires Mirrors(log, events, cached) && e.Valid()
    ensures Mirrors(log + [Entry(e.id, now, e)], events + [e], cached + [Entry(e.id, now, e.View())])
  {
    hide R.Booked;
  }

  /** Different identifiers, different objects. */
  lemma OthersDiffer(log: seq<Entry<A.EventId, R.RawEvent?>>, events: seq<R.RawEvent>, cached: seq<Cached>, p: nat)
    requires Mirrors(log, events, cached) && UniqueKeys(log) && p < |log|
    ensures forall i | 0 <= i < |log| && i != p :: events[i] != events[p]
  {
    hide EventIs;
    forall i | 0 <= i < |log| && i != p ensures events[i] != events[p] {
      assert log[i].key != log[p].key;
    }
  }

  lemma Booked(cached: seq<Cached>, sent: seq<R.Data>, accepted: seq<R.Rec>)
    requires Books(cached, sent, accepted)
    ensures AllBooked(sent)
  {
  }

  ghost predicate Apart(events: seq<R.RawEvent>, repr: set<object>) {
    forall i | 0 <= i < |events| :: events[i] !in repr
  }

  class RawEventAccumulator {
    const cache: Cache<A.EventId, R.RawEvent?>
    var committed: seq<R.Emitted>          // what the builder has committed
    ghost var events: seq<R.RawEvent>      // the cached events, oldest first
    ghost var cached: seq<Cached>          // what they have gathered
    ghost var sent: seq<R.Data>            // what the events handed to the builder had gathered
    ghost var accepted: seq<R.Rec>         // every record that was neither empty nor EOE

    ghost function Repr(): set<object>
      reads this, cache
    {
      {this} + cache.Repr() + set e | e in events
    }

    /** The object but for the bound on the cache. */
    ghost predicate Sound()
      reads this, cache, Repr()
    {
      && this !in cache.Repr() && Apart(events, cache.Repr()) && cache.Valid()
      && Mirrors(cache.log, events, cached)
      && Books(cached, sent, accepted) && committed == Committed(sent)
    }

    ghost predicate Valid()
      reads this, cache, Repr()
    {
      Sound() && |cached| <= MAX_CACHE_ENTRY
    }

    constructor ()
      ensures Valid() && cached == [] && sent == [] && accepted == [] && fresh(Repr())
    {
      hide Linked, Distinct, Indexed, Holds, UniqueKeys, ByAge, R.Booked;
      cache := new Cache<A.EventId, R.RawEvent?>();
      committed, events, cached, sent, accepted := [], [], [], [], [];
    }

    /** Hands a complete event to the builder. */
    method Send(event: R.RawEvent)
      requires event.Valid() && AllBooked(sent) && committed == Committed(sent)
      modifies this`committed, this`sent
      ensures sent == old(sent) + [event.View()] && AllBooked(sent) && committed == Committed(sent)
    {
      hide R.Booked, R.Built;
      var e := event.AddEvent();
      CommittedSnoc(sent, event.View());
      sent := sent + [event.View()];
      if e.Some? {
        committed := committed + [e.value];
      }
    }

    /** The oldest event is sent and forgotten. */
    method SendOldest()
      requires Sound() && cached != []
      modifies Repr()
      ensures Sound() && cached == old(cached)[1..] && sent == old(sent) + [old(cached)[0].item]
      ensures accepted == old(accepted) && Repr() <= old(Repr())
    {
      hide R.Booked, EventIs, Committed, Linked, Distinct, Indexed, Holds, ByAge, DropKey, UniqueKeys, Books, Mirrors;
      cache.LogInOrder();
      Booked(cached, sent, accepted);
      MirrorSize(cache.log, events, cached);
      MirrorAt(cache.log, events, cached, 0);
      OldestSent(cached, sent, accepted);
      var e := cache.Oldest();
      Send(e.item);
      MirrorOut(cache.log, events, cached, 0);
      DropAt(cache.log, 0);
      assert cache.log[..0] + cache.log[1..] == cache.log[1..];
      cache.RemoveOldest();
      assert events[..0] + events[1..] == events[1..] && cached[..0] + cached[1..] == cached[1..];
      events, cached := events[1..], cached[1..];
    }

    /** The record reaches its cached event, which is entry p. */
    method Feed(event: R.RawEvent, ghost p: nat, r: R.Rec) returns (complete: bool)
      requires Mirrors(cache.log, events, cached) && UniqueKeys(cache.log) && p < |events| && events[p] == event
      requires r.size <= R.MAX_RECORD_SIZE && (r.kind != R.EOE ==> !R.Faults(cached[p].item, r))
      modifies event, this`cached
      ensures cached == old(cached)[p := old(cached)[p].(item := Extended(old(cached)[p].item, r))]
      ensures Mirrors(cache.log, events, cached)
      ensures complete <==> Completes(r)
    {
      hide R.Booked, R.Faults, R.Stored, UniqueKeys;
      MirrorAt(cache.log, events, cached, p);
      OthersDiffer(cache.log, events, cached, p);
      complete := event.AddRecord(r);
      cached := cached[p := cached[p].(item := event.View())];
      forall i | 0 <= i < |events| ensures EventIs(events[i], cached[i], cache.log[i].touched) {
        if i != p { assert old(EventIs(events[i], cached[i], cache.log[i].touched)); }
      }
    }

    /** Between a record's arrival at its event and the event's new place. */
    ghost predicate Fed()
      reads this, cache, Repr()
    {
      && this !in cache.Repr() && Apart(events, cache.Repr()) && cache.Valid()
      && Mirrors(cache.log, events, cached)
      && AllBooked(sent) && committed == Committed(sent)
    }

    /** Entry p is complete: it is sent and forgotten. */
    method SendKnown(event: R.RawEvent, ghost p: nat, ghost nowAccepted: seq<R.Rec>)
      requires Fed() && p < |events| && events[p] == event && cache.log[p].key == event.id
      requires Books(cached[..p] + cached[p + 1..], sent + [event.View()], nowAccepted)
      modifies this, cache.Repr()
      ensures Sound() && Repr() <= old(Repr()) && accepted == nowAccepted
      ensures cached == old(cached)[..p] + old(cached)[p + 1..] && sent == old(sent) + [old(event.View())]
    {
      hide R.Booked, EventIs, Committed, Linked, Distinct, Indexed, Holds, ByAge, DropKey, UniqueKeys, HasKey, Books, Mirrors;
      MirrorAt(cache.log, events, cached, p);
      assert event.Valid() by { EventIsValid(event, cached[p], cache.log[p].touched); }
      Send(event);
      MirrorOut(cache.log, events, cached, p);
      var found := cache.Remove(event.id);
      events, cached := events[..p] + events[p + 1..], cached[..p] + cached[p + 1..];
      accepted := nowAccepted;
    }

    /** Entry p goes on gathering: it becomes the newest. */
    method KeepKnown(event: R.RawEvent, ghost p: nat, now: nat, ghost nowAccepted: seq<R.Rec>)
      requires Fed() && p < |events| && events[p] == event && cache.log[p].key == event.id && NotAfter(cache.log, now)
      requires Books(cached[..p] + cached[p + 1..] + [Entry(event.id, now, event.View())], sent, nowAccepted)
      modifies this, cache.Repr()
      ensures Sound() && Repr() <= old(Repr()) && accepted == nowAccepted && sent == old(sent)
      ensures cached == old(cached)[..p] + old(cached)[p + 1..] + [Entry(event.id, now, old(event.View()))]
    {
      hide R.Booked, EventIs, Committed, Linked, Distinct, Indexed, Holds, ByAge, DropKey, UniqueKeys, HasKey, Books, Mirrors;
      MirrorAt(cache.log, events, cached, p);
      EventIsValid(event, cached[p], cache.log[p].touched);
      MirrorOut(cache.log, events, cached, p);
      MirrorNewest(DropKey(cache.log, event.id), events[..p] + events[p + 1..], cached[..p] + cached[p + 1..], event, now);
      var found := cache.Touch(event.id, now);
      events := events[..p] + events[p + 1..] + [event];
      cached := cached[..p] + cached[p + 1..] + [Entry(event.id, now, event.View())];
      accepted := nowAccepted;
    }

    /** The record's event is in the cache. */
    method AddToKnown(event: R.RawEvent, ghost p: nat, r: R.Rec, now: nat)
      requires Sound() && NotAfter(cached, now) && !Ignored(r) && r.size <= R.MAX_RECORD_SIZE
      requires r.kind != R.EOE ==> !R.Faults(Gathered(cached, r.id), r)
      requires p < |events| && events[p] == event && cache.log[p].key == r.id
      modifies Repr()
      ensures Sound() && Repr() <= old(Repr()) && accepted == old(accepted) + AcceptedBy(r)
      ensures State(cached, sent) == Placed(State(old(cached), old(sent)), r, now)
    {
      hide R.Booked, R.Faults, R.Stored, EventIs, Gathered, Committed, Linked, Distinct, Indexed, Holds, ByAge, DropKey,
           UniqueKeys, HasKey, Books, Completes;
      MirrorKeys(cache.log, events, cached);
      MirrorAt(cache.log, events, cached, p);
      GatheredAt(cached, p);
      PlacedKeepsBooks(State(cached, sent), accepted, r, now);
      DropAt(cached, p);
      Booked(cached, sent, accepted);
      ghost var was := cached;
      var complete := Feed(event, p, r);
      MirrorAt(cache.log, events, cached, p);
      EventIsValid(event, cached[p], cache.log[p].touched);
      assert cached[..p] + cached[p + 1..] == was[..p] + was[p + 1..];
      if complete {
        SendKnown(event, p, accepted + AcceptedBy(r));
      } else {
        KeepKnown(event, p, now, accepted + AcceptedBy(r));
      }
    }

    /** A new event goes on gathering: it becomes the newest. */
    method KeepNew(event: R.RawEvent, now: nat, ghost nowAccepted: seq<R.Rec>)
      requires Fed() && event.Valid() && event !in Repr() && !HasKey(cache.log, event.id) && NotAfter(cache.log, now)
      requires Books(cached + [Entry(event.id, now, event.View())], sent, nowAccepted)
      modifies this, cache.Repr()
      ensures Sound() && fresh(Repr() - old(Repr()) - {event}) && accepted == nowAccepted && sent == old(sent)
      ensures cached == old(cached) + [Entry(event.id, now, old(event.View()))]
    {
      hide R.Booked, EventIs, Committed, Linked, Distinct, Indexed, Holds, ByAge, DropKey, UniqueKeys, HasKey, Books;
      MirrorNewest(cache.log, events, cached, event, now);
      DropAbsent(cache.log, event.id);
      cache.Add(event.id, event, now);
      events := events + [event];
      cached := cached + [Entry(event.id, now, event.View())];
      accepted := nowAccepted;
    }

    /** The record's event is not in the cache. */
    method AddToNew(r: R.Rec, now: nat)
      requires Sound() && NotAfter(cached, now) && !Ignored(r) && r.size <= R.MAX_RECORD_SIZE
      requires r.kind != R.EOE ==> !R.Faults(Gathered(cached, r.id), r)
      requires !HasKey(cached, r.id)
      modifies this, cache.Repr()
      ensures Sound() && fresh(Repr() - old(Repr())) && accepted == old(accepted) + AcceptedBy(r)
      ensures State(cached, sent) == Placed(State(old(cached), old(sent)), r, now)
    {
      hide R.Booked, R.Faults, R.Stored, EventIs, Gathered, Committed, Linked, Distinct, Indexed, Holds, ByAge, DropKey,
           UniqueKeys, HasKey, Books, AcceptedBy, Mirrors;
      MirrorKeys(cache.log, events, cached);
      GatheredNone(cached, r.id);
      cache.LogInOrder();
      PlacedKeepsBooks(State(cached, sent), accepted, r, now);
      DropAbsent(cached, r.id);
      Booked(cached, sent, accepted);
      var event := new R.RawEvent(r.id);
      var complete := event.AddRecord(r);
      assert event.id == r.id && event.View() == Extended(R.Fresh(r.id), r);
      if complete {
        Send(event);
        accepted := accepted + AcceptedBy(r);
      } else {
        KeepNew(event, now, accepted + AcceptedBy(r));
      }
    }

    /**
     * A record goes to its event; the event is sent when the record completes it, and the oldest
     * events are sent while the cache is too full. Empty records but EOE are ignored.
     */
    method AddRecord(r: R.Rec, now: nat) returns (ret: nat)
      requires Valid() && NotAfter(cached, now) && r.size <= R.MAX_RECORD_SIZE
      requires !Ignored(r) && r.kind != R.EOE ==> !R.Faults(Gathered(cached, r.id), r)
      modifies Repr()
      ensures Valid() && fresh(Repr() - old(Repr())) && accepted == old(accepted) + AcceptedBy(r)
      ensures Ignored(r) ==> ret == 0 && cached == old(cached) && sent == old(sent)
      ensures !Ignored(r) ==> ret == 1 && State(cached, sent) == Trimmed(Placed(State(old(cached), old(sent)), r, now))
    {
      hide R.Booked, R.Faults, R.Stored, EventIs, Gathered, Committed, Linked, Distinct, Indexed, Holds, ByAge, DropKey,
           UniqueKeys, HasKey, Books, Completes, Placed;
      if r.blank && r.kind != R.EOE {
        return 0;
      }
      MirrorKeys(cache.log, events, cached);
      var found, event := cache.Find(r.id);
      if found {
        ghost var p :| 0 <= p < |cache.log| && cache.log[p].key == r.id && cache.log[p].item == event;
        AddToKnown(event, p, r, now);
      } else {
        AddToNew(r, now);
      }
      Trim();
      ret := 1;
    }

    method Count() returns (n: nat)
      requires Sound()
      ensures n == |cached|
    {
      n := cache.Size();
    }

    /** When the oldest event was last touched. */
    method OldestTouched() returns (t: nat)
      requires Sound() && cached != []
      ensures t == cached[0].touched
    {
      hide R.Booked, Linked, Distinct, Indexed, Holds, ByAge, UniqueKeys, Books, Committed;
      MirrorAt(cache.log, events, cached, 0);
      EventIsValid(events[0], cached[0], cache.log[0].touched);
      var e := cache.Oldest();
      t := e.touched;
    }

    lemma OldestFirst()
      requires Sound()
      ensures ByAge(cached)
    {
      MirrorKeys(cache.log, events, cached);
      cache.LogInOrder();
    }

    /** for_all_oldest_first, as long as there are too many entries. */
    method Trim()
      requires Sound()
      modifies Repr()
      ensures Valid() && Repr() <= old(Repr()) && accepted == old(accepted)
      ensures State(cached, sent) == Trimmed(State(old(cached), old(sent)))
    {
      hide Sound;
      var size := Count();
      while size > MAX_CACHE_ENTRY
        invariant Sound() && size == |cached| && Repr() <= old(Repr()) && accepted == old(accepted)
        invariant Trimmed(State(cached, sent)) == Trimmed(State(old(cached), old(sent)))
        decreases |cached|
      {
        SendOldest();
        size := Count();
      }
    }

    /** One turn of the loop of Flush: the oldest event is sent if it has expired. */
    method FlushOldest(size: nat, milliseconds: int, now: nat, ghost all: seq<Cached>, ghost before: seq<R.Data>, ghost n: nat)
      returns (expired: bool)
      requires Sound() && 0 < size == |cached| <= MAX_CACHE_ENTRY && NotAfter(all, now) && ByAge(all)
      requires SentUpTo(all, before, cached, sent, n, milliseconds, now)
      modifies Repr()
      ensures Sound() && Repr() <= old(Repr()) && accepted == old(accepted)
      ensures expired ==> |cached| < old(|cached|) && SentUpTo(all, before, cached, sent, n + 1, milliseconds, now)
      ensures !expired ==> cached == old(cached) && sent == old(sent) && NoneExpired(cached, milliseconds, now)
    {
      hide Sound, SentUpTo, NoneExpired, NotAfter, ByAge, Expired, Datas;
      var touched := OldestTouched();
      if milliseconds > 0 && size <= MAX_CACHE_ENTRY && (now - touched) / NANOS <= milliseconds {
        FirstIsFresh(all, before, cached, sent, n, milliseconds, now);
        return false;
      }
      SendsNext(all, before, cached, sent, n, milliseconds, now);
      SendOldest();
      expired := true;
    }

    /**
     * Sends the events last touched more than so many milliseconds before, all of them when the
     * number is not positive, and no others: the list is in the order of the last touch.
     */
    method Flush(milliseconds: int, now: nat)
      requires Valid() && NotAfter(cached, now)
      modifies Repr()
      ensures Valid() && Repr() <= old(Repr()) && accepted == old(accepted)
      ensures exists n: nat :: SentUpTo(old(cached), old(sent), cached, sent, n, milliseconds, now)
      ensures NoneExpired(cached, milliseconds, now)
    {
      hide Sound, SentUpTo, NoneExpired, NotAfter, ByAge, Expired, Datas;
      OldestFirst();
      ghost var all, before := cached, sent;
      ghost var n: nat := 0;
      NothingSentYet(all, before, milliseconds, now);
      var size := Count();
      while size > 0
        invariant Sound() && size == |cached| <= MAX_CACHE_ENTRY && Repr() <= old(Repr()) && accepted == old(accepted)
        invariant SentUpTo(all, before, cached, sent, n, milliseconds, now)
        decreases |cached|
      {
        var expired := FlushOldest(size, milliseconds, now, all, before, n);
        if !expired {
          return;
        }
        n := n + 1;
        size := Count();
      }
      NoneLeft(milliseconds, now);
      assert cached == [];
    }
  }

  /** The first n of all these events have been sent, in order, and every one of them had expired. */
  ghost predicate SentUpTo(all: seq<Cached>, before: seq<R.Data>, cached: seq<Cached>, sent: seq<R.Data>, n: nat,
                           ms: int, now: nat) {
    && n <= |all| && cached == all[n..] && sent == before + Datas(all[..n])
    && forall i | 0 <= i < n :: Expired(all[i].touched, ms, now)
  }

  ghost predicate NoneExpired(cached: seq<Cached>, ms: int, now: nat) {
    forall i | 0 <= i < |cached| :: !Expired(cached[i].touched, ms, now)
  }

  lemma NothingSentYet(all: seq<Cached>, before: seq<R.Data>, ms: int, now: nat)
    ensures SentUpTo(all, before, all, before, 0, ms, now)
  {
  }

  lemma NoneLeft(ms: int, now: nat)
    ensures NoneExpired([], ms, now)
  {
  }

  lemma SendsNext(all: seq<Cached>, before: seq<R.Data>, cached: seq<Cached>, sent: seq<R.Data>, n: nat, ms: int,
                  now: nat)
    requires SentUpTo(all, before, cached, sent, n, ms, now) && cached != [] && NotAfter(all, now)
    requires !(ms > 0 && (now - cached[0].touched) / NANOS <= ms)
    ensures SentUpTo(all, before, cached[1..], sent + [cached[0].item], n + 1, ms, now)
  {
    assert cached[0] == all[n];
    assert Datas(all[..n + 1]) == Datas(all[..n]) + [all[n].item];
  }

  /** The list is in the order of the last touch: behind a fresh event there are only fresh ones. */
  lemma FirstIsFresh(all: seq<Cached>, before: seq<R.Data>, cached: seq<Cached>, sent: seq<R.Data>, n: nat,
                     ms: int, now: nat)
    requires SentUpTo(all, before, cached, sent, n, ms, now) && cached != [] && NotAfter(all, now) && ByAge(all)
    requires ms > 0 && (now - cached[0].touched) / NANOS <= ms
    ensures NoneExpired(cached, ms, now)
  {
    forall i | 0 <= i < |cached| ensures !Expired(cached[i].touched, ms, now) {
      assert cached[i] == all[n + i] && cached[0] == all[n];
      AgesOrdered(now - cached[i].touched, now - cached[0].touched);
    }
  }

  lemma AgesOrdered(a: int, b: int)
    requires a <= b
    ensures a / NANOS <= b / NANOS
  {
  }

  /** The age of a touch, in whole milliseconds, is more than asked for. */
  predicate Expired(touched: nat, milliseconds: int, now: nat) {
    milliseconds > 0 ==> now >= touched && (now - touched) / NANOS > milliseconds
  }

  lemma EventIsValid(e: R.RawEvent, c: Cached, touched: nat)
    requires EventIs(e, c, touched)
    ensures e.Valid() && c == Entry(e.id, touched, e.View())
  {
  }
}
