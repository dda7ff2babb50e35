/** The table of events sent but not yet acknowledged: class AckQueue of Output.h and Output.cpp. */
module AckQueue {
  import opened Wrappers

  datatype EventId = EventId(sec: nat, msec: nat, serial: nat)

  datatype Entry<C> = Entry(event: EventId, cursor: C)

  /** The fields of an AckQueue; C is the type of queue cursors. */
  datatype Acks<C> = Acks(ids: map<EventId, nat>, cursors: map<nat, Entry<C>>, nextSeq: nat, auto: Option<Auto<C>>)

  /** The auto cursor and the sequence number it was set at. */
  datatype Auto<C> = Auto(num: nat, cursor: C)

  /** Every listed event has its own entry, and sequence numbers are used once. */
  ghost predicate Consistent<C>(a: Acks<C>) {
    && (forall e | e in a.ids :: a.ids[e] in a.cursors && a.cursors[a.ids[e]].event == e)
    && (forall s | s in a.cursors :: s < a.nextSeq)
    && (a.auto.Some? ==> a.auto.value.num < a.nextSeq && a.auto.value.num !in a.cursors)
  }

  function Empty<C>(): Acks<C> {
    Acks(map[], map[], 0, None)
  }

  /** AckQueue::Add: emplace keeps the old sequence number of an event that is listed already. */
  function Added<C>(a: Acks<C>, e: EventId, c: C): Acks<C> {
    a.(ids := if e in a.ids then a.ids else a.ids[e := a.nextSeq],
       cursors := a.cursors[a.nextSeq := Entry(e, c)],
       nextSeq := a.nextSeq + 1)
  }

  function AutoSet<C>(a: Acks<C>, c: C): Acks<C> {
    a.(auto := Some(Auto(a.nextSeq, c)), nextSeq := a.nextSeq + 1)
  }

  function Removed<C>(a: Acks<C>, e: EventId): Acks<C> {
    if e !in a.ids then a
    else a.(ids := a.ids - {e}, cursors := a.cursors - {a.ids[e]})
  }

  /** Is some entry up to sequence number s one of event e? */
  ghost predicate ListedUpTo<C>(a: Acks<C>, e: EventId, s: nat) {
    exists t | t in a.cursors :: t <= s && a.cursors[t].event == e
  }

  /** The tables after an acknowledgement of the event listed with sequence number s. */
  ghost function Cleared<C>(a: Acks<C>, e: EventId, s: nat): Acks<C> {
    a.(ids := a.ids - (set f | f in a.ids && (f == e || ListedUpTo(a, f, s))),
       cursors := a.cursors - (set t | t in a.cursors && t <= s))
  }

  /** Nothing outstanding is as old as the auto cursor. */
  ghost predicate AutoReady<C>(a: Acks<C>) {
    a.auto.Some? && forall t | t in a.cursors :: t > a.auto.value.num
  }

  /** What AckQueue::Ack does: the new tables, and the cursor it returns, if any. */
  ghost function Acked<C>(a: Acks<C>, e: EventId): (r: (Acks<C>, Option<C>)) {
    var found := e in a.ids && a.ids[e] in a.cursors;
    var b := if e in a.ids then Cleared(a, e, a.ids[e]) else a;
    if AutoReady(b) && (!found || b.auto.value.num > a.ids[e]) then
      (b.(auto := None), Some(b.auto.value.cursor))
    else if found then (b, Some(a.cursors[a.ids[e]].cursor))
    else (b, None)
  }

  // ---------------------------------------------------------------- consistency

  lemma AddKeepsConsistent<C>(a: Acks<C>, e: EventId, c: C)
    requires Consistent(a)
    ensures Consistent(Added(a, e, c)) && Consistent(AutoSet(a, c)) && Consistent(Removed(a, e))
  {
    var r := Removed(a, e);
    forall f | f in r.ids ensures r.ids[f] in r.cursors && r.cursors[r.ids[f]].event == f {
      assert f in a.ids;
    }
  }

  lemma AckKeepsConsistent<C>(a: Acks<C>, e: EventId)
    requires Consistent(a)
    ensures Consistent(Acked(a, e).0)
  {
    if e in a.ids {
      var b := Cleared(a, e, a.ids[e]);
      forall f | f in b.ids ensures b.ids[f] in b.cursors && b.cursors[b.ids[f]].event == f {
        assert !ListedUpTo(a, f, a.ids[e]);
        assert a.ids[f] in a.cursors;
      }
    }
  }

  /**
   * An acknowledgement of a listed event removes exactly the entries up to its sequence number;
   * the cursor an acknowledgement returns stands at a sequence number below every entry still
   * outstanding, and is an entry's cursor or the auto cursor.
   */
  lemma AckReturnsBelowOutstanding<C>(a: Acks<C>, e: EventId)
    requires Consistent(a)
    ensures e in a.ids ==> forall t :: t in Acked(a, e).0.cursors <==> t in a.cursors && t > a.ids[e]
    ensures e !in a.ids ==> Acked(a, e).0.cursors == a.cursors && Acked(a, e).0.ids == a.ids
    ensures Acked(a, e).1.Some? ==>
              exists s: nat :: (forall t | t in Acked(a, e).0.cursors :: s < t)
                       && ((s in a.cursors && a.cursors[s] == Entry(e, Acked(a, e).1.value))
                           || a.auto == Some(Auto(s, Acked(a, e).1.value)))
  {
    var r := Acked(a, e);
    if r.1.Some? {
      if e in a.ids && r.1 == Some(a.cursors[a.ids[e]].cursor) && r.0.auto == a.auto {
        var s := a.ids[e];
        assert (forall t | t in r.0.cursors :: s < t) && s in a.cursors && a.cursors[s] == Entry(e, r.1.value);
      } else {
        var s := a.auto.value.num;
        assert (forall t | t in r.0.cursors :: s < t) && a.auto == Some(Auto(s, r.1.value));
      }
    }
  }

  /** The entry is still outstanding after an acknowledgement of e. */
  predicate Outstanding<C>(a: Acks<C>, e: EventId, t: nat) {
    t in a.cursors && (e in a.ids ==> t > a.ids[e])
  }

  /**
   * Which cursor an acknowledgement returns. It is the auto cursor exactly when there is one, newer
   * than the event's entry if the event is listed, and older than everything that stays
   * outstanding; it is then no longer pending. Otherwise it is the cursor of the event's entry; and
   * there is none for an event that is not listed.
   */
  lemma AckReturnsAutoIff<C>(a: Acks<C>, e: EventId)
    requires Consistent(a)
    ensures var autoWins := && a.auto.Some? && (e in a.ids ==> a.ids[e] < a.auto.value.num)
                            && forall t: nat | Outstanding(a, e, t) :: a.auto.value.num < t;
            && Acked(a, e).1 == (if autoWins then Some(a.auto.value.cursor)
                                 else if e in a.ids then Some(a.cursors[a.ids[e]].cursor) else None)
            && Acked(a, e).0.auto == if autoWins then None else a.auto
  {
    var b := if e in a.ids then Cleared(a, e, a.ids[e]) else a;
    forall t: nat ensures t in b.cursors <==> Outstanding(a, e, t) {}
  }

  /** The event is not the acknowledged one, and has no entry up to that one's. */
  ghost predicate StaysListed<C>(a: Acks<C>, e: EventId, f: EventId) {
    e in a.ids ==> f != e && forall t | t in a.cursors && t <= a.ids[e] :: a.cursors[t].event != f
  }

  /**
   * What an acknowledgement leaves, as it was: the entries behind the acknowledged one, and the
   * events without an entry up to that one.
   */
  lemma AckLeavesTheRest<C>(a: Acks<C>, e: EventId)
    requires Consistent(a)
    ensures var b := Acked(a, e).0;
            && b.nextSeq == a.nextSeq
            && (forall t :: t in b.cursors <==> Outstanding(a, e, t))
            && (forall t | t in b.cursors :: b.cursors[t] == a.cursors[t])
            && (forall f :: f in b.ids <==> f in a.ids && StaysListed(a, e, f))
            && forall f | f in b.ids :: b.ids[f] == a.ids[f]
  {
    var b := Acked(a, e).0;
    forall f ensures f in b.ids <==> f in a.ids && StaysListed(a, e, f) {
      if e in a.ids { assert f in b.ids <==> f in a.ids && f != e && !ListedUpTo(a, f, a.ids[e]); }
    }
  }

  /**
   * An event that is acknowledged right after its Add gives back its own cursor, and everything else
   * has been acknowledged with it; an event that was listed already gives back the cursor it was
   * first listed with, and the new one stays outstanding.
   */
  lemma AckAfterAdd<C>(a: Acks<C>, e: EventId, c: C)
    requires Consistent(a) && a.auto.None?
    ensures e !in a.ids ==> Acked(Added(a, e, c), e).1 == Some(c) && Acked(Added(a, e, c), e).0.cursors == map[]
    ensures e in a.ids ==>
              && Acked(Added(a, e, c), e).1 == Some(a.cursors[a.ids[e]].cursor)
              && a.nextSeq in Acked(Added(a, e, c), e).0.cursors
  {
    var b := Added(a, e, c);
    AddKeepsConsistent(a, e, c);
    AckReturnsAutoIff(b, e);
    AckLeavesTheRest(b, e);
    if e !in a.ids {
      assert forall t: nat :: !Outstanding(b, e, t);
      assert Acked(b, e).0.cursors.Keys == {};
    } else {
      assert Outstanding(b, e, a.nextSeq);
    }
  }

  /** Remove undoes Add, but for the sequence number that is used up. */
  lemma RemoveUndoesAdd<C>(a: Acks<C>, e: EventId, c: C)
    requires Consistent(a) && e !in a.ids
    ensures Removed(Added(a, e, c), e) == a.(nextSeq := a.nextSeq + 1)
  {
    var b := Added(a, e, c);
    assert b.ids - {e} == a.ids && b.cursors - {a.nextSeq} == a.cursors;
  }

  /** An auto cursor is returned as soon as everything entered before it has been acknowledged. */
  lemma AutoFollowsLastAck<C>(a: Acks<C>, e: EventId, c: C)
    requires Consistent(a) && forall t | t in a.cursors :: e in a.ids && t <= a.ids[e]
    ensures Acked(AutoSet(a, c), e).1 == Some(c) && Acked(AutoSet(a, c), e).0.cursors == map[]
  {
    var b := AutoSet(a, c);
    AckReturnsAutoIff(b, e);
    AckLeavesTheRest(b, e);
    assert forall t: nat :: !Outstanding(b, e, t);
    assert Acked(b, e).0.cursors.Keys == {};
  }

  // ---------------------------------------------------------------- the class

  /** std::map keeps its keys sorted: begin() is the smallest. */
  ghost predicate IsFirst<C>(m: map<nat, Entry<C>>, s: nat) {
    s in m && forall t | t in m :: s <= t
  }

  method First<C>(m: map<nat, Entry<C>>) returns (s: nat)
    requires m != map[]
    ensures IsFirst(m, s)
  {
    s :| s in m;
    var rest := m.Keys - {s};
    while rest != {}
      invariant s in m && rest <= m.Keys
      invariant forall t | t in m && t !in rest :: s <= t
      decreases |rest|
    {
      var t :| t in rest;
      rest := rest - {t};
      if t < s {
        s := t;
      }
    }
  }

  class AckQueue<C(0)> {
    var ids: map<EventId, nat>
    var cursors: map<nat, Entry<C>>
    var maxSize: nat
    var closed: bool
    var haveAuto: bool
    var nextSeq: nat
    var autoSeq: nat
    var auto: C

    ghost function View(): Acks<C>
      reads this
    {
      Acks(ids, cursors, nextSeq, if haveAuto then Some(Auto(autoSeq, auto)) else None)
    }

    ghost predicate Valid()
      reads this
    {
      Consistent(View())
    }

    constructor (size: nat, c: C)
      ensures Valid() && View() == Empty() && maxSize == size && !closed
    {
      ids, cursors, nextSeq, maxSize := map[], map[], 0, size;
      closed, haveAuto, autoSeq, auto := false, false, 0, c;
    }

    /** Adds an entry unless the queue stays full until the timeout; a closed queue takes it at once. */
    method Add(e: EventId, c: C) returns (added: bool)
      requires Valid()
      modifies this
      ensures Valid() && maxSize == old(maxSize) && closed == old(closed)
      ensures added <==> old(closed) || |old(ids)| < maxSize
      ensures View() == if added then Added(old(View()), e, c) else old(View())
    {
      AddKeepsConsistent(View(), e, c);
      if !closed && |ids| >= maxSize {
        return false;
      }
      var num := nextSeq;
      nextSeq := nextSeq + 1;
      if e !in ids {
        ids := ids[e := num];
      }
      cursors := cursors[num := Entry(e, c)];
      added := true;
    }

    method SetAutoCursor(c: C)
      requires Valid()
      modifies this
      ensures Valid() && View() == AutoSet(old(View()), c) && maxSize == old(maxSize) && closed == old(closed)
    {
      AddKeepsConsistent(View(), EventId(0, 0, 0), c);
      autoSeq := nextSeq;
      nextSeq := nextSeq + 1;
      auto := c;
      haveAuto := true;
    }

    /** Takes the auto cursor, whatever is outstanding. */
    method GetAutoCursor() returns (r: Option<C>)
      requires Valid()
      modifies this
      ensures Valid() && View() == old(View()).(auto := None) && maxSize == old(maxSize) && closed == old(closed)
      ensures r == match old(View()).auto case Some(x) => Some(x.cursor) case None => None
    {
      if haveAuto {
        haveAuto := false;
        return Some(auto);
      }
      r := None;
    }

    method Remove(e: EventId)
      requires Valid()
      modifies this
      ensures Valid() && View() == Removed(old(View()), e) && maxSize == old(maxSize) && closed == old(closed)
    {
      AddKeepsConsistent(View(), e, auto);
      if e in ids {
        var num := ids[e];
        ids := ids - {e};
        cursors := cursors - {num};
      }
    }

    method Reset()
      modifies this
      ensures Valid() && View() == Empty() && !closed && maxSize == old(maxSize)
    {
      closed := false;
      ids, cursors := map[], map[];
      nextSeq, haveAuto, autoSeq := 0, false, 0;
    }

    method Close()
      requires Valid()
      modifies this
      ensures Valid() && View() == old(View()) && closed && maxSize == old(maxSize)
    {
      closed := true;
    }

    /** Acknowledges an event, and with it every entry added before its own. */
    method Ack(e: EventId) returns (r: Option<C>)
      requires Valid()
      modifies this
      ensures Valid() && View() == Acked(old(View()), e).0 && r == Acked(old(View()), e).1
      ensures maxSize == old(maxSize) && closed == old(closed)
    {
      ghost var was := View();
      AckKeepsConsistent(was, e);
      r := None;
      var num := 0;
      if e in ids {
        num := ids[e];
        ids := ids - {e};
        r := ClearUpTo(was, e, num);
      }
      if haveAuto && (r == None || autoSeq > num) {
        var ready := cursors == map[];
        if !ready {
          var first := First(cursors);
          ready := first > autoSeq;
        }
        if ready {
          r := Some(auto);
          haveAuto := false;
        }
      }
    }

    /** Ack's loop: entries go oldest first, each with its event's listing. */
    method ClearUpTo(ghost was: Acks<C>, e: EventId, num: nat) returns (r: Option<C>)
      requires Consistent(was) && e in was.ids && was.ids[e] == num
      requires cursors == was.cursors && ids == was.ids - {e}
      modifies this`ids, this`cursors
      ensures ids == Cleared(was, e, num).ids && cursors == Cleared(was, e, num).cursors
      ensures r == Some(was.cursors[num].cursor)
    {
      hide Clearing;
      r := None;
      ghost var last: nat := 0;
      StartClearing(was, e, num);
      while cursors != map[]
        invariant Clearing(was, cursors, ids, e, num, last, r)
        decreases |cursors|
      {
        var first := First(cursors);
        if first > num {
          break;
        }
        ClearOne(was, cursors, ids, e, num, last, r, first);
        r := Some(cursors[first].cursor);
        last := first;
        ids := ids - {cursors[first].event};
        cursors := cursors - {first};
      }
      ClearedAll(was, cursors, ids, e, num, last, r);
    }
  }

  /** Some entry of event f has been erased already. */
  ghost predicate GoneWith<C>(was: Acks<C>, now: map<nat, Entry<C>>, f: EventId) {
    exists t :: t in was.cursors && t !in now && was.cursors[t].event == f
  }

  /** The loop of Ack: the erased entries are the oldest, none newer than num, and last was the latest. */
  ghost predicate Clearing<C>(was: Acks<C>, now: map<nat, Entry<C>>, ids: map<EventId, nat>, e: EventId, num: nat,
                              last: nat, r: Option<C>) {
    && (forall t | t in now :: t in was.cursors && now[t] == was.cursors[t])
    && (forall t | t in was.cursors && t !in now :: t <= num && t <= last && forall u | u in now :: t < u)
    && (r.Some? ==> last in was.cursors && last !in now && r.value == was.cursors[last].cursor)
    && (r.None? ==> now == was.cursors)
    && (forall f | f in ids :: f in was.ids && ids[f] == was.ids[f] && f != e && !GoneWith(was, now, f))
    && (forall f | f in was.ids && f != e && f !in ids :: GoneWith(was, now, f))
  }

  lemma StartClearing<C>(was: Acks<C>, e: EventId, num: nat)
    ensures Clearing(was, was.cursors, was.ids - {e}, e, num, 0, None)
  {
  }

  lemma ClearOne<C>(was: Acks<C>, now: map<nat, Entry<C>>, ids: map<EventId, nat>, e: EventId, num: nat,
                    last: nat, r: Option<C>, first: nat)
    requires Clearing(was, now, ids, e, num, last, r) && IsFirst(now, first) && first <= num
    ensures Clearing(was, now - {first}, ids - {now[first].event}, e, num, first, Some(now[first].cursor))
    ensures |now - {first}| < |now|
  {
    var now', ids' := now - {first}, ids - {now[first].event};
    forall f | f in ids' ensures !GoneWith(was, now', f) {
      assert !GoneWith(was, now, f) && f != was.cursors[first].event;
    }
    forall f | f in was.ids && f != e && f !in ids' ensures GoneWith(was, now', f) {
      if f in ids {
        assert first in was.cursors && first !in now' && was.cursors[first].event == f;
      } else {
        var t :| t in was.cursors && t !in now && was.cursors[t].event == f;
        assert t !in now';
      }
    }
    assert now'.Keys == now.Keys - {first};
  }

  lemma ClearedAll<C>(was: Acks<C>, now: map<nat, Entry<C>>, ids: map<EventId, nat>, e: EventId, num: nat,
                      last: nat, r: Option<C>)
    requires Clearing(was, now, ids, e, num, last, r) && (forall t | t in now :: t > num) && num in was.cursors
    ensures ids == Cleared(was, e, num).ids && now == Cleared(was, e, num).cursors
    ensures r == Some(was.cursors[num].cursor)
  {
    forall f | f in was.ids ensures GoneWith(was, now, f) <==> ListedUpTo(was, f, num) {
      if ListedUpTo(was, f, num) {
        var t :| t in was.cursors && t <= num && was.cursors[t].event == f;
        assert t !in now;
      }
    }
  }
}
