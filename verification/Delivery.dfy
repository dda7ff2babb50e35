/**
 * Acknowledged delivery: the loop of Output::handle_events, the connection, the receiver and
 * AckReader::run, taking turns at the points where the locks let them.
 */
module Delivery {
  import opened Wrappers
  import opened AckQueue

  /** A queue cursor: wait for the next new item, or go on after item id. */
  datatype Place = Head | After(id: nat)

  /** Where the sending loop stands. */
  datatype Pc =
    | Stopped            // no connection
    | Starting           // connected, AckQueue::Reset still to come
    | Idle               // about to Get
    | Sending(p: nat)    // item p added to the ack queue, WriteEvent still to come
    | Undoing(p: nat)    // WriteEvent said NOOP, AckQueue::Remove still to come
    | Noting(p: nat)     // AckQueue::SetAutoCursor still to come
    | Ending             // out of the loop, waiting for the reader to stop

  datatype World = World(
    ring: set<nat>,          // identifiers of the retained items
    nextId: nat,
    eid: nat -> EventId,     // the event identifier each item carries
    saved: Place,            // CursorWriter's cursor
    file: Place,             // the cursor file
    pc: Pc,
    at: Place,               // Output::_cursor
    since: nat,             // the next identifier when this connection was made
    acks: Acks<nat>,
    reader: bool,            // AckReader is running
    wire: seq<nat>,          // sent, not yet received
    replies: seq<EventId>,   // acknowledgements on their way back
    // history: read from the queue at least once; received at least once; filtered or NOOP; gone
    // from the ring when the loop passed them; passed by a loop that started at the head, unread
    taken: set<nat>,
    received: set<nat>,
    skipped: set<nat>,
    evicted: set<nat>,
    beforeHead: set<nat>)

  /** What the code does not rule out; each of the four can make it lose an event. */
  datatype Allow = Allow(
    duplicates: bool,        // two items carry the same event identifier
    unsafeExit: bool,        // a connection ends with an auto cursor newer than something outstanding
    headAgain: bool,         // a connection starts at the head although items have been read before
    rollback: bool)          // the queue comes back with a next identifier at or below the cursor file's

  /** Item q needs no (further) delivery. */
  ghost predicate Settled(w: World, q: nat) {
    q in w.received || q in w.skipped || q in w.evicted || q in w.beforeHead
  }

  /** Every item up to this cursor is settled. */
  ghost predicate Covered(w: World, c: Place) {
    c.After? ==> forall q | 0 < q <= c.id :: Settled(w, q)
  }

  /** No two items carry the same event identifier. */
  ghost predicate Distinct(w: World) {
    forall p, q | 0 < p < q < w.nextId :: w.eid(p) != w.eid(q)
  }

  ghost predicate Init(w: World) {
    && w.nextId == 1 && w.ring == {} && w.saved == w.file == Head && w.pc == Stopped && w.at == Head && w.since == 1
    && w.acks == Empty() && !w.reader && w.wire == [] && w.replies == []
    && w.taken == {} && w.received == {} && w.skipped == {} && w.evicted == {} && w.beforeHead == {}
  }

  // ---------------------------------------------------------------- the queue

  /** The new item's event identifier is new, unless duplicates are allowed. */
  ghost predicate Put(w: World, v: World, a: Allow) {
    && v == w.(ring := w.ring + {w.nextId}, nextId := w.nextId + 1, eid := v.eid)
    && (forall q | q != w.nextId :: v.eid(q) == w.eid(q))
    && (a.duplicates || forall q | 0 < q < w.nextId :: v.eid(q) != v.eid(w.nextId))
  }

  ghost predicate Oldest(ring: set<nat>, p: nat) {
    p in ring && forall q | q in ring :: p <= q
  }

  ghost predicate NextIn(ring: set<nat>, c: nat, p: nat) {
    p in ring && c < p && forall q | c < q < p :: q !in ring
  }

  ghost predicate Evict(w: World, v: World, q: nat) {
    Oldest(w.ring, q) && v == w.(ring := w.ring - {q})
  }

  /**
   * Queue::Get from here yields item p. At the head it waits for the next item to be put, and so it
   * does with a cursor at or beyond the next identifier; otherwise it goes on behind the cursor's
   * item, or at the oldest when that is not retained.
   */
  ghost predicate Gets(w: World, p: nat) {
    match w.at
    case Head => w.since <= p && p + 1 == w.nextId && p in w.ring
    case After(c) =>
      || (c < w.nextId && if c in w.ring then NextIn(w.ring, c, p) else Oldest(w.ring, p))
      || (c >= p >= w.since && p + 1 == w.nextId && p in w.ring && p !in w.taken)
  }

  /** The identifiers between two. */
  ghost function Between(a: nat, b: nat): (r: set<nat>)
    ensures forall q :: q in r <==> a < q < b
  {
    if b <= a + 1 then {} else Between(a, b - 1) + {b - 1}
  }

  /** The items a read of p passes over are recorded; from the head only those never read before. */
  ghost function Pass(w: World, p: nat): World {
    var u := w.(taken := w.taken + {p});
    if w.at.Head? then u.(beforeHead := w.beforeHead + (Between(0, p) - w.taken))
    else u.(evicted := w.evicted + Between(w.at.id, p))
  }

  // ---------------------------------------------------------------- the sending loop

  /** check_open succeeds; handle_events reads the saved cursor and starts the reader. */
  ghost predicate Connect(w: World, v: World) {
    && w.pc.Stopped?
    && v == w.(pc := Starting, at := w.saved, since := w.nextId, reader := true, wire := [], replies := [])
  }

  /** Nothing has been read yet, or there is a cursor to go on from. */
  ghost predicate SafeToConnect(w: World) {
    w.saved.Head? ==> w.taken == {}
  }

  ghost predicate ResetAcks(w: World, v: World) {
    w.pc.Starting? && v == w.(pc := Idle, acks := Empty())
  }

  ghost predicate TakeFiltered(w: World, v: World, p: nat) {
    && w.pc.Idle? && Gets(w, p)
    && v == Pass(w, p).(pc := Noting(p), at := After(p), skipped := w.skipped + {p})
  }

  /** The event is added to the ack queue before it is sent. */
  ghost predicate TakeToSend(w: World, v: World, p: nat) {
    w.pc.Idle? && Gets(w, p) && v == Pass(w, p).(pc := Sending(p), acks := Added(w.acks, w.eid(p), p))
  }

  ghost predicate WriteOk(w: World, v: World) {
    w.pc.Sending? && v == w.(pc := Idle, wire := w.wire + [w.pc.p], at := After(w.pc.p))
  }

  /** WriteEvent fails, possibly after the event went out. */
  ghost predicate WriteFails(w: World, v: World) {
    w.pc.Sending? && (v == w.(pc := Ending) || v == w.(pc := Ending, wire := w.wire + [w.pc.p]))
  }

  ghost predicate WriteNoop(w: World, v: World) {
    w.pc.Sending? && v == w.(pc := Undoing(w.pc.p), skipped := w.skipped + {w.pc.p})
  }

  ghost predicate RemoveAck(w: World, v: World) {
    w.pc.Undoing? && v == w.(pc := Noting(w.pc.p), acks := Removed(w.acks, w.eid(w.pc.p)))
  }

  ghost predicate NoteAuto(w: World, v: World) {
    w.pc.Noting? && v == w.(pc := Idle, acks := AutoSet(w.acks, w.pc.p), at := After(w.pc.p))
  }

  ghost predicate LeaveLoop(w: World, v: World) {
    w.pc.Idle? && v == w.(pc := Ending)
  }

  ghost predicate Disconnect(w: World, v: World) {
    w.pc.Ending? && !w.reader && v == w.(pc := Stopped)
  }

  // ---------------------------------------------------------------- the receiver

  ghost predicate Receive(w: World, v: World) {
    w.wire != [] && v == w.(wire := w.wire[1..], received := w.received + {w.wire[0]})
  }

  /** The receiver acknowledges only what it has received, in any order and any number of times. */
  ghost predicate Reply(w: World, v: World, p: nat) {
    p in w.received && v == w.(replies := w.replies + [w.eid(p)])
  }

  // ---------------------------------------------------------------- AckReader::run, CursorWriter

  ghost predicate HandleAck(w: World, v: World) {
    && w.reader && w.replies != []
    && var r := Acked(w.acks, w.replies[0]);
       v == w.(replies := w.replies[1..], acks := r.0, saved := if r.1.Some? then After(r.1.value) else w.saved)
  }

  /** The connection is lost: a pending auto cursor is saved, whatever is outstanding. */
  ghost predicate ReaderExits(w: World, v: World) {
    && w.reader
    && v == w.(reader := false, acks := w.acks.(auto := None),
               saved := if w.acks.auto.Some? then After(w.acks.auto.value.cursor) else w.saved)
  }

  ghost predicate WriteCursor(w: World, v: World) {
    v == w.(file := w.saved)
  }

  ghost function Below(s: set<nat>, n: nat): (r: set<nat>)
    ensures forall q :: q in r <==> q in s && q < n
  {
    set q | q in s && q < n
  }

  /**
   * The process is started again, after a stop or a crash: it reads the cursor file, and the queue
   * file as some save left it, with next identifier n. Items from n on are lost with the crash, and
   * their identifiers will be given out again.
   */
  ghost predicate Restart(w: World, v: World, n: nat) {
    && 0 < n <= w.nextId && (forall q | q in v.ring :: 0 < q < n)
    && v == w.(pc := Stopped, reader := false, saved := w.file, acks := Empty(), wire := [], replies := [],
               ring := v.ring, nextId := n, taken := Below(w.taken, n), received := Below(w.received, n),
               skipped := Below(w.skipped, n), evicted := Below(w.evicted, n), beforeHead := Below(w.beforeHead, n))
  }

  /** The cursor file names an item the queue still knows of. */
  ghost predicate SafeToRestart(w: World, n: nat) {
    w.file.After? ==> w.file.id < n
  }

  /** When an auto cursor may be saved at the end of a connection: nothing as old is outstanding. */
  ghost predicate SafeToExit(w: World) {
    w.acks.auto.Some? ==> AutoReady(w.acks)
  }

  ghost predicate SenderStep(w: World, v: World, p: nat, a: Allow) {
    || ((a.headAgain || SafeToConnect(w)) && Connect(w, v)) || ResetAcks(w, v)
    || TakeFiltered(w, v, p) || TakeToSend(w, v, p)
    || WriteOk(w, v) || WriteFails(w, v) || WriteNoop(w, v) || RemoveAck(w, v) || NoteAuto(w, v)
    || LeaveLoop(w, v) || Disconnect(w, v)
  }

  ghost predicate OtherStep(w: World, v: World, p: nat, a: Allow) {
    || Put(w, v, a) || Evict(w, v, p) || Receive(w, v) || Reply(w, v, p) || HandleAck(w, v)
    || ((a.unsafeExit || SafeToExit(w)) && ReaderExits(w, v)) || WriteCursor(w, v)
    || ((a.rollback || SafeToRestart(w, p)) && Restart(w, v, p))
  }

  ghost predicate Step(w: World, v: World, p: nat, a: Allow) {
    SenderStep(w, v, p, a) || OtherStep(w, v, p, a)
  }

  ghost predicate Next(w: World, v: World, a: Allow) {
    exists p: nat :: Step(w, v, p, a)
  }

  /** None of the four. */
  ghost predicate Strict(a: Allow) {
    !a.duplicates && !a.unsafeExit && !a.headAgain && !a.rollback
  }

  // ---------------------------------------------------------------- the invariant

  /** The newest item the loop has taken or is working on. */
  ghost function Front(w: World): Place {
    match w.pc
    case Sending(p) => After(p)
    case Undoing(p) => After(p)
    case Noting(p) => After(p)
    case _ => w.at
  }

  ghost predicate UpTo(q: nat, c: Place) {
    c.After? && q <= c.id
  }

  /** Entry s of the ack queue is about the item its cursor names, and that item has been taken. */
  ghost predicate EntryOk(w: World, s: nat)
    requires s in w.acks.cursors
  {
    0 < w.acks.cursors[s].cursor < w.nextId && w.acks.cursors[s].event == w.eid(w.acks.cursors[s].cursor)
  }

  /** Entries are in queue order. */
  ghost predicate InOrder(a: Acks<nat>) {
    forall s, t | s in a.cursors && t in a.cursors && s < t :: a.cursors[s].cursor < a.cursors[t].cursor
  }

  /** Item q is settled or some entry, older than sequence number n, is waiting for it. */
  ghost predicate Accounted(w: World, q: nat, n: nat) {
    Settled(w, q) || exists s | s in w.acks.cursors :: s < n && w.acks.cursors[s].cursor == q
  }

  /** Item q is settled or on the wire before position i. */
  ghost predicate SettledOrAhead(w: World, q: nat, i: nat)
    requires i <= |w.wire|
  {
    Settled(w, q) || q in w.wire[..i]
  }

  /** An acknowledgement of a received item. */
  ghost predicate Echo(w: World, e: EventId) {
    exists p | p in w.received :: 0 < p && w.eid(p) == e
  }

  ghost predicate RingOk(w: World) {
    && 0 < w.nextId && (forall q | q in w.ring :: 0 < q < w.nextId)
    && (forall q | q in w.received || q in w.skipped || q in w.evicted || q in w.beforeHead || q in w.taken :: q < w.nextId)
    && (forall i | 0 <= i < |w.wire| :: w.wire[i] < w.nextId)
    && Issued(w, w.saved) && Issued(w, w.file)
    && (!w.pc.Stopped? ==> Issued(w, Front(w)) && w.since <= w.nextId)
    && (w.acks.auto.Some? ==> w.acks.auto.value.cursor < w.nextId)
    && Distinct(w)
  }

  /** The cursor names an identifier that has been given out. */
  ghost predicate Issued(w: World, c: Place) {
    c.After? ==> c.id < w.nextId
  }

  /**
   * A loop at the head has read nothing before. A loop behind an item has that item's successors in
   * front of it, unless it has not read anything in this connection yet.
   */
  ghost predicate LoopOk(w: World) {
    && (w.at.Head? && (w.pc.Starting? || w.pc.Idle?) ==> w.taken == {})
    && (!w.pc.Stopped? && w.at.After? && w.since <= w.at.id ==> w.at.id in w.taken)
    && (w.pc.Sending? || w.pc.Undoing? || w.pc.Noting? ==> w.pc.p in w.taken)
    && (Working(w) && Front(w).After? ==> Ahead(w.ring, Front(w).id) || (w.pc.Idle? && w.acks == Empty()) || w.pc.Ending?)
  }

  ghost predicate Ahead(ring: set<nat>, c: nat) {
    c in ring || forall r | r in ring :: c < r
  }

  ghost predicate Working(w: World) {
    !w.pc.Stopped? && !w.pc.Starting?
  }

  /** What has been received, saved or written to the cursor file has nothing unsettled before it. */
  ghost predicate PrefixesOk(w: World) {
    && Covered(w, w.saved) && Covered(w, w.file)
    && forall p | p in w.received :: 0 < p && Covered(w, After(p))
  }

  ghost predicate WireOk(w: World) {
    && (w.pc.Sending? ==> 0 < w.pc.p) && (forall i | 0 <= i < |w.wire| :: 0 < w.wire[i])
    && (forall i | 0 <= i < |w.wire| :: forall q | 0 < q < w.wire[i] :: SettledOrAhead(w, q, i))
    && (w.pc.Idle? || w.pc.Noting? || w.pc.Undoing? || w.pc.Sending? ==>
          forall q | 0 < q && UpTo(q, Front(w)) && !(w.pc.Sending? && q == w.pc.p) :: SettledOrAhead(w, q, |w.wire|))
    && (w.pc.Starting? ==> w.wire == [] && Covered(w, w.at))
  }

  ghost predicate AcksOk(w: World) {
    && Consistent(w.acks) && InOrder(w.acks)
    && (forall s | s in w.acks.cursors :: EntryOk(w, s))
    && (Working(w) && !w.pc.Ending? ==> forall s | s in w.acks.cursors :: UpTo(w.acks.cursors[s].cursor, Front(w)))
    && (Working(w) && !w.pc.Ending? ==> forall q | 0 < q && UpTo(q, Front(w)) :: Accounted(w, q, w.acks.nextSeq))
    && (w.acks.auto.Some? ==> forall q | 0 < q <= w.acks.auto.value.cursor :: Accounted(w, q, w.acks.auto.value.num))
    && (w.acks.auto.Some? ==> forall s | s in w.acks.cursors && s < w.acks.auto.value.num ::
                                w.acks.cursors[s].cursor <= w.acks.auto.value.cursor)
    && (forall i | 0 <= i < |w.replies| :: Echo(w, w.replies[i]))
    && (w.pc.Undoing? ==> w.pc.p in w.skipped)
    && (w.pc.Noting? ==> w.pc.p in w.skipped)
  }

  ghost predicate Places(w: World) {
    RingOk(w) && LoopOk(w)
  }

  ghost predicate Books(w: World) {
    PrefixesOk(w) && WireOk(w) && AcksOk(w)
  }

  ghost predicate Inv(w: World) {
    Places(w) && Books(w)
  }

  /** Nothing settled becomes unsettled. */
  ghost predicate Grows(w: World, v: World) {
    w.received <= v.received && w.skipped <= v.skipped && w.evicted <= v.evicted && w.beforeHead <= v.beforeHead
  }

  lemma CoveredGrows(w: World, v: World, c: Place)
    requires Covered(w, c) && Grows(w, v)
    ensures Covered(v, c)
  {
    if c.After? {
      forall q | 0 < q <= c.id ensures Settled(v, q) { assert Settled(w, q); }
    }
  }

  lemma PrefixesGrow(w: World, v: World)
    requires PrefixesOk(w) && Grows(w, v) && v.received == w.received && v.saved == w.saved && v.file == w.file
    ensures PrefixesOk(v)
  {
    forall p | p in v.received ensures Covered(v, After(p)) { CoveredGrows(w, v, After(p)); }
    CoveredGrows(w, v, w.saved);
    CoveredGrows(w, v, w.file);
  }

  lemma WireGrows(w: World, v: World)
    requires WireOk(w) && Grows(w, v) && v.wire == w.wire && v.pc == w.pc && v.at == w.at
    ensures WireOk(v)
  {
    if w.pc.Starting? { CoveredGrows(w, v, w.at); }
    forall i, q | 0 <= i < |v.wire| && 0 < q < v.wire[i] ensures SettledOrAhead(v, q, i) {
      assert SettledOrAhead(w, q, i);
    }
    forall q | 0 < q && SettledOrAhead(w, q, |w.wire|) ensures SettledOrAhead(v, q, |v.wire|) {}
  }

  lemma AccountedGrows(w: World, v: World, q: nat, n: nat)
    requires Accounted(w, q, n) && Grows(w, v) && v.acks.cursors == w.acks.cursors
    ensures Accounted(v, q, n)
  {
  }

  lemma AcksGrow(w: World, v: World)
    requires AcksOk(w) && Grows(w, v) && v.acks == w.acks && v.pc == w.pc && v.at == w.at && v.replies == w.replies
    requires v.nextId == w.nextId && v.eid == w.eid
    ensures AcksOk(v)
  {
    forall s | s in v.acks.cursors ensures EntryOk(v, s) { assert EntryOk(w, s); }
    forall q, n | Accounted(w, q, n) ensures Accounted(v, q, n) { AccountedGrows(w, v, q, n); }
    forall i | 0 <= i < |v.replies| ensures Echo(v, v.replies[i]) {
      assert Echo(w, w.replies[i]);
    }
  }

  lemma AllGrow(w: World, v: World)
    requires PrefixesOk(w) && WireOk(w) && AcksOk(w) && Grows(w, v) && v.received == w.received
    requires v.saved == w.saved && v.file == w.file && v.wire == w.wire && v.pc == w.pc && v.at == w.at
    requires v.acks == w.acks && v.replies == w.replies && v.nextId == w.nextId && v.eid == w.eid
    ensures Books(v)
  {
    PrefixesGrow(w, v);
    WireGrows(w, v);
    AcksGrow(w, v);
  }

  // ---------------------------------------------------------------- the queue and the receiver

  lemma EvictKeepsInv(w: World, v: World, p: nat)
    requires Inv(w) && Evict(w, v, p)
    ensures Books(v)
  {
    AllGrow(w, v);
  }

  lemma PutKeepsInv(w: World, v: World, a: Allow)
    requires Inv(w) && Put(w, v, a)
    ensures Books(v)
  {
    hide Consistent, InOrder, Settled;
    PrefixesGrow(w, v);
    WireGrows(w, v);
    forall s | s in v.acks.cursors ensures EntryOk(v, s) { assert EntryOk(w, s); }
    forall q, n | Accounted(w, q, n) ensures Accounted(v, q, n) { AccountedGrows(w, v, q, n); }
    forall i | 0 <= i < |v.replies| ensures Echo(v, v.replies[i]) { assert Echo(w, w.replies[i]); }
  }

  lemma WriteCursorKeepsInv(w: World, v: World)
    requires Inv(w) && WriteCursor(w, v)
    ensures Books(v)
  {
    AllGrow(w, v.(file := w.file));
    WireGrows(w, v);
    AcksGrow(w, v);
    forall p | p in v.received ensures Covered(v, After(p)) { CoveredGrows(w, v, After(p)); }
    CoveredGrows(w, v, w.saved);
  }

  /** The head of the wire has everything before it settled, so receiving it leaves no gap behind. */
  lemma ReceiveKeepsInv(w: World, v: World)
    requires Inv(w) && Receive(w, v)
    ensures Books(v)
  {
    var p := w.wire[0];
    AcksGrow(w, v);
    forall q | 0 < q <= p ensures Settled(v, q) {
      if q < p { assert SettledOrAhead(w, q, 0); }
    }
    forall r | r in v.received ensures Covered(v, After(r)) {
      if r != p { CoveredGrows(w, v, After(r)); }
    }
    CoveredGrows(w, v, w.saved);
    CoveredGrows(w, v, w.file);
    forall q: nat, i: nat | 0 < q && i < |w.wire| && SettledOrAhead(w, q, i + 1) ensures SettledOrAhead(v, q, i) {
      assert w.wire[..i + 1] == [p] + v.wire[..i];
    }
    forall i, q | 0 <= i < |v.wire| && 0 < q < v.wire[i] ensures SettledOrAhead(v, q, i) {
      assert SettledOrAhead(w, q, i + 1);
    }
  }

  lemma ReplyKeepsInv(w: World, v: World, p: nat)
    requires Inv(w) && Reply(w, v, p)
    ensures Books(v)
  {
    var u := v.(replies := w.replies);
    AllGrow(w, u);
    PrefixesGrow(w, v);
    WireGrows(w, v);
    forall s | s in v.acks.cursors ensures EntryOk(v, s) { assert EntryOk(w, s); }
    forall q, n | Accounted(w, q, n) ensures Accounted(v, q, n) { AccountedGrows(w, v, q, n); }
    forall i | 0 <= i < |v.replies| ensures Echo(v, v.replies[i]) {
      if i < |w.replies| { assert Echo(w, w.replies[i]); }
    }
  }

  // ---------------------------------------------------------------- the sending loop

  lemma ConnectKeepsInv(w: World, v: World)
    requires Inv(w) && Connect(w, v)
    ensures Books(v)
  {
    PrefixesGrow(w, v);
    CoveredGrows(w, v, w.saved);
    forall s | s in v.acks.cursors ensures EntryOk(v, s) { assert EntryOk(w, s); }
    forall q, n | Accounted(w, q, n) ensures Accounted(v, q, n) { AccountedGrows(w, v, q, n); }
  }

  lemma ResetAcksKeepsInv(w: World, v: World)
    requires Inv(w) && ResetAcks(w, v)
    ensures Books(v)
  {
    PrefixesGrow(w, v);
    CoveredGrows(w, v, w.at);
    forall q | 0 < q && UpTo(q, v.at) ensures Settled(v, q) {}
  }

  /** After a read of p every earlier item is settled, on the wire, and waited for by some entry or settled. */
  lemma PassCovers(w: World, p: nat)
    requires Inv(w) && w.pc.Idle? && Gets(w, p)
    ensures Books(Pass(w, p))
    ensures forall q | 0 < q < p ::
              SettledOrAhead(Pass(w, p), q, |w.wire|) && Accounted(Pass(w, p), q, w.acks.nextSeq)
    ensures forall s | s in w.acks.cursors :: w.acks.cursors[s].cursor < p
  {
    var u := Pass(w, p);
    AllGrow(w, u);
    forall q | 0 < q < p
      ensures SettledOrAhead(u, q, |w.wire|) && Accounted(u, q, w.acks.nextSeq)
    {
      if w.at.After? && q <= w.at.id {
        assert UpTo(q, Front(u));
      } else {
        assert Settled(u, q);
      }
    }
    forall s | s in w.acks.cursors ensures w.acks.cursors[s].cursor < p {
      assert UpTo(w.acks.cursors[s].cursor, Front(w));
    }
  }

  lemma TakeFilteredKeepsInv(w: World, v: World, p: nat)
    requires Inv(w) && TakeFiltered(w, v, p)
    ensures Books(v)
  {
    hide PrefixesOk, WireOk, AcksOk, SettledOrAhead, Accounted;
    PassCovers(w, p);
    var u := Pass(w, p);
    var x := u.(skipped := v.skipped);
    AllGrow(u, x);
    PrefixesGrow(x, v);
    forall q | 0 < q < p ensures SettledOrAhead(x, q, |x.wire|) && Accounted(x, q, x.acks.nextSeq) {
      AheadGrows(u, x, q, |w.wire|);
      AccountedGrows(u, x, q, w.acks.nextSeq);
    }
    NotingWireOk(x, v, p);
    NotingAcksOk(x, v, p);
  }

  lemma NotingWireOk(x: World, v: World, p: nat)
    requires WireOk(x) && p in x.skipped && v == x.(pc := Noting(p), at := After(p))
    requires forall q | 0 < q < p :: SettledOrAhead(x, q, |x.wire|)
    ensures WireOk(v)
  {
    forall i, q | 0 <= i < |v.wire| && 0 < q < v.wire[i] ensures SettledOrAhead(v, q, i) {
      AheadGrows(x, v, q, i);
    }
    forall q | 0 < q <= p ensures SettledOrAhead(v, q, |v.wire|) {
      if q < p { AheadGrows(x, v, q, |v.wire|); }
    }
  }

  lemma NotingAcksOk(x: World, v: World, p: nat)
    requires AcksOk(x) && p in x.skipped && v == x.(pc := Noting(p), at := After(p))
    requires forall q | 0 < q < p :: Accounted(x, q, x.acks.nextSeq)
    requires forall s | s in x.acks.cursors :: x.acks.cursors[s].cursor < p
    ensures AcksOk(v)
  {
    hide Consistent, InOrder;
    forall q, n | Accounted(x, q, n) ensures Accounted(v, q, n) { AccountedGrows(x, v, q, n); }
    forall s | s in v.acks.cursors ensures EntryOk(v, s) { assert EntryOk(x, s); }
    forall i | 0 <= i < |v.replies| ensures Echo(v, v.replies[i]) { assert Echo(x, x.replies[i]); }
  }

  lemma TakeToSendKeepsInv(w: World, v: World, p: nat)
    requires Inv(w) && TakeToSend(w, v, p)
    ensures Books(v)
  {
    hide AcksOk, PrefixesOk, Accounted, Settled;
    PassCovers(w, p);
    var u := Pass(w, p);
    PrefixesGrow(u, v);
    TakeToSendAcksOk(u, v, p);
    forall i, q | 0 <= i < |v.wire| && 0 < q < v.wire[i] ensures SettledOrAhead(v, q, i) {
      assert SettledOrAhead(u, q, i);
      AheadGrows(u, v, q, i);
    }
    forall q | 0 < q < p ensures SettledOrAhead(v, q, |v.wire|) {
      assert SettledOrAhead(u, q, |w.wire|);
      AheadGrows(u, v, q, |w.wire|);
    }
  }

  lemma AheadGrows(u: World, v: World, q: nat, i: nat)
    requires i <= |u.wire| && SettledOrAhead(u, q, i) && Grows(u, v) && u.wire == v.wire
    ensures SettledOrAhead(v, q, i)
  {
  }

  lemma TakeToSendAcksOk(u: World, v: World, p: nat)
    requires AcksOk(u) && 0 < p < u.nextId && u.pc.Idle? && v == u.(pc := Sending(p), acks := Added(u.acks, u.eid(p), p))
    requires forall q | 0 < q < p :: Accounted(u, q, u.acks.nextSeq)
    requires forall s | s in u.acks.cursors :: u.acks.cursors[s].cursor < p
    ensures AcksOk(v)
  {
    hide Consistent, Settled;
    AddKeepsConsistent(u.acks, u.eid(p), p);
    AddedEntries(u, v, p);
    AddedAccounts(u, v, p, u.eid(p));
    forall q | 0 < q <= p ensures Accounted(v, q, v.acks.nextSeq) {
      if q < p { assert Accounted(u, q, u.acks.nextSeq); } else { assert v.acks.cursors[u.acks.nextSeq].cursor == p; }
    }
  }

  lemma AddedEntries(u: World, v: World, p: nat)
    requires AcksOk(u) && 0 < p < u.nextId && v == u.(pc := Sending(p), acks := Added(u.acks, u.eid(p), p))
    requires forall s | s in u.acks.cursors :: u.acks.cursors[s].cursor < p
    ensures InOrder(v.acks) && v.acks.auto == u.acks.auto && v.acks.cursors[u.acks.nextSeq].cursor == p
    ensures forall s | s in v.acks.cursors :: EntryOk(v, s) && v.acks.cursors[s].cursor <= p
    ensures v.acks.auto.Some? ==> forall s | s in v.acks.cursors && s < v.acks.auto.value.num ::
                                    v.acks.cursors[s].cursor <= v.acks.auto.value.cursor
    ensures forall i | 0 <= i < |v.replies| :: Echo(v, v.replies[i])
  {
    forall s | s in v.acks.cursors ensures EntryOk(v, s) {
      if s != u.acks.nextSeq { assert EntryOk(u, s); }
    }
    forall i | 0 <= i < |v.replies| ensures Echo(v, v.replies[i]) { assert Echo(u, u.replies[i]); }
  }

  lemma AddedAccounts(u: World, v: World, p: nat, e: EventId)
    requires Consistent(u.acks) && v.acks == Added(u.acks, e, p) && Grows(u, v)
    ensures forall q: nat, n: nat | Accounted(u, q, n) && n <= u.acks.nextSeq ::
              Accounted(v, q, n) && Accounted(v, q, v.acks.nextSeq)
  {
    forall q: nat, n: nat | Accounted(u, q, n) && n <= u.acks.nextSeq ensures Accounted(v, q, n) && Accounted(v, q, v.acks.nextSeq) {
      if !Settled(u, q) {
        var s :| s in u.acks.cursors && s < n && u.acks.cursors[s].cursor == q;
        assert s in v.acks.cursors && v.acks.cursors[s].cursor == q;
      }
    }
  }

  lemma WriteKeepsInv(w: World, v: World)
    requires Inv(w) && (WriteOk(w, v) || WriteFails(w, v))
    ensures Books(v)
  {
    hide PrefixesOk, WireOk, AcksOk;
    PrefixesGrow(w, v);
    WriteWireOk(w, v);
    WriteAcksOk(w, v);
  }

  lemma WriteAcksOk(w: World, v: World)
    requires AcksOk(w) && (WriteOk(w, v) || WriteFails(w, v))
    ensures AcksOk(v)
  {
    hide Consistent, InOrder;
    forall s | s in v.acks.cursors ensures EntryOk(v, s) { assert EntryOk(w, s); }
    forall q, n | Accounted(w, q, n) ensures Accounted(v, q, n) { AccountedGrows(w, v, q, n); }
    forall i | 0 <= i < |v.replies| ensures Echo(v, v.replies[i]) { assert Echo(w, w.replies[i]); }
  }

  lemma WriteWireOk(w: World, v: World)
    requires WireOk(w) && (WriteOk(w, v) || WriteFails(w, v))
    ensures WireOk(v)
  {
    hide Covered;
    var p := w.pc.p;
    forall i, q | 0 <= i < |v.wire| && 0 < q < v.wire[i] ensures SettledOrAhead(v, q, i) {
      if i < |w.wire| {
        assert SettledOrAhead(w, q, i);
        assert v.wire[..i] == w.wire[..i];
      } else {
        assert UpTo(q, Front(w)) && SettledOrAhead(w, q, |w.wire|);
        assert v.wire[..i] == w.wire[..|w.wire|];
      }
    }
    forall q | 0 < q && UpTo(q, After(p)) && v.pc.Idle? ensures SettledOrAhead(v, q, |v.wire|) {
      if q != p {
        assert UpTo(q, Front(w)) && SettledOrAhead(w, q, |w.wire|);
        assert v.wire[..|v.wire|] == w.wire[..|w.wire|] + [p];
      } else {
        assert v.wire[|w.wire|] == p;
      }
    }
  }

  lemma WriteNoopKeepsInv(w: World, v: World)
    requires Inv(w) && WriteNoop(w, v)
    ensures Books(v)
  {
    var u := w.(skipped := v.skipped);
    AllGrow(w, u);
    PrefixesGrow(w, v);
    forall i, q | 0 <= i < |v.wire| && 0 < q < v.wire[i] ensures SettledOrAhead(v, q, i) {
      assert SettledOrAhead(u, q, i);
    }
    forall q | 0 < q && UpTo(q, Front(v)) ensures SettledOrAhead(v, q, |v.wire|) && Accounted(v, q, v.acks.nextSeq) {
      if q != w.pc.p { assert SettledOrAhead(u, q, |u.wire|) && Accounted(u, q, u.acks.nextSeq); }
    }
    forall s | s in v.acks.cursors ensures EntryOk(v, s) && UpTo(v.acks.cursors[s].cursor, Front(v)) {
      assert EntryOk(u, s) && UpTo(u.acks.cursors[s].cursor, Front(u));
    }
    forall q, n | Accounted(u, q, n) ensures Accounted(v, q, n) { AccountedGrows(u, v, q, n); }
    forall i | 0 <= i < |v.replies| ensures Echo(v, v.replies[i]) { assert Echo(u, u.replies[i]); }
  }

  /** Taking back the entry of a NOOP event: its own, because identifiers are distinct. */
  lemma RemoveAckKeepsInv(w: World, v: World)
    requires Inv(w) && RemoveAck(w, v)
    ensures Books(v)
  {
    var p := w.pc.p;
    PrefixesGrow(w, v);
    RemoveAcksOk(w, v);
    forall i, q | 0 <= i < |v.wire| && 0 < q < v.wire[i] ensures SettledOrAhead(v, q, i) { assert SettledOrAhead(w, q, i); }
    forall q | 0 < q && UpTo(q, Front(v)) ensures SettledOrAhead(v, q, |v.wire|) { assert SettledOrAhead(w, q, |w.wire|); }
  }

  lemma RemoveAcksOk(w: World, v: World)
    requires RingOk(w) && AcksOk(w) && RemoveAck(w, v)
    ensures AcksOk(v)
  {
    var p := w.pc.p;
    AddKeepsConsistent(w.acks, w.eid(p), p);
    forall s | s in v.acks.cursors ensures EntryOk(v, s) && UpTo(v.acks.cursors[s].cursor, Front(v)) {
      assert EntryOk(w, s) && UpTo(w.acks.cursors[s].cursor, Front(w));
    }
    forall q: nat, n: nat | Accounted(w, q, n) ensures Accounted(v, q, n) {
      RemoveKeepsAccount(w, v, q, n);
    }
    forall i | 0 <= i < |v.replies| ensures Echo(v, v.replies[i]) { assert Echo(w, w.replies[i]); }
  }

  lemma RemoveKeepsAccount(w: World, v: World, q: nat, n: nat)
    requires RingOk(w) && AcksOk(w) && RemoveAck(w, v) && Accounted(w, q, n)
    ensures Accounted(v, q, n)
  {
    if Settled(w, q) {
      assert Settled(v, q);
    } else {
      var s :| s in w.acks.cursors && s < n && w.acks.cursors[s].cursor == q;
      assert EntryOk(w, s) && q != w.pc.p;
      assert w.eid(q) != w.eid(w.pc.p);
      assert s in v.acks.cursors && v.acks.cursors[s].cursor == q;
    }
  }

  lemma NoteAutoKeepsInv(w: World, v: World)
    requires Inv(w) && NoteAuto(w, v)
    ensures Books(v)
  {
    PrefixesGrow(w, v);
    AddKeepsConsistent(w.acks, w.eid(w.pc.p), w.pc.p);
    forall i, q | 0 <= i < |v.wire| && 0 < q < v.wire[i] ensures SettledOrAhead(v, q, i) { assert SettledOrAhead(w, q, i); }
    forall q | 0 < q && UpTo(q, Front(v)) ensures SettledOrAhead(v, q, |v.wire|) && Accounted(v, q, w.acks.nextSeq) {
      assert UpTo(q, Front(w)) && SettledOrAhead(w, q, |w.wire|) && Accounted(w, q, w.acks.nextSeq);
      AccountedGrows(w, v, q, w.acks.nextSeq);
    }
    forall q | Accounted(v, q, w.acks.nextSeq) ensures Accounted(v, q, v.acks.nextSeq) {}
    forall s | s in v.acks.cursors ensures EntryOk(v, s) && UpTo(v.acks.cursors[s].cursor, Front(v)) {
      assert EntryOk(w, s) && UpTo(w.acks.cursors[s].cursor, Front(w));
    }
    forall i | 0 <= i < |v.replies| ensures Echo(v, v.replies[i]) { assert Echo(w, w.replies[i]); }
  }

  lemma LeaveKeepsInv(w: World, v: World)
    requires Inv(w) && (LeaveLoop(w, v) || Disconnect(w, v))
    ensures Books(v)
  {
    PrefixesGrow(w, v);
    forall i, q | 0 <= i < |v.wire| && 0 < q < v.wire[i] ensures SettledOrAhead(v, q, i) { assert SettledOrAhead(w, q, i); }
    forall s | s in v.acks.cursors ensures EntryOk(v, s) { assert EntryOk(w, s); }
    forall q, n | Accounted(w, q, n) ensures Accounted(v, q, n) { AccountedGrows(w, v, q, n); }
    forall i | 0 <= i < |v.replies| ensures Echo(v, v.replies[i]) { assert Echo(w, w.replies[i]); }
  }

  // ---------------------------------------------------------------- acknowledgements

  /** The entry an acknowledgement finds is for an item that was received: identifiers are distinct. */
  lemma FoundEntryReceived(w: World, i: nat)
    requires RingOk(w) && AcksOk(w) && i < |w.replies| && w.replies[i] in w.acks.ids
    ensures w.acks.ids[w.replies[i]] in w.acks.cursors
    ensures w.acks.cursors[w.acks.ids[w.replies[i]]].cursor in w.received
  {
    var e := w.replies[i];
    assert Echo(w, e);
    var p :| p in w.received && 0 < p && w.eid(p) == e;
    var s := w.acks.ids[e];
    assert EntryOk(w, s);
    assert w.eid(w.acks.cursors[s].cursor) == w.eid(p);
  }

  /** Clearing everything up to a received item's entry leaves every item accounted for. */
  lemma ClearKeepsAccounts(w: World, s: nat, e: EventId, q: nat, n: nat)
    requires InOrder(w.acks) && s in w.acks.cursors && Covered(w, After(w.acks.cursors[s].cursor))
    requires 0 < q && Accounted(w, q, n)
    ensures Accounted(w.(acks := Cleared(w.acks, e, s)), q, n)
  {
    var v := w.(acks := Cleared(w.acks, e, s));
    if Settled(w, q) {
      assert Settled(v, q);
    } else {
      var t :| t in w.acks.cursors && t < n && w.acks.cursors[t].cursor == q;
      assert t > s;
      assert t in v.acks.cursors && v.acks.cursors[t].cursor == q;
    }
  }

  /** When nothing as old as the auto cursor is outstanding, everything up to it is settled. */
  lemma ReadyAutoIsCovered(w: World)
    requires AutoReady(w.acks)
    requires forall q | 0 < q <= w.acks.auto.value.cursor :: Accounted(w, q, w.acks.auto.value.num)
    ensures Covered(w, After(w.acks.auto.value.cursor))
  {
    forall q | 0 < q <= w.acks.auto.value.cursor ensures Settled(w, q) {
      assert Accounted(w, q, w.acks.auto.value.num);
    }
  }

  /** Changing only the tables: all of the invariant but the tables' own part stays. */
  lemma TablesOnly(w: World, v: World)
    requires PrefixesOk(w) && WireOk(w) && v == w.(acks := v.acks, replies := v.replies)
    ensures PrefixesOk(v) && WireOk(v)
  {
    PrefixesGrow(w, v);
    WireGrows(w, v);
  }

  lemma ClearKeepsAcksOk(w: World, e: EventId)
    requires Inv(w) && e in w.acks.ids && w.acks.ids[e] in w.acks.cursors
    requires w.acks.cursors[w.acks.ids[e]].cursor in w.received
    ensures AcksOk(w.(acks := Cleared(w.acks, e, w.acks.ids[e])))
  {
    var s := w.acks.ids[e];
    var v := w.(acks := Cleared(w.acks, e, s));
    assert Consistent(v.acks) by { ClearKeepsConsistent(w.acks, e); }
    assert Covered(w, After(w.acks.cursors[s].cursor));
    forall t | t in v.acks.cursors ensures EntryOk(v, t) { assert EntryOk(w, t); }
    forall q: nat, n: nat | 0 < q && Accounted(w, q, n) ensures Accounted(v, q, n) { ClearKeepsAccounts(w, s, e, q, n); }
    forall i | 0 <= i < |v.replies| ensures Echo(v, v.replies[i]) { assert Echo(w, w.replies[i]); }
  }

  lemma ClearKeepsConsistent(a: Acks<nat>, e: EventId)
    requires Consistent(a) && e in a.ids
    ensures Consistent(Cleared(a, e, a.ids[e]))
  {
    var b := Cleared(a, e, a.ids[e]);
    forall f | f in b.ids ensures b.ids[f] in b.cursors && b.cursors[b.ids[f]].event == f {
      assert !ListedUpTo(a, f, a.ids[e]);
      assert a.ids[f] in a.cursors;
    }
  }

  lemma DropReply(w: World)
    requires Books(w) && w.replies != []
    ensures Books(w.(replies := w.replies[1..]))
  {
    var v := w.(replies := w.replies[1..]);
    TablesOnly(w, v);
    forall s | s in v.acks.cursors ensures EntryOk(v, s) { assert EntryOk(w, s); }
    forall q, n | Accounted(w, q, n) ensures Accounted(v, q, n) { AccountedGrows(w, v, q, n); }
    forall i | 0 <= i < |v.replies| ensures Echo(v, v.replies[i]) {
      assert Echo(w, w.replies[i + 1]);
    }
  }

  /** Saving a covered cursor, and perhaps taking the auto cursor. */
  lemma SaveKeepsInv(w: World, v: World)
    requires Books(w) && v == w.(saved := v.saved, reader := v.reader, acks := v.acks)
    requires v.acks == w.acks || v.acks == w.acks.(auto := None)
    requires Covered(w, v.saved)
    ensures Books(v)
  {
    WireGrows(w, v);
    forall p | p in v.received ensures Covered(v, After(p)) { CoveredGrows(w, v, After(p)); }
    CoveredGrows(w, v, v.saved);
    CoveredGrows(w, v, w.file);
    forall s | s in v.acks.cursors ensures EntryOk(v, s) { assert EntryOk(w, s); }
    forall q, n | Accounted(w, q, n) ensures Accounted(v, q, n) { AccountedGrows(w, v, q, n); }
    forall i | 0 <= i < |v.replies| ensures Echo(v, v.replies[i]) { assert Echo(w, w.replies[i]); }
  }

  lemma HandleAckKeepsInv(w: World, v: World)
    requires Inv(w) && HandleAck(w, v)
    ensures Books(v)
  {
    var e := w.replies[0];
    var x := w;
    if e in w.acks.ids {
      FoundEntryReceived(w, 0);
      ClearKeepsAcksOk(w, e);
      x := w.(acks := Cleared(w.acks, e, w.acks.ids[e]));
      TablesOnly(w, x);
    }
    DropReply(x);
    var y := x.(replies := w.replies[1..]);
    if AutoReady(y.acks) { ReadyAutoIsCovered(y); }
    if e in w.acks.ids { CoveredGrows(w, y, After(w.acks.cursors[w.acks.ids[e]].cursor)); }
    SaveKeepsInv(y, v);
  }

  lemma ReaderExitKeepsInv(w: World, v: World)
    requires Inv(w) && SafeToExit(w) && ReaderExits(w, v)
    ensures Books(v)
  {
    if w.acks.auto.Some? { ReadyAutoIsCovered(w); }
    SaveKeepsInv(w, v);
  }

  lemma RestartKeepsInv(w: World, v: World, n: nat)
    requires Inv(w) && Restart(w, v, n) && SafeToRestart(w, n)
    ensures Books(v)
  {
    forall q: nat | Settled(w, q) && q < n ensures Settled(v, q) {}
    forall p | p in v.received ensures Covered(v, After(p)) {
      assert Covered(w, After(p));
    }
    assert Covered(w, w.file);
  }

  // ---------------------------------------------------------------- where the loop stands

  lemma ConnectKeepsPlaces(w: World, v: World)
    requires Places(w) && ((SafeToConnect(w) && Connect(w, v)) || ResetAcks(w, v) || LeaveLoop(w, v) || Disconnect(w, v))
    ensures Places(v)
  {
  }

  lemma TakeKeepsPlaces(w: World, v: World, p: nat)
    requires Places(w) && (TakeFiltered(w, v, p) || TakeToSend(w, v, p))
    ensures Places(v)
  {
  }

  lemma WriteKeepsPlaces(w: World, v: World)
    requires Places(w) && (WriteOk(w, v) || WriteFails(w, v))
    ensures Places(v)
  {
  }

  lemma NoteKeepsPlaces(w: World, v: World)
    requires Places(w) && (WriteNoop(w, v) || RemoveAck(w, v) || NoteAuto(w, v))
    ensures Places(v)
  {
  }

  lemma QueueKeepsPlaces(w: World, v: World, p: nat, a: Allow)
    requires Places(w) && !a.duplicates && (Put(w, v, a) || Evict(w, v, p))
    ensures Places(v)
  {
  }

  lemma ReceiverKeepsPlaces(w: World, v: World, p: nat)
    requires Places(w) && (Receive(w, v) || Reply(w, v, p))
    ensures Places(v)
  {
  }

  lemma ReaderKeepsPlaces(w: World, v: World)
    requires Inv(w) && (HandleAck(w, v) || ReaderExits(w, v) || WriteCursor(w, v))
    ensures Places(v)
  {
    if HandleAck(w, v) {
      AckCursorIsIssued(w, w.replies[0]);
    }
  }

  /** A cursor Ack returns is that of an entry, or the auto cursor. */
  lemma AckCursorIsIssued(w: World, e: EventId)
    requires RingOk(w) && AcksOk(w)
    ensures Acked(w.acks, e).1.Some? ==> Acked(w.acks, e).1.value < w.nextId
    ensures Acked(w.acks, e).0.auto.Some? ==> Acked(w.acks, e).0.auto == w.acks.auto
    ensures w.acks == Empty() ==> Acked(w.acks, e).0 == Empty()
  {
    if e in w.acks.ids && w.acks.ids[e] in w.acks.cursors { assert EntryOk(w, w.acks.ids[e]); }
  }

  lemma RestartKeepsPlaces(w: World, v: World, n: nat)
    requires Places(w) && Restart(w, v, n) && SafeToRestart(w, n)
    ensures Places(v)
  {
  }

  lemma NextKeepsPlaces(w: World, v: World, p: nat, a: Allow)
    requires Inv(w) && Step(w, v, p, a) && Strict(a)
    ensures Places(v)
  {
    hide Places, Books, Put, Evict, Connect, ResetAcks, TakeFiltered, TakeToSend, WriteOk, WriteFails, WriteNoop,
         RemoveAck, NoteAuto, LeaveLoop, Disconnect, SafeToConnect, Receive, Reply, HandleAck, ReaderExits, SafeToExit,
         WriteCursor, Restart, SafeToRestart;
    if TakeFiltered(w, v, p) || TakeToSend(w, v, p) { TakeKeepsPlaces(w, v, p); }
    else if WriteOk(w, v) || WriteFails(w, v) { WriteKeepsPlaces(w, v); }
    else if WriteNoop(w, v) || RemoveAck(w, v) || NoteAuto(w, v) { NoteKeepsPlaces(w, v); }
    else if Put(w, v, a) || Evict(w, v, p) { QueueKeepsPlaces(w, v, p, a); }
    else if Receive(w, v) || Reply(w, v, p) { ReceiverKeepsPlaces(w, v, p); }
    else if HandleAck(w, v) || ReaderExits(w, v) || WriteCursor(w, v) { ReaderKeepsPlaces(w, v); }
    else if SafeToRestart(w, p) && Restart(w, v, p) { RestartKeepsPlaces(w, v, p); }
    else { ConnectKeepsPlaces(w, v); }
  }

  // ---------------------------------------------------------------- the theorem

  lemma SenderKeepsBooks(w: World, v: World, p: nat, a: Allow)
    requires Inv(w) && SenderStep(w, v, p, a)
    ensures Books(v)
  {
    hide Inv, Books, Connect, ResetAcks, TakeFiltered, TakeToSend, WriteOk, WriteFails, WriteNoop, RemoveAck,
         NoteAuto, LeaveLoop, Disconnect, SafeToConnect;
    if Connect(w, v) { ConnectKeepsInv(w, v); }
    else if ResetAcks(w, v) { ResetAcksKeepsInv(w, v); }
    else if TakeFiltered(w, v, p) { TakeFilteredKeepsInv(w, v, p); }
    else if TakeToSend(w, v, p) { TakeToSendKeepsInv(w, v, p); }
    else if WriteOk(w, v) || WriteFails(w, v) { WriteKeepsInv(w, v); }
    else if WriteNoop(w, v) { WriteNoopKeepsInv(w, v); }
    else if RemoveAck(w, v) { RemoveAckKeepsInv(w, v); }
    else if NoteAuto(w, v) { NoteAutoKeepsInv(w, v); }
    else { LeaveKeepsInv(w, v); }
  }

  lemma OtherKeepsBooks(w: World, v: World, p: nat, a: Allow)
    requires Inv(w) && OtherStep(w, v, p, a) && Strict(a)
    ensures Books(v)
  {
    hide Inv, Books, Put, Evict, Receive, Reply, HandleAck, ReaderExits, SafeToExit, WriteCursor, Restart, SafeToRestart;
    if Put(w, v, a) { PutKeepsInv(w, v, a); }
    else if Evict(w, v, p) { EvictKeepsInv(w, v, p); }
    else if Receive(w, v) { ReceiveKeepsInv(w, v); }
    else if Reply(w, v, p) { ReplyKeepsInv(w, v, p); }
    else if HandleAck(w, v) { HandleAckKeepsInv(w, v); }
    else if SafeToExit(w) && ReaderExits(w, v) { ReaderExitKeepsInv(w, v); }
    else if WriteCursor(w, v) { WriteCursorKeepsInv(w, v); }
    else { RestartKeepsInv(w, v, p); }
  }

  lemma NextKeepsInv(w: World, v: World, a: Allow)
    requires Inv(w) && Next(w, v, a) && Strict(a)
    ensures Inv(v)
  {
    hide Places, Books, SenderStep, OtherStep, Strict;
    var p: nat :| Step(w, v, p, a);
    NextKeepsPlaces(w, v, p, a);
    if SenderStep(w, v, p, a) {
      SenderKeepsBooks(w, v, p, a);
    } else {
      OtherKeepsBooks(w, v, p, a);
    }
  }

  ghost predicate Run(ws: seq<World>, a: Allow) {
    ws != [] && Init(ws[0]) && forall i | 0 < i < |ws| :: Next(ws[i - 1], ws[i], a)
  }

  lemma {:induction false} RunKeepsInv(ws: seq<World>, a: Allow, i: nat)
    requires Run(ws, a) && Strict(a) && i < |ws|
    ensures Inv(ws[i])
    decreases i
  {
    hide Next;
    if i > 0 {
      RunKeepsInv(ws, a, i - 1);
      NextKeepsInv(ws[i - 1], ws[i], a);
    }
  }

  /**
   * At-least-once delivery: where none of the four things happens, an item at or before the saved
   * cursor has been received, was filtered or NOOP, was gone from the ring when the loop passed it,
   * or was passed unread by a loop that started at the head. The same goes for the cursor file.
   */
  lemma AtLeastOnce(ws: seq<World>, a: Allow, i: nat, q: nat)
    requires Run(ws, a) && Strict(a) && i < |ws| && 0 < q
    requires UpTo(q, ws[i].saved) || UpTo(q, ws[i].file)
    ensures q in ws[i].received || q in ws[i].skipped || q in ws[i].evicted || q in ws[i].beforeHead
  {
    RunKeepsInv(ws, a, i);
    assert Settled(ws[i], q);
  }

  lemma OnlyTakesPass(w: World, v: World, p: nat, a: Allow, q: nat)
    requires Step(w, v, p, a) && q in v.beforeHead && q !in w.beforeHead
    ensures TakeFiltered(w, v, p) || TakeToSend(w, v, p)
  {
  }

  /** An item is excused as passed at the head only while nothing has been read from the queue. */
  lemma HeadPassesOnlyUnread(w: World, v: World, a: Allow, q: nat)
    requires Inv(w) && Next(w, v, a) && q in v.beforeHead && q !in w.beforeHead
    ensures w.taken == {} && q !in v.taken
  {
    hide RingOk, Books, ResetAcks, WriteOk, WriteFails, WriteNoop, RemoveAck, NoteAuto, LeaveLoop, Disconnect, Receive,
         Reply, HandleAck, ReaderExits;
    var p: nat :| Step(w, v, p, a);
    OnlyTakesPass(w, v, p, a, q);
  }

  // ---------------------------------------------------------------- each of the four loses

  /**
   * At the end of a connection the pending auto cursor is saved unconditionally. That is safe
   * exactly when every entry older than it stands for a settled item; an ack queue with nothing
   * that old outstanding, which is what SafeToExit asks, is a case of it.
   */
  lemma ExitIsSafeIff(w: World, v: World)
    requires Inv(w) && ReaderExits(w, v) && w.acks.auto.Some?
    ensures Covered(v, v.saved) <==>
            forall s | s in w.acks.cursors && s < w.acks.auto.value.num :: Settled(w, w.acks.cursors[s].cursor)
    ensures SafeToExit(w) ==> Covered(v, v.saved)
  {
    var a := w.acks.auto.value;
    if forall s | s in w.acks.cursors && s < a.num :: Settled(w, w.acks.cursors[s].cursor) {
      forall q | 0 < q <= a.cursor ensures Settled(v, q) {
        assert Accounted(w, q, a.num);
        assert Settled(w, q);
      }
    }
    if Covered(v, v.saved) {
      forall s | s in w.acks.cursors && s < a.num ensures Settled(w, w.acks.cursors[s].cursor) {
        assert EntryOk(w, s) && Settled(v, w.acks.cursors[s].cursor);
      }
    }
  }

  ghost predicate Reachable(w: World, a: Allow) {
    exists ws :: ws != [] && Run(ws, a) && ws[|ws| - 1] == w
  }

  lemma InitIsReachable(w: World, a: Allow)
    requires Init(w)
    ensures Reachable(w, a)
  {
    assert Run([w], a);
  }

  lemma Reach(w: World, v: World, p: nat, a: Allow)
    requires Reachable(w, a) && Step(w, v, p, a)
    ensures Reachable(v, a)
  {
    hide Step, Init;
    var ws :| ws != [] && Run(ws, a) && ws[|ws| - 1] == w;
    var r := ws + [v];
    forall i | 0 < i < |r| ensures Next(r[i - 1], r[i], a) {
      if i < |ws| { assert Next(ws[i - 1], ws[i], a); }
    }
    assert Run(r, a);
  }

  /** Event identifiers assigned so that items may be put in any order of events. */
  ghost predicate MayPut(w: World, a: Allow) {
    a.duplicates || forall p, q | 0 < p < q :: w.eid(p) != w.eid(q)
  }

  lemma PutOne(w: World, a: Allow) returns (v: World)
    requires Reachable(w, a) && MayPut(w, a)
    ensures v == w.(ring := w.ring + {w.nextId}, nextId := w.nextId + 1) && Reachable(v, a)
  {
    hide Reachable, Added, Acked;
    v := w.(ring := w.ring + {w.nextId}, nextId := w.nextId + 1);
    assert Put(w, v, a);
    Reach(w, v, 0, a);
  }

  /** The items up to n come and are evicted with nobody looking. */
  lemma {:induction false} LetPass(w: World, n: nat, a: Allow)
    requires Reachable(w, a) && MayPut(w, a) && w.nextId <= n && w.ring == {}
    ensures Reachable(w.(nextId := n), a)
    decreases n - w.nextId
  {
    hide Reachable, Added, Acked;
    if w.nextId < n {
      var x := PutOne(w, a);
      var y := w.(nextId := w.nextId + 1);
      assert x.ring - {w.nextId} == {};
      assert Evict(x, y, w.nextId);
      Reach(x, y, w.nextId, a);
      LetPass(y, n, a);
    } else {
      assert w.(nextId := n) == w;
    }
  }

  /** Item p is the only one retained, and has been sent by a loop that started at the head. */
  lemma FirstSent(w: World, p: nat, a: Allow) returns (v: World)
    requires Init(w) && 0 < p && MayPut(w, a)
    ensures Reachable(v, a)
    ensures v == w.(ring := {p}, nextId := p + 1, pc := Idle, at := After(p), reader := true, wire := [p],
                    acks := Added(Empty(), w.eid(p), p), taken := {p}, beforeHead := Between(0, p))
  {
    hide Reachable, Added;
    InitIsReachable(w, a);
    var x := w.(pc := Starting, reader := true);
    assert Connect(w, x);
    Reach(w, x, 0, a);
    var y := x.(pc := Idle);
    assert ResetAcks(x, y);
    Reach(x, y, 0, a);
    LetPass(y, p, a);
    var z := PutOne(y.(nextId := p), a);
    assert y.ring + {p} == {p};
    var t := z.(pc := Sending(p), acks := Added(Empty(), w.eid(p), p), taken := {p}, beforeHead := Between(0, p));
    assert z.taken + {p} == {p} && z.beforeHead + (Between(0, p) - z.taken) == Between(0, p);
    assert TakeToSend(z, t, p);
    Reach(z, t, p, a);
    v := t.(pc := Idle, wire := [p], at := After(p));
    assert t.wire + [p] == [p];
    assert WriteOk(t, v);
    Reach(t, v, 0, a);
  }

  /** The only item on the wire is received and acknowledged. */
  lemma DeliverOne(w: World, p: nat, a: Allow) returns (v: World)
    requires Reachable(w, a) && w.reader && w.wire == [p] && w.replies == [] && w.acks == Added(Empty(), w.eid(p), p)
    ensures Reachable(v, a)
    ensures v == w.(wire := [], received := w.received + {p}, acks := Acks(map[], map[], 1, None), saved := After(p))
  {
    hide Reachable, Added, Acked;
    var f := w.(wire := [], received := w.received + {p});
    assert Receive(w, f) by { assert w.wire[1..] == []; }
    Reach(w, f, 0, a);
    var g := f.(replies := [w.eid(p)]);
    assert Reply(f, g, p) by { assert f.replies + [w.eid(p)] == [w.eid(p)]; }
    Reach(f, g, p, a);
    OnlyAcked(w.eid(p), 0, p);
    v := g.(replies := [], acks := Acks(map[], map[], 1, None), saved := After(p));
    assert HandleAck(g, v) by { assert g.replies[1..] == []; }
    Reach(g, v, 0, a);
  }

  /** Acknowledging the only entry. */
  lemma OnlyAcked(e: EventId, n: nat, p: nat)
    ensures Acked(Added(Acks(map[], map[], n, None), e, p), e) == (Acks(map[], map[], n + 1, None), Some(p))
  {
    var b := Acked(Added(Acks(map[], map[], n, None), e, p), e);
    assert b.0.ids == map[] && b.0.cursors == map[];
  }

  /** Item p has been received, and acknowledged twice; the second acknowledgement is on its way. */
  lemma AckedOnce(w: World, p: nat, a: Allow) returns (v: World)
    requires Init(w) && 0 < p && MayPut(w, a)
    ensures Reachable(v, a)
    ensures v == w.(ring := {p}, nextId := p + 1, pc := Idle, at := After(p), reader := true, saved := After(p),
                    acks := Acks(map[], map[], 1, None), taken := {p}, beforeHead := Between(0, p), received := {p},
                    replies := [w.eid(p)])
  {
    hide Reachable, Added, Acked;
    var e := FirstSent(w, p, a);
    var f := e.(wire := [], received := {p});
    assert Receive(e, f) by { assert e.wire[1..] == [] && e.received + {p} == {p}; }
    Reach(e, f, 0, a);
    var g := f.(replies := [w.eid(p)]);
    assert Reply(f, g, p) by { assert f.replies + [w.eid(p)] == [w.eid(p)]; }
    Reach(f, g, p, a);
    var h := g.(replies := [w.eid(p), w.eid(p)]);
    assert Reply(g, h, p);
    Reach(g, h, p, a);
    OnlyAcked(w.eid(p), 0, p);
    v := h.(replies := [w.eid(p)], acks := Acks(map[], map[], 1, None), saved := After(p));
    assert HandleAck(h, v) by { assert h.replies[1..] == [w.eid(p)]; }
    Reach(h, v, 0, a);
  }

  /** An item that still has to be delivered, behind the saved cursor. */
  ghost predicate Lost(w: World, q: nat) {
    0 < q < w.nextId && UpTo(q, w.saved) && !Settled(w, q)
  }

  /**
   * Items p and q carry the same event identifier, and the receiver acknowledges item p twice: the
   * second acknowledgement is taken for item q, which was never received.
   */
  lemma DuplicateIdsCanLose(w: World, p: nat, q: nat, a: Allow) returns (v: World)
    requires Init(w) && 0 < p < q && w.eid(p) == w.eid(q) && a.duplicates
    ensures Reachable(v, a) && Lost(v, q) && q in v.taken && v.eid == w.eid
  {
    hide Reachable, Added, Acked;
    var i := AckedOnce(w, p, a);
    var e := i.(ring := {});
    assert i.ring - {p} == {} && Evict(i, e, p);
    Reach(i, e, p, a);
    LetPass(e, q, a);
    var j := PutOne(e.(nextId := q), a);
    assert e.ring + {q} == {q};
    var k := j.(pc := Sending(q), acks := Added(j.acks, w.eid(q), q), taken := {p, q}, evicted := Between(p, q));
    assert j.evicted + Between(p, q) == Between(p, q) && j.taken + {q} == {p, q};
    assert TakeToSend(j, k, q);
    Reach(j, k, q, a);
    OnlyAcked(w.eid(q), 1, q);
    v := k.(replies := [], acks := Acks(map[], map[], 2, None), saved := After(q));
    assert HandleAck(k, v) by { assert k.replies[1..] == []; }
    Reach(k, v, 0, a);
  }

  /**
   * One acknowledgement for each receipt does not help either. Items p, x and q are sent, the first
   * and the last with the same event identifier; the acknowledgement of x comes first and clears the
   * entry of p; that of p is then taken for q.
   */
  lemma OneAckEachCanLose(w: World, p: nat, x: nat, q: nat, a: Allow) returns (v: World)
    requires Init(w) && 0 < p && x == p + 1 < q && w.eid(p) == w.eid(q) != w.eid(x) && a.duplicates
    ensures Reachable(v, a) && Lost(v, q) && q in v.taken
  {
    hide Reachable, Added, Acked;
    var u := BothReceived(w, p, x, a);
    var e1 := u.(ring := {x});
    assert u.ring - {p} == {x} && Evict(u, e1, p);
    Reach(u, e1, p, a);
    var e2 := e1.(ring := {});
    assert e1.ring - {x} == {} && Evict(e1, e2, x);
    Reach(e1, e2, x, a);
    LetPass(e2, q, a);
    var j := PutOne(e2.(nextId := q), a);
    assert e2.ring + {q} == {q};
    var k := j.(pc := Sending(q), acks := Added(j.acks, w.eid(q), q), taken := {p, x, q}, evicted := Between(x, q));
    assert j.evicted + Between(x, q) == Between(x, q) && j.taken + {q} == {p, x, q};
    assert TakeToSend(j, k, q);
    Reach(j, k, q, a);
    OnlyAcked(w.eid(q), 2, q);
    v := k.(replies := [], acks := Acks(map[], map[], 3, None), saved := After(q));
    assert HandleAck(k, v) by { assert k.replies[1..] == []; }
    Reach(k, v, 0, a);
  }

  lemma BothSent(w: World, p: nat, x: nat, a: Allow) returns (v: World)
    requires Init(w) && 0 < p && x == p + 1 && a.duplicates
    ensures Reachable(v, a)
    ensures v == w.(ring := {p, x}, nextId := x + 1, pc := Idle, at := After(x), reader := true, wire := [p, x],
                    acks := Added(Added(Empty(), w.eid(p), p), w.eid(x), x), taken := {p, x}, beforeHead := Between(0, p))
  {
    hide Reachable, Added, Acked;
    var b := FirstSent(w, p, a);
    var c := PutOne(b, a);
    assert b.ring + {x} == {p, x};
    var d := c.(pc := Sending(x), acks := Added(c.acks, w.eid(x), x), taken := {p, x});
    assert Between(p, x) == {} && c.evicted + {} == c.evicted && c.taken + {x} == {p, x};
    assert TakeToSend(c, d, x);
    Reach(c, d, x, a);
    v := d.(pc := Idle, wire := [p, x], at := After(x));
    assert d.wire + [x] == [p, x] && WriteOk(d, v);
    Reach(d, v, 0, a);
  }

  /** Items p and x have been received; that of x is acknowledged, that of p is about to be. */
  lemma BothReceived(w: World, p: nat, x: nat, a: Allow) returns (v: World)
    requires Init(w) && 0 < p && x == p + 1 && w.eid(p) != w.eid(x) && a.duplicates
    ensures Reachable(v, a)
    ensures v == w.(ring := {p, x}, nextId := x + 1, pc := Idle, at := After(x), reader := true, saved := After(x),
                    acks := Acks(map[], map[], 2, None), taken := {p, x}, beforeHead := Between(0, p),
                    received := {p, x}, replies := [w.eid(p)])
  {
    hide Reachable, Added, Acked;
    var e := BothSent(w, p, x, a);
    var f := e.(wire := [x], received := {p});
    assert Receive(e, f) by { assert e.wire[1..] == [x] && e.received + {p} == {p}; }
    Reach(e, f, 0, a);
    var g := f.(wire := [], received := {p, x});
    assert Receive(f, g) by { assert f.wire[1..] == [] && f.received + {x} == {p, x}; }
    Reach(f, g, 0, a);
    var h := g.(replies := [w.eid(x)]);
    assert Reply(g, h, x) by { assert g.replies + [w.eid(x)] == [w.eid(x)]; }
    Reach(g, h, x, a);
    var k := h.(replies := [w.eid(x), w.eid(p)]);
    assert Reply(h, k, p);
    Reach(h, k, p, a);
    SecondAcked(w.eid(p), w.eid(x), p, x);
    v := k.(replies := [w.eid(p)], acks := Acks(map[], map[], 2, None), saved := After(x));
    assert HandleAck(k, v) by { assert k.replies[1..] == [w.eid(p)]; }
    Reach(k, v, 0, a);
  }

  /** Acknowledging the second of two entries clears both. */
  lemma SecondAcked(e: EventId, f: EventId, p: nat, x: nat)
    requires e != f
    ensures Acked(Added(Added(Empty(), e, p), f, x), f) == (Acks(map[], map[], 2, None), Some(x))
  {
    var a := Added(Added(Empty(), e, p), f, x);
    assert ListedUpTo(a, e, 1) by { assert a.cursors[0].event == e; }
    assert Acked(a, f).0.ids == map[] && Acked(a, f).0.cursors == map[];
  }

  /**
   * Item 1 is sent, item 2 is filtered and becomes the auto cursor, the connection is lost with
   * item 1 outstanding: the cursor saved is past item 1, which was never received.
   */
  lemma AutoCursorCanLose(w: World, a: Allow) returns (v: World)
    requires Init(w) && MayPut(w, a) && a.unsafeExit
    ensures Reachable(v, a) && Lost(v, 1) && 1 in v.taken
  {
    hide Reachable, Added, Acked;
    var e := FirstSent(w, 1, a);
    var f := PutOne(e, a);
    assert e.ring + {2} == {1, 2};
    var g := f.(pc := Noting(2), at := After(2), skipped := {2}, taken := {1, 2});
    assert Between(1, 2) == {} && f.evicted + {} == f.evicted && f.skipped + {2} == {2} && f.taken + {2} == {1, 2};
    assert TakeFiltered(f, g, 2);
    Reach(f, g, 2, a);
    var u := g.(pc := Idle, acks := AutoSet(g.acks, 2));
    assert NoteAuto(g, u);
    Reach(g, u, 0, a);
    v := u.(reader := false, acks := u.acks.(auto := None), saved := After(2));
    assert ReaderExits(u, v);
    Reach(u, v, 0, a);
    assert Between(0, 1) == {};
  }

  /**
   * Item 1 is sent and the connection is lost before anything is acknowledged, so that the next one
   * starts at the head again. Item 2 is sent, received and acknowledged: the cursor saved is past
   * item 1, which is still in the ring and was never received.
   */
  lemma HeadAgainCanLose(w: World, a: Allow) returns (v: World)
    requires Init(w) && MayPut(w, a) && a.headAgain
    ensures Reachable(v, a) && Lost(v, 1) && 1 in v.taken && 1 in v.ring
  {
    hide Reachable, Added, Acked;
    var e := BackAtHead(w, a);
    var f := PutOne(e, a);
    assert e.ring + {2} == {1, 2};
    var g := f.(pc := Sending(2), acks := Added(Empty(), w.eid(2), 2), taken := {1, 2});
    assert Between(0, 2) == {1} && f.beforeHead + (Between(0, 2) - f.taken) == f.beforeHead && f.taken + {2} == {1, 2};
    assert TakeToSend(f, g, 2);
    Reach(f, g, 2, a);
    var h := g.(pc := Idle, wire := [2], at := After(2));
    assert g.wire + [2] == [2] && WriteOk(g, h);
    Reach(g, h, 0, a);
    v := DeliverOne(h, 2, a);
  }

  /** Item 1 was sent on a connection that is gone; the loop waits at the head again. */
  lemma BackAtHead(w: World, a: Allow) returns (v: World)
    requires Init(w) && MayPut(w, a) && a.headAgain
    ensures Reachable(v, a)
    ensures v == w.(ring := {1}, nextId := 2, pc := Idle, since := 2, reader := true, taken := {1})
  {
    hide Reachable, Acked;
    var b := FirstSent(w, 1, a);
    assert Between(0, 1) == {};
    var c := b.(pc := Ending);
    assert LeaveLoop(b, c);
    Reach(b, c, 0, a);
    var d := c.(reader := false);
    assert ReaderExits(c, d) by { assert c.acks.(auto := None) == c.acks; }
    Reach(c, d, 0, a);
    var e := d.(pc := Stopped);
    assert Disconnect(d, e);
    Reach(d, e, 0, a);
    var f := e.(pc := Starting, at := Head, since := 2, reader := true, wire := []);
    assert Connect(e, f);
    Reach(e, f, 0, a);
    v := f.(pc := Idle, acks := Empty());
    assert ResetAcks(f, v);
    Reach(f, v, 0, a);
  }

  /**
   * Item 1 is delivered and the cursor written, then the process crashes before the queue was ever
   * saved. The queue starts over, another event becomes item 1, and the loop goes on behind it.
   */
  lemma RollbackCanLose(w: World, a: Allow) returns (v: World)
    requires Init(w) && MayPut(w, a) && a.rollback
    ensures Reachable(v, a) && Lost(v, 1) && 1 in v.ring && v.at == After(2)
  {
    hide Reachable, Added, Acked;
    var s := FirstSent(w, 1, a);
    var b := DeliverOne(s, 1, a);
    var c := b.(file := After(1));
    assert WriteCursor(b, c);
    Reach(b, c, 0, a);
    var none: set<nat> := {};
    var d := c.(pc := Stopped, reader := false, acks := Empty(), replies := [], ring := none, nextId := 1,
                taken := none, received := none, beforeHead := none);
    assert Between(0, 1) == {};
    assert Below(c.taken, 1) == none && Below(c.received, 1) == none && Below(c.beforeHead, 1) == none;
    assert Below(c.skipped, 1) == c.skipped && Below(c.evicted, 1) == c.evicted;
    assert Restart(c, d, 1);
    Reach(c, d, 1, a);
    var e := PutOne(d, a);
    assert d.ring + {1} == {1};
    var f := e.(pc := Starting, at := After(1), since := 2, reader := true);
    assert Connect(e, f);
    Reach(e, f, 0, a);
    var g := f.(pc := Idle);
    assert ResetAcks(f, g);
    Reach(f, g, 0, a);
    var h := PutOne(g, a);
    assert g.ring + {2} == {1, 2};
    v := h.(pc := Noting(2), at := After(2), skipped := {2}, taken := {2});
    assert Between(1, 2) == {} && h.evicted + {} == h.evicted && h.skipped + {2} == {2} && h.taken + {2} == {2};
    assert TakeFiltered(h, v, 2);
    Reach(h, v, 2, a);
  }

  ghost predicate NeverLoses(a: Allow) {
    forall w, q | Reachable(w, a) :: !Lost(w, q)
  }

  /** No reachable state has lost an item exactly when none of the four things happens. */
  lemma NeverLosesIff(a: Allow)
    ensures NeverLoses(a) <==> Strict(a)
  {
    hide Run, Reachable, Lost;
    if Strict(a) {
      forall w, q | Reachable(w, a) ensures !Lost(w, q) { StrictRunsLoseNothing(w, a, q); }
    } else {
      var w := Start();
      if a.duplicates {
        var v := DuplicateIdsCanLose(w.(eid := SameForTwo()), 1, 2, a);
      } else if a.unsafeExit {
        var v := AutoCursorCanLose(w, a);
      } else if a.headAgain {
        var v := HeadAgainCanLose(w, a);
      } else {
        var v := RollbackCanLose(w, a);
      }
    }
  }

  function Numbered(): nat -> EventId {
    (q: nat) => EventId(q, 0, 0)
  }

  function SameForTwo(): nat -> EventId {
    (q: nat) => EventId(if q == 2 then 1 else q, 0, 0)
  }

  function Start(): World {
    World({}, 1, Numbered(), Head, Head, Stopped, Head, 1, Empty(), false, [], [], {}, {}, {}, {}, {})
  }

  lemma StrictRunsLoseNothing(w: World, a: Allow, q: nat)
    requires Reachable(w, a) && Strict(a)
    ensures !Lost(w, q)
  {
    hide Run;
    var ws :| ws != [] && Run(ws, a) && ws[|ws| - 1] == w;
    RunKeepsInv(ws, a, |ws| - 1);
  }
}
