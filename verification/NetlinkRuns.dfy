/**
 * Every interleaving of senders, the receiving thread and the stop. The locked stretches of
 * handle_msg and flush_replies all run on the receiving thread, so that no flush comes between a
 * message's lookup and its end; senders come in between anywhere, and so does their use of the
 * message buffer, which no lock protects.
 */
module NetlinkRuns {
  import opened Wrappers
  import opened Netlink

  datatype World = World(t: Table, h: Handling, m: Msg, exited: bool)

  /**
   * Two things the code does not rule out: a failing sendto erases the live request of another
   * sender, and the sequence counter comes round to the number of the message being handled.
   */
  datatype Allow = Allow(foreignErasure: bool, lap: bool)

  ghost predicate Init(w: World) {
    w.t == Table(map[], map[], 1, 0, [], false) && w.h.Idle? && !w.exited
  }

  // ---------------------------------------------------------------- steps

  /** The number is not that of the request whose message is being handled. */
  ghost predicate NoLap(w: World, s: nat) {
    w.h.Handling? && w.h.found.Some? ==> s != w.h.seqNo
  }

  ghost predicate Register(w: World, v: World, s: nat, hasFn: bool, now: nat) {
    !w.t.stop && Picked(w.t, s) && v == w.(t := Registered(w.t, s, hasFn, now))
  }

  ghost predicate SendWorks(w: World, v: World, id: nat) {
    id < |w.t.recs| && w.t.recs[id].phase.Sending? && v == w.(t := SendDone(w.t, id))
  }

  /** The number in the buffer is not that of another request somebody still waits for. */
  ghost predicate OwnNumber(t: Table, id: nat) {
    t.buffer in t.replies && t.replies[t.buffer] < |t.recs| ==>
      t.replies[t.buffer] == id || !Open(t.recs[t.replies[t.buffer]])
  }

  ghost predicate SendFails(w: World, v: World, id: nat) {
    id < |w.t.recs| && w.t.recs[id].phase.Sending? && v == w.(t := SendFailed(w.t, id))
  }

  /** recvfrom, of a reply or of an event, whose number is zero. */
  ghost predicate Arrive(w: World, v: World, s: nat) {
    w.h.Idle? && !w.exited && v == w.(t := Arrived(w.t, s))
  }

  ghost predicate Receive(w: World, v: World, s: nat, m: Msg, now: nat) {
    && w.h.Idle? && !w.exited && s != 0 && (s in w.t.replies ==> w.t.replies[s] < |w.t.recs|)
    && v == w.(t := LookedUp(w.t, s, now), h := Found(w.t, s), m := m)
  }

  ghost predicate FnEnds(w: World, v: World) {
    && Calls(w.t, w.h, w.m)
    && (v == w.(t := FnSaidNo(w.t, w.h), h := Idle) || v == w.(t := FnThrew(w.t, w.h), h := Idle))
  }

  ghost predicate Finish(w: World, v: World) {
    && w.h.Handling? && (w.h.found.Some? ==> w.h.found.value < |w.t.recs|)
    && v == w.(t := Closed(w.t, w.h, w.m), h := Idle)
  }

  /** Whether the thread is stopping is asked before the lock is taken. */
  ghost predicate Flush(w: World, v: World, now: nat, stopping: bool) {
    w.h.Idle? && !w.exited && (stopping ==> w.t.stop) && Indexed(w.t) && v == w.(t := Flushed(w.t, now, stopping))
  }

  ghost predicate Stop(w: World, v: World) {
    v == w.(t := w.t.(stop := true))
  }

  /** The receiving thread ends: its last flush cancels what is left. */
  ghost predicate Exit(w: World, v: World, now: nat) {
    w.h.Idle? && !w.exited && w.t.stop && Indexed(w.t) && v == w.(t := Flushed(w.t, now, true), exited := true)
  }

  ghost predicate SendStep(w: World, v: World, n: nat, now: nat, flag: bool, a: Allow) {
    || ((a.lap || NoLap(w, n)) && Register(w, v, n, flag, now))
    || SendWorks(w, v, n)
    || ((a.foreignErasure || OwnNumber(w.t, n)) && SendFails(w, v, n))
  }

  ghost predicate ThreadStep(w: World, v: World, n: nat, now: nat, flag: bool, m: Msg) {
    || Arrive(w, v, n) || Receive(w, v, n, m, now) || FnEnds(w, v) || Finish(w, v)
    || Flush(w, v, now, flag) || Stop(w, v) || Exit(w, v, now)
  }

  ghost predicate Step(w: World, v: World, n: nat, now: nat, flag: bool, m: Msg, a: Allow) {
    SendStep(w, v, n, now, flag, a) || ThreadStep(w, v, n, now, flag, m)
  }

  ghost predicate Next(w: World, v: World, a: Allow) {
    exists n: nat, now: nat, flag: bool, m: Msg :: Step(w, v, n, now, flag, m, a)
  }

  ghost predicate Run(ws: seq<World>, a: Allow) {
    ws != [] && Init(ws[0]) && forall i | 0 < i < |ws| :: Next(ws[i - 1], ws[i], a)
  }

  // ---------------------------------------------------------------- what always holds

  /** A request that is still to be completed. */
  predicate Open(r: Rec) {
    !r.done && !r.phase.Failed?
  }

  ghost predicate Counted(t: Table, i: nat)
    requires i < |t.recs|
  {
    |t.recs[i].completions| == if t.recs[i].done then 1 else 0
  }

  /** The message's request is the one found, and nobody has completed it since. */
  ghost predicate Watched(w: World) {
    w.h.Handling? && w.h.found.Some? ==>
      var id := w.h.found.value;
      id < |w.t.recs| && w.t.recs[id].seqNo == w.h.seqNo && w.t.recs[id].done == w.h.done
  }

  ghost predicate Core(w: World) {
    && 0 < w.t.sequence < U32 && Indexed(w.t) && 0 !in w.t.replies
    && (forall i | 0 <= i < |w.t.recs| :: Counted(w.t, i))
    && Watched(w) && (w.exited ==> w.t.stop && w.h.Idle?)
  }

  lemma SendKeepsCore(w: World, v: World, n: nat, now: nat, flag: bool, a: Allow)
    requires Core(w) && SendStep(w, v, n, now, flag, a)
    ensures Core(v)
  {
    hide Picked, NoLap, OwnNumber;
    forall i | 0 <= i < |v.t.recs| ensures Counted(v.t, i) {
      if i < |w.t.recs| { assert Counted(w.t, i); }
    }
    if Register(w, v, n, flag, now) { PickedIsNumber(w.t, n); }
  }

  lemma PickedIsNumber(t: Table, s: nat)
    requires Picked(t, s)
    ensures 0 < s < U32 && !InUse(t, s)
  {
  }

  lemma MessageKeepsCore(w: World, v: World, s: nat, m: Msg, now: nat)
    requires Core(w) && (Arrive(w, v, s) || Receive(w, v, s, m, now) || FnEnds(w, v) || Finish(w, v) || Stop(w, v))
    ensures Core(v)
  {
    hide Core, FnEnds, Finish;
    if FnEnds(w, v) {
      FnKeepsCore(w, v);
    } else if Finish(w, v) {
      FinishKeepsCore(w, v);
    } else {
      ReceiveKeepsCore(w, v, s, m, now);
    }
  }

  lemma ReceiveKeepsCore(w: World, v: World, s: nat, m: Msg, now: nat)
    requires Core(w) && (Arrive(w, v, s) || Receive(w, v, s, m, now) || Stop(w, v))
    ensures Core(v)
  {
    forall i | 0 <= i < |v.t.recs| ensures Counted(v.t, i) { assert Counted(w.t, i); }
  }

  lemma FnKeepsCore(w: World, v: World)
    requires Core(w) && FnEnds(w, v)
    ensures Core(v)
  {
    forall i | 0 <= i < |v.t.recs| ensures Counted(v.t, i) { assert Counted(w.t, i); }
  }

  lemma FinishKeepsCore(w: World, v: World)
    requires Core(w) && Finish(w, v)
    ensures Core(v)
  {
    forall i | 0 <= i < |v.t.recs| ensures Counted(v.t, i) { assert Counted(w.t, i); }
  }

  lemma FlushKeepsCore(w: World, v: World, now: nat, stopping: bool)
    requires Core(w) && (Flush(w, v, now, stopping) || Exit(w, v, now))
    ensures Core(v)
  {
    forall i | 0 <= i < |v.t.recs| ensures Counted(v.t, i) { assert Counted(w.t, i); }
  }

  lemma NextKeepsCore(w: World, v: World, a: Allow)
    requires Core(w) && Next(w, v, a)
    ensures Core(v)
  {
    hide Core, SendStep, Arrive, Receive, FnEnds, Finish, Flush, Stop, Exit;
    var n: nat, now: nat, flag: bool, m: Msg :| Step(w, v, n, now, flag, m, a);
    if SendStep(w, v, n, now, flag, a) {
      SendKeepsCore(w, v, n, now, flag, a);
    } else if Flush(w, v, now, flag) || Exit(w, v, now) {
      FlushKeepsCore(w, v, now, flag);
    } else {
      MessageKeepsCore(w, v, n, m, now);
    }
  }

  lemma {:induction false} RunKeepsCore(ws: seq<World>, a: Allow, i: nat)
    requires Run(ws, a) && i < |ws|
    ensures Core(ws[i])
    decreases i
  {
    hide Next;
    if i > 0 {
      RunKeepsCore(ws, a, i - 1);
      NextKeepsCore(ws[i - 1], ws[i], a);
    }
  }

  /** No promise is completed twice, whatever is allowed. */
  lemma AtMostOnce(ws: seq<World>, a: Allow, i: nat, id: nat)
    requires Run(ws, a) && i < |ws| && id < |ws[i].t.recs|
    ensures |ws[i].t.recs[id].completions| <= 1
    ensures ws[i].t.recs[id].done <==> ws[i].t.recs[id].completions != []
  {
    RunKeepsCore(ws, a, i);
    assert Counted(ws[i].t, id);
  }

  // ---------------------------------------------------------------- what holds without erasures and laps

  ghost predicate Entered(t: Table, i: nat)
    requires i < |t.recs|
  {
    t.recs[i].seqNo in t.replies && t.replies[t.recs[i].seqNo] == i
  }

  ghost predicate OpenIsEntered(t: Table, i: nat)
    requires i < |t.recs|
  {
    Open(t.recs[i]) ==> Entered(t, i)
  }

  /** Nothing else is entered under the number of the message being handled. */
  ghost predicate Unshared(w: World) {
    w.h.Handling? && w.h.found.Some? && w.h.seqNo in w.t.replies ==> w.t.replies[w.h.seqNo] == w.h.found.value
  }

  ghost predicate Inv(w: World) {
    && Core(w) && Unshared(w)
    && (forall i | 0 <= i < |w.t.recs| :: OpenIsEntered(w.t, i))
    && (w.exited ==> forall i | 0 <= i < |w.t.recs| :: !Open(w.t.recs[i]))
  }

  /** Taking a number keeps the invariant exactly when the counter has not lapped the message's request. */
  lemma RegisterKeepsInvIff(w: World, v: World, s: nat, hasFn: bool, now: nat)
    requires Inv(w) && Register(w, v, s, hasFn, now)
    ensures Inv(v) <==> NoLap(w, s)
  {
    hide Core, Picked;
    PickedIsNumber(w.t, s);
    RegisterCore(w, v, s, hasFn, now);
    forall i | 0 <= i < |v.t.recs| ensures OpenIsEntered(v.t, i) {
      if i < |w.t.recs| { assert OpenIsEntered(w.t, i); }
    }
  }

  lemma RegisterCore(w: World, v: World, s: nat, hasFn: bool, now: nat)
    requires Core(w) && Register(w, v, s, hasFn, now)
    ensures Core(v) && (w.exited ==> w.t.stop)
    ensures w.h.Handling? && w.h.found.Some? ==> w.h.found.value < |w.t.recs|
  {
    SendKeepsCore(w, v, s, now, hasFn, Allow(true, true));
  }

  /** A failing sendto keeps it exactly when it does not erase another open request. */
  lemma FailureKeepsInvIff(w: World, v: World, id: nat)
    requires Inv(w) && SendFails(w, v, id)
    ensures Inv(v) <==> OwnNumber(w.t, id)
  {
    SendKeepsCore(w, v, id, 0, false, Allow(true, true));
    if OwnNumber(w.t, id) {
      forall i | 0 <= i < |v.t.recs| ensures OpenIsEntered(v.t, i) { assert OpenIsEntered(w.t, i); }
    } else {
      assert !OpenIsEntered(v.t, w.t.replies[w.t.buffer]);
    }
  }

  lemma SendWorksKeepsInv(w: World, v: World, id: nat)
    requires Inv(w) && SendWorks(w, v, id)
    ensures Inv(v)
  {
    SendKeepsCore(w, v, id, 0, false, Allow(true, true));
    forall i | 0 <= i < |v.t.recs| ensures OpenIsEntered(v.t, i) { assert OpenIsEntered(w.t, i); }
  }

  lemma MessageKeepsInv(w: World, v: World, s: nat, m: Msg, now: nat)
    requires Inv(w) && (Arrive(w, v, s) || Receive(w, v, s, m, now) || FnEnds(w, v) || Finish(w, v) || Stop(w, v))
    ensures Inv(v)
  {
    MessageKeepsCore(w, v, s, m, now);
    forall i | 0 <= i < |v.t.recs| ensures OpenIsEntered(v.t, i) { assert OpenIsEntered(w.t, i); }
  }

  lemma FlushKeepsInv(w: World, v: World, now: nat, stopping: bool)
    requires Inv(w) && (Flush(w, v, now, stopping) || Exit(w, v, now))
    ensures Inv(v)
  {
    FlushKeepsCore(w, v, now, stopping);
    forall i | 0 <= i < |v.t.recs| ensures OpenIsEntered(v.t, i) && (v.exited ==> !Open(v.t.recs[i])) {
      assert OpenIsEntered(w.t, i);
    }
  }

  lemma NextKeepsInv(w: World, v: World, a: Allow)
    requires Inv(w) && Next(w, v, a) && !a.foreignErasure && !a.lap
    ensures Inv(v)
  {
    hide Inv, NoLap, OwnNumber, Register, SendWorks, SendFails, Arrive, Receive, FnEnds, Finish, Flush, Stop, Exit;
    var n: nat, now: nat, flag: bool, m: Msg :| Step(w, v, n, now, flag, m, a);
    if Register(w, v, n, flag, now) && NoLap(w, n) { RegisterKeepsInvIff(w, v, n, flag, now); }
    else if SendWorks(w, v, n) { SendWorksKeepsInv(w, v, n); }
    else if SendFails(w, v, n) && OwnNumber(w.t, n) { FailureKeepsInvIff(w, v, n); }
    else if Flush(w, v, now, flag) || Exit(w, v, now) { FlushKeepsInv(w, v, now, flag); }
    else { MessageKeepsInv(w, v, n, m, now); }
  }

  lemma {:induction false} RunKeepsInv(ws: seq<World>, a: Allow, i: nat)
    requires Run(ws, a) && !a.foreignErasure && !a.lap && i < |ws|
    ensures Inv(ws[i])
    decreases i
  {
    hide Next;
    if i > 0 {
      RunKeepsInv(ws, a, i - 1);
      NextKeepsInv(ws[i - 1], ws[i], a);
    }
  }

  /** Requests still to be completed have different numbers, none of them zero, and lie in the table. */
  lemma LiveNumbersDiffer(ws: seq<World>, a: Allow, k: nat, i: nat, j: nat)
    requires Run(ws, a) && !a.foreignErasure && !a.lap && k < |ws| && i < j < |ws[k].t.recs|
    requires Open(ws[k].t.recs[i]) && Open(ws[k].t.recs[j])
    ensures ws[k].t.recs[i].seqNo != ws[k].t.recs[j].seqNo && ws[k].t.recs[i].seqNo != 0 && ws[k].t.recs[j].seqNo != 0
    ensures ws[k].t.recs[i].seqNo in ws[k].t.replies && ws[k].t.recs[j].seqNo in ws[k].t.replies
  {
    RunKeepsInv(ws, a, k);
    assert OpenIsEntered(ws[k].t, i) && OpenIsEntered(ws[k].t, j);
  }

  /** Once the receiving thread has ended every request that was sent has been completed, exactly once. */
  lemma NobodyWaitsForEver(ws: seq<World>, a: Allow, i: nat, id: nat)
    requires Run(ws, a) && !a.foreignErasure && !a.lap && i < |ws| && ws[i].exited
    requires id < |ws[i].t.recs| && !ws[i].t.recs[id].phase.Failed?
    ensures |ws[i].t.recs[id].completions| == 1
  {
    RunKeepsInv(ws, a, i);
    assert Counted(ws[i].t, id) && !Open(ws[i].t.recs[id]);
  }

  // ---------------------------------------------------------------- lost requests

  /** A sender waits for a request that is neither in the table nor being answered. */
  ghost predicate Lost(w: World, id: nat) {
    && id < |w.t.recs| && w.t.recs[id].phase.Waiting? && !w.t.recs[id].done && !Entered(w.t, id)
    && !(w.h.Handling? && w.h.found == Some(id))
  }

  lemma LostInSend(w: World, v: World, n: nat, now: nat, flag: bool, a: Allow, id: nat)
    requires Core(w) && Lost(w, id) && SendStep(w, v, n, now, flag, a)
    ensures Lost(v, id)
  {
    hide Picked, NoLap, OwnNumber, Counted;
  }

  lemma LostInMessage(w: World, v: World, s: nat, m: Msg, now: nat, id: nat)
    requires Core(w) && Lost(w, id)
    requires Arrive(w, v, s) || Receive(w, v, s, m, now) || FnEnds(w, v) || Finish(w, v) || Stop(w, v)
    ensures Lost(v, id)
  {
    hide Counted;
  }

  lemma LostInFlush(w: World, v: World, now: nat, stopping: bool, id: nat)
    requires Lost(w, id) && (Flush(w, v, now, stopping) || Exit(w, v, now))
    ensures Lost(v, id)
  {
  }

  /** Nothing completes it any more, not even the last flush: its sender waits for ever. */
  lemma LostStaysLost(w: World, v: World, a: Allow, id: nat)
    requires Core(w) && Lost(w, id) && Next(w, v, a)
    ensures Lost(v, id)
  {
    hide Core, Lost, SendStep, Arrive, Receive, FnEnds, Finish, Flush, Stop, Exit;
    var n: nat, now: nat, flag: bool, m: Msg :| Step(w, v, n, now, flag, m, a);
    if SendStep(w, v, n, now, flag, a) {
      LostInSend(w, v, n, now, flag, a, id);
    } else if Flush(w, v, now, flag) || Exit(w, v, now) {
      LostInFlush(w, v, now, flag, id);
    } else {
      LostInMessage(w, v, n, m, now, id);
    }
  }

  // ---------------------------------------------------------------- two runs that lose a request

  ghost predicate Reachable(w: World, a: Allow) {
    exists ws :: ws != [] && Run(ws, a) && ws[|ws| - 1] == w
  }

  lemma InitIsReachable(w: World, a: Allow)
    requires Init(w)
    ensures Reachable(w, a)
  {
    assert Run([w], a);
  }

  lemma Reach(w: World, v: World, n: nat, now: nat, flag: bool, m: Msg, a: Allow)
    requires Reachable(w, a) && Step(w, v, n, now, flag, m, a)
    ensures Reachable(v, a)
  {
    hide Step, Init;
    var ws :| ws != [] && Run(ws, a) && ws[|ws| - 1] == w;
    var r := ws + [v];
    forall i | 0 < i < |r| ensures Next(r[i - 1], r[i], a) {
      if i < |ws| { assert Next(ws[i - 1], ws[i], a); }
    }
    assert Run(r, a);
  }

  /** The counter's own number is picked when it is not in use. */
  lemma PicksNext(t: Table)
    requires 0 < t.sequence < U32 && !InUse(t, t.sequence)
    ensures Picked(t, t.sequence)
  {
    assert t.sequence == Ahead(t.sequence, 0);
  }

  lemma Registers(w: World, now: nat, a: Allow) returns (v: World)
    requires Reachable(w, a) && !w.t.stop && 0 < w.t.sequence < U32 && !InUse(w.t, w.t.sequence)
    requires a.lap || NoLap(w, w.t.sequence)
    ensures v == w.(t := Registered(w.t, w.t.sequence, false, now)) && Reachable(v, a)
  {
    hide Picked;
    PicksNext(w.t);
    v := w.(t := Registered(w.t, w.t.sequence, false, now));
    assert Register(w, v, w.t.sequence, false, now);
    Reach(w, v, w.t.sequence, now, false, Finished, a);
  }

  /**
   * Two senders share the buffer: one registers, another registers and sends, and then the first
   * one's sendto fails and erases the other's request. The counter has not lapped anything.
   */
  lemma ForeignErasureLoses(w: World, a: Allow) returns (v: World)
    requires Init(w) && a.foreignErasure
    ensures Reachable(v, a) && Lost(v, 1) && v.t.sequence == 3
  {
    InitIsReachable(w, a);
    hide Reachable;
    var x := Registers(w, 0, a);
    var y := Registers(x, 0, a);
    var z := y.(t := SendDone(y.t, 1));
    assert SendWorks(y, z, 1);
    Reach(y, z, 1, 0, false, Finished, a);
    v := z.(t := SendFailed(z.t, 0));
    assert SendFails(z, v, 0);
    Reach(z, v, 0, 0, false, Finished, a);
  }

  /** The numbers from the counter on are taken, one after the other, by requests that fail in sendto. */
  lemma {:induction false} Spins(w: World, n: nat, a: Allow) returns (v: World)
    requires Reachable(w, a) && a.lap && !w.t.stop && 0 < w.t.sequence < U32
    requires w.t.replies == map[] && w.t.known == map[]
    ensures Reachable(v, a) && v == w.(t := v.t) && !v.t.stop
    ensures v.t.replies == map[] && v.t.known == map[] && v.t.sequence == Ahead(w.t.sequence, n)
    ensures |v.t.recs| >= |w.t.recs| && v.t.recs[..|w.t.recs|] == w.t.recs
    decreases n
  {
    hide Reachable, Ahead;
    if n == 0 {
      Zero(w.t.sequence);
      v := w;
      assert v.t.recs[..|w.t.recs|] == w.t.recs;
    } else {
      var x := Spins(w, n - 1, a);
      OneAhead(w.t.sequence, n - 1);
      AheadIsNumber(w.t.sequence, n - 1);
      var y := Registers(x, 0, a);
      var id := |x.t.recs|;
      v := y.(t := SendFailed(y.t, id));
      assert y.t.replies - {y.t.buffer} == map[] && y.t.known - {y.t.buffer} == map[];
      assert SendFails(y, v, id) && OwnNumber(y.t, id);
      Reach(y, v, id, 0, false, Finished, a);
      assert v.t.recs[..|w.t.recs|] == x.t.recs[..|w.t.recs|];
    }
  }

  lemma AheadIsNumber(s: nat, n: nat)
    requires 0 < s < U32
    ensures 0 < Ahead(s, n) < U32
  {
    hide Ahead;
    AheadIs(s, n);
  }

  /**
   * A reply arrives although the request's sendto then fails; while the reply is being handled the
   * counter goes all the way round, and a new request takes the number. The end of the handling
   * removes the new request.
   */
  lemma LapLoses(w: World, a: Allow) returns (v: World, id: nat)
    requires Init(w) && a.lap
    ensures Reachable(v, a) && Lost(v, id)
  {
    InitIsReachable(w, a);
    hide Reachable, Ahead;
    var x := Registers(w, 0, a);
    var y := x.(t := Arrived(x.t, 1));
    assert Arrive(x, y, 1);
    Reach(x, y, 1, 0, false, Finished, a);
    var z := y.(t := LookedUp(y.t, 1, 0), h := Found(y.t, 1), m := Finished);
    assert Receive(y, z, 1, Finished, 0);
    Reach(y, z, 1, 0, false, Finished, a);
    var f := z.(t := SendFailed(z.t, 0));
    assert SendFails(z, f, 0) && OwnNumber(z.t, 0);
    Reach(z, f, 0, 0, false, Finished, a);
    assert f.t.replies == map[] && f.t.known == map[] && f.t.sequence == 2;
    var n: nat :| n == U32 - 2;
    var g := Spins(f, n, a);
    AheadIs(2, n);
    assert g.t.sequence == 1;
    var p := Registers(g, 0, a);
    id := |g.t.recs|;
    var q := p.(t := SendDone(p.t, id));
    assert SendWorks(p, q, id);
    Reach(p, q, id, 0, false, Finished, a);
    v := q.(t := Closed(q.t, q.h, q.m), h := Idle);
    assert Finish(q, v);
    Reach(q, v, 0, 0, false, Finished, a);
  }

  ghost predicate NobodyLost(a: Allow) {
    forall w, id | Reachable(w, a) :: !Lost(w, id)
  }

  /** No reachable state has a lost request exactly when neither erasures nor laps occur. */
  lemma NobodyLostIff(a: Allow)
    ensures NobodyLost(a) <==> !a.foreignErasure && !a.lap
  {
    var w := World(Table(map[], map[], 1, 0, [], false), Idle, Finished, false);
    hide Run, Lost;
    if a.foreignErasure {
      var v := ForeignErasureLoses(w, a);
    } else if a.lap {
      var v, id := LapLoses(w, a);
    } else {
      forall w, id | Reachable(w, a) ensures !Lost(w, id) {
        var ws :| ws != [] && Run(ws, a) && ws[|ws| - 1] == w;
        RunKeepsInv(ws, a, |ws| - 1);
        InvLosesNobody(w, id);
      }
    }
  }

  lemma InvLosesNobody(w: World, id: nat)
    requires Inv(w)
    ensures !Lost(w, id)
  {
    if id < |w.t.recs| { assert OpenIsEntered(w.t, id); }
  }
}
