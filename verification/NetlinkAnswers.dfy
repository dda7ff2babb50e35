/** What the sender of a NETLINK request is told, in every run. */
module NetlinkAnswers {
  import opened Netlink
  import opened NetlinkRuns
  import opened Wrappers

  /** The steps of a run, with what the request's function did. */
  datatype Act =
    | Registers(s: nat, hasFn: bool, now: nat)
    | SendReturns(id: nat)
    | SendReturnsError(id: nat)
    | Arrives(s: nat)
    | Receives(s: nat, m: Msg, now: nat)
    | FnSaysNo
    | FnThrows
    | Ends                               // the function, if it was called, said yes
    | Flushes(now: nat, stopping: bool)
    | Stops
    | Exits(now: nat)

  ghost predicate Does(w: World, act: Act, v: World) {
    match act
    case Registers(s, hasFn, now) => Register(w, v, s, hasFn, now)
    case SendReturns(id) => SendWorks(w, v, id)
    case SendReturnsError(id) => SendFails(w, v, id)
    case Arrives(s) => Arrive(w, v, s)
    case Receives(s, m, now) => Receive(w, v, s, m, now)
    case FnSaysNo => Calls(w.t, w.h, w.m) && v == w.(t := FnSaidNo(w.t, w.h), h := Idle)
    case FnThrows => Calls(w.t, w.h, w.m) && v == w.(t := FnThrew(w.t, w.h), h := Idle)
    case Ends => Finish(w, v)
    case Flushes(now, stopping) => Flush(w, v, now, stopping)
    case Stops => Stop(w, v)
    case Exits(now) => Exit(w, v, now)
  }

  lemma StepDoes(w: World, v: World, n: nat, now: nat, flag: bool, m: Msg, a: Allow) returns (act: Act)
    requires Step(w, v, n, now, flag, m, a)
    ensures Does(w, act, v)
  {
    hide Register, SendWorks, SendFails, Arrive, Receive, Finish, Flush, Stop, Exit, FnSaidNo, FnThrew;
    act :=
      if Register(w, v, n, flag, now) then Registers(n, flag, now)
      else if SendWorks(w, v, n) then SendReturns(n)
      else if SendFails(w, v, n) then SendReturnsError(n)
      else if Arrive(w, v, n) then Arrives(n)
      else if Receive(w, v, n, m, now) then Receives(n, m, now)
      else if Finish(w, v) then Ends
      else if Flush(w, v, now, flag) then Flushes(now, flag)
      else if Stop(w, v) then Stops
      else if Exit(w, v, now) then Exits(now)
      else if Calls(w.t, w.h, w.m) && v == w.(t := FnSaidNo(w.t, w.h), h := Idle) then FnSaysNo
      else FnThrows;
  }

  // ---------------------------------------------------------------- what a step tells a sender

  /** The message being handled is for this request. */
  predicate IsFor(w: World, id: nat) {
    w.h.Handling? && w.h.found == Some(id)
  }

  /** The answer a message gives by itself: none, while more messages are to come. */
  function AnswerOf(m: Msg, hasFn: bool): seq<Result> {
    match m
    case Error(code) => if code == 0 && hasFn then [] else [Value(code)]
    case Finished => [Value(0)]
    case Data(multi) => if multi then [] else [Value(0)]
  }

  /** The answer of a flush to a request that is still in the table. */
  function FlushAnswer(r: Rec, now: nat, exit: bool): seq<Result> {
    if exit then [Value(-125)] else if now > r.age + 1_000_000_000 then [Value(-110)] else []
  }

  /** What a step tells the sender of a request. */
  ghost function Told(w: World, act: Act, id: nat): seq<Result>
    requires id < |w.t.recs|
  {
    var r := w.t.recs[id];
    match act
    case FnSaysNo => if IsFor(w, id) then [Value(0)] else []
    case FnThrows => if IsFor(w, id) then [Exception] else []
    case Ends => if IsFor(w, id) && !r.done then AnswerOf(w.m, r.hasFn) else []
    case Flushes(now, stopping) => if Entered(w.t, id) && !r.done then FlushAnswer(r, now, stopping) else []
    case Exits(now) => if Entered(w.t, id) && !r.done then [Value(-125)] else []
    case _ => []
  }

  /** No step tells a sender anything else, or less. */
  lemma StepTells(w: World, act: Act, v: World, id: nat)
    requires Core(w) && Does(w, act, v) && id < |w.t.recs|
    ensures |v.t.recs| >= |w.t.recs| && v.t.recs[id].completions == w.t.recs[id].completions + Told(w, act, id)
  {
    hide Picked, Flush, Exit, Core, Entered;
    match act {
      case Flushes(now, stopping) => FlushTells(w, v, now, stopping, id);
      case Exits(now) => FlushTells(w, v, now, true, id);
      case _ => CoreSays(w);
    }
  }

  lemma CoreSays(w: World)
    requires Core(w)
    ensures w.h.Handling? && w.h.found.Some? ==>
              w.h.found.value < |w.t.recs| && w.t.recs[w.h.found.value].done == w.h.done
    ensures Indexed(w.t)
  {
  }

  lemma FlushTells(w: World, v: World, now: nat, stopping: bool, id: nat)
    requires Core(w) && (Flush(w, v, now, stopping) || (stopping && Exit(w, v, now))) && id < |w.t.recs|
    ensures |v.t.recs| >= |w.t.recs|
    ensures v.t.recs[id].completions == w.t.recs[id].completions +
            if Entered(w.t, id) && !w.t.recs[id].done then FlushAnswer(w.t.recs[id], now, stopping) else []
  {
    hide Core;
    CoreSays(w);
    var r := w.t.recs[id];
    assert v.t.recs[id] == FlushedRec(w.t, id, now, stopping);
    assert r.completions + [] == r.completions;
  }

  /** A message that leaves more to come changes nothing. */
  lemma MoreChangesNothing(w: World, v: World)
    requires Core(w) && Does(w, Ends, v) && MoreToCome(w)
    ensures v.t == w.t
  {
  }

  /** A flush takes exactly the requests out of the table that are older than a second, or all at the exit. */
  lemma FlushLeaves(w: World, v: World, now: nat, stopping: bool, id: nat)
    requires Core(w) && Flush(w, v, now, stopping) && id < |w.t.recs|
    ensures id < |v.t.recs| && v.t.recs[id].seqNo == w.t.recs[id].seqNo && v.t.recs[id].hasFn == w.t.recs[id].hasFn
    ensures Entered(v.t, id) <==> Entered(w.t, id) && !stopping && now <= w.t.recs[id].age + 1_000_000_000
  {
    hide Core;
    CoreSays(w);
    assert v.t.recs[id] == FlushedRec(w.t, id, now, stopping);
  }

  /** The function is called for the data messages of a request that has one and has not been answered. */
  lemma CalledIff(w: World)
    requires Core(w)
    ensures Calls(w.t, w.h, w.m) <==>
            && w.m.Data?
            && exists id: nat :: id < |w.t.recs| && IsFor(w, id) && w.t.recs[id].hasFn && w.t.recs[id].completions == []
  {
    if w.h.Handling? && w.h.found.Some? {
      var id := w.h.found.value;
      assert id < |w.t.recs| && IsFor(w, id) && Counted(w.t, id);
    }
  }

  /** The message that ends leaves more to come. */
  predicate MoreToCome(w: World) {
    if w.h.Handling? && w.h.found.Some? && w.h.found.value < |w.t.recs| then AnswerOf(w.m, w.t.recs[w.h.found.value].hasFn) == []
    else w.m == Data(true)
  }

  /** What takes the entry of a request out of the table: its number, in a failing sendto or at the end of a message; or a flush. */
  ghost predicate TakesOut(w: World, act: Act, id: nat)
    requires id < |w.t.recs|
  {
    var r := w.t.recs[id];
    match act
    case SendReturnsError(_) => w.t.buffer == r.seqNo
    case FnThrows => w.h.Handling? && w.h.seqNo == r.seqNo
    case Ends => w.h.Handling? && w.h.found.Some? && !MoreToCome(w) && w.h.seqNo == r.seqNo
    case Flushes(now, stopping) => stopping || now > r.age + 1_000_000_000
    case Exits(_) => true
    case _ => false
  }

  /** An entry stays until one of these happens. */
  lemma EntryStaysIff(w: World, act: Act, v: World, id: nat)
    requires Core(w) && Does(w, act, v) && id < |w.t.recs|
    ensures id < |v.t.recs| && v.t.recs[id].seqNo == w.t.recs[id].seqNo && v.t.recs[id].hasFn == w.t.recs[id].hasFn
    ensures Entered(v.t, id) <==> Entered(w.t, id) && !TakesOut(w, act, id)
  {
    hide Picked, Flush, Exit, Core, Told;
    CoreSays(w);
    match act {
      case Flushes(now, stopping) => FlushLeaves(w, v, now, stopping, id);
      case Exits(now) => ExitLeaves(w, v, now, id);
      case Registers(s, hasFn, now) => PickedIsNumber(w.t, s);
      case _ =>
    }
  }

  lemma ExitLeaves(w: World, v: World, now: nat, id: nat)
    requires Core(w) && Exit(w, v, now) && id < |w.t.recs|
    ensures id < |v.t.recs| && v.t.recs[id].seqNo == w.t.recs[id].seqNo && v.t.recs[id].hasFn == w.t.recs[id].hasFn
    ensures !Entered(v.t, id)
  {
    hide Core;
    CoreSays(w);
    assert v.t.recs[id] == FlushedRec(w.t, id, now, true);
  }

  /** A request's age starts anew with every message that arrives for it, and with nothing else. */
  lemma AgeIs(w: World, act: Act, v: World, id: nat)
    requires Core(w) && Does(w, act, v) && id < |w.t.recs|
    ensures id < |v.t.recs|
    ensures v.t.recs[id].age ==
            if act.Receives? && Entered(w.t, id) && w.t.recs[id].seqNo == act.s then act.now else w.t.recs[id].age
  {
    hide Picked, Core, Told;
    CoreSays(w);
    match act {
      case Flushes(now, stopping) => assert v.t.recs[id] == FlushedRec(w.t, id, now, stopping);
      case Exits(now) => assert v.t.recs[id] == FlushedRec(w.t, id, now, true);
      case _ =>
    }
  }

  ghost function KnownSince(t: Table, s: nat): Option<nat> {
    if s in t.known then Some(t.known[s]) else None
  }

  /**
   * Since when a number counts as known: its registration, or a later message for its request. It
   * does so for ten seconds, unless its sendto fails or a message ends its request.
   */
  ghost function NowKnown(w: World, act: Act, s: nat): Option<nat> {
    var was := KnownSince(w.t, s);
    match act
    case Registers(n, _, now) => if s == n then Some(now) else was
    case SendReturnsError(_) => if s == w.t.buffer then None else was
    case Receives(n, _, now) => if s == n && n in w.t.replies then Some(now) else was
    case Ends => if w.h.Handling? && s == w.h.seqNo && !MoreToCome(w) then None else was
    case Flushes(now, stopping) => if stopping || (was.Some? && now > was.value + 10_000_000_000) then None else was
    case Exits(_) => None
    case _ => was
  }

  lemma KnownIs(w: World, act: Act, v: World, s: nat)
    requires Core(w) && Does(w, act, v)
    ensures KnownSince(v.t, s) == NowKnown(w, act, s)
  {
    hide Picked, Core, Told;
    CoreSays(w);
  }

  lemma NewIsUntold(w: World, act: Act, v: World)
    requires Does(w, act, v) && |v.t.recs| > |w.t.recs|
    ensures |v.t.recs| == |w.t.recs| + 1 && v.t.recs[|w.t.recs|].completions == [] && act.Registers?
    ensures var r := v.t.recs[|w.t.recs|];
            r.seqNo == act.s && r.hasFn == act.hasFn && r.age == act.now && !r.done && Entered(v.t, |w.t.recs|)
  {
  }

  lemma NextDoes(w: World, v: World, a: Allow) returns (act: Act)
    requires Next(w, v, a)
    ensures Does(w, act, v)
  {
    hide Step, Does;
    var n: nat, now: nat, flag: bool, m: Msg :| Step(w, v, n, now, flag, m, a);
    act := StepDoes(w, v, n, now, flag, m, a);
  }

  /** In every run: what the sender of a request has been told is what one of its steps told it. */
  lemma {:induction false} RunTells(ws: seq<World>, a: Allow, i: nat, id: nat) returns (k: nat, act: Act)
    requires Run(ws, a) && i < |ws| && id < |ws[i].t.recs| && ws[i].t.recs[id].completions != []
    ensures k < i && Does(ws[k], act, ws[k + 1]) && id < |ws[k].t.recs|
    ensures ws[i].t.recs[id].completions == Told(ws[k], act, id)
    decreases i
  {
    hide Core, Does, Next, Told;
    if i == 0 {
      assert false;
    } else {
      RunKeepsCore(ws, a, i - 1);
      act := NextDoes(ws[i - 1], ws[i], a);
      if id < |ws[i - 1].t.recs| {
        StepTells(ws[i - 1], act, ws[i], id);
        AtMostOnce(ws, a, i, id);
        if ws[i - 1].t.recs[id].completions == [] {
          k := i - 1;
        } else {
          k, act := RunTells(ws, a, i - 1, id);
        }
      } else {
        NewIsUntold(ws[i - 1], act, ws[i]);
      }
    }
  }
}
