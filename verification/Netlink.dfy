/**
 * The request table of Netlink.cpp: sequence numbers, replies and promises. Each function is one
 * locked stretch of Send, handle_msg or flush_replies.
 */
module Netlink {
  import opened Wrappers

  const U32 := 0x1_0000_0000
  const ECANCELED := 125
  const ETIMEDOUT := 110

  // steady_clock ticks
  const REPLY_AGE := 1_000_000_000
  const KNOWN_AGE := 10_000_000_000

  /** How a promise is completed. */
  datatype Result = Value(v: int) | Exception

  /** Where the sending thread is: in sendto, waiting for the promise, or out with an error. */
  datatype Phase = Sending | Waiting | Failed

  /** A ReplyRec and its request; completions are all the completions its promise was given. */
  datatype Rec = Rec(seqNo: nat, hasFn: bool, age: nat, done: bool, completions: seq<Result>, phase: Phase)

  /**
   * The fields of Netlink; every request ever made, in replies by its number. buffer is the number
   * in the header at the front of _data, which all senders and the receiving thread share.
   */
  datatype Table =
    Table(replies: map<nat, nat>, known: map<nat, nat>, sequence: nat, buffer: nat, recs: seq<Rec>, stop: bool)

  /** The message being handled: its sequence number, the request found for it, and that request's done flag then. */
  datatype Handling = Idle | Handling(seqNo: nat, found: Option<nat>, done: bool)

  /** NLMSG_ERROR with its code, NLMSG_DONE, or another type, which may be one of several. */
  datatype Msg = Error(code: int) | Finished | Data(multi: bool)

  // ---------------------------------------------------------------- sequence numbers

  predicate InUse(t: Table, s: nat) {
    s in t.replies || s in t.known
  }

  /** The number after s: zero is skipped. */
  function After(s: nat): nat {
    if (s + 1) % U32 == 0 then 1 else (s + 1) % U32
  }

  /** What comes i numbers behind s. */
  function Ahead(s: nat, i: nat): nat {
    if i == 0 then s else After(Ahead(s, i - 1))
  }

  /** The n-th number, counted from one round to the next. */
  function Nth(n: nat): nat {
    n % (U32 - 1) + 1
  }

  lemma {:induction false} AheadIs(s: nat, i: nat)
    requires 0 < s < U32
    ensures Ahead(s, i) == Nth(s - 1 + i)
  {
    hide Nth, After;
    if i == 0 {
      FirstRound(s - 1);
    } else {
      AheadIs(s, i - 1);
      NthStep(s - 1 + i - 1);
    }
  }

  lemma FirstRound(n: nat)
    requires n < U32 - 1
    ensures Nth(n) == n + 1
  {
  }

  lemma NthStep(n: nat)
    ensures Nth(n + 1) == After(Nth(n))
  {
    var q, r := n / (U32 - 1), n % (U32 - 1);
    assert n == (U32 - 1) * q + r;
    if r == U32 - 2 {
      assert n + 1 == (U32 - 1) * (q + 1);
    } else {
      assert n + 1 == (U32 - 1) * q + (r + 1);
    }
  }

  /** No number comes twice in one round. */
  lemma AheadDistinct(s: nat, i: nat, j: nat)
    requires 0 < s < U32 && i < j < U32 - 1
    ensures Ahead(s, i) != Ahead(s, j)
  {
    AheadIs(s, i);
    AheadIs(s, j);
    ModsDiffer(s - 1 + i, s - 1 + j);
  }

  lemma ModsDiffer(a: nat, b: nat)
    requires a < b < a + U32 - 1
    ensures a % (U32 - 1) != b % (U32 - 1)
  {
    assert b - a == (U32 - 1) * (b / (U32 - 1) - a / (U32 - 1)) + (b % (U32 - 1) - a % (U32 - 1));
  }

  /** The numbers passed over. */
  ghost function Passed(s: nat, n: nat): set<nat> {
    if n == 0 then {} else Passed(s, n - 1) + {Ahead(s, n - 1)}
  }

  lemma {:induction false} PassedIs(s: nat, n: nat, k: nat)
    requires k in Passed(s, n)
    ensures exists i: nat :: i < n && k == Ahead(s, i)
  {
    hide Ahead;
    if k in Passed(s, n - 1) {
      PassedIs(s, n - 1, k);
    } else {
      assert k == Ahead(s, n - 1);
    }
  }

  lemma {:induction false} PassedCount(s: nat, n: nat)
    requires 0 < s < U32 && n < U32
    ensures |Passed(s, n)| == n
  {
    hide Ahead;
    if n > 0 {
      PassedCount(s, n - 1);
      assert Ahead(s, n - 1) !in Passed(s, n - 1) by { NotPassed(s, n - 1); }
    }
  }

  lemma NotPassed(s: nat, n: nat)
    requires 0 < s < U32 && n < U32 - 1
    ensures Ahead(s, n) !in Passed(s, n)
  {
    hide Ahead, Passed;
    if Ahead(s, n) in Passed(s, n) {
      PassedIs(s, n, Ahead(s, n));
      var i: nat :| i < n && Ahead(s, n) == Ahead(s, i);
      AheadDistinct(s, i, n);
    }
  }

  /**
   * Send's loop: the first number from here on that is neither live nor recently known. It ends
   * because not all numbers are in use.
   */
  method PickSequence(sequence: nat, used: set<nat>) returns (s: nat, next: nat, ghost n: nat)
    requires 0 < sequence < U32 && |used| < U32 - 1
    ensures s == Ahead(sequence, n) && s !in used && 0 < s < U32 && next == After(s) && 0 < next < U32
    ensures forall i: nat | i < n :: Ahead(sequence, i) in used
  {
    hide Ahead;
    n := 0;
    s := sequence;
    Zero(sequence);
    while s in used
      invariant s == Ahead(sequence, n) && 0 < s < U32 && n <= |used|
      invariant Passed(sequence, n) <= used
      invariant forall i: nat | i < n :: Ahead(sequence, i) in used
      decreases |used| - n
    {
      OneAhead(sequence, n);
      PassedCount(sequence, n + 1);
      Subset(Passed(sequence, n + 1), used);
      s := After(s);
      n := n + 1;
    }
    next := After(s);
  }

  lemma Zero(s: nat)
    ensures Ahead(s, 0) == s
  {
  }

  lemma OneAhead(s: nat, n: nat)
    ensures Ahead(s, n + 1) == After(Ahead(s, n))
  {
  }

  lemma {:induction false} Subset(a: set<nat>, b: set<nat>)
    requires a <= b
    ensures |a| <= |b|
  {
    if a != {} {
      var x :| x in a;
      Subset(a - {x}, b - {x});
    }
  }

  // ---------------------------------------------------------------- Send

  /** The number Send's loop picks: the first one from the counter on that is not in use. */
  ghost predicate Picked(t: Table, s: nat) {
    && 0 < s < U32 && !InUse(t, s)
    && exists n: nat :: s == Ahead(t.sequence, n) && forall i: nat | i < n :: InUse(t, Ahead(t.sequence, i))
  }

  /** A request with this number is entered, and its header written. */
  function Registered(t: Table, s: nat, hasFn: bool, now: nat): Table {
    t.(replies := t.replies[s := |t.recs|], known := t.known[s := now], sequence := After(s), buffer := s,
       recs := t.recs + [Rec(s, hasFn, now, false, [], Sending)])
  }

  /** sendto failed: whatever is entered under the number that is in the buffer by then goes. */
  function SendFailed(t: Table, id: nat): Table
    requires id < |t.recs|
  {
    t.(replies := t.replies - {t.buffer}, known := t.known - {t.buffer},
       recs := t.recs[id := t.recs[id].(phase := Failed)])
  }

  function SendDone(t: Table, id: nat): Table
    requires id < |t.recs|
  {
    t.(recs := t.recs[id := t.recs[id].(phase := Waiting)])
  }

  // ---------------------------------------------------------------- receiving

  function Arrived(t: Table, s: nat): Table {
    t.(buffer := s)
  }

  // ---------------------------------------------------------------- handle_msg

  function Completed(r: Rec, x: Result): Rec {
    r.(done := true, completions := r.completions + [x])
  }

  /** The first locked stretch: the request of the message's number, made younger. */
  function LookedUp(t: Table, s: nat, now: nat): Table
    requires s in t.replies ==> t.replies[s] < |t.recs|
  {
    if s in t.replies then
      t.(recs := t.recs[t.replies[s] := t.recs[t.replies[s]].(age := now)], known := t.known[s := now])
    else t
  }

  function Found(t: Table, s: nat): Handling
    requires s in t.replies ==> t.replies[s] < |t.recs|
  {
    if s in t.replies then Handling(s, Some(t.replies[s]), t.recs[t.replies[s]].done) else Handling(s, None, true)
  }

  predicate HasFn(t: Table, h: Handling) {
    h.Handling? && h.found.Some? && h.found.value < |t.recs| && t.recs[h.found.value].hasFn
  }

  /** Is the request's function called? */
  predicate Calls(t: Table, h: Handling, m: Msg) {
    h.Handling? && !h.done && HasFn(t, h) && m.Data?
  }

  /** The function returned false: the request is complete. */
  function FnSaidNo(t: Table, h: Handling): Table
    requires h.Handling? && h.found.Some? && h.found.value < |t.recs|
  {
    t.(recs := t.recs[h.found.value := Completed(t.recs[h.found.value], Value(0))])
  }

  /** The function threw. */
  function FnThrew(t: Table, h: Handling): Table
    requires h.Handling? && h.found.Some? && h.found.value < |t.recs|
  {
    t.(recs := t.recs[h.found.value := Completed(t.recs[h.found.value], Exception)], replies := t.replies - {h.seqNo})
  }

  /** The last locked stretch: the reply is complete, or more messages are to come. */
  function Closed(t: Table, h: Handling, m: Msg): Table
    requires h.Handling? && (h.found.Some? ==> h.found.value < |t.recs|)
  {
    if m.Error? && m.code == 0 && HasFn(t, h) then t
    else if m.Data? && m.multi then t
    else
      var x := Value(if m.Error? then m.code else 0);
      var u := t.(known := t.known - {h.seqNo});
      if h.found.None? then u
      else
        var r := t.recs[h.found.value];
        u.(replies := t.replies - {h.seqNo}, recs := if r.done then t.recs else t.recs[h.found.value := Completed(r, x)])
  }

  // ---------------------------------------------------------------- flush_replies

  predicate Expired(t: Table, s: nat, now: nat, isExit: bool)
    requires s in t.replies ==> t.replies[s] < |t.recs|
  {
    s in t.replies && (isExit || t.recs[t.replies[s]].age + REPLY_AGE < now)
  }

  ghost predicate Indexed(t: Table) {
    forall s | s in t.replies :: t.replies[s] < |t.recs| && t.recs[t.replies[s]].seqNo == s
  }

  /** What becomes of a request: cancelled or timed out, unless it is done. */
  function FlushedRec(t: Table, i: nat, now: nat, isExit: bool): Rec
    requires i < |t.recs| && (t.recs[i].seqNo in t.replies ==> t.replies[t.recs[i].seqNo] < |t.recs|)
  {
    var r := t.recs[i];
    if r.seqNo in t.replies && t.replies[r.seqNo] == i && Expired(t, r.seqNo, now, isExit) && !r.done then
      Completed(r, Value(if isExit then -ECANCELED else -ETIMEDOUT))
    else r
  }

  ghost function Flushed(t: Table, now: nat, isExit: bool): Table
    requires Indexed(t)
  {
    t.(replies := t.replies - (set s | s in t.replies && Expired(t, s, now, isExit)),
       known := t.known - (set s | s in t.known && (isExit || t.known[s] + KNOWN_AGE < now)),
       recs := seq(|t.recs|, i requires 0 <= i < |t.recs| => FlushedRec(t, i, now, isExit)))
  }

  // ---------------------------------------------------------------- the class

  class RequestTable {
    var replies: map<nat, nat>
    var known: map<nat, nat>
    var sequence: nat
    var buffer: nat
    var recs: seq<Rec>
    var stop: bool

    ghost function View(): Table
      reads this
    {
      Table(replies, known, sequence, buffer, recs, stop)
    }

    ghost predicate Valid()
      reads this
    {
      0 < sequence < U32 && Indexed(View())
    }

    constructor ()
      ensures Valid() && View() == Table(map[], map[], 1, 0, [], false)
    {
      replies, known, sequence, buffer, recs, stop := map[], map[], 1, 0, [], false;
    }

    /** Send up to sendto: None when stopped, else the request. */
    method Register(hasFn: bool, now: nat) returns (id: Option<nat>)
      requires Valid() && |replies.Keys + known.Keys| < U32 - 1
      modifies this
      ensures Valid() && (id.None? <==> old(stop))
      ensures id.None? ==> View() == old(View())
      ensures id.Some? ==>
                exists s :: Picked(old(View()), s) && View() == Registered(old(View()), s, hasFn, now)
    {
      if stop {
        return None;
      }
      ghost var was := View();
      var used := replies.Keys + known.Keys;
      var s, next, n := PickSequence(sequence, used);
      assert !InUse(was, s);
      assert Picked(was, s) by { assert forall i: nat | i < n :: InUse(was, Ahead(was.sequence, i)); }
      sequence, buffer := next, s;
      known := known[s := now];
      replies := replies[s := |recs|];
      recs := recs + [Rec(s, hasFn, now, false, [], Sending)];
      id := Some(|recs| - 1);
      assert View() == Registered(was, s, hasFn, now);
    }

    /** Send behind sendto. */
    method Sent(id: nat, ok: bool)
      requires Valid() && id < |recs|
      modifies this
      ensures Valid() && View() == if ok then SendDone(old(View()), id) else SendFailed(old(View()), id)
    {
      if ok {
        recs := recs[id := recs[id].(phase := Waiting)];
      } else {
        replies := replies - {buffer};
        known := known - {buffer};
        recs := recs[id := recs[id].(phase := Failed)];
      }
    }

    /** recvfrom: a message's header comes into the buffer. */
    method Arrive(s: nat)
      requires Valid()
      modifies this`buffer
      ensures Valid() && View() == Arrived(old(View()), s)
    {
      buffer := s;
    }

    /** handle_msg, first stretch, for a number that is not zero. */
    method Lookup(s: nat, now: nat) returns (h: Handling)
      requires Valid()
      modifies this
      ensures Valid() && View() == LookedUp(old(View()), s, now) && h == Found(old(View()), s)
    {
      if s in replies {
        var id := replies[s];
        h := Handling(s, Some(id), recs[id].done);
        recs := recs[id := recs[id].(age := now)];
        known := known[s := now];
      } else {
        h := Handling(s, None, true);
      }
    }

    /** handle_msg, when the function returned false or threw. */
    method FnEnded(h: Handling, threw: bool)
      requires Valid() && h.Handling? && h.found.Some? && h.found.value < |recs|
      modifies this
      ensures Valid() && View() == if threw then FnThrew(old(View()), h) else FnSaidNo(old(View()), h)
    {
      recs := recs[h.found.value := Completed(recs[h.found.value], if threw then Exception else Value(0))];
      if threw {
        replies := replies - {h.seqNo};
      }
    }

    /** handle_msg, last stretch. */
    method Close(h: Handling, m: Msg)
      requires Valid() && h.Handling? && (h.found.Some? ==> h.found.value < |recs|)
      modifies this
      ensures Valid() && View() == Closed(old(View()), h, m)
    {
      var hasFn := h.found.Some? && recs[h.found.value].hasFn;
      match m {
        case Error(code) =>
          if code != 0 || !hasFn {
            CloseReply(h, code);
            known := known - {h.seqNo};
          }
        case Finished =>
          CloseReply(h, 0);
          known := known - {h.seqNo};
        case Data(multi) =>
          if !multi {
            CloseReply(h, 0);
            known := known - {h.seqNo};
          }
      }
    }

    method CloseReply(h: Handling, code: int)
      requires Valid() && h.Handling? && (h.found.Some? ==> h.found.value < |recs|)
      modifies this`recs, this`replies
      ensures Valid()
      ensures h.found.None? ==> recs == old(recs) && replies == old(replies)
      ensures h.found.Some? ==> replies == old(replies) - {h.seqNo}
      ensures h.found.Some? ==>
                var id := h.found.value;
                recs == if old(recs)[id].done then old(recs) else old(recs)[id := Completed(old(recs)[id], Value(code))]
    {
      if h.found.Some? {
        var id := h.found.value;
        if !recs[id].done {
          recs := recs[id := Completed(recs[id], Value(code))];
        }
        replies := replies - {h.seqNo};
      }
    }

    /** flush_replies. */
    method Flush(now: nat, isExit: bool)
      requires Valid()
      modifies this
      ensures Valid() && View() == Flushed(old(View()), now, isExit)
    {
      ghost var was := View();
      FlushReplies(now, isExit);
      FlushKnown(now, isExit);
    }

    method FlushReplies(now: nat, isExit: bool)
      requires Valid()
      modifies this`replies, this`recs
      ensures Valid()
      ensures replies == Flushed(old(View()), now, isExit).replies && recs == Flushed(old(View()), now, isExit).recs
    {
      hide Flushing, Expired, Flushed, Indexed;
      ghost var was := View();
      var todo := replies.Keys;
      StartFlush(was, now, isExit);
      while todo != {}
        invariant todo <= was.replies.Keys && Flushing(was, now, isExit, todo, replies, recs)
        decreases |todo|
      {
        var s :| s in todo;
        FlushNext(was, now, isExit, todo, replies, recs, s);
        todo := todo - {s};
        var id := replies[s];
        if isExit || recs[id].age + REPLY_AGE < now {
          if !recs[id].done {
            recs := recs[id := Completed(recs[id], Value(if isExit then -ECANCELED else -ETIMEDOUT))];
          }
          replies := replies - {s};
        }
      }
      FlushEnds(was, now, isExit, replies, recs);
      assert View() == was.(replies := replies, recs := recs);
    }

    method FlushKnown(now: nat, isExit: bool)
      requires Indexed(View())
      modifies this`known
      ensures known == Flushed(old(View()), now, isExit).known
    {
      hide FlushedRec, Expired, Indexed;
      ghost var was := known;
      var todo := known.Keys;
      while todo != {}
        invariant todo <= was.Keys
        invariant known == was - (set s | s in was && s !in todo && (isExit || was[s] + KNOWN_AGE < now))
        decreases |todo|
      {
        var s :| s in todo;
        todo := todo - {s};
        if isExit || known[s] + KNOWN_AGE < now {
          known := known - {s};
        }
      }
    }
  }

  /** The loop of flush_replies: all numbers but those in todo have been seen to. */
  ghost predicate Flushing(was: Table, now: nat, isExit: bool, todo: set<nat>, replies: map<nat, nat>, recs: seq<Rec>) {
    && Indexed(was) && |recs| == |was.recs|
    && replies == was.replies - (set s | s in was.replies && s !in todo && Expired(was, s, now, isExit))
    && forall i | 0 <= i < |recs| ::
         recs[i] == if was.recs[i].seqNo in todo then was.recs[i] else FlushedRec(was, i, now, isExit)
  }

  lemma StartFlush(was: Table, now: nat, isExit: bool)
    requires Indexed(was)
    ensures Flushing(was, now, isExit, was.replies.Keys, was.replies, was.recs)
  {
  }

  lemma {:induction false} FlushNext(was: Table, now: nat, isExit: bool, todo: set<nat>, replies: map<nat, nat>,
                                     recs: seq<Rec>, s: nat)
    requires Flushing(was, now, isExit, todo, replies, recs) && s in todo && todo <= was.replies.Keys
    ensures s in replies && replies[s] == was.replies[s] < |recs| && recs[replies[s]] == was.recs[replies[s]]
    ensures Expired(was, s, now, isExit) <==> isExit || recs[replies[s]].age + REPLY_AGE < now
    ensures var id := replies[s];
            var gone := Expired(was, s, now, isExit);
            Flushing(was, now, isExit, todo - {s}, if gone then replies - {s} else replies,
                     if gone && !recs[id].done then recs[id := Completed(recs[id], Value(if isExit then -ECANCELED else -ETIMEDOUT))] else recs)
  {
    var id := replies[s];
    assert was.recs[id].seqNo == s;
  }

  lemma FlushEnds(was: Table, now: nat, isExit: bool, replies: map<nat, nat>, recs: seq<Rec>)
    requires Flushing(was, now, isExit, {}, replies, recs)
    ensures replies == Flushed(was, now, isExit).replies && recs == Flushed(was, now, isExit).recs
    ensures Indexed(was.(replies := replies, recs := recs))
  {
  }
}
