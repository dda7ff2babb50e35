/**
 * The records of one event from the first to the last: which of them are lost, and in what order
 * the others are sent.
 */
module RawEventRuns {
  import A = AckQueue
  import opened RawEvent
  import opened Wrappers

  // ---------------------------------------------------------------- an event's history

  /** The next record that is not EOE comes, and finds something to make room when it has to. */
  ghost predicate Comes(d: Data, r: Rec, e: Data) {
    r.kind != EOE && r.size <= MAX_RECORD_SIZE && !Faults(d, r) && e == Stored(d, r)
  }

  /** The states of an event while these records come. */
  ghost predicate Gathering(ds: seq<Data>, rs: seq<Rec>) {
    && |ds| == |rs| + 1 && ds[0] == Fresh(ds[0].id)
    && forall i | 0 <= i < |rs| :: Comes(ds[i], rs[i], ds[i + 1])
  }

  /** The bytes kept so far. */
  ghost function KeptSize(d: Data): nat {
    Sum(d.records) + Sum(d.extras)
  }

  lemma {:induction false} History(ds: seq<Data>, rs: seq<Rec>, n: nat)
    requires Gathering(ds, rs) && n <= |rs|
    ensures Booked(ds[n]) && ds[n].arrivals == rs[..n]
    decreases n
  {
    hide Booked, Faults, Stored;
    if n == 0 {
      FreshIsBooked(ds[0].id);
    } else {
      History(ds, rs, n - 1);
      assert Comes(ds[n - 1], rs[n - 1], ds[n]);
      StoredKeepsBooks(ds[n - 1], rs[n - 1]);
      StoredArrival(ds[n - 1], rs[n - 1]);
      assert rs[..n] == rs[..n - 1] + [rs[n - 1]];
    }
  }

  lemma StoredArrival(d: Data, r: Rec)
    requires !Faults(d, r)
    ensures Stored(d, r).arrivals == d.arrivals + [r]
  {
    hide Victim, Without, Counted;
  }

  // ---------------------------------------------------------------- which records are lost

  /**
   * A record finds room when it comes: an EXECVE record as the first of the event, another one when
   * what is kept leaves room for it and no more than twelve EXECVE records have come.
   */
  ghost predicate FindsRoom(ds: seq<Data>, rs: seq<Rec>, i: nat)
    requires i < |rs| && i < |ds|
  {
    if rs[i].kind == EXECVE then Execs(rs[..i]) == []
    else KeptSize(ds[i]) + rs[i].size <= MAX_EVENT_SIZE && |Execs(rs[..i])| <= MAX_NUM_EXECVE_RECORDS
  }

  /**
   * A record other than EXECVE is lost exactly when what was kept left too little room for it, or
   * more than twelve EXECVE records had come before it.
   */
  lemma OtherIsLostIff(ds: seq<Data>, rs: seq<Rec>, i: nat)
    requires Gathering(ds, rs) && i < |rs| && rs[i].kind != EXECVE
    ensures var lost := KeptSize(ds[i]) + rs[i].size > 112 * 1024 || |Execs(rs[..i])| > 12;
            && ds[i + 1].records == ds[i].records + (if lost then [] else [rs[i]]) && ds[i + 1].extras == ds[i].extras
            && ds[i + 1].dropped == ds[i].dropped + (if lost then 1 else 0)
  {
    hide Subsequence, Balanced, Tallied, IsSuffix, Sum, Execs;
    History(ds, rs, i);
    assert Comes(ds[i], rs[i], ds[i + 1]);
  }

  /** The first EXECVE record stays, and no other record leaves by it. */
  lemma FirstExecveStays(ds: seq<Data>, rs: seq<Rec>, i: nat)
    requires Gathering(ds, rs) && i < |rs| && rs[i].kind == EXECVE && Execs(rs[..i]) == []
    ensures ds[i + 1].records == ds[i].records + [rs[i]] && ds[i + 1].extras == ds[i].extras == []
            && ds[i + 1].dropped == ds[i].dropped
  {
    hide Subsequence, Balanced, Tallied, IsSuffix, Sum, Execs;
    History(ds, rs, i);
    assert Comes(ds[i], rs[i], ds[i + 1]);
  }

  /**
   * A later one stays as well. An earlier one of them is lost for it exactly when it would break a
   * limit: the oldest but the latest three.
   */
  lemma LaterExecveStays(ds: seq<Data>, rs: seq<Rec>, i: nat)
    requires Gathering(ds, rs) && i < |rs| && rs[i].kind == EXECVE && Execs(rs[..i]) != []
    ensures var xs, v := ds[i].extras, if |ds[i].extras| > 3 then |ds[i].extras| - 4 else 0;
            var tight := || KeptSize(ds[i]) + rs[i].size > 112 * 1024
                         || Sum(Execs(ds[i].records)) + Sum(xs) + rs[i].size > 96 * 1024
                         || |Execs(rs[..i])| >= 12;
            && (tight ==> xs != []) && ds[i + 1].records == ds[i].records
            && ds[i + 1].extras == (if tight then xs[..v] + xs[v + 1..] else xs) + [rs[i]]
            && ds[i + 1].dropped == ds[i].dropped + (if tight then 1 else 0)
  {
    hide Subsequence, Balanced, Tallied, IsSuffix, Sum, Execs;
    History(ds, rs, i);
    assert Comes(ds[i], rs[i], ds[i + 1]);
  }

  /** The records that found room when they came, in order. */
  ghost function Staying(ds: seq<Data>, rs: seq<Rec>, n: nat): seq<Rec>
    requires n <= |rs| && n <= |ds|
  {
    if n == 0 then [] else Staying(ds, rs, n - 1) + if FindsRoom(ds, rs, n - 1) then [rs[n - 1]] else []
  }

  /** These are the records the event has at any time, but for its later EXECVE records. */
  lemma {:induction false} RecordsAreStaying(ds: seq<Data>, rs: seq<Rec>, n: nat)
    requires Gathering(ds, rs) && n <= |rs|
    ensures ds[n].records == Staying(ds, rs, n)
    decreases n
  {
    hide Gathering;
    if n == 0 {
      FreshHasNone(ds, rs);
    } else {
      RunSizes(ds, rs);
      RecordsAreStaying(ds, rs, n - 1);
      if rs[n - 1].kind != EXECVE {
        OtherIsLostIff(ds, rs, n - 1);
      } else if Execs(rs[..n - 1]) == [] {
        FirstExecveStays(ds, rs, n - 1);
      } else {
        LaterExecveStays(ds, rs, n - 1);
      }
    }
  }

  lemma FreshHasNone(ds: seq<Data>, rs: seq<Rec>)
    requires Gathering(ds, rs)
    ensures ds != [] && ds[0].records == [] && ds[0].extras == [] && ds[0].dropped == 0
  {
  }

  lemma RunSizes(ds: seq<Data>, rs: seq<Rec>)
    requires Gathering(ds, rs)
    ensures |ds| == |rs| + 1
  {
  }

  // ---------------------------------------------------------------- events within the limits

  /** The records but for the later EXECVE records, in order. */
  function NotLater(rs: seq<Rec>): seq<Rec> {
    if rs == [] then []
    else
      var n := |rs| - 1;
      NotLater(rs[..n]) + if rs[n].kind == EXECVE && Execs(rs[..n]) != [] then [] else [rs[n]]
  }

  /** All the records of an event together keep to the limits. */
  predicate WithinLimits(rs: seq<Rec>) {
    Sum(rs) <= 112 * 1024 && Sum(Execs(rs)) <= 96 * 1024 && |Execs(rs)| <= 12
  }

  lemma {:induction false} LimitsBefore(rs: seq<Rec>, n: nat)
    requires n <= |rs| && WithinLimits(rs)
    ensures WithinLimits(rs[..n])
  {
    hide Sum, Execs;
    if n == |rs| {
      assert rs[..n] == rs;
    } else {
      var m := |rs| - 1;
      assert rs == rs[..m] + [rs[m]] && rs[..m][..n] == rs[..n];
      ExecsSnoc(rs[..m], rs[m]);
      SumSnoc(rs[..m], rs[m]);
      SumSnoc(Execs(rs[..m]), rs[m]);
      LimitsBefore(rs[..m], n);
    }
  }

  /** What is kept while nothing has been lost. */
  lemma {:induction false} SizesSplit(rs: seq<Rec>)
    ensures Sum(NotLater(rs)) + Sum(Later(rs)) == Sum(rs)
    ensures Sum(Execs(NotLater(rs))) + Sum(Later(rs)) == Sum(Execs(rs))
  {
    hide Sum, Execs, Later, NotLater;
    SplitNone(rs);
    if rs != [] {
      var n := |rs| - 1;
      var r := rs[n];
      SizesSplit(rs[..n]);
      assert rs == rs[..n] + [r];
      SplitSnoc(rs[..n], r);
      ExecsSnoc(rs[..n], r);
      ExecsSnoc(NotLater(rs[..n]), r);
      LaterSnoc(rs[..n], r);
      SumSnoc(rs[..n], r);
      SumSnoc(NotLater(rs[..n]), r);
      SumSnoc(Later(rs[..n]), r);
      SumSnoc(Execs(rs[..n]), r);
      SumSnoc(Execs(NotLater(rs[..n])), r);
    }
  }

  lemma SplitNone(rs: seq<Rec>)
    ensures rs == [] ==> NotLater(rs) == Later(rs) == Execs(rs) == Execs(NotLater(rs)) == [] && Sum(rs) == 0
  {
  }

  lemma SplitSnoc(rs: seq<Rec>, r: Rec)
    ensures NotLater(rs + [r]) == if r.kind == EXECVE && Execs(rs) != [] then NotLater(rs) else NotLater(rs) + [r]
  {
    hide Execs;
    assert (rs + [r])[..|rs|] == rs;
  }

  /** Everything that has come is kept. */
  ghost predicate AllKept(d: Data) {
    && d.records == NotLater(d.arrivals) && d.extras == Later(d.arrivals) && d.dropped == 0 && d.drops == map[]
  }

  lemma StepWithin(d: Data, r: Rec)
    requires Booked(d) && AllKept(d) && WithinLimits(d.arrivals + [r])
    ensures !Faults(d, r) && AllKept(Stored(d, r))
  {
    hide CountsOk, SyscallOk, Sum, Execs, Victim, Without, Counted, Later, NotLater, KeptExtras;
    var rs := d.arrivals;
    SizesSplit(rs);
    SumSnoc(rs, r);
    ExecsSnoc(rs, r);
    SumSnoc(Execs(rs), r);
    LaterSnoc(rs, r);
    SplitSnoc(rs, r);
    NoneBefore(rs);
  }

  lemma NoneBefore(rs: seq<Rec>)
    ensures Execs(rs) == [] ==> Later(rs) == []
  {
  }

  /** An event whose records all together keep to the limits loses none of them, and keeps their order. */
  lemma {:induction false} NothingIsLost(ds: seq<Data>, rs: seq<Rec>, n: nat)
    requires Gathering(ds, rs) && WithinLimits(rs) && n <= |rs|
    ensures AllKept(ds[n]) && ds[n].arrivals == rs[..n]
    decreases n
  {
    hide Booked, Faults, Stored, WithinLimits;
    History(ds, rs, n);
    if n == 0 {
      NothingYet(ds[0].id);
    } else {
      NothingIsLost(ds, rs, n - 1);
      History(ds, rs, n - 1);
      assert rs[..n - 1] + [rs[n - 1]] == rs[..n];
      LimitsBefore(rs, n);
      assert Comes(ds[n - 1], rs[n - 1], ds[n]);
      StepWithin(ds[n - 1], rs[n - 1]);
    }
  }

  lemma NothingYet(id: A.EventId)
    ensures AllKept(Fresh(id))
  {
  }

  /** Such an event never faults, whatever its records. */
  lemma {:induction false} LimitsGather(id: A.EventId, rs: seq<Rec>) returns (ds: seq<Data>)
    requires WithinLimits(rs) && forall i | 0 <= i < |rs| :: rs[i].kind != EOE && rs[i].size <= MAX_RECORD_SIZE
    ensures Gathering(ds, rs) && ds[0].id == id
  {
    hide Booked, Faults, Stored, WithinLimits;
    ds := [Fresh(id)];
    if rs != [] {
      var n := |rs| - 1;
      LimitsBefore(rs, n);
      var before := LimitsGather(id, rs[..n]);
      NothingIsLost(before, rs[..n], n);
      History(before, rs[..n], n);
      assert rs[..n][..n] + [rs[n]] == rs;
      StepWithin(before[n], rs[n]);
      ds := before + [Stored(before[n], rs[n])];
      forall i | 0 <= i < |rs| ensures Comes(ds[i], rs[i], ds[i + 1]) {
        if i < n { assert Comes(before[i], rs[..n][i], before[i + 1]); }
      }
    }
  }

  // ---------------------------------------------------------------- the order of what is sent

  /** A sequence without the element at this place, if it has one there. */
  function LeftOut(rs: seq<Rec>, at: int): seq<Rec> {
    if 0 <= at < |rs| then rs[..at] + rs[at + 1..] else rs
  }

  predicate NoExecve(rs: seq<Rec>) {
    forall i | 0 <= i < |rs| :: rs[i].kind != EXECVE
  }

  lemma {:induction false} BodyPlain(rs: seq<Rec>, skip: int, extras: seq<Rec>)
    requires NoExecve(rs)
    ensures Body(rs, skip, extras) == Raws(LeftOut(rs, skip))
  {
    if rs != [] {
      var n := |rs| - 1;
      BodyPlain(rs[..n], skip, extras);
      assert LeftOut(rs, skip) == LeftOut(rs[..n], skip) + if n == skip then [] else [rs[n]];
    }
  }

  lemma {:induction false} BodyJoin(a: seq<Rec>, b: seq<Rec>, skip: int, extras: seq<Rec>)
    ensures Body(a + b, skip, extras) == Body(a, skip, extras) + Body(b, skip - |a|, extras)
  {
    hide Item;
    if b == [] {
      assert a + b == a;
    } else {
      var n := |b| - 1;
      BodyJoin(a, b[..n], skip, extras);
      assert (a + b)[..|a + b| - 1] == a + b[..n] && (a + b)[|a| + n] == b[n];
    }
  }

  lemma BodyOne(r: Rec, skip: int, extras: seq<Rec>)
    ensures Body([r], skip, extras) == Item(r, skip == 0, extras)
  {
    hide Item;
    assert [r][..0] == [];
    assert Body([r][..0], skip, extras) == [];
  }

  /** The place of the only EXECVE record. */
  lemma {:induction false} OnlyExecve(rs: seq<Rec>) returns (e: nat)
    requires |Execs(rs)| == 1
    ensures e < |rs| && rs[e].kind == EXECVE && NoExecve(rs[..e]) && NoExecve(rs[e + 1..])
  {
    hide Execs;
    NotNone(rs);
    var n := |rs| - 1;
    assert rs == rs[..n] + [rs[n]];
    ExecsSnoc(rs[..n], rs[n]);
    if rs[n].kind == EXECVE {
      e := n;
      NoneAmong(rs[..n]);
    } else {
      e := OnlyExecve(rs[..n]);
      assert rs[..n][..e] == rs[..e];
      assert rs[e + 1..] == rs[..n][e + 1..] + [rs[n]];
    }
  }

  lemma NotNone(rs: seq<Rec>)
    requires |Execs(rs)| == 1
    ensures rs != []
  {
  }

  lemma {:induction false} NoneAmong(rs: seq<Rec>)
    requires Execs(rs) == []
    ensures NoExecve(rs)
  {
    if rs != [] { NoneAmong(rs[..|rs| - 1]); }
  }

  /** The records but the SYSCALL record that is sent first. */
  function Others(d: Data): seq<Rec> {
    LeftOut(d.records, d.syscall)
  }

  function Front(d: Data): seq<Out>
    requires d.syscall < |d.records|
  {
    if d.syscall < 0 then [] else [Raw(d.records[d.syscall])]
  }

  function Report(d: Data): seq<Out> {
    if d.dropped > 0 then [DropReport(d.drops)] else []
  }

  /**
   * The order of an event. The first SYSCALL record comes first. The other records follow in the
   * order of their arrival; behind the EXECVE record among them, if there is one, come the later
   * EXECVE records, in their order. What was dropped is reported last, exactly when something was.
   */
  lemma OutsInOrder(d: Data) returns (e: nat)
    requires Booked(d)
    ensures -1 <= d.syscall < |d.records| && Subsequence(d.records, d.arrivals) && Subsequence(d.extras, Later(d.arrivals))
    ensures forall i | 0 <= i < |d.records| && (d.syscall < 0 || i < d.syscall) :: d.records[i].kind != SYSCALL
    ensures d.syscall >= 0 ==> d.records[d.syscall].kind == SYSCALL
    ensures d.execs == 0 ==> NoExecve(Others(d)) && Outs(d) == Front(d) + Raws(Others(d)) + Report(d)
    ensures d.execs > 0 ==>
              && e < |Others(d)| && Others(d)[e].kind == EXECVE
              && Outs(d) == Front(d) + (Raws(Others(d)[..e + 1]) + Raws(d.extras) + Raws(Others(d)[e + 1..])) + Report(d)
  {
    hide Balanced, Tallied, Sum, IsSuffix, Subsequence, Body, Execs, LeftOut, Last, Later;
    e := 0;
    if d.execs == 0 {
      NoneAmong(d.records);
      LeftOutPlain(d.records, d.syscall);
      BodyPlain(d.records, d.syscall, d.extras);
    } else {
      var at := OnlyExecve(d.records);
      e := if 0 <= d.syscall < at then at - 1 else at;
      BodyAround(d.records, at, d.syscall, d.extras, e);
    }
  }

  lemma BodyAround(rs: seq<Rec>, at: nat, skip: int, extras: seq<Rec>, e: nat)
    requires at < |rs| && rs[at].kind == EXECVE && NoExecve(rs[..at]) && NoExecve(rs[at + 1..]) && skip != at
    requires e == if 0 <= skip < at then at - 1 else at
    ensures var others := LeftOut(rs, skip);
            && e < |others| && others[e].kind == EXECVE
            && Body(rs, skip, extras) == Raws(others[..e + 1]) + Raws(extras) + Raws(others[e + 1..])
  {
    hide Body, LeftOut, NoExecve;
    var a, x, b := rs[..at], rs[at], rs[at + 1..];
    assert rs == a + ([x] + b);
    BodyJoin(a, [x] + b, skip, extras);
    BodyJoin([x], b, skip - at, extras);
    BodyPlain(a, skip, extras);
    BodyOne(x, skip - at, extras);
    BodyPlain(b, skip - at - 1, extras);
    LeftOutParts(a, x, b, skip);
    LeftOutSize(a, skip);
    Around(LeftOut(a, skip), x, LeftOut(b, skip - at - 1), extras);
  }

  lemma LeftOutPlain(rs: seq<Rec>, skip: int)
    requires NoExecve(rs)
    ensures NoExecve(LeftOut(rs, skip))
  {
  }

  lemma LeftOutSize(a: seq<Rec>, skip: int)
    ensures |LeftOut(a, skip)| == if 0 <= skip < |a| then |a| - 1 else |a|
  {
  }

  lemma Around(a: seq<Rec>, x: Rec, b: seq<Rec>, extras: seq<Rec>)
    ensures var others := a + [x] + b;
            && others[|a|] == x
            && Raws(a) + (([Raw(x)] + Raws(extras)) + Raws(b))
               == Raws(others[..|a| + 1]) + Raws(extras) + Raws(others[|a| + 1..])
  {
    var others := a + [x] + b;
    assert others[..|a| + 1] == a + [x] && others[|a| + 1..] == b;
    assert Raws(a + [x]) == Raws(a) + [Raw(x)];
  }

  lemma LeftOutParts(a: seq<Rec>, x: Rec, b: seq<Rec>, skip: int)
    requires skip != |a|
    ensures LeftOut(a + ([x] + b), skip) == LeftOut(a, skip) + [x] + LeftOut(b, skip - |a| - 1)
  {
    var rs := a + ([x] + b);
    if 0 <= skip < |a| {
      assert rs[skip + 1..] == a[skip + 1..] + ([x] + b);
    } else if |a| < skip < |rs| {
      assert rs[..skip] == a + [x] + b[..skip - |a| - 1];
      assert rs[skip + 1..] == b[skip - |a|..];
    }
  }
}
