/** The records gathered for one event: class RawEvent of RawEventAccumulator.h and RawEventAccumulator.cpp. */
module RawEvent {
  import A = AckQueue
  import opened Wrappers

  const SYSCALL := 1300
  const FIRST_EVENT := 1300
  const EXECVE := 1309
  const EOE := 1320
  const KERNEL := 2000
  const FIRST_ANOM_MSG := 2100

  const MAX_RECORD_SIZE := 9 * 1024
  const MAX_EVENT_SIZE := 112 * 1024
  const MAX_EXECVE_ACCUM_SIZE := 96 * 1024
  const MAX_NUM_EXECVE_RECORDS := 12
  const NUM_EXECVE_RH_PRESERVE := 3
  const U16 := 0x1_0000

  /** A RawEventRecord: blank is IsEmpty, no fields. */
  datatype Rec = Rec(id: A.EventId, kind: int, size: nat, blank: bool)

  /** The fields of a RawEvent, and the history of what arrived. */
  datatype Data = Data(id: A.EventId, records: seq<Rec>, extras: seq<Rec>, drops: map<int, nat>, execs: nat,
                       dropped: nat, syscall: int, size: int, execSize: int, arrivals: seq<Rec>)

  function Fresh(id: A.EventId): Data {
    Data(id, [], [], map[], 0, 0, -1, 0, 0, [])
  }

  predicate IsSingleRecordEvent(kind: int) {
    kind != EOE && (kind < FIRST_EVENT || kind >= FIRST_ANOM_MSG || kind == KERNEL)
  }

  function Sum(rs: seq<Rec>): nat {
    if rs == [] then 0 else Sum(rs[..|rs| - 1]) + rs[|rs| - 1].size
  }

  /** The EXECVE records of a sequence, in order. */
  function Execs(rs: seq<Rec>): (r: seq<Rec>)
    ensures forall i | 0 <= i < |r| :: r[i].kind == EXECVE
  {
    if rs == [] then []
    else Execs(rs[..|rs| - 1]) + if rs[|rs| - 1].kind == EXECVE then [rs[|rs| - 1]] else []
  }

  function Counted(drops: map<int, nat>, kind: int): (m: map<int, nat>)
    ensures m != map[]
  {
    var m := drops[kind := (if kind in drops then drops[kind] else 0) + 1];
    assert kind in m;
    m
  }

  /** A second or later EXECVE record that breaks a limit: an older one has to make room. */
  predicate OverLimit(d: Data, r: Rec) {
    r.size + d.size > MAX_EVENT_SIZE || r.size + d.execSize > MAX_EXECVE_ACCUM_SIZE || d.execs + 1 > MAX_NUM_EXECVE_RECORDS
  }

  /** The case AddRecord does not guard: it would take an element out of an empty vector. */
  predicate Faults(d: Data, r: Rec) {
    r.kind == EXECVE && d.execs > 0 && OverLimit(d, r) && d.extras == []
  }

  /** The extra EXECVE record that makes room: the latest three stay. */
  function Victim(n: nat): (i: nat)
    ensures n > 0 ==> i < n
  {
    if n > NUM_EXECVE_RH_PRESERVE then n - NUM_EXECVE_RH_PRESERVE - 1 else 0
  }

  function Without(rs: seq<Rec>, i: nat): (r: seq<Rec>)
    requires i < |rs|
    ensures |r| == |rs| - 1
  {
    rs[..i] + rs[i + 1..]
  }

  /** AddRecord of anything but an EOE record. */
  ghost function Stored(d: Data, r: Rec): Data
    requires !Faults(d, r)
  {
    if r.kind == EXECVE then
      if d.execs > 0 && OverLimit(d, r) then Exchanged(d, r) else if d.execs > 0 then WithExtra(d, r) else WithFirst(d, r)
    else if r.size + d.size > MAX_EVENT_SIZE || d.execs > MAX_NUM_EXECVE_RECORDS then Dropped(d, r)
    else WithRecord(d, r)
  }

  ghost function WithFirst(d: Data, r: Rec): Data {
    d.(execs := d.execs + 1, size := d.size + r.size, execSize := d.execSize + r.size, records := d.records + [r],
       arrivals := d.arrivals + [r])
  }

  ghost function WithExtra(d: Data, r: Rec): Data {
    d.(execs := d.execs + 1, size := d.size + r.size, execSize := d.execSize + r.size, extras := d.extras + [r],
       arrivals := d.arrivals + [r])
  }

  ghost function Exchanged(d: Data, r: Rec): Data
    requires d.extras != []
  {
    var v := Victim(|d.extras|);
    d.(execs := d.execs + 1, size := d.size - d.extras[v].size + r.size,
       execSize := d.execSize - d.extras[v].size + r.size, extras := Without(d.extras, v) + [r],
       dropped := d.dropped + 1, drops := Counted(d.drops, r.kind), arrivals := d.arrivals + [r])
  }

  ghost function Dropped(d: Data, r: Rec): Data {
    d.(dropped := d.dropped + 1, drops := Counted(d.drops, r.kind), arrivals := d.arrivals + [r])
  }

  ghost function WithRecord(d: Data, r: Rec): Data {
    d.(size := d.size + r.size, records := d.records + [r], arrivals := d.arrivals + [r],
       syscall := if r.kind == SYSCALL && d.syscall < 0 then |d.records| else d.syscall)
  }

  // ---------------------------------------------------------------- the books

  function Least(a: nat, b: nat): nat {
    if a < b then a else b
  }

  /** s comes out of t by leaving elements out. */
  ghost predicate Subsequence(s: seq<Rec>, t: seq<Rec>) {
    s == [] || (t != [] && ((s[|s| - 1] == t[|t| - 1] && Subsequence(s[..|s| - 1], t[..|t| - 1])) || Subsequence(s, t[..|t| - 1])))
  }

  /** The EXECVE records behind the first. */
  function Later(arrivals: seq<Rec>): seq<Rec> {
    if Execs(arrivals) == [] then [] else Execs(arrivals)[1..]
  }

  /** The later EXECVE records, as far as they are kept: in order, and the latest four without a gap. */
  ghost predicate KeptExtras(extras: seq<Rec>, later: seq<Rec>) {
    && |extras| <= |later| && |extras| < MAX_NUM_EXECVE_RECORDS && (later != [] ==> extras != [])
    && Subsequence(extras, later) && IsSuffix(Last(extras), later)
  }

  ghost predicate ExtrasOk(d: Data) {
    d.execs == |Execs(d.arrivals)| && KeptExtras(d.extras, Later(d.arrivals))
  }

  /** The latest four, or all when there are fewer. */
  ghost function Last(rs: seq<Rec>): seq<Rec> {
    rs[|rs| - Least(|rs|, NUM_EXECVE_RH_PRESERVE + 1)..]
  }

  ghost predicate AllExecve(rs: seq<Rec>) {
    forall i | 0 <= i < |rs| :: rs[i].kind == EXECVE
  }

  /** The sizes are the sums over what is kept. */
  ghost predicate SizesOk(d: Data) {
    && d.size == Sum(d.records) + Sum(d.extras) && d.execSize == Sum(Execs(d.records)) + Sum(d.extras)
    && |Execs(d.records)| == Least(d.execs, 1) && (d.execs == 0 ==> d.extras == [])
    && AllExecve(d.extras)
    && Sum(d.records) <= MAX_EVENT_SIZE + (if d.execs == 0 then 0 else MAX_RECORD_SIZE)
  }

  /** What arrived is kept, or lost and counted. */
  ghost predicate Balanced(arrivals: seq<Rec>, records: seq<Rec>, extras: seq<Rec>, dropped: nat) {
    && multiset(records) + multiset(extras) <= multiset(arrivals)
    && |multiset(arrivals) - (multiset(records) + multiset(extras))| == dropped
  }

  ghost function Kept(d: Data): multiset<Rec> {
    multiset(d.records) + multiset(d.extras)
  }

  /** The lost ones are counted by kind. */
  ghost predicate Tallied(arrivals: seq<Rec>, records: seq<Rec>, extras: seq<Rec>, drops: map<int, nat>) {
    forall k :: Tally(arrivals, records, extras, drops, k)
  }

  ghost predicate Tally(arrivals: seq<Rec>, records: seq<Rec>, extras: seq<Rec>, drops: map<int, nat>, k: int) {
    Drops(drops, k) == OfKind(arrivals, k) - OfKind(records, k) - OfKind(extras, k)
  }

  ghost function Drops(drops: map<int, nat>, kind: int): nat {
    if kind in drops then drops[kind] else 0
  }

  ghost predicate CountsOk(d: Data) {
    && Subsequence(d.records, d.arrivals) && (d.dropped > 0 ==> d.drops != map[])
    && Balanced(d.arrivals, d.records, d.extras, d.dropped) && Tallied(d.arrivals, d.records, d.extras, d.drops)
  }

  function OfKind(rs: seq<Rec>, kind: int): nat {
    if rs == [] then 0 else OfKind(rs[..|rs| - 1], kind) + if rs[|rs| - 1].kind == kind then 1 else 0
  }

  /** The SYSCALL record to be sent first is the first one. */
  ghost predicate SyscallOk(d: Data) {
    && -1 <= d.syscall < |d.records|
    && (d.syscall >= 0 ==> d.records[d.syscall].kind == SYSCALL)
    && forall i | 0 <= i < |d.records| && (d.syscall < 0 || i < d.syscall) :: d.records[i].kind != SYSCALL
  }

  ghost predicate Booked(d: Data) {
    SizesOk(d) && ExtrasOk(d) && CountsOk(d) && SyscallOk(d)
  }

  // ---------------------------------------------------------------- appending and leaving out

  lemma SumSnoc(rs: seq<Rec>, r: Rec)
    ensures Sum(rs + [r]) == Sum(rs) + r.size
  {
    assert (rs + [r])[..|rs|] == rs;
  }

  lemma ExecsSnoc(rs: seq<Rec>, r: Rec)
    ensures Execs(rs + [r]) == if r.kind == EXECVE then Execs(rs) + [r] else Execs(rs)
  {
    assert (rs + [r])[..|rs|] == rs;
  }

  lemma KindSnoc(rs: seq<Rec>, r: Rec, k: int)
    ensures OfKind(rs + [r], k) == OfKind(rs, k) + if r.kind == k then 1 else 0
  {
    assert (rs + [r])[..|rs|] == rs;
  }

  lemma {:induction false} Leave(rs: seq<Rec>, i: nat, k: int)
    requires i < |rs|
    ensures Sum(Without(rs, i)) == Sum(rs) - rs[i].size
    ensures OfKind(Without(rs, i), k) == OfKind(rs, k) - if rs[i].kind == k then 1 else 0
    decreases |rs|
  {
    var n := |rs| - 1;
    if i == n {
      assert Without(rs, i) == rs[..n];
    } else {
      Leave(rs[..n], i, k);
      assert rs[..n][i] == rs[i];
      assert Without(rs, i) == Without(rs[..n], i) + [rs[n]];
      SumSnoc(Without(rs[..n], i), rs[n]);
      KindSnoc(Without(rs[..n], i), rs[n], k);
    }
  }

  lemma LeaveMultiset(rs: seq<Rec>, i: nat)
    requires i < |rs|
    ensures multiset(Without(rs, i)) == multiset(rs) - multiset{rs[i]} && rs[i] in multiset(rs)
  {
    assert rs == rs[..i] + [rs[i]] + rs[i + 1..];
  }

  lemma SubsequenceSnoc(s: seq<Rec>, t: seq<Rec>, r: Rec)
    requires Subsequence(s, t)
    ensures Subsequence(s, t + [r]) && Subsequence(s + [r], t + [r])
  {
    assert (t + [r])[..|t|] == t && (s + [r])[..|s|] == s;
  }

  lemma {:induction false} SubsequenceLeave(s: seq<Rec>, t: seq<Rec>, i: nat)
    requires Subsequence(s, t) && i < |s|
    ensures Subsequence(Without(s, i), t)
    decreases |t|
  {
    var n, m := |s| - 1, |t| - 1;
    var w := Without(s, i);
    if s[n] == t[m] && Subsequence(s[..n], t[..m]) {
      if i == n {
        assert w == s[..n];
      } else {
        SubsequenceLeave(s[..n], t[..m], i);
        assert w[..|w| - 1] == Without(s[..n], i);
      }
    } else {
      SubsequenceLeave(s, t[..m], i);
    }
  }

  // ---------------------------------------------------------------- AddRecord keeps the books

  lemma SizesKept(d: Data, r: Rec, e: Data)
    requires Booked(d) && !Faults(d, r) && r.size <= MAX_RECORD_SIZE && e == Stored(d, r)
    ensures SizesOk(e)
  {
    hide Subsequence, CountsOk, SyscallOk, ExtrasOk, Sum, Execs, Victim, Without, Counted;
    SumSnoc(d.records, r);
    ExecsSnoc(d.records, r);
    SumSnoc(Execs(d.records), r);
    SumSnoc(d.extras, r);
    if r.kind == EXECVE && d.execs > 0 && OverLimit(d, r) {
      var v := Victim(|d.extras|);
      Leave(d.extras, v, 0);
      SumSnoc(Without(d.extras, v), r);
      StillExecve(d.extras, v);
    }
  }

  lemma StillExecve(rs: seq<Rec>, i: nat)
    requires i < |rs| && AllExecve(rs)
    ensures rs[i].kind == EXECVE && AllExecve(Without(rs, i))
  {
  }

  lemma ExtrasKept(d: Data, r: Rec, e: Data)
    requires Booked(d) && !Faults(d, r) && e == Stored(d, r)
    ensures ExtrasOk(e)
  {
    hide SizesOk, CountsOk, SyscallOk, KeptExtras, Execs, Victim, Without;
    ExecsSnoc(d.arrivals, r);
    LaterSnoc(d.arrivals, r);
    if r.kind == EXECVE && d.execs > 0 {
      if OverLimit(d, r) {
        EvictExtra(d.extras, Later(d.arrivals), r);
      } else {
        AppendExtra(d.extras, Later(d.arrivals), r);
      }
    } else if r.kind == EXECVE {
      NoExtras(d);
      KeptNone();
    }
  }

  lemma LaterSnoc(arrivals: seq<Rec>, r: Rec)
    ensures Later(arrivals + [r]) ==
            if r.kind == EXECVE && Execs(arrivals) != [] then Later(arrivals) + [r] else Later(arrivals)
  {
    hide Execs;
    ExecsSnoc(arrivals, r);
  }

  lemma KeptNone()
    ensures KeptExtras([], [])
  {
  }

  lemma NoExtras(d: Data)
    requires SizesOk(d) && d.execs == 0
    ensures d.extras == []
  {
  }

  lemma AppendExtra(extras: seq<Rec>, later: seq<Rec>, r: Rec)
    requires KeptExtras(extras, later) && |later| + 2 <= MAX_NUM_EXECVE_RECORDS
    ensures KeptExtras(extras + [r], later + [r])
  {
    hide Subsequence;
    SubsequenceSnoc(extras, later, r);
    LastAfterAppend(extras, later, r);
  }

  lemma EvictExtra(extras: seq<Rec>, later: seq<Rec>, r: Rec)
    requires KeptExtras(extras, later) && extras != []
    ensures KeptExtras(Without(extras, Victim(|extras|)) + [r], later + [r])
  {
    hide Subsequence;
    SubsequenceLeave(extras, later, Victim(|extras|));
    SubsequenceSnoc(Without(extras, Victim(|extras|)), later, r);
    LastAfterEviction(extras, later, r);
  }

  lemma LastAfterAppend(extras: seq<Rec>, later: seq<Rec>, r: Rec)
    requires IsSuffix(Last(extras), later)
    ensures IsSuffix(Last(extras + [r]), later + [r])
  {
    var s := Last(extras);
    if |extras| < NUM_EXECVE_RH_PRESERVE + 1 {
      assert Last(extras + [r]) == s + [r];
    } else {
      assert Last(extras + [r]) == s[1..] + [r];
    }
  }

  lemma LastAfterEviction(extras: seq<Rec>, later: seq<Rec>, r: Rec)
    requires IsSuffix(Last(extras), later) && extras != []
    ensures IsSuffix(Last(Without(extras, Victim(|extras|)) + [r]), later + [r])
  {
    var s := Last(extras);
    var w := Without(extras, Victim(|extras|));
    assert Last(w + [r]) == s[1..] + [r];
  }

  /** Adding, losing and exchanging, in multisets. */
  lemma Account(a: multiset<Rec>, k: multiset<Rec>, r: Rec, v: Rec)
    requires k <= a
    ensures k + multiset{r} <= a + multiset{r} && (a + multiset{r}) - (k + multiset{r}) == a - k
    ensures k <= a + multiset{r} && (a + multiset{r}) - k == (a - k) + multiset{r}
    ensures v in k ==> k - multiset{v} + multiset{r} <= a + multiset{r}
                       && (a + multiset{r}) - (k - multiset{v} + multiset{r}) == (a - k) + multiset{v}
  {
  }

  lemma BalancedSnoc(a: seq<Rec>, rs: seq<Rec>, xs: seq<Rec>, n: nat, r: Rec)
    requires Balanced(a, rs, xs, n)
    ensures Balanced(a + [r], rs + [r], xs, n) && Balanced(a + [r], rs, xs + [r], n) && Balanced(a + [r], rs, xs, n + 1)
  {
    var k := multiset(rs) + multiset(xs);
    Account(multiset(a), k, r, r);
    assert multiset(a + [r]) == multiset(a) + multiset{r};
    assert multiset(rs + [r]) + multiset(xs) == k + multiset{r};
    assert multiset(rs) + multiset(xs + [r]) == k + multiset{r};
  }

  lemma BalancedEvict(a: seq<Rec>, rs: seq<Rec>, xs: seq<Rec>, n: nat, r: Rec, v: nat)
    requires Balanced(a, rs, xs, n) && v < |xs|
    ensures Balanced(a + [r], rs, Without(xs, v) + [r], n + 1)
  {
    hide Without;
    var ys := Without(xs, v);
    LeaveMultiset(xs, v);
    Account(multiset(a), multiset(rs) + multiset(xs), r, xs[v]);
    assert multiset(a + [r]) == multiset(a) + multiset{r} && multiset(ys + [r]) == multiset(ys) + multiset{r};
    Exchange(multiset(rs), multiset(xs), multiset(ys), xs[v], r);
  }

  lemma Exchange(a: multiset<Rec>, b: multiset<Rec>, c: multiset<Rec>, v: Rec, r: Rec)
    requires v in b && c == b - multiset{v}
    ensures a + (c + multiset{r}) == a + b - multiset{v} + multiset{r}
  {
  }

  lemma CountedDrops(drops: map<int, nat>, kind: int, k: int)
    ensures Drops(Counted(drops, kind), k) == Drops(drops, k) + if kind == k then 1 else 0
  {
  }

  lemma TalliedSnoc(a: seq<Rec>, rs: seq<Rec>, xs: seq<Rec>, drops: map<int, nat>, r: Rec)
    requires Tallied(a, rs, xs, drops)
    ensures Tallied(a + [r], rs + [r], xs, drops) && Tallied(a + [r], rs, xs + [r], drops)
    ensures Tallied(a + [r], rs, xs, Counted(drops, r.kind))
  {
    hide OfKind, Drops, Counted;
    forall k
      ensures Tally(a + [r], rs + [r], xs, drops, k) && Tally(a + [r], rs, xs + [r], drops, k)
      ensures Tally(a + [r], rs, xs, Counted(drops, r.kind), k)
    {
      assert Tally(a, rs, xs, drops, k);
      KindSnoc(a, r, k);
      KindSnoc(rs, r, k);
      KindSnoc(xs, r, k);
      CountedDrops(drops, r.kind, k);
    }
  }

  lemma TalliedEvict(a: seq<Rec>, rs: seq<Rec>, xs: seq<Rec>, drops: map<int, nat>, r: Rec, v: nat)
    requires Tallied(a, rs, xs, drops) && v < |xs| && xs[v].kind == r.kind
    ensures Tallied(a + [r], rs, Without(xs, v) + [r], Counted(drops, r.kind))
  {
    hide OfKind, Without, Drops, Counted, Sum;
    forall k ensures Tally(a + [r], rs, Without(xs, v) + [r], Counted(drops, r.kind), k) {
      assert Tally(a, rs, xs, drops, k);
      KindSnoc(a, r, k);
      Leave(xs, v, k);
      KindSnoc(Without(xs, v), r, k);
      CountedDrops(drops, r.kind, k);
    }
  }

  lemma RecordCounts(d: Data, e: Data, r: Rec)
    requires CountsOk(d) && e.arrivals == d.arrivals + [r] && e.dropped == d.dropped && e.drops == d.drops
    requires e.records == d.records + [r] && e.extras == d.extras
    ensures CountsOk(e)
  {
    hide Subsequence, Balanced, Tallied, Counted;
    SubsequenceSnoc(d.records, d.arrivals, r);
    BalancedSnoc(d.arrivals, d.records, d.extras, d.dropped, r);
    TalliedSnoc(d.arrivals, d.records, d.extras, d.drops, r);
  }

  lemma ExtraCounts(d: Data, e: Data, r: Rec)
    requires CountsOk(d) && e.arrivals == d.arrivals + [r] && e.dropped == d.dropped && e.drops == d.drops
    requires e.records == d.records && e.extras == d.extras + [r]
    ensures CountsOk(e)
  {
    hide Subsequence, Balanced, Tallied, Counted;
    SubsequenceSnoc(d.records, d.arrivals, r);
    BalancedSnoc(d.arrivals, d.records, d.extras, d.dropped, r);
    TalliedSnoc(d.arrivals, d.records, d.extras, d.drops, r);
  }

  lemma DropCounts(d: Data, e: Data, r: Rec)
    requires CountsOk(d) && e.arrivals == d.arrivals + [r]
    requires e.dropped == d.dropped + 1 && e.drops == Counted(d.drops, r.kind)
    requires e.records == d.records && e.extras == d.extras
    ensures CountsOk(e)
  {
    hide Subsequence, Balanced, Tallied, Tally, Counted, Drops, OfKind, IsSuffix;
    SubsequenceSnoc(d.records, d.arrivals, r);
    BalancedSnoc(d.arrivals, d.records, d.extras, d.dropped, r);
    TalliedSnoc(d.arrivals, d.records, d.extras, d.drops, r);
  }

  lemma CountsKept(d: Data, r: Rec)
    requires CountsOk(d)
    ensures CountsOk(WithFirst(d, r)) && CountsOk(WithExtra(d, r)) && CountsOk(Dropped(d, r))
            && CountsOk(WithRecord(d, r))
  {
    hide CountsOk, Counted;
    RecordCounts(d, WithFirst(d, r), r);
    ExtraCounts(d, WithExtra(d, r), r);
    DropCounts(d, Dropped(d, r), r);
    RecordCounts(d, WithRecord(d, r), r);
  }

  lemma ExchangeKeepsCounts(d: Data, r: Rec)
    requires CountsOk(d) && AllExecve(d.extras) && r.kind == EXECVE && d.extras != []
    ensures CountsOk(Exchanged(d, r))
  {
    hide Subsequence, Balanced, Tallied, Without, Counted, Least, AllExecve;
    var v := Victim(|d.extras|);
    SubsequenceSnoc(d.records, d.arrivals, r);
    StillExecve(d.extras, v);
    BalancedEvict(d.arrivals, d.records, d.extras, d.dropped, r, v);
    TalliedEvict(d.arrivals, d.records, d.extras, d.drops, r, v);
  }

  /** Every AddRecord that does not fault keeps the books. */
  lemma StoredKeepsBooks(d: Data, r: Rec)
    requires Booked(d) && !Faults(d, r) && r.size <= MAX_RECORD_SIZE
    ensures Booked(Stored(d, r))
  {
    hide ExtrasOk, CountsOk, SyscallOk, Exchanged, WithFirst, WithExtra, Dropped, WithRecord, Sum, Execs, OverLimit;
    var e := Stored(d, r);
    SizesKept(d, r, e);
    ExtrasKept(d, r, e);
    CountsKept(d, r);
    if d.extras != [] && r.kind == EXECVE { ExchangeKeepsCounts(d, r); }
    SyscallKept(d, r, e);
  }

  lemma SyscallKept(d: Data, r: Rec, e: Data)
    requires SyscallOk(d) && !Faults(d, r)
    requires e == Stored(d, r)
    ensures SyscallOk(e)
  {
  }

  lemma FreshIsBooked(id: A.EventId)
    ensures Booked(Fresh(id))
  {
  }

  /**
   * The unguarded case is reachable: a first EXECVE record, twelve other records of the largest
   * size, and a second EXECVE record with nothing behind the first to make room.
   */
  lemma FaultIsReachable(id: A.EventId) returns (d: Data, r: Rec)
    ensures Booked(d) && r.size <= MAX_RECORD_SIZE && Faults(d, r) && |d.arrivals| == 13
  {
    hide Booked, Stored;
    FreshIsBooked(id);
    d := AfterFirst(id);
    var path := Rec(id, 1302, MAX_RECORD_SIZE, false);
    for i := 0 to 12
      invariant Booked(d) && d.execs == 1 && d.extras == [] && d.size == 100 + i * MAX_RECORD_SIZE
                && |d.arrivals| == i + 1
    {
      d := AfterPath(d, path);
    }
    r := Rec(id, EXECVE, MAX_RECORD_SIZE, false);
  }

  lemma AfterPath(d: Data, r: Rec) returns (e: Data)
    requires Booked(d) && d.execs == 1 && r.kind == 1302 && r.size <= MAX_RECORD_SIZE
             && r.size + d.size <= MAX_EVENT_SIZE
    ensures Booked(e) && e.execs == 1 && e.extras == d.extras && e.size == d.size + r.size
            && |e.arrivals| == |d.arrivals| + 1
  {
    hide Booked;
    StoredKeepsBooks(d, r);
    e := Stored(d, r);
  }

  lemma AfterFirst(id: A.EventId) returns (d: Data)
    ensures Booked(d) && d.execs == 1 && d.extras == [] && d.size == 100 && |d.arrivals| == 1
  {
    FreshIsBooked(id);
    var r := Rec(id, EXECVE, 100, false);
    StoredKeepsBooks(Fresh(id), r);
    d := Stored(Fresh(id), r);
  }

  /** It is met exactly by a second EXECVE record that breaks a size limit: never by a later one. */
  lemma FaultIsSecondExecve(d: Data, r: Rec)
    requires Booked(d)
    ensures Faults(d, r) <==> r.kind == EXECVE && d.execs == 1
                              && (r.size + d.size > MAX_EVENT_SIZE || r.size + d.execSize > MAX_EXECVE_ACCUM_SIZE)
  {
    hide SizesOk, CountsOk, SyscallOk, Subsequence, IsSuffix;
    assert d.execs == 1 ==> Later(d.arrivals) == [];
  }

  /** Without a fault the record just added is kept whenever it is an EXECVE record. */
  lemma LatestExecveIsKept(d: Data, r: Rec)
    requires Booked(d) && !Faults(d, r) && r.kind == EXECVE
    ensures var e := Stored(d, r);
            || (e.extras != [] && e.extras[|e.extras| - 1] == r)
            || (e.records != [] && e.records[|e.records| - 1] == r)
  {
  }

  // ---------------------------------------------------------------- AddEvent

  /** A record of the built event: a raw record, or the report on the dropped ones. */
  datatype Out = Raw(rec: Rec) | DropReport(drops: map<int, nat>)

  datatype Emitted = Emitted(id: A.EventId, declared: nat, outs: seq<Out>)

  function Raws(rs: seq<Rec>): (r: seq<Out>)
    ensures |r| == |rs| && forall i | 0 <= i < |r| :: r[i] == Raw(rs[i])
  {
    seq(|rs|, i requires 0 <= i < |rs| => Raw(rs[i]))
  }

  /** What the loop sends for one record: nothing for the skipped one, the extras behind an EXECVE record. */
  function Item(r: Rec, skipped: bool, extras: seq<Rec>): seq<Out> {
    if skipped then [] else if r.kind == EXECVE then [Raw(r)] + Raws(extras) else [Raw(r)]
  }

  /** The records in order, but for the one at `skip`. */
  function Body(rs: seq<Rec>, skip: int, extras: seq<Rec>): seq<Out> {
    if rs == [] then []
    else var n := |rs| - 1; Body(rs[..n], skip, extras) + Item(rs[n], n == skip, extras)
  }

  predicate Reports(d: Data) {
    d.dropped > 0 && d.drops != map[]
  }

  /** The SYSCALL record first, the others in order, then what was dropped. */
  function Outs(d: Data): seq<Out>
    requires -1 <= d.syscall < |d.records|
  {
    (if d.syscall > -1 then [Raw(d.records[d.syscall])] else [])
    + Body(d.records, d.syscall, d.extras)
    + (if Reports(d) then [DropReport(d.drops)] else [])
  }

  /** The 16-bit record count AddEvent declares. */
  function Declared(d: Data): nat {
    ((|d.records| + |d.extras|) % U16 + if Reports(d) then 1 else 0) % U16
  }

  function Built(d: Data): Option<Emitted>
    requires -1 <= d.syscall < |d.records|
  {
    if d.records == [] && d.dropped == 0 then None else Some(Emitted(d.id, Declared(d), Outs(d)))
  }

  /** The raw records among the built ones. */
  function Sent(outs: seq<Out>): multiset<Rec> {
    if outs == [] then multiset{}
    else Sent(outs[..|outs| - 1]) + match outs[|outs| - 1] case Raw(r) => multiset{r} case DropReport(_) => multiset{}
  }

  lemma {:induction false} SentJoin(a: seq<Out>, b: seq<Out>)
    ensures Sent(a + b) == Sent(a) + Sent(b)
  {
    if b == [] {
      assert a + b == a;
    } else {
      var n := |b| - 1;
      SentJoin(a, b[..n]);
      assert (a + b)[..|a + b| - 1] == a + b[..n];
    }
  }

  lemma {:induction false} SentRaws(rs: seq<Rec>)
    ensures Sent(Raws(rs)) == multiset(rs)
  {
    if rs == [] {
    } else {
      var n := |rs| - 1;
      SentRaws(rs[..n]);
      assert Raws(rs)[..n] == Raws(rs[..n]);
      assert rs == rs[..n] + [rs[n]];
    }
  }

  lemma SentOne(r: Rec)
    ensures Sent([Raw(r)]) == multiset{r}
  {
    assert [Raw(r)][..0] == [];
  }

  lemma ItemSends(r: Rec, skipped: bool, extras: seq<Rec>)
    ensures Sent(Item(r, skipped, extras)) ==
            if skipped then multiset{} else if r.kind == EXECVE then multiset{r} + multiset(extras) else multiset{r}
    ensures |Item(r, skipped, extras)| == if skipped then 0 else if r.kind == EXECVE then 1 + |extras| else 1
  {
    SentOne(r);
    SentRaws(extras);
    SentJoin([Raw(r)], Raws(extras));
  }

  function Skipped(rs: seq<Rec>, skip: int): multiset<Rec> {
    if 0 <= skip < |rs| then multiset{rs[skip]} else multiset{}
  }

  function WithExtras(rs: seq<Rec>, extras: seq<Rec>): multiset<Rec> {
    if Execs(rs) == [] then multiset{} else multiset(extras)
  }

  /** What the loop over the records sends: each once but the skipped one, and the extras once. */
  lemma {:induction false} BodySends(rs: seq<Rec>, skip: int, extras: seq<Rec>)
    requires |Execs(rs)| <= 1 && (0 <= skip < |rs| ==> rs[skip].kind != EXECVE)
    ensures Sent(Body(rs, skip, extras)) + Skipped(rs, skip) == multiset(rs) + WithExtras(rs, extras)
  {
    hide Item, Sent, Execs;
    if rs == [] {
      NothingSent(skip, extras);
    } else {
      var n := |rs| - 1;
      var r := rs[n];
      assert rs == rs[..n] + [r];
      ExecsSnoc(rs[..n], r);
      BodySends(rs[..n], skip, extras);
      ItemSends(r, n == skip, extras);
      SentJoin(Body(rs[..n], skip, extras), Item(r, n == skip, extras));
      assert multiset(rs) == multiset(rs[..n]) + multiset{r};
      assert Skipped(rs, skip) == Skipped(rs[..n], skip) + if n == skip then multiset{r} else multiset{};
      assert WithExtras(rs, extras) == WithExtras(rs[..n], extras) + if r.kind == EXECVE then multiset(extras) else multiset{};
      Regroup(Sent(Body(rs[..n], skip, extras)), Skipped(rs[..n], skip), multiset(rs[..n]), WithExtras(rs[..n], extras),
              Sent(Item(r, n == skip, extras)), if n == skip then multiset{r} else multiset{}, multiset{r},
              if r.kind == EXECVE then multiset(extras) else multiset{});
    }
  }

  lemma Regroup(a: multiset<Rec>, b: multiset<Rec>, c: multiset<Rec>, d: multiset<Rec>,
                a': multiset<Rec>, b': multiset<Rec>, c': multiset<Rec>, d': multiset<Rec>)
    requires a + b == c + d && a' + b' == c' + d'
    ensures (a + a') + (b + b') == (c + c') + (d + d')
  {
    assert (a + a') + (b + b') == (a + b) + (a' + b');
    assert (c + c') + (d + d') == (c + d) + (c' + d');
  }

  lemma {:induction false} BodyCount(rs: seq<Rec>, skip: int, extras: seq<Rec>)
    requires |Execs(rs)| <= 1 && (0 <= skip < |rs| ==> rs[skip].kind != EXECVE)
    ensures |Body(rs, skip, extras)| + |Skipped(rs, skip)| == |rs| + if Execs(rs) == [] then 0 else |extras|
  {
    hide Item, Execs;
    if rs == [] {
      assert Execs(rs) == [] by { NoExecs(); }
    } else {
      var n := |rs| - 1;
      var r := rs[n];
      assert rs == rs[..n] + [r];
      ExecsSnoc(rs[..n], r);
      BodyCount(rs[..n], skip, extras);
      ItemSends(r, n == skip, extras);
    }
  }

  lemma NoExecs()
    ensures Execs([]) == []
  {
  }

  lemma NothingSent(skip: int, extras: seq<Rec>)
    ensures Sent(Body([], skip, extras)) + Skipped([], skip) == multiset([]) + WithExtras([], extras)
  {
    var none: seq<Rec> := [];
    assert multiset(none) == multiset{};
  }

  /** Every kept record is sent exactly once, and nothing else but the report. */
  lemma OutsAreKept(d: Data)
    requires Booked(d)
    ensures Sent(Outs(d)) == Kept(d)
    ensures |Outs(d)| == |d.records| + |d.extras| + if Reports(d) then 1 else 0
  {
    hide Subsequence, Balanced, Tallied, Body, Sum, IsSuffix, KeptExtras;
    BodySends(d.records, d.syscall, d.extras);
    BodyCount(d.records, d.syscall, d.extras);
    var head := if d.syscall > -1 then [Raw(d.records[d.syscall])] else [];
    var body := Body(d.records, d.syscall, d.extras);
    var tail := if Reports(d) then [DropReport(d.drops)] else [];
    if d.syscall > -1 { SentOne(d.records[d.syscall]); }
    SentJoin(head, body);
    SentJoin(head + body, tail);
    assert Sent(tail) == multiset{} by { if Reports(d) { assert tail[..0] == []; } }
    assert Execs(d.records) == [] ==> d.extras == [];
  }

  /** The declared count is the number of records sent exactly when that number fits in 16 bits. */
  lemma DeclaredIsRight(d: Data)
    requires Booked(d)
    ensures Declared(d) == |Outs(d)| <==> |Outs(d)| < U16
  {
    hide Booked, Outs;
    OutsAreKept(d);
  }

  /**
   * Records of two bytes or more fit: an event of parsed records, which carry at least their
   * prefix, passes EndEvent's check.
   */
  lemma ParsedEventsFit(d: Data)
    requires Booked(d) && forall i | 0 <= i < |d.records| :: d.records[i].size >= 2
    ensures Declared(d) == |Outs(d)|
  {
    hide Subsequence, Balanced, Tallied, Outs, Sum;
    OutsAreKept(d);
    DeclaredIsRight(d);
    SumAtLeast(d.records);
    assert |d.extras| < MAX_NUM_EXECVE_RECORDS;
  }

  lemma {:induction false} SumAtLeast(rs: seq<Rec>)
    requires forall i | 0 <= i < |rs| :: rs[i].size >= 2
    ensures Sum(rs) >= 2 * |rs|
  {
    if rs != [] { SumAtLeast(rs[..|rs| - 1]); }
  }

  // ---------------------------------------------------------------- the class

  class RawEvent {
    const id: A.EventId
    var records: seq<Rec>
    var execveRecords: seq<Rec>
    var dropCount: map<int, nat>
    var numExecve: nat
    var numDropped: nat
    var syscallIdx: int
    var size: int
    var execveSize: int
    ghost var arrivals: seq<Rec>

    ghost function View(): Data
      reads this
    {
      Data(id, records, execveRecords, dropCount, numExecve, numDropped, syscallIdx, size, execveSize, arrivals)
    }

    ghost predicate Valid()
      reads this
    {
      Booked(View())
    }

    constructor (event: A.EventId)
      ensures Valid() && View() == Fresh(event)
    {
      id, records, execveRecords, dropCount := event, [], [], map[];
      numExecve, numDropped, syscallIdx, size, execveSize, arrivals := 0, 0, -1, 0, 0, [];
      new;
      FreshIsBooked(event);
    }

    /** Adds a record; the result says that the event is complete. */
    method AddRecord(r: Rec) returns (complete: bool)
      requires Valid() && r.size <= MAX_RECORD_SIZE
      requires r.kind != EOE ==> !Faults(View(), r)
      modifies this
      ensures Valid() && View() == if r.kind == EOE then old(View()) else Stored(old(View()), r)
      ensures complete <==> r.kind == EOE || IsSingleRecordEvent(r.kind)
    {
      hide Booked, Counted;
      if r.kind == EOE {
        return true;
      }
      if r.kind == EXECVE {
        AddExecve(r);
        return false;
      }
      StoredKeepsBooks(View(), r);
      arrivals := arrivals + [r];
      if r.size + size > MAX_EVENT_SIZE || numExecve > MAX_NUM_EXECVE_RECORDS {
        numDropped := numDropped + 1;
        dropCount := Counted(dropCount, r.kind);
      } else {
        size := size + r.size;
        records := records + [r];
        if r.kind == SYSCALL && syscallIdx < 0 {
          syscallIdx := |records| - 1;
        }
      }
      complete := IsSingleRecordEvent(r.kind);
    }

    method AddExecve(r: Rec)
      requires Valid() && r.size <= MAX_RECORD_SIZE && r.kind == EXECVE && !Faults(View(), r)
      modifies this
      ensures Valid() && View() == Stored(old(View()), r)
    {
      hide Booked, Counted, Without, Victim;
      StoredKeepsBooks(View(), r);
      arrivals := arrivals + [r];
      numExecve := numExecve + 1;
      if numExecve == 1 {
        size := size + r.size;
        execveSize := execveSize + r.size;
        records := records + [r];
      } else {
        if r.size + size > MAX_EVENT_SIZE || r.size + execveSize > MAX_EXECVE_ACCUM_SIZE || numExecve > MAX_NUM_EXECVE_RECORDS {
          EvictExecve(r.kind);
        }
        size := size + r.size;
        execveSize := execveSize + r.size;
        execveRecords := execveRecords + [r];
      }
    }

    /** Leaves out the oldest later EXECVE record but the last three, counted under the new one's type. */
    method EvictExecve(kind: int)
      requires execveRecords != []
      modifies this`numDropped, this`dropCount, this`size, this`execveSize, this`execveRecords
      ensures numDropped == old(numDropped) + 1 && dropCount == Counted(old(dropCount), kind)
      ensures var v := Victim(|old(execveRecords)|);
              && execveRecords == Without(old(execveRecords), v) && size == old(size) - old(execveRecords)[v].size
              && execveSize == old(execveSize) - old(execveRecords)[v].size
    {
      hide Counted;
      numDropped := numDropped + 1;
      dropCount := Counted(dropCount, kind);
      var idx := 0;
      if |execveRecords| > NUM_EXECVE_RH_PRESERVE {
        idx := |execveRecords| - NUM_EXECVE_RH_PRESERVE - 1;
      }
      size := size - execveRecords[idx].size;
      execveSize := execveSize - execveRecords[idx].size;
      execveRecords := execveRecords[..idx] + execveRecords[idx + 1..];
    }

    /** Builds the event; a builder without faults takes every record. */
    method AddEvent() returns (e: Option<Emitted>)
      requires Valid()
      ensures -1 <= syscallIdx < |records| && e == Built(View())
    {
      hide Booked, Outs, Body;
      SyscallInRange(View());
      if records == [] && numDropped == 0 {
        return None;
      }
      var declared := (|records| + |execveRecords|) % U16;
      if numDropped > 0 && dropCount != map[] {
        declared := (declared + 1) % U16;
      }
      var head := [];
      if syscallIdx > -1 {
        head := [Raw(records[syscallIdx])];
      }
      var outs := [];
      NoBody(syscallIdx, execveRecords);
      for i := 0 to |records|
        invariant outs == Body(records[..i], syscallIdx, execveRecords)
      {
        BodyStep(records, i, syscallIdx, execveRecords);
        if i != syscallIdx {
          var item := [Raw(records[i])];
          if records[i].kind == EXECVE {
            item := item + Raws(execveRecords);
          }
          outs := outs + item;
        }
      }
      assert records[..|records|] == records;
      var report := [];
      if numDropped > 0 && dropCount != map[] {
        report := [DropReport(dropCount)];
      }
      OutsOf(View(), head, outs, report);
      e := Some(Emitted(id, declared, head + outs + report));
    }
  }

  lemma SyscallInRange(d: Data)
    requires Booked(d)
    ensures -1 <= d.syscall < |d.records|
  {
  }

  lemma NoBody(skip: int, extras: seq<Rec>)
    ensures Body([], skip, extras) == []
  {
  }

  lemma BodyStep(rs: seq<Rec>, i: nat, skip: int, extras: seq<Rec>)
    requires i < |rs|
    ensures Body(rs[..i + 1], skip, extras) == Body(rs[..i], skip, extras) + Item(rs[i], i == skip, extras)
  {
    assert rs[..i + 1][..i] == rs[..i];
  }

  lemma OutsOf(d: Data, head: seq<Out>, body: seq<Out>, report: seq<Out>)
    requires -1 <= d.syscall < |d.records|
    requires head == (if d.syscall > -1 then [Raw(d.records[d.syscall])] else [])
    requires body == Body(d.records, d.syscall, d.extras)
             && report == (if Reports(d) then [DropReport(d.drops)] else [])
    ensures Outs(d) == head + body + report
  {
  }
}
