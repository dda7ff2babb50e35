/** Properties of the queue over whole runs: consecutive identifiers, readers, and which items are safe to put. */
module QueueRuns {
  import opened Bytes
  import opened Ring
  import opened RingFile
  import opened QueueSpec
  import opened Wrappers

  ghost predicate DenseAt(log: seq<Block>, nextId: nat, i: nat)
    requires i < |log|
  {
    log[i].id == nextId - |log| + i
  }

  /** The identifiers are consecutive and end just below the next one. */
  ghost predicate Dense(log: seq<Block>, nextId: nat) {
    forall i | 0 <= i < |log| :: DenseAt(log, nextId, i)
  }

  /**
   * In every state of a queue the retained identifiers are consecutive exactly when those of the
   * items it found at its opening, as far as they are still there, run up to the next identifier it
   * found.
   */
  lemma DenseIff(log: seq<Block>, history: seq<Block>, found: nat, first: nat, nextId: nat)
    requires IsSuffix(log, history) && Numbered(history, found, first, nextId)
    ensures Dense(log, nextId) <==>
            Dense(history[if |history| - |log| < found then |history| - |log| else found..found], first)
  {
    var from := |history| - |log|;
    var kept := history[if from < found then from else found..found];
    forall i | 0 <= i < |log| && from + i >= found ensures DenseAt(log, nextId, i) {
      assert NumberedAt(history, found, first, from + i);
    }
    if Dense(log, nextId) {
      forall i | 0 <= i < |kept| ensures DenseAt(kept, first, i) { assert DenseAt(log, nextId, i); }
    }
    if Dense(kept, first) {
      forall i | 0 <= i < |log| && from + i < found ensures DenseAt(log, nextId, i) { assert DenseAt(kept, first, i); }
    }
  }

  /** After a Put they are consecutive exactly when those were that it left. */
  lemma PutKeepsDenseIff(was: State, wasLay: Layout, item: seq<Byte>, s: State, lay: Layout, k: nat)
    requires PutEffect(was, wasLay, item, s, lay, k)
    ensures Dense(lay.Log(), s.nextId) <==> Dense(wasLay.Log()[k..], was.nextId)
  {
    var left := wasLay.Log()[k..];
    if Dense(lay.Log(), s.nextId) {
      forall i | 0 <= i < |left| ensures DenseAt(left, was.nextId, i) { assert DenseAt(lay.Log(), s.nextId, i); }
    }
    if Dense(left, was.nextId) {
      forall i | 0 <= i < |lay.Log()| ensures DenseAt(lay.Log(), s.nextId, i) {
        if i < |left| { assert DenseAt(left, was.nextId, i); }
      }
    }
  }

  /**
   * A crash behind the first header leaves the saved items with the next identifier of all. These
   * are consecutive up to it exactly when nothing or everything was saved.
   */
  lemma CrashKeepsDenseIff(log: seq<Block>, nextId: nat, sv: nat)
    requires Dense(log, nextId) && sv <= |log|
    ensures Dense(log[..sv], nextId) <==> sv == 0 || sv == |log|
  {
    if 0 < sv < |log| {
      assert DenseAt(log, nextId, 0) && !DenseAt(log[..sv], nextId, 0);
    } else if sv == |log| {
      assert log[..sv] == log;
    }
  }

  /**
   * Such a crash exists for every queue that is partly saved: what the file then recovers to is not
   * consecutive, and the next Put leaves a gap inside the log.
   */
  lemma PartlySavedCrash(s: State, lay: Layout, sv: nat, d: Disk, history: seq<Block>, file: Recovery) returns (r: Disk)
    requires Sound(s, lay, sv, d, history, file) && 0 < sv < |lay.Log()| && Dense(lay.Log(), s.nextId)
    ensures CutBetween(s, SavedHead(s)) && AllApplicable(SavePlan(s), |d.data|) && CrashState(d, SavePlan(s), r)
    ensures Recovers(r, SavedPart(lay, sv), s.nextId) && !Dense(SavedPart(lay, sv).Log(), s.nextId)
  {
    hide Live, Synced, Recovers, Layout.Log, Shape, Chain, CutBetween, IsSlice, Dense;
    SaveReady(s, lay, sv, d, history, file);
    r := d.(hdr := HeaderOf(s, SavedHead(s)));
    CrashKeepsDenseIff(lay.Log(), s.nextId, sv);
    FirstHeaderRecovers(s, lay, sv, d);
    FirstHeaderIsCrash(s, d);
  }

  lemma FirstHeaderRecovers(s: State, lay: Layout, sv: nat, d: Disk)
    requires Live(s, lay) && Synced(s, lay, sv, d.data) && 0 < sv < |lay.Log()|
    requires 0 <= SavedHead(s) <= |s.mem| && s.head <= |s.mem| && s.tail <= |s.mem|
    ensures Recovers(d.(hdr := HeaderOf(s, SavedHead(s))), SavedPart(lay, sv), s.nextId) && Regions(s) != []
  {
    hide Recovers;
    SavedHeadIsCut(s, lay, sv);
    PrefixRecovers(s, lay, sv, d.(hdr := HeaderOf(s, SavedHead(s))));
    NotAllSaved(s, lay, sv);
    CutIsBetween(s, lay, sv);
  }

  lemma FirstHeaderIsCrash(s: State, d: Disk)
    requires 0 <= SavedHead(s) <= |s.mem| && s.head <= |s.mem| && s.tail <= |s.mem|
    requires AllApplicable(SavePlan(s), |d.data|) && Regions(s) != []
    ensures CrashState(d, SavePlan(s), d.(hdr := HeaderOf(s, SavedHead(s))))
  {
    var ws := SavePlan(s);
    assert ws[0] == PutHeader(HeaderOf(s, SavedHead(s)));
  }

  /** A Put drops the shortest prefix that makes room: one item fewer and there would be too little. */
  lemma PutDropsNoMoreThanNeeded(was: State, wasLay: Layout, item: seq<Byte>, s: State, lay: Layout, k: nat, j: nat)
    requires Live(was, wasLay) && PutEffect(was, wasLay, item, s, lay, k)
    requires j < |wasLay.Log()| && Suffices(|was.mem|, was.head, wasLay.Log()[j].pos, |item|)
    ensures k <= j && |lay.Log()| >= |wasLay.Log()| - j + 1
  {
    assert !TooTight(was, wasLay.Log(), |item|, j);
  }

  /** In bytes: what lies between the head and the oldest item is too little for an item of this size. */
  predicate TooLittle(dataSize: nat, head: nat, oldest: nat, size: nat) {
    if head < oldest then oldest - head < size + 72 else dataSize - head < size + 48 && oldest <= size + 48
  }

  /**
   * Which items a Put drops, and where it puts the new one. A dropped item as the oldest would have
   * left too little, and the first that leaves enough stays. The new one goes behind the head unless
   * the oldest item is not beyond the head and the ring ends too soon.
   */
  lemma PutDropsExactly(was: State, wasLay: Layout, item: seq<Byte>, s: State, lay: Layout, k: nat)
    requires Live(was, wasLay) && PutEffect(was, wasLay, item, s, lay, k) && wasLay.Log() != []
    ensures k < |wasLay.Log()| && wasLay.Log()[0].pos == was.tail
    ensures forall j | 0 <= j < k :: TooLittle(|was.mem|, was.head, wasLay.Log()[j].pos, |item|)
    ensures !TooLittle(|was.mem|, was.head, wasLay.Log()[k].pos, |item|)
    ensures k == 0 <==> !TooLittle(|was.mem|, was.head, was.tail, |item|)
    ensures lay.Log() == wasLay.Log()[k..] + [Block(s.head - 24 - |item|, was.nextId, item)]
    ensures s.head - 24 - |item| ==
            if wasLay.Log()[k].pos <= was.head && |was.mem| - was.head < |item| + 48 then 0 else was.head
  {
    hide Live, Layout.Log, TooTight, TooLittle, Suffices;
    var n, log := |was.mem|, wasLay.Log();
    LiveTail(was, wasLay);
    TightIff(was, log, |item|, 0);
    TightIff(was, log, |item|, k);
    forall j | 0 <= j < k ensures TooLittle(|was.mem|, was.head, wasLay.Log()[j].pos, |item|) {
      TightIff(was, log, |item|, j);
    }
  }

  lemma LiveTail(s: State, lay: Layout)
    requires Live(s, lay)
    ensures lay.Log() != [] ==> lay.Log()[0].pos == s.tail
  {
    FirstIsTail(|s.mem|, s.head, s.tail, lay);
  }

  lemma TightIff(s: State, log: seq<Block>, size: nat, j: nat)
    requires j < |log|
    ensures TooTight(s, log, size, j) <==> TooLittle(|s.mem|, s.head, log[j].pos, size)
  {
  }

  // ---------------------------------------------------------------- readers

  /** What a Get from index n of the log hands back: the item there, with its own cursor, if the buffer holds it. */
  ghost predicate HandsBack(log: seq<Block>, n: nat, size: nat, r: GetResult) {
    if n >= |log| then r == Timeout
    else if size < |log[n].payload| then r == GetBufferTooSmall
    else r == Item(log[n].payload, Cursor(log[n].id, log[n].pos))
  }

  /**
   * A reader at the tail gets the oldest item; one at the head, or with an identifier not yet given
   * out, waits for the next; one whose item is retained gets the item behind it, and one whose item
   * is not retained any more the oldest.
   */
  lemma GetHandsBack(s: State, lay: Layout, last: Cursor, n: nat, size: nat)
    requires NextAfter(s, lay, last, n)
    ensures last == Cursor(0xFF_FFFF_FFFF_FFFF, 0xFF_FFFF_FFFF_FFFF) ==> Delivered(lay.Log(), n, size) == Timeout
    ensures last == Cursor(0, 0xFF_FFFF_FFFF_FFFF) ==> HandsBack(lay.Log(), 0, size, Delivered(lay.Log(), n, size))
    ensures last.index + 24 <= |s.mem| < 0xFF_FFFF_FFFF_FFFF ==>
              && (last.id >= s.nextId ==> Delivered(lay.Log(), n, size) == Timeout)
              && (last.id < s.nextId && (forall i | 0 <= i < |lay.Log()| :: !RetainedAt(lay.Log(), i, last)) ==>
                    HandsBack(lay.Log(), 0, size, Delivered(lay.Log(), n, size)))
    ensures forall i | 0 <= i < |lay.Log()| && RetainedAt(lay.Log(), i, last) ::
              Live(s, lay) ==> HandsBack(lay.Log(), i + 1, size, Delivered(lay.Log(), n, size))
  {
    hide Layout.Log, Wellformed, Synced;
    if Live(s, lay) {
      forall i | 0 <= i < |lay.Log()| && RetainedAt(lay.Log(), i, last)
        ensures HandsBack(lay.Log(), i + 1, size, Delivered(lay.Log(), n, size))
      {
        RetainedIsNext(s, lay, last, n, i);
      }
    }
  }

  lemma RetainedIsNext(s: State, lay: Layout, last: Cursor, n: nat, i: nat)
    requires Live(s, lay) && NextAfter(s, lay, last, n) && i < |lay.Log()| && RetainedAt(lay.Log(), i, last)
    ensures n == i + 1
  {
    DeliveredIsKnown(s, lay, i, |lay.Log()[i].payload|);
    ReaderProgress(s, lay, last, n);
    var log := lay.Log();
    assert log[i].id == last.id;
    if i + 1 < |log| { assert Earlier(log, i, i + 1); }
  }

  datatype Moment = Moment(s: State, lay: Layout)

  /** Between two reads the queue may change in any way that keeps handed-out cursors known. */
  ghost predicate Evolves(a: Moment, b: Moment) {
    forall c: Cursor | Known(a.s, a.lay, c) :: Known(b.s, b.lay, c)
  }

  /** The read at moment i went on from the cursor of the read before it and gave the item at index ns[i]. */
  ghost predicate ReadAt(qs: seq<Moment>, cs: seq<Cursor>, ns: seq<nat>, i: nat)
    requires 0 < i < |qs| == |cs| == |ns|
  {
    && Evolves(qs[i - 1], qs[i])
    && NextAfter(qs[i].s, qs[i].lay, cs[i - 1], ns[i])
    && ns[i] < |qs[i].lay.Log()| && RetainedAt(qs[i].lay.Log(), ns[i], cs[i])
  }

  ghost predicate FirstRead(q: Moment, c: Cursor) {
    Known(q.s, q.lay, c)
  }

  /** A reader that chains the cursors it is given. */
  ghost predicate ReaderRun(qs: seq<Moment>, cs: seq<Cursor>, ns: seq<nat>) {
    && |qs| == |cs| == |ns| && qs != []
    && (forall i {:trigger qs[i].s} | 0 <= i < |qs| :: Live(qs[i].s, qs[i].lay))
    && FirstRead(qs[0], cs[0])
    && forall i | 0 < i < |qs| :: ReadAt(qs, cs, ns, i)
  }

  lemma {:induction false} RunCursorsKnown(qs: seq<Moment>, cs: seq<Cursor>, ns: seq<nat>, i: nat)
    requires ReaderRun(qs, cs, ns) && i < |qs|
    ensures Known(qs[i].s, qs[i].lay, cs[i])
    decreases i
  {
    if i > 0 {
      RunCursorsKnown(qs, cs, ns, i - 1);
      assert ReadAt(qs, cs, ns, i);
      var log := qs[i].lay.Log();
      assert Live(qs[i].s, qs[i].lay);
      assert Issued(log, ns[i], qs[i].s.nextId);
      assert Stored(qs[i].s.mem, log[ns[i]]);
    }
  }

  /** One read: the identifier grows, and nothing between the two is retained. */
  lemma OneRead(b: Moment, c: Cursor, d: Cursor, n: nat)
    requires Live(b.s, b.lay) && Known(b.s, b.lay, c) && NextAfter(b.s, b.lay, c, n)
    requires n < |b.lay.Log()| && RetainedAt(b.lay.Log(), n, d)
    ensures c.id < d.id
    ensures forall m | 0 <= m < |b.lay.Log()| :: !(c.id < b.lay.Log()[m].id < d.id)
  {
    ReaderProgress(b.s, b.lay, c, n);
    var log := b.lay.Log();
    forall m | 0 <= m < |log| ensures !(c.id < log[m].id < d.id) {
      if m > n { assert Earlier(log, n, m); }
    }
  }

  lemma ReadStep(qs: seq<Moment>, cs: seq<Cursor>, ns: seq<nat>, i: nat)
    requires ReaderRun(qs, cs, ns) && 0 < i < |qs|
    ensures cs[i - 1].id < cs[i].id
    ensures forall x | cs[i - 1].id < x < cs[i].id :: SkippedAt(qs, cs, x, i)
  {
    hide Live, Known, NextAfter, RetainedAt;
    RunCursorsKnown(qs, cs, ns, i - 1);
    assert ReadAt(qs, cs, ns, i);
    assert Live(qs[i].s, qs[i].lay);
    OneRead(qs[i], cs[i - 1], cs[i], ns[i]);
  }

  lemma {:induction false} ReaderIncreases(qs: seq<Moment>, cs: seq<Cursor>, ns: seq<nat>, i: nat, j: nat)
    requires ReaderRun(qs, cs, ns) && i < j < |qs|
    ensures cs[i].id < cs[j].id
    decreases j
  {
    ReadStep(qs, cs, ns, j);
    if i < j - 1 {
      ReaderIncreases(qs, cs, ns, i, j - 1);
    }
  }

  /** Read r jumped over identifier x, which was not in the queue at that moment. */
  ghost predicate SkippedAt(qs: seq<Moment>, cs: seq<Cursor>, x: nat, r: nat)
    requires 0 < r < |qs| == |cs|
  {
    cs[r - 1].id < x < cs[r].id && forall m | 0 <= m < |qs[r].lay.Log()| :: qs[r].lay.Log()[m].id != x
  }

  /**
   * Over a whole run a reader sees strictly increasing identifiers (ReaderIncreases), and an
   * identifier between two reads was read too, or no longer retained at the read that skipped it.
   */
  lemma {:induction false} ReaderMissesOnlyEvicted(qs: seq<Moment>, cs: seq<Cursor>, ns: seq<nat>, i: nat, j: nat,
                                                   x: nat)
    returns (r: nat)
    requires ReaderRun(qs, cs, ns) && i < j < |qs| && cs[i].id < x < cs[j].id
    ensures i < r <= j && (cs[r].id == x || SkippedAt(qs, cs, x, r))
    decreases j
  {
    ReadStep(qs, cs, ns, j);
    if x > cs[j - 1].id {
      r := j;
    } else if x < cs[j - 1].id {
      r := ReaderMissesOnlyEvicted(qs, cs, ns, i, j - 1, x);
    } else {
      r := j - 1;
    }
  }
}
