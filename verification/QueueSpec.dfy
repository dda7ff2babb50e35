/**
 * What the operations of the queue promise, as relations between states: eviction, Put, cursors
 * and Get, saving, resetting and opening.
 */
module QueueSpec {
  import opened Bytes
  import opened Ring
  import opened RingFile
  import opened Wrappers

  /** QueueCursor: the identifier and the ring position of the last item a reader has seen. */
  datatype Cursor = Cursor(id: nat, index: nat)

  const HEAD_CURSOR := Cursor(0xFF_FFFF_FFFF_FFFF, 0xFF_FFFF_FFFF_FFFF)
  const TAIL_CURSOR := Cursor(0, 0xFF_FFFF_FFFF_FFFF)

  datatype GetResult = Item(data: seq<Byte>, cursor: Cursor) | Timeout | GetClosed | GetBufferTooSmall

  /** What opening the queue file would yield: these items, which are history[from..] for a while. */
  datatype Recovery = Recovery(lay: Layout, next: nat, from: nat)

  ghost predicate IsSlice(s: seq<Block>, t: seq<Block>, from: nat) {
    from + |s| <= |t| && s == t[from..from + |s|]
  }

  /**
   * The invariant of a queue: the ring is well formed, disk and memory agree on what is saved, the
   * file recovers to a run of the items ever committed, and what is retained is the end of that
   * history.
   */
  ghost predicate Sound(s: State, lay: Layout, sv: nat, d: Disk, history: seq<Block>, file: Recovery) {
    && Live(s, lay)
    && Synced(s, lay, sv, d.data)
    && Recovers(d, file.lay, file.next)
    && IsSuffix(lay.Log(), history)
    && IsSlice(file.lay.Log(), history, file.from)
  }

  lemma SoundBounds(s: State, lay: Layout, sv: nat, d: Disk, history: seq<Block>, file: Recovery)
    requires Sound(s, lay, sv, d, history, file)
    ensures s.head + HEADER <= |s.mem| && s.tail + HEADER <= |s.mem| && Addressable(|s.mem|) && |d.data| == |s.mem|
    ensures sv <= |lay.Log()| && 0 < s.nextId < U64
  {
    HeadAndTail(s, lay);
  }

  lemma SoundIsLive(s: State, lay: Layout, sv: nat, d: Disk, history: seq<Block>, file: Recovery)
    requires Sound(s, lay, sv, d, history, file)
    ensures Live(s, lay)
  {
  }

  /** The tail is where the oldest item lies; it meets the head only when nothing is retained. */
  lemma FirstIsTail(n: nat, head: nat, tail: nat, lay: Layout)
    requires Shape(n, head, tail, lay)
    ensures lay.Log() == [] <==> tail == head
    ensures lay.Log() != [] ==> lay.Log()[0].pos == tail
  {
  }

  lemma HeadAndTail(s: State, lay: Layout)
    requires Live(s, lay)
    ensures s.tail + HEADER <= |s.mem|
    ensures PosOf(lay, s.head, 0) == s.tail && PosOf(lay, s.head, |lay.Log()|) == s.head
    ensures StateAt(s.mem, s.head) != WRAP && StateAt(s.mem, s.tail) != WRAP
  {
    FirstIsTail(|s.mem|, s.head, s.tail, lay);
    if lay.Log() != [] { FirstItem(s.mem, s.head, s.tail, lay); }
  }

  /**
   * The items of the history behind the first `found` ones were committed since the queue was
   * opened with next identifier `first`, and have consecutive identifiers.
   */
  ghost predicate Numbered(history: seq<Block>, found: nat, first: nat, nextId: nat) {
    && found <= |history| && nextId == first + |history| - found
    && forall i | found <= i < |history| :: NumberedAt(history, found, first, i)
  }

  ghost predicate NumberedAt(history: seq<Block>, found: nat, first: nat, i: nat)
    requires found <= i < |history|
  {
    history[i].id == first + i - found
  }

  lemma NumberedSnoc(history: seq<Block>, found: nat, first: nat, b: Block)
    requires Numbered(history, found, first, b.id)
    ensures Numbered(history + [b], found, first, b.id + 1)
  {
    forall i | found <= i < |history + [b]| ensures NumberedAt(history + [b], found, first, i) {
      if i < |history| { assert NumberedAt(history, found, first, i); }
    }
  }

  lemma NumberedAtOpening(history: seq<Block>, next: nat)
    ensures Numbered(history, |history|, next, next)
  {
  }

  // ---------------------------------------------------------------- small items

  /** With its header and the next one an item takes no more than a third of the ring. */
  predicate Small(dataSize: nat, size: nat) {
    3 * (size + 2 * HEADER) <= dataSize
  }

  ghost predicate AllSmall(dataSize: nat, log: seq<Block>) {
    forall i | 0 <= i < |log| :: Small(dataSize, |log[i].payload|)
  }

  /** An empty queue has its head at the front: it is new, or reset, or opened so. */
  ghost predicate EmptyAtFront(head: nat, log: seq<Block>) {
    log == [] ==> head == 0
  }

  /** In a queue of small items a small item is safe to put. */
  lemma SmallPutIsSafe(s: State, lay: Layout, size: nat)
    requires Live(s, lay) && EmptyAtFront(s.head, lay.Log())
    requires AllSmall(|s.mem|, lay.Log()) && Small(|s.mem|, size)
    ensures PutSafe(|s.mem|, s.head, lay.Log(), size)
  {
    forall i | 0 <= i < |lay.Log()| ensures 3 * (|lay.Log()[i].payload| + 2 * HEADER) <= |s.mem| {
      assert Small(|s.mem|, |lay.Log()[i].payload|);
    }
    SmallItemsAreSafe(|s.mem|, s.head, s.tail, lay, size);
  }

  lemma PutKeepsSmall(was: State, wasLay: Layout, item: seq<Byte>, s: State, lay: Layout, k: nat)
    requires PutEffect(was, wasLay, item, s, lay, k) && AllSmall(|was.mem|, wasLay.Log()) && Small(|was.mem|, |item|)
    ensures AllSmall(|s.mem|, lay.Log())
  {
    forall i | 0 <= i < |lay.Log()| ensures Small(|s.mem|, |lay.Log()[i].payload|) {
      if k + i < |wasLay.Log()| { assert Small(|was.mem|, |wasLay.Log()[k + i].payload|); }
    }
  }

  /** What a crash leaves of a queue of small items is one, too. */
  lemma SliceKeepsSmall(dataSize: nat, history: seq<Block>, log: seq<Block>, from: nat)
    requires AllSmall(dataSize, history) && IsSlice(log, history, from)
    ensures AllSmall(dataSize, log)
  {
    forall i | 0 <= i < |log| ensures Small(dataSize, |log[i].payload|) {
      assert Small(dataSize, |history[from + i].payload|);
    }
  }

  // ---------------------------------------------------------------- eviction

  /** With item j as the oldest there is too little room for the new item. */
  ghost predicate TooTight(was: State, log: seq<Block>, size: nat, j: nat)
    requires j < |log|
  {
    !Suffices(|was.mem|, was.head, log[j].pos, size)
  }

  /** k items have been dropped, and with none of them as the oldest did the new one fit. */
  ghost predicate Dropping(was: State, wasLay: Layout, size: nat, tail: nat, lay: Layout, k: nat) {
    && Wellformed(was.mem, was.head, tail, was.nextId, lay)
    && k <= |wasLay.Log()| && lay.Log() == wasLay.Log()[k..]
    && tail == (if k < |wasLay.Log()| then wasLay.Log()[k].pos else was.head)
    && (k == 0 ==> tail == was.tail)
    && (tail == was.head <==> k == |wasLay.Log()|)
    && forall j | 0 <= j < k :: TooTight(was, wasLay.Log(), size, j)
  }

  lemma StartDropping(was: State, lay: Layout, size: nat)
    requires Live(was, lay)
    ensures Dropping(was, lay, size, was.tail, lay, 0)
  {
    FirstIsTail(|was.mem|, was.head, was.tail, lay);
  }

  lemma DropOne(was: State, wasLay: Layout, size: nat, tail: nat, lay: Layout, k: nat)
    requires Dropping(was, wasLay, size, tail, lay, k)
    requires !Fits(|was.mem|, was.head, tail, size) && tail != was.head
    ensures tail + HEADER <= |was.mem| && lay.Log() != [] && |Dropped(lay).Log()| < |lay.Log()|
    ensures var t := tail + SizeAt(was.mem, tail) + HEADER;
            && t + HEADER <= |was.mem|
            && Dropping(was, wasLay, size, if StateAt(was.mem, t) == WRAP then 0 else t, Dropped(lay), k + 1)
  {
    hide Fits, Suffices, Wellformed, Shape, Layout.Log, TooTight, SizeAt, StateAt, PosOf, Ring.Dropped;
    OldestIsTight(was, wasLay, size, tail, lay, k);
    EvictStep(was.mem, was.head, tail, was.nextId, lay);
    WellformedDrop(was.mem, was.head, tail, was.nextId, lay);
    PlaceOfSecond(was, wasLay, tail, lay, k);
  }

  /** Where the tail is when the oldest item has gone. */
  lemma PlaceOfSecond(was: State, wasLay: Layout, tail: nat, lay: Layout, k: nat)
    requires Wellformed(was.mem, was.head, tail, was.nextId, lay) && k < |wasLay.Log()| && lay.Log() == wasLay.Log()[k..]
    requires Wellformed(was.mem, was.head, PosOf(lay, was.head, 1), was.nextId, Dropped(lay))
    ensures Dropped(lay).Log() == wasLay.Log()[k + 1..]
    ensures PosOf(lay, was.head, 1) == if k + 1 < |wasLay.Log()| then wasLay.Log()[k + 1].pos else was.head
    ensures PosOf(lay, was.head, 1) == was.head <==> k + 1 == |wasLay.Log()|
  {
    hide Layout.Log, Ring.Dropped;
    FirstIsTail(|was.mem|, was.head, PosOf(lay, was.head, 1), Dropped(lay));
  }

  lemma OldestIsTight(was: State, wasLay: Layout, size: nat, tail: nat, lay: Layout, k: nat)
    requires Dropping(was, wasLay, size, tail, lay, k)
    requires !Fits(|was.mem|, was.head, tail, size) && tail != was.head
    ensures k < |wasLay.Log()| && TooTight(was, wasLay.Log(), size, k)
  {
    hide Wellformed, Layout.Log;
    FitsIffSuffices(|was.mem|, was.head, tail, size);
  }

  /**
   * No older item can stay, and yet the new one fits at the front, because the head lies beyond it.
   * Then the tail comes to rest on the WRAP block that is written at the old head.
   */
  predicate Strands(dataSize: nat, head: nat, log: seq<Block>, size: nat) {
    !PutSafe(dataSize, head, log, size) && size + 2 * HEADER < head
  }

  /** What eviction promises when it ends: no more items dropped than needed, and all only when PutSafe fails. */
  ghost predicate RoomMade(was: State, wasLay: Layout, size: nat, s: State, lay: Layout, k: nat) {
    && s.mem == was.mem && s.head == was.head && s.nextId == was.nextId
    && k <= |wasLay.Log()| && lay.Log() == wasLay.Log()[k..]
    && (forall j | 0 <= j < k :: TooTight(was, wasLay.Log(), size, j))
    && (k < |wasLay.Log()| ==> !TooTight(was, wasLay.Log(), size, k))
    && Fits(|s.mem|, s.head, s.tail, size)
    && (if PutSafe(|was.mem|, was.head, wasLay.Log(), size) then
          && (Wraps(|s.mem|, s.head, s.tail, size) ==> lay.Log() != [])
          && (wasLay.Log() != [] ==> lay.Log() != [])
        else
          && Strands(|was.mem|, was.head, wasLay.Log(), size) && lay.Log() == [] && s.tail == s.head
          && Wraps(|s.mem|, s.head, s.tail, size))
  }

  /** The state eviction leaves behind, with the corrected saved size. */
  lemma RoomIsMade(was: State, wasLay: Layout, sv: nat, d: Disk, history: seq<Block>, file: Recovery, size: nat,
                   tail: nat, lay: Layout, k: nat)
    requires Sound(was, wasLay, sv, d, history, file) && Dropping(was, wasLay, size, tail, lay, k)
    requires Fits(|was.mem|, was.head, tail, size)
    ensures var saved := SavedAfter(|was.mem|, was.saved, was.tail, tail);
            && saved >= 0
            && var s := was.(tail := tail, saved := saved);
            && Sound(s, lay, if sv > k then sv - k else 0, d, history, file)
            && RoomMade(was, wasLay, size, s, lay, k)
  {
    var log := wasLay.Log();
    FirstIsTail(|was.mem|, was.head, tail, lay);
    FirstIsTail(|was.mem|, was.head, was.tail, wasLay);
    FitsIffSuffices(|was.mem|, was.head, tail, size);
    if log != [] {
      SafeIffSomeTailFits(|was.mem|, was.head, was.tail, wasLay, size);
      if k == |log| { NoneFits(was, log, size, k); } else { assert Fits(|was.mem|, was.head, log[k].pos, size); }
    }
    if k < |log| {
      EvictKeepsSync(was, wasLay, sv, d.data, k, lay);
    } else {
      UnsavedCount(was, wasLay, sv, d, history, file);
      assert SavedAfter(|was.mem|, was.saved, was.tail, tail) == 0 by { AllOverwritten(was, wasLay, sv, d, tail); }
      NothingSaved(was.(tail := tail, saved := 0), lay, d.data);
    }
  }

  /** Dropping everything overwrites all that is saved. */
  lemma AllOverwritten(was: State, wasLay: Layout, sv: nat, d: Disk, tail: nat)
    requires Live(was, wasLay) && Synced(was, wasLay, sv, d.data) && was.saved <= Span(|was.mem|, was.tail, was.head)
    requires tail == was.head
    ensures SavedAfter(|was.mem|, was.saved, was.tail, tail) == 0
  {
    FirstIsTail(|was.mem|, was.head, was.tail, wasLay);
  }

  /** Where the loop goes on past the head: nothing is left, and the new item fits nowhere. */
  lemma TailPasses(was: State, wasLay: Layout, size: nat, tail: nat, lay: Layout, k: nat)
    requires Dropping(was, wasLay, size, tail, lay, k) && Live(was, wasLay)
    requires tail == was.head && !Fits(|was.mem|, was.head, tail, size)
    ensures !PutSafe(|was.mem|, was.head, wasLay.Log(), size) && size + 2 * HEADER >= was.head
    ensures lay.Log() == []
  {
    var log := wasLay.Log();
    FirstIsTail(|was.mem|, was.head, was.tail, wasLay);
    if log != [] {
      SafeIffSomeTailFits(|was.mem|, was.head, was.tail, wasLay, size);
      NoneFits(was, log, size, k);
    }
  }

  lemma NoneFits(was: State, log: seq<Block>, size: nat, k: nat)
    requires k == |log| && forall j | 0 <= j < k :: TooTight(was, log, size, j)
    ensures !exists j :: 0 <= j < |log| && Fits(|was.mem|, was.head, log[j].pos, size)
  {
    forall j | 0 <= j < |log| ensures !Fits(|was.mem|, was.head, log[j].pos, size) {
      assert TooTight(was, log, size, j);
      FitsIffSuffices(|was.mem|, was.head, log[j].pos, size);
    }
  }

  lemma RoomFits(was: State, wasLay: Layout, size: nat, s: State, lay: Layout, k: nat)
    requires RoomMade(was, wasLay, size, s, lay, k)
    ensures Fits(|s.mem|, s.head, s.tail, size)
    ensures s.nextId == was.nextId && s.mem == was.mem && s.head == was.head
    ensures PutSafe(|was.mem|, was.head, wasLay.Log(), size) ==>
              (Wraps(|s.mem|, s.head, s.tail, size) ==> lay.Log() != [])
    ensures !PutSafe(|was.mem|, was.head, wasLay.Log(), size) ==>
              && Strands(|was.mem|, was.head, wasLay.Log(), size) && lay.Log() == []
              && s.tail == s.head && Wraps(|s.mem|, s.head, s.tail, size)
  {
  }

  // ---------------------------------------------------------------- Put

  /** s is base after allocate_locked: a block for size bytes is reserved at the head. */
  ghost predicate Reserved(base: State, size: nat, s: State) {
    && base.head + HEADER <= |base.mem| && Fits(|base.mem|, base.head, base.tail, size)
    && s.head == (if Wraps(|base.mem|, base.head, base.tail, size) then 0 else base.head)
    && s.head + 2 * HEADER + size <= |base.mem|
    && s == base.(head := s.head, mem := Allocated(base.mem, base.head, base.tail, size))
  }

  lemma BlockPlace(base: State, size: nat, s: State)
    requires Reserved(base, size, s)
    ensures s.head == PlaceFor(|base.mem|, base.head, base.tail, size)
  {
  }

  lemma ReservedBounds(base: State, size: nat, s: State)
    requires Reserved(base, size, s)
    ensures s.head + 2 * HEADER + size <= |base.mem| == |s.mem| && s.nextId == base.nextId
  {
  }

  /** The state after the item's bytes are copied and the block is committed. */
  ghost predicate Filled(base: State, item: seq<Byte>, r: State, s: State) {
    && Reserved(base, |item|, r)
    && s == r.(mem := Committed(Splice(r.mem, r.head + HEADER, item), r.head, |item|, r.nextId),
               head := r.head + HEADER + |item|, nextId := r.nextId + 1)
  }

  /** With the item's bytes in place the reserved header still tells its size. */
  lemma PutReads(base: State, lay: Layout, item: seq<Byte>, r: State)
    requires Live(base, lay) && Reserved(base, |item|, r)
    ensures SizeAt(Splice(r.mem, r.head + HEADER, item), r.head) == |item|
  {
    hide Header, Allocated, HeaderIs;
    HeadAndTail(base, lay);
    AllocatedReads(base.mem, base.head, base.tail, |item|);
    SpliceOther(r.mem, r.head + HEADER, item, r.head);
  }

  /** The layout with the committed block. */
  function WithItem(base: State, lay: Layout, b: Block): (r: Layout)
    ensures (Wraps(|base.mem|, base.head, base.tail, |b.payload|) ==> lay.Flat?) ==> r.Log() == lay.Log() + [b]
  {
    var wraps := Wraps(|base.mem|, base.head, base.tail, |b.payload|);
    if wraps && !lay.Flat? then lay else Appended(lay, base.head, wraps, b)
  }

  /** The whole Put on the reserved block extends the log by it. */
  lemma PutExtends(base: State, lay: Layout, sv: nat, d: Disk, history: seq<Block>, file: Recovery,
                   item: seq<Byte>, r: State, s: State)
    requires Sound(base, lay, sv, d, history, file) && base.nextId + 1 < U64
    requires Wraps(|base.mem|, base.head, base.tail, |item|) ==> lay.Log() != []
    requires Filled(base, item, r, s)
    ensures var b := Block(r.head, base.nextId, item);
            var l := WithItem(base, lay, b);
            && l.Log() == lay.Log() + [b] && s.head == b.End()
            && Sound(s, l, sv, d, history + [b], file)
  {
    hide Wellformed, Synced, Recovers, Reserved, Committed, IsSuffix, IsSlice;
    PutLives(base, lay, item, r, s);
    var b := Block(r.head, base.nextId, item);
    HistoryGrows(lay.Log(), file.lay.Log(), history, file.from, b);
    AppendKeepsSync(base, lay, sv, d.data, s, WithItem(base, lay, b), b);
  }

  lemma HistoryGrows(s: seq<Block>, f: seq<Block>, h: seq<Block>, from: nat, b: Block)
    requires IsSuffix(s, h) && IsSlice(f, h, from)
    ensures IsSuffix(s + [b], h + [b]) && IsSlice(f, h + [b], from)
  {
  }

  lemma PutLives(base: State, lay: Layout, item: seq<Byte>, r: State, s: State)
    requires Live(base, lay) && base.nextId + 1 < U64
    requires Wraps(|base.mem|, base.head, base.tail, |item|) ==> lay.Log() != []
    requires Filled(base, item, r, s)
    ensures var b := Block(r.head, base.nextId, item);
            var l := WithItem(base, lay, b);
            l.Log() == lay.Log() + [b] && Live(s, l)
            && |s.mem| == |base.mem| && s.tail == base.tail && s.saved == base.saved
            && forall i | 0 <= i < |base.mem| && Used(base.head, base.tail, i) :: s.mem[i] == base.mem[i]
  {
    hide Wellformed, Header, Allocated, Committed, HeaderIs, Stored, Marker, Used, Layout.Log, Splice;
    HeadAndTail(base, lay);
    LiveIsAddressable(base, lay);
    var b := Block(r.head, base.nextId, item);
    PutWrites(base.mem, r.mem, Splice(r.mem, r.head + HEADER, item), s.mem, base.head, base.tail, r.head, item, base.nextId);
    Append(base.mem, s.mem, base.head, base.tail, base.nextId, lay, b, Wraps(|base.mem|, base.head, base.tail, |item|));
  }

  lemma LiveIsAddressable(s: State, lay: Layout)
    requires Live(s, lay)
    ensures Addressable(|s.mem|) && s.nextId < U64 && s.head + HEADER <= |s.mem|
  {
  }

  /**
   * The item is stored at the front, under this identifier, but the tail rests on the WRAP block at
   * the old head instead of an item, and nothing of the file is valid.
   */
  ghost predicate Stranded(oldHead: nat, id: nat, item: seq<Byte>, s: State) {
    && s.tail == oldHead && HeaderIs(s.mem, s.tail, 0, 0, WRAP)
    && Stored(s.mem, Block(0, id, item)) && s.head == HEADER + |item| && Marker(s.mem, s.head)
    && s.head + HEADER < s.tail && s.nextId == id + 1 && s.saved == 0
  }

  /** Put where PutSafe fails and the item fits at the front. */
  lemma PutStrands(base: State, lay: Layout, sv: nat, d: Disk, history: seq<Block>, file: Recovery,
                   item: seq<Byte>, r: State, s: State)
    requires Sound(base, lay, sv, d, history, file) && base.tail == base.head && lay.Log() == []
    requires Wraps(|base.mem|, base.head, base.tail, |item|) && Filled(base, item, r, s)
    ensures Stranded(base.head, base.nextId, item, s)
  {
    NothingIsSaved(base, lay, sv, d, history, file);
    StrandedWrites(base, lay, item, r, s);
  }

  lemma NothingIsSaved(base: State, lay: Layout, sv: nat, d: Disk, history: seq<Block>, file: Recovery)
    requires Sound(base, lay, sv, d, history, file) && base.tail == base.head && lay.Log() == []
    ensures base.saved == 0
  {
    UnsavedCount(base, lay, sv, d, history, file);
  }

  lemma StrandedWrites(base: State, lay: Layout, item: seq<Byte>, r: State, s: State)
    requires Live(base, lay) && base.tail == base.head && base.saved == 0
    requires Wraps(|base.mem|, base.head, base.tail, |item|) && Filled(base, item, r, s)
    ensures Stranded(base.head, base.nextId, item, s)
  {
    hide Wellformed, Header, Allocated, Committed, HeaderIs, Stored, Marker, Used, Layout.Log, Splice;
    HeadAndTail(base, lay);
    LiveIsAddressable(base, lay);
    PutWrites(base.mem, r.mem, Splice(r.mem, r.head + HEADER, item), s.mem, base.head, base.tail, r.head, item, base.nextId);
  }

  /** Where the oldest item is when the first k have gone: the head, when none is left. */
  function OldestAt(s: State, log: seq<Block>, k: nat): nat {
    if k < |log| then log[k].pos else s.head
  }

  lemma TailIsOldest(s: State, lay: Layout, sv: nat, d: Disk, history: seq<Block>, file: Recovery)
    requires Sound(s, lay, sv, d, history, file)
    ensures s.tail == OldestAt(s, lay.Log(), 0)
  {
    FirstIsTail(|s.mem|, s.head, s.tail, lay);
  }

  /**
   * What a Put does to the log. The first k items go: those with which as the oldest there would be
   * too little room, and no others. The new one comes, in its place, and an older one stays if there
   * was any.
   */
  ghost predicate PutEffect(was: State, wasLay: Layout, item: seq<Byte>, s: State, lay: Layout, k: nat) {
    && k <= |wasLay.Log()| && (wasLay.Log() != [] ==> k < |wasLay.Log()|)
    && (forall j | 0 <= j < k :: TooTight(was, wasLay.Log(), |item|, j))
    && (k < |wasLay.Log()| ==> !TooTight(was, wasLay.Log(), |item|, k))
    && s.nextId == was.nextId + 1 && |s.mem| == |was.mem|
    && s.head == PlaceFor(|was.mem|, was.head, OldestAt(was, wasLay.Log(), k), |item|) + HEADER + |item|
    && lay.Log() == wasLay.Log()[k..] + [Block(s.head - HEADER - |item|, was.nextId, item)]
  }

  lemma EffectOfPut(was: State, wasLay: Layout, base: State, lay: Layout, item: seq<Byte>, s: State, l: Layout,
                    k: nat, b: Block)
    requires RoomMade(was, wasLay, |item|, base, lay, k) && PutSafe(|was.mem|, was.head, wasLay.Log(), |item|)
    requires b == Block(b.pos, base.nextId, item) && s.head == b.End()
    requires b.pos == PlaceFor(|base.mem|, base.head, base.tail, |item|) && base.tail == OldestAt(base, lay.Log(), 0)
    requires l.Log() == lay.Log() + [b] && s.nextId == base.nextId + 1 && |s.mem| == |base.mem|
    ensures PutEffect(was, wasLay, item, s, l, k)
  {
  }

  // ---------------------------------------------------------------- cursors

  ghost predicate RetainedAt(log: seq<Block>, i: nat, c: Cursor)
    requires i < |log|
  {
    log[i].id == c.id && log[i].pos == c.index
  }

  /** A cursor whose item is still there, or older than everything that is. */
  ghost predicate Known(s: State, lay: Layout, c: Cursor) {
    && 0 < c.id < s.nextId && c.index + HEADER <= |s.mem|
    && ((exists i :: 0 <= i < |lay.Log()| && RetainedAt(lay.Log(), i, c))
        || if lay.Log() != [] then c.id < lay.Log()[0].id
           else StateAt(s.mem, c.index) != ITEM)
  }

  /** A queue with the same items in the same places knows the same cursors. */
  lemma SameItemsSameKnown(s: State, lay: Layout, t: State, l: Layout, c: Cursor)
    requires Known(s, lay, c) && l.Log() == lay.Log() && t.nextId == s.nextId && |t.mem| == |s.mem|
    requires l.Log() == [] ==> forall i | 0 <= i < |t.mem| :: t.mem[i] == 0
    ensures Known(t, l, c)
  {
    if l.Log() == [] {
      ZeroReads(t.mem, c.index);
    } else if i :| 0 <= i < |lay.Log()| && RetainedAt(lay.Log(), i, c) {
      assert RetainedAt(l.Log(), i, c);
    }
  }

  /** Whatever queue of n bytes had these items and this next identifier: its cursors are known in state t, too. */
  ghost predicate KeepsCursors(lay: Layout, next: nat, n: nat, t: State, l: Layout) {
    forall s: State, c: Cursor | Known(s, lay, c) && s.nextId == next && |s.mem| == n :: Known(t, l, c)
  }

  lemma ReopenedKeepsCursors(lay: Layout, t: State, l: Layout)
    requires l.Log() == lay.Log() && (l.Log() == [] ==> t.mem == Zeros(|t.mem|))
    ensures KeepsCursors(lay, t.nextId, |t.mem|, t, l)
  {
    forall s: State, c: Cursor | Known(s, lay, c) && s.nextId == t.nextId && |s.mem| == |t.mem| ensures Known(t, l, c) {
      SameItemsSameKnown(s, lay, t, l, c);
    }
  }

  lemma PutKeepsKnown(was: State, wasLay: Layout, item: seq<Byte>, s: State, lay: Layout, k: nat, c: Cursor)
    requires Live(was, wasLay) && PutEffect(was, wasLay, item, s, lay, k) && Known(was, wasLay, c)
    ensures Known(s, lay, c)
  {
    var log := wasLay.Log();
    if i :| 0 <= i < |log| && RetainedAt(log, i, c) {
      if i >= k {
        assert RetainedAt(lay.Log(), i - k, c);
      } else {
        assert Earlier(log, i, k);
      }
    } else if k > 0 {
      assert Earlier(log, 0, k);
    }
  }

  /** What a Put does when PutSafe holds. */
  lemma SafePut(was: State, wasLay: Layout, base: State, lay: Layout, item: seq<Byte>, s: State, l: Layout, k: nat, b: Block)
    requires Live(was, wasLay) && RoomMade(was, wasLay, |item|, base, lay, k)
    requires PutSafe(|was.mem|, was.head, wasLay.Log(), |item|)
    requires b == Block(b.pos, base.nextId, item) && s.head == b.End()
    requires b.pos == PlaceFor(|base.mem|, base.head, base.tail, |item|) && base.tail == OldestAt(base, lay.Log(), 0)
    requires l.Log() == lay.Log() + [b] && s.nextId == base.nextId + 1 && |s.mem| == |base.mem|
    ensures PutEffect(was, wasLay, item, s, l, k)
    ensures forall c: Cursor | Known(was, wasLay, c) :: Known(s, l, c)
    ensures AllSmall(|was.mem|, wasLay.Log()) && Small(|was.mem|, |item|) ==> AllSmall(|s.mem|, l.Log())
  {
    hide Live, RoomMade, PutSafe, Layout.Log, PutEffect, Known, AllSmall;
    EffectOfPut(was, wasLay, base, lay, item, s, l, k, b);
    forall c: Cursor | Known(was, wasLay, c) ensures Known(s, l, c) {
      PutKeepsKnown(was, wasLay, item, s, l, k, c);
    }
    if AllSmall(|was.mem|, wasLay.Log()) && Small(|was.mem|, |item|) {
      PutKeepsSmall(was, wasLay, item, s, l, k);
    }
  }

  /** The log index a Get with this cursor reads. */
  ghost predicate NextAfter(s: State, lay: Layout, last: Cursor, n: nat) {
    var log := lay.Log();
    if last == HEAD_CURSOR then n == |log|
    else if last == TAIL_CURSOR || last.index + HEADER > |s.mem| then n == 0
    else if last.id >= s.nextId then n == |log|
    else if n == 0 then forall i | 0 <= i < |log| :: !RetainedAt(log, i, last)
    else n <= |log| && RetainedAt(log, n - 1, last)
  }

  /** What a Get hands back for log index n. */
  function Delivered(log: seq<Block>, n: nat, size: nat): GetResult {
    if n >= |log| then Timeout
    else if |log[n].payload| > size then GetBufferTooSmall
    else Item(log[n].payload, Cursor(log[n].id, log[n].pos))
  }

  /** The bytes at the cursor's position look like its item, yet no retained item lies there. */
  ghost predicate Forged(s: State, lay: Layout, c: Cursor)
    requires s.tail + HEADER <= |s.mem|
  {
    && c != HEAD_CURSOR && c.id < s.nextId && c.index + HEADER <= |s.mem|
    && IdAt(s.mem, s.tail) <= c.id && IdAt(s.mem, c.index) == c.id && StateAt(s.mem, c.index) == ITEM
    && forall i | 0 <= i < |lay.Log()| :: !RetainedAt(lay.Log(), i, c)
  }

  /** A cursor the queue handed out is never mistaken for an item it does not stand for. */
  lemma KnownIsNotForged(s: State, lay: Layout, c: Cursor)
    requires Live(s, lay) && Known(s, lay, c) && s.tail + HEADER <= |s.mem|
    ensures !Forged(s, lay, c)
  {
    if lay.Log() != [] { FirstItem(s.mem, s.head, s.tail, lay); }
  }

  /** What a Get hands out is such a cursor. */
  lemma DeliveredIsKnown(s: State, lay: Layout, n: nat, size: nat)
    requires Live(s, lay) && Delivered(lay.Log(), n, size).Item?
    ensures Known(s, lay, Delivered(lay.Log(), n, size).cursor)
    ensures Delivered(lay.Log(), n, size).cursor != HEAD_CURSOR
  {
    assert Issued(lay.Log(), n, s.nextId);
    assert Stored(s.mem, lay.Log()[n]);
    assert RetainedAt(lay.Log(), n, Delivered(lay.Log(), n, size).cursor);
  }

  /**
   * A reader that goes on from a cursor it was given gets the oldest retained item newer than the
   * cursor's: identifiers grow, and what it misses is no longer retained. It waits only when
   * nothing newer is retained.
   */
  lemma ReaderProgress(s: State, lay: Layout, c: Cursor, n: nat)
    requires Live(s, lay) && Known(s, lay, c) && NextAfter(s, lay, c, n)
    ensures n <= |lay.Log()|
    ensures forall m | 0 <= m < |lay.Log()| :: lay.Log()[m].id > c.id <==> m >= n
  {
    var log := lay.Log();
    assert c != HEAD_CURSOR && c != TAIL_CURSOR;
    forall m | 0 <= m < |log| ensures log[m].id > c.id <==> m >= n {
      if n == 0 {
        if m > 0 { assert Earlier(log, 0, m); }
      } else if m >= n {
        assert Earlier(log, n - 1, m);
      } else if m < n - 1 {
        assert Earlier(log, m, n - 1);
      }
    }
  }

  lemma AtHead(s: State, lay: Layout, last: Cursor)
    requires last == HEAD_CURSOR || (last != TAIL_CURSOR && last.index + HEADER <= |s.mem| && last.id >= s.nextId)
    ensures NextAfter(s, lay, last, |lay.Log()|)
  {
  }

  lemma AtTail(s: State, lay: Layout, last: Cursor)
    requires last != HEAD_CURSOR && (last == TAIL_CURSOR || last.index + HEADER > |s.mem|)
    ensures NextAfter(s, lay, last, 0)
  {
  }

  lemma NextInRange(s: State, lay: Layout, last: Cursor, n: nat)
    requires NextAfter(s, lay, last, n)
    ensures n <= |lay.Log()|
  {
  }

  /** A retained item lies where its cursor says, and is no older than what the tail's header says. */
  lemma RetainedReads(s: State, lay: Layout, last: Cursor, i: nat)
    requires Live(s, lay) && i < |lay.Log()| && RetainedAt(lay.Log(), i, last) && s.tail + HEADER <= |s.mem|
    ensures IdAt(s.mem, s.tail) <= last.id
    ensures last.index + HEADER <= |s.mem| && HeaderIs(s.mem, last.index, |lay.Log()[i].payload|, last.id, ITEM)
  {
    FirstItem(s.mem, s.head, s.tail, lay);
    NextState(s.mem, s.head, s.tail, s.nextId, lay, i);
    if i > 0 { assert Earlier(lay.Log(), 0, i); }
  }

  lemma NotRetained(s: State, lay: Layout, last: Cursor)
    requires Live(s, lay) && last != HEAD_CURSOR && last != TAIL_CURSOR && last.index + HEADER <= |s.mem|
    requires last.id < s.nextId && s.tail + HEADER <= |s.mem|
    requires last.id < IdAt(s.mem, s.tail) || IdAt(s.mem, last.index) != last.id || StateAt(s.mem, last.index) != ITEM
    ensures NextAfter(s, lay, last, 0)
  {
    forall i | 0 <= i < |lay.Log()| ensures !RetainedAt(lay.Log(), i, last) {
      if RetainedAt(lay.Log(), i, last) { RetainedReads(s, lay, last, i); }
    }
  }

  lemma AfterItem(s: State, lay: Layout, last: Cursor) returns (n: nat)
    requires Live(s, lay) && s.tail + HEADER <= |s.mem| && !Forged(s, lay, last)
    requires last != HEAD_CURSOR && last != TAIL_CURSOR && last.index + HEADER <= |s.mem| && last.id < s.nextId
    requires last.id >= IdAt(s.mem, s.tail) && IdAt(s.mem, last.index) == last.id && StateAt(s.mem, last.index) == ITEM
    ensures NextAfter(s, lay, last, n)
    ensures var index := last.index + HEADER + SizeAt(s.mem, last.index);
            index + HEADER <= |s.mem| && (if StateAt(s.mem, index) == WRAP then 0 else index) == PosOf(lay, s.head, n)
  {
    hide Wellformed, Layout.Log, LeVal, StateAt, IdAt, SizeAt, PosOf;
    var i :| 0 <= i < |lay.Log()| && RetainedAt(lay.Log(), i, last);
    n := i + 1;
    NextState(s.mem, s.head, s.tail, s.nextId, lay, i);
    HeaderSize(s.mem, last.index, |lay.Log()[i].payload|, last.id);
  }

  lemma HeaderSize(mem: seq<Byte>, p: nat, size: nat, id: nat)
    requires HeaderIs(mem, p, size, id, ITEM)
    ensures SizeAt(mem, p) == size
  {
  }

  /** At the position of item n one reads item n; behind the newest item there is the head. */
  lemma AtItem(s: State, lay: Layout, n: nat, size: nat)
    requires Live(s, lay) && n <= |lay.Log()|
    ensures var p := PosOf(lay, s.head, n);
            && p + HEADER <= |s.mem| && StateAt(s.mem, p) != WRAP
            && (p == s.head <==> n == |lay.Log()|)
            && (p != s.head ==> p + HEADER + SizeAt(s.mem, p) <= |s.mem|)
            && Delivered(lay.Log(), n, size) ==
               if p == s.head then Timeout
               else if SizeAt(s.mem, p) > size then GetBufferTooSmall
               else Item(s.mem[p + HEADER..p + HEADER + SizeAt(s.mem, p)], Cursor(IdAt(s.mem, p), p))
  {
    PosIsNotHead(|s.mem|, s.head, s.tail, lay, n);
    if n < |lay.Log()| {
      assert Stored(s.mem, lay.Log()[n]);
    }
  }

  // ---------------------------------------------------------------- saving

  /** The writes of a save as a list. */
  function Plan(regions: seq<DiskWrite>, before: FileHeader, after: FileHeader): seq<DiskWrite> {
    (if regions == [] then [] else [PutHeader(before)] + regions) + [PutHeader(after)]
  }

  /** What a save may rely on: the plan is in range and brings over just what is missing. */
  lemma SaveReady(s: State, lay: Layout, sv: nat, d: Disk, history: seq<Block>, file: Recovery)
    requires Sound(s, lay, sv, d, history, file)
    ensures CutBetween(s, SavedHead(s)) && 0 <= SavedHead(s) <= |s.mem| && s.head <= |s.mem| && s.tail <= |s.mem|
    ensures AllApplicable(SavePlan(s), |d.data|) && AllApplicable(Regions(s), |d.data|)
    ensures SavePlan(s) == Plan(Regions(s), HeaderOf(s, SavedHead(s)), HeaderOf(s, s.head))
    ensures DataBytes(Regions(s)) == Span(|s.mem|, s.tail, s.head) - s.saved
  {
    SoundBounds(s, lay, sv, d, history, file);
    hide Live, Synced, Recovers;
    PlanIsSound(s, lay, sv, d);
    PlanInRange(s, Cut(s.tail, lay.Log(), sv));
    PlanOf(s, |d.data|);
    RegionBytes(s, SavedHead(s));
  }

  lemma PlanInRange(s: State, c: nat)
    requires CutBetween(s, c)
    ensures SavedHead(s) == c && s.head <= |s.mem| && s.tail <= |s.mem| && c <= |s.mem|
  {
  }

  lemma PlanOf(s: State, size: nat)
    requires s.head <= |s.mem| && s.tail <= |s.mem| && 0 <= SavedHead(s) <= |s.mem|
    requires AllApplicable(SavePlan(s), size)
    ensures SavePlan(s) == Plan(Regions(s), HeaderOf(s, SavedHead(s)), HeaderOf(s, s.head))
    ensures AllApplicable(Regions(s), size)
  {
    var ws := Regions(s);
    forall i | 0 <= i < |ws| ensures Applicable(ws[i], size) {
      assert SavePlan(s)[i + 1] == ws[i];
    }
  }

  /** After a save the file holds all that is retained. */
  lemma SaveDone(s: State, lay: Layout, sv: nat, d: Disk, history: seq<Block>, file: Recovery)
    requires Sound(s, lay, sv, d, history, file)
    requires 0 <= SavedHead(s) <= |s.mem| && s.head <= |s.mem| && s.tail <= |s.mem|
    requires AllApplicable(SavePlan(s), |d.data|)
    ensures |lay.Log()| <= |history| && Span(|s.mem|, s.tail, s.head) >= 0
    ensures Sound(s.(saved := Span(|s.mem|, s.tail, s.head)), lay, |lay.Log()|, ApplyAll(d, SavePlan(s)), history,
                  Recovery(lay, s.nextId, |history| - |lay.Log()|))
  {
    hide Wellformed, Recovers, SavePlan, AllApplicable, CutBetween, Cut, Used;
    PlanCuts(s, lay, sv, d);
    SaveSavesAll(s, lay, sv, d);
  }

  /**
   * Crash safety: at whatever write a save is cut off, opening the file yields a contiguous run of
   * the items ever committed, with their identifiers and bytes; it is the last completed save, the
   * part of it still retained, or everything retained.
   */
  lemma CrashSafety(s: State, lay: Layout, sv: nat, d: Disk, history: seq<Block>, file: Recovery, r: Disk)
    returns (found: Recovery)
    requires Sound(s, lay, sv, d, history, file)
    requires 0 <= SavedHead(s) <= |s.mem| && s.head <= |s.mem| && s.tail <= |s.mem|
    requires AllApplicable(SavePlan(s), |d.data|) && CrashState(d, SavePlan(s), r)
    ensures Recovers(r, found.lay, found.next) && IsSlice(found.lay.Log(), history, found.from)
    ensures found == file || (found.next == s.nextId && (found.lay.Log() == lay.Log()[..sv] || found.lay == lay))
  {
    hide Live, Synced, Recovers, CrashState, SavePlan, AllApplicable, CutBetween, Cut, IsSlice, IsSuffix, SavedPart,
         Layout.Log;
    SoundBounds(s, lay, sv, d, history, file);
    PlanCuts(s, lay, sv, d);
    SavedSlices(lay, sv, history);
    CrashDuringSave(s, lay, sv, d, file.lay, file.next, r);
    var at := |history| - |lay.Log()|;
    if Recovers(r, file.lay, file.next) {
      found := file;
    } else if Recovers(r, lay, s.nextId) {
      found := Recovery(lay, s.nextId, at);
    } else {
      found := Recovery(SavedPart(lay, sv), s.nextId, at);
    }
  }

  lemma PlanCuts(s: State, lay: Layout, sv: nat, d: Disk)
    requires Live(s, lay) && Synced(s, lay, sv, d.data)
    ensures sv <= |lay.Log()| && CutBetween(s, Cut(s.tail, lay.Log(), sv))
  {
    PlanIsSound(s, lay, sv, d);
  }

  /** The end of a history and what was saved of it are runs of it. */
  lemma SavedSlices(lay: Layout, sv: nat, history: seq<Block>)
    requires IsSuffix(lay.Log(), history) && sv <= |lay.Log()|
    ensures |lay.Log()| <= |history| && SavedPart(lay, sv).Log() == lay.Log()[..sv]
    ensures IsSlice(lay.Log(), history, |history| - |lay.Log()|)
    ensures IsSlice(lay.Log()[..sv], history, |history| - |lay.Log()|)
  {
    var at := |history| - |lay.Log()|;
    assert lay.Log()[..sv] == history[at..at + sv];
  }

  lemma NotAllSaved(s: State, lay: Layout, sv: nat)
    requires Shaped(s, lay) && sv <= |lay.Log()|
    ensures Cut(s.tail, lay.Log(), sv) == s.head <==> sv == |lay.Log()|
  {
    CutOfAll(s, lay);
    if sv < |lay.Log()| {
      ItemPlace(s, lay, sv);
      FirstIsTail(|s.mem|, s.head, s.tail, lay);
      if sv > 0 {
        CutIsEnd(s, lay, sv);
        if lay.Wrapped? ==> (sv <= |lay.upper| <==> sv < |lay.upper|) { SamePart(s, lay, sv, sv); }
      }
    }
  }

  /** The unsaved bytes are counted right: there are none just when the file holds every retained item. */
  lemma UnsavedCount(s: State, lay: Layout, sv: nat, d: Disk, history: seq<Block>, file: Recovery)
    requires Sound(s, lay, sv, d, history, file)
    ensures s.saved <= Span(|s.mem|, s.tail, s.head)
    ensures s.saved == Span(|s.mem|, s.tail, s.head) <==> sv == |lay.Log()|
  {
    CutIsBetween(s, lay, sv);
    NotAllSaved(s, lay, sv);
  }

  // ---------------------------------------------------------------- empty rings, opening

  function Zeros(n: nat): (s: seq<Byte>)
    ensures |s| == n && forall i | 0 <= i < n :: s[i] == 0
  {
    seq(n, _ => 0 as Byte)
  }

  lemma ZeroReads(mem: seq<Byte>, p: nat)
    requires p + HEADER <= |mem| && forall i | 0 <= i < |mem| :: mem[i] == 0
    ensures HeaderIs(mem, p, 0, 0, 0)
  {
    ZeroWord(mem[p..p + 8]);
    ZeroWord(mem[p + 8..p + 16]);
    ZeroWord(mem[p + 16..p + 24]);
  }

  lemma {:induction false} ZeroWord(s: seq<Byte>)
    requires forall i | 0 <= i < |s| :: s[i] == 0
    ensures LeVal(s) == 0
  {
    if s != [] { ZeroWord(s[1..]); }
  }

  /** A ring of zero bytes holds nothing, and asks nothing of the file's image. */
  lemma StartEmpty(n: nat, d: Disk, next: nat)
    requires Addressable(n) && |d.data| == n && 0 < next < U64
    ensures var s := State(Zeros(n), 0, 0, 0, next);
            Live(s, Flat([])) && Synced(s, Flat([]), 0, d.data)
    ensures d.hdr == FileHeader(HEADER_MAGIC, VERSION, n + FILE_DATA_OFFSET, 0, 0, next) ==> Recovers(d, Flat([]), next)
  {
    var s := State(Zeros(n), 0, 0, 0, next);
    ZeroReads(s.mem, 0);
    NothingSaved(s, Flat([]), d.data);
  }

  /** After a Reset nothing is retained, the file says so too, and cursors stay known. */
  lemma ResetWorks(s: State, lay: Layout, sv: nat, d: Disk, history: seq<Block>, file: Recovery)
    requires Sound(s, lay, sv, d, history, file)
    ensures var r := State(Zeros(|s.mem|), 0, 0, 0, s.nextId);
            var d' := d.(hdr := FileHeader(HEADER_MAGIC, VERSION, |s.mem| + FILE_DATA_OFFSET, 0, 0, s.nextId));
            && Sound(r, Flat([]), 0, d', history, Recovery(Flat([]), s.nextId, 0))
            && forall c: Cursor | Known(s, lay, c) :: Known(r, Flat([]), c)
  {
    var r := State(Zeros(|s.mem|), 0, 0, 0, s.nextId);
    StartEmpty(|s.mem|, d.(hdr := FileHeader(HEADER_MAGIC, VERSION, |s.mem| + FILE_DATA_OFFSET, 0, 0, s.nextId)), s.nextId);
    forall c: Cursor | Known(s, lay, c) ensures Known(r, Flat([]), c) {
      ZeroReads(r.mem, c.index);
    }
  }

  lemma OverwriteAll(m: seq<Byte>, s: seq<Byte>)
    requires |m| == |s|
    ensures Splice(m, 0, s) == s
  {
  }

  lemma FileBounds(d: Disk, lay: Layout, next: nat)
    requires Recovers(d, lay, next)
    ensures 0 < next < U64 && Addressable(|d.data|) && d.hdr.magic == HEADER_MAGIC
    ensures d.hdr.version == VERSION ==> d.hdr.size == |d.data| + FILE_DATA_OFFSET && d.hdr.nextId == next
    ensures d.hdr.version != VERSION ==> next == 1
    ensures d.hdr.version == VERSION && d.hdr.tail != d.hdr.head ==>
              && d.hdr.head + HEADER <= |d.data| && d.hdr.tail <= |d.data|
              && forall i | d.hdr.head <= i < d.hdr.head + HEADER :: !Used(d.hdr.head, d.hdr.tail, i)
    ensures d.hdr.version != VERSION || d.hdr.tail == d.hdr.head ==> lay == Flat([])
    ensures d.hdr.version == VERSION && d.hdr.tail != d.hdr.head ==> lay.Log() != []
  {
  }

  /** Opening a file that recovers to nothing. */
  lemma OpenEmptySound(d: Disk, lay: Layout, next: nat)
    requires Recovers(d, lay, next) && (d.hdr.version == VERSION ==> d.hdr.tail == d.hdr.head)
    ensures lay.Log() == []
    ensures Sound(State(Zeros(|d.data|), 0, 0, 0, next), lay, 0, d, [], Recovery(lay, next, 0))
  {
    FileBounds(d, lay, next);
    StartEmpty(|d.data|, d, next);
  }

  /** Opening a file with items: the used part of the image in memory, and a HEAD block behind it. */
  lemma OpenFilledSound(m: seq<Byte>, d: Disk, lay: Layout, next: nat)
    requires Recovers(d, lay, next) && d.hdr.version == VERSION && d.hdr.tail != d.hdr.head && |m| == |d.data|
    requires forall i | 0 <= i < |m| && Used(d.hdr.head, d.hdr.tail, i) :: m[i] == d.data[i]
    ensures d.hdr.head + HEADER <= |m| && Span(|m|, d.hdr.tail, d.hdr.head) >= 0
    ensures Sound(State(Splice(m, d.hdr.head, Header(0, 0, HEAD)), d.hdr.head, d.hdr.tail, Span(|m|, d.hdr.tail, d.hdr.head), next),
                  lay, |lay.Log()|, d, lay.Log(), Recovery(lay, next, 0))
  {
    FileBounds(d, lay, next);
    MarkLoaded(m, d, lay, next);
    WholeSuffix(lay.Log());
  }

  lemma MarkLoaded(m: seq<Byte>, d: Disk, lay: Layout, next: nat)
    requires Recovers(d, lay, next) && d.hdr.version == VERSION && d.hdr.tail != d.hdr.head && |m| == |d.data|
    requires d.hdr.head + HEADER <= |m| && d.hdr.tail <= |m|
    requires forall i | d.hdr.head <= i < d.hdr.head + HEADER :: !Used(d.hdr.head, d.hdr.tail, i)
    requires forall i | 0 <= i < |m| && Used(d.hdr.head, d.hdr.tail, i) :: m[i] == d.data[i]
    ensures var s := State(Splice(m, d.hdr.head, Header(0, 0, HEAD)), d.hdr.head, d.hdr.tail, Span(|m|, d.hdr.tail, d.hdr.head), next);
            Live(s, lay) && Synced(s, lay, |lay.Log()|, d.data)
  {
    hide Header, HeaderIs, Run, AllStored;
    var m' := Splice(m, d.hdr.head, Header(0, 0, HEAD));
    MarkHead(m, d.hdr.head);
    ChainFrame(d.data, m', d.hdr.head, d.hdr.tail, lay);
    CutOfAll(State(m', d.hdr.head, d.hdr.tail, Span(|m|, d.hdr.tail, d.hdr.head), next), lay);
  }

  lemma WholeSuffix(s: seq<Block>)
    ensures IsSuffix(s, s) && IsSlice(s, s, 0)
  {
  }

  lemma CopiedSlice(m: seq<Byte>, d: seq<Byte>, lo: nat, hi: nat)
    requires lo <= hi <= |m| == |d|
    ensures forall i | lo <= i < hi :: Splice(m, lo, d[lo..hi])[i] == d[i]
  {
    var r := Splice(m, lo, d[lo..hi]);
    forall i | lo <= i < hi ensures r[i] == d[i] {
      assert r[lo..lo + |d[lo..hi]|][i - lo] == d[lo..hi][i - lo];
    }
  }
}
