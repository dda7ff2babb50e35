/** The persistent ring queue: class Queue of Queue.h and Queue.cpp. */
module Queue {
  import opened Bytes
  import opened Ring
  import opened RingFile
  import opened QueueSpec
  import opened Wrappers

  const MIN_QUEUE_SIZE := 256 * 1024
  const MAX_ITEM_SIZE := 256 * 1024

  /**
   * TooLong stands for the exception of allocate_locked. TailLost marks the point where the
   * eviction loop has dropped every item without making room: the source goes on from there, over
   * bytes that are no block, which is not modelled.
   */
  datatype PutResult = Ok | Closed | BufferTooSmall | TooLong | TailLost

  /** The queue file as Open finds it. */
  datatype File = Missing | Existing(disk: Disk)

  /** NotAQueueFile stands for the exception Open throws on a foreign file. */
  datatype OpenResult = Opened | AlreadyOpen | NotAQueueFile

  class Queue {
    var ptr: array<Byte>
    var head: nat
    var tail: nat
    var saved: nat
    var nextId: nat
    var closed: bool
    var disk: Disk
    // the bytes of ptr, where the retained items lie, and how many of them the file holds
    ghost var mem: seq<Byte>
    ghost var lay: Layout
    ghost var sv: nat
    // every item ever committed or recovered, and what the file would recover to
    ghost var history: seq<Block>
    ghost var onFile: Recovery
    // how many of them were there when the queue was opened, and the next identifier then
    ghost var found: nat
    ghost var first: nat

    ghost predicate Mirrored()
      reads this, ptr
    {
      |mem| == ptr.Length && forall i | 0 <= i < |mem| :: ptr[i] == mem[i]
    }

    ghost function View(): State
      reads this
    {
      State(mem, head, tail, saved, nextId)
    }

    ghost function Log(): seq<Block>
      reads this
    {
      lay.Log()
    }

    ghost predicate Valid()
      reads this, ptr
    {
      && Mirrored() && Sound(View(), lay, sv, disk, history, onFile)
      && EmptyAtFront(head, lay.Log()) && Numbered(history, found, first, nextId)
    }

    /** As constructed: closed, and all bytes zero. */
    ghost predicate Pristine()
      reads this, ptr
    {
      closed && Mirrored() && Addressable(ptr.Length) && mem == Zeros(ptr.Length)
    }

    /** A queue of at least MIN_QUEUE_SIZE bytes, header area included; it starts out closed. */
    constructor (size: nat)
      requires size < 0xFF_FFFF_FFFF_FFFF
      ensures Pristine() && fresh(ptr)
      ensures ptr.Length + FILE_DATA_OFFSET == if size < MIN_QUEUE_SIZE then MIN_QUEUE_SIZE else size
    {
      var fileSize := if size < MIN_QUEUE_SIZE then MIN_QUEUE_SIZE else size;
      ptr := new Byte[fileSize - FILE_DATA_OFFSET](_ => 0);
      mem := Zeros(fileSize - FILE_DATA_OFFSET);
      head, tail, saved, nextId, closed := 0, 0, 0, 1, true;
      disk := Disk(FileHeader(0, 0, 0, 0, 0, 0), []);
      lay, sv, history, onFile := Flat([]), 0, [], Recovery(Flat([]), 1, 0);
      found, first := 0, 1;
    }

    // -------------------------------------------------------------- memory and file access

    /** Reads one 64-bit word. */
    method Load(p: nat) returns (w: nat)
      requires Mirrored() && p + 8 <= ptr.Length
      ensures w == LeVal(mem[p..p + 8])
    {
      w := 0;
      var i := 8;
      assert mem[p + 8..p + 8] == [];
      while i > 0
        invariant 0 <= i <= 8
        invariant w == LeVal(mem[p + i..p + 8])
      {
        i := i - 1;
        w := ptr[p + i] + 256 * w;
        assert mem[p + i..p + 8][1..] == mem[p + i + 1..p + 8];
      }
    }

    /** Copies bytes out of the ring. */
    method Read(off: nat, len: nat) returns (s: seq<Byte>)
      requires Mirrored() && off + len <= ptr.Length
      ensures s == mem[off..off + len]
    {
      s := ptr[off..off + len];
      assert forall i | 0 <= i < len :: s[i] == ptr[off + i] == mem[off + i];
    }

    /** memcpy into the ring. */
    method Write(off: nat, s: seq<Byte>)
      requires Mirrored() && off + |s| <= ptr.Length
      modifies ptr, this`mem
      ensures Mirrored() && mem == Splice(old(mem), off, s)
    {
      Store(ptr, off, s);
      mem := Splice(mem, off, s);
      forall k | off <= k < off + |s| ensures mem[k] == s[k - off] {
        assert mem[off..off + |s|][k - off] == mem[k];
      }
    }

    /** One pwrite to the queue file. */
    method PWrite(w: DiskWrite)
      requires Applicable(w, |disk.data|)
      modifies this`disk
      ensures disk == Apply(old(disk), w)
    {
      match w
      case PutHeader(h) => disk := disk.(hdr := h);
      case PutData(off, bytes) => disk := disk.(data := Splice(disk.data, off, bytes));
    }

    // -------------------------------------------------------------- Put

    /** check_fit */
    predicate CheckFit(size: nat)
      reads this
    {
      Fits(ptr.Length, head, tail, size)
    }

    /**
     * The eviction loop of allocate_locked: drops the oldest items, and no more of them than it
     * takes to make the new one fit. It passes the head when it has dropped them all in vain.
     */
    method DropOldest(size: nat) returns (passed: bool, ghost k: nat)
      requires Mirrored() && Live(View(), lay)
      modifies this`tail, this`lay
      ensures Mirrored() && Dropping(old(View()), old(lay), size, tail, lay, k)
      ensures if passed then tail == head && !CheckFit(size) else CheckFit(size)
    {
      hide Dropping, Dropped, Live, Wellformed, Layout.Log;
      k, passed := 0, false;
      ghost var was, wasLay := View(), lay;
      StartDropping(was, lay, size);
      while !CheckFit(size)
        invariant Mirrored() && mem == was.mem && head == was.head
        invariant Dropping(was, wasLay, size, tail, lay, k)
        decreases |lay.Log()|
      {
        if tail == head {
          return true, k;
        }
        DropOne(was, wasLay, size, tail, lay, k);
        var skip := Load(tail);
        var next := tail + skip + HEADER;
        var state := Load(next + 16);
        if state == WRAP {
          next := 0;
        }
        tail, lay := next, Dropped(lay);
        k := k + 1;
      }
    }

    /** Makes room. The saved size shrinks by the overwritten part. */
    method MakeRoom(size: nat) returns (passed: bool, ghost k: nat)
      requires Mirrored() && Sound(View(), lay, sv, disk, history, onFile)
      modifies this`tail, this`saved, this`lay, this`sv
      ensures Mirrored()
      ensures passed ==>
                && !PutSafe(ptr.Length, head, old(Log()), size) && size + 2 * HEADER >= head
                && tail == head && Log() == []
      ensures !passed ==> RoomMade(old(View()), old(lay), size, View(), lay, k)
      ensures !passed ==> Sound(View(), lay, sv, disk, history, onFile)
    {
      hide Sound, Dropping, Live, Layout.Log, SavedAfter, RoomMade, PutSafe;
      ghost var was, wasLay := View(), lay;
      SoundIsLive(was, lay, sv, disk, history, onFile);
      var origTail := tail;
      passed, k := DropOldest(size);
      if passed {
        TailPasses(was, wasLay, size, tail, lay, k);
        return;
      }
      RoomIsMade(was, wasLay, sv, disk, history, onFile, size, tail, lay, k);
      saved := SavedAfter(ptr.Length, saved, origTail, tail);
      sv := if sv <= k then 0 else sv - k;
    }

    /** allocate_locked: makes room and reserves a block for size bytes, at the front if need be. */
    method AllocateLocked(size: nat) returns (r: PutResult, ghost k: nat, ghost base: State)
      requires Valid()
      modifies this`head, this`tail, this`saved, this`mem, this`lay, this`sv, ptr
      ensures ptr == old(ptr) && Mirrored() && r in {Ok, TooLong, TailLost}
      ensures r == TooLong <==> size + HEADER > ptr.Length - HEADER
      ensures r == TooLong ==> View() == old(View()) && lay == old(lay) && sv == old(sv) && unchanged(ptr)
      ensures r == TailLost ==>
                && !PutSafe(ptr.Length, old(head), old(Log()), size) && size + 2 * HEADER >= old(head)
                && mem == old(mem) && head == old(head) && tail == head && Log() == []
      ensures r == Ok ==> RoomMade(old(View()), old(lay), size, base, lay, k)
      ensures r == Ok ==> Sound(base, lay, sv, disk, history, onFile) && Reserved(base, size, View())
    {
      hide Sound, Layout.Log, RoomMade, Header, PutSafe;
      k, base := 0, View();
      SoundBounds(base, lay, sv, disk, history, onFile);
      if size + HEADER > ptr.Length - HEADER {
        return TooLong, 0, base;
      }
      var passed;
      passed, k := MakeRoom(size);
      base := View();
      if passed {
        return TailLost, k, base;
      }
      SoundBounds(base, lay, sv, disk, history, onFile);
      RoomFits(old(View()), old(lay), size, base, lay, k);
      AllocatedIsFree(ptr.Length, head, tail, size);
      if tail <= head {
        if head + (size + HEADER) + HEADER > ptr.Length {
          Write(head, Header(0, 0, WRAP));
          head := 0;
        }
      }
      Write(head, Header(size, 0, UNCOMMITTED_PUT));
      r := Ok;
    }

    /** commit_locked: turns the reserved block into an item and puts a HEAD block behind it. */
    method CommitLocked()
      requires Mirrored() && head + HEADER <= ptr.Length && head + SizeAt(mem, head) + 2 * HEADER <= ptr.Length
      modifies this`head, this`nextId, this`mem, ptr
      ensures ptr == old(ptr) && Mirrored()
      ensures var size := SizeAt(old(mem), old(head));
              && mem == Committed(old(mem), old(head), size, old(nextId))
              && head == old(head) + HEADER + size && nextId == old(nextId) + 1
    {
      hide Header, LeVal;
      var size := Load(head);
      Write(head, Header(size, nextId, ITEM));
      head := head + (size + HEADER);
      nextId := nextId + 1;
      Write(head, Header(0, 0, HEAD));
    }

    /** The rest of a Put: the item's bytes go into the reserved block, which is then committed. */
    method Fill(item: seq<Byte>, ghost base: State) returns (ghost b: Block)
      requires Mirrored() && Reserved(base, |item|, View()) && Sound(base, lay, sv, disk, history, onFile)
      requires nextId + 1 < U64 && Numbered(history, found, first, nextId)
      modifies this`head, this`nextId, this`mem, this`lay, this`history, ptr
      ensures ptr == old(ptr) && Mirrored() && |mem| == |base.mem| && nextId == base.nextId + 1
      ensures Filled(base, item, old(View()), View())
      ensures (Wraps(|base.mem|, base.head, base.tail, |item|) ==> old(Log()) != []) ==>
                && Valid() && b == Block(old(head), base.nextId, item) && head == b.End()
                && Log() == old(Log()) + [b] && history == old(history) + [b]
    {
      hide Live, Synced, Recovers, Layout.Log, Header, Allocated, Committed, Reserved, SizeAt, Splice, IsSlice, WithItem,
           Numbered;
      ghost var r := View();
      ReservedBounds(base, |item|, r);
      PutReads(base, lay, item, r);
      Write(head + HEADER, item);
      b := Block(head, base.nextId, item);
      CommitLocked();
      if Wraps(|base.mem|, base.head, base.tail, |item|) ==> lay.Log() != [] {
        PutExtends(base, lay, sv, disk, history, onFile, item, r, View());
        NumberedSnoc(history, found, first, b);
        lay := WithItem(base, lay, b);
        history := history + [b];
      }
    }

    /**
     * Put: appends one item with the next identifier, after dropping just enough of the oldest; in a
     * queue of small items a small item is always stored, and an older one stays. Where PutSafe fails
     * every older item is dropped, and either the item is stored all the same, with the tail on a
     * WRAP block, or the eviction loop passes the head; after that the queue is no longer valid.
     */
    method Put(item: seq<Byte>) returns (r: PutResult, ghost k: nat)
      requires Valid() && nextId + 1 < U64
      modifies this`head, this`tail, this`saved, this`nextId, this`mem, this`lay, this`sv, this`history, ptr
      ensures ptr == old(ptr)
      ensures r == BufferTooSmall <==> |item| > MAX_ITEM_SIZE
      ensures r == Closed <==> |item| <= MAX_ITEM_SIZE && closed
      ensures r == TooLong <==> |item| <= MAX_ITEM_SIZE && !closed && |item| + HEADER > ptr.Length - HEADER
      ensures r in {Ok, TailLost} ==>
                (r == TailLost <==> !PutSafe(ptr.Length, old(head), old(Log()), |item|) && |item| + 2 * HEADER >= old(head))
      ensures r == Ok && PutSafe(ptr.Length, old(head), old(Log()), |item|) ==>
                && Valid() && PutEffect(old(View()), old(lay), item, View(), lay, k)
                && history == old(history) + [Log()[|Log()| - 1]]
                && forall c: Cursor | Known(old(View()), old(lay), c) :: Known(View(), lay, c)
      ensures r == Ok && !PutSafe(ptr.Length, old(head), old(Log()), |item|) ==>
                Stranded(old(head), old(nextId), item, View())
      ensures r == TailLost ==> mem == old(mem) && head == old(head) && tail == head && Log() == []
      ensures r !in {Ok, TailLost} ==> Valid() && View() == old(View()) && lay == old(lay) && unchanged(ptr)
      ensures AllSmall(ptr.Length, old(Log())) && Small(ptr.Length, |item|) && |item| <= MAX_ITEM_SIZE && !closed ==>
                r == Ok && PutSafe(ptr.Length, old(head), old(Log()), |item|) && AllSmall(ptr.Length, Log())
    {
      hide Live, Synced, Recovers, Layout.Log, Known, RoomMade, PutEffect, Reserved, IsSlice, PutSafe, Numbered,
           AllSmall, Stranded, Filled, EmptyAtFront;
      k := 0;
      if |item| > MAX_ITEM_SIZE {
        return BufferTooSmall, k;
      }
      if closed {
        return Closed, k;
      }
      ghost var base;
      ghost var was, wasLay := View(), lay;
      if AllSmall(ptr.Length, lay.Log()) && Small(ptr.Length, |item|) {
        SmallPutIsSafe(was, lay, |item|);
      }
      r, k, base := AllocateLocked(|item|);
      if r != Ok {
        return;
      }
      RoomFits(was, wasLay, |item|, base, lay, k);
      ReservedBounds(base, |item|, View());
      TailIsOldest(base, lay, sv, disk, history, onFile);
      ghost var kept, keptSaved, wasHistory, reserved := lay, sv, history, View();
      ghost var b := Fill(item, base);
      if PutSafe(ptr.Length, was.head, wasLay.Log(), |item|) {
        BlockPlace(base, |item|, reserved);
        SafePut(was, wasLay, base, kept, item, View(), lay, k, b);
      } else {
        PutStrands(base, kept, keptSaved, disk, wasHistory, onFile, item, reserved, View());
      }
    }

    // -------------------------------------------------------------- Get

    /** have_data: moves past a WRAP block; is anything there to read? */
    method HaveData(index: nat) returns (found: bool, at: nat)
      requires Mirrored() && index + HEADER <= ptr.Length
      ensures at == (if StateAt(mem, index) == WRAP then 0 else index)
      ensures found <==> head != at
    {
      hide LeVal;
      at := index;
      var state := Load(index + 16);
      if state == WRAP {
        at := 0;
      }
      found := head != at;
    }

    /** The first half of Get: the ring position a reader with this cursor goes on from. */
    method Locate(last: Cursor) returns (index: nat, ghost n: nat)
      requires Mirrored() && Live(View(), lay) && tail + HEADER <= ptr.Length && !Forged(View(), lay, last)
      ensures NextAfter(View(), lay, last, n) && index + HEADER <= ptr.Length
      ensures (if StateAt(mem, index) == WRAP then 0 else index) == PosOf(lay, head, n)
    {
      hide Live, Layout.Log, LeVal, Forged, NextAfter, RetainedAt;
      LiveIsAddressable(View(), lay);
      HeadAndTail(View(), lay);
      index := last.index;
      if last == HEAD_CURSOR {
        n := |lay.Log()|;
        index := head;
        AtHead(View(), lay, last);
      } else if last == TAIL_CURSOR || index > ptr.Length - HEADER {
        n := 0;
        index := tail;
        AtTail(View(), lay, last);
      } else if last.id >= nextId {
        n := |lay.Log()|;
        index := head;
        AtHead(View(), lay, last);
      } else {
        var tailId := Load(tail + 8);
        var id := Load(index + 8);
        var state := Load(index + 16);
        if last.id < tailId || id != last.id || state != ITEM {
          NotRetained(View(), lay, last);
          n := 0;
          index := tail;
        } else {
          n := AfterItem(View(), lay, last);
          var size := Load(index);
          index := index + (HEADER + size);
        }
      }
    }

    /**
     * Get without waiting: the item after the cursor's, the oldest retained item when the cursor's
     * is gone, and a timeout only when the cursor's item is the newest.
     */
    method Get(last: Cursor, size: nat) returns (r: GetResult, ghost n: nat)
      requires Valid() && tail + HEADER <= ptr.Length && !Forged(View(), lay, last)
      ensures size == 0 ==> r == GetBufferTooSmall
      ensures size > 0 && closed ==> r == GetClosed
      ensures size > 0 && !closed ==> NextAfter(View(), lay, last, n) && r == Delivered(Log(), n, size)
    {
      hide Live, Synced, Recovers, Layout.Log, LeVal, Forged, NextAfter, Delivered, IsSuffix, IsSlice;
      n := 0;
      if size == 0 {
        return GetBufferTooSmall, n;
      }
      if closed {
        return GetClosed, n;
      }
      var index;
      index, n := Locate(last);
      var state := Load(index + 16);
      if state == WRAP {
        index := 0;
      }
      NextInRange(View(), lay, last, n);
      AtItem(View(), lay, n, size);
      var found;
      found, index := HaveData(index);
      if !found {
        return Timeout, n;
      }
      var itemSize := Load(index);
      if itemSize > size {
        return GetBufferTooSmall, n;
      }
      var id := Load(index + 8);
      var data := Read(index + HEADER, itemSize);
      r := Item(data, Cursor(id, index));
    }

    // -------------------------------------------------------------- saving

    /** The bytes of save_locked's regions and the head of its first header. */
    method UnsavedRegions() returns (regions: seq<DiskWrite>, beforeHead: nat)
      requires Mirrored() && CutBetween(View(), SavedHead(View()))
      ensures regions == Regions(View()) && beforeHead == SavedHead(View())
    {
      regions := [];
      var bytes;
      if tail <= head {
        if head - tail > saved {
          bytes := Read(tail + saved, head - tail - saved);
          regions := [PutData(tail + saved, bytes)];
        }
        beforeHead := tail + saved;
      } else {
        var tailSize := ptr.Length - tail;
        if tailSize > saved {
          bytes := Read(tail + saved, tailSize - saved);
          assert bytes == mem[tail + saved..];
          regions := [PutData(tail + saved, bytes)];
          if head > 0 {
            bytes := Read(0, head);
            assert bytes == mem[..head];
            regions := regions + [PutData(0, bytes)];
          }
          beforeHead := tail + saved;
        } else {
          var headSaveSize := saved - tailSize;
          if headSaveSize < head {
            bytes := Read(headSaveSize, head - headSaveSize);
            regions := [PutData(headSaveSize, bytes)];
          }
          beforeHead := headSaveSize;
        }
      }
    }

    /** save_locked's writes: the first header, the regions, the final header. */
    method WritePlan(regions: seq<DiskWrite>, before: FileHeader, after: FileHeader) returns (saveSize: nat)
      requires AllApplicable(regions, |disk.data|)
      requires AllApplicable(Plan(regions, before, after), |disk.data|)
      modifies this`disk
      ensures disk == ApplyAll(old(disk), Plan(regions, before, after))
      ensures saveSize == DataBytes(regions)
    {
      saveSize := 0;
      ghost var done: seq<DiskWrite> := [];
      if regions != [] {
        ApplySnoc(old(disk), done, PutHeader(before));
        PWrite(PutHeader(before));
        done := done + [PutHeader(before)];
        for i := 0 to |regions|
          invariant done == [PutHeader(before)] + regions[..i]
          invariant AllApplicable(done, |old(disk).data|) && disk == ApplyAll(old(disk), done)
          invariant saveSize == DataBytes(regions[..i])
        {
          assert Applicable(regions[i], |disk.data|);
          ApplySnoc(old(disk), done, regions[i]);
          PWrite(regions[i]);
          done := done + [regions[i]];
          assert regions[..i + 1] == regions[..i] + [regions[i]];
          assert regions[..i + 1][..i] == regions[..i];
          saveSize := saveSize + if regions[i].PutData? then |regions[i].bytes| else 0;
        }
        assert regions[..|regions|] == regions;
      }
      ApplySnoc(old(disk), done, PutHeader(after));
      PWrite(PutHeader(after));
      assert done + [PutHeader(after)] == Plan(regions, before, after);
    }

    /** save_locked: afterwards the file recovers to exactly what is retained in memory. */
    method SaveLocked()
      requires Valid()
      modifies this`disk, this`saved, this`sv, this`onFile
      ensures Valid() && Log() == old(Log())
      ensures onFile.lay == lay && onFile.next == nextId && Recovers(disk, lay, nextId)
      ensures saved == Span(ptr.Length, tail, head)
    {
      hide Live, Synced, Recovers, Layout.Log, ApplyAll, Regions, CutBetween, SavedHead, SavePlan, IsSuffix, IsSlice;
      SaveReady(View(), lay, sv, disk, history, onFile);
      SaveDone(View(), lay, sv, disk, history, onFile);
      var regions, beforeHead := UnsavedRegions();
      var before := FileHeader(HEADER_MAGIC, VERSION, ptr.Length + FILE_DATA_OFFSET, beforeHead, tail, nextId);
      var after := FileHeader(HEADER_MAGIC, VERSION, ptr.Length + FILE_DATA_OFFSET, head, tail, nextId);
      var saveSize := WritePlan(regions, before, after);
      saved := saved + saveSize;
      sv := |lay.Log()|;
      onFile := Recovery(lay, nextId, |history| - |lay.Log()|);
    }

    /** unsaved_size: what an autosave waits for; zero just when the file holds every retained item. */
    method UnsavedSize() returns (u: nat)
      requires Valid()
      ensures u == Span(ptr.Length, tail, head) - saved
      ensures u == 0 <==> sv == |Log()|
    {
      UnsavedCount(View(), lay, sv, disk, history, onFile);
      hide Sound;
      var queueSize := if tail <= head then head - tail else head + (ptr.Length - tail);
      u := if queueSize > saved then queueSize - saved else 0;
    }

    method Save()
      requires Valid()
      modifies this`disk, this`saved, this`sv, this`onFile
      ensures Valid() && Log() == old(Log())
      ensures !closed ==> Recovers(disk, lay, nextId)
      ensures closed ==> disk == old(disk) && View() == old(View())
    {
      hide Sound, Recovers, Layout.Log;
      if closed {
        return;
      }
      SaveLocked();
    }

    method Close(save: bool)
      requires Valid()
      modifies this`closed, this`disk, this`saved, this`sv, this`onFile
      ensures Valid() && closed && Log() == old(Log())
      ensures save ==> Recovers(disk, lay, nextId)
      ensures !save ==> disk == old(disk)
    {
      hide Sound, Recovers, Layout.Log;
      closed := true;
      if save {
        SaveLocked();
      }
    }

    /** Reset: forgets every item but not the identifiers given out, so old cursors still mean something. */
    method Reset()
      requires Valid()
      modifies this`head, this`tail, this`saved, this`disk, this`mem, this`lay, this`sv, this`onFile, ptr
      ensures Valid() && ptr == old(ptr) && Log() == [] && nextId == old(nextId) && head == 0
      ensures onFile.lay.Log() == [] && onFile.next == nextId
      ensures forall c: Cursor | Known(old(View()), old(lay), c) :: Known(View(), lay, c)
    {
      hide Sound, Known, Zeros, Splice;
      ResetWorks(View(), lay, sv, disk, history, onFile);
      head, tail := 0, 0;
      PWrite(PutHeader(FileHeader(HEADER_MAGIC, VERSION, ptr.Length + FILE_DATA_OFFSET, head, tail, nextId)));
      OverwriteAll(mem, Zeros(ptr.Length));
      Write(0, Zeros(ptr.Length));
      saved := 0;
      lay, sv, onFile := Flat([]), 0, Recovery(Flat([]), nextId, 0);
    }

    // -------------------------------------------------------------- Open

    /**
     * Open on a new queue: the file decides the ring's size, and what it recovers to is what is
     * retained afterwards. lay0 and next0 name that; any file a save or a crash left has them.
     */
    method Open(file: File, ghost lay0: Layout, ghost next0: nat) returns (r: OpenResult)
      requires closed ==> Pristine()
      requires file.Existing? && file.disk.hdr.magic == HEADER_MAGIC ==> Recovers(file.disk, lay0, next0)
      requires file.Existing? && file.disk.hdr.version != VERSION ==> |file.disk.data| == ptr.Length
      modifies this, ptr
      ensures old(closed) ==>
                r == if file.Existing? && file.disk.hdr.magic != HEADER_MAGIC then NotAQueueFile else Opened
      ensures !old(closed) ==> r == AlreadyOpen
      ensures r == Opened ==> Valid() && !closed && history == Log()
      ensures ptr == old(ptr) || fresh(ptr)
      ensures r == Opened && file.Missing? ==> Log() == [] && nextId == 1 && ptr == old(ptr)
      ensures r == Opened && file.Existing? ==> Log() == lay0.Log() && nextId == next0 && ptr.Length == |file.disk.data|
      ensures r == Opened && file.Existing? ==> KeepsCursors(lay0, next0, |file.disk.data|, View(), lay)
      ensures r != Opened ==> View() == old(View()) && closed == old(closed)
    {
      hide Sound, Recovers, Layout.Log, Zeros, KeepsCursors;
      if !closed {
        return AlreadyOpen;
      }
      if file.Missing? {
        OpenNew();
        return Opened;
      }
      if file.disk.hdr.magic != HEADER_MAGIC {
        return NotAQueueFile;
      }
      if file.disk.hdr.version != VERSION || file.disk.hdr.tail == file.disk.hdr.head {
        OpenEmpty(file.disk, lay0, next0);
      } else {
        OpenFilled(file.disk, lay0, next0);
      }
      r := Opened;
    }

    /** Open without a file: a fresh header and an image of zero bytes. */
    method OpenNew()
      requires Pristine()
      modifies this
      ensures Valid() && !closed && Log() == [] && history == [] && nextId == 1 && ptr == old(ptr)
    {
      hide Sound, Recovers, Layout.Log;
      var d := Disk(FileHeader(HEADER_MAGIC, VERSION, ptr.Length + FILE_DATA_OFFSET, 0, 0, 1), Zeros(ptr.Length));
      StartEmpty(ptr.Length, d, 1);
      OpenEmpty(d, Flat([]), 1);
    }

    /** A ring of the size the file's header names. */
    method Resize(size: nat)
      requires Pristine() && Addressable(size)
      modifies this`ptr, this`mem
      ensures Pristine() && ptr.Length == size && (if size == old(ptr.Length) then ptr == old(ptr) else fresh(ptr))
    {
      if size != ptr.Length {
        ptr := new Byte[size](_ => 0);
        mem := Zeros(size);
      }
    }

    /** Open of a file that recovers to nothing: of another version, or with its tail at its head. */
    method OpenEmpty(d: Disk, ghost lay0: Layout, ghost next0: nat)
      requires Pristine() && Recovers(d, lay0, next0)
      requires d.hdr.version == VERSION ==> d.hdr.tail == d.hdr.head
      requires d.hdr.version != VERSION ==> |d.data| == ptr.Length
      modifies this
      ensures Valid() && !closed && Log() == lay0.Log() == [] && history == [] && nextId == next0
              && ptr.Length == |d.data|
      ensures if |d.data| == old(ptr.Length) then ptr == old(ptr) else fresh(ptr)
      ensures KeepsCursors(lay0, next0, |d.data|, View(), lay)
    {
      hide Sound, Recovers, Layout.Log, Zeros, Numbered, KeepsCursors;
      FileBounds(d, lay0, next0);
      NumberedAtOpening([], next0);
      OpenEmptySound(d, lay0, next0);
      Resize(if d.hdr.version != VERSION then ptr.Length else d.hdr.size - FILE_DATA_OFFSET);
      Adopt(d, if d.hdr.version != VERSION then 1 else d.hdr.nextId, lay0);
      head, tail, saved := 0, 0, 0;
      ReopenedKeepsCursors(lay0, View(), lay);
    }

    /** Takes the file over, with the items it recovers to. */
    method Adopt(d: Disk, next: nat, ghost lay0: Layout)
      modifies this`disk, this`nextId, this`closed, this`lay, this`sv, this`history, this`onFile, this`found, this`first
      ensures disk == d && nextId == next && !closed
      ensures lay == lay0 && sv == |lay0.Log()| && history == lay0.Log() && onFile == Recovery(lay0, next, 0)
      ensures found == |lay0.Log()| && first == next
    {
      disk, nextId, closed := d, next, false;
      lay, sv, history, onFile := lay0, |lay0.Log()|, lay0.Log(), Recovery(lay0, next, 0);
      found, first := |lay0.Log()|, next;
    }

    /** Open of a file with items: they come into memory, and a HEAD block goes behind them. */
    method OpenFilled(d: Disk, ghost lay0: Layout, ghost next0: nat)
      requires Pristine() && Recovers(d, lay0, next0)
      requires d.hdr.version == VERSION && d.hdr.tail != d.hdr.head
      modifies this, ptr
      ensures Valid() && !closed && Log() == lay0.Log() && history == Log() && nextId == next0 && ptr.Length == |d.data|
      ensures if |d.data| == old(ptr.Length) then ptr == old(ptr) else fresh(ptr)
      ensures KeepsCursors(lay0, next0, |d.data|, View(), lay)
    {
      hide Sound, Recovers, Layout.Log, Zeros, Splice, Header, Numbered, KeepsCursors;
      FileBounds(d, lay0, next0);
      NumberedAtOpening(lay0.Log(), next0);
      Resize(d.hdr.size - FILE_DATA_OFFSET);
      Adopt(d, d.hdr.nextId, lay0);
      LoadRegions(d.hdr.head, d.hdr.tail);
      OpenFilledSound(mem, d, lay0, next0);
      Write(d.hdr.head, Header(0, 0, HEAD));
      head, tail, saved := d.hdr.head, d.hdr.tail, Span(ptr.Length, d.hdr.tail, d.hdr.head);
      ReopenedKeepsCursors(lay0, View(), lay);
    }

    /** The _pread calls of Open: the used part of the image comes into memory. */
    method LoadRegions(from: nat, to: nat)
      requires Mirrored() && |disk.data| == ptr.Length && from <= ptr.Length && to <= ptr.Length
      modifies ptr, this`mem
      ensures ptr == old(ptr) && Mirrored() && |mem| == |old(mem)|
      ensures forall i | 0 <= i < |mem| && Used(from, to, i) :: mem[i] == disk.data[i]
    {
      if to < from {
        Write(to, disk.data[to..from]);
        CopiedSlice(old(mem), disk.data, to, from);
      } else {
        Write(0, disk.data[..from]);
        ghost var low := mem;
        CopiedSlice(old(mem), disk.data, 0, from);
        Write(to, disk.data[to..]);
        CopiedSlice(low, disk.data, to, |disk.data|);
      }
    }
  }

  // ---------------------------------------------------------------- two Puts that leave the safe ground

  /** A new queue of the smallest size, with one item. */
  method NewWithOne(a: seq<Byte>) returns (q: Queue)
    requires 0 < |a| && |a| + 2 * HEADER <= MIN_QUEUE_SIZE - FILE_DATA_OFFSET
    ensures fresh(q) && fresh(q.ptr) && q.Valid() && !q.closed
    ensures q.ptr.Length == MIN_QUEUE_SIZE - FILE_DATA_OFFSET && q.head == HEADER + |a| && q.nextId == 2
    ensures q.Log() == [Block(0, 1, a)]
  {
    hide Sound, Numbered, Stranded, Known, AllSmall, KeepsCursors, Zeros, Recovers;
    q := new Queue(0);
    var o := q.Open(Missing, Flat([]), 1);
    FirstPut(q.View(), q.lay, a, q.ptr.Length);
    var r, k := q.Put(a);
  }

  lemma FirstPut(s: State, lay: Layout, a: seq<Byte>, n: nat)
    requires lay.Log() == [] && s.head == 0 && |a| + 2 * HEADER <= n
    ensures PutSafe(n, s.head, lay.Log(), |a|)
    ensures forall t: State, l: Layout, k: nat | PutEffect(s, lay, a, t, l, k) ::
              t.head == HEADER + |a| && t.nextId == s.nextId + 1 && l.Log() == [Block(0, s.nextId, a)]
  {
  }

  /**
   * The second item, within the size limit, is stored and Put returns success, but the first one is
   * gone and the tail rests on a WRAP block.
   */
  method TwoPutsStrand(a: seq<Byte>, b: seq<Byte>) returns (q: Queue, r: PutResult)
    requires |a| == 200_000 && |b| == 100_000
    ensures r == Ok && Stranded(200_024, 2, b, q.View())
  {
    hide Sound, Numbered, Stranded, Known, AllSmall, KeepsCursors, PutEffect;
    q := NewWithOne(a);
    ghost var k;
    r, k := q.Put(b);
  }

  /** Two items just under and just over half of the ring: the eviction loop passes the head. */
  method TwoPutsLoseTheTail(a: seq<Byte>, b: seq<Byte>) returns (q: Queue, r: PutResult)
    requires |a| == 130_000 && |b| == 131_600
    ensures r == TailLost
  {
    hide Sound, Numbered, Stranded, Known, AllSmall, KeepsCursors, PutEffect;
    q := NewWithOne(a);
    ghost var k;
    r, k := q.Put(b);
  }
}
