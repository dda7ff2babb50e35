/**
 * The queue file of Queue.cpp: a 512-byte header area and an image of the ring. A save writes a
 * header that describes only the part already on disk, then the new bytes, then the final header.
 */
module RingFile {
  import opened Bytes
  import opened Ring

  const FILE_DATA_OFFSET := 512
  const HEADER_MAGIC := 0x4555455551465542
  const VERSION := 3

  datatype FileHeader = FileHeader(magic: nat, version: nat, size: nat, head: nat, tail: nat, nextId: nat)
  datatype Disk = Disk(hdr: FileHeader, data: seq<Byte>)

  /** The fields of a Queue that a save reads. */
  datatype State = State(mem: seq<Byte>, head: nat, tail: nat, saved: nat, nextId: nat)

  /** One pwrite: the header at offset 0, or bytes of the ring image. */
  datatype DiskWrite = PutHeader(hdr: FileHeader) | PutData(offset: nat, bytes: seq<Byte>)

  ghost predicate Applicable(w: DiskWrite, size: nat) {
    w.PutData? ==> w.offset + |w.bytes| <= size
  }

  function Apply(d: Disk, w: DiskWrite): (r: Disk)
    requires Applicable(w, |d.data|)
    ensures |r.data| == |d.data|
  {
    match w
    case PutHeader(h) => d.(hdr := h)
    case PutData(off, bytes) => d.(data := Splice(d.data, off, bytes))
  }

  ghost predicate AllApplicable(ws: seq<DiskWrite>, size: nat) {
    forall i | 0 <= i < |ws| :: Applicable(ws[i], size)
  }

  function ApplyAll(d: Disk, ws: seq<DiskWrite>): (r: Disk)
    requires AllApplicable(ws, |d.data|)
    ensures |r.data| == |d.data|
    decreases |ws|
  {
    if ws == [] then d else ApplyAll(Apply(d, ws[0]), ws[1..])
  }

  /** What a crash during one write can leave: the old or the new header, any mixture of data bytes. */
  ghost predicate Torn(d: Disk, w: DiskWrite, r: Disk) {
    match w
    case PutHeader(h) => r == d || r == d.(hdr := h)
    case PutData(off, bytes) =>
      && r.hdr == d.hdr && |r.data| == |d.data| && off + |bytes| <= |d.data|
      && forall i | 0 <= i < |d.data| ::
           r.data[i] == d.data[i] || (off <= i < off + |bytes| && r.data[i] == bytes[i - off])
  }

  /** What a crash during a sequence of writes can leave. */
  ghost predicate CrashState(d: Disk, ws: seq<DiskWrite>, r: Disk)
    requires AllApplicable(ws, |d.data|)
    decreases |ws|
  {
    if ws == [] then r == d
    else Torn(d, ws[0], r) || CrashState(Apply(d, ws[0]), ws[1..], r)
  }

  /** Where the part already on disk ends; save_locked puts it into the first header. */
  function SavedHead(s: State): int {
    if s.tail <= s.head then s.tail + s.saved
    else if |s.mem| - s.tail > s.saved then s.tail + s.saved
    else s.saved - (|s.mem| - s.tail)
  }

  function HeaderOf(s: State, head: nat): FileHeader {
    FileHeader(HEADER_MAGIC, VERSION, |s.mem| + FILE_DATA_OFFSET, head, s.tail, s.nextId)
  }

  /** The data regions of save_locked: the ring bytes between the saved part and the head. */
  function Regions(s: State): (ws: seq<DiskWrite>)
    requires s.head <= |s.mem| && s.tail <= |s.mem| && 0 <= SavedHead(s) <= |s.mem|
  {
    var from := SavedHead(s);
    if s.tail <= s.head then
      if s.head - s.tail > s.saved then [PutData(from, s.mem[from..s.head])] else []
    else if |s.mem| - s.tail > s.saved then
      [PutData(from, s.mem[from..])] + (if s.head > 0 then [PutData(0, s.mem[..s.head])] else [])
    else if from < s.head then [PutData(from, s.mem[from..s.head])]
    else []
  }

  /** All the writes of a save, in order. */
  function SavePlan(s: State): (ws: seq<DiskWrite>)
    requires s.head <= |s.mem| && s.tail <= |s.mem| && 0 <= SavedHead(s) <= |s.mem|
  {
    var regions := Regions(s);
    (if regions == [] then [] else [PutHeader(HeaderOf(s, SavedHead(s)))] + regions) + [PutHeader(HeaderOf(s, s.head))]
  }

  /**
   * Queue::Open on this file yields the items of lay, and hands out nextId next. A file of another
   * version counts as empty.
   */
  ghost predicate Recovers(d: Disk, lay: Layout, nextId: nat) {
    && d.hdr.magic == HEADER_MAGIC && Addressable(|d.data|)
    && 0 < nextId < U64 && Ordered(lay.Log(), nextId)
    && (if d.hdr.version != VERSION then lay == Flat([]) && nextId == 1
        else d.hdr.size == |d.data| + FILE_DATA_OFFSET && d.hdr.nextId == nextId
             && if d.hdr.tail == d.hdr.head then lay == Flat([])
                else Chain(d.data, d.hdr.head, d.hdr.tail, lay)
                     && Room(|d.data|, d.hdr.head, d.hdr.tail, lay, HEADER))
  }

  /** The ring position behind the first sv items. */
  function Cut(tail: nat, log: seq<Block>, sv: nat): nat
    requires sv <= |log|
  {
    if sv == 0 then tail else log[sv - 1].End()
  }

  /** The first sv items, as a layout of their own. */
  function Prefix(lay: Layout, sv: nat): (r: Layout)
    requires sv <= |lay.Log()|
    ensures r.Log() == lay.Log()[..sv]
  {
    if lay.Flat? then Flat(lay.items[..sv])
    else if sv <= |lay.upper| then Flat(lay.upper[..sv])
    else Wrapped(lay.upper, lay.wrap, lay.lower[..sv - |lay.upper|])
  }

  /** The first saved bytes from the tail are those of the first sv items, and disk and memory agree on them. */
  ghost predicate Synced(s: State, lay: Layout, sv: nat, data: seq<Byte>) {
    && sv <= |lay.Log()| && |data| == |s.mem|
    && s.saved == Span(|s.mem|, s.tail, Cut(s.tail, lay.Log(), sv))
    && forall i | 0 <= i < |data| && Used(Cut(s.tail, lay.Log(), sv), s.tail, i) :: data[i] == s.mem[i]
  }

  ghost predicate Live(s: State, lay: Layout) {
    Wellformed(s.mem, s.head, s.tail, s.nextId, lay)
  }

  /** The positions only. */
  ghost predicate Shaped(s: State, lay: Layout) {
    Shape(|s.mem|, s.head, s.tail, lay) && Room(|s.mem|, s.head, s.tail, lay, HEADER)
  }

  /** A prefix of the chain is a chain, with room for a HEAD block behind it. */
  lemma ChainPrefix(s: State, lay: Layout, sv: nat)
    requires Live(s, lay) && 0 < sv <= |lay.Log()|
    ensures var c := Cut(s.tail, lay.Log(), sv);
            && c + HEADER <= |s.mem| && c != s.tail
            && Chain(s.mem, c, s.tail, Prefix(lay, sv)) && Room(|s.mem|, c, s.tail, Prefix(lay, sv), HEADER)
  {
    AllStoredTake(s.mem, lay.Log(), sv);
    CutIsEnd(s, lay, sv);
    match lay
    case Flat(items) =>
      RunTake(items, s.tail, s.head, sv);
    case Wrapped(upper, w, lower) =>
      if sv <= |upper| {
        RunTake(upper, s.tail, w, sv);
      } else {
        RunTake(lower, 0, s.head, sv - |upper|);
      }
  }

  /** The cut lies at the end of an item, in the part of the ring that item lies in. */
  lemma CutIsEnd(s: State, lay: Layout, sv: nat)
    requires Shaped(s, lay) && 0 < sv <= |lay.Log()|
    ensures var c := Cut(s.tail, lay.Log(), sv);
            match lay
            case Flat(items) => s.tail < c <= s.head && c == items[sv - 1].End()
            case Wrapped(upper, w, lower) =>
              if sv <= |upper| then s.tail < c <= w && c == upper[sv - 1].End()
              else 0 < c <= s.head && c == lower[sv - |upper| - 1].End()
  {
    if lay.Wrapped? {
      assert lay.Log()[sv - 1] == if sv <= |lay.upper| then lay.upper[sv - 1] else lay.lower[sv - 1 - |lay.upper|];
    }
  }

  lemma AllStoredTake(mem: seq<Byte>, log: seq<Block>, k: nat)
    requires AllStored(mem, log) && k <= |log|
    ensures AllStored(mem, log[..k])
  {
  }

  /** save_locked computes exactly the end of the saved items. */
  lemma SavedHeadIsCut(s: State, lay: Layout, sv: nat)
    requires Shaped(s, lay) && sv <= |lay.Log()|
    requires s.saved == Span(|s.mem|, s.tail, Cut(s.tail, lay.Log(), sv))
    ensures SavedHead(s) == Cut(s.tail, lay.Log(), sv) && SavedHead(s) + HEADER <= |s.mem|
  {
    if sv > 0 { CutIsEnd(s, lay, sv); }
  }

  /** What is saved is part of what is used. */
  lemma SavedIsUsed(s: State, lay: Layout, sv: nat)
    requires Shaped(s, lay) && sv <= |lay.Log()|
    ensures forall i | 0 <= i < |s.mem| && Used(Cut(s.tail, lay.Log(), sv), s.tail, i) :: Used(s.head, s.tail, i)
  {
    if sv > 0 { CutIsEnd(s, lay, sv); }
  }

  /** A file with this header whose image agrees with memory on the first sv items holds just those. */
  lemma PrefixRecovers(s: State, lay: Layout, sv: nat, d: Disk)
    requires Live(s, lay) && sv <= |lay.Log()| && |d.data| == |s.mem|
    requires d.hdr == HeaderOf(s, Cut(s.tail, lay.Log(), sv))
    requires forall i | 0 <= i < |d.data| && Used(Cut(s.tail, lay.Log(), sv), s.tail, i) :: d.data[i] == s.mem[i]
    ensures Recovers(d, if sv == 0 then Flat([]) else Prefix(lay, sv), s.nextId)
  {
    if sv > 0 {
      ChainPrefix(s, lay, sv);
      ChainFrame(s.mem, d.data, Cut(s.tail, lay.Log(), sv), s.tail, Prefix(lay, sv));
      OrderedTake(lay.Log(), s.nextId, sv);
    }
  }

  lemma OrderedTake(log: seq<Block>, nextId: nat, k: nat)
    requires Ordered(log, nextId) && k <= |log|
    ensures Ordered(log[..k], nextId)
  {
    forall i | 0 <= i < k ensures Issued(log[..k], i, nextId) { assert Issued(log, i, nextId); }
    forall i, j | 0 <= i < j < k ensures Earlier(log[..k], i, j) { assert Earlier(log, i, j); }
  }

  /** The cut lies between tail and head, and save_locked finds it. */
  ghost predicate CutBetween(s: State, c: nat) {
    && s.head <= |s.mem| && s.tail <= |s.mem| && c <= |s.mem|
    && (if s.tail <= s.head then s.tail <= c <= s.head else s.tail <= c < |s.mem| || c <= s.head)
    && s.saved == Span(|s.mem|, s.tail, c) && SavedHead(s) == c
  }

  lemma CutIsBetween(s: State, lay: Layout, sv: nat)
    requires Shaped(s, lay) && sv <= |lay.Log()|
    requires s.saved == Span(|s.mem|, s.tail, Cut(s.tail, lay.Log(), sv))
    ensures CutBetween(s, Cut(s.tail, lay.Log(), sv))
  {
    SavedHeadIsCut(s, lay, sv);
    if sv > 0 { CutIsEnd(s, lay, sv); }
  }

  /** The regions of a save carry bytes of memory and lie outside the saved part. */
  lemma RegionsAreUnsaved(s: State, c: nat, k: nat)
    requires CutBetween(s, c) && k < |Regions(s)|
    ensures FromMemory(s, Regions(s)[k]) && OutsideSaved(s, Regions(s)[k])
  {
  }

  /** Together with the saved part the regions cover the used part. */
  lemma RegionsCover(s: State, c: nat, i: nat)
    requires CutBetween(s, c) && i < |s.mem| && Used(s.head, s.tail, i) && !Used(c, s.tail, i)
    ensures exists k :: 0 <= k < |Regions(s)| && Covers(Regions(s)[k], i)
  {
    var ws := Regions(s);
    if |ws| == 2 && i < s.tail { assert Covers(ws[1], i); } else { assert Covers(ws[0], i); }
  }

  ghost predicate Covers(w: DiskWrite, i: nat) {
    w.PutData? && w.offset <= i < w.offset + |w.bytes|
  }

  ghost predicate FromMemory(s: State, w: DiskWrite) {
    w.PutData? && w.offset + |w.bytes| <= |s.mem| && w.bytes == s.mem[w.offset..w.offset + |w.bytes|]
  }

  ghost predicate OutsideSaved(s: State, w: DiskWrite) {
    forall i | 0 <= i < |s.mem| && Covers(w, i) :: !Used(SavedHead(s), s.tail, i)
  }

  /** The first sv items as a file without anything else on it would hold them. */
  function SavedPart(lay: Layout, sv: nat): (r: Layout)
    requires sv <= |lay.Log()|
    ensures r.Log() == lay.Log()[..sv]
  {
    if sv == 0 then Flat([]) else Prefix(lay, sv)
  }

  /** Disk and memory agree on the saved part. */
  ghost predicate AgreeSaved(s: State, c: nat, data: seq<Byte>) {
    |data| == |s.mem| && forall i | 0 <= i < |data| && Used(c, s.tail, i) :: data[i] == s.mem[i]
  }

  /** Disk and memory agree on the used part, but for what the writes ws still bring over. */
  ghost predicate AgreeBut(s: State, ws: seq<DiskWrite>, data: seq<Byte>) {
    |data| == |s.mem|
    && forall i | 0 <= i < |data| && Used(s.head, s.tail, i) ::
         data[i] == s.mem[i] || exists k :: 0 <= k < |ws| && Covers(ws[k], i)
  }

  ghost predicate RegionWrites(s: State, ws: seq<DiskWrite>) {
    forall k | 0 <= k < |ws| :: FromMemory(s, ws[k]) && OutsideSaved(s, ws[k])
  }

  /** A data write, torn or whole, leaves the saved part alone. */
  lemma TornKeepsSaved(s: State, c: nat, d: Disk, w: DiskWrite, r: Disk)
    requires SavedHead(s) == c && FromMemory(s, w) && OutsideSaved(s, w)
    requires AgreeSaved(s, c, d.data) && Torn(d, w, r)
    ensures AgreeSaved(s, c, r.data) && r.hdr == d.hdr
  {
    forall i | 0 <= i < |r.data| && Used(c, s.tail, i) ensures r.data[i] == s.mem[i] {
      assert !Covers(w, i);
    }
  }

  lemma ApplyIsTorn(d: Disk, w: DiskWrite)
    requires Applicable(w, |d.data|)
    ensures Torn(d, w, Apply(d, w))
  {
    if w.PutData? {
      var r := Apply(d, w);
      forall i | 0 <= i < |d.data|
        ensures r.data[i] == d.data[i]
             || (w.offset <= i < w.offset + |w.bytes| && r.data[i] == w.bytes[i - w.offset])
      {
        if Covers(w, i) { assert r.data[w.offset..w.offset + |w.bytes|][i - w.offset] == w.bytes[i - w.offset]; }
      }
    }
  }

  /** A whole data write brings its bytes over. */
  lemma ApplyBringsOver(s: State, d: Disk, ws: seq<DiskWrite>)
    requires ws != [] && RegionWrites(s, ws) && AgreeBut(s, ws, d.data)
    ensures Applicable(ws[0], |d.data|) && AgreeBut(s, ws[1..], Apply(d, ws[0]).data)
  {
    var w := ws[0];
    assert FromMemory(s, w);
    var r := Apply(d, w);
    forall i | 0 <= i < |r.data| && Used(s.head, s.tail, i)
      ensures r.data[i] == s.mem[i] || exists k :: 0 <= k < |ws| - 1 && Covers(ws[1..][k], i)
    {
      if Covers(w, i) {
        assert r.data[w.offset..w.offset + |w.bytes|][i - w.offset] == w.bytes[i - w.offset];
      } else if d.data[i] != s.mem[i] {
        var k :| 0 <= k < |ws| && Covers(ws[k], i);
        assert ws[1..][k - 1] == ws[k];
      }
    }
  }

  /** When every item is saved the cut is the head. */
  lemma CutOfAll(s: State, lay: Layout)
    requires Shaped(s, lay)
    ensures Cut(s.tail, lay.Log(), |lay.Log()|) == s.head
    ensures SavedPart(lay, |lay.Log()|) == lay
  {
    if lay.Wrapped? {
      assert lay.Log()[|lay.Log()| - 1] == lay.lower[|lay.lower| - 1];
      assert lay.lower[..|lay.lower|] == lay.lower;
    } else {
      assert lay.items[..|lay.items|] == lay.items;
    }
  }

  lemma FullyWritten(s: State, lay: Layout, d: Disk)
    requires Live(s, lay) && AgreeBut(s, [], d.data)
    ensures Recovers(d.(hdr := HeaderOf(s, s.head)), lay, s.nextId)
  {
    CutOfAll(s, lay);
    PrefixRecovers(s, lay, |lay.Log()|, d.(hdr := HeaderOf(s, s.head)));
  }

  /** Between the two headers of a save, with the data writes ws to go. */
  ghost predicate InSave(s: State, c: nat, d: Disk, ws: seq<DiskWrite>) {
    && SavedHead(s) == c && d.hdr == HeaderOf(s, c)
    && AgreeSaved(s, c, d.data) && AgreeBut(s, ws, d.data) && RegionWrites(s, ws)
  }

  lemma InSaveStep(s: State, c: nat, d: Disk, ws: seq<DiskWrite>)
    requires InSave(s, c, d, ws) && ws != []
    ensures Applicable(ws[0], |d.data|) && InSave(s, c, Apply(d, ws[0]), ws[1..])
  {
    ApplyBringsOver(s, d, ws);
    ApplyIsTorn(d, ws[0]);
    TornKeepsSaved(s, c, d, ws[0], Apply(d, ws[0]));
    assert RegionWrites(s, ws[1..]);
  }

  /** From the first header on: a crash leaves the saved part, or everything. */
  lemma {:induction false} CrashAfterHeader(s: State, lay: Layout, sv: nat, d: Disk, ws: seq<DiskWrite>, r: Disk)
    requires Live(s, lay) && sv <= |lay.Log()| && InSave(s, Cut(s.tail, lay.Log(), sv), d, ws)
    requires AllApplicable(ws + [PutHeader(HeaderOf(s, s.head))], |d.data|)
    requires CrashState(d, ws + [PutHeader(HeaderOf(s, s.head))], r)
    ensures Recovers(r, SavedPart(lay, sv), s.nextId) || Recovers(r, lay, s.nextId)
    decreases |ws|
  {
    var last := PutHeader(HeaderOf(s, s.head));
    if ws == [] {
      CrashOfOne(d, last, [], r);
      FullyWritten(s, lay, d);
      PrefixRecovers(s, lay, sv, d);
    } else {
      assert ws + [last] == [ws[0]] + (ws[1..] + [last]);
      CrashOfOne(d, ws[0], ws[1..] + [last], r);
      if Torn(d, ws[0], r) {
        TornKeepsSaved(s, SavedHead(s), d, ws[0], r);
        PrefixRecovers(s, lay, sv, r);
      } else {
        InSaveStep(s, SavedHead(s), d, ws);
        CrashAfterHeader(s, lay, sv, Apply(d, ws[0]), ws[1..], r);
      }
    }
  }

  /** A save that runs to its end leaves a file with the whole log and memory and disk in agreement. */
  lemma {:induction false} SaveFinishes(s: State, lay: Layout, d: Disk, ws: seq<DiskWrite>)
    requires Live(s, lay) && AgreeBut(s, ws, d.data) && RegionWrites(s, ws)
    requires AllApplicable(ws + [PutHeader(HeaderOf(s, s.head))], |d.data|)
    ensures var r := ApplyAll(d, ws + [PutHeader(HeaderOf(s, s.head))]);
            Recovers(r, lay, s.nextId) && AgreeBut(s, [], r.data)
    decreases |ws|
  {
    var all := ws + [PutHeader(HeaderOf(s, s.head))];
    if ws == [] {
      FullyWritten(s, lay, d);
      assert all[1..] == [];
    } else {
      ApplyBringsOver(s, d, ws);
      assert all[1..] == ws[1..] + [PutHeader(HeaderOf(s, s.head))];
      SaveFinishes(s, lay, Apply(d, ws[0]), ws[1..]);
    }
  }

  lemma CrashOfOne(d: Disk, w: DiskWrite, rest: seq<DiskWrite>, r: Disk)
    requires AllApplicable([w] + rest, |d.data|) && CrashState(d, [w] + rest, r)
    ensures AllApplicable(rest, |d.data|)
    ensures Torn(d, w, r) || CrashState(Apply(d, w), rest, r)
  {
    assert ([w] + rest)[1..] == rest;
  }

  lemma ApplyOne(d: Disk, w: DiskWrite, rest: seq<DiskWrite>)
    requires AllApplicable([w] + rest, |d.data|)
    ensures AllApplicable(rest, |d.data|)
    ensures ApplyAll(d, [w] + rest) == ApplyAll(Apply(d, w), rest)
  {
    assert ([w] + rest)[1..] == rest;
  }

  /** What a save starts from: the writes of the plan are in range and complete the image. */
  lemma PlanIsSound(s: State, lay: Layout, sv: nat, d: Disk)
    requires Live(s, lay) && Synced(s, lay, sv, d.data)
    ensures CutBetween(s, Cut(s.tail, lay.Log(), sv))
    ensures AllApplicable(SavePlan(s), |d.data|) && RegionWrites(s, Regions(s))
    ensures AgreeSaved(s, SavedHead(s), d.data) && AgreeBut(s, Regions(s), d.data)
  {
    var c := Cut(s.tail, lay.Log(), sv);
    CutIsBetween(s, lay, sv);
    var ws := Regions(s);
    forall k | 0 <= k < |ws| ensures FromMemory(s, ws[k]) && OutsideSaved(s, ws[k]) {
      RegionsAreUnsaved(s, c, k);
    }
    forall i | 0 <= i < |d.data| && Used(s.head, s.tail, i) && d.data[i] != s.mem[i]
      ensures exists k :: 0 <= k < |ws| && Covers(ws[k], i)
    {
      RegionsCover(s, c, i);
    }
    assert forall k | 0 <= k < |ws| :: Applicable(ws[k], |d.data|);
  }

  lemma CrashBehindFirstHeader(s: State, lay: Layout, sv: nat, d: Disk, ws: seq<DiskWrite>, r: Disk)
    requires Live(s, lay) && sv <= |lay.Log()| && InSave(s, Cut(s.tail, lay.Log(), sv), d, ws)
    requires AllApplicable(ws + [PutHeader(HeaderOf(s, s.head))], |d.data|)
    requires r == d || CrashState(d, ws + [PutHeader(HeaderOf(s, s.head))], r)
    ensures Recovers(r, SavedPart(lay, sv), s.nextId) || Recovers(r, lay, s.nextId)
  {
    if r == d {
      PrefixRecovers(s, lay, sv, d);
    } else {
      CrashAfterHeader(s, lay, sv, d, ws, r);
    }
  }

  /** A crash of the plan: nothing written, or the first header written. */
  lemma CrashOfPlan(s: State, d: Disk, r: Disk)
    requires s.head <= |s.mem| && s.tail <= |s.mem| && 0 <= SavedHead(s) <= |s.mem|
    requires AllApplicable(SavePlan(s), |d.data|) && CrashState(d, SavePlan(s), r)
    ensures var last := PutHeader(HeaderOf(s, s.head));
            var before := d.(hdr := HeaderOf(s, SavedHead(s)));
            || r == d
            || (Regions(s) == [] && r == d.(hdr := HeaderOf(s, s.head)))
            || (Regions(s) != [] && AllApplicable(Regions(s) + [last], |d.data|)
                && (r == before || CrashState(before, Regions(s) + [last], r)))
  {
    var last := PutHeader(HeaderOf(s, s.head));
    if Regions(s) == [] {
      CrashOfOne(d, last, [], r);
    } else {
      var rest := Regions(s) + [last];
      assert SavePlan(s) == [PutHeader(HeaderOf(s, SavedHead(s)))] + rest;
      CrashOfOne(d, PutHeader(HeaderOf(s, SavedHead(s))), rest, r);
    }
  }

  /**
   * A crash at any point of a save leaves a file that recovers to the previous save, to the part of
   * it still retained, or to the whole log: never to a torn item.
   */
  lemma CrashDuringSave(s: State, lay: Layout, sv: nat, d: Disk, was: Layout, wasNext: nat, r: Disk)
    requires Live(s, lay) && Synced(s, lay, sv, d.data) && Recovers(d, was, wasNext)
    requires CutBetween(s, Cut(s.tail, lay.Log(), sv)) && AllApplicable(SavePlan(s), |d.data|)
    requires CrashState(d, SavePlan(s), r)
    ensures Recovers(r, was, wasNext) || Recovers(r, SavedPart(lay, sv), s.nextId) || Recovers(r, lay, s.nextId)
  {
    PlanIsSound(s, lay, sv, d);
    CrashOfPlan(s, d, r);
    if r != d {
      if Regions(s) == [] {
        FullyWritten(s, lay, d);
      } else {
        CrashBehindFirstHeader(s, lay, sv, d.(hdr := HeaderOf(s, SavedHead(s))), Regions(s), r);
      }
    }
  }

  /** Incremental save equals full save: afterwards the file holds the whole log. */
  lemma SaveSavesAll(s: State, lay: Layout, sv: nat, d: Disk)
    requires Live(s, lay) && Synced(s, lay, sv, d.data)
    requires CutBetween(s, Cut(s.tail, lay.Log(), sv)) && AllApplicable(SavePlan(s), |d.data|)
    ensures var r := ApplyAll(d, SavePlan(s));
            && Recovers(r, lay, s.nextId)
            && Synced(s.(saved := Span(|s.mem|, s.tail, s.head)), lay, |lay.Log()|, r.data)
  {
    PlanIsSound(s, lay, sv, d);
    CutOfAll(s, lay);
    var ws := Regions(s);
    if ws == [] {
      assert SavePlan(s) == ws + [PutHeader(HeaderOf(s, s.head))];
      SaveFinishes(s, lay, d, ws);
    } else {
      var rest := ws + [PutHeader(HeaderOf(s, s.head))];
      assert SavePlan(s) == [PutHeader(HeaderOf(s, SavedHead(s)))] + rest;
      ApplyOne(d, PutHeader(HeaderOf(s, SavedHead(s))), rest);
      SaveFinishes(s, lay, d.(hdr := HeaderOf(s, SavedHead(s))), ws);
    }
  }

  /** Eviction's correction of _saved_size after moving the tail. */
  function SavedAfter(size: nat, saved: int, oldTail: nat, tail: nat): int {
    var overwritten := if oldTail <= tail then tail - oldTail else tail + (size - oldTail);
    if overwritten > 0 then if saved > overwritten then saved - overwritten else 0 else saved
  }

  /** Item k starts in the part of the ring it belongs to. */
  lemma ItemPlace(s: State, lay: Layout, k: nat)
    requires Shaped(s, lay) && k < |lay.Log()|
    ensures var t := lay.Log()[k].pos;
            && (k == 0 <==> t == s.tail)
            && match lay
               case Flat(items) => s.tail <= t < s.head <= |s.mem|
               case Wrapped(upper, w, lower) =>
                 if k < |upper| then s.tail <= t < w < |s.mem| else t < s.head < s.tail < |s.mem|
  {
    match lay
    case Flat(items) =>
      RunOrder(items, s.tail, s.head);
      assert k > 0 ==> items[0].End() <= items[k].pos;
    case Wrapped(upper, w, lower) =>
      RunOrder(upper, s.tail, w);
      if k < |upper| {
        assert lay.Log()[k] == upper[k];
        assert k > 0 ==> upper[0].End() <= upper[k].pos;
      } else {
        assert lay.Log()[k] == lower[k - |upper|];
      }
  }

  /** Within one run the end of item sv - 1 comes before the start of item k just when sv <= k. */
  lemma EndVsStart(items: seq<Block>, from: nat, to: nat, sv: nat, k: nat)
    requires Run(items, from, to) && 0 < sv <= |items| && k < |items|
    ensures if sv <= k then items[sv - 1].End() <= items[k].pos else items[k].pos < items[sv - 1].End()
  {
    RunOrder(items, from, to);
    if k < sv - 1 { assert items[k].End() <= items[sv - 1].pos; }
  }

  lemma SamePart(s: State, lay: Layout, sv: nat, k: nat)
    requires Shaped(s, lay) && 0 < sv <= |lay.Log()| && k < |lay.Log()|
    requires lay.Wrapped? ==> (sv <= |lay.upper| <==> k < |lay.upper|)
    ensures var c, t := Cut(s.tail, lay.Log(), sv), lay.Log()[k].pos;
            if sv <= k then c <= t else t < c
  {
    if lay.Flat? {
      EndVsStart(lay.items, s.tail, s.head, sv, k);
    } else if k < |lay.upper| {
      PickUpper(lay, k);
      PickUpper(lay, sv - 1);
      EndVsStart(lay.upper, s.tail, lay.wrap, sv, k);
    } else {
      PickLower(lay, k);
      PickLower(lay, sv - 1);
      EndVsStart(lay.lower, 0, s.head, sv - |lay.upper|, k - |lay.upper|);
    }
  }

  lemma PickUpper(lay: Layout, k: nat)
    requires lay.Wrapped? && k < |lay.upper|
    ensures lay.Log()[k] == lay.upper[k]
  {
  }

  lemma PickLower(lay: Layout, k: nat)
    requires lay.Wrapped? && |lay.upper| <= k < |lay.Log()|
    ensures lay.Log()[k] == lay.lower[k - |lay.upper|]
  {
  }

  /** A cut that the new tail has passed: nothing that is left is saved. */
  lemma CutBehind(n: nat, tail: nat, c: nat, t: nat)
    requires tail <= n && c <= n && t <= n
    requires (tail <= c && t < tail) || ((c < tail <==> t < tail) && c <= t)
    ensures SavedAfter(n, Span(n, tail, c), tail, t) == 0
  {
  }

  /** A cut ahead of the new tail: the saved part shrinks by what was overwritten. */
  lemma CutAhead(n: nat, tail: nat, c: nat, t: nat)
    requires tail <= n && c <= n && t <= n
    requires (tail <= t && c < tail) || ((c < tail <==> t < tail) && t < c)
    ensures SavedAfter(n, Span(n, tail, c), tail, t) == Span(n, t, c)
    ensures forall i | 0 <= i < n && Used(c, t, i) :: Used(c, tail, i)
  {
  }

  /** After dropping k items, the corrected _saved_size still measures the saved items that are left. */
  lemma SavedAfterDrop(s: State, lay: Layout, sv: nat, k: nat)
    requires Shaped(s, lay) && sv <= |lay.Log()| && k < |lay.Log()|
    ensures var c, t := Cut(s.tail, lay.Log(), sv), lay.Log()[k].pos;
            && SavedAfter(|s.mem|, Span(|s.mem|, s.tail, c), s.tail, t) == (if sv <= k then 0 else Span(|s.mem|, t, c))
            && (sv > k ==> forall i | 0 <= i < |s.mem| && Used(c, t, i) :: Used(c, s.tail, i))
  {
    var c, t := Cut(s.tail, lay.Log(), sv), lay.Log()[k].pos;
    ItemPlace(s, lay, k);
    if sv > 0 {
      CutIsEnd(s, lay, sv);
      if lay.Wrapped? ==> (sv <= |lay.upper| <==> k < |lay.upper|) {
        SamePart(s, lay, sv, k);
      }
    }
    if sv <= k { CutBehind(|s.mem|, s.tail, c, t); } else { CutAhead(|s.mem|, s.tail, c, t); }
  }

  lemma CutAfterDrop(tail: nat, log: seq<Block>, sv: nat, k: nat)
    requires k < sv <= |log|
    ensures Cut(log[k].pos, log[k..], sv - k) == Cut(tail, log, sv)
  {
    assert log[k..][sv - k - 1] == log[sv - 1];
  }

  /** Eviction keeps disk and memory in step. */
  lemma EvictKeepsSync(s: State, lay: Layout, sv: nat, data: seq<Byte>, k: nat, r: Layout)
    requires Shaped(s, lay) && Synced(s, lay, sv, data) && k < |lay.Log()| && r.Log() == lay.Log()[k..]
    ensures var t := lay.Log()[k].pos;
            && SavedAfter(|s.mem|, s.saved, s.tail, t) >= 0
            && Synced(s.(tail := t, saved := SavedAfter(|s.mem|, s.saved, s.tail, t)), r, if sv <= k then 0 else sv - k, data)
  {
    SavedAfterDrop(s, lay, sv, k);
    var t := lay.Log()[k].pos;
    if sv <= k {
      NothingSaved(s.(tail := t, saved := 0), r, data);
    } else {
      CutAfterDrop(s.tail, lay.Log(), sv, k);
    }
  }

  lemma NothingSaved(s: State, lay: Layout, data: seq<Byte>)
    requires s.saved == 0 && |data| == |s.mem|
    ensures Synced(s, lay, 0, data)
  {
  }

  /** Appending touches nothing that is saved. */
  lemma AppendKeepsSync(s: State, lay: Layout, sv: nat, data: seq<Byte>, s': State, r: Layout, b: Block)
    requires Live(s, lay) && Synced(s, lay, sv, data) && r.Log() == lay.Log() + [b]
    requires |s'.mem| == |s.mem| && s'.tail == s.tail && s'.saved == s.saved
    requires forall i | 0 <= i < |s.mem| && Used(s.head, s.tail, i) :: s'.mem[i] == s.mem[i]
    ensures Synced(s', r, sv, data)
  {
    SavedIsUsed(s, lay, sv);
    assert Cut(s.tail, r.Log(), sv) == Cut(s.tail, lay.Log(), sv) by {
      if sv > 0 { assert r.Log()[sv - 1] == lay.Log()[sv - 1]; }
    }
  }

  /** Writes made one after the other add up. */
  lemma {:induction false} ApplySnoc(d: Disk, ws: seq<DiskWrite>, w: DiskWrite)
    requires AllApplicable(ws + [w], |d.data|)
    ensures AllApplicable(ws, |d.data|) && Applicable(w, |d.data|)
    ensures ApplyAll(d, ws + [w]) == Apply(ApplyAll(d, ws), w)
    decreases |ws|
  {
    assert (ws + [w])[|ws|] == w;
    forall i | 0 <= i < |ws| ensures Applicable(ws[i], |d.data|) { assert (ws + [w])[i] == ws[i]; }
    if ws != [] {
      assert ws + [w] == [ws[0]] + (ws[1..] + [w]);
      ApplyOne(d, ws[0], ws[1..] + [w]);
      ApplySnoc(Apply(d, ws[0]), ws[1..], w);
    } else {
      assert ws + [w] == [w];
      assert [w][1..] == [];
    }
  }

  /** Bytes written to the data area by a list of writes. */
  function DataBytes(ws: seq<DiskWrite>): nat {
    if ws == [] then 0 else DataBytes(ws[..|ws| - 1]) + (if ws[|ws| - 1].PutData? then |ws[|ws| - 1].bytes| else 0)
  }

  /** A save brings over exactly the part of the ring that was not saved yet. */
  lemma RegionBytes(s: State, c: nat)
    requires CutBetween(s, c)
    ensures DataBytes(Regions(s)) == Span(|s.mem|, s.tail, s.head) - s.saved
  {
    var ws := Regions(s);
    if |ws| == 2 {
      TwoWrites(ws[0], ws[1]);
      assert ws == [ws[0], ws[1]];
    } else if |ws| == 1 {
      OneWrite(ws[0]);
      assert ws == [ws[0]];
    }
  }

  lemma OneWrite(w: DiskWrite)
    requires w.PutData?
    ensures DataBytes([w]) == |w.bytes|
  {
    assert [w][..0] == [];
  }

  lemma TwoWrites(w: DiskWrite, v: DiskWrite)
    requires w.PutData? && v.PutData?
    ensures DataBytes([w, v]) == |w.bytes| + |v.bytes|
  {
    OneWrite(w);
    assert [w, v][..1] == [w];
  }
}
