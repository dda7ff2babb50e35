/**
 * The byte ring of Queue.cpp as values: block headers, the chain of blocks that runs from the
 * tail to the head, and what eviction, wrapping and appending do to that chain.
 */
module Ring {
  import opened Bytes

  /** sizeof(BlockHeader): size, id and state, eight bytes each. */
  const HEADER := 24
  const U64 := 0x1_0000_0000_0000_0000
  const ITEM := 1
  const WRAP := 2
  const HEAD := 3
  const UNCOMMITTED_PUT := 4

  function Header(size: nat, id: nat, state: nat): (s: seq<Byte>)
    ensures |s| == HEADER
  {
    Le(size, 8) + Le(id, 8) + Le(state, 8)
  }

  function SizeAt(mem: seq<Byte>, p: nat): nat
    requires p + HEADER <= |mem|
  {
    LeVal(mem[p..p + 8])
  }

  function IdAt(mem: seq<Byte>, p: nat): nat
    requires p + HEADER <= |mem|
  {
    LeVal(mem[p + 8..p + 16])
  }

  function StateAt(mem: seq<Byte>, p: nat): nat
    requires p + HEADER <= |mem|
  {
    LeVal(mem[p + 16..p + 24])
  }

  lemma ReadWord(n: nat)
    requires n < U64
    ensures LeVal(Le(n, 8)) == n
  {
    Widths();
    LeRoundTrip(n, 8);
  }

  lemma Slice3(mem: seq<Byte>, p: nat, a: seq<Byte>, b: seq<Byte>, c: seq<Byte>)
    requires |a| == |b| == |c| == 8
    requires p + 24 <= |mem| && mem[p..p + 24] == a + b + c
    ensures mem[p..p + 8] == a && mem[p + 8..p + 16] == b && mem[p + 16..p + 24] == c
  {
    var h := mem[p..p + 24];
    assert forall i | 0 <= i < 24 :: h[i] == mem[p + i];
    assert h[..8] == a && h[8..16] == b && h[16..24] == c;
    assert mem[p..p + 8] == h[..8] && mem[p + 8..p + 16] == h[8..16] && mem[p + 16..p + 24] == h[16..24];
  }

  /** The block header at p reads as these three words. */
  ghost predicate HeaderIs(mem: seq<Byte>, p: nat, size: nat, id: nat, state: nat) {
    p + HEADER <= |mem| && SizeAt(mem, p) == size && IdAt(mem, p) == id && StateAt(mem, p) == state
  }

  /** Reading a stored header gives back its three words. */
  lemma ReadHeader(mem: seq<Byte>, p: nat, size: nat, id: nat, state: nat)
    requires p + HEADER <= |mem| && mem[p..p + HEADER] == Header(size, id, state)
    requires size < U64 && id < U64 && state < U64
    ensures HeaderIs(mem, p, size, id, state)
  {
    var a, b, c := Le(size, 8), Le(id, 8), Le(state, 8);
    Slice3(mem, p, a, b, c);
    ReadWord(size);
    ReadWord(id);
    ReadWord(state);
  }

  /** An item as it lies in the ring. */
  datatype Block = Block(pos: nat, id: nat, payload: seq<Byte>) {
    function End(): nat { pos + HEADER + |payload| }
  }

  ghost predicate Stored(mem: seq<Byte>, b: Block) {
    && b.End() <= |mem|
    && HeaderIs(mem, b.pos, |b.payload|, b.id, ITEM)
    && mem[b.pos + HEADER..b.End()] == b.payload
  }

  ghost predicate AllStored(mem: seq<Byte>, log: seq<Block>) {
    forall i {:trigger Stored(mem, log[i])} | 0 <= i < |log| :: Stored(mem, log[i])
  }

  ghost predicate Follows(items: seq<Block>, i: nat)
    requires 0 < i < |items|
  {
    items[i].pos == items[i - 1].End()
  }

  /** Adjacent blocks that fill exactly the bytes from..to. */
  ghost predicate Run(items: seq<Block>, from: nat, to: nat) {
    && (if items == [] then from == to else items[0].pos == from && items[|items| - 1].End() == to)
    && (forall i | 0 < i < |items| :: Follows(items, i))
    && (forall i | 0 <= i < |items| :: from <= items[i].pos && items[i].End() <= to)
  }

  /**
   * Where the retained items lie. Flat: [----<tail>====<head>----]. Wrapped:
   * [====<head>----<tail>====<wrap>], the upper items first, then a WRAP block, then the lower.
   */
  datatype Layout = Flat(items: seq<Block>) | Wrapped(upper: seq<Block>, wrap: nat, lower: seq<Block>) {
    function Log(): seq<Block> {
      if Flat? then items else upper + lower
    }
  }

  ghost predicate Issued(log: seq<Block>, i: nat, nextId: nat)
    requires i < |log|
  {
    0 < log[i].id < nextId
  }

  ghost predicate Earlier(log: seq<Block>, i: nat, j: nat)
    requires i < |log| && j < |log|
  {
    log[i].id < log[j].id
  }

  /** Identifiers are positive, below nextId and strictly increasing. */
  ghost predicate Ordered(log: seq<Block>, nextId: nat) {
    && (forall i | 0 <= i < |log| :: Issued(log, i, nextId))
    && (forall i, j | 0 <= i < j < |log| :: Earlier(log, i, j))
  }

  /** The positions of a layout: adjacent blocks, inside a ring of n bytes. */
  ghost predicate Shape(n: nat, head: nat, tail: nat, lay: Layout) {
    match lay
    case Flat(items) => Run(items, tail, head) && head <= n
    case Wrapped(upper, w, lower) =>
      && upper != [] && lower != []
      && Run(upper, tail, w) && Run(lower, 0, head) && head < tail && w + HEADER <= n
  }

  /** The blocks from tail to head, followed through WRAP, are exactly the items of lay. */
  ghost predicate Chain(mem: seq<Byte>, head: nat, tail: nat, lay: Layout) {
    && Shape(|mem|, head, tail, lay)
    && (lay.Wrapped? ==> HeaderIs(mem, lay.wrap, 0, 0, WRAP))
    && AllStored(mem, lay.Log())
  }

  /** n bytes from head on belong to no retained block. */
  ghost predicate Room(size: nat, head: nat, tail: nat, lay: Layout, n: nat) {
    if lay.Flat? then head + n <= size else head + n <= tail
  }

  /** The indices that hold retained data: the shaded part of the diagrams above. */
  predicate Used(head: nat, tail: nat, i: nat) {
    if tail <= head then tail <= i < head else i < head || tail <= i
  }

  /** Number of ring bytes from tail up to head. */
  function Span(size: nat, tail: nat, head: nat): int {
    if tail <= head then head - tail else head + (size - tail)
  }

  /** Queue::check_fit. */
  predicate Fits(dataSize: nat, head: nat, tail: nat, size: nat) {
    var blockSize := HEADER + size;
    if tail <= head then
      if dataSize - head < blockSize + HEADER then blockSize + HEADER < tail else true
    else
      head + HEADER * 2 + blockSize <= tail
  }

  /**
   * Whether the bytes between the head and the oldest block are enough for an item of this size.
   * When the oldest block lies beyond the head they must hold the item's header, the item and two
   * more headers; otherwise the item with its header and one more needs to have room behind the
   * head, or room to spare in front of the oldest block.
   */
  predicate Suffices(dataSize: nat, head: nat, oldest: nat, size: nat) {
    if head < oldest then oldest - head >= HEADER + size + 2 * HEADER
    else dataSize - head >= HEADER + size + HEADER || oldest > HEADER + size + HEADER
  }

  /** Where it goes: behind the head as long as its block and one more header fit there, else to the front. */
  function PlaceFor(dataSize: nat, head: nat, oldest: nat, size: nat): nat {
    if head < oldest || dataSize - head >= HEADER + size + HEADER then head else 0
  }

  /** check_fit succeeds exactly when they are. */
  lemma FitsIffSuffices(dataSize: nat, head: nat, tail: nat, size: nat)
    ensures Fits(dataSize, head, tail, size) <==> Suffices(dataSize, head, tail, size)
  {
  }

  /** A slice of memory that two images agree on keeps its blocks. */
  lemma SameSlice(m: seq<Byte>, m': seq<Byte>, lo: nat, hi: nat)
    requires lo <= hi <= |m| == |m'|
    requires forall i | lo <= i < hi :: m[i] == m'[i]
    ensures m[lo..hi] == m'[lo..hi]
  {
  }

  lemma HeaderFrame(m: seq<Byte>, m': seq<Byte>, p: nat)
    requires p + HEADER <= |m| == |m'|
    requires forall i | p <= i < p + HEADER :: m[i] == m'[i]
    ensures SizeAt(m', p) == SizeAt(m, p) && IdAt(m', p) == IdAt(m, p) && StateAt(m', p) == StateAt(m, p)
  {
    SameSlice(m, m', p, p + 8);
    SameSlice(m, m', p + 8, p + 16);
    SameSlice(m, m', p + 16, p + 24);
  }

  lemma StoredFrame(m: seq<Byte>, m': seq<Byte>, b: Block)
    requires Stored(m, b) && |m| == |m'|
    requires forall i | b.pos <= i < b.End() :: m[i] == m'[i]
    ensures Stored(m', b)
  {
    HeaderFrame(m, m', b.pos);
    SameSlice(m, m', b.pos + HEADER, b.End());
  }

  /** Every retained block lies in the used part. */
  lemma BlockIsUsed(n: nat, head: nat, tail: nat, lay: Layout, k: nat)
    requires Shape(n, head, tail, lay) && k < |lay.Log()|
    ensures forall i | lay.Log()[k].pos <= i < lay.Log()[k].End() :: i < n && Used(head, tail, i)
  {
    var b := lay.Log()[k];
    if lay.Wrapped? {
      if k < |lay.upper| { assert b == lay.upper[k]; } else { assert b == lay.lower[k - |lay.upper|]; }
    }
  }

  /** The chain depends on no byte outside the used part of the ring. */
  lemma ChainFrame(m: seq<Byte>, m': seq<Byte>, head: nat, tail: nat, lay: Layout)
    requires Chain(m, head, tail, lay) && |m| == |m'|
    requires forall i | 0 <= i < |m| && Used(head, tail, i) :: m[i] == m'[i]
    ensures Chain(m', head, tail, lay)
  {
    assert AllStored(m', lay.Log()) by {
      forall k | 0 <= k < |lay.Log()| ensures Stored(m', lay.Log()[k]) {
        BlockIsUsed(|m|, head, tail, lay, k);
        StoredFrame(m, m', lay.Log()[k]);
      }
    }
    if lay.Wrapped? {
      HeaderFrame(m, m', lay.wrap);
    }
  }

  /** Dropping the oldest items leaves a run that starts at the next one. */
  lemma RunDrop(items: seq<Block>, from: nat, to: nat, k: nat)
    requires Run(items, from, to) && k < |items|
    ensures Run(items[k..], items[k].pos, to)
  {
    RunOrder(items, from, to);
    forall i | 0 < i < |items| - k ensures Follows(items[k..], i) {
      assert Follows(items, k + i);
    }
  }

  lemma {:induction false} RunOrder(items: seq<Block>, from: nat, to: nat)
    requires Run(items, from, to)
    ensures forall i, j | 0 <= i < j < |items| :: items[i].End() <= items[j].pos
    decreases |items|
  {
    if items != [] {
      var n := |items| - 1;
      var rest := items[..n];
      if n > 0 {
        assert Follows(items, n);
        assert Run(rest, from, items[n].pos) by {
          forall i | 0 < i < n ensures Follows(rest, i) { assert Follows(items, i); }
          forall i | 0 <= i < n ensures rest[i].End() <= items[n].pos { RunEndBelow(items, i, n); }
        }
        RunOrder(rest, from, items[n].pos);
        forall i, j | 0 <= i < j < |items| ensures items[i].End() <= items[j].pos {
          if j < n { assert rest[i].End() <= rest[j].pos; } else { RunEndBelow(items, i, n); }
        }
      }
    }
  }

  /** Along adjacent blocks positions only grow. */
  lemma {:induction false} RunEndBelow(items: seq<Block>, i: nat, j: nat)
    requires i < j < |items|
    requires forall k | 0 < k < |items| :: Follows(items, k)
    ensures items[i].End() <= items[j].pos
    decreases j
  {
    if i + 1 < j {
      RunEndBelow(items, i, j - 1);
    }
    assert Follows(items, j);
  }

  /** The first k items on their own are a run that ends where item k - 1 does. */
  lemma RunTake(items: seq<Block>, from: nat, to: nat, k: nat)
    requires Run(items, from, to) && k <= |items|
    ensures Run(items[..k], from, if k == 0 then from else items[k - 1].End())
  {
    RunOrder(items, from, to);
    forall i | 0 < i < k ensures Follows(items[..k], i) { assert Follows(items, i); }
    forall i | 0 <= i < k ensures items[..k][i].End() <= items[k - 1].End() {
      if i < k - 1 { assert items[i].End() <= items[k - 1].pos; }
    }
  }

  /** What lies at the head: no item and no WRAP block, so walkers stop there. */
  ghost predicate Marker(mem: seq<Byte>, head: nat) {
    && head + HEADER <= |mem|
    && SizeAt(mem, head) == 0 && IdAt(mem, head) == 0
    && StateAt(mem, head) != ITEM && StateAt(mem, head) != WRAP
  }

  /** Sizes and offsets fit the 64-bit header words. */
  ghost predicate Addressable(n: nat) { 2 * HEADER <= n < 0xFF_FFFF_FFFF_FFFF }

  /** The invariant of the ring in memory. */
  ghost predicate Wellformed(mem: seq<Byte>, head: nat, tail: nat, nextId: nat, lay: Layout) {
    && Addressable(|mem|)
    && Chain(mem, head, tail, lay)
    && Room(|mem|, head, tail, lay, HEADER)
    && Marker(mem, head)
    && Ordered(lay.Log(), nextId)
    && 0 < nextId < U64
  }

  function Dropped(lay: Layout): (r: Layout)
    requires lay.Log() != []
    ensures r.Log() == lay.Log()[1..]
  {
    if lay.Flat? then Flat(lay.items[1..])
    else if |lay.upper| > 1 then Wrapped(lay.upper[1..], lay.wrap, lay.lower)
    else if |lay.upper| == 1 then Flat(lay.lower)
    else Flat(lay.lower[1..])
  }

  /** The chain without its oldest item starts where that item ends, or at the front after the WRAP block. */
  lemma ChainDrop(mem: seq<Byte>, head: nat, tail: nat, lay: Layout)
    requires Chain(mem, head, tail, lay) && lay.Log() != []
    ensures lay.Log()[0].pos == tail
    ensures Chain(mem, head, PosOf(lay, head, 1), Dropped(lay))
  {
    AllStoredDrop(mem, lay.Log());
    match lay
    case Flat(items) =>
      RunTail(items, tail, head);
      NextPos(|mem|, head, tail, lay, 0);
    case Wrapped(upper, w, lower) =>
      RunTail(upper, tail, w);
      if |upper| > 1 { NextPos(|mem|, head, tail, lay, 0); }
  }

  lemma AllStoredDrop(mem: seq<Byte>, log: seq<Block>)
    requires AllStored(mem, log) && log != []
    ensures AllStored(mem, log[1..])
  {
    forall i | 0 <= i < |log| - 1 ensures Stored(mem, log[1..][i]) {
      assert log[1..][i] == log[i + 1];
    }
  }

  lemma RunTail(items: seq<Block>, from: nat, to: nat)
    requires Run(items, from, to) && items != []
    ensures Run(items[1..], items[0].End(), to)
  {
    if |items| > 1 {
      RunDrop(items, from, to, 1);
      assert Follows(items, 1);
    }
  }

  lemma OrderedDrop(log: seq<Block>, nextId: nat)
    requires Ordered(log, nextId) && log != []
    ensures Ordered(log[1..], nextId)
  {
    forall i | 0 <= i < |log| - 1 ensures Issued(log[1..], i, nextId) { assert Issued(log, i + 1, nextId); }
    forall i, j | 0 <= i < j < |log| - 1 ensures Earlier(log[1..], i, j) { assert Earlier(log, i + 1, j + 1); }
  }

  /** Where item n lies; the head when there are only n items. */
  function PosOf(lay: Layout, head: nat, n: nat): nat {
    if n < |lay.Log()| then lay.Log()[n].pos else head
  }

  /** Reading on from item i: past a WRAP block it is item i + 1, or the head behind the newest. */
  lemma NextState(mem: seq<Byte>, head: nat, tail: nat, nextId: nat, lay: Layout, i: nat)
    requires Wellformed(mem, head, tail, nextId, lay) && i < |lay.Log()|
    ensures HeaderIs(mem, lay.Log()[i].pos, |lay.Log()[i].payload|, lay.Log()[i].id, ITEM)
    ensures lay.Log()[i].End() + HEADER <= |mem|
    ensures (if StateAt(mem, lay.Log()[i].End()) == WRAP then 0 else lay.Log()[i].End()) == PosOf(lay, head, i + 1)
  {
    var log := lay.Log();
    assert Stored(mem, log[i]);
    if !(lay.Wrapped? && i + 1 == |lay.upper|) {
      NextPos(|mem|, head, tail, lay, i);
      if i + 1 < |log| { assert Stored(mem, log[i + 1]); }
    } else {
      assert log[i] == lay.upper[i] && log[i + 1] == lay.lower[0];
    }
  }

  lemma NextPos(n: nat, head: nat, tail: nat, lay: Layout, i: nat)
    requires Shape(n, head, tail, lay) && i < |lay.Log()|
    requires lay.Wrapped? ==> i + 1 != |lay.upper|
    ensures lay.Log()[i].End() == PosOf(lay, head, i + 1)
  {
    if lay.Wrapped? {
      if i < |lay.upper| {
        assert Follows(lay.upper, i + 1);
        assert lay.Log()[i] == lay.upper[i] && lay.Log()[i + 1] == lay.upper[i + 1];
      } else {
        var j := i - |lay.upper|;
        assert lay.Log()[i] == lay.lower[j];
        if j + 1 < |lay.lower| { assert Follows(lay.lower, j + 1) && lay.Log()[i + 1] == lay.lower[j + 1]; }
      }
    } else if i + 1 < |lay.items| {
      assert Follows(lay.items, i + 1);
    }
  }

  /** No item lies at the head. */
  lemma PosIsNotHead(n: nat, head: nat, tail: nat, lay: Layout, i: nat)
    requires Shape(n, head, tail, lay)
    ensures PosOf(lay, head, i) == head <==> i >= |lay.Log()|
  {
    if i < |lay.Log()| && lay.Wrapped? {
      assert lay.Log()[i] == if i < |lay.upper| then lay.upper[i] else lay.lower[i - |lay.upper|];
    }
  }

  lemma WellformedDrop(mem: seq<Byte>, head: nat, tail: nat, nextId: nat, lay: Layout)
    requires Wellformed(mem, head, tail, nextId, lay) && lay.Log() != []
    ensures Wellformed(mem, head, PosOf(lay, head, 1), nextId, Dropped(lay))
  {
    ChainDrop(mem, head, tail, lay);
    OrderedDrop(lay.Log(), nextId);
  }

  /** One turn of the eviction loop: the reads stay inside the ring and the tail moves to the next item. */
  lemma EvictStep(mem: seq<Byte>, head: nat, tail: nat, nextId: nat, lay: Layout)
    requires Wellformed(mem, head, tail, nextId, lay) && lay.Log() != []
    ensures lay.Log()[0].pos == tail && tail + HEADER <= |mem|
    ensures var t := tail + SizeAt(mem, tail) + HEADER;
            t + HEADER <= |mem| && (if StateAt(mem, t) == WRAP then 0 else t) == PosOf(lay, head, 1)
  {
    FirstItem(mem, head, tail, lay);
    NextState(mem, head, tail, nextId, lay, 0);
  }

  lemma FirstItem(mem: seq<Byte>, head: nat, tail: nat, lay: Layout)
    requires Chain(mem, head, tail, lay) && lay.Log() != []
    ensures lay.Log()[0].pos == tail && HeaderIs(mem, tail, |lay.Log()[0].payload|, lay.Log()[0].id, ITEM)
  {
    assert Stored(mem, lay.Log()[0]);
  }

  /**
   * What a caller can check before a Put: either the item fits behind the head, or it can go to
   * the front of the ring without reaching the newest item.
   */
  predicate PutSafe(dataSize: nat, head: nat, log: seq<Block>, size: nat) {
    || head + size + 2 * HEADER <= dataSize
    || (log != [] && size + 2 * HEADER < log[|log| - 1].pos)
  }

  /** Eviction stops at a retained item exactly when PutSafe holds; otherwise it drops them all. */
  lemma SafeIffSomeTailFits(n: nat, head: nat, tail: nat, lay: Layout, size: nat)
    requires Shape(n, head, tail, lay) && lay.Log() != []
    ensures PutSafe(n, head, lay.Log(), size)
       <==> exists k :: 0 <= k < |lay.Log()| && Fits(n, head, lay.Log()[k].pos, size)
  {
    if PutSafe(n, head, lay.Log(), size) {
      var k := SafeTail(n, head, tail, lay, size);
    }
    forall k | 0 <= k < |lay.Log()| && Fits(n, head, lay.Log()[k].pos, size)
      ensures PutSafe(n, head, lay.Log(), size)
    {
      FittingTailIsSafe(n, head, tail, lay, size, k);
    }
  }

  /** Behind the head any tail in front of it will do; at the front of the ring the newest item will. */
  lemma SafeTail(n: nat, head: nat, tail: nat, lay: Layout, size: nat) returns (k: nat)
    requires Shape(n, head, tail, lay) && lay.Log() != [] && PutSafe(n, head, lay.Log(), size)
    ensures k < |lay.Log()| && Fits(n, head, lay.Log()[k].pos, size)
  {
    if head + size + 2 * HEADER <= n {
      k := if lay.Flat? then 0 else |lay.upper|;
      assert lay.Wrapped? ==> lay.Log()[k] == lay.lower[0];
    } else {
      k := |lay.Log()| - 1;
      assert lay.Wrapped? ==> lay.Log()[k] == lay.lower[|lay.lower| - 1];
    }
  }

  lemma FittingTailIsSafe(n: nat, head: nat, tail: nat, lay: Layout, size: nat, k: nat)
    requires Shape(n, head, tail, lay) && k < |lay.Log()|
    requires Fits(n, head, lay.Log()[k].pos, size)
    ensures PutSafe(n, head, lay.Log(), size)
  {
    var log := lay.Log();
    match lay
    case Flat(items) =>
      RunOrder(items, tail, head);
      assert k < |items| - 1 ==> items[k].End() <= items[|items| - 1].pos;
    case Wrapped(upper, w, lower) =>
      if k < |upper| {
        assert log[k] == upper[k];
      } else {
        RunOrder(lower, 0, head);
        var j := k - |upper|;
        assert log[k] == lower[j] && log[|log| - 1] == lower[|lower| - 1];
        assert j < |lower| - 1 ==> lower[j].End() <= lower[|lower| - 1].pos;
      }
  }

  /** Where the next item goes: behind the head, or at the front after a WRAP block. */
  predicate Wraps(dataSize: nat, head: nat, tail: nat, size: nat) {
    tail <= head && head + (size + HEADER) + HEADER > dataSize
  }

  function Appended(lay: Layout, head: nat, wraps: bool, b: Block): (r: Layout)
    requires wraps ==> lay.Flat?
    ensures r.Log() == lay.Log() + [b]
  {
    if wraps then Wrapped(lay.items, head, [b])
    else if lay.Flat? then Flat(lay.items + [b])
    else Wrapped(lay.upper, lay.wrap, lay.lower + [b])
  }

  /** A block written behind the last one, or at the front behind a WRAP block, extends the chain. */
  lemma ChainAppend(m: seq<Byte>, head: nat, tail: nat, lay: Layout, wraps: bool, b: Block)
    requires Chain(m, head, tail, lay) && Stored(m, b)
    requires b.pos == if wraps then 0 else head
    requires wraps ==> lay.Flat? && lay.items != [] && b.End() < tail
    requires wraps ==> HeaderIs(m, head, 0, 0, WRAP)
    requires lay.Wrapped? ==> b.End() < tail
    ensures Chain(m, b.End(), tail, Appended(lay, head, wraps, b))
  {
    AllStoredAppend(m, lay.Log(), b);
    if wraps { RunAppend([], 0, 0, b); }
    else if lay.Flat? { RunAppend(lay.items, tail, head, b); }
    else { RunAppend(lay.lower, 0, head, b); }
  }

  lemma AllStoredAppend(mem: seq<Byte>, log: seq<Block>, b: Block)
    requires AllStored(mem, log) && Stored(mem, b)
    ensures AllStored(mem, log + [b])
  {
  }

  lemma OrderedAppend(log: seq<Block>, nextId: nat, b: Block)
    requires Ordered(log, nextId) && b.id == nextId > 0
    ensures Ordered(log + [b], nextId + 1)
  {
    var r := log + [b];
    var next := nextId + 1;
    forall i | 0 <= i < |r| ensures Issued(r, i, next) {
      if i < |log| { assert Issued(log, i, nextId); }
    }
    forall i, j | 0 <= i < j < |r| ensures Earlier(r, i, j) {
      if j < |log| { assert Earlier(log, i, j); } else { assert Issued(log, i, nextId); }
    }
  }

  /** Writing one more block, and a WRAP block when it goes to the front, extends the chain by it. */
  lemma Append(mem: seq<Byte>, m: seq<Byte>, head: nat, tail: nat, nextId: nat, lay: Layout, b: Block, wraps: bool)
    requires Wellformed(mem, head, tail, nextId, lay) && |m| == |mem| && nextId + 1 < U64
    requires Fits(|mem|, head, tail, |b.payload|)
    requires wraps == Wraps(|mem|, head, tail, |b.payload|) && (wraps ==> lay.Log() != [])
    requires forall i | 0 <= i < |mem| && Used(head, tail, i) :: m[i] == mem[i]
    requires wraps ==> HeaderIs(m, head, 0, 0, WRAP)
    requires b.pos == (if wraps then 0 else head) && b.id == nextId
    requires Stored(m, b) && Marker(m, b.End())
    ensures wraps ==> lay.Flat?
    ensures Wellformed(m, b.End(), tail, nextId + 1, Appended(lay, head, wraps, b))
  {
    ChainFrame(mem, m, head, tail, lay);
    ChainAppend(m, head, tail, lay, wraps, b);
    OrderedAppend(lay.Log(), nextId, b);
  }

  lemma RunAppend(items: seq<Block>, from: nat, to: nat, b: Block)
    requires Run(items, from, to) && b.pos == to && from <= to
    ensures Run(items + [b], from, b.End())
  {
    var r := items + [b];
    forall i | 0 < i < |r| ensures Follows(r, i) {
      if i < |items| { assert Follows(items, i); }
    }
  }

  /**
   * When three copies of every item would fit in the ring, PutSafe always holds: the documented
   * worst case of an item that must wrap behind an item of the same size.
   */
  lemma SmallItemsAreSafe(n: nat, head: nat, tail: nat, lay: Layout, size: nat)
    requires Shape(n, head, tail, lay)
    requires lay.Log() == [] ==> head == 0
    requires 3 * (size + 2 * HEADER) <= n
    requires forall i | 0 <= i < |lay.Log()| :: 3 * (|lay.Log()[i].payload| + 2 * HEADER) <= n
    ensures PutSafe(n, head, lay.Log(), size)
  {
    var log := lay.Log();
    if log != [] {
      var last := log[|log| - 1];
      assert lay.Wrapped? ==> last == lay.lower[|lay.lower| - 1];
      assert last.End() == head;
      assert last.pos == head - HEADER - |last.payload|;
    }
  }

  /** Memory after allocate_locked: a WRAP block where the head was, if need be, and an uncommitted header. */
  function Allocated(mem: seq<Byte>, head: nat, tail: nat, size: nat): (m: seq<Byte>)
    requires Wraps(|mem|, head, tail, size) ==> head + HEADER <= |mem|
    requires (if Wraps(|mem|, head, tail, size) then 0 else head) + HEADER <= |mem|
    ensures |m| == |mem|
  {
    if Wraps(|mem|, head, tail, size) then
      Splice(Splice(mem, head, Header(0, 0, WRAP)), 0, Header(size, 0, UNCOMMITTED_PUT))
    else
      Splice(mem, head, Header(size, 0, UNCOMMITTED_PUT))
  }

  /** Memory after commit_locked: the header at pos is an item's, and a HEAD block follows the item. */
  function Committed(mem: seq<Byte>, pos: nat, size: nat, id: nat): (m: seq<Byte>)
    requires pos + 2 * HEADER + size <= |mem|
    ensures |m| == |mem|
  {
    Splice(Splice(mem, pos, Header(size, id, ITEM)), pos + HEADER + size, Header(0, 0, HEAD))
  }

  lemma SpliceHeader(mem: seq<Byte>, p: nat, size: nat, id: nat, state: nat)
    requires p + HEADER <= |mem| && size < U64 && id < U64 && state < U64
    ensures HeaderIs(Splice(mem, p, Header(size, id, state)), p, size, id, state)
  {
    var m := Splice(mem, p, Header(size, id, state));
    assert m[p..p + HEADER] == Header(size, id, state);
    ReadHeader(m, p, size, id, state);
  }

  lemma SpliceOther(mem: seq<Byte>, off: nat, s: seq<Byte>, p: nat)
    requires off + |s| <= |mem| && p + HEADER <= |mem|
    requires p + HEADER <= off || off + |s| <= p
    ensures var m := Splice(mem, off, s);
            SizeAt(m, p) == SizeAt(mem, p) && IdAt(m, p) == IdAt(mem, p) && StateAt(m, p) == StateAt(mem, p)
  {
    HeaderFrame(mem, Splice(mem, off, s), p);
  }

  /** The bytes a Put may write: none of them holds retained data. */
  lemma AllocatedIsFree(n: nat, head: nat, tail: nat, size: nat)
    requires head + HEADER <= n && tail <= n && Fits(n, head, tail, size)
    ensures var pos := if Wraps(n, head, tail, size) then 0 else head;
            && pos + 2 * HEADER + size <= n
            && (forall i | pos <= i < pos + 2 * HEADER + size :: !Used(head, tail, i))
            && (Wraps(n, head, tail, size) ==>
                  pos + 2 * HEADER + size < tail && forall i | head <= i < head + HEADER :: !Used(head, tail, i))
  {
  }

  lemma AllocatedReads(mem: seq<Byte>, head: nat, tail: nat, size: nat)
    requires head + HEADER <= |mem| < U64 && tail <= |mem| && Fits(|mem|, head, tail, size)
    ensures var m := Allocated(mem, head, tail, size);
            && SizeAt(m, if Wraps(|mem|, head, tail, size) then 0 else head) == size
            && (Wraps(|mem|, head, tail, size) ==> HeaderIs(m, head, 0, 0, WRAP))
            && forall i | 0 <= i < |mem| && Used(head, tail, i) :: m[i] == mem[i]
  {
    AllocatedIsFree(|mem|, head, tail, size);
    if Wraps(|mem|, head, tail, size) {
      var m1 := Splice(mem, head, Header(0, 0, WRAP));
      SpliceHeader(mem, head, 0, 0, WRAP);
      SpliceHeader(m1, 0, size, 0, UNCOMMITTED_PUT);
      SpliceOther(m1, 0, Header(size, 0, UNCOMMITTED_PUT), head);
    } else {
      SpliceHeader(mem, head, size, 0, UNCOMMITTED_PUT);
    }
  }

  lemma CommittedReads(mem: seq<Byte>, pos: nat, size: nat, id: nat)
    requires pos + 2 * HEADER + size <= |mem| < U64 && id < U64
    ensures var m := Committed(mem, pos, size, id);
            && HeaderIs(m, pos, size, id, ITEM)
            && m[pos + HEADER..pos + HEADER + size] == mem[pos + HEADER..pos + HEADER + size]
            && Marker(m, pos + HEADER + size)
            && forall i | 0 <= i < |mem| && !(pos <= i < pos + 2 * HEADER + size) :: m[i] == mem[i]
  {
    var m1 := Splice(mem, pos, Header(size, id, ITEM));
    SpliceHeader(mem, pos, size, id, ITEM);
    SpliceFrame(mem, pos, Header(size, id, ITEM), pos + HEADER, pos + HEADER + size);
    MarkHead(m1, pos + HEADER + size);
    SpliceOther(m1, pos + HEADER + size, Header(0, 0, HEAD), pos);
    SpliceFrame(m1, pos + HEADER + size, Header(0, 0, HEAD), pos + HEADER, pos + HEADER + size);
  }

  lemma MarkHead(mem: seq<Byte>, p: nat)
    requires p + HEADER <= |mem|
    ensures Marker(Splice(mem, p, Header(0, 0, HEAD)), p)
  {
    SpliceHeader(mem, p, 0, 0, HEAD);
  }

  /** The item's bytes copied between the two. */
  lemma PutCombines(mem: seq<Byte>, m2: seq<Byte>, m: seq<Byte>, head: nat, tail: nat, pos: nat, wraps: bool,
                    item: seq<Byte>, id: nat)
    requires |mem| == |m2| == |m| && head + HEADER <= |mem| && pos + 2 * HEADER + |item| <= |mem|
    requires forall i | pos <= i < pos + 2 * HEADER + |item| :: !Used(head, tail, i)
    requires wraps ==> pos + 2 * HEADER + |item| <= head
    requires wraps ==> HeaderIs(m2, head, 0, 0, WRAP)
    requires forall i | 0 <= i < |mem| && Used(head, tail, i) :: m2[i] == mem[i]
    requires var m3 := Splice(m2, pos + HEADER, item);
             && HeaderIs(m, pos, |item|, id, ITEM)
             && m[pos + HEADER..pos + HEADER + |item|] == m3[pos + HEADER..pos + HEADER + |item|]
             && forall i | 0 <= i < |mem| && !(pos <= i < pos + 2 * HEADER + |item|) :: m[i] == m3[i]
    ensures forall i | 0 <= i < |mem| && Used(head, tail, i) :: m[i] == mem[i]
    ensures wraps ==> HeaderIs(m, head, 0, 0, WRAP)
    ensures Stored(m, Block(pos, id, item))
  {
    var m3 := Splice(m2, pos + HEADER, item);
    assert forall i | 0 <= i < |mem| && !(pos <= i < pos + 2 * HEADER + |item|) :: m[i] == m3[i] == m2[i];
    if wraps {
      HeaderFrame(m2, m, head);
    }
  }

  /** What a whole Put leaves in memory is what Append asks for. */
  lemma PutWrites(mem: seq<Byte>, m2: seq<Byte>, m3: seq<Byte>, m: seq<Byte>, head: nat, tail: nat, pos: nat,
                  item: seq<Byte>, id: nat)
    requires |mem| < U64 && id < U64
    requires head + HEADER <= |mem| && tail <= |mem| && Fits(|mem|, head, tail, |item|)
    requires pos == (if Wraps(|mem|, head, tail, |item|) then 0 else head) && pos + 2 * HEADER + |item| <= |mem|
    requires m2 == Allocated(mem, head, tail, |item|) && m3 == Splice(m2, pos + HEADER, item)
    requires m == Committed(m3, pos, |item|, id)
    ensures forall i | 0 <= i < |mem| && Used(head, tail, i) :: m[i] == mem[i]
    ensures Wraps(|mem|, head, tail, |item|) ==> HeaderIs(m, head, 0, 0, WRAP)
    ensures Stored(m, Block(pos, id, item))
    ensures Marker(m, pos + HEADER + |item|)
  {
    AllocatedIsFree(|mem|, head, tail, |item|);
    AllocatedReads(mem, head, tail, |item|);
    CommittedReads(m3, pos, |item|, id);
    PutCombines(mem, m2, m, head, tail, pos, Wraps(|mem|, head, tail, |item|), item, id);
  }
}
