/** The queue that delivery reads from, as a set of identifiers, is the ring: Get and Put do to the one what they do to the other. */
module DeliveryQueue {
  import opened Bytes
  import opened Ring
  import opened RingFile
  import Q = QueueSpec
  import D = Delivery

  /** The identifiers of the retained items. */
  ghost function Ids(log: seq<Block>): (r: set<nat>)
    ensures forall q :: q in r <==> exists i :: 0 <= i < |log| && log[i].id == q
  {
    set i | 0 <= i < |log| :: log[i].id
  }

  /** The abstract queue and reader of delivery stand where this ring and this cursor do. */
  ghost predicate Abstracts(w: D.World, s: State, lay: Layout, c: Q.Cursor) {
    && w.ring == Ids(lay.Log()) && w.nextId == s.nextId
    && w.at == D.After(c.id) && Q.Known(s, lay, c)
  }

  /** The item that Get reads behind a cursor it handed out is the one delivery's Gets yields. */
  lemma GetRefines(w: D.World, s: State, lay: Layout, c: Q.Cursor, n: nat)
    requires Live(s, lay) && Abstracts(w, s, lay, c) && Q.NextAfter(s, lay, c, n) && n < |lay.Log()|
    ensures D.Gets(w, lay.Log()[n].id)
  {
    hide Layout.Log, Wellformed;
    var log := lay.Log();
    Q.ReaderProgress(s, lay, c, n);
    KnownPlace(s, lay, c);
    if c.id in w.ring {
      forall q | c.id < q < log[n].id ensures q !in w.ring { NoneBetween(s, lay, c.id, n, q); }
    } else {
      assert n == 0;
      forall q | q in w.ring ensures log[0].id <= q {
        var i :| 0 <= i < |log| && log[i].id == q;
        Increasing(s, lay, 0, i);
      }
    }
  }

  /** When Get has nothing to read behind such a cursor, neither has Gets, in any state of a run. */
  lemma NothingToGet(w: D.World, s: State, lay: Layout, c: Q.Cursor, n: nat, p: nat)
    requires Live(s, lay) && Abstracts(w, s, lay, c) && Q.NextAfter(s, lay, c, n) && n >= |lay.Log()|
    requires D.LoopOk(w) && !w.pc.Stopped?
    ensures !D.Gets(w, p)
  {
    hide Layout.Log, Wellformed, D.LoopOk;
    Q.ReaderProgress(s, lay, c, n);
    KnownPlace(s, lay, c);
    AtIsTaken(w, c.id);
    if p in w.ring {
      var i :| 0 <= i < |lay.Log()| && lay.Log()[i].id == p;
      assert p <= c.id;
    }
  }

  lemma AtIsTaken(w: D.World, c: nat)
    requires D.LoopOk(w) && !w.pc.Stopped? && w.at == D.After(c)
    ensures w.since <= c ==> c in w.taken
  {
  }

  lemma Increasing(s: State, lay: Layout, i: nat, j: nat)
    requires Live(s, lay) && i <= j < |lay.Log()|
    ensures lay.Log()[i].id <= lay.Log()[j].id
  {
    if i < j { assert Earlier(lay.Log(), i, j); }
  }

  lemma NoneBetween(s: State, lay: Layout, c: nat, n: nat, q: nat)
    requires Live(s, lay) && n < |lay.Log()| && c < q < lay.Log()[n].id
    requires forall m | 0 <= m < |lay.Log()| :: lay.Log()[m].id > c <==> m >= n
    ensures q !in Ids(lay.Log())
  {
    hide Layout.Log, Wellformed;
    if q in Ids(lay.Log()) {
      var i :| 0 <= i < |lay.Log()| && lay.Log()[i].id == q;
      Increasing(s, lay, n, i);
    }
  }

  /** A known cursor's item is retained, or all that is retained is newer. */
  lemma KnownPlace(s: State, lay: Layout, c: Q.Cursor)
    requires Live(s, lay) && Q.Known(s, lay, c)
    ensures c.id < s.nextId
    ensures c.id in Ids(lay.Log()) || forall m | 0 <= m < |lay.Log()| :: c.id < lay.Log()[m].id
  {
    hide Layout.Log, Wellformed;
    if i :| 0 <= i < |lay.Log()| && Q.RetainedAt(lay.Log(), i, c) {
      assert lay.Log()[i].id == c.id;
    } else {
      forall m | 0 <= m < |lay.Log()| ensures c.id < lay.Log()[m].id { Increasing(s, lay, 0, m); }
    }
  }

  /** A Put evicts the oldest items one by one and then adds one with the next identifier. */
  lemma PutRefines(was: State, wasLay: Layout, item: seq<Byte>, s: State, lay: Layout, k: nat)
    requires Live(was, wasLay) && Q.PutEffect(was, wasLay, item, s, lay, k)
    ensures Ids(lay.Log()) == Ids(wasLay.Log()[k..]) + {was.nextId} && s.nextId == was.nextId + 1
    ensures forall j | 0 <= j < k ::
              && D.Oldest(Ids(wasLay.Log()[j..]), wasLay.Log()[j].id)
              && Ids(wasLay.Log()[j + 1..]) == Ids(wasLay.Log()[j..]) - {wasLay.Log()[j].id}
  {
    hide Layout.Log, Wellformed, Q.TooTight;
    var log := wasLay.Log();
    IdsSnoc(log[k..], lay.Log()[|lay.Log()| - 1]);
    forall j | 0 <= j < k
      ensures D.Oldest(Ids(log[j..]), log[j].id) && Ids(log[j + 1..]) == Ids(log[j..]) - {log[j].id}
    {
      OldestGoes(was, wasLay, j);
    }
  }

  lemma IdsSnoc(log: seq<Block>, b: Block)
    ensures Ids(log + [b]) == Ids(log) + {b.id}
  {
    var l := log + [b];
    forall q ensures q in Ids(l) <==> q in Ids(log) || q == b.id {
      if q in Ids(log) {
        var i :| 0 <= i < |log| && log[i].id == q;
        assert l[i].id == q;
      }
      if q == b.id { assert l[|log|].id == q; }
      if q in Ids(l) {
        var i :| 0 <= i < |l| && l[i].id == q;
        assert i < |log| ==> log[i].id == q;
      }
    }
  }

  lemma OldestGoes(s: State, lay: Layout, j: nat)
    requires Live(s, lay) && j < |lay.Log()|
    ensures D.Oldest(Ids(lay.Log()[j..]), lay.Log()[j].id)
    ensures Ids(lay.Log()[j + 1..]) == Ids(lay.Log()[j..]) - {lay.Log()[j].id}
  {
    hide Layout.Log, Wellformed;
    var log := lay.Log();
    var l, rest := log[j..], log[j + 1..];
    assert l[0].id == log[j].id;
    forall q | q in Ids(l) ensures log[j].id <= q {
      var i :| 0 <= i < |l| && l[i].id == q;
      Increasing(s, lay, j, j + i);
    }
    forall q ensures q in Ids(rest) <==> q in Ids(l) && q != log[j].id {
      if q in Ids(rest) {
        var i :| 0 <= i < |rest| && rest[i].id == q;
        assert l[i + 1].id == q;
        Differ(s, lay, j, j + 1 + i);
      }
      if q in Ids(l) && q != log[j].id {
        var i :| 0 <= i < |l| && l[i].id == q;
        assert rest[i - 1].id == q;
      }
    }
  }

  lemma Differ(s: State, lay: Layout, i: nat, j: nat)
    requires Live(s, lay) && i < j < |lay.Log()|
    ensures lay.Log()[i].id != lay.Log()[j].id
  {
    assert Earlier(lay.Log(), i, j);
  }
}
