/** Without forced flushes every backend receives items in order and at most once, whatever fails,
    is evicted, is added or is removed; and once writes succeed, nothing retained is missing. */
module LogDelivery {
  import opened Log
  import opened LogRuns

  /** Ids go up along what the backend received; of the retained items it received exactly those
      that carry its mark; and everything it received is older than whatever it still misses. */
  ghost predicate Ordered(b: Backend, items: seq<Item>, n: nat) {
    && (forall i, j :: 0 <= i < j < |b.received| ==> b.received[i] < b.received[j])
    && (forall i :: 0 <= i < |b.received| ==> b.received[i] < n)
    && (forall k :: 0 <= k < |items| ==> (items[k].id in b.received <==> b.id in items[k].marks))
    && (forall k, i :: 0 <= k < |items| && b.id !in items[k].marks && 0 <= i < |b.received| ==>
          b.received[i] < items[k].id)
  }

  ghost predicate AllOrdered(bs: seq<Backend>, items: seq<Item>, n: nat) {
    forall k :: 0 <= k < |bs| ==> Ordered(bs[k], items, n)
  }

  /** Only ids and the backend's own marks matter. */
  lemma OrderedSame(b: Backend, items: seq<Item>, r: seq<Item>, n: nat)
    requires Ordered(b, items, n) && |r| == |items|
    requires forall k :: 0 <= k < |r| ==>
      r[k].id == items[k].id && (b.id in r[k].marks <==> b.id in items[k].marks)
    ensures Ordered(b, r, n)
  {
  }

  lemma {:induction false} DeliverOrdered(w: World, b: Backend, items: seq<Item>, allocs: nat, n: nat)
    requires Numbered(items, n) && Prefixes(items) && Ordered(b, items, n)
    ensures var r := Deliver(w, b, items, false, allocs); Ordered(r.b, r.items, n) && b.received <= r.b.received
    decreases items
  {
    if items != [] {
      var o := WriteTo(w, b, items[0], false, allocs);
      var t := items[1..];
      assert items == [items[0]] + t;
      WriteOrdered(w, b, items, allocs, n);
      if o.ok {
        DeliverOrdered(w, o.b, t, o.allocs, n);
        DeliverKeepsId(w, o.b, t, false, o.allocs);
        var r := Deliver(w, o.b, t, false, o.allocs);
        HeadOrdered(r.b, o.items[0], r.items, n, o.b);
      }
    }
  }

  lemma WriteOrdered(w: World, b: Backend, items: seq<Item>, allocs: nat, n: nat)
    requires Numbered(items, n) && Prefixes(items) && Ordered(b, items, n) && items != []
    ensures var o := WriteTo(w, b, items[0], false, allocs);
      var t := items[1..];
      && Numbered(t, n) && Prefixes(t)
      && b.received <= o.b.received && o.b.id == b.id
      && (if o.ok then Ordered(o.b, t, n) else o.items == [items[0]] && Ordered(o.b, items, n))
      && (o.ok ==> items[0].id in o.b.received && b.id in o.items[0].marks && o.items[0].id == items[0].id)
  {
    hide Ordered;
    var o := WriteTo(w, b, items[0], false, allocs);
    TailOrdered(b, items, n);
    if o.ok && b.id !in items[0].marks {
      NextOrdered(b, items, n);
      assert items[0].id in o.b.received;
    } else {
      MarkedOrdered(b, o.b, items, n);
    }
  }

  lemma TailOrdered(b: Backend, items: seq<Item>, n: nat)
    requires Numbered(items, n) && Prefixes(items) && Ordered(b, items, n) && items != []
    ensures Numbered(items[1..], n) && Prefixes(items[1..]) && Ordered(b, items[1..], n)
  {
  }

  /** The same deliveries, and an item is delivered if it is marked. */
  lemma MarkedOrdered(b: Backend, c: Backend, items: seq<Item>, n: nat)
    requires Ordered(b, items, n) && items != [] && c.id == b.id && c.received == b.received
    ensures Ordered(c, items, n) && Ordered(c, items[1..], n)
    ensures b.id in items[0].marks ==> items[0].id in b.received
  {
  }

  /** An item that was missed so far is received before all others that are missed. */
  lemma NextOrdered(b: Backend, items: seq<Item>, n: nat)
    requires Numbered(items, n) && Prefixes(items) && Ordered(b, items, n) && items != []
    requires b.id !in items[0].marks
    ensures forall c: Backend :: c.id == b.id && c.received == b.received + [items[0].id] ==>
      Ordered(c, items[1..], n)
  {
    forall c: Backend | c.id == b.id && c.received == b.received + [items[0].id] ensures Ordered(c, items[1..], n) {
      Misses(b, items);
      Received(b, c, items, n);
    }
  }

  lemma Misses(b: Backend, items: seq<Item>)
    requires Prefixes(items) && items != [] && b.id !in items[0].marks
    ensures forall k :: 0 <= k < |items| ==> b.id !in items[k].marks
  {
  }

  lemma Received(b: Backend, c: Backend, items: seq<Item>, n: nat)
    requires Numbered(items, n) && Ordered(b, items, n) && items != []
    requires forall k :: 0 <= k < |items| ==> b.id !in items[k].marks
    requires c.id == b.id && c.received == b.received + [items[0].id]
    ensures Ordered(c, items[1..], n)
  {
    assert forall k :: 0 <= k < |items[1..]| ==> items[1..][k] == items[k + 1] && items[0].id < items[k + 1].id;
  }

  /** A delivered item in front of an ordered queue. */
  lemma HeadOrdered(b: Backend, it: Item, items: seq<Item>, n: nat, before: Backend)
    requires Ordered(b, items, n) && before.received <= b.received && it.id in before.received
    requires b.id in it.marks
    ensures Ordered(b, [it] + items, n)
  {
    assert it.id in b.received;
  }

  /** Deliveries to others change nothing for a backend. */
  lemma {:induction false} OthersOrdered(w: World, c: Backend, bs: seq<Backend>, items: seq<Item>, allocs: nat, n: nat)
    requires Ordered(c, items, n) && c.id !in Ids(bs)
    ensures Ordered(c, DeliverAll(w, bs, items, false, allocs).items, n)
    decreases bs
  {
    hide Ordered, Deliver;
    if bs != [] {
      var o := Deliver(w, bs[0], items, false, allocs);
      DeliverMarks(w, bs[0], items, false, allocs);
      assert bs[0].id in Ids(bs) && Ids(bs[1..]) <= Ids(bs);
      OrderedSame(c, items, o.items, n);
      OthersOrdered(w, c, bs[1..], o.items, o.allocs, n);
    }
  }

  lemma {:induction false} RoundOrdered(w: World, bs: seq<Backend>, items: seq<Item>, allocs: nat,
                                        known: set<nat>, n: nat, m: nat, sum: nat)
    requires Queue(items, known, n, sum) && Ids(bs) <= known && Distinct(bs, m) && AllOrdered(bs, items, n)
    ensures var r := DeliverAll(w, bs, items, false, allocs); AllOrdered(r.bs, r.items, n)
    decreases bs
  {
    hide Ordered, Deliver, Sum, Ids;
    if bs != [] {
      var o := Deliver(w, bs[0], items, false, allocs);
      var rest := bs[1..];
      DeliverMarks(w, bs[0], items, false, allocs);
      HeadIds(bs, m);
      MarkedQueue(items, o.items, bs[0].id, Taken(w, bs[0], items, false, allocs), known, n, sum);
      DeliverOrdered(w, bs[0], items, allocs, n);
      DeliverKeepsId(w, bs[0], items, false, allocs);
      forall k | 0 <= k < |rest| ensures Ordered(rest[k], o.items, n) {
        assert rest[k] == bs[k + 1] && Ordered(bs[k + 1], items, n);
        OrderedSame(rest[k], items, o.items, n);
      }
      RoundOrdered(w, rest, o.items, o.allocs, known, n, m, sum);
      OthersOrdered(w, o.b, rest, o.items, o.allocs, n);
    }
  }

  lemma HeadIds(bs: seq<Backend>, m: nat)
    requires bs != [] && Distinct(bs, m)
    ensures bs[0].id in Ids(bs) && Ids(bs[1..]) <= Ids(bs) && bs[0].id !in Ids(bs[1..]) && Distinct(bs[1..], m)
  {
    forall k | 0 <= k < |bs[1..]| ensures bs[1..][k].id != bs[0].id { assert bs[1..][k] == bs[k + 1]; }
  }

  ghost predicate InOrder(l: Log) {
    AllOrdered(l.backends, l.items, l.nextItem)
  }

  lemma FlushOrdered(w: World, l: Log)
    requires Inv(l) && InOrder(l)
    ensures InOrder(FlushAll(w, l, false))
  {
    hide Ordered, Queue, Sum, Ids, Fully, DeliverAll;
    InvQueue(l);
    RoundOrdered(w, l.backends, l.items, l.allocs, Ids(l.backends), l.nextItem, l.nextBackend, l.cur);
    var r := DeliverAll(w, l.backends, l.items, false, l.allocs);
    forall k | 0 <= k < |r.bs| ensures Ordered(r.bs[k], Flag(r.items, r.bs), l.nextItem) {
      OrderedSame(r.bs[k], r.items, Flag(r.items, r.bs), l.nextItem);
    }
  }

  lemma SuffixOrdered(bs: seq<Backend>, items: seq<Item>, k: nat, n: nat)
    requires AllOrdered(bs, items, n) && k <= |items|
    ensures AllOrdered(bs, items[k..], n)
  {
    var t := items[k..];
    forall i | 0 <= i < |bs| ensures Ordered(bs[i], t, n) {
      assert Ordered(bs[i], items, n);
      forall j | 0 <= j < |t| ensures t[j].id in bs[i].received <==> bs[i].id in t[j].marks {
        assert t[j] == items[k + j];
      }
    }
  }

  lemma EvictOrdered(l: Log)
    requires Inv(l) && InOrder(l)
    ensures InOrder(Evict(l))
  {
    hide Ordered, AllOrdered;
    KeepsSum(l);
    var k := EvictFewest(l);
    SuffixOrdered(l.backends, l.items, k, l.nextItem);
  }

  lemma PushOrdered(bs: seq<Backend>, items: seq<Item>, it: Item, n: nat)
    requires AllOrdered(bs, items, n) && it.id == n && it.marks == {}
    ensures AllOrdered(bs, items + [it], n + 1)
  {
    forall i | 0 <= i < |bs| ensures Ordered(bs[i], items + [it], n + 1) {
      assert Ordered(bs[i], items, n);
    }
  }

  lemma AppendOrdered(w: World, l: Log, size: nat)
    requires Inv(l) && InOrder(l)
    ensures InOrder(Append(w, l, size))
  {
    hide Inv, Evict, AllOrdered;
    KeepsSum(l);
    EvictKeeps(l);
    EvictOrdered(l);
    var e := Evict(l);
    if size < e.limit && w.alloc(e.allocs) {
      var it := Item(e.nextItem, size, {}, false);
      PushKeeps(e, size, e.allocs + 1);
      PushOrdered(e.backends, e.items, it, e.nextItem);
      EvictOrdered(e.(items := e.items + [it], cur := e.cur + size, nextItem := e.nextItem + 1,
                      allocs := e.allocs + 1));
    }
  }

  lemma ForgetOrdered(l: Log, id: nat)
    requires Inv(l) && InOrder(l)
    ensures InOrder(Forget(l, id))
  {
    hide Ordered, Inv, Fully;
    var f := Forget(l, id);
    forall k | 0 <= k < |f.backends| ensures Ordered(f.backends[k], f.items, f.nextItem) {
      var b := f.backends[k];
      assert b in f.backends;
      var j :| 0 <= j < |l.backends| && l.backends[j] == b;
      OrderedSame(b, l.items, f.items, l.nextItem);
    }
  }

  lemma CreateOrdered(w: World, l: Log)
    requires Inv(l) && InOrder(l)
    ensures InOrder(Create(w, l))
  {
    hide Ordered, Queue, Sum, Ids, Fully, Deliver, DeliverFlagging, Taken, Truthful;
    var id := l.nextBackend;
    if !w.alloc(l.allocs) {
      MoreBackends(l, l.allocs + 1);
      ForgetOrdered(l.(nextBackend := id + 1, allocs := l.allocs + 1), id);
    } else {
      var b := Backend(id, 0, []);
      var bs := l.backends + [b];
      var items := Unflag(l.items);
      var d := Deliver(w, b, items, false, l.allocs + 1);
      var o := DeliverFlagging(w, b, items, bs, l.allocs + 1);
      UnflagQueue(l, b);
      NewOrdered(l, b);
      QueueFacts(items, Ids(bs), l.nextItem, l.cur);
      DeliverOrdered(w, b, items, l.allocs + 1, l.nextItem);
      DeliverMarks(w, b, items, false, l.allocs + 1);
      FlaggingDelivers(w, b, items, bs, l.allocs + 1);
      OrderedSame(o.b, d.items, o.items, l.nextItem);
      forall k | 0 <= k < |l.backends| ensures Ordered(l.backends[k], o.items, l.nextItem) {
        OrderedSame(l.backends[k], l.items, o.items, l.nextItem);
      }
    }
  }

  lemma QueueFacts(items: seq<Item>, known: set<nat>, n: nat, sum: nat)
    requires Queue(items, known, n, sum)
    ensures Numbered(items, n) && Prefixes(items)
  {
  }

  lemma NewOrdered(l: Log, b: Backend)
    requires Inv(l) && b.id == l.nextBackend && b.received == []
    ensures Ordered(b, Unflag(l.items), l.nextItem)
  {
    forall k | 0 <= k < |l.items| ensures b.id !in l.items[k].marks {
      assert l.items[k].marks <= Ids(l.backends);
    }
  }

  /** No step of the run is a forced flush. */
  predicate Unforced(run: seq<Step>) {
    forall i :: 0 <= i < |run| ==> run[i] != All(true)
  }

  /** Over every unforced run each backend receives items in order and at most once, and the marks
      record exactly what it received. */
  lemma {:induction false} DeliveredInOrder(w: World, run: seq<Step>)
    requires Unforced(run)
    ensures InOrder(After(w, run))
    decreases run
  {
    hide Inv, InOrder;
    if run == [] {
      NobodyYet();
    } else {
      var before := run[..|run| - 1];
      DeliveredInOrder(w, before);
      var l := After(w, before);
      StepOrdered(w, l, run[|run| - 1]);
    }
  }

  lemma NobodyYet()
    ensures InOrder(INIT)
  {
  }

  lemma StepOrdered(w: World, l: Log, s: Step)
    requires Inv(l) && InOrder(l) && s != All(true)
    ensures l.cur == Sum(l.items) && InOrder(Next(w, l, s))
  {
    hide Inv, AllOrdered;
    KeepsSum(l);
    match s
    case AppendItem(size) => AppendOrdered(w, l, size);
    case Fast => FastIsFull(w, l); FlushOrdered(w, l);
    case All(_) => FlushOrdered(w, l);
    case CreateBackend => CreateOrdered(w, l);
    case Destroy(id) => ForgetOrdered(l, id);
    case SetLimit(_) =>
  }

  // ----- catching up -----

  ghost predicate AllGoesWell(w: World) {
    && (forall b: nat, n: nat :: w.writes(b, n))
    && (forall n: nat :: w.alloc(n))
  }

  lemma {:induction false} DeliverCompletes(w: World, b: Backend, items: seq<Item>, force: bool, allocs: nat)
    requires AllGoesWell(w)
    ensures var r := Deliver(w, b, items, force, allocs);
      forall k :: 0 <= k < |items| ==> items[k].marks + {b.id} == r.items[k].marks
    decreases items
  {
    if items != [] {
      WriteMarks(w, b, items[0], force, allocs);
      var o := WriteTo(w, b, items[0], force, allocs);
      DeliverCompletes(w, o.b, items[1..], force, o.allocs);
    }
  }

  lemma {:induction false} RoundCompletes(w: World, bs: seq<Backend>, items: seq<Item>, force: bool, allocs: nat)
    requires AllGoesWell(w)
    ensures var r := DeliverAll(w, bs, items, force, allocs);
      forall k :: 0 <= k < |items| ==> items[k].marks + Ids(bs) <= r.items[k].marks
    decreases bs
  {
    hide Deliver;
    if bs != [] {
      var o := Deliver(w, bs[0], items, force, allocs);
      DeliverCompletes(w, bs[0], items, force, allocs);
      RoundCompletes(w, bs[1..], o.items, force, o.allocs);
      assert Ids(bs) == {bs[0].id} + Ids(bs[1..]);
    }
  }

  /** Once writes succeed, one fast flush delivers everything retained to everyone, however long the
      backends had been failing before. */
  lemma CatchesUp(w: World, l: Log)
    requires Inv(l) && AllGoesWell(w) && l.backends != []
    ensures var r := FlushFast(w, l);
      forall k :: 0 <= k < |r.items| ==> r.items[k].flushed && Fully(r.items[k], r.backends)
  {
    hide Fully, DeliverAll, FlushFast, Inv, Ids, AllGoesWell;
    FastIsFull(w, l);
    RoundCompletes(w, l.backends, l.items, false, l.allocs);
    AllKeepIds(w, l.backends, l.items, false, l.allocs);
    var r := DeliverAll(w, l.backends, l.items, false, l.allocs);
    SameIds(l.backends, r.bs);
    forall k | 0 <= k < |r.items|
      ensures Fully(r.items[k], r.bs) && Fully(r.items[k].(flushed := true), r.bs)
    {
      assert l.items[k].marks + Ids(l.backends) <= r.items[k].marks;
      FullyIds(r.items[k], r.bs);
      FullyIds(r.items[k].(flushed := true), r.bs);
    }
  }

  // ----- what is sent to whom -----

  /** The items of a queue that a flush has to send to a backend: those it has not received, or all. */
  function Wanted(id: nat, items: seq<Item>, force: bool): seq<nat> {
    if items == [] then []
    else (if force || id !in items[0].marks then [items[0].id] else []) + Wanted(id, items[1..], force)
  }

  lemma {:induction false} WantedSame(id: nat, items: seq<Item>, r: seq<Item>, force: bool)
    requires |items| == |r|
    requires forall k :: 0 <= k < |r| ==> r[k].id == items[k].id && (id in r[k].marks <==> id in items[k].marks)
    ensures Wanted(id, r, force) == Wanted(id, items, force)
  {
    if items != [] { WantedSame(id, items[1..], r[1..], force); }
  }

  lemma {:induction false} DeliverSends(w: World, b: Backend, items: seq<Item>, force: bool, allocs: nat)
    requires AllGoesWell(w)
    ensures var r := Deliver(w, b, items, force, allocs);
      && r.b.id == b.id && r.b.received == b.received + Wanted(b.id, items, force)
      && forall k :: 0 <= k < |items| ==> r.items[k].id == items[k].id
    decreases items
  {
    if items != [] {
      WriteMarks(w, b, items[0], force, allocs);
      var o := WriteTo(w, b, items[0], force, allocs);
      DeliverSends(w, o.b, items[1..], force, o.allocs);
    }
  }

  lemma {:induction false} RoundSends(w: World, bs: seq<Backend>, items: seq<Item>, force: bool, allocs: nat, n: nat)
    requires AllGoesWell(w) && Distinct(bs, n)
    ensures var r := DeliverAll(w, bs, items, force, allocs);
      forall k :: 0 <= k < |bs| ==>
        r.bs[k].id == bs[k].id && r.bs[k].received == bs[k].received + Wanted(bs[k].id, items, force)
    decreases bs
  {
    hide Deliver, Wanted, AllGoesWell;
    if bs != [] {
      var o := Deliver(w, bs[0], items, force, allocs);
      DeliverSends(w, bs[0], items, force, allocs);
      DeliverCompletes(w, bs[0], items, force, allocs);
      RoundSends(w, bs[1..], o.items, force, o.allocs, n);
      forall k | 0 < k < |bs| ensures Wanted(bs[k].id, o.items, force) == Wanted(bs[k].id, items, force) {
        WantedSame(bs[k].id, items, o.items, force);
      }
    }
  }

  /** With working writes a flush sends to every backend, in order, what it has not received; a forced one
      sends everything again. */
  lemma FlushSends(w: World, l: Log, force: bool)
    requires Inv(l) && AllGoesWell(w)
    ensures var r := FlushAll(w, l, force);
      |r.backends| == |l.backends| && forall k :: 0 <= k < |l.backends| ==>
        r.backends[k].id == l.backends[k].id &&
        r.backends[k].received == l.backends[k].received + Wanted(l.backends[k].id, l.items, force)
  {
    hide DeliverAll, Wanted, AllGoesWell, Sum, Flag;
    RoundSends(w, l.backends, l.items, force, l.allocs, l.nextBackend);
  }

  /** The item with one more mark. */
  predicate Given(it: Item, r: Item, id: nat) {
    r.id == it.id && r.marks == it.marks + {id}
  }

  lemma FlaggingStep(w: World, b: Backend, items: seq<Item>, bs: seq<Backend>, allocs: nat)
    requires AllGoesWell(w) && items != [] && b.id !in items[0].marks
    ensures var o := WriteTo(w, b, items[0], false, allocs);
      var r := DeliverFlagging(w, o.b, items[1..], bs, o.allocs);
      var all := DeliverFlagging(w, b, items, bs, allocs);
      && o.b.id == b.id && o.b.received == b.received + [items[0].id]
      && all.b == r.b && all.items != [] && all.items[1..] == r.items && Given(items[0], all.items[0], b.id)
  {
    hide Fully;
  }

  /** Where there is no backend, a flush sets no flag. */
  lemma NobodyThere(w: World, l: Log, force: bool)
    requires l.backends == []
    ensures var r := FlushAll(w, l, force); forall k :: 0 <= k < |r.items| ==> !r.items[k].flushed
  {
  }

  lemma {:induction false} FlaggingSends(w: World, b: Backend, items: seq<Item>, bs: seq<Backend>, allocs: nat)
    requires AllGoesWell(w) && forall k :: 0 <= k < |items| ==> b.id !in items[k].marks
    ensures var r := DeliverFlagging(w, b, items, bs, allocs);
      && r.b.id == b.id && r.b.received == b.received + Everything(items)
      && forall k :: 0 <= k < |items| ==> Given(items[k], r.items[k], b.id)
    decreases items
  {
    hide DeliverFlagging, WriteTo, Given, AllGoesWell;
    if items == [] {
      NothingSent(w, b, bs, allocs);
    } else {
      FlaggingStep(w, b, items, bs, allocs);
      var o := WriteTo(w, b, items[0], false, allocs);
      FlaggingSends(w, o.b, items[1..], bs, o.allocs);
      assert b.received + [items[0].id] + Everything(items[1..]) == b.received + Everything(items);
      var r := DeliverFlagging(w, b, items, bs, allocs).items;
      forall k | 0 <= k < |items| ensures Given(items[k], r[k], b.id) {
        if k > 0 { assert items[k] == items[1..][k - 1] && r[k] == r[1..][k - 1]; }
      }
    }
  }

  lemma NothingSent(w: World, b: Backend, bs: seq<Backend>, allocs: nat)
    ensures DeliverFlagging(w, b, [], bs, allocs).b == b
  {
  }

  function Everything(items: seq<Item>): (r: seq<nat>)
    ensures |r| == |items| && forall k :: 0 <= k < |r| ==> r[k] == items[k].id
  {
    if items == [] then [] else [items[0].id] + Everything(items[1..])
  }

  /** With working writes a new backend comes last and has received all retained items, in order; the others
      stay as they are. */
  lemma CreateSends(w: World, l: Log)
    requires Inv(l) && AllGoesWell(w)
    ensures var r := Create(w, l);
      && |r.backends| == |l.backends| + 1 && r.backends[..|l.backends|] == l.backends
      && r.backends[|l.backends|].id == l.nextBackend && r.backends[|l.backends|].received == Everything(l.items)
      && |r.items| == |l.items| && forall k :: 0 <= k < |l.items| ==>
           r.items[k].id == l.items[k].id && r.items[k].marks == l.items[k].marks + {l.nextBackend}
  {
    hide Everything, Sum, Fully, DeliverFlagging;
    var id, items := l.nextBackend, Unflag(l.items);
    var b := Backend(id, 0, []);
    assert id !in Ids(l.backends);
    forall k | 0 <= k < |items| ensures id !in items[k].marks { assert items[k].marks == l.items[k].marks; }
    FlaggingSends(w, b, items, l.backends + [b], l.allocs + 1);
    SameEverything(l.items, items);
  }

  lemma {:induction false} SameEverything(items: seq<Item>, r: seq<Item>)
    requires |items| == |r| && forall k :: 0 <= k < |r| ==> r[k].id == items[k].id
    ensures Everything(r) == Everything(items)
  {
    if items != [] { SameEverything(items[1..], r[1..]); }
  }
}
