/** The log store: a bounded queue of items that is delivered to any number of backends, each of
    which may fail at any write. Steps of the store as functions on its state. */
module Log {
  /** What the outside world answers: whether a backend's n-th write attempt succeeds, and whether
      the n-th list allocation succeeds. */
  datatype World = World(writes: (nat, nat) -> bool, alloc: nat -> bool)

  /** `marks` holds the backends that have received the item. */
  datatype Item = Item(id: nat, size: nat, marks: set<nat>, flushed: bool)

  /** A registered backend, with the ids of the items it has accepted so far. */
  datatype Backend = Backend(id: nat, attempts: nat, received: seq<nat>)

  datatype Log = Log(
    items: seq<Item>, backends: seq<Backend>, cur: nat, limit: nat,
    nextItem: nat, nextBackend: nat, allocs: nat)

  const INIT := Log([], [], 0, 1024 * 1024, 0, 0, 0)

  predicate Fully(it: Item, bs: seq<Backend>) {
    bs != [] && forall i :: 0 <= i < |bs| ==> bs[i].id in it.marks
  }

  // ----- delivery -----

  /** One backend and the items it was offered, after the offer. */
  datatype Offer = Offer(b: Backend, items: seq<Item>, allocs: nat, ok: bool)

  /** Offer one item to one backend: skipped when already delivered, unless forced. The mark is set
      before the write and taken back when the write fails. */
  function WriteTo(w: World, b: Backend, it: Item, force: bool, allocs: nat): Offer {
    var marked := b.id in it.marks;
    if marked && !force then Offer(b, [it], allocs, true)
    else if !marked && !w.alloc(allocs) then Offer(b, [it], allocs + 1, false)
    else
      var a := if marked then allocs else allocs + 1;
      var tried := b.(attempts := b.attempts + 1);
      if w.writes(b.id, b.attempts)
      then Offer(tried.(received := b.received + [it.id]), [it.(marks := it.marks + {b.id})], a, true)
      else Offer(tried, [it], a, false)
  }

  /** Offer items in order until one is not taken. */
  function Deliver(w: World, b: Backend, items: seq<Item>, force: bool, allocs: nat): (r: Offer)
    ensures |r.items| == |items|
    decreases items
  {
    if items == [] then Offer(b, [], allocs, true)
    else
      var o := WriteTo(w, b, items[0], force, allocs);
      if !o.ok then Offer(o.b, o.items + items[1..], o.allocs, false)
      else
        var r := Deliver(w, o.b, items[1..], force, o.allocs);
        r.(items := o.items + r.items)
  }

  datatype Round = Round(bs: seq<Backend>, items: seq<Item>, allocs: nat)

  /** Every backend in turn. */
  function DeliverAll(w: World, bs: seq<Backend>, items: seq<Item>, force: bool, allocs: nat): (r: Round)
    ensures |r.items| == |items| && |r.bs| == |bs|
  {
    if bs == [] then Round([], items, allocs)
    else
      var o := Deliver(w, bs[0], items, force, allocs);
      var r := DeliverAll(w, bs[1..], o.items, force, o.allocs);
      r.(bs := [o.b] + r.bs)
  }

  /** Recompute the flags. */
  function Flag(items: seq<Item>, bs: seq<Backend>): (r: seq<Item>)
    ensures |r| == |items|
    ensures forall i :: 0 <= i < |r| ==> r[i] == items[i].(flushed := Fully(items[i], bs))
  {
    if items == [] then [] else [items[0].(flushed := Fully(items[0], bs))] + Flag(items[1..], bs)
  }

  function Sum(items: seq<Item>): nat {
    if items == [] then 0 else items[0].size + Sum(items[1..])
  }

  function FlushAll(w: World, l: Log, force: bool): Log {
    var r := DeliverAll(w, l.backends, l.items, force, l.allocs);
    l.(items := Flag(r.items, r.bs), backends := r.bs, cur := Sum(l.items), allocs := r.allocs)
  }

  /** Index of the first item after the last flagged one. */
  function Unflushed(items: seq<Item>): (s: nat)
    ensures s <= |items|
    ensures s > 0 ==> items[s - 1].flushed
    ensures forall i :: s <= i < |items| ==> !items[i].flushed
  {
    if items == [] || items[|items| - 1].flushed then |items|
    else Unflushed(items[..|items| - 1])
  }

  function FlushFast(w: World, l: Log): Log {
    var s := Unflushed(l.items);
    if s == |l.items| then l
    else
      var r := DeliverAll(w, l.backends, l.items[s..], false, l.allocs);
      l.(items := l.items[..s] + Flag(r.items, r.bs), backends := r.bs, allocs := r.allocs)
  }

  // ----- the queue -----

  /** Drop the oldest items while the queue is over its limit. */
  function Evict(l: Log): Log
    requires l.cur == Sum(l.items)
    decreases |l.items|
  {
    if l.cur > l.limit && l.items != []
    then Evict(l.(items := l.items[1..], cur := l.cur - l.items[0].size))
    else l
  }

  /** A new item is refused when it is as large as the limit or memory is short. */
  function Append(w: World, l: Log, size: nat): Log
    requires l.cur == Sum(l.items)
  {
    SumEvict(l);
    var e := Evict(l);
    if size >= e.limit then e
    else if !w.alloc(e.allocs) then e.(allocs := e.allocs + 1)
    else
      var it := Item(e.nextItem, size, {}, false);
      SumSnoc(e.items, it);
      Evict(e.(items := e.items + [it], cur := e.cur + size, nextItem := e.nextItem + 1, allocs := e.allocs + 1))
  }

  lemma {:induction false} SumSnoc(items: seq<Item>, it: Item)
    ensures Sum(items + [it]) == Sum(items) + it.size
  {
    if items == [] {
      assert ([it])[1..] == [];
    } else {
      SumSnoc(items[1..], it);
      assert (items + [it])[1..] == items[1..] + [it];
    }
  }

  lemma {:induction false} SumEvict(l: Log)
    requires l.cur == Sum(l.items)
    ensures var e := Evict(l); e.cur == Sum(e.items) <= e.limit
    decreases |l.items|
  {
    if l.cur > l.limit && l.items != [] {
      SumEvict(l.(items := l.items[1..], cur := l.cur - l.items[0].size));
    }
  }

  // ----- backends -----

  function Unflag(items: seq<Item>): (r: seq<Item>)
    ensures |r| == |items|
    ensures forall i :: 0 <= i < |r| ==> r[i] == items[i].(flushed := false)
  {
    if items == [] then [] else [items[0].(flushed := false)] + Unflag(items[1..])
  }

  /** As `Deliver` without force, but the flag of every item offered is recomputed on the way. */
  function DeliverFlagging(w: World, b: Backend, items: seq<Item>, bs: seq<Backend>, allocs: nat): (r: Offer)
    ensures |r.items| == |items|
    decreases items
  {
    if items == [] then Offer(b, [], allocs, true)
    else
      var o := WriteTo(w, b, items[0], false, allocs);
      var it := o.items[0].(flushed := Fully(o.items[0], bs));
      if !o.ok then Offer(o.b, [it] + items[1..], o.allocs, false)
      else
        var r := DeliverFlagging(w, o.b, items[1..], bs, o.allocs);
        r.(items := [it] + r.items)
  }

  /** A new backend is registered and catches up. If it cannot be registered, it is destroyed. */
  function Create(w: World, l: Log): Log {
    var id := l.nextBackend;
    if !w.alloc(l.allocs) then
      Forget(l.(nextBackend := id + 1, allocs := l.allocs + 1), id)
    else
      var b := Backend(id, 0, []);
      var bs := l.backends + [b];
      var o := DeliverFlagging(w, b, Unflag(l.items), bs, l.allocs + 1);
      l.(backends := l.backends + [o.b], items := o.items, cur := Sum(l.items),
         nextBackend := id + 1, allocs := o.allocs)
  }

  function Without(bs: seq<Backend>, id: nat): (r: seq<Backend>)
    ensures forall b :: b in r <==> b in bs && b.id != id
    ensures |r| <= |bs|
  {
    if bs == [] then [] else if bs[0].id == id then Without(bs[1..], id) else [bs[0]] + Without(bs[1..], id)
  }

  function Unmark(items: seq<Item>, id: nat): (r: seq<Item>)
    ensures |r| == |items|
    ensures forall i :: 0 <= i < |r| ==> r[i] == items[i].(marks := items[i].marks - {id})
  {
    if items == [] then [] else [items[0].(marks := items[0].marks - {id})] + Unmark(items[1..], id)
  }

  /** Destroying a backend takes its marks off every item and recomputes the flags. */
  function Forget(l: Log, id: nat): Log {
    var bs := Without(l.backends, id);
    l.(backends := bs, items := Flag(Unmark(l.items, id), bs))
  }

  // ----- runs -----

  datatype Step =
    | AppendItem(size: nat)
    | Fast
    | All(force: bool)
    | CreateBackend
    | Destroy(id: nat)
    | SetLimit(limit: nat)

  function Next(w: World, l: Log, s: Step): Log
    requires l.cur == Sum(l.items)
  {
    match s
    case AppendItem(size) => Append(w, l, size)
    case Fast => FlushFast(w, l)
    case All(force) => FlushAll(w, l, force)
    case CreateBackend => Create(w, l)
    case Destroy(id) => Forget(l, id)
    case SetLimit(limit) => l.(limit := limit)
  }
}
