/** What every run of the log store keeps: each backend has received a prefix of the queue, flags
    tell the truth, and the fast flush is the full flush. */
module LogRuns {
  import opened Log

  function Ids(bs: seq<Backend>): set<nat> {
    set b | b in bs :: b.id
  }

  /** What later items have been delivered to, earlier ones have been delivered to as well. */
  ghost predicate Prefixes(items: seq<Item>) {
    forall i, j :: 0 <= i < j < |items| ==> items[j].marks <= items[i].marks
  }

  /** Flags are set from the front and only on items that all backends have. */
  ghost predicate Truthful(items: seq<Item>, bs: seq<Backend>) {
    && (forall i :: 0 <= i < |items| && items[i].flushed ==> Fully(items[i], bs))
    && (forall i, j :: 0 <= i < j < |items| && items[j].flushed ==> items[i].flushed)
  }

  ghost predicate Numbered(items: seq<Item>, n: nat) {
    && (forall i, j :: 0 <= i < j < |items| ==> items[i].id < items[j].id)
    && (forall i :: 0 <= i < |items| ==> items[i].id < n)
  }

  ghost predicate Known(items: seq<Item>, bs: seq<Backend>) {
    forall i :: 0 <= i < |items| ==> items[i].marks <= Ids(bs)
  }

  ghost predicate Distinct(bs: seq<Backend>, n: nat) {
    && (forall i, j :: 0 <= i < j < |bs| ==> bs[i].id != bs[j].id)
    && (forall i :: 0 <= i < |bs| ==> bs[i].id < n)
  }

  ghost predicate Inv(l: Log) {
    && l.cur == Sum(l.items)
    && Numbered(l.items, l.nextItem)
    && Distinct(l.backends, l.nextBackend)
    && Known(l.items, l.backends)
    && Prefixes(l.items)
    && Truthful(l.items, l.backends)
  }

  lemma FullyIds(it: Item, bs: seq<Backend>)
    ensures Fully(it, bs) <==> bs != [] && Ids(bs) <= it.marks
  {
    if bs != [] && Ids(bs) <= it.marks {
      forall i | 0 <= i < |bs| ensures bs[i].id in it.marks { assert bs[i].id in Ids(bs); }
    }
  }

  // ----- the fast flush -----

  lemma {:induction false} DeliverSkips(w: World, b: Backend, p: seq<Item>, s: seq<Item>, allocs: nat)
    requires forall i :: 0 <= i < |p| ==> b.id in p[i].marks
    ensures var r := Deliver(w, b, s, false, allocs);
      Deliver(w, b, p + s, false, allocs) == r.(items := p + r.items)
    decreases p
  {
    if p == [] {
      assert p + s == s;
    } else {
      DeliverSkips(w, b, p[1..], s, allocs);
      assert (p + s)[1..] == p[1..] + s;
    }
  }

  lemma {:induction false} DeliverKeepsId(w: World, b: Backend, items: seq<Item>, force: bool, allocs: nat)
    ensures Deliver(w, b, items, force, allocs).b.id == b.id
    decreases items
  {
    if items != [] {
      var o := WriteTo(w, b, items[0], force, allocs);
      if o.ok { DeliverKeepsId(w, o.b, items[1..], force, o.allocs); }
    }
  }

  lemma {:induction false} AllSkip(w: World, bs: seq<Backend>, p: seq<Item>, s: seq<Item>, allocs: nat)
    requires forall i, k :: 0 <= i < |p| && 0 <= k < |bs| ==> bs[k].id in p[i].marks
    ensures var r := DeliverAll(w, bs, s, false, allocs);
      DeliverAll(w, bs, p + s, false, allocs) == r.(items := p + r.items)
    decreases bs
  {
    if bs != [] {
      var o := Deliver(w, bs[0], s, false, allocs);
      DeliverSkips(w, bs[0], p, s, allocs);
      AllSkip(w, bs[1..], p, o.items, o.allocs);
    }
  }

  lemma {:induction false} AllKeepIds(w: World, bs: seq<Backend>, items: seq<Item>, force: bool, allocs: nat)
    ensures var r := DeliverAll(w, bs, items, force, allocs);
      forall k :: 0 <= k < |bs| ==> r.bs[k].id == bs[k].id
    decreases bs
  {
    if bs != [] {
      var o := Deliver(w, bs[0], items, force, allocs);
      DeliverKeepsId(w, bs[0], items, force, allocs);
      AllKeepIds(w, bs[1..], o.items, force, o.allocs);
    }
  }

  lemma FlagAppend(p: seq<Item>, s: seq<Item>, bs: seq<Backend>)
    ensures Flag(p + s, bs) == Flag(p, bs) + Flag(s, bs)
  {
    assert |Flag(p + s, bs)| == |p| + |s|;
  }

  lemma FlaggedPrefix(l: Log)
    requires Inv(l)
    ensures var s := Unflushed(l.items);
      forall i :: 0 <= i < s ==> l.items[i].flushed && Fully(l.items[i], l.backends)
  {
    var s := Unflushed(l.items);
    forall i | 0 <= i < s ensures l.items[i].flushed {
      if i < s - 1 { assert l.items[s - 1].flushed; }
    }
  }

  /** Scanning only the suffix after the last flagged item makes exactly the deliveries of a full
      flush, and leaves exactly the same marks, flags and size. */
  lemma FastIsFull(w: World, l: Log)
    requires Inv(l)
    ensures FlushFast(w, l) == FlushAll(w, l, false)
  {
    hide *;
    FlaggedPrefix(l);
    UnflushedWithin(l.items);
    var s := Unflushed(l.items);
    var p, t := l.items[..s], l.items[s..];
    assert l.items == p + t;
    FlushParts(w, l, p, t);
    FullyMarked(p, l.backends);
    AllSkip(w, l.backends, p, t, l.allocs);
    AllKeepIds(w, l.backends, t, false, l.allocs);
    var r := DeliverAll(w, l.backends, t, false, l.allocs);
    StillFlagged(p, l.backends, r.bs);
    FlagAppend(p, r.items, r.bs);
    if t == [] { NothingToDo(w, l.backends, l.allocs); }
  }

  lemma UnflushedWithin(items: seq<Item>)
    ensures Unflushed(items) <= |items|
  {
  }

  /** Both flushes where the queue is `p + t` and `t` is its part behind the last flagged item. */
  lemma FlushParts(w: World, l: Log, p: seq<Item>, t: seq<Item>)
    requires Inv(l) && l.items == p + t && |p| == Unflushed(l.items)
    ensures FlushAll(w, l, false) ==
      (var r := DeliverAll(w, l.backends, p + t, false, l.allocs);
       l.(items := Flag(r.items, r.bs), backends := r.bs, allocs := r.allocs))
    ensures FlushFast(w, l) ==
      if t == [] then l
      else
        var r := DeliverAll(w, l.backends, t, false, l.allocs);
        l.(items := p + Flag(r.items, r.bs), backends := r.bs, allocs := r.allocs)
  {
    hide DeliverAll, Flag, Numbered, Prefixes, Truthful, Known, Distinct, Sum;
    assert (p + t)[|p|..] == t && (p + t)[..|p|] == p;
  }

  lemma FullyMarked(p: seq<Item>, bs: seq<Backend>)
    requires forall i :: 0 <= i < |p| ==> Fully(p[i], bs)
    ensures forall i, k :: 0 <= i < |p| && 0 <= k < |bs| ==> bs[k].id in p[i].marks
  {
  }

  /** Items that every backend has keep their flags. */
  lemma StillFlagged(p: seq<Item>, bs: seq<Backend>, now: seq<Backend>)
    requires forall i :: 0 <= i < |p| ==> p[i].flushed && Fully(p[i], bs)
    requires |now| == |bs| && forall k :: 0 <= k < |bs| ==> now[k].id == bs[k].id
    ensures Flag(p, now) == p
  {
  }

  lemma {:induction false} NothingToDo(w: World, bs: seq<Backend>, allocs: nat)
    ensures DeliverAll(w, bs, [], false, allocs) == Round(bs, [], allocs)
  {
    if bs != [] { NothingToDo(w, bs[1..], allocs); }
  }

  // ----- every step keeps the invariant -----

  /** `r` is `items` with `id` added to the marks of the first `n`. */
  ghost predicate Marked(items: seq<Item>, r: seq<Item>, id: nat, n: nat) {
    && n <= |items| == |r|
    && forall k :: 0 <= k < |items| ==>
         r[k] == if k < n then items[k].(marks := items[k].marks + {id}) else items[k]
  }

  /** How many of the items one backend ends up having taken, from the front. */
  function Taken(w: World, b: Backend, items: seq<Item>, force: bool, allocs: nat): nat
    decreases items
  {
    if items == [] then 0
    else
      var o := WriteTo(w, b, items[0], force, allocs);
      if o.ok then 1 + Taken(w, o.b, items[1..], force, o.allocs) else 0
  }

  lemma WriteMarks(w: World, b: Backend, it: Item, force: bool, allocs: nat)
    ensures var o := WriteTo(w, b, it, force, allocs);
      && o.b.id == b.id
      && o.items == [if o.ok then it.(marks := it.marks + {b.id}) else it]
  {
    if b.id in it.marks { assert it.marks + {b.id} == it.marks; }
  }

  lemma {:induction false} DeliverMarks(w: World, b: Backend, items: seq<Item>, force: bool, allocs: nat)
    ensures Marked(items, Deliver(w, b, items, force, allocs).items, b.id, Taken(w, b, items, force, allocs))
    decreases items
  {
    hide WriteTo;
    if items != [] {
      WriteMarks(w, b, items[0], force, allocs);
      var o := WriteTo(w, b, items[0], force, allocs);
      if o.ok { DeliverMarks(w, o.b, items[1..], force, o.allocs); }
    }
  }

  /** The queue without its flags: what delivery keeps. */
  ghost predicate Queue(items: seq<Item>, known: set<nat>, n: nat, sum: nat) {
    && Numbered(items, n)
    && Prefixes(items)
    && (forall i :: 0 <= i < |items| ==> items[i].marks <= known)
    && Sum(items) == sum
  }

  lemma MarkedQueue(items: seq<Item>, r: seq<Item>, id: nat, k: nat, known: set<nat>, n: nat, sum: nat)
    requires Queue(items, known, n, sum) && Marked(items, r, id, k) && id in known
    ensures Queue(r, known, n, sum)
  {
    hide Sum;
    SameSizes(items, r);
    forall i, j | 0 <= i < j < |r| ensures r[j].marks <= r[i].marks {
      assert items[j].marks <= items[i].marks;
    }
  }

  lemma {:induction false} SameSizes(items: seq<Item>, r: seq<Item>)
    requires |items| == |r| && forall k :: 0 <= k < |r| ==> r[k].size == items[k].size
    ensures Sum(r) == Sum(items)
  {
    if items != [] { SameSizes(items[1..], r[1..]); }
  }

  lemma {:induction false} AllQueue(w: World, bs: seq<Backend>, items: seq<Item>, force: bool, allocs: nat,
                                    known: set<nat>, n: nat, sum: nat)
    requires Queue(items, known, n, sum) && Ids(bs) <= known
    ensures Queue(DeliverAll(w, bs, items, force, allocs).items, known, n, sum)
    decreases bs
  {
    hide Queue, Deliver;
    if bs != [] {
      var o := Deliver(w, bs[0], items, force, allocs);
      DeliverMarks(w, bs[0], items, force, allocs);
      assert bs[0].id in Ids(bs);
      MarkedQueue(items, o.items, bs[0].id, Taken(w, bs[0], items, force, allocs), known, n, sum);
      assert Ids(bs[1..]) <= Ids(bs);
      AllQueue(w, bs[1..], o.items, force, o.allocs, known, n, sum);
    }
  }

  lemma SameIds(bs: seq<Backend>, bs': seq<Backend>)
    requires |bs| == |bs'| && forall k :: 0 <= k < |bs| ==> bs'[k].id == bs[k].id
    ensures Ids(bs') == Ids(bs)
    ensures forall n: nat :: Distinct(bs, n) ==> Distinct(bs', n)
    ensures forall it: Item :: Fully(it, bs') == Fully(it, bs)
  {
    forall x | x in Ids(bs) ensures x in Ids(bs') {
      var k :| 0 <= k < |bs| && bs[k].id == x;
      assert bs'[k] in bs';
    }
    forall x | x in Ids(bs') ensures x in Ids(bs) {
      var k :| 0 <= k < |bs| && bs'[k].id == x;
      assert bs[k] in bs;
    }
  }

  /** Recomputed flags are truthful on a queue of prefixes. */
  lemma FlagQueue(items: seq<Item>, bs: seq<Backend>, n: nat, sum: nat)
    requires Queue(items, Ids(bs), n, sum)
    ensures var r := Flag(items, bs);
      Numbered(r, n) && Prefixes(r) && Known(r, bs) && Sum(r) == sum && Truthful(r, bs)
  {
    hide Sum, Ids;
    var r := Flag(items, bs);
    SameSizes(items, r);
    forall i, j | 0 <= i < j < |r| && r[j].flushed ensures r[i].flushed {
      assert items[j].marks <= items[i].marks;
    }
  }

  lemma InvQueue(l: Log)
    requires Inv(l)
    ensures Queue(l.items, Ids(l.backends), l.nextItem, l.cur)
  {
  }

  lemma FlushKeeps(w: World, l: Log, force: bool)
    requires Inv(l)
    ensures Inv(FlushAll(w, l, force))
  {
    hide Queue, Sum, Ids, Prefixes, Known, Truthful, Numbered, Distinct, DeliverAll, Fully;
    var r := DeliverAll(w, l.backends, l.items, force, l.allocs);
    InvQueue(l);
    AllQueue(w, l.backends, l.items, force, l.allocs, Ids(l.backends), l.nextItem, l.cur);
    AllKeepIds(w, l.backends, l.items, force, l.allocs);
    SameIds(l.backends, r.bs);
    FlagQueue(r.items, r.bs, l.nextItem, l.cur);
  }

  lemma {:induction false} EvictKeeps(l: Log)
    requires Inv(l)
    ensures Inv(Evict(l))
    decreases |l.items|
  {
    if l.cur > l.limit && l.items != [] {
      EvictKeeps(l.(items := l.items[1..], cur := l.cur - l.items[0].size));
    }
  }

  /** Eviction takes the fewest oldest items that bring the queue within its limit. */
  lemma {:induction false} EvictFewest(l: Log) returns (k: nat)
    requires l.cur == Sum(l.items)
    ensures k <= |l.items| && Evict(l) == l.(items := l.items[k..], cur := Sum(l.items[k..]))
    ensures Sum(l.items[k..]) <= l.limit && (k > 0 ==> Sum(l.items[k - 1..]) > l.limit)
    decreases |l.items|
  {
    assert l.items[0..] == l.items;
    if l.cur > l.limit && l.items != [] {
      var m := l.(items := l.items[1..], cur := l.cur - l.items[0].size);
      var j := EvictFewest(m);
      k := j + 1;
      assert m.items[j..] == l.items[k..];
      if j > 0 { assert m.items[j - 1..] == l.items[j..]; }
    } else {
      k := 0;
    }
  }

  /** The fewest oldest items that have to go until `extra` more bytes are within the limit. */
  ghost predicate Fewest(items: seq<Item>, extra: nat, limit: nat, k: nat) {
    k <= |items| && Within(items, extra, limit, k) && forall j: nat :: j < k ==> !Within(items, extra, limit, j)
  }

  predicate Within(items: seq<Item>, extra: nat, limit: nat, k: nat)
    requires k <= |items|
  {
    Sum(items[k..]) + extra <= limit
  }

  lemma {:induction false} SumFalls(items: seq<Item>, j: nat, k: nat)
    requires j <= k <= |items|
    ensures Sum(items[k..]) <= Sum(items[j..])
    decreases k - j
  {
    if j < k {
      assert items[j..][1..] == items[j + 1..];
      SumFalls(items, j + 1, k);
    }
  }

  lemma FewestIs(items: seq<Item>, extra: nat, limit: nat, k: nat)
    requires k <= |items| && Sum(items[k..]) + extra <= limit && (k > 0 ==> Sum(items[k - 1..]) + extra > limit)
    ensures Fewest(items, extra, limit, k)
  {
    forall j: nat | j < k ensures !Within(items, extra, limit, j) { SumFalls(items, j, k - 1); }
  }

  /** The item stands last in the queue, with its size, a new number and no marks, behind the old items
      without the fewest oldest ones that had to go to make room. */
  ghost predicate Joins(l: Log, r: Log, size: nat) {
    exists k: nat :: JoinsAt(l, r, size, k)
  }

  ghost predicate JoinsAt(l: Log, r: Log, size: nat, k: nat) {
    Fewest(l.items, size, l.limit, k) &&
    r == l.(items := l.items[k..] + [Item(l.nextItem, size, {}, false)], cur := Sum(l.items[k..]) + size,
            nextItem := l.nextItem + 1, allocs := l.allocs + 1)
  }

  /** Only those items are gone that exceeded the limit. */
  ghost predicate StaysOut(l: Log, r: Log, allocs: nat) {
    exists k: nat :: StaysOutAt(l, r, allocs, k)
  }

  ghost predicate StaysOutAt(l: Log, r: Log, allocs: nat, k: nat) {
    Fewest(l.items, 0, l.limit, k) && r == l.(items := l.items[k..], cur := Sum(l.items[k..]), allocs := allocs)
  }

  /** An append succeeds exactly if the item is smaller than the limit and memory suffices. */
  lemma AppendExactly(w: World, l: Log, size: nat)
    requires l.cur == Sum(l.items)
    ensures var r := Append(w, l, size);
      if size < l.limit && w.alloc(l.allocs)
      then Joins(l, r, size) else StaysOut(l, r, if size < l.limit then l.allocs + 1 else l.allocs)
  {
    hide Sum, Evict;
    var e := Evict(l);
    SumEvict(l);
    var k := EvictFewest(l);
    FewestIs(l.items, 0, l.limit, k);
    var r := Append(w, l, size);
    if size < l.limit && w.alloc(l.allocs) {
      var it := Item(l.nextItem, size, {}, false);
      SumSnoc(e.items, it);
      var m := l.(items := e.items + [it], cur := e.cur + size, nextItem := l.nextItem + 1, allocs := l.allocs + 1);
      var j := EvictFewest(m);
      Pushed(l.items, k, it, l.limit, j);
      FewestIs(l.items, size, l.limit, k + j);
      assert e.items == l.items[k..];
      assert JoinsAt(l, r, size, k + j);
    } else {
      assert StaysOutAt(l, r, if size < l.limit then l.allocs + 1 else l.allocs, k);
    }
  }

  /** The second eviction drops no more than the items in front of the new one. */
  lemma Pushed(items: seq<Item>, k: nat, it: Item, limit: nat, j: nat)
    requires k <= |items| && it.size < limit && (k > 0 ==> Sum(items[k - 1..]) > limit)
    requires var m := items[k..] + [it];
      j <= |m| && Sum(m[j..]) <= limit && (j > 0 ==> Sum(m[j - 1..]) > limit)
    ensures k + j <= |items| && (items[k..] + [it])[j..] == items[k + j..] + [it]
    ensures Sum(items[k + j..] + [it]) == Sum(items[k + j..]) + it.size <= limit
    ensures k + j > 0 ==> Sum(items[k + j - 1..]) + it.size > limit
  {
    hide Sum;
    var m := items[k..] + [it];
    LastSum(it);
    LastFits(m, it, limit, j);
    assert m[j..] == items[k + j..] + [it];
    SumSnoc(items[k + j..], it);
    if j > 0 {
      assert m[j - 1..] == items[k + j - 1..] + [it];
      SumSnoc(items[k + j - 1..], it);
    }
  }

  lemma LastFits(m: seq<Item>, it: Item, limit: nat, j: nat)
    requires m != [] && m[|m| - 1] == it && it.size < limit && j <= |m| && (j > 0 ==> Sum(m[j - 1..]) > limit)
    ensures j < |m|
  {
    LastSum(it);
    assert m[|m| - 1..] == [it];
  }

  lemma LastSum(it: Item)
    ensures Sum([it]) == it.size
  {
    assert [it][1..] == [];
  }

  lemma PushKeeps(l: Log, size: nat, allocs: nat)
    requires Inv(l)
    ensures var it := Item(l.nextItem, size, {}, false);
      Inv(l.(items := l.items + [it], cur := l.cur + size, nextItem := l.nextItem + 1, allocs := allocs))
  {
    SumSnoc(l.items, Item(l.nextItem, size, {}, false));
  }

  lemma AppendKeeps(w: World, l: Log, size: nat)
    requires Inv(l)
    ensures Inv(Append(w, l, size))
  {
    hide Inv, Evict;
    KeepsSum(l);
    EvictKeeps(l);
    var e := Evict(l);
    KeepsSum(e);
    if size < e.limit && w.alloc(e.allocs) {
      PushKeeps(e, size, e.allocs + 1);
      var it := Item(e.nextItem, size, {}, false);
      EvictKeeps(e.(items := e.items + [it], cur := e.cur + size, nextItem := e.nextItem + 1,
                    allocs := e.allocs + 1));
    } else {
      AllocsIrrelevant(e, e.allocs + 1);
    }
  }

  lemma KeepsSum(l: Log)
    requires Inv(l)
    ensures l.cur == Sum(l.items)
  {
  }

  lemma AllocsIrrelevant(l: Log, allocs: nat)
    requires Inv(l)
    ensures Inv(l.(allocs := allocs))
  {
  }

  lemma WithoutKeeps(bs: seq<Backend>, id: nat, n: nat)
    requires Distinct(bs, n)
    ensures Distinct(Without(bs, id), n) && Ids(Without(bs, id)) == Ids(bs) - {id}
  {
    hide Distinct;
    WithoutDistinct(bs, id, n);
    var r := Without(bs, id);
    forall x | x in Ids(bs) - {id} ensures x in Ids(r) {
      var b :| b in bs && b.id == x;
      assert b in r;
    }
  }

  lemma DistinctTail(bs: seq<Backend>, n: nat)
    requires Distinct(bs, n) && bs != []
    ensures Distinct(bs[1..], n) && bs[0].id < n && forall c :: c in bs[1..] ==> c.id != bs[0].id
  {
    var t := bs[1..];
    forall i, j | 0 <= i < j < |t| ensures t[i].id != t[j].id { assert t[i] == bs[i + 1] && t[j] == bs[j + 1]; }
    forall i | 0 <= i < |t| ensures t[i].id < n && t[i].id != bs[0].id { assert t[i] == bs[i + 1]; }
  }

  lemma DistinctCons(b: Backend, bs: seq<Backend>, n: nat)
    requires Distinct(bs, n) && b.id < n && forall c :: c in bs ==> c.id != b.id
    ensures Distinct([b] + bs, n)
  {
    var all := [b] + bs;
    forall i, j | 0 <= i < j < |all| ensures all[i].id != all[j].id {
      assert all[j] == bs[j - 1];
      if i > 0 { assert all[i] == bs[i - 1]; }
    }
    forall i | 0 <= i < |all| ensures all[i].id < n { if i > 0 { assert all[i] == bs[i - 1]; } }
  }

  lemma {:induction false} WithoutDistinct(bs: seq<Backend>, id: nat, n: nat)
    requires Distinct(bs, n)
    ensures Distinct(Without(bs, id), n)
  {
    hide Distinct;
    if bs == [] {
      NoBackends(n);
    } else {
      DistinctTail(bs, n);
      WithoutDistinct(bs[1..], id, n);
      if bs[0].id != id { DistinctCons(bs[0], Without(bs[1..], id), n); }
    }
  }

  lemma NoBackends(n: nat)
    ensures Distinct([], n)
  {
  }

  lemma ForgetKeeps(l: Log, id: nat)
    requires Inv(l)
    ensures Inv(Forget(l, id))
  {
    var bs := Without(l.backends, id);
    WithoutKeeps(l.backends, id, l.nextBackend);
    UnmarkQueue(l.items, id, Ids(l.backends), l.nextItem, l.cur);
    FlagQueue(Unmark(l.items, id), bs, l.nextItem, l.cur);
  }

  lemma UnmarkQueue(items: seq<Item>, id: nat, known: set<nat>, n: nat, sum: nat)
    requires Queue(items, known, n, sum)
    ensures Queue(Unmark(items, id), known - {id}, n, sum)
  {
    hide Sum;
    SameSizes(items, Unmark(items, id));
    forall i, j | 0 <= i < j < |items| ensures items[j].marks - {id} <= items[i].marks - {id} {
      assert items[j].marks <= items[i].marks;
    }
  }

  /** Catching up is an ordinary delivery; the items offered get their flags. */
  lemma {:induction false} FlaggingDelivers(w: World, b: Backend, items: seq<Item>, bs: seq<Backend>, allocs: nat)
    ensures var r, d := DeliverFlagging(w, b, items, bs, allocs), Deliver(w, b, items, false, allocs);
      && r.b == d.b && r.allocs == d.allocs && r.ok == d.ok
      && forall k :: 0 <= k < |items| ==>
           r.items[k] == if k <= Taken(w, b, items, false, allocs)
                         then d.items[k].(flushed := Fully(d.items[k], bs)) else items[k]
    decreases items
  {
    hide WriteTo, Fully;
    if items != [] {
      WriteMarks(w, b, items[0], false, allocs);
      var o := WriteTo(w, b, items[0], false, allocs);
      if o.ok { FlaggingDelivers(w, o.b, items[1..], bs, o.allocs); }
    }
  }

  lemma CreateKeeps(w: World, l: Log)
    requires Inv(l)
    ensures Inv(Create(w, l))
  {
    hide Queue, Sum, Ids, Prefixes, Known, Truthful, Numbered, Distinct, Fully, Deliver, DeliverFlagging, Taken, Marked;
    var id := l.nextBackend;
    if !w.alloc(l.allocs) {
      MoreBackends(l, l.allocs + 1);
      ForgetKeeps(l.(nextBackend := id + 1, allocs := l.allocs + 1), id);
    } else {
      var b := Backend(id, 0, []);
      var bs := l.backends + [b];
      var items := Unflag(l.items);
      var d := Deliver(w, b, items, false, l.allocs + 1);
      var o := DeliverFlagging(w, b, items, bs, l.allocs + 1);
      UnflagQueue(l, b);
      DeliverMarks(w, b, items, false, l.allocs + 1);
      DeliverKeepsId(w, b, items, false, l.allocs + 1);
      MarkedQueue(items, d.items, id, Taken(w, b, items, false, l.allocs + 1), Ids(bs), l.nextItem, l.cur);
      FlaggingDelivers(w, b, items, bs, l.allocs + 1);
      FlaggedQueue(items, d.items, o.items, bs, Taken(w, b, items, false, l.allocs + 1), id, l.nextItem, l.cur);
      MoreBackends(l, 0);
      SameIds(bs, l.backends + [o.b]);
      SameTruth(o.items, bs, l.backends + [o.b]);
      InvSum(l);
    }
  }

  lemma InvSum(l: Log)
    requires Inv(l)
    ensures Sum(l.items) == l.cur
  {
  }

  lemma SameTruth(items: seq<Item>, bs: seq<Backend>, bs': seq<Backend>)
    requires Ids(bs') == Ids(bs) && forall it: Item :: Fully(it, bs') == Fully(it, bs)
    requires Truthful(items, bs) && Known(items, bs)
    ensures Truthful(items, bs') && Known(items, bs')
  {
  }

  lemma MoreBackends(l: Log, allocs: nat)
    requires Inv(l)
    ensures Inv(l.(nextBackend := l.nextBackend + 1, allocs := allocs))
    ensures Distinct(l.backends + [Backend(l.nextBackend, 0, [])], l.nextBackend + 1)
  {
  }

  lemma UnflagQueue(l: Log, b: Backend)
    requires Inv(l)
    ensures Queue(Unflag(l.items), Ids(l.backends + [b]), l.nextItem, l.cur) && b.id in Ids(l.backends + [b])
  {
    hide Sum;
    var bs := l.backends + [b];
    SameSizes(l.items, Unflag(l.items));
    assert b in bs;
    forall x | x in Ids(l.backends) ensures x in Ids(bs) {
      var c :| c in l.backends && c.id == x;
      assert c in bs;
    }
    forall i, j | 0 <= i < j < |l.items| ensures l.items[j].marks <= l.items[i].marks { }
  }

  lemma FlaggedQueue(items: seq<Item>, d: seq<Item>, r: seq<Item>, bs: seq<Backend>, t: nat, id: nat, n: nat, sum: nat)
    requires Queue(d, Ids(bs), n, sum) && |items| == |d| == |r| && Marked(items, d, id, t)
    requires forall k :: 0 <= k < |items| ==> !items[k].flushed
    requires forall k :: 0 <= k < |items| ==>
      r[k] == if k <= t then d[k].(flushed := Fully(d[k], bs)) else items[k]
    ensures Numbered(r, n) && Prefixes(r) && Known(r, bs) && Sum(r) == sum && Truthful(r, bs)
  {
    hide Sum, Ids;
    SameSizes(d, r);
    forall k | 0 <= k < |r| ensures r[k].marks == d[k].marks && r[k].id == d[k].id {
      assert k < |items|;
    }
    forall i, j | 0 <= i < j < |r| ensures r[j].marks <= r[i].marks && (r[j].flushed ==> r[i].flushed) {
      assert d[j].marks <= d[i].marks;
    }
  }

  lemma StepKeeps(w: World, l: Log, s: Step)
    requires Inv(l)
    ensures Inv(Next(w, l, s))
  {
    hide Inv;
    KeepsSum(l);
    match s
    case AppendItem(size) => AppendKeeps(w, l, size);
    case Fast => FastIsFull(w, l); FlushKeeps(w, l, false);
    case All(force) => FlushKeeps(w, l, force);
    case CreateBackend => CreateKeeps(w, l);
    case Destroy(id) => ForgetKeeps(l, id);
    case SetLimit(limit) => LimitIrrelevant(l, limit);
  }

  lemma LimitIrrelevant(l: Log, limit: nat)
    requires Inv(l)
    ensures Inv(l.(limit := limit))
  {
  }

  /** The state after a run. */
  ghost function After(w: World, run: seq<Step>): (l: Log)
    ensures Inv(l)
  {
    if run == [] then INIT
    else
      var l := After(w, run[..|run| - 1]);
      StepKeeps(w, l, run[|run| - 1]);
      Next(w, l, run[|run| - 1])
  }

  /** In every reachable state, for every backend, the retained items delivered to it are a prefix of
      the queue, and the fast flush is the full flush. */
  lemma Reachable(w: World, run: seq<Step>)
    ensures var l := After(w, run);
      && FlushFast(w, l) == FlushAll(w, l, false)
      && (forall id: nat, i, j :: 0 <= i < j < |l.items| && id in l.items[j].marks ==> id in l.items[i].marks)
  {
    FastIsFull(w, After(w, run));
  }
}
