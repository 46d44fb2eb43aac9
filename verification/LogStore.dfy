/** The log store as the program keeps it: one mutable queue and one backend list, updated in place by
    loops. Every operation is proved to be the corresponding step. */
module LogStore {
  import opened Log
  import opened LogRuns

  class Store {
    const w: World
    var items: seq<Item>
    var backends: seq<Backend>
    var cur: nat
    var limit: nat
    var nextItem: nat
    var nextBackend: nat
    var allocs: nat

    ghost function State(): Log
      reads this
    {
      Log(items, backends, cur, limit, nextItem, nextBackend, allocs)
    }

    constructor (w: World)
      ensures this.w == w && State() == INIT
    {
      this.w := w;
      items, backends, cur, limit, nextItem, nextBackend, allocs := [], [], 0, 1024 * 1024, 0, 0, 0;
    }

    method Allocate() returns (ok: bool)
      modifies this`allocs
      ensures ok == w.alloc(old(allocs)) && allocs == old(allocs) + 1
    {
      ok := w.alloc(allocs);
      allocs := allocs + 1;
    }

    /** `log_item_write_to`: mark first, write, and take the mark back if the write failed. */
    method WriteItem(k: nat, i: nat, force: bool) returns (ok: bool)
      requires k < |backends| && i < |items|
      modifies this`items, this`backends, this`allocs
      ensures var o := WriteTo(w, old(backends[k]), old(items[i]), force, old(allocs));
        ok == o.ok && backends == old(backends)[k := o.b] && items == old(items)[i := o.items[0]] && allocs == o.allocs
    {
      var b, it := backends[k], items[i];
      var marked := b.id in it.marks;
      if marked && !force { return true; }
      if !marked {
        ok := Allocate();
        if !ok { return; }
        items := items[i := it.(marks := it.marks + {b.id})];
      }
      ok := w.writes(b.id, b.attempts);
      backends := backends[k := b.(attempts := b.attempts + 1)];
      if ok {
        backends := backends[k := backends[k].(received := b.received + [it.id])];
        assert marked ==> it.marks + {b.id} == it.marks;
      } else if !marked {
        items := items[i := items[i].(marks := items[i].marks - {b.id})];
        assert it.marks + {b.id} - {b.id} == it.marks;
      }
    }

    /** Offer the items from `start` on to one backend, until a write fails. */
    method DeliverFrom(k: nat, start: nat, force: bool)
      requires k < |backends| && start <= |items|
      modifies this`items, this`backends, this`allocs
      ensures var o := Deliver(w, old(backends[k]), old(items[start..]), force, old(allocs));
        && backends == old(backends)[k := o.b]
        && items == old(items[..start]) + o.items
        && allocs == o.allocs
    {
      hide *;
      ghost var goal := Deliver(w, backends[k], items[start..], force, allocs);
      ghost var bs, front, rest := backends, items[..start], items[start..];
      ghost var taken: seq<Item> := [];
      var i := start;
      assert items == front + taken + rest;
      PutNothing(Deliver(w, backends[k], rest, force, allocs));
      while i < |items|
        invariant items == front + taken + rest && |front + taken| == i
        invariant k < |backends| && backends == bs[k := backends[k]]
        invariant goal == Put(taken, Deliver(w, backends[k], rest, force, allocs))
        decreases |items| - i
      {
        DeliverOn(w, backends[k], rest, force, allocs, taken);
        ghost var o := WriteTo(w, backends[k], rest[0], force, allocs);
        var ok := WriteItem(k, i, force);
        AdvanceTaken(front, taken, rest, o.items[0]);
        if !ok { return; }
        taken, rest := taken + [o.items[0]], rest[1..];
        i := i + 1;
      }
      DeliverNone(w, backends[k], force, allocs);
      assert taken + [] == taken;
      PutIs(taken, Deliver(w, backends[k], [], force, allocs));
    }

    method RecomputeSize()
      modifies this`cur
      ensures cur == Sum(items)
    {
      cur := 0;
      for i := 0 to |items|
        invariant cur == Sum(items[..i])
      {
        SumSnoc(items[..i], items[i]);
        assert items[..i + 1] == items[..i] + [items[i]];
        cur := cur + items[i].size;
      }
      assert items[..|items|] == items;
    }

    method Reflag(start: nat)
      requires start <= |items|
      modifies this`items
      ensures items == old(items[..start]) + Flag(old(items[start..]), backends)
    {
      hide *;
      ghost var head, rest := items[..start], items[start..];
      ghost var done: seq<Item> := [];
      assert items == head + (done + rest);
      FlagNone(rest, backends);
      for i := start to |items|
        invariant items == head + (done + rest) && |head| + |done| == i
        invariant Flag(old(items[start..]), backends) == done + Flag(rest, backends)
      {
        var it := items[i].(flushed := Fully(items[i], backends));
        FlagStep(done, rest, backends);
        OneFlagged(head, done, rest, it);
        items := items[i := it];
        done, rest := done + [it], rest[1..];
      }
      FlagEmpty(rest, done, backends);
    }

    /** `log_flush_all` */
    method Flush(force: bool)
      modifies this
      ensures State() == FlushAll(w, old(State()), force)
    {
      hide DeliverAll, Flag, Sum, FlushAll;
      FlushAllIs(w, State(), force);
      assert items[0..] == items && items[..0] == [];
      RecomputeSize();
      DeliverEach(0, force);
      assert items[0..] == items && items[..0] == [];
      Reflag(0);
      Alone(items);
    }

    /** Every backend in turn, from item `s` on. */
    method DeliverEach(s: nat, force: bool)
      requires s <= |items|
      modifies this`items, this`backends, this`allocs
      ensures var r := DeliverAll(w, old(backends), old(items[s..]), force, old(allocs));
        backends == r.bs && items == old(items[..s]) + r.items && allocs == r.allocs
    {
      hide *;
      ghost var head, goal := items[..s], DeliverAll(w, backends, items[s..], force, allocs);
      ghost var done, rest: seq<Backend> := [], backends;
      ghost var n := |backends|;
      BehindNothing(goal);
      for k := 0 to |backends|
        invariant backends == done + rest && |done| == k && |backends| == n && s <= |items| && items[..s] == head
        invariant goal == Behind(done, DeliverAll(w, rest, items[s..], force, allocs))
      {
        DeliverAllOn(w, done, rest, items[s..], force, allocs);
        ghost var o := Deliver(w, rest[0], items[s..], force, allocs);
        DeliverFrom(k, s, force);
        assert items[s..] == o.items && items[..s] == head;
        OneDone(done, rest, o.b);
        done, rest := done + [o.b], rest[1..];
      }
      DeliverAllNone(w, items[s..], force, allocs, done);
      assert rest == [] && items == head + items[s..];
    }

    /** `log_flush_fast` */
    method FlushNew()
      modifies this
      ensures State() == FlushFast(w, old(State()))
    {
      hide DeliverAll, Flag, FlushFast, Unflushed;
      var s := FirstUnflushed();
      FlushFastIs(w, State());
      if s == |items| { return; }
      DeliverEach(s, false);
      Reflag(s);
    }

    /** The search from the end for the last flagged item. */
    method FirstUnflushed() returns (s: nat)
      ensures s == Unflushed(items)
    {
      hide *;
      s := |items|;
      assert items[..s] == items;
      while s > 0 && !items[s - 1].flushed
        invariant 0 <= s <= |items| && Unflushed(items[..s]) == Unflushed(items)
      {
        UnflushedStep(items, s);
        s := s - 1;
      }
      UnflushedHere(items, s);
    }

    /** `log_size_limit_check` */
    method EvictOldest()
      requires cur == Sum(items)
      modifies this`items, this`cur
      ensures State() == Evict(old(State()))
    {
      while cur > limit && items != []
        invariant cur == Sum(items)
        invariant Evict(State()) == Evict(old(State()))
        decreases |items|
      {
        cur := cur - items[0].size;
        items := items[1..];
      }
    }

    /** `log_append` */
    method AppendNew(size: nat) returns (ok: bool)
      requires cur == Sum(items)
      modifies this
      ensures State() == Append(w, old(State()), size)
      ensures ok <==> size < limit && w.alloc(old(allocs))
      ensures if ok then Joins(old(State()), State(), size)
        else StaysOut(old(State()), State(), if size < limit then old(allocs) + 1 else old(allocs))
    {
      AppendExactly(w, State(), size);
      SumEvict(State());
      EvictOldest();
      if size >= limit { return false; }
      ok := Allocate();
      if !ok { return; }
      var it := Item(nextItem, size, {}, false);
      SumSnoc(items, it);
      items, nextItem := items + [it], nextItem + 1;
      cur := cur + size;
      ghost var pushed := State();
      EvictOldest();
      EvictNumber(pushed);
    }

    /** `log_item_forget_backend`, after the backend has left the list */
    method ForgetBackend(id: nat)
      modifies this`items
      ensures items == Flag(Unmark(old(items), id), backends)
    {
      ghost var was := items;
      for i := 0 to |items|
        invariant |items| == |was|
        invariant forall j :: 0 <= j < |items| ==>
          items[j] == if j < i then Flag(Unmark(was, id), backends)[j] else was[j]
      {
        var it := items[i].(marks := items[i].marks - {id});
        items := items[i := it.(flushed := Fully(it, backends))];
      }
    }

    /** `log_backend_destroy` */
    method DestroyBackend(id: nat)
      modifies this
      ensures State() == Forget(old(State()), id)
    {
      backends := Without(backends, id);
      ForgetBackend(id);
    }

    /** `log_backend_create`: register, drop all flags, catch up. */
    method CreateNew()
      modifies this
      ensures State() == Create(w, old(State()))
    {
      hide DeliverFlagging, Sum, Fully;
      ghost var l := State();
      var id := nextBackend;
      nextBackend := id + 1;
      var ok := Allocate();
      if !ok {
        DestroyBackend(id);
        return;
      }
      backends := backends + [Backend(id, 0, [])];
      ghost var bs := backends;
      InvalidateFlags();
      SameSizes(l.items, items);
      ghost var o := DeliverFlagging(w, Backend(id, 0, []), items, bs, allocs);
      FlushTo(|backends| - 1);
      assert bs[|bs| - 1 := o.b] == l.backends + [o.b];
    }

    /** `log_item_invalidate_flush_state` */
    method InvalidateFlags()
      modifies this`items
      ensures items == Unflag(old(items))
    {
      ghost var was := items;
      for i := 0 to |items|
        invariant |items| == |was|
        invariant forall j :: 0 <= j < |items| ==> items[j] == if j < i then was[j].(flushed := false) else was[j]
      {
        items := items[i := items[i].(flushed := false)];
      }
    }

    /** `log_flush_to` without force */
    method FlushTo(k: nat)
      requires k < |backends|
      modifies this`items, this`backends, this`allocs, this`cur
      ensures var o := DeliverFlagging(w, old(backends[k]), old(items), old(backends), old(allocs));
        && backends == old(backends)[k := o.b] && items == o.items && allocs == o.allocs
        && cur == Sum(old(items))
    {
      hide *;
      RecomputeSize();
      ghost var bs, rest := backends, items;
      ghost var done: seq<Item> := [];
      ghost var goal := DeliverFlagging(w, backends[k], items, bs, allocs);
      PutNothing(goal);
      var i := 0;
      while i < |items|
        invariant items == done + rest && |done| == i && cur == Sum(old(items))
        invariant k < |backends| && backends == bs[k := backends[k]] && backends[k].id == bs[k].id
        invariant goal == Put(done, DeliverFlagging(w, backends[k], rest, bs, allocs))
        decreases |items| - i
      {
        FlaggingOn(w, backends[k], rest, bs, allocs, done);
        ghost var o := WriteTo(w, backends[k], rest[0], false, allocs);
        WriteMarks(w, backends[k], rest[0], false, allocs);
        var ok := WriteItem(k, i, false);
        SameIds(bs, backends);
        items := items[i := items[i].(flushed := Fully(items[i], backends))];
        ghost var it := o.items[0].(flushed := Fully(o.items[0], bs));
        Advance(done, rest, it);
        if !ok { return; }
        done, rest := done + [it], rest[1..];
        i := i + 1;
      }
      FlaggingNone(w, backends[k], bs, allocs);
      assert done + [] == done;
      PutIs(done, DeliverFlagging(w, backends[k], [], bs, allocs));
    }
  }

  // ----- flags -----

  lemma FlagNone(rest: seq<Item>, bs: seq<Backend>)
    ensures [] + Flag(rest, bs) == Flag(rest, bs)
  {
  }

  lemma FlagStep(done: seq<Item>, rest: seq<Item>, bs: seq<Backend>)
    requires rest != []
    ensures done + Flag(rest, bs) == done + [rest[0].(flushed := Fully(rest[0], bs))] + Flag(rest[1..], bs)
  {
    hide Flag, Fully;
    FlagFirst(rest, bs);
    var it := rest[0].(flushed := Fully(rest[0], bs));
    assert done + ([it] + Flag(rest[1..], bs)) == done + [it] + Flag(rest[1..], bs);
  }

  lemma FlagFirst(rest: seq<Item>, bs: seq<Backend>)
    requires rest != []
    ensures Flag(rest, bs) == [rest[0].(flushed := Fully(rest[0], bs))] + Flag(rest[1..], bs)
  {
    hide Fully;
  }

  lemma FlagEmpty(rest: seq<Item>, done: seq<Item>, bs: seq<Backend>)
    ensures rest == [] ==> done + Flag(rest, bs) == done + rest
  {
  }

  lemma OneFlagged(head: seq<Item>, done: seq<Item>, rest: seq<Item>, it: Item)
    requires rest != []
    ensures (head + (done + rest))[|head| + |done|] == rest[0]
    ensures (head + (done + rest))[|head| + |done| := it] == head + (done + [it] + rest[1..])
  {
  }

  lemma Alone(items: seq<Item>)
    ensures [] + items == items
  {
  }

  lemma UnflushedStep(items: seq<Item>, s: nat)
    requires 0 < s <= |items| && !items[s - 1].flushed
    ensures Unflushed(items[..s - 1]) == Unflushed(items[..s])
  {
    assert items[..s][..s - 1] == items[..s - 1];
  }

  lemma UnflushedHere(items: seq<Item>, s: nat)
    requires s <= |items| && (s > 0 ==> items[s - 1].flushed)
    ensures Unflushed(items[..s]) == s
  {
  }

  lemma FlushAllIs(w: World, l: Log, force: bool)
    ensures var r := DeliverAll(w, l.backends, l.items, force, l.allocs);
      FlushAll(w, l, force) ==
        l.(items := Flag(r.items, r.bs), backends := r.bs, cur := Sum(l.items), allocs := r.allocs)
  {
    hide DeliverAll, Flag, Sum;
  }

  lemma FlushFastIs(w: World, l: Log)
    ensures var s := Unflushed(l.items);
      var r := DeliverAll(w, l.backends, l.items[s..], false, l.allocs);
      FlushFast(w, l) == if s == |l.items| then l
        else l.(items := l.items[..s] + Flag(r.items, r.bs), backends := r.bs, allocs := r.allocs)
  {
    hide DeliverAll, Flag, Unflushed;
  }

  // ----- one step of a delivery -----

  lemma DeliverStep(w: World, b: Backend, items: seq<Item>, force: bool, allocs: nat)
    requires items != []
    ensures var o := WriteTo(w, b, items[0], force, allocs);
      Deliver(w, b, items, force, allocs) ==
      if !o.ok then Offer(o.b, o.items + items[1..], o.allocs, false)
      else
        var r := Deliver(w, o.b, items[1..], force, o.allocs);
        r.(items := o.items + r.items)
  {
    hide WriteTo;
  }

  lemma DeliverNone(w: World, b: Backend, force: bool, allocs: nat)
    ensures Deliver(w, b, [], force, allocs) == Offer(b, [], allocs, true)
  {
  }

  lemma DeliverAllStep(w: World, bs: seq<Backend>, items: seq<Item>, force: bool, allocs: nat)
    requires bs != []
    ensures var o := Deliver(w, bs[0], items, force, allocs);
      var r := DeliverAll(w, bs[1..], o.items, force, o.allocs);
      DeliverAll(w, bs, items, force, allocs) == r.(bs := [o.b] + r.bs)
  {
    hide Deliver;
  }

  lemma DeliverAllNone(w: World, items: seq<Item>, force: bool, allocs: nat, done: seq<Backend>)
    ensures Behind(done, DeliverAll(w, [], items, force, allocs)) == Round(done, items, allocs)
    ensures done + [] == done
  {
  }

  /** A round with the backends before it. */
  function Behind(done: seq<Backend>, r: Round): Round {
    r.(bs := done + r.bs)
  }

  lemma BehindNothing(r: Round)
    ensures Behind([], r) == r
  {
    assert [] + r.bs == r.bs;
  }

  lemma DeliverAllOn(w: World, done: seq<Backend>, bs: seq<Backend>, items: seq<Item>, force: bool, allocs: nat)
    requires bs != []
    ensures var o := Deliver(w, bs[0], items, force, allocs);
      Behind(done, DeliverAll(w, bs, items, force, allocs)) ==
        Behind(done + [o.b], DeliverAll(w, bs[1..], o.items, force, o.allocs))
    ensures |Deliver(w, bs[0], items, force, allocs).items| == |items|
  {
    hide Deliver, DeliverAll;
    DeliverAllStep(w, bs, items, force, allocs);
    var o := Deliver(w, bs[0], items, force, allocs);
    var r := DeliverAll(w, bs[1..], o.items, force, o.allocs);
    assert done + ([o.b] + r.bs) == done + [o.b] + r.bs;
  }

  lemma OneDone(done: seq<Backend>, rest: seq<Backend>, b: Backend)
    requires rest != []
    ensures (done + rest)[|done|] == rest[0] && (done + rest)[|done| := b] == done + [b] + rest[1..]
  {
  }

  lemma FlaggingStep(w: World, b: Backend, items: seq<Item>, bs: seq<Backend>, allocs: nat)
    requires items != []
    ensures var o := WriteTo(w, b, items[0], false, allocs);
      var it := o.items[0].(flushed := Fully(o.items[0], bs));
      DeliverFlagging(w, b, items, bs, allocs) ==
      if !o.ok then Offer(o.b, [it] + items[1..], o.allocs, false)
      else
        var r := DeliverFlagging(w, o.b, items[1..], bs, o.allocs);
        r.(items := [it] + r.items)
  {
    hide WriteTo, Fully;
  }

  lemma FlaggingOn(w: World, b: Backend, items: seq<Item>, bs: seq<Backend>, allocs: nat, done: seq<Item>)
    requires items != []
    ensures var o := WriteTo(w, b, items[0], false, allocs);
      o.items != [] &&
      var it := o.items[0].(flushed := Fully(o.items[0], bs));
      (o.ok ==> Put(done, DeliverFlagging(w, b, items, bs, allocs)) ==
                Put(done + [it], DeliverFlagging(w, o.b, items[1..], bs, o.allocs))) &&
      (!o.ok ==> var r := Put(done, DeliverFlagging(w, b, items, bs, allocs));
                 r.b == o.b && r.allocs == o.allocs && r.items == done + ([it] + items[1..]))
  {
    hide WriteTo, DeliverFlagging, Fully;
    WriteMarks(w, b, items[0], false, allocs);
    FlaggingStep(w, b, items, bs, allocs);
    var o := WriteTo(w, b, items[0], false, allocs);
    var it := o.items[0].(flushed := Fully(o.items[0], bs));
    var r := DeliverFlagging(w, o.b, items[1..], bs, o.allocs);
    assert done + ([it] + r.items) == done + [it] + r.items;
  }

  lemma FlaggingNone(w: World, b: Backend, bs: seq<Backend>, allocs: nat)
    ensures DeliverFlagging(w, b, [], bs, allocs) == Offer(b, [], allocs, true)
  {
  }

  /** An outcome with the items before it. */
  function Put(taken: seq<Item>, o: Offer): Offer {
    o.(items := taken + o.items)
  }

  lemma PutNothing(o: Offer)
    ensures Put([], o) == o
  {
    assert [] + o.items == o.items;
  }

  lemma PutIs(taken: seq<Item>, o: Offer)
    ensures var r := Put(taken, o); r.items == taken + o.items && r.b == o.b && r.allocs == o.allocs
  {
  }

  lemma DeliverOn(w: World, b: Backend, items: seq<Item>, force: bool, allocs: nat, taken: seq<Item>)
    requires items != []
    ensures var o := WriteTo(w, b, items[0], force, allocs);
      o.items != [] &&
      (o.ok ==> Put(taken, Deliver(w, b, items, force, allocs)) ==
                Put(taken + [o.items[0]], Deliver(w, o.b, items[1..], force, o.allocs))) &&
      (!o.ok ==> var r := Put(taken, Deliver(w, b, items, force, allocs));
                 r.b == o.b && r.allocs == o.allocs && r.items == taken + ([o.items[0]] + items[1..]))
  {
    hide WriteTo, Deliver;
    WriteMarks(w, b, items[0], force, allocs);
    DeliverStep(w, b, items, force, allocs);
    var o := WriteTo(w, b, items[0], force, allocs);
    var r := Deliver(w, o.b, items[1..], force, o.allocs);
    assert taken + ([o.items[0]] + r.items) == taken + [o.items[0]] + r.items;
  }

  lemma AdvanceTaken(front: seq<Item>, taken: seq<Item>, rest: seq<Item>, it: Item)
    requires rest != []
    ensures (front + taken + rest)[|front + taken| := it] == front + (taken + [it]) + rest[1..]
    ensures front + (taken + [it]) + rest[1..] == front + (taken + ([it] + rest[1..]))
  {
  }

  lemma Advance(done: seq<Item>, rest: seq<Item>, it: Item)
    requires rest != []
    ensures (done + rest)[|done| := it] == done + ([it] + rest[1..]) == done + [it] + rest[1..]
  {
  }

  lemma {:induction false} EvictNumber(l: Log)
    requires l.cur == Sum(l.items)
    ensures Evict(l).nextItem == l.nextItem
    decreases |l.items|
  {
    if l.cur > l.limit && l.items != [] {
      EvictNumber(l.(items := l.items[1..], cur := l.cur - l.items[0].size));
    }
  }
}
