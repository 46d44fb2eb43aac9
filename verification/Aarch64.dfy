/** The memory map handed to an AArch64 kernel, and the place chosen for kernels that cannot use
    memory below their own image. All sums are meant to stay inside 64 bits. */
module Aarch64 {
  import opened Wrappers

  const MAX_UINT64: nat := 0xFFFF_FFFF_FFFF_FFFF
  const PAGE_SIZE: nat := 4096
  const IMAGE_ALIGNMENT: nat := 0x20_0000

  type UInt64 = n: nat | n <= MAX_UINT64

  datatype Kind = LoaderCode | LoaderData | BootServicesCode | BootServicesData | Conventional | Other

  datatype Descriptor = Descriptor(kind: Kind, start: UInt64, pages: UInt64, runtime: bool)

  datatype Region = Region(address: UInt64, size: UInt64)

  datatype Status = Success | NotFound | CompromisedData

  predicate Included(d: Descriptor) {
    d.pages != 0 && !d.runtime && !d.kind.Other?
  }

  /** The descriptor's end does not fit 64 bits. */
  predicate Wraps(d: Descriptor) {
    d.pages > MAX_UINT64 / PAGE_SIZE || d.start > MAX_UINT64 - d.pages * PAGE_SIZE
  }

  function End(d: Descriptor): (e: UInt64)
    requires !Wraps(d)
  {
    d.start + d.pages * PAGE_SIZE
  }

  // ----- addresses -----

  /** Address `a` belongs to an included descriptor. */
  ghost predicate Usable(ds: seq<Descriptor>, a: int) {
    exists i :: 0 <= i < |ds| && Included(ds[i]) && ds[i].start <= a < ds[i].start + ds[i].pages * PAGE_SIZE
  }

  /** Memory that is free once the firmware has handed over: what the loader and the boot services used, and
      what nobody did, unless the firmware needs it at run time. */
  ghost predicate Ram(d: Descriptor) {
    d.pages > 0 && !d.runtime && d.kind in {LoaderCode, LoaderData, BootServicesCode, BootServicesData, Conventional}
  }

  ghost predicate RamAt(ds: seq<Descriptor>, a: int) {
    exists i :: 0 <= i < |ds| && Ram(ds[i]) && ds[i].start <= a < ds[i].start + ds[i].pages * PAGE_SIZE
  }

  lemma RamIncluded(ds: seq<Descriptor>)
    ensures forall i :: 0 <= i < |ds| ==> (Ram(ds[i]) <==> Included(ds[i]))
    ensures forall i :: 0 <= i < |ds| ==> (Wraps(ds[i]) <==> ds[i].start + ds[i].pages * PAGE_SIZE > MAX_UINT64)
    ensures forall a :: RamAt(ds, a) <==> Usable(ds, a)
  {
  }

  predicate In(r: Region, a: int) {
    r.address <= a < r.address + r.size
  }

  ghost predicate Covers(rs: seq<Region>, a: int) {
    exists i :: 0 <= i < |rs| && In(rs[i], a)
  }

  predicate Proper(r: Region) {
    r.size > 0 && r.address + r.size <= MAX_UINT64
  }

  predicate AllProper(rs: seq<Region>) {
    forall i :: 0 <= i < |rs| ==> Proper(rs[i])
  }

  predicate Ascending(rs: seq<Region>) {
    forall i, j :: 0 <= i < j < |rs| ==> rs[i].address <= rs[j].address
  }

  /** Increasing, with a gap between neighbours. */
  predicate Canonical(rs: seq<Region>) {
    && AllProper(rs)
    && forall i, j :: 0 <= i < j < |rs| ==> rs[i].address + rs[i].size < rs[j].address
  }

  // ----- a canonical list is determined by the addresses it covers -----

  lemma FirstStart(rs: seq<Region>, a: int)
    requires Canonical(rs) && rs != [] && Covers(rs, a)
    ensures rs[0].address <= a
  {
  }

  lemma FirstEnd(rs: seq<Region>)
    requires Canonical(rs) && rs != []
    ensures !Covers(rs, rs[0].address + rs[0].size)
    ensures forall a :: In(rs[0], a) ==> Covers(rs, a)
  {
  }

  lemma TailCovers(rs: seq<Region>, a: int)
    requires Canonical(rs) && rs != []
    ensures Canonical(rs[1..])
    ensures Covers(rs[1..], a) <==> Covers(rs, a) && !In(rs[0], a)
  {
    var t := rs[1..];
    if Covers(rs, a) && !In(rs[0], a) {
      var i :| 0 <= i < |rs| && In(rs[i], a);
      assert t[i - 1] == rs[i];
    }
    if Covers(t, a) {
      var i :| 0 <= i < |t| && In(t[i], a);
      assert rs[i + 1] == t[i];
    }
  }

  lemma SameFirst(rs: seq<Region>, rs': seq<Region>)
    requires Canonical(rs) && Canonical(rs') && rs != [] && rs' != []
    requires forall a :: Covers(rs, a) <==> Covers(rs', a)
    ensures rs[0] == rs'[0]
  {
    assert In(rs[0], rs[0].address) && In(rs'[0], rs'[0].address);
    FirstEnd(rs);
    FirstEnd(rs');
    FirstStart(rs, rs'[0].address);
    FirstStart(rs', rs[0].address);
    var e, e' := rs[0].address + rs[0].size, rs'[0].address + rs'[0].size;
    assert !In(rs'[0], e) && !In(rs[0], e');
  }

  lemma EmptyCovers(rs: seq<Region>)
    requires Canonical(rs)
    ensures rs == [] <==> forall a :: !Covers(rs, a)
  {
    if rs != [] { assert In(rs[0], rs[0].address) && Covers(rs, rs[0].address); }
  }

  /** Two canonical lists covering the same addresses are the same list. */
  lemma {:induction false} CanonicalUnique(rs: seq<Region>, rs': seq<Region>)
    requires Canonical(rs) && Canonical(rs')
    requires forall a :: Covers(rs, a) <==> Covers(rs', a)
    ensures rs == rs'
    decreases |rs|
  {
    EmptyCovers(rs);
    EmptyCovers(rs');
    if rs != [] {
      SameFirst(rs, rs');
      forall a ensures Covers(rs[1..], a) <==> Covers(rs'[1..], a) {
        TailCovers(rs, a);
        TailCovers(rs', a);
      }
      TailCovers(rs, 0);
      TailCovers(rs', 0);
      CanonicalUnique(rs[1..], rs'[1..]);
      assert rs == [rs[0]] + rs[1..] && rs' == [rs'[0]] + rs'[1..];
    }
  }

  /** The result does not depend on the order in which firmware lists its descriptors. */
  lemma OrderIrrelevant(ds: seq<Descriptor>, ds': seq<Descriptor>, rs: seq<Region>, rs': seq<Region>)
    requires multiset(ds) == multiset(ds')
    requires Canonical(rs) && forall a :: Covers(rs, a) <==> RamAt(ds, a)
    requires Canonical(rs') && forall a :: Covers(rs', a) <==> RamAt(ds', a)
    ensures rs == rs'
  {
    RamIncluded(ds);
    RamIncluded(ds');
    forall a ensures Usable(ds, a) <==> Usable(ds', a) {
      SameUsable(ds, ds', a);
      SameUsable(ds', ds, a);
    }
    CanonicalUnique(rs, rs');
  }

  lemma SameUsable(ds: seq<Descriptor>, ds': seq<Descriptor>, a: int)
    requires multiset(ds) == multiset(ds')
    ensures Usable(ds, a) ==> Usable(ds', a)
  {
    if Usable(ds, a) {
      var i :| 0 <= i < |ds| && Included(ds[i]) && ds[i].start <= a < ds[i].start + ds[i].pages * PAGE_SIZE;
      assert ds[i] in multiset(ds);
      assert ds[i] in ds';
    }
  }

  // ----- building the map -----

  /** `load_memory_map`, from the descriptors on. */
  method LoadMemoryMap(ds: seq<Descriptor>) returns (status: Status, memory: array<Region>, count: nat)
    ensures count <= memory.Length
    ensures status == NotFound <==> forall i :: 0 <= i < |ds| ==> !Ram(ds[i])
    ensures status == CompromisedData <==>
      exists i :: 0 <= i < |ds| && Ram(ds[i]) && ds[i].start + ds[i].pages * PAGE_SIZE > MAX_UINT64
    ensures status == Success ==>
      Canonical(memory[..count]) && forall a :: Covers(memory[..count], a) <==> RamAt(ds, a)
  {
    RamIncluded(ds);
    memory, count := new Region[0], 0;
    var found := 0;
    for i := 0 to |ds|
      invariant 0 <= found <= i
      invariant found == CountIncluded(ds[..i])
      invariant found == 0 <==> forall k :: 0 <= k < i ==> !Included(ds[k])
    {
      CountSnoc(ds, i);
      if Included(ds[i]) { found := found + 1; }
    }
    if found == 0 { return NotFound, memory, 0; }
    assert ds[..|ds|] == ds;
    memory := new Region[found](_ => Region(0, 0));
    var ok;
    ok, count := Collect(ds, memory);
    if !ok { return CompromisedData, memory, 0; }
    Sort(memory, count);
    count := Merge(memory, count);
    return Success, memory, count;
  }

  function CountIncluded(ds: seq<Descriptor>): nat {
    if ds == [] then 0
    else CountIncluded(ds[..|ds| - 1]) + if Included(ds[|ds| - 1]) then 1 else 0
  }

  lemma CountSnoc(ds: seq<Descriptor>, i: nat)
    requires i < |ds|
    ensures CountIncluded(ds[..i + 1]) == CountIncluded(ds[..i]) + if Included(ds[i]) then 1 else 0
  {
    assert ds[..i + 1][..i] == ds[..i];
  }

  lemma {:induction false} CountGrows(ds: seq<Descriptor>, i: nat)
    requires i <= |ds|
    ensures CountIncluded(ds[..i]) <= CountIncluded(ds)
    decreases |ds| - i
  {
    if i == |ds| {
      assert ds[..i] == ds;
    } else {
      CountSnoc(ds, i);
      CountGrows(ds, i + 1);
    }
  }

  // ----- filtering, and joining descriptors that touch -----

  method Collect(ds: seq<Descriptor>, m: array<Region>) returns (ok: bool, n: nat)
    requires m.Length == CountIncluded(ds)
    modifies m
    ensures ok <==> forall i :: 0 <= i < |ds| && Included(ds[i]) ==> !Wraps(ds[i])
    ensures n <= m.Length
    ensures ok ==> AllProper(m[..n]) && forall a :: Covers(m[..n], a) <==> Usable(ds, a)
  {
    n := 0;
    for i := 0 to |ds|
      invariant n <= CountIncluded(ds[..i]) <= m.Length
      invariant forall k :: 0 <= k < i && Included(ds[k]) ==> !Wraps(ds[k])
      invariant AllProper(m[..n])
      invariant forall a :: Covers(m[..n], a) <==> Usable(ds[..i], a)
    {
      ghost var was, before := m[..n], n;
      CountSnoc(ds, i);
      CountGrows(ds, i + 1);
      var d := ds[i];
      if Included(d) {
        if Wraps(d) { return false, n; }
        var end := End(d);
        if n > 0 && m[n - 1].address + m[n - 1].size == d.start {
          m[n - 1] := Region(m[n - 1].address, end - m[n - 1].address);
          Joined(was, m[..n], ds, i);
        } else {
          m[n] := Region(d.start, end - d.start);
          n := n + 1;
          Pushed(was, m[..n], ds, i);
        }
      } else {
        forall a ensures Usable(ds[..i + 1], a) <==> Usable(ds[..i], a) { UsableSnoc(ds, i, a); }
      }
    }
    assert ds[..|ds|] == ds;
    return true, n;
  }

  lemma UsableSnoc(ds: seq<Descriptor>, i: nat, a: int)
    requires i < |ds|
    ensures Usable(ds[..i + 1], a) <==>
            Usable(ds[..i], a) ||
            (Included(ds[i]) && ds[i].start <= a < ds[i].start + ds[i].pages * PAGE_SIZE)
  {
    var p, q := ds[..i], ds[..i + 1];
    if Usable(p, a) {
      var k :| 0 <= k < |p| && Included(p[k]) && p[k].start <= a < p[k].start + p[k].pages * PAGE_SIZE;
      assert q[k] == p[k];
    }
    if Usable(q, a) {
      var k :| 0 <= k < |q| && Included(q[k]) && q[k].start <= a < q[k].start + q[k].pages * PAGE_SIZE;
      if k < i { assert p[k] == q[k]; }
    }
    if Included(ds[i]) && ds[i].start <= a < ds[i].start + ds[i].pages * PAGE_SIZE { assert q[i] == ds[i]; }
  }

  lemma CoversSnoc(rs: seq<Region>, r: Region, a: int)
    ensures Covers(rs + [r], a) <==> Covers(rs, a) || In(r, a)
  {
    var t := rs + [r];
    if Covers(rs, a) {
      var k :| 0 <= k < |rs| && In(rs[k], a);
      assert t[k] == rs[k];
    }
    if In(r, a) { assert t[|rs|] == r; }
  }

  lemma Pushed(was: seq<Region>, rs: seq<Region>, ds: seq<Descriptor>, i: nat)
    requires i < |ds| && Included(ds[i]) && !Wraps(ds[i])
    requires |rs| == |was| + 1 && rs[..|was|] == was
    requires rs[|was|] == Region(ds[i].start, End(ds[i]) - ds[i].start)
    requires AllProper(was) && forall a :: Covers(was, a) <==> Usable(ds[..i], a)
    ensures AllProper(rs) && forall a :: Covers(rs, a) <==> Usable(ds[..i + 1], a)
  {
    assert rs == was + [rs[|was|]];
    forall a ensures Covers(rs, a) <==> Usable(ds[..i + 1], a) {
      CoversSnoc(was, rs[|was|], a);
      UsableSnoc(ds, i, a);
    }
  }

  lemma Joined(was: seq<Region>, rs: seq<Region>, ds: seq<Descriptor>, i: nat)
    requires i < |ds| && Included(ds[i]) && !Wraps(ds[i])
    requires was != [] && |rs| == |was| && rs[..|was| - 1] == was[..|was| - 1]
    requires var last := was[|was| - 1];
      && last.address + last.size == ds[i].start
      && rs[|was| - 1] == Region(last.address, End(ds[i]) - last.address)
    requires AllProper(was) && forall a :: Covers(was, a) <==> Usable(ds[..i], a)
    ensures AllProper(rs) && forall a :: Covers(rs, a) <==> Usable(ds[..i + 1], a)
  {
    var front, k := was[..|was| - 1], |was| - 1;
    assert was == front + [was[k]] && rs == front + [rs[k]];
    forall a ensures Covers(rs, a) <==> Usable(ds[..i + 1], a) {
      CoversSnoc(front, was[k], a);
      CoversSnoc(front, rs[k], a);
      UsableSnoc(ds, i, a);
    }
  }

  // ----- insertion sort, in place -----

  /** The element at `i` moved down to `j`, those in between moved up. */
  ghost predicate Moved(rs: seq<Region>, rs': seq<Region>, j: nat, i: nat) {
    && j <= i < |rs| == |rs'|
    && rs'[j] == rs[i]
    && (forall k :: 0 <= k < j || i < k < |rs| ==> rs'[k] == rs[k])
    && (forall k :: j < k <= i ==> rs'[k] == rs[k - 1])
  }

  lemma MovedCovers(rs: seq<Region>, rs': seq<Region>, j: nat, i: nat, a: int)
    requires Moved(rs, rs', j, i)
    ensures Covers(rs', a) <==> Covers(rs, a)
  {
    if Covers(rs, a) {
      var k :| 0 <= k < |rs| && In(rs[k], a);
      if k == i {
        assert rs'[j] == rs[k];
      } else if j <= k < i {
        assert rs'[k + 1] == rs[k];
      } else {
        assert rs'[k] == rs[k];
      }
    }
    if Covers(rs', a) {
      var k :| 0 <= k < |rs| && In(rs'[k], a);
      if k == j {
        assert rs[i] == rs'[k];
      } else if j < k <= i {
        assert rs[k - 1] == rs'[k];
      } else {
        assert rs[k] == rs'[k];
      }
    }
  }

  lemma MovedProper(rs: seq<Region>, rs': seq<Region>, j: nat, i: nat)
    requires Moved(rs, rs', j, i) && AllProper(rs)
    ensures AllProper(rs')
  {
    forall k | 0 <= k < |rs'| ensures Proper(rs'[k]) {
      if j < k <= i {
        assert rs'[k] == rs[k - 1];
      } else if k == j {
        assert rs'[k] == rs[i];
      } else {
        assert rs'[k] == rs[k];
      }
    }
  }

  lemma MovedAscending(rs: seq<Region>, rs': seq<Region>, j: nat, i: nat)
    requires Moved(rs, rs', j, i) && Ascending(rs[..i])
    requires j > 0 ==> rs[j - 1].address <= rs[i].address
    requires forall k :: j <= k < i ==> rs[k].address > rs[i].address
    ensures Ascending(rs'[..i + 1])
  {
    var s, t := rs[..i], rs'[..i + 1];
    forall p, q | 0 <= p < q < |t| ensures t[p].address <= t[q].address {
      var p' := if p < j then p else if p == j then i else p - 1;
      var q' := if q < j then q else if q == j then i else q - 1;
      assert t[p] == rs[p'] && t[q] == rs[q'];
      if p != j && q != j { assert s[p'].address <= s[q'].address; }
      if p < j && q == j && p < j - 1 { assert s[p].address <= s[j - 1].address; }
    }
  }

  /** Insert element `i` into the sorted elements before it. */
  method Insert(m: array<Region>, n: nat, i: nat)
    requires i < n <= m.Length && AllProper(m[..n]) && Ascending(m[..i])
    modifies m
    ensures AllProper(m[..n]) && Ascending(m[..i + 1])
    ensures forall a :: Covers(m[..n], a) <==> old(Covers(m[..n], a))
  {
    hide Covers, AllProper, Ascending;
    ghost var was := m[..n];
    var current := m[i];
    var j := i;
    while j > 0 && m[j - 1].address > current.address
      invariant 0 <= j <= i
      invariant forall k :: 0 <= k < n && (k <= j || k > i) ==> m[k] == was[k]
      invariant forall k :: j < k <= i ==> m[k] == was[k - 1]
      invariant forall k :: j <= k < i ==> was[k].address > current.address
    {
      m[j] := m[j - 1];
      j := j - 1;
    }
    m[j] := current;
    ghost var now := m[..n];
    assert Moved(was, now, j, i);
    forall a ensures Covers(now, a) <==> Covers(was, a) { MovedCovers(was, now, j, i, a); }
    MovedProper(was, now, j, i);
    assert was[..i] == old(m[..i]) && now[..i + 1] == m[..i + 1];
    MovedAscending(was, now, j, i);
  }

  method Sort(m: array<Region>, n: nat)
    requires n <= m.Length && AllProper(m[..n])
    modifies m
    ensures AllProper(m[..n]) && Ascending(m[..n])
    ensures forall a :: Covers(m[..n], a) <==> old(Covers(m[..n], a))
  {
    hide Covers, AllProper;
    var i := 1;
    while i < n
      invariant AllProper(m[..n]) && 1 <= i && (i <= n || n == 0) && Ascending(m[..if n == 0 then 0 else i])
      invariant forall a :: Covers(m[..n], a) <==> old(Covers(m[..n], a))
      decreases n - i
    {
      Insert(m, n, i);
      i := i + 1;
    }
  }

  // ----- merging what overlaps or touches, in place -----

  method Merge(m: array<Region>, n: nat) returns (count: nat)
    requires n <= m.Length && AllProper(m[..n]) && Ascending(m[..n])
    modifies m
    ensures count <= n && Canonical(m[..count])
    ensures forall a :: Covers(m[..count], a) <==> old(Covers(m[..n], a))
  {
    hide Covers, Canonical, AllProper;
    count := n;
    if n <= 1 {
      ProperAt(m[..n]);
      JustOne(m[..n]);
    } else {
      var merged := 0;
      ghost var was := m[..n];
      ProperAt(was);
      assert m[..1] == was[..1] == [was[0]];
      JustOne(m[..1]);
      for i := 1 to n
        invariant merged < i
        invariant forall k :: i <= k < n ==> m[k] == was[k]
        invariant Canonical(m[..merged + 1])
        invariant forall k :: i <= k < n ==> m[merged].address <= was[k].address
        invariant forall a :: Covers(m[..merged + 1], a) <==> Covers(was[..i], a)
      {
        ghost var before := m[..merged + 1];
        var mergedEnd := m[merged].address + m[merged].size;
        var currentEnd := m[i].address + m[i].size;
        if mergedEnd >= m[i].address {
          if currentEnd > mergedEnd {
            m[merged] := Region(m[merged].address, currentEnd - m[merged].address);
          }
          Absorbed(before, m[..merged + 1], was, i);
        } else {
          merged := merged + 1;
          m[merged] := m[i];
          Kept(before, m[..merged + 1], was, i);
        }
      }
      assert was[..n] == was;
      count := merged + 1;
    }
  }

  lemma JustOne(rs: seq<Region>)
    requires |rs| <= 1 && forall i :: 0 <= i < |rs| ==> Proper(rs[i])
    ensures Canonical(rs)
  {
  }

  lemma ProperAt(rs: seq<Region>)
    requires AllProper(rs)
    ensures forall i :: 0 <= i < |rs| ==> Proper(rs[i])
  {
  }

  lemma Absorbed(before: seq<Region>, after: seq<Region>, was: seq<Region>, i: nat)
    requires i < |was| && AllProper(was) && Canonical(before) && before != [] && |after| == |before|
    requires after[..|after| - 1] == before[..|before| - 1]
    requires var l, r := before[|before| - 1], was[i];
      && l.address <= r.address <= l.address + l.size
      && after[|after| - 1] ==
         if r.address + r.size > l.address + l.size then Region(l.address, r.address + r.size - l.address) else l
    requires forall a :: Covers(before, a) <==> Covers(was[..i], a)
    ensures Canonical(after)
    ensures forall a :: Covers(after, a) <==> Covers(was[..i + 1], a)
  {
    var k := |before| - 1;
    var front := before[..k];
    assert before == front + [before[k]] && after == front + [after[k]];
    assert was[..i + 1] == was[..i] + [was[i]];
    forall a ensures Covers(after, a) <==> Covers(was[..i + 1], a) {
      CoversSnoc(front, before[k], a);
      CoversSnoc(front, after[k], a);
      CoversSnoc(was[..i], was[i], a);
    }
  }

  lemma Kept(before: seq<Region>, after: seq<Region>, was: seq<Region>, i: nat)
    requires i < |was| && AllProper(was) && Canonical(before) && before != []
    requires after == before + [was[i]]
    requires var l := before[|before| - 1]; l.address + l.size < was[i].address
    requires forall a :: Covers(before, a) <==> Covers(was[..i], a)
    ensures Canonical(after)
    ensures forall a :: Covers(after, a) <==> Covers(was[..i + 1], a)
  {
    assert was[..i + 1] == was[..i] + [was[i]];
    forall a ensures Covers(after, a) <==> Covers(was[..i + 1], a) {
      CoversSnoc(before, was[i], a);
      CoversSnoc(was[..i], was[i], a);
    }
  }

  // ----- kernels that need memory at or above their image -----

  /** `a` is an aligned address at which `size` bytes fit inside the conventional descriptor `d`. */
  ghost predicate Fits(d: Descriptor, size: nat, a: nat) {
    && d.kind.Conventional? && !Wraps(d)
    && a % IMAGE_ALIGNMENT == 0
    && d.start <= a && a + size <= End(d)
  }

  ghost predicate FitsSomewhere(ds: seq<Descriptor>, size: nat, a: nat) {
    exists i :: 0 <= i < |ds| && Fits(ds[i], size, a)
  }

  function AlignUp(a: nat): (r: nat)
    ensures r % IMAGE_ALIGNMENT == 0 && a <= r < a + IMAGE_ALIGNMENT
    ensures forall b: nat :: b % IMAGE_ALIGNMENT == 0 && a <= b ==> r <= b
  {
    Aligned(a);
    (a + IMAGE_ALIGNMENT - 1) / IMAGE_ALIGNMENT * IMAGE_ALIGNMENT
  }

  lemma Aligned(a: nat)
    ensures var r := (a + IMAGE_ALIGNMENT - 1) / IMAGE_ALIGNMENT * IMAGE_ALIGNMENT;
      r % IMAGE_ALIGNMENT == 0 && a <= r < a + IMAGE_ALIGNMENT &&
      forall b: nat :: b % IMAGE_ALIGNMENT == 0 && a <= b ==> r <= b
  {
    forall b: nat | b % IMAGE_ALIGNMENT == 0 && a <= b
      ensures (a + IMAGE_ALIGNMENT - 1) / IMAGE_ALIGNMENT * IMAGE_ALIGNMENT <= b
    {
      AlignedLeast(a, b, b / IMAGE_ALIGNMENT);
    }
  }

  lemma AlignedLeast(a: nat, b: nat, k: nat)
    requires b == k * IMAGE_ALIGNMENT && a <= b
    ensures (a + IMAGE_ALIGNMENT - 1) / IMAGE_ALIGNMENT * IMAGE_ALIGNMENT <= b
  {
  }

  /** What 64-bit arithmetic makes of a number of pages. */
  function AllocationSize(pages: UInt64): UInt64 {
    pages * PAGE_SIZE % (MAX_UINT64 + 1)
  }

  /** The lowest aligned address with room for `size` bytes in one descriptor, or none if there is no such
      address. */
  ghost predicate LeastFit(ds: seq<Descriptor>, size: nat, r: Option<UInt64>) {
    (r.Some? ==> FitsSomewhere(ds, size, r.value) && forall a: nat :: FitsSomewhere(ds, size, a) ==> r.value <= a) &&
    (r.None? ==> forall a: nat :: !FitsSomewhere(ds, size, a))
  }

  /** The candidate search of `allocate_legacy_kernel_pages`. For as many pages as can be addressed it finds
      the lowest place for all of them. */
  method FindLegacyBase(ds: seq<Descriptor>, pages: UInt64) returns (r: Option<UInt64>)
    requires pages > 0
    ensures LeastFit(ds, AllocationSize(pages), r)
    ensures pages <= MAX_UINT64 / PAGE_SIZE ==> LeastFit(ds, pages * PAGE_SIZE, r)
  {
    var size := AllocationSize(pages);
    SizeExact(pages);
    var candidate: UInt64 := MAX_UINT64;
    for i := 0 to |ds|
      invariant candidate == MAX_UINT64 || FitsSomewhere(ds[..i], size, candidate)
      invariant forall a: nat :: FitsSomewhere(ds[..i], size, a) ==> candidate <= a
    {
      var d := ds[i];
      ghost var was := candidate;
      if d.kind.Conventional? && !Wraps(d) {
        var end := End(d);
        if d.start <= MAX_UINT64 - (IMAGE_ALIGNMENT - 1) {
          var start := AlignUp(d.start);
          if start < candidate && start <= end && size <= end - start { candidate := start; }
        }
      }
      Considered(ds[..i], ds[..i + 1], d, size, was, candidate);
    }
    assert ds[..|ds|] == ds;
    if candidate == MAX_UINT64 {
      BelowTop(ds, size);
      return None;
    }
    return Some(candidate);
  }

  lemma SizeExact(pages: UInt64)
    ensures AllocationSize(pages) == pages * PAGE_SIZE <==> pages <= MAX_UINT64 / PAGE_SIZE
  {
  }

  // ----- the size of a kernel -----

  /** The smallest kernel there is: its header. */
  const HEADER_SIZE: nat := 64

  datatype Placement = NoKernel | TooLarge | NoRoom | Placed(base: UInt64, kernel: UInt64)

  /** `EFI_SIZE_TO_PAGES` */
  function Pages(size: nat): (r: nat)
    ensures r * PAGE_SIZE - PAGE_SIZE < size <= r * PAGE_SIZE
  {
    size / PAGE_SIZE + if size % PAGE_SIZE != 0 then 1 else 0
  }

  /** The bytes from `a` on are free memory of one descriptor. */
  ghost predicate Free(ds: seq<Descriptor>, a: nat, size: nat) {
    exists i :: 0 <= i < |ds| && FreeIn(ds[i], a, size)
  }

  ghost predicate FreeIn(d: Descriptor, a: nat, size: nat) {
    d.kind.Conventional? && !Wraps(d) && d.start <= a && a + size <= End(d)
  }

  /** `prepare_kernel`, for a kernel that cannot be placed anywhere: sizes that do not fit the address space
      are refused, and for all others the search finds the lowest place for all pages, wherever there is one. */
  method PlaceKernel(ds: seq<Descriptor>, kernelSize: UInt64, imageSize: UInt64, textOffset: UInt64)
    returns (r: Placement)
    ensures r.NoKernel? <==> kernelSize < HEADER_SIZE
    ensures r.TooLarge? <==>
      kernelSize >= HEADER_SIZE &&
      (!InWholePages(textOffset + kernelSize) || !InWholePages(textOffset + imageSize))
    ensures r.NoRoom? ==> forall size :: RoundUp(textOffset, kernelSize, imageSize, size) ==> LeastFit(ds, size, None)
    ensures r.Placed? ==> r.kernel == r.base + textOffset
    ensures r.Placed? ==>
      forall size :: RoundUp(textOffset, kernelSize, imageSize, size) ==> LeastFit(ds, size, Some(r.base))
    ensures r.Placed? ==> Free(ds, r.kernel, kernelSize) && Free(ds, r.kernel, imageSize)
  {
    if kernelSize < HEADER_SIZE { return NoKernel; }
    var footprint: UInt64 := if kernelSize > imageSize then kernelSize else imageSize;
    WholePages(textOffset + kernelSize);
    WholePages(textOffset + imageSize);
    if textOffset > MAX_UINT64 - footprint { return TooLarge; }
    var size: UInt64 := textOffset + footprint;
    if size > MAX_UINT64 - PAGE_SIZE + 1 { return TooLarge; }
    var pages := Pages(size);
    var base := FindLegacyBase(ds, pages);
    RoundedOnce(textOffset, kernelSize, imageSize, pages);
    if base.None? { return NoRoom; }
    RoomInside(ds, pages * PAGE_SIZE, base.value, textOffset, kernelSize);
    RoomInside(ds, pages * PAGE_SIZE, base.value, textOffset, imageSize);
    return Placed(base.value, base.value + textOffset);
  }

  /** The pages from 0 on that hold so many bytes end inside the address space. */
  ghost predicate InWholePages(size: nat) {
    exists n: nat :: Whole(n, size)
  }

  predicate Whole(n: nat, size: nat) {
    size <= n * PAGE_SIZE <= MAX_UINT64
  }

  /** The least number of bytes in whole pages that has room for both sizes behind the offset. */
  ghost predicate RoundUp(textOffset: nat, kernelSize: nat, imageSize: nat, size: nat) {
    size % PAGE_SIZE == 0 && Holds(textOffset, kernelSize, imageSize, size) &&
    forall other: nat :: other % PAGE_SIZE == 0 && Holds(textOffset, kernelSize, imageSize, other) ==> size <= other
  }

  predicate Holds(textOffset: nat, kernelSize: nat, imageSize: nat, size: nat) {
    textOffset + kernelSize <= size && textOffset + imageSize <= size
  }

  lemma RoundedOnce(textOffset: nat, kernelSize: nat, imageSize: nat, pages: nat)
    requires pages == Pages(textOffset + if kernelSize > imageSize then kernelSize else imageSize)
    ensures forall size :: RoundUp(textOffset, kernelSize, imageSize, size) <==> size == pages * PAGE_SIZE
  {
    var need := textOffset + if kernelSize > imageSize then kernelSize else imageSize;
    assert Holds(textOffset, kernelSize, imageSize, pages * PAGE_SIZE) && pages * PAGE_SIZE % PAGE_SIZE == 0;
    forall other: nat | other % PAGE_SIZE == 0 && Holds(textOffset, kernelSize, imageSize, other)
      ensures pages * PAGE_SIZE <= other
    {
      assert other == other / PAGE_SIZE * PAGE_SIZE;
    }
  }

  lemma WholePages(size: nat)
    ensures InWholePages(size) <==> size <= MAX_UINT64 + 1 - PAGE_SIZE
  {
    if size <= MAX_UINT64 + 1 - PAGE_SIZE { assert Whole(Pages(size), size); }
  }

  lemma RoomInside(ds: seq<Descriptor>, size: nat, a: nat, textOffset: nat, footprint: nat)
    requires FitsSomewhere(ds, size, a) && textOffset + footprint <= size
    ensures a + textOffset <= MAX_UINT64 && Free(ds, a + textOffset, footprint)
  {
    var i :| 0 <= i < |ds| && Fits(ds[i], size, a);
    assert FreeIn(ds[i], a + textOffset, footprint);
  }

  /** More pages than that fit nowhere, and then the search is right exactly when it finds nothing. */
  lemma LegacyExactly(ds: seq<Descriptor>, pages: UInt64, r: Option<UInt64>)
    requires LeastFit(ds, AllocationSize(pages), r)
    ensures LeastFit(ds, pages * PAGE_SIZE, r) <==> pages <= MAX_UINT64 / PAGE_SIZE || r.None?
  {
    SizeExact(pages);
    if pages > MAX_UINT64 / PAGE_SIZE {
      forall a: nat ensures !FitsSomewhere(ds, pages * PAGE_SIZE, a) {}
    }
  }

  /** It would find something: here room for one page, if 2^52 + 1 were asked for. */
  lemma WrappedPages()
    ensures var ds, pages := [Descriptor(Conventional, 0, 1, false)], 0x10_0000_0000_0001;
      LeastFit(ds, AllocationSize(pages), Some(0)) && !LeastFit(ds, pages * PAGE_SIZE, Some(0))
  {
    var ds, pages := [Descriptor(Conventional, 0, 1, false)], 0x10_0000_0000_0001;
    assert AllocationSize(pages) == PAGE_SIZE;
    assert Fits(ds[0], PAGE_SIZE, 0);
    LegacyExactly(ds, pages, Some(0));
  }

  /** No aligned address lies in the topmost bytes of the address space. */
  lemma FitsAbove(d: Descriptor, size: nat, a: nat)
    requires Fits(d, size, a)
    ensures d.start <= MAX_UINT64 - (IMAGE_ALIGNMENT - 1) && AlignUp(d.start) <= a
  {
    assert a <= MAX_UINT64;
    assert (MAX_UINT64 + 1) % IMAGE_ALIGNMENT == 0;
    assert a <= MAX_UINT64 + 1 - IMAGE_ALIGNMENT;
  }

  lemma BelowTop(ds: seq<Descriptor>, size: nat)
    ensures forall a: nat :: FitsSomewhere(ds, size, a) ==> a < MAX_UINT64
  {
    forall a: nat | FitsSomewhere(ds, size, a) ensures a < MAX_UINT64 {
      var i :| 0 <= i < |ds| && Fits(ds[i], size, a);
      assert a % IMAGE_ALIGNMENT == 0;
    }
  }

  lemma Considered(before: seq<Descriptor>, after: seq<Descriptor>, d: Descriptor, size: nat, was: UInt64, now: UInt64)
    requires after == before + [d]
    requires was == MAX_UINT64 || FitsSomewhere(before, size, was)
    requires forall a: nat :: FitsSomewhere(before, size, a) ==> was <= a
    requires if d.kind.Conventional? && !Wraps(d) && d.start <= MAX_UINT64 - (IMAGE_ALIGNMENT - 1) &&
                AlignUp(d.start) < was && AlignUp(d.start) + size <= End(d)
      then now == AlignUp(d.start) else now == was
    ensures now == MAX_UINT64 || FitsSomewhere(after, size, now)
    ensures forall a: nat :: FitsSomewhere(after, size, a) ==> now <= a
  {
    FitsSnoc(before, after, d, size, now);
    forall a: nat | FitsSomewhere(after, size, a) ensures now <= a {
      FitsSnoc(before, after, d, size, a);
      if Fits(d, size, a) { FitsAbove(d, size, a); }
    }
  }

  lemma FitsSnoc(before: seq<Descriptor>, after: seq<Descriptor>, d: Descriptor, size: nat, a: nat)
    requires after == before + [d]
    ensures FitsSomewhere(after, size, a) <==> FitsSomewhere(before, size, a) || Fits(d, size, a)
  {
    if FitsSomewhere(before, size, a) {
      var k :| 0 <= k < |before| && Fits(before[k], size, a);
      assert after[k] == before[k];
    }
    if FitsSomewhere(after, size, a) {
      var k :| 0 <= k < |after| && Fits(after[k], size, a);
      if k < |before| { assert before[k] == after[k]; }
    }
    if Fits(d, size, a) { assert after[|before|] == d; }
  }
}
