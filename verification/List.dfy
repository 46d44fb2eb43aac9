/** The doubly linked list of `embloader/src/lib/list.c`. A list is known by the sequence of its nodes. */
module List {
  import opened ListSort

  class Node<T> {
    var prev: Node?<T>
    var next: Node?<T>
    const data: T

    constructor (data: T)
      ensures this.data == data && prev == null && next == null
    {
      this.data := data;
      prev, next := null, null;
    }
  }

  /** Neighbours of `s` are linked both ways. */
  ghost predicate Chain<T>(s: seq<Node<T>>)
    reads s
  {
    forall k :: 0 <= k < |s| - 1 ==> s[k].next == s[k + 1] && s[k + 1].prev == s[k]
  }

  ghost predicate Distinct<T>(s: seq<Node<T>>) {
    forall i, j :: 0 <= i < j < |s| ==> s[i] != s[j]
  }

  ghost predicate Disjoint<T>(s: seq<Node<T>>, t: seq<Node<T>>) {
    forall i, j :: 0 <= i < |s| && 0 <= j < |t| ==> s[i] != t[j]
  }

  /** The nodes of `s`, each once, form one whole list in this order. */
  ghost predicate Linked<T>(s: seq<Node<T>>)
    reads s
  {
    s != [] && Distinct(s) && Chain(s) && s[0].prev == null && s[|s| - 1].next == null
  }

  /** The neighbours of a node are what its pointers say. */
  lemma Around<T>(s: seq<Node<T>>, k: nat)
    requires Linked(s) && k < |s|
    ensures s[k].prev == (if k > 0 then s[k - 1] else null) && (s[k].prev == null <==> k == 0)
    ensures s[k].next == (if k + 1 < |s| then s[k + 1] else null) && (s[k].next == null <==> k + 1 == |s|)
  {
    if k > 0 { assert s[k - 1].next == s[k]; }
  }

  lemma ChainJoin<T>(a: seq<Node<T>>, b: seq<Node<T>>)
    requires Chain(a) && Chain(b)
    requires a != [] && b != [] ==> a[|a| - 1].next == b[0] && b[0].prev == a[|a| - 1]
    ensures Chain(a + b)
  {
  }

  lemma DistinctJoin<T>(a: seq<Node<T>>, b: seq<Node<T>>)
    requires Distinct(a) && Distinct(b) && Disjoint(a, b)
    ensures Distinct(a + b)
  {
  }

  lemma DistinctSplit<T>(s: seq<Node<T>>, k: nat)
    requires Distinct(s) && k <= |s|
    ensures Distinct(s[..k]) && Distinct(s[k..]) && Disjoint(s[..k], s[k..])
  {
  }

  lemma DisjointParts<T>(s: seq<Node<T>>, t: seq<Node<T>>, k: nat)
    requires Disjoint(s, t) && k <= |s|
    ensures Disjoint(s[..k], t) && Disjoint(s[k..], t) && Disjoint(t, s[..k]) && Disjoint(t, s[k..])
  {
  }

  method First<T>(point: Node<T>, ghost s: seq<Node<T>>, ghost k: nat) returns (first: Node<T>)
    requires Linked(s) && k < |s| && s[k] == point
    ensures first == s[0]
  {
    var cur := point;
    ghost var i := k;
    while cur.prev != null
      invariant 0 <= i < |s| && s[i] == cur
      decreases i
    {
      Around(s, i);
      cur := cur.prev;
      i := i - 1;
    }
    Around(s, i);
    return cur;
  }

  method Last<T>(point: Node<T>, ghost s: seq<Node<T>>, ghost k: nat) returns (last: Node<T>)
    requires Linked(s) && k < |s| && s[k] == point
    ensures last == s[|s| - 1]
  {
    var cur := point;
    ghost var i := k;
    while cur.next != null
      invariant 0 <= i < |s| && s[i] == cur
      decreases |s| - i
    {
      Around(s, i);
      cur := cur.next;
      i := i + 1;
    }
    Around(s, i);
    return cur;
  }

  /** Links the list `t` between the parts `a` and `b`, whose ends point wherever they did. */
  method Splice<T>(ghost a: seq<Node<T>>, ghost t: seq<Node<T>>, ghost b: seq<Node<T>>, left: Node<T>, f: Node<T>,
                   l: Node<T>, right: Node<T>)
    requires a != [] && t != [] && b != [] && Distinct(a) && Distinct(t) && Distinct(b)
    requires Disjoint(a, t) && Disjoint(a, b) && Disjoint(t, b) && Chain(a) && Chain(t) && Chain(b)
    requires a[|a| - 1] == left && t[0] == f && t[|t| - 1] == l && b[0] == right
    requires a[0].prev == null && b[|b| - 1].next == null
    modifies left`next, f`prev, l`next, right`prev
    ensures Linked(a + t + b)
  {
    right.prev := l;
    l.next := right;
    left.next := f;
    f.prev := left;
    ChainJoin(a, t);
    ChainJoin(a + t, b);
    DistinctJoin(a, t);
    assert Disjoint(a + t, b);
    DistinctJoin(a + t, b);
  }

  /** Links `f`, which starts the part `b`, behind `l`, which ends the part `a`. */
  method Join<T>(ghost a: seq<Node<T>>, ghost b: seq<Node<T>>, l: Node<T>, f: Node<T>)
    requires a != [] && b != [] && Distinct(a) && Distinct(b) && Disjoint(a, b) && Chain(a) && Chain(b)
    requires a[|a| - 1] == l && b[0] == f && a[0].prev == null && b[|b| - 1].next == null
    modifies l`next, f`prev
    ensures Linked(a + b) && l.next == f && f.prev == l
  {
    l.next := f;
    f.prev := l;
    ChainJoin(a, b);
    DistinctJoin(a, b);
  }

  /** `list_add`: the list of `node` comes behind `point`. At the end of a list the source links `node`
      itself: what was in front of `node` is left behind, and its last node still points to `node`. */
  method Add<T>(point: Node<T>, node: Node<T>, ghost s: seq<Node<T>>, ghost k: nat, ghost t: seq<Node<T>>, ghost m: nat)
    requires Linked(s) && Linked(t) && Disjoint(s, t)
    requires k < |s| && s[k] == point && m < |t| && t[m] == node
    modifies s, t
    ensures k + 1 < |s| || m == 0 ==> Linked(s[..k + 1] + t + s[k + 1..])
    ensures k + 1 == |s| ==> Linked(s + t[m..]) && (m > 0 ==> t[m - 1].next == node && node.prev == point)
  {
    ghost var a, b := s[..k + 1], s[k + 1..];
    DistinctSplit(s, k + 1);
    DisjointParts(s, t, k + 1);
    Around(s, k);
    if point.next == null {
      DistinctSplit(t, m);
      Around(t, m);
      assert a == s && s + t + b == s + t && (m == 0 ==> t[m..] == t);
      Join(s, t[m..], point, node);
    } else {
      var f := First(node, t, m);
      var l := Last(node, t, m);
      Splice(a, t, b, point, f, l, point.next);
    }
  }

  /** `list_insert`: the list of `node` comes in front of `point`. */
  method Insert<T>(point: Node<T>, node: Node<T>, ghost s: seq<Node<T>>, ghost k: nat, ghost t: seq<Node<T>>,
                   ghost m: nat)
    requires Linked(s) && Linked(t) && Disjoint(s, t)
    requires k < |s| && s[k] == point && m < |t| && t[m] == node
    modifies s, t
    ensures Linked(s[..k] + t + s[k..])
  {
    ghost var a, b := s[..k], s[k..];
    DistinctSplit(s, k);
    DisjointParts(s, t, k);
    var l := Last(node, t, m);
    Around(s, k);
    if point.prev == null {
      assert b == s && a == [] && a + t + s == t + s;
      Join(t, s, l, point);
    } else {
      var f := First(node, t, m);
      Splice(a, t, b, point.prev, f, l, point);
    }
  }

  /** `list_remove`: the node leaves its list, which closes up. A lone node is left alone. */
  method Remove<T>(point: Node<T>, ghost s: seq<Node<T>>, ghost k: nat) returns (ok: bool)
    requires Linked(s) && k < |s| && s[k] == point
    modifies s
    ensures ok <==> |s| > 1
    ensures ok ==> Linked(s[..k] + s[k + 1..])
    ensures point.prev == null && point.next == null
  {
    ghost var a, b := s[..k], s[k + 1..];
    DistinctSplit(s, k);
    DistinctSplit(s[k..], 1);
    assert s[k..][1..] == b;
    assert Disjoint(a, b) by { assert forall j :: 0 <= j < |b| ==> b[j] == s[k..][j + 1]; }
    Around(s, k);
    ok := true;
    if point.next != null && point.prev != null {
      point.prev.next := point.next;
      point.next.prev := point.prev;
    } else if point.next != null {
      point.next.prev := null;
    } else if point.prev != null {
      point.prev.next := null;
    } else {
      return false;
    }
    point.prev := null;
    point.next := null;
    ChainJoin(a, b);
    DistinctJoin(a, b);
  }

  /** `list_obj_strip`: takes a node out of the list a pointer holds. The pointer moves on if it held
      that very node. */
  method Strip<T>(lst: Node<T>, item: Node<T>, ghost s: seq<Node<T>>, ghost h: nat, ghost k: nat)
    returns (ok: bool, lst': Node?<T>)
    requires Linked(s) && h < |s| && s[h] == lst && k < |s| && s[k] == item
    modifies s
    ensures ok
    ensures |s| == 1 ==> lst' == null
    ensures |s| > 1 ==> Linked(s[..k] + s[k + 1..]) && lst' in s[..k] + s[k + 1..]
    ensures item.prev == null && item.next == null
  {
    lst' := lst;
    Around(s, k);
    Around(s, h);
    ghost var r := s[..k] + s[k + 1..];
    assert k > 0 ==> r[k - 1] == s[k - 1];
    assert k + 1 < |s| ==> r[k] == s[k + 1];
    assert h < k ==> r[h] == s[h];
    assert h > k ==> r[h - 1] == s[h];
    if lst.prev == null && lst.next == null {
      lst' := null;
    } else if lst == item {
      if item.prev != null { lst' := item.prev; }
      if item.next != null { lst' := item.next; }
    }
    var removed := Remove(item, s, k);
    return true, lst';
  }

  // ------------------------------------------------------------- sorting

  /** A sorter looks at the data of the nodes. */
  ghost function ByData<T>(sorter: (T, T) -> bool): (Node<T>, Node<T>) -> bool {
    (a: Node<T>, b: Node<T>) => sorter(a.data, b.data)
  }

  /** Two neighbours change places in the sequence. */
  ghost function Swap<T>(s: seq<Node<T>>, k: nat): seq<Node<T>>
    requires k + 1 < |s|
  {
    s[..k] + [s[k + 1], s[k]] + s[k + 2..]
  }

  ghost function Nodes<T>(s: seq<Node<T>>): set<Node<T>> {
    set n | n in s
  }

  lemma SameNodes<T>(s: seq<Node<T>>, t: seq<Node<T>>)
    requires multiset(s) == multiset(t)
    ensures Nodes(s) == Nodes(t)
  {
    SameMembers(s, t);
  }

  /** `list_swap_neighbor`. */
  method SwapNeighbor<T>(p1: Node<T>, p2: Node<T>, ghost s: seq<Node<T>>, ghost k: nat)
    requires Linked(s) && k + 1 < |s| && s[k] == p1 && s[k + 1] == p2
    modifies Nodes(s)
    ensures Linked(Swap(s, k))
  {
    ghost var a, b := s[..k], s[k + 2..];
    Around(s, k);
    Around(s, k + 1);
    SwapDistinct(s, k);
    if p1.prev != null { p1.prev.next := p2; }
    if p2.next != null { p2.next.prev := p1; }
    p1.next, p2.prev := p2.next, p1.prev;
    p1.prev, p2.next := p2, p1;
    ChainJoin(a, [p2, p1]);
    ChainJoin(a + [p2, p1], b);
  }

  lemma SwapDistinct<T>(s: seq<Node<T>>, k: nat)
    requires Distinct(s) && k + 1 < |s|
    ensures Distinct(Swap(s, k))
  {
  }

  lemma SwapMembers<T>(s: seq<Node<T>>, k: nat)
    requires k + 1 < |s|
    ensures multiset(Swap(s, k)) == multiset(s)
  {
    assert s == s[..k] + [s[k], s[k + 1]] + s[k + 2..];
  }

  /** The pass over `s` has reached position `k` and made `r` of it. */
  ghost predicate Scanning<T>(less: (Node<T>, Node<T>) -> bool, s: seq<Node<T>>, r: seq<Node<T>>, k: nat,
                              changed: bool) {
    multiset(r) == multiset(s) && Nodes(r) == Nodes(s) && k <= |r| == |s| &&
    r[..k] + Pass(less, r[k..]) == Pass(less, s) &&
    HasDescent(less, s) == (changed || HasDescent(less, r[k..]))
  }

  lemma ScanStart<T>(less: (Node<T>, Node<T>) -> bool, s: seq<Node<T>>)
    ensures Scanning(less, s, s, 0, false)
  {
    assert s[0..] == s && s[..0] + Pass(less, s) == Pass(less, s);
  }

  lemma ScanKeep<T>(less: (Node<T>, Node<T>) -> bool, s: seq<Node<T>>, r: seq<Node<T>>, k: nat, changed: bool)
    requires Scanning(less, s, r, k, changed) && k < |r|
    requires k + 1 < |r| ==> !less(r[k], r[k + 1])
    ensures Scanning(less, s, r, k + 1, changed)
  {
    hide Pass, HasDescent;
    var rest := r[k..];
    PassStep(less, rest);
    assert rest[1..] == r[k + 1..];
    assert r[..k + 1] == r[..k] + [rest[0]];
    assert r[..k] + ([rest[0]] + Pass(less, rest[1..])) == r[..k] + [rest[0]] + Pass(less, rest[1..]);
  }

  lemma ScanSwap<T>(less: (Node<T>, Node<T>) -> bool, s: seq<Node<T>>, r: seq<Node<T>>, k: nat, changed: bool)
    requires Scanning(less, s, r, k, changed) && k + 1 < |r| && less(r[k], r[k + 1])
    ensures Scanning(less, s, Swap(r, k), k + 2, true)
  {
    hide Pass, HasDescent;
    var rest, q := r[k..], Swap(r, k);
    PassStep(less, rest);
    SwapMembers(r, k);
    SameNodes(q, r);
    assert rest[2..] == q[k + 2..];
    assert q[..k + 2] == r[..k] + [rest[1], rest[0]];
    assert r[..k] + ([rest[1], rest[0]] + Pass(less, rest[2..])) == r[..k] + [rest[1], rest[0]] + Pass(less, rest[2..]);
  }

  lemma ScanEnd<T>(less: (Node<T>, Node<T>) -> bool, s: seq<Node<T>>, r: seq<Node<T>>, k: nat, changed: bool)
    requires Scanning(less, s, r, k, changed) && k == |r|
    ensures r == Pass(less, s) && changed == HasDescent(less, s)
  {
    NothingLeft(less, r[k..]);
    assert r[..k] + r[k..] == r;
  }

  /** One pass of `list_sort` over the list `s`. */
  method SortPass<T>(lst: Node<T>, sorter: (T, T) -> bool, ghost s: seq<Node<T>>, ghost h: nat)
    returns (changed: bool, ghost r: seq<Node<T>>)
    requires Linked(s) && h < |s| && s[h] == lst
    modifies Nodes(s)
    ensures r == Pass(ByData(sorter), s) && Linked(r)
    ensures changed == HasDescent(ByData(sorter), s)
  {
    hide Pass, HasDescent, Linked, Nodes;
    ghost var less := ByData(sorter);
    changed := false;
    var f: Node?<T> := First(lst, s, h);
    r := s;
    ghost var k := 0;
    ScanStart(less, s);
    NotEmpty(s);
    while f != null
      invariant Linked(r) && Scanning(less, s, r, k, changed)
      invariant f == if k < |r| then r[k] else null
      decreases |s| - k
    {
      Around(r, k);
      if f.next == null {
        ScanKeep(less, s, r, k, changed);
        f, k := null, k + 1;
        continue;
      }
      if !sorter(f.data, f.next.data) {
        ScanKeep(less, s, r, k, changed);
        f, k := f.next, k + 1;
        continue;
      }
      SwapNeighbor(f, f.next, r, k);
      ScanSwap(less, s, r, k, changed);
      r, changed := Swap(r, k), true;
      Around(r, k + 1);
      f, k := f.next, k + 2;
    }
    ScanEnd(less, s, r, k, changed);
  }

  lemma NotEmpty<T>(s: seq<Node<T>>)
    requires Linked(s)
    ensures s != []
  {
  }

  lemma NothingLeft<T>(f: (T, T) -> bool, s: seq<T>)
    requires s == []
    ensures Pass(f, s) == s && !HasDescent(f, s)
  {
  }

  /** What a pass does at the front. */
  lemma PassStep<T>(f: (T, T) -> bool, s: seq<T>)
    requires s != []
    ensures |s| == 1 ==> Pass(f, s) == [s[0]] + Pass(f, s[1..]) && HasDescent(f, s) == HasDescent(f, s[1..]) == false
    ensures |s| > 1 && f(s[0], s[1]) ==> Pass(f, s) == [s[1], s[0]] + Pass(f, s[2..]) && HasDescent(f, s)
    ensures |s| > 1 && !f(s[0], s[1]) ==>
      Pass(f, s) == [s[0]] + Pass(f, s[1..]) && HasDescent(f, s) == HasDescent(f, s[1..])
  {
  }

  /** `list_sort`: terminates for every asymmetric sorter and leaves a whole list of the same nodes, in
      the order of `Sorted`; the number of passes is returned. */
  method Sort<T>(lst: Node<T>, sorter: (T, T) -> bool, ghost s: seq<Node<T>>, ghost h: nat)
    returns (passes: nat, ghost r: seq<Node<T>>)
    requires Linked(s) && h < |s| && s[h] == lst
    requires Asymmetric(ByData(sorter), s)
    modifies Nodes(s)
    ensures r == Sorted(ByData(sorter), s) && Linked(r)
  {
    hide Linked, Asymmetric, ByData, Inversions, HasDescent, Pass;
    ghost var less := ByData(sorter);
    passes, r := 0, s;
    ghost var k := h;
    var changed := true;
    while changed
      invariant Linked(r) && multiset(r) == multiset(s) && Nodes(r) == Nodes(s) && 0 <= k < |r| && r[k] == lst
      invariant Asymmetric(less, r) && Sorted(less, r) == Sorted(less, s)
      invariant !changed ==> !HasDescent(less, r)
      decreases Inversions(less, r), if changed then 1 else 0
    {
      ghost var t := r;
      PassRemoves(less, t);
      PassAsymmetric(less, t);
      PassPermutes(less, t);
      SameNodes(t, s);
      SameNodes(Pass(less, t), t);
      SameMembers(Pass(less, t), t);
      changed, r := SortPass(lst, sorter, t, k);
      assert lst in r;
      k :| 0 <= k < |r| && r[k] == lst;
      passes := passes + 1;
    }
  }

  // ------------------------------------------------------------- reversal

  ghost function Reversed<T>(s: seq<T>): (r: seq<T>)
    ensures |r| == |s| && forall k :: 0 <= k < |s| ==> r[k] == s[|s| - 1 - k]
  {
    if s == [] then [] else Reversed(s[1..]) + [s[0]]
  }

  /** `list_reverse`: every node swaps its pointers, which leaves the whole list in reverse. */
  method Reverse<T>(lst: Node<T>, ghost s: seq<Node<T>>, ghost h: nat)
    requires Linked(s) && h < |s| && s[h] == lst
    modifies s
    ensures Linked(Reversed(s))
  {
    var l: Node?<T> := First(lst, s, h);
    ghost var k := 0;
    while l != null
      invariant 0 <= k <= |s| && l == if k < |s| then s[k] else null
      invariant forall i :: 0 <= i < k ==> s[i].next == old(s[i].prev) && s[i].prev == old(s[i].next)
      invariant forall i :: k <= i < |s| ==> s[i].next == old(s[i].next) && s[i].prev == old(s[i].prev)
      decreases |s| - k
    {
      var n := l.prev;
      l.prev := l.next;
      l.next := n;
      l := l.prev;
      k := k + 1;
    }
  }
}
