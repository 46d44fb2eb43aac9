/** The configuration tree as the source keeps it: nodes in memory with parent links, keys and indices
    (`embloader/src/configfile/node.c`, `array.c`, `map.c`). A ghost shape says which nodes make up a tree. */
module ConfigNode {
  import opened Wrappers
  import opened ConfigTree

  datatype Kind = NullKind | ValueKind | ArrayKind | MapKind

  class Node {
    var parent: Node?
    var key: Option<string>
    var index: int
    var kind: Kind
    var items: seq<Node>
    var value: Value

    constructor ()
      ensures parent == null && key.None? && index == -1 && kind.NullKind? && items == []
    {
      parent, key, index, kind, items := null, None, -1, NullKind, [];
      value := Integer(0);
    }
  }

  /** The nodes of a tree, each above its children. */
  datatype Shape = Shape(node: Node, kids: seq<Shape>)

  // ------------------------------------------------------------- shapes

  ghost function Refs(sh: Shape): set<Node> {
    {sh.node} + RefsAll(sh.kids)
  }

  ghost function RefsAll(ks: seq<Shape>): set<Node> {
    if ks == [] then {} else Refs(ks[0]) + RefsAll(ks[1..])
  }

  /** Every node occurs once. */
  ghost predicate Tidy(sh: Shape) {
    sh.node !in RefsAll(sh.kids) && TidyAll(sh.kids)
  }

  ghost predicate TidyAll(ks: seq<Shape>) {
    ks == [] || (Tidy(ks[0]) && TidyAll(ks[1..]) && Refs(ks[0]) !! RefsAll(ks[1..]))
  }

  ghost function Heads(ks: seq<Shape>): (r: seq<Node>)
    ensures |r| == |ks| && forall k :: 0 <= k < |ks| ==> r[k] == ks[k].node
  {
    if ks == [] then [] else [ks[0].node] + Heads(ks[1..])
  }

  /** The memory holds the shape: item lists and parent links agree, only containers have children,
      children of an array are numbered, children of a map have keys. */
  ghost predicate Holds(sh: Shape)
    reads Refs(sh)`items, Refs(sh)`kind, RefsAll(sh.kids)`parent, RefsAll(sh.kids)`index, RefsAll(sh.kids)`key
    decreases sh, 0
  {
    sh.node.items == Heads(sh.kids) &&
    (sh.kids == [] || sh.node.kind.ArrayKind? || sh.node.kind.MapKind?) &&
    HoldsAll(sh.kids, sh.node, sh.node.kind, 0)
  }

  ghost predicate HoldsAll(ks: seq<Shape>, parent: Node, kind: Kind, from: nat)
    reads RefsAll(ks)`items, RefsAll(ks)`kind, RefsAll(ks)`parent, RefsAll(ks)`index, RefsAll(ks)`key
    decreases ks, 2
  {
    ks == [] || (Child(ks[0], parent, kind, from) && HoldsAll(ks[1..], parent, kind, from + 1))
  }

  ghost predicate Child(c: Shape, parent: Node, kind: Kind, index: nat)
    reads Refs(c)`items, Refs(c)`kind, Refs(c)`parent, Refs(c)`index, Refs(c)`key
    decreases c, 1
  {
    c.node.parent == parent && (kind.ArrayKind? ==> c.node.index == index) && (kind.MapKind? ==> c.node.key.Some?) &&
    Holds(c)
  }

  // ------------------------------------------------------------- the tree a shape stands for

  ghost function KeyText(n: Node): string
    reads n`key
  {
    if n.key.Some? then n.key.value else ""
  }

  ghost function TreeOf(sh: Shape): Tree
    reads Refs(sh)`kind, Refs(sh)`value, RefsAll(sh.kids)`key
  {
    match sh.node.kind
    case NullKind => Null
    case ValueKind => Leaf(sh.node.value)
    case ArrayKind => Array(TreesOf(sh.kids))
    case MapKind => Map(EntriesOf(sh.kids))
  }

  ghost function TreesOf(ks: seq<Shape>): (r: seq<Tree>)
    reads RefsAll(ks)`kind, RefsAll(ks)`value, RefsAll(ks)`key
    ensures |r| == |ks|
  {
    if ks == [] then [] else [TreeOf(ks[0])] + TreesOf(ks[1..])
  }

  ghost function EntriesOf(ks: seq<Shape>): (r: seq<Entry>)
    reads RefsAll(ks)`kind, RefsAll(ks)`value, RefsAll(ks)`key
    ensures |r| == |ks|
  {
    if ks == [] then [] else [Entry(KeyText(ks[0].node), TreeOf(ks[0]))] + EntriesOf(ks[1..])
  }

  /** A tree on its own: whole, in memory, and below no other node. */
  ghost predicate Whole(sh: Shape)
    reads Refs(sh)
  {
    Tidy(sh) && Holds(sh)
  }

  // ------------------------------------------------------------- children by parts

  lemma {:induction false} RefsAppend(a: seq<Shape>, b: seq<Shape>)
    ensures RefsAll(a + b) == RefsAll(a) + RefsAll(b)
  {
    if a == [] {
      assert a + b == b;
    } else {
      assert (a + b)[1..] == a[1..] + b;
      RefsAppend(a[1..], b);
    }
  }

  lemma {:induction false} TidyAppend(a: seq<Shape>, b: seq<Shape>)
    ensures TidyAll(a + b) <==> TidyAll(a) && TidyAll(b) && RefsAll(a) !! RefsAll(b)
  {
    if a == [] {
      assert a + b == b;
    } else {
      assert (a + b)[1..] == a[1..] + b;
      TidyAppend(a[1..], b);
      RefsAppend(a[1..], b);
    }
  }

  lemma {:induction false} HoldsAppend(a: seq<Shape>, b: seq<Shape>, parent: Node, kind: Kind, from: nat)
    ensures HoldsAll(a + b, parent, kind, from) <==>
      HoldsAll(a, parent, kind, from) && HoldsAll(b, parent, kind, from + |a|)
  {
    if a == [] {
      assert a + b == b;
    } else {
      assert (a + b)[1..] == a[1..] + b;
      HoldsAppend(a[1..], b, parent, kind, from + 1);
    }
  }

  lemma {:induction false} TreesAppend(a: seq<Shape>, b: seq<Shape>)
    ensures TreesOf(a + b) == TreesOf(a) + TreesOf(b)
    ensures EntriesOf(a + b) == EntriesOf(a) + EntriesOf(b)
  {
    if a == [] {
      assert a + b == b;
    } else {
      assert (a + b)[1..] == a[1..] + b;
      TreesAppend(a[1..], b);
    }
  }

  lemma OneKid(c: Shape, parent: Node, kind: Kind, from: nat)
    ensures RefsAll([c]) == Refs(c) && (TidyAll([c]) <==> Tidy(c))
    ensures HoldsAll([c], parent, kind, from) <==> Child(c, parent, kind, from)
    ensures TreesOf([c]) == [TreeOf(c)] && EntriesOf([c]) == [Entry(KeyText(c.node), TreeOf(c))]
  {
    assert [c][1..] == [];
  }

  // ------------------------------------------------------------- nodes

  /** `confignode_new`, when memory may run out. */
  method NewNode(plenty: bool, kind: Kind) returns (n: Node?)
    ensures plenty ==> n != null
    ensures n != null ==> fresh(n) && n.parent == null && n.key.None? && n.kind == kind && n.items == []
  {
    var fails: bool := *;
    if fails && !plenty { return null; }
    n := new Node();
    n.kind := kind;
  }

  method NewValue(plenty: bool, value: Value) returns (n: Node?)
    ensures plenty ==> n != null
    ensures n != null ==>
      fresh(n) && n.parent == null && n.key.None? && n.kind.ValueKind? && n.items == [] && n.value == value
  {
    var fails: bool := *;
    if fails && !plenty { return null; }
    n := new Node();
    n.kind, n.value := ValueKind, value;
  }

  lemma LoneNode(n: Node)
    requires n.items == []
    ensures Whole(Shape(n, [])) && Refs(Shape(n, [])) == {n}
    ensures n.kind.NullKind? ==> TreeOf(Shape(n, [])) == Null
    ensures n.kind.ValueKind? ==> TreeOf(Shape(n, [])) == Leaf(n.value)
    ensures n.kind.ArrayKind? ==> TreeOf(Shape(n, [])) == Array([])
    ensures n.kind.MapKind? ==> TreeOf(Shape(n, [])) == Map([])
  {
  }

  // ------------------------------------------------------------- arrays

  /** The children that do not carry their own position. */
  ghost function Misnumbered(ks: seq<Shape>): set<Node>
    reads set k | 0 <= k < |ks| :: ks[k].node
  {
    set k | 0 <= k < |ks| && ks[k].node.index != k :: ks[k].node
  }

  /** `configfile_array_fixup`: the children of an array are numbered again. Writing a number that is
      there already makes no difference, and is not done here. */
  method ArrayFixup(node: Node, ghost ks: seq<Shape>)
    requires node.kind.ArrayKind? && node.items == Heads(ks)
    requires forall i, j :: 0 <= i < j < |ks| ==> ks[i].node != ks[j].node
    requires forall k :: 0 <= k < |ks| ==> ks[k].node.parent == node
    modifies Misnumbered(ks)`index
    ensures forall k :: 0 <= k < |ks| ==> ks[k].node.index == k
  {
    for i := 0 to |node.items|
      invariant forall k :: 0 <= k < i ==> ks[k].node.index == k
      invariant forall k :: i <= k < |ks| ==> ks[k].node.index == old(ks[k].node.index)
    {
      var n := node.items[i];
      assert n == ks[i].node;
      if n.parent != node || n.index == i { continue; }
      n.index := i;
    }
  }

  lemma {:induction false} HeadsDistinct(ks: seq<Shape>)
    requires TidyAll(ks)
    ensures forall i, j :: 0 <= i < j < |ks| ==> ks[i].node != ks[j].node
    ensures forall k :: 0 <= k < |ks| ==> ks[k].node in RefsAll(ks)
  {
    if ks != [] {
      HeadsDistinct(ks[1..]);
      assert forall k :: 0 < k < |ks| ==> ks[k] == ks[1..][k - 1];
    }
  }

  lemma {:induction false} ChildAt(ks: seq<Shape>, parent: Node, kind: Kind, from: nat, k: nat)
    requires HoldsAll(ks, parent, kind, from) && k < |ks|
    ensures Child(ks[k], parent, kind, from + k)
  {
    if k > 0 {
      ChildAt(ks[1..], parent, kind, from + 1, k - 1);
      assert ks[1..][k - 1] == ks[k];
    }
  }

  lemma HeadsAppend(a: seq<Shape>, b: seq<Shape>)
    ensures Heads(a + b) == Heads(a) + Heads(b)
  {
    assert |Heads(a + b)| == |a + b|;
  }

  /** Children apart from one another. */
  ghost predicate Apart(a: seq<Shape>, c: Shape, b: seq<Shape>) {
    TidyAll(a) && Tidy(c) && TidyAll(b) &&
    RefsAll(a) !! Refs(c) && RefsAll(a) !! RefsAll(b) && Refs(c) !! RefsAll(b)
  }

  lemma Tidy3(a: seq<Shape>, c: Shape, b: seq<Shape>)
    ensures RefsAll(a + [c] + b) == RefsAll(a) + Refs(c) + RefsAll(b)
    ensures TidyAll(a + [c] + b) <==> Apart(a, c, b)
  {
    hide RefsAll, TidyAll, Tidy, Refs;
    RefsAppend(a, [c]);
    RefsAppend(a + [c], b);
    TidyAppend(a, [c]);
    TidyAppend(a + [c], b);
    OneKid(c, c.node, NullKind, 0);
  }

  lemma Holds3(a: seq<Shape>, c: Shape, b: seq<Shape>, parent: Node, kind: Kind)
    ensures HoldsAll(a + [c] + b, parent, kind, 0) <==>
      HoldsAll(a, parent, kind, 0) && Child(c, parent, kind, |a|) && HoldsAll(b, parent, kind, |a| + 1)
    ensures Heads(a + [c] + b) == Heads(a) + [c.node] + Heads(b)
  {
    hide HoldsAll, Child, Heads;
    OneKid(c, parent, kind, |a|);
    HoldsAppend(a, [c], parent, kind, 0);
    HoldsAppend(a + [c], b, parent, kind, 0);
    HeadsAppend(a, [c]);
    HeadsAppend(a + [c], b);
    HeadOf(c);
  }

  lemma HeadOf(c: Shape)
    ensures Heads([c]) == [c.node]
  {
  }

  /** A container whose child at one place is `c`, if all children are linked. */
  lemma Assembled(node: Node, a: seq<Shape>, c: Shape, b: seq<Shape>)
    requires Apart(a, c, b) && node !in RefsAll(a) && node !in Refs(c) && node !in RefsAll(b)
    requires node.kind.ArrayKind? || node.kind.MapKind?
    requires HoldsAll(a, node, node.kind, 0) && Child(c, node, node.kind, |a|) && HoldsAll(b, node, node.kind, |a| + 1)
    requires node.items == Heads(a) + [c.node] + Heads(b)
    ensures Whole(Shape(node, a + [c] + b))
    ensures RefsAll(a + [c] + b) == RefsAll(a) + Refs(c) + RefsAll(b)
    ensures TreesOf(a + [c] + b) == TreesOf(a) + [TreeOf(c)] + TreesOf(b)
    ensures EntriesOf(a + [c] + b) == EntriesOf(a) + [Entry(KeyText(c.node), TreeOf(c))] + EntriesOf(b)
  {
    hide RefsAll, TidyAll, HoldsAll, TreesOf, EntriesOf, Child, Holds, Apart, Refs, Heads, Whole;
    Tidy3(a, c, b);
    Holds3(a, c, b, node, node.kind);
    TreesAppend(a, [c]);
    TreesAppend(a + [c], b);
    OneKid(c, node, node.kind, |a|);
    IsWhole(Shape(node, a + [c] + b));
  }

  lemma IsWhole(sh: Shape)
    requires sh.node !in RefsAll(sh.kids) && TidyAll(sh.kids) && sh.node.items == Heads(sh.kids)
    requires sh.kids == [] || sh.node.kind.ArrayKind? || sh.node.kind.MapKind?
    requires HoldsAll(sh.kids, sh.node, sh.node.kind, 0)
    ensures Whole(sh)
  {
  }

  /** The converse: a container taken apart at one child. */
  lemma Parts(node: Node, ks: seq<Shape>, k: nat)
    requires k < |ks| && Whole(Shape(node, ks))
    ensures var a, c, b := ks[..k], ks[k], ks[k + 1..];
      ks == a + [c] + b && Apart(a, c, b) && node !in RefsAll(a) && node !in Refs(c) && node !in RefsAll(b) &&
      RefsAll(ks) == RefsAll(a) + Refs(c) + RefsAll(b) &&
      HoldsAll(a, node, node.kind, 0) && Child(c, node, node.kind, k) && HoldsAll(b, node, node.kind, k + 1) &&
      node.items == Heads(a) + [c.node] + Heads(b)
  {
    hide RefsAll, TidyAll, HoldsAll, Child, Whole, Refs, Apart, Holds, Heads;
    var a, c, b := ks[..k], ks[k], ks[k + 1..];
    assert ks == a + [c] + b;
    WholeIs(Shape(node, ks));
    Tidy3(a, c, b);
    Holds3(a, c, b, node, node.kind);
  }

  lemma PartTrees(ks: seq<Shape>, k: nat)
    requires k < |ks|
    ensures var a, c, b := ks[..k], ks[k], ks[k + 1..];
      EntriesOf(ks) == EntriesOf(a) + [Entry(KeyText(c.node), TreeOf(c))] + EntriesOf(b) &&
      TreesOf(ks) == TreesOf(a) + [TreeOf(c)] + TreesOf(b)
  {
    hide TreesOf, EntriesOf;
    var a, c, b := ks[..k], ks[k], ks[k + 1..];
    assert ks == a + [c] + b;
    TreesAppend(a, [c]);
    TreesAppend(a + [c], b);
    OneKid(c, c.node, NullKind, 0);
  }

  lemma Bare()
    ensures RefsAll([]) == {} && TidyAll([]) && Heads([]) == [] && TreesOf([]) == [] && EntriesOf([]) == []
    ensures forall p, kind, n: nat :: HoldsAll([], p, kind, n)
  {
  }

  /** A container with one more child, if the child is linked as the last one. */
  lemma Extended(node: Node, ks: seq<Shape>, c: Shape)
    requires TidyAll(ks) && Tidy(c) && RefsAll(ks) !! Refs(c) && node !in RefsAll(ks) && node !in Refs(c)
    requires node.kind.ArrayKind? || node.kind.MapKind?
    requires HoldsAll(ks, node, node.kind, 0) && Child(c, node, node.kind, |ks|) && node.items == Heads(ks) + [c.node]
    ensures Whole(Shape(node, ks + [c])) && RefsAll(ks + [c]) == RefsAll(ks) + Refs(c)
    ensures TreesOf(ks + [c]) == TreesOf(ks) + [TreeOf(c)]
    ensures EntriesOf(ks + [c]) == EntriesOf(ks) + [Entry(KeyText(c.node), TreeOf(c))]
  {
    hide RefsAll, TidyAll, HoldsAll, TreesOf, EntriesOf, Child, Holds, Heads;
    Bare();
    assert Heads(ks) + [c.node] + [] == Heads(ks) + [c.node];
    Assembled(node, ks, c, []);
    assert ks + [c] + [] == ks + [c];
    assert TreesOf(ks) + [TreeOf(c)] + [] == TreesOf(ks) + [TreeOf(c)];
    assert EntriesOf(ks) + [Entry(KeyText(c.node), TreeOf(c))] + [] ==
      EntriesOf(ks) + [Entry(KeyText(c.node), TreeOf(c))];
  }

  lemma WholeIs(sh: Shape)
    requires Whole(sh)
    ensures sh.node !in RefsAll(sh.kids) && TidyAll(sh.kids) && sh.node.items == Heads(sh.kids)
    ensures sh.kids == [] || sh.node.kind.ArrayKind? || sh.node.kind.MapKind?
    ensures HoldsAll(sh.kids, sh.node, sh.node.kind, 0)
  {
  }

  /** Links a child behind the others and numbers the children again. */
  method HookLast(node: Node, sub: Node, ghost ks: seq<Shape>, ghost c: Shape)
    requires TidyAll(ks) && Tidy(c) && RefsAll(ks) !! Refs(c) && node !in RefsAll(ks) && node !in Refs(c)
    requires HoldsAll(ks, node, ArrayKind, 0) && Holds(c) && node.items == Heads(ks) && node.kind.ArrayKind?
    requires c.node == sub
    modifies node`items, sub`parent, sub`index
    ensures HoldsAll(ks, node, ArrayKind, 0) && Child(c, node, ArrayKind, |ks|) && node.items == Heads(ks) + [sub]
    ensures TreesOf(ks) == old(TreesOf(ks)) && TreeOf(c) == old(TreeOf(c))
  {
    hide *;
    ghost var all := ks + [c];
    assert allocated(Refs(c)) && allocated(RefsAll(ks)) && allocated(RefsAll(c.kids));
    RootIn(c);
    TidyRoot(c);
    Numbered(node, ks);
    HeadsDistinct(ks);
    node.items := node.items + [sub];
    sub.parent := node;
    HeadsAppend(ks, [c]);
    HeadOf(c);
    assert all[|ks|] == c && forall k :: 0 <= k < |ks| ==> all[k] == ks[k];
    OnlyLast(ks, c);
    ArrayFixup(node, all);
    IsChild(c, node, |ks|);
  }

  lemma TidyRoot(c: Shape)
    requires Tidy(c)
    ensures c.node !in RefsAll(c.kids)
  {
  }

  lemma Numbered(node: Node, ks: seq<Shape>)
    requires HoldsAll(ks, node, ArrayKind, 0)
    ensures forall k :: 0 <= k < |ks| ==> ks[k].node.index == k && ks[k].node.parent == node
  {
    hide HoldsAll;
    forall k | 0 <= k < |ks| ensures ks[k].node.index == k && ks[k].node.parent == node {
      ChildAt(ks, node, ArrayKind, 0, k);
    }
  }

  lemma OnlyLast(ks: seq<Shape>, c: Shape)
    requires forall k :: 0 <= k < |ks| ==> ks[k].node.index == k
    ensures Misnumbered(ks + [c]) <= {c.node}
  {
    var all := ks + [c];
    assert forall k :: 0 <= k < |ks| ==> all[k] == ks[k];
  }

  lemma IsChild(c: Shape, node: Node, index: nat)
    requires c.node.parent == node && c.node.index == index && Holds(c)
    ensures Child(c, node, ArrayKind, index)
  {
  }

  lemma RootIn(sh: Shape)
    ensures sh.node in Refs(sh) && Refs(sh) == {sh.node} + RefsAll(sh.kids)
  {
  }

  /** `confignode_array_append`. */
  method ArrayAppend(plenty: bool, node: Node, sub: Node, ghost sh: Shape, ghost csh: Shape) returns (ok: bool)
    requires Whole(sh) && Whole(csh) && Refs(sh) !! Refs(csh) && sh.node == node && csh.node == sub
    requires sub.parent == null && node.kind.ArrayKind?
    modifies node`items, sub`parent, sub`index
    ensures plenty ==> ok
    ensures !ok ==> node.items == old(node.items) && sub.parent == null && sub.index == old(sub.index)
    ensures ok ==> Whole(Shape(node, sh.kids + [csh]))
    ensures ok ==> TreeOf(Shape(node, sh.kids + [csh])) == Array(old(TreesOf(sh.kids)) + [old(TreeOf(csh))])
  {
    hide Refs, RefsAll, TidyAll, HoldsAll, TreesOf, EntriesOf, Child;
    if sub.parent != null || !node.kind.ArrayKind? { return false; }
    var fails: bool := *;
    if fails && !plenty { return false; }
    RootIn(sh);
    RootIn(csh);
    HookLast(node, sub, sh.kids, csh);
    Extended(node, sh.kids, csh);
    return true;
  }

  // ------------------------------------------------------------- maps

  lemma {:induction false} EntryAt(ks: seq<Shape>, k: nat)
    requires k < |ks|
    ensures EntriesOf(ks)[k] == Entry(KeyText(ks[k].node), TreeOf(ks[k]))
  {
    if k > 0 {
      EntryAt(ks[1..], k - 1);
      assert ks[1..][k - 1] == ks[k];
    }
  }

  /** `confignode_map_get`. */
  method MapGet(node: Node, key: string, ghost sh: Shape) returns (r: Node?, ghost k: nat)
    requires Whole(sh) && sh.node == node && node.kind.MapKind?
    ensures match Find(EntriesOf(sh.kids), key)
      case None => r == null
      case Some(j) => r != null && k == j && r == sh.kids[j].node
  {
    hide Find, EntriesOf, HoldsAll, Holds, Whole;
    ghost var ks, es := sh.kids, EntriesOf(sh.kids);
    WholeIs(sh);
    k := 0;
    for i := 0 to |node.items|
      invariant HoldsAll(ks, node, MapKind, 0) && EntriesOf(ks) == es && node.items == Heads(ks)
      invariant forall j :: 0 <= j < i ==> es[j].key != key
    {
      var n := node.items[i];
      ChildAt(ks, node, MapKind, 0, i);
      EntryAt(ks, i);
      if n.parent != node || n.key.None? { continue; }
      if n.key.value != key { continue; }
      FindFirst(es, key, i);
      return n, i;
    }
    return null, 0;
  }

  lemma FindFirst(es: seq<Entry>, key: string, i: nat)
    requires i < |es| && es[i].key == key && forall j :: 0 <= j < i ==> es[j].key != key
    ensures Find(es, key) == Some(i)
  {
    hide Find;
    var r := Find(es, key);
  }

  ghost function HeadSet(ks: seq<Shape>): set<Node> {
    set k | 0 <= k < |ks| :: ks[k].node
  }

  /** `confignode_map_set`: the child with the key is replaced, or a new one comes last. */
  method MapSet(plenty: bool, node: Node, key: string, sub: Node, ghost sh: Shape, ghost csh: Shape)
    returns (ok: bool, ghost r: Shape)
    requires Whole(sh) && Whole(csh) && Refs(sh) !! Refs(csh) && sh.node == node && csh.node == sub
    requires sub.parent == null && node.kind.MapKind?
    modifies node`items, sub`parent, sub`key, HeadSet(sh.kids)`parent
    ensures plenty ==> ok
    ensures !ok ==> r == sh && Whole(sh) && Whole(csh) && sub.parent == null && sub.key == old(sub.key)
    ensures !ok ==> node.items == old(node.items) && forall n :: n in HeadSet(sh.kids) ==> n.parent == old(n.parent)
    ensures !ok ==> TreeOf(sh) == old(TreeOf(sh))
    ensures ok ==> Whole(r) && r.node == node && Refs(r) <= Refs(sh) + Refs(csh)
    ensures ok ==> TreeOf(r) == Map(Put(old(EntriesOf(sh.kids)), key, old(TreeOf(csh))))
    ensures ok && Find(old(EntriesOf(sh.kids)), key).None? ==> r == Shape(node, sh.kids + [csh])
  {
    hide RefsAll, TidyAll, HoldsAll, TreesOf, EntriesOf, Find, Heads;
    r := sh;
    if sub.parent != null || !node.kind.MapKind? { return false, sh; }
    var fails: bool := *;
    if fails && !plenty { return false, sh; }
    assert allocated(Refs(sh)) && allocated(Refs(csh)) && allocated(RefsAll(sh.kids)) && allocated(RefsAll(csh.kids));
    var n, k := MapGet(node, key, sh);
    WholeIs(sh);
    RootIn(sh);
    RootIn(csh);
    if n != null {
      r := MapReplace(node, key, sub, n, sh, csh, k);
      return true, r;
    }
    fails := *;
    if fails && !plenty { return false, sh; }
    node.items := node.items + [sub];
    sub.key := Some(key);
    sub.parent := node;
    Extended(node, sh.kids, csh);
    return true, Shape(node, sh.kids + [csh]);
  }

  method MapReplace(node: Node, key: string, sub: Node, n: Node, ghost sh: Shape, ghost csh: Shape, ghost k: nat)
    returns (ghost r: Shape)
    requires Whole(sh) && Whole(csh) && Refs(sh) !! Refs(csh) && sh.node == node && csh.node == sub
    requires node.kind.MapKind?
    requires Find(EntriesOf(sh.kids), key) == Some(k) && n == sh.kids[k].node
    modifies node`items, sub`parent, sub`key, n`parent
    ensures Whole(r) && r.node == node && Refs(r) <= Refs(sh) + Refs(csh)
    ensures TreeOf(r) == Map(Put(old(EntriesOf(sh.kids)), key, old(TreeOf(csh))))
  {
    hide *;
    ghost var a, c, b := sh.kids[..k], sh.kids[k], sh.kids[k + 1..];
    assert allocated(Refs(sh)) && allocated(Refs(csh)) && allocated(RefsAll(sh.kids)) && allocated(RefsAll(csh.kids));
    PartTrees(sh.kids, k);
    RootIn(sh);
    RootIn(csh);
    var i := Position(node, n, sh, k);
    Parts(node, sh.kids, k);
    ghost var ea, eb := EntriesOf(a), EntriesOf(b);
    PutFound(EntriesOf(sh.kids), key, k, TreeOf(csh), ea, eb);
    HookAt(node, key, sub, n, i, a, c, csh, b);
    r := Shape(node, a + [csh] + b);
    RootIn(r);
    MapTree(r);
  }

  lemma PutFound(es: seq<Entry>, key: string, k: nat, t: Tree, ea: seq<Entry>, eb: seq<Entry>)
    requires Find(es, key) == Some(k) && |ea| == k && exists e :: es == ea + [e] + eb
    ensures Put(es, key, t) == ea + [Entry(key, t)] + eb
  {
  }

  lemma MapTree(sh: Shape)
    requires sh.node.kind.MapKind?
    ensures TreeOf(sh) == Map(EntriesOf(sh.kids))
  {
  }

  lemma ArrayTree(sh: Shape)
    requires sh.node.kind.ArrayKind?
    ensures TreeOf(sh) == Array(TreesOf(sh.kids))
  {
  }

  /** The new child takes the place of the one before it. */
  method HookAt(node: Node, key: string, sub: Node, n: Node, i: nat, ghost a: seq<Shape>, ghost c: Shape,
                ghost csh: Shape, ghost b: seq<Shape>)
    requires Apart(a, c, b) && node !in RefsAll(a) && node !in Refs(c) && node !in RefsAll(b) && node.kind.MapKind?
    requires HoldsAll(a, node, MapKind, 0) && HoldsAll(b, node, MapKind, |a| + 1)
    requires node.items == Heads(a) + [n] + Heads(b)
    requires Whole(csh) && csh.node == sub && c.node == n && i == |a|
    requires Refs(csh) !! RefsAll(a) && Refs(csh) !! RefsAll(b) && Refs(csh) !! Refs(c) && node !in Refs(csh)
    modifies node`items, sub`parent, sub`key, n`parent
    ensures Whole(Shape(node, a + [csh] + b)) && RefsAll(a + [csh] + b) == RefsAll(a) + Refs(csh) + RefsAll(b)
    ensures EntriesOf(a + [csh] + b) == old(EntriesOf(a)) + [Entry(key, old(TreeOf(csh)))] + old(EntriesOf(b))
  {
    hide RefsAll, Refs, TidyAll, HoldsAll, TreesOf, EntriesOf, Heads, TreeOf;
    RootIn(c);
    RootIn(csh);
    sub.key := Some(key);
    node.items := node.items[i := sub];
    sub.parent := node;
    n.parent := null;
    assert Apart(a, csh, b);
    Assembled(node, a, csh, b);
  }

  /** Where a child stands in the list of items. */
  method Position(node: Node, n: Node, ghost sh: Shape, ghost k: nat) returns (i: nat)
    requires Whole(sh) && sh.node == node && k < |sh.kids| && n == sh.kids[k].node
    ensures i == k
  {
    HeadsDistinct(sh.kids);
    i := 0;
    while node.items[i] != n
      invariant i <= k
      decreases k - i
    {
      i := i + 1;
    }
  }
}
