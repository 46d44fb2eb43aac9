/** Inserting into and setting an item of an array in memory (`embloader/src/configfile/array.c`). */
module ConfigArray {
  import opened ConfigTree
  import opened ConfigPath
  import opened ConfigConf
  import opened ConfigNode
  import opened ConfigMerge
  import opened ConfigPlace
  import opened ConfigReplace
  import opened ConfigLookup
  import opened Sizes

  // ------------------------------------------------------------- inserting

  lemma Spliced(ks: seq<Shape>, i: nat, c: Shape)
    requires i <= |ks| && TidyAll(ks) && Tidy(c) && RefsAll(ks) !! Refs(c)
    ensures var all := ks[..i] + [c] + ks[i..];
      TidyAll(all) && RefsAll(all) == RefsAll(ks) + Refs(c) &&
        Heads(all) == Heads(ks)[..i] + [c.node] + Heads(ks)[i..] &&
      TreesOf(all) == TreesOf(ks)[..i] + [TreeOf(c)] + TreesOf(ks)[i..]
  {
    hide RefsAll, TidyAll, TreesOf, EntriesOf, Refs, Tidy, Heads;
    var a, b := ks[..i], ks[i..];
    assert ks == a + b;
    RefsAppend(a, b);
    TidyAppend(a, b);
    Tidy3(a, c, b);
    IsApart(a, c, b);
    TreesAppend(a, b);
    TreesAppend(a, [c]);
    TreesAppend(a + [c], b);
    OneKid(c, c.node, NullKind, 0);
    HeadsAppend(a, b);
    HeadsAppend(a, [c]);
    HeadsAppend(a + [c], b);
    HeadOf(c);
    HeadsLength(a);
  }

  lemma IsApart(a: seq<Shape>, c: Shape, b: seq<Shape>)
    ensures Apart(a, c, b) <==>
      TidyAll(a) && Tidy(c) && TidyAll(b) && RefsAll(a) !! Refs(c) && RefsAll(a) !! RefsAll(b) && Refs(c) !! RefsAll(b)
  {
  }

  /** The children of a spliced array, one by one. */
  lemma Pieces(ks: seq<Shape>, i: nat, c: Shape)
    requires i <= |ks|
    ensures var all := ks[..i] + [c] + ks[i..];
      |all| == |ks| + 1 &&
        forall k :: 0 <= k < |all| ==> all[k] == if k < i then ks[k] else if k == i then c else ks[k - 1]
  {
  }

  lemma HeadsOutside(ks: seq<Shape>)
    requires TidyAll(ks)
    ensures forall k, n :: 0 <= k < |ks| && n in HeadSet(ks) ==> n !in RefsAll(ks[k].kids)
    ensures Misnumbered(ks) <= HeadSet(ks)
  {
    hide TidyAll, Refs, RefsAll;
    forall k, j | 0 <= k < |ks| && 0 <= j < |ks| ensures ks[j].node !in RefsAll(ks[k].kids) {
      RootIn(ks[k]);
      KidsTidy(ks, k);
      TidyRoot(ks[k]);
      if j != k { KidsApart(ks, j, k); }
    }
  }

  lemma HeadSetSpliced(ks: seq<Shape>, i: nat, c: Shape)
    requires i <= |ks|
    ensures HeadSet(ks[..i] + [c] + ks[i..]) == HeadSet(ks) + {c.node}
  {
    Pieces(ks, i, c);
    var all := ks[..i] + [c] + ks[i..];
    assert all[i] == c;
    forall k | 0 <= k < |ks| ensures ks[k].node in HeadSet(all) {
      assert all[if k < i then k else k + 1] == ks[k];
    }
  }

  lemma ChildrenHold(ks: seq<Shape>, node: Node)
    requires HoldsAll(ks, node, ArrayKind, 0)
    ensures forall k :: 0 <= k < |ks| ==> Holds(ks[k]) && ks[k].node.parent == node
  {
    hide HoldsAll, Holds;
    forall k | 0 <= k < |ks| ensures Holds(ks[k]) && ks[k].node.parent == node { ChildAt(ks, node, ArrayKind, 0, k); }
  }

  lemma KidRefs(ks: seq<Shape>)
    ensures forall k :: 0 <= k < |ks| ==>
      Refs(ks[k]) <= RefsAll(ks) && RefsAll(ks[k].kids) <= Refs(ks[k]) && ks[k].node in Refs(ks[k])
  {
    hide RefsAll, Refs;
    forall k | 0 <= k < |ks|
      ensures Refs(ks[k]) <= RefsAll(ks) && RefsAll(ks[k].kids) <= Refs(ks[k]) && ks[k].node in Refs(ks[k])
    {
      InRefs(ks, k);
      RootIn(ks[k]);
    }
  }

  /** A child linked in the middle, and the children numbered again. */
  method HookInto(node: Node, sub: Node, i: nat, ghost ks: seq<Shape>, ghost c: Shape)
    requires TidyAll(ks) && Tidy(c) && RefsAll(ks) !! Refs(c) && node !in RefsAll(ks) && node !in Refs(c) && i <= |ks|
    requires HoldsAll(ks, node, ArrayKind, 0) && Holds(c) && node.items == Heads(ks) && node.kind.ArrayKind?
    requires c.node == sub
    modifies node`items, sub`parent, sub`index, HeadSet(ks)`index
    ensures Whole(Shape(node, ks[..i] + [c] + ks[i..]))
    ensures TreesOf(ks) == old(TreesOf(ks)) && TreeOf(c) == old(TreeOf(c))
  {
    hide *;
    ghost var all := ks[..i] + [c] + ks[i..];
    Spliced(ks, i, c);
    Pieces(ks, i, c);
    KidRefs(all);
    assert allocated(Refs(c)) && allocated(RefsAll(ks)) && allocated(RefsAll(c.kids)) && allocated(RefsAll(all));
    HeadSetSpliced(ks, i, c);
    HeadsDistinct(all);
    RootIn(c);
    TidyRoot(c);
    HeadSetIn(ks);
    ChildrenHold(ks, node);
    HeadsLength(ks);
    node.items := node.items[..i] + [sub] + node.items[i..];
    sub.parent := node;
    HeadsOutside(all);
    assert forall k :: 0 <= k < |all| ==> Holds(all[k]) && all[k].node.parent == node;
    assert forall k :: 0 <= k < |all| ==> allocated(Refs(all[k])) && allocated(RefsAll(all[k].kids));
    ArrayFixup(node, all);
    forall k | 0 <= k < |all| ensures Child(all[k], node, ArrayKind, k) { IsChild(all[k], node, k); }
    HoldsFrom(all, node, ArrayKind, 0);
    IsWhole(Shape(node, all));
  }

  function Inserted(items: seq<Tree>, index: nat, x: Tree): seq<Tree>
    requires index <= |items|
  {
    items[..index] + [x] + items[index..]
  }

  lemma InsertedIs(items: seq<Tree>, index: nat, x: Tree)
    requires index <= |items|
    ensures Inserted(items, index, x) == items[..index] + [x] + items[index..]
  {
  }

  /** `confignode_array_insert`: the new item comes before the one with the index, so that nothing can be
      inserted behind the last one. */
  method ArrayInsert(plenty: bool, node: Node, index: nat, sub: Node, ghost sh: Shape, ghost csh: Shape)
    returns (ok: bool, ghost more: Shape)
    requires Whole(sh) && Whole(csh) && Refs(sh) !! Refs(csh) && sh.node == node && csh.node == sub
    requires node.kind.ArrayKind?
    modifies node`items, sub`parent, sub`index, HeadSet(sh.kids)`index
    ensures ok ==> old(sub.parent) == null && (index == 0 || index < |sh.kids|)
    ensures plenty && old(sub.parent) == null && (index == 0 || index < |sh.kids|) ==> ok
    ensures ok ==> index <= |sh.kids| && more == Shape(node, sh.kids[..index] + [csh] + sh.kids[index..]) && Whole(more)
    ensures ok ==> TreeOf(more) == Array(Inserted(old(TreesOf(sh.kids)), index, old(TreeOf(csh))))
    ensures !ok ==> more == sh && Whole(sh) && unchanged(node) && unchanged(sub) && TreeOf(sh) == old(TreeOf(sh))
  {
    hide *;
    more := sh;
    if sub.parent != null || !node.kind.ArrayKind? { return false, sh; }
    assert allocated(Refs(sh)) && allocated(RefsAll(sh.kids)) && allocated(Refs(csh)) && allocated(RefsAll(csh.kids));
    WholeIs(sh);
    RootIn(sh);
    HeadsLength(sh.kids);
    if index > 0 {
      var n := ArrayGet(node, index, sh);
      if n == null { return false, sh; }
    }
    var fails: bool := *;
    if fails && !plenty { return false, sh; }
    WholeIs(sh);
    TidyOf(csh);
    Spliced(sh.kids, index, csh);
    ghost var trees, x := TreesOf(sh.kids), TreeOf(csh);
    HookInto(node, sub, index, sh.kids, csh);
    more := Shape(node, sh.kids[..index] + [csh] + sh.kids[index..]);
    Spliced(sh.kids, index, csh);
    ArrayTree(more);
    InsertedIs(trees, index, x);
    return true, more;
  }

  // ------------------------------------------------------------- setting

  /** `confignode_array_set`: the array gets long enough, then the item at the index gives way. Behind the
      greatest index there is no length, and nothing is set. */
  method ArraySet(plenty: bool, node: Node, index: nat, sub: Node, ghost top: Shape, ghost at: Place,
                  ghost items: seq<Tree>, ghost goal: Tree -> Tree, ghost csh: Shape, ghost x: Tree)
    returns (ok: bool, ghost top': Shape, ghost u: Tree)
    requires Stands(top, at, node, Array(items), goal) && IsRoot(sub, csh, x) && Refs(top) !! Refs(csh)
    requires index <= SIZE_MAX
    modifies Refs(top), sub
    ensures fresh(Refs(top') - Refs(top) - Refs(csh)) && top'.node == top.node
    ensures ok ==>
      Whole(top') && top'.node.parent == null && TreeOf(top') == goal(SetSlot(Array(items), Index(index), x))
    ensures ok ==> Exists(top', at + [index]) && SubAt(top', at + [index]) == csh
    ensures !ok ==> Halted(top', Array(items), [Index(index)], u, goal)
    ensures plenty && (index < SIZE_MAX || index < |items|) ==> ok
  {
    hide *;
    IsRootIs(sub, csh, x);
    top', u := top, Array(items);
    StaysPartial(u);
    Halts(top, at, node, u, [Index(index)], u, goal);
    assert allocated(Refs(top)) && allocated(Refs(csh)) && allocated(RefsAll(csh.kids));
    label Before:
    var nlen := if index == SIZE_MAX then 0 else index + 1;
    ok, top', u := ArrayExtend(plenty, node, nlen, index, top, at, items, goal);
    Halts(top', at, node, Array(items), [Index(index)], u, goal);
    if !ok { return; }
    ghost var more, was := Extend(items, nlen), top';
    StandsLength(was, at, node, more, goal);
    SameExtent(items, index, nlen);
    if index >= |node.items| { return false, top', u; }
    assert forall m: Node | m in Refs(was) && m !in Refs(top) :: fresh@Before(m);
    StandsIs(was, at, node, u, goal);
    StandsLength(was, at, node, more, goal);
    LongEnough(items, index);
    ExtendPartial(Array(items), index, index + 1);
    assert allocated(Refs(was));
    var n := ArrayGet(node, index, SubAt(was, at));
    EnterIndexAt(was, at, node, more, goal, index);
    ExtendedSlot(items, index, goal);
    ghost var next, around := Slot(u, Index(index)), Setting(goal, u, Index(index));
    IsRootIs(sub, csh, x);
    ok, top' := ReplaceAt(plenty, n, sub, was, at + [index], next, around, csh, x);
    if ok {
      StandsIs(top', at + [index], sub, x, around);
      SettingIs(goal, Array(items), Index(index), x);
    } else {
      ItemAgain(more, index);
      SettingIs(goal, u, Index(index), next);
      StandsIs(was, at + [index], n, next, around);
      IsHalted(was, Array(items), [Index(index)], u, goal);
    }
  }

  lemma SameExtent(items: seq<Tree>, index: nat, nlen: nat)
    requires nlen == 0 || nlen == index + 1
    ensures var more := Extend(items, nlen); if index < |more| then more == Extend(items, index + 1) else nlen == 0
    ensures index < |items| ==> index < |Extend(items, nlen)|
  {
  }

  lemma ItemAgain(items: seq<Tree>, index: nat)
    requires index < |items|
    ensures SetSlot(Array(items), Index(index), Slot(Array(items), Index(index))) == Array(items)
  {
    ExtendSame(items, index + 1);
  }

  lemma IsHalted(top: Shape, t: Tree, p: Path, u: Tree, goal: Tree -> Tree)
    requires Whole(top) && top.node.parent == null && TreeOf(top) == goal(u) && Partial(t, p, u)
    ensures Halted(top, t, p, u, goal)
  {
  }
}
