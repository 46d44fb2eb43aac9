/** Places in a configuration tree in memory: a subtree seen in its surroundings, and what a change inside
    it leaves alone. */
module ConfigPlace {
  import opened ConfigTree
  import opened ConfigNode

  /** A place is the way down from the root, child by child. */
  type Place = seq<nat>

  ghost predicate Exists(top: Shape, at: Place)
    decreases |at|
  {
    at == [] || (at[0] < |top.kids| && Exists(top.kids[at[0]], at[1..]))
  }

  ghost function SubAt(top: Shape, at: Place): Shape
    requires Exists(top, at)
    decreases |at|
  {
    if at == [] then top else SubAt(top.kids[at[0]], at[1..])
  }

  /** The shape with another subtree at a place. */
  ghost function Plug(top: Shape, at: Place, sub: Shape): Shape
    requires Exists(top, at)
    decreases |at|
  {
    if at == [] then sub
    else Shape(top.node, top.kids[..at[0]] + [Plug(top.kids[at[0]], at[1..], sub)] + top.kids[at[0] + 1..])
  }

  // ------------------------------------------------------------- nodes inside and outside

  lemma TidyParts(top: Shape, k: nat)
    requires Tidy(top) && k < |top.kids|
    ensures var a, c, b := top.kids[..k], top.kids[k], top.kids[k + 1..];
      top.kids == a + [c] + b && Apart(a, c, b) && top.node !in RefsAll(a) && top.node !in Refs(c) &&
        top.node !in RefsAll(b) &&
      RefsAll(a) !! Refs(c) && RefsAll(b) !! Refs(c) && RefsAll(a) !! RefsAll(b) && Tidy(c) && c.node in Refs(c) &&
      Refs(top) == {top.node} + RefsAll(a) + Refs(c) + RefsAll(b)
  {
    hide RefsAll, TidyAll;
    var a, c, b := top.kids[..k], top.kids[k], top.kids[k + 1..];
    assert top.kids == a + [c] + b;
    Tidy3(a, c, b);
    RootIn(c);
  }

  lemma {:induction false} SubIn(top: Shape, at: Place)
    requires Tidy(top) && Exists(top, at)
    ensures Refs(SubAt(top, at)) <= Refs(top) && Tidy(SubAt(top, at)) && SubAt(top, at).node in Refs(SubAt(top, at))
    ensures at != [] ==> top.node !in Refs(SubAt(top, at))
    decreases |at|
  {
    hide Refs, RefsAll, TidyAll, Tidy, Apart;
    if at == [] {
      RootIn(top);
    } else {
      TidyParts(top, at[0]);
      SubIn(top.kids[at[0]], at[1..]);
    }
  }

  /** A subtree at the same place, made of nodes of the old one and of new ones. */
  ghost predicate Fits(top: Shape, at: Place, sub: Shape)
    requires Exists(top, at)
  {
    Tidy(sub) && sub.node == SubAt(top, at).node && (Refs(sub) - Refs(SubAt(top, at))) !! Refs(top)
  }

  lemma {:induction false} PlugTidy(top: Shape, at: Place, sub: Shape)
    requires Tidy(top) && Exists(top, at) && Fits(top, at, sub)
    ensures Tidy(Plug(top, at, sub)) && Exists(Plug(top, at, sub), at) && SubAt(Plug(top, at, sub), at) == sub
    ensures Refs(Plug(top, at, sub)) == Refs(top) - Refs(SubAt(top, at)) + Refs(sub)
    ensures Plug(top, at, sub).node == top.node
    decreases |at|
  {
    hide Refs, RefsAll, TidyAll, Tidy, Apart;
    if at == [] {
    } else {
      var k := at[0];
      var a, c, b := top.kids[..k], top.kids[k], top.kids[k + 1..];
      TidyParts(top, k);
      SubIn(c, at[1..]);
      PlugTidy(c, at[1..], sub);
      var d := Plug(c, at[1..], sub);
      ApartAgain(a, c, d, b);
      Tidy3(a, d, b);
      var r := Plug(top, at, sub);
      assert r.kids[k] == d;
      RootIn(r);
      IsTidy(r);
    }
  }

  lemma ApartAgain(a: seq<Shape>, c: Shape, d: Shape, b: seq<Shape>)
    requires Apart(a, c, b) && Tidy(d) && RefsAll(a) !! Refs(d) && RefsAll(b) !! Refs(d)
    ensures Apart(a, d, b)
  {
  }

  lemma IsTidy(sh: Shape)
    requires sh.node !in RefsAll(sh.kids) && TidyAll(sh.kids)
    ensures Tidy(sh)
  {
  }

  // ------------------------------------------------------------- surroundings

  /** Everything around a place is in memory, and the node there is linked to its parent. */
  ghost predicate Surrounds(top: Shape, at: Place)
    requires Tidy(top) && Exists(top, at)
    reads Refs(top) - Refs(SubAt(top, at)), SubAt(top, at).node`parent, SubAt(top, at).node`key,
      SubAt(top, at).node`index
    decreases |at|
  {
    at == [] ||
    (TidyParts(top, at[0]);
     SubIn(top.kids[at[0]], at[1..]);
     LevelHolds(top, at[0]) && Surrounds(top.kids[at[0]], at[1..]))
  }

  /** One level: the siblings hold, and the child is linked. */
  ghost predicate LevelHolds(top: Shape, k: nat)
    requires k < |top.kids|
    reads top.node, RefsAll(top.kids[..k]), RefsAll(top.kids[k + 1..]), top.kids[k].node`parent, top.kids[k].node`key,
          top.kids[k].node`index
  {
    var a, c, b, node := top.kids[..k], top.kids[k], top.kids[k + 1..], top.node;
    node.items == Heads(a) + [c.node] + Heads(b) && (node.kind.ArrayKind? || node.kind.MapKind?) &&
    HoldsAll(a, node, node.kind, 0) && HoldsAll(b, node, node.kind, k + 1) && Linked(c.node, node, node.kind, k)
  }

  ghost predicate Linked(n: Node, parent: Node, kind: Kind, index: nat)
    reads n`parent, n`index, n`key
  {
    n.parent == parent && (kind.ArrayKind? ==> n.index == index) && (kind.MapKind? ==> n.key.Some?)
  }

  /** The tree that has `x` at a place. */
  ghost function TreeAround(top: Shape, at: Place, x: Tree): Tree
    requires Tidy(top) && Exists(top, at)
    reads Refs(top) - Refs(SubAt(top, at)), SubAt(top, at).node`key
    decreases |at|
  {
    if at == [] then x
    else
      TidyParts(top, at[0]);
      SubIn(top.kids[at[0]], at[1..]);
      LevelTree(top, at[0], TreeAround(top.kids[at[0]], at[1..], x))
  }

  ghost function LevelTree(top: Shape, k: nat, x: Tree): Tree
    requires k < |top.kids|
    reads top.node, RefsAll(top.kids[..k]), RefsAll(top.kids[k + 1..]), top.kids[k].node`key
  {
    var a, c, b := top.kids[..k], top.kids[k], top.kids[k + 1..];
    if top.node.kind.ArrayKind? then Array(TreesOf(a) + [x] + TreesOf(b))
    else Map(EntriesOf(a) + [Entry(KeyText(c.node), x)] + EntriesOf(b))
  }

  // ------------------------------------------------------------- whole trees and places

  lemma LevelOfWhole(top: Shape, k: nat)
    requires Whole(top) && k < |top.kids|
    ensures LevelHolds(top, k) && Whole(top.kids[k]) && TreeOf(top) == LevelTree(top, k, TreeOf(top.kids[k]))
  {
    hide RefsAll, TidyAll, HoldsAll, TreesOf, EntriesOf, Heads, Refs;
    Parts(top.node, top.kids, k);
    PartTrees(top.kids, k);
    KindOfParent(top);
  }

  lemma KindOfParent(top: Shape)
    requires Whole(top) && top.kids != []
    ensures top.node.kind.ArrayKind? || top.node.kind.MapKind?
  {
  }

  lemma WholeOfLevel(top: Shape, k: nat)
    requires Tidy(top) && k < |top.kids| && LevelHolds(top, k) && Whole(top.kids[k])
    ensures Whole(top)
  {
    hide RefsAll, TidyAll, HoldsAll, TreesOf, EntriesOf, Heads, Refs, Tidy, Apart;
    TidyParts(top, k);
    Assembled(top.node, top.kids[..k], top.kids[k], top.kids[k + 1..]);
  }

  /** A whole tree seen from a place in it. */
  lemma {:induction false} WholeAround(top: Shape, at: Place)
    requires Whole(top) && Exists(top, at)
    ensures Surrounds(top, at) && Whole(SubAt(top, at)) && TreeOf(top) == TreeAround(top, at, TreeOf(SubAt(top, at)))
    decreases |at|
  {
    hide LevelHolds, LevelTree, Refs, RefsAll, Holds, TreeOf, TidyAll;
    if at != [] {
      TidyParts(top, at[0]);
      LevelOfWhole(top, at[0]);
      WholeAround(top.kids[at[0]], at[1..]);
    }
  }

  /** A place with whole surroundings and a whole subtree makes a whole tree. */
  lemma {:induction false} AroundWhole(top: Shape, at: Place)
    requires Tidy(top) && Exists(top, at) && Surrounds(top, at) && Whole(SubAt(top, at))
    ensures Whole(top)
    decreases |at|
  {
    hide LevelHolds, LevelTree, Refs, RefsAll, Holds, TreeOf, TidyAll;
    if at != [] {
      TidyParts(top, at[0]);
      AroundWhole(top.kids[at[0]], at[1..]);
      WholeOfLevel(top, at[0]);
    }
  }

  /** The surroundings do not depend on the subtree. */
  lemma {:induction false} PlugAround(top: Shape, at: Place, sub: Shape)
    requires Tidy(top) && Exists(top, at) && Fits(top, at, sub) && Surrounds(top, at)
    ensures Tidy(Plug(top, at, sub)) && Exists(Plug(top, at, sub), at) && Surrounds(Plug(top, at, sub), at)
    ensures forall x :: TreeAround(Plug(top, at, sub), at, x) == TreeAround(top, at, x)
    decreases |at|
  {
    hide Refs, RefsAll, TidyAll, Tidy, HoldsAll, TreesOf, EntriesOf, Apart;
    PlugTidy(top, at, sub);
    if at != [] {
      var k := at[0];
      var c := top.kids[k];
      TidyParts(top, k);
      SubIn(c, at[1..]);
      PlugTidy(c, at[1..], sub);
      PlugAround(c, at[1..], sub);
      var r := Plug(top, at, sub);
      SameLevel(top, r, k);
    }
  }

  lemma SameLevel(top: Shape, r: Shape, k: nat)
    requires k < |top.kids| == |r.kids| && r.node == top.node && r.kids[k].node == top.kids[k].node
    requires r.kids[..k] == top.kids[..k] && r.kids[k + 1..] == top.kids[k + 1..]
    ensures LevelHolds(top, k) ==> LevelHolds(r, k)
    ensures forall x :: LevelTree(r, k, x) == LevelTree(top, k, x)
  {
    hide HoldsAll, TreesOf, EntriesOf, Heads, RefsAll;
  }

  // ------------------------------------------------------------- up and down

  lemma {:induction false} ExistsSnoc(top: Shape, at: Place, k: nat)
    requires Exists(top, at) && k < |SubAt(top, at).kids|
    ensures Exists(top, at + [k]) && SubAt(top, at + [k]) == SubAt(top, at).kids[k]
    decreases |at|
  {
    if at == [] {
      assert [] + [k] == [k];
      assert [k][1..] == [];
    } else {
      assert (at + [k])[1..] == at[1..] + [k];
      ExistsSnoc(top.kids[at[0]], at[1..], k);
    }
  }

  /** Going down to a child. */
  lemma {:induction false} Deeper(top: Shape, at: Place, k: nat)
    requires Tidy(top) && Exists(top, at) && Surrounds(top, at) && Whole(SubAt(top, at)) && k < |SubAt(top, at).kids|
    ensures Exists(top, at + [k]) && SubAt(top, at + [k]) == SubAt(top, at).kids[k]
    ensures Surrounds(top, at + [k]) && Whole(SubAt(top, at + [k]))
    ensures forall x :: TreeAround(top, at + [k], x) == TreeAround(top, at, LevelTree(SubAt(top, at), k, x))
    decreases |at|
  {
    hide LevelHolds, LevelTree, Refs, RefsAll, Holds, TreeOf, TidyAll;
    ExistsSnoc(top, at, k);
    if at == [] {
      LevelOfWhole(top, k);
      TidyParts(top, k);
      assert [] + [k] == [k];
      assert [k][1..] == [];
    } else {
      var c, rest := top.kids[at[0]], at[1..];
      TidyParts(top, at[0]);
      assert (at + [k])[1..] == rest + [k];
      Deeper(c, rest, k);
      forall x ensures TreeAround(top, at + [k], x) == TreeAround(top, at, LevelTree(SubAt(top, at), k, x)) {
        assert TreeAround(c, rest + [k], x) == TreeAround(c, rest, LevelTree(SubAt(c, rest), k, x));
      }
    }
  }

  /** Going up to the parent. */
  lemma {:induction false} Upper(top: Shape, at: Place, k: nat)
    requires Tidy(top) && Exists(top, at + [k]) && Surrounds(top, at + [k]) && Whole(SubAt(top, at + [k]))
    ensures Exists(top, at) && k < |SubAt(top, at).kids| && SubAt(top, at + [k]) == SubAt(top, at).kids[k]
    ensures Surrounds(top, at) && Whole(SubAt(top, at)) && LevelHolds(SubAt(top, at), k)
    decreases |at|
  {
    hide LevelHolds, LevelTree, Refs, RefsAll, Holds, TreeOf, TidyAll;
    if at == [] {
      assert [] + [k] == [k];
      assert [k][1..] == [];
      TidyParts(top, k);
      WholeOfLevel(top, k);
    } else {
      var c, rest := top.kids[at[0]], at[1..];
      TidyParts(top, at[0]);
      assert (at + [k])[1..] == rest + [k];
      Upper(c, rest, k);
    }
  }
}
