/** One node of a configuration tree in memory in the place of another (`confignode_replace` in
    `embloader/src/configfile/merge.c`), anywhere in the tree. */
module ConfigReplace {
  import opened Wrappers
  import opened ConfigTree
  import opened ConfigNode
  import opened ConfigMerge
  import opened ConfigPlace

  // ------------------------------------------------------------- replacing a node

  /** A parent with another child at one place. */
  ghost function Exchanged(p: Shape, k: nat, c: Shape): Shape
    requires k < |p.kids|
  {
    Shape(p.node, p.kids[..k] + [c] + p.kids[k + 1..])
  }

  /** `confignode_replace` for a node that has a parent: the new node takes over place, key and index. */
  method Replace(plenty: bool, node: Node, replacement: Node, ghost p: Shape, ghost k: nat, ghost nsh: Shape)
    returns (ok: bool)
    requires Whole(p) && k < |p.kids| && p.kids[k].node == node
    requires Whole(nsh) && nsh.node == replacement && Refs(p) !! Refs(nsh)
    modifies p.node`items, node`parent, replacement`parent, replacement`key, replacement`index
    ensures plenty && old(replacement.parent) == null ==> ok
    ensures !ok ==> p.node.items == old(p.node.items) && node.parent == old(node.parent)
    ensures ok ==> Whole(Exchanged(p, k, nsh)) && TreeOf(nsh) == old(TreeOf(nsh))
    ensures ok ==> forall x :: LevelTree(Exchanged(p, k, nsh), k, x) == old(LevelTree(p, k, x))
  {
    hide *;
    assert allocated(Refs(p)) && allocated(Refs(nsh)) && allocated(RefsAll(p.kids)) && allocated(RefsAll(nsh.kids));
    assert allocated(RefsAll(p.kids[..k])) && allocated(RefsAll(p.kids[k + 1..]));
    LevelOfWhole(p, k);
    LevelIs(p, k);
    if node.parent == null || replacement.parent != null { return false; }
    var parent := node.parent;
    var i := Position(parent, node, p, k);
    LevelOfWhole(p, k);
    LevelIs(p, k);
    if parent.kind == MapKind {
      if node.key.None? { return false; }
      var fails: bool := *;
      if fails && !plenty { return false; }
    }
    ok := true;
    Hook(parent, node, replacement, i, p, nsh);
  }

  lemma LevelIs(p: Shape, k: nat)
    requires k < |p.kids| && LevelHolds(p, k)
    ensures p.kids[k].node.parent == p.node && (p.node.kind.ArrayKind? || p.node.kind.MapKind?)
    ensures p.node.kind.MapKind? ==> p.kids[k].node.key.Some?
    ensures p.node.kind.ArrayKind? ==> p.kids[k].node.index == k
  {
  }

  /** The fields of the three nodes change. */
  method Hook(parent: Node, node: Node, replacement: Node, i: nat, ghost p: Shape, ghost nsh: Shape)
    requires Whole(p) && i < |p.kids| && p.kids[i].node == node && p.node == parent && LevelHolds(p, i)
    requires Whole(nsh) && nsh.node == replacement && Refs(p) !! Refs(nsh)
    modifies parent`items, node`parent, replacement`parent, replacement`key, replacement`index
    ensures Whole(Exchanged(p, i, nsh)) && TreeOf(nsh) == old(TreeOf(nsh))
    ensures forall x :: LevelTree(Exchanged(p, i, nsh), i, x) == old(LevelTree(p, i, x))
  {
    hide *;
    ghost var a, c, b := p.kids[..i], p.kids[i], p.kids[i + 1..];
    TidyOf(p);
    TidyOf(nsh);
    TidyParts(p, i);
    TidyRoot(nsh);
    RootIn(nsh);
    LevelParts(p, i);
    LinkedIs(node, parent, parent.kind, i);
    ghost var l := Level(parent.kind, TreesOf(a), TreesOf(b), EntriesOf(a), EntriesOf(b), KeyText(node));
    LevelTreeIs(p, i, l);
    KeyIs(node);
    ApartAgain(a, c, nsh, b);
    assert allocated(Refs(nsh)) && allocated(RefsAll(nsh.kids)) && allocated(RefsAll(a)) && allocated(RefsAll(b));
    PutInPlace(parent, node, replacement, i);
    KeyIs(replacement);
    Hooked(p, i, nsh, l);
  }

  method PutInPlace(parent: Node, node: Node, replacement: Node, i: nat)
    requires i < |parent.items| && node != replacement
    modifies parent`items, node`parent, replacement`parent, replacement`key, replacement`index
    ensures parent.items == old(parent.items)[i := replacement]
    ensures replacement.parent == parent && node.parent == null
    ensures parent.kind.MapKind? ==> replacement.key == old(node.key) && replacement.index == -1
    ensures !parent.kind.MapKind? ==> replacement.key == None && replacement.index == old(node.index)
  {
    if parent.kind == MapKind {
      replacement.key, replacement.index := node.key, -1;
    } else {
      replacement.key, replacement.index := None, node.index;
    }
    parent.items := parent.items[i := replacement];
    replacement.parent := parent;
    node.parent := null;
  }

  /** What of one level shows in the tree, besides the child itself. */
  datatype Level = Level(kind: Kind, before: seq<Tree>, behind: seq<Tree>, above: seq<Entry>, below: seq<Entry>,
    key: string)

  ghost function Shown(l: Level, x: Tree): Tree {
    if l.kind.ArrayKind? then Array(l.before + [x] + l.behind) else Map(l.above + [Entry(l.key, x)] + l.below)
  }

  lemma LevelTreeIs(p: Shape, i: nat, l: Level)
    requires i < |p.kids| && l.kind == p.node.kind
    requires TreesOf(p.kids[..i]) == l.before && TreesOf(p.kids[i + 1..]) == l.behind
    requires EntriesOf(p.kids[..i]) == l.above && EntriesOf(p.kids[i + 1..]) == l.below
    requires l.kind.MapKind? ==> KeyText(p.kids[i].node) == l.key
    requires l.kind.ArrayKind? || l.kind.MapKind?
    ensures forall x :: LevelTree(p, i, x) == Shown(l, x)
  {
  }

  lemma Hooked(p: Shape, i: nat, nsh: Shape, l: Level)
    requires i < |p.kids| && Apart(p.kids[..i], nsh, p.kids[i + 1..]) && l.kind == p.node.kind
    requires Tidy(nsh) && Holds(nsh)
    requires p.node !in RefsAll(p.kids[..i]) && p.node !in Refs(nsh) && p.node !in RefsAll(p.kids[i + 1..])
    requires HoldsAll(p.kids[..i], p.node, l.kind, 0) && HoldsAll(p.kids[i + 1..], p.node, l.kind, i + 1)
    requires p.node.items == Heads(p.kids[..i]) + [nsh.node] + Heads(p.kids[i + 1..])
    requires nsh.node.parent == p.node && (l.kind.ArrayKind? ==> nsh.node.index == i)
    requires l.kind.MapKind? ==> nsh.node.key.Some? && KeyText(nsh.node) == l.key
    requires TreesOf(p.kids[..i]) == l.before && TreesOf(p.kids[i + 1..]) == l.behind
    requires EntriesOf(p.kids[..i]) == l.above && EntriesOf(p.kids[i + 1..]) == l.below
    requires l.kind.ArrayKind? || l.kind.MapKind?
    ensures Whole(Exchanged(p, i, nsh)) && forall x :: LevelTree(Exchanged(p, i, nsh), i, x) == Shown(l, x)
  {
    hide *;
    ExchangedIs(p, i, nsh);
    WholeOf(nsh);
    BecomesChild(nsh, p.node, l.kind, i);
    Assembled(p.node, p.kids[..i], nsh, p.kids[i + 1..]);
    LevelTreeIs(Exchanged(p, i, nsh), i, l);
  }

  lemma ExchangedIs(p: Shape, i: nat, c: Shape)
    requires i < |p.kids|
    ensures var q := Exchanged(p, i, c);
      q == Shape(p.node, p.kids[..i] + [c] + p.kids[i + 1..]) && i < |q.kids| &&
      q.kids[..i] == p.kids[..i] && q.kids[i] == c && q.kids[i + 1..] == p.kids[i + 1..]
  {
  }

  lemma LevelParts(p: Shape, i: nat)
    requires i < |p.kids| && LevelHolds(p, i)
    ensures var a, c, b, node := p.kids[..i], p.kids[i], p.kids[i + 1..], p.node;
      node.items == Heads(a) + [c.node] + Heads(b) && (node.kind.ArrayKind? || node.kind.MapKind?) &&
      HoldsAll(a, node, node.kind, 0) && HoldsAll(b, node, node.kind, i + 1) &&
        ConfigPlace.Linked(c.node, node, node.kind, i)
    ensures |Heads(p.kids[..i])| == i
  {
  }

  lemma LinkedIs(n: Node, parent: Node, kind: Kind, index: nat)
    requires ConfigPlace.Linked(n, parent, kind, index)
    ensures n.parent == parent && (kind.ArrayKind? ==> n.index == index) && (kind.MapKind? ==> n.key.Some?)
  {
  }

  lemma BecomesChild(c: Shape, parent: Node, kind: Kind, index: nat)
    requires c.node.parent == parent && (kind.ArrayKind? ==> c.node.index == index)
    requires kind.MapKind? ==> c.node.key.Some?
    requires Whole(c)
    ensures Child(c, parent, kind, index)
  {
  }

  lemma WholeOf(sh: Shape)
    requires Tidy(sh) && Holds(sh)
    ensures Whole(sh)
  {
  }

  lemma TidyOf(sh: Shape)
    requires Whole(sh)
    ensures Tidy(sh) && Holds(sh)
  {
  }

  // ------------------------------------------------------------- a node at a place

  /** A node at a place of a whole tree: it stands for `t`, and with another tree in its place the whole
      would be what `goal` says. */
  ghost predicate Stands(top: Shape, at: Place, node: Node, t: Tree, goal: Tree -> Tree)
    reads Refs(top)
  {
    Whole(top) && top.node.parent == null && Exists(top, at) && SubAt(top, at).node == node &&
    (SubIn(top, at);
     TreeOf(SubAt(top, at)) == t && forall x :: TreeAround(top, at, x) == goal(x))
  }

  lemma StandsIs(top: Shape, at: Place, node: Node, t: Tree, goal: Tree -> Tree)
    requires Stands(top, at, node, t, goal)
    ensures Whole(top) && Tidy(top) && top.node.parent == null && Exists(top, at) && SubAt(top, at).node == node
    ensures Surrounds(top, at) && Whole(SubAt(top, at)) && TreeOf(SubAt(top, at)) == t && TreeOf(top) == goal(t)
    ensures forall x :: TreeAround(top, at, x) == goal(x)
    ensures node in Refs(top) && Refs(SubAt(top, at)) <= Refs(top) && top.node in Refs(top)
    ensures node in Refs(SubAt(top, at))
    ensures node.kind.ArrayKind? <==> t.Array?
    ensures node.kind.MapKind? <==> t.Map?
    ensures node.kind.ValueKind? <==> t.Leaf?
  {
    hide Refs, TreeOf, Surrounds, TreeAround, Holds, TidyAll;
    WholeAround(top, at);
    SubIn(top, at);
    RootIn(top);
    KindTree(SubAt(top, at));
    LeafKind(SubAt(top, at));
  }

  lemma LeafKind(sh: Shape)
    ensures sh.node.kind.ValueKind? <==> TreeOf(sh).Leaf?
  {
  }

  lemma IsStands(top: Shape, at: Place, node: Node, t: Tree, goal: Tree -> Tree)
    requires Whole(top) && top.node.parent == null && Exists(top, at) && SubAt(top, at).node == node
    requires TreeOf(SubAt(top, at)) == t && forall x :: TreeAround(top, at, x) == goal(x)
    ensures Stands(top, at, node, t, goal)
  {
  }

  /** A change inside the subtree at a place: everything around it stays. */
  lemma Changed(top: Shape, at: Place, sub: Shape, t: Tree, goal: Tree -> Tree)
    requires Tidy(top) && Exists(top, at) && Surrounds(top, at) && forall x :: TreeAround(top, at, x) == goal(x)
    requires Whole(sub) && sub.node == SubAt(top, at).node && (Refs(sub) - Refs(SubAt(top, at))) !! Refs(top)
    requires TreeOf(sub) == t && top.node.parent == null
    ensures Stands(Plug(top, at, sub), at, sub.node, t, goal)
    ensures Plug(top, at, sub).node == top.node && Exists(Plug(top, at, sub), at)
    ensures SubAt(Plug(top, at, sub), at) == sub
    ensures Refs(Plug(top, at, sub)) == Refs(top) - Refs(SubAt(top, at)) + Refs(sub)
  {
    hide Refs, TreeOf, Surrounds, TreeAround, Holds, TidyAll, Stands, Plug;
    TidyOf(sub);
    PlugTidy(top, at, sub);
    PlugAround(top, at, sub);
    AroundWhole(Plug(top, at, sub), at);
    IsStands(Plug(top, at, sub), at, sub.node, t, goal);
  }

  /** Going down to a child of a standing node. */
  lemma Down(top: Shape, at: Place, node: Node, t: Tree, goal: Tree -> Tree, k: nat, next: Tree -> Tree)
    requires Stands(top, at, node, t, goal) && k < |SubAt(top, at).kids|
    requires forall x :: goal(LevelTree(SubAt(top, at), k, x)) == next(x)
    ensures Exists(top, at + [k]) && SubAt(top, at + [k]) == SubAt(top, at).kids[k]
    ensures Stands(top, at + [k], SubAt(top, at).kids[k].node, TreeOf(SubAt(top, at).kids[k]), next)
  {
    hide Refs, TreeOf, Surrounds, TreeAround, Holds, TidyAll, Stands, LevelTree;
    StandsIs(top, at, node, t, goal);
    Deeper(top, at, k);
    forall x ensures TreeAround(top, at + [k], x) == next(x) {
      assert TreeAround(top, at, LevelTree(SubAt(top, at), k, x)) == goal(LevelTree(SubAt(top, at), k, x));
    }
    IsStands(top, at + [k], SubAt(top, at).kids[k].node, TreeOf(SubAt(top, at).kids[k]), next);
  }

  // ------------------------------------------------------------- replacing at a place

  lemma ParentPlace(top: Shape, at: Place, node: Node, t: Tree, goal: Tree -> Tree)
    requires Stands(top, at, node, t, goal) && at != []
    ensures var up, k := at[..|at| - 1], at[|at| - 1];
      at == up + [k] && Exists(top, up) && k < |SubAt(top, up).kids| && SubAt(top, at) == SubAt(top, up).kids[k] &&
      Surrounds(top, up) && Whole(SubAt(top, up)) && Refs(SubAt(top, up)) <= Refs(top) &&
      SubAt(top, up).node in Refs(SubAt(top, up)) && node in Refs(SubAt(top, up)) && node != SubAt(top, up).node &&
      SubAt(top, at).node == node && Tidy(SubAt(top, up)) && Tidy(top) &&
      forall x :: TreeAround(top, up, LevelTree(SubAt(top, up), k, x)) == goal(x)
  {
    hide Refs, TreeOf, Surrounds, TreeAround, Holds, TidyAll, Stands, LevelTree;
    var up, k := at[..|at| - 1], at[|at| - 1];
    assert at == up + [k];
    StandsIs(top, at, node, t, goal);
    Upper(top, up, k);
    Deeper(top, up, k);
    SubIn(top, up);
    KidIn(SubAt(top, up), k);
    TidyParts(SubAt(top, up), k);
  }

  lemma SubTop(top: Shape)
    ensures Exists(top, []) && SubAt(top, []) == top
  {
  }

  lemma KidIn(p: Shape, k: nat)
    requires k < |p.kids|
    ensures p.kids[k].node in Refs(p) && Refs(p.kids[k]) <= Refs(p)
  {
    InRefs(p.kids, k);
    RootIn(p);
  }

  lemma RootedAt(top: Shape, at: Place, node: Node, t: Tree, goal: Tree -> Tree)
    requires Stands(top, at, node, t, goal)
    ensures node.parent == null <==> at == []
  {
    hide *;
    StandsIs(top, at, node, t, goal);
    SubTop(top);
    if at != [] {
      ParentPlace(top, at, node, t, goal);
      LevelOfWhole(SubAt(top, at[..|at| - 1]), at[|at| - 1]);
      LevelIs(SubAt(top, at[..|at| - 1]), at[|at| - 1]);
    }
  }

  /** A tree on its own, with given contents. */
  ghost predicate IsRoot(node: Node, top: Shape, t: Tree)
    reads Refs(top), node
  {
    Whole(top) && top.node == node && node.parent == null && TreeOf(top) == t
  }

  lemma RootIs(node: Node, top: Shape, t: Tree)
    requires Whole(top) && top.node == node && node.parent == null && TreeOf(top) == t
    ensures IsRoot(node, top, t)
  {
  }

  lemma IsRootIs(node: Node, top: Shape, t: Tree)
    requires IsRoot(node, top, t)
    ensures Whole(top) && top.node == node && node.parent == null && TreeOf(top) == t && node in Refs(top)
  {
    RootIn(top);
  }

  /** `confignode_replace` anywhere in a tree; a root cannot be replaced. */
  method ReplaceAt(plenty: bool, node: Node, replacement: Node, ghost top: Shape, ghost at: Place, ghost t: Tree,
                   ghost goal: Tree -> Tree, ghost nsh: Shape, ghost u: Tree)
    returns (ok: bool, ghost top': Shape)
    requires Stands(top, at, node, t, goal)
    requires IsRoot(replacement, nsh, u) && Refs(top) !! Refs(nsh)
    modifies Refs(top), replacement
    ensures ok ==> Stands(top', at, replacement, u, goal) && Refs(top') <= Refs(top) + Refs(nsh)
    ensures ok ==> SubAt(top', at) == nsh && top'.node == top.node
    ensures !ok ==> top' == top && Stands(top, at, node, t, goal)
    ensures at == [] ==> !ok
    ensures plenty && at != [] ==> ok
  {
    hide *;
    StandsIs(top, at, node, t, goal);
    IsRootIs(replacement, nsh, u);
    RootedAt(top, at, node, t, goal);
    if node.parent == null { return false, top; }
    assert at != [];
    assert allocated(Refs(top)) && allocated(Refs(nsh)) && allocated(RefsAll(nsh.kids));
    ghost var up, k := at[..|at| - 1], at[|at| - 1];
    ParentPlace(top, at, node, t, goal);
    ghost var p := SubAt(top, up);
    assert p.node != node && p.node != replacement && node != replacement;
    ExchangedIs(p, k, nsh);
    label Before:
    ok := Replace(plenty, node, replacement, p, k, nsh);
    if !ok { return false, top; }
    top' := Plug(top, up, Exchanged(p, k, nsh));
    forall x ensures TreeAround(top, up, LevelTree(Exchanged(p, k, nsh), k, x)) == goal(x) {
      assert old@Before(TreeAround(top, up, LevelTree(p, k, x))) == goal(x);
    }
    Replaced(top, up, k, nsh, u, goal);
  }

  /** After the exchange the new node stands where the old one stood. */
  lemma Replaced(top: Shape, up: Place, k: nat, nsh: Shape, u: Tree, goal: Tree -> Tree)
    requires Tidy(top) && Exists(top, up) && Surrounds(top, up) && top.node.parent == null
    requires k < |SubAt(top, up).kids| && Whole(Exchanged(SubAt(top, up), k, nsh))
    requires Tidy(SubAt(top, up)) && Refs(nsh) !! Refs(top) && TreeOf(nsh) == u
    requires forall x :: TreeAround(top, up, LevelTree(Exchanged(SubAt(top, up), k, nsh), k, x)) == goal(x)
    ensures var r := Plug(top, up, Exchanged(SubAt(top, up), k, nsh));
      Stands(r, up + [k], nsh.node, u, goal) && SubAt(r, up + [k]) == nsh && r.node == top.node &&
      Refs(r) <= Refs(top) + Refs(nsh)
  {
    hide Refs, TreeOf, Surrounds, TreeAround, Holds, TidyAll, Stands, LevelTree, Plug, Exchanged, Tidy;
    var p := SubAt(top, up);
    var q := Exchanged(p, k, nsh);
    ExchangedIs(p, k, nsh);
    ExchangedRefs(p, k, nsh);
    TidyOf(q);
    SubIn(top, up);
    PlugTidy(top, up, q);
    PlugAround(top, up, q);
    var r := Plug(top, up, q);
    AroundWhole(r, up);
    Deeper(r, up, k);
    IsStands(r, up + [k], nsh.node, u, goal);
  }

  lemma ExchangedRefs(p: Shape, k: nat, c: Shape)
    requires k < |p.kids|
    ensures Refs(Exchanged(p, k, c)) <= Refs(p) + Refs(c)
  {
    hide RefsAll;
    var a, b := p.kids[..k], p.kids[k + 1..];
    assert p.kids == a + [p.kids[k]] + b;
    Tidy3(a, p.kids[k], b);
    Tidy3(a, c, b);
    RootIn(p);
    RootIn(Exchanged(p, k, c));
  }
}
