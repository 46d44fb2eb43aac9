/** Copying and merging configuration trees in memory (`embloader/src/configfile/merge.c`), when any
    allocation may fail. */
module ConfigMerge {
  import opened Wrappers
  import opened ConfigTree
  import opened ConfigNode

  lemma {:induction false} TreeAt(ks: seq<Shape>, k: nat)
    requires k < |ks|
    ensures TreesOf(ks)[k] == TreeOf(ks[k])
  {
    if k > 0 {
      TreeAt(ks[1..], k - 1);
      assert ks[1..][k - 1] == ks[k];
    }
  }

  lemma ChildWhole(node: Node, ks: seq<Shape>, k: nat)
    requires k < |ks| && Whole(Shape(node, ks))
    ensures Whole(ks[k]) && Child(ks[k], node, node.kind, k) && node.items == Heads(ks)
    ensures Refs(ks[k]) <= RefsAll(ks) && node !in Refs(ks[k])
  {
    hide *;
    Parts(node, ks, k);
    WholeIs(Shape(node, ks));
    ApartWhole(ks[..k], ks[k], ks[k + 1..], node, node.kind);
  }

  lemma ApartWhole(a: seq<Shape>, c: Shape, b: seq<Shape>, node: Node, kind: Kind)
    requires Apart(a, c, b) && Child(c, node, kind, |a|)
    ensures Whole(c)
  {
  }

  lemma ChildFields(c: Shape, node: Node, kind: Kind, index: nat)
    requires Child(c, node, kind, index)
    ensures c.node.parent == node && (kind.MapKind? ==> c.node.key.Some?) && (kind.ArrayKind? ==> c.node.index == index)
  {
  }

  lemma WellFormedItem(t: Tree, k: nat)
    requires WellFormed(t)
    ensures t.Array? && k < |t.items| ==> WellFormed(t.items[k])
    ensures t.Map? ==> UniqueKeys(t.entries) && (k < |t.entries| ==> WellFormed(t.entries[k].tree))
  {
  }

  /** `confignode_copy`: a whole new tree with the same contents, or nothing. The tree itself stays. */
  method Copy(plenty: bool, node: Node, ghost sh: Shape) returns (r: Node?, ghost rsh: Shape)
    requires Whole(sh) && sh.node == node && WellFormed(TreeOf(sh))
    ensures plenty ==> r != null
    ensures r != null ==> Copied(r, rsh, old(TreeOf(sh))) && fresh(Refs(rsh))
    decreases sh, 1
  {
    hide *;
    rsh := sh;
    NullTree(sh);
    match node.kind
    case NullKind =>
      r := NewNode(plenty, NullKind);
      if r != null { rsh := Shape(r, []); LoneNode(r); IsCopy(r, rsh, Null); }
    case ValueKind =>
      var value := node.value;
      r := NewValue(plenty, value);
      if r != null { rsh := Shape(r, []); LoneNode(r); IsCopy(r, rsh, Leaf(value)); }
    case ArrayKind =>
      r, rsh := CopyArray(plenty, node, sh);
    case MapKind =>
      r, rsh := CopyMap(plenty, node, sh);
  }

  lemma NullTree(sh: Shape)
    ensures sh.node.kind.NullKind? ==> TreeOf(sh) == Null
    ensures sh.node.kind.ValueKind? ==> TreeOf(sh) == Leaf(sh.node.value)
  {
  }

  /** A detached tree with given contents. */
  ghost predicate Copied(r: Node, rsh: Shape, t: Tree)
    reads Refs(rsh), r
  {
    Whole(rsh) && rsh.node == r && r.parent == null && r.key.None? && TreeOf(rsh) == t
  }

  lemma IsCopy(r: Node, rsh: Shape, t: Tree)
    requires Whole(rsh) && rsh.node == r && r.parent == null && r.key.None? && TreeOf(rsh) == t
    ensures Copied(r, rsh, t)
  {
  }

  lemma CopyIs(r: Node, rsh: Shape, t: Tree)
    requires Copied(r, rsh, t)
    ensures Whole(rsh) && rsh.node == r && r.parent == null && r.key.None? && TreeOf(rsh) == t && r in Refs(rsh)
  {
    RootIn(rsh);
  }

  method CopyArray(plenty: bool, node: Node, ghost sh: Shape) returns (r: Node?, ghost rsh: Shape)
    requires Whole(sh) && sh.node == node && node.kind.ArrayKind? && WellFormed(TreeOf(sh))
    ensures plenty ==> r != null
    ensures r != null ==> Copied(r, rsh, old(TreeOf(sh))) && fresh(Refs(rsh))
    decreases sh, 0
  {
    hide *;
    assert allocated(Refs(sh)) && allocated(RefsAll(sh.kids));
    ghost var t, trees := TreeOf(sh), TreesOf(sh.kids);
    ArrayTree(sh);
    WholeIs(sh);
    var a := NewNode(plenty, ArrayKind);
    rsh := sh;
    if a == null { return null, rsh; }
    ghost var dup := Shape(a, []);
    LoneNode(a);
    Bare();
    IsCopy(a, dup, Array([]));
    for i := 0 to |node.items|
      invariant Whole(sh) && TreesOf(sh.kids) == trees && node.items == Heads(sh.kids) && node.kind.ArrayKind?
      invariant Copied(a, dup, Array(trees[..i])) && fresh(Refs(dup)) && a.kind.ArrayKind?
    {
      var n := node.items[i];
      ChildWhole(node, sh.kids, i);
      ChildFields(sh.kids[i], node, ArrayKind, i);
      if n.parent != node { return null, rsh; }
      TreeAt(sh.kids, i);
      WellFormedItem(t, i);
      assert allocated(Refs(dup)) && allocated(Refs(sh)) && allocated(RefsAll(sh.kids));
      var copy, csh := Copy(plenty, n, sh.kids[i]);
      if copy == null { return null, rsh; }
      CopyIs(a, dup, Array(trees[..i]));
      CopyIs(copy, csh, trees[i]);
      ArrayTree(dup);
      var ok := ArrayAppend(plenty, a, copy, dup, csh);
      if !ok { return null, rsh; }
      ghost var more := Shape(a, dup.kids + [csh]);
      MoreRefs(a, dup.kids, csh);
      assert trees[..i + 1] == trees[..i] + [trees[i]];
      IsCopy(a, more, Array(trees[..i + 1]));
      dup := more;
    }
    assert trees[..|trees|] == trees;
    return a, dup;
  }

  lemma MoreRefs(a: Node, ks: seq<Shape>, c: Shape)
    ensures Refs(Shape(a, ks + [c])) == Refs(Shape(a, ks)) + Refs(c)
  {
    RefsAppend(ks, [c]);
    OneKid(c, a, NullKind, 0);
  }

  lemma PutNew(es: seq<Entry>, k: nat)
    requires UniqueKeys(es) && k < |es|
    ensures Put(es[..k], es[k].key, es[k].tree) == es[..k + 1]
  {
    hide Find;
    assert Find(es[..k], es[k].key).None?;
    assert es[..k + 1] == es[..k] + [es[k]];
  }

  method CopyMap(plenty: bool, node: Node, ghost sh: Shape) returns (r: Node?, ghost rsh: Shape)
    requires Whole(sh) && sh.node == node && node.kind.MapKind? && WellFormed(TreeOf(sh))
    ensures plenty ==> r != null
    ensures r != null ==> Copied(r, rsh, old(TreeOf(sh))) && fresh(Refs(rsh))
    decreases sh, 0
  {
    hide *;
    assert allocated(Refs(sh)) && allocated(RefsAll(sh.kids));
    ghost var t, entries := TreeOf(sh), EntriesOf(sh.kids);
    MapTree(sh);
    WholeIs(sh);
    WellFormedItem(t, 0);
    var m := NewNode(plenty, MapKind);
    rsh := sh;
    if m == null { return null, rsh; }
    ghost var dup := Shape(m, []);
    LoneNode(m);
    Bare();
    IsCopy(m, dup, Map([]));
    for i := 0 to |node.items|
      invariant Whole(sh) && EntriesOf(sh.kids) == entries && node.items == Heads(sh.kids) && node.kind.MapKind?
      invariant Copied(m, dup, Map(entries[..i])) && fresh(Refs(dup)) && m.kind.MapKind?
    {
      var n := node.items[i];
      ChildWhole(node, sh.kids, i);
      ChildFields(sh.kids[i], node, MapKind, i);
      if n.parent != node || n.key.None? { return null, rsh; }
      var key := n.key.value;
      EntryAt(sh.kids, i);
      KeyIs(n);
      WellFormedItem(t, i);
      assert allocated(Refs(dup)) && allocated(Refs(sh)) && allocated(RefsAll(sh.kids));
      var copy, csh := Copy(plenty, n, sh.kids[i]);
      if copy == null { return null, rsh; }
      CopyIs(m, dup, Map(entries[..i]));
      CopyIs(copy, csh, entries[i].tree);
      MapTree(dup);
      WholeIs(dup);
      RootIn(dup);
      HeadSetIn(dup.kids);
      var ok, more := MapSet(plenty, m, key, copy, dup, csh);
      if !ok { return null, rsh; }
      PutNew(entries, i);
      IsCopy(m, more, Map(entries[..i + 1]));
      dup := more;
    }
    assert entries[..|entries|] == entries;
    return m, dup;
  }

  lemma HeadSetIn(ks: seq<Shape>)
    requires TidyAll(ks)
    ensures HeadSet(ks) <= RefsAll(ks)
  {
    hide RefsAll, TidyAll;
    HeadsDistinct(ks);
  }

  lemma KeyIs(n: Node)
    ensures n.key.Some? ==> KeyText(n) == n.key.value
  {
  }

  // ------------------------------------------------------------- replacing contents

  lemma {:induction false} KidsApart(ks: seq<Shape>, i: nat, j: nat)
    requires TidyAll(ks) && i < |ks| && j < |ks| && i != j
    ensures ks[i].node !in Refs(ks[j]) && ks[i].node !in RefsAll(ks[i].kids)
    ensures ks[i].node != ks[j].node
  {
    if i < j {
      KidsTidy(ks, i);
      assert ks == ks[..i] + ks[i..];
      RefsAppend(ks[..i], ks[i..]);
      TidyAppend(ks[..i], ks[i..]);
      assert ks[i..][1..] == ks[i + 1..];
      InRefs(ks[i + 1..], j - i - 1);
    } else {
      KidsTidy(ks, i);
      TidyAppend(ks[..j], ks[j..]);
      assert ks == ks[..j] + ks[j..];
      assert ks[j..][1..] == ks[j + 1..];
      InRefs(ks[j + 1..], i - j - 1);
    }
  }

  lemma {:induction false} KidsTidy(ks: seq<Shape>, i: nat)
    requires TidyAll(ks) && i < |ks|
    ensures Tidy(ks[i])
  {
    if i > 0 { KidsTidy(ks[1..], i - 1); }
  }

  lemma {:induction false} InRefs(ks: seq<Shape>, i: nat)
    requires i < |ks|
    ensures Refs(ks[i]) <= RefsAll(ks) && ks[i].node in Refs(ks[i])
  {
    if i > 0 {
      InRefs(ks[1..], i - 1);
      assert ks[1..][i - 1] == ks[i];
    }
  }

  lemma {:induction false} HoldsFrom(ks: seq<Shape>, node: Node, kind: Kind, from: nat)
    requires forall k :: 0 <= k < |ks| ==> Child(ks[k], node, kind, from + k)
    ensures HoldsAll(ks, node, kind, from)
  {
    if ks != [] {
      forall k | 0 <= k < |ks[1..]| ensures Child(ks[1..][k], node, kind, from + 1 + k) {
        assert ks[1..][k] == ks[k + 1];
      }
      HoldsFrom(ks[1..], node, kind, from + 1);
    }
  }

  /** The parent link of child `i` is set; the other children do not notice. */
  method Reparent(node: Node, ghost prior: Node, ghost kind: Kind, ghost ks: seq<Shape>, i: nat)
    requires TidyAll(ks) && node.items == Heads(ks) && i < |ks|
    requires forall k :: 0 <= k < |ks| ==> Child(ks[k], if k < i then node else prior, kind, k)
    modifies ks[i].node`parent
    ensures forall k :: 0 <= k < |ks| ==> Child(ks[k], if k <= i then node else prior, kind, k)
    ensures node.items == Heads(ks)
  {
    hide Refs, RefsAll, TidyAll, Holds;
    var child := node.items[i];
    forall k | 0 <= k < |ks| && k != i ensures child !in Refs(ks[k]) { KidsApart(ks, i, k); }
    KidsTidy(ks, i);
    assert child !in RefsAll(ks[i].kids);
    child.parent := node;
    forall k | 0 <= k < |ks| ensures Child(ks[k], if k <= i then node else prior, kind, k) {
      if k == i { assert Holds(ks[i]); }
    }
  }

  /** `confignode_reparent_children`. */
  method ReparentChildren(node: Node, ghost prior: Node, ghost kind: Kind, ghost ks: seq<Shape>)
    requires TidyAll(ks) && node.items == Heads(ks) && HoldsAll(ks, prior, kind, 0)
    modifies HeadSet(ks)`parent
    ensures HoldsAll(ks, node, kind, 0)
  {
    hide Child, TidyAll, HoldsAll;
    forall k | 0 <= k < |ks| ensures Child(ks[k], prior, kind, k) { ChildAt(ks, prior, kind, 0, k); }
    for i := 0 to |node.items|
      invariant node.items == Heads(ks)
      invariant forall k :: 0 <= k < |ks| ==> Child(ks[k], if k < i then node else prior, kind, k)
    {
      Reparent(node, prior, kind, ks, i);
    }
    HoldsFrom(ks, node, kind, 0);
  }

  lemma TreeParts(sh: Shape)
    ensures TreeOf(sh) == match sh.node.kind
      case NullKind => Null
      case ValueKind => Leaf(sh.node.value)
      case ArrayKind => Array(TreesOf(sh.kids))
      case MapKind => Map(EntriesOf(sh.kids))
  {
  }

  /** `confignode_replace_contents`: a node takes over the contents of a detached one and keeps its own
      place; what it had is freed. */
  method ReplaceContents(node: Node, replacement: Node, ghost sh: Shape, ghost rsh: Shape) returns (ok: bool)
    requires Whole(sh) && Whole(rsh) && Refs(sh) !! Refs(rsh) && sh.node == node && rsh.node == replacement
    modifies node`kind, node`items, node`value, replacement, HeadSet(sh.kids)`parent, HeadSet(rsh.kids)`parent
    ensures ok <==> old(replacement.parent) == null
    ensures ok ==> Whole(Shape(node, rsh.kids)) && TreeOf(Shape(node, rsh.kids)) == old(TreeOf(rsh))
    ensures !ok ==> unchanged(node) && unchanged(replacement) && Whole(sh) && TreeOf(sh) == old(TreeOf(sh))
  {
    hide *;
    if replacement.parent != null { return false; }
    assert allocated(Refs(sh)) && allocated(Refs(rsh)) && allocated(RefsAll(sh.kids)) && allocated(RefsAll(rsh.kids));
    WholeIs(sh);
    WholeIs(rsh);
    RootIn(sh);
    RootIn(rsh);
    HeadSetIn(sh.kids);
    HeadSetIn(rsh.kids);
    TreeParts(rsh);
    ghost var kind := node.kind;
    SwapContents(node, replacement);
    ReparentChildren(node, replacement, node.kind, rsh.kids);
    ReparentChildren(replacement, node, kind, sh.kids);
    IsWhole(Shape(node, rsh.kids));
    TreeParts(Shape(node, rsh.kids));
    return true;
  }

  method SwapContents(node: Node, replacement: Node)
    requires node != replacement
    modifies node`kind, node`items, node`value, replacement`kind, replacement`items, replacement`value,
      replacement`index
    ensures node.kind == old(replacement.kind) && replacement.kind == old(node.kind)
    ensures node.items == old(replacement.items) && replacement.items == old(node.items)
    ensures node.value == old(replacement.value) && replacement.value == old(node.value)
    ensures replacement.index == -1
  {
    node.kind, replacement.kind := replacement.kind, node.kind;
    node.items, replacement.items := replacement.items, node.items;
    node.value, replacement.value := replacement.value, node.value;
    replacement.index := -1;
  }

  // ------------------------------------------------------------- merging in place

  /** Everything about a tree in memory that merging into it keeps or finds. */
  ghost predicate Standing(node: Node, sh: Shape, t: Tree)
    reads Refs(sh), node
  {
    Whole(sh) && sh.node == node && TreeOf(sh) == t && WellFormed(t)
  }

  lemma StandingIs(node: Node, sh: Shape, t: Tree)
    requires Standing(node, sh, t)
    ensures Whole(sh) && sh.node == node && TreeOf(sh) == t && WellFormed(t) && node in Refs(sh)
  {
    RootIn(sh);
  }

  lemma IsStanding(node: Node, sh: Shape, t: Tree)
    requires Whole(sh) && sh.node == node && TreeOf(sh) == t && WellFormed(t)
    ensures Standing(node, sh, t)
  {
  }

  lemma KindTree(sh: Shape)
    ensures sh.node.kind.ArrayKind? <==> TreeOf(sh).Array?
    ensures sh.node.kind.MapKind? <==> TreeOf(sh).Map?
  {
  }

  lemma MergeOther(a: Tree, b: Tree)
    requires !(a.Map? && b.Map?) && !(a.Array? && b.Array?)
    ensures Merge(a, b) == b
  {
  }

  /** `confignode_merge_in_place`: on success `node` holds the merge of what it held and `new`, which
      stays as it is. On failure it may be left half merged. The two trees do not overlap. */
  method MergeInPlace(plenty: bool, node: Node, source: Node, ghost sh: Shape, ghost nsh: Shape, ghost t: Tree,
                      ghost u: Tree)
    returns (ok: bool, ghost r: Shape)
    requires Standing(node, sh, t) && Standing(source, nsh, u) && Refs(sh) !! Refs(nsh)
    modifies Refs(sh)
    ensures plenty ==> ok
    ensures node.parent == old(node.parent) && node.key == old(node.key) && node.index == old(node.index)
    ensures ok ==> Standing(node, r, Merge(t, u)) && fresh(Refs(r) - Refs(sh))
    decreases nsh, 1
  {
    hide *;
    assert allocated(Refs(sh)) && allocated(Refs(nsh)) && allocated(RefsAll(sh.kids));
    StandingIs(node, sh, t);
    StandingIs(source, nsh, u);
    KindTree(sh);
    KindTree(nsh);
    if node.kind != source.kind || (node.kind != MapKind && node.kind != ArrayKind) {
      MergeOther(t, u);
      ok, r := MergeReplace(plenty, node, source, sh, nsh, u);
      return;
    }
    if node.kind == ArrayKind {
      ok, r := MergeArrays(plenty, node, source, sh, nsh, t, u);
    } else {
      ok, r := MergeMaps(plenty, node, source, sh, nsh, t, u);
    }
  }

  method MergeReplace(plenty: bool, node: Node, source: Node, ghost sh: Shape, ghost nsh: Shape, ghost u: Tree)
    returns (ok: bool, ghost r: Shape)
    requires Whole(sh) && sh.node == node && Standing(source, nsh, u) && Refs(sh) !! Refs(nsh)
    modifies Refs(sh)
    ensures plenty ==> ok
    ensures node.parent == old(node.parent) && node.key == old(node.key) && node.index == old(node.index)
    ensures ok ==> Standing(node, r, u) && fresh(Refs(r) - Refs(sh))
  {
    hide *;
    assert allocated(Refs(sh)) && allocated(RefsAll(sh.kids));
    StandingIs(source, nsh, u);
    RootIn(sh);
    WholeIs(sh);
    HeadSetIn(sh.kids);
    r := sh;
    var copy, csh := Copy(plenty, source, nsh);
    if copy == null { return false, sh; }
    CopyIs(copy, csh, u);
    WholeIs(csh);
    HeadSetIn(csh.kids);
    RootIn(csh);
    ok := ReplaceContents(node, copy, sh, csh);
    r := Shape(node, csh.kids);
    RootIn(r);
    if ok { IsStanding(node, r, u); }
  }

  lemma MergeArraysIs(a: Tree, b: Tree)
    requires a.Array? && b.Array?
    ensures Merge(a, b) == Array(a.items + b.items)
  {
  }

  lemma AppendWellFormed(items: seq<Tree>, x: Tree)
    requires WellFormed(Array(items)) && WellFormed(x)
    ensures WellFormed(Array(items + [x]))
  {
  }

  /** The loop for two arrays: copies of the source's items are appended. */
  method MergeArrays(plenty: bool, node: Node, source: Node, ghost sh: Shape, ghost nsh: Shape, ghost t: Tree,
                     ghost u: Tree)
    returns (ok: bool, ghost r: Shape)
    requires Standing(node, sh, t) && Standing(source, nsh, u) && Refs(sh) !! Refs(nsh)
    requires node.kind.ArrayKind? && source.kind.ArrayKind? && t.Array? && u.Array?
    modifies Refs(sh)
    ensures plenty ==> ok
    ensures node.parent == old(node.parent) && node.key == old(node.key) && node.index == old(node.index)
    ensures ok ==> Standing(node, r, Merge(t, u)) && fresh(Refs(r) - Refs(sh))
    decreases nsh, 0
  {
    hide *;
    assert allocated(Refs(sh)) && allocated(Refs(nsh)) && allocated(RefsAll(nsh.kids));
    StandingIs(node, sh, t);
    StandingIs(source, nsh, u);
    WholeIs(nsh);
    ArrayTree(nsh);
    r := sh;
    MergeArraysIs(t, u);
    assert t.items + u.items[..0] == t.items;
    for i := 0 to |source.items|
      invariant Standing(source, nsh, u) && source.items == Heads(nsh.kids) && TreesOf(nsh.kids) == u.items
      invariant Standing(node, r, Array(t.items + u.items[..i])) && node.kind.ArrayKind? && source.kind.ArrayKind?
      invariant fresh(Refs(r) - Refs(sh)) && Refs(r) !! Refs(nsh)
      invariant node.parent == old(node.parent) && node.key == old(node.key) && node.index == old(node.index)
    {
      var n := source.items[i];
      StandingIs(node, r, Array(t.items + u.items[..i]));
      StandingIs(source, nsh, u);
      ChildWhole(source, nsh.kids, i);
      ChildFields(nsh.kids[i], source, ArrayKind, i);
      TreeAt(nsh.kids, i);
      WellFormedItem(u, i);
      RootIn(nsh);
      assert allocated(Refs(r)) && allocated(Refs(nsh)) && allocated(RefsAll(nsh.kids));
      if n.parent != source { continue; }
      var copy, csh := Copy(plenty, n, nsh.kids[i]);
      if copy == null { return false, r; }
      CopyIs(copy, csh, u.items[i]);
      StandingIs(node, r, Array(t.items + u.items[..i]));
      ArrayTree(r);
      ok := ArrayAppend(plenty, node, copy, r, csh);
      if !ok { return false, r; }
      ghost var more := Shape(node, r.kids + [csh]);
      MoreRefs(node, r.kids, csh);
      assert t.items + u.items[..i + 1] == t.items + u.items[..i] + [u.items[i]];
      AppendWellFormed(t.items + u.items[..i], u.items[i]);
      IsStanding(node, more, Array(t.items + u.items[..i + 1]));
      r := more;
    }
    assert u.items[..|u.items|] == u.items;
    return true, r;
  }

  lemma PutWellFormed(es: seq<Entry>, key: string, x: Tree)
    requires WellFormed(Map(es)) && WellFormed(x)
    ensures WellFormed(Map(Put(es, key, x)))
  {
  }

  /** A key that both maps have: the child is merged, and stands where it stood. */
  method MergeChild(plenty: bool, node: Node, key: string, s: Node, n: Node, ghost r: Shape, ghost k: nat,
                    ghost csh: Shape, ghost es: seq<Entry>, ghost x: Tree)
    returns (ok: bool, ghost q: Shape)
    requires Standing(node, r, Map(es)) && node.kind.MapKind? && Find(es, key) == Some(k) && k < |r.kids|
    requires s == r.kids[k].node && Standing(n, csh, x) && Refs(r) !! Refs(csh)
    modifies RefsAll(r.kids)
    ensures plenty ==> ok
    ensures node.parent == old(node.parent) && node.key == old(node.key) && node.index == old(node.index)
    ensures node.kind.MapKind?
    ensures ok ==> Standing(node, q, Map(Put(es, key, Merge(es[k].tree, x)))) && fresh(Refs(q) - Refs(r))
    decreases csh, 2
  {
    hide *;
    ghost var a, c, b := r.kids[..k], r.kids[k], r.kids[k + 1..];
    StandingIs(node, r, Map(es));
    MapTree(r);
    Parts(node, r.kids, k);
    PartTrees(r.kids, k);
    EntryAt(r.kids, k);
    ghost var ea, eb := EntriesOf(a), EntriesOf(b);
    ghost var y := es[k].tree;
    ApartWhole(a, c, b, node, MapKind);
    ApartIs(a, c, b);
    ChildFields(c, node, MapKind, k);
    WellFormedItem(Map(es), k);
    FoundKey(es, key, k);
    IsStanding(s, c, y);
    RootIn(r);
    RootIn(c);
    assert allocated(Refs(c)) && allocated(RefsAll(a)) && allocated(RefsAll(b)) && allocated(Refs(r));
    PutFound(es, key, k, Merge(y, x), ea, eb);
    StandingIs(n, csh, x);
    MergeWellFormed(y, x);
    PutWellFormed(es, key, Merge(y, x));
    ghost var c';
    ok, c' := MergeInPlace(plenty, s, n, c, csh, y, x);
    q := r;
    if !ok { return false, r; }
    StandingIs(s, c', Merge(y, x));
    q := Shape(node, a + [c'] + b);
    ChildAgain(c', node, MapKind, k);
    StillApart(a, c, c', b);
    Assembled(node, a, c', b);
    RootIn(q);
    MapTree(q);
    IsStanding(node, q, Map(Put(es, key, Merge(y, x))));
  }

  lemma FoundKey(es: seq<Entry>, key: string, k: nat)
    requires Find(es, key) == Some(k)
    ensures k < |es| && es[k].key == key
  {
  }

  lemma ChildAgain(c: Shape, node: Node, kind: Kind, k: nat)
    requires c.node.parent == node && kind.MapKind? && c.node.key.Some? && Whole(c)
    ensures Child(c, node, kind, k)
  {
  }

  lemma ApartIs(a: seq<Shape>, c: Shape, b: seq<Shape>)
    requires Apart(a, c, b)
    ensures RefsAll(a) !! Refs(c) && RefsAll(a) !! RefsAll(b) && Refs(c) !! RefsAll(b)
  {
  }

  lemma StillApart(a: seq<Shape>, prior: Shape, c: Shape, b: seq<Shape>)
    requires Apart(a, prior, b) && Whole(c)
    requires (Refs(c) - Refs(prior)) !! RefsAll(a) && (Refs(c) - Refs(prior)) !! RefsAll(b)
    ensures Apart(a, c, b)
  {
  }

  lemma MergeEntriesStep(es: seq<Entry>, b: seq<Entry>)
    requires b != []
    ensures MergeEntries(es, b) == MergeEntries(Put(es, b[0].key, MergeEntry(Get(es, b[0].key), b[0].tree)), b[1..])
  {
  }

  lemma EntryMerged(es: seq<Entry>, key: string, x: Tree)
    ensures MergeEntry(Get(es, key), x) ==
      if Find(es, key).None? then x else Merge(es[Find(es, key).value].tree, x)
  {
  }

  lemma MergeMapsIs(a: Tree, b: Tree)
    requires a.Map? && b.Map?
    ensures Merge(a, b) == Map(MergeEntries(a.entries, b.entries))
  {
  }

  lemma MergeNoEntries(es: seq<Entry>)
    ensures MergeEntries(es, []) == es
  {
  }

  /** The loop for two maps, entry by entry of the source. */
  method MergeMaps(plenty: bool, node: Node, source: Node, ghost sh: Shape, ghost nsh: Shape, ghost t: Tree,
                   ghost u: Tree)
    returns (ok: bool, ghost r: Shape)
    requires Standing(node, sh, t) && Standing(source, nsh, u) && Refs(sh) !! Refs(nsh)
    requires node.kind.MapKind? && source.kind.MapKind? && t.Map? && u.Map?
    modifies Refs(sh)
    ensures plenty ==> ok
    ensures node.parent == old(node.parent) && node.key == old(node.key) && node.index == old(node.index)
    ensures ok ==> Standing(node, r, Merge(t, u)) && fresh(Refs(r) - Refs(sh))
    decreases nsh, 0
  {
    hide *;
    assert allocated(Refs(sh)) && allocated(Refs(nsh)) && allocated(RefsAll(nsh.kids));
    StandingIs(node, sh, t);
    StandingIs(source, nsh, u);
    WholeIs(nsh);
    MapTree(nsh);
    r := sh;
    MergeMapsIs(t, u);
    ghost var es := t.entries;
    assert u.entries[0..] == u.entries;
    for i := 0 to |source.items|
      invariant Standing(source, nsh, u) && source.items == Heads(nsh.kids) && EntriesOf(nsh.kids) == u.entries
      invariant Standing(node, r, Map(es)) && node.kind.MapKind? && source.kind.MapKind?
      invariant MergeEntries(es, u.entries[i..]) == MergeEntries(t.entries, u.entries)
      invariant fresh(Refs(r) - Refs(sh)) && Refs(r) !! Refs(nsh)
      invariant node.parent == old(node.parent) && node.key == old(node.key) && node.index == old(node.index)
    {
      var n := source.items[i];
      StandingIs(node, r, Map(es));
      StandingIs(source, nsh, u);
      ChildWhole(source, nsh.kids, i);
      ChildFields(nsh.kids[i], source, MapKind, i);
      EntryAt(nsh.kids, i);
      KeyIs(n);
      WellFormedItem(u, i);
      RootIn(nsh);
      RootIn(r);
      assert allocated(Refs(r)) && allocated(Refs(nsh)) && allocated(RefsAll(nsh.kids));
      if n.parent != source { continue; }
      if n.key.None? { return false, r; }
      ghost var rest := u.entries[i..];
      assert rest[0] == u.entries[i] && rest[1..] == u.entries[i + 1..];
      assert n.key.value == rest[0].key;
      MergeEntriesStep(es, rest);
      ok, r, es := MergeOne(plenty, node, n.key.value, n, r, nsh.kids[i], es, u.entries[i].tree);
      if !ok { return false, r; }
    }
    assert u.entries[|u.entries|..] == [];
    MergeNoEntries(es);
    return true, r;
  }

  /** One entry of the source: merged into the child of that key, or copied to a new one. */
  method MergeOne(plenty: bool, node: Node, key: string, n: Node, ghost r: Shape, ghost csh: Shape,
                  ghost es: seq<Entry>, ghost x: Tree)
    returns (ok: bool, ghost q: Shape, ghost fs: seq<Entry>)
    requires Standing(node, r, Map(es)) && node.kind.MapKind? && csh.node == n && Whole(csh) && TreeOf(csh) == x &&
      WellFormed(x) && Refs(r) !! Refs(csh)
    modifies Refs(r)
    ensures plenty ==> ok
    ensures node.parent == old(node.parent) && node.key == old(node.key) && node.index == old(node.index)
    ensures node.kind.MapKind?
    ensures ok ==> Standing(node, q, Map(fs)) && fresh(Refs(q) - Refs(r))
    ensures ok ==> fs == Put(es, key, MergeEntry(Get(es, key), x))
    decreases csh, 3
  {
    hide *;
    assert allocated(Refs(r)) && allocated(Refs(csh)) && allocated(RefsAll(r.kids)) && allocated(RefsAll(csh.kids));
    StandingIs(node, r, Map(es));
    IsStanding(n, csh, x);
    MapTree(r);
    WholeIs(r);
    RootIn(r);
    EntryMerged(es, key, x);
    q, fs := r, es;
    var s, k := MapGet(node, key, r);
    if s != null {
      FoundKey(es, key, k);
      label Before:
      ok, q := MergeChild(plenty, node, key, s, n, r, k, csh, es, x);
      fs := Put(es, key, Merge(es[k].tree, x));
      assert ok ==> forall m: Node | m in Refs(q) && m !in Refs(r) :: fresh@Before(m);
      return;
    }
    var copy, dup := Copy(plenty, n, csh);
    if copy == null { return false, q, fs; }
    CopyIs(copy, dup, x);
    HeadSetIn(r.kids);
    PutWellFormed(es, key, x);
    ok, q := MapSet(plenty, node, key, copy, r, dup);
    if ok {
      fs := Put(es, key, x);
      IsStanding(node, q, Map(fs));
    }
  }

  // ------------------------------------------------------------- merging all or nothing

  /** `confignode_merge`: either the tree becomes the merge of both, or nothing in memory has changed.
      Merging a tree into itself changes nothing. */
  method MergeTrees(plenty: bool, node: Node, source: Node, ghost sh: Shape, ghost nsh: Shape)
    returns (ok: bool, ghost r: Shape)
    requires Whole(sh) && sh.node == node && WellFormed(TreeOf(sh))
    requires Whole(nsh) && nsh.node == source && WellFormed(TreeOf(nsh))
    modifies Refs(sh)
    ensures plenty ==> ok
    ensures node.parent == old(node.parent) && node.key == old(node.key) && node.index == old(node.index)
    ensures !ok || node == source ==> unchanged(node) && Whole(sh) && TreeOf(sh) == old(TreeOf(sh))
    ensures ok ==> Whole(r) && r.node == node && fresh(Refs(r) - Refs(sh))
    ensures ok && node != source ==> TreeOf(r) == Merge(old(TreeOf(sh)), old(TreeOf(nsh)))
  {
    hide *;
    r := sh;
    if node == source { return true, sh; }
    ghost var t, u := TreeOf(sh), TreeOf(nsh);
    assert allocated(Refs(sh)) && allocated(Refs(nsh)) && allocated(RefsAll(sh.kids)) && allocated(RefsAll(nsh.kids));
    RootIn(sh);
    WholeIs(sh);
    HeadSetIn(sh.kids);
    var working, wsh := Copy(plenty, node, sh);
    if working == null { return false, sh; }
    CopyIs(working, wsh, t);
    IsStanding(working, wsh, t);
    IsStanding(source, nsh, u);
    ghost var first := Refs(wsh);
    var merged;
    label Working:
    merged, wsh := MergeInPlace(plenty, working, source, wsh, nsh, t, u);
    if !merged { return false, sh; }
    assert forall m: Node | m in Refs(wsh) && m !in first :: fresh@Working(m);
    StandingIs(working, wsh, Merge(t, u));
    WholeIs(wsh);
    HeadSetIn(wsh.kids);
    RootIn(wsh);
    ok := ReplaceContents(node, working, sh, wsh);
    r := Shape(node, wsh.kids);
    RootIn(r);
  }
}
