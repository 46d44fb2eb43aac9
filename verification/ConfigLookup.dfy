/** Paths in a configuration tree in memory (`embloader/src/configfile/path.c`): lookup, lookup with
    creation, and setting a value. Memory may run out at any allocation unless there is `plenty`. */
module ConfigLookup {
  import opened Wrappers
  import opened ConfigTree
  import opened ConfigPath
  import opened ConfigConf
  import opened ConfigNode
  import opened ConfigMerge
  import opened ConfigPlace
  import opened ConfigReplace
  import opened Sizes

  // ------------------------------------------------------------- the tree around a child

  /** The whole tree, as it depends on what is at a segment of the standing node. */
  ghost function Setting(goal: Tree -> Tree, t: Tree, s: Segment): Tree -> Tree {
    x => goal(SetSlot(t, s, x))
  }

  /** The same for a path. */
  ghost function Putting(goal: Tree -> Tree, t: Tree, p: Path): Tree -> Tree {
    x => goal(PutAt(t, p, x))
  }

  lemma SettingIs(goal: Tree -> Tree, t: Tree, s: Segment, x: Tree)
    ensures Setting(goal, t, s)(x) == goal(SetSlot(t, s, x))
  {
  }

  lemma PuttingIs(goal: Tree -> Tree, t: Tree, p: Path, x: Tree)
    ensures Putting(goal, t, p)(x) == goal(PutAt(t, p, x))
  {
  }

  lemma Restand(top: Shape, at: Place, node: Node, t: Tree, goal: Tree -> Tree, other: Tree -> Tree)
    requires Stands(top, at, node, t, goal) && forall x :: goal(x) == other(x)
    ensures Stands(top, at, node, t, other)
  {
    hide Refs, TreeOf, Surrounds, TreeAround, Holds, TidyAll, Stands;
    StandsIs(top, at, node, t, goal);
    IsStands(top, at, node, t, other);
  }

  lemma PuttingStep(goal: Tree -> Tree, t: Tree, p: Path)
    requires p != []
    ensures forall x :: Putting(Setting(goal, t, p[0]), Slot(t, p[0]), p[1..])(x) == Putting(goal, t, p)(x)
  {
    hide PutAt, SetSlot, Slot;
    assert [p[0]] + p[1..] == p;
    forall x ensures Putting(Setting(goal, t, p[0]), Slot(t, p[0]), p[1..])(x) == Putting(goal, t, p)(x) {
      PutAtSlot(t, p[0], p[1..], x);
    }
  }

  lemma LookupStep(t: Tree, p: Path)
    requires p != []
    ensures OrNull(Lookup(t, p)) == OrNull(Lookup(Slot(t, p[0]), p[1..]))
    ensures Lookup(t, p).Some? ==> Lookup(t, [p[0]]) == Some(Slot(t, p[0])) && Lookup(Slot(t, p[0]), p[1..]).Some?
    ensures Lookup(t, [p[0]]).Some? && Lookup(Slot(t, p[0]), p[1..]).Some? ==> Lookup(t, p).Some?
  {
    NullLookup(p[1..]);
    assert [p[0]][1..] == [];
  }

  // ------------------------------------------------------------- a container of the right kind

  function WantedKind(s: Segment): Kind {
    if s.Index? then ArrayKind else MapKind
  }

  function Bare(s: Segment): Tree {
    if s.Index? then Array([]) else Map([])
  }

  lemma BareFits(t: Tree, s: Segment)
    requires !KindFits(t, s)
    ensures KindFits(Bare(s), s) && Slot(Bare(s), s) == Slot(t, s)
    ensures forall x :: SetSlot(Bare(s), s, x) == SetSlot(t, s, x)
  {
  }

  lemma KindOfNode(top: Shape, at: Place, node: Node, t: Tree, goal: Tree -> Tree, s: Segment)
    requires Stands(top, at, node, t, goal)
    ensures node.kind == WantedKind(s) <==> KindFits(t, s)
  {
    hide Stands;
    StandsIs(top, at, node, t, goal);
  }

  /** `confignode_path_require_type`: a node of another kind gives way to an empty container, if there is
      a parent to hold it. */
  method RequireType(plenty: bool, node: Node, want: Kind, create: bool, ghost s: Segment, ghost top: Shape,
                     ghost at: Place, ghost t: Tree, ghost goal: Tree -> Tree)
    returns (r: Node?, ghost top': Shape)
    requires Stands(top, at, node, t, goal) && want == WantedKind(s)
    modifies if create then Refs(top) else {}
    ensures fresh(Refs(top') - Refs(top)) && top'.node == top.node
    ensures r == null ==> top' == top && Stands(top, at, node, t, goal) && !KindFits(t, s)
    ensures KindFits(t, s) ==> r == node && Stands(top', at, node, t, goal)
    ensures r != null && !KindFits(t, s) ==> Stands(top', at, r, Bare(s), goal) && create && at != []
    ensures !create || KindFits(t, s) ==> top' == top
    ensures plenty && create && at != [] ==> r != null
  {
    hide *;
    KindOfNode(top, at, node, t, goal, s);
    RootedAt(top, at, node, t, goal);
    top' := top;
    if node.kind == want { return node, top; }
    if !create || node.parent == null { return null, top; }
    assert allocated(Refs(top));
    var replacement := NewNode(plenty, want);
    if replacement == null { return null, top; }
    ghost var nsh := Shape(replacement, []);
    LoneNode(replacement);
    WantedEmpty(s, replacement);
    RootIs(replacement, nsh, Bare(s));
    var ok;
    ok, top' := ReplaceAt(plenty, node, replacement, top, at, t, goal, nsh, Bare(s));
    if !ok { return null, top; }
    return replacement, top';
  }

  lemma WantedEmpty(s: Segment, n: Node)
    requires n.kind == WantedKind(s) && n.items == []
    ensures TreeOf(Shape(n, [])) == Bare(s)
  {
  }

  // ------------------------------------------------------------- one segment

  /** What may be left of a node, where the path `p` goes on, when memory ran out: an empty container, if
      it was of another kind, or a longer array. */
  ghost predicate Partial(t: Tree, p: Path, u: Tree) {
    u == t ||
    (p != [] && if p[0].Index? then u.Array? && u.items == Extend(Items(t), |u.items|) else u == Map(Entries(t)))
  }

  /** A call gave up: the tree is whole and `u` stands where `t` stood. */
  ghost predicate Halted(top: Shape, t: Tree, p: Path, u: Tree, goal: Tree -> Tree)
    reads Refs(top)
  {
    Whole(top) && top.node.parent == null && TreeOf(top) == goal(u) && Partial(t, p, u)
  }

  lemma Halts(top: Shape, at: Place, node: Node, t: Tree, p: Path, u: Tree, goal: Tree -> Tree)
    requires Stands(top, at, node, u, goal) && Partial(t, p, u)
    ensures Halted(top, t, p, u, goal)
  {
    hide Refs, TreeOf, Surrounds, TreeAround, Holds, TidyAll, Stands, Partial;
    StandsIs(top, at, node, u, goal);
  }

  /** `confignode_array_get`. */
  method ArrayGet(node: Node, index: nat, ghost sh: Shape) returns (r: Node?)
    requires Whole(sh) && sh.node == node && node.kind.ArrayKind?
    ensures r != null <==> index < |sh.kids|
    ensures r != null ==> r == sh.kids[index].node
  {
    hide HoldsAll, Holds, Whole, TidyAll, Refs, RefsAll;
    WholeIs(sh);
    for i := 0 to |node.items|
      invariant HoldsAll(sh.kids, node, ArrayKind, 0) && node.items == Heads(sh.kids) && i <= index
    {
      var n := node.items[i];
      ChildAt(sh.kids, node, ArrayKind, 0, i);
      if n.parent != node || n.index < 0 || n.index != index { continue; }
      return n;
    }
    return null;
  }

  lemma ExtendMore(items: seq<Tree>, n: nat)
    requires |items| <= n
    ensures Extend(items, n) + [Null] == Extend(items, n + 1)
  {
  }

  lemma ExtendSame(items: seq<Tree>, n: nat)
    requires n <= |items|
    ensures Extend(items, n) == items
  {
  }

  lemma ExtendPartial(t: Tree, index: nat, n: nat)
    requires t.Array?
    ensures Partial(t, [Index(index)], Array(Extend(t.items, n)))
  {
  }

  /** One more item, empty, in an array anywhere in the tree. */
  method ArrayGrow(plenty: bool, node: Node, ghost top: Shape, ghost at: Place, ghost items: seq<Tree>,
                   ghost goal: Tree -> Tree)
    returns (ok: bool, ghost top': Shape)
    requires Stands(top, at, node, Array(items), goal)
    modifies Refs(top)
    ensures fresh(Refs(top') - Refs(top)) && top'.node == top.node
    ensures ok ==> Stands(top', at, node, Array(items + [Null]), goal)
    ensures !ok ==> top' == top && Stands(top, at, node, Array(items), goal)
    ensures plenty ==> ok
  {
    hide *;
    StandsIs(top, at, node, Array(items), goal);
    ghost var sh := SubAt(top, at);
    assert allocated(Refs(top)) && allocated(Refs(sh)) && allocated(RefsAll(sh.kids));
    ArrayTree(sh);
    var sub := NewNode(plenty, NullKind);
    if sub == null { return false, top; }
    ghost var csh := Shape(sub, []);
    LoneNode(sub);
    RootIn(sh);
    ok := ArrayAppend(plenty, node, sub, sh, csh);
    if !ok { return false, top; }
    ghost var more := Shape(node, sh.kids + [csh]);
    MoreRefs(node, sh.kids, csh);
    Changed(top, at, more, Array(items + [Null]), goal);
    return true, Plug(top, at, more);
  }

  /** `confignode_array_extend`. */
  method ArrayExtend(plenty: bool, node: Node, nlen: nat, ghost index: nat, ghost top: Shape, ghost at: Place,
                     ghost items: seq<Tree>, ghost goal: Tree -> Tree)
    returns (ok: bool, ghost top': Shape, ghost u: Tree)
    requires Stands(top, at, node, Array(items), goal)
    modifies Refs(top)
    ensures fresh(Refs(top') - Refs(top)) && top'.node == top.node
    ensures Stands(top', at, node, u, goal) && Partial(Array(items), [Index(index)], u)
    ensures ok ==> u == Array(Extend(items, nlen))
    ensures plenty ==> ok
  {
    hide *;
    ghost var n := |items|;
    top', u := top, Array(items);
    StandsLength(top, at, node, items, goal);
    ExtendSame(items, n);
    ExtendPartial(u, index, n);
    var len := |node.items|;
    for i := len to if nlen > len then nlen else len
      invariant Stands(top', at, node, u, goal) && u == Array(Extend(items, i))
      invariant Partial(Array(items), [Index(index)], u)
      invariant fresh(Refs(top') - Refs(top)) && top'.node == top.node
    {
      label Before:
      ghost var was := top';
      ok, top' := ArrayGrow(plenty, node, top', at, Extend(items, i), goal);
      assert forall m: Node | m in Refs(top') && m !in Refs(was) :: fresh@Before(m);
      if !ok { return false, top', u; }
      ExtendMore(items, i);
      u := Array(Extend(items, i + 1));
      ExtendPartial(Array(items), index, i + 1);
    }
    if nlen <= len { ExtendSame(items, nlen); }
    return true, top', u;
  }

  lemma StandsLength(top: Shape, at: Place, node: Node, items: seq<Tree>, goal: Tree -> Tree)
    requires Stands(top, at, node, Array(items), goal)
    ensures |node.items| == |items| == |SubAt(top, at).kids|
    ensures TreesOf(SubAt(top, at).kids) == items
  {
    hide *;
    StandsIs(top, at, node, Array(items), goal);
    WholeIs(SubAt(top, at));
    ArrayTree(SubAt(top, at));
    HeadsLength(SubAt(top, at).kids);
  }

  lemma HeadsLength(ks: seq<Shape>)
    ensures |Heads(ks)| == |ks| == |TreesOf(ks)| == |EntriesOf(ks)|
  {
  }

  lemma LevelIndex(sh: Shape, items: seq<Tree>, index: nat)
    requires sh.node.kind.ArrayKind? && TreesOf(sh.kids) == items && index < |items|
    ensures index < |sh.kids| && TreeOf(sh.kids[index]) == Slot(Array(items), Index(index))
    ensures forall x :: LevelTree(sh, index, x) == SetSlot(Array(items), Index(index), x)
  {
    hide TreesOf, TreeOf, SetSlot, Slot, LevelTree, EntriesOf;
    HeadsLength(sh.kids);
    PartTrees(sh.kids, index);
    HeadsLength(sh.kids[..index]);
    var a, c, b := TreesOf(sh.kids[..index]), TreeOf(sh.kids[index]), TreesOf(sh.kids[index + 1..]);
    forall x ensures LevelTree(sh, index, x) == SetSlot(Array(items), Index(index), x) {
      ItemSlot(a, c, b, items, x);
      LevelItems(sh, index, x);
    }
    ItemSlot(a, c, b, items, Null);
  }

  lemma LevelItems(sh: Shape, index: nat, x: Tree)
    requires sh.node.kind.ArrayKind? && index < |sh.kids|
    ensures LevelTree(sh, index, x) == Array(TreesOf(sh.kids[..index]) + [x] + TreesOf(sh.kids[index + 1..]))
  {
    hide TreesOf;
  }

  lemma ItemSlot(a: seq<Tree>, c: Tree, b: seq<Tree>, items: seq<Tree>, x: Tree)
    requires items == a + [c] + b
    ensures Slot(Array(items), Index(|a|)) == c
    ensures SetSlot(Array(items), Index(|a|), x) == Array(a + [x] + b)
  {
    ExtendSame(items, |a| + 1);
    assert items[|a| := x] == a + [x] + b;
  }

  lemma EnterIndexAt(top: Shape, at: Place, node: Node, items: seq<Tree>, goal: Tree -> Tree, index: nat)
    requires Stands(top, at, node, Array(items), goal) && index < |items|
    ensures index < |SubAt(top, at).kids|
    ensures Stands(top, at + [index], SubAt(top, at).kids[index].node, Slot(Array(items), Index(index)),
      Setting(goal, Array(items), Index(index)))
  {
    hide *;
    StandsIs(top, at, node, Array(items), goal);
    StandsLength(top, at, node, items, goal);
    LevelIndex(SubAt(top, at), items, index);
    forall x { SettingIs(goal, Array(items), Index(index), x); }
    Down(top, at, node, Array(items), goal, index, Setting(goal, Array(items), Index(index)));
  }

  lemma ExtendedSlot(items: seq<Tree>, index: nat, goal: Tree -> Tree)
    ensures var t, u, s := Array(items), Array(Extend(items, index + 1)), Index(index);
      Slot(u, s) == Slot(t, s) && forall x :: Setting(goal, u, s)(x) == Setting(goal, t, s)(x)
  {
    hide Setting;
    var t, u, s := Array(items), Array(Extend(items, index + 1)), Index(index);
    ExtendSame(u.items, index + 1);
    forall x ensures Setting(goal, u, s)(x) == Setting(goal, t, s)(x) {
      SettingIs(goal, u, s, x);
      SettingIs(goal, t, s, x);
    }
  }

  /** The item at an index, where an array may have to be extended. */
  method EnterIndex(plenty: bool, node: Node, index: nat, create: bool, ghost top: Shape, ghost at: Place,
                    ghost items: seq<Tree>, ghost goal: Tree -> Tree)
    returns (r: Node?, ghost top': Shape, ghost at': Place, ghost u: Tree)
    requires Stands(top, at, node, Array(items), goal) && index < SIZE_MAX
    modifies if create then Refs(top) else {}
    ensures fresh(Refs(top') - Refs(top)) && top'.node == top.node
    ensures r != null ==> at' == at + [index] && Stands(top', at', r, Slot(Array(items), Index(index)),
      Setting(goal, Array(items), Index(index)))
    ensures r == null ==> Halted(top', Array(items), [Index(index)], u, goal)
    ensures !create ==> top' == top && (r != null <==> index < |items|)
    ensures plenty && create ==> r != null
  {
    hide *;
    top', at', u := top, at + [index], Array(items);
    StandsLength(top, at, node, items, goal);
    StandsIs(top, at, node, Array(items), goal);
    StaysPartial(u);
    ExtendSame(items, |items|);
    assert allocated(Refs(top));
    r := ArrayGet(node, index, SubAt(top, at));
    if r == null {
      Halts(top, at, node, u, [Index(index)], u, goal);
      if !create || index == SIZE_MAX { return; }
      var ok;
      ok, top', u := ArrayExtend(plenty, node, index + 1, index, top, at, items, goal);
      Halts(top', at, node, Array(items), [Index(index)], u, goal);
      if !ok { return; }
      ghost var more := Extend(items, index + 1);
      StandsLength(top', at, node, more, goal);
      StandsIs(top', at, node, u, goal);
      LongEnough(items, index);
      assert allocated(Refs(top'));
      r := ArrayGet(node, index, SubAt(top', at));
      EnterIndexAt(top', at, node, more, goal, index);
      ExtendedSlot(items, index, goal);
      Restand(top', at', r, Slot(u, Index(index)), Setting(goal, u, Index(index)),
        Setting(goal, Array(items), Index(index)));
    } else {
      EnterIndexAt(top, at, node, items, goal, index);
    }
  }

  lemma LongEnough(items: seq<Tree>, index: nat)
    ensures index < |Extend(items, index + 1)|
  {
  }

  // ------------------------------------------------------------- keys

  lemma LevelKey(sh: Shape, es: seq<Entry>, key: string, k: nat)
    requires sh.node.kind.MapKind? && EntriesOf(sh.kids) == es && Find(es, key) == Some(k)
    ensures k < |sh.kids| && TreeOf(sh.kids[k]) == Slot(Map(es), Key(key))
    ensures forall x :: LevelTree(sh, k, x) == SetSlot(Map(es), Key(key), x)
  {
    hide EntriesOf, TreeOf, Find;
    HeadsLength(sh.kids);
    FoundKey(es, key, k);
    PartTrees(sh.kids, k);
    EntryAt(sh.kids, k);
    HeadsLength(sh.kids[..k]);
    forall x { PutFound(es, key, k, x, EntriesOf(sh.kids[..k]), EntriesOf(sh.kids[k + 1..])); }
  }

  lemma StandsEntries(top: Shape, at: Place, node: Node, es: seq<Entry>, goal: Tree -> Tree)
    requires Stands(top, at, node, Map(es), goal)
    ensures EntriesOf(SubAt(top, at).kids) == es && |es| == |SubAt(top, at).kids|
  {
    hide *;
    StandsIs(top, at, node, Map(es), goal);
    MapTree(SubAt(top, at));
    HeadsLength(SubAt(top, at).kids);
  }

  lemma EnterKeyAt(top: Shape, at: Place, node: Node, es: seq<Entry>, goal: Tree -> Tree, key: string, k: nat)
    requires Stands(top, at, node, Map(es), goal) && Find(es, key) == Some(k)
    ensures k < |SubAt(top, at).kids|
    ensures Stands(top, at + [k], SubAt(top, at).kids[k].node, Slot(Map(es), Key(key)),
      Setting(goal, Map(es), Key(key)))
  {
    hide *;
    StandsIs(top, at, node, Map(es), goal);
    StandsEntries(top, at, node, es, goal);
    LevelKey(SubAt(top, at), es, key, k);
    forall x { SettingIs(goal, Map(es), Key(key), x); }
    Down(top, at, node, Map(es), goal, k, Setting(goal, Map(es), Key(key)));
  }

  lemma AddedKey(es: seq<Entry>, key: string, goal: Tree -> Tree)
    requires Find(es, key).None?
    ensures var t, u, s := Map(es), Map(Put(es, key, Null)), Key(key);
      Find(u.entries, key) == Some(|es|) && Slot(u, s) == Slot(t, s) &&
      forall x :: Setting(goal, u, s)(x) == Setting(goal, t, s)(x)
  {
    hide Find, Setting;
    var t, u, s := Map(es), Map(Put(es, key, Null)), Key(key);
    FindFirst(u.entries, key, |es|);
    forall x ensures Setting(goal, u, s)(x) == Setting(goal, t, s)(x) {
      assert u.entries[|es| := Entry(key, x)] == es + [Entry(key, x)];
      SettingIs(goal, u, s, x);
      SettingIs(goal, t, s, x);
    }
  }

  /** The child with a key, which may have to be added. */
  method EnterKey(plenty: bool, node: Node, key: string, create: bool, ghost top: Shape, ghost at: Place,
                  ghost es: seq<Entry>, ghost goal: Tree -> Tree)
    returns (r: Node?, ghost top': Shape, ghost at': Place)
    requires Stands(top, at, node, Map(es), goal)
    modifies if create then Refs(top) else {}
    ensures fresh(Refs(top') - Refs(top)) && top'.node == top.node
    ensures r != null ==> at' != [] && Stands(top', at', r, Slot(Map(es), Key(key)), Setting(goal, Map(es), Key(key)))
    ensures r != null && Find(es, key).Some? ==> at' == at + [Find(es, key).value]
    ensures r == null ==> top' == top && Stands(top, at, node, Map(es), goal)
    ensures !create ==> top' == top && (r != null <==> Find(es, key).Some?)
    ensures plenty && create ==> r != null
  {
    hide *;
    top', at' := top, at;
    StandsIs(top, at, node, Map(es), goal);
    StandsEntries(top, at, node, es, goal);
    ghost var sh, k := SubAt(top, at), 0;
    assert allocated(Refs(top)) && allocated(RefsAll(sh.kids));
    r, k := MapGet(node, key, sh);
    if r != null {
      at' := at + [k];
      EnterKeyAt(top, at, node, es, goal, key, k);
    } else if create {
      label Before:
      r, top' := AddKey(plenty, node, key, top, at, es, goal);
      assert forall m: Node | m in Refs(top') && m !in Refs(top) :: fresh@Before(m);
      if r == null { return; }
      at' := at + [|es|];
      AddedKey(es, key, goal);
      EnterKeyAt(top', at, node, Put(es, key, Null), goal, key, |es|);
      Restand(top', at', r, Slot(Map(es), Key(key)), Setting(goal, Map(Put(es, key, Null)), Key(key)),
        Setting(goal, Map(es), Key(key)));
    }
  }

  /** A new empty child with a key that no other child has. */
  method AddKey(plenty: bool, node: Node, key: string, ghost top: Shape, ghost at: Place, ghost es: seq<Entry>,
                ghost goal: Tree -> Tree)
    returns (r: Node?, ghost top': Shape)
    requires Stands(top, at, node, Map(es), goal) && Find(es, key).None?
    modifies Refs(top)
    ensures fresh(Refs(top') - Refs(top)) && top'.node == top.node
    ensures r != null ==> Stands(top', at, node, Map(Put(es, key, Null)), goal)
    ensures r != null ==> |es| < |SubAt(top', at).kids| && SubAt(top', at).kids[|es|].node == r
    ensures r == null ==> top' == top && Stands(top, at, node, Map(es), goal)
    ensures plenty ==> r != null
  {
    hide *;
    StandsIs(top, at, node, Map(es), goal);
    StandsEntries(top, at, node, es, goal);
    ghost var sh := SubAt(top, at);
    assert allocated(Refs(top)) && allocated(Refs(sh)) && allocated(RefsAll(sh.kids));
    var next := NewNode(plenty, NullKind);
    if next == null { return null, top; }
    ghost var csh := Shape(next, []);
    LoneNode(next);
    RootIn(sh);
    WholeIs(sh);
    TidyOf(sh);
    HeadSetIn(sh.kids);
    SubTop(top);
    SubIn(top, at);
    var ok;
    ghost var more;
    ok, more := MapSet(plenty, node, key, next, sh, csh);
    if !ok { return null, top; }
    Changed(top, at, more, Map(Put(es, key, Null)), goal);
    return next, Plug(top, at, more);
  }

  // ------------------------------------------------------------- whole paths

  /** The way that a path takes. */
  function PlaceOf(t: Tree, p: Path): Option<Place>
    decreases |p|
  {
    if p == [] then Some([])
    else
      var k := PlaceAt(t, p[0]);
      if k.None? then None
      else
        var rest := PlaceOf(Slot(t, p[0]), p[1..]);
        if rest.None? then None else Some([k.value] + rest.value)
  }

  function PlaceAt(t: Tree, s: Segment): Option<nat> {
    if !KindFits(t, s) then None
    else if s.Index? then if s.index < |t.items| then Some(s.index) else None
    else Find(t.entries, s.name)
  }

  /** When a call can only fail for want of memory. */
  predicate Allowed(t: Tree, root: bool, create: bool, p: Path) {
    if create then p == [] || !root || KindFits(t, p[0]) else PlaceOf(t, p).Some?
  }

  lemma PlaceOne(t: Tree, s: Segment)
    ensures PlaceOf(t, [s]).Some? <==> PlaceAt(t, s).Some?
    ensures PlaceAt(t, s).Some? ==> KindFits(t, s)
  {
    assert [s][1..] == [];
  }

  lemma PlaceStep(t: Tree, p: Path)
    requires p != []
    ensures PlaceOf(t, p).Some? <==> PlaceAt(t, p[0]).Some? && PlaceOf(Slot(t, p[0]), p[1..]).Some?
    ensures PlaceOf(t, p).Some? ==>
      PlaceOf(t, p).value == [PlaceAt(t, p[0]).value] + PlaceOf(Slot(t, p[0]), p[1..]).value
  {
  }

  lemma {:induction false} PlaceFound(t: Tree, p: Path)
    ensures PlaceOf(t, p).Some? <==> Lookup(t, p).Some?
    decreases |p|
  {
    hide Lookup, PlaceOf, Find;
    if p == [] {
      NoSegments(t);
    } else {
      PlaceFound(Slot(t, p[0]), p[1..]);
      PlaceStep(t, p);
      LookupStep(t, p);
      SlotFound(t, p[0]);
    }
  }

  lemma NoSegments(t: Tree)
    ensures PlaceOf(t, []) == Some([]) && Lookup(t, []) == Some(t) && forall leaf :: PutAt(t, [], leaf) == leaf
  {
  }

  lemma SlotFound(t: Tree, s: Segment)
    ensures PlaceAt(t, s).Some? <==> Lookup(t, [s]).Some?
  {
    assert [s][1..] == [];
  }

  /** Indices that a path text can express. */
  predicate Ranged(p: Path) {
    forall k :: 0 <= k < |p| && p[k].Index? ==> p[k].index <= SIZE_MAX / 2
  }

  /** The node at one segment of a path, below a container that suits the segment. */
  method EnterFit(plenty: bool, node: Node, s: Segment, create: bool, ghost top: Shape, ghost at: Place, ghost t: Tree,
                  ghost goal: Tree -> Tree)
    returns (r: Node?, ghost top': Shape, ghost at': Place, ghost u: Tree)
    requires Stands(top, at, node, t, goal) && KindFits(t, s) && (s.Index? ==> s.index < SIZE_MAX)
    modifies if create then Refs(top) else {}
    ensures fresh(Refs(top') - Refs(top)) && top'.node == top.node
    ensures r != null ==> at' != [] && Stands(top', at', r, Slot(t, s), Setting(goal, t, s))
    ensures r != null && PlaceAt(t, s).Some? ==> at' == at + [PlaceAt(t, s).value]
    ensures r == null ==> Halted(top', t, [s], u, goal)
    ensures !create ==> top' == top && (r != null <==> PlaceAt(t, s).Some?)
    ensures plenty && create ==> r != null
  {
    hide *;
    Fitting(t, s);
    PlaceAtIs(t, s);
    match s {
      case Index(index) =>
        r, top', at', u := EnterIndex(plenty, node, index, create, top, at, t.items, goal);
      case Key(name) =>
        u := t;
        StaysPartial(t);
        r, top', at' := EnterKey(plenty, node, name, create, top, at, t.entries, goal);
        if r == null { Halts(top', at, node, t, [s], t, goal); }
    }
  }

  lemma Fitting(t: Tree, s: Segment)
    requires KindFits(t, s)
    ensures if s.Index? then t.Array? else t.Map?
  {
  }

  /** The node at one segment of a path. */
  method Enter(plenty: bool, node: Node, s: Segment, create: bool, ghost top: Shape, ghost at: Place, ghost t: Tree,
               ghost goal: Tree -> Tree)
    returns (r: Node?, ghost top': Shape, ghost at': Place, ghost u: Tree)
    requires Stands(top, at, node, t, goal) && (s.Index? ==> s.index < SIZE_MAX)
    modifies if create then Refs(top) else {}
    ensures fresh(Refs(top') - Refs(top)) && top'.node == top.node
    ensures r != null ==> at' != [] && Stands(top', at', r, Slot(t, s), Setting(goal, t, s))
    ensures r != null && PlaceAt(t, s).Some? ==> at' == at + [PlaceAt(t, s).value]
    ensures r == null ==> Halted(top', t, [s], u, goal)
    ensures !create ==> top' == top
    ensures r != null ==> Allowed(t, at == [], create, [s])
    ensures plenty && Allowed(t, at == [], create, [s]) ==> r != null
  {
    hide *;
    top', at', u := top, at, t;
    StaysPartial(t);
    Halts(top, at, node, t, [s], t, goal);
    AllowedOne(t, at == [], create, s);
    PlaceAtIs(t, s);
    var fails: bool := *;
    if s.Key? && fails && !plenty { return null, top, at, t; }
    assert allocated(Refs(top));
    var want := if s.Index? then ArrayKind else MapKind;
    Wanted(s);
    var n: Node?;
    n, top' := RequireType(plenty, node, want, create, s, top, at, t, goal);
    if n == null { Halts(top', at, node, t, [s], t, goal); return null, top', at, t; }
    ghost var v, was := if KindFits(t, s) then t else Bare(s), top';
    if !KindFits(t, s) { BareFits(t, s); }
    label Before:
    r, top', at', u := EnterFit(plenty, n, s, create, top', at, v, goal);
    assert forall m: Node | m in Refs(top') && m !in Refs(was) :: fresh@Before(m);
    if !KindFits(t, s) { BareEntered(r, top', at', t, s, u, goal); }
  }

  lemma Wanted(s: Segment)
    ensures WantedKind(s) == if s.Index? then ArrayKind else MapKind
  {
  }

  /** Below an empty container it is as below a node that is none. */
  lemma BareEntered(r: Node?, top: Shape, at: Place, t: Tree, s: Segment, u: Tree, goal: Tree -> Tree)
    requires !KindFits(t, s)
    requires r != null ==> Stands(top, at, r, Slot(Bare(s), s), Setting(goal, Bare(s), s))
    requires r == null ==> Halted(top, Bare(s), [s], u, goal)
    ensures r != null ==> Stands(top, at, r, Slot(t, s), Setting(goal, t, s))
    ensures r == null ==> Halted(top, t, [s], u, goal)
  {
    hide Stands, Whole, TreeOf, Slot, SetSlot, Setting;
    BareFits(t, s);
    if r != null {
      forall x ensures Setting(goal, Bare(s), s)(x) == Setting(goal, t, s)(x) {
        SettingIs(goal, Bare(s), s, x);
        SettingIs(goal, t, s, x);
      }
      Restand(top, at, r, Slot(t, s), Setting(goal, Bare(s), s), Setting(goal, t, s));
    }
  }

  lemma StaysPartial(t: Tree)
    ensures forall p :: Partial(t, p, t)
  {
  }

  lemma AllowedOne(t: Tree, root: bool, create: bool, s: Segment)
    ensures Allowed(t, root, create, [s]) <==> if create then !root || KindFits(t, s) else PlaceAt(t, s).Some?
  {
    hide PlaceOf, PlaceAt;
    PlaceOne(t, s);
  }

  lemma PlaceAtIs(t: Tree, s: Segment)
    ensures PlaceAt(t, s).Some? ==> KindFits(t, s)
    ensures t.Array? && s.Index? ==> PlaceAt(t, s) == if s.index < |t.items| then Some(s.index) else None
    ensures t.Map? && s.Key? ==> PlaceAt(t, s) == Find(t.entries, s.name)
  {
  }

  /** A call on a path gave up at the node that its first `done` segments lead to. */
  ghost predicate GaveUp(top: Shape, t: Tree, p: Path, done: nat, u: Tree, goal: Tree -> Tree)
    reads Refs(top)
  {
    done <= |p| && Halted(top, OrNull(Lookup(t, p[..done])), p[done..], u, Putting(goal, t, p[..done]))
  }

  lemma GaveUpFirst(top: Shape, t: Tree, p: Path, u: Tree, goal: Tree -> Tree)
    requires p != [] && Halted(top, t, [p[0]], u, goal)
    ensures GaveUp(top, t, p, 0, u, goal)
  {
    hide Lookup, PutAt, Whole, TreeOf;
    NoSegments(t);
    assert p[..0] == [];
  }

  lemma GaveUpLater(top: Shape, t: Tree, p: Path, done: nat, u: Tree, goal: Tree -> Tree)
    requires p != [] && GaveUp(top, Slot(t, p[0]), p[1..], done, u, Setting(goal, t, p[0]))
    ensures GaveUp(top, t, p, done + 1, u, goal)
  {
    hide Lookup, PutAt, Whole, TreeOf, Slot, SetSlot, Setting, Putting;
    var q := p[..done + 1];
    assert q[0] == p[0] && q[1..] == p[1..][..done];
    assert p[1..][done..] == p[done + 1..];
    PuttingStep(goal, t, q);
    LookupStep(t, q);
  }

  lemma AllowedStep(t: Tree, root: bool, create: bool, p: Path)
    requires p != []
    ensures Allowed(t, root, create, p) <==>
      Allowed(t, root, create, [p[0]]) && Allowed(Slot(t, p[0]), false, create, p[1..])
  {
    hide PlaceOf, PlaceAt, Slot;
    AllowedOne(t, root, create, p[0]);
    PlaceStep(t, p);
    PlaceOne(t, p[0]);
  }

  /** `confignode_path_lookup` on a path that is valid. Where nodes are created, the tree around the node
      that is found is what `PutAt` makes of the tree. */
  method Walk(plenty: bool, node: Node, p: Path, create: bool, ghost top: Shape, ghost at: Place, ghost t: Tree,
              ghost goal: Tree -> Tree)
    returns (r: Node?, ghost top': Shape, ghost at': Place, ghost done: nat, ghost u: Tree)
    requires Stands(top, at, node, t, goal) && Ranged(p)
    modifies if create then Refs(top) else {}
    ensures fresh(Refs(top') - Refs(top)) && top'.node == top.node
    ensures r != null ==> Stands(top', at', r, OrNull(Lookup(t, p)), Putting(goal, t, p))
    ensures r != null && PlaceOf(t, p).Some? ==> at' == at + PlaceOf(t, p).value
    ensures r != null && at' == [] ==> at == [] && p == []
    ensures r == null ==> GaveUp(top', t, p, done, u, goal)
    ensures !create ==> top' == top
    ensures r != null ==> Allowed(t, at == [], create, p)
    ensures plenty && Allowed(t, at == [], create, p) ==> r != null
    decreases |p|
  {
    hide *;
    top', at', done, u := top, at, 0, t;
    if p == [] {
      NoSegments(t);
      WalkNowhere(t, at == [], create);
      assert p == [];
      forall x ensures goal(x) == Putting(goal, t, p)(x) { PuttingIs(goal, t, p, x); }
      Restand(top, at, node, t, goal, Putting(goal, t, p));
      assert at + [] == at;
      return node, top, at, 0, t;
    }
    RangedStep(p);
    AllowedStep(t, at == [], create, p);
    ghost var s := p[0];
    ghost var next, around := Slot(t, s), Setting(goal, t, s);
    label First:
    var n: Node?;
    n, top', at', u := Enter(plenty, node, p[0], create, top, at, t, goal);
    if n == null {
      GaveUpFirst(top', t, p, u, goal);
      return null, top', at', 0, u;
    }
    ghost var was, place := top', at';
    label Second:
    r, top', at', done, u := Walk(plenty, n, p[1..], create, top', at', next, around);
    assert forall m: Node | m in Refs(top') && m !in Refs(was) :: fresh@Second(m);
    if r == null {
      GaveUpLater(top', t, p, done, u, goal);
      done := done + 1;
      return;
    }
    LookupStep(t, p);
    PlaceStep(t, p);
    PuttingStep(goal, t, p);
    Restand(top', at', r, OrNull(Lookup(t, p)), Putting(around, next, p[1..]), Putting(goal, t, p));
  }

  lemma WalkNowhere(t: Tree, root: bool, create: bool)
    ensures Allowed(t, root, create, []) && OrNull(Lookup(t, [])) == t
  {
  }

  lemma RangedStep(p: Path)
    requires Ranged(p) && p != []
    ensures Ranged(p[1..]) && (p[0].Index? ==> p[0].index < SIZE_MAX)
  {
  }
}
