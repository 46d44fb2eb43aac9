/** Setting a value at a path of a tree in memory, and the path text of a node
    (`confignode_path_set_value` and `confignode_path_get` in `embloader/src/configfile/path.c`). */
module ConfigSet {
  import opened Wrappers
  import opened ConfigTree
  import opened ConfigPath
  import ConfigConf
  import opened ConfigNode
  import opened ConfigPlace
  import opened ConfigReplace
  import opened ConfigLookup

  // ------------------------------------------------------------- path texts

  /** A path text has only keys without delimiters, and indices in range. */
  lemma {:induction false} ParsePlain(path: string)
    ensures Parse(path).Some? ==> Plain(Parse(path).value)
    decreases |path|
  {
    hide Plain, After, IndexOf, FindChar;
    if path == "" {
      PlainEmpty();
    } else if path[0] == '[' {
      var close := FindChar(path[1..], ']');
      if close.Some? {
        var index, next := IndexOf(path[1..][..close.value]), path[1..][close.value + 1..];
        if index.Some? {
          IndexPlain(path[1..][..close.value]);
          PlainAfter(Index(index.value), None);
          if next != "" {
            ParsePlain(next);
            ParsePlain(next[1..]);
            PlainAfter(Index(index.value), Parse(next));
            PlainAfter(Index(index.value), Parse(next[1..]));
          }
        }
      }
    } else {
      var n := KeyLength(path);
      PlainAfter(Key(path[..n]), None);
      assert path[..|path|] == path;
      if 0 < n < |path| {
        ParsePlain(path[n..]);
        ParsePlain(path[n + 1..]);
        PlainAfter(Key(path[..n]), Parse(path[n..]));
        PlainAfter(Key(path[..n]), Parse(path[n + 1..]));
      }
    }
  }

  lemma PlainEmpty()
    ensures Plain([])
  {
  }

  lemma IndexPlain(s: string)
    ensures IndexOf(s).Some? ==> PlainSegment(Index(IndexOf(s).value))
  {
  }

  lemma PlainAfter(s: Segment, rest: Option<Path>)
    ensures PlainSegment(s) ==> Plain([s])
    ensures After(s, rest).Some? <==> rest.Some?
    ensures PlainSegment(s) && rest.Some? && Plain(rest.value) ==> Plain(After(s, rest).value)
  {
  }

  lemma PlainRanged(p: Path)
    ensures Plain(p) ==> Ranged(p)
  {
  }

  /** `confignode_path_lookup`. */
  method PathLookup(plenty: bool, node: Node, path: string, create: bool, ghost top: Shape, ghost at: Place,
                    ghost t: Tree, ghost goal: Tree -> Tree)
    returns (r: Node?, ghost top': Shape, ghost at': Place, ghost done: nat, ghost u: Tree)
    requires Stands(top, at, node, t, goal)
    modifies if create then Refs(top) else {}
    ensures fresh(Refs(top') - Refs(top)) && top'.node == top.node
    ensures r != null ==> Parse(path).Some?
    ensures r != null ==>
      Stands(top', at', r, OrNull(Lookup(t, Parse(path).value)), Putting(goal, t, Parse(path).value))
    ensures r != null && PlaceOf(t, Parse(path).value).Some? ==> at' == at + PlaceOf(t, Parse(path).value).value
    ensures r != null && at' == [] ==> at == [] && path == ""
    ensures r != null && path == "" ==> at' == at
    ensures Parse(path).None? ==> top' == top && Stands(top, at, node, t, goal)
    ensures r == null && Parse(path).Some? ==> GaveUp(top', t, Parse(path).value, done, u, goal)
    ensures !create ==> top' == top
    ensures r != null ==> Allowed(t, at == [], create, Parse(path).value)
    ensures plenty && Parse(path).Some? && Allowed(t, at == [], create, Parse(path).value) ==> r != null
  {
    hide *;
    r, top', at', done, u := null, top, at, 0, t;
    var p := Parse(path);
    ParsePlain(path);
    ParseEmpty(path);
    if p.None? { return; }
    PlainRanged(p.value);
    NoSegments(t);
    assert at + [] == at;
    r, top', at', done, u := Walk(plenty, node, p.value, create, top, at, t, goal);
  }

  lemma ParseEmpty(path: string)
    ensures Parse(path) == Some([]) <==> path == ""
  {
  }

  // ------------------------------------------------------------- setting

  function LeafOf(value: Option<Value>): Tree {
    if value.Some? then Leaf(value.value) else Null
  }

  /** The value of a value node changes in place. */
  method ValueSet(plenty: bool, node: Node, value: Value, ghost top: Shape, ghost at: Place, ghost t: Tree,
                  ghost goal: Tree -> Tree)
    returns (ok: bool)
    requires Stands(top, at, node, t, goal) && t.Leaf?
    modifies node`value
    ensures ok ==> Stands(top, at, node, Leaf(value), goal)
    ensures !ok ==> Stands(top, at, node, t, goal)
    ensures plenty ==> ok
  {
    hide *;
    StandsIs(top, at, node, t, goal);
    assert allocated(Refs(top)) && allocated(Refs(SubAt(top, at)));
    TidyOf(top);
    TidyOf(SubAt(top, at));
    var fails: bool := *;
    if fails && !plenty { return false; }
    node.value := value;
    WholeOf(SubAt(top, at));
    ValueTree(SubAt(top, at));
    AroundWhole(top, at);
    IsStands(top, at, node, Leaf(value), goal);
    return true;
  }

  lemma ValueTree(sh: Shape)
    ensures sh.node.kind.ValueKind? ==> TreeOf(sh) == Leaf(sh.node.value)
  {
  }

  /** A new node with a value takes the place of a node. */
  method Overwrite(plenty: bool, node: Node, value: Option<Value>, ghost top: Shape, ghost at: Place, ghost t: Tree,
                   ghost goal: Tree -> Tree)
    returns (ok: bool, ghost r: Node, ghost top': Shape)
    requires Stands(top, at, node, t, goal)
    modifies Refs(top)
    ensures fresh(Refs(top') - Refs(top)) && top'.node == top.node
    ensures ok ==> Stands(top', at, r, LeafOf(value), goal) && at != []
    ensures !ok ==> top' == top && Stands(top, at, node, t, goal)
    ensures plenty && at != [] ==> ok
  {
    hide *;
    r, top' := node, top;
    assert allocated(Refs(top));
    var replacement: Node?;
    match value {
      case Some(v) => replacement := NewValue(plenty, v);
      case None => replacement := NewNode(plenty, NullKind);
    }
    if replacement == null { return false, node, top; }
    ghost var nsh := Shape(replacement, []);
    LoneNode(replacement);
    LeafIs(value);
    RootIs(replacement, nsh, LeafOf(value));
    ok, top' := ReplaceAt(plenty, node, replacement, top, at, t, goal, nsh, LeafOf(value));
    if ok { r := replacement; }
  }

  lemma LeafIs(value: Option<Value>)
    ensures LeafOf(value) == if value.Some? then Leaf(value.value) else Null
  {
  }

  /** `confignode_path_set_value`: on success the whole tree is the one with the value put at the path.
      On failure the tree is whole, and is as it was up to nodes that were made ready on the way. */
  method SetValue(plenty: bool, node: Node, path: string, value: Option<Value>, ghost top: Shape, ghost at: Place,
                  ghost t: Tree, ghost goal: Tree -> Tree)
    returns (ok: bool, ghost top': Shape, ghost done: nat, ghost u: Tree)
    requires Stands(top, at, node, t, goal)
    modifies Refs(top)
    ensures fresh(Refs(top') - Refs(top)) && top'.node == top.node
    ensures ok ==> ConfigPath.SetValue(t, at != [], path, value).Some?
    ensures ok ==> Whole(top') && top'.node.parent == null
    ensures ok ==> TreeOf(top') == goal(ConfigPath.SetValue(t, at != [], path, value).value)
    ensures !ok && Parse(path).None? ==> top' == top && Stands(top, at, node, t, goal)
    ensures !ok && Parse(path).Some? ==> GaveUp(top', t, Parse(path).value, done, u, goal)
    ensures plenty && ConfigPath.SetValue(t, at != [], path, value).Some? ==> ok
  {
    hide *;
    var n: Node?;
    ghost var at';
    Outcome(t, at != [], path, value);
    n, top', at', done, u := PathLookup(plenty, node, path, true, top, at, t, goal);
    if n == null { return false, top', done, u; }
    ghost var p := Parse(path).value;
    ghost var x, around := OrNull(Lookup(t, p)), Putting(goal, t, p);
    PuttingIs(goal, t, p, LeafOf(value));
    KindOfValue(top', at', n, x, around);
    ghost var was := top';
    done, u := |p|, x;
    if n.kind == ValueKind && value.Some? {
      ok := ValueSet(plenty, n, value.value, top', at', x, around);
      LeafIs(value);
      if ok {
        StandsIs(top', at', n, LeafOf(value), around);
      } else {
        GaveUpLast(top', at', n, t, p, goal);
      }
    } else {
      ghost var r;
      label Before:
      ok, r, top' := Overwrite(plenty, n, value, top', at', x, around);
      assert forall m: Node | m in Refs(top') && m !in Refs(was) :: fresh@Before(m);
      if ok {
        StandsIs(top', at', r, LeafOf(value), around);
      } else {
        GaveUpLast(top', at', n, t, p, goal);
      }
    }
  }

  lemma KindOfValue(top: Shape, at: Place, node: Node, t: Tree, goal: Tree -> Tree)
    requires Stands(top, at, node, t, goal)
    ensures node.kind == ValueKind <==> t.Leaf?
    ensures node in Refs(top)
  {
    hide Stands;
    StandsIs(top, at, node, t, goal);
  }

  lemma GaveUpLast(top: Shape, at: Place, node: Node, t: Tree, p: Path, goal: Tree -> Tree)
    requires Stands(top, at, node, OrNull(Lookup(t, p)), Putting(goal, t, p))
    ensures GaveUp(top, t, p, |p|, OrNull(Lookup(t, p)), goal)
  {
    hide Stands, Whole, TreeOf, Lookup, Putting, Halted;
    assert p[..|p|] == p;
    var x := OrNull(Lookup(t, p));
    StaysPartial(x);
    Halts(top, at, node, x, p[|p|..], x, Putting(goal, t, p));
  }

  /** `confignode_path_map_set`: the node at a path, created if need be, gives way to a tree. */
  method PathMapSet(plenty: bool, node: Node, path: string, sub: Node, ghost top: Shape, ghost at: Place, ghost t: Tree,
                    ghost goal: Tree -> Tree, ghost csh: Shape, ghost x: Tree)
    returns (ok: bool, ghost top': Shape, ghost done: nat, ghost u: Tree)
    requires Stands(top, at, node, t, goal) && IsRoot(sub, csh, x) && Refs(top) !! Refs(csh)
    modifies Refs(top), sub
    ensures fresh(Refs(top') - Refs(top) - Refs(csh)) && top'.node == top.node
    ensures ok ==> Parse(path).Some? && Allowed(t, at == [], true, Parse(path).value) && (at != [] || path != "")
    ensures ok ==> Whole(top') && top'.node.parent == null && TreeOf(top') == goal(PutAt(t, Parse(path).value, x))
    ensures !ok && Parse(path).None? ==> top' == top && Stands(top, at, node, t, goal)
    ensures !ok && Parse(path).Some? ==> GaveUp(top', t, Parse(path).value, done, u, goal)
    ensures plenty && Parse(path).Some? && Allowed(t, at == [], true, Parse(path).value) && (at != [] || path != "") ==>
      ok
  {
    hide *;
    IsRootIs(sub, csh, x);
    ok, top', done, u := false, top, 0, t;
    if sub.parent != null { return; }
    assert allocated(Refs(top)) && allocated(Refs(csh)) && allocated(RefsAll(csh.kids));
    var n: Node?;
    ghost var at';
    label Before:
    n, top', at', done, u := PathLookup(plenty, node, path, true, top, at, t, goal);
    if n == null { return false, top', done, u; }
    ghost var p := Parse(path).value;
    ghost var y, around, was := OrNull(Lookup(t, p)), Putting(goal, t, p), top';
    PuttingIs(goal, t, p, x);
    IsRootIs(sub, csh, x);
    assert forall m: Node | m in Refs(was) && m !in Refs(top) :: fresh@Before(m);
    ok, top' := ReplaceAt(plenty, n, sub, was, at', y, around, csh, x);
    done, u := |p|, y;
    if ok {
      StandsIs(top', at', sub, x, around);
    } else {
      GaveUpLast(top', at', n, t, p, goal);
    }
  }

  /** When the call succeeds on a tree as a value. */
  lemma Outcome(t: Tree, hasParent: bool, path: string, value: Option<Value>)
    ensures var r, p := ConfigPath.SetValue(t, hasParent, path, value), Parse(path);
      var fits := p.Some? && Allowed(t, !hasParent, true, p.value);
      (r.Some? <==> fits && (path == "" ==> hasParent || (t.Leaf? && value.Some?))) &&
      (r.Some? ==> r.value == PutAt(t, p.value, LeafOf(value))) &&
        (path == "" ==> p.Some? && OrNull(Lookup(t, p.value)) == t)
  {
    hide Parse, PutAt, Lookup;
    ParseEmpty(path);
    NoSegments(t);
  }

  // ------------------------------------------------------------- from the root of a tree

  lemma RootStands(node: Node, top: Shape, t: Tree, goal: Tree -> Tree)
    requires IsRoot(node, top, t) && forall x :: goal(x) == x
    ensures Stands(top, [], node, t, goal)
  {
    hide Refs, TreeOf, Surrounds, Holds, TidyAll, Stands;
    SubTop(top);
    IsStands(top, [], node, t, goal);
  }

  lemma StandsRoot(top: Shape, node: Node, t: Tree, goal: Tree -> Tree)
    requires Whole(top) && top.node == node && node.parent == null && TreeOf(top) == goal(t) && forall x :: goal(x) == x
    ensures IsRoot(node, top, t)
  {
  }

  /** The same call at the root of a tree. */
  method SetAtRoot(plenty: bool, node: Node, path: string, value: Option<Value>, ghost top: Shape, ghost t: Tree)
    returns (ok: bool, ghost top': Shape)
    requires IsRoot(node, top, t)
    modifies Refs(top)
    ensures fresh(Refs(top') - Refs(top))
    ensures ok ==> ConfigPath.SetValue(t, false, path, value).Some?
    ensures ok ==> IsRoot(node, top', ConfigPath.SetValue(t, false, path, value).value)
    ensures plenty && ConfigPath.SetValue(t, false, path, value).Some? ==> ok
  {
    hide *;
    ghost var goal: Tree -> Tree := x => x;
    ghost var done, u;
    RootStands(node, top, t, goal);
    StandsIs(top, [], node, t, goal);
    SubTop(top);
    ok, top', done, u := SetValue(plenty, node, path, value, top, [], t, goal);
    if ok { StandsRoot(top', node, ConfigPath.SetValue(t, false, path, value).value, goal); }
  }

  // ------------------------------------------------------------- after a call that gave up

  lemma {:induction false} GaveUpValues(t: Tree, p: Path, done: nat, u: Tree, q: Path, v: Value)
    requires WellFormed(t) && done <= |p| && Partial(OrNull(Lookup(t, p[..done])), p[done..], u)
    ensures Lookup(PutAt(t, p[..done], u), q) == Some(Leaf(v)) ==> Lookup(t, q) == Some(Leaf(v))
    ensures Diverge(p, q) && Lookup(t, q) == Some(Leaf(v)) ==> Lookup(PutAt(t, p[..done], u), q) == Some(Leaf(v))
    decreases |p|
  {
    hide PutAt, Lookup, Partial, Diverge, WellFormed;
    var d := p[..done];
    if done == 0 {
      NoSegments(t);
      PartialValues(t, p, u, q, v);
      assert p[done..] == p && d == [];
    } else if q == [] {
      PutAtUnfold(t, d, u);
      NoSegments(PutAt(t, d, u));
      NoDiverging(p);
    } else if p[0] == q[0] {
      PutAtSame(t, d, q, u);
      LookupStep(t, d);
      NullLookup(q[1..]);
      DivergeStep(p, q);
      var sub := OrNull(Lookup(t, [p[0]]));
      assert d[1..] == p[1..][..done - 1] && p[1..][done - 1..] == p[done..];
      SlotSub(t, p[0]);
      GaveUpValues(sub, p[1..], done - 1, u, q[1..], v);
    } else {
      PutAtParted(t, d, q, u);
      DivergeStep(p, q);
    }
  }

  lemma SlotSub(t: Tree, s: Segment)
    ensures OrNull(Lookup(t, [s])) == ConfigConf.Slot(t, s)
  {
    assert [s][1..] == [];
  }

  lemma NoDiverging(p: Path)
    ensures !Diverge(p, [])
  {
  }

  lemma DivergeStep(p: Path, q: Path)
    requires p != [] && q != []
    ensures Diverge(p, q) <==> if p[0] == q[0] then Diverge(p[1..], q[1..]) else p[0].Key? == q[0].Key?
  {
  }

  lemma PartialValues(t: Tree, p: Path, u: Tree, q: Path, v: Value)
    requires Partial(t, p, u)
    ensures Lookup(u, q) == Some(Leaf(v)) ==> Lookup(t, q) == Some(Leaf(v))
    ensures Diverge(p, q) && Lookup(t, q) == Some(Leaf(v)) ==> Lookup(u, q) == Some(Leaf(v))
  {
    if u != t && q != [] { NullLookup(q[1..]); }
  }
}
