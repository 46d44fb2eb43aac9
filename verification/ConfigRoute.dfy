/** The path text of a node in memory (`confignode_path_get` in `embloader/src/configfile/path.c`), written
    from the parent links, and that it leads back to the node. */
module ConfigRoute {
  import opened Wrappers
  import opened Digits
  import opened ConfigTree
  import opened ConfigPath
  import ConfigConf
  import opened ConfigNode
  import opened ConfigMerge
  import opened ConfigPlace
  import opened ConfigReplace
  import opened ConfigLookup
  import opened ConfigSet

  /** The segment of a child. */
  ghost function SegmentOf(sh: Shape, k: nat): Segment
    requires k < |sh.kids|
    reads sh.node`kind, sh.kids[k].node`key
  {
    if sh.node.kind.ArrayKind? then Index(k) else Key(KeyText(sh.kids[k].node))
  }

  /** The segments on the way to a place. */
  ghost function Route(top: Shape, at: Place): (p: Path)
    requires Exists(top, at)
    reads Refs(top)
    ensures |p| == |at|
    decreases |at|
  {
    if at == [] then []
    else
      RootIn(top);
      KidIn(top, at[0]);
      [SegmentOf(top, at[0])] + Route(top.kids[at[0]], at[1..])
  }

  lemma {:induction false} RouteSnoc(top: Shape, at: Place, k: nat)
    requires Exists(top, at) && k < |SubAt(top, at).kids|
    ensures Exists(top, at + [k]) && Route(top, at + [k]) == Route(top, at) + [SegmentOf(SubAt(top, at), k)]
    decreases |at|
  {
    hide Refs;
    ExistsSnoc(top, at, k);
    if at == [] {
      assert [] + [k] == [k];
      assert [k][1..] == [];
    } else {
      assert (at + [k])[1..] == at[1..] + [k];
      RouteSnoc(top.kids[at[0]], at[1..], k);
    }
  }

  // ------------------------------------------------------------- the text

  /** What is written for one more segment. */
  function More(text: string, s: Segment): string {
    text + (if s.Key? && text != "" then "." else "") + SegmentText(s)
  }

  function PathText(p: Path): string {
    if p == [] then "" else More(PathText(p[..|p| - 1]), p[|p| - 1])
  }

  function Dot(s: Segment): string {
    if s.Key? then "." else ""
  }

  lemma TailUnfold(p: Path)
    ensures Tail(p) == if p == [] then "" else Dot(p[0]) + SegmentText(p[0]) + Tail(p[1..])
  {
    hide SegmentText;
    if p != [] { Regroup(Dot(p[0]), SegmentText(p[0]), Tail(p[1..])); }
  }

  lemma {:induction false} TailSnoc(p: Path, s: Segment)
    ensures Tail(p + [s]) == Tail(p) + (Dot(s) + SegmentText(s))
  {
    hide Tail, SegmentText, Dot;
    var q := p + [s];
    TailUnfold(p);
    TailUnfold(q);
    if p == [] {
      assert q == [s] && q[1..] == [];
      TailUnfold([]);
    } else {
      assert q[0] == p[0] && q[1..] == p[1..] + [s];
      TailSnoc(p[1..], s);
      Regroup(Dot(p[0]) + SegmentText(p[0]), Tail(p[1..]), Dot(s) + SegmentText(s));
    }
  }

  /** For keys that can be told apart in a text it is the path as text. */
  lemma {:induction false} PathTextIs(p: Path)
    requires Plain(p)
    ensures PathText(p) == Render(p)
    decreases |p|
  {
    hide *;
    PathTextStep(p);
    if p != [] {
      var q, s := p[..|p| - 1], p[|p| - 1];
      assert p == q + [s];
      PlainFront(p);
      PathTextIs(q);
      if q == [] {
        Alone(p, s);
      } else {
        RenderHead(q);
        RenderSnoc(q, s);
        MoreDot(PathText(q), s);
      }
    }
  }

  lemma PathTextStep(p: Path)
    ensures p == [] ==> PathText(p) == Render(p)
    ensures p != [] ==> PathText(p) == More(PathText(p[..|p| - 1]), p[|p| - 1])
    ensures PathText([]) == ""
  {
    hide More;
  }

  lemma RenderSnoc(q: Path, s: Segment)
    requires q != []
    ensures Render(q + [s]) == Render(q) + (Dot(s) + SegmentText(s))
  {
    hide Tail, SegmentText, Dot;
    assert (q + [s])[1..] == q[1..] + [s];
    TailSnoc(q[1..], s);
    Regroup(SegmentText(q[0]), Tail(q[1..]), Dot(s) + SegmentText(s));
  }

  lemma MoreDot(text: string, s: Segment)
    ensures text != "" ==> More(text, s) == text + (Dot(s) + SegmentText(s))
  {
    hide SegmentText;
    Regroup(text, Dot(s), SegmentText(s));
  }

  lemma Alone(p: Path, s: Segment)
    requires p == [s]
    ensures Render(p) == More("", s)
  {
    hide SegmentText;
    assert p[1..] == [];
  }

  lemma PlainFront(p: Path)
    requires Plain(p) && p != []
    ensures Plain(p[..|p| - 1])
  {
  }

  /** As much of a text as a buffer holds. */
  function Cut(s: string, n: nat): string {
    if |s| <= n then s else s[..n]
  }

  lemma CutMore(a: string, b: string, n: nat)
    ensures Cut(Cut(a, n) + b, n) == Cut(a + b, n)
    ensures n > 0 ==> (Cut(a, n) == "" <==> a == "")
  {
  }

  lemma CutNone(a: string)
    ensures Cut(a, 0) == ""
  {
  }

  /** `strlcat` into a buffer with room for `n` characters. */
  function Strlcat(buff: string, s: string, n: nat): string {
    Cut(buff + s, n)
  }

  lemma Written(text: string, s: Segment, n: nat)
    ensures var buff := Cut(text, n);
      s.Index? ==> Strlcat(buff, SegmentText(s), n) == Cut(More(text, s), n)
    ensures var buff := Cut(text, n);
      s.Key? ==> Strlcat(if buff != "" then Strlcat(buff, ".", n) else buff, SegmentText(s), n) == Cut(More(text, s), n)
  {
    hide SegmentText, Cut;
    var x := SegmentText(s);
    CutMore(text, x, n);
    CutMore(text, ".", n);
    CutMore(text + ".", x, n);
    CutNone(Cut(text, n) + x);
    CutNone(More(text, s));
    CutNone(text);
    assert text + "" + x == text + x;
  }

  lemma RouteUp(top: Shape, at: Place, node: Node)
    requires Whole(top) && top.node.parent == null && Exists(top, at) && SubAt(top, at).node == node
    ensures node.parent == null <==> at == []
    ensures at == [] ==> Route(top, at) == []
    ensures at != [] ==> var up, k := at[..|at| - 1], at[|at| - 1];
      Exists(top, up) && SubAt(top, up).node == node.parent &&
        (node.parent.kind == ArrayKind || node.parent.kind == MapKind) &&
      Route(top, at)[..|at| - 1] == Route(top, up) &&
      Route(top, at)[|at| - 1] == if node.parent.kind.ArrayKind? then Index(k) else Key(KeyText(node))
    ensures at != [] ==> if node.parent.kind.MapKind? then node.key.Some? else node.index == at[|at| - 1]
  {
    hide Refs, RefsAll, TreeOf, Surrounds, TreeAround, Holds, TidyAll, LevelHolds, LevelTree;
    WholeAround(top, at);
    if at != [] {
      var up, k := at[..|at| - 1], at[|at| - 1];
      assert at == up + [k];
      Upper(top, up, k);
      LevelIs(SubAt(top, up), k);
      RouteSnoc(top, up, k);
    }
  }

  lemma TextUp(p: Path)
    ensures PathText(p) == if p == [] then "" else More(PathText(p[..|p| - 1]), p[|p| - 1])
  {
  }

  lemma TextOf(n: Node, k: nat)
    ensures n.key.Some? ==> SegmentText(Key(KeyText(n))) == n.key.value
    ensures SegmentText(Index(k)) == "[" + Decimal(k) + "]"
  {
  }

  /** `confignode_path_get_rec`, into a buffer with room for `n` characters. */
  method PathGetRec(node: Node, n: nat, ghost top: Shape, ghost at: Place) returns (buff: string)
    requires Whole(top) && top.node.parent == null && Exists(top, at) && SubAt(top, at).node == node
    ensures buff == Cut(PathText(Route(top, at)), n)
    decreases |at|
  {
    hide *;
    RouteUp(top, at, node);
    ghost var p := Route(top, at);
    TextUp(p);
    if node.parent == null {
      CutNothing(n);
      return "";
    }
    ghost var up, k := at[..|at| - 1], at[|at| - 1];
    assert allocated(Refs(top));
    buff := PathGetRec(node.parent, n, top, up);
    ghost var text := PathText(Route(top, up));
    Written(text, p[|at| - 1], n);
    TextOf(node, k);
    var parent := node.parent;
    if parent.kind == MapKind {
      if buff != "" { buff := Strlcat(buff, ".", n); }
      buff := Strlcat(buff, node.key.value, n);
    }
    if parent.kind == ArrayKind {
      buff := Strlcat(buff, "[" + Decimal(node.index) + "]", n);
    }
  }

  lemma CutNothing(n: nat)
    ensures Cut("", n) == ""
  {
  }

  /** `confignode_path_get`: one character of the buffer is for the terminator. */
  method PathGet(node: Node, size: nat, ghost top: Shape, ghost at: Place) returns (r: Option<string>)
    requires Whole(top) && top.node.parent == null && Exists(top, at) && SubAt(top, at).node == node
    ensures r == if size == 0 then None else Some(Cut(PathText(Route(top, at)), size - 1))
  {
    if size == 0 { return None; }
    var buff := PathGetRec(node, size - 1, top, at);
    return Some(buff);
  }

  // ------------------------------------------------------------- back to the node

  /** The segments of a node lead to that node and no other, as keys are unique. */
  lemma {:induction false} RouteFinds(top: Shape, at: Place)
    requires Whole(top) && Exists(top, at) && WellFormed(TreeOf(top))
    ensures PlaceOf(TreeOf(top), Route(top, at)) == Some(at)
    ensures Whole(SubAt(top, at)) && Lookup(TreeOf(top), Route(top, at)) == Some(TreeOf(SubAt(top, at)))
    decreases |at|
  {
    hide *;
    var t, p := TreeOf(top), Route(top, at);
    if at == [] {
      NoSegments(t);
      NoWay(top);
    } else {
      RouteCons(top, at);
      var c, rest := top.kids[at[0]], at[1..];
      StepFinds(top, at[0]);
      RouteFinds(c, rest);
      PlaceStep(t, p);
      LookupStep(t, p);
      SlotFound(t, p[0]);
      SomeOf(Lookup(t, p), TreeOf(SubAt(top, at)));
      SomeOf(Lookup(ConfigConf.Slot(t, p[0]), p[1..]), TreeOf(SubAt(top, at)));
      assert [at[0]] + rest == at;
    }
  }

  lemma SomeOf(x: Option<Tree>, t: Tree)
    ensures x == Some(t) <==> x.Some? && OrNull(x) == t
  {
  }

  lemma NoWay(top: Shape)
    ensures Route(top, []) == [] && SubAt(top, []) == top
  {
  }

  lemma RouteCons(top: Shape, at: Place)
    requires Exists(top, at) && at != []
    ensures at[0] < |top.kids| && Exists(top.kids[at[0]], at[1..]) && SubAt(top, at) == SubAt(top.kids[at[0]], at[1..])
    ensures Route(top, at)[0] == SegmentOf(top, at[0]) && Route(top, at)[1..] == Route(top.kids[at[0]], at[1..])
  {
  }

  lemma StepFinds(top: Shape, k: nat)
    requires Whole(top) && k < |top.kids| && WellFormed(TreeOf(top))
    ensures var t, s := TreeOf(top), SegmentOf(top, k);
      PlaceAt(t, s) == Some(k) && Whole(top.kids[k]) && ConfigConf.Slot(t, s) == TreeOf(top.kids[k]) &&
        WellFormed(TreeOf(top.kids[k]))
  {
    hide Whole, TreesOf, EntriesOf, Find, ConfigConf.SetSlot, LevelTree, Refs, RefsAll, WellFormed, ConfigConf.Slot,
      UniqueKeys;
    LevelOfWhole(top, k);
    KindOfParent(top);
    HeadsLength(top.kids);
    var t := TreeOf(top);
    WellFormedItem(t, k);
    if top.node.kind.ArrayKind? {
      ArrayTree(top);
      TreeAt(top.kids, k);
      LevelIndex(top, t.items, k);
    } else {
      MapTree(top);
      EntryAt(top.kids, k);
      FindUnique(t.entries, k);
      LevelKey(top, t.entries, KeyText(top.kids[k].node), k);
    }
  }

  lemma {:induction false} PlaceUnique(t: Tree, p: Path, q: Path)
    requires PlaceOf(t, p).Some? && PlaceOf(t, p) == PlaceOf(t, q)
    ensures p == q
    decreases |p|
  {
    hide *;
    NoSegments(t);
    if p != [] { PlaceStep(t, p); }
    if q != [] { PlaceStep(t, q); }
    if p != [] && q != [] {
      var k, l := PlaceAt(t, p[0]).value, PlaceAt(t, q[0]).value;
      assert ([k] + PlaceOf(ConfigConf.Slot(t, p[0]), p[1..]).value)[0] == k;
      assert ([k] + PlaceOf(ConfigConf.Slot(t, p[0]), p[1..]).value)[1..] ==
        PlaceOf(ConfigConf.Slot(t, p[0]), p[1..]).value;
      assert ([l] + PlaceOf(ConfigConf.Slot(t, q[0]), q[1..]).value)[1..] ==
        PlaceOf(ConfigConf.Slot(t, q[0]), q[1..]).value;
      SegmentUnique(t, p[0], q[0]);
      PlaceUnique(ConfigConf.Slot(t, p[0]), p[1..], q[1..]);
      assert p == [p[0]] + p[1..] && q == [q[0]] + q[1..];
    }
  }

  lemma SegmentUnique(t: Tree, s: Segment, r: Segment)
    requires PlaceAt(t, s).Some? && PlaceAt(t, s) == PlaceAt(t, r)
    ensures s == r
  {
  }

  /** The text that `confignode_path_get` writes for a node, in a buffer that is large enough, leads
      `confignode_path_lookup` back to that very node exactly when no key on the way is empty or has a
      delimiter. */
  lemma PathGetFindsNode(top: Shape, at: Place)
    requires Whole(top) && Exists(top, at) && WellFormed(TreeOf(top))
    ensures var p := Parse(PathText(Route(top, at)));
      Plain(Route(top, at)) <==> p.Some? && PlaceOf(TreeOf(top), p.value) == Some(at)
  {
    hide *;
    var r := Route(top, at);
    ParsePlain(PathText(r));
    RouteFinds(top, at);
    if Plain(r) {
      PathTextIs(r);
      ParseRender(r);
    } else if Parse(PathText(r)).Some? && PlaceOf(TreeOf(top), Parse(PathText(r)).value) == Some(at) {
      PlaceUnique(TreeOf(top), Parse(PathText(r)).value, r);
    }
  }
}
