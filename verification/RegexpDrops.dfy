/** Items that are nothing, such as an empty group without capture. In a pattern such an item adds nothing.
    The parser gives up the sequence that it stands in, unless it stands there alone: behind another item it
    loses the whole sequence, in front of another one it refuses the pattern. */
module RegexpDrops {
  import opened RegexpAst
  import opened RegexpGrammar
  import opened RegexpRead

  // ----- items that are nothing -----

  predicate HollowI(i: Item) {
    i.Times? && i.q.Once? && i.atom.Bracket? && i.atom.kind.NoCapture? && i.atom.body.Only? &&
      HollowC(i.atom.body.first)
  }

  /** Every item is nothing. */
  predicate HollowC(c: Cats) {
    c.More? ==> HollowI(c.item) && HollowC(c.rest)
  }

  predicate AnyHollow(c: Cats) {
    c.More? && (HollowI(c.item) || AnyHollow(c.rest))
  }

  /** No item that is nothing stands beside another item. */
  predicate TidyA(c: Alts) {
    TidyC(c.first) && (c.Or? ==> TidyA(c.rest))
  }

  predicate TidyC(c: Cats) {
    c.More? ==> (c.rest.More? ==> !HollowI(c.item)) && !AnyHollow(c.rest) && TidyI(c.item) && TidyC(c.rest)
  }

  predicate TidyI(i: Item) {
    i.Times? && i.atom.Bracket? ==> TidyA(i.atom.body)
  }

  // ----- the trees of such items -----

  /** The same groups are closed. */
  predicate SameShape(e: Env, f: Env) {
    ValidEnv(e) && ValidEnv(f) && e.n == f.n && forall k :: 0 <= k < MAXSUB ==> (e.sub[k] == Null <==> f.sub[k] == Null)
  }

  lemma {:induction false} ShapeA(c: Alts, e: Env, f: Env)
    requires SameShape(e, f) && OkA(c, e, false)
    ensures SameShape(BuildA(c, e, false).env, BuildA(c, f, true).env)
    ensures BuildA(c, f, true).node == Null <==> c.Only? && HollowC(c.first)
    decreases c, 4
  {
    hide BuildC, OkC;
    ShapeC(c.first, e, f);
    if c.Or? { ShapeOr(c.rest, BuildC(c.first, e, false), BuildC(c.first, f, true)); }
  }

  lemma {:induction false} ShapeOr(c: Alts, x: Built, y: Built)
    requires SameShape(x.env, y.env) && OkA(c, x.env, false)
    ensures SameShape(BuildOr(x, c, false).env, BuildOr(y, c, true).env) && BuildOr(y, c, true).node != Null
    decreases c, 3
  {
    hide BuildC, OkC;
    ShapeC(c.first, x.env, y.env);
    if c.Or? {
      var p, q := BuildC(c.first, x.env, false), BuildC(c.first, y.env, true);
      ShapeOr(c.rest, Built(Alt(x.node, p.node), p.env), Built(Alt(y.node, q.node), q.env));
    }
  }

  lemma {:induction false} ShapeC(c: Cats, e: Env, f: Env)
    requires SameShape(e, f) && OkC(c, e, false)
    ensures SameShape(BuildC(c, e, false).env, BuildC(c, f, true).env)
    ensures BuildC(c, f, true).node == Null <==> HollowC(c)
    decreases c, 2
  {
    hide BuildI, OkI, HollowI;
    if c.More? {
      ShapeI(c.item, e, f);
      ShapeC(c.rest, BuildI(c.item, e, false).env, BuildI(c.item, f, true).env);
    }
  }

  lemma {:induction false} ShapeI(i: Item, e: Env, f: Env)
    requires SameShape(e, f) && OkI(i, e, false)
    ensures SameShape(BuildI(i, e, false).env, BuildI(i, f, true).env)
    ensures BuildI(i, f, true).node == Null <==> HollowI(i)
    decreases i, 1
  {
    hide BuildA, OkA, HollowC;
    if i.Times? && i.atom.Bracket? {
      var body := i.atom.body;
      if i.atom.kind.Capture? {
        ShapeA(body, e.(n := e.n + 1), f.(n := f.n + 1));
      } else {
        ShapeA(body, e, f);
      }
    }
  }

  /** The parser's tree of a sequence that has an item which is nothing. */
  lemma {:induction false} GivenUp(c: Cats, e: Env)
    requires ValidEnv(e) && OkC(c, e, false) && AnyHollow(c)
    ensures BuildC(c, e, false).node == Null
    decreases c
  {
    hide HollowI;
    if HollowI(c.item) {
      HollowNull(c.item, e);
    } else {
      GivenUp(c.rest, BuildI(c.item, e, false).env);
    }
  }

  lemma {:induction false} HollowNull(i: Item, e: Env)
    requires ValidEnv(e) && OkI(i, e, false) && HollowI(i)
    ensures BuildI(i, e, false).node == Null
    decreases i
  {
    var c := i.atom.body.first;
    PlainGroup(c, e, false);
    assert i == Times(Bracket(NoCapture, Only(c)), Once);
    if c.More? { GivenUp(c, e); }
  }

  lemma PlainGroup(c: Cats, e: Env, plain: bool)
    requires ValidEnv(e)
    ensures var i := Times(Bracket(NoCapture, Only(c)), Once);
      (OkI(i, e, plain) <==> OkC(c, e, plain)) && BuildI(i, e, plain) == BuildC(c, e, plain)
  {
    hide BuildC, OkC;
    var x := Bracket(NoCapture, Only(c));
    assert OkX(x, e, plain) <==> OkA(Only(c), e, plain);
    assert BuildX(x, e, plain) == BuildA(Only(c), e, plain);
  }

  // ----- the parser's tree and the pattern's -----

  lemma {:induction false} TreesA(c: Alts, e: Env, f: Env)
    requires SameShape(e, f) && OkA(c, e, false)
    ensures !TidyA(c) ==> BuildA(c, e, false).node != BuildA(c, f, true).node
    ensures TidyA(c) && e == f ==> BuildA(c, e, false) == BuildA(c, f, true)
    decreases c, 4
  {
    hide BuildC, OkC, TidyC;
    TreesC(c.first, e, f);
    ShapeC(c.first, e, f);
    if c.Or? { TreesOr(c.rest, BuildC(c.first, e, false), BuildC(c.first, f, true)); }
  }

  lemma {:induction false} TreesOr(c: Alts, x: Built, y: Built)
    requires SameShape(x.env, y.env) && OkA(c, x.env, false)
    ensures !TidyA(c) || x.node != y.node ==> BuildOr(x, c, false).node != BuildOr(y, c, true).node
    ensures TidyA(c) && x == y ==> BuildOr(x, c, false) == BuildOr(y, c, true)
    decreases c, 3
  {
    hide BuildC, OkC, TidyC;
    TreesC(c.first, x.env, y.env);
    ShapeC(c.first, x.env, y.env);
    if c.Or? {
      var p, q := BuildC(c.first, x.env, false), BuildC(c.first, y.env, true);
      TreesOr(c.rest, Built(Alt(x.node, p.node), p.env), Built(Alt(y.node, q.node), q.env));
    }
  }

  lemma {:induction false} TreesC(c: Cats, e: Env, f: Env)
    requires SameShape(e, f) && OkC(c, e, false)
    ensures !TidyC(c) ==> BuildC(c, e, false).node != BuildC(c, f, true).node
    ensures TidyC(c) && e == f ==> BuildC(c, e, false) == BuildC(c, f, true)
    decreases c, 2
  {
    hide BuildI, OkI, TidyI, HollowI;
    if c.More? {
      var p, q := BuildI(c.item, e, false), BuildI(c.item, f, true);
      TreesI(c.item, e, f);
      ShapeI(c.item, e, f);
      TreesC(c.rest, p.env, q.env);
      ShapeC(c.rest, p.env, q.env);
      if HollowI(c.item) { HollowNull(c.item, e); }
      if AnyHollow(c.rest) { GivenUp(c.rest, p.env); }
    }
  }

  lemma {:induction false} TreesI(i: Item, e: Env, f: Env)
    requires SameShape(e, f) && OkI(i, e, false)
    ensures !TidyI(i) ==> BuildI(i, e, false).node != BuildI(i, f, true).node
    ensures TidyI(i) && e == f ==> BuildI(i, e, false) == BuildI(i, f, true)
    decreases i, 1
  {
    hide BuildA, OkA, TidyA;
    if i.Times? && i.atom.Bracket? {
      var body := i.atom.body;
      if i.atom.kind.Capture? {
        TreesA(body, e.(n := e.n + 1), f.(n := f.n + 1));
      } else {
        TreesA(body, e, f);
      }
    }
  }

  // ----- the same, on the tokens -----

  /** Groups without capture, one in the other, around nothing. */
  predicate EmptyAt(toks: seq<Token>, i: nat, j: nat)
    decreases j
  {
    i + 2 <= j <= |toks| && toks[i].OpenNc? && toks[j - 1].Close? && (i + 2 == j || EmptyAt(toks, i + 1, j - 1))
  }

  predicate StartsCat(toks: seq<Token>, i: nat)
    requires i <= |toks|
  {
    i == 0 || IsOpen(toks[i - 1]) || toks[i - 1].Bar?
  }

  /** Such a group, not repeated, beside another item. */
  predicate BesideAt(toks: seq<Token>, i: nat, j: nat) {
    j < |toks| && EmptyAt(toks, i, j) && !IsQuantifier(toks[j]) && (!StartsCat(toks, i) || !EndsCat(toks[j]))
  }

  ghost predicate Beside(toks: seq<Token>) {
    exists i, j :: BesideAt(toks, i, j)
  }

  lemma GroupAt(toks: seq<Token>, c: Cats, a: nat)
    ensures var i := Times(Bracket(NoCapture, Only(c)), Once);
      LenI(i) == LenC(c) + 2 &&
      (AtI(toks, i, a) <==> TokenAt(toks, a, OpenNc) && AtC(toks, c, a + 1) && TokenAt(toks, a + 1 + LenC(c), Close))
  {
    hide AtC, LenC;
    var x := Bracket(NoCapture, Only(c));
    assert LenX(x) == LenA(Only(c)) + 2;
    assert AtX(toks, x, a) <==>
      TokenAt(toks, a, OpenNc) && AtA(toks, Only(c), a + 1) && TokenAt(toks, a + 1 + LenA(Only(c)), Close);
  }

  lemma TidyGroup(c: Cats)
    ensures var i := Times(Bracket(NoCapture, Only(c)), Once); (TidyI(i) <==> TidyC(c)) && (HollowI(i) <==> HollowC(c))
  {
    hide TidyC, HollowC;
    var x := Bracket(NoCapture, Only(c));
    assert TidyA(Only(c)) <==> TidyC(c);
  }

  lemma {:induction false} HollowEmpty(toks: seq<Token>, i: Item, a: nat)
    requires AtI(toks, i, a) && HollowI(i) && TidyI(i)
    ensures EmptyAt(toks, a, a + LenI(i))
    decreases i
  {
    var c := i.atom.body.first;
    assert i == Times(Bracket(NoCapture, Only(c)), Once);
    TidyGroup(c);
    GroupAt(toks, c, a);
    if c.More? {
      HollowEmpty(toks, c.item, a + 1);
      assert c.rest.Nothing?;
    }
  }

  /** An item ends with a token that starts no sequence. */
  lemma ItemTail(toks: seq<Token>, i: Item, a: nat)
    requires AtI(toks, i, a)
    ensures a + LenI(i) <= |toks| && !StartsCat(toks, a + LenI(i))
  {
  }

  lemma {:induction false} FindHollow(toks: seq<Token>, c: Cats, a: nat) returns (i: nat, j: nat)
    requires AtC(toks, c, a) && Stops(toks, a + LenC(c)) && AnyHollow(c) && a <= |toks| && !StartsCat(toks, a)
    ensures BesideAt(toks, i, j)
    decreases c
  {
    hide AtI, HollowI, TidyI, LenI, StartsCat, EmptyAt;
    ItemTail(toks, c.item, a);
    if !TidyI(c.item) {
      i, j := FindI(toks, c.item, a);
    } else if HollowI(c.item) {
      HollowEmpty(toks, c.item, a);
      CatsHead(toks, c.rest, a + LenI(c.item));
      i, j := a, a + LenI(c.item);
    } else {
      i, j := FindHollow(toks, c.rest, a + LenI(c.item));
    }
  }

  lemma {:induction false} FindA(toks: seq<Token>, c: Alts, a: nat) returns (i: nat, j: nat)
    requires AtA(toks, c, a) && !TidyA(c) && Stops(toks, a + LenA(c))
    ensures BesideAt(toks, i, j)
    decreases c
  {
    hide AtC, LenC, TidyC, BesideAt;
    if !TidyC(c.first) {
      i, j := FindC(toks, c.first, a);
    } else {
      i, j := FindA(toks, c.rest, a + LenC(c.first) + 1);
    }
  }

  lemma {:induction false} FindC(toks: seq<Token>, c: Cats, a: nat) returns (i: nat, j: nat)
    requires AtC(toks, c, a) && !TidyC(c) && Stops(toks, a + LenC(c))
    ensures BesideAt(toks, i, j)
    decreases c
  {
    hide AtI, LenI, HollowI, TidyI, AnyHollow, StartsCat, EmptyAt;
    ItemTail(toks, c.item, a);
    CatsHead(toks, c.rest, a + LenI(c.item));
    if !TidyI(c.item) {
      i, j := FindI(toks, c.item, a);
    } else if c.rest.More? && HollowI(c.item) {
      HollowEmpty(toks, c.item, a);
      i, j := a, a + LenI(c.item);
    } else if AnyHollow(c.rest) {
      i, j := FindHollow(toks, c.rest, a + LenI(c.item));
    } else {
      i, j := FindC(toks, c.rest, a + LenI(c.item));
    }
  }

  lemma {:induction false} FindI(toks: seq<Token>, c: Item, a: nat) returns (i: nat, j: nat)
    requires AtI(toks, c, a) && !TidyI(c)
    ensures BesideAt(toks, i, j)
    decreases c
  {
    hide AtA, LenA, TidyA, BesideAt;
    var x := c.atom;
    assert AtX(toks, x, a);
    i, j := FindA(toks, x.body, a + 1);
  }

  // ----- and back -----

  lemma {:induction false} EmptyHollow(toks: seq<Token>, i: Item, a: nat, j: nat)
    requires AtI(toks, i, a) && EmptyAt(toks, a, j) && j < |toks| && !IsQuantifier(toks[j])
    ensures HollowI(i) && LenI(i) == j - a
    decreases i
  {
    hide AtC, LenC, HollowC;
    assert i.Times? && i.atom.Bracket?;
    var c := i.atom.body.first;
    assert AtA(toks, i.atom.body, a + 1) && AtC(toks, c, a + 1);
    if a + 2 == j {
      EmptyCats(toks, c, a + 1);
    } else {
      OneCats(toks, c, a + 1);
      EmptyHollow(toks, c.item, a + 1, j - 1);
      EmptyCats(toks, c.rest, j - 1);
      OneHollow(c);
    }
  }

  lemma EmptyCats(toks: seq<Token>, c: Cats, a: nat)
    requires AtC(toks, c, a) && TokenAt(toks, a, Close)
    ensures c.Nothing? && LenC(c) == 0 && HollowC(c)
  {
    if c.More? { ItemHead(toks, c.item, a); }
  }

  lemma OneCats(toks: seq<Token>, c: Cats, a: nat)
    requires AtC(toks, c, a)
    ensures c.More? ==> AtI(toks, c.item, a) && AtC(toks, c.rest, a + LenI(c.item)) && c.item < c
    ensures c.Nothing? ==> LenC(c) == 0
  {
  }

  lemma OneHollow(c: Cats)
    requires c.More? && HollowI(c.item) && c.rest.Nothing?
    ensures HollowC(c) && LenC(c) == LenI(c.item)
  {
  }

  lemma {:induction false} LocateA(toks: seq<Token>, c: Alts, a: nat, i: nat, j: nat)
    requires AtA(toks, c, a) && BesideAt(toks, i, j) && a <= i < a + LenA(c) && StartsCat(toks, a)
    requires Stops(toks, a + LenA(c))
    ensures !TidyA(c)
    decreases c
  {
    hide AtC, LenC, TidyC, EmptyAt;
    var m := a + LenC(c.first);
    EmptyStart(toks, i, j);
    if i < m {
      LocateC(toks, c.first, a, i, j);
    } else {
      LocateA(toks, c.rest, m + 1, i, j);
    }
  }

  lemma EmptyStart(toks: seq<Token>, i: nat, j: nat)
    requires EmptyAt(toks, i, j)
    ensures i < |toks| && toks[i].OpenNc?
  {
  }

  lemma {:induction false} LocateC(toks: seq<Token>, c: Cats, a: nat, i: nat, j: nat)
    requires AtC(toks, c, a) && BesideAt(toks, i, j) && a <= i < a + LenC(c) && Stops(toks, a + LenC(c))
    ensures if i == a then HollowI(c.item) && (!EndsCat(toks[j]) ==> !TidyC(c)) else !TidyC(c)
    decreases c
  {
    hide AtI, LenI, EmptyAt, HollowI, TidyI, StartsCat;
    var m := a + LenI(c.item);
    if i == a {
      EmptyHollow(toks, c.item, a, j);
      CatsHead(toks, c.rest, m);
    } else if i < m {
      LocateI(toks, c.item, a, i, j);
    } else {
      LocateC(toks, c.rest, m, i, j);
    }
  }

  lemma {:induction false} LocateI(toks: seq<Token>, c: Item, a: nat, i: nat, j: nat)
    requires AtI(toks, c, a) && BesideAt(toks, i, j) && a < i < a + LenI(c)
    ensures !TidyI(c)
    decreases c
  {
    hide AtA, LenA, TidyA, EmptyAt;
    EmptyStart(toks, i, j);
    var x := c.atom;
    assert AtX(toks, x, a);
    LocateA(toks, x.body, a + 1, i, j);
  }

  /** Told from the pattern and told from its tokens. */
  lemma TidyWritten(toks: seq<Token>, c: Alts)
    requires Written(toks, c)
    ensures TidyA(c) <==> !Beside(toks)
  {
    hide AtA, LenA, TidyA, EmptyAt;
    if !TidyA(c) {
      var i, j := FindA(toks, c, 0);
      assert BesideAt(toks, i, j);
    }
    if Beside(toks) {
      var i, j :| BesideAt(toks, i, j);
      EmptyStart(toks, i, j);
      LocateA(toks, c, 0, i, j);
    }
  }

  // ----- patterns without such items -----

  lemma {:induction false} TidyKeepsA(c: Alts, e: Env)
    requires ValidEnv(e) && TidyA(c)
    ensures (OkA(c, e, false) <==> OkA(c, e, true))
    decreases c
  {
    hide BuildC, OkC, TidyC;
    TidyKeepsC(c.first, e);
    if OkC(c.first, e, false) { TreesC(c.first, e, e); }
    if c.Or? {
      TidyKeepsA(c.rest, BuildC(c.first, e, true).env);
    }
  }

  lemma {:induction false} TidyKeepsC(c: Cats, e: Env)
    requires ValidEnv(e) && TidyC(c)
    ensures (OkC(c, e, false) <==> OkC(c, e, true))
    decreases c
  {
    hide BuildI, OkI, TidyI, HollowI;
    if c.More? {
      TidyKeepsI(c.item, e);
      if OkI(c.item, e, false) {
        TreesI(c.item, e, e);
        ShapeI(c.item, e, e);
      }
      TidyKeepsC(c.rest, BuildI(c.item, e, true).env);
    }
  }

  lemma {:induction false} TidyKeepsI(i: Item, e: Env)
    requires ValidEnv(e) && TidyI(i)
    ensures (OkI(i, e, false) <==> OkI(i, e, true))
    decreases i
  {
    hide BuildA, OkA, TidyA;
    if i.Times? && i.atom.Bracket? {
      var f := if i.atom.kind.Capture? && e.n < MAXSUB then e.(n := e.n + 1) else e;
      TidyKeepsA(i.atom.body, f);
      if OkA(i.atom.body, f, false) { TreesA(i.atom.body, f, f); }
    }
  }

  // ----- what the parser takes is in order -----

  /** The same groups are closed, and the trees of `e` can match nothing where those of `f` can. */
  predicate Emptier(e: Env, f: Env) {
    SameShape(e, f) && forall k :: 0 <= k < MAXSUB && Empty(f.sub[k]) ==> Empty(e.sub[k])
  }

  lemma {:induction false} OrderA(c: Alts, e: Env, f: Env)
    requires Emptier(e, f) && OkA(c, e, false)
    ensures OkA(c, f, true) && Emptier(BuildA(c, e, false).env, BuildA(c, f, true).env)
    ensures Empty(BuildA(c, f, true).node) ==> Empty(BuildA(c, e, false).node)
    decreases c, 4
  {
    hide BuildC, OkC;
    OrderC(c.first, e, f);
    if c.Or? { OrderOr(c.rest, BuildC(c.first, e, false), BuildC(c.first, f, true)); }
  }

  lemma {:induction false} OrderOr(c: Alts, x: Built, y: Built)
    requires Emptier(x.env, y.env) && OkA(c, x.env, false) && (Empty(y.node) ==> Empty(x.node))
    ensures OkA(c, y.env, true) && Emptier(BuildOr(x, c, false).env, BuildOr(y, c, true).env)
    ensures Empty(BuildOr(y, c, true).node) ==> Empty(BuildOr(x, c, false).node)
    decreases c, 3
  {
    hide BuildC, OkC;
    OrderC(c.first, x.env, y.env);
    if c.Or? {
      var p, q := BuildC(c.first, x.env, false), BuildC(c.first, y.env, true);
      OrderOr(c.rest, Built(Alt(x.node, p.node), p.env), Built(Alt(y.node, q.node), q.env));
    }
  }

  lemma {:induction false} OrderC(c: Cats, e: Env, f: Env)
    requires Emptier(e, f) && OkC(c, e, false)
    ensures OkC(c, f, true) && Emptier(BuildC(c, e, false).env, BuildC(c, f, true).env)
    ensures Empty(BuildC(c, f, true).node) ==> Empty(BuildC(c, e, false).node)
    decreases c, 2
  {
    hide BuildI, OkI;
    if c.More? {
      OrderI(c.item, e, f);
      OrderC(c.rest, BuildI(c.item, e, false).env, BuildI(c.item, f, true).env);
    }
  }

  lemma {:induction false} OrderI(i: Item, e: Env, f: Env)
    requires Emptier(e, f) && OkI(i, e, false)
    ensures OkI(i, f, true) && Emptier(BuildI(i, e, false).env, BuildI(i, f, true).env)
    ensures Empty(BuildI(i, f, true).node) ==> Empty(BuildI(i, e, false).node)
    decreases i, 1
  {
    hide BuildX, OkX;
    if i.Times? { OrderX(i.atom, e, f); }
  }

  lemma {:induction false} OrderX(x: Atom, e: Env, f: Env)
    requires Emptier(e, f) && OkX(x, e, false)
    ensures OkX(x, f, true) && Emptier(BuildX(x, e, false).env, BuildX(x, f, true).env)
    ensures Empty(BuildX(x, f, true).node) ==> Empty(BuildX(x, e, false).node)
    decreases x, 5
  {
    hide BuildA, OkA;
    if x.Bracket? {
      if x.kind.Capture? {
        OrderA(x.body, e.(n := e.n + 1), f.(n := f.n + 1));
      } else {
        OrderA(x.body, e, f);
      }
    }
  }

  // ----- what parsing gives -----

  /** The parser comes to the end of the tokens, nothing went wrong, and its tree is the pattern's. */
  ghost predicate Right(toks: seq<Token>, c: Alts)
    requires Lexed(toks)
  {
    AtEnd(toks, Read(toks)) && Fine(Read(toks).st) && Read(toks).node == BuildA(c, START, true).node
  }

  /** What the parser takes is in order. What it makes of a pattern is right exactly when the pattern is in
      order and no item that is nothing stands beside another one. */
  lemma TreeExactly(toks: seq<Token>, c: Alts)
    requires Lexed(toks) && Written(toks, c)
    ensures AtEnd(toks, Read(toks)) && Fine(Read(toks).st) ==> OkA(c, START, true)
    ensures Right(toks, c) <==> OkA(c, START, true) && !Beside(toks)
  {
    hide AtA, LenA, OkA, BuildA, TidyA, Read, Beside;
    ReadExactly(toks);
    TidyWritten(toks, c);
    if TidyA(c) { TidyKeepsA(c, START); }
    if exists d :: Taken(toks, d) {
      var d :| Taken(toks, d);
      WrittenOnce(toks, c, d);
      OrderA(c, START, START);
    }
    if Taken(toks, c) { TreesA(c, START, START); }
  }

  const EMPTY_GROUP: Item := Times(Bracket(NoCapture, Only(Nothing)), Once)

  lemma EmptyGroup(toks: seq<Token>, a: nat, e: Env, plain: bool)
    requires ValidEnv(e)
    ensures OkI(EMPTY_GROUP, e, plain) && BuildI(EMPTY_GROUP, e, plain) == Built(Null, e) && LenI(EMPTY_GROUP) == 2
    ensures AtI(toks, EMPTY_GROUP, a) <==> TokenAt(toks, a, OpenNc) && TokenAt(toks, a + 1, Close)
  {
    PlainGroup(Nothing, e, plain);
    GroupAt(toks, Nothing, a);
  }

  lemma Character(toks: seq<Token>, a: nat, t: Test, e: Env, plain: bool)
    requires ValidEnv(e)
    ensures var i := Times(One(t), Once); OkI(i, e, plain) && BuildI(i, e, plain) == Built(Eat(t), e) && LenI(i) == 1
    ensures AtI(toks, Times(One(t), Once), a) <==> TokenAt(toks, a, Lit(t))
  {
  }

  lemma OneItem(toks: seq<Token>, i: Item, a: nat, e: Env, plain: bool)
    requires ValidEnv(e)
    ensures var c := More(i, Nothing);
      LenC(c) == LenI(i) && (AtC(toks, c, a) <==> AtI(toks, i, a)) && (OkC(c, e, plain) <==> OkI(i, e, plain)) &&
      BuildC(c, e, plain) == BuildI(i, e, plain)
  {
    hide AtI, OkI, BuildI, LenI;
    assert AtC(toks, Nothing, a + LenI(i)) && OkC(Nothing, BuildI(i, e, plain).env, plain) && LenC(Nothing) == 0;
  }

  /** Two items in a row. */
  lemma TwoItems(toks: seq<Token>, i: Item, j: Item, plain: bool)
    requires OkI(i, START, plain) && BuildI(i, START, plain).env == START && OkI(j, START, plain)
    requires AtI(toks, i, 0) && AtI(toks, j, LenI(i)) && |toks| == LenI(i) + LenI(j) + 1 && toks[LenI(i) + LenI(j)].Eof?
    requires plain || BuildI(i, START, plain).node != Null
    ensures Written(toks, Only(More(i, More(j, Nothing)))) && OkA(Only(More(i, More(j, Nothing))), START, plain)
    ensures BuildA(Only(More(i, More(j, Nothing))), START, plain).node ==
      Joined(BuildI(i, START, plain).node, BuildI(j, START, plain).node, false, plain)
  {
    hide AtI, OkI, BuildI, LenI;
    var c, rest := More(i, More(j, Nothing)), More(j, Nothing);
    OneItem(toks, j, LenI(i), START, plain);
    assert LenC(c) == LenI(i) + LenI(j) && AtC(toks, c, 0) && OkC(c, START, plain);
  }

  /** Not so of every pattern in order: the parser loses the character in front of an empty group. */
  lemma EmptyGroupDrops(t: Test)
    ensures var toks := [Lit(t), OpenNc, Close, Eof];
      var c := Only(More(Times(One(t), Once), More(EMPTY_GROUP, Nothing)));
      Lexed(toks) && Taken(toks, c) && BuildA(c, START, true).node == Eat(t) && Read(toks).node == Null
  {
    hide AtI, OkI, BuildI, LenI, AtA, OkA, BuildA, LenA, Read;
    var toks, i := [Lit(t), OpenNc, Close, Eof], Times(One(t), Once);
    Character(toks, 0, t, START, true);
    Character(toks, 0, t, START, false);
    EmptyGroup(toks, 1, START, true);
    EmptyGroup(toks, 1, START, false);
    TwoItems(toks, i, EMPTY_GROUP, true);
    TwoItems(toks, i, EMPTY_GROUP, false);
    ReadExactly(toks);
  }

  /** And in front of the character, it makes the parser refuse the pattern. */
  lemma EmptyGroupRefused(t: Test)
    ensures var toks := [OpenNc, Close, Lit(t), Eof];
      var c := Only(More(EMPTY_GROUP, More(Times(One(t), Once), Nothing)));
      Lexed(toks) && Written(toks, c) && OkA(c, START, true) && BuildA(c, START, true).node == Eat(t) &&
      !AtEnd(toks, Read(toks))
  {
    hide AtI, OkI, BuildI, LenI, AtA, OkA, BuildA, LenA, ReadRep;
    var toks, i := [OpenNc, Close, Lit(t), Eof], Times(One(t), Once);
    EmptyGroup(toks, 0, START, true);
    EmptyGroup(toks, 0, START, false);
    Character(toks, 2, t, START, true);
    TwoItems(toks, EMPTY_GROUP, i, true);
    CompleteI(toks, EMPTY_GROUP, BEGIN);
    var o := Reaches(Built(Null, START), 2, BEGIN);
    assert ReadCat(toks, BEGIN) == ReadRep(toks, BEGIN) == o;
    assert ReadOr(toks, o) == o;
  }
}
