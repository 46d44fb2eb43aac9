/** The language of a pattern, stated without any notion of preference or of running anything, and
    the proof that the ordered outcomes of a tree end exactly where its language says. */
module RegexpLanguage {
  import opened RegexpAst
  import opened RegexpMachine
  import opened RegexpMeaning

  /** `k` is a position between two characters of the text, or one of its ends. */
  predicate Position(s: Text, k: nat) {
    k <= |s|
  }

  /** A repeat of at least `m` and at most `n` copies may be made of `c`. */
  predicate Allowed(m: nat, n: nat, c: nat) {
    m <= c && (n == REPINF || c <= n)
  }

  /** The text between `i` and `j` matches `node`. */
  ghost predicate Matches(s: Text, f: Mode, node: Node, i: nat, j: nat)
    decreases node, 0, 0
  {
    i <= j <= |s| &&
    match node
    case Null => i == j
    case Cat(x, y) => exists k: nat :: Position(s, k) && Matches(s, f, x, i, k) && Matches(s, f, y, k, j)
    case Alt(x, y) => Matches(s, f, x, i, j) || Matches(s, f, y, i, j)
    case Rep(x, _, m, n) =>
      exists c: nat :: Allowed(m, n, c) && Power(s, f, x, c, i, j)
    case Par(_, x) => Matches(s, f, x, i, j)
    case Pla(x) => i == j && exists k: nat :: Position(s, k) && Matches(s, f, x, i, k)
    case Nla(x) => i == j && !exists k: nat :: Position(s, k) && Matches(s, f, x, i, k)
    case Eat(t) => j == i + 1 && Accepts(t, s, f, i)
    case Assert(a) => i == j && Holds(a, s, f, i)
    case Ref(_, _) => false
  }

  /** `c` matches of `x` in a row lead from `i` to `j`. */
  ghost predicate Power(s: Text, f: Mode, x: Node, c: nat, i: nat, j: nat)
    decreases x, 1, c
  {
    i <= j <= |s| &&
    if c == 0 then i == j
    else exists k: nat :: Position(s, k) && Matches(s, f, x, i, k) && Power(s, f, x, c - 1, k, j)
  }

  ghost predicate PowerUpTo(s: Text, f: Mode, x: Node, k: nat, i: nat, j: nat) {
    exists c: nat :: c <= k && Power(s, f, x, c, i, j)
  }

  lemma PowerIntro(s: Text, f: Mode, x: Node, k: nat, i: nat, m: nat, j: nat)
    requires k > 0 && Matches(s, f, x, i, m) && Power(s, f, x, k - 1, m, j)
    ensures Power(s, f, x, k, i, j)
  {
    MatchesForward(s, f, x, i, m);
    hide Matches;
    assert Position(s, m);
  }

  lemma PowerElim(s: Text, f: Mode, x: Node, k: nat, i: nat, j: nat) returns (m: nat)
    requires k > 0 && Power(s, f, x, k, i, j)
    ensures Position(s, m) && Matches(s, f, x, i, m) && Power(s, f, x, k - 1, m, j)
  {
    hide Matches;
    m :| Position(s, m) && Matches(s, f, x, i, m) && Power(s, f, x, k - 1, m, j);
  }

  lemma {:induction false} PowerSplit(s: Text, f: Mode, x: Node, a: nat, b: nat, i: nat, j: nat)
    ensures Power(s, f, x, a + b, i, j) <==>
            exists k: nat :: Position(s, k) && Power(s, f, x, a, i, k) && Power(s, f, x, b, k, j)
    decreases a
  {
    hide Matches, Power;
    if a == 0 {
      NoSteps(s, f, x, b, i, j);
    } else {
      if Power(s, f, x, a + b, i, j) {
        var k := PowerElim(s, f, x, a + b, i, j);
        PowerSplit(s, f, x, a - 1, b, k, j);
        var l: nat :| Position(s, l) && Power(s, f, x, a - 1, k, l) && Power(s, f, x, b, l, j);
        PowerIntro(s, f, x, a, i, k, l);
      }
      if l: nat :| Position(s, l) && Power(s, f, x, a, i, l) && Power(s, f, x, b, l, j) {
        var k := PowerElim(s, f, x, a, i, l);
        PowerSplit(s, f, x, a - 1, b, k, j);
        PowerIntro(s, f, x, a + b, i, k, j);
      }
    }
  }

  lemma NoSteps(s: Text, f: Mode, x: Node, b: nat, i: nat, j: nat)
    ensures Power(s, f, x, b, i, j) <==>
            exists k: nat :: Position(s, k) && Power(s, f, x, 0, i, k) && Power(s, f, x, b, k, j)
  {
    hide Matches;
    if Power(s, f, x, b, i, j) { assert Position(s, i) && Power(s, f, x, 0, i, i); }
  }

  lemma MatchesForward(s: Text, f: Mode, node: Node, i: nat, j: nat)
    requires Matches(s, f, node, i, j)
    ensures i <= j <= |s|
  {
  }

  /** A match of a tree that is not `Empty` is not empty. */
  lemma {:induction false} MatchesConsume(s: Text, f: Mode, node: Node, i: nat, j: nat)
    requires Matches(s, f, node, i, j) && !Empty(node)
    ensures i < j
  {
    match node {
      case Cat(x, y) =>
        var k: nat :| Position(s, k) && Matches(s, f, x, i, k) && Matches(s, f, y, k, j);
        if Empty(x) { MatchesConsume(s, f, y, k, j); } else { MatchesConsume(s, f, x, i, k); }
      case Alt(x, y) =>
        if Matches(s, f, x, i, j) { MatchesConsume(s, f, x, i, j); } else { MatchesConsume(s, f, y, i, j); }
      case Rep(x, _, m, n) =>
        var c: nat :| Allowed(m, n, c) && Power(s, f, x, c, i, j);
        var k: nat :| Position(s, k) && Matches(s, f, x, i, k) && Power(s, f, x, c - 1, k, j);
        MatchesConsume(s, f, x, i, k);
      case Par(_, x) => MatchesConsume(s, f, x, i, j);
      case Eat(_) =>
      case Ref(_, _) =>
    }
  }

  /** No test of a position, no lookahead and no back-reference. */
  predicate Steady(node: Node) {
    match node
    case Cat(x, y) => Steady(x) && Steady(y)
    case Alt(x, y) => Steady(x) && Steady(y)
    case Rep(x, _, m, n) => Steady(x) && m <= n
    case Par(_, x) => Steady(x)
    case Null => true
    case Eat(_) => true
    case _ => false
  }

  /** The parser's test is exact for such trees: they match the empty text exactly if it says so, and then
      anywhere. */
  lemma {:induction false} EmptyExactly(s: Text, f: Mode, node: Node, i: nat)
    requires Steady(node) && i <= |s|
    ensures Matches(s, f, node, i, i) <==> Empty(node)
  {
    if Matches(s, f, node, i, i) && !Empty(node) { MatchesConsume(s, f, node, i, i); }
    assert Position(s, i);
    match node {
      case Cat(x, y) => EmptyExactly(s, f, x, i); EmptyExactly(s, f, y, i);
      case Alt(x, y) => EmptyExactly(s, f, x, i); EmptyExactly(s, f, y, i);
      case Rep(x, _, m, n) =>
        EmptyExactly(s, f, x, i);
        if Empty(x) { EmptyPower(s, f, x, m, i); }
        assert Empty(node) ==> Power(s, f, x, m, i, i);
        assert Allowed(m, n, m);
      case Par(_, x) => EmptyExactly(s, f, x, i);
      case _ =>
    }
  }

  lemma {:induction false} EmptyPower(s: Text, f: Mode, x: Node, k: nat, i: nat)
    requires Matches(s, f, x, i, i)
    ensures Power(s, f, x, k, i, i)
    decreases k
  {
    hide Matches;
    assert i <= |s| by { MatchesForward(s, f, x, i, i); }
    if k > 0 {
      EmptyPower(s, f, x, k - 1, i);
      PowerIntro(s, f, x, k, i, i, i);
    }
  }

  lemma {:induction false} PowerConsumes(s: Text, f: Mode, x: Node, c: nat, i: nat, j: nat)
    requires Power(s, f, x, c, i, j) && !Empty(x)
    ensures i + c <= j <= |s|
    decreases c
  {
    hide Matches;
    if c > 0 {
      var k: nat :| Position(s, k) && Matches(s, f, x, i, k) && Power(s, f, x, c - 1, k, j);
      MatchesConsume(s, f, x, i, k);
      PowerConsumes(s, f, x, c - 1, k, j);
    }
  }

  /** Where the outcomes in a list end. */
  ghost predicate EndsAt(l: seq<St>, j: nat) {
    exists t :: t in l && t.pos == j
  }

  ghost predicate Reaches(s: Text, f: Mode, p: Part, i: nat, j: nat) {
    match p
    case One(node) => Matches(s, f, node, i, j)
    case Times(x, k) => Power(s, f, x, k, i, j)
    case Opts(x, _, k) => PowerUpTo(s, f, x, k, i, j)
    case Nest(x, _, k) => PowerUpTo(s, f, x, k, i, j)
  }

  /** Every unbounded repeat is around something that consumes a character. */
  predicate Bounded(node: Node) {
    match node
    case Cat(x, y) => Bounded(x) && Bounded(y)
    case Alt(x, y) => Bounded(x) && Bounded(y)
    case Rep(x, _, m, n) => Bounded(x) && m <= n && (n == REPINF ==> !Empty(x))
    case Par(_, x) => Bounded(x)
    case Pla(x) => Bounded(x)
    case Nla(x) => Bounded(x)
    case _ => true
  }

  lemma {:induction false} WellFormedBounded(node: Node)
    requires WellFormed(node)
    ensures Bounded(node)
  {
    match node {
      case Cat(x, y) => WellFormedBounded(x); WellFormedBounded(y);
      case Alt(x, y) => WellFormedBounded(x); WellFormedBounded(y);
      case Rep(x, _, _, _) => WellFormedBounded(x);
      case Par(_, x) => WellFormedBounded(x);
      case Pla(x) => WellFormedBounded(x);
      case Nla(x) => WellFormedBounded(x);
      case _ =>
    }
  }

  /** The outcomes of a tree end exactly where its language allows, whatever the captures. */
  lemma {:induction false} Language(s: Text, f: Mode, p: Part, st: St, j: nat)
    requires st.pos <= |s| && Bounded(Base(p))
    ensures EndsAt(Out(s, f, p, st), j) <==> Reaches(s, f, p, st.pos, j)
    decreases Base(p), Level(p), 0
  {
    hide Matches, Power, PowerUpTo, EndsAt, OutOne;
    match p {
      case One(node) => LanguageOne(s, f, node, st, j);
      case Times(x, k) => LanguageTimes(s, f, x, k, st, j);
      case Opts(x, ng, k) => LanguageOpts(s, f, x, ng, k, st, j);
      case Nest(x, ng, k) => LanguageNest(s, f, x, ng, k, st, j);
    }
  }

  lemma {:induction false} LanguageAll(s: Text, f: Mode, p: Part, l: seq<St>, from: nat, j: nat)
    requires forall t :: t in l ==> from <= t.pos <= |s|
    requires Bounded(Base(p))
    ensures EndsAt(OutAll(s, f, p, l, from), j) <==> exists t :: t in l && Reaches(s, f, p, t.pos, j)
    decreases Base(p), Level(p), 1, |l|
  {
    hide Out, Reaches;
    if l != [] {
      assert l[0] in l && forall t :: t in l[1..] ==> t in l;
      assert forall t :: t in l ==> t == l[0] || t in l[1..];
      Language(s, f, p, l[0], j);
      LanguageAll(s, f, p, l[1..], from, j);
      EndsAppend(Out(s, f, p, l[0]), OutAll(s, f, p, l[1..], from), j);
    }
  }

  lemma EndsAppend(l: seq<St>, l': seq<St>, j: nat)
    ensures EndsAt(l + l', j) <==> EndsAt(l, j) || EndsAt(l', j)
  {
    if EndsAt(l, j) {
      var t :| t in l && t.pos == j;
      assert t in l + l';
    }
    if EndsAt(l', j) {
      var t :| t in l' && t.pos == j;
      assert t in l + l';
    }
  }

  /** The outcomes of a part seen as positions. */
  lemma Through(s: Text, f: Mode, q: Part, p: Part, st: St, j: nat)
    requires st.pos <= |s|
    requires forall k: nat :: EndsAt(Out(s, f, q, st), k) <==> Reaches(s, f, q, st.pos, k)
    ensures (exists t :: t in Out(s, f, q, st) && Reaches(s, f, p, t.pos, j)) <==>
            (exists k: nat :: Position(s, k) && Reaches(s, f, q, st.pos, k) && Reaches(s, f, p, k, j))
  {
    hide Out, Reaches;
    if t :| t in Out(s, f, q, st) && Reaches(s, f, p, t.pos, j) {
      assert EndsAt(Out(s, f, q, st), t.pos);
      assert Reaches(s, f, q, st.pos, t.pos);
    }
    if k: nat :| Position(s, k) && Reaches(s, f, q, st.pos, k) && Reaches(s, f, p, k, j) {
      assert EndsAt(Out(s, f, q, st), k);
    }
  }

  lemma {:induction false} LanguageEach(s: Text, f: Mode, p: Part, st: St)
    requires st.pos <= |s| && Bounded(Base(p))
    ensures forall k: nat :: EndsAt(Out(s, f, p, st), k) <==> Reaches(s, f, p, st.pos, k)
    decreases Base(p), Level(p), 1, 0
  {
    hide Out, Reaches, EndsAt;
    forall k: nat ensures EndsAt(Out(s, f, p, st), k) <==> Reaches(s, f, p, st.pos, k) {
      Language(s, f, p, st, k);
    }
  }

  /** `x` and then `p`. */
  ghost predicate Then(s: Text, f: Mode, x: Node, p: Part, i: nat, j: nat) {
    exists k: nat :: Position(s, k) && Matches(s, f, x, i, k) && Reaches(s, f, p, k, j)
  }

  lemma FirstThen(s: Text, f: Mode, x: Node, p: Part, st: St, j: nat)
    requires st.pos <= |s| && Bounded(x) && Bounded(Base(p))
    requires forall k: nat :: EndsAt(Out(s, f, One(x), st), k) <==> Reaches(s, f, One(x), st.pos, k)
    requires var l := Out(s, f, One(x), st);
      EndsAt(OutAll(s, f, p, l, st.pos), j) <==> exists t :: t in l && Reaches(s, f, p, t.pos, j)
    ensures EndsAt(OutAll(s, f, p, Out(s, f, One(x), st), st.pos), j) <==> Then(s, f, x, p, st.pos, j)
  {
    hide Out, OutAll, Matches, Power, PowerUpTo, EndsAt;
    Through(s, f, One(x), p, st, j);
    forall k: nat ensures Reaches(s, f, One(x), st.pos, k) <==> Matches(s, f, x, st.pos, k) { }
  }

  lemma ThenPower(s: Text, f: Mode, x: Node, k: nat, i: nat, j: nat)
    requires k > 0
    ensures Then(s, f, x, Times(x, k - 1), i, j) <==> Power(s, f, x, k, i, j)
  {
    hide Matches, Power;
    if Power(s, f, x, k, i, j) {
      var m := PowerElim(s, f, x, k, i, j);
      assert Reaches(s, f, Times(x, k - 1), m, j);
    }
    if m: nat :| Position(s, m) && Matches(s, f, x, i, m) && Reaches(s, f, Times(x, k - 1), m, j) {
      PowerIntro(s, f, x, k, i, m, j);
    }
  }

  lemma ThenUpTo(s: Text, f: Mode, x: Node, p: Part, k: nat, i: nat, j: nat)
    requires k > 0 && i <= |s| && (p.Opts? || p.Nest?) && p.x == x && p.k == k - 1
    ensures PowerUpTo(s, f, x, k, i, j) <==> (i == j || Then(s, f, x, p, i, j))
    ensures PowerUpTo(s, f, x, k, i, j) <==> (PowerUpTo(s, f, x, k - 1, i, j) || Then(s, f, x, p, i, j))
  {
    hide Matches, Power;
    NoPower(s, f, x, i, j);
    if PowerUpTo(s, f, x, k, i, j) && i != j {
      var c: nat :| c <= k && Power(s, f, x, c, i, j);
      var m := PowerElim(s, f, x, c, i, j);
      assert PowerUpTo(s, f, x, k - 1, m, j);
      assert Then(s, f, x, p, i, j);
    }
    if m: nat :| Position(s, m) && Matches(s, f, x, i, m) && Reaches(s, f, p, m, j) {
      var c: nat :| c <= k - 1 && Power(s, f, x, c, m, j);
      PowerIntro(s, f, x, c + 1, i, m, j);
    }
  }

  lemma NoPower(s: Text, f: Mode, x: Node, i: nat, j: nat)
    requires i <= |s|
    ensures Power(s, f, x, 0, i, j) <==> i == j
    ensures PowerUpTo(s, f, x, 0, i, j) <==> i == j
  {
    hide Matches;
    assert Power(s, f, x, 0, i, i);
  }

  lemma LanguageTimes(s: Text, f: Mode, x: Node, k: nat, st: St, j: nat)
    requires st.pos <= |s| && Bounded(x)
    ensures EndsAt(Out(s, f, Times(x, k), st), j) <==> Power(s, f, x, k, st.pos, j)
    decreases x, 2 + k, -1
  {
    hide OutOne, Matches, Power, Then, Bounded;
    if k > 0 {
      LanguageEach(s, f, One(x), st);
      LanguageAll(s, f, Times(x, k - 1), Out(s, f, One(x), st), st.pos, j);
      FirstThen(s, f, x, Times(x, k - 1), st, j);
      ThenPower(s, f, x, k, st.pos, j);
    } else {
      NoPower(s, f, x, st.pos, j);
      EndsOne(st, j);
    }
  }

  lemma EndsOne(st: St, j: nat)
    ensures EndsAt([st], j) <==> st.pos == j
  {
    assert st in [st];
  }

  lemma LanguageNest(s: Text, f: Mode, x: Node, ng: bool, k: nat, st: St, j: nat)
    requires st.pos <= |s| && Bounded(x)
    ensures EndsAt(Out(s, f, Nest(x, ng, k), st), j) <==> PowerUpTo(s, f, x, k, st.pos, j)
    decreases x, 2 + k, -1
  {
    hide OutOne, Matches, PowerUpTo, Then, EndsAt, Bounded;
    EndsOne(st, j);
    if k > 0 {
      var p := Nest(x, ng, k - 1);
      var l := Out(s, f, One(x), st);
      LanguageEach(s, f, One(x), st);
      LanguageAll(s, f, p, l, st.pos, j);
      FirstThen(s, f, x, p, st, j);
      ThenUpTo(s, f, x, p, k, st.pos, j);
      EndsPrefer(ng, st, OutAll(s, f, p, l, st.pos), j);
    } else {
      NoPower(s, f, x, st.pos, j);
    }
  }

  lemma EndsPrefer(ng: bool, st: St, l: seq<St>, j: nat)
    ensures EndsAt(Prefer(ng, st, l), j) <==> st.pos == j || EndsAt(l, j)
  {
    hide EndsAt;
    EndsOne(st, j);
    EndsAppend([st], l, j);
    EndsAppend(l, [st], j);
  }

  lemma LanguageOpts(s: Text, f: Mode, x: Node, ng: bool, k: nat, st: St, j: nat)
    requires st.pos <= |s| && Bounded(x)
    ensures EndsAt(Out(s, f, Opts(x, ng, k), st), j) <==> PowerUpTo(s, f, x, k, st.pos, j)
    decreases x, 2 + k, -1
  {
    hide OutOne, Matches, PowerUpTo, Then, EndsAt, Bounded, Prefer;
    EndsOne(st, j);
    if k > 0 {
      var p := Opts(x, ng, k - 1);
      var l := Out(s, f, One(x), st);
      LanguageEach(s, f, One(x), st);
      LanguageAll(s, f, p, l, st.pos, j);
      FirstThen(s, f, x, p, st, j);
      ThenUpTo(s, f, x, p, k, st.pos, j);
      Language(s, f, p, st, j);
      OutOpts(s, f, x, ng, k, st);
      AllPrefer(s, f, p, ng, st, l, j);
    } else {
      NoPower(s, f, x, st.pos, j);
    }
  }

  lemma AllOne(s: Text, f: Mode, p: Part, st: St)
    requires st.pos <= |s|
    ensures OutAll(s, f, p, [st], st.pos) == Out(s, f, p, st)
  {
    hide Out;
    assert [st][1..] == [];
    var none := OutAll(s, f, p, [st][1..], st.pos);
    assert none == [];
    assert OutAll(s, f, p, [st], st.pos) == Out(s, f, p, [st][0]) + none;
  }

  /** Going on with `p` from a preference list. */
  lemma AllPrefer(s: Text, f: Mode, p: Part, ng: bool, st: St, l: seq<St>, j: nat)
    requires st.pos <= |s| && forall t :: t in l ==> st.pos <= t.pos <= |s|
    requires forall t :: t in Prefer(ng, st, l) ==> st.pos <= t.pos <= |s|
    ensures EndsAt(OutAll(s, f, p, Prefer(ng, st, l), st.pos), j) <==>
            EndsAt(Out(s, f, p, st), j) || EndsAt(OutAll(s, f, p, l, st.pos), j)
  {
    hide EndsAt, Out;
    var one := OutAll(s, f, p, [st], st.pos);
    AllOne(s, f, p, st);
    AllAppend(s, f, p, [st], l, st.pos);
    AllAppend(s, f, p, l, [st], st.pos);
    EndsAppend(one, OutAll(s, f, p, l, st.pos), j);
    EndsAppend(OutAll(s, f, p, l, st.pos), one, j);
  }

  lemma {:induction false} AllAppend(s: Text, f: Mode, p: Part, l: seq<St>, l': seq<St>, from: nat)
    requires forall t :: t in l ==> from <= t.pos <= |s|
    requires forall t :: t in l' ==> from <= t.pos <= |s|
    ensures OutAll(s, f, p, l + l', from) == OutAll(s, f, p, l, from) + OutAll(s, f, p, l', from)
  {
    hide Out;
    if l == [] {
      assert l + l' == l';
    } else {
      AllAppend(s, f, p, l[1..], l', from);
      assert (l + l')[1..] == l[1..] + l';
    }
  }

  lemma LanguageOne(s: Text, f: Mode, node: Node, st: St, j: nat)
    requires st.pos <= |s| && Bounded(node)
    ensures EndsAt(Out(s, f, One(node), st), j) <==> Matches(s, f, node, st.pos, j)
    decreases node, 0, 9
  {
    hide OutAll, CloseAll, Power, EndsAt;
    match node {
      case Null => EndsOne(st, j);
      case Cat(x, y) =>
        LanguageEach(s, f, One(x), st);
        LanguageAll(s, f, One(y), Out(s, f, One(x), st), st.pos, j);
        FirstThen(s, f, x, One(y), st, j);
        CatMatches(s, f, x, y, st.pos, j);
      case Alt(x, y) =>
        Language(s, f, One(x), st, j);
        Language(s, f, One(y), st, j);
        EndsAppend(Out(s, f, One(x), st), Out(s, f, One(y), st), j);
      case Rep(x, ng, m, n) => LanguageRep(s, f, x, ng, m, n, st, j);
      case Par(n, x) =>
        var st' := st.(caps := Opened(st.caps, n, st.pos));
        Language(s, f, One(x), st', j);
        EndsClose(s, n, Out(s, f, One(x), st'), st.pos, j);
      case Pla(x) => LanguageLook(s, f, x, st, j);
      case Nla(x) => LanguageLook(s, f, x, st, j);
      case Eat(_) => EndsOne(st.(pos := st.pos + 1), j); EndsNone(j);
      case Assert(_) => EndsOne(st, j); EndsNone(j);
      case Ref(_, _) => EndsNone(j);
    }
  }

  lemma EndsNone(j: nat)
    ensures !EndsAt([], j)
  {
  }

  lemma CatMatches(s: Text, f: Mode, x: Node, y: Node, i: nat, j: nat)
    ensures Matches(s, f, Cat(x, y), i, j) <==> Then(s, f, x, One(y), i, j)
  {
    if k: nat :| Position(s, k) && Matches(s, f, x, i, k) && Matches(s, f, y, k, j) {
      MatchesForward(s, f, x, i, k);
      MatchesForward(s, f, y, k, j);
      assert Reaches(s, f, One(y), k, j);
    }
  }

  lemma {:induction false} EndsClose(s: Text, n: Group, l: seq<St>, from: nat, j: nat)
    requires forall t :: t in l ==> from <= t.pos <= |s|
    ensures EndsAt(CloseAll(s, n, l, from), j) <==> EndsAt(l, j)
  {
    if l != [] {
      assert l[0] in l && forall t :: t in l[1..] ==> t in l;
      EndsClose(s, n, l[1..], from, j);
      var c := l[0].(caps := Closed(l[0].caps, n, l[0].pos));
      assert l == [l[0]] + l[1..];
      EndsOne(c, j);
      EndsOne(l[0], j);
      EndsAppend([c], CloseAll(s, n, l[1..], from), j);
      EndsAppend([l[0]], l[1..], j);
    }
  }

  /** A lookahead asks whether there is any outcome at all. */
  lemma LanguageLook(s: Text, f: Mode, x: Node, st: St, j: nat)
    requires st.pos <= |s| && Bounded(x)
    ensures EndsAt(OutOne(s, f, Pla(x), st), j) <==> Matches(s, f, Pla(x), st.pos, j)
    ensures EndsAt(OutOne(s, f, Nla(x), st), j) <==> Matches(s, f, Nla(x), st.pos, j)
    decreases x, 4, 0
  {
    hide Out, Matches, EndsAt, Reaches;
    LookFinds(s, f, x, st);
    LookOut(s, f, x, st);
    LookMatches(s, f, x, st.pos, j);
    var l := Out(s, f, One(x), st);
    if l != [] { EndsOne(st.(caps := l[0].caps), j); }
    EndsOne(st, j);
    EndsNone(j);
  }

  lemma LookMatches(s: Text, f: Mode, x: Node, i: nat, j: nat)
    ensures Matches(s, f, Pla(x), i, j) <==>
      i == j && j <= |s| && (exists k: nat :: Position(s, k) && Matches(s, f, x, i, k))
    ensures Matches(s, f, Nla(x), i, j) <==>
      i == j && j <= |s| && !(exists k: nat :: Position(s, k) && Matches(s, f, x, i, k))
  {
  }

  /** A tree has an outcome exactly when it matches up to some position. */
  lemma LookFinds(s: Text, f: Mode, x: Node, st: St)
    requires st.pos <= |s| && Bounded(x)
    ensures Out(s, f, One(x), st) != [] <==> exists k: nat :: Position(s, k) && Matches(s, f, x, st.pos, k)
    decreases x, 3, 0
  {
    hide Out, Matches;
    var l := Out(s, f, One(x), st);
    LanguageEach(s, f, One(x), st);
    if l != [] {
      assert l[0] in l && EndsAt(l, l[0].pos);
      assert Reaches(s, f, One(x), st.pos, l[0].pos) && Position(s, l[0].pos);
    }
    if k: nat :| Position(s, k) && Matches(s, f, x, st.pos, k) {
      assert Reaches(s, f, One(x), st.pos, k);
      assert EndsAt(l, k);
    }
  }

  lemma LanguageRep(s: Text, f: Mode, x: Node, ng: bool, m: nat, n: nat, st: St, j: nat)
    requires st.pos <= |s| && Bounded(Rep(x, ng, m, n))
    ensures EndsAt(OutOne(s, f, Rep(x, ng, m, n), st), j) <==> Matches(s, f, Rep(x, ng, m, n), st.pos, j)
    decreases Rep(x, ng, m, n), 0, 0
  {
    hide Out, OutAll, Matches, Power, EndsAt, Reaches;
    var rest := Rest(s, x, ng, m, n);
    LanguageEach(s, f, Times(x, m), st);
    LanguageAll(s, f, rest, Out(s, f, Times(x, m), st), st.pos, j);
    Through(s, f, Times(x, m), rest, st, j);
    RepMatches(s, f, x, ng, m, n, st.pos, j);
  }

  /** Mandatory copies followed by the rest: between `m` and `n` copies, or at least `m`. */
  lemma RepMatches(s: Text, f: Mode, x: Node, ng: bool, m: nat, n: nat, i: nat, j: nat)
    requires i <= |s| && m <= n && (n == REPINF ==> !Empty(x))
    ensures Matches(s, f, Rep(x, ng, m, n), i, j) <==>
            (exists k: nat ::
               Position(s, k) && Reaches(s, f, Times(x, m), i, k) && Reaches(s, f, Rest(s, x, ng, m, n), k, j))
  {
    hide Power;
    var rest := Rest(s, x, ng, m, n);
    if Matches(s, f, Rep(x, ng, m, n), i, j) {
      var c: nat :| Allowed(m, n, c) && Power(s, f, x, c, i, j);
      PowerSplit(s, f, x, m, c - m, i, j);
      var k: nat :| Position(s, k) && Power(s, f, x, m, i, k) && Power(s, f, x, c - m, k, j);
      if n == REPINF { PowerConsumes(s, f, x, c - m, k, j); }
      assert Reaches(s, f, Times(x, m), i, k) && Reaches(s, f, rest, k, j);
    }
    if k: nat :| Position(s, k) && Reaches(s, f, Times(x, m), i, k) && Reaches(s, f, rest, k, j) {
      var c: nat :| c <= rest.k && Power(s, f, x, c, k, j);
      PowerSplit(s, f, x, m, c, i, j);
      PowerForward(s, f, x, m + c, i, j);
      assert Allowed(m, n, m + c);
    }
  }

  lemma PowerForward(s: Text, f: Mode, x: Node, c: nat, i: nat, j: nat)
    requires Power(s, f, x, c, i, j)
    ensures i <= j <= |s|
  {
  }
}
