/** The language of a pattern, spelled out over the pattern as it is written, the text, and the flags given
    at compilation (`c`) and at execution (`e`), with no tree in between; and the proof that a search for
    the pattern's tree finds exactly what this says. */
module RegexpSpelled {
  import opened RegexpAst
  import opened RegexpGrammar
  import opened RegexpMachine
  import opened RegexpMeaning
  import opened RegexpLanguage
  import opened RegexpSearch
  import opened RegexpAnswer
  import opened Wrappers

  // ----- the language -----

  predicate LineEnd(x: Rune) {
    x in {0xA, 0xD, 0x2028, 0x2029}
  }

  /** Letters, digits and the underscore. */
  predicate InWord(x: Rune) {
    65 <= x <= 90 || 97 <= x <= 122 || 48 <= x <= 57 || x == 95
  }

  /** A literal is folded to upper case by the compilation, a character of the text by either side. */
  predicate SaysLiteral(lit: Rune, x: Rune, c: Flags, e: Flags) {
    if c.icase then SameLetter(x, lit)
    else if e.icase then SameLetter(x, lit) && !(97 <= lit <= 122)
    else x == lit
  }

  ghost predicate SaysClass(cc: seq<Span>, x: Rune, c: Flags, e: Flags) {
    exists i, y: Rune :: 0 <= i < |cc| && cc[i].lo <= y <= cc[i].hi && SaysMember(x, y, c, e)
  }

  predicate SaysMember(x: Rune, y: Rune, c: Flags, e: Flags) {
    x == y || ((c.icase || e.icase) && SameLetter(x, y))
  }

  ghost predicate SaysTest(t: Test, x: Rune, c: Flags, e: Flags) {
    match t
    case AnyNl => true
    case Any => !LineEnd(x)
    case Char(lit) => SaysLiteral(lit, x, c, e)
    case CClass(cc) => SaysClass(cc, x, c, e)
    case NCClass(cc) => !SaysClass(cc, x, c, e)
  }

  predicate Boundary(s: Text, i: nat)
    requires i <= |s|
  {
    (i > 0 && InWord(s[i - 1])) != (i < |s| && InWord(s[i]))
  }

  predicate SaysEdge(a: Assertion, s: Text, c: Flags, e: Flags, i: nat)
    requires i <= |s|
  {
    match a
    case Bol => if i == 0 then !c.notbol && !e.notbol else (c.newline || e.newline) && LineEnd(s[i - 1])
    case Eol => i == |s| || ((c.newline || e.newline) && LineEnd(s[i]))
    case Word => Boundary(s, i)
    case NWord => !Boundary(s, i)
  }

  /** The numbers of copies that a quantifier allows. */
  predicate MayRepeat(t: Token, n: nat) {
    match t
    case Star => true
    case Plus => n >= 1
    case Quest => n <= 1
    case Braces(min, max) => min <= n && (max == REPINF || n <= max)
    case _ => false
  }

  /** The text from `i` to `j` is one of these alternatives. */
  ghost predicate SaysA(s: Text, c: Flags, e: Flags, p: Alts, i: nat, j: nat)
    decreases p, 0
  {
    i <= j <= |s| &&
    match p
    case Only(x) => SaysC(s, c, e, x, i, j)
    case Or(x, rest) => SaysC(s, c, e, x, i, j) || SaysA(s, c, e, rest, i, j)
  }

  ghost predicate SaysC(s: Text, c: Flags, e: Flags, p: Cats, i: nat, j: nat)
    decreases p, 0
  {
    i <= j <= |s| &&
    match p
    case Nothing => i == j
    case More(x, rest) => exists k: nat :: Position(s, k) && SaysI(s, c, e, x, i, k) && SaysC(s, c, e, rest, k, j)
  }

  ghost predicate SaysI(s: Text, c: Flags, e: Flags, p: Item, i: nat, j: nat)
    decreases p, 0
  {
    i <= j <= |s| &&
    match p
    case Edge(a) => i == j && SaysEdge(a, s, c, e, i)
    case Times(x, q) =>
      match q
      case Once => SaysX(s, c, e, x, i, j)
      case Many(t, _) => exists n: nat :: MayRepeat(t, n) && InRow(s, c, e, x, n, i, j)
  }

  /** `n` times the atom, one behind the other. */
  ghost predicate InRow(s: Text, c: Flags, e: Flags, p: Atom, n: nat, i: nat, j: nat)
    decreases p, 1, n
  {
    i <= j <= |s| &&
    if n == 0 then i == j
    else exists k: nat :: Position(s, k) && SaysX(s, c, e, p, i, k) && InRow(s, c, e, p, n - 1, k, j)
  }

  ghost predicate SaysX(s: Text, c: Flags, e: Flags, p: Atom, i: nat, j: nat)
    decreases p, 0
  {
    i <= j <= |s| &&
    match p
    case One(t) => j == i + 1 && SaysTest(t, s[i], c, e)
    case AnyOne => j == i + 1 && !LineEnd(s[i])
    case Back(_) => false
    case Bracket(kind, body) =>
      match kind
      case Capture => SaysA(s, c, e, body, i, j)
      case NoCapture => SaysA(s, c, e, body, i, j)
      case Ahead => i == j && exists k: nat :: Position(s, k) && SaysA(s, c, e, body, i, k)
      case NotAhead => i == j && !exists k: nat :: Position(s, k) && SaysA(s, c, e, body, i, k)
  }

  // ----- patterns without back-references -----

  predicate PlainA(p: Alts) {
    PlainC(p.first) && (p.Or? ==> PlainA(p.rest))
  }

  predicate PlainC(p: Cats) {
    p.More? ==> PlainI(p.item) && PlainC(p.rest)
  }

  predicate PlainI(p: Item) {
    p.Times? ==> !p.atom.Back? && (p.atom.Bracket? ==> PlainA(p.atom.body)) && PlainQ(p.q)
  }

  predicate PlainQ(q: Quant) {
    q.Many? ==> IsQuantifier(q.t)
  }

  // ----- tests and edges -----

  lemma SpelledTest(t: Test, s: Text, c: Flags, e: Flags, i: nat)
    ensures Accepts(t, s, Both(c, e), i) <==> i < |s| && SaysTest(t, s[i], c, e)
  {
    if i < |s| {
      match t
      case Char(lit) => SpelledLiteral(lit, s[i], c, e);
      case CClass(cc) => SpelledClass(cc, s[i], c, e);
      case NCClass(cc) => SpelledClass(cc, s[i], c, e);
      case _ =>
    }
  }

  lemma SpelledLiteral(lit: Rune, x: Rune, c: Flags, e: Flags)
    ensures Seen(x, c.icase || e.icase) == Seen(lit, c.icase) <==> SaysLiteral(lit, x, c, e)
  {
  }

  lemma SpelledClass(cc: seq<Span>, x: Rune, c: Flags, e: Flags)
    ensures ClassHas(cc, x, c.icase || e.icase) <==> SaysClass(cc, x, c, e)
  {
    hide Canon, SameLetter;
    if ClassHas(cc, x, c.icase || e.icase) {
      if c.icase || e.icase {
        var i :| 0 <= i < |cc| && exists r :: cc[i].lo <= r <= cc[i].hi && Canon(x) == Canon(r);
        var r :| cc[i].lo <= r <= cc[i].hi && Canon(x) == Canon(r);
        SameCanon(x, r);
        assert SaysMember(x, r, c, e);
      } else {
        assert SaysMember(x, x, c, e);
      }
    }
    if SaysClass(cc, x, c, e) {
      var i, y: Rune :| 0 <= i < |cc| && cc[i].lo <= y <= cc[i].hi && SaysMember(x, y, c, e);
      SameCanon(x, y);
    }
  }

  lemma SpelledEdge(a: Assertion, s: Text, c: Flags, e: Flags, i: nat)
    requires i <= |s|
    ensures Holds(a, s, Both(c, e), i) <==> SaysEdge(a, s, c, e, i)
  {
  }

  // ----- trees -----

  /** A sequence of two trees. */
  ghost predicate Follow(s: Text, f: Mode, x: Node, y: Node, i: nat, j: nat) {
    exists k: nat :: Position(s, k) && Matches(s, f, x, i, k) && Matches(s, f, y, k, j)
  }

  lemma JoinedMatches(s: Text, f: Mode, x: Node, y: Node, last: bool, i: nat, j: nat)
    requires last ==> y == Null
    ensures Matches(s, f, Joined(x, y, last, true), i, j) <==> i <= j <= |s| && Follow(s, f, x, y, i, j)
  {
    hide Matches;
    NullMatches(s, f);
    if Matches(s, f, x, i, j) { MatchesForward(s, f, x, i, j); }
    if Matches(s, f, y, i, j) { MatchesForward(s, f, y, i, j); }
    CatIs(s, f, x, y, i, j);
    if Matches(s, f, x, i, j) && y == Null { assert Position(s, j) && Matches(s, f, y, j, j); }
    if Matches(s, f, y, i, j) && x == Null { assert Position(s, i) && Matches(s, f, x, i, i); }
  }

  lemma NullMatches(s: Text, f: Mode)
    ensures forall i: nat, j: nat :: Matches(s, f, Null, i, j) <==> i == j <= |s|
  {
  }

  lemma CatIs(s: Text, f: Mode, x: Node, y: Node, i: nat, j: nat)
    ensures Matches(s, f, Cat(x, y), i, j) <==> i <= j <= |s| && Follow(s, f, x, y, i, j)
  {
  }

  lemma AltIs(s: Text, f: Mode, x: Node, y: Node, i: nat, j: nat)
    ensures Matches(s, f, Alt(x, y), i, j) <==> Matches(s, f, x, i, j) || Matches(s, f, y, i, j)
  {
    if Matches(s, f, x, i, j) { MatchesForward(s, f, x, i, j); }
    if Matches(s, f, y, i, j) { MatchesForward(s, f, y, i, j); }
  }

  /** The trees of a pattern match what the pattern says. */
  lemma {:induction false} SpelledA(s: Text, c: Flags, e: Flags, p: Alts, env: Env, i: nat, j: nat)
    requires ValidEnv(env) && OkA(p, env, true) && PlainA(p)
    ensures Matches(s, Both(c, e), BuildA(p, env, true).node, i, j) <==> SaysA(s, c, e, p, i, j)
    decreases p, 5
  {
    hide Matches, BuildC, OkC, SaysC, PlainC;
    var f := Both(c, e);
    var x := BuildC(p.first, env, true);
    SpelledC(s, c, e, p.first, env, i, j);
    ForwardC(s, c, e, p.first, i, j);
    if p.Or? { SpelledOr(s, c, e, p.rest, x, i, j); }
  }

  lemma ForwardC(s: Text, c: Flags, e: Flags, p: Cats, i: nat, j: nat)
    ensures SaysC(s, c, e, p, i, j) ==> i <= j <= |s|
  {
  }

  lemma {:induction false} SpelledOr(s: Text, c: Flags, e: Flags, p: Alts, x: Built, i: nat, j: nat)
    requires ValidEnv(x.env) && OkA(p, x.env, true) && PlainA(p)
    ensures Matches(s, Both(c, e), BuildOr(x, p, true).node, i, j) <==>
      Matches(s, Both(c, e), x.node, i, j) || SaysA(s, c, e, p, i, j)
    decreases p, 4
  {
    hide Matches, BuildC, OkC, SaysC, PlainC;
    var f := Both(c, e);
    var y := BuildC(p.first, x.env, true);
    SpelledC(s, c, e, p.first, x.env, i, j);
    ForwardC(s, c, e, p.first, i, j);
    AltIs(s, f, x.node, y.node, i, j);
    if p.Or? { SpelledOr(s, c, e, p.rest, Built(Alt(x.node, y.node), y.env), i, j); }
  }

  lemma {:induction false} SpelledC(s: Text, c: Flags, e: Flags, p: Cats, env: Env, i: nat, j: nat)
    requires ValidEnv(env) && OkC(p, env, true) && PlainC(p)
    ensures Matches(s, Both(c, e), BuildC(p, env, true).node, i, j) <==> SaysC(s, c, e, p, i, j)
    decreases p, 3
  {
    hide Matches, BuildI, OkI, SaysI, PlainI;
    var f := Both(c, e);
    if p.Nothing? {
      NullMatches(s, f);
    } else {
      var x := BuildI(p.item, env, true);
      var y := BuildC(p.rest, x.env, true);
      JoinedMatches(s, f, x.node, y.node, p.rest.Nothing?, i, j);
      forall k: nat ensures Matches(s, f, x.node, i, k) <==> SaysI(s, c, e, p.item, i, k) {
        SpelledI(s, c, e, p.item, env, i, k);
      }
      forall k: nat ensures Matches(s, f, y.node, k, j) <==> SaysC(s, c, e, p.rest, k, j) {
        SpelledC(s, c, e, p.rest, x.env, k, j);
      }
    }
  }

  lemma {:induction false} SpelledI(s: Text, c: Flags, e: Flags, p: Item, env: Env, i: nat, j: nat)
    requires ValidEnv(env) && OkI(p, env, true) && PlainI(p)
    ensures Matches(s, Both(c, e), BuildI(p, env, true).node, i, j) <==> SaysI(s, c, e, p, i, j)
    decreases p, 2
  {
    hide Matches, BuildX, OkX, SaysX, InRow, SaysEdge, Holds;
    var f := Both(c, e);
    if p.Edge? {
      EdgeIs(s, f, p.a, i, j);
      if i <= |s| { SpelledEdge(p.a, s, c, e, i); }
    } else if p.q.Once? {
      SpelledX(s, c, e, p.atom, env, i, j);
      ForwardX(s, c, e, p.atom, i, j);
    } else {
      var x := BuildX(p.atom, env, true).node;
      RepIs(s, f, x, p.q.lazy, RegexpGrammar.Least(p.q.t), Most(p.q.t), i, j);
      forall n: nat
        ensures Allowed(RegexpGrammar.Least(p.q.t), Most(p.q.t), n) <==> MayRepeat(p.q.t, n)
        ensures Power(s, f, x, n, i, j) <==> InRow(s, c, e, p.atom, n, i, j)
      {
        SpelledCount(p.q.t, n);
        SpelledRow(s, c, e, p.atom, env, n, i, j);
      }
    }
  }

  lemma EdgeIs(s: Text, f: Mode, a: Assertion, i: nat, j: nat)
    ensures Matches(s, f, Assert(a), i, j) <==> i == j <= |s| && Holds(a, s, f, i)
  {
  }

  lemma ForwardX(s: Text, c: Flags, e: Flags, p: Atom, i: nat, j: nat)
    ensures SaysX(s, c, e, p, i, j) ==> i <= j <= |s|
  {
  }

  lemma RepIs(s: Text, f: Mode, x: Node, ng: bool, m: nat, n: nat, i: nat, j: nat)
    ensures Matches(s, f, Rep(x, ng, m, n), i, j) <==>
      i <= j <= |s| && exists k: nat :: Allowed(m, n, k) && Power(s, f, x, k, i, j)
  {
    hide Power;
  }

  lemma SpelledCount(t: Token, n: nat)
    requires IsQuantifier(t)
    ensures Allowed(RegexpGrammar.Least(t), Most(t), n) <==> MayRepeat(t, n)
  {
  }

  lemma {:induction false} SpelledRow(s: Text, c: Flags, e: Flags, p: Atom, env: Env, n: nat, i: nat, j: nat)
    requires ValidEnv(env) && OkX(p, env, true) && !p.Back? && (p.Bracket? ==> PlainA(p.body))
    ensures Power(s, Both(c, e), BuildX(p, env, true).node, n, i, j) <==> InRow(s, c, e, p, n, i, j)
    decreases p, 7, n
  {
    hide Matches, BuildX, OkX, SaysX;
    var f, x := Both(c, e), BuildX(p, env, true).node;
    if n > 0 {
      forall k: nat ensures Matches(s, f, x, i, k) <==> SaysX(s, c, e, p, i, k) { SpelledX(s, c, e, p, env, i, k); }
      var m: nat := n - 1;
      forall k: nat ensures Power(s, f, x, m, k, j) <==> InRow(s, c, e, p, m, k, j) {
        SpelledRow(s, c, e, p, env, m, k, j);
      }
    }
  }

  lemma {:induction false} SpelledX(s: Text, c: Flags, e: Flags, p: Atom, env: Env, i: nat, j: nat)
    requires ValidEnv(env) && OkX(p, env, true) && !p.Back? && (p.Bracket? ==> PlainA(p.body))
    ensures Matches(s, Both(c, e), BuildX(p, env, true).node, i, j) <==> SaysX(s, c, e, p, i, j)
    decreases p, 6
  {
    hide BuildA, OkA, SaysA, SaysTest, Accepts, PlainA;
    match p {
      case One(t) => SpelledTest(t, s, c, e, i);
      case AnyOne => SpelledAny(s, c, e, i);
      case Bracket(kind, body) => SpelledBracket(s, c, e, kind, body, env, i, j);
    }
  }

  lemma SpelledAny(s: Text, c: Flags, e: Flags, i: nat)
    ensures Accepts(Any, s, Both(c, e), i) <==> i < |s| && !LineEnd(s[i])
  {
  }

  lemma {:induction false} SpelledBracket(s: Text, c: Flags, e: Flags, kind: Kind, body: Alts, env: Env, i: nat,
                                          j: nat)
    requires ValidEnv(env) && OkX(Bracket(kind, body), env, true) && PlainA(body)
    ensures Matches(s, Both(c, e), BuildX(Bracket(kind, body), env, true).node, i, j) <==>
      SaysX(s, c, e, Bracket(kind, body), i, j)
    decreases body, 8
  {
    hide BuildA, OkA, SaysA, PlainA;
    var f := Both(c, e);
    var inner := if kind.Capture? then env.(n := env.n + 1) else env;
    var y := BuildA(body, inner, true).node;
    forall k: nat ensures Matches(s, f, y, i, k) <==> SaysA(s, c, e, body, i, k) {
      SpelledA(s, c, e, body, inner, i, k);
    }
    SpelledA(s, c, e, body, inner, i, j);
  }

  // ----- the order of preference -----

  lemma {:induction false} AllEnds(s: Text, f: Mode, p: Part, l: seq<St>, from: nat)
    requires l != [] && forall t :: t in l ==> from <= t.pos <= |s|
    ensures var r, a := OutAll(s, f, p, l, from), Out(s, f, p, l[0]); a != [] ==> r != [] && r[0] == a[0]
    ensures var r, a := OutAll(s, f, p, l, from), Out(s, f, p, l[|l| - 1]);
      a != [] ==> r != [] && r[|r| - 1] == a[|a| - 1]
    decreases |l|
  {
    hide Out, OutAll;
    assert forall t :: t in l[1..] ==> t in l;
    AllFirst(s, f, p, l, from);
    if |l| > 1 { AllEnds(s, f, p, l[1..], from); }
  }

  lemma AllFirst(s: Text, f: Mode, p: Part, l: seq<St>, from: nat)
    requires l != [] && forall t :: t in l ==> from <= t.pos <= |s|
    ensures forall t :: t in l[1..] ==> from <= t.pos <= |s|
    ensures OutAll(s, f, p, l, from) == Out(s, f, p, l[0]) + OutAll(s, f, p, l[1..], from)
    ensures |l| == 1 ==> OutAll(s, f, p, l[1..], from) == []
  {
    hide Out;
  }

  /** An optional part that is lazy is left out first, one that is not is left out last. */
  lemma {:induction false} RestEnds(s: Text, f: Mode, p: Part, st: St)
    requires st.pos <= |s| && (p.Opts? || (p.Nest? && p.k > 0))
    ensures var r := Out(s, f, p, st); r != [] && (if p.ng then r[0] else r[|r| - 1]) == st
    decreases p.k
  {
    hide OutOne, OutAll;
    if p.Opts? && p.k > 0 {
      var q, l := Opts(p.x, p.ng, p.k - 1), Prefer(p.ng, st, Out(s, f, Part.One(p.x), st));
      RestEnds(s, f, q, st);
      AllEnds(s, f, q, l, st.pos);
    }
  }

  /** The least number of copies that a quantifier allows. */
  predicate Fewest(t: Token, m: nat) {
    MayRepeat(t, m) && forall n: nat :: n < m ==> !MayRepeat(t, n)
  }

  /** Of all outcomes of a quantified atom, one with the fewest copies comes first behind a second `?`, and
      last without it. */
  lemma FewestFirst(s: Text, f: Mode, x: Atom, t: Token, lazy: bool, env: Env, m: nat, st: St)
    requires ValidEnv(env) && IsQuantifier(t) && OkI(Item.Times(x, Many(t, lazy)), env, true) && Fewest(t, m)
    requires st.pos <= |s|
    ensures
      var few := Out(s, f, Part.Times(BuildX(x, env, true).node, m), st);
      var all := Out(s, f, Part.One(BuildI(Item.Times(x, Many(t, lazy)), env, true).node), st);
      few != [] ==> all != [] && if lazy then all[0] == few[0] else all[|all| - 1] == few[|few| - 1]
  {
    hide Out, BuildX, OkX, MayRepeat;
    var y := BuildX(x, env, true).node;
    var l, u := RegexpGrammar.Least(t), Most(t);
    forall n: nat ensures Allowed(l, u, n) <==> MayRepeat(t, n) { SpelledCount(t, n); }
    assert m == l by { assert Allowed(l, u, l) && Allowed(l, u, m); }
    RepOutcomes(s, f, y, lazy, l, u, st);
    var few, rest := Out(s, f, Part.Times(y, l), st), Rest(s, y, lazy, l, u);
    if few != [] {
      assert few[0] in few && few[|few| - 1] in few;
      RestEnds(s, f, rest, few[0]);
      RestEnds(s, f, rest, few[|few| - 1]);
      AllEnds(s, f, rest, few, st.pos);
    }
  }

  lemma RepOutcomes(s: Text, f: Mode, x: Node, ng: bool, m: nat, n: nat, st: St)
    requires st.pos <= |s|
    ensures Out(s, f, Part.One(Rep(x, ng, m, n)), st) ==
      OutAll(s, f, Rest(s, x, ng, m, n), Out(s, f, Part.Times(x, m), st), st.pos)
  {
    hide OutAll;
  }

  /** An optional atom: tried before it is left out, or the other way round. */
  lemma OptionalFirst(s: Text, f: Mode, x: Atom, lazy: bool, env: Env, st: St)
    requires ValidEnv(env) && st.pos <= |s|
    ensures
      var some := Out(s, f, Part.One(BuildX(x, env, true).node), st);
      Out(s, f, Part.One(BuildI(Item.Times(x, Many(Quest, lazy)), env, true).node), st) ==
        if lazy then [st] + some else some + [st]
  {
    hide OutOne, BuildX;
    var y := BuildX(x, env, true).node;
    RepOutcomes(s, f, y, lazy, 0, 1, st);
    var l := Prefer(lazy, st, Out(s, f, Part.One(y), st));
    AllOnce(s, f, Opts(y, lazy, 0), [st], st.pos);
    AllOnce(s, f, Opts(y, lazy, 0), l, st.pos);
    OptsOne(s, f, y, lazy, st);
    assert Out(s, f, Part.Times(y, 0), st) == [st];
    assert OutAll(s, f, Opts(y, lazy, 1), [st], st.pos) == Out(s, f, Opts(y, lazy, 1), st) + [] by {
      assert [st][1..] == [];
    }
  }

  lemma OptsOne(s: Text, f: Mode, x: Node, ng: bool, st: St)
    requires st.pos <= |s|
    ensures Out(s, f, Opts(x, ng, 1), st) ==
      OutAll(s, f, Opts(x, ng, 0), Prefer(ng, st, Out(s, f, Part.One(x), st)), st.pos)
  {
    hide OutAll, OutOne;
  }

  lemma {:induction false} AllOnce(s: Text, f: Mode, p: Part, l: seq<St>, from: nat)
    requires p.Opts? && p.k == 0 && forall t :: t in l ==> from <= t.pos <= |s|
    ensures OutAll(s, f, p, l, from) == l
    decreases |l|
  {
    if l != [] {
      assert l[0] in l && forall t :: t in l[1..] ==> t in l;
      AllOnce(s, f, p, l[1..], from);
      assert [l[0]] + l[1..] == l;
    }
  }

  /** The first alternative that matches is preferred, and its preferred outcome. */
  lemma {:induction false} FirstAlternative(s: Text, f: Mode, p: Alts, env: Env, st: St)
    requires ValidEnv(env) && p.Or? && st.pos <= |s|
    ensures var a := Out(s, f, Part.One(BuildC(p.first, env, true).node), st);
      var all := Out(s, f, Part.One(BuildA(p, env, true).node), st);
      a != [] ==> all != [] && all[0] == a[0]
  {
    hide Out, BuildC;
    OrFirst(s, f, p.rest, BuildC(p.first, env, true), st);
  }

  lemma {:induction false} OrFirst(s: Text, f: Mode, p: Alts, x: Built, st: St)
    requires ValidEnv(x.env) && st.pos <= |s|
    ensures var a := Out(s, f, Part.One(x.node), st);
      var all := Out(s, f, Part.One(BuildOr(x, p, true).node), st);
      a != [] ==> all != [] && all[0] == a[0]
    decreases p
  {
    hide Out, BuildC;
    var y := BuildC(p.first, x.env, true);
    AltOutcomes(s, f, x.node, y.node, st);
    if p.Or? { OrFirst(s, f, p.rest, Built(Alt(x.node, y.node), y.env), st); }
  }

  lemma AltOutcomes(s: Text, f: Mode, x: Node, y: Node, st: St)
    requires st.pos <= |s|
    ensures Out(s, f, Part.One(Alt(x, y)), st) == Out(s, f, Part.One(x), st) + Out(s, f, Part.One(y), st)
  {
  }

  // ----- tokens without back-references -----

  /** Their trees are such that the machine is known to run them. */
  ghost predicate Sane(node: Node) {
    WellFormed(node) && NoRef(node)
  }

  lemma {:induction false} SaneA(toks: seq<Token>, p: Alts, a: nat, env: Env)
    requires Lexed(toks) && NoBackRefs(toks) && AtA(toks, p, a) && ValidEnv(env) && OkA(p, env, true)
    ensures Sane(BuildA(p, env, true).node) && PlainA(p)
    decreases p, 5
  {
    hide AtC, OkC, BuildC, PlainC, LenC, Lexed, NoBackRefs;
    SaneC(toks, p.first, a, env);
    if p.Or? { SaneOr(toks, p.rest, a + LenC(p.first) + 1, BuildC(p.first, env, true)); }
  }

  lemma {:induction false} SaneOr(toks: seq<Token>, p: Alts, a: nat, x: Built)
    requires Lexed(toks) && NoBackRefs(toks) && AtA(toks, p, a) && ValidEnv(x.env) && OkA(p, x.env, true)
    requires Sane(x.node)
    ensures Sane(BuildOr(x, p, true).node) && PlainA(p)
    decreases p, 4
  {
    hide AtC, OkC, BuildC, PlainC, LenC, Lexed, NoBackRefs;
    SaneC(toks, p.first, a, x.env);
    if p.Or? {
      var y := BuildC(p.first, x.env, true);
      SaneOr(toks, p.rest, a + LenC(p.first) + 1, Built(Alt(x.node, y.node), y.env));
    }
  }

  lemma {:induction false} SaneC(toks: seq<Token>, p: Cats, a: nat, env: Env)
    requires Lexed(toks) && NoBackRefs(toks) && AtC(toks, p, a) && ValidEnv(env) && OkC(p, env, true)
    ensures Sane(BuildC(p, env, true).node) && PlainC(p)
    decreases p, 3
  {
    hide AtI, OkI, BuildI, PlainI, LenI, Lexed, NoBackRefs;
    if p.More? {
      SaneI(toks, p.item, a, env);
      SaneC(toks, p.rest, a + LenI(p.item), BuildI(p.item, env, true).env);
    }
  }

  lemma {:induction false} SaneI(toks: seq<Token>, p: Item, a: nat, env: Env)
    requires Lexed(toks) && NoBackRefs(toks) && AtI(toks, p, a) && ValidEnv(env) && OkI(p, env, true)
    ensures Sane(BuildI(p, env, true).node) && PlainI(p)
    decreases p, 2
  {
    hide AtX, OkX, BuildX, PlainA, LenX, NoBackRefs;
    if p.Times? { SaneX(toks, p.atom, a, env); }
  }

  lemma {:induction false} SaneX(toks: seq<Token>, p: Atom, a: nat, env: Env)
    requires Lexed(toks) && NoBackRefs(toks) && AtX(toks, p, a) && ValidEnv(env) && OkX(p, env, true)
    ensures Sane(BuildX(p, env, true).node) && !p.Back? && (p.Bracket? ==> PlainA(p.body))
    decreases p, 6
  {
    hide AtA, OkA, BuildA, PlainA, LenA, Lexed;
    if p.Bracket? { SaneA(toks, p.body, a + 1, if p.kind.Capture? then env.(n := env.n + 1) else env); }
  }
}
