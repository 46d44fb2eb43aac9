/** How groups are numbered, and where the parser reads its table of groups past the end. */
module RegexpGroups {
  import opened RegexpAst
  import opened RegexpGrammar
  import opened RegexpRead

  // ----- the numbers of groups -----

  /** The opening brackets of capturing groups among the tokens from `a` to `b`. */
  function Opens(toks: seq<Token>, a: nat, b: nat): nat
    requires a <= b <= |toks|
    decreases b
  {
    if a == b then 0 else Opens(toks, a, b - 1) + if toks[b - 1].Open? then 1 else 0
  }

  lemma {:induction false} OpensAppend(toks: seq<Token>, a: nat, b: nat, c: nat)
    requires a <= b <= c <= |toks|
    ensures Opens(toks, a, c) == Opens(toks, a, b) + Opens(toks, b, c)
    decreases c
  {
    if b < c { OpensAppend(toks, a, b, c - 1); }
  }

  /** A group's number is one more than the number of groups opened before it. */
  lemma {:induction false} NumbersA(toks: seq<Token>, c: Alts, a: nat, e: Env, plain: bool)
    requires ValidEnv(e) && AtA(toks, c, a) && OkA(c, e, plain) && a + LenA(c) <= |toks|
    ensures BuildA(c, e, plain).env.n == e.n + Opens(toks, a, a + LenA(c))
    decreases c, 4
  {
    hide AtC, OkC, BuildC, LenC;
    var m := a + LenC(c.first);
    NumbersC(toks, c.first, a, e, plain);
    if c.Or? {
      NumbersOr(toks, c.rest, m + 1, BuildC(c.first, e, plain), plain);
      OpensAppend(toks, a, m, m + 1);
      OpensAppend(toks, a, m + 1, a + LenA(c));
    }
  }

  lemma {:induction false} NumbersOr(toks: seq<Token>, c: Alts, a: nat, x: Built, plain: bool)
    requires ValidEnv(x.env) && AtA(toks, c, a) && OkA(c, x.env, plain) && a + LenA(c) <= |toks|
    ensures BuildOr(x, c, plain).env.n == x.env.n + Opens(toks, a, a + LenA(c))
    decreases c, 3
  {
    hide AtC, OkC, BuildC, LenC;
    var m := a + LenC(c.first);
    NumbersC(toks, c.first, a, x.env, plain);
    if c.Or? {
      var y := BuildC(c.first, x.env, plain);
      NumbersOr(toks, c.rest, m + 1, Built(Alt(x.node, y.node), y.env), plain);
      OpensAppend(toks, a, m, m + 1);
      OpensAppend(toks, a, m + 1, a + LenA(c));
    }
  }

  lemma {:induction false} NumbersC(toks: seq<Token>, c: Cats, a: nat, e: Env, plain: bool)
    requires ValidEnv(e) && AtC(toks, c, a) && OkC(c, e, plain) && a + LenC(c) <= |toks|
    ensures BuildC(c, e, plain).env.n == e.n + Opens(toks, a, a + LenC(c))
    decreases c, 2
  {
    hide AtI, OkI, BuildI, LenI;
    if c.More? {
      NumbersI(toks, c.item, a, e, plain);
      NumbersC(toks, c.rest, a + LenI(c.item), BuildI(c.item, e, plain).env, plain);
      OpensAppend(toks, a, a + LenI(c.item), a + LenC(c));
    }
  }

  lemma {:induction false} NumbersI(toks: seq<Token>, i: Item, a: nat, e: Env, plain: bool)
    requires ValidEnv(e) && AtI(toks, i, a) && OkI(i, e, plain) && a + LenI(i) <= |toks|
    ensures BuildI(i, e, plain).env.n == e.n + Opens(toks, a, a + LenI(i))
    decreases i, 1
  {
    hide AtX, OkX, BuildX, LenX, Opens;
    if i.Times? {
      var m := a + LenX(i.atom);
      NumbersX(toks, i.atom, a, e, plain);
      OpensAppend(toks, a, m, a + LenI(i));
      QuantOpens(toks, i.q, m);
    } else {
      OneToken(toks, a);
    }
  }

  lemma QuantOpens(toks: seq<Token>, q: Quant, a: nat)
    requires AtQ(toks, q, a) && a + LenQ(q) <= |toks|
    ensures Opens(toks, a, a + LenQ(q)) == 0
  {
    if q.Many? {
      OneToken(toks, a);
      if q.lazy {
        OneToken(toks, a + 1);
        OpensAppend(toks, a, a + 1, a + 2);
      }
    }
  }

  lemma OneToken(toks: seq<Token>, a: nat)
    requires a < |toks|
    ensures Opens(toks, a, a + 1) == if toks[a].Open? then 1 else 0
  {
  }

  lemma {:induction false} NumbersX(toks: seq<Token>, x: Atom, a: nat, e: Env, plain: bool)
    requires ValidEnv(e) && AtX(toks, x, a) && OkX(x, e, plain) && a + LenX(x) <= |toks|
    ensures BuildX(x, e, plain).env.n == e.n + Opens(toks, a, a + LenX(x))
    decreases x, 1
  {
    hide AtA, OkA, BuildA, LenA, Opens;
    OneToken(toks, a);
    if x.Bracket? {
      var m := a + 1 + LenA(x.body);
      NumbersA(toks, x.body, a + 1, if x.kind.Capture? then e.(n := e.n + 1) else e, plain);
      OneToken(toks, m);
      OpensAppend(toks, a, a + 1, m + 1);
      OpensAppend(toks, a + 1, m, m + 1);
    }
  }

  // ----- past the end of the table -----

  /** A back-reference to a tenth group with nine opening brackets in front. */
  predicate StrayAt(toks: seq<Token>, i: nat) {
    i < |toks| && toks[i] == BackRef(MAXSUB) && Opens(toks, 0, i) >= MAXSUB - 1
  }

  ghost predicate Strays(toks: seq<Token>) {
    exists i :: StrayAt(toks, i)
  }

  /** At a back-reference the table is read past its end exactly if this is the tenth group, and nine have
      been opened. */
  lemma StraysExactly(toks: seq<Token>, st: State)
    requires Lexed(toks) && Fit(toks, st) && toks[st.at].BackRef?
    ensures ReadAtom(toks, st).st.strayed <==> st.strayed || (toks[st.at] == BackRef(MAXSUB) && st.env.n == MAXSUB)
  {
  }

  /** No more groups are counted than have been opened, and the table has been read past its end only where
      such a back-reference stands. */
  ghost predicate Counted(toks: seq<Token>, st: State)
    requires Fit(toks, st)
  {
    st.env.n <= 1 + Opens(toks, 0, st.at) && (st.strayed ==> Strays(toks))
  }

  lemma CountedSkip(toks: seq<Token>, st: State)
    requires Lexed(toks) && Fit(toks, st) && Counted(toks, st) && !IsLast(toks[st.at])
    ensures Counted(toks, Skip(toks, st)) && (toks[st.at].Open? ==> st.env.n + 1 <= 1 + Opens(toks, 0, st.at + 1))
  {
    OneToken(toks, st.at);
    OpensAppend(toks, 0, st.at, st.at + 1);
  }

  lemma {:induction false} CountedAlt(toks: seq<Token>, st: State)
    requires Lexed(toks) && Fit(toks, st) && Counted(toks, st)
    ensures Counted(toks, ReadAlt(toks, st).st)
    decreases |toks| - st.at, 5
  {
    hide Counted;
    CountedCat(toks, st);
    CountedOr(toks, ReadCat(toks, st));
  }

  lemma {:induction false} CountedOr(toks: seq<Token>, x: Out)
    requires Lexed(toks) && Fit(toks, x.st) && Counted(toks, x.st)
    ensures Counted(toks, ReadOr(toks, x).st)
    decreases |toks| - x.st.at, 4
  {
    hide Counted;
    if toks[x.st.at].Bar? {
      CountedSkip(toks, x.st);
      CountedCat(toks, Skip(toks, x.st));
      var y := ReadCat(toks, Skip(toks, x.st));
      CountedOr(toks, y.(node := Alt(x.node, y.node)));
    }
  }

  lemma {:induction false} CountedCat(toks: seq<Token>, st: State)
    requires Lexed(toks) && Fit(toks, st) && Counted(toks, st)
    ensures Counted(toks, ReadCat(toks, st).st)
    decreases |toks| - st.at, 3
  {
    hide Counted;
    if !EndsCat(toks[st.at]) {
      CountedRep(toks, st);
      var x := ReadRep(toks, st);
      if x.node != Null { CountedMore(toks, x); }
    }
  }

  lemma {:induction false} CountedMore(toks: seq<Token>, x: Out)
    requires Lexed(toks) && Fit(toks, x.st) && Counted(toks, x.st)
    ensures Counted(toks, ReadMore(toks, x).st)
    decreases |toks| - x.st.at, 3
  {
    hide Counted;
    if !EndsCat(toks[x.st.at]) {
      CountedRep(toks, x.st);
      var y := ReadRep(toks, x.st);
      if y.node != Null { CountedMore(toks, y); }
    }
  }

  lemma {:induction false} CountedRep(toks: seq<Token>, st: State)
    requires Lexed(toks) && Fit(toks, st) && Counted(toks, st)
    ensures Counted(toks, ReadRep(toks, st).st)
    decreases |toks| - st.at, 2
  {
    hide Counted;
    if toks[st.at].Zero? {
      CountedSkip(toks, st);
    } else {
      CountedAtom(toks, st);
      CountedTimes(toks, ReadAtom(toks, st));
    }
  }

  lemma CountedTimes(toks: seq<Token>, x: Out)
    requires Lexed(toks) && Fit(toks, x.st) && Counted(toks, x.st)
    ensures Counted(toks, ReadTimes(toks, x).st)
  {
    hide Opens, Strays;
    if IsQuantifier(toks[x.st.at]) {
      CountedSkip(toks, x.st);
      var st := Skip(toks, x.st);
      if toks[st.at].Quest? { CountedSkip(toks, st); }
    }
  }

  lemma {:induction false} CountedAtom(toks: seq<Token>, st: State)
    requires Lexed(toks) && Fit(toks, st) && Counted(toks, st)
    ensures Counted(toks, ReadAtom(toks, st).st)
    decreases |toks| - st.at, 1
  {
    hide Opens, ReadAlt;
    var t := toks[st.at];
    if t.BackRef? && t.k == MAXSUB && st.env.n == MAXSUB { assert StrayAt(toks, st.at); }
    if t.Lit? || t.BackRef? || t.Dot? || IsOpen(t) {
      CountedSkip(toks, st);
      var next := Skip(toks, st);
      if t.Open? {
        CountedGroup(toks, next);
      } else if IsOpen(t) {
        CountedAlt(toks, next);
        CountedClosed(toks, ReadAlt(toks, next));
      }
    }
  }

  lemma {:induction false} CountedGroup(toks: seq<Token>, st: State)
    requires Lexed(toks) && Fit(toks, st) && Counted(toks, st) && st.env.n <= Opens(toks, 0, st.at)
    ensures Counted(toks, ReadGroup(toks, st).st)
    decreases |toks| - st.at, 6
  {
    hide Opens, ReadAlt, Strays;
    if st.env.n < MAXSUB {
      var inner := st.(env := st.env.(n := st.env.n + 1));
      CountedAlt(toks, inner);
      CountedClosed(toks, ReadAlt(toks, inner));
    }
  }

  lemma CountedClosed(toks: seq<Token>, x: Out)
    requires Lexed(toks) && Fit(toks, x.st) && Counted(toks, x.st)
    ensures forall y: Node, e: Env :: ValidEnv(e) && e.n == x.st.env.n ==>
      Counted(toks, Closed(toks, Out(y, x.st.(env := e))).st)
  {
    hide Opens, Strays;
    if toks[x.st.at].Close? { CountedSkip(toks, x.st); }
  }

  /** The parser stays inside its table on all tokens in which no such back-reference stands. */
  lemma StaysInside(toks: seq<Token>)
    requires Lexed(toks)
    ensures Read(toks).st.strayed ==> Strays(toks)
  {
    hide ReadAlt;
    CountedAlt(toks, BEGIN);
  }

  /** It does not where one stands behind items in the parser's order that closed nine groups. */
  lemma {:induction false} GoesAstray(toks: seq<Token>, c: Cats, x: Out)
    requires Lexed(toks) && Fit(toks, x.st) && toks[|toks| - 1].Eof? && AtC(toks, c, x.st.at) && OkC(c, x.st.env, false)
    requires c.Nothing? || BuildC(c, x.st.env, false).node != Null
    requires TokenAt(toks, x.st.at + LenC(c), BackRef(MAXSUB)) && BuildC(c, x.st.env, false).env.n == MAXSUB
    ensures ReadMore(toks, x).st.strayed
    decreases c
  {
    hide AtI, OkI, BuildI, LenI;
    if c.Nothing? {
      StraysExactly(toks, x.st);
    } else {
      var a := x.st.at + LenI(c.item);
      if c.rest.More? { ItemHead(toks, c.rest.item, a); }
      ItemHead(toks, c.item, x.st.at);
      CompleteI(toks, c.item, x.st);
      GoesAstray(toks, c.rest, ReadRep(toks, x.st));
    }
  }

  const GROUP: Item := Times(Bracket(Capture, Only(Nothing)), Once)

  /** Some empty groups in a row. */
  function Groups(n: nat): Cats {
    if n == 0 then Nothing else More(GROUP, Groups(n - 1))
  }

  /** Nine empty groups and a back-reference to a tenth. */
  function NineGroups(): seq<Token> {
    [Open, Close, Open, Close, Open, Close, Open, Close, Open, Close, Open, Close, Open, Close, Open, Close, Open,
     Close, BackRef(MAXSUB), Eof]
  }

  lemma NoItems(toks: seq<Token>, a: nat, e: Env)
    requires ValidEnv(e)
    ensures var c := Only(Nothing); AtA(toks, c, a) && LenA(c) == 0 && OkA(c, e, false)
    ensures BuildA(Only(Nothing), e, false) == Built(Null, e)
  {
    assert AtC(toks, Nothing, a) && LenC(Nothing) == 0 && OkC(Nothing, e, false);
    assert BuildC(Nothing, e, false) == Built(Null, e);
  }

  lemma OneGroup(toks: seq<Token>, a: nat, e: Env)
    requires ValidEnv(e) && e.n < MAXSUB && TokenAt(toks, a, Open) && TokenAt(toks, a + 1, Close)
    ensures LenI(GROUP) == 2 && AtI(toks, GROUP, a) && OkI(GROUP, e, false)
    ensures BuildI(GROUP, e, false).node != Null && BuildI(GROUP, e, false).env.n == e.n + 1
  {
    hide AtA, LenA, OkA, BuildA;
    var f := e.(n := e.n + 1);
    NoItems(toks, a + 1, f);
    var x := Bracket(Capture, Only(Nothing));
    assert LenX(x) == 2 && AtX(toks, x, a);
    assert OkX(x, e, false) && BuildX(x, e, false) == Closing(e.n, Built(Null, f));
  }

  lemma {:induction false} SomeGroups(n: nat, e: Env)
    requires n <= MAXSUB - 1 && ValidEnv(e) && e.n + n == MAXSUB
    ensures var c := Groups(n); LenC(c) == 2 * n && AtC(NineGroups(), c, 18 - 2 * n) && OkC(c, e, false)
    ensures var b := BuildC(Groups(n), e, false); b.env.n == MAXSUB && (n > 0 ==> b.node != Null)
  {
    hide AtI, OkI, BuildI, LenI;
    if n > 0 {
      OneGroup(NineGroups(), 18 - 2 * n, e);
      SomeGroups(n - 1, BuildI(GROUP, e, false).env);
    }
  }

  lemma NineLexed()
    ensures var toks := NineGroups(); Lexed(toks) && |toks| == 20 && toks[19].Eof? && toks[18] == BackRef(MAXSUB)
    ensures var toks := NineGroups(); toks[0].Open? && toks[1].Close? && toks[2].Open?
  {
  }

  /** So the parser goes astray at the pattern ()()()()()()()()()\10. */
  lemma TenthGroup()
    ensures Lexed(NineGroups()) && Read(NineGroups()).st.strayed
  {
    hide AtC, OkC, BuildC, LenC, AtI, OkI, BuildI, LenI, NineGroups, ReadMore, ReadRep, ReadOr, Groups;
    NineLexed();
    var toks := NineGroups();
    OneGroup(toks, 0, START);
    SomeGroups(MAXSUB - 2, BuildI(GROUP, START, false).env);
    CompleteI(toks, GROUP, BEGIN);
    var x := ReadRep(toks, BEGIN);
    GoesAstray(toks, Groups(MAXSUB - 2), x);
    assert ReadCat(toks, BEGIN) == ReadMore(toks, x);
    StraysStays(toks, ReadCat(toks, BEGIN));
  }

  lemma StraysStays(toks: seq<Token>, x: Out)
    requires Lexed(toks) && Fit(toks, x.st) && x.st.strayed
    ensures ReadOr(toks, x).st.strayed
  {
  }

  // ----- tokens without back-references -----

  lemma {:induction false} PlainAlt(toks: seq<Token>, st: State)
    requires Lexed(toks) && Fit(toks, st) && NoBackRefs(toks)
    ensures NoRef(ReadAlt(toks, st).node)
    decreases |toks| - st.at, 5
  {
    PlainCat(toks, st);
    PlainOr(toks, ReadCat(toks, st));
  }

  lemma {:induction false} PlainOr(toks: seq<Token>, x: Out)
    requires Lexed(toks) && Fit(toks, x.st) && NoBackRefs(toks) && NoRef(x.node)
    ensures NoRef(ReadOr(toks, x).node)
    decreases |toks| - x.st.at, 4
  {
    if toks[x.st.at].Bar? {
      var y := ReadCat(toks, Skip(toks, x.st));
      PlainCat(toks, Skip(toks, x.st));
      PlainOr(toks, y.(node := Alt(x.node, y.node)));
    }
  }

  lemma {:induction false} PlainCat(toks: seq<Token>, st: State)
    requires Lexed(toks) && Fit(toks, st) && NoBackRefs(toks)
    ensures NoRef(ReadCat(toks, st).node)
    decreases |toks| - st.at, 3
  {
    if !EndsCat(toks[st.at]) {
      PlainRep(toks, st);
      var x := ReadRep(toks, st);
      if x.node != Null { PlainMore(toks, x); }
    }
  }

  lemma {:induction false} PlainMore(toks: seq<Token>, x: Out)
    requires Lexed(toks) && Fit(toks, x.st) && NoBackRefs(toks) && NoRef(x.node)
    ensures NoRef(ReadMore(toks, x).node)
    decreases |toks| - x.st.at, 3
  {
    if !EndsCat(toks[x.st.at]) {
      PlainRep(toks, x.st);
      var y := ReadRep(toks, x.st);
      if y.node != Null { PlainMore(toks, y); }
    }
  }

  lemma {:induction false} PlainRep(toks: seq<Token>, st: State)
    requires Lexed(toks) && Fit(toks, st) && NoBackRefs(toks)
    ensures NoRef(ReadRep(toks, st).node)
    decreases |toks| - st.at, 2
  {
    if !toks[st.at].Zero? { PlainAtom(toks, st); }
  }

  lemma {:induction false} PlainAtom(toks: seq<Token>, st: State)
    requires Lexed(toks) && Fit(toks, st) && NoBackRefs(toks)
    ensures NoRef(ReadAtom(toks, st).node)
    decreases |toks| - st.at, 1
  {
    hide ReadAlt;
    if IsOpen(toks[st.at]) {
      var next := Skip(toks, st);
      PlainAlt(toks, next);
      if next.env.n < MAXSUB { PlainAlt(toks, next.(env := next.env.(n := next.env.n + 1))); }
    }
  }

  /** Such tokens give a tree without back-references, and the parser does not go astray. */
  lemma ReadPlain(toks: seq<Token>)
    requires Lexed(toks) && NoBackRefs(toks)
    ensures NoRef(Read(toks).node) && !Read(toks).st.strayed
  {
    hide ReadAlt, Opens;
    PlainAlt(toks, BEGIN);
    StaysInside(toks);
  }
}
