/** What the recursive-descent parser does with a sequence of tokens. An error sets a flag and gives no
    tree, which the callers take for the empty tree, and parsing goes on. A second flag tells that the
    parser has read its table of groups past the end; what it does from then on is not known. */
module RegexpRead {
  import opened RegexpAst
  import opened RegexpGrammar

  datatype State = State(at: nat, env: Env, died: bool, strayed: bool)

  datatype Out = Out(node: Node, st: State)

  predicate Fit(toks: seq<Token>, st: State) {
    st.at < |toks| && ValidEnv(st.env)
  }

  function Skip(toks: seq<Token>, st: State): (r: State)
    requires Lexed(toks) && Fit(toks, st) && !IsLast(toks[st.at])
    ensures Fit(toks, r) && r == st.(at := st.at + 1)
  {
    st.(at := st.at + 1)
  }

  function Die(st: State): State {
    st.(died := true)
  }

  function Stray(st: State): State {
    st.(strayed := true)
  }

  /** From `st` on the state only moves forward, and what went wrong is never forgotten. */
  predicate After(toks: seq<Token>, st: State, o: Out) {
    Fit(toks, o.st) && st.at <= o.st.at && st.env.n <= o.st.env.n &&
    (st.died ==> o.st.died) && (st.strayed ==> o.st.strayed)
  }

  function ReadAlt(toks: seq<Token>, st: State): (o: Out)
    requires Lexed(toks) && Fit(toks, st)
    ensures After(toks, st, o)
    decreases |toks| - st.at, 5
  {
    ReadOr(toks, ReadCat(toks, st))
  }

  function ReadOr(toks: seq<Token>, x: Out): (o: Out)
    requires Lexed(toks) && Fit(toks, x.st)
    ensures After(toks, x.st, o)
    decreases |toks| - x.st.at, 4
  {
    if toks[x.st.at].Bar? then
      var y := ReadCat(toks, Skip(toks, x.st));
      ReadOr(toks, y.(node := Alt(x.node, y.node)))
    else x
  }

  function ReadCat(toks: seq<Token>, st: State): (o: Out)
    requires Lexed(toks) && Fit(toks, st)
    ensures After(toks, st, o)
    decreases |toks| - st.at, 3
  {
    if EndsCat(toks[st.at]) then Out(Null, st)
    else
      var x := ReadRep(toks, st);
      if x.node == Null then x else ReadMore(toks, x)
  }

  function ReadMore(toks: seq<Token>, x: Out): (o: Out)
    requires Lexed(toks) && Fit(toks, x.st)
    ensures After(toks, x.st, o)
    decreases |toks| - x.st.at, 3
  {
    if EndsCat(toks[x.st.at]) then x
    else
      var y := ReadRep(toks, x.st);
      if y.node == Null then y
      else
        var z := ReadMore(toks, y);
        z.(node := if z.node == Null then Null else Cat(x.node, z.node))
  }

  function ReadRep(toks: seq<Token>, st: State): (o: Out)
    requires Lexed(toks) && Fit(toks, st)
    ensures After(toks, st, o) && (o.node != Null ==> st.at < o.st.at)
    decreases |toks| - st.at, 2
  {
    if toks[st.at].Zero? then Out(Assert(toks[st.at].a), Skip(toks, st)) else ReadTimes(toks, ReadAtom(toks, st))
  }

  function ReadTimes(toks: seq<Token>, x: Out): (o: Out)
    requires Lexed(toks) && Fit(toks, x.st)
    ensures After(toks, x.st, o) && (o.node != Null ==> x.node == o.node || x.st.at < o.st.at)
  {
    var t := toks[x.st.at];
    if !IsQuantifier(t) then x
    else
      var st := Skip(toks, x.st);
      if t.Braces? && toks[st.at].Bad? then Out(Null, st)
      else if Most(t) < Least(t) then Out(Null, Die(st))
      else
        var lazy := toks[st.at].Quest?;
        NewRep(x.node, lazy, Least(t), Most(t), if lazy then Skip(toks, st) else st)
  }

  function NewRep(x: Node, lazy: bool, m: nat, n: nat, st: State): Out {
    if n == REPINF && Empty(x) then Out(Null, Die(st)) else Out(Rep(x, lazy, m, n), st)
  }

  function ReadAtom(toks: seq<Token>, st: State): (o: Out)
    requires Lexed(toks) && Fit(toks, st)
    ensures After(toks, st, o) && (o.node != Null ==> st.at < o.st.at)
    decreases |toks| - st.at, 1
  {
    match toks[st.at]
    case Lit(t) => Kept(toks, Eat(t), Skip(toks, st))
    case BackRef(k) =>
      if k == 0 || k > st.env.n then Out(Null, Die(st))
      else if k >= MAXSUB then Out(Null, Stray(st))
      else if st.env.sub[k] == Null then Out(Null, Die(st))
      else Kept(toks, Ref(k, st.env.sub[k]), Skip(toks, st))
    case Dot => Out(Eat(Any), Skip(toks, st))
    case Open => ReadGroup(toks, Skip(toks, st))
    case OpenNc => Closed(toks, ReadAlt(toks, Skip(toks, st)))
    case OpenPla =>
      var x := ReadAlt(toks, Skip(toks, st));
      Closed(toks, x.(node := Pla(x.node)))
    case OpenNla =>
      var x := ReadAlt(toks, Skip(toks, st));
      Closed(toks, x.(node := Nla(x.node)))
    case _ => Out(Null, Die(st))
  }

  /** A lexical error behind an atom loses the atom. */
  function Kept(toks: seq<Token>, x: Node, st: State): Out
    requires Fit(toks, st)
  {
    Out(if toks[st.at].Bad? then Null else x, st)
  }

  function ReadGroup(toks: seq<Token>, st: State): (o: Out)
    requires Lexed(toks) && Fit(toks, st)
    ensures After(toks, st, o)
    decreases |toks| - st.at, 6
  {
    if st.env.n == MAXSUB then Out(Null, Die(st))
    else
      var x := ReadAlt(toks, st.(env := st.env.(n := st.env.n + 1)));
      var b := Closing(st.env.n, Built(x.node, x.st.env));
      Closed(toks, Out(b.node, x.st.(env := b.env)))
  }

  function Closed(toks: seq<Token>, x: Out): (o: Out)
    requires Lexed(toks) && Fit(toks, x.st)
    ensures After(toks, x.st, o)
  {
    if toks[x.st.at].Close? then Out(x.node, Skip(toks, x.st)) else Out(Null, Die(x.st))
  }

  const BEGIN: State := State(0, START, false, false)

  /** The whole parse. */
  function Read(toks: seq<Token>): (o: Out)
    requires Lexed(toks)
    ensures Fit(toks, o.st)
  {
    ReadAlt(toks, BEGIN)
  }

  // ----- patterns in the parser's order are read to their end -----

  /** Where reading gets, and with which tree. */
  function Reaches(b: Built, at: nat, st: State): Out {
    Out(b.node, st.(at := at, env := b.env))
  }

  lemma {:induction false} CompleteA(toks: seq<Token>, c: Alts, st: State)
    requires Lexed(toks) && Fit(toks, st) && toks[|toks| - 1].Eof? && AtA(toks, c, st.at) && OkA(c, st.env, false)
    requires Stops(toks, st.at + LenA(c)) && !toks[st.at + LenA(c)].Bar?
    ensures ReadAlt(toks, st) == Reaches(BuildA(c, st.env, false), st.at + LenA(c), st)
    decreases c, 3
  {
    hide AtC, OkC, BuildC, ReadCat, LenC;
    CompleteC(toks, c.first, st);
    if c.Or? { CompleteOr(toks, c.rest, ReadCat(toks, st)); }
  }

  lemma {:induction false} CompleteOr(toks: seq<Token>, c: Alts, x: Out)
    requires Lexed(toks) && Fit(toks, x.st) && toks[|toks| - 1].Eof?
    requires TokenAt(toks, x.st.at, Bar) && AtA(toks, c, x.st.at + 1) && OkA(c, x.st.env, false)
    requires Stops(toks, x.st.at + 1 + LenA(c)) && !toks[x.st.at + 1 + LenA(c)].Bar?
    ensures ReadOr(toks, x) == Reaches(BuildOr(Built(x.node, x.st.env), c, false), x.st.at + 1 + LenA(c), x.st)
    decreases c, 2
  {
    hide AtC, OkC, BuildC, ReadCat, LenC;
    CompleteC(toks, c.first, Skip(toks, x.st));
    var y := ReadCat(toks, Skip(toks, x.st));
    if c.Or? { CompleteOr(toks, c.rest, y.(node := Alt(x.node, y.node))); }
  }

  lemma {:induction false} CompleteC(toks: seq<Token>, c: Cats, st: State)
    requires Lexed(toks) && Fit(toks, st) && toks[|toks| - 1].Eof? && AtC(toks, c, st.at) && OkC(c, st.env, false)
    requires Stops(toks, st.at + LenC(c))
    ensures ReadCat(toks, st) == Reaches(BuildC(c, st.env, false), st.at + LenC(c), st)
    decreases c, 1
  {
    hide AtI, OkI, BuildI, ReadRep, LenI, ReadMore;
    CatsHead(toks, c, st.at);
    if c.More? {
      CatsHead(toks, c.rest, st.at + LenI(c.item));
      CompleteI(toks, c.item, st);
      var x := ReadRep(toks, st);
      if x.node != Null { CompleteMore(toks, c.rest, x); } else { assert c.rest.Nothing?; }
    }
  }

  lemma {:induction false} CompleteMore(toks: seq<Token>, c: Cats, x: Out)
    requires Lexed(toks) && Fit(toks, x.st) && toks[|toks| - 1].Eof?
    requires AtC(toks, c, x.st.at) && OkC(c, x.st.env, false) && Stops(toks, x.st.at + LenC(c)) && x.node != Null
    ensures ReadMore(toks, x) ==
      var y := BuildC(c, x.st.env, false);
      Reaches(Built(Joined(x.node, y.node, c.Nothing?, false), y.env), x.st.at + LenC(c), x.st)
    decreases c, 1
  {
    hide AtI, OkI, BuildI, ReadRep, LenI;
    CatsHead(toks, c, x.st.at);
    if c.More? {
      CatsHead(toks, c.rest, x.st.at + LenI(c.item));
      CompleteI(toks, c.item, x.st);
      var y := ReadRep(toks, x.st);
      if y.node != Null { CompleteMore(toks, c.rest, y); } else { assert c.rest.Nothing?; }
    }
  }

  lemma {:induction false} CompleteI(toks: seq<Token>, i: Item, st: State)
    requires Lexed(toks) && Fit(toks, st) && toks[|toks| - 1].Eof? && AtI(toks, i, st.at) && OkI(i, st.env, false)
    requires st.at + LenI(i) < |toks| && !IsQuantifier(toks[st.at + LenI(i)])
    ensures ReadRep(toks, st) == Reaches(BuildI(i, st.env, false), st.at + LenI(i), st)
    decreases i, 1
  {
    hide AtX, OkX, BuildX, ReadAtom, LenX;
    if i.Times? {
      AtomHead(toks, i.atom, st.at);
      CompleteX(toks, i.atom, st);
    }
  }

  lemma AtomHead(toks: seq<Token>, x: Atom, a: nat)
    requires AtX(toks, x, a)
    ensures a + LenX(x) <= |toks| && !toks[a].Zero?
  {
  }

  lemma {:induction false} CompleteX(toks: seq<Token>, x: Atom, st: State)
    requires Lexed(toks) && Fit(toks, st) && toks[|toks| - 1].Eof? && AtX(toks, x, st.at) && OkX(x, st.env, false)
    requires st.at + LenX(x) < |toks|
    ensures ReadAtom(toks, st) == Reaches(BuildX(x, st.env, false), st.at + LenX(x), st)
    decreases x, 1
  {
    hide AtA, OkA, BuildA, ReadAlt, LenA, START;
    match x {
      case One(t) =>
      case AnyOne =>
      case Back(k) =>
      case Bracket(kind, body) =>
        var inner := Skip(toks, st);
        CompleteA(toks, body, if kind.Capture? then inner.(env := inner.env.(n := inner.env.n + 1)) else inner);
    }
  }

  // ----- what is read without an error is a pattern in the parser's order -----

  ghost predicate Clean(toks: seq<Token>, o: Out) {
    Lexed(toks) && toks[|toks| - 1].Eof? && !o.st.died && !o.st.strayed
  }

  lemma {:induction false} SoundA(toks: seq<Token>, st: State) returns (c: Alts)
    requires Lexed(toks) && Fit(toks, st) && Clean(toks, ReadAlt(toks, st))
    ensures AtA(toks, c, st.at) && OkA(c, st.env, false)
    ensures ReadAlt(toks, st) == Reaches(BuildA(c, st.env, false), st.at + LenA(c), st)
    decreases |toks| - st.at, 5
  {
    hide AtC, OkC, BuildC, ReadCat, LenC;
    var x := ReadCat(toks, st);
    var first := SoundC(toks, st);
    if toks[x.st.at].Bar? {
      var rest := SoundOr(toks, x);
      c := Or(first, rest);
    } else {
      c := Only(first);
    }
  }

  lemma {:induction false} SoundOr(toks: seq<Token>, x: Out) returns (c: Alts)
    requires Lexed(toks) && Fit(toks, x.st) && Clean(toks, ReadOr(toks, x)) && toks[x.st.at].Bar?
    ensures AtA(toks, c, x.st.at + 1) && OkA(c, x.st.env, false)
    ensures ReadOr(toks, x) == Reaches(BuildOr(Built(x.node, x.st.env), c, false), x.st.at + 1 + LenA(c), x.st)
    decreases |toks| - x.st.at, 4
  {
    hide AtC, OkC, BuildC, ReadCat, LenC;
    var y := ReadCat(toks, Skip(toks, x.st));
    var first := SoundC(toks, Skip(toks, x.st));
    if toks[y.st.at].Bar? {
      var rest := SoundOr(toks, y.(node := Alt(x.node, y.node)));
      c := Or(first, rest);
    } else {
      c := Only(first);
    }
  }

  lemma {:induction false} SoundC(toks: seq<Token>, st: State) returns (c: Cats)
    requires Lexed(toks) && Fit(toks, st) && Clean(toks, ReadCat(toks, st))
    ensures AtC(toks, c, st.at) && OkC(c, st.env, false)
    ensures ReadCat(toks, st) == Reaches(BuildC(c, st.env, false), st.at + LenC(c), st)
    decreases |toks| - st.at, 3
  {
    hide AtI, OkI, BuildI, ReadRep, LenI, ReadMore;
    c := Nothing;
    if !EndsCat(toks[st.at]) {
      var x := ReadRep(toks, st);
      var i := SoundI(toks, st);
      var rest := Nothing;
      if x.node != Null {
        rest := SoundMore(toks, x);
        MoreNothing(toks, x);
      }
      c := More(i, rest);
    }
  }

  lemma MoreNothing(toks: seq<Token>, x: Out)
    requires Lexed(toks) && Fit(toks, x.st)
    ensures EndsCat(toks[x.st.at]) ==> ReadMore(toks, x) == x
  {
  }

  lemma {:induction false} SoundMore(toks: seq<Token>, x: Out) returns (c: Cats)
    requires Lexed(toks) && Fit(toks, x.st) && Clean(toks, ReadMore(toks, x)) && x.node != Null
    ensures AtC(toks, c, x.st.at) && OkC(c, x.st.env, false) && (c.Nothing? <==> EndsCat(toks[x.st.at]))
    ensures ReadMore(toks, x) ==
      var y := BuildC(c, x.st.env, false);
      Reaches(Built(Joined(x.node, y.node, c.Nothing?, false), y.env), x.st.at + LenC(c), x.st)
    decreases |toks| - x.st.at, 3
  {
    hide AtI, OkI, BuildI, ReadRep, LenI;
    c := Nothing;
    if !EndsCat(toks[x.st.at]) {
      var y := ReadRep(toks, x.st);
      var i := SoundI(toks, x.st);
      var rest := Nothing;
      if y.node != Null { rest := SoundMore(toks, y); }
      c := More(i, rest);
    }
  }

  lemma {:induction false} SoundI(toks: seq<Token>, st: State) returns (i: Item)
    requires Lexed(toks) && Fit(toks, st) && Clean(toks, ReadRep(toks, st))
    ensures AtI(toks, i, st.at) && OkI(i, st.env, false)
    ensures ReadRep(toks, st) == Reaches(BuildI(i, st.env, false), st.at + LenI(i), st)
    decreases |toks| - st.at, 2
  {
    hide AtX, OkX, BuildX, ReadAtom, LenX, Empty;
    if toks[st.at].Zero? {
      i := Edge(toks[st.at].a);
    } else {
      var x := ReadAtom(toks, st);
      var atom := SoundX(toks, st);
      var t := toks[x.st.at];
      if IsQuantifier(t) {
        i := Times(atom, Many(t, toks[x.st.at + 1].Quest?));
      } else {
        i := Times(atom, Once);
      }
    }
  }

  lemma {:induction false} SoundX(toks: seq<Token>, st: State) returns (x: Atom)
    requires Lexed(toks) && Fit(toks, st) && Clean(toks, ReadAtom(toks, st))
    ensures AtX(toks, x, st.at) && OkX(x, st.env, false)
    ensures ReadAtom(toks, st) == Reaches(BuildX(x, st.env, false), st.at + LenX(x), st)
    decreases |toks| - st.at, 1
  {
    hide AtA, OkA, BuildA, ReadAlt, LenA, START;
    match toks[st.at] {
      case Lit(t) => x := One(t);
      case BackRef(k) => x := Back(k);
      case Dot => x := AnyOne;
      case Open => x := SoundBracket(toks, st, Capture);
      case OpenNc => x := SoundBracket(toks, st, NoCapture);
      case OpenPla => x := SoundBracket(toks, st, Ahead);
      case OpenNla => x := SoundBracket(toks, st, NotAhead);
      case _ => x := AnyOne;
    }
  }

  lemma {:induction false} SoundBracket(toks: seq<Token>, st: State, kind: Kind) returns (x: Atom)
    requires Lexed(toks) && Fit(toks, st) && Clean(toks, ReadAtom(toks, st)) && toks[st.at] == Opening(kind)
    ensures AtX(toks, x, st.at) && OkX(x, st.env, false)
    ensures ReadAtom(toks, st) == Reaches(BuildX(x, st.env, false), st.at + LenX(x), st)
    decreases |toks| - st.at, 0
  {
    hide AtA, OkA, BuildA, ReadAlt, LenA, START;
    var inner := Skip(toks, st);
    if kind.Capture? { inner := inner.(env := inner.env.(n := inner.env.n + 1)); }
    var body := SoundA(toks, inner);
    x := Bracket(kind, body);
  }

  // ----- when a parse is free of errors -----

  /** The parser has seen all tokens. */
  predicate AtEnd(toks: seq<Token>, o: Out)
    requires Fit(toks, o.st)
  {
    toks[o.st.at].Eof?
  }

  predicate Fine(st: State) {
    !st.died && !st.strayed
  }

  /** A pattern that the parser takes: written in the tokens, and in the parser's order. */
  ghost predicate Taken(toks: seq<Token>, c: Alts) {
    Written(toks, c) && OkA(c, START, false)
  }

  /** The parser comes to the end of the tokens, and nothing went wrong, exactly when a pattern in the
      parser's order is written there. Its tree is then the parser's tree of that pattern. */
  lemma ReadExactly(toks: seq<Token>)
    requires Lexed(toks)
    ensures AtEnd(toks, Read(toks)) && Fine(Read(toks).st) <==> exists c :: Taken(toks, c)
    ensures forall c :: Taken(toks, c) ==> Read(toks).node == BuildA(c, START, false).node
  {
    hide OkA, BuildA, AtA, LenA, ReadAlt;
    var o := Read(toks);
    if AtEnd(toks, o) && Fine(o.st) {
      var c := SoundA(toks, BEGIN);
      assert Taken(toks, c);
    }
    forall c | Taken(toks, c)
      ensures o == Reaches(BuildA(c, START, false), LenA(c), BEGIN)
    {
      CompleteA(toks, c, BEGIN);
    }
  }
}
