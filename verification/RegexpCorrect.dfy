/** Compilation preserves meaning: a program run from the start of a tree's code succeeds exactly as
    if the tree's outcomes were tried in order from the end of its code. */
module RegexpCorrect {
  import opened RegexpAst
  import C = RegexpCompile
  import opened RegexpStops
  import opened RegexpMachine
  import opened RegexpMeaning
  import opened Wrappers

  /** The first of the states `l` from which the program, continuing at `pc`, succeeds. */
  ghost function First(code: seq<Inst>, s: Text, f: Mode, l: seq<St>, pc: nat): Option<Caps>
    requires Sound(code) && pc < |code|
    requires forall t :: t in l ==> t.pos <= |s|
  {
    if l == [] then None
    else
      var r := Run(code, s, f, pc, l[0]);
      if r.Some? then r else First(code, s, f, l[1..], pc)
  }

  lemma {:induction false} FirstAppend(code: seq<Inst>, s: Text, f: Mode, l: seq<St>, l': seq<St>, pc: nat)
    requires Sound(code) && pc < |code|
    requires forall t :: t in l ==> t.pos <= |s|
    requires forall t :: t in l' ==> t.pos <= |s|
    ensures var r := First(code, s, f, l, pc);
      First(code, s, f, l + l', pc) == if r.Some? then r else First(code, s, f, l', pc)
  {
    hide Run, Sound;
    if l == [] {
      assert l + l' == l';
    } else {
      FirstAppend(code, s, f, l[1..], l', pc);
      assert (l + l')[1..] == l[1..] + l';
    }
  }

  /** The two places agree on every state of the list. */
  lemma {:induction false} FirstSame(code: seq<Inst>, s: Text, f: Mode, l: seq<St>, pc: nat, pc': nat)
    requires Sound(code) && pc < |code| && pc' < |code|
    requires forall t :: t in l ==> t.pos <= |s|
    requires forall t :: t in l ==> Run(code, s, f, pc, t) == Run(code, s, f, pc', t)
    ensures First(code, s, f, l, pc) == First(code, s, f, l, pc')
  {
    hide Run, Sound;
    if l != [] {
      assert l[0] in l && forall t :: t in l[1..] ==> t in l;
      FirstSame(code, s, f, l[1..], pc, pc');
    }
  }

  /** A loop: its split at `b`, its body at `c`, its exit at `e`. The body ends just before the split,
      or in a jump to it. */
  ghost predicate LoopAt(code: seq<Inst>, x: Node, ng: bool, b: nat, c: nat, e: nat, icase: bool) {
    var t := c + C.Len(x);
    && b < |code| && e < |code| && t < |code|
    && code[b] == C.Choice(ng, c, e)
    && C.Emitted(code, x, c, icase)
    && (t == b || code[t] == Jump(b))
  }

  /** The code of `p` runs from `b` to `e`. */
  ghost predicate PartAt(code: seq<Inst>, p: Part, b: nat, e: nat, icase: bool) {
    b < |code| && e < |code| &&
    match p
    case One(node) => C.Emitted(code, node, b, icase) && e == b + C.Len(node)
    case Times(x, k) => C.EmittedCopies(code, x, k, b, icase) && e == b + C.Times(k, C.Len(x))
    case Opts(x, ng, k) => C.EmittedOptions(code, x, ng, k, b, icase) && e == b + C.Times(k, C.Len(x) + 1)
    case Nest(x, ng, _) => exists c: nat :: LoopAt(code, x, ng, b, c, e, icase)
  }

  ghost predicate Proper(p: Part) {
    Good(Base(p)) && (p.Nest? ==> !Empty(p.x))
  }

  /** A loop has been unrolled often enough. */
  ghost predicate Enough(s: Text, p: Part, pos: nat) {
    pos <= |s| && (p.Nest? ==> |s| - pos < p.k)
  }

  /** Every outcome of a tree that is not `Empty` lies further on. */
  lemma {:induction false} Progress(s: Text, f: Mode, node: Node, st: St)
    requires st.pos <= |s| && !Empty(node)
    ensures forall t :: t in Out(s, f, One(node), st) ==> t.pos > st.pos
    decreases node
  {
    match node {
      case Cat(x, y) =>
        var l := Out(s, f, One(x), st);
        if Empty(x) {
          forall t | t in l ensures forall u :: u in Out(s, f, One(y), t) ==> u.pos > t.pos {
            Progress(s, f, y, t);
          }
          StrictAll(s, f, One(y), l, st.pos);
        } else {
          Progress(s, f, x, st);
          StrictList(s, f, One(y), l, st.pos);
        }
      case Alt(x, y) => Progress(s, f, x, st); Progress(s, f, y, st);
      case Rep(x, ng, m, n) =>
        var l := Out(s, f, One(x), st);
        Progress(s, f, x, st);
        StrictList(s, f, Times(x, m - 1), l, st.pos);
        assert Out(s, f, Times(x, m), st) == OutAll(s, f, Times(x, m - 1), l, st.pos);
        StrictList(s, f, Rest(s, x, ng, m, n), Out(s, f, Times(x, m), st), st.pos);
      case Par(n, x) =>
        var st' := st.(caps := Opened(st.caps, n, st.pos));
        Progress(s, f, x, st');
        StrictClose(s, n, Out(s, f, One(x), st'), st.pos);
      case Eat(_) =>
      case Ref(_, _) =>
    }
  }

  lemma {:induction false} StrictList(s: Text, f: Mode, p: Part, l: seq<St>, from: nat)
    requires forall t :: t in l ==> from < t.pos <= |s|
    ensures forall t :: t in OutAll(s, f, p, l, from) ==> t.pos > from
  {
    hide Out;
    if l != [] {
      assert l[0] in l && forall t :: t in l[1..] ==> t in l;
      StrictList(s, f, p, l[1..], from);
    }
  }

  lemma {:induction false} StrictAll(s: Text, f: Mode, p: Part, l: seq<St>, from: nat)
    requires forall t :: t in l ==> from <= t.pos <= |s|
    requires forall t :: t in l ==> forall u :: u in Out(s, f, p, t) ==> u.pos > t.pos
    ensures forall t :: t in OutAll(s, f, p, l, from) ==> t.pos > from
  {
    hide Out;
    if l != [] {
      assert l[0] in l && forall t :: t in l[1..] ==> t in l;
      StrictAll(s, f, p, l[1..], from);
    }
  }

  lemma {:induction false} StrictClose(s: Text, n: Group, l: seq<St>, from: nat)
    requires forall t :: t in l ==> from < t.pos <= |s|
    ensures forall t :: t in CloseAll(s, n, l, from) ==> t.pos > from
  {
    if l != [] {
      assert l[0] in l && forall t :: t in l[1..] ==> t in l;
      StrictClose(s, n, l[1..], from);
    }
  }

  // ----- the theorem, part by part -----

  lemma {:induction false} Correct(code: seq<Inst>, s: Text, f: Mode, p: Part, b: nat, e: nat, st: St)
    requires Sound(code) && PartAt(code, p, b, e, f.folded) && Proper(p) && Enough(s, p, st.pos)
    ensures Run(code, s, f, b, st) == First(code, s, f, Out(s, f, p, st), e)
    decreases Base(p), Level(p), 0
  {
    hide Run, Out, First, Sound, C.Emitted, C.EmittedCopies, C.EmittedOptions, LoopAt, C.Len, C.Times, Good, Empty;
    match p {
      case One(node) =>
        OutIsOne(s, f, node, st);
        CorrectOne(code, s, f, node, b, st);
      case Times(x, k) => CorrectTimes(code, s, f, x, k, b, st);
      case Opts(x, ng, k) => CorrectOpts(code, s, f, x, ng, k, b, st);
      case Nest(x, ng, k) =>
        var c: nat :| LoopAt(code, x, ng, b, c, e, f.folded);
        CorrectNest(code, s, f, x, ng, k, b, c, e, st);
    }
  }

  /** A list of states at the start of `p`: the same as all their outcomes at its end. */
  lemma {:induction false} CorrectAll(code: seq<Inst>, s: Text, f: Mode, p: Part, b: nat, e: nat,
                                      l: seq<St>, from: nat)
    requires Sound(code) && PartAt(code, p, b, e, f.folded) && Proper(p)
    requires forall t :: t in l ==> from <= t.pos <= |s|
    requires forall t :: t in l ==> Enough(s, p, t.pos)
    ensures First(code, s, f, l, b) == First(code, s, f, OutAll(s, f, p, l, from), e)
    decreases Base(p), Level(p), 1, |l|
  {
    hide Run, Out, Sound, PartAt, Proper;
    InBounds(code, p, b, e, f.folded);
    if l != [] {
      assert l[0] in l && forall t :: t in l[1..] ==> t in l;
      Correct(code, s, f, p, b, e, l[0]);
      CorrectAll(code, s, f, p, b, e, l[1..], from);
      FirstAppend(code, s, f, Out(s, f, p, l[0]), OutAll(s, f, p, l[1..], from), e);
    }
  }

  lemma InBounds(code: seq<Inst>, p: Part, b: nat, e: nat, icase: bool)
    requires PartAt(code, p, b, e, icase)
    ensures b < |code| && e < |code|
  {
  }

  lemma CorrectOne(code: seq<Inst>, s: Text, f: Mode, node: Node, b: nat, st: St)
    requires Sound(code) && C.Emitted(code, node, b, f.folded) && Good(node) && b + C.Len(node) < |code|
    requires st.pos <= |s|
    ensures Run(code, s, f, b, st) == First(code, s, f, OutOne(s, f, node, st), b + C.Len(node))
    decreases node, 0, 9
  {
    hide Run, Out, OutOne, OutAll, First, Sound, C.Emitted, C.EmittedAlt, C.EmittedRep, C.EmittedBetween, C.Len,
      C.Times, C.TailLen, Good, Empty;
    Layout(code, node, b, f.folded);
    OutOneIs(s, f, node, st);
    var e := b + C.Len(node);
    match node {
      case Null => FirstOne(code, s, f, st, b);
      case Cat(x, y) => CorrectCat(code, s, f, x, y, b, st);
      case Alt(x, y) => CorrectAlt(code, s, f, x, y, b, st);
      case Rep(x, ng, m, n) => CorrectRep(code, s, f, x, ng, m, n, b, st);
      case Par(n, x) => CorrectPar(code, s, f, n, x, b, st);
      case Pla(x) => CorrectLook(code, s, f, IPla(b + 1, e), x, b, st);
      case Nla(x) => CorrectLook(code, s, f, INla(b + 1, e), x, b, st);
      case Eat(t) => CorrectEat(code, s, f, t, b, st);
      case Assert(a) => CorrectAssert(code, s, f, a, b, st);
    }
  }

  lemma OutIsOne(s: Text, f: Mode, node: Node, st: St)
    requires st.pos <= |s|
    ensures Out(s, f, One(node), st) == OutOne(s, f, node, st)
  {
  }

  lemma FirstOne(code: seq<Inst>, s: Text, f: Mode, st: St, pc: nat)
    requires Sound(code) && pc < |code| && st.pos <= |s|
    ensures First(code, s, f, [st], pc) == Run(code, s, f, pc, st)
    ensures First(code, s, f, [], pc) == None
  {
    hide Run, Sound;
    assert First(code, s, f, [st][1..], pc) == None;
  }

  /** The folded test of the instruction accepts what the test of the tree accepts. */
  lemma EatsAccepts(t: Test, s: Text, f: Mode, pos: nat)
    ensures Eats(Folded(t, f.folded), s, f, pos) <==> Accepts(t, s, f, pos)
    ensures Accepts(t, s, f, pos) ==> pos < |s|
  {
  }

  lemma CorrectEat(code: seq<Inst>, s: Text, f: Mode, t: Test, b: nat, st: St)
    requires Sound(code) && b + 1 < |code| && code[b] == IEat(Folded(t, f.folded)) && st.pos <= |s|
    ensures Run(code, s, f, b, st) == First(code, s, f, OutOne(s, f, Eat(t), st), b + 1)
  {
    hide Run, OutOne, First, Sound, Accepts, Eats, Folded;
    EatsAccepts(t, s, f, st.pos);
    RunEat(code, s, f, t, b, st);
    OutEat(s, f, t, st);
    FirstNone(code, s, f, b + 1);
    if st.pos < |s| { FirstOne(code, s, f, st.(pos := st.pos + 1), b + 1); }
  }

  lemma RunEat(code: seq<Inst>, s: Text, f: Mode, t: Test, b: nat, st: St)
    requires Sound(code) && b + 1 < |code| && code[b] == IEat(Folded(t, f.folded)) && st.pos <= |s|
    ensures Accepts(t, s, f, st.pos) ==>
      st.pos < |s| && Run(code, s, f, b, st) == Run(code, s, f, b + 1, st.(pos := st.pos + 1))
    ensures !Accepts(t, s, f, st.pos) ==> Run(code, s, f, b, st) == None
  {
    hide Accepts, Eats, Folded;
    EatsAccepts(t, s, f, st.pos);
  }

  lemma OutEat(s: Text, f: Mode, t: Test, st: St)
    requires st.pos <= |s|
    ensures OutOne(s, f, Eat(t), st) == if Accepts(t, s, f, st.pos) then [st.(pos := st.pos + 1)] else []
  {
    hide Accepts;
  }

  lemma CorrectAssert(code: seq<Inst>, s: Text, f: Mode, a: Assertion, b: nat, st: St)
    requires Sound(code) && b + 1 < |code| && code[b] == IAssert(a) && st.pos <= |s|
    ensures Run(code, s, f, b, st) == First(code, s, f, OutOne(s, f, Assert(a), st), b + 1)
  {
    hide First, Sound;
    FirstOne(code, s, f, st, b + 1);
  }

  lemma CorrectCat(code: seq<Inst>, s: Text, f: Mode, x: Node, y: Node, b: nat, st: St)
    requires Sound(code) && C.Emitted(code, x, b, f.folded) && C.Emitted(code, y, b + C.Len(x), f.folded)
    requires b + C.Len(x) + C.Len(y) < |code| && st.pos <= |s| && Good(x) && Good(y)
    ensures Run(code, s, f, b, st) ==
            First(code, s, f, OutAll(s, f, One(y), Out(s, f, One(x), st), st.pos), b + C.Len(x) + C.Len(y))
    decreases Cat(x, y), 0, 0
  {
    hide Run, Out, First, Sound, C.Emitted, C.Len, Good;
    var t := b + C.Len(x);
    Correct(code, s, f, One(x), b, t, st);
    CorrectAll(code, s, f, One(y), t, t + C.Len(y), Out(s, f, One(x), st), st.pos);
  }

  lemma CorrectAlt(code: seq<Inst>, s: Text, f: Mode, x: Node, y: Node, b: nat, st: St)
    requires Sound(code) && C.EmittedAlt(code, x, y, b, f.folded)
    requires b + C.Len(x) + C.Len(y) + 2 < |code| && st.pos <= |s| && Good(x) && Good(y)
    ensures Run(code, s, f, b, st) ==
            First(code, s, f, Out(s, f, One(x), st) + Out(s, f, One(y), st), b + C.Len(x) + C.Len(y) + 2)
    decreases Alt(x, y), 0, 0
  {
    hide Out, First, Sound, C.Emitted, C.Len, Good;
    var j := b + 1 + C.Len(x);
    var e := j + 1 + C.Len(y);
    var l := Out(s, f, One(x), st);
    Correct(code, s, f, One(x), b + 1, j, st);
    FirstSame(code, s, f, l, j, e);
    Correct(code, s, f, One(y), j + 1, e, st);
    FirstAppend(code, s, f, l, Out(s, f, One(y), st), e);
  }

  lemma CorrectPar(code: seq<Inst>, s: Text, f: Mode, n: Group, x: Node, b: nat, st: St)
    requires Sound(code) && C.EmittedBetween(code, LPar(n), x, RPar(n), b, f.folded)
    requires b + C.Len(x) + 2 < |code| && st.pos <= |s| && Good(x)
    ensures Run(code, s, f, b, st) == First(code, s, f, OutOne(s, f, Par(n, x), st), b + C.Len(x) + 2)
    decreases Par(n, x), 0, 0
  {
    hide Out, First, Sound, C.Emitted, C.Len, Good;
    var st' := st.(caps := Opened(st.caps, n, st.pos));
    Correct(code, s, f, One(x), b + 1, b + 1 + C.Len(x), st');
    FirstClose(code, s, f, n, Out(s, f, One(x), st'), st.pos, b + 1 + C.Len(x));
  }

  lemma {:induction false} FirstClose(code: seq<Inst>, s: Text, f: Mode, n: Group, l: seq<St>, from: nat, pc: nat)
    requires Sound(code) && pc + 1 < |code| && code[pc] == RPar(n)
    requires forall t :: t in l ==> from <= t.pos <= |s|
    ensures First(code, s, f, l, pc) == First(code, s, f, CloseAll(s, n, l, from), pc + 1)
  {
    hide Sound, Run, CloseAll, Closed;
    CloseFirst(s, n, l, from);
    if l != [] {
      assert l[0] in l && forall t :: t in l[1..] ==> t in l;
      CloseRuns(code, s, f, n, l[0], pc);
      FirstClose(code, s, f, n, l[1..], from, pc);
    }
  }

  lemma CloseFirst(s: Text, n: Group, l: seq<St>, from: nat)
    requires forall t :: t in l ==> from <= t.pos <= |s|
    ensures l == [] ==> CloseAll(s, n, l, from) == []
    ensures l != [] ==> var r := CloseAll(s, n, l, from);
      r != [] && r[0] == l[0].(caps := Closed(l[0].caps, n, l[0].pos)) && r[1..] == CloseAll(s, n, l[1..], from)
  {
    hide Closed;
  }

  lemma CloseRuns(code: seq<Inst>, s: Text, f: Mode, n: Group, st: St, pc: nat)
    requires Sound(code) && pc + 1 < |code| && code[pc] == RPar(n) && st.pos <= |s|
    ensures Run(code, s, f, pc, st) == Run(code, s, f, pc + 1, st.(caps := Closed(st.caps, n, st.pos)))
  {
    hide Closed;
  }

  lemma CorrectLook(code: seq<Inst>, s: Text, f: Mode, look: Inst, x: Node, b: nat, st: St)
    requires Sound(code) && C.EmittedBetween(code, look, x, End, b, f.folded)
    requires look == IPla(b + 1, b + 2 + C.Len(x)) || look == INla(b + 1, b + 2 + C.Len(x))
    requires b + C.Len(x) + 2 < |code| && st.pos <= |s| && Good(x)
    ensures Run(code, s, f, b, st) ==
            First(code, s, f, OutOne(s, f, if look.IPla? then Pla(x) else Nla(x), st), b + C.Len(x) + 2)
    decreases x, 9, 0
  {
    hide Out, Sound, C.Emitted, C.Len, Good, Run, First, OutOne;
    var l, e := Out(s, f, One(x), st), b + 1 + C.Len(x);
    Correct(code, s, f, One(x), b + 1, e, st);
    C.BetweenIs(code, look, x, End, b, f.folded);
    FirstEnd(code, s, f, l, e);
    RunLook(code, s, f, b, st);
    LookOut(s, f, x, st);
    if l != [] { FirstOne(code, s, f, st.(caps := l[0].caps), e + 1); }
    FirstOne(code, s, f, st, e + 1);
    FirstNone(code, s, f, e + 1);
  }

  /** The end of a lookahead keeps the captures of the first outcome. */
  lemma FirstEnd(code: seq<Inst>, s: Text, f: Mode, l: seq<St>, e: nat)
    requires Sound(code) && e < |code| && code[e] == End && forall t :: t in l ==> t.pos <= |s|
    ensures First(code, s, f, l, e) == if l == [] then None else Some(l[0].caps)
  {
    hide Sound;
  }

  lemma FirstNone(code: seq<Inst>, s: Text, f: Mode, pc: nat)
    requires Sound(code) && pc < |code|
    ensures First(code, s, f, [], pc) == None
  {
  }

  lemma RunLook(code: seq<Inst>, s: Text, f: Mode, b: nat, st: St)
    requires Sound(code) && b < |code| && st.pos <= |s|
    ensures forall x: nat, y: nat :: x < |code| && y < |code| && code[b] == IPla(x, y) ==>
      var r := Run(code, s, f, x, st);
      Run(code, s, f, b, st) == if r.None? then None else Run(code, s, f, y, st.(caps := r.value))
    ensures forall x: nat, y: nat :: x < |code| && y < |code| && code[b] == INla(x, y) ==>
      Run(code, s, f, b, st) == if Run(code, s, f, x, st).Some? then None else Run(code, s, f, y, st)
  {
    hide Sound;
  }

  lemma CorrectRep(code: seq<Inst>, s: Text, f: Mode, x: Node, ng: bool, m: nat, n: nat, b: nat, st: St)
    requires Sound(code) && C.EmittedRep(code, x, ng, m, n, b, f.folded)
    requires var e := b + C.Times(m, C.Len(x)) + C.TailLen(C.Len(x), m, n); e < |code|
    requires st.pos <= |s| && Good(x) && m <= n <= REPINF && m < REPINF && (n == REPINF ==> !Empty(x))
    ensures var e := b + C.Times(m, C.Len(x)) + C.TailLen(C.Len(x), m, n);
      Run(code, s, f, b, st) == First(code, s, f, OutOne(s, f, Rep(x, ng, m, n), st), e)
    decreases Rep(x, ng, m, n), 0, 0
  {
    hide Run, Out, First, Sound, C.Emitted, C.EmittedCopies, C.EmittedOptions, C.EmittedTail, C.Len, Good, Empty,
      C.Times, LoopAt, Enough;
    var t := b + C.Times(m, C.Len(x));
    var e := t + C.TailLen(C.Len(x), m, n);
    var rest := Rest(s, x, ng, m, n);
    TailPart(code, s, x, ng, m, n, b, f.folded);
    EnoughHere(s, x, ng, m, n, Out(s, f, Times(x, m), st));
    JustEnough(s, Times(x, m), st.pos);
    Correct(code, s, f, Times(x, m), b, t, st);
    CorrectAll(code, s, f, rest, t, e, Out(s, f, Times(x, m), st), st.pos);
  }

  lemma JustEnough(s: Text, p: Part, pos: nat)
    requires !p.Nest? && pos <= |s|
    ensures Enough(s, p, pos)
  {
  }

  lemma EnoughHere(s: Text, x: Node, ng: bool, m: nat, n: nat, l: seq<St>)
    requires forall t :: t in l ==> t.pos <= |s|
    ensures forall t :: t in l ==> Enough(s, Rest(s, x, ng, m, n), t.pos)
  {
  }

  /** Both kinds of unbounded repeat are loops. */
  lemma TailPart(code: seq<Inst>, s: Text, x: Node, ng: bool, m: nat, n: nat, b: nat, icase: bool)
    requires C.EmittedRep(code, x, ng, m, n, b, icase) && m <= n <= REPINF && m < REPINF
    requires var t := b + C.Times(m, C.Len(x)); t + C.TailLen(C.Len(x), m, n) < |code|
    ensures var t := b + C.Times(m, C.Len(x));
      PartAt(code, Rest(s, x, ng, m, n), t, t + C.TailLen(C.Len(x), m, n), icase)
  {
    hide C.Len, C.Emitted, C.EmittedOption, C.EmittedCopies, C.EmittedBetween;
    var t := b + C.Times(m, C.Len(x));
    if n == REPINF && m > 0 {
      LastCopy(code, x, m, b, icase);
      assert LoopAt(code, x, ng, t, t - C.Len(x), t + 1, icase);
    } else if n == REPINF && m == 0 {
      StarLoop(code, x, ng, n, b, icase);
    }
  }

  lemma StarLoop(code: seq<Inst>, x: Node, ng: bool, n: nat, b: nat, icase: bool)
    requires C.EmittedRep(code, x, ng, 0, n, b, icase) && n == REPINF && b + C.Len(x) + 2 < |code|
    ensures LoopAt(code, x, ng, b, b + 1, b + 2 + C.Len(x), icase)
  {
    C.StarTail(code, x, ng, n, b, icase);
    C.BetweenIs(code, C.Choice(ng, b + 1, b + 2 + C.Len(x)), x, Jump(b), b, icase);
  }

  /** A split towards `c` and `e`, in order of preference. */
  lemma ChoiceRuns(code: seq<Inst>, s: Text, f: Mode, ng: bool, b: nat, c: nat, e: nat, l: seq<St>, st: St)
    requires Sound(code) && b < |code| && c < |code| && e < |code| && code[b] == C.Choice(ng, c, e)
    requires st.pos <= |s| && forall t :: t in l ==> t.pos <= |s|
    requires Run(code, s, f, c, st) == First(code, s, f, l, e)
    ensures Run(code, s, f, b, st) == First(code, s, f, Prefer(ng, st, l), e)
  {
    hide First, Sound;
    FirstOne(code, s, f, st, e);
    FirstAppend(code, s, f, l, [st], e);
    FirstAppend(code, s, f, [st], l, e);
  }

  lemma CorrectTimes(code: seq<Inst>, s: Text, f: Mode, x: Node, k: nat, b: nat, st: St)
    requires Sound(code) && C.EmittedCopies(code, x, k, b, f.folded) && Good(x)
    requires b + C.Times(k, C.Len(x)) < |code| && st.pos <= |s|
    ensures Run(code, s, f, b, st) ==
            First(code, s, f, Out(s, f, Times(x, k), st), b + C.Times(k, C.Len(x)))
    decreases x, 1 + k, 2
  {
    hide Run, OutOne, First, Sound, C.Emitted, C.Len, Good;
    if k == 0 {
      FirstOne(code, s, f, st, b);
    } else {
      var t := b + C.Len(x);
      Correct(code, s, f, One(x), b, t, st);
      CorrectAll(code, s, f, Times(x, k - 1), t, b + C.Times(k, C.Len(x)), Out(s, f, One(x), st), st.pos);
    }
  }

  lemma CorrectOpts(code: seq<Inst>, s: Text, f: Mode, x: Node, ng: bool, k: nat, b: nat, st: St)
    requires Sound(code) && C.EmittedOptions(code, x, ng, k, b, f.folded) && Good(x)
    requires b + C.Times(k, C.Len(x) + 1) < |code| && st.pos <= |s|
    ensures Run(code, s, f, b, st) ==
            First(code, s, f, Out(s, f, Opts(x, ng, k), st), b + C.Times(k, C.Len(x) + 1))
    decreases x, 1 + k, 2
  {
    hide Run, Out, OutOne, OutAll, First, Sound, PartAt, Proper, Enough, LoopAt, C.EmittedOptions, C.Emitted,
      C.Choice, C.Len, C.Times, Good, Prefer;
    OutOpts(s, f, x, ng, k, st);
    var e := b + C.Times(k, C.Len(x) + 1);
    if k == 0 {
      C.TimesStep(0, C.Len(x) + 1);
      FirstOne(code, s, f, st, b);
    } else {
      var t := b + 1 + C.Len(x);
      var l := Prefer(ng, st, Out(s, f, One(x), st));
      OptionsLayout(code, x, ng, k, b, f.folded);
      PlainPart(s, One(x), [st]);
      PlainPart(s, Opts(x, ng, k - 1), l);
      Correct(code, s, f, One(x), b + 1, t, st);
      OutWithin(s, f, One(x), st);
      ChoiceRuns(code, s, f, ng, b, b + 1, t, Out(s, f, One(x), st), st);
      CorrectAll(code, s, f, Opts(x, ng, k - 1), t, e, l, st.pos);
    }
  }

  lemma OutWithin(s: Text, f: Mode, p: Part, st: St)
    requires st.pos <= |s|
    ensures forall t :: t in Out(s, f, p, st) ==> t.pos <= |s|
  {
  }

  /** An optional copy, then the others. */
  lemma OptionsLayout(code: seq<Inst>, x: Node, ng: bool, k: nat, b: nat, icase: bool)
    requires C.EmittedOptions(code, x, ng, k, b, icase) && k > 0 && b + C.Times(k, C.Len(x) + 1) < |code|
    ensures b + 1 + C.Len(x) < |code| && code[b] == C.Choice(ng, b + 1, b + 1 + C.Len(x))
    ensures PartAt(code, One(x), b + 1, b + 1 + C.Len(x), icase)
    ensures PartAt(code, Opts(x, ng, k - 1), b + 1 + C.Len(x), b + C.Times(k, C.Len(x) + 1), icase)
  {
    hide C.EmittedOptions, C.Emitted, C.Choice, C.Times, C.Len, LoopAt;
    C.OptionsStep(code, x, ng, k, b, icase);
    C.TimesStep(k, C.Len(x) + 1);
  }

  lemma PlainPart(s: Text, p: Part, l: seq<St>)
    requires !p.Nest? && Good(Base(p)) && forall t :: t in l ==> t.pos <= |s|
    ensures Proper(p) && forall t :: t in l ==> Enough(s, p, t.pos)
  {
  }

  lemma CorrectNest(code: seq<Inst>, s: Text, f: Mode, x: Node, ng: bool, k: nat, b: nat, c: nat, e: nat, st: St)
    requires Sound(code) && LoopAt(code, x, ng, b, c, e, f.folded) && Good(x) && !Empty(x)
    requires st.pos <= |s| && |s| - st.pos < k
    ensures Run(code, s, f, b, st) == First(code, s, f, Out(s, f, Nest(x, ng, k), st), e)
    decreases x, 1 + k, 2
  {
    hide Run, OutOne, First, Sound, C.Emitted, C.Len, Good, Empty, Prefer;
    var t := c + C.Len(x);
    var l := Out(s, f, One(x), st);
    Correct(code, s, f, One(x), c, t, st);
    LoopBack(code, s, f, x, ng, b, c, e, l);
    Progress(s, f, x, st);
    assert PartAt(code, Nest(x, ng, k - 1), b, e, f.folded);
    CorrectAll(code, s, f, Nest(x, ng, k - 1), b, e, l, st.pos);
    ChoiceRuns(code, s, f, ng, b, c, e, OutAll(s, f, Nest(x, ng, k - 1), l, st.pos), st);
  }

  lemma LoopBack(code: seq<Inst>, s: Text, f: Mode, x: Node, ng: bool, b: nat, c: nat, e: nat, l: seq<St>)
    requires Sound(code) && LoopAt(code, x, ng, b, c, e, f.folded)
    requires forall t :: t in l ==> t.pos <= |s|
    ensures First(code, s, f, l, c + C.Len(x)) == First(code, s, f, l, b)
  {
    hide First, Sound, C.Emitted, C.Len;
    FirstSame(code, s, f, l, c + C.Len(x), b);
  }
}
