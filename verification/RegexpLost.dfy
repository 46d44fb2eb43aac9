/** Which tokens are a pattern at all, which patterns the parser gets right, and which errors it loses. */
module RegexpLost {
  import opened RegexpAst
  import opened RegexpGrammar
  import opened RegexpRead
  import opened RegexpDrops

  // ----- brackets and quantifiers -----

  /** How many brackets are open in front of a token. */
  function Depth(toks: seq<Token>, i: nat): int
    requires i <= |toks|
  {
    if i == 0 then 0
    else Depth(toks, i - 1) + if IsOpen(toks[i - 1]) then 1 else if toks[i - 1].Close? then -1 else 0
  }

  /** Every bracket is closed, and none is closed that was not opened. */
  predicate Matched(toks: seq<Token>) {
    (forall i :: 0 <= i <= |toks| ==> Depth(toks, i) >= 0) && Depth(toks, |toks|) == 0
  }

  predicate EndsAtom(t: Token) {
    t.Lit? || t.BackRef? || t.Dot? || t.Close?
  }

  /** A quantifier behind an atom, or a `?` behind the quantifier of an atom. */
  predicate Repeats(toks: seq<Token>, i: nat)
    requires i < |toks|
  {
    i > 0 &&
    (EndsAtom(toks[i - 1]) || (i > 1 && toks[i].Quest? && IsQuantifier(toks[i - 1]) && EndsAtom(toks[i - 2])))
  }

  predicate Placed(toks: seq<Token>) {
    forall i :: 0 <= i < |toks| && IsQuantifier(toks[i]) ==> Repeats(toks, i)
  }

  /** There was no lexical error, brackets match, and quantifiers stand behind what they repeat. */
  predicate WellPlaced(toks: seq<Token>) {
    Lexed(toks) && toks[|toks| - 1].Eof? && Matched(toks) && Placed(toks)
  }

  lemma DepthStep(toks: seq<Token>, i: nat)
    requires i < |toks|
    ensures Depth(toks, i + 1) == Depth(toks, i) + if IsOpen(toks[i]) then 1 else if toks[i].Close? then -1 else 0
  {
  }

  lemma DepthAt(toks: seq<Token>, i: nat)
    requires WellPlaced(toks) && i < |toks|
    ensures Depth(toks, i) >= 0 && (toks[i].Close? ==> Depth(toks, i) > 0) && (toks[i].Eof? ==> Depth(toks, i) == 0)
    ensures IsQuantifier(toks[i]) ==> Repeats(toks, i)
    ensures !toks[i].Bad?
    ensures i == |toks| - 1 <==> toks[i].Eof?
  {
    hide Depth, Repeats;
    DepthStep(toks, i);
    assert Depth(toks, i + 1) >= 0;
  }

  // ----- such tokens are a pattern -----

  lemma {:induction false} WriteA(toks: seq<Token>, a: nat) returns (c: Alts)
    requires WellPlaced(toks) && a < |toks| && StartsCat(toks, a)
    ensures AtA(toks, c, a) && Stops(toks, a + LenA(c)) && !toks[a + LenA(c)].Bar?
    ensures Depth(toks, a + LenA(c)) == Depth(toks, a)
    decreases |toks| - a, 3
  {
    hide AtC, LenC, WellPlaced, Depth;
    StartNotRepeated(toks, a);
    var first := WriteC(toks, a);
    var m := a + LenC(first);
    if toks[m].Bar? {
      DepthStep(toks, m);
      DepthAt(toks, m);
      var rest := WriteA(toks, m + 1);
      c := Or(first, rest);
    } else {
      c := Only(first);
    }
  }

  lemma StartNotRepeated(toks: seq<Token>, a: nat)
    requires WellPlaced(toks) && a < |toks| && StartsCat(toks, a)
    ensures !IsQuantifier(toks[a])
  {
    hide Matched;
  }

  lemma {:induction false} WriteC(toks: seq<Token>, a: nat) returns (c: Cats)
    requires WellPlaced(toks) && a < |toks| && !IsQuantifier(toks[a])
    ensures AtC(toks, c, a) && Stops(toks, a + LenC(c)) && Depth(toks, a + LenC(c)) == Depth(toks, a)
    decreases |toks| - a, 2
  {
    hide AtI, LenI, WellPlaced, Depth;
    if EndsCat(toks[a]) { return Nothing; }
    var i := WriteI(toks, a);
    var rest := WriteC(toks, a + LenI(i));
    c := More(i, rest);
  }

  lemma {:induction false} WriteI(toks: seq<Token>, a: nat) returns (i: Item)
    requires WellPlaced(toks) && a < |toks| && !IsQuantifier(toks[a]) && !EndsCat(toks[a])
    ensures AtI(toks, i, a) && a + LenI(i) < |toks| && !IsQuantifier(toks[a + LenI(i)])
    ensures Depth(toks, a + LenI(i)) == Depth(toks, a)
    decreases |toks| - a, 1
  {
    hide AtX, LenX, WellPlaced, Depth;
    DepthAt(toks, a);
    DepthStep(toks, a);
    if toks[a].Zero? {
      DepthAt(toks, a + 1);
      return Edge(toks[a].a);
    }
    var x := WriteX(toks, a);
    var q := WriteQ(toks, a + LenX(x));
    i := Times(x, q);
  }

  lemma WriteQ(toks: seq<Token>, a: nat) returns (q: Quant)
    requires WellPlaced(toks) && 0 < a < |toks| && EndsAtom(toks[a - 1])
    ensures AtQ(toks, q, a) && a + LenQ(q) < |toks| && !IsQuantifier(toks[a + LenQ(q)])
    ensures Depth(toks, a + LenQ(q)) == Depth(toks, a)
  {
    hide WellPlaced, Depth;
    if !IsQuantifier(toks[a]) { return Once; }
    DepthAt(toks, a);
    DepthStep(toks, a);
    DepthAt(toks, a + 1);
    if !toks[a + 1].Quest? { return Many(toks[a], false); }
    DepthStep(toks, a + 1);
    DepthAt(toks, a + 2);
    return Many(toks[a], true);
  }

  lemma {:induction false} WriteX(toks: seq<Token>, a: nat) returns (x: Atom)
    requires WellPlaced(toks) && a < |toks| && !IsQuantifier(toks[a]) && !EndsCat(toks[a]) && !toks[a].Zero?
    ensures AtX(toks, x, a) && a + LenX(x) < |toks| && EndsAtom(toks[a + LenX(x) - 1])
    ensures Depth(toks, a + LenX(x)) == Depth(toks, a)
    decreases |toks| - a, 0
  {
    hide AtA, LenA, WellPlaced, Depth;
    DepthAt(toks, a);
    DepthStep(toks, a);
    var t := toks[a];
    if t.Lit? { return One(t.t); }
    if t.BackRef? { return Back(t.k); }
    if t.Dot? { return AnyOne; }
    var body := WriteA(toks, a + 1);
    var m := a + 1 + LenA(body);
    DepthAt(toks, m);
    DepthStep(toks, m);
    return Bracket(KindOf(t), body);
  }

  function KindOf(t: Token): Kind {
    if t.Open? then Capture else if t.OpenNc? then NoCapture else if t.OpenPla? then Ahead else NotAhead
  }

  // ----- and patterns are such tokens -----

  /** From `a` to `b` every bracket is closed and quantifiers stand behind what they repeat. */
  ghost predicate Tame(toks: seq<Token>, a: nat, b: nat) {
    a <= b <= |toks| && Depth(toks, b) == Depth(toks, a) &&
    forall i :: a <= i < b ==> Depth(toks, i) >= Depth(toks, a) && (IsQuantifier(toks[i]) ==> Repeats(toks, i))
  }

  lemma TameJoins(toks: seq<Token>, a: nat, b: nat, c: nat)
    requires Tame(toks, a, b) && Tame(toks, b, c)
    ensures Tame(toks, a, c)
  {
    hide Depth, Repeats;
  }

  lemma TameToken(toks: seq<Token>, a: nat)
    requires a < |toks| && !IsOpen(toks[a]) && !toks[a].Close? && (IsQuantifier(toks[a]) ==> Repeats(toks, a))
    ensures Tame(toks, a, a + 1)
  {
    hide Repeats;
    DepthStep(toks, a);
  }

  lemma TameNone(toks: seq<Token>, a: nat)
    requires a <= |toks|
    ensures Tame(toks, a, a)
  {
  }

  lemma TameBrackets(toks: seq<Token>, a: nat, b: nat)
    requires a < |toks| && b < |toks| && IsOpen(toks[a]) && toks[b].Close? && Tame(toks, a + 1, b)
    ensures Tame(toks, a, b + 1)
  {
    hide Repeats, Depth;
    DepthStep(toks, a);
    DepthStep(toks, b);
  }

  lemma {:induction false} TameA(toks: seq<Token>, c: Alts, a: nat)
    requires a <= |toks| && AtA(toks, c, a)
    ensures Tame(toks, a, a + LenA(c))
    decreases c
  {
    hide AtC, LenC, Tame;
    var m := a + LenC(c.first);
    TameC(toks, c.first, a);
    if c.Or? {
      TameToken(toks, m);
      TameA(toks, c.rest, m + 1);
      TameJoins(toks, a, m, m + 1);
      TameJoins(toks, a, m + 1, a + LenA(c));
    }
  }

  lemma {:induction false} TameC(toks: seq<Token>, c: Cats, a: nat)
    requires a <= |toks| && AtC(toks, c, a)
    ensures Tame(toks, a, a + LenC(c))
    decreases c
  {
    hide AtI, LenI, Tame;
    if c.Nothing? {
      TameNone(toks, a);
    } else {
      ItemTail(toks, c.item, a);
      TameI(toks, c.item, a);
      TameC(toks, c.rest, a + LenI(c.item));
      TameJoins(toks, a, a + LenI(c.item), a + LenC(c));
    }
  }

  lemma {:induction false} TameI(toks: seq<Token>, i: Item, a: nat)
    requires AtI(toks, i, a)
    ensures Tame(toks, a, a + LenI(i))
    decreases i
  {
    hide AtX, LenX, Tame;
    if i.Edge? {
      TameToken(toks, a);
    } else {
      var m := a + LenX(i.atom);
      TameX(toks, i.atom, a);
      AtomEnds(toks, i.atom, a);
      TameQ(toks, i.q, m);
      TameJoins(toks, a, m, a + LenI(i));
    }
  }

  lemma AtomEnds(toks: seq<Token>, x: Atom, a: nat)
    requires AtX(toks, x, a)
    ensures a + LenX(x) <= |toks| && EndsAtom(toks[a + LenX(x) - 1])
  {
  }

  lemma TameQ(toks: seq<Token>, q: Quant, a: nat)
    requires 0 < a <= |toks| && EndsAtom(toks[a - 1]) && AtQ(toks, q, a)
    ensures Tame(toks, a, a + LenQ(q))
  {
    hide Tame;
    if q.Once? {
      TameNone(toks, a);
    } else {
      TameToken(toks, a);
      if q.lazy {
        TameToken(toks, a + 1);
        TameJoins(toks, a, a + 1, a + 2);
      }
    }
  }

  lemma {:induction false} TameX(toks: seq<Token>, x: Atom, a: nat)
    requires AtX(toks, x, a)
    ensures Tame(toks, a, a + LenX(x))
    decreases x
  {
    hide AtA, LenA, Tame;
    if x.Bracket? {
      TameA(toks, x.body, a + 1);
      TameBrackets(toks, a, a + 1 + LenA(x.body));
    } else {
      TameToken(toks, a);
    }
  }

  /** A pattern is written in the tokens exactly when there was no lexical error, brackets match, and
      quantifiers stand behind what they repeat. */
  lemma WrittenExactly(toks: seq<Token>)
    requires Lexed(toks)
    ensures WellPlaced(toks) <==> exists c :: Written(toks, c)
  {
    hide AtA, LenA, Depth, Repeats;
    if WellPlaced(toks) {
      var c := WriteA(toks, 0);
      DepthNone(toks);
      DepthAt(toks, LenA(c));
      assert Written(toks, c);
    }
    if c :| Written(toks, c) {
      TameA(toks, c, 0);
      DepthNone(toks);
      DepthStep(toks, LenA(c));
    }
  }

  lemma DepthNone(toks: seq<Token>)
    ensures Depth(toks, 0) == 0
  {
  }

  // ----- what the parser gets right -----

  /** The pattern that is written in the tokens is in order: at most nine groups, back-references to closed
      groups only, bounds in order, and no unbounded repeat of what can match nothing. */
  ghost predicate InOrder(toks: seq<Token>) {
    forall c :: Written(toks, c) ==> OkA(c, START, true)
  }

  ghost predicate ReadsRight(toks: seq<Token>)
    requires Lexed(toks)
  {
    exists c :: Written(toks, c) && Right(toks, c)
  }

  /** The parser reads the tokens as the pattern that is written there exactly when one is, it is in order,
      and no item that is nothing stands beside another one. */
  lemma ReadsRightExactly(toks: seq<Token>)
    requires Lexed(toks)
    ensures ReadsRight(toks) <==> WellPlaced(toks) && InOrder(toks) && !Beside(toks)
  {
    hide Written, OkA, Right, Beside, WellPlaced;
    WrittenExactly(toks);
    if ReadsRight(toks) {
      var c :| Written(toks, c) && Right(toks, c);
      TreeExactly(toks, c);
      forall d | Written(toks, d) ensures OkA(d, START, true) { WrittenOnce(toks, c, d); }
    }
    if WellPlaced(toks) && InOrder(toks) && !Beside(toks) {
      var c :| Written(toks, c);
      TreeExactly(toks, c);
    }
  }

  // ----- errors that are lost -----

  /** The parser comes to the end of the tokens although it takes no pattern there. */
  ghost predicate Lost(toks: seq<Token>)
    requires Lexed(toks)
  {
    AtEnd(toks, Read(toks)) && !Read(toks).st.strayed && !exists c :: Taken(toks, c)
  }

  /** An error is lost exactly when the parser has met one and still comes to the end. */
  lemma LostExactly(toks: seq<Token>)
    requires Lexed(toks)
    ensures Lost(toks) <==> AtEnd(toks, Read(toks)) && !Read(toks).st.strayed && Read(toks).st.died
  {
    hide Read, Taken;
    ReadExactly(toks);
  }

  /** None is where brackets match, quantifiers are placed, the pattern is in order, and no item that is
      nothing stands beside another one. */
  lemma NothingLost(toks: seq<Token>)
    requires WellPlaced(toks) && InOrder(toks) && !Beside(toks)
    ensures !Lost(toks)
  {
    hide WellPlaced, InOrder, Beside, Read, Right;
    assert Lexed(toks) by { PlacedLexed(toks); }
    ReadsRightExactly(toks);
    var c :| Written(toks, c) && Right(toks, c);
    RightFine(toks, c);
    LostExactly(toks);
  }

  lemma PlacedLexed(toks: seq<Token>)
    requires WellPlaced(toks)
    ensures Lexed(toks)
  {
  }

  lemma RightFine(toks: seq<Token>, c: Alts)
    requires Lexed(toks) && Right(toks, c)
    ensures Fine(Read(toks).st)
  {
    hide Read;
  }

  /** That happens: an open group is taken for the empty pattern. */
  lemma OpenGroupIsLost(t: Test)
    ensures var toks := [Open, Lit(t), Eof]; Lexed(toks) && Lost(toks) && Read(toks).node == Null
  {
    var toks := [Open, Lit(t), Eof];
    var s0 := BEGIN;
    var s1 := State(1, START.(n := 2), false, false);
    var s2 := State(2, START.(n := 2), false, false);
    assert ReadAtom(toks, s1) == Out(Eat(t), s2);
    assert ReadRep(toks, s1) == Out(Eat(t), s2);
    assert ReadCat(toks, s1) == Out(Eat(t), s2);
    assert ReadAlt(toks, s1) == Out(Eat(t), s2);
    assert ReadAtom(toks, s0).node == Null && ReadAtom(toks, s0).st.died && ReadAtom(toks, s0).st.at == 2;
    assert ReadRep(toks, s0) == ReadAtom(toks, s0);
    assert ReadCat(toks, s0) == ReadRep(toks, s0);
    assert ReadAlt(toks, s0) == ReadCat(toks, s0);
    LostExactly(toks);
  }
}
