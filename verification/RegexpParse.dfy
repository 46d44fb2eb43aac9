/** The recursive-descent parser: from tokens to a syntax tree, allocating its nodes in an arena that
    was sized before parsing began. */
module RegexpParse {
  import opened RegexpAst
  import opened RegexpGrammar
  import opened RegexpRead

  /** The parser's globals. Arena nodes are values here, and `used` counts how many have been taken. After
      an error nodes and arena stay as they are. What stands behind `sub` in memory is not known. */
  class Parser {
    const toks: seq<Token>
    var at: nat
    var used: nat
    var nsub: nat
    var sub: seq<Node>
    var died: bool
    ghost var strayed: bool

    ghost function Now(): State
      reads this
    {
      State(at, Env(nsub, sub), died, strayed)
    }

    ghost predicate Valid()
      reads this
    {
      Lexed(toks) && Fit(toks, Now()) && forall i :: 0 <= i < MAXSUB ==> WellFormed(sub[i])
    }

    /** Two nodes for every token but the last; every token stands for at least one character. */
    ghost function Arena(): nat
      requires |toks| > 0
    {
      2 * (|toks| - 1)
    }

    /** The nodes taken for the tokens that have been read; one more at a bad back-reference, which the
        parser does not get past. */
    ghost predicate Room(r: Node)
      reads this
      requires at < |toks|
    {
      if r != Null then used < 2 * at else used <= 2 * at || (used == 2 * at + 1 && toks[at].BackRef?)
    }

    /** What every parsing step leaves, if `o` is what reading gives. */
    ghost predicate Done(r: Node, o: Out)
      reads this
    {
      Valid() && Out(r, Now()) == o && WellFormed(r)
    }

    constructor (toks: seq<Token>)
      requires Lexed(toks)
      ensures Valid() && this.toks == toks && Now() == BEGIN && used == 0
    {
      this.toks, at, used, nsub, died := toks, 0, 0, 1, false;
      sub := START.sub;
      strayed := false;
    }

    /** Every node is taken from within the arena. */
    method NewNode()
      requires Valid() && used < Arena()
      modifies this`used
      ensures used == old(used) + 1
    {
      used := used + 1;
    }

    method Accept(t: Token) returns (yes: bool)
      requires Valid() && !IsLast(t)
      modifies this`at
      ensures Valid() && yes == (toks[old(at)] == t)
      ensures Now() == if yes then Skip(toks, old(Now())) else old(Now())
    {
      yes := toks[at] == t;
      if yes { at := at + 1; }
    }

    method Fail()
      requires Valid()
      modifies this`died
      ensures Valid() && Now() == Die(old(Now()))
    {
      died := true;
    }

    method MakeRep(atom: Node, ng: bool, min: nat, max: nat) returns (r: Node)
      requires Valid() && used < Arena() && WellFormed(atom)
      requires min <= max <= REPINF && min < REPINF && 1 <= max
      modifies this`used, this`died
      ensures used == old(used) + 1 && Done(r, NewRep(atom, ng, min, max, old(Now())))
    {
      NewNode();
      if max == REPINF && Empty(atom) {
        Fail();
        return Null;
      }
      return Rep(atom, ng, min, max);
    }

    method ParseAtom() returns (r: Node)
      requires Valid() && used <= 2 * at
      modifies this`at, this`used, this`nsub, this`sub, this`died, this`strayed
      ensures Done(r, ReadAtom(toks, old(Now()))) && Room(r)
      decreases |toks| - at, 1
    {
      hide ReadAlt, WellFormed;
      var tok := toks[at];
      if tok.Lit? {
        NewNode();
        at := at + 1;
        EatsFine(tok.t);
        return if toks[at].Bad? then Null else Eat(tok.t);
      }
      if tok.BackRef? {
        NewNode();
        EatsFine(Any);
        if tok.k == 0 || tok.k > nsub {
          Fail();
          return Null;
        }
        if tok.k >= |sub| {
          strayed := true;
          return Null;
        }
        if sub[tok.k] == Null {
          Fail();
          return Null;
        }
        RefFine(tok.k, sub[tok.k]);
        at := at + 1;
        return if toks[at].Bad? then Null else Ref(tok.k, sub[tok.k]);
      }
      var yes := Accept(Dot);
      if yes {
        NewNode();
        EatsFine(Any);
        return Eat(Any);
      }
      if tok.Open? { r := ParseGroup(); } else { r := ParseBrackets(); }
    }

    method ParseGroup() returns (r: Node)
      requires Valid() && used <= 2 * at && toks[at].Open?
      modifies this`at, this`used, this`nsub, this`sub, this`died, this`strayed
      ensures Done(r, ReadAtom(toks, old(Now()))) && Room(r)
      decreases |toks| - at, 0
    {
      hide ReadAlt;
      var _ := Accept(Open);
      NewNode();
      if nsub == MAXSUB {
        Fail();
        return Null;
      }
      var n: Group := nsub;
      nsub := nsub + 1;
      var x := ParseAlt();
      var atom := Par(n, x);
      sub := sub[n := atom];
      r := Close(atom);
    }

    /** The closing bracket, or an error. */
    method Close(x: Node) returns (r: Node)
      requires Valid() && WellFormed(x) && (used <= 2 * at || (used == 2 * at + 1 && toks[at].BackRef?))
      modifies this`at, this`died
      ensures Done(r, Closed(toks, Out(x, old(Now())))) && Room(r)
    {
      var yes := Accept(Token.Close);
      if !yes {
        Fail();
        return Null;
      }
      return x;
    }

    method ParseBrackets() returns (r: Node)
      requires Valid() && used <= 2 * at && !toks[at].Lit? && !toks[at].BackRef? && !toks[at].Dot? && !toks[at].Open?
      modifies this`at, this`used, this`nsub, this`sub, this`died, this`strayed
      ensures Done(r, ReadAtom(toks, old(Now()))) && Room(r)
      decreases |toks| - at, 0
    {
      hide ReadAlt;
      var yes := Accept(OpenNc);
      if yes {
        r := ParseAlt();
        r := Close(r);
        return;
      }
      yes := Accept(OpenPla);
      if yes {
        NewNode();
        r := ParseAlt();
        r := Close(Pla(r));
        return;
      }
      yes := Accept(OpenNla);
      if yes {
        NewNode();
        r := ParseAlt();
        r := Close(Nla(r));
        return;
      }
      Fail();
      return Null;
    }

    /** An optional `?` for laziness, then the repeat. */
    method Repeat(atom: Node, min: nat, max: nat) returns (r: Node)
      requires Valid() && used <= 2 * at - 2 && WellFormed(atom)
      requires min <= max <= REPINF && min < REPINF && 1 <= max
      modifies this`at, this`used, this`died
      ensures var st, lazy := old(Now()), toks[old(at)].Quest?;
        Done(r, NewRep(atom, lazy, min, max, if lazy then Skip(toks, st) else st)) && used < 2 * at
    {
      var ng := Accept(Quest);
      r := MakeRep(atom, ng, min, max);
    }

    method ParseRep() returns (r: Node)
      requires Valid() && used <= 2 * at
      modifies this`at, this`used, this`nsub, this`sub, this`died, this`strayed
      ensures Done(r, ReadRep(toks, old(Now()))) && Room(r)
      decreases |toks| - at, 2
    {
      hide ReadAtom, WellFormed;
      if toks[at].Zero? {
        var a := toks[at].a;
        at := at + 1;
        NewNode();
        EdgeFine(a);
        return Assert(a);
      }
      r := ParseAtom();
      r := ParseQuantifier(r);
    }

    method ParseQuantifier(atom: Node) returns (r: Node)
      requires Valid() && WellFormed(atom) && Room(atom)
      modifies this`at, this`used, this`died
      ensures Done(r, ReadTimes(toks, Out(atom, old(Now())))) && Room(r)
    {
      hide NewRep, WellFormed;
      var tok := toks[at];
      if tok.Braces? {
        at := at + 1;
        EatsFine(Any);
        if toks[at].Bad? { return Null; }
        if tok.max < tok.min {
          Fail();
          return Null;
        }
        r := Repeat(atom, tok.min, tok.max);
        return;
      }
      var yes := Accept(Star);
      if yes {
        r := Repeat(atom, 0, REPINF);
        return;
      }
      yes := Accept(Plus);
      if yes {
        r := Repeat(atom, 1, REPINF);
        return;
      }
      yes := Accept(Quest);
      if yes {
        r := Repeat(atom, 0, 1);
        return;
      }
      return atom;
    }

    method ParseCat() returns (r: Node)
      requires Valid() && used <= 2 * at
      modifies this`at, this`used, this`nsub, this`sub, this`died, this`strayed
      ensures Done(r, ReadCat(toks, old(Now()))) && (used <= 2 * at || (used == 2 * at + 1 && toks[at].BackRef?))
      decreases |toks| - at, 3
    {
      hide ReadRep, WellFormed;
      EatsFine(Any);
      if EndsCat(toks[at]) { return Null; }
      r := ParseRep();
      if r == Null { return Null; }
      ghost var all := ReadMore(toks, Out(r, Now()));
      var head: seq<Node>, last := [], r;
      while !EndsCat(toks[at])
        invariant Valid() && old(at) < at && used < 2 * at && last != Null && WellFormed(last)
        invariant forall k :: 0 <= k < |head| ==> WellFormed(head[k])
        invariant all == Under(head, ReadMore(toks, Out(last, Now())))
        decreases |toks| - at
      {
        NewNode();
        r := ParseRep();
        if r == Null {
          UnderNothing(head, Out(r, Now()));
          return Null;
        }
        UnderMore(head, last, ReadMore(toks, Out(r, Now())));
        head, last := head + [last], r;
      }
      r := CatOf(head, last);
      CatFine(head, last);
      UnderCat(head, Out(last, Now()));
    }

    method ParseAlt() returns (r: Node)
      requires Valid() && used <= 2 * at
      modifies this`at, this`used, this`nsub, this`sub, this`died, this`strayed
      ensures Done(r, ReadAlt(toks, old(Now()))) && (used <= 2 * at || (used == 2 * at + 1 && toks[at].BackRef?))
      decreases |toks| - at, 4
    {
      hide ReadCat, ReadOr, WellFormed;
      ghost var all := ReadAlt(toks, Now());
      r := ParseCat();
      var more := Accept(Bar);
      while more
        invariant Valid() && old(at) + (if more then 1 else 0) <= at && WellFormed(r)
        invariant if more then used <= 2 * at - 2 else used <= 2 * at || (used == 2 * at + 1 && toks[at].BackRef?)
        invariant !more ==> !toks[at].Bar?
        invariant more ==> toks[at - 1].Bar?
        invariant all == ReadOr(toks, Out(r, if more then Now().(at := at - 1) else Now()))
        decreases |toks| - at, more
      {
        OrStep(toks, Out(r, Now().(at := at - 1)));
        NewNode();
        var y := ParseCat();
        AltFine(r, y);
        r := Alt(r, y);
        more := Accept(Bar);
      }
      OrStep(toks, Out(r, Now()));
    }
  }

  lemma OrStep(toks: seq<Token>, x: Out)
    requires Lexed(toks) && Fit(toks, x.st)
    ensures toks[x.st.at].Bar? ==>
      var y := ReadCat(toks, Skip(toks, x.st));
      ReadOr(toks, x) == ReadOr(toks, y.(node := Alt(x.node, y.node)))
    ensures !toks[x.st.at].Bar? ==> ReadOr(toks, x) == x
  {
    hide ReadCat;
  }

  // ----- sequences -----

  /** The right-leaning sequence of some nodes. */
  function CatOf(head: seq<Node>, last: Node): Node {
    if head == [] then last else Cat(head[0], CatOf(head[1..], last))
  }

  /** What has been read of a sequence behind its first nodes, seen from the front. */
  function Under(head: seq<Node>, o: Out): Out {
    o.(node := if o.node == Null then Null else CatOf(head, o.node))
  }

  lemma UnderNothing(head: seq<Node>, o: Out)
    requires o.node == Null
    ensures Under(head, o) == o
  {
  }

  lemma {:induction false} CatOfSnoc(head: seq<Node>, x: Node, last: Node)
    ensures CatOf(head + [x], last) == CatOf(head, Cat(x, last))
  {
    if head == [] {
      assert ([] + [x])[1..] == [];
    } else {
      assert (head + [x])[1..] == head[1..] + [x];
      CatOfSnoc(head[1..], x, last);
    }
  }

  lemma UnderMore(head: seq<Node>, x: Node, o: Out)
    ensures Under(head + [x], o) == Under(head, o.(node := if o.node == Null then Null else Cat(x, o.node)))
  {
    CatOfSnoc(head, x, o.node);
  }

  lemma UnderCat(head: seq<Node>, o: Out)
    requires o.node != Null
    ensures Under(head, o) == o.(node := CatOf(head, o.node))
  {
  }

  lemma {:induction false} CatFine(head: seq<Node>, last: Node)
    requires WellFormed(last) && forall k :: 0 <= k < |head| ==> WellFormed(head[k])
    ensures WellFormed(CatOf(head, last))
  {
    if head != [] { CatFine(head[1..], last); }
  }

  lemma AltFine(x: Node, y: Node)
    requires WellFormed(x) && WellFormed(y)
    ensures WellFormed(Alt(x, y))
  {
  }

  lemma EatsFine(t: Test)
    ensures WellFormed(Eat(t)) && WellFormed(Null)
  {
  }

  lemma RefFine(k: Group, x: Node)
    requires WellFormed(x)
    ensures WellFormed(Ref(k, x))
  {
  }

  lemma EdgeFine(a: Assertion)
    ensures WellFormed(Assert(a))
  {
  }
}
