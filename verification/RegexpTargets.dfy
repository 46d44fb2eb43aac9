/** Where a compiled tree may lead: its own instructions, or the one behind them. Back-references are
    included. */
module RegexpTargets {
  import opened RegexpAst
  import opened RegexpCompile

  /** Every place the instruction may lead to is in the program. */
  predicate Inside(code: seq<Inst>, pc: nat)
    requires pc < |code|
  {
    match code[pc]
    case End => true
    case Jump(x) => x < |code|
    case Split(x, y) => x < |code| && y < |code|
    case IPla(x, y) => x < |code| && y < |code|
    case INla(x, y) => x < |code| && y < |code|
    case _ => pc + 1 < |code|
  }

  ghost predicate AllInside(code: seq<Inst>, b: nat, t: nat) {
    t <= |code| && forall pc :: b <= pc < t ==> Inside(code, pc)
  }

  lemma {:induction false} TreeInside(code: seq<Inst>, node: Node, b: nat, icase: bool)
    requires Emitted(code, node, b, icase) && b + Len(node) < |code|
    ensures AllInside(code, b, b + Len(node))
    decreases node, 4, 0
  {
    hide Emitted, EmittedAlt, EmittedRep, EmittedBetween, Times, TailLen, AllInside;
    EmittedIs(code, node, b, icase);
    match node {
      case Cat(x, y) =>
        CatParts(code, x, y, b, icase);
        TreeInside(code, x, b, icase);
        TreeInside(code, y, b + Len(x), icase);
        BothInside(code, b, b + Len(x), b + Len(node));
      case Alt(x, y) => AltInside(code, x, y, b, icase);
      case Rep(x, ng, m, n) => RepInside(code, x, ng, m, n, b, icase);
      case Par(n, x) => BetweenInside(code, LPar(n), x, RPar(n), b, icase);
      case Pla(x) => BetweenInside(code, IPla(b + 1, b + 2 + Len(x)), x, End, b, icase);
      case Nla(x) => BetweenInside(code, INla(b + 1, b + 2 + Len(x)), x, End, b, icase);
      case _ => AtomInside(code, node, b, icase);
    }
  }

  lemma BothInside(code: seq<Inst>, b: nat, mid: nat, e: nat)
    requires AllInside(code, b, mid) && AllInside(code, mid, e)
    ensures AllInside(code, b, e)
  {
    hide Inside;
  }

  lemma AtomInside(code: seq<Inst>, node: Node, b: nat, icase: bool)
    requires node.Null? || node.Eat? || node.Assert? || node.Ref?
    requires Emitted(code, node, b, icase) && b + Len(node) < |code|
    ensures AllInside(code, b, b + Len(node))
  {
  }

  lemma {:induction false} AltInside(code: seq<Inst>, x: Node, y: Node, b: nat, icase: bool)
    requires EmittedAlt(code, x, y, b, icase) && b + Len(x) + Len(y) + 2 < |code|
    ensures AllInside(code, b, b + Len(x) + Len(y) + 2)
    decreases Alt(x, y), 1, 0
  {
    hide Emitted, Len;
    TreeInside(code, x, b + 1, icase);
    TreeInside(code, y, b + 2 + Len(x), icase);
  }

  lemma {:induction false} BetweenInside(code: seq<Inst>, pre: Inst, x: Node, post: Inst, b: nat, icase: bool)
    requires EmittedBetween(code, pre, x, post, b, icase) && b + Len(x) + 2 < |code|
    requires pre.LPar? || ((pre.IPla? || pre.INla? || pre.Split?) && pre.x < |code| && pre.y < |code|)
    requires post.RPar? || post.End? || (post.Jump? && post.x < |code|)
    ensures AllInside(code, b, b + Len(x) + 2)
    decreases x, 5, 0
  {
    hide Emitted, Len;
    TreeInside(code, x, b + 1, icase);
  }

  lemma {:induction false} RepInside(code: seq<Inst>, x: Node, ng: bool, m: nat, n: nat, b: nat, icase: bool)
    requires EmittedRep(code, x, ng, m, n, b, icase) && b + Times(m, Len(x)) + TailLen(Len(x), m, n) < |code|
    ensures AllInside(code, b, b + Times(m, Len(x)) + TailLen(Len(x), m, n))
    decreases x, 7, 0
  {
    hide Emitted, Len, EmittedCopies, EmittedOptions, EmittedBetween, Times;
    var t := b + Times(m, Len(x));
    CopiesInside(code, x, m, b, icase);
    if m == n {
    } else if n < REPINF {
      if m < n { OptionsInside(code, x, ng, n - m, t, icase); }
    } else if m == 0 {
      BetweenInside(code, Choice(ng, t + 1, t + 2 + Len(x)), x, Jump(t), t, icase);
    } else {
      assert Inside(code, t);
    }
  }

  lemma {:induction false} CopiesInside(code: seq<Inst>, x: Node, k: nat, b: nat, icase: bool)
    requires EmittedCopies(code, x, k, b, icase) && b + Times(k, Len(x)) < |code|
    ensures AllInside(code, b, b + Times(k, Len(x)))
    decreases x, 5, k
  {
    hide Emitted, Len;
    if k > 0 {
      TreeInside(code, x, b, icase);
      CopiesInside(code, x, k - 1, b + Len(x), icase);
    }
  }

  lemma {:induction false} OptionsInside(code: seq<Inst>, x: Node, ng: bool, k: nat, b: nat, icase: bool)
    requires EmittedOptions(code, x, ng, k, b, icase) && b + Times(k, Len(x) + 1) < |code|
    ensures AllInside(code, b, b + Times(k, Len(x) + 1))
    decreases x, 5, k
  {
    hide Emitted, Len;
    if k > 0 {
      TreeInside(code, x, b + 1, icase);
      OptionsInside(code, x, ng, k - 1, b + 1 + Len(x), icase);
    }
  }
}
