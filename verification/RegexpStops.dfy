/** Why the machine always stops: from no instruction can it run forever without consuming a
    character. Loops keep this because the parser refuses to repeat, without limit, anything that
    may match the empty string. */
module RegexpStops {
  import opened RegexpAst
  import opened RegexpCompile

  /** From `pc`, at most `k` instructions in a row leave the position alone, and none of them leads
      out of the program or the capture table. Back-references are not covered. */
  ghost predicate Within(code: seq<Inst>, pc: nat, k: nat)
    decreases k
  {
    pc < |code| && k > 0 &&
    match code[pc]
    case End => true
    case Jump(x) => Within(code, x, k - 1)
    case Split(x, y) => Within(code, x, k - 1) && Within(code, y, k - 1)
    case IPla(x, y) => Within(code, x, k - 1) && Within(code, y, k - 1)
    case INla(x, y) => Within(code, x, k - 1) && Within(code, y, k - 1)
    case IEat(_) => pc + 1 < |code|
    case IAssert(_) => Within(code, pc + 1, k - 1)
    case LPar(n) => n < MAXSUB && Within(code, pc + 1, k - 1)
    case RPar(n) => n < MAXSUB && Within(code, pc + 1, k - 1)
    case IRef(_) => false
  }

  /** The trees that the results on running programs are about. */
  ghost predicate Good(node: Node) {
    WellFormed(node) && NoRef(node)
  }

  /** A compiled tree, one level deep. */
  lemma Layout(code: seq<Inst>, node: Node, b: nat, icase: bool)
    requires Emitted(code, node, b, icase) && Good(node)
    ensures b + Len(node) <= |code|
    ensures match node
      case Null => Len(node) == 0
      case Cat(x, y) =>
        && Len(node) == Len(x) + Len(y) && Good(x) && Good(y)
        && Emitted(code, x, b, icase) && Emitted(code, y, b + Len(x), icase)
      case Alt(x, y) =>
        Len(node) == Len(x) + Len(y) + 2 && Good(x) && Good(y) && EmittedAlt(code, x, y, b, icase)
      case Rep(x, ng, m, n) =>
        && Len(node) == Times(m, Len(x)) + TailLen(Len(x), m, n)
        && Good(x) && m <= n <= REPINF && m < REPINF && (n == REPINF ==> !Empty(x))
        && EmittedRep(code, x, ng, m, n, b, icase)
      case Par(n, x) =>
        Len(node) == Len(x) + 2 && Good(x) && EmittedBetween(code, LPar(n), x, RPar(n), b, icase)
      case Pla(x) =>
        && Len(node) == Len(x) + 2 && Good(x)
        && EmittedBetween(code, IPla(b + 1, b + 2 + Len(x)), x, End, b, icase)
      case Nla(x) =>
        && Len(node) == Len(x) + 2 && Good(x)
        && EmittedBetween(code, INla(b + 1, b + 2 + Len(x)), x, End, b, icase)
      case Eat(t) => Len(node) == 1 && code[b] == IEat(Folded(t, icase))
      case Assert(a) => Len(node) == 1 && code[b] == IAssert(a)
      case Ref(_, _) => false
  {
    hide EmittedAlt, EmittedRep, EmittedBetween, Times, TailLen, Empty;
  }

  ghost predicate Stops(code: seq<Inst>, pc: nat) {
    exists k: nat :: Within(code, pc, k)
  }

  ghost predicate AllStop(code: seq<Inst>, b: nat, t: nat) {
    forall pc :: b <= pc < t ==> Stops(code, pc)
  }

  lemma {:induction false} WithinMore(code: seq<Inst>, pc: nat, k: nat, k': nat)
    requires Within(code, pc, k) && k <= k'
    ensures Within(code, pc, k')
    decreases k
  {
    match code[pc]
    case End =>
    case Jump(x) => WithinMore(code, x, k - 1, k' - 1);
    case Split(x, y) => WithinMore(code, x, k - 1, k' - 1); WithinMore(code, y, k - 1, k' - 1);
    case IPla(x, y) => WithinMore(code, x, k - 1, k' - 1); WithinMore(code, y, k - 1, k' - 1);
    case INla(x, y) => WithinMore(code, x, k - 1, k' - 1); WithinMore(code, y, k - 1, k' - 1);
    case IEat(_) =>
    case IAssert(_) => WithinMore(code, pc + 1, k - 1, k' - 1);
    case LPar(_) => WithinMore(code, pc + 1, k - 1, k' - 1);
    case RPar(_) => WithinMore(code, pc + 1, k - 1, k' - 1);
  }

  /** The two successors of a branching instruction. */
  predicate Branches(i: Inst, x: nat, y: nat) {
    i == Split(x, y) || i == Split(y, x) || i == IPla(x, y) || i == INla(x, y)
  }

  lemma BranchStops(code: seq<Inst>, pc: nat, x: nat, y: nat)
    requires pc < |code| && Branches(code[pc], x, y)
    requires Stops(code, x) && Stops(code, y)
    ensures Stops(code, pc)
  {
    var i: nat :| Within(code, x, i);
    var j: nat :| Within(code, y, j);
    WithinMore(code, x, i, i + j);
    WithinMore(code, y, j, i + j);
    assert Within(code, pc, i + j + 1);
  }

  /** Instructions with one zero-width successor. */
  lemma StepStops(code: seq<Inst>, pc: nat, x: nat)
    requires pc < |code| && Stops(code, x)
    requires match code[pc]
      case Jump(t) => x == t
      case IAssert(_) => x == pc + 1
      case LPar(n) => x == pc + 1 && n < MAXSUB
      case RPar(n) => x == pc + 1 && n < MAXSUB
      case _ => false
    ensures Stops(code, pc)
  {
    var i: nat :| Within(code, x, i);
    assert Within(code, pc, i + 1);
  }

  lemma EaterStops(code: seq<Inst>, pc: nat)
    requires pc < |code| && (code[pc].End? || (code[pc].IEat? && pc + 1 < |code|))
    ensures Stops(code, pc)
  {
    assert Within(code, pc, 1);
  }

  // ----- trees that cannot match the empty string stop whatever follows them -----

  lemma {:induction false} NonEmptyStops(code: seq<Inst>, node: Node, b: nat, icase: bool)
    requires Emitted(code, node, b, icase) && Good(node) && !Empty(node)
    requires b + Len(node) < |code|
    ensures Stops(code, b)
    decreases node, 2, 0
  {
    hide Stops, AllStop, Emitted, EmittedAlt, EmittedRep, EmittedBetween, Len, Times, TailLen, Good;
    Layout(code, node, b, icase);
    match node {
      case Cat(x, y) =>
        if Empty(x) {
          NonEmptyStops(code, y, b + Len(x), icase);
          EmptyFirstStops(code, x, b, icase);
        } else {
          NonEmptyStops(code, x, b, icase);
        }
      case Alt(x, y) => NonEmptyAltStops(code, x, y, b, icase);
      case Rep(x, ng, m, n) => NonEmptyRepStops(code, x, ng, m, n, b, icase);
      case Par(n, x) => NonEmptyParStops(code, n, x, b, icase);
      case Eat(_) => EaterStops(code, b);
    }
  }

  lemma EmptyFirstStops(code: seq<Inst>, x: Node, b: nat, icase: bool)
    requires Emitted(code, x, b, icase) && Good(x) && Stops(code, b + Len(x))
    ensures Stops(code, b)
    decreases x, 2, 2
  {
    hide Stops, Len, Emitted, Good;
    TreeStops(code, x, b, icase);
  }

  lemma NonEmptyAltStops(code: seq<Inst>, x: Node, y: Node, b: nat, icase: bool)
    requires EmittedAlt(code, x, y, b, icase) && b + Len(x) + Len(y) + 2 < |code|
    requires Good(x) && !Empty(x) && Good(y) && !Empty(y)
    ensures Stops(code, b)
    decreases Alt(x, y), 0, 0
  {
    hide Stops, Len, Emitted, Good, Empty;
    NonEmptyStops(code, x, b + 1, icase);
    NonEmptyStops(code, y, b + 2 + Len(x), icase);
    BranchStops(code, b, b + 1, b + 2 + Len(x));
  }

  lemma NonEmptyRepStops(code: seq<Inst>, x: Node, ng: bool, m: nat, n: nat, b: nat, icase: bool)
    requires EmittedRep(code, x, ng, m, n, b, icase) && b + Times(m, Len(x)) < |code|
    requires Good(x) && !Empty(x) && m > 0
    ensures Stops(code, b)
    decreases x, 4, 0
  {
    hide Stops, Len, Emitted, EmittedTail, Good, Empty;
    NonEmptyStops(code, x, b, icase);
  }

  lemma NonEmptyParStops(code: seq<Inst>, n: Group, x: Node, b: nat, icase: bool)
    requires EmittedBetween(code, LPar(n), x, RPar(n), b, icase)
    requires Good(x) && !Empty(x)
    ensures Stops(code, b)
    decreases x, 4, 0
  {
    hide Stops, Len, Emitted, Good, Empty;
    NonEmptyStops(code, x, b + 1, icase);
    StepStops(code, b, b + 1);
  }

  // ----- and every tree stops everywhere if what follows it does -----

  lemma {:induction false} TreeStops(code: seq<Inst>, node: Node, b: nat, icase: bool)
    requires Emitted(code, node, b, icase) && Good(node)
    requires Stops(code, b + Len(node))
    ensures AllStop(code, b, b + Len(node) + 1)
    decreases node, 2, 1
  {
    hide Stops, AllStop, Emitted, EmittedAlt, EmittedRep, EmittedBetween, Empty, Len, Times, TailLen, Good;
    Layout(code, node, b, icase);
    match node {
      case Null => JustExit(code, b);
      case Cat(x, y) => CatStops(code, x, y, b, icase);
      case Alt(x, y) => AltStops(code, x, y, b, icase);
      case Rep(x, ng, m, n) => RepStops(code, x, ng, m, n, b, icase);
      case Par(n, x) => ParStops(code, n, x, b, icase);
      case Pla(x) => LookStops(code, IPla(b + 1, b + 2 + Len(x)), x, b, icase);
      case Nla(x) => LookStops(code, INla(b + 1, b + 2 + Len(x)), x, b, icase);
      case Eat(_) => LeafStops(code, b);
      case Assert(_) => LeafStops(code, b);
    }
  }

  lemma JustExit(code: seq<Inst>, pc: nat)
    requires Stops(code, pc)
    ensures AllStop(code, pc, pc + 1)
  {
  }

  lemma CatStops(code: seq<Inst>, x: Node, y: Node, b: nat, icase: bool)
    requires Emitted(code, x, b, icase) && Emitted(code, y, b + Len(x), icase)
    requires Good(x) && Good(y)
    requires Stops(code, b + Len(x) + Len(y))
    ensures AllStop(code, b, b + Len(x) + Len(y) + 1)
    decreases Cat(x, y), 1, 0
  {
    hide Stops, Len, Emitted, Good;
    TreeStops(code, y, b + Len(x), icase);
    TreeStops(code, x, b, icase);
  }

  lemma LeafStops(code: seq<Inst>, b: nat)
    requires b < |code| && (code[b].IEat? || code[b].IAssert?) && Stops(code, b + 1)
    ensures AllStop(code, b, b + 2)
  {
    hide Stops;
    StopsInside(code, b + 1);
    if code[b].IEat? { EaterStops(code, b); } else { StepStops(code, b, b + 1); }
  }

  lemma AltStops(code: seq<Inst>, x: Node, y: Node, b: nat, icase: bool)
    requires EmittedAlt(code, x, y, b, icase) && Stops(code, b + Len(x) + Len(y) + 2)
    requires Good(x) && Good(y)
    ensures AllStop(code, b, b + Len(x) + Len(y) + 3)
    decreases Alt(x, y), 1, 0
  {
    hide Stops, Len, Emitted, Good;
    var j := b + 1 + Len(x);
    StepStops(code, j, j + 1 + Len(y));
    TreeStops(code, x, b + 1, icase);
    TreeStops(code, y, j + 1, icase);
    BranchStops(code, b, b + 1, j + 1);
  }

  lemma RepStops(code: seq<Inst>, x: Node, ng: bool, m: nat, n: nat, b: nat, icase: bool)
    requires EmittedRep(code, x, ng, m, n, b, icase)
    requires Good(x) && m <= n <= REPINF && m < REPINF && (n == REPINF ==> !Empty(x))
    requires Stops(code, b + Times(m, Len(x)) + TailLen(Len(x), m, n))
    ensures AllStop(code, b, b + Times(m, Len(x)) + TailLen(Len(x), m, n) + 1)
    decreases x, 6, 0
  {
    hide Stops, Len, EmittedCopies, EmittedTail, Times, TailLen, Good;
    TailStops(code, x, ng, m, n, b, icase);
    CopiesStop(code, x, m, b, icase);
  }

  lemma ParStops(code: seq<Inst>, n: Group, x: Node, b: nat, icase: bool)
    requires EmittedBetween(code, LPar(n), x, RPar(n), b, icase)
    requires Good(x) && Stops(code, b + 2 + Len(x))
    ensures AllStop(code, b, b + 3 + Len(x))
    decreases x, 4, 0
  {
    hide Stops, Len, Emitted, Good;
    StepStops(code, b + 1 + Len(x), b + 2 + Len(x));
    TreeStops(code, x, b + 1, icase);
    StepStops(code, b, b + 1);
  }

  lemma StopsInside(code: seq<Inst>, pc: nat)
    requires Stops(code, pc)
    ensures pc < |code|
  {
  }

  lemma LookStops(code: seq<Inst>, look: Inst, x: Node, b: nat, icase: bool)
    requires EmittedBetween(code, look, x, End, b, icase) && Good(x)
    requires Branches(look, b + 1, b + 2 + Len(x)) && Stops(code, b + 2 + Len(x))
    ensures AllStop(code, b, b + 3 + Len(x))
    decreases x, 4, 0
  {
    hide Stops, Len, Emitted, Good;
    EaterStops(code, b + 1 + Len(x));
    TreeStops(code, x, b + 1, icase);
    BranchStops(code, b, b + 1, b + 2 + Len(x));
  }

  lemma {:induction false} CopiesStop(code: seq<Inst>, x: Node, k: nat, b: nat, icase: bool)
    requires EmittedCopies(code, x, k, b, icase) && Good(x)
    requires Stops(code, b + Times(k, Len(x)))
    ensures AllStop(code, b, b + Times(k, Len(x)) + 1)
    decreases x, 3, k
  {
    hide Stops, Len, Emitted, Good;
    if k > 0 {
      CopiesStop(code, x, k - 1, b + Len(x), icase);
      TreeStops(code, x, b, icase);
    }
  }

  lemma {:induction false} OptionsStop(code: seq<Inst>, x: Node, ng: bool, k: nat, b: nat, icase: bool)
    requires EmittedOptions(code, x, ng, k, b, icase) && Good(x)
    requires Stops(code, b + Times(k, Len(x) + 1))
    ensures AllStop(code, b, b + Times(k, Len(x) + 1) + 1)
    decreases x, 3, k
  {
    hide Stops, Len, Emitted, Good;
    if k > 0 {
      OptionsStop(code, x, ng, k - 1, b + 1 + Len(x), icase);
      TreeStops(code, x, b + 1, icase);
      BranchStops(code, b, b + 1, b + 1 + Len(x));
    }
  }

  /** A loop stops because its body does not match the empty string. */
  lemma StarStops(code: seq<Inst>, x: Node, ng: bool, b: nat, icase: bool)
    requires EmittedBetween(code, Choice(ng, b + 1, b + 2 + Len(x)), x, Jump(b), b, icase)
    requires Good(x) && !Empty(x)
    requires Stops(code, b + 2 + Len(x))
    ensures AllStop(code, b, b + 3 + Len(x))
    decreases x, 4, 0
  {
    hide Stops, Len, Emitted, Good, Empty;
    NonEmptyStops(code, x, b + 1, icase);
    BranchStops(code, b, b + 1, b + 2 + Len(x));
    StepStops(code, b + 1 + Len(x), b);
    TreeStops(code, x, b + 1, icase);
  }

  lemma {:induction false} LastCopy(code: seq<Inst>, x: Node, k: nat, b: nat, icase: bool)
    requires k > 0 && EmittedCopies(code, x, k, b, icase)
    ensures var t := b + Times(k, Len(x)); Len(x) <= t && Emitted(code, x, t - Len(x), icase)
    decreases k
  {
    hide Len, Emitted;
    if k > 1 { LastCopy(code, x, k - 1, b + Len(x), icase); }
  }

  lemma TailStops(code: seq<Inst>, x: Node, ng: bool, m: nat, n: nat, b: nat, icase: bool)
    requires EmittedCopies(code, x, m, b, icase)
    requires EmittedTail(code, x, ng, m, n, b + Times(m, Len(x)), icase)
    requires Good(x) && m <= n <= REPINF && m < REPINF && (n == REPINF ==> !Empty(x))
    requires Stops(code, b + Times(m, Len(x)) + TailLen(Len(x), m, n))
    ensures var t := b + Times(m, Len(x)); AllStop(code, t, t + TailLen(Len(x), m, n) + 1)
    decreases x, 5, 0
  {
    hide Stops, Len, Emitted, Good, Empty, EmittedOptions, EmittedBetween, EmittedCopies, Times, EmittedOption;
    var t := b + Times(m, Len(x));
    if m < n < REPINF {
      OptionsStop(code, x, ng, n - m, t, icase);
    } else if n == REPINF {
      if m == 0 {
        StarStops(code, x, ng, t, icase);
      } else {
        LastCopy(code, x, m, b, icase);
        NonEmptyStops(code, x, t - Len(x), icase);
        BranchStops(code, t, t - Len(x), t + 1);
      }
    }
  }
}
