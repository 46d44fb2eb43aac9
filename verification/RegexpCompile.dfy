/** From syntax tree to program: `count` sizes the program, `compile` emits it. `Code` says which
    instructions a tree becomes at a given address; the in-place compiler is proved against it. */
module RegexpCompile {
  import opened RegexpAst
  import opened Wrappers

  /** Number of instructions emitted for `k` copies of something of length `l`. */
  function Times(k: nat, l: nat): nat {
    if k == 0 then 0 else l + Times(k - 1, l)
  }

  /** Number of instructions after the `m` mandatory copies of a repeat. */
  function TailLen(l: nat, m: nat, n: nat): nat {
    if m == n then 0
    else if n < REPINF then (if m < n then Times(n - m, l + 1) else 0)
    else if m == 0 then l + 2
    else 1
  }

  function Len(node: Node): nat {
    match node
    case Null => 0
    case Cat(x, y) => Len(x) + Len(y)
    case Alt(x, y) => Len(x) + Len(y) + 2
    case Rep(x, _, m, n) =>
      Times(m, Len(x)) + TailLen(Len(x), m, n)
    case Par(_, x) => Len(x) + 2
    case Pla(x) => Len(x) + 2
    case Nla(x) => Len(x) + 2
    case _ => 1
  }

  /** A split that prefers `go`, or `skip` when the quantifier is lazy. */
  function Choice(ng: bool, go: nat, skip: nat): Inst {
    if ng then Split(skip, go) else Split(go, skip)
  }

  // ----- what a tree compiles to -----

  /** The program holds the instructions of `node` from address `b` on. */
  ghost predicate Emitted(code: seq<Inst>, node: Node, b: nat, icase: bool)
    decreases node, 2, 0
  {
    b + Len(node) <= |code| &&
    match node
    case Null => true
    case Cat(x, y) => Emitted(code, x, b, icase) && Emitted(code, y, b + Len(x), icase)
    case Alt(x, y) => EmittedAlt(code, x, y, b, icase)
    case Rep(x, ng, m, n) => EmittedRep(code, x, ng, m, n, b, icase)
    case Par(n, x) => EmittedBetween(code, LPar(n), x, RPar(n), b, icase)
    case Pla(x) => EmittedBetween(code, IPla(b + 1, b + 2 + Len(x)), x, End, b, icase)
    case Nla(x) => EmittedBetween(code, INla(b + 1, b + 2 + Len(x)), x, End, b, icase)
    case Eat(t) => code[b] == IEat(Folded(t, icase))
    case Assert(a) => code[b] == IAssert(a)
    case Ref(n, _) => code[b] == IRef(n)
  }

  ghost predicate EmittedAlt(code: seq<Inst>, x: Node, y: Node, b: nat, icase: bool)
    decreases Alt(x, y), 1, 0
  {
    var j := b + 1 + Len(x);
    && j + 1 + Len(y) <= |code|
    && code[b] == Split(b + 1, j + 1)
    && code[j] == Jump(j + 1 + Len(y))
    && Emitted(code, x, b + 1, icase)
    && Emitted(code, y, j + 1, icase)
  }

  ghost predicate EmittedRep(code: seq<Inst>, x: Node, ng: bool, m: nat, n: nat, b: nat, icase: bool)
    decreases x, 5, 0
  {
    && EmittedCopies(code, x, m, b, icase)
    && EmittedTail(code, x, ng, m, n, b + Times(m, Len(x)), icase)
  }

  /** `x` between two instructions of its own. */
  ghost predicate EmittedBetween(code: seq<Inst>, pre: Inst, x: Node, post: Inst, b: nat, icase: bool)
    decreases x, 3, 0
  {
    var t := b + 1 + Len(x);
    t < |code| && code[b] == pre && code[t] == post && Emitted(code, x, b + 1, icase)
  }

  /** `k` copies of `x` in a row. */
  ghost predicate EmittedCopies(code: seq<Inst>, x: Node, k: nat, b: nat, icase: bool)
    decreases x, 3, k
  {
    k > 0 ==> Emitted(code, x, b, icase) && EmittedCopies(code, x, k - 1, b + Len(x), icase)
  }

  /** `k` optional copies of `x` in a row, each skipping to the next. */
  ghost predicate EmittedOptions(code: seq<Inst>, x: Node, ng: bool, k: nat, b: nat, icase: bool)
    decreases x, 3, k
  {
    k > 0 ==>
      && EmittedOption(code, x, ng, b, icase)
      && EmittedOptions(code, x, ng, k - 1, b + 1 + Len(x), icase)
  }

  ghost predicate EmittedOption(code: seq<Inst>, x: Node, ng: bool, b: nat, icase: bool)
    decreases x, 2, 1
  {
    b < |code| && code[b] == Choice(ng, b + 1, b + 1 + Len(x)) && Emitted(code, x, b + 1, icase)
  }

  /** What follows the `m` mandatory copies of a repeat: nothing, optional copies, a loop around one
      more copy, or a jump back to the last mandatory copy. */
  ghost predicate EmittedTail(code: seq<Inst>, x: Node, ng: bool, m: nat, n: nat, b: nat, icase: bool)
    decreases x, 4, 0
  {
    if m == n then true
    else if n < REPINF then (m < n ==> EmittedOptions(code, x, ng, n - m, b, icase))
    else if m == 0 then EmittedBetween(code, Choice(ng, b + 1, b + 2 + Len(x)), x, Jump(b), b, icase)
    else Len(x) <= b < |code| && code[b] == Choice(ng, b - Len(x), b + 1)
  }

  lemma StarTail(code: seq<Inst>, x: Node, ng: bool, n: nat, b: nat, icase: bool)
    requires EmittedRep(code, x, ng, 0, n, b, icase) && n == REPINF
    ensures EmittedBetween(code, Choice(ng, b + 1, b + 2 + Len(x)), x, Jump(b), b, icase)
  {
    hide Emitted, EmittedBetween, EmittedOptions, Len;
  }

  lemma OptionsStep(code: seq<Inst>, x: Node, ng: bool, k: nat, b: nat, icase: bool)
    requires EmittedOptions(code, x, ng, k, b, icase) && k > 0
    ensures var t := b + 1 + Len(x);
      b < |code| && code[b] == Choice(ng, b + 1, t) && Emitted(code, x, b + 1, icase) &&
      EmittedOptions(code, x, ng, k - 1, t, icase)
  {
    hide Emitted, Choice, Len;
  }

  lemma TimesStep(k: nat, l: nat)
    ensures Times(k, l) == if k == 0 then 0 else l + Times(k - 1, l)
  {
  }

  lemma BetweenIs(code: seq<Inst>, pre: Inst, x: Node, post: Inst, b: nat, icase: bool)
    requires EmittedBetween(code, pre, x, post, b, icase)
    ensures var t := b + 1 + Len(x);
      t < |code| && code[b] == pre && code[t] == post && Emitted(code, x, b + 1, icase)
  {
  }

  // ----- only the instructions in the tree's own range matter -----

  ghost predicate SameRange(code: seq<Inst>, code': seq<Inst>, b: nat, t: nat) {
    t <= |code| && t <= |code'| && forall i :: b <= i < t ==> code'[i] == code[i]
  }

  lemma SubRange(code: seq<Inst>, code': seq<Inst>, b: nat, t: nat, b': nat, t': nat)
    requires SameRange(code, code', b, t) && b <= b' <= t' <= t
    ensures SameRange(code, code', b', t')
  {
  }

  /** Patching the split and the jump leaves both branches alone. */
  lemma Ranges(withX: seq<Inst>, withY: seq<Inst>, code: seq<Inst>, split: nat, jump: nat)
    requires split < jump == |withX| < |withY| == |code| && withX <= withY
    requires forall i :: 0 <= i < |code| && i != split && i != jump ==> code[i] == withY[i]
    ensures SameRange(withX, code, split + 1, jump) && SameRange(withY, code, jump + 1, |withY|)
  {
  }

  lemma IsAlt(code: seq<Inst>, x: Node, y: Node, b: nat, icase: bool)
    requires var j := b + 1 + Len(x);
      && j + 1 + Len(y) <= |code|
      && code[b] == Split(b + 1, j + 1)
      && code[j] == Jump(j + 1 + Len(y))
      && Emitted(code, x, b + 1, icase)
      && Emitted(code, y, j + 1, icase)
    ensures EmittedAlt(code, x, y, b, icase)
  {
  }

  lemma InRange(code: seq<Inst>, code': seq<Inst>, b: nat, t: nat)
    requires SameRange(code, code', b, t)
    ensures t <= |code'| && (b < t ==> code'[b] == code[b])
  {
  }

  lemma {:induction false} EmittedFrame(code: seq<Inst>, code': seq<Inst>, node: Node, b: nat, icase: bool)
    requires Emitted(code, node, b, icase) && SameRange(code, code', b, b + Len(node))
    ensures Emitted(code', node, b, icase)
    decreases node, 2, 0
  {
    hide Emitted, Len, SameRange;
    if node.Cat? {
      CatLen(node.x, node.y);
      CatFrame(code, code', node.x, node.y, b, icase);
    } else {
      OtherFrame(code, code', node, b, icase);
    }
  }

  lemma CatParts(code: seq<Inst>, x: Node, y: Node, b: nat, icase: bool)
    requires Emitted(code, Cat(x, y), b, icase)
    ensures Emitted(code, x, b, icase) && Emitted(code, y, b + Len(x), icase) && b + Len(x) + Len(y) <= |code|
  {
    hide EmittedAlt, EmittedRep, EmittedBetween, Len;
    CatLen(x, y);
  }

  lemma CatFrame(code: seq<Inst>, code': seq<Inst>, x: Node, y: Node, b: nat, icase: bool)
    requires Emitted(code, Cat(x, y), b, icase) && SameRange(code, code', b, b + Len(x) + Len(y))
    ensures Emitted(code', Cat(x, y), b, icase)
    decreases Cat(x, y), 1, 0
  {
    hide *;
    CatParts(code, x, y, b, icase);
    SubRange(code, code', b, b + Len(x) + Len(y), b, b + Len(x));
    SubRange(code, code', b, b + Len(x) + Len(y), b + Len(x), b + Len(x) + Len(y));
    EmittedFrame(code, code', x, b, icase);
    EmittedFrame(code, code', y, b + Len(x), icase);
    InRange(code, code', b, b + Len(x) + Len(y));
    CatEmitted(code', x, y, b, icase);
  }

  lemma OtherFrame(code: seq<Inst>, code': seq<Inst>, node: Node, b: nat, icase: bool)
    requires !node.Cat? && Emitted(code, node, b, icase) && SameRange(code, code', b, b + Len(node))
    ensures Emitted(code', node, b, icase)
    decreases node, 1, 1
  {
    hide Emitted, EmittedAlt, EmittedRep, EmittedBetween, Times, TailLen, SameRange;
    InRange(code, code', b, b + Len(node));
    EmittedIs(code, node, b, icase);
    EmittedIs(code', node, b, icase);
    match node {
      case Alt(x, y) => AltFrame(code, code', x, y, b, icase);
      case Rep(x, ng, m, n) => RepFrame(code, code', x, ng, m, n, b, icase);
      case Par(n, x) => BetweenFrame(code, code', LPar(n), x, RPar(n), b, icase);
      case Pla(x) => BetweenFrame(code, code', IPla(b + 1, b + 2 + Len(x)), x, End, b, icase);
      case Nla(x) => BetweenFrame(code, code', INla(b + 1, b + 2 + Len(x)), x, End, b, icase);
      case _ => AtomFrame(code, code', node, b, icase);
    }
  }

  lemma EmittedIs(code: seq<Inst>, node: Node, b: nat, icase: bool)
    ensures node.Alt? || node.Rep? || node.Par? || node.Pla? || node.Nla? ==>
      (Emitted(code, node, b, icase) ==> b + Len(node) <= |code|)
    ensures b + Len(node) <= |code| ==>
      && (node.Alt? ==> Emitted(code, node, b, icase) == EmittedAlt(code, node.x, node.y, b, icase))
      && (node.Rep? ==> Emitted(code, node, b, icase) == EmittedRep(code, node.x, node.ng, node.m, node.n, b, icase))
      && (node.Par? ==>
           Emitted(code, node, b, icase) ==
           EmittedBetween(code, LPar(node.g), node.x, RPar(node.g), b, icase))
      && (node.Pla? ==>
           Emitted(code, node, b, icase) ==
           EmittedBetween(code, IPla(b + 1, b + 2 + Len(node.x)), node.x, End, b, icase))
      && (node.Nla? ==>
           Emitted(code, node, b, icase) ==
           EmittedBetween(code, INla(b + 1, b + 2 + Len(node.x)), node.x, End, b, icase))
  {
    hide EmittedAlt, EmittedRep, EmittedBetween, Times, TailLen;
  }

  lemma AtomFrame(code: seq<Inst>, code': seq<Inst>, node: Node, b: nat, icase: bool)
    requires node.Null? || node.Eat? || node.Assert? || node.Ref?
    requires Emitted(code, node, b, icase) && SameRange(code, code', b, b + Len(node))
    ensures Emitted(code', node, b, icase)
  {
    hide SameRange;
    InRange(code, code', b, b + Len(node));
  }

  lemma AltFrame(code: seq<Inst>, code': seq<Inst>, x: Node, y: Node, b: nat, icase: bool)
    requires EmittedAlt(code, x, y, b, icase) && SameRange(code, code', b, b + Len(x) + Len(y) + 2)
    ensures EmittedAlt(code', x, y, b, icase)
    decreases Alt(x, y), 1, 0
  {
    hide Emitted, Len;
    EmittedFrame(code, code', x, b + 1, icase);
    EmittedFrame(code, code', y, b + 2 + Len(x), icase);
  }

  lemma BetweenFrame(code: seq<Inst>, code': seq<Inst>, pre: Inst, x: Node, post: Inst, b: nat, icase: bool)
    requires EmittedBetween(code, pre, x, post, b, icase) && SameRange(code, code', b, b + Len(x) + 2)
    ensures EmittedBetween(code', pre, x, post, b, icase)
    decreases x, 3, 0
  {
    hide Emitted, Len;
    EmittedFrame(code, code', x, b + 1, icase);
  }

  lemma RepFrame(code: seq<Inst>, code': seq<Inst>, x: Node, ng: bool, m: nat, n: nat, b: nat, icase: bool)
    requires EmittedRep(code, x, ng, m, n, b, icase)
    requires SameRange(code, code', b, b + Times(m, Len(x)) + TailLen(Len(x), m, n))
    ensures EmittedRep(code', x, ng, m, n, b, icase)
    decreases x, 5, 0
  {
    hide Emitted, EmittedCopies, EmittedTail, Times, TailLen, Len;
    CopiesFrame(code, code', x, m, b, icase);
    TailFrame(code, code', x, ng, m, n, b + Times(m, Len(x)), icase);
  }

  lemma {:induction false} CopiesFrame(code: seq<Inst>, code': seq<Inst>, x: Node, k: nat, b: nat, icase: bool)
    requires EmittedCopies(code, x, k, b, icase) && SameRange(code, code', b, b + Times(k, Len(x)))
    ensures EmittedCopies(code', x, k, b, icase)
    decreases x, 3, k
  {
    hide Emitted, Len;
    if k > 0 {
      EmittedFrame(code, code', x, b, icase);
      CopiesFrame(code, code', x, k - 1, b + Len(x), icase);
    }
  }

  lemma {:induction false} OptionsFrame(code: seq<Inst>, code': seq<Inst>, x: Node, ng: bool, k: nat, b: nat,
                                        icase: bool)
    requires EmittedOptions(code, x, ng, k, b, icase) && SameRange(code, code', b, b + Times(k, Len(x) + 1))
    ensures EmittedOptions(code', x, ng, k, b, icase)
    decreases x, 3, k
  {
    hide Emitted, Len;
    if k > 0 {
      EmittedFrame(code, code', x, b + 1, icase);
      OptionsFrame(code, code', x, ng, k - 1, b + 1 + Len(x), icase);
    }
  }

  lemma TailFrame(code: seq<Inst>, code': seq<Inst>, x: Node, ng: bool, m: nat, n: nat, b: nat, icase: bool)
    requires EmittedTail(code, x, ng, m, n, b, icase) && SameRange(code, code', b, b + TailLen(Len(x), m, n))
    ensures EmittedTail(code', x, ng, m, n, b, icase)
    decreases x, 4, 0
  {
    hide Emitted, Len, Times, EmittedOptions, EmittedOption, EmittedBetween;
    if m != n {
      if n < REPINF {
        if m < n { OptionsFrame(code, code', x, ng, n - m, b, icase); }
      } else if m == 0 {
        BetweenFrame(code, code', Choice(ng, b + 1, b + 2 + Len(x)), x, Jump(b), b, icase);
      }
    }
  }

  // ----- appending at the end, as the compiler's loops do -----

  lemma {:induction false} TimesSnoc(k: nat, l: nat)
    ensures Times(k + 1, l) == Times(k, l) + l
  {
    if k > 0 { TimesSnoc(k - 1, l); }
  }

  lemma {:induction false} CopiesSnoc(code: seq<Inst>, x: Node, k: nat, b: nat, icase: bool)
    requires EmittedCopies(code, x, k, b, icase) && Emitted(code, x, b + Times(k, Len(x)), icase)
    ensures EmittedCopies(code, x, k + 1, b, icase)
    decreases k
  {
    hide Emitted, Len;
    if k > 0 { CopiesSnoc(code, x, k - 1, b + Len(x), icase); }
  }

  lemma {:induction false} OptionsSnoc(code: seq<Inst>, x: Node, ng: bool, k: nat, b: nat, icase: bool)
    requires EmittedOptions(code, x, ng, k, b, icase)
    requires EmittedOption(code, x, ng, b + Times(k, Len(x) + 1), icase)
    ensures EmittedOptions(code, x, ng, k + 1, b, icase)
    decreases k
  {
    hide EmittedOption, Len;
    if k > 0 { OptionsSnoc(code, x, ng, k - 1, b + 1 + Len(x), icase); }
  }

  lemma CatEmitted(code: seq<Inst>, x: Node, y: Node, b: nat, icase: bool)
    requires Emitted(code, x, b, icase) && Emitted(code, y, b + Len(x), icase)
    ensures Emitted(code, Cat(x, y), b, icase)
  {
    hide EmittedAlt, EmittedRep, EmittedBetween, Len;
    CatLen(x, y);
  }

  lemma CatLen(x: Node, y: Node)
    ensures Len(Cat(x, y)) == Len(x) + Len(y)
  {
  }

  // ----- the compiler -----

  /** The program under construction: `emit` appends, the compiler patches targets afterwards. */
  class Reprog {
    var code: seq<Inst>
    const flags: Flags
    var nsub: nat

    constructor (flags: Flags)
      ensures code == [] && this.flags == flags && nsub == 0
    {
      code, this.flags, nsub := [], flags, 0;
    }

    method Emit(i: Inst) returns (at: nat)
      modifies this`code
      ensures at == |old(code)| && code == old(code) + [i]
    {
      at := |code|;
      code := code + [i];
    }

    method Compile(root: Node)
      modifies this`code
      ensures |code| == |old(code)| + Len(root) && old(code) <= code
      ensures Emitted(code, root, |old(code)|, flags.icase)
      decreases root, 2
    {
      hide Emitted, Len;
      var node := root;
      ghost var was := code;
      while node.Cat?
        invariant was <= code && |code| + Len(node) == |was| + Len(root)
        invariant forall c :: code <= c && Emitted(c, node, |code|, flags.icase) ==>
          Emitted(c, root, |was|, flags.icase)
        invariant node == root || node < root
        decreases node
      {
        ghost var before := code;
        CatLen(node.x, node.y);
        Compile(node.x);
        forall c | code <= c && Emitted(c, node.y, |code|, flags.icase)
          ensures Emitted(c, root, |was|, flags.icase)
        {
          EmittedFrame(code, c, node.x, |before|, flags.icase);
          CatEmitted(c, node.x, node.y, |before|, flags.icase);
        }
        node := node.y;
      }
      CompileNode(node);
    }

    method CompileNode(node: Node)
      requires !node.Cat?
      modifies this`code
      ensures |code| == |old(code)| + Len(node) && old(code) <= code
      ensures Emitted(code, node, |old(code)|, flags.icase)
      decreases node, 1
    {
      hide Emitted, EmittedAlt, EmittedRep, EmittedBetween, Times, TailLen;
      match node {
        case Alt(x, y) => CompileAlt(x, y);
        case Rep(x, ng, m, n) => CompileRep(x, ng, m, n);
        case Par(n, x) => CompilePar(n, x);
        case Pla(x) => CompileLook(x, false);
        case Nla(x) => CompileLook(x, true);
        case Null => CompileAtom(node);
        case Eat(_) => CompileAtom(node);
        case Assert(_) => CompileAtom(node);
        case Ref(_, _) => CompileAtom(node);
      }
      EmittedIs(code, node, |old(code)|, flags.icase);
    }

    method CompileAtom(node: Node)
      requires node.Null? || node.Eat? || node.Assert? || node.Ref?
      modifies this`code
      ensures |code| == |old(code)| + Len(node) && old(code) <= code
      ensures Emitted(code, node, |old(code)|, flags.icase)
    {
      match node {
        case Null =>
        case Eat(t) => var _ := Emit(IEat(Folded(t, flags.icase)));
        case Assert(a) => var _ := Emit(IAssert(a));
        case Ref(n, _) => var _ := Emit(IRef(n));
      }
    }

    method CompileAlt(x: Node, y: Node)
      modifies this`code
      ensures |code| == |old(code)| + Len(x) + Len(y) + 2 && old(code) <= code
      ensures EmittedAlt(code, x, y, |old(code)|, flags.icase)
      decreases Alt(x, y), 0
    {
      hide *;
      var split := Emit(Split(0, 0));
      Compile(x);
      ghost var withX := code;
      var jump := Emit(Jump(0));
      Compile(y);
      PatchAlt(x, y, split, jump, withX);
    }

    /** Both branches are there; the split and the jump get their targets. */
    method PatchAlt(x: Node, y: Node, split: nat, jump: nat, ghost withX: seq<Inst>)
      requires split + 1 + Len(x) == jump == |withX| && withX <= code && |code| == jump + 1 + Len(y)
      requires Emitted(withX, x, split + 1, flags.icase) && Emitted(code, y, jump + 1, flags.icase)
      modifies this`code
      ensures |code| == |old(code)| && old(code[..split]) == code[..split]
      ensures EmittedAlt(code, x, y, split, flags.icase)
    {
      hide *;
      ghost var withY := code;
      code := code[split := Split(split + 1, jump + 1)];
      code := code[jump := Jump(|code|)];
      Ranges(withX, withY, code, split, jump);
      EmittedFrame(withX, code, x, split + 1, flags.icase);
      EmittedFrame(withY, code, y, jump + 1, flags.icase);
      IsAlt(code, x, y, split, flags.icase);
    }

    method CompilePar(n: Group, x: Node)
      modifies this`code
      ensures |code| == |old(code)| + Len(x) + 2 && old(code) <= code
      ensures EmittedBetween(code, LPar(n), x, RPar(n), |old(code)|, flags.icase)
      decreases x, 3
    {
      hide Emitted, Len;
      var at := Emit(LPar(n));
      Compile(x);
      ghost var withX := code;
      var _ := Emit(RPar(n));
      EmittedFrame(withX, code, x, at + 1, flags.icase);
    }

    method CompileLook(x: Node, negative: bool)
      modifies this`code
      ensures |code| == |old(code)| + Len(x) + 2 && old(code) <= code
      ensures var b := |old(code)|;
        var look := if negative then INla(b + 1, b + 2 + Len(x)) else IPla(b + 1, b + 2 + Len(x));
        EmittedBetween(code, look, x, End, b, flags.icase)
      decreases x, 3
    {
      hide Emitted, Len;
      var split := Emit(if negative then INla(0, 0) else IPla(0, 0));
      Compile(x);
      ghost var withX := code;
      var _ := Emit(End);
      code := code[split := if negative then INla(split + 1, |code|) else IPla(split + 1, |code|)];
      EmittedFrame(withX, code, x, split + 1, flags.icase);
    }

    method CompileRep(x: Node, ng: bool, m: nat, n: nat)
      modifies this`code
      ensures |code| == |old(code)| + Times(m, Len(x)) + TailLen(Len(x), m, n) && old(code) <= code
      ensures EmittedRep(code, x, ng, m, n, |old(code)|, flags.icase)
      decreases x, 4
    {
      hide Emitted, Len, EmittedCopies, EmittedTail, Times, TailLen;
      ghost var b := |code|;
      var inst := CompileCopies(x, m);
      ghost var copies := code;
      CompileTail(x, ng, m, n, inst);
      CopiesFrame(copies, code, x, m, b, flags.icase);
    }

    method CompileCopies(x: Node, m: nat) returns (inst: nat)
      modifies this`code
      ensures |code| == |old(code)| + Times(m, Len(x)) && old(code) <= code
      ensures EmittedCopies(code, x, m, |old(code)|, flags.icase)
      ensures m > 0 ==> inst + Len(x) == |code|
      decreases x, 3, 0
    {
      hide Emitted, Len;
      ghost var b := |code|;
      inst := 0;
      for i := 0 to m
        invariant |code| == b + Times(i, Len(x)) && old(code) <= code
        invariant EmittedCopies(code, x, i, b, flags.icase)
        invariant i > 0 ==> inst + Len(x) == |code|
      {
        inst := |code|;
        ghost var copies := code;
        Compile(x);
        CopiesFrame(copies, code, x, i, b, flags.icase);
        CopiesSnoc(code, x, i, b, flags.icase);
        TimesSnoc(i, Len(x));
      }
    }

    method CompileTail(x: Node, ng: bool, m: nat, n: nat, inst: nat)
      requires m > 0 ==> inst + Len(x) == |code|
      modifies this`code
      ensures |code| == |old(code)| + TailLen(Len(x), m, n) && old(code) <= code
      ensures EmittedTail(code, x, ng, m, n, |old(code)|, flags.icase)
      decreases x, 3, 2
    {
      hide Emitted, Len, Times, EmittedOption, EmittedOptions, EmittedBetween;
      if m == n {
      } else if n < REPINF {
        if m < n { CompileOptions(x, ng, m, n); }
      } else if m == 0 {
        CompileStar(x, ng);
      } else {
        var split := Emit(Split(0, 0));
        code := code[split := Choice(ng, inst, |code|)];
      }
    }

    method CompileOptions(x: Node, ng: bool, m: nat, n: nat)
      requires m <= n
      modifies this`code
      ensures |code| == |old(code)| + Times(n - m, Len(x) + 1) && old(code) <= code
      ensures EmittedOptions(code, x, ng, n - m, |old(code)|, flags.icase)
      decreases x, 3, 1
    {
      hide Emitted, Len, EmittedOption;
      ghost var b := |code|;
      for i := m to n
        invariant |code| == b + Times(i - m, Len(x) + 1) && old(code) <= code
        invariant EmittedOptions(code, x, ng, i - m, b, flags.icase)
      {
        ghost var options := code;
        CompileOption(x, ng);
        OptionsFrame(options, code, x, ng, i - m, b, flags.icase);
        OptionsSnoc(code, x, ng, i - m, b, flags.icase);
        TimesSnoc(i - m, Len(x) + 1);
      }
    }

    method CompileOption(x: Node, ng: bool)
      modifies this`code
      ensures |code| == |old(code)| + Len(x) + 1 && old(code) <= code
      ensures EmittedOption(code, x, ng, |old(code)|, flags.icase)
      decreases x, 3, 0
    {
      hide Emitted, Len, Choice;
      var split := Emit(Split(0, 0));
      Compile(x);
      ghost var withX := code;
      code := code[split := Choice(ng, split + 1, |code|)];
      EmittedFrame(withX, code, x, split + 1, flags.icase);
    }

    method CompileStar(x: Node, ng: bool)
      modifies this`code
      ensures |code| == |old(code)| + Len(x) + 2 && old(code) <= code
      ensures var b := |old(code)|;
        EmittedBetween(code, Choice(ng, b + 1, b + 2 + Len(x)), x, Jump(b), b, flags.icase)
      decreases x, 3, 0
    {
      hide Emitted, Len, Choice;
      var split := Emit(Split(0, 0));
      Compile(x);
      ghost var withX := code;
      var jump := Emit(Jump(0));
      code := code[split := Choice(ng, split + 1, |code|)];
      code := code[jump := Jump(split)];
      EmittedFrame(withX, code, x, split + 1, flags.icase);
    }
  }

  // ----- sizes -----

  /** `count` of the parse tree: `None` when a repeat is larger than a program may be. */
  function Count(node: Node): Option<nat> {
    match node
    case Null => Some(0)
    case Cat(x, y) =>
      var v1, v2 := Count(x), Count(y);
      if v1.None? || v2.None? then None else Some(v1.value + v2.value)
    case Alt(x, y) =>
      var v1, v2 := Count(x), Count(y);
      if v1.None? || v2.None? then None else Some(v1.value + v2.value + 2)
    case Rep(x, _, min, max) =>
      var v1 := Count(x);
      if v1.None? then None
      else
        var n :=
          if min == max then v1.value * min
          else if max < REPINF then v1.value * max + (if max >= min then max - min else 0)
          else v1.value * (min + 1) + 2;
        if n > MAXPROG then None else Some(n)
    case Par(_, x) => Plus2(Count(x))
    case Pla(x) => Plus2(Count(x))
    case Nla(x) => Plus2(Count(x))
    case _ => Some(1)
  }

  function Plus2(v: Option<nat>): Option<nat> {
    if v.None? then None else Some(v.value + 2)
  }

  /** Some quantifier in the tree is `{m,}` or `+`: at least one copy, no upper limit. */
  predicate HasPlus(node: Node) {
    match node
    case Cat(x, y) => HasPlus(x) || HasPlus(y)
    case Alt(x, y) => HasPlus(x) || HasPlus(y)
    case Rep(x, _, m, n) => HasPlus(x) || (m > 0 && n == REPINF)
    case Par(_, x) => HasPlus(x)
    case Pla(x) => HasPlus(x)
    case Nla(x) => HasPlus(x)
    case _ => false
  }

  lemma {:induction false} TimesIsProduct(k: nat, l: nat)
    ensures Times(k, l) == k * l
  {
    if k > 0 { TimesIsProduct(k - 1, l); }
  }

  lemma RepArithmetic(l: nat, v: nat, m: nat, n: nat)
    requires l <= v && m <= n && 1 <= n
    ensures m * l + (n - m) * (l + 1) == n * l + (n - m)
    ensures n * l <= v * n && (l == v <==> n * l == v * n)
    ensures m * l + 1 < v * (m + 1) + 2
    ensures v * (0 + 1) == v
  {
    assert v * n - n * l == (v - l) * n;
    assert v * (m + 1) - m * l == (v - l) * m + v;
    assert m * l + (n - m) * (l + 1) == m * l + (n - m) * l + (n - m);
    assert m * l + (n - m) * l == n * l;
  }

  lemma RepSize(x: Node, ng: bool, m: nat, n: nat)
    requires m <= n <= REPINF && m < REPINF && 1 <= n
    requires Count(x).Some? && Len(x) <= Count(x).value
    requires !HasPlus(x) <==> Len(x) == Count(x).value
    requires Count(Rep(x, ng, m, n)).Some?
    ensures var r := Rep(x, ng, m, n);
      Len(r) <= Count(r).value && (!HasPlus(r) <==> Len(r) == Count(r).value)
  {
    var l, v := Len(x), Count(x).value;
    TimesIsProduct(m, l);
    TimesIsProduct(n - m, l + 1);
    RepArithmetic(l, v, m, n);
  }

  /** The program never outgrows its allocation, and fills it exactly unless a repeat of at least
      one copy is unbounded: those are sized for one copy and one instruction more than they take. */
  lemma {:induction false} SizeBound(node: Node)
    requires WellFormed(node) && Count(node).Some?
    ensures Len(node) <= Count(node).value
    ensures !HasPlus(node) <==> Len(node) == Count(node).value
  {
    match node {
      case Cat(x, y) => SizeBound(x); SizeBound(y);
      case Alt(x, y) => SizeBound(x); SizeBound(y);
      case Par(_, x) => SizeBound(x);
      case Pla(x) => SizeBound(x);
      case Nla(x) => SizeBound(x);
      case Rep(x, _, m, n) =>
        SizeBound(x);
        RepSize(x, node.ng, m, n);
      case _ =>
    }
  }
}
