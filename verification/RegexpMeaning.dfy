/** What a syntax tree means, independently of any program: the ordered list of its outcomes, and
    the language it accepts. */
module RegexpMeaning {
  import opened RegexpAst
  import opened RegexpMachine

  /** The pieces a repeat falls into: `k` copies in a row, `k` independent optional copies, and up to
      `k` copies, each only tried after the one before it. */
  datatype Part =
    | One(node: Node)
    | Times(x: Node, k: nat)
    | Opts(x: Node, ng: bool, k: nat)
    | Nest(x: Node, ng: bool, k: nat)

  function Base(p: Part): Node {
    match p
    case One(n) => n
    case Times(x, _) => x
    case Opts(x, _, _) => x
    case Nest(x, _, _) => x
  }

  function Level(p: Part): nat {
    match p
    case One(_) => 1
    case Times(_, k) => 2 + k
    case Opts(_, _, k) => 2 + k
    case Nest(_, _, k) => 2 + k
  }

  /** A choice between trying something and going on without it, in order of preference. */
  function Prefer(ng: bool, st: St, tried: seq<St>): seq<St> {
    if ng then [st] + tried else tried + [st]
  }

  function Seen(c: Rune, fold: bool): Rune {
    if fold then Canon(c) else c
  }

  /** A character test of the pattern: case is folded in the text if the match asks for it, and in literals
      if the compilation did. */
  predicate Accepts(t: Test, s: Text, f: Mode, pos: nat) {
    pos < |s| &&
    match t
    case AnyNl => true
    case Any => !IsNewline(s[pos])
    case Char(c) => Seen(s[pos], f.icase) == Seen(c, f.folded)
    case CClass(cc) => ClassHas(cc, s[pos], f.icase)
    case NCClass(cc) => !ClassHas(cc, s[pos], f.icase)
  }

  /** Asking for it makes a literal match whatever differs in case alone exactly if the compilation was asked
      as well, or the literal is what it folds to. */
  lemma IgnoresCase(c: Rune, f: Mode)
    requires f.icase && c != 0
    ensures f.folded || Canon(c) == c <==>
      forall x: Rune :: x != 0 ==> (Accepts(Char(c), [x], f, 0) <==> Canon(x) == Canon(c))
  {
    if !f.folded && Canon(c) != c { assert !Accepts(Char(c), [c], f, 0); }
  }

  /** What follows the mandatory copies of a repeat. An unbounded one is unrolled once more than
      there are characters left: no pass through its body is free. */
  function Rest(s: Text, x: Node, ng: bool, m: nat, n: nat): Part {
    if n == REPINF then Nest(x, ng, |s| + 1) else Opts(x, ng, if m < n then n - m else 0)
  }

  /** All ways `p` can match from `st`, the preferred one first. */
  function Out(s: Text, f: Mode, p: Part, st: St): (r: seq<St>)
    requires st.pos <= |s|
    ensures forall t :: t in r ==> st.pos <= t.pos <= |s|
    decreases Base(p), Level(p), 0
  {
    match p
    case One(node) => OutOne(s, f, node, st)
    case Times(x, k) =>
      if k == 0 then [st] else OutAll(s, f, Times(x, k - 1), Out(s, f, One(x), st), st.pos)
    case Opts(x, ng, k) =>
      if k == 0 then [st]
      else OutAll(s, f, Opts(x, ng, k - 1), Prefer(ng, st, Out(s, f, One(x), st)), st.pos)
    case Nest(x, ng, k) =>
      if k == 0 then [st]
      else Prefer(ng, st, OutAll(s, f, Nest(x, ng, k - 1), Out(s, f, One(x), st), st.pos))
  }

  function OutOne(s: Text, f: Mode, node: Node, st: St): (r: seq<St>)
    requires st.pos <= |s|
    ensures forall t :: t in r ==> st.pos <= t.pos <= |s|
    decreases node, 0, 0
  {
    match node
    case Null => [st]
    case Cat(x, y) => OutAll(s, f, One(y), Out(s, f, One(x), st), st.pos)
    case Alt(x, y) => Out(s, f, One(x), st) + Out(s, f, One(y), st)
    case Rep(x, ng, m, n) =>
      OutAll(s, f, Rest(s, x, ng, m, n), Out(s, f, Times(x, m), st), st.pos)
    case Par(n, x) =>
      CloseAll(s, n, Out(s, f, One(x), st.(caps := Opened(st.caps, n, st.pos))), st.pos)
    case Pla(x) =>
      var r := Out(s, f, One(x), st);
      if r == [] then [] else [st.(caps := r[0].caps)]
    case Nla(x) => if Out(s, f, One(x), st) == [] then [st] else []
    case Eat(t) => if Accepts(t, s, f, st.pos) then [st.(pos := st.pos + 1)] else []
    case Assert(a) => if Holds(a, s, f, st.pos) then [st] else []
    case Ref(_, _) => []
  }

  /** The outcomes of `p` from each state in turn. */
  function OutAll(s: Text, f: Mode, p: Part, l: seq<St>, from: nat): (r: seq<St>)
    requires forall t :: t in l ==> from <= t.pos <= |s|
    ensures forall t :: t in r ==> from <= t.pos <= |s|
    decreases Base(p), Level(p), 1, |l|
  {
    if l == [] then [] else Out(s, f, p, l[0]) + OutAll(s, f, p, l[1..], from)
  }

  function CloseAll(s: Text, n: nat, l: seq<St>, from: nat): (r: seq<St>)
    requires n < MAXSUB
    requires forall t :: t in l ==> from <= t.pos <= |s|
    ensures forall t :: t in r ==> from <= t.pos <= |s|
  {
    if l == [] then []
    else [l[0].(caps := Closed(l[0].caps, n, l[0].pos))] + CloseAll(s, n, l[1..], from)
  }

  lemma OutOneIs(s: Text, f: Mode, node: Node, st: St)
    requires st.pos <= |s|
    ensures node.Null? ==> OutOne(s, f, node, st) == [st]
    ensures node.Cat? ==>
      OutOne(s, f, node, st) == OutAll(s, f, One(node.y), Out(s, f, One(node.x), st), st.pos)
    ensures node.Alt? ==> OutOne(s, f, node, st) == Out(s, f, One(node.x), st) + Out(s, f, One(node.y), st)
  {
    hide Out, OutAll;
  }

  lemma OutOpts(s: Text, f: Mode, x: Node, ng: bool, k: nat, st: St)
    requires st.pos <= |s|
    ensures var l := Prefer(ng, st, Out(s, f, One(x), st));
      && (forall t :: t in l ==> st.pos <= t.pos <= |s|)
      && Out(s, f, Opts(x, ng, k), st) == if k == 0 then [st] else OutAll(s, f, Opts(x, ng, k - 1), l, st.pos)
  {
    hide OutOne, OutAll;
  }

  lemma LookOut(s: Text, f: Mode, x: Node, st: St)
    requires st.pos <= |s|
    ensures var l := Out(s, f, One(x), st);
      OutOne(s, f, Pla(x), st) == (if l == [] then [] else [st.(caps := l[0].caps)]) &&
      OutOne(s, f, Nla(x), st) == (if l == [] then [st] else [])
  {
    hide Out;
  }
}
