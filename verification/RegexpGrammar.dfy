/** The syntax of patterns: how a pattern is written in tokens, the tree it stands for, and the tree the
    parser makes of it. */
module RegexpGrammar {
  import opened RegexpAst

  /** What the lexer delivers; `Eof` or, after a lexical error, `Bad` is the last token. */
  datatype Token =
    | Lit(t: Test)
    | BackRef(k: nat)
    | Dot | Open | OpenNc | OpenPla | OpenNla | Close | Bar
    | Star | Plus | Quest
    | Braces(min: nat, max: nat)
    | Zero(a: Assertion)
    | Eof | Bad

  predicate IsLast(t: Token) {
    t.Eof? || t.Bad?
  }

  /** Quantifier bounds have no zero digits and stay below `REPINF`, which stands for no maximum. */
  predicate Lexed(toks: seq<Token>) {
    && |toks| > 0
    && (forall i :: 0 <= i < |toks| ==> (IsLast(toks[i]) <==> i == |toks| - 1))
    && (forall i :: 0 <= i < |toks| && toks[i].Braces? ==>
          1 <= toks[i].min < REPINF && 1 <= toks[i].max <= REPINF)
  }

  predicate NoBackRefs(toks: seq<Token>) {
    forall i :: 0 <= i < |toks| ==> !toks[i].BackRef?
  }

  predicate IsOpen(t: Token) {
    t.Open? || t.OpenNc? || t.OpenPla? || t.OpenNla?
  }

  predicate IsQuantifier(t: Token) {
    t.Star? || t.Plus? || t.Quest? || t.Braces?
  }

  /** A sequence ends in front of such a token. */
  predicate EndsCat(t: Token) {
    t.Eof? || t.Bar? || t.Close?
  }

  function Least(t: Token): nat {
    if t.Braces? then t.min else if t.Plus? then 1 else 0
  }

  function Most(t: Token): nat {
    if t.Braces? then t.max else if t.Quest? then 1 else REPINF
  }

  // ----- patterns as they are written -----

  /** Alternatives are sequences of items; an item is an edge, or an atom with an optional quantifier. */
  datatype Alts = Only(first: Cats) | Or(first: Cats, rest: Alts)

  datatype Cats = Nothing | More(item: Item, rest: Cats)

  datatype Item = Edge(a: Assertion) | Times(atom: Atom, q: Quant)

  datatype Quant = Once | Many(t: Token, lazy: bool)

  datatype Atom = One(t: Test) | AnyOne | Back(k: nat) | Bracket(kind: Kind, body: Alts)

  datatype Kind = Capture | NoCapture | Ahead | NotAhead

  function Opening(kind: Kind): Token {
    match kind
    case Capture => Open
    case NoCapture => OpenNc
    case Ahead => OpenPla
    case NotAhead => OpenNla
  }

  function LenA(c: Alts): nat {
    match c
    case Only(x) => LenC(x)
    case Or(x, rest) => LenC(x) + 1 + LenA(rest)
  }

  function LenC(c: Cats): nat {
    match c
    case Nothing => 0
    case More(i, rest) => LenI(i) + LenC(rest)
  }

  function LenI(i: Item): (n: nat)
    ensures n > 0
  {
    match i
    case Edge(_) => 1
    case Times(x, q) => LenX(x) + LenQ(q)
  }

  function LenQ(q: Quant): nat {
    match q
    case Once => 0
    case Many(_, lazy) => if lazy then 2 else 1
  }

  function LenX(x: Atom): (n: nat)
    ensures n > 0
  {
    match x
    case Bracket(_, body) => LenA(body) + 2
    case _ => 1
  }

  predicate TokenAt(toks: seq<Token>, a: nat, t: Token) {
    a < |toks| && toks[a] == t
  }

  /** The tokens from `a` on are these alternatives. */
  predicate AtA(toks: seq<Token>, c: Alts, a: nat) {
    match c
    case Only(x) => AtC(toks, x, a)
    case Or(x, rest) => AtC(toks, x, a) && TokenAt(toks, a + LenC(x), Bar) && AtA(toks, rest, a + LenC(x) + 1)
  }

  predicate AtC(toks: seq<Token>, c: Cats, a: nat) {
    match c
    case Nothing => true
    case More(i, rest) => AtI(toks, i, a) && AtC(toks, rest, a + LenI(i))
  }

  predicate AtI(toks: seq<Token>, i: Item, a: nat) {
    match i
    case Edge(z) => TokenAt(toks, a, Zero(z))
    case Times(x, q) => AtX(toks, x, a) && AtQ(toks, q, a + LenX(x))
  }

  predicate AtQ(toks: seq<Token>, q: Quant, a: nat) {
    match q
    case Once => true
    case Many(t, lazy) => IsQuantifier(t) && TokenAt(toks, a, t) && (lazy ==> TokenAt(toks, a + 1, Quest))
  }

  predicate AtX(toks: seq<Token>, x: Atom, a: nat) {
    match x
    case One(t) => TokenAt(toks, a, Lit(t))
    case AnyOne => TokenAt(toks, a, Dot)
    case Back(k) => TokenAt(toks, a, BackRef(k))
    case Bracket(kind, body) =>
      TokenAt(toks, a, Opening(kind)) && AtA(toks, body, a + 1) && TokenAt(toks, a + 1 + LenA(body), Close)
  }

  /** The whole pattern. */
  predicate Written(toks: seq<Token>, c: Alts) {
    AtA(toks, c, 0) && |toks| == LenA(c) + 1 && toks[LenA(c)].Eof?
  }

  // ----- a pattern is written in one way only -----

  predicate Stops(toks: seq<Token>, a: nat) {
    a < |toks| && EndsCat(toks[a])
  }

  /** An item starts with a token that neither ends a sequence nor repeats anything. */
  lemma ItemHead(toks: seq<Token>, i: Item, a: nat)
    requires AtI(toks, i, a)
    ensures a < |toks| && !EndsCat(toks[a]) && !IsQuantifier(toks[a]) && !toks[a].Bad?
  {
  }

  lemma CatsHead(toks: seq<Token>, c: Cats, a: nat)
    requires AtC(toks, c, a) && Stops(toks, a + LenC(c))
    ensures a < |toks| && !IsQuantifier(toks[a]) && (EndsCat(toks[a]) <==> c.Nothing?) && !toks[a].Bad?
  {
    if c.More? { ItemHead(toks, c.item, a); }
  }

  lemma {:induction false} UniqueA(toks: seq<Token>, c: Alts, d: Alts, a: nat)
    requires AtA(toks, c, a) && AtA(toks, d, a)
    requires Stops(toks, a + LenA(c)) && !toks[a + LenA(c)].Bar? && Stops(toks, a + LenA(d)) && !toks[a + LenA(d)].Bar?
    ensures c == d
    decreases c
  {
    hide AtC, LenC;
    UniqueC(toks, c.first, d.first, a);
    if c.Or? && d.Or? { UniqueA(toks, c.rest, d.rest, a + LenC(c.first) + 1); }
  }

  lemma {:induction false} UniqueC(toks: seq<Token>, c: Cats, d: Cats, a: nat)
    requires AtC(toks, c, a) && AtC(toks, d, a)
    requires Stops(toks, a + LenC(c)) && Stops(toks, a + LenC(d))
    ensures c == d
    decreases c
  {
    hide AtI, LenI;
    CatsHead(toks, c, a);
    CatsHead(toks, d, a);
    if c.More? && d.More? {
      CatsHead(toks, c.rest, a + LenI(c.item));
      CatsHead(toks, d.rest, a + LenI(d.item));
      UniqueI(toks, c.item, d.item, a);
      UniqueC(toks, c.rest, d.rest, a + LenI(c.item));
    }
  }

  lemma {:induction false} UniqueI(toks: seq<Token>, i: Item, j: Item, a: nat)
    requires AtI(toks, i, a) && AtI(toks, j, a)
    requires a + LenI(i) < |toks| && !IsQuantifier(toks[a + LenI(i)])
    requires a + LenI(j) < |toks| && !IsQuantifier(toks[a + LenI(j)])
    ensures i == j
    decreases i
  {
    hide AtA, LenA;
    if i.Times? && j.Times? { UniqueX(toks, i.atom, j.atom, a); }
  }

  lemma {:induction false} UniqueX(toks: seq<Token>, x: Atom, y: Atom, a: nat)
    requires AtX(toks, x, a) && AtX(toks, y, a)
    ensures x == y
    decreases x
  {
    hide AtA, LenA;
    if x.Bracket? && y.Bracket? { UniqueA(toks, x.body, y.body, a + 1); }
  }

  /** There is at most one way to write the tokens. */
  lemma WrittenOnce(toks: seq<Token>, c: Alts, d: Alts)
    requires Written(toks, c) && Written(toks, d)
    ensures c == d
  {
    hide AtA, LenA;
    UniqueA(toks, c, d, 0);
  }

  // ----- trees -----

  /** The number the next group gets, and the groups closed so far. */
  datatype Env = Env(n: nat, sub: seq<Node>)

  predicate ValidEnv(e: Env) {
    1 <= e.n <= MAXSUB && |e.sub| == MAXSUB && forall k :: e.n <= k < MAXSUB ==> e.sub[k] == Null
  }

  predicate Later(e: Env, f: Env) {
    ValidEnv(f) && e.n <= f.n
  }

  const START: Env := Env(1, [Null, Null, Null, Null, Null, Null, Null, Null, Null, Null])

  datatype Built = Built(node: Node, env: Env)

  /** A sequence of an item and a rest. Where `plain`, an item that is nothing adds nothing. The parser
      gives up the sequence instead. */
  function Joined(x: Node, y: Node, last: bool, plain: bool): Node {
    if last then x
    else if plain then if x == Null then y else if y == Null then x else Cat(x, y)
    else if y == Null then Null
    else Cat(x, y)
  }

  function Repeated(x: Node, q: Quant): Node {
    match q
    case Once => x
    case Many(t, lazy) => Rep(x, lazy, Least(t), Most(t))
  }

  /** The tree of alternatives, where groups are numbered in the order of their opening brackets. */
  function BuildA(c: Alts, e: Env, plain: bool): (b: Built)
    requires ValidEnv(e)
    ensures Later(e, b.env)
    decreases c, 1
  {
    var x := BuildC(c.first, e, plain);
    match c
    case Only(_) => x
    case Or(_, rest) => BuildOr(x, rest, plain)
  }

  function BuildOr(left: Built, c: Alts, plain: bool): (b: Built)
    requires ValidEnv(left.env)
    ensures Later(left.env, b.env)
    decreases c, 0
  {
    var y := BuildC(c.first, left.env, plain);
    var x := Built(Alt(left.node, y.node), y.env);
    match c
    case Only(_) => x
    case Or(_, rest) => BuildOr(x, rest, plain)
  }

  function BuildC(c: Cats, e: Env, plain: bool): (b: Built)
    requires ValidEnv(e)
    ensures Later(e, b.env)
  {
    match c
    case Nothing => Built(Null, e)
    case More(i, rest) =>
      var x := BuildI(i, e, plain);
      var y := BuildC(rest, x.env, plain);
      Built(Joined(x.node, y.node, rest.Nothing?, plain), y.env)
  }

  function BuildI(i: Item, e: Env, plain: bool): (b: Built)
    requires ValidEnv(e)
    ensures Later(e, b.env)
  {
    match i
    case Edge(a) => Built(Assert(a), e)
    case Times(x, q) =>
      var b := BuildX(x, e, plain);
      Built(Repeated(b.node, q), b.env)
  }

  function BuildX(x: Atom, e: Env, plain: bool): (b: Built)
    requires ValidEnv(e)
    ensures Later(e, b.env)
  {
    match x
    case One(t) => Built(Eat(t), e)
    case AnyOne => Built(Eat(Any), e)
    case Back(k) => Built(if 1 <= k < MAXSUB then Ref(k, e.sub[k]) else Null, e)
    case Bracket(kind, body) =>
      if kind.Capture? then
        if e.n == MAXSUB then Built(Null, e)
        else
          var y := BuildA(body, e.(n := e.n + 1), plain);
          Closing(e.n, y)
      else
        var y := BuildA(body, e, plain);
        if kind.Ahead? then y.(node := Pla(y.node)) else if kind.NotAhead? then y.(node := Nla(y.node)) else y
  }

  function Closing(g: Group, y: Built): (b: Built)
    requires ValidEnv(y.env) && g < y.env.n
    ensures Later(y.env, b.env)
  {
    Built(Par(g, y.node), y.env.(sub := y.env.sub[g := Par(g, y.node)]))
  }

  // ----- which patterns are in order -----

  /** In order (`plain`): at most nine groups, back-references to closed groups only, bounds in order, and no
      unbounded repeat of what can match nothing. The parser's order is told from the parser's trees, and
      there, moreover, an item that is nothing ends its sequence. */
  predicate OkA(c: Alts, e: Env, plain: bool)
    requires ValidEnv(e)
  {
    match c
    case Only(x) => OkC(x, e, plain)
    case Or(x, rest) => OkC(x, e, plain) && OkA(rest, BuildC(x, e, plain).env, plain)
  }

  predicate OkC(c: Cats, e: Env, plain: bool)
    requires ValidEnv(e)
  {
    match c
    case Nothing => true
    case More(i, rest) =>
      var x := BuildI(i, e, plain);
      OkI(i, e, plain) && OkC(rest, x.env, plain) && (plain || rest.Nothing? || x.node != Null)
  }

  predicate OkI(i: Item, e: Env, plain: bool)
    requires ValidEnv(e)
  {
    match i
    case Edge(_) => true
    case Times(x, q) => OkX(x, e, plain) && OkQ(q, BuildX(x, e, plain).node)
  }

  predicate OkQ(q: Quant, x: Node) {
    match q
    case Once => true
    case Many(t, _) => Least(t) <= Most(t) && (Most(t) == REPINF ==> !Empty(x))
  }

  predicate OkX(x: Atom, e: Env, plain: bool)
    requires ValidEnv(e)
  {
    match x
    case Back(k) => 1 <= k < MAXSUB && e.sub[k] != Null
    case Bracket(kind, body) =>
      if kind.Capture? then e.n < MAXSUB && OkA(body, e.(n := e.n + 1), plain) else OkA(body, e, plain)
    case _ => true
  }
}
