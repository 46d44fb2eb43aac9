/** The syntax tree that the regular-expression parser builds, the instructions the compiler
    emits, and the single-character tests both the tree and the machine share. */
module RegexpAst {
  /** A character as `chartorune` delivers it. */
  type Rune = nat

  const REPINF: nat := 255
  const MAXSUB: nat := 10
  const MAXPROG: nat := 32768

  /** A C string without its terminator. */
  type Text = s: seq<Rune> | 0 !in s

  /** One pair of bounds in a character class. */
  datatype Span = Span(lo: Rune, hi: Rune)

  datatype Flags = Flags(icase: bool, newline: bool, notbol: bool)

  /** The flags of a match, and whether literals were folded when the program was made. */
  datatype Mode = Mode(icase: bool, newline: bool, notbol: bool, folded: bool)

  /** Tests on the next character; `AnyNl` only occurs in the search loop that starts a program. */
  datatype Test = AnyNl | Any | Char(c: Rune) | CClass(cc: seq<Span>) | NCClass(cc: seq<Span>)

  /** Zero-width tests of a position. */
  datatype Assertion = Bol | Eol | Word | NWord

  /** Number of a capturing group; group 0 is the whole match. */
  type Group = n: nat | 1 <= n < MAXSUB witness 1

  /** A parse node; `Null` is the absent child. */
  datatype Node =
    | Null
    | Cat(x: Node, y: Node)
    | Alt(x: Node, y: Node)
    | Rep(x: Node, ng: bool, m: nat, n: nat)
    | Par(g: Group, x: Node)
    | Pla(x: Node)
    | Nla(x: Node)
    | Eat(t: Test)
    | Assert(a: Assertion)
    | Ref(g: Group, x: Node)

  /** An instruction; targets are indices into the program. */
  datatype Inst =
    | End
    | Jump(x: nat)
    | Split(x: nat, y: nat)
    | IPla(x: nat, y: nat)
    | INla(x: nat, y: nat)
    | IEat(t: Test)
    | IAssert(a: Assertion)
    | IRef(n: nat)
    | LPar(n: nat)
    | RPar(n: nat)

  /** The parser's test for "may match without consuming a character". */
  predicate Empty(node: Node) {
    match node
    case Cat(x, y) => Empty(x) && Empty(y)
    case Alt(x, y) => Empty(x) || Empty(y)
    case Rep(x, _, m, _) => Empty(x) || m == 0
    case Par(_, x) => Empty(x)
    case Ref(_, x) => Empty(x)
    case Eat(_) => false
    case _ => true
  }

  /** What the parser guarantees of the trees it builds: the quantifier bounds it lexed, and the
      check made for every unbounded repeat. */
  predicate WellFormed(node: Node) {
    match node
    case Cat(x, y) => WellFormed(x) && WellFormed(y)
    case Alt(x, y) => WellFormed(x) && WellFormed(y)
    case Rep(x, _, m, n) =>
      && WellFormed(x)
      && m <= n <= REPINF
      && m < REPINF
      && 1 <= n
      && (n == REPINF ==> !Empty(x))
    case Par(_, x) => WellFormed(x)
    case Pla(x) => WellFormed(x)
    case Nla(x) => WellFormed(x)
    case Ref(_, x) => WellFormed(x)
    case _ => true
  }

  predicate NoRef(node: Node) {
    match node
    case Cat(x, y) => NoRef(x) && NoRef(y)
    case Alt(x, y) => NoRef(x) && NoRef(y)
    case Rep(x, _, _, _) => NoRef(x)
    case Par(_, x) => NoRef(x)
    case Pla(x) => NoRef(x)
    case Nla(x) => NoRef(x)
    case Ref(_, _) => false
    case _ => true
  }

  function Canon(c: Rune): Rune {
    if 97 <= c <= 122 then c - 32 else c
  }

  predicate IsNewline(c: Rune) {
    c == 0xA || c == 0xD || c == 0x2028 || c == 0x2029
  }

  predicate IsWordChar(c: Rune) {
    c == 95 || 97 <= c <= 122 || 65 <= c <= 90 || 48 <= c <= 57
  }

  predicate InClass(cc: seq<Span>, c: Rune) {
    exists i :: 0 <= i < |cc| && cc[i].lo <= c <= cc[i].hi
  }

  predicate InClassCanon(cc: seq<Span>, c: Rune) {
    exists i :: 0 <= i < |cc| && exists r :: cc[i].lo <= r <= cc[i].hi && c == Canon(r)
  }

  predicate ClassHas(cc: seq<Span>, c: Rune, icase: bool) {
    if icase then InClassCanon(cc, Canon(c)) else InClass(cc, c)
  }

  /** The test accepts the character at `sp`; the terminator never passes. */
  predicate Eats(t: Test, s: Text, f: Mode, sp: nat) {
    sp < |s| &&
    match t
    case AnyNl => true
    case Any => !IsNewline(s[sp])
    case Char(c) => (if f.icase then Canon(s[sp]) else s[sp]) == c
    case CClass(cc) => ClassHas(cc, s[sp], f.icase)
    case NCClass(cc) => !ClassHas(cc, s[sp], f.icase)
  }

  /** The compiler folds the case of a literal, and of nothing else. */
  function Folded(t: Test, icase: bool): Test {
    if icase && t.Char? then Char(Canon(t.c)) else t
  }

  predicate AtWordEdge(s: Text, sp: nat)
    requires sp <= |s|
  {
    (sp > 0 && IsWordChar(s[sp - 1])) != (sp < |s| && IsWordChar(s[sp]))
  }

  /** The assertion is true at `sp`. */
  predicate Holds(a: Assertion, s: Text, f: Mode, sp: nat)
    requires sp <= |s|
  {
    match a
    case Bol => (sp == 0 && !f.notbol) || (f.newline && sp > 0 && IsNewline(s[sp - 1]))
    case Eol => sp == |s| || (f.newline && IsNewline(s[sp]))
    case Word => AtWordEdge(s, sp)
    case NWord => !AtWordEdge(s, sp)
  }
}
