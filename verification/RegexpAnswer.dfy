/** What a match answers, and how the flags of the compilation and of the match work together. */
module RegexpAnswer {
  import opened RegexpAst
  import opened RegexpMachine
  import opened RegexpMeaning
  import opened RegexpSearch
  import opened Wrappers

  /** The flags given at compilation and at execution together. Literals were folded, or not, when the
      program was made. */
  function Both(c: Flags, e: Flags): Mode {
    Mode(c.icase || e.icase, c.newline || e.newline, c.notbol || e.notbol, c.icase)
  }

  const NO_TABLE: Caps := Caps(NO_CAPS, NO_CAPS)

  /** The captures that the search of the whole text ends with, for a pattern compiled with the flags `c`
      and executed with the flags `e`. */
  function Answer(node: Node, s: Text, c: Flags, e: Flags): Option<Caps> {
    Search(s, Both(c, e), node, St(0, NO_TABLE))
  }

  /** It does not matter on which side a flag is given, but for the folding of literals. */
  lemma EitherSide(node: Node, s: Text, c: Flags, e: Flags, c': Flags, e': Flags)
    requires c.icase == c'.icase && (c.icase || e.icase) == (c'.icase || e'.icase)
    requires (c.newline || e.newline) == (c'.newline || e'.newline)
    requires (c.notbol || e.notbol) == (c'.notbol || e'.notbol)
    ensures Answer(node, s, c, e) == Answer(node, s, c', e')
  {
    hide Search;
  }

  // ----- texts that agree up to case -----

  /** The same character, or a letter and its other case. */
  predicate SameLetter(a: Rune, b: Rune) {
    a == b || (65 <= a <= 90 && b == a + 32) || (65 <= b <= 90 && a == b + 32)
  }

  predicate SameText(s: Text, u: Text) {
    |s| == |u| && forall i :: 0 <= i < |s| ==> SameLetter(s[i], u[i])
  }

  lemma SameCanon(a: Rune, b: Rune)
    ensures Canon(a) == Canon(b) <==> SameLetter(a, b)
    ensures SameLetter(a, b) ==> IsNewline(a) == IsNewline(b) && IsWordChar(a) == IsWordChar(b)
  {
  }

  lemma SameAccepts(t: Test, s: Text, u: Text, f: Mode, pos: nat)
    requires SameText(s, u) && f.icase
    ensures Accepts(t, s, f, pos) == Accepts(t, u, f, pos)
  {
    hide Canon, IsNewline;
    if pos < |s| { SameCanon(s[pos], u[pos]); }
  }

  lemma SameHolds(a: Assertion, s: Text, u: Text, f: Mode, pos: nat)
    requires SameText(s, u) && pos <= |s|
    ensures Holds(a, s, f, pos) == Holds(a, u, f, pos)
  {
    hide IsNewline, IsWordChar, SameLetter;
    if pos > 0 { SameCanon(s[pos - 1], u[pos - 1]); }
    if pos < |s| { SameCanon(s[pos], u[pos]); }
  }

  /** A match that ignores case has the same outcomes on both. */
  lemma {:induction false} SameOut(s: Text, u: Text, f: Mode, p: Part, st: St)
    requires SameText(s, u) && f.icase && st.pos <= |s|
    ensures Out(s, f, p, st) == Out(u, f, p, st)
    decreases Base(p), Level(p), 0
  {
    hide OutAll, CloseAll, Accepts, Holds, SameLetter;
    match p
    case One(node) => SameOne(s, u, f, node, st);
    case Times(x, k) =>
      if k > 0 {
        SameOut(s, u, f, One(x), st);
        SameAll(s, u, f, Times(x, k - 1), Out(s, f, One(x), st), st.pos);
      }
    case Opts(x, ng, k) =>
      if k > 0 {
        SameOut(s, u, f, One(x), st);
        SameAll(s, u, f, Opts(x, ng, k - 1), Prefer(ng, st, Out(s, f, One(x), st)), st.pos);
      }
    case Nest(x, ng, k) =>
      if k > 0 {
        SameOut(s, u, f, One(x), st);
        SameAll(s, u, f, Nest(x, ng, k - 1), Out(s, f, One(x), st), st.pos);
      }
  }

  lemma {:induction false} SameOne(s: Text, u: Text, f: Mode, node: Node, st: St)
    requires SameText(s, u) && f.icase && st.pos <= |s|
    ensures OutOne(s, f, node, st) == OutOne(u, f, node, st)
    decreases node, 0, 0
  {
    hide Out, OutAll, Accepts, Holds, SameLetter;
    match node {
      case Cat(x, y) =>
        SameOut(s, u, f, One(x), st);
        SameAll(s, u, f, One(y), Out(s, f, One(x), st), st.pos);
      case Alt(x, y) => SameOut(s, u, f, One(x), st); SameOut(s, u, f, One(y), st);
      case Rep(x, ng, m, n) =>
        SameOut(s, u, f, Times(x, m), st);
        SameAll(s, u, f, Rest(s, x, ng, m, n), Out(s, f, Times(x, m), st), st.pos);
      case Par(n, x) =>
        var st' := st.(caps := Opened(st.caps, n, st.pos));
        SameOut(s, u, f, One(x), st');
        SameClose(s, u, n, Out(s, f, One(x), st'), st.pos);
      case Pla(x) => SameOut(s, u, f, One(x), st);
      case Nla(x) => SameOut(s, u, f, One(x), st);
      case Eat(t) => SameAccepts(t, s, u, f, st.pos);
      case Assert(a) => SameHolds(a, s, u, f, st.pos);
      case _ =>
    }
  }

  lemma {:induction false} SameAll(s: Text, u: Text, f: Mode, p: Part, l: seq<St>, from: nat)
    requires SameText(s, u) && f.icase && forall t :: t in l ==> from <= t.pos <= |s|
    ensures OutAll(s, f, p, l, from) == OutAll(u, f, p, l, from)
    decreases Base(p), Level(p), 1, |l|
  {
    hide Out, SameText;
    if l != [] {
      assert l[0] in l && forall t :: t in l[1..] ==> t in l;
      SameOut(s, u, f, p, l[0]);
      SameAll(s, u, f, p, l[1..], from);
    }
  }

  lemma {:induction false} SameClose(s: Text, u: Text, n: Group, l: seq<St>, from: nat)
    requires |s| == |u| && forall t :: t in l ==> from <= t.pos <= |s|
    ensures CloseAll(s, n, l, from) == CloseAll(u, n, l, from)
  {
    if l != [] {
      assert forall t :: t in l[1..] ==> t in l;
      SameClose(s, u, n, l[1..], from);
    }
  }

  lemma {:induction false} SameSearch(s: Text, u: Text, f: Mode, node: Node, st: St)
    requires SameText(s, u) && f.icase && st.pos <= |s|
    ensures Search(s, f, node, st) == Search(u, f, node, st)
    decreases |s| - st.pos
  {
    hide Out, SameLetter;
    SameOut(s, u, f, One(node), st.(caps := Opened(st.caps, 0, st.pos)));
    if st.pos < |s| { SameSearch(s, u, f, node, st.(pos := st.pos + 1)); }
  }

  /** With REG_ICASE on either side, texts that agree up to case get the same answer and captures. */
  lemma CaseIgnored(node: Node, s: Text, u: Text, c: Flags, e: Flags)
    requires (c.icase || e.icase) && SameText(s, u)
    ensures Answer(node, s, c, e) == Answer(node, u, c, e)
  {
    hide Search, SameText;
    assert |s| == |u| by { SameLengths(s, u); }
    SameSearch(s, u, Both(c, e), node, St(0, NO_TABLE));
  }

  lemma SameLengths(s: Text, u: Text)
    requires SameText(s, u)
    ensures |s| == |u|
  {
  }
}
