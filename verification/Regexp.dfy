/** The public interface: compile a pattern, run it against a text. */
module Regexp {
  import opened RegexpAst
  import opened RegexpGrammar
  import opened RegexpRead
  import opened RegexpDrops
  import opened RegexpGroups
  import opened RegexpLost
  import opened RegexpParse
  import C = RegexpCompile
  import opened RegexpStops
  import opened RegexpTargets
  import opened RegexpMachine
  import opened RegexpLanguage
  import opened RegexpSearch
  import opened RegexpAnswer
  import opened RegexpSpelled
  import opened Wrappers

  /** The program for a tree fits into the memory there may be. */
  predicate Fits(node: Node) {
    C.Count(node).Some? && 6 + C.Count(node).value <= MAXPROG
  }

  /** `regexp_comp`, from the tokens of the pattern on: it gives a program exactly when the parser comes to
      the end of the tokens and the program for its tree fits. The program is that of the tree. Nothing is
      said of patterns at which the parser has gone astray. */
  method Comp(toks: seq<Token>, cflags: Flags) returns (r: Option<(C.Reprog, Node)>)
    requires Lexed(toks)
    ensures !Read(toks).st.strayed ==> (r.Some? <==> AtEnd(toks, Read(toks)) && Fits(Read(toks).node))
    ensures r.Some? && !Read(toks).st.strayed ==>
      var (prog, node) := r.value;
      && fresh(prog) && prog.flags == cflags && prog.nsub == Read(toks).st.env.n
      && node == Read(toks).node && WellFormed(node)
      && IsProgram(prog.code, node, cflags.icase)
      && AllInside(prog.code, 0, |prog.code|)
      && C.Count(node).Some? && |prog.code| <= 6 + C.Count(node).value <= MAXPROG
  {
    hide C.Emitted, C.Len, C.Count, ReadAlt, WellFormed;
    var parser := new Parser(toks);
    assert Read(toks) == ReadAlt(toks, parser.Now());
    var node := parser.ParseAlt();
    if !toks[parser.at].Eof? { return None; }
    var v := C.Count(node);
    if v.None? || 6 + v.value > MAXPROG { return None; }
    var prog := Assemble(node, parser.nsub, cflags);
    return Some((prog, node));
  }

  /** The search loop around the code of a tree. */
  method Assemble(node: Node, nsub: nat, cflags: Flags) returns (prog: C.Reprog)
    requires WellFormed(node) && C.Count(node).Some?
    ensures fresh(prog) && prog.flags == cflags && prog.nsub == nsub && IsProgram(prog.code, node, cflags.icase)
    ensures AllInside(prog.code, 0, |prog.code|) && |prog.code| <= 6 + C.Count(node).value
  {
    hide C.Emitted, C.Len, C.Count, WellFormed;
    C.SizeBound(node);
    prog := new C.Reprog(cflags);
    prog.nsub := nsub;
    var split := prog.Emit(Split(0, 0));
    prog.code := prog.code[split := Split(split + 3, split + 1)];
    var _ := prog.Emit(IEat(AnyNl));
    var jump := prog.Emit(Jump(0));
    prog.code := prog.code[jump := Jump(split)];
    var _ := prog.Emit(LPar(0));
    prog.Compile(node);
    ghost var compiled := prog.code;
    var _ := prog.Emit(RPar(0));
    var _ := prog.Emit(End);
    C.EmittedFrame(compiled, prog.code, node, 4, cflags.icase);
    ProgramInside(prog.code, node, cflags.icase);
  }

  /** When a pattern compiles, if the parser has not gone astray: it is written in the tokens and in the
      parser's order, and its program fits, or an error has been lost. */
  lemma CompilesExactly(toks: seq<Token>)
    requires Lexed(toks) && !Read(toks).st.strayed
    ensures AtEnd(toks, Read(toks)) && Fits(Read(toks).node) <==>
      (exists c :: Taken(toks, c) && Fits(BuildA(c, START, false).node)) || (Lost(toks) && Fits(Read(toks).node))
    ensures Lost(toks) <==> AtEnd(toks, Read(toks)) && Read(toks).st.died
  {
    hide Read, Fits, OkA, AtA, LenA, BuildA;
    ReadExactly(toks);
    LostExactly(toks);
    if AtEnd(toks, Read(toks)) && Fits(Read(toks).node) && !Read(toks).st.died {
      var c :| Taken(toks, c);
      assert Fits(BuildA(c, START, false).node);
    }
  }

  /** `regexp_exec`, for patterns without back-references: 0 when some part of the text matches, and
      then group 0 is the leftmost match in the order of preference. */
  method Exec(prog: C.Reprog, ghost node: Node, s: Text, eflags: Flags) returns (ret: int, sub: Resub)
    requires IsProgram(prog.code, node, prog.flags.icase) && Good(node)
    ensures ret == 0 || ret == 1
    ensures fresh(sub) && sub.nsub == prog.nsub
    ensures var r := Answer(node, s, prog.flags, eflags);
      (ret == 0 <==> r.Some?) && (r.Some? ==> sub.Table() == r.value)
    ensures var f := Both(prog.flags, eflags);
      && (ret == 0 <==> exists i: nat :: i <= |s| && Starts(s, f, node, i))
      && (ret == 0 ==>
            var i, j := sub.sp[0], sub.ep[0];
            && 0 <= i <= j <= |s| && Matches(s, f, node, i, j)
            && (forall k: nat :: k < i ==> !Starts(s, f, node, k))
            && var l := Attempt(s, f, node, St(i, NO_TABLE));
               l != [] && sub.Table() == RegexpMachine.Closed(l[0].caps, 0, l[0].pos))
  {
    hide C.Emitted, C.Len, Starts, Matches, Good, Sound, Attempt, Search;
    sub := new Resub(NO_CAPS, NO_CAPS);
    sub.nsub := prog.nsub;
    var f := Both(prog.flags, eflags);
    ghost var st := St(0, sub.Table());
    ProgramSound(prog.code, node, f.folded);
    RunSearches(prog.code, s, f, node, st);
    WellFormedOf(node);
    SearchLeftmost(s, f, node, st);
    var ok := Match(prog.code, s, f, 0, 0, sub);
    ret := if ok then 0 else 1;
  }

  lemma WellFormedOf(node: Node)
    requires Good(node)
    ensures WellFormed(node)
  {
  }

  // ----- from the pattern to the answer -----

  /** Some part of the text that starts at `i` is what the pattern says. */
  ghost predicate SaysFrom(s: Text, c: Flags, e: Flags, p: Alts, i: nat) {
    exists j: nat :: Position(s, j) && SaysA(s, c, e, p, i, j)
  }

  /** A pattern without back-references that the parser gets right is found exactly where some part of the
      text is what the pattern says; the match reported is such a part, and none starts further left. */
  lemma FindsPattern(toks: seq<Token>, p: Alts, s: Text, c: Flags, e: Flags)
    requires Lexed(toks) && Written(toks, p) && OkA(p, START, true) && !Beside(toks) && NoBackRefs(toks)
    ensures Good(Read(toks).node)
    ensures var r := Answer(Read(toks).node, s, c, e);
      && (r.Some? <==> exists i: nat :: i <= |s| && SaysFrom(s, c, e, p, i))
      && (r.Some? ==>
            && 0 <= r.value.sp[0] <= r.value.ep[0] <= |s| && SaysA(s, c, e, p, r.value.sp[0], r.value.ep[0])
            && forall k: nat :: k < r.value.sp[0] ==> !SaysFrom(s, c, e, p, k))
  {
    hide *;
    var node, f := Read(toks).node, Both(c, e);
    RightTree(toks, p);
    SaneA(toks, p, 0, START);
    SaneGood(node);
    SearchLeftmost(s, f, node, St(0, NO_TABLE));
    AnswerIs(node, s, c, e);
    forall i: nat, j: nat ensures Matches(s, f, node, i, j) <==> SaysA(s, c, e, p, i, j) {
      SpelledA(s, c, e, p, START, i, j);
    }
    forall i: nat ensures Starts(s, f, node, i) <==> SaysFrom(s, c, e, p, i) { SameStarts(s, c, e, node, p, i); }
  }

  lemma RightTree(toks: seq<Token>, p: Alts)
    requires Lexed(toks) && Written(toks, p) && OkA(p, START, true) && !Beside(toks)
    ensures ValidEnv(START) && AtA(toks, p, 0) && Read(toks).node == BuildA(p, START, true).node
  {
    hide OkA, AtA, LenA, BuildA, Beside, Read;
    TreeExactly(toks, p);
  }

  lemma SaneGood(node: Node)
    requires Sane(node)
    ensures Good(node) && WellFormed(node)
  {
  }

  lemma AnswerIs(node: Node, s: Text, c: Flags, e: Flags)
    ensures Answer(node, s, c, e) == Search(s, Both(c, e), node, St(0, NO_TABLE))
  {
    hide Search;
  }

  lemma SameStarts(s: Text, c: Flags, e: Flags, node: Node, p: Alts, i: nat)
    requires forall j: nat :: Matches(s, Both(c, e), node, i, j) <==> SaysA(s, c, e, p, i, j)
    ensures Starts(s, Both(c, e), node, i) <==> SaysFrom(s, c, e, p, i)
  {
    hide Matches, SaysA;
  }

  // ----- matching a field -----

  const NO_FLAGS := Flags(false, false, false)

  /** The pattern compiles. */
  predicate Compiles(toks: seq<Token>)
    requires Lexed(toks)
  {
    AtEnd(toks, Read(toks)) && Fits(Read(toks).node)
  }

  /** `regexp_match`: what `regexp_exec` returned, or 0 for a pattern that does not compile. */
  method MatchOnce(toks: seq<Token>, s: Text, flags: Flags) returns (ret: int)
    requires Lexed(toks) && NoBackRefs(toks)
    ensures ret == if Compiles(toks) && Answer(Read(toks).node, s, flags, NO_FLAGS).None? then 1 else 0
  {
    hide *;
    ReadPlain(toks);
    CompilesIs(toks);
    var r := Comp(toks, flags);
    if r.None? { return 0; }
    var (prog, node) := r.value;
    GoodOf(node);
    var sub;
    ret, sub := Exec(prog, node, s, NO_FLAGS);
  }

  lemma CompilesIs(toks: seq<Token>)
    requires Lexed(toks)
    ensures Compiles(toks) <==> AtEnd(toks, Read(toks)) && Fits(Read(toks).node)
  {
    hide Read, Fits;
  }

  lemma GoodOf(node: Node)
    requires WellFormed(node) && NoRef(node)
    ensures Good(node)
  {
  }

  /** The operator `regexp` of `embloader_try_match`. */
  method FieldMatches(toks: seq<Token>, field: Text) returns (matches: bool)
    requires Lexed(toks) && NoBackRefs(toks)
    ensures matches == FieldSays(toks, field)
  {
    var ret := MatchOnce(toks, field, NO_FLAGS.(icase := true));
    return ret == 1;
  }

  ghost predicate FieldSays(toks: seq<Token>, field: Text)
    requires Lexed(toks)
  {
    Compiles(toks) && Answer(Read(toks).node, field, NO_FLAGS.(icase := true), NO_FLAGS).None?
  }

  /** A field matches a pattern if some part of it is what the pattern says, whatever the case. */
  ghost predicate FieldShould(p: Alts, field: Text) {
    exists i: nat :: i <= |field| && SaysFrom(field, NO_FLAGS.(icase := true), NO_FLAGS, p, i)
  }

  /** For a pattern that the parser gets right the operator answers what it should exactly if the pattern
      needs too much memory to compile, and no part of the field is what it says; for one that compiles it
      answers the contrary. */
  lemma FieldExactly(toks: seq<Token>, p: Alts, field: Text)
    requires Lexed(toks) && Written(toks, p) && OkA(p, START, true) && !Beside(toks) && NoBackRefs(toks)
    ensures FieldSays(toks, field) == FieldShould(p, field) <==> !Compiles(toks) && !FieldShould(p, field)
    ensures Compiles(toks) ==> FieldSays(toks, field) == !FieldShould(p, field)
  {
    hide SaysFrom, Answer, Written, OkA, Beside, Compiles;
    FindsPattern(toks, p, field, NO_FLAGS.(icase := true), NO_FLAGS);
  }
}
