/** A whole compiled program: it searches for the leftmost start of a match and records the captures
    of the preferred outcome there. */
module RegexpSearch {
  import opened RegexpAst
  import C = RegexpCompile
  import opened RegexpStops
  import opened RegexpTargets
  import opened RegexpMachine
  import opened RegexpMeaning
  import opened RegexpCorrect
  import opened RegexpLanguage
  import opened Wrappers

  /** The search loop, the whole-match captures and the tree's own code. */
  ghost predicate IsProgram(code: seq<Inst>, node: Node, icase: bool) {
    var e := 4 + C.Len(node);
    && |code| == e + 2
    && code[0] == Split(3, 1)
    && code[1] == IEat(AnyNl)
    && code[2] == Jump(0)
    && code[3] == LPar(0)
    && C.Emitted(code, node, 4, icase)
    && code[e] == RPar(0)
    && code[e + 1] == End
  }

  lemma ProgramSound(code: seq<Inst>, node: Node, icase: bool)
    requires IsProgram(code, node, icase) && Good(node)
    ensures Sound(code)
  {
    hide C.Emitted, C.Len, Good, Stops;
    var e := 4 + C.Len(node);
    EaterStops(code, e + 1);
    StepStops(code, e, e + 1);
    TreeStops(code, node, 4, icase);
    StepStops(code, 3, 4);
    EaterStops(code, 1);
    BranchStops(code, 0, 3, 1);
    StepStops(code, 2, 0);
  }

  /** Nothing leads out of a program, whatever its tree. */
  lemma ProgramInside(code: seq<Inst>, node: Node, icase: bool)
    requires IsProgram(code, node, icase)
    ensures AllInside(code, 0, |code|)
  {
    hide C.Emitted, C.Len;
    TreeInside(code, node, 4, icase);
  }

  /** The outcomes of one attempt, starting at `st`. */
  function Attempt(s: Text, f: Mode, node: Node, st: St): (r: seq<St>)
    requires st.pos <= |s|
    ensures forall t :: t in r ==> st.pos <= t.pos <= |s|
  {
    Out(s, f, One(node), st.(caps := Opened(st.caps, 0, st.pos)))
  }

  /** Attempts from `st` on, until one has an outcome. */
  function Search(s: Text, f: Mode, node: Node, st: St): Option<Caps>
    requires st.pos <= |s|
    decreases |s| - st.pos
  {
    var l := Attempt(s, f, node, st);
    if l != [] then Some(Closed(l[0].caps, 0, l[0].pos))
    else if st.pos < |s| then Search(s, f, node, st.(pos := st.pos + 1))
    else None
  }

  lemma RunAttempt(code: seq<Inst>, s: Text, f: Mode, node: Node, st: St)
    requires IsProgram(code, node, f.folded) && Good(node) && Sound(code) && st.pos <= |s|
    ensures var l := Attempt(s, f, node, st);
      Run(code, s, f, 3, st) == if l == [] then None else Some(Closed(l[0].caps, 0, l[0].pos))
  {
    hide C.Emitted, C.Len, Good, Sound, Out;
    var st' := st.(caps := Opened(st.caps, 0, st.pos));
    var l := Attempt(s, f, node, st);
    Correct(code, s, f, One(node), 4, 4 + C.Len(node), st');
    if l != [] {
      assert l[0] in l;
      var u := l[0].(caps := Closed(l[0].caps, 0, l[0].pos));
      assert Run(code, s, f, 5 + C.Len(node), u) == Some(u.caps);
    }
  }

  /** A program does what the search does. */
  lemma {:induction false} RunSearches(code: seq<Inst>, s: Text, f: Mode, node: Node, st: St)
    requires IsProgram(code, node, f.folded) && Good(node) && Sound(code) && st.pos <= |s|
    ensures Run(code, s, f, 0, st) == Search(s, f, node, st)
    decreases |s| - st.pos
  {
    hide C.Emitted, C.Len, Good, Sound, Out, Attempt;
    RunAttempt(code, s, f, node, st);
    if st.pos < |s| {
      var st' := st.(pos := st.pos + 1);
      RunSearches(code, s, f, node, st');
      assert Run(code, s, f, 2, st') == Run(code, s, f, 0, st');
    }
    assert Run(code, s, f, 1, st) == if st.pos < |s| then Run(code, s, f, 2, st.(pos := st.pos + 1)) else None;
  }

  // ----- what the search finds -----

  /** Some match starts at `i`. */
  ghost predicate Starts(s: Text, f: Mode, node: Node, i: nat) {
    exists j: nat :: Position(s, j) && Matches(s, f, node, i, j)
  }

  lemma AttemptFinds(s: Text, f: Mode, node: Node, st: St)
    requires st.pos <= |s| && WellFormed(node)
    ensures var l := Attempt(s, f, node, st);
      && (l != [] <==> Starts(s, f, node, st.pos))
      && (l != [] ==> Matches(s, f, node, st.pos, l[0].pos) && l[0].caps.sp[0] == st.pos)
  {
    hide Out, Matches;
    var st' := st.(caps := Opened(st.caps, 0, st.pos));
    var l := Attempt(s, f, node, st);
    WellFormedBounded(node);
    LanguageEach(s, f, One(node), st');
    if l != [] {
      assert l[0] in l && EndsAt(l, l[0].pos);
      assert Reaches(s, f, One(node), st'.pos, l[0].pos) && Position(s, l[0].pos);
      KeepsWhole(s, f, One(node), st');
    }
    if j: nat :| Position(s, j) && Matches(s, f, node, st.pos, j) {
      assert Reaches(s, f, One(node), st'.pos, j);
    }
  }

  /** Groups of the pattern never touch the start of the whole match. */
  lemma {:induction false} KeepsWhole(s: Text, f: Mode, p: Part, st: St)
    requires st.pos <= |s|
    ensures forall t :: t in Out(s, f, p, st) ==> t.caps.sp[0] == st.caps.sp[0]
    decreases Base(p), Level(p), 0
  {
    hide OutAll, CloseAll;
    match p
    case One(node) =>
      match node {
        case Cat(x, y) =>
          KeepsWhole(s, f, One(x), st);
          KeepsWholeAll(s, f, One(y), Out(s, f, One(x), st), st.pos, st.caps.sp[0]);
        case Alt(x, y) => KeepsWhole(s, f, One(x), st); KeepsWhole(s, f, One(y), st);
        case Rep(x, ng, m, n) =>
          KeepsWhole(s, f, Times(x, m), st);
          KeepsWholeAll(s, f, Rest(s, x, ng, m, n), Out(s, f, Times(x, m), st), st.pos, st.caps.sp[0]);
        case Par(n, x) =>
          var st' := st.(caps := Opened(st.caps, n, st.pos));
          KeepsWhole(s, f, One(x), st');
          KeepsWholeClose(s, n, Out(s, f, One(x), st'), st.pos, st.caps.sp[0]);
        case Pla(x) => KeepsWhole(s, f, One(x), st);
        case _ =>
      }
    case Times(x, k) =>
      if k > 0 {
        KeepsWhole(s, f, One(x), st);
        KeepsWholeAll(s, f, Times(x, k - 1), Out(s, f, One(x), st), st.pos, st.caps.sp[0]);
      }
    case Opts(x, ng, k) =>
      if k > 0 {
        KeepsWhole(s, f, One(x), st);
        KeepsWholeAll(s, f, Opts(x, ng, k - 1), Prefer(ng, st, Out(s, f, One(x), st)), st.pos, st.caps.sp[0]);
      }
    case Nest(x, ng, k) =>
      if k > 0 {
        KeepsWhole(s, f, One(x), st);
        KeepsWholeAll(s, f, Nest(x, ng, k - 1), Out(s, f, One(x), st), st.pos, st.caps.sp[0]);
      }
  }

  lemma {:induction false} KeepsWholeAll(s: Text, f: Mode, p: Part, l: seq<St>, from: nat, w: int)
    requires forall t :: t in l ==> from <= t.pos <= |s|
    requires forall t :: t in l ==> t.caps.sp[0] == w
    ensures forall t :: t in OutAll(s, f, p, l, from) ==> t.caps.sp[0] == w
    decreases Base(p), Level(p), 1, |l|
  {
    hide Out;
    if l != [] {
      assert l[0] in l && forall t :: t in l[1..] ==> t in l;
      KeepsWhole(s, f, p, l[0]);
      KeepsWholeAll(s, f, p, l[1..], from, w);
    }
  }

  lemma {:induction false} KeepsWholeClose(s: Text, n: Group, l: seq<St>, from: nat, w: int)
    requires forall t :: t in l ==> from <= t.pos <= |s|
    requires forall t :: t in l ==> t.caps.sp[0] == w
    ensures forall t :: t in CloseAll(s, n, l, from) ==> t.caps.sp[0] == w
  {
    if l != [] {
      assert l[0] in l && forall t :: t in l[1..] ==> t in l;
      KeepsWholeClose(s, n, l[1..], from, w);
    }
  }

  /** The search succeeds exactly when some match starts at or after `st`, and then reports the
      leftmost start, an end that belongs to it, and the captures of the preferred outcome there. */
  lemma {:induction false} SearchLeftmost(s: Text, f: Mode, node: Node, st: St)
    requires st.pos <= |s| && WellFormed(node)
    ensures var r := Search(s, f, node, st);
      && (r.None? <==> forall i: nat :: st.pos <= i <= |s| ==> !Starts(s, f, node, i))
      && (r.Some? ==>
            var i, j := r.value.sp[0], r.value.ep[0];
            && st.pos <= i <= j <= |s|
            && Matches(s, f, node, i, j)
            && (forall k: nat :: st.pos <= k < i ==> !Starts(s, f, node, k))
            && var l := Attempt(s, f, node, St(i, st.caps));
               l != [] && r.value == Closed(l[0].caps, 0, l[0].pos))
    decreases |s| - st.pos
  {
    hide Attempt, Matches, Starts;
    AttemptFinds(s, f, node, st);
    if Attempt(s, f, node, st) == [] && st.pos < |s| {
      SearchLeftmost(s, f, node, st.(pos := st.pos + 1));
    } else if Attempt(s, f, node, st) != [] {
      var l := Attempt(s, f, node, st);
      assert l[0] in l && St(st.pos, st.caps) == st;
    }
  }
}
