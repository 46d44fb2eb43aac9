/** What the capture table holds after a match: a group that was recorded holds a part of the text that its
    body matches. */
module RegexpCaptures {
  import opened RegexpAst
  import opened RegexpMachine
  import opened RegexpMeaning
  import opened RegexpLanguage
  import opened RegexpSearch
  import opened RegexpAnswer
  import opened Wrappers

  // ----- the groups of a tree -----

  /** How often a tree uses the number of a group. */
  function Uses(node: Node, g: Group): nat {
    match node
    case Cat(x, y) => Uses(x, g) + Uses(y, g)
    case Alt(x, y) => Uses(x, g) + Uses(y, g)
    case Rep(x, _, _, _) => Uses(x, g)
    case Par(n, x) => Uses(x, g) + if n == g then 1 else 0
    case Pla(x) => Uses(x, g)
    case Nla(x) => Uses(x, g)
    case _ => 0
  }

  /** The group has the body `b` wherever the tree uses it. */
  predicate Body(node: Node, g: Group, b: Node) {
    match node
    case Cat(x, y) => Body(x, g, b) && Body(y, g, b)
    case Alt(x, y) => Body(x, g, b) && Body(y, g, b)
    case Rep(x, _, _, _) => Body(x, g, b)
    case Par(n, x) => Body(x, g, b) && (n == g ==> x == b)
    case Pla(x) => Body(x, g, b)
    case Nla(x) => Body(x, g, b)
    case _ => true
  }

  /** The group stands in no lookahead. */
  predicate Outside(node: Node, g: Group) {
    match node
    case Cat(x, y) => Outside(x, g) && Outside(y, g)
    case Alt(x, y) => Outside(x, g) && Outside(y, g)
    case Rep(x, _, _, _) => Outside(x, g)
    case Par(_, x) => Outside(x, g)
    case Pla(x) => Uses(x, g) == 0
    case Nla(x) => Uses(x, g) == 0
    case _ => true
  }

  /** The group is used once, if at all, with this body. */
  predicate Once(node: Node, g: Group, b: Node, free: bool) {
    Uses(node, g) <= 1 && Body(node, g, b) && (free ==> Outside(node, g))
  }

  // ----- how its entry fares -----

  /** From `st` to `t` the group's entry stayed, or it was set to a part of the text that the body matches,
      behind `st` and, if the group is `free` of lookaheads, in front of `t`. */
  ghost predicate Fares(s: Text, f: Mode, g: Group, b: Node, free: bool, st: St, t: St) {
    st.pos <= t.pos &&
    ((t.caps.sp[g] == st.caps.sp[g] && t.caps.ep[g] == st.caps.ep[g]) ||
     (st.pos <= t.caps.sp[g] <= t.caps.ep[g] <= |s| && (free ==> t.caps.ep[g] <= t.pos) &&
      Matches(s, f, b, t.caps.sp[g], t.caps.ep[g])))
  }

  ghost predicate AllFare(s: Text, f: Mode, g: Group, b: Node, free: bool, st: St, l: seq<St>) {
    forall t :: t in l ==> Fares(s, f, g, b, free, st, t)
  }

  lemma FaresOn(s: Text, f: Mode, g: Group, b: Node, free: bool, st: St, t: St, u: St)
    requires Fares(s, f, g, b, free, st, t) && Fares(s, f, g, b, free, t, u)
    ensures Fares(s, f, g, b, free, st, u)
  {
    hide Matches;
  }

  lemma {:induction false} OutFares(s: Text, f: Mode, p: Part, g: Group, b: Node, free: bool, st: St)
    requires st.pos <= |s| && Bounded(Base(p)) && Once(Base(p), g, b, free)
    ensures AllFare(s, f, g, b, free, st, Out(s, f, p, st))
    decreases Base(p), Level(p), 0
  {
    hide OutAll, OutOne, Once, Fares, Bounded, AllFare;
    NoneFares(s, f, g, b, free, st);
    StayFares(s, f, g, b, free, st, []);
    match p
    case One(node) => OneFares(s, f, node, g, b, free, st);
    case Times(x, k) =>
      if k > 0 {
        OutFares(s, f, One(x), g, b, free, st);
        EachFares(s, f, Times(x, k - 1), g, b, free, st, Out(s, f, One(x), st), st.pos);
      }
    case Opts(x, ng, k) =>
      if k > 0 {
        OutFares(s, f, One(x), g, b, free, st);
        StayFares(s, f, g, b, free, st, Out(s, f, One(x), st));
        EachFares(s, f, Opts(x, ng, k - 1), g, b, free, st, Prefer(ng, st, Out(s, f, One(x), st)), st.pos);
      }
    case Nest(x, ng, k) =>
      if k > 0 {
        OutFares(s, f, One(x), g, b, free, st);
        EachFares(s, f, Nest(x, ng, k - 1), g, b, free, st, Out(s, f, One(x), st), st.pos);
        StayFares(s, f, g, b, free, st, OutAll(s, f, Nest(x, ng, k - 1), Out(s, f, One(x), st), st.pos));
      }
  }

  lemma NoneFares(s: Text, f: Mode, g: Group, b: Node, free: bool, st: St)
    ensures AllFare(s, f, g, b, free, st, [])
  {
  }

  /** Leaving something out, before or after trying it. */
  lemma StayFares(s: Text, f: Mode, g: Group, b: Node, free: bool, st: St, l: seq<St>)
    requires AllFare(s, f, g, b, free, st, l)
    ensures AllFare(s, f, g, b, free, st, [st])
    ensures forall ng :: AllFare(s, f, g, b, free, st, Prefer(ng, st, l))
  {
    hide Fares;
    FaresSelf(s, f, g, b, free, st);
  }

  lemma FaresSelf(s: Text, f: Mode, g: Group, b: Node, free: bool, st: St)
    ensures Fares(s, f, g, b, free, st, st)
  {
  }

  lemma {:induction false} EachFares(s: Text, f: Mode, p: Part, g: Group, b: Node, free: bool, st: St, l: seq<St>,
                                     from: nat)
    requires Bounded(Base(p)) && Once(Base(p), g, b, free) && forall t :: t in l ==> from <= t.pos <= |s|
    requires AllFare(s, f, g, b, free, st, l)
    ensures AllFare(s, f, g, b, free, st, OutAll(s, f, p, l, from))
    decreases Base(p), Level(p), 1, |l|
  {
    hide Out, Once, Fares, Bounded;
    if l != [] {
      assert l[0] in l && forall t :: t in l[1..] ==> t in l;
      OutFares(s, f, p, g, b, free, l[0]);
      forall u | u in Out(s, f, p, l[0]) ensures Fares(s, f, g, b, free, st, u) {
        FaresOn(s, f, g, b, free, st, l[0], u);
      }
      EachFares(s, f, p, g, b, free, st, l[1..], from);
    }
  }

  lemma {:induction false} OneFares(s: Text, f: Mode, node: Node, g: Group, b: Node, free: bool, st: St)
    requires st.pos <= |s| && Bounded(node) && Once(node, g, b, free)
    ensures AllFare(s, f, g, b, free, st, OutOne(s, f, node, st))
    decreases node, 0, 0
  {
    hide Out, OutAll, CloseAll, Fares, Accepts, Holds;
    FaresSelf(s, f, g, b, free, st);
    match node {
      case Cat(x, y) =>
        OutFares(s, f, One(x), g, b, free, st);
        EachFares(s, f, One(y), g, b, free, st, Out(s, f, One(x), st), st.pos);
      case Alt(x, y) =>
        OutFares(s, f, One(x), g, b, free, st);
        OutFares(s, f, One(y), g, b, free, st);
      case Rep(x, ng, m, n) =>
        OutFares(s, f, Times(x, m), g, b, free, st);
        EachFares(s, f, Rest(s, x, ng, m, n), g, b, free, st, Out(s, f, Times(x, m), st), st.pos);
      case Par(n, x) => GroupFares(s, f, n, x, g, b, free, st);
      case Pla(x) => LookFares(s, f, x, g, b, free, st);
      case Eat(_) => MovedFares(s, f, g, b, free, st);
      case _ =>
    }
  }

  lemma MovedFares(s: Text, f: Mode, g: Group, b: Node, free: bool, st: St)
    ensures Fares(s, f, g, b, free, st, st.(pos := st.pos + 1))
  {
  }

  /** What a lookahead recorded stays, though the text goes on where it began. */
  lemma {:induction false} LookFares(s: Text, f: Mode, x: Node, g: Group, b: Node, free: bool, st: St)
    requires st.pos <= |s| && Bounded(x) && Once(Pla(x), g, b, free)
    ensures AllFare(s, f, g, b, free, st, OutOne(s, f, Pla(x), st))
    decreases x, 9, 0
  {
    hide Out;
    var l := Out(s, f, One(x), st);
    if Uses(x, g) == 0 { Unused(x, g); }
    OutFares(s, f, One(x), g, b, false, st);
    if l != [] {
      assert l[0] in l;
      if Uses(x, g) == 0 { UnusedStays(s, f, One(x), g, st); }
    }
  }

  lemma {:induction false} Unused(x: Node, g: Group)
    requires Uses(x, g) == 0
    ensures Outside(x, g) && forall b :: Body(x, g, b)
  {
    match x {
      case Cat(y, z) => Unused(y, g); Unused(z, g);
      case Alt(y, z) => Unused(y, g); Unused(z, g);
      case Rep(y, _, _, _) => Unused(y, g);
      case Par(_, y) => Unused(y, g);
      case Pla(y) => Unused(y, g);
      case Nla(y) => Unused(y, g);
      case _ =>
    }
  }

  /** A body that matches nothing. */
  const NEVER: Node := Ref(1, Null)

  lemma NeverMatches(s: Text, f: Mode, i: nat, j: nat)
    ensures !Matches(s, f, NEVER, i, j)
  {
  }

  /** The entry of a group that is not used stays. */
  lemma UnusedStays(s: Text, f: Mode, p: Part, g: Group, st: St)
    requires st.pos <= |s| && Bounded(Base(p)) && Uses(Base(p), g) == 0
    ensures forall t :: t in Out(s, f, p, st) ==>
      t.caps.sp[g] == st.caps.sp[g] && t.caps.ep[g] == st.caps.ep[g]
    decreases Base(p), Level(p), 2
  {
    hide Out, Matches, Bounded;
    Unused(Base(p), g);
    OutFares(s, f, p, g, NEVER, true, st);
    forall t | t in Out(s, f, p, st) ensures t.caps.sp[g] == st.caps.sp[g] && t.caps.ep[g] == st.caps.ep[g] {
      assert Fares(s, f, g, NEVER, true, st, t);
      if t.caps.sp[g] >= 0 && t.caps.ep[g] >= 0 { NeverMatches(s, f, t.caps.sp[g], t.caps.ep[g]); }
    }
  }

  lemma {:induction false} GroupFares(s: Text, f: Mode, n: Group, x: Node, g: Group, b: Node, free: bool, st: St)
    requires st.pos <= |s| && Bounded(x) && Once(Par(n, x), g, b, free)
    ensures AllFare(s, f, g, b, free, st, OutOne(s, f, Par(n, x), st))
    decreases x, 9, 0
  {
    hide Out, OutOne, CloseAll, Matches, Bounded, Fares, Opened, Closed;
    var st' := st.(caps := Opened(st.caps, n, st.pos));
    var l := Out(s, f, One(x), st');
    ParOutcomes(s, f, n, x, st);
    CloseEach(s, n, l, st.pos);
    OutFares(s, f, One(x), g, b, free, st');
    if n == g { UnusedStays(s, f, One(x), g, st'); }
    forall t | t in l ensures Fares(s, f, g, b, free, st, t.(caps := Closed(t.caps, n, t.pos))) {
      if n == g { OutcomeMatches(s, f, x, st', t); }
      ClosedFares(s, f, n, x, g, b, free, st, t);
    }
  }

  lemma ParOutcomes(s: Text, f: Mode, n: Group, x: Node, st: St)
    requires st.pos <= |s|
    ensures OutOne(s, f, Par(n, x), st) ==
      CloseAll(s, n, Out(s, f, One(x), st.(caps := Opened(st.caps, n, st.pos))), st.pos)
  {
    hide Out, CloseAll, Opened;
  }

  lemma ClosedFares(s: Text, f: Mode, n: Group, x: Node, g: Group, b: Node, free: bool, st: St, t: St)
    requires var st' := st.(caps := Opened(st.caps, n, st.pos));
      Fares(s, f, g, b, free, st', t) &&
      (n == g ==> x == b && t.caps.sp[g] == st'.caps.sp[g] && Matches(s, f, x, st.pos, t.pos) && t.pos <= |s|)
    ensures Fares(s, f, g, b, free, st, t.(caps := Closed(t.caps, n, t.pos)))
  {
    hide Matches;
  }

  lemma OutcomeMatches(s: Text, f: Mode, x: Node, st: St, t: St)
    requires st.pos <= |s| && Bounded(x) && t in Out(s, f, One(x), st)
    ensures Matches(s, f, x, st.pos, t.pos)
  {
    hide Out, Matches;
    Language(s, f, One(x), st, t.pos);
    assert EndsAt(Out(s, f, One(x), st), t.pos);
    assert Reaches(s, f, One(x), st.pos, t.pos);
  }

  lemma {:induction false} CloseEach(s: Text, n: Group, l: seq<St>, from: nat)
    requires forall t :: t in l ==> from <= t.pos <= |s|
    ensures forall u :: u in CloseAll(s, n, l, from) ==>
      exists t :: t in l && u == t.(caps := Closed(t.caps, n, t.pos))
  {
    hide Closed;
    if l != [] {
      assert l[0] in l && forall t :: t in l[1..] ==> t in l;
      CloseEach(s, n, l[1..], from);
    }
  }

  // ----- groups that are always recorded -----

  /** There is no way through the tree around the group. */
  predicate Sure(node: Node, g: Group) {
    match node
    case Cat(x, y) => Sure(x, g) || Sure(y, g)
    case Alt(x, y) => Sure(x, g) && Sure(y, g)
    case Rep(x, _, m, _) => m > 0 && Sure(x, g)
    case Par(n, x) => n == g || Sure(x, g)
    case Pla(x) => Sure(x, g)
    case _ => false
  }

  predicate SurePart(p: Part, g: Group) {
    match p
    case One(node) => Sure(node, g)
    case Times(x, k) => k > 0 && Sure(x, g)
    case _ => false
  }

  ghost predicate AllRecorded(g: Group, l: seq<St>) {
    forall t :: t in l ==> t.caps.ep[g] >= 0
  }

  lemma {:induction false} SureOut(s: Text, f: Mode, p: Part, g: Group, b: Node, st: St)
    requires st.pos <= |s| && Bounded(Base(p)) && Once(Base(p), g, b, false) && SurePart(p, g)
    ensures AllRecorded(g, Out(s, f, p, st))
    decreases Base(p), Level(p), 0
  {
    hide OutAll, OutOne, Once, Bounded;
    match p
    case One(node) => SureOne(s, f, node, g, b, st);
    case Times(x, k) =>
      SureOut(s, f, One(x), g, b, st);
      SureAll(s, f, Times(x, k - 1), g, b, Out(s, f, One(x), st), st.pos);
  }

  lemma {:induction false} SureAll(s: Text, f: Mode, p: Part, g: Group, b: Node, l: seq<St>, from: nat)
    requires Bounded(Base(p)) && Once(Base(p), g, b, false) && forall t :: t in l ==> from <= t.pos <= |s|
    requires AllRecorded(g, l) || SurePart(p, g)
    ensures AllRecorded(g, OutAll(s, f, p, l, from))
    decreases Base(p), Level(p), 1, |l|
  {
    hide Out, Once, Bounded, Matches;
    if l != [] {
      assert l[0] in l && forall t :: t in l[1..] ==> t in l;
      if SurePart(p, g) {
        SureOut(s, f, p, g, b, l[0]);
      } else {
        OutFares(s, f, p, g, b, false, l[0]);
      }
      SureAll(s, f, p, g, b, l[1..], from);
    }
  }

  lemma {:induction false} SureOne(s: Text, f: Mode, node: Node, g: Group, b: Node, st: St)
    requires st.pos <= |s| && Bounded(node) && Once(node, g, b, false) && Sure(node, g)
    ensures AllRecorded(g, OutOne(s, f, node, st))
    decreases node, 0, 0
  {
    hide Out, OutAll;
    match node {
      case Cat(x, y) =>
        if Sure(x, g) { SureOut(s, f, One(x), g, b, st); }
        SureAll(s, f, One(y), g, b, Out(s, f, One(x), st), st.pos);
      case Alt(x, y) =>
        SureOut(s, f, One(x), g, b, st);
        SureOut(s, f, One(y), g, b, st);
      case Rep(x, ng, m, n) =>
        SureOut(s, f, Times(x, m), g, b, st);
        SureAll(s, f, Rest(s, x, ng, m, n), g, b, Out(s, f, Times(x, m), st), st.pos);
      case Par(n, x) =>
        var st' := st.(caps := Opened(st.caps, n, st.pos));
        if n != g { SureOut(s, f, One(x), g, b, st'); }
        CloseEach(s, n, Out(s, f, One(x), st'), st.pos);
      case Pla(x) => SureOut(s, f, One(x), g, b, st);
    }
  }

  // ----- after a match -----

  /** Whatever the text and the flags: after a match, a group that the tree uses once, outside lookaheads,
      and that has been recorded, holds a part of the whole match, and its body matches that part. A group
      in a lookahead holds a part of the text behind the start of the match. */
  lemma GroupHolds(node: Node, s: Text, c: Flags, e: Flags, g: Group, b: Node)
    requires WellFormed(node) && Uses(node, g) == 1 && Body(node, g, b)
    requires Answer(node, s, c, e).Some? && Answer(node, s, c, e).value.ep[g] != -1
    ensures var r := Answer(node, s, c, e).value;
      && 0 <= r.sp[0] <= r.sp[g] <= r.ep[g] <= |s| && Matches(s, Both(c, e), b, r.sp[g], r.ep[g])
      && (Outside(node, g) ==> r.ep[g] <= r.ep[0])
  {
    hide Matches, Attempt, Search, Out, WellFormed, Starts;
    var f, st := Both(c, e), St(0, NO_TABLE);
    SearchLeftmost(s, f, node, st);
    WellFormedBounded(node);
    var r := Answer(node, s, c, e).value;
    var i := r.sp[0];
    AttemptFares(s, f, node, g, b, Outside(node, g), i);
    var l := Attempt(s, f, node, St(i, NO_TABLE));
    assert l[0] in l;
  }

  lemma AttemptFares(s: Text, f: Mode, node: Node, g: Group, b: Node, free: bool, i: nat)
    requires i <= |s| && Bounded(node) && Once(node, g, b, free)
    ensures forall t :: t in Attempt(s, f, node, St(i, NO_TABLE)) ==>
      t.caps.ep[g] == -1 ||
      (i <= t.caps.sp[g] <= t.caps.ep[g] <= |s| && (free ==> t.caps.ep[g] <= t.pos) &&
       Matches(s, f, b, t.caps.sp[g], t.caps.ep[g]))
  {
    hide Matches, Out, Bounded, Once;
    var st := St(i, NO_TABLE);
    OutFares(s, f, One(node), g, b, free, st.(caps := Opened(st.caps, 0, i)));
  }

  /** After a match, a group that there is no way around has been recorded. */
  lemma GroupRecorded(node: Node, s: Text, c: Flags, e: Flags, g: Group, b: Node)
    requires WellFormed(node) && Uses(node, g) == 1 && Body(node, g, b) && Sure(node, g)
    requires Answer(node, s, c, e).Some?
    ensures Answer(node, s, c, e).value.ep[g] >= 0
  {
    hide Matches, Search, Out, WellFormed, Starts, Bounded, Uses, Body, Outside;
    var f := Both(c, e);
    SearchLeftmost(s, f, node, St(0, NO_TABLE));
    WellFormedBounded(node);
    var i := Answer(node, s, c, e).value.sp[0];
    var l := Attempt(s, f, node, St(i, NO_TABLE));
    SureOut(s, f, One(node), g, b, St(i, Opened(NO_TABLE, 0, i)));
    assert l[0] in l;
  }
}
