/** The backtracking machine: what running a program from some instruction yields, and the matcher
    that computes it in place. */
module RegexpMachine {
  import opened RegexpAst
  import opened RegexpStops
  import opened Wrappers

  /** Start or end positions of all groups; -1 is the null pointer. */
  type Slots = s: seq<int> | |s| == MAXSUB witness [-1, -1, -1, -1, -1, -1, -1, -1, -1, -1]

  datatype Caps = Caps(sp: Slots, ep: Slots)

  /** A position in the text and the captures so far. */
  datatype St = St(pos: nat, caps: Caps)

  const NO_CAPS: Slots := [-1, -1, -1, -1, -1, -1, -1, -1, -1, -1]

  ghost predicate Sound(code: seq<Inst>) {
    AllStop(code, 0, |code|)
  }

  // ----- how long the machine can stay at one position -----

  ghost function Least(code: seq<Inst>, pc: nat, k: nat): (r: nat)
    requires Within(code, pc, k)
    ensures Within(code, pc, r) && r <= k
    ensures forall j: nat :: Within(code, pc, j) ==> r <= j
  {
    if k > 0 && Within(code, pc, k - 1) then Least(code, pc, k - 1)
    else
      assert forall j: nat :: Within(code, pc, j) ==> k <= j by {
        forall j: nat | Within(code, pc, j) && j < k ensures false { WithinMore(code, pc, j, k - 1); }
      }
      k
  }

  ghost function Depth(code: seq<Inst>, pc: nat): (r: nat)
    requires Stops(code, pc)
    ensures Within(code, pc, r)
    ensures forall j: nat :: Within(code, pc, j) ==> r <= j
  {
    var k: nat :| Within(code, pc, k);
    Least(code, pc, k)
  }

  /** The successors of `pc` at the same position are less deep. */
  ghost predicate Below(code: seq<Inst>, pc: nat, x: nat)
    requires Stops(code, pc)
  {
    x < |code| && Stops(code, x) && Depth(code, x) < Depth(code, pc)
  }

  lemma DepthFalls(code: seq<Inst>, pc: nat)
    requires Stops(code, pc)
    ensures pc < |code|
    ensures match code[pc]
      case End => true
      case Jump(x) => Below(code, pc, x)
      case Split(x, y) => Below(code, pc, x) && Below(code, pc, y)
      case IPla(x, y) => Below(code, pc, x) && Below(code, pc, y)
      case INla(x, y) => Below(code, pc, x) && Below(code, pc, y)
      case IEat(_) => pc + 1 < |code|
      case IAssert(_) => Below(code, pc, pc + 1)
      case LPar(n) => n < MAXSUB && Below(code, pc, pc + 1)
      case RPar(n) => n < MAXSUB && Below(code, pc, pc + 1)
      case IRef(_) => false
  {
    var k := Depth(code, pc);
    match code[pc]
    case Jump(x) => Falls(code, pc, x);
    case Split(x, y) => Falls(code, pc, x); Falls(code, pc, y);
    case IPla(x, y) => Falls(code, pc, x); Falls(code, pc, y);
    case INla(x, y) => Falls(code, pc, x); Falls(code, pc, y);
    case IAssert(_) => Falls(code, pc, pc + 1);
    case LPar(_) => Falls(code, pc, pc + 1);
    case RPar(_) => Falls(code, pc, pc + 1);
    case _ =>
  }

  lemma Falls(code: seq<Inst>, pc: nat, x: nat)
    requires Stops(code, pc) && Depth(code, pc) > 0 && Within(code, x, Depth(code, pc) - 1)
    ensures Below(code, pc, x)
  {
    assert Stops(code, x);
  }

  // ----- the machine -----

  /** What `match` returns from instruction `pc`: the captures on success. */
  ghost function Run(code: seq<Inst>, s: Text, f: Mode, pc: nat, st: St): Option<Caps>
    requires Sound(code) && pc < |code| && st.pos <= |s|
    decreases |s| - st.pos, Depth(code, pc)
  {
    DepthFalls(code, pc);
    match code[pc]
    case End => Some(st.caps)
    case Jump(x) => Run(code, s, f, x, st)
    case Split(x, y) =>
      var r := Run(code, s, f, x, st);
      if r.Some? then r else Run(code, s, f, y, st)
    case IPla(x, y) =>
      var r := Run(code, s, f, x, st);
      if r.None? then None else Run(code, s, f, y, st.(caps := r.value))
    case INla(x, y) =>
      if Run(code, s, f, x, st).Some? then None else Run(code, s, f, y, st)
    case IEat(t) =>
      if Eats(t, s, f, st.pos) then Run(code, s, f, pc + 1, st.(pos := st.pos + 1)) else None
    case IAssert(a) =>
      if Holds(a, s, f, st.pos) then Run(code, s, f, pc + 1, st) else None
    case LPar(n) => Run(code, s, f, pc + 1, st.(caps := Opened(st.caps, n, st.pos)))
    case RPar(n) => Run(code, s, f, pc + 1, st.(caps := Closed(st.caps, n, st.pos)))
  }

  function Opened(c: Caps, n: nat, pos: nat): Caps
    requires n < MAXSUB
  {
    c.(sp := c.sp[n := pos])
  }

  function Closed(c: Caps, n: nat, pos: nat): Caps
    requires n < MAXSUB
  {
    c.(ep := c.ep[n := pos])
  }

  // ----- the matcher -----

  /** The capture table that a match fills in. */
  class Resub {
    var nsub: nat
    var sp: Slots
    var ep: Slots

    constructor (sp: Slots, ep: Slots)
      ensures this.sp == sp && this.ep == ep && nsub == 0
    {
      this.sp, this.ep, nsub := sp, ep, 0;
    }

    ghost function Table(): Caps
      reads this
    {
      Caps(sp, ep)
    }
  }

  /** On failure the table holds no particular values. */
  method Match(code: seq<Inst>, s: Text, f: Mode, pc0: nat, sp0: nat, out: Resub) returns (ok: bool)
    requires Sound(code) && pc0 < |code| && sp0 <= |s|
    modifies out`sp, out`ep
    ensures var r := Run(code, s, f, pc0, St(sp0, old(out.Table())));
      if ok then r == Some(out.Table()) else r.None?
    decreases |s| - sp0, Depth(code, pc0), 0
  {
    var pc: nat, sp: nat := pc0, sp0;
    ghost var goal := Run(code, s, f, pc, St(sp, out.Table()));
    while true
      invariant pc < |code| && sp <= |s|
      invariant |s| - sp < |s| - sp0 || (sp == sp0 && Depth(code, pc) <= Depth(code, pc0))
      invariant Run(code, s, f, pc, St(sp, out.Table())) == goal
      decreases |s| - sp, Depth(code, pc)
    {
      DepthFalls(code, pc);
      match code[pc] {
        case End => return true;
        case Jump(x) => pc := x;
        case Split(x, y) =>
          var scratch := new Resub(out.sp, out.ep);
          var found := Match(code, s, f, x, sp, scratch);
          if found {
            out.sp, out.ep := scratch.sp, scratch.ep;
            return true;
          }
          pc := y;
        case IPla(x, y) =>
          var found := Match(code, s, f, x, sp, out);
          if !found { return false; }
          pc := y;
        case INla(x, y) =>
          var scratch := new Resub(out.sp, out.ep);
          var found := Match(code, s, f, x, sp, scratch);
          if found { return false; }
          pc := y;
        case IEat(t) =>
          if !Eats(t, s, f, sp) { return false; }
          pc, sp := pc + 1, sp + 1;
        case IAssert(a) =>
          if !Holds(a, s, f, sp) { return false; }
          pc := pc + 1;
        case LPar(n) =>
          out.sp := out.sp[n := sp];
          pc := pc + 1;
        case RPar(n) =>
          out.ep := out.ep[n := sp];
          pc := pc + 1;
      }
    }
  }
}
