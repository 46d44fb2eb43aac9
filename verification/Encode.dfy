/** The two Unicode converters and the byte copier (`embloader/src/encode`), as functions of the text.

    A source is a sequence of units: bytes of UTF-8, or 16-bit units of UTF-16. A UTF-16 source of odd
    size ends in half a unit, written `HALF`. Masks and shifts of the source are written with `%`, `/`
    and `*` on naturals. */
module Encode {
  import opened Wrappers

  const HALF: Unit := 0x1_0000

  type Unit = n: nat | n <= 0x1_0000 witness 0

  datatype Encoding = Utf8 | Utf16

  datatype Status = Success | InvalidParameter | OutOfResources | UnknownGlyph

  // ------------------------------------------------------------- one character

  /** What stands first in a text: a code point and its length in units, or nothing valid. */
  datatype Glyph = Glyph(code: nat, length: nat) | Ill

  function Other(e: Encoding): Encoding {
    if e.Utf8? then Utf16 else Utf8
  }

  predicate Tail(b: Unit) {
    b / 64 == 2
  }

  function Low6(b: nat): (r: nat)
    ensures r < 64
  {
    b % 64
  }

  function First8(s: seq<Unit>): (g: Glyph)
    requires s != []
    ensures g.Glyph? ==> 0 < g.length <= |s|
  {
    var c: nat := s[0];
    if c < 0x80 then
      Glyph(c, 1)
    else if 0xC2 <= c <= 0xDF && |s| >= 2 && Tail(s[1]) then
      Glyph(c % 32 * 64 + Low6(s[1]), 2)
    else if 0xE0 <= c <= 0xEF && |s| >= 3 && Tail(s[1]) && Tail(s[2]) &&
            (c != 0xE0 || s[1] >= 0xA0) && (c != 0xED || s[1] <= 0x9F) then
      Glyph(c % 16 * 4096 + Low6(s[1]) * 64 + Low6(s[2]), 3)
    else if 0xF0 <= c <= 0xF4 && |s| >= 4 && Tail(s[1]) && Tail(s[2]) && Tail(s[3]) &&
            (c != 0xF0 || s[1] >= 0x90) && (c != 0xF4 || s[1] <= 0x8F) then
      Glyph(c % 8 * 0x4_0000 + Low6(s[1]) * 4096 + Low6(s[2]) * 64 + Low6(s[3]), 4)
    else
      Ill
  }

  function First16(s: seq<Unit>): (g: Glyph)
    requires s != []
    ensures g.Glyph? ==> 0 < g.length <= |s|
  {
    var w: nat := s[0];
    if 0xD800 <= w <= 0xDBFF then
      if |s| >= 2 && 0xDC00 <= s[1] <= 0xDFFF
      then Glyph(0x1_0000 + (w - 0xD800) * 1024 + (s[1] as int - 0xDC00), 2)
      else Ill
    else if 0xDC00 <= w <= 0xDFFF || w == HALF then
      Ill
    else
      Glyph(w, 1)
  }

  function First(e: Encoding, s: seq<Unit>): (g: Glyph)
    requires s != []
    ensures g.Glyph? ==> 0 < g.length <= |s|
  {
    if e.Utf8? then First8(s) else First16(s)
  }

  predicate Scalar(c: nat) {
    c < 0xD800 || 0xE000 <= c <= 0x10_FFFF
  }

  function Encoded8(c: nat): seq<Unit>
    requires Scalar(c)
  {
    if c < 0x80 then [c]
    else if c < 0x800 then [0xC0 + c / 64, 0x80 + c % 64]
    else if c < 0x1_0000 then [0xE0 + c / 4096, 0x80 + c / 64 % 64, 0x80 + c % 64]
    else [0xF0 + c / 0x4_0000, 0x80 + c / 4096 % 64, 0x80 + c / 64 % 64, 0x80 + c % 64]
  }

  function Encoded16(c: nat): seq<Unit>
    requires Scalar(c)
  {
    if c <= 0xFFFF then [c]
    else [0xD800 + (c - 0x1_0000) / 1024, 0xDC00 + (c - 0x1_0000) % 1024]
  }

  function Encoded(e: Encoding, c: nat): (r: seq<Unit>)
    requires Scalar(c)
    ensures r != []
  {
    if e.Utf8? then Encoded8(c) else Encoded16(c)
  }

  /** The decoder accepts a code point exactly when it is a Unicode scalar value whose (shortest)
      encoding stands at the front of the text, and takes exactly that encoding. */
  lemma FirstExact(e: Encoding, s: seq<Unit>, c: nat, n: nat)
    requires s != []
    ensures First(e, s) == Glyph(c, n) <==> Scalar(c) && Encoded(e, c) <= s && n == |Encoded(e, c)|
  {
    if First(e, s) == Glyph(c, n) {
      if e.Utf8? { Sound8(s); } else { Sound16(s); }
    }
    if Scalar(c) && Encoded(e, c) <= s {
      if e.Utf8? { Complete8(s, c); } else { Complete16(s, c); }
    }
  }

  lemma Split2(h: nat, l: nat)
    requires l < 64
    ensures (h * 64 + l) / 64 == h && (h * 64 + l) % 64 == l
  {
  }

  lemma Split3(h: nat, m: nat, l: nat)
    requires m < 64 && l < 64
    ensures var c := h * 4096 + m * 64 + l; c / 4096 == h && c / 64 % 64 == m && c % 64 == l
  {
    var c := h * 4096 + m * 64 + l;
    Split2(h * 64 + m, l);
    Split2(h, m);
    assert c == (h * 64 + m) * 64 + l;
  }

  lemma Split4(h: nat, n: nat, m: nat, l: nat)
    requires n < 64 && m < 64 && l < 64
    ensures var c := h * 0x4_0000 + n * 4096 + m * 64 + l;
      c / 0x4_0000 == h && c / 4096 % 64 == n && c / 64 % 64 == m && c % 64 == l
  {
    var c := h * 0x4_0000 + n * 4096 + m * 64 + l;
    Split3(h * 64 + n, m, l);
    Split2(h, n);
    assert c == (h * 64 + n) * 4096 + m * 64 + l;
  }

  lemma Sound8(s: seq<Unit>)
    requires s != [] && First8(s).Glyph?
    ensures var g := First8(s); Scalar(g.code) && Encoded8(g.code) == s[..g.length]
  {
    var g := First8(s);
    var c: nat := s[0];
    if g.length == 1 {
      assert s[..1] == [s[0]];
    } else if g.length == 2 {
      Split2(c % 32, Low6(s[1]));
      assert s[..2] == [s[0], s[1]];
    } else if g.length == 3 {
      Sound8Of3(s);
    } else {
      Sound8Of4(s);
    }
  }

  lemma Sound8Of3(s: seq<Unit>)
    requires s != [] && First8(s).Glyph? && First8(s).length == 3
    ensures var g := First8(s); Scalar(g.code) && Encoded8(g.code) == s[..g.length]
  {
    hide Low6;
    var g := First8(s);
    var h, m, l := s[0] as nat % 16, Low6(s[1]), Low6(s[2]);
    TailIs(s[1]);
    TailIs(s[2]);
    Split3(h, m, l);
    assert s[0] == 0xE0 + h;
    assert g.code == h * 4096 + m * 64 + l;
    assert 0x800 <= g.code < 0x1_0000;
    assert s[..3] == [s[0], s[1], s[2]];
  }

  lemma Sound8Of4(s: seq<Unit>)
    requires s != [] && First8(s).Glyph? && First8(s).length == 4
    ensures var g := First8(s); Scalar(g.code) && Encoded8(g.code) == s[..g.length]
  {
    hide Low6;
    var g := First8(s);
    var h, n, m, l := s[0] as nat % 8, Low6(s[1]), Low6(s[2]), Low6(s[3]);
    TailIs(s[1]);
    TailIs(s[2]);
    TailIs(s[3]);
    Split4(h, n, m, l);
    assert s[0] == 0xF0 + h;
    assert g.code == h * 0x4_0000 + n * 4096 + m * 64 + l;
    assert 0x1_0000 <= g.code <= 0x10_FFFF;
    assert s[..4] == [s[0], s[1], s[2], s[3]];
  }

  /** A continuation byte is its low six bits behind the mark. */
  lemma TailIs(b: nat)
    ensures b / 64 == 2 <==> b == 0x80 + Low6(b)
  {
  }

  lemma TailOf(l: nat)
    requires l < 64
    ensures (0x80 + l) / 64 == 2 && Low6(0x80 + l) == l
  {
  }

  lemma Sound16(s: seq<Unit>)
    requires s != [] && First16(s).Glyph?
    ensures var g := First16(s); Scalar(g.code) && Encoded16(g.code) == s[..g.length]
  {
    var g := First16(s);
    if g.length == 1 {
      assert s[..1] == [s[0]];
    } else {
      assert s[..2] == [s[0], s[1]];
    }
  }

  lemma Complete8(s: seq<Unit>, c: nat)
    requires Scalar(c) && Encoded8(c) <= s
    ensures First8(s) == Glyph(c, |Encoded8(c)|)
  {
    if c >= 0x1_0000 {
      Complete8Of4(s, c);
    } else if c >= 0x800 {
      Complete8Of3(s, c);
    } else if c >= 0x80 {
      assert s[0] == 0xC0 + c / 64 && s[1] == 0x80 + c % 64;
      TailOf(c % 64);
    } else {
      assert s[0] == c;
    }
  }

  lemma Complete8Of3(s: seq<Unit>, c: nat)
    requires Scalar(c) && 0x800 <= c < 0x1_0000 && Encoded8(c) <= s
    ensures First8(s) == Glyph(c, 3)
  {
    hide Low6;
    var h, m, l := c / 4096, c / 64 % 64, c % 64;
    Digits3(c);
    TailOf(m);
    TailOf(l);
    assert s[0] == 0xE0 + h && s[1] == 0x80 + m && s[2] == 0x80 + l;
    assert s[0] as nat % 16 == h;
    assert h == 0 ==> m >= 0x20;
    assert h == 13 ==> m < 0x20;
  }

  lemma Complete8Of4(s: seq<Unit>, c: nat)
    requires 0x1_0000 <= c <= 0x10_FFFF && Encoded8(c) <= s
    ensures First8(s) == Glyph(c, 4)
  {
    hide Low6;
    var h, n, m, l := c / 0x4_0000, c / 4096 % 64, c / 64 % 64, c % 64;
    Digits4(c);
    TailOf(n);
    TailOf(m);
    TailOf(l);
    assert s[0] == 0xF0 + h && s[1] == 0x80 + n && s[2] == 0x80 + m && s[3] == 0x80 + l;
    assert h <= 4;
    assert s[0] as nat % 8 == h;
    assert h == 0 ==> n >= 0x10;
    assert h == 4 ==> n < 0x10;
  }

  lemma Digits3(c: nat)
    ensures c == c / 4096 * 4096 + c / 64 % 64 * 64 + c % 64
  {
    var d := c / 64;
    assert c == d * 64 + c % 64;
    assert d == d / 64 * 64 + d % 64;
    Split2(d, c % 64);
    Split3(d / 64, d % 64, c % 64);
  }

  lemma Digits4(c: nat)
    ensures c == c / 0x4_0000 * 0x4_0000 + c / 4096 % 64 * 4096 + c / 64 % 64 * 64 + c % 64
  {
    Digits3(c);
    var h := c / 4096;
    assert h == h / 64 * 64 + h % 64;
    Split4(h / 64, h % 64, c / 64 % 64, c % 64);
  }

  lemma Complete16(s: seq<Unit>, c: nat)
    requires Scalar(c) && Encoded16(c) <= s
    ensures First16(s) == Glyph(c, |Encoded16(c)|)
  {
    var r := Encoded16(c);
    assert forall k :: 0 <= k < |r| ==> s[k] == r[k];
  }

  /** One character in the syntax of section 4 of RFC 3629. */
  predicate Utf8Char(b: seq<Unit>) {
    if |b| == 1 then b[0] <= 0x7F
    else if |b| == 2 then 0xC2 <= b[0] <= 0xDF && 0x80 <= b[1] <= 0xBF
    else if |b| == 3 then
      0x80 <= b[2] <= 0xBF &&
      ((b[0] == 0xE0 && 0xA0 <= b[1] <= 0xBF) ||
       (0xE1 <= b[0] <= 0xEC && 0x80 <= b[1] <= 0xBF) ||
       (b[0] == 0xED && 0x80 <= b[1] <= 0x9F) ||
       (0xEE <= b[0] <= 0xEF && 0x80 <= b[1] <= 0xBF))
    else if |b| == 4 then
      0x80 <= b[2] <= 0xBF && 0x80 <= b[3] <= 0xBF &&
      ((b[0] == 0xF0 && 0x90 <= b[1] <= 0xBF) ||
       (0xF1 <= b[0] <= 0xF3 && 0x80 <= b[1] <= 0xBF) ||
       (b[0] == 0xF4 && 0x80 <= b[1] <= 0x8F))
    else false
  }

  /** One character by sections 2.1 and 2.2 of RFC 2781: a unit outside the surrogates, or a high
      surrogate followed by a low one. */
  predicate Utf16Char(u: seq<Unit>) {
    if |u| == 1 then u[0] != HALF && (u[0] < 0xD800 || u[0] > 0xDFFF)
    else |u| == 2 && 0xD800 <= u[0] <= 0xDBFF && 0xDC00 <= u[1] <= 0xDFFF
  }

  predicate Character(e: Encoding, b: seq<Unit>) {
    if e.Utf8? then Utf8Char(b) else Utf16Char(b)
  }

  /** The first `n` units are taken as one character exactly when the standard's syntax says they are one. */
  lemma GrammarExact(e: Encoding, s: seq<Unit>, n: nat)
    requires 0 < n <= |s|
    ensures First(e, s).Glyph? && First(e, s).length == n <==> Character(e, s[..n])
  {
    if e.Utf8? { Grammar8(s, n); } else { Grammar16(s, n); }
  }

  lemma Grammar8(s: seq<Unit>, n: nat)
    requires 0 < n <= |s|
    ensures First8(s).Glyph? && First8(s).length == n <==> Utf8Char(s[..n])
  {
    var b := s[..n];
    assert b[0] == s[0];
    if n > 1 { assert b[1] == s[1]; }
    if n > 2 { assert b[2] == s[2]; }
    if n > 3 { assert b[3] == s[3]; }
  }

  lemma Grammar16(s: seq<Unit>, n: nat)
    requires 0 < n <= |s|
    ensures First16(s).Glyph? && First16(s).length == n <==> Utf16Char(s[..n])
  {
    var b := s[..n];
    assert b[0] == s[0];
    if n > 1 { assert b[1] == s[1]; }
  }

  // ------------------------------------------------------------- transfer rules

  /** A rule that replaces source units by destination units. `Malformed` is a rule whose pointers or
      sizes `encode_proc_transfer` refuses; so is a rule with an empty pattern. */
  datatype Rule = Rule(pattern: seq<Unit>, replacement: seq<Unit>) | Malformed

  datatype Match = Found(consumed: nat, replacement: seq<Unit>) | NotFound | BadRule

  /** The first rule that matches at the front of `s`; a refused rule before it is an error. */
  function Transfer(rules: seq<Rule>, s: seq<Unit>): (m: Match)
    ensures m.Found? ==> 0 < m.consumed <= |s|
  {
    if rules == [] then NotFound
    else if rules[0].Malformed? || rules[0].pattern == [] then BadRule
    else if rules[0].pattern <= s then Found(|rules[0].pattern|, rules[0].replacement)
    else Transfer(rules[1..], s)
  }

  // ------------------------------------------------------------- conversion

  datatype Mode = Recode(from: Encoding) | Copy

  datatype Config = Config(mode: Mode, rules: Option<seq<Rule>>, lenient: bool)

  /** One round of the conversion loop, before it looks at the room left. */
  datatype Step = Take(consumed: nat, piece: seq<Unit>, flagged: bool) | Refuse(status: Status, flagged: bool)

  const QUESTION: Unit := 0x3F

  function Decode(from: Encoding, lenient: bool, s: seq<Unit>): (t: Step)
    requires s != []
    ensures t.Take? ==> 0 < t.consumed <= |s|
    ensures t.Refuse? ==> t.status.UnknownGlyph?
  {
    match First(from, s)
    case Glyph(code, length) => FirstExact(from, s, code, length); Take(length, Encoded(Other(from), code), false)
    case Ill => if lenient then Take(1, [QUESTION], true) else Refuse(UnknownGlyph, true)
  }

  function StepOf(cfg: Config, s: seq<Unit>): (t: Step)
    requires s != []
    ensures t.Take? ==> 0 < t.consumed <= |s|
    ensures t.Refuse? ==> t.status.UnknownGlyph? || t.status.InvalidParameter?
  {
    var m := if cfg.rules.Some? && s[0] != HALF then Transfer(cfg.rules.value, s) else NotFound;
    match m
    case Found(consumed, replacement) => Take(consumed, replacement, false)
    case BadRule => Refuse(InvalidParameter, false)
    case NotFound =>
      match cfg.mode
      case Recode(from) => Decode(from, cfg.lenient, s)
      case Copy => Take(1, [s[0]], false)
  }

  /** The converters stop at a terminator, the copier does not. */
  predicate Ends(cfg: Config, s: seq<Unit>) {
    s == [] || (cfg.mode.Recode? && s[0] == 0)
  }

  datatype Outcome = Outcome(status: Status, used: nat, out: seq<Unit>, flagged: bool)

  /** A step in front of what the rest gave. */
  function Then(t: Step, rest: Outcome): Outcome
    requires t.Take?
  {
    Outcome(rest.status, t.consumed + rest.used, t.piece + rest.out, t.flagged || rest.flagged)
  }

  /** The conversion of the whole text into an unlimited buffer. */
  function Full(cfg: Config, s: seq<Unit>): (r: Outcome)
    ensures r.used <= |s| && !r.status.OutOfResources?
    decreases |s|
  {
    if Ends(cfg, s) then Outcome(Success, 0, [], false)
    else
      var t := StepOf(cfg, s);
      if t.Refuse? then Outcome(t.status, 0, [], t.flagged)
      else Then(t, Full(cfg, s[t.consumed..]))
  }

  /** The conversion into a buffer with `room` for `room` units: it stops before the first piece that
      does not fit. */
  function Bounded(cfg: Config, s: seq<Unit>, room: nat): (r: Outcome)
    ensures r.used <= |s| && |r.out| <= room
    decreases |s|
  {
    if Ends(cfg, s) then Outcome(Success, 0, [], false)
    else
      var t := StepOf(cfg, s);
      if t.Refuse? then Outcome(t.status, 0, [], t.flagged)
      else if |t.piece| > room then Outcome(OutOfResources, 0, [], t.flagged)
      else Then(t, Bounded(cfg, s[t.consumed..], room - |t.piece|))
  }

  /** What a full buffer left can be converted later: the part done and the conversion of the rest make
      up the conversion of the whole. */
  function Joined(part: Outcome, rest: Outcome): Outcome {
    Outcome(rest.status, part.used + rest.used, part.out + rest.out, part.flagged || rest.flagged)
  }

  lemma {:induction false} Resume(cfg: Config, s: seq<Unit>, room: nat)
    ensures var part := Bounded(cfg, s, room);
      if part.status.OutOfResources?
      then Full(cfg, s) == Joined(part, Full(cfg, s[part.used..]))
      else Full(cfg, s) == part
    decreases |s|
  {
    hide *;
    BoundedStep(cfg, s, room);
    FullStep(cfg, s);
    if !Ends(cfg, s) && StepOf(cfg, s).Take? {
      var t, part := StepOf(cfg, s), Bounded(cfg, s, room);
      if |t.piece| > room {
        assert s[0..] == s;
        NothingJoined(part, Full(cfg, s));
      } else {
        var tail := s[t.consumed..];
        Resume(cfg, tail, room - |t.piece|);
        var later := Bounded(cfg, tail, room - |t.piece|);
        ThenJoined(t, later, Full(cfg, tail[later.used..]));
        assert tail[later.used..] == s[t.consumed + later.used..];
      }
    }
  }

  lemma BoundedStep(cfg: Config, s: seq<Unit>, room: nat)
    ensures Ends(cfg, s) ==> Bounded(cfg, s, room) == Outcome(Success, 0, [], false)
    ensures !Ends(cfg, s) ==> s != [] && var t := StepOf(cfg, s);
      Bounded(cfg, s, room) ==
        if t.Refuse? then Outcome(t.status, 0, [], t.flagged)
        else if |t.piece| > room then Outcome(OutOfResources, 0, [], t.flagged)
        else Then(t, Bounded(cfg, s[t.consumed..], room - |t.piece|))
    ensures !Ends(cfg, s) && StepOf(cfg, s).Refuse? ==> !StepOf(cfg, s).status.OutOfResources?
  {
    hide StepOf, Then;
  }

  lemma FullStep(cfg: Config, s: seq<Unit>)
    ensures Ends(cfg, s) ==> Full(cfg, s) == Outcome(Success, 0, [], false)
    ensures !Ends(cfg, s) ==> s != [] && var t := StepOf(cfg, s);
      Full(cfg, s) ==
        if t.Refuse? then Outcome(t.status, 0, [], t.flagged) else Then(t, Full(cfg, s[t.consumed..]))
    ensures !Ends(cfg, s) && StepOf(cfg, s).Take? && StepOf(cfg, s).flagged ==> Full(cfg, s).flagged
  {
    hide StepOf;
  }

  lemma NothingJoined(part: Outcome, rest: Outcome)
    requires part.used == 0 && part.out == [] && (part.flagged ==> rest.flagged)
    ensures Joined(part, rest) == rest
  {
  }

  lemma ThenJoined(t: Step, part: Outcome, rest: Outcome)
    requires t.Take?
    ensures Joined(Then(t, part), rest) == Then(t, Joined(part, rest))
    ensures Then(t, part).status == part.status && Then(t, part).used == t.consumed + part.used
  {
    assert t.piece + (part.out + rest.out) == t.piece + part.out + rest.out;
  }

  /** A buffer that could hold the whole result gets it. */
  lemma {:induction false} FitsWhole(cfg: Config, s: seq<Unit>, room: nat)
    requires |Full(cfg, s).out| <= room
    ensures Bounded(cfg, s, room) == Full(cfg, s)
    decreases |s|
  {
    hide StepOf;
    if Ends(cfg, s) {
    } else {
      var t := StepOf(cfg, s);
      if t.Take? { FitsWhole(cfg, s[t.consumed..], room - |t.piece|); }
    }
  }

  /** The bounded conversion never stops early: what it left out begins with a piece that is longer
      than the room that was left. */
  lemma {:induction false} Greedy(cfg: Config, s: seq<Unit>, room: nat)
    requires Bounded(cfg, s, room).status.OutOfResources?
    ensures var part := Bounded(cfg, s, room);
      var rest := s[part.used..];
      !Ends(cfg, rest) && StepOf(cfg, rest).Take? && |StepOf(cfg, rest).piece| > room - |part.out|
    decreases |s|
  {
    hide StepOf;
    var t := StepOf(cfg, s);
    if |t.piece| > room {
      assert s[0..] == s;
    } else {
      var tail := s[t.consumed..];
      Greedy(cfg, tail, room - |t.piece|);
      var part := Bounded(cfg, tail, room - |t.piece|);
      assert tail[part.used..] == s[t.consumed + part.used..];
    }
  }
}
