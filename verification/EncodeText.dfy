/** What the conversions mean for whole texts: which texts are well-formed, round trips, and how long a
    result can be. */
module EncodeText {
  import opened Wrappers
  import opened Encode

  predicate NulFree(s: seq<Unit>) {
    forall k :: 0 <= k < |s| ==> s[k] != 0
  }

  /** A text is well-formed when it splits into characters of the standard's syntax. */
  predicate WellFormed(e: Encoding, s: seq<Unit>)
    decreases |s|
  {
    s == [] || exists n :: 0 < n <= |s| && Character(e, s[..n]) && WellFormed(e, s[n..])
  }

  function Plain(from: Encoding, lenient: bool): Config {
    Config(Recode(from), None, lenient)
  }

  predicate AllScalar(cs: seq<nat>) {
    forall k :: 0 <= k < |cs| ==> Scalar(cs[k]) && cs[k] != 0
  }

  /** The encoding of a text of scalar values. */
  function Text(e: Encoding, cs: seq<nat>): seq<Unit>
    requires AllScalar(cs)
  {
    if cs == [] then [] else Encoded(e, cs[0]) + Text(e, cs[1..])
  }

  lemma EncodedNotNul(e: Encoding, c: nat)
    requires Scalar(c) && c != 0
    ensures NulFree(Encoded(e, c))
  {
  }

  lemma {:induction false} TextNulFree(e: Encoding, cs: seq<nat>)
    requires AllScalar(cs)
    ensures NulFree(Text(e, cs))
  {
    if cs != [] {
      EncodedNotNul(e, cs[0]);
      TextNulFree(e, cs[1..]);
    }
  }

  /** The converter transcodes: from the one encoding of a text it makes the other encoding of it. */
  lemma {:induction false} Transcodes(from: Encoding, lenient: bool, cs: seq<nat>)
    requires AllScalar(cs)
    ensures Full(Plain(from, lenient), Text(from, cs)) ==
      Outcome(Success, |Text(from, cs)|, Text(Other(from), cs), false)
  {
    hide First, Encoded, Scalar;
    if cs != [] {
      var s := Text(from, cs);
      var head, tail := Encoded(from, cs[0]), Text(from, cs[1..]);
      FirstExact(from, s, cs[0], |head|);
      TextNulFree(from, cs);
      Transcodes(from, lenient, cs[1..]);
      assert s[|head|..] == tail;
    }
  }

  /** Every well-formed text without a terminator encodes some scalar values. */
  lemma {:induction false} Decodes(e: Encoding, s: seq<Unit>) returns (cs: seq<nat>)
    requires WellFormed(e, s) && NulFree(s)
    ensures AllScalar(cs) && Text(e, cs) == s
    decreases |s|
  {
    hide First, Encoded, Character, Scalar;
    if s == [] { return []; }
    var n :| 0 < n <= |s| && Character(e, s[..n]) && WellFormed(e, s[n..]);
    GrammarExact(e, s, n);
    var c := First(e, s).code;
    FirstExact(e, s, c, n);
    var rest := Decodes(e, s[n..]);
    cs := [c] + rest;
    NotNul(e, c, s);
    assert cs[1..] == rest;
    assert Encoded(e, c) == s[..n];
    assert s == s[..n] + s[n..];
  }

  lemma NotNul(e: Encoding, c: nat, s: seq<Unit>)
    requires Scalar(c) && Encoded(e, c) <= s && NulFree(s)
    ensures c != 0
  {
    assert s[0] == Encoded(e, c)[0];
  }

  /** Text encodes to a well-formed text. */
  lemma {:induction false} TextWellFormed(e: Encoding, cs: seq<nat>)
    requires AllScalar(cs)
    ensures WellFormed(e, Text(e, cs))
  {
    hide First, Encoded, Character, Scalar;
    if cs != [] {
      var s := Text(e, cs);
      var n := |Encoded(e, cs[0])|;
      FirstExact(e, s, cs[0], n);
      GrammarExact(e, s, n);
      TextWellFormed(e, cs[1..]);
      assert s[n..] == Text(e, cs[1..]);
      assert Character(e, s[..n]) && WellFormed(e, s[n..]);
    }
  }

  /** UTF-8 to UTF-16 to UTF-8, and UTF-16 to UTF-8 to UTF-16, are the identity on every well-formed
      text without a terminator, and neither conversion complains or replaces anything. */
  lemma RoundTrip(from: Encoding, lenient: bool, s: seq<Unit>)
    requires WellFormed(from, s) && NulFree(s)
    ensures var there := Full(Plain(from, lenient), s);
      var back := Full(Plain(Other(from), lenient), there.out);
      there.status.Success? && !there.flagged && back.status.Success? && !back.flagged &&
      there.used == |s| && back.used == |there.out| && back.out == s
  {
    hide *;
    var cs := Decodes(from, s);
    Transcodes(from, lenient, cs);
    Transcodes(Other(from), lenient, cs);
    OtherTwice(from);
  }

  lemma OtherTwice(e: Encoding)
    ensures Other(Other(e)) == e
  {
  }

  /** The strict converter is a validator: it accepts exactly the well-formed texts. */
  lemma {:induction false} StrictAccepts(from: Encoding, s: seq<Unit>)
    requires NulFree(s)
    ensures Full(Plain(from, false), s).status.Success? <==> WellFormed(from, s)
    decreases |s|
  {
    hide First, Encoded, Character, Scalar;
    if s != [] {
      var g := First(from, s);
      if g.Glyph? {
        GrammarExact(from, s, g.length);
        StrictAccepts(from, s[g.length..]);
        if WellFormed(from, s) {
          var n :| 0 < n <= |s| && Character(from, s[..n]) && WellFormed(from, s[n..]);
          GrammarExact(from, s, n);
        }
      } else if WellFormed(from, s) {
        var n :| 0 < n <= |s| && Character(from, s[..n]) && WellFormed(from, s[n..]);
        GrammarExact(from, s, n);
      }
    }
  }

  /** Whatever the source holds, what a converter writes is well-formed and holds no terminator: there
      are scalar values it encodes. */
  lemma {:induction false} WritesText(from: Encoding, lenient: bool, s: seq<Unit>) returns (cs: seq<nat>)
    ensures AllScalar(cs) && Full(Plain(from, lenient), s).out == Text(Other(from), cs)
    ensures WellFormed(Other(from), Full(Plain(from, lenient), s).out)
    decreases |s|
  {
    hide First, Encoded, WellFormed;
    cs := [];
    if !Ends(Plain(from, lenient), s) {
      var t := StepOf(Plain(from, lenient), s);
      if t.Take? {
        var rest := WritesText(from, lenient, s[t.consumed..]);
        var g := First(from, s);
        var c := if g.Glyph? then g.code else QUESTION as nat;
        PieceScalar(from, lenient, s, c);
        cs := [c] + rest;
        assert cs[1..] == rest;
      }
    }
    TextWellFormed(Other(from), cs);
  }

  lemma PieceScalar(from: Encoding, lenient: bool, s: seq<Unit>, c: nat)
    requires s != [] && s[0] != 0 && StepOf(Plain(from, lenient), s).Take?
    requires c == if First(from, s).Glyph? then First(from, s).code else QUESTION as nat
    ensures Scalar(c) && c != 0 && StepOf(Plain(from, lenient), s).piece == Encoded(Other(from), c)
  {
    var g := First(from, s);
    if g.Glyph? {
      FirstExact(from, s, g.code, g.length);
      var e := Encoded(from, g.code);
      assert s[0] == e[0];
    }
  }

  /** Invalid input is replaced, never lost: a lenient converter always reaches the end of the text. */
  lemma {:induction false} LenientFinishes(from: Encoding, s: seq<Unit>)
    requires NulFree(s)
    ensures var r := Full(Plain(from, true), s); r.status.Success? && r.used == |s|
    decreases |s|
  {
    if s != [] {
      LenientFinishes(from, s[StepOf(Plain(from, true), s).consumed..]);
    }
  }

  /** The most units of the other encoding that one unit can become. */
  function Widest(from: Encoding): nat {
    if from.Utf8? then 1 else 3
  }

  /** No text, valid or not, grows by more than the simple wrappers allow for. */
  lemma {:induction false} LengthBound(from: Encoding, lenient: bool, s: seq<Unit>)
    ensures |Full(Plain(from, lenient), s).out| <= Widest(from) * |s|
    decreases |s|
  {
    hide First, Encoded;
    var cfg := Plain(from, lenient);
    if !Ends(cfg, s) {
      var t := StepOf(cfg, s);
      if t.Take? {
        LengthBound(from, lenient, s[t.consumed..]);
        PieceLength(from, lenient, s);
        Scaled(Widest(from), t.consumed, |s|);
      }
    }
  }

  lemma Scaled(w: nat, a: nat, b: nat)
    requires a <= b
    ensures w * a + w * (b - a) == w * b
  {
  }

  lemma PieceLength(from: Encoding, lenient: bool, s: seq<Unit>)
    requires s != [] && StepOf(Plain(from, lenient), s).Take?
    ensures var t := StepOf(Plain(from, lenient), s);
      0 < |t.piece| <= Widest(from) * t.consumed && |t.piece| <= Longest(Other(from))
  {
    var g := First(from, s);
    if g.Glyph? { FirstExact(from, s, g.code, g.length); }
  }

  /** The longest encoding of a character. */
  function Longest(e: Encoding): nat {
    if e.Utf8? then 4 else 2
  }
}
