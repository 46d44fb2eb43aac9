/** What one step of a conversion does, told without the decoder, and the order of code points in both
    encodings. */
module EncodeOrder {
  import opened Wrappers
  import opened Encode

  // ----- order -----

  /** The first unit in which the two differ is smaller in the first. */
  predicate Before(a: seq<Unit>, b: seq<Unit>) {
    exists k :: 0 <= k < |a| && k < |b| && SmallerAt(a, b, k)
  }

  predicate SmallerAt(a: seq<Unit>, b: seq<Unit>, k: nat)
    requires k < |a| && k < |b|
  {
    a[..k] == b[..k] && a[k] < b[k]
  }

  lemma Digits(c: nat, d: nat, base: nat)
    requires c < d && base > 0
    ensures c / base <= d / base && (c / base == d / base ==> c % base < d % base)
  {
    assert c == c / base * base + c % base && d == d / base * base + d % base;
    if c / base > d / base { Steps(d / base + 1, c / base, base); }
  }

  lemma Steps(x: nat, y: nat, base: nat)
    requires x <= y
    ensures x * base <= y * base
  {
  }

  /** Texts of digits of which the first that differs is smaller. */
  lemma First2(a: seq<Unit>, b: seq<Unit>)
    requires |a| == |b| == 2 && (a[0] < b[0] || (a[0] == b[0] && a[1] < b[1]))
    ensures Before(a, b)
  {
    assert SmallerAt(a, b, if a[0] < b[0] then 0 else 1);
  }

  lemma First3(a: seq<Unit>, b: seq<Unit>)
    requires |a| == |b| == 3
    requires a[0] < b[0] || (a[0] == b[0] && (a[1] < b[1] || (a[1] == b[1] && a[2] < b[2])))
    ensures Before(a, b)
  {
    assert SmallerAt(a, b, if a[0] < b[0] then 0 else if a[1] < b[1] then 1 else 2);
  }

  lemma First4(a: seq<Unit>, b: seq<Unit>)
    requires |a| == |b| == 4
    requires a[0] < b[0] || (a[0] == b[0] && (a[1] < b[1] || (a[1] == b[1] &&
      (a[2] < b[2] || (a[2] == b[2] && a[3] < b[3])))))
    ensures Before(a, b)
  {
    assert SmallerAt(a, b, if a[0] < b[0] then 0 else if a[1] < b[1] then 1 else if a[2] < b[2] then 2 else 3);
  }

  lemma Lead8(c: nat)
    requires Scalar(c)
    ensures var a := Encoded8(c);
      && (c < 0x80 ==> a == [c])
      && (0x80 <= c < 0x800 ==> |a| == 2 && 0xC0 <= a[0] < 0xE0)
      && (0x800 <= c < 0x1_0000 ==> |a| == 3 && 0xE0 <= a[0] < 0xF0)
      && (0x1_0000 <= c ==> |a| == 4 && 0xF0 <= a[0])
  {
  }

  /** Code points compare as their UTF-8 bytes do. */
  lemma Order8(c: nat, d: nat)
    requires Scalar(c) && Scalar(d) && c < d
    ensures Before(Encoded8(c), Encoded8(d))
  {
    hide Encoded8, Before;
    var a, b := Encoded8(c), Encoded8(d);
    Lead8(c);
    Lead8(d);
    if |a| < |b| || |a| == 1 {
      AtOnce(a, b);
    } else if |a| == 2 {
      Order2(c, d);
    } else if |a| == 3 {
      Order3(c, d);
    } else {
      Order4(c, d);
    }
  }

  lemma AtOnce(a: seq<Unit>, b: seq<Unit>)
    requires a != [] && b != [] && a[0] < b[0]
    ensures Before(a, b)
  {
    assert SmallerAt(a, b, 0);
  }

  lemma Order2(c: nat, d: nat)
    requires 0x80 <= c < d < 0x800
    ensures Before(Encoded8(c), Encoded8(d))
  {
    hide Before;
    Digits(c, d, 64);
    First2(Encoded8(c), Encoded8(d));
  }

  lemma Order3(c: nat, d: nat)
    requires Scalar(c) && Scalar(d) && 0x800 <= c < d < 0x1_0000
    ensures Before(Encoded8(c), Encoded8(d))
  {
    hide Before;
    Digits(c, d, 64);
    if c / 64 < d / 64 { Digits(c / 64, d / 64, 64); }
    Quotients(c);
    Quotients(d);
    First3(Encoded8(c), Encoded8(d));
  }

  lemma Order4(c: nat, d: nat)
    requires 0x1_0000 <= c < d <= 0x10_FFFF
    ensures Before(Encoded8(c), Encoded8(d))
  {
    hide Before;
    Digits(c, d, 64);
    if c / 64 < d / 64 { Digits(c / 64, d / 64, 64); }
    Quotients(c);
    Quotients(d);
    if c / 4096 < d / 4096 { Digits(c / 4096, d / 4096, 64); }
    First4(Encoded8(c), Encoded8(d));
  }

  lemma Quotients(c: nat)
    ensures c / 64 / 64 == c / 4096 && c / 4096 / 64 == c / 0x4_0000
  {
  }

  /** Above 0xFFFF they compare as their pairs of surrogates do. */
  lemma Order16(c: nat, d: nat)
    requires Scalar(c) && Scalar(d) && 0xFFFF < c < d
    ensures Before(Encoded16(c), Encoded16(d))
  {
    var a, b := Encoded16(c), Encoded16(d);
    Digits(c - 0x1_0000, d - 0x1_0000, 1024);
    assert SmallerAt(a, b, if a[0] != b[0] then 0 else 1);
  }

  // ----- single steps -----

  /** A character stands at the front of the text. */
  ghost predicate StartsWell(from: Encoding, s: seq<Unit>) {
    exists c: nat :: Scalar(c) && Encoded(from, c) <= s
  }

  /** A conversion without rules turns a character into its other encoding and goes on behind it. */
  lemma GoodStep(from: Encoding, lenient: bool, c: nat, s: seq<Unit>)
    requires Scalar(c) && c != 0
    ensures var rest := Full(Config(Recode(from), None, lenient), s);
      var r := Full(Config(Recode(from), None, lenient), Encoded(from, c) + s);
      && r.status == rest.status && r.flagged == rest.flagged
      && r.out == Encoded(if from.Utf8? then Utf16 else Utf8, c) + rest.out
      && r.used == |Encoded(from, c)| + rest.used
  {
    hide First, Encoded8, Encoded16;
    var t := Encoded(from, c) + s;
    FirstExact(from, t, c, |Encoded(from, c)|);
    NotNul(from, c);
    assert t[|Encoded(from, c)|..] == s;
  }

  lemma NotNul(from: Encoding, c: nat)
    requires Scalar(c) && c != 0
    ensures Encoded(from, c)[0] != 0
  {
  }

  /** At anything else a lenient conversion writes a question mark, reports it and goes on behind one unit; a
      strict one stops. */
  lemma BadStep(from: Encoding, s: seq<Unit>)
    requires s != [] && s[0] != 0 && !StartsWell(from, s)
    ensures var rest := Full(Config(Recode(from), None, true), s[1..]);
      Full(Config(Recode(from), None, true), s) ==
        Outcome(rest.status, 1 + rest.used, [0x3F] + rest.out, true)
    ensures Full(Config(Recode(from), None, false), s) == Outcome(UnknownGlyph, 0, [], true)
  {
    hide First, Encoded;
    match First(from, s)
    case Glyph(c, n) => FirstExact(from, s, c, n);
    case Ill =>
  }

  /** A recoding ends successfully in front of a terminator, or at the end. */
  lemma EndStep(from: Encoding, rules: Option<seq<Rule>>, lenient: bool, s: seq<Unit>)
    requires s == [] || s[0] == 0
    ensures Full(Config(Recode(from), rules, lenient), s) == Outcome(Success, 0, [], false)
  {
  }

  /** A rule of the list whose text stands at the front, while that of no earlier one does. */
  ghost predicate Applies(rules: seq<Rule>, k: nat, s: seq<Unit>) {
    k < |rules| && rules[k].Rule? && rules[k].pattern != [] && rules[k].pattern <= s &&
    forall j :: 0 <= j < k ==> rules[j].Rule? && rules[j].pattern != [] && !(rules[j].pattern <= s)
  }

  lemma {:induction false} TransferIs(rules: seq<Rule>, k: nat, s: seq<Unit>)
    requires Applies(rules, k, s)
    ensures Transfer(rules, s) == Found(|rules[k].pattern|, rules[k].replacement)
    decreases k
  {
    if k > 0 {
      forall j | 0 <= j < k - 1
        ensures rules[1..][j].Rule? && rules[1..][j].pattern != [] && !(rules[1..][j].pattern <= s)
      {
        assert rules[1..][j] == rules[j + 1];
      }
      TransferIs(rules[1..], k - 1, s);
    }
  }

  /** The first rule that applies decides, whatever else stands there. */
  lemma RuleStep(mode: Mode, lenient: bool, rules: seq<Rule>, k: nat, s: seq<Unit>)
    requires Applies(rules, k, s) && s[0] != HALF && (mode.Recode? ==> s[0] != 0)
    ensures var cfg := Config(mode, Some(rules), lenient);
      var rest := Full(cfg, s[|rules[k].pattern|..]);
      Full(cfg, s) ==
        Outcome(rest.status, |rules[k].pattern| + rest.used, rules[k].replacement + rest.out, rest.flagged)
  {
    hide Transfer, Decode;
    TransferIs(rules, k, s);
  }

  /** Where none applies, and none is malformed, rules change nothing. */
  lemma {:induction false} NoRule(rules: seq<Rule>, s: seq<Unit>)
    requires forall j :: 0 <= j < |rules| ==> rules[j].Rule? && rules[j].pattern != [] && !(rules[j].pattern <= s)
    ensures Transfer(rules, s) == NotFound
  {
    if rules != [] { NoRule(rules[1..], s); }
  }
}
