/** What a line of a `.conf` text means, told from how it is written: spaces, comments, quotes, numbers and
    words. */
module ConfigReading {
  import opened Wrappers
  import opened Digits
  import opened ConfigTree
  import opened ConfigPath
  import opened ConfigConf
  import opened Sizes

  // ------------------------------------------------------------- lines

  /** The spaces of the C locale. */
  predicate Blank(s: string) {
    forall k :: 0 <= k < |s| ==> s[k] in {' ', '\t', '\n', '\r', '\U{0B}', '\U{0C}'}
  }

  /** A text without spaces at its ends. */
  predicate Bare(s: string) {
    s != "" && !Blank([s[0]]) && !Blank([s[|s| - 1]])
  }

  lemma SpaceIs(c: char)
    ensures Space(c) <==> Blank([c])
  {
    assert [c][0] == c;
  }

  lemma {:induction false} LeftTrimmed(p: string, s: string)
    requires Blank(p) && (s != "" ==> !Space(s[0]))
    ensures TrimLeft(p + s) == s
  {
    if p == "" {
      assert p + s == s;
    } else {
      assert (p + s)[1..] == p[1..] + s;
      LeftTrimmed(p[1..], s);
    }
  }

  lemma {:induction false} RightTrimmed(s: string, p: string)
    requires Blank(p) && (s != "" ==> !Space(s[|s| - 1]))
    ensures TrimRight(s + p) == s
  {
    if p == "" {
      assert s + p == s;
    } else {
      var t := s + p;
      assert t[|t| - 1] == p[|p| - 1] && t[..|t| - 1] == s + p[..|p| - 1];
      RightTrimmed(s, p[..|p| - 1]);
    }
  }

  lemma Trimmed(p: string, s: string, q: string)
    requires Blank(p) && Blank(q) && (s == "" || Bare(s))
    ensures TrimLeft(TrimRight(p + s + q)) == s
  {
    if s == "" {
      LeftTrimmed(p + s, "");
      assert p + s + q == "" + (p + q) && p + s == p;
      RightTrimmed("", p + q);
      LeftTrimmed("", "");
      assert TrimLeft("") == "";
    } else {
      SpaceIs(s[0]);
      SpaceIs(s[|s| - 1]);
      RightTrimmed(p + s, q);
      LeftTrimmed(p, s);
    }
  }

  /** A key, an equals sign and a value, with any spaces around all three. */
  lemma LineReads(t: Tree, p: string, key: string, q: string, r: string, val: string, u: string, fl: Floats)
    requires Blank(p) && Blank(q) && Blank(r) && Blank(u) && Bare(key) && Bare(val)
    requires key[0] != '#' && forall k :: 0 <= k < |key| ==> key[k] != '='
    ensures ParseLine(t, p + (key + q + "=" + r + val) + u, fl) == Assign(t, key, val, fl)
  {
    hide Assign, TrimLeft, TrimRight, FindChar;
    var core := key + q + "=" + r + val;
    assert core[0] == key[0] && core[|core| - 1] == val[|val| - 1];
    Trimmed(p, core, u);
    assert core == key + q + ("=" + r + val);
    NoEquals(key, q);
    FindCharIs(key + q, '=', "=" + r + val);
    var n := |key + q|;
    assert core[..n] == key + q && core[n + 1..] == r + val;
    SpaceIs(key[|key| - 1]);
    SpaceIs(val[0]);
    RightTrimmed(key, q);
    LeftTrimmed(r, val);
  }

  lemma NoEquals(key: string, q: string)
    requires Blank(q) && forall k :: 0 <= k < |key| ==> key[k] != '='
    ensures forall k :: 0 <= k < |key + q| ==> (key + q)[k] != '='
  {
  }

  /** Blank lines and comments change nothing. */
  lemma LineSkipped(t: Tree, p: string, s: string, u: string, fl: Floats)
    requires Blank(p) && Blank(u) && (s == "" || (s[0] == '#' && Bare(s)))
    ensures ParseLine(t, p + s + u, fl) == Some(t)
  {
    hide TrimLeft, TrimRight;
    Trimmed(p, s, u);
  }

  /** A line without an equals sign is an error. */
  lemma NoEqualsRefused(t: Tree, p: string, s: string, u: string, fl: Floats)
    requires Blank(p) && Blank(u) && Bare(s) && s[0] != '#' && forall k :: 0 <= k < |s| ==> s[k] != '='
    ensures ParseLine(t, p + s + u, fl).None?
  {
    hide TrimLeft, TrimRight;
    Trimmed(p, s, u);
  }

  /** So is one without a key or without a value. */
  lemma HalfRefused(t: Tree, p: string, key: string, val: string, u: string, fl: Floats)
    requires Blank(p) && Blank(u) && Bare(key + "=" + val) && (key != "" ==> key[0] != '#')
    requires (forall k :: 0 <= k < |key| ==> key[k] != '=') && (key == "" || Blank(val))
    ensures ParseLine(t, p + (key + "=" + val) + u, fl).None?
  {
    hide TrimLeft, TrimRight, FindChar;
    var s := key + "=" + val;
    Trimmed(p, s, u);
    assert s == key + ("=" + val);
    FindCharIs(key, '=', "=" + val);
    assert s[..|key|] == key && s[|key| + 1..] == val && s[0] != '#';
    NothingTrimmed();
    if Blank(val) {
      LeftTrimmed(val, "");
      assert val + "" == val;
    }
  }

  lemma NothingTrimmed()
    ensures TrimRight("") == "" && TrimLeft("") == ""
  {
  }

  /** Lines end with a line feed or a carriage return, and empty lines do not count. */
  lemma LinesLoad(t: Tree, line: string, c: char, rest: string, fl: Floats)
    requires line != "" && (c == '\n' || c == '\r') && forall k :: 0 <= k < |line| ==> line[k] !in {'\n', '\r'}
    ensures LoadFrom(t, line + ([c] + rest), fl) ==
      match ParseLine(t, line, fl)
      case None => None
      case Some(t') => LoadFrom(t', rest, fl)
    ensures LoadFrom(t, [c] + rest, fl) == LoadFrom(t, rest, fl)
  {
    hide ParseLine;
    var text := line + ([c] + rest);
    LineEnds(line, [c] + rest);
    assert text[..|line|] == line && text[|line|..] == [c] + rest;
    EmptyLine(t, c, rest, fl);
    forall t' ensures LoadFrom(t', SkipNewLines([c] + rest), fl) == LoadFrom(t', rest, fl) {
      EmptyLine(t', c, rest, fl);
    }
  }

  lemma EmptyLine(t: Tree, c: char, rest: string, fl: Floats)
    requires c == '\n' || c == '\r'
    ensures LoadFrom(t, [c] + rest, fl) == LoadFrom(t, rest, fl)
    ensures LoadFrom(t, SkipNewLines([c] + rest), fl) == LoadFrom(t, rest, fl)
  {
    hide ParseLine;
    assert ([c] + rest)[1..] == rest && ([c] + rest)[0..] == [c] + rest;
    assert SkipNewLines([c] + rest) == SkipNewLines(rest);
    assert LineLength([c] + rest) == 0;
    if rest != "" && NewLine(rest[0]) {
      assert LineLength(rest) == 0 && rest[0..] == rest;
    }
  }

  lemma {:induction false} LineEnds(line: string, rest: string)
    requires (forall k :: 0 <= k < |line| ==> line[k] !in {'\n', '\r'}) && rest != "" && NewLine(rest[0])
    ensures LineLength(line + rest) == |line|
  {
    if line == "" {
      assert line + rest == rest;
    } else {
      assert (line + rest)[1..] == line[1..] + rest;
      LineEnds(line[1..], rest);
    }
  }

  // ------------------------------------------------------------- values

  /** A quoted text is what stands between the quotes; one that does not end is an error. */
  lemma QuotedReads(t: Tree, key: string, s: string, fl: Floats)
    requires key != ""
    ensures Assign(t, key, "\"" + s + "\"", fl) == SetValue(t, false, key, Some(Text(s)))
    ensures s == "" || s[|s| - 1] != '"' ==> Assign(t, key, "\"" + s, fl).None?
  {
    var v := "\"" + s + "\"";
    assert v[1..|v| - 1] == s;
  }

  /** Anything else is a value of its own kind. */
  lemma PlainReads(t: Tree, key: string, val: string, fl: Floats)
    requires key != "" && val != "" && val[0] != '"'
    ensures Assign(t, key, val, fl) ==
      match ParseValue(val, fl)
      case None => None
      case Some(v) => SetValue(t, false, key, Some(v))
  {
  }

  /** A number as hexadecimal digits, in either case. */
  function HexText(n: nat, upper: bool): (s: string)
    ensures s != ""
  {
    (if n < 16 then "" else HexText(n / 16, upper)) + [HexChar(n % 16, upper)]
  }

  function HexChar(d: nat, upper: bool): char
    requires d < 16
  {
    (if upper then "0123456789ABCDEF" else "0123456789abcdef")[d]
  }

  lemma {:induction false} HexReads(n: nat, upper: bool)
    ensures var s := HexText(n, upper); (forall k :: 0 <= k < |s| ==> HexDigit(s[k])) && Hex(s) == n
  {
    hide Hex, HexText, HexDigit, HexValue;
    HexTextStep(n, upper);
    HexDigits(n % 16, upper);
    var c := HexChar(n % 16, upper);
    if n < 16 {
      HexSnoc("", c);
      assert "" + [c] == [c];
    } else {
      HexReads(n / 16, upper);
      HexSnoc(HexText(n / 16, upper), c);
    }
  }

  lemma HexTextStep(n: nat, upper: bool)
    ensures HexText(n, upper) ==
      (if n < 16 then [HexChar(n, upper)] else HexText(n / 16, upper) + [HexChar(n % 16, upper)])
  {
    assert n < 16 ==> "" + [HexChar(n, upper)] == [HexChar(n, upper)];
  }

  lemma HexSnoc(s: string, c: char)
    requires HexDigit(c) && forall k :: 0 <= k < |s| ==> HexDigit(s[k])
    ensures (forall k :: 0 <= k < |s + [c]| ==> HexDigit((s + [c])[k]))
    ensures Hex(s + [c]) == Hex(s) * 16 + HexValue(c) && Hex("") == 0
  {
    assert (s + [c])[..|s|] == s;
  }

  lemma HexDigits(d: nat, upper: bool)
    requires d < 16
    ensures HexDigit(HexChar(d, upper)) && HexValue(HexChar(d, upper)) == d
  {
  }

  function Signs(i: int): string {
    if i < 0 then "-" else ""
  }

  function Magnitude(i: int): nat {
    if i < 0 then -i else i
  }

  /** Integers are read in decimal, with or without a sign, and in hexadecimal behind 0x or 0X; those that do
      not fit 64 bits are errors. */
  lemma IntegerReads(i: int, upper: bool, fl: Floats)
    ensures var want := if INT64_MIN <= i <= INT64_MAX then Some(Integer(i)) else None;
      && ParseValue(Signs(i) + Decimal(Magnitude(i)), fl) == want
      && ParseValue(Signs(i) + ("0x" + HexText(Magnitude(i), upper)), fl) == want
      && ParseValue(Signs(i) + ("0X" + HexText(Magnitude(i), upper)), fl) == want
      && (i >= 0 ==> ParseValue("+" + Decimal(i), fl) == want)
  {
    hide Decimal, HexText, Unsigned;
    var n := Magnitude(i);
    DecimalUnsigned(n);
    HexUnsigned(n, upper);
    SignedReads(i, Decimal(n), fl);
    SignedReads(i, "0x" + HexText(n, upper), fl);
    SignedReads(i, "0X" + HexText(n, upper), fl);
    if i >= 0 { assert ("+" + Decimal(n))[1..] == Decimal(n); }
  }

  lemma SignedReads(i: int, s: string, fl: Floats)
    requires s != "" && s[0] != '-' && s[0] != '+' && Unsigned(s) == Some(Magnitude(i))
    ensures ParseValue(Signs(i) + s, fl) == if INT64_MIN <= i <= INT64_MAX then Some(Integer(i)) else None
  {
    hide Unsigned;
    if i < 0 { assert ("-" + s)[1..] == s; } else { assert "" + s == s; }
  }

  lemma DecimalUnsigned(n: nat)
    ensures Unsigned(Decimal(n)) == Some(n) && Decimal(n)[0] != '-' && Decimal(n)[0] != '+'
  {
    DecimalValue(n);
    var s := Decimal(n);
    assert Digit(s[0]) && (|s| > 1 ==> Digit(s[1]));
  }

  lemma HexUnsigned(n: nat, upper: bool)
    ensures Unsigned("0x" + HexText(n, upper)) == Some(n) && Unsigned("0X" + HexText(n, upper)) == Some(n)
  {
    HexReads(n, upper);
    assert ("0x" + HexText(n, upper))[2..] == HexText(n, upper) == ("0X" + HexText(n, upper))[2..];
  }

  /** The same letters, whatever their case. */
  predicate SameWord(s: string, w: string) {
    |s| == |w| && forall k :: 0 <= k < |s| ==>
      s[k] == w[k] || ('A' <= s[k] <= 'Z' && s[k] as int + 32 == w[k] as int)
  }

  lemma {:induction false} LowerIs(s: string, w: string)
    requires forall k :: 0 <= k < |w| ==> 'a' <= w[k] <= 'z'
    ensures Lower(s) == w <==> SameWord(s, w)
  {
    if s == "" {
    } else if w != "" {
      LowerIs(s[1..], w[1..]);
      assert Lower(s) == [Lower(s)[0]] + Lower(s[1..]) && w == [w[0]] + w[1..];
      if SameWord(s, w) {
        forall k | 0 <= k < |s| - 1
          ensures s[1..][k] == w[1..][k] || ('A' <= s[1..][k] <= 'Z' && s[1..][k] as int + 32 == w[1..][k] as int)
        {
          assert s[1..][k] == s[k + 1] && w[1..][k] == w[k + 1];
        }
      }
      if SameWord(s[1..], w[1..]) {
        assert forall k :: 0 < k < |s| ==> s[k] == s[1..][k - 1] && w[k] == w[1..][k - 1];
      }
    }
  }

  const TRUE_WORDS: seq<string> := ["y", "ok", "on", "yes", "true", "always", "enable", "enabled"]
  const FALSE_WORDS: seq<string> := ["n", "no", "off", "false", "never", "disable", "disabled"]

  ghost predicate OneOf(s: string, words: seq<string>) {
    exists k :: 0 <= k < |words| && SameWord(s, words[k])
  }

  lemma LowerWord(s: string, w: string)
    requires forall k :: 0 <= k < |w| ==> 'a' <= w[k] <= 'z'
    ensures Lower(s) == w <==> SameWord(s, w)
  {
    LowerIs(s, w);
  }

  lemma TrueIs(s: string)
    ensures IsTrue(s) <==> OneOf(s, TRUE_WORDS)
  {
    hide Lower, SameWord;
    forall k | 0 <= k < |TRUE_WORDS| ensures Lower(s) == TRUE_WORDS[k] <==> SameWord(s, TRUE_WORDS[k]) {
      LowerWord(s, TRUE_WORDS[k]);
    }
  }

  lemma FalseIs(s: string)
    ensures IsFalse(s) <==> OneOf(s, FALSE_WORDS)
  {
    hide Lower, SameWord;
    forall k | 0 <= k < |FALSE_WORDS| ensures Lower(s) == FALSE_WORDS[k] <==> SameWord(s, FALSE_WORDS[k]) {
      LowerWord(s, FALSE_WORDS[k]);
    }
  }

  /** The words for true and false are read as such in any case, and a text that is no number and no such
      word stays as it is. */
  lemma WordReads(s: string, fl: Floats)
    requires s != "" && (forall k :: 0 <= k < |s| ==> !Digit(s[k])) && fl.read(s).NotFloat?
    ensures ParseValue(s, fl) ==
      if OneOf(s, TRUE_WORDS) then Some(Boolean(true))
      else if OneOf(s, FALSE_WORDS) then Some(Boolean(false))
      else Some(Text(s))
  {
    hide IsTrue, IsFalse, OneOf;
    TrueIs(s);
    FalseIs(s);
    assert Signed(s).None? by { NoNumber(s); }
  }

  lemma NoNumber(s: string)
    requires s != "" && forall k :: 0 <= k < |s| ==> !Digit(s[k])
    ensures Signed(s).None?
  {
    if |s| > 1 { assert !Digit(s[1]) && s[1..][0] == s[1]; }
    assert !Digit(s[0]);
  }
}
