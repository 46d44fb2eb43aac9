/** Version comparison (`vercmp` in `embloader/src/lib/str-utils.c`) as an order on token sequences. */
module Version {
  import opened Wrappers
  import opened Digits

  // ------------------------------------------------------------- character classes

  predicate Alpha(c: char) {
    'a' <= c <= 'z' || 'A' <= c <= 'Z'
  }

  /** Whatever is not part of a token separates tokens. */
  predicate Separator(c: char) {
    !Digit(c) && !Alpha(c) && c != '~'
  }

  // ------------------------------------------------------------- tokens

  datatype Token = Tilde | Word(text: string) | Number(value: nat)

  function DigitRun(s: string): (n: nat)
    ensures n <= |s| && (forall k :: 0 <= k < n ==> Digit(s[k])) && (n < |s| ==> !Digit(s[n]))
  {
    if s == [] || !Digit(s[0]) then 0 else 1 + DigitRun(s[1..])
  }

  function AlphaRun(s: string): (n: nat)
    ensures n <= |s| && (forall k :: 0 <= k < n ==> Alpha(s[k])) && (n < |s| ==> !Alpha(s[n]))
  {
    if s == [] || !Alpha(s[0]) then 0 else 1 + AlphaRun(s[1..])
  }

  /** A version as a sequence of tokens: tildes, maximal words and maximal numbers. */
  function Tokens(s: string): seq<Token>
    decreases |s|
  {
    if s == [] then []
    else if s[0] == '~' then [Tilde] + Tokens(s[1..])
    else if Digit(s[0]) then [Number(Numeric(s[..DigitRun(s)]))] + Tokens(s[DigitRun(s)..])
    else if Alpha(s[0]) then [Word(s[..AlphaRun(s)])] + Tokens(s[AlphaRun(s)..])
    else Tokens(s[1..])
  }

  // ------------------------------------------------------------- the order

  function CompareNat(a: int, b: int): int {
    if a < b then -1 else if a > b then 1 else 0
  }

  /** Lexicographic order of strings, a proper prefix first. */
  function CompareText(a: string, b: string): int {
    if a == [] || b == [] then CompareNat(|a|, |b|)
    else if a[0] != b[0] then CompareNat(a[0] as int, b[0] as int)
    else CompareText(a[1..], b[1..])
  }

  /** The class of a token decides first: tilde, then the end of the version, then words, then numbers. */
  function Class(t: Option<Token>): nat {
    match t
    case None => 1
    case Some(Tilde) => 0
    case Some(Word(_)) => 2
    case Some(Number(_)) => 3
  }

  function CompareToken(a: Option<Token>, b: Option<Token>): int {
    if Class(a) != Class(b) then CompareNat(Class(a), Class(b))
    else
      match a
      case Some(Word(text)) => CompareText(text, b.value.text)
      case Some(Number(value)) => CompareNat(value, b.value.value)
      case _ => 0
  }

  function Head(ts: seq<Token>): Option<Token> {
    if ts == [] then None else Some(ts[0])
  }

  /** Lexicographic order of token sequences in which the end is a token of its own class. */
  function Compare(a: seq<Token>, b: seq<Token>): int
    decreases |a|
  {
    var c := CompareToken(Head(a), Head(b));
    if c != 0 || a == [] || b == [] then c else Compare(a[1..], b[1..])
  }

  // ------------------------------------------------------------- it is an order

  lemma {:induction false} TextOrder(a: string, b: string, c: string)
    ensures CompareText(b, a) == -CompareText(a, b)
    ensures CompareText(a, b) == 0 <==> a == b
    ensures CompareText(a, b) <= 0 && CompareText(b, c) <= 0 ==> CompareText(a, c) <= 0
    decreases |a| + |b| + |c|
  {
    if a != [] && b != [] {
      if c != [] { TextOrder(a[1..], b[1..], c[1..]); } else { TextOrder(a[1..], b[1..], c); }
      assert a == [a[0]] + a[1..] && b == [b[0]] + b[1..];
    }
  }

  lemma TokenOrder(a: Option<Token>, b: Option<Token>, c: Option<Token>)
    ensures CompareToken(b, a) == -CompareToken(a, b)
    ensures CompareToken(a, b) == 0 <==> a == b
    ensures CompareToken(a, b) <= 0 && CompareToken(b, c) <= 0 ==> CompareToken(a, c) <= 0
  {
    if Class(a) == Class(b) == 2 { TextOrder(a.value.text, b.value.text, ""); }
    if Class(a) == Class(b) == Class(c) == 2 { TextOrder(a.value.text, b.value.text, c.value.text); }
  }

  /** The comparison is antisymmetric, equal only on equal tokens, and transitive. */
  lemma {:induction false} Order(a: seq<Token>, b: seq<Token>, c: seq<Token>)
    ensures Compare(b, a) == -Compare(a, b)
    ensures Compare(a, b) == 0 <==> a == b
    ensures Compare(a, b) <= 0 && Compare(b, c) <= 0 ==> Compare(a, c) <= 0
    decreases |a| + |b| + |c|
  {
    hide CompareToken;
    TokenOrder(Head(a), Head(b), Head(c));
    TokenOrder(Head(b), Head(c), Head(a));
    TokenOrder(Head(a), Head(c), Head(b));
    if a != [] && b != [] {
      if c != [] { Order(a[1..], b[1..], c[1..]); } else { Order(a[1..], b[1..], c); }
      assert a == [a[0]] + a[1..] && b == [b[0]] + b[1..];
    }
  }

  lemma {:induction false} Extended(a: seq<Token>, b: seq<Token>)
    requires b != []
    ensures Compare(a + b, a) == if b[0].Tilde? then -1 else 1
    decreases |a|
  {
    if a == [] {
      assert a + b == b;
    } else {
      assert (a + b)[1..] == a[1..] + b;
      TokenOrder(Head(a), Head(a), None);
      Extended(a[1..], b);
    }
  }

  /** A token of letters or digits goes no further than a tilde or a separator. */
  lemma {:induction false} RunsEnd(s: string, t: string)
    requires t != "" && (t[0] == '~' || Separator(t[0]))
    ensures DigitRun(s + t) == DigitRun(s) && AlphaRun(s + t) == AlphaRun(s)
  {
    if s == "" {
      assert s + t == t;
    } else {
      assert (s + t)[1..] == s[1..] + t;
      RunsEnd(s[1..], t);
    }
  }

  /** The length of what stands in front of a version: a token or a separator. */
  function LeadLength(s: string): (n: nat)
    requires s != ""
    ensures 0 < n <= |s|
  {
    if Digit(s[0]) then DigitRun(s) else if Alpha(s[0]) then AlphaRun(s) else 1
  }

  function Lead(s: string, n: nat): seq<Token>
    requires 0 < n <= |s|
  {
    if s[0] == '~' then [Tilde]
    else if Digit(s[0]) then if AllDigits(s[..n]) then [Number(Numeric(s[..n]))] else []
    else if Alpha(s[0]) then [Word(s[..n])]
    else []
  }

  lemma TokensStep(s: string)
    requires s != ""
    ensures var n := LeadLength(s); Tokens(s) == Lead(s, n) + Tokens(s[n..])
  {
    hide Numeric;
  }

  lemma {:induction false} TokensAppend(s: string, t: string)
    requires t != "" && (t[0] == '~' || Separator(t[0]))
    ensures Tokens(s + t) == Tokens(s) + Tokens(t)
    decreases |s|
  {
    hide Tokens, Lead, LeadLength;
    if s == "" {
      NoTokens();
      assert s + t == t && [] + Tokens(t) == Tokens(t);
    } else {
      SameLead(s, t);
      var n := LeadLength(s);
      assert (s + t)[n..] == s[n..] + t;
      TokensStep(s + t);
      TokensStep(s);
      TokensAppend(s[n..], t);
      assert Lead(s, n) + (Tokens(s[n..]) + Tokens(t)) == Lead(s, n) + Tokens(s[n..]) + Tokens(t);
    }
  }

  lemma SameLead(s: string, t: string)
    requires s != "" && t != "" && (t[0] == '~' || Separator(t[0]))
    ensures var n := LeadLength(s); LeadLength(s + t) == n && Lead(s + t, n) == Lead(s, n)
  {
    hide Numeric;
    RunsEnd(s, t);
    var n := LeadLength(s);
    assert (s + t)[0] == s[0] && (s + t)[..n] == s[..n];
  }

  lemma NoTokens()
    ensures Tokens("") == []
  {
  }

  /** A tilde makes a version older than the one it extends: 1.0~rc1 comes before 1.0. Behind a dot anything
      but a tilde makes it newer, and what has no tokens makes no difference. */
  lemma PreRelease(s: string, t: string)
    ensures Compare(Tokens(s + ("~" + t)), Tokens(s)) == -1
    ensures Compare(Tokens(s + ("." + t)), Tokens(s)) ==
      if Tokens(t) == [] then 0 else if Tokens(t)[0].Tilde? then -1 else 1
  {
    hide Compare;
    var base, pre, dot := Tokens(s), "~" + t, "." + t;
    TokensAppend(s, pre);
    TokensAppend(s, dot);
    assert pre[1..] == t && dot[1..] == t;
    Extended(base, Tokens(pre));
    if Tokens(t) == [] {
      assert base + [] == base;
      Order(base, base, base);
    } else {
      Extended(base, Tokens(dot));
    }
  }

  // ------------------------------------------------------------- what comes before what

  /** The first text comes first in the order of characters. */
  ghost predicate Smaller(a: string, b: string) {
    exists k: nat :: DiffersAt(a, b, k) && (k == |a| || (k < |b| && a[k] < b[k]))
  }

  /** The texts agree in front of `k`, and no further. */
  predicate DiffersAt(a: string, b: string, k: nat) {
    k <= |a| && k <= |b| && a[..k] == b[..k] && (k < |a| || k < |b|) && (k < |a| && k < |b| ==> a[k] != b[k])
  }

  lemma {:induction false} SmallerText(a: string, b: string)
    ensures CompareText(a, b) < 0 <==> Smaller(a, b)
    decreases |a|
  {
    if a == "" || b == "" {
      assert a[..0] == b[..0];
      if a != b { assert DiffersAt(a, b, 0); }
    } else if a[0] != b[0] {
      assert a[..0] == b[..0] && DiffersAt(a, b, 0);
      forall k: nat ensures DiffersAt(a, b, k) ==> k == 0 { DiffersFirst(a, b, k); }
    } else {
      SmallerText(a[1..], b[1..]);
      if Smaller(a[1..], b[1..]) {
        var k: nat :| DiffersAt(a[1..], b[1..], k) && (k == |a[1..]| || (k < |b[1..]| && a[1..][k] < b[1..][k]));
        DiffersLater(a, b, k);
      }
      if Smaller(a, b) {
        var k: nat :| DiffersAt(a, b, k) && (k == |a| || (k < |b| && a[k] < b[k]));
        DiffersLater(a, b, k - 1);
      }
    }
  }

  lemma DiffersFirst(a: string, b: string, k: nat)
    requires a != "" && b != "" && a[0] != b[0]
    ensures DiffersAt(a, b, k) ==> k == 0
  {
    if 0 < k <= |a| && k <= |b| { assert a[..k][0] == a[0] && b[..k][0] == b[0]; }
  }

  lemma DiffersLater(a: string, b: string, k: nat)
    requires a != "" && b != "" && a[0] == b[0]
    ensures DiffersAt(a, b, k + 1) <==> DiffersAt(a[1..], b[1..], k)
  {
    if k < |a| && k < |b| {
      assert a[..k + 1] == [a[0]] + a[1..][..k] && b[..k + 1] == [b[0]] + b[1..][..k];
      assert a[1..][..k] == a[..k + 1][1..] && b[1..][..k] == b[..k + 1][1..];
    }
  }

  /** What a version goes on with: a tilde, nothing, a letter or a digit. */
  function Rank(s: string): nat
    requires s != "" ==> !Separator(s[0])
  {
    if s == "" then 1 else if s[0] == '~' then 0 else if 'A' <= s[0] then 2 else 3
  }

  /** A tilde comes before the end, the end before words, and words before numbers. */
  lemma RanksTell(s: string, t: string)
    requires (s != "" ==> !Separator(s[0])) && (t != "" ==> !Separator(t[0])) && Rank(s) < Rank(t)
    ensures Compare(Tokens(s), Tokens(t)) == -1
  {
    hide Numeric;
  }

  /** Words compare by their characters, and numbers by their values. */
  lemma TokensTell(s: string, t: string)
    requires s != "" && t != ""
    ensures (forall k :: 0 <= k < |s| ==> Alpha(s[k])) && (forall k :: 0 <= k < |t| ==> Alpha(t[k])) ==>
      (Compare(Tokens(s), Tokens(t)) < 0 <==> Smaller(s, t))
    ensures AllDigits(s) && AllDigits(t) ==> (Compare(Tokens(s), Tokens(t)) < 0 <==> Numeric(s) < Numeric(t))
  {
    hide Numeric, Smaller, CompareText, Tokens;
    if (forall k :: 0 <= k < |s| ==> Alpha(s[k])) && (forall k :: 0 <= k < |t| ==> Alpha(t[k])) {
      OneWord(s);
      OneWord(t);
      SmallerText(s, t);
      TextOrder(s, t, s);
    }
    if AllDigits(s) && AllDigits(t) {
      OneNumber(s);
      OneNumber(t);
    }
  }

  lemma OneWord(s: string)
    requires s != "" && forall k :: 0 <= k < |s| ==> Alpha(s[k])
    ensures Tokens(s) == [Word(s)]
  {
    hide Numeric;
    assert AlphaRun(s) == |s| && s[..|s|] == s && s[|s|..] == "";
    NoTokens();
  }

  lemma OneNumber(s: string)
    requires s != "" && AllDigits(s)
    ensures Tokens(s) == [Number(Numeric(s))]
  {
    hide Numeric;
    assert DigitRun(s) == |s| && s[..|s|] == s && s[|s|..] == "";
    NoTokens();
  }

  /** Where two versions go on differently behind a separator, the tokens in front do not matter. */
  lemma {:induction false} SharedFront(a: seq<Token>, b: seq<Token>, c: seq<Token>)
    ensures Compare(a + b, a + c) == Compare(b, c)
  {
    hide CompareToken;
    if a == [] {
      assert a + b == b && a + c == c;
    } else {
      assert (a + b)[1..] == a[1..] + b && (a + c)[1..] == a[1..] + c;
      TokenOrder(Head(a), Head(a), None);
      SharedFront(a[1..], b, c);
    }
  }

  lemma SharedText(s: string, t: string, u: string)
    requires t != "" && (t[0] == '~' || Separator(t[0])) && u != "" && (u[0] == '~' || Separator(u[0]))
    ensures Compare(Tokens(s + t), Tokens(s + u)) == Compare(Tokens(t), Tokens(u))
  {
    hide Tokens, Compare;
    TokensAppend(s, t);
    TokensAppend(s, u);
    SharedFront(Tokens(s), Tokens(t), Tokens(u));
  }

  // ------------------------------------------------------------- how far a limit reaches

  /** The separators in front. */
  function Skipped(s: string): (n: nat)
    ensures n <= |s| && (n < |s| ==> !Separator(s[n])) && forall k :: 0 <= k < n ==> Separator(s[k])
  {
    if s == "" || !Separator(s[0]) then 0 else 1 + Skipped(s[1..])
  }

  /** How many rounds `verncmp` compares if it stops at `limit`: it looks only between rounds, and a round
      passes separators and one token, or finds the end. */
  function Rounds(s: string, limit: int): nat
    decreases |s|
  {
    if limit <= 0 then 0
    else
      var n := Skipped(s);
      if n == |s| then 1
      else
        var e := n + LeadLength(s[n..]);
        1 + Rounds(s[e..], limit - e)
  }

  function Take(ts: seq<Token>, n: nat): seq<Token> {
    if |ts| <= n then ts else ts[..n]
  }

  lemma RoundsStep(s: string, limit: int)
    ensures limit <= 0 ==> Rounds(s, limit) == 0
    ensures limit > 0 && Skipped(s) == |s| ==> Rounds(s, limit) == 1
    ensures limit > 0 && Skipped(s) < |s| ==>
      var n := Skipped(s); var e := n + LeadLength(s[n..]);
      Rounds(s, limit) == 1 + Rounds(s[e..], limit - e)
  {
    hide Skipped, LeadLength;
  }

  lemma {:induction false} SkipTokens(s: string, n: nat)
    requires n <= |s| && forall k :: 0 <= k < n ==> Separator(s[k])
    ensures Tokens(s) == Tokens(s[n..])
    decreases n
  {
    if n > 0 {
      SkipTokens(s[1..], n - 1);
      assert s[1..][n - 1..] == s[n..];
    } else {
      assert s[0..] == s;
    }
  }

  lemma {:induction false} CutRuns(s: string, n: nat)
    requires n <= |s|
    ensures DigitRun(s[..n]) == (if DigitRun(s) <= n then DigitRun(s) else n)
    ensures AlphaRun(s[..n]) == (if AlphaRun(s) <= n then AlphaRun(s) else n)
    decreases n
  {
    if n > 0 {
      assert s[..n][1..] == s[1..][..n - 1] && s[..n][0] == s[0];
      CutRuns(s[1..], n - 1);
    } else {
      assert s[..0] == "";
    }
  }

  lemma OneLead(s: string)
    requires s != "" && !Separator(s[0])
    ensures |Tokens(s)| == 1 + |Tokens(s[LeadLength(s)..])|
  {
    hide Numeric;
  }

  lemma CutLead(s: string, n: nat)
    requires 0 < n <= |s|
    ensures LeadLength(s[..n]) == (if LeadLength(s) <= n then LeadLength(s) else n)
  {
    CutRuns(s, n);
    assert s[..n][0] == s[0];
  }

  lemma Inside(s: string, k: nat)
    requires s != "" && !Separator(s[0]) && k < LeadLength(s)
    ensures !Separator(s[k])
  {
  }

  /** A limit reaches as many tokens as begin in front of it. If a separator stands right in front of it, or
      the text ends there, one round more is compared: the next token, or the end. */
  lemma {:induction false} RoundsExact(s: string, limit: nat)
    requires limit > 0
    ensures limit > |s| ==> Rounds(s, limit) == |Tokens(s)| + 1
    ensures limit <= |s| ==> Rounds(s, limit) == |Tokens(s[..limit])| + if Separator(s[limit - 1]) then 1 else 0
    decreases |s|
  {
    hide *;
    RoundsStep(s, limit);
    var n := Skipped(s);
    SkipTokens(s, n);
    if n == |s| {
      NoTokens();
      assert s[n..] == "";
    }
    if limit <= n {
      SkipTokens(s[..limit], limit);
      assert s[..limit][limit..] == "";
      NoTokens();
      if n < |s| {
        var e := n + LeadLength(s[n..]);
        RoundsStep(s[e..], limit - e);
      }
    } else if n < |s| {
      var t := s[n..];
      var e := n + LeadLength(t);
      OneLead(t);
      assert t[LeadLength(t)..] == s[e..];
      if limit <= |s| { CutTokens(s, n, limit); }
      if limit <= e {
        RoundsStep(s[e..], limit - e);
        Inside(t, limit - 1 - n);
      } else {
        RoundsExact(s[e..], limit - e);
        if limit <= |s| { assert s[e..][limit - e - 1] == s[limit - 1]; }
      }
    }
  }

  /** The tokens of a text cut off behind its first separators. */
  lemma CutTokens(s: string, n: nat, limit: nat)
    requires n < limit <= |s| && (forall k :: 0 <= k < n ==> Separator(s[k])) && !Separator(s[n])
    ensures var e := n + LeadLength(s[n..]);
      |Tokens(s[..limit])| == 1 + if limit <= e then 0 else |Tokens(s[e..][..limit - e])|
  {
    hide Tokens, LeadLength, Separator;
    var t, cut := s[n..], s[..limit];
    var e := n + LeadLength(t);
    SkipTokens(cut, n);
    assert cut[n..] == t[..limit - n];
    CutLead(t, limit - n);
    OneLead(cut[n..]);
    NoTokens();
    if limit <= e {
      assert cut[n..][limit - n..] == "";
    } else {
      assert cut[n..][LeadLength(t)..] == s[e..][..limit - e];
    }
  }

  lemma {:induction false} CompareTake(a: seq<Token>, b: seq<Token>, n: nat)
    requires n > |a|
    ensures Compare(Take(a, n), Take(b, n)) == Compare(a, b)
    decreases |a|
  {
    hide CompareToken;
    if a != [] && b != [] {
      CompareTake(a[1..], b[1..], n - 1);
      assert Take(b, n)[1..] == Take(b[1..], n - 1);
    }
  }

  /** Without a limit everything is compared. */
  lemma NoLimit(s: string, b: seq<Token>)
    ensures var n := Rounds(s, |s| + 1); Compare(Take(Tokens(s), n), Take(b, n)) == Compare(Tokens(s), b)
  {
    hide *;
    RoundsExact(s, |s| + 1);
    CompareTake(Tokens(s), b, Rounds(s, |s| + 1));
  }

  // ------------------------------------------------------------- numbers by length and text

  lemma Scaled(d: nat, e: nat, p: nat)
    requires d <= e
    ensures d * p <= e * p && (d + 1) * p == d * p + p
  {
  }

  lemma DigitOrder(c: char, d: char)
    requires Digit(c) && Digit(d)
    ensures DigitValue(c) <= 9
    ensures CompareNat(c as int, d as int) == CompareNat(DigitValue(c), DigitValue(d))
    ensures c == d <==> DigitValue(c) == DigitValue(d)
  {
  }

  lemma {:induction false} ValueBelow(s: string)
    requires AllDigits(s)
    ensures Numeric(s) < Pow10(|s|)
  {
    hide Numeric, DigitValue;
    if s == [] {
      NoDigits();
    } else {
      assert s == [s[0]] + s[1..];
      ValueCons(s[0], s[1..]);
      ValueBelow(s[1..]);
      DigitOrder(s[0], s[0]);
      Scaled(DigitValue(s[0]), 9, Pow10(|s| - 1));
    }
  }

  /** Numbers of equal length compare as texts. */
  lemma {:induction false} SameLength(a: string, b: string)
    requires AllDigits(a) && AllDigits(b) && |a| == |b|
    ensures CompareText(a, b) == CompareNat(Numeric(a), Numeric(b))
  {
    hide Numeric, DigitValue, Pow10, Digit;
    if a == [] {
      assert b == [];
    } else {
      var x, y := a[1..], b[1..];
      assert a == [a[0]] + x && b == [b[0]] + y;
      ValueCons(a[0], x);
      ValueCons(b[0], y);
      ValueBelow(x);
      ValueBelow(y);
      SameLength(x, y);
      var d, e, p := DigitValue(a[0]), DigitValue(b[0]), Pow10(|x|);
      DigitOrder(a[0], b[0]);
      if d < e { Scaled(d, e, p); Scaled(d + 1, e, p); }
      if e < d { Scaled(e, d, p); Scaled(e + 1, d, p); }
    }
  }

  /** Without leading zeros a longer number is a greater number. */
  lemma Longer(a: string, b: string)
    requires AllDigits(a) && AllDigits(b) && |a| < |b| && b[0] != '0'
    ensures Numeric(a) < Numeric(b)
  {
    hide Numeric, DigitValue, Pow10, Digit;
    ValueBelow(a);
    assert b == [b[0]] + b[1..];
    ValueCons(b[0], b[1..]);
    PowerGrows(|a|, |b| - 1);
    Zero(b[0]);
    Scaled(1, DigitValue(b[0]), Pow10(|b| - 1));
  }

  lemma Zero(c: char)
    requires Digit(c) && c != '0'
    ensures DigitValue(c) >= 1
  {
  }

  lemma {:induction false} PowerGrows(m: nat, n: nat)
    requires m <= n
    ensures Pow10(m) <= Pow10(n)
  {
    if m < n { PowerGrows(m, n - 1); }
  }

  lemma LeadingZero(s: string)
    requires s != [] && s[0] == '0' && AllDigits(s)
    ensures Numeric(s[1..]) == Numeric(s)
  {
    assert s == [s[0]] + s[1..];
    ValueCons(s[0], s[1..]);
  }

  /** The source compares two numbers without superfluous zeros by length, then as text; that is the
      order of their values, however long they are. */
  lemma NumberOrder(a: string, b: string)
    requires AllDigits(a) && AllDigits(b) && a != [] && b != []
    requires (|a| > 1 ==> a[0] != '0') && (|b| > 1 ==> b[0] != '0')
    ensures CompareNat(Numeric(a), Numeric(b)) == if |a| != |b| then CompareNat(|a|, |b|) else CompareText(a, b)
  {
    if |a| == |b| {
      SameLength(a, b);
    } else if |a| < |b| {
      Longer(a, b);
    } else {
      Longer(b, a);
    }
  }

  // ------------------------------------------------------------- the loop

  method SkipSeparators(s: string, p: nat) returns (q: nat)
    requires p <= |s|
    ensures p <= q <= |s| && (q < |s| ==> !Separator(s[q]))
    ensures q == p + Skipped(s[p..]) && Tokens(s[q..]) == Tokens(s[p..])
  {
    q := p;
    while q < |s| && !Digit(s[q]) && !Alpha(s[q]) && s[q] != '~'
      invariant p <= q <= |s| && p + Skipped(s[p..]) == q + Skipped(s[q..])
      invariant Tokens(s[q..]) == Tokens(s[p..])
    {
      assert s[q..][1..] == s[q + 1..];
      q := q + 1;
    }
  }

  /** A run of digits starts the tokens of what follows. */
  lemma RunAt(s: string, p: nat, end: nat)
    requires p < end <= |s| && AllDigits(s[p..end]) && (end < |s| ==> !Digit(s[end]))
    ensures Tokens(s[p..]) == [Number(Numeric(s[p..end]))] + Tokens(s[end..]) && end == p + LeadLength(s[p..])
  {
    hide Numeric;
    var t, n := s[p..], end - p;
    assert forall k :: 0 <= k < n ==> t[k] == s[p..end][k];
    assert n < |t| ==> t[n] == s[end];
    assert DigitRun(t) == n;
    assert t[..n] == s[p..end] && t[n..] == s[end..];
    assert Digit(t[0]);
  }

  method SkipDigits(s: string, p: nat) returns (end: nat)
    requires p < |s| && Digit(s[p])
    ensures p < end <= |s| && AllDigits(s[p..end]) && (end < |s| ==> !Digit(s[end]))
  {
    end := p;
    while end < |s| && Digit(s[end])
      invariant p <= end <= |s| && AllDigits(s[p..end])
    {
      assert s[p..end + 1] == s[p..end] + [s[end]];
      end := end + 1;
    }
  }

  /** The digits at `p` without leading zeros, and where they end. */
  method TakeNumber(s: string, p: nat) returns (start: nat, end: nat)
    requires p < |s| && Digit(s[p])
    ensures p <= start < end <= |s| && AllDigits(s[start..end])
    ensures end - start > 1 ==> s[start] != '0'
    ensures Tokens(s[p..]) == [Number(Numeric(s[start..end]))] + Tokens(s[end..]) && end == p + LeadLength(s[p..])
  {
    hide Tokens, Numeric, Digit, LeadLength;
    start := p;
    while s[start] == '0' && start + 1 < |s| && Digit(s[start + 1])
      invariant p <= start < |s| && Digit(s[start])
      invariant forall k :: p <= k < start ==> s[k] == '0'
    {
      start := start + 1;
    }
    end := SkipDigits(s, start);
    Zeros(s, p, start, end);
    RunAt(s, p, end);
  }

  lemma {:induction false} Zeros(s: string, p: nat, start: nat, end: nat)
    requires p <= start < end <= |s| && AllDigits(s[start..end]) && forall k :: p <= k < start ==> s[k] == '0'
    ensures AllDigits(s[p..end]) && Numeric(s[p..end]) == Numeric(s[start..end])
    decreases start - p
  {
    hide Numeric;
    if p < start {
      Zeros(s, p + 1, start, end);
      var t := s[p..end];
      assert t[1..] == s[p + 1..end];
      assert forall k :: 0 < k < |t| ==> t[k] == t[1..][k - 1];
      LeadingZero(t);
    }
  }

  method TakeWord(s: string, p: nat) returns (end: nat)
    requires p < |s| && Alpha(s[p])
    ensures p < end <= |s|
    ensures Tokens(s[p..]) == [Word(s[p..end])] + Tokens(s[end..]) && end == p + LeadLength(s[p..])
  {
    ghost var n := AlphaRun(s[p..]);
    assert s[p..][0] == s[p];
    assert forall k :: 0 <= k < n ==> s[p + k] == s[p..][k];
    assert n < |s[p..]| ==> s[p..][n] == s[p + n];
    end := p;
    while end < |s| && Alpha(s[end])
      invariant p <= end <= p + n
    {
      end := end + 1;
    }
    assert s[p..end] == s[p..][..n];
    assert s[p..][n..] == s[end..];
  }

  /** The common prefix first, then the length: `strncmp` over the shorter length. */
  lemma {:induction false} PrefixFirst(a: string, b: string, n: nat)
    requires n <= |a| && n <= |b| && (n == |a| || n == |b|)
    ensures CompareText(a, b) ==
      var c := CompareText(a[..n], b[..n]); if c != 0 then c else CompareNat(|a|, |b|)
    decreases n
  {
    if n > 0 {
      assert a[..n][1..] == a[1..][..n - 1] && b[..n][1..] == b[1..][..n - 1];
      PrefixFirst(a[1..], b[1..], n - 1);
    } else {
      assert a[..0] == [] && b[..0] == [];
    }
  }

  function First(s: string): (r: Option<Token>)
    requires s != [] ==> !Separator(s[0])
    ensures r == Head(Tokens(s))
    ensures r.None? <==> s == []
    ensures s != [] ==> (r.value.Tilde? <==> s[0] == '~')
    ensures s != [] ==> (r.value.Number? <==> Digit(s[0]))
    ensures s != [] ==> (r.value.Word? <==> Alpha(s[0]))
  {
    Head(Tokens(s))
  }

  /** `vercmp`: nothing compares before any version, and two versions compare as their tokens. */
  method Vercmp(ver1: Option<string>, ver2: Option<string>) returns (r: int)
    ensures r == match (ver1, ver2)
      case (None, None) => 0
      case (None, Some(_)) => -1
      case (Some(_), None) => 1
      case (Some(a), Some(b)) => Compare(Tokens(a), Tokens(b))
  {
    r := Verncmp(ver1, ver2, 0);
    if ver1.Some? && ver2.Some? { NoLimit(ver1.value, Tokens(ver2.value)); }
  }

  /** The number of rounds a call of `verncmp` may compare; 0 stands for no limit. */
  function Allowed(s: string, len: nat): nat {
    Rounds(s, if len == 0 then |s| + 1 else len)
  }

  /** `verncmp`: as many tokens are compared as the limit reaches in the first version. `strncmp` answers by
      its sign. */
  method Verncmp(ver1: Option<string>, ver2: Option<string>, len: nat) returns (r: int)
    ensures r == match (ver1, ver2)
      case (None, None) => 0
      case (None, Some(_)) => -1
      case (Some(_), None) => 1
      case (Some(a), Some(b)) => Compare(Take(Tokens(a), Allowed(a, len)), Take(Tokens(b), Allowed(a, len)))
  {
    hide *;
    if ver1.None? && ver2.None? { return 0; }
    if ver1.None? { return -1; }
    if ver2.None? { return 1; }
    var s1, s2 := ver1.value, ver2.value;
    var p1: nat, p2: nat := 0, 0;
    ghost var limit := if len == 0 then |s1| + 1 else len;
    ghost var n := Rounds(s1, limit);
    AllowedIs(s1, len);
    ghost var goal := Limited(s1, s2, n);
    LimitedIs(s1, s2, n);
    assert s1[0..] == s1 && s2[0..] == s2;
    while p1 < |s1| || p2 < |s2|
      invariant p1 <= |s1| && p2 <= |s2| && n == Rounds(s1[p1..], limit - p1)
      invariant goal == Limited(s1[p1..], s2[p2..], n)
      decreases |s1| - p1 + |s2| - p2
    {
      ghost var was1, was2 := p1, p2;
      RoundsStep(s1[p1..], limit - p1);
      if len > 0 && p1 >= len { break; }
      var q1 := SkipSeparators(s1, p1);
      var q2 := SkipSeparators(s2, p2);
      var done;
      ghost var t;
      done, r, p1, p2, t := OneToken(s1, s2, q1, q2);
      if done {
        Decided(s1, s2, was1, was2, q1, q2, r, n);
        return r;
      }
      Passed(s1, s2, was1, was2, q1, q2, p1, p2, t, n);
      Onwards(s1, was1, q1, p1, limit);
      n := n - 1;
    }
    NothingLeft(s1[p1..], s2[p2..], n);
    return 0;
  }

  lemma AllowedIs(s: string, len: nat)
    ensures Allowed(s, len) == Rounds(s, if len == 0 then |s| + 1 else len)
  {
    hide Rounds;
  }

  /** The comparison of the first tokens of two versions. */
  ghost function Limited(a: string, b: string, n: nat): int {
    Compare(Take(Tokens(a), n), Take(Tokens(b), n))
  }

  lemma LimitedIs(a: string, b: string, n: nat)
    ensures Limited(a, b, n) == Compare(Take(Tokens(a), n), Take(Tokens(b), n))
  {
  }

  lemma NothingLeft(a: string, b: string, n: nat)
    requires (a == "" && b == "") || n == 0
    ensures Limited(a, b, n) == 0
  {
    assert Take(Tokens(a), n) == [] && Take(Tokens(b), n) == [];
  }

  lemma Onwards(s: string, p: nat, q: nat, e: nat, limit: int)
    requires p <= q < e <= |s| && q == p + Skipped(s[p..]) && e == q + LeadLength(s[q..]) && limit > p
    ensures Rounds(s[p..], limit - p) == 1 + Rounds(s[e..], limit - e)
  {
    hide Rounds, Skipped, LeadLength;
    RoundsStep(s[p..], limit - p);
    assert s[p..][q - p..] == s[q..] && s[p..][e - p..] == s[e..];
  }

  /** The first tokens tell the versions apart, or both versions are at their end. */
  lemma Decided(s1: string, s2: string, p1: nat, p2: nat, q1: nat, q2: nat, r: int, n: nat)
    requires n > 0 && p1 <= q1 <= |s1| && p2 <= q2 <= |s2| && Settled(s1, s2, q1, q2, r)
    requires Tokens(s1[p1..]) == Tokens(s1[q1..]) && Tokens(s2[p2..]) == Tokens(s2[q2..])
    ensures r == Limited(s1[p1..], s2[p2..], n)
  {
    hide CompareToken, Tokens;
  }

  lemma Passed(s1: string, s2: string, p1: nat, p2: nat, q1: nat, q2: nat, e1: nat, e2: nat, t: Token, n: nat)
    requires n > 0 && p1 <= q1 && p2 <= q2 && Advanced(s1, s2, q1, q2, e1, e2, t)
    requires Tokens(s1[p1..]) == Tokens(s1[q1..]) && Tokens(s2[p2..]) == Tokens(s2[q2..])
    ensures Limited(s1[p1..], s2[p2..], n) == Limited(s1[e1..], s2[e2..], n - 1)
    ensures q1 < e1 <= |s1| && q2 < e2 <= |s2| && e1 == q1 + LeadLength(s1[q1..])
  {
    hide CompareToken, Tokens, LeadLength;
    var a, b := Tokens(s1[e1..]), Tokens(s2[e2..]);
    TokenOrder(Some(t), Some(t), None);
    assert Take([t] + a, n) == [t] + Take(a, n - 1) && Take([t] + b, n) == [t] + Take(b, n - 1);
  }

  lemma AfterTilde(a: string)
    requires a != [] && a[0] == '~'
    ensures Tokens(a) == [Tilde] + Tokens(a[1..]) && LeadLength(a) == 1
  {
  }

  /** What a round that does not decide has passed: the same token in both versions. */
  ghost predicate Advanced(s1: string, s2: string, p1: nat, p2: nat, q1: nat, q2: nat, t: Token) {
    p1 < q1 <= |s1| && p2 < q2 <= |s2| && q1 == p1 + LeadLength(s1[p1..]) &&
    Tokens(s1[p1..]) == [t] + Tokens(s1[q1..]) && Tokens(s2[p2..]) == [t] + Tokens(s2[q2..])
  }

  ghost predicate Settled(s1: string, s2: string, p1: nat, p2: nat, r: int)
    requires p1 <= |s1| && p2 <= |s2|
  {
    var a, b := Tokens(s1[p1..]), Tokens(s2[p2..]);
    r == CompareToken(Head(a), Head(b)) && (r != 0 || (a == [] && b == []))
  }

  /** One round: both positions stand at a token or at the end. Either the first tokens decide, or they are
      equal and are passed. */
  method OneToken(s1: string, s2: string, p1: nat, p2: nat)
    returns (done: bool, r: int, q1: nat, q2: nat, ghost t: Token)
    requires p1 <= |s1| && p2 <= |s2|
    requires (p1 < |s1| ==> !Separator(s1[p1])) && (p2 < |s2| ==> !Separator(s2[p2]))
    ensures done ==> q1 == p1 && q2 == p2 && Settled(s1, s2, p1, p2, r)
    ensures !done ==> Advanced(s1, s2, p1, p2, q1, q2, t)
  {
    hide Tokens, CompareText, Numeric, LeadLength;
    t := Tilde;
    var tilde1, tilde2 := p1 < |s1| && s1[p1] == '~', p2 < |s2| && s2[p2] == '~';
    var f1, f2 := First(s1[p1..]), First(s2[p2..]);
    if tilde1 && !tilde2 { return true, -1, p1, p2, t; }
    if !tilde1 && tilde2 { return true, 1, p1, p2, t; }
    if tilde1 && tilde2 {
      AfterTilde(s1[p1..]);
      AfterTilde(s2[p2..]);
      assert s1[p1..][1..] == s1[p1 + 1..] && s2[p2..][1..] == s2[p2 + 1..];
      return false, 0, p1 + 1, p2 + 1, t;
    }
    if p1 >= |s1| && p2 >= |s2| { NoTokens(); return true, 0, p1, p2, t; }
    if p1 >= |s1| { return true, -1, p1, p2, t; }
    if p2 >= |s2| { return true, 1, p1, p2, t; }
    if Digit(s1[p1]) && Digit(s2[p2]) {
      done, r, q1, q2, t := TwoNumbers(s1, s2, p1, p2);
      return;
    }
    if Alpha(s1[p1]) && Alpha(s2[p2]) {
      done, r, q1, q2, t := TwoWords(s1, s2, p1, p2);
      return;
    }
    if Digit(s1[p1]) { return true, 1, p1, p2, t; }
    return true, -1, p1, p2, t;
  }

  method TwoNumbers(s1: string, s2: string, p1: nat, p2: nat)
    returns (done: bool, r: int, q1: nat, q2: nat, ghost t: Token)
    requires p1 < |s1| && p2 < |s2| && Digit(s1[p1]) && Digit(s2[p2])
    ensures done ==> q1 == p1 && q2 == p2 && Settled(s1, s2, p1, p2, r)
    ensures !done ==> Advanced(s1, s2, p1, p2, q1, q2, t)
  {
    hide Tokens, CompareText, Numeric, LeadLength, Digit;
    var start1, end1 := TakeNumber(s1, p1);
    var start2, end2 := TakeNumber(s2, p2);
    var num1, num2 := s1[start1..end1], s2[start2..end2];
    NumberOrder(num1, num2);
    t := Number(Numeric(num1));
    if |num1| != |num2| { return true, if |num1| < |num2| then -1 else 1, p1, p2, t; }
    var cmp := CompareText(num1, num2);
    if cmp != 0 { return true, cmp, p1, p2, t; }
    return false, 0, end1, end2, t;
  }

  method TwoWords(s1: string, s2: string, p1: nat, p2: nat)
    returns (done: bool, r: int, q1: nat, q2: nat, ghost t: Token)
    requires p1 < |s1| && p2 < |s2| && Alpha(s1[p1]) && Alpha(s2[p2])
    ensures done ==> q1 == p1 && q2 == p2 && Settled(s1, s2, p1, p2, r)
    ensures !done ==> Advanced(s1, s2, p1, p2, q1, q2, t)
  {
    hide Tokens, CompareText, LeadLength, Alpha;
    var end1 := TakeWord(s1, p1);
    var end2 := TakeWord(s2, p2);
    var word1, word2 := s1[p1..end1], s2[p2..end2];
    var min := if |word1| < |word2| then |word1| else |word2|;
    PrefixFirst(word1, word2, min);
    TextOrder(word1, word2, word1);
    t := Word(word1);
    var cmp := CompareText(word1[..min], word2[..min]);
    if cmp != 0 { return true, cmp, p1, p2, t; }
    if |word1| != |word2| { return true, if |word1| < |word2| then -1 else 1, p1, p2, t; }
    return false, 0, end1, end2, t;
  }
}
