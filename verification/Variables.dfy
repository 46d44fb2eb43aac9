/** Expansion of the variables in a path (`embloader/src/main/resolve.c`). */
module Variables {
  import opened Wrappers
  import opened Sizes


  /** A row of the variable table: its name, what its getter delivers (`None` if it fails), and whether
      that depends on the loader. */
  datatype Variable = Variable(name: string, values: Option<seq<string>>, dependsOnLoader: bool)

  function Pattern(name: string): (p: string)
    ensures |p| == |name| + 2
  {
    "{" + name + "}"
  }

  // ------------------------------------------------------------- replacing one variable

  /** Every occurrence replaced, from the left. */
  function Replace(s: string, p: string, value: string): string
    requires p != ""
    decreases |s|
  {
    if s == "" then ""
    else if p <= s then value + Replace(s[|p|..], p, value)
    else [s[0]] + Replace(s[1..], p, value)
  }

  /** How often the pattern occurs. */
  function Count(s: string, p: string): nat
    requires p != ""
    decreases |s|
  {
    if s == "" then 0
    else if p <= s then 1 + Count(s[|p|..], p)
    else Count(s[1..], p)
  }

  predicate Contains(s: string, p: string)
    requires p != ""
  {
    Count(s, p) > 0
  }

  /** `strstr` from a position on: the first occurrence. */
  method Find(s: string, p: string, from: nat) returns (r: Option<nat>)
    requires p != "" && from <= |s|
    ensures r.Some? ==> from <= r.value && r.value + |p| <= |s| && p <= s[r.value..]
    ensures r.Some? ==> Count(s[from..], p) == 1 + Count(s[r.value + |p|..], p)
    ensures r.Some? ==> forall v :: Replace(s[from..], p, v) == s[from..r.value] + v + Replace(s[r.value + |p|..], p, v)
    ensures r.None? ==> Count(s[from..], p) == 0 && forall v :: Replace(s[from..], p, v) == s[from..]
  {
    hide Replace, Count;
    var k := from;
    ghost var start := s[from..];
    assert s[from..k] == "";
    forall v ensures Replace(start, p, v) == s[from..k] + Replace(s[k..], p, v) {
      assert "" + Replace(start, p, v) == Replace(start, p, v);
    }
    while k < |s| && !(p <= s[k..])
      invariant from <= k <= |s|
      invariant Count(start, p) == Count(s[k..], p)
      invariant forall v :: Replace(start, p, v) == s[from..k] + Replace(s[k..], p, v)
    {
      OneChar(s, p, from, k);
      k := k + 1;
    }
    if k == |s| {
      assert s[k..] == "";
      NoneLeft(p);
      assert s[from..k] + "" == start;
      return None;
    }
    assert s[k..][|p|..] == s[k + |p|..];
    OnePattern(s, p, from, k);
    return Some(k);
  }

  lemma NoneLeft(p: string)
    requires p != ""
    ensures Count("", p) == 0 && forall v :: Replace("", p, v) == ""
  {
  }

  lemma OneChar(s: string, p: string, from: nat, k: nat)
    requires p != "" && from <= k < |s| && !(p <= s[k..])
    ensures Count(s[k..], p) == Count(s[k + 1..], p)
    ensures forall v :: s[from..k] + Replace(s[k..], p, v) == s[from..k + 1] + Replace(s[k + 1..], p, v)
  {
    assert s[k..][1..] == s[k + 1..];
    forall v ensures s[from..k] + Replace(s[k..], p, v) == s[from..k + 1] + Replace(s[k + 1..], p, v) {
      assert Replace(s[k..], p, v) == [s[k]] + Replace(s[k + 1..], p, v);
      assert s[from..k] + ([s[k]] + Replace(s[k + 1..], p, v)) == s[from..k] + [s[k]] + Replace(s[k + 1..], p, v);
      assert s[from..k + 1] == s[from..k] + [s[k]];
    }
  }

  lemma OnePattern(s: string, p: string, from: nat, k: nat)
    requires p != "" && from <= k < |s| && p <= s[k..]
    ensures Count(s[k..], p) == 1 + Count(s[k + |p|..], p)
    ensures forall v :: s[from..k] + Replace(s[k..], p, v) == s[from..k] + v + Replace(s[k + |p|..], p, v)
  {
    assert s[k..][|p|..] == s[k + |p|..];
    forall v ensures s[from..k] + Replace(s[k..], p, v) == s[from..k] + v + Replace(s[k + |p|..], p, v) {
      assert s[from..k] + (v + Replace(s[k + |p|..], p, v)) == s[from..k] + v + Replace(s[k + |p|..], p, v);
    }
  }

  /** Replacing changes the length by the same amount each time. */
  lemma {:induction false} ReplacedLength(s: string, p: string, value: string)
    requires p != ""
    ensures |Replace(s, p, value)| == |s| + Count(s, p) * (|value| - |p|)
    ensures Count(s, p) * |p| <= |s|
    decreases |s|
  {
    if s == "" {
    } else if p <= s {
      ReplacedLength(s[|p|..], p, value);
      OneMore(Count(s[|p|..], p), |value| - |p|);
      OneMore(Count(s[|p|..], p), |p|);
    } else {
      ReplacedLength(s[1..], p, value);
    }
  }

  lemma OneMore(n: nat, d: int)
    ensures (1 + n) * d == d + n * d
  {
  }

  method CountAll(s: string, p: string) returns (count: nat)
    requires p != ""
    ensures count == Count(s, p)
  {
    hide Count, Replace;
    count := 0;
    var scan := 0;
    assert s[0..] == s;
    while true
      invariant 0 <= scan <= |s|
      invariant Count(s, p) == count + Count(s[scan..], p)
      decreases |s| - scan
    {
      var pos := Find(s, p, scan);
      if pos.None? { return count; }
      count := count + 1;
      scan := pos.value + |p|;
    }
  }

  /** The length that is computed before the result is written, if it and a terminator can be addressed. */
  function ResultLength(s: nat, p: nat, value: nat, count: nat): Option<nat>
    requires s < SIZE_MAX && count * p <= s
  {
    if value >= p then
      var growth := value - p;
      if growth > 0 && count > (SIZE_MAX - s) / growth then None
      else if s + count * growth == SIZE_MAX then None
      else Some(s + count * growth)
    else
      Shrink(count, p, value);
      Some(s - count * (p - value))
  }

  lemma Shrink(count: nat, p: nat, value: nat)
    requires value < p
    ensures 0 <= count * (p - value) <= count * p
  {
    assert count * (p - value) == count * p - count * value;
  }

  /** The length is computed unless it would be the largest size or more. */
  lemma ResultLengthIs(s: string, p: string, value: string)
    requires p != "" && |s| < SIZE_MAX
    ensures Count(s, p) * |p| <= |s|
    ensures ResultLength(|s|, |p|, |value|, Count(s, p)) ==
      var n := |Replace(s, p, value)|; if n < SIZE_MAX then Some(n) else None
  {
    hide Replace, Count;
    ReplacedLength(s, p, value);
    var count := Count(s, p);
    if |value| >= |p| {
      var growth := |value| - |p|;
      if growth > 0 { Quotient(count, growth, SIZE_MAX - |s|); }
    } else {
      Shrink(count, |p|, |value|);
      assert count * (|value| - |p|) == -(count * (|p| - |value|));
    }
  }

  lemma Quotient(count: nat, growth: nat, rest: nat)
    requires growth > 0
    ensures count > rest / growth <==> count * growth > rest
  {
    var q := rest / growth;
    assert rest == q * growth + rest % growth;
    if count > q {
      assert count * growth >= (q + 1) * growth == q * growth + growth;
    } else {
      assert count * growth <= q * growth;
    }
  }

  /** `replace_variable`: the result buffer is sized before it is filled, and is filled exactly. */
  method ReplaceVariable(str: string, name: string, value: string, memory: bool)
    returns (result: Option<string>, replaced: bool)
    requires |str| < SIZE_MAX
    ensures var p := Pattern(name);
      if !Contains(str, p) then result == Some(str) && !replaced
      else if memory && |Replace(str, p, value)| < SIZE_MAX then result == Some(Replace(str, p, value)) && replaced
      else result.None?
  {
    hide Replace, Count;
    var p := Pattern(name);
    var pos := Find(str, p, 0);
    assert str[0..] == str;
    if pos.None? { return Some(str), false; }
    var count := CountAll(str, p);
    ResultLengthIs(str, p, value);
    var length := ResultLength(|str|, |p|, |value|, count);
    if length.None? || !memory { return None, false; }
    var text := Fill(str, p, value, length.value);
    return Some(text), true;
  }

  method Fill(str: string, p: string, value: string, length: nat) returns (text: string)
    requires p != "" && length == |Replace(str, p, value)|
    ensures text == Replace(str, p, value)
  {
    hide Replace, Count;
    ghost var all := Replace(str, p, value);
    var result := new char[length + 1];
    var out, scan := 0, 0;
    assert str[0..] == str;
    while true
      invariant 0 <= scan <= |str| && 0 <= out <= length
      invariant all == result[..out] + Replace(str[scan..], p, value)
      decreases |str| - scan
    {
      var pos := Find(str, p, scan);
      if pos.None? { break; }
      ghost var rest := Replace(str[pos.value + |p|..], p, value);
      assert all == result[..out] + str[scan..pos.value] + value + rest;
      Copy(result, out, str[scan..pos.value]);
      out := out + |str[scan..pos.value]|;
      Copy(result, out, value);
      out := out + |value|;
      scan := pos.value + |p|;
    }
    Copy(result, out, str[scan..]);
    out := out + |str[scan..]|;
    result[out] := '\0';
    assert result[..out] == all;
    return result[..length];
  }

  /** `memcpy`. */
  method Copy(dst: array<char>, at: nat, piece: string)
    requires at + |piece| <= dst.Length
    modifies dst
    ensures dst[..at + |piece|] == old(dst[..at]) + piece
  {
    for k := 0 to |piece|
      invariant dst[..at + k] == old(dst[..at]) + piece[..k]
    {
      dst[at + k] := piece[k];
      assert piece[..k + 1] == piece[..k] + [piece[k]];
    }
    assert piece[..|piece|] == piece;
  }
}
