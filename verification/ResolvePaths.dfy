/** A path with variables expands to the ordered product of the values of the variables in it
    (`resolve_path_recursive`). */
module ResolvePaths {
  import opened Wrappers
  import opened Variables
  import opened Sizes

  // ------------------------------------------------------------- the recursion

  function Concat(a: Option<seq<string>>, b: Option<seq<string>>): Option<seq<string>> {
    if a.Some? && b.Some? then Some(a.value + b.value) else None
  }

  /** `resolve_path_recursive` from one row of the table on: the paths it adds, or `None` if a getter
      fails. A variable that the path does not mention is passed with its first value. */
  function Resolve(path: string, vars: seq<Variable>, i: nat): Option<seq<string>>
    requires i <= |vars|
    decreases |vars| - i, 1
  {
    if i == |vars| then Some([path])
    else if vars[i].values.None? then None
    else if vars[i].values.value == [] then Resolve(path, vars, i + 1)
    else if !Contains(path, Pattern(vars[i].name)) then Resolve(path, vars, i + 1)
    else ResolveEach(path, vars, i, vars[i].values.value)
  }

  function ResolveEach(path: string, vars: seq<Variable>, i: nat, values: seq<string>): Option<seq<string>>
    requires i < |vars|
    decreases |vars| - i, 0, |values|
  {
    if values == [] then Some([])
    else
      var here := Resolve(Replace(path, Pattern(vars[i].name), values[0]), vars, i + 1);
      Concat(here, ResolveEach(path, vars, i, values[1..]))
  }

  lemma ReplaceNone(s: string, p: string, v: string)
    requires p != "" && !Contains(s, p)
    ensures Replace(s, p, v) == s
    decreases |s|
  {
    if s != "" { ReplaceNone(s[1..], p, v); assert s == [s[0]] + s[1..]; }
  }

  /** All paths on the way can be addressed. */
  predicate Short(path: string, vars: seq<Variable>, i: nat)
    requires i <= |vars|
    decreases |vars| - i
  {
    |path| < SIZE_MAX &&
    (i == |vars| ||
     if Idle(vars[i]) || !Contains(path, Pattern(vars[i].name)) then Short(path, vars, i + 1)
     else forall k :: 0 <= k < |vars[i].values.value| ==>
       Short(Replace(path, Pattern(vars[i].name), vars[i].values.value[k]), vars, i + 1))
  }

  predicate Idle(v: Variable) {
    v.values.None? || v.values.value == []
  }

  /** `resolve_path_recursive`. Memory may run out at any step unless there is `plenty`; then it fails only
      where a getter does or a path grows too long. The loop over the values stops after the first one if
      nothing was replaced. */
  method ResolveRecursive(plenty: bool, result: seq<string>, path: string, vars: seq<Variable>, i: nat)
    returns (success: bool, result': seq<string>)
    requires i <= |vars| && |path| < SIZE_MAX
    ensures success ==> Resolve(path, vars, i).Some? && result' == result + Resolve(path, vars, i).value
    ensures plenty && Resolve(path, vars, i).Some? && Short(path, vars, i) ==> success
    decreases |vars| - i
  {
    hide Replace, Contains;
    var fails: bool := *;
    if i == |vars| { return !fails || plenty, result + [path]; }
    if vars[i].values.None? { return false, result; }
    var values := vars[i].values.value;
    if values == [] {
      success, result' := ResolveRecursive(plenty, result, path, vars, i + 1);
      return;
    }
    success, result' := ResolveValues(plenty, result, path, vars, i);
  }

  method ResolveValues(plenty: bool, result: seq<string>, path: string, vars: seq<Variable>, i: nat)
    returns (success: bool, result': seq<string>)
    requires i < |vars| && |path| < SIZE_MAX && !Idle(vars[i])
    ensures success ==> Resolve(path, vars, i).Some? && result' == result + Resolve(path, vars, i).value
    ensures plenty && Resolve(path, vars, i).Some? && Short(path, vars, i) ==> success
    decreases |vars| - i, 0
  {
    hide Replace, Contains, Short;
    var p, values := Pattern(vars[i].name), vars[i].values.value;
    success, result' := true, result;
    ghost var all, done := ResolveEach(path, vars, i, values), [];
    assert values[0..] == values;
    Nothing(all);
    assert result + done == result;
    for k := 0 to |values|
      invariant success && result' == result + done && (k == 0 ==> done == [])
      invariant k > 0 ==> Contains(path, p)
      invariant all == Concat(Some(done), ResolveEach(path, vars, i, values[k..]))
    {
      ghost var rest := values[k..];
      assert rest[0] == values[k] && rest[1..] == values[k + 1..];
      ShortHere(path, vars, i, k);
      var memory: bool := *;
      var newPath, replaced := ReplaceVariable(path, vars[i].name, values[k], memory || plenty);
      if newPath.None? { return false, result'; }
      if !replaced { ReplaceNone(path, p, values[k]); }
      ghost var here := Resolve(newPath.value, vars, i + 1);
      success, result' := ResolveRecursive(plenty, result', newPath.value, vars, i + 1);
      if !success || !replaced {
        assert !replaced ==> done == [] && result + done == result;
        return;
      }
      Regroup(done, here.value, ResolveEach(path, vars, i, values[k + 1..]));
      assert result + done + here.value == result + (done + here.value);
      done := done + here.value;
    }
    assert values[|values|..] == [];
    assert done + [] == done;
  }

  lemma ShortHere(path: string, vars: seq<Variable>, i: nat, k: nat)
    requires i < |vars| && !Idle(vars[i]) && k < |vars[i].values.value|
    ensures var p := Pattern(vars[i].name); Short(path, vars, i) ==>
      if Contains(path, p) then Short(Replace(path, p, vars[i].values.value[k]), vars, i + 1)
      else Short(path, vars, i + 1)
    ensures var next := Replace(path, Pattern(vars[i].name), vars[i].values.value[k]);
      Short(next, vars, i + 1) ==> |next| < SIZE_MAX
  {
    hide Replace, Contains;
  }

  lemma Nothing(c: Option<seq<string>>)
    ensures Concat(Some([]), c) == c
  {
    if c.Some? { assert [] + c.value == c.value; }
  }

  lemma Regroup(a: seq<string>, b: seq<string>, c: Option<seq<string>>)
    ensures Concat(Some(a), Concat(Some(b), c)) == Concat(Some(a + b), c)
  {
    if c.Some? { assert a + (b + c.value) == a + b + c.value; }
  }

  /** `path_depends_on_loader`: the path mentions a variable that depends on the loader. */
  method DependsOnLoader(path: string, vars: seq<Variable>) returns (r: bool)
    ensures r <==> exists i :: 0 <= i < |vars| && vars[i].dependsOnLoader && Contains(path, Pattern(vars[i].name))
  {
    for i := 0 to |vars|
      invariant forall j :: 0 <= j < i ==> !(vars[j].dependsOnLoader && Contains(path, Pattern(vars[j].name)))
    {
      if vars[i].dependsOnLoader && Contains(path, Pattern(vars[i].name)) { return true; }
    }
    return false;
  }

  // ------------------------------------------------------------- what a path means

  /** A path is made of characters and references to variables. */
  datatype Piece = Lit(c: char) | Ref(i: nat)

  /** The path with a text in the place of each variable. */
  function Text(pieces: seq<Piece>, texts: seq<string>): string {
    if pieces == [] then ""
    else
      match pieces[0]
      case Lit(c) => [c] + Text(pieces[1..], texts)
      case Ref(i) => (if i < |texts| then texts[i] else "") + Text(pieces[1..], texts)
  }

  predicate NoOpen(s: string) {
    forall k :: 0 <= k < |s| ==> s[k] != '{'
  }

  /** Names are distinct and without braces. */
  predicate ValidNames(vars: seq<Variable>) {
    (forall i, j :: 0 <= i < j < |vars| ==> vars[i].name != vars[j].name) &&
    (forall i :: 0 <= i < |vars| ==> NoOpen(vars[i].name) && NoClose(vars[i].name))
  }

  /** No value brings a new opening brace. */
  predicate PlainValues(vars: seq<Variable>) {
    forall i :: 0 <= i < |vars| ==> PlainVariable(vars[i])
  }

  predicate PlainVariable(v: Variable) {
    v.values.Some? && forall k :: 0 <= k < |v.values.value| ==> NoOpen(v.values.value[k])
  }

  /** The first row of the table from `i` on whose pattern stands in front. */
  function InFront(s: string, vars: seq<Variable>, i: nat): (r: Option<nat>)
    requires i <= |vars|
    ensures r.Some? ==> i <= r.value < |vars| && Pattern(vars[r.value].name) <= s
    ensures r.None? ==> forall k :: i <= k < |vars| ==> !(Pattern(vars[k].name) <= s)
    decreases |vars| - i
  {
    if i == |vars| then None
    else if Pattern(vars[i].name) <= s then Some(i)
    else InFront(s, vars, i + 1)
  }

  /** A path taken apart. What is no reference to a variable of the table is text, braces included. */
  function Pieces(path: string, vars: seq<Variable>): seq<Piece>
    decreases |path|
  {
    if path == "" then []
    else
      var k := InFront(path, vars, 0);
      if k.Some? then [Ref(k.value)] + Pieces(path[|Pattern(vars[k.value].name)|..], vars)
      else [Lit(path[0])] + Pieces(path[1..], vars)
  }

  /** The path as it is written: every variable as its own pattern. */
  function Written(vars: seq<Variable>): (r: seq<string>)
    ensures |r| == |vars| && forall i :: 0 <= i < |vars| ==> r[i] == Pattern(vars[i].name)
  {
    seq(|vars|, i requires 0 <= i < |vars| => Pattern(vars[i].name))
  }

  /** Variables from `i` on have not been replaced. */
  predicate Pending(texts: seq<string>, vars: seq<Variable>, i: nat) {
    |texts| == |vars| && forall j :: i <= j < |vars| ==> texts[j] == Pattern(vars[j].name)
  }

  /** How often a variable is referred to. */
  function Refs(pieces: seq<Piece>, i: nat): nat {
    if pieces == [] then 0 else (if pieces[0] == Ref(i) then 1 else 0) + Refs(pieces[1..], i)
  }

  /** The texts of all variables in every combination of values, earlier variables varying slowest.
      A variable that does not occur or has no values is left alone. */
  function Products(pieces: seq<Piece>, texts: seq<string>, vars: seq<Variable>, i: nat): seq<seq<string>>
    requires i <= |vars| == |texts|
    decreases |vars| - i, 1
  {
    if i == |vars| then [texts]
    else if Idle(vars[i]) || Ref(i) !in pieces then Products(pieces, texts, vars, i + 1)
    else ProductsEach(pieces, texts, vars, i, vars[i].values.value)
  }

  function ProductsEach(pieces: seq<Piece>, texts: seq<string>, vars: seq<Variable>, i: nat, values: seq<string>)
    : seq<seq<string>>
    requires i < |vars| == |texts|
    decreases |vars| - i, 0, |values|
  {
    if values == [] then []
    else Products(pieces, texts[i := values[0]], vars, i + 1) + ProductsEach(pieces, texts, vars, i, values[1..])
  }

  function Texts(pieces: seq<Piece>, all: seq<seq<string>>): seq<string> {
    if all == [] then [] else [Text(pieces, all[0])] + Texts(pieces, all[1..])
  }

  lemma {:induction false} TextsAppend(pieces: seq<Piece>, a: seq<seq<string>>, b: seq<seq<string>>)
    ensures Texts(pieces, a + b) == Texts(pieces, a) + Texts(pieces, b)
  {
    if a == [] {
      assert a + b == b;
    } else {
      assert (a + b)[1..] == a[1..] + b;
      TextsAppend(pieces, a[1..], b);
    }
  }

  // ------------------------------------------------------------- occurrences are references

  /** Characters before the next opening brace are passed over. */
  lemma {:induction false} PassOver(a: string, s: string, p: string, v: string)
    requires p != "" && p[0] == '{' && NoOpen(a)
    ensures Replace(a + s, p, v) == a + Replace(s, p, v) && Count(a + s, p) == Count(s, p)
  {
    if a == "" {
      assert a + s == s && "" + Replace(s, p, v) == Replace(s, p, v);
    } else {
      assert (a + s)[0] == a[0] && (a + s)[1..] == a[1..] + s;
      PassOver(a[1..], s, p, v);
      assert [a[0]] + (a[1..] + Replace(s, p, v)) == a + Replace(s, p, v);
    }
  }

  /** Another variable's pattern is passed over: only the name between the braces could match. */
  lemma PassPattern(name: string, other: string, s: string, v: string)
    requires name != other && NoOpen(name) && NoOpen(other)
    requires (forall k :: 0 <= k < |name| ==> name[k] != '}') && forall k :: 0 <= k < |other| ==> other[k] != '}'
    ensures var p, q := Pattern(name), Pattern(other);
      Replace(q + s, p, v) == q + Replace(s, p, v) && Count(q + s, p) == Count(s, p)
  {
    var p, q := Pattern(name), Pattern(other);
    var t := q + s;
    if p <= t { SameName(name, other, s); }
    assert !(p <= t);
    var tail := other + "}";
    assert t == ['{'] + (tail + s);
    assert t[1..] == tail + s && t[0] == '{';
    PassOver(tail, s, p, v);
    assert q + Replace(s, p, v) == ['{'] + (tail + Replace(s, p, v));
  }

  lemma SameName(name: string, other: string, s: string)
    requires (forall k :: 0 <= k < |name| ==> name[k] != '}') && forall k :: 0 <= k < |other| ==> other[k] != '}'
    requires Pattern(name) <= Pattern(other) + s
    ensures name == other
  {
    var p, t := Pattern(name), Pattern(other) + s;
    assert forall k :: 0 <= k < |p| ==> p[k] == t[k];
    assert forall k :: 0 <= k < |name| ==> p[k + 1] == name[k];
    assert forall k :: 0 <= k < |other| ==> t[k + 1] == other[k];
    assert p[|name| + 1] == '}' && t[|other| + 1] == '}';
  }

  lemma AtPattern(p: string, s: string, v: string)
    requires p != ""
    ensures Replace(p + s, p, v) == v + Replace(s, p, v) && Count(p + s, p) == 1 + Count(s, p)
  {
    assert p <= p + s && (p + s)[|p|..] == s;
  }

  /** The pattern can only occur where a brace opens, and never within itself. */
  lemma CountStep(t: string, name: string)
    requires t != "" && NoOpen(name)
    ensures var p := Pattern(name); Count(t, p) == Count(t[1..], p) + if p <= t then 1 else 0
  {
    var p := Pattern(name);
    if p <= t {
      assert t[1..] == p[1..] + t[|p|..];
      assert NoOpen(p[1..]);
      PassOver(p[1..], t[|p|..], p, "");
    }
  }

  lemma {:induction false} CountMore(a: string, s: string, name: string)
    requires NoOpen(name)
    ensures Count(a + s, Pattern(name)) >= Count(s, Pattern(name))
  {
    hide Count, Pattern;
    if a == "" {
      assert a + s == s;
    } else {
      assert (a + s)[1..] == a[1..] + s;
      CountStep(a + s, name);
      CountMore(a[1..], s, name);
    }
  }

  /** Text in which no pattern starts is passed over. */
  lemma {:induction false} SkipAll(a: string, s: string, name: string, v: string)
    requires NoOpen(name) && Count(a + s, Pattern(name)) == Count(s, Pattern(name))
    ensures Replace(a + s, Pattern(name), v) == a + Replace(s, Pattern(name), v)
  {
    hide Count, Pattern, NoOpen;
    var p, t := Pattern(name), a + s;
    if a == "" {
      assert t == s && "" + Replace(s, p, v) == Replace(s, p, v);
    } else {
      assert t[0] == a[0] && t[1..] == a[1..] + s;
      CountStep(t, name);
      CountMore(a[1..], s, name);
      SkipAll(a[1..], s, name, v);
      assert [a[0]] + (a[1..] + Replace(s, p, v)) == a + Replace(s, p, v);
    }
  }

  function PieceText(x: Piece, texts: seq<string>): string {
    match x
    case Lit(c) => [c]
    case Ref(i) => if i < |texts| then texts[i] else ""
  }

  lemma TextStep(pieces: seq<Piece>, texts: seq<string>)
    requires pieces != []
    ensures Text(pieces, texts) == PieceText(pieces[0], texts) + Text(pieces[1..], texts)
  {
  }

  lemma {:induction false} CountRefs(pieces: seq<Piece>, texts: seq<string>, vars: seq<Variable>, i: nat)
    requires ValidNames(vars) && i < |vars| == |texts| && texts[i] == Pattern(vars[i].name)
    ensures Count(Text(pieces, texts), Pattern(vars[i].name)) >= Refs(pieces, i)
  {
    hide Count, Text, Pattern;
    if pieces != [] {
      var rest := Text(pieces[1..], texts);
      TextStep(pieces, texts);
      CountRefs(pieces[1..], texts, vars, i);
      if pieces[0] == Ref(i) {
        AtPattern(Pattern(vars[i].name), rest, "");
      } else {
        CountMore(PieceText(pieces[0], texts), rest, vars[i].name);
      }
    }
  }

  /** Where the pattern of variable `i` occurs only at its references, these are what is replaced. */
  lemma {:induction false} ReplaceRefs(pieces: seq<Piece>, texts: seq<string>, vars: seq<Variable>, i: nat, v: string)
    requires ValidNames(vars) && i < |vars| == |texts| && texts[i] == Pattern(vars[i].name)
    requires Count(Text(pieces, texts), Pattern(vars[i].name)) == Refs(pieces, i)
    ensures Replace(Text(pieces, texts), Pattern(vars[i].name), v) == Text(pieces, texts[i := v])
  {
    hide Replace, Count, Text, Pattern;
    var p := Pattern(vars[i].name);
    if pieces == [] {
      NoneLeft(p);
      NoText(texts);
      NoText(texts[i := v]);
    } else {
      var rest, a := Text(pieces[1..], texts), PieceText(pieces[0], texts);
      TextStep(pieces, texts);
      TextStep(pieces, texts[i := v]);
      CountRefs(pieces[1..], texts, vars, i);
      if pieces[0] == Ref(i) {
        AtPattern(p, rest, v);
      } else {
        CountMore(a, rest, vars[i].name);
        SkipAll(a, rest, vars[i].name, v);
      }
      ReplaceRefs(pieces[1..], texts, vars, i, v);
    }
  }

  lemma NoText(texts: seq<string>)
    ensures Text([], texts) == ""
  {
  }

  lemma {:induction false} RefsIn(pieces: seq<Piece>, i: nat)
    ensures Refs(pieces, i) > 0 <==> Ref(i) in pieces
  {
    if pieces != [] {
      RefsIn(pieces[1..], i);
      assert pieces == [pieces[0]] + pieces[1..];
    }
  }

  // ------------------------------------------------------------- any path is made of pieces

  lemma {:induction false} PiecesText(path: string, vars: seq<Variable>)
    ensures Text(Pieces(path, vars), Written(vars)) == path
    decreases |path|
  {
    hide Pattern, Text, InFront;
    var pieces, texts := Pieces(path, vars), Written(vars);
    if path == "" {
      NoText(texts);
    } else {
      var k := InFront(path, vars, 0);
      TextStep(pieces, texts);
      if k.Some? {
        var p := Pattern(vars[k.value].name);
        PiecesText(path[|p|..], vars);
        assert pieces[1..] == Pieces(path[|p|..], vars) && p + path[|p|..] == path;
      } else {
        PiecesText(path[1..], vars);
        assert pieces[1..] == Pieces(path[1..], vars) && [path[0]] + path[1..] == path;
      }
    }
  }

  /** The pieces refer to a variable as often as its pattern occurs. */
  lemma {:induction false} PiecesRefs(path: string, vars: seq<Variable>, i: nat)
    requires ValidNames(vars) && i < |vars|
    ensures Refs(Pieces(path, vars), i) == Count(path, Pattern(vars[i].name))
    decreases |path|
  {
    hide Pattern, Count, InFront;
    var pieces, p := Pieces(path, vars), Pattern(vars[i].name);
    if path == "" {
      NoneLeft(p);
    } else {
      var k := InFront(path, vars, 0);
      if k.Some? {
        var q := Pattern(vars[k.value].name);
        var rest := path[|q|..];
        PiecesRefs(rest, vars, i);
        assert pieces[1..] == Pieces(rest, vars) && q + rest == path;
        if k.value == i { AtPattern(p, rest, ""); } else { PassPattern(vars[i].name, vars[k.value].name, rest, ""); }
      } else {
        PiecesRefs(path[1..], vars, i);
        assert pieces[1..] == Pieces(path[1..], vars);
        CountStep(path, vars[i].name);
      }
    }
  }

  // ------------------------------------------------------------- the theorem

  /** At every variable with values, for every choice of values before it, its pattern occurs nowhere but at
      its references. */
  predicate OnlyRefs(pieces: seq<Piece>, texts: seq<string>, vars: seq<Variable>, i: nat)
    requires i <= |vars| == |texts|
    decreases |vars| - i
  {
    i == |vars| ||
    if vars[i].values.None? || vars[i].values.value == [] then OnlyRefs(pieces, texts, vars, i + 1)
    else
      Count(Text(pieces, texts), Pattern(vars[i].name)) == Refs(pieces, i) &&
      if Ref(i) !in pieces then OnlyRefs(pieces, texts, vars, i + 1)
      else
        forall k :: 0 <= k < |vars[i].values.value| ==>
          OnlyRefs(pieces, texts[i := vars[i].values.value[k]], vars, i + 1)
  }

  predicate AllValued(vars: seq<Variable>) {
    forall i :: 0 <= i < |vars| ==> vars[i].values.Some?
  }

  lemma {:induction false} ResolvesFrom(pieces: seq<Piece>, texts: seq<string>, vars: seq<Variable>, i: nat)
    requires ValidNames(vars) && AllValued(vars) && i <= |vars| && Pending(texts, vars, i)
    requires OnlyRefs(pieces, texts, vars, i)
    ensures Resolve(Text(pieces, texts), vars, i) == Some(Texts(pieces, Products(pieces, texts, vars, i)))
    decreases |vars| - i, 1
  {
    hide Replace, Count, Text, ValidNames, Pattern;
    if i == |vars| {
      OneText(pieces, texts);
    } else {
      RefsIn(pieces, i);
      if vars[i].values.value == [] || Ref(i) !in pieces {
        ResolvesFrom(pieces, texts, vars, i + 1);
      } else {
        ResolvesEach(pieces, texts, vars, i, vars[i].values.value);
      }
    }
  }

  lemma OneText(pieces: seq<Piece>, texts: seq<string>)
    ensures Texts(pieces, [texts]) == [Text(pieces, texts)]
  {
    assert [texts][1..] == [];
    assert [Text(pieces, texts)] + [] == [Text(pieces, texts)];
  }

  lemma {:induction false} ResolvesEach(pieces: seq<Piece>, texts: seq<string>, vars: seq<Variable>, i: nat,
                                        values: seq<string>)
    requires ValidNames(vars) && AllValued(vars) && i < |vars| && Pending(texts, vars, i)
    requires Count(Text(pieces, texts), Pattern(vars[i].name)) == Refs(pieces, i)
    requires forall k :: 0 <= k < |values| ==> OnlyRefs(pieces, texts[i := values[k]], vars, i + 1)
    ensures ResolveEach(Text(pieces, texts), vars, i, values) ==
      Some(Texts(pieces, ProductsEach(pieces, texts, vars, i, values)))
    decreases |vars| - i, 0, |values|
  {
    hide Replace, Count, Text, ValidNames, Pattern, OnlyRefs;
    if values != [] {
      var v := values[0];
      ReplaceRefs(pieces, texts, vars, i, v);
      ResolvesFrom(pieces, texts[i := v], vars, i + 1);
      ResolvesEach(pieces, texts, vars, i, values[1..]);
      TextsAppend(pieces, Products(pieces, texts[i := v], vars, i + 1),
        ProductsEach(pieces, texts, vars, i, values[1..]));
    }
  }

  // ------------------------------------------------------------- only then

  function Opens(s: string): nat {
    if s == "" then 0 else (if s[0] == '{' then 1 else 0) + Opens(s[1..])
  }

  lemma {:induction false} OpensAppend(a: string, b: string)
    ensures Opens(a + b) == Opens(a) + Opens(b)
  {
    if a == "" {
      assert a + b == b;
    } else {
      assert (a + b)[1..] == a[1..] + b;
      OpensAppend(a[1..], b);
    }
  }

  lemma {:induction false} OpensNone(a: string)
    requires NoOpen(a)
    ensures Opens(a) == 0
  {
    if a != "" { OpensNone(a[1..]); }
  }

  lemma OpensPattern(name: string)
    requires NoOpen(name)
    ensures Opens(Pattern(name)) == 1
  {
    var p := Pattern(name);
    assert NoOpen(p[1..]);
    OpensNone(p[1..]);
  }

  /** Every replacement by plain text takes one opening brace away. */
  lemma {:induction false} OpensReplace(s: string, name: string, v: string)
    requires NoOpen(name) && NoOpen(v)
    ensures Opens(Replace(s, Pattern(name), v)) + Count(s, Pattern(name)) == Opens(s)
    decreases |s|
  {
    hide Opens, Pattern;
    var p := Pattern(name);
    if s == "" {
      NoneLeft(p);
    } else if p <= s {
      var rest := s[|p|..];
      assert s == p + rest;
      AtPattern(p, rest, v);
      OpensReplace(rest, name, v);
      OpensPattern(name);
      OpensNone(v);
      OpensAppend(p, rest);
      OpensAppend(v, Replace(rest, p, v));
    } else {
      assert s == [s[0]] + s[1..];
      OpensReplace(s[1..], name, v);
      OpensAppend([s[0]], s[1..]);
      OpensAppend([s[0]], Replace(s[1..], p, v));
    }
  }

  predicate NoClose(s: string) {
    forall k :: 0 <= k < |s| ==> s[k] != '}'
  }

  /** The pattern of one variable survives the replacement of another one. */
  lemma {:induction false} Survives(s: string, name: string, other: string, v: string)
    requires name != other && NoOpen(name) && NoOpen(other) && NoClose(name) && NoClose(other)
    ensures Count(Replace(s, Pattern(name), v), Pattern(other)) >= Count(s, Pattern(other))
    decreases |s|
  {
    hide Pattern, Count, Replace, NoOpen, NoClose;
    var p, q := Pattern(name), Pattern(other);
    if s == "" {
      NoneLeft(p);
      NoneLeft(q);
    } else if q <= s {
      var rest := s[|q|..];
      assert s == q + rest;
      Survives(rest, name, other, v);
      PassPatterns(name, other, rest, v);
      AtPattern(q, rest, "");
      AtPattern(q, Replace(rest, p, v), "");
    } else if p <= s {
      var rest := s[|p|..];
      assert s == p + rest;
      Survives(rest, name, other, v);
      AtPattern(p, rest, v);
      PassPatterns(other, name, rest, v);
      CountMore(v, Replace(rest, p, v), other);
    } else {
      Survives(s[1..], name, other, v);
      CountStep(s, other);
      OneOn(s, p, v);
      CountMore([s[0]], Replace(s[1..], p, v), other);
    }
  }

  lemma PassPatterns(name: string, other: string, s: string, v: string)
    requires name != other && NoOpen(name) && NoOpen(other) && NoClose(name) && NoClose(other)
    ensures var p, q := Pattern(name), Pattern(other);
      Replace(q + s, p, v) == q + Replace(s, p, v) && Count(q + s, p) == Count(s, p)
  {
    hide Replace, Count, Pattern;
    PassPattern(name, other, s, v);
  }

  lemma OneOn(s: string, p: string, v: string)
    requires s != "" && p != "" && !(p <= s)
    ensures Replace(s, p, v) == [s[0]] + Replace(s[1..], p, v)
  {
  }

  /** What is still to be replaced in a text. */
  function Due(s: string, vars: seq<Variable>, i: nat): nat
    requires i <= |vars|
    decreases |vars| - i
  {
    if i == |vars| then 0 else (if Idle(vars[i]) then 0 else Count(s, Pattern(vars[i].name))) + Due(s, vars, i + 1)
  }

  /** The references that a product replaces. */
  function DueRefs(pieces: seq<Piece>, vars: seq<Variable>, i: nat): nat
    requires i <= |vars|
    decreases |vars| - i
  {
    if i == |vars| then 0 else (if Idle(vars[i]) then 0 else Refs(pieces, i)) + DueRefs(pieces, vars, i + 1)
  }

  lemma {:induction false} DueKeeps(s: string, vars: seq<Variable>, k: nat, i: nat, v: string)
    requires ValidNames(vars) && k < i <= |vars|
    ensures Due(Replace(s, Pattern(vars[k].name), v), vars, i) >= Due(s, vars, i)
    decreases |vars| - i
  {
    hide Replace, Count, Pattern;
    if i < |vars| {
      DueKeeps(s, vars, k, i + 1, v);
      assert vars[k].name != vars[i].name;
      Survives(s, vars[k].name, vars[i].name, v);
    }
  }

  lemma {:induction false} DueAtLeast(pieces: seq<Piece>, texts: seq<string>, vars: seq<Variable>, i: nat)
    requires ValidNames(vars) && i <= |vars| && Pending(texts, vars, i)
    ensures Due(Text(pieces, texts), vars, i) >= DueRefs(pieces, vars, i)
    decreases |vars| - i
  {
    hide Count, Text, Pattern, ValidNames;
    if i < |vars| {
      DueAtLeast(pieces, texts, vars, i + 1);
      CountRefs(pieces, texts, vars, i);
    }
  }

  /** Every result has lost as many opening braces as there was to be replaced, or more. */
  ghost predicate Lowered(rs: seq<string>, n: int) {
    forall r :: r in rs ==> Opens(r) <= n
  }

  lemma LoweredAppend(a: seq<string>, b: seq<string>, n: int)
    requires Lowered(a, n) && Lowered(b, n)
    ensures Lowered(a + b, n)
  {
  }

  lemma {:induction false} ResolveLowers(s: string, vars: seq<Variable>, i: nat)
    requires ValidNames(vars) && PlainValues(vars) && i <= |vars|
    ensures var r := Resolve(s, vars, i);
      r.Some? && r.value != [] && Lowered(r.value, Opens(s) - Due(s, vars, i))
    decreases |vars| - i, 1
  {
    hide Replace, Count, Pattern, ValidNames, Opens;
    if i < |vars| {
      assert PlainVariable(vars[i]);
      if Idle(vars[i]) || !Contains(s, Pattern(vars[i].name)) {
        ResolveLowers(s, vars, i + 1);
        assert Contains(s, Pattern(vars[i].name)) <==> Count(s, Pattern(vars[i].name)) > 0;
      } else {
        EachLowers(s, vars, i, vars[i].values.value);
      }
    }
  }

  lemma {:induction false} EachLowers(s: string, vars: seq<Variable>, i: nat, values: seq<string>)
    requires ValidNames(vars) && PlainValues(vars) && i < |vars| && forall k :: 0 <= k < |values| ==> NoOpen(values[k])
    ensures var r := ResolveEach(s, vars, i, values);
      r.Some? && (values != [] ==> r.value != []) &&
      Lowered(r.value, Opens(s) - Count(s, Pattern(vars[i].name)) - Due(s, vars, i + 1))
    decreases |vars| - i, 0, |values|
  {
    hide Replace, Count, Pattern, Opens, Due, NoOpen;
    if values != [] {
      var p, v := Pattern(vars[i].name), values[0];
      ResolveLowers(Replace(s, p, v), vars, i + 1);
      EachLowers(s, vars, i, values[1..]);
      OpensReplace(s, vars[i].name, v);
      DueKeeps(s, vars, i, i + 1, v);
      var n := Opens(s) - Count(s, p) - Due(s, vars, i + 1);
      LoweredAppend(Resolve(Replace(s, p, v), vars, i + 1).value, ResolveEach(s, vars, i, values[1..]).value, n);
    }
  }

  /** A text in the place of a variable takes one opening brace away for every reference. */
  lemma {:induction false} OpensText(pieces: seq<Piece>, texts: seq<string>, vars: seq<Variable>, i: nat, v: string)
    requires ValidNames(vars) && i < |vars| == |texts| && texts[i] == Pattern(vars[i].name) && NoOpen(v)
    ensures Opens(Text(pieces, texts[i := v])) + Refs(pieces, i) == Opens(Text(pieces, texts))
  {
    hide Opens, Text, Pattern, NoOpen;
    if pieces == [] {
      NoText(texts);
      NoText(texts[i := v]);
    } else {
      TextStep(pieces, texts);
      TextStep(pieces, texts[i := v]);
      OpensText(pieces[1..], texts, vars, i, v);
      OpensAppend(PieceText(pieces[0], texts), Text(pieces[1..], texts));
      OpensAppend(PieceText(pieces[0], texts[i := v]), Text(pieces[1..], texts[i := v]));
      OpensPattern(vars[i].name);
      OpensNone(v);
    }
  }

  ghost predicate AllOpen(rs: seq<string>, n: int) {
    forall r :: r in rs ==> Opens(r) == n
  }

  lemma {:induction false} ProductOpens(pieces: seq<Piece>, texts: seq<string>, vars: seq<Variable>, i: nat)
    requires ValidNames(vars) && PlainValues(vars) && i <= |vars| && Pending(texts, vars, i)
    ensures AllOpen(Texts(pieces, Products(pieces, texts, vars, i)),
      Opens(Text(pieces, texts)) - DueRefs(pieces, vars, i))
    decreases |vars| - i, 1
  {
    hide Opens, Text, Texts, ValidNames, Refs, Products, ProductsEach, Pending, PlainValues, AllOpen;
    ProductsStep(pieces, texts, vars, i);
    if i == |vars| {
      OneText(pieces, texts);
      OneOpen(Text(pieces, texts));
    } else {
      ValuesPlain(vars, i);
      PendingNext(texts, vars, i);
      RefsIn(pieces, i);
      if Idle(vars[i]) || Ref(i) !in pieces {
        ProductOpens(pieces, texts, vars, i + 1);
      } else {
        EachOpens(pieces, texts, vars, i, vars[i].values.value);
      }
    }
  }

  lemma ProductsStep(pieces: seq<Piece>, texts: seq<string>, vars: seq<Variable>, i: nat)
    requires i <= |vars| && Pending(texts, vars, i)
    ensures Products(pieces, texts, vars, i) ==
      if i == |vars| then [texts]
      else if Idle(vars[i]) || Ref(i) !in pieces then Products(pieces, texts, vars, i + 1)
      else ProductsEach(pieces, texts, vars, i, vars[i].values.value)
  {
  }

  lemma OneOpen(s: string)
    ensures AllOpen([s], Opens(s))
  {
    hide Opens;
  }

  lemma ValuesPlain(vars: seq<Variable>, i: nat)
    requires PlainValues(vars) && i < |vars|
    ensures vars[i].values.Some? && forall k :: 0 <= k < |vars[i].values.value| ==> NoOpen(vars[i].values.value[k])
  {
    hide NoOpen;
    assert PlainVariable(vars[i]);
  }

  lemma PendingNext(texts: seq<string>, vars: seq<Variable>, i: nat)
    requires i < |vars| && Pending(texts, vars, i)
    ensures Pending(texts, vars, i + 1)
  {
  }

  lemma {:induction false} EachOpens(pieces: seq<Piece>, texts: seq<string>, vars: seq<Variable>, i: nat,
                                     values: seq<string>)
    requires ValidNames(vars) && PlainValues(vars) && i < |vars| && Pending(texts, vars, i)
    requires forall k :: 0 <= k < |values| ==> NoOpen(values[k])
    ensures AllOpen(Texts(pieces, ProductsEach(pieces, texts, vars, i, values)),
      Opens(Text(pieces, texts)) - Refs(pieces, i) - DueRefs(pieces, vars, i + 1))
    decreases |vars| - i, 0, |values|
  {
    hide Opens, Text, ValidNames, Refs, NoOpen, DueRefs;
    if values != [] {
      var v := values[0];
      OpensText(pieces, texts, vars, i, v);
      ProductOpens(pieces, texts[i := v], vars, i + 1);
      EachOpens(pieces, texts, vars, i, values[1..]);
      TextsAppend(pieces, Products(pieces, texts[i := v], vars, i + 1),
        ProductsEach(pieces, texts, vars, i, values[1..]));
    }
  }

  lemma {:induction false} EachHas(s: string, vars: seq<Variable>, i: nat, values: seq<string>, k: nat, r: string)
    requires i < |vars| && k < |values| && ResolveEach(s, vars, i, values).Some?
    requires var x := Resolve(Replace(s, Pattern(vars[i].name), values[k]), vars, i + 1); x.Some? && r in x.value
    ensures r in ResolveEach(s, vars, i, values).value
    decreases k
  {
    hide Replace, Pattern;
    if k > 0 { EachHas(s, vars, i, values[1..], k - 1, r); }
  }

  /** Where a pattern occurs beside its references, a result has fewer opening braces than the product's. */
  lemma {:induction false} Betrayed(pieces: seq<Piece>, texts: seq<string>, vars: seq<Variable>, i: nat)
    returns (r: string)
    requires ValidNames(vars) && PlainValues(vars) && i <= |vars| && Pending(texts, vars, i)
    requires !OnlyRefs(pieces, texts, vars, i)
    ensures var x := Resolve(Text(pieces, texts), vars, i); x.Some? && r in x.value
    ensures Opens(r) < Opens(Text(pieces, texts)) - DueRefs(pieces, vars, i)
    decreases |vars| - i
  {
    hide Opens, Text, ValidNames, Refs, NoOpen, Pattern, Count, Replace;
    var s, p := Text(pieces, texts), Pattern(vars[i].name);
    assert PlainVariable(vars[i]);
    ResolveLowers(s, vars, i);
    CountRefs(pieces, texts, vars, i);
    RefsIn(pieces, i);
    var n := Count(s, p);
    assert Contains(s, p) <==> n > 0;
    if Idle(vars[i]) || (n == Refs(pieces, i) && Ref(i) !in pieces) {
      r := Betrayed(pieces, texts, vars, i + 1);
    } else if n > Refs(pieces, i) {
      DueAtLeast(pieces, texts, vars, i + 1);
      r := Resolve(s, vars, i).value[0];
    } else {
      var values := vars[i].values.value;
      var k :| 0 <= k < |values| && !OnlyRefs(pieces, texts[i := values[k]], vars, i + 1);
      r := Betrayed(pieces, texts[i := values[k]], vars, i + 1);
      ReplaceRefs(pieces, texts, vars, i, values[k]);
      OpensText(pieces, texts, vars, i, values[k]);
      EachHas(s, vars, i, values, k, r);
    }
  }

  // ------------------------------------------------------------- path expansion

  /** Path expansion: the results are the path with every reference replaced, for the ordered product of
      the values of the variables that occur in it, if every variable's pattern occurs only at its
      references when its turn comes. Where values bring no opening brace it is so exactly then. */
  lemma ResolvesProduct(path: string, vars: seq<Variable>)
    requires ValidNames(vars) && AllValued(vars)
    ensures var pieces, texts := Pieces(path, vars), Written(vars);
      OnlyRefs(pieces, texts, vars, 0) ==>
      Resolve(path, vars, 0) == Some(Texts(pieces, Products(pieces, texts, vars, 0)))
    ensures var pieces, texts := Pieces(path, vars), Written(vars);
      PlainValues(vars) && Resolve(path, vars, 0) == Some(Texts(pieces, Products(pieces, texts, vars, 0))) ==>
      OnlyRefs(pieces, texts, vars, 0)
  {
    hide *;
    var pieces, texts := Pieces(path, vars), Written(vars);
    var all := Texts(pieces, Products(pieces, texts, vars, 0));
    PiecesText(path, vars);
    StartsPending(vars);
    if OnlyRefs(pieces, texts, vars, 0) {
      ResolvesFrom(pieces, texts, vars, 0);
    } else if PlainValues(vars) && Resolve(path, vars, 0) == Some(all) {
      var r := Betrayed(pieces, texts, vars, 0);
      ProductOpens(pieces, texts, vars, 0);
      AllOpenIs(all, r, Opens(path) - DueRefs(pieces, vars, 0));
    }
  }

  lemma AllOpenIs(rs: seq<string>, r: string, n: int)
    requires AllOpen(rs, n) && r in rs
    ensures Opens(r) == n
  {
  }

  lemma StartsPending(vars: seq<Variable>)
    ensures Pending(Written(vars), vars, 0)
  {
  }

  /** No brace opens in a path but at a reference. */
  predicate BracesReferred(pieces: seq<Piece>) {
    forall k :: 0 <= k < |pieces| ==> pieces[k] != Lit('{')
  }

  /** Variables from `i` on have not been replaced; those before are replaced by plain text or stand as they are. */
  predicate Partly(texts: seq<string>, vars: seq<Variable>, i: nat) {
    Pending(texts, vars, i) && forall j :: 0 <= j < i && j < |vars| ==>
      texts[j] == Pattern(vars[j].name) || NoOpen(texts[j])
  }

  lemma {:induction false} PlainCount(pieces: seq<Piece>, texts: seq<string>, vars: seq<Variable>, i: nat)
    requires ValidNames(vars) && BracesReferred(pieces) && i < |vars| && Partly(texts, vars, i)
    ensures Count(Text(pieces, texts), Pattern(vars[i].name)) == Refs(pieces, i)
  {
    hide Count, Text;
    var p := Pattern(vars[i].name);
    if pieces == [] {
      NoText(texts);
      NoneLeft(p);
    } else {
      var rest := Text(pieces[1..], texts);
      TextStep(pieces, texts);
      PlainCount(pieces[1..], texts, vars, i);
      match pieces[0] {
        case Lit(c) => PassOver([c], rest, p, "");
        case Ref(j) =>
          if j == i {
            AtPattern(p, rest, "");
          } else if j < |vars| && texts[j] == Pattern(vars[j].name) {
            PassPattern(vars[i].name, vars[j].name, rest, "");
          } else {
            PassOver(PieceText(pieces[0], texts), rest, p, "");
          }
      }
    }
  }

  /** For such paths and plain values the expansion is always the product. */
  lemma {:induction false} PlainOnlyRefs(pieces: seq<Piece>, texts: seq<string>, vars: seq<Variable>, i: nat)
    requires ValidNames(vars) && PlainValues(vars) && BracesReferred(pieces) && i <= |vars| && Partly(texts, vars, i)
    ensures OnlyRefs(pieces, texts, vars, i)
    decreases |vars| - i
  {
    hide Count, Text, Pattern, ValidNames, BracesReferred;
    if i < |vars| {
      assert PlainVariable(vars[i]);
      PlainCount(pieces, texts, vars, i);
      PlainOnlyRefs(pieces, texts, vars, i + 1);
      forall k | 0 <= k < |vars[i].values.value|
        ensures OnlyRefs(pieces, texts[i := vars[i].values.value[k]], vars, i + 1)
      {
        PlainOnlyRefs(pieces, texts[i := vars[i].values.value[k]], vars, i + 1);
      }
    }
  }

  /** Expansion fails exactly when a getter does. */
  lemma {:induction false} ResolveFails(path: string, vars: seq<Variable>, i: nat)
    requires i <= |vars|
    ensures Resolve(path, vars, i).None? <==> exists j :: i <= j < |vars| && vars[j].values.None?
    decreases |vars| - i, 1
  {
    hide Replace, Contains;
    if i < |vars| && vars[i].values.Some? {
      ResolveFails(path, vars, i + 1);
      if vars[i].values.value != [] { EachFails(path, vars, i, vars[i].values.value); }
    }
  }

  lemma {:induction false} EachFails(path: string, vars: seq<Variable>, i: nat, values: seq<string>)
    requires i < |vars|
    ensures ResolveEach(path, vars, i, values).None? <==>
      values != [] && exists j :: i + 1 <= j < |vars| && vars[j].values.None?
    decreases |vars| - i, 0, |values|
  {
    hide Replace, Contains;
    if values != [] {
      ResolveFails(Replace(path, Pattern(vars[i].name), values[0]), vars, i + 1);
      EachFails(path, vars, i, values[1..]);
    }
  }

  // ------------------------------------------------------------- what the product holds

  /** What a variable may stand for in a result. */
  predicate Choice(text: string, prior: string, pieces: seq<Piece>, v: Variable, i: nat) {
    if v.values.None? || v.values.value == [] || Ref(i) !in pieces then text == prior else text in v.values.value
  }

  ghost predicate Combination(a: seq<string>, pieces: seq<Piece>, texts: seq<string>, vars: seq<Variable>, i: nat)
    requires i <= |vars| == |texts|
  {
    |a| == |vars| && (forall j :: 0 <= j < i ==> a[j] == texts[j]) &&
    (forall j :: i <= j < |vars| ==> Choice(a[j], texts[j], pieces, vars[j], j))
  }

  /** Every combination of values is in the product, and nothing else. */
  lemma {:induction false} ProductsExact(pieces: seq<Piece>, texts: seq<string>, vars: seq<Variable>, i: nat,
                                         a: seq<string>)
    requires i <= |vars| == |texts|
    ensures a in Products(pieces, texts, vars, i) <==> Combination(a, pieces, texts, vars, i)
    decreases |vars| - i, 1
  {
    if i == |vars| {
      assert Combination(a, pieces, texts, vars, i) ==> a == texts;
    } else if vars[i].values.None? || vars[i].values.value == [] || Ref(i) !in pieces {
      ProductsExact(pieces, texts, vars, i + 1, a);
      assert Combination(a, pieces, texts, vars, i) ==> Choice(a[i], texts[i], pieces, vars[i], i);
    } else {
      EachExact(pieces, texts, vars, i, vars[i].values.value, a);
    }
  }

  lemma {:induction false} EachExact(pieces: seq<Piece>, texts: seq<string>, vars: seq<Variable>, i: nat,
                                     values: seq<string>, a: seq<string>)
    requires i < |vars| == |texts|
    ensures a in ProductsEach(pieces, texts, vars, i, values) <==>
      |a| == |vars| && a[i] in values && Combination(a, pieces, texts[i := a[i]], vars, i + 1)
    decreases |vars| - i, 0, |values|
  {
    hide Combination, Products, ProductsEach;
    EachStep(pieces, texts, vars, i, values, a);
    if values != [] {
      ProductsExact(pieces, texts[i := values[0]], vars, i + 1, a);
      EachExact(pieces, texts, vars, i, values[1..], a);
      Chosen(a, pieces, texts[i := values[0]], vars, i);
      InFirst(values, if i < |a| then a[i] else "");
    }
  }

  lemma EachStep(pieces: seq<Piece>, texts: seq<string>, vars: seq<Variable>, i: nat, values: seq<string>,
                 a: seq<string>)
    requires i < |vars| == |texts|
    ensures values == [] ==> ProductsEach(pieces, texts, vars, i, values) == []
    ensures values != [] ==>
      (a in ProductsEach(pieces, texts, vars, i, values) <==>
        a in Products(pieces, texts[i := values[0]], vars, i + 1) ||
        a in ProductsEach(pieces, texts, vars, i, values[1..]))
  {
    hide Products;
  }

  lemma Chosen(a: seq<string>, pieces: seq<Piece>, texts: seq<string>, vars: seq<Variable>, i: nat)
    requires i < |vars| == |texts|
    ensures Combination(a, pieces, texts, vars, i + 1) ==> |a| == |vars| && a[i] == texts[i]
  {
    hide Choice;
  }

  lemma InFirst(values: seq<string>, v: string)
    requires values != []
    ensures v in values <==> v == values[0] || v in values[1..]
  {
    assert values == [values[0]] + values[1..];
  }

  /** Earlier values come first, and earlier variables vary slowest: the product over values in two parts is
      the product over the first part and then the product over the second. */
  lemma {:induction false} EachInOrder(pieces: seq<Piece>, texts: seq<string>, vars: seq<Variable>, i: nat,
                                       a: seq<string>, b: seq<string>)
    requires i < |vars| == |texts|
    ensures ProductsEach(pieces, texts, vars, i, a + b) ==
      ProductsEach(pieces, texts, vars, i, a) + ProductsEach(pieces, texts, vars, i, b)
    decreases |a|
  {
    hide Products;
    if a == [] {
      assert a + b == b;
    } else {
      assert (a + b)[0] == a[0] && (a + b)[1..] == a[1..] + b;
      EachInOrder(pieces, texts, vars, i, a[1..], b);
    }
  }

  /** Two results of which the first has an earlier value of a variable, and agrees in all before, stand in
      this order: results with the values `a` of a variable come before those with its other values `b`. */
  lemma ProductsInOrder(pieces: seq<Piece>, texts: seq<string>, vars: seq<Variable>, i: nat, a: seq<string>,
                        b: seq<string>)
    requires i < |vars| == |texts| && Ref(i) in pieces && a != [] && b != []
    requires vars[i].values == Some(a + b) && forall v :: v in a ==> v !in b
    ensures exists n: nat :: Parted(Products(pieces, texts, vars, i), n, i, a, b)
  {
    hide Products, ProductsEach;
    var x, y := ProductsEach(pieces, texts, vars, i, a), ProductsEach(pieces, texts, vars, i, b);
    BusyProducts(pieces, texts, vars, i);
    EachInOrder(pieces, texts, vars, i, a, b);
    forall r ensures r in x ==> |r| == |vars| && r[i] in a { EachExact(pieces, texts, vars, i, a, r); }
    forall r ensures r in y ==> |r| == |vars| && r[i] in b { EachExact(pieces, texts, vars, i, b, r); }
    PartedAt(x, y, i, a, b);
  }

  /** The first `n` results have a value of `a`, the others one of `b`. */
  ghost predicate Parted(all: seq<seq<string>>, n: nat, i: nat, a: seq<string>, b: seq<string>) {
    n <= |all| && forall k :: 0 <= k < |all| ==> i < |all[k]| && all[k][i] in (if k < n then a else b)
  }

  lemma PartedAt(x: seq<seq<string>>, y: seq<seq<string>>, i: nat, a: seq<string>, b: seq<string>)
    requires forall r :: r in x ==> i < |r| && r[i] in a
    requires forall r :: r in y ==> i < |r| && r[i] in b
    ensures Parted(x + y, |x|, i, a, b)
  {
  }

  lemma BusyProducts(pieces: seq<Piece>, texts: seq<string>, vars: seq<Variable>, i: nat)
    requires i < |vars| == |texts| && Ref(i) in pieces && vars[i].values.Some? && vars[i].values.value != []
    ensures Products(pieces, texts, vars, i) == ProductsEach(pieces, texts, vars, i, vars[i].values.value)
  {
    hide ProductsEach;
  }

  /** How many choices there are for a variable. */
  function Choices(pieces: seq<Piece>, v: Variable, i: nat): nat {
    if v.values.None? || v.values.value == [] || Ref(i) !in pieces then 1 else |v.values.value|
  }

  function ChoicesFrom(pieces: seq<Piece>, vars: seq<Variable>, i: nat): nat
    requires i <= |vars|
    decreases |vars| - i
  {
    if i == |vars| then 1 else Choices(pieces, vars[i], i) * ChoicesFrom(pieces, vars, i + 1)
  }

  /** Variables that are not mentioned or have no values do not multiply the results. */
  lemma {:induction false} ProductsCount(pieces: seq<Piece>, texts: seq<string>, vars: seq<Variable>, i: nat)
    requires i <= |vars| == |texts|
    ensures |Products(pieces, texts, vars, i)| == ChoicesFrom(pieces, vars, i)
    decreases |vars| - i, 1
  {
    if i == |vars| {
    } else if vars[i].values.None? || vars[i].values.value == [] || Ref(i) !in pieces {
      ProductsCount(pieces, texts, vars, i + 1);
    } else {
      EachCount(pieces, texts, vars, i, vars[i].values.value);
    }
  }

  lemma {:induction false} EachCount(pieces: seq<Piece>, texts: seq<string>, vars: seq<Variable>, i: nat,
                                     values: seq<string>)
    requires i < |vars| == |texts|
    ensures |ProductsEach(pieces, texts, vars, i, values)| == |values| * ChoicesFrom(pieces, vars, i + 1)
    decreases |vars| - i, 0, |values|
  {
    if values != [] {
      ProductsCount(pieces, texts[i := values[0]], vars, i + 1);
      EachCount(pieces, texts, vars, i, values[1..]);
      OneMore(|values| - 1, ChoicesFrom(pieces, vars, i + 1));
    }
  }

  // ------------------------------------------------------------- other paths

  const VERSION: string := "version"

  const KTYPE: string := "ktype"

  /** A table of two variables. */
  function Table(versions: seq<string>, ktypes: seq<string>): seq<Variable> {
    [Variable(VERSION, Some(versions), true), Variable(KTYPE, Some(ktypes), false)]
  }

  lemma KtypePattern(v: string)
    ensures Pattern(KTYPE) == "{ktype}" && Count("{ktype}", "{ktype}") == 1 && Replace("{ktype}", "{ktype}", v) == v
    ensures Count("{version}", "{ktype}") == 0
  {
    var q := "{ktype}";
    NoneLeft(q);
    AtPattern(q, "", v);
    assert q + "" == q && v + "" == v;
    PassPattern(KTYPE, VERSION, "", "");
    assert Pattern(VERSION) + "" == "{version}" && Pattern(KTYPE) == q;
  }

  lemma VersionPattern(v: string)
    ensures Pattern(VERSION) == "{version}" && Count("{version}", "{version}") == 1
    ensures Replace("{version}", "{version}", v) == v
  {
    var p := "{version}";
    NoneLeft(p);
    AtPattern(p, "", v);
    assert p + "" == p && v + "" == v;
  }

  lemma {:induction false} VersionPieces(vars: seq<Variable>)
    requires |vars| > 0 && vars[0].name == VERSION
    ensures Pieces("{version}", vars) == [Ref(0)] && Refs([Ref(0)], 0) == 1 && Refs([Ref(0)], 1) == 0
    ensures forall texts :: |texts| > 0 ==> Text([Ref(0)], texts) == texts[0]
  {
    assert "{version}"[|Pattern(VERSION)|..] == "";
    assert [Ref(0)][1..] == [];
    forall texts: seq<string> | |texts| > 0 ensures Text([Ref(0)], texts) == texts[0] {
      NoText(texts);
      TextStep([Ref(0)], texts);
      assert texts[0] + "" == texts[0];
    }
  }

  /** Both variables in their turn, where the first one's value is the pattern of the second. */
  lemma ResolveNested(ktypes: seq<string>)
    requires ktypes != []
    ensures var vars := Table(["{ktype}"], ktypes); Resolve("{version}", vars, 0) == Some(ktypes)
    ensures var vars := Table(["{ktype}"], ktypes); !OnlyRefs([Ref(0)], Written(vars), vars, 0)
  {
    var vars := Table(["{ktype}"], ktypes);
    hide Replace, Count, Text;
    VersionPattern("{ktype}");
    KtypePattern("");
    VersionPieces(vars);
    assert ["{ktype}"][1..] == [];
    assert ResolveEach("{version}", vars, 0, []) == Some([]);
    EachKtype(vars, ktypes);
    assert Resolve("{ktype}", vars, 1) == Some(ktypes);
    assert ktypes + [] == ktypes;
    var texts := Written(vars)[0 := "{ktype}"];
    assert !OnlyRefs([Ref(0)], texts, vars, 1);
  }

  lemma {:induction false} EachKtype(vars: seq<Variable>, values: seq<string>)
    requires |vars| == 2 && vars[1].name == KTYPE
    ensures ResolveEach("{ktype}", vars, 1, values) == Some(values)
  {
    hide Replace;
    if values != [] {
      KtypePattern(values[0]);
      EachKtype(vars, values[1..]);
      assert [values[0]] + values[1..] == values;
    }
  }

  lemma NestedProduct(ktypes: seq<string>)
    ensures var vars := Table(["{ktype}"], ktypes);
      Texts([Ref(0)], Products([Ref(0)], Written(vars), vars, 0)) == ["{ktype}"]
  {
    var vars := Table(["{ktype}"], ktypes);
    hide Text;
    VersionPieces(vars);
    var texts := Written(vars)[0 := "{ktype}"];
    assert ["{ktype}"][1..] == [];
    assert Products([Ref(0)], texts, vars, 2) == [texts];
    assert Products([Ref(0)], texts, vars, 1) == [texts];
    assert ProductsEach([Ref(0)], Written(vars), vars, 0, []) == [];
    assert Products([Ref(0)], Written(vars), vars, 0) == [texts] + [];
    OneText([Ref(0)], texts);
  }

  /** A value that brings the pattern of a later variable is expanded again. */
  lemma NestedPattern()
    ensures var vars := Table(["{ktype}"], ["a"]); var pieces := Pieces("{version}", vars);
      !OnlyRefs(pieces, Written(vars), vars, 0) &&
      Resolve("{version}", vars, 0) != Some(Texts(pieces, Products(pieces, Written(vars), vars, 0)))
  {
    hide *;
    var vars := Table(["{ktype}"], ["a"]);
    TableIs(["{ktype}"], ["a"]);
    VersionPieces(vars);
    ResolveNested(["a"]);
    NestedProduct(["a"]);
  }

  /** Where values do bring opening braces, the results can be right by chance. */
  lemma NestedByChance()
    ensures var vars := Table(["{ktype}"], ["{ktype}"]); var pieces := Pieces("{version}", vars);
      !OnlyRefs(pieces, Written(vars), vars, 0) &&
      Resolve("{version}", vars, 0) == Some(Texts(pieces, Products(pieces, Written(vars), vars, 0)))
  {
    hide *;
    var vars := Table(["{ktype}"], ["{ktype}"]);
    TableIs(["{ktype}"], ["{ktype}"]);
    VersionPieces(vars);
    ResolveNested(["{ktype}"]);
    NestedProduct(["{ktype}"]);
  }

  /** Plain values can be in the way as well: a pattern may come about around a reference. */
  lemma JoinedPattern()
    ensures var vars := Table([KTYPE], ["a"]); var pieces := Pieces("{{version}}", vars);
      PlainValues(vars) && !OnlyRefs(pieces, Written(vars), vars, 0) &&
      Resolve("{{version}}", vars, 0) != Some(Texts(pieces, Products(pieces, Written(vars), vars, 0)))
  {
    hide *;
    PlainTable();
    JoinedFails();
    ResolvesProduct("{{version}}", Table([KTYPE], ["a"]));
  }

  lemma PlainTable()
    ensures var vars := Table([KTYPE], ["a"]); ValidNames(vars) && AllValued(vars) && PlainValues(vars)
  {
    var vars := Table([KTYPE], ["a"]);
    assert PlainVariable(vars[0]) && PlainVariable(vars[1]);
    assert vars[0].name[0] != vars[1].name[0];
  }

  lemma JoinedFails()
    ensures var vars := Table([KTYPE], ["a"]); !OnlyRefs(Pieces("{{version}}", vars), Written(vars), vars, 0)
  {
    hide Replace, Count, Text, Pieces;
    var vars := Table([KTYPE], ["a"]);
    BracedPieces(vars);
    var pieces, texts := [Lit('{'), Ref(0), Lit('}')], Written(vars)[0 := KTYPE];
    BracedText(texts);
    KtypePattern("");
    assert Refs(pieces, 1) == 0 by { RefsIn(pieces, 1); }
    assert !OnlyRefs(pieces, texts, vars, 1);
    assert vars[0].values.value[0] == KTYPE;
  }

  lemma {:induction false} BracedPieces(vars: seq<Variable>)
    requires |vars| == 2 && vars[0].name == VERSION && vars[1].name == KTYPE
    ensures Pieces("{{version}}", vars) == [Lit('{'), Ref(0), Lit('}')]
  {
    var path := "{{version}}";
    assert path[1..] == "{version}}" && "{version}}"[|Pattern(VERSION)|..] == "}" && "}"[1..] == "";
    assert Pattern(VERSION)[1] == 'v' && Pattern(KTYPE)[1] == 'k' && path[1] == '{';
    assert Pattern(VERSION) <= "{version}}";
    assert InFront(path, vars, 0).None? && InFront("}", vars, 0).None? && InFront("{version}}", vars, 0) == Some(0);
    assert Pieces("}", vars) == [Lit('}')];
    assert Pieces("{version}}", vars) == [Ref(0)] + [Lit('}')];
  }

  lemma {:induction false} BracedText(texts: seq<string>)
    requires |texts| > 0 && texts[0] == KTYPE
    ensures Text([Lit('{'), Ref(0), Lit('}')], texts) == "{ktype}"
  {
    var a, b, c := [Lit('{'), Ref(0), Lit('}')], [Ref(0), Lit('}')], [Lit('}')];
    assert a[1..] == b && b[1..] == c && c[1..] == [];
    NoText(texts);
    TextStep(c, texts);
    TextStep(b, texts);
    TextStep(a, texts);
  }

  lemma TableIs(versions: seq<string>, ktypes: seq<string>)
    ensures |Table(versions, ktypes)| > 0 && Table(versions, ktypes)[0].name == VERSION
  {
  }
}
