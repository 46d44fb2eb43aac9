/** Paths into a configuration tree (`embloader/src/configfile/path.c`): their syntax, lookup, and setting
    a value with the nodes on the way created. */
module ConfigPath {
  import opened Wrappers
  import opened Digits
  import opened ConfigTree
  import opened Sizes


  datatype Segment = Key(name: string) | Index(index: nat)

  type Path = seq<Segment>

  // ------------------------------------------------------------- syntax

  function FindChar(s: string, c: char): (r: Option<nat>)
    ensures r.Some? ==> r.value < |s| && s[r.value] == c && forall k :: 0 <= k < r.value ==> s[k] != c
    ensures r.None? ==> forall k :: 0 <= k < |s| ==> s[k] != c
  {
    if s == "" then None
    else if s[0] == c then Some(0)
    else
      match FindChar(s[1..], c)
      case None => None
      case Some(k) => Some(k + 1)
  }

  predicate Delimiter(c: char) {
    c == '.' || c == '['
  }

  /** The length of the key at the front: up to a delimiter or the end. */
  function KeyLength(s: string): (n: nat)
    ensures n <= |s| && (forall k :: 0 <= k < n ==> !Delimiter(s[k])) && (n < |s| ==> Delimiter(s[n]))
  {
    if s == "" || Delimiter(s[0]) then 0 else 1 + KeyLength(s[1..])
  }

  /** An index is a decimal number of at most half the address space. */
  function IndexOf(s: string): Option<nat> {
    if s != "" && AllDigits(s) && Numeric(s) <= SIZE_MAX / 2 then Some(Numeric(s)) else None
  }

  /** The segments of a path, if `confignode_path_validate` accepts it. */
  function Parse(path: string): Option<Path>
    decreases |path|
  {
    if path == "" then Some([])
    else if path[0] == '[' then
      var close := FindChar(path[1..], ']');
      if close.None? then None
      else
        var index := IndexOf(path[1..][..close.value]);
        var next := path[1..][close.value + 1..];
        if index.None? then None
        else if next == "" then Some([Index(index.value)])
        else if next[0] == '.' then
          if next[1..] == "" then None else After(Index(index.value), Parse(next[1..]))
        else if next[0] == '[' then After(Index(index.value), Parse(next))
        else None
    else
      var n := KeyLength(path);
      if n == |path| then Some([Key(path)])
      else if n == 0 then None
      else
        var next := if path[n] == '[' then path[n..] else path[n + 1..];
        if next == "" then None else After(Key(path[..n]), Parse(next))
  }

  function After(s: Segment, rest: Option<Path>): Option<Path> {
    if rest.None? then None else Some([s] + rest.value)
  }

  function SegmentText(s: Segment): string {
    match s
    case Key(name) => name
    case Index(index) => "[" + Decimal(index) + "]"
  }

  /** The path as text. */
  function Render(p: Path): string
    decreases |p|, 0
  {
    if p == [] then "" else SegmentText(p[0]) + Tail(p[1..])
  }

  function Tail(p: Path): string
    decreases |p|, 1
  {
    if p == [] then "" else (if p[0].Key? then "." else "") + Render(p)
  }

  /** A segment that text can express: a key without delimiters, or an index in range. */
  predicate PlainSegment(s: Segment) {
    match s
    case Key(name) => name != "" && forall k :: 0 <= k < |name| ==> !Delimiter(name[k])
    case Index(index) => index <= SIZE_MAX / 2
  }

  predicate Plain(p: Path) {
    forall k :: 0 <= k < |p| ==> PlainSegment(p[k])
  }

  lemma RenderHead(p: Path)
    requires Plain(p) && p != []
    ensures Render(p) != "" && (p[0].Index? <==> Render(p)[0] == '[') && (p[0].Key? ==> Render(p)[0] != '.')
  {
  }

  lemma TailHead(p: Path)
    requires Plain(p)
    ensures p == [] ==> Tail(p) == ""
    ensures p != [] ==> Tail(p) != "" && Delimiter(Tail(p)[0])
    ensures p != [] && Tail(p)[0] == '[' ==> Tail(p) == Render(p)
    ensures p != [] && Tail(p)[0] == '.' ==> Tail(p)[1..] == Render(p)
  {
    hide Render;
    if p != [] { RenderHead(p); }
  }

  /** Reading a written path gives its segments back, for keys without delimiters. */
  lemma {:induction false} ParseRender(p: Path)
    requires Plain(p)
    ensures Parse(Render(p)) == Some(p)
  {
    hide Tail, Parse, Render, SegmentText;
    if p == [] {
      ParseNothing();
    } else {
      var rest := p[1..];
      var tail := Tail(rest);
      ParseRender(rest);
      RenderUnfold(p);
      TailHead(rest);
      if rest != [] { RenderHead(rest); }
      assert rest != [] && tail[0] == '.' ==> |tail| > 1;
      match p[0] {
        case Key(name) => ParseKey(name, tail);
        case Index(index) => ParseIndexed(index, tail);
      }
      assert p == [p[0]] + rest;
      assert rest == [] ==> p == [p[0]];
    }
  }

  lemma ParseNothing()
    ensures Parse(Render([])) == Some([])
  {
  }

  lemma RenderUnfold(p: Path)
    requires p != []
    ensures Render(p) == SegmentText(p[0]) + Tail(p[1..])
    ensures p[0].Key? ==> SegmentText(p[0]) == p[0].name
  {
  }

  lemma ParseKey(name: string, tail: string)
    requires PlainSegment(Key(name)) && (tail != "" ==> Delimiter(tail[0]))
    ensures tail == "" ==> Parse(name + tail) == Some([Key(name)])
    ensures tail != "" && tail[0] == '[' ==> Parse(name + tail) == After(Key(name), Parse(tail))
    ensures |tail| > 1 && tail[0] == '.' ==> Parse(name + tail) == After(Key(name), Parse(tail[1..]))
  {
    hide KeyLength, Parse;
    var path := name + tail;
    var n := |name|;
    assert path[0] == name[0];
    KeyLengthIs(name, tail);
    ParseKeyStep(path);
    KeySlices(name, tail);
  }

  lemma KeySlices(name: string, tail: string)
    ensures var path, n := name + tail, |name|;
      path[..n] == name && path[n..] == tail && (tail == "" ==> path == name) &&
      (tail != "" ==> path[n] == tail[0] && path[n + 1..] == tail[1..])
  {
  }

  lemma ParseKeyStep(path: string)
    requires path != "" && path[0] != '[' && KeyLength(path) > 0
    ensures var n := KeyLength(path);
      Parse(path) ==
        if n == |path| then Some([Key(path)])
        else
          var next := if path[n] == '[' then path[n..] else path[n + 1..];
          if next == "" then None else After(Key(path[..n]), Parse(next))
  {
    hide KeyLength;
  }

  lemma {:induction false} KeyLengthIs(name: string, tail: string)
    requires (forall k :: 0 <= k < |name| ==> !Delimiter(name[k])) && (tail != "" ==> Delimiter(tail[0]))
    ensures KeyLength(name + tail) == |name|
  {
    if name == "" {
      assert name + tail == tail;
    } else {
      assert (name + tail)[1..] == name[1..] + tail;
      KeyLengthIs(name[1..], tail);
    }
  }

  lemma ParseIndexed(index: nat, tail: string)
    requires PlainSegment(Index(index)) && (tail != "" ==> Delimiter(tail[0]))
    ensures var path := SegmentText(Index(index)) + tail;
      (tail == "" ==> Parse(path) == Some([Index(index)])) &&
      (tail != "" && tail[0] == '[' ==> Parse(path) == After(Index(index), Parse(tail))) &&
      (|tail| > 1 && tail[0] == '.' ==> Parse(path) == After(Index(index), Parse(tail[1..])))
  {
    hide Decimal, FindChar;
    var d := Decimal(index);
    var path := SegmentText(Index(index)) + tail;
    var body, n := path[1..], |d|;
    IndexText(d, tail);
    FindCharIs(d, ']', "]" + tail);
    DecimalValue(index);
  }

  lemma IndexText(d: string, tail: string)
    ensures var path := "[" + d + "]" + tail;
      path[0] == '[' && path[1..] == d + ("]" + tail) && path[1..][..|d|] == d && path[1..][|d| + 1..] == tail
  {
  }

  lemma {:induction false} FindCharIs(before: string, c: char, rest: string)
    requires (forall k :: 0 <= k < |before| ==> before[k] != c) && rest != "" && rest[0] == c
    ensures FindChar(before + rest, c) == Some(|before|)
  {
    if before == "" {
      assert before + rest == rest;
    } else {
      assert (before + rest)[1..] == before[1..] + rest;
      FindCharIs(before[1..], c, rest);
    }
  }

  /** What a path cannot be: an empty key at the front or between dots, a delimiter at the end, an index
      without end, one that is no number in range, or one with a key right behind it. */
  lemma ParseRefuses(key: string, index: string, rest: string)
    requires key != "" && forall k :: 0 <= k < |key| ==> !Delimiter(key[k])
    requires forall k :: 0 <= k < |index| ==> index[k] != ']'
    ensures Parse("." + rest).None? && Parse(key + ".").None? && Parse(key + "[").None?
    ensures Parse("[" + index).None?
    ensures IndexOf(index).None? ==> Parse("[" + index + "]" + rest).None?
    ensures rest != "" && !Delimiter(rest[0]) ==> Parse("[" + index + "]" + rest).None?
    ensures Parse("[" + index + "].").None?
  {
    hide IndexOf, FindChar, KeyLength;
    DotFirst(rest);
    KeyLengthIs(key, ".");
    KeyLengthIs(key, "[");
    KeySlices(key, ".");
    KeySlices(key, "[");
    ParseKeyStep(key + ".");
    ParseKeyStep(key + "[");
    OpenIndex("");
    OpenIndex(index);
    assert "[" == "[" + "";
    IndexText(index, rest);
    FindCharIs(index, ']', "]" + rest);
    IndexText(index, ".");
    FindCharIs(index, ']', "]" + ".");
    assert "[" + index + "]." == "[" + index + "]" + ".";
  }

  lemma DotFirst(rest: string)
    ensures Parse("." + rest).None?
  {
    assert ("." + rest)[0] == '.' && KeyLength("." + rest) == 0;
  }

  lemma OpenIndex(index: string)
    requires forall k :: 0 <= k < |index| ==> index[k] != ']'
    ensures Parse("[" + index).None?
  {
    assert ("[" + index)[1..] == index;
  }

  // ------------------------------------------------------------- the index loop

  /** `confignode_path_parse_index`: no product or sum exceeds `SIZE_MAX` on the way. */
  method ParseIndex(s: string) returns (r: Option<nat>)
    ensures r == IndexOf(s)
  {
    if s == "" { return None; }
    var value: nat := 0;
    for p := 0 to |s|
      invariant AllDigits(s[..p]) && value == Numeric(s[..p]) && value <= SIZE_MAX
    {
      if s[p] < '0' || s[p] > '9' {
        assert !Digit(s[p]);
        return None;
      }
      var digit := DigitValue(s[p]);
      ValueSnoc(s[..p], s[p]);
      assert s[..p + 1] == s[..p] + [s[p]];
      if value > (SIZE_MAX - digit) / 10 {
        if AllDigits(s) { PrefixBelow(s, p + 1); }
        return None;
      }
      value := value * 10 + digit;
    }
    assert s[..|s|] == s;
    if value > SIZE_MAX / 2 { return None; }
    return Some(value);
  }

  /** A number is at least any number it starts with. */
  lemma {:induction false} PrefixBelow(s: string, n: nat)
    requires AllDigits(s) && n <= |s|
    ensures AllDigits(s[..n]) && Numeric(s[..n]) <= Numeric(s)
    decreases |s|
  {
    if n < |s| {
      var t := s[..|s| - 1];
      PrefixBelow(t, n);
      assert t[..n] == s[..n];
    } else {
      assert s[..n] == s;
    }
  }

  // ------------------------------------------------------------- lookup

  function Lookup(t: Tree, p: Path): Option<Tree>
    decreases |p|
  {
    if p == [] then Some(t)
    else
      match p[0]
      case Index(i) => if t.Array? && i < |t.items| then Lookup(t.items[i], p[1..]) else None
      case Key(k) =>
        var x := if t.Map? then Get(t.entries, k) else None;
        if x.Some? then Lookup(x.value, p[1..]) else None
  }

  /** `confignode_path_lookup` without creation. */
  function PathLookup(t: Tree, path: string): Option<Tree> {
    var p := Parse(path);
    if p.Some? then Lookup(t, p.value) else None
  }

  /** A key with a delimiter is not found under the text written for it. */
  lemma DottedKeyLost()
    ensures var t, p := Map([Entry("a.b", Null)]), [Key("a.b")];
      Lookup(t, p) == Some(Null) && PathLookup(t, Render(p)).None?
  {
    var t, p := Map([Entry("a.b", Null)]), [Key("a.b")];
    assert Render(p) == "a.b";
    assert "a.b"[1..] == ".b" && "a.b"[2..] == "b" && "b"[1..] == "";
    assert KeyLength("a.b") == 1;
    assert Parse("a.b").value[0] == Key("a");
    assert Get(t.entries, "a").None?;
  }

  // ------------------------------------------------------------- setting a value

  /** `confignode_array_extend`: at least `n` items. */
  function Extend(items: seq<Tree>, n: nat): (r: seq<Tree>)
    ensures |r| == if |items| < n then n else |items|
    ensures forall k :: 0 <= k < |r| ==> r[k] == if k < |items| then items[k] else Null
  {
    if |items| < n then items + seq(n - |items|, _ => Null) else items
  }

  function Items(t: Tree): seq<Tree> {
    if t.Array? then t.items else []
  }

  function Entries(t: Tree): seq<Entry> {
    if t.Map? then t.entries else []
  }

  function OrNull(x: Option<Tree>): Tree {
    if x.Some? then x.value else Null
  }

  /** The tree with `leaf` put at a path. A node on the way that is not of the kind the path asks for is
      replaced by an empty one that is. */
  function PutAt(t: Tree, p: Path, leaf: Tree): Tree
    decreases |p|
  {
    if p == [] then leaf
    else
      match p[0]
      case Index(i) =>
        var items := Extend(Items(t), i + 1);
        Array(items[i := PutAt(items[i], p[1..], leaf)])
      case Key(k) =>
        Map(Put(Entries(t), k, PutAt(OrNull(Get(Entries(t), k)), p[1..], leaf)))
  }

  predicate KindFits(t: Tree, s: Segment) {
    if s.Index? then t.Array? else t.Map?
  }

  /** `confignode_path_set_value`: what becomes of the node the path starts from, or `None` if the call
      fails and leaves it alone. A root cannot be replaced. */
  function SetValue(t: Tree, hasParent: bool, path: string, value: Option<Value>): Option<Tree> {
    var p := Parse(path);
    var leaf := if value.Some? then Leaf(value.value) else Null;
    if p.None? then None
    else if p.value == [] then if hasParent || (t.Leaf? && value.Some?) then Some(leaf) else None
    else if hasParent || KindFits(t, p.value[0]) then Some(PutAt(t, p.value, leaf))
    else None
  }

  lemma {:induction false} PutAtWellFormed(t: Tree, p: Path, leaf: Tree)
    requires WellFormed(t) && WellFormed(leaf)
    ensures WellFormed(PutAt(t, p, leaf))
    decreases |p|
  {
    if p != [] {
      match p[0] {
        case Index(i) =>
          PutAtWellFormed(Extend(Items(t), i + 1)[i], p[1..], leaf);
        case Key(k) =>
          var es := Entries(t);
          PutAtWellFormed(OrNull(Get(es, k)), p[1..], leaf);
      }
    }
  }

  /** Looking up the path that was set finds what was set. */
  lemma {:induction false} LookupPut(t: Tree, p: Path, leaf: Tree)
    requires WellFormed(t)
    ensures Lookup(PutAt(t, p, leaf), p) == Some(leaf)
    decreases |p|
  {
    if p != [] {
      match p[0] {
        case Index(i) =>
          LookupPut(Extend(Items(t), i + 1)[i], p[1..], leaf);
        case Key(k) =>
          var es := Entries(t);
          LookupPut(OrNull(Get(es, k)), p[1..], leaf);
          GetPut(es, k, PutAt(OrNull(Get(es, k)), p[1..], leaf), k);
      }
    }
  }

  /** Two paths part at segments of the same kind: two keys or two indices. */
  predicate Diverge(p: Path, q: Path)
    decreases |p|
  {
    p != [] && q != [] && if p[0] == q[0] then Diverge(p[1..], q[1..]) else p[0].Key? == q[0].Key?
  }

  /** One step of a path down into a node that `PutAt` made, where the two paths go on together. */
  lemma PutAtSame(t: Tree, p: Path, q: Path, leaf: Tree)
    requires WellFormed(t) && p != [] && q != [] && p[0] == q[0]
    ensures var sub := OrNull(Lookup(t, [p[0]]));
      WellFormed(sub) &&
      Lookup(PutAt(t, p, leaf), q) == Lookup(PutAt(sub, p[1..], leaf), q[1..]) &&
      (Lookup(t, q) == Lookup(sub, q[1..]) || (Lookup(t, q).None? && sub.Null?))
  {
    hide PutAt, Find;
    PutAtUnfold(t, p, leaf);
    match p[0] {
      case Index(i) =>
      case Key(k) => GetPut(Entries(t), k, PutAt(OrNull(Get(Entries(t), k)), p[1..], leaf), k);
        EntriesWellFormed(t, k);
    }
  }

  lemma EntriesWellFormed(t: Tree, k: string)
    requires WellFormed(t)
    ensures WellFormed(OrNull(Get(Entries(t), k)))
  {
  }

  lemma PutAtUnfold(t: Tree, p: Path, leaf: Tree)
    requires p != []
    ensures p[0].Index? ==>
      var i := p[0].index; var items := Extend(Items(t), i + 1);
      PutAt(t, p, leaf) == Array(items[i := PutAt(items[i], p[1..], leaf)])
    ensures p[0].Key? ==>
      var k, es := p[0].name, Entries(t);
      PutAt(t, p, leaf) == Map(Put(es, k, PutAt(OrNull(Get(es, k)), p[1..], leaf)))
  {
  }

  /** Where they part. */
  lemma PutAtParted(t: Tree, p: Path, q: Path, leaf: Tree)
    requires WellFormed(t) && p != [] && q != [] && p[0] != q[0]
    ensures p[0].Key? != q[0].Key? ==> Lookup(PutAt(t, p, leaf), q).None?
    ensures p[0].Key? == q[0].Key? ==>
      Lookup(PutAt(t, p, leaf), q) == Lookup(t, q) ||
      (Lookup(t, q).None? && Lookup(PutAt(t, p, leaf), q) == Some(Null))
  {
    hide PutAt, Find;
    PutAtUnfold(t, p, leaf);
    match p[0] {
      case Index(i) =>
      case Key(k) =>
        if q[0].Key? { GetPut(Entries(t), k, PutAt(OrNull(Get(Entries(t), k)), p[1..], leaf), q[0].name); }
    }
  }

  /** Nothing is lost beside the path: every node at a path that parts from it at the same kind of
      segment stays as it is. */
  lemma {:induction false} PutAtKeeps(t: Tree, p: Path, q: Path, leaf: Tree)
    requires WellFormed(t) && Diverge(p, q) && Lookup(t, q).Some?
    ensures Lookup(PutAt(t, p, leaf), q) == Lookup(t, q)
    decreases |p|
  {
    hide PutAt;
    if p[0] == q[0] {
      PutAtSame(t, p, q, leaf);
      NullLookup(q[1..]);
      PutAtKeeps(OrNull(Lookup(t, [p[0]])), p[1..], q[1..], leaf);
    } else {
      PutAtParted(t, p, q, leaf);
    }
  }

  lemma NullLookup(q: Path)
    ensures Lookup(Null, q) == if q == [] then Some(Null) else None
  {
  }

  /** The values of the new tree are exactly these: the one that was set, at its path, and the old ones
      whose paths part from it at a segment of the same kind. */
  lemma {:induction false} PutAtValues(t: Tree, p: Path, leaf: Tree, q: Path, v: Value)
    requires WellFormed(t) && (leaf.Leaf? || leaf.Null?)
    ensures Lookup(PutAt(t, p, leaf), q) == Some(Leaf(v)) <==>
      (q == p && leaf == Leaf(v)) || (Diverge(p, q) && Lookup(t, q) == Some(Leaf(v)))
    decreases |p|
  {
    hide PutAt;
    if p == [] {
      PutAtHere(t, leaf);
    } else if q == [] {
      PutAtUnfold(t, p, leaf);
    } else if p[0] == q[0] {
      PutAtSame(t, p, q, leaf);
      NullLookup(q[1..]);
      PutAtValues(OrNull(Lookup(t, [p[0]])), p[1..], leaf, q[1..], v);
      assert q == p <==> q[1..] == p[1..] by { assert p == [p[0]] + p[1..] && q == [q[0]] + q[1..]; }
    } else {
      PutAtParted(t, p, q, leaf);
    }
  }

  lemma PutAtHere(t: Tree, leaf: Tree)
    ensures PutAt(t, [], leaf) == leaf
  {
  }

  /** After a successful call the path looks up to the value, in a well-formed tree, and a call from a
      root succeeds exactly when the path is valid and the root is of the kind it starts with, or, for
      the empty path, already a value. */
  lemma SetThenLookup(t: Tree, path: string, value: Value)
    requires WellFormed(t)
    ensures var r := SetValue(t, false, path, Some(value)); var p := Parse(path);
      (r.Some? <==> p.Some? && if p.value == [] then t.Leaf? else KindFits(t, p.value[0])) &&
      (r.Some? ==> WellFormed(r.value) && PathLookup(r.value, path) == Some(Leaf(value)))
  {
    hide Parse;
    var p := Parse(path);
    if p.Some? {
      LookupPut(t, p.value, Leaf(value));
      PutAtWellFormed(t, p.value, Leaf(value));
    }
  }
}
