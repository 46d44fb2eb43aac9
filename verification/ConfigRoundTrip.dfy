/** Reading back what was written: loading the saved text of a tree rebuilds that tree. */
module ConfigRoundTrip {
  import opened Wrappers
  import opened Digits
  import opened ConfigTree
  import opened ConfigPath
  import opened ConfigConf
  import R = ConfigReading
  import opened Sizes

  // ------------------------------------------------------------- what can be saved

  predicate ExpressibleValue(v: Value, fl: Floats) {
    ValueText(v, fl).Some?
  }

  /** The trees the format can express: no null nodes, no empty containers below the root, keys and texts
      without the characters that mean something, arrays that can be indexed. */
  predicate Expressible(t: Tree, root: bool, fl: Floats) {
    match t
    case Null => false
    case Leaf(v) => ExpressibleValue(v, fl)
    case Map(es) =>
      (root || es != []) &&
      (forall k :: 0 <= k < |es| ==> KeyOk(es[k].key, root) && Expressible(es[k].tree, false, fl))
    case Array(items) =>
      items != [] && |items| <= SIZE_MAX / 2 + 1 &&
      (forall k :: 0 <= k < |items| ==> Expressible(items[k], false, fl))
  }

  /** Saving succeeds on exactly these trees. */
  lemma {:induction false} SavesExactly(t: Tree, prefix: string, fl: Floats)
    ensures Save(t, prefix, fl).Some? <==> Expressible(t, prefix == "", fl)
    decreases t
  {
    match t {
      case Map(es) => if es != [] { SavesEntries(es, prefix, fl); }
      case Array(items) => if items != [] { SavesItems(items, 0, prefix, fl); }
      case Null =>
      case Leaf(_) =>
    }
  }

  lemma {:induction false} SavesEntries(es: seq<Entry>, prefix: string, fl: Floats)
    ensures SaveEntries(es, prefix, fl).Some? <==>
      forall k :: 0 <= k < |es| ==> KeyOk(es[k].key, prefix == "") && Expressible(es[k].tree, false, fl)
    decreases es
  {
    hide KeyOk, Save, Expressible;
    if es != [] {
      SavesEntries(es[1..], prefix, fl);
      if KeyOk(es[0].key, prefix == "") {
        JoinNotEmpty(prefix, es[0].key);
        SavesExactly(es[0].tree, Join(prefix, Key(es[0].key)), fl);
      }
    }
  }

  lemma JoinNotEmpty(prefix: string, key: string)
    requires KeyOk(key, prefix == "")
    ensures Join(prefix, Key(key)) != ""
  {
  }

  lemma {:induction false} SavesItems(items: seq<Tree>, index: nat, prefix: string, fl: Floats)
    ensures SaveItems(items, index, prefix, fl).Some? <==>
      (items != [] ==> index + |items| <= SIZE_MAX / 2 + 1) &&
      forall k :: 0 <= k < |items| ==> Expressible(items[k], false, fl)
    decreases items
  {
    hide Save, Expressible;
    if items != [] {
      SavesItems(items[1..], index + 1, prefix, fl);
      SavesExactly(items[0], Join(prefix, Index(index)), fl);
    }
  }

  lemma {:induction false} ExpressibleFilled(t: Tree, fl: Floats)
    requires Expressible(t, false, fl)
    ensures Filled(t)
    decreases t
  {
    match t {
      case Map(es) => forall k | 0 <= k < |es| ensures Filled(es[k].tree) { ExpressibleFilled(es[k].tree, fl); }
      case Array(items) => forall k | 0 <= k < |items| ensures Filled(items[k]) { ExpressibleFilled(items[k], fl); }
      case Leaf(_) =>
    }
  }

  // ------------------------------------------------------------- one line

  /** A text that trimming leaves alone. */
  predicate Trimmed(s: string) {
    s != "" && !Space(s[0]) && !Space(s[|s| - 1])
  }

  lemma ParseWritten(t: Tree, key: string, val: string, fl: Floats)
    requires Trimmed(key) && key[0] != '#' && (forall k :: 0 <= k < |key| ==> key[k] != '=') && Trimmed(val)
    ensures ParseLine(t, key + " = " + val, fl) == Assign(t, key, val, fl)
  {
    hide Assign, FindChar;
    var line := key + " = " + val;
    assert line[0] == key[0];
    assert line[|line| - 1] == val[|val| - 1];
    assert TrimLeft(TrimRight(line)) == line;
    assert line == (key + " ") + ("= " + val);
    FindCharIs(key + " ", '=', "= " + val);
    assert line[..|key| + 1] == key + " ";
    assert line[|key| + 2..] == " " + val;
    TrimOne(key, val);
  }

  lemma TrimOne(key: string, val: string)
    requires Trimmed(key) && Trimmed(val)
    ensures TrimRight(key + " ") == key && TrimLeft(" " + val) == val
  {
    assert (key + " ")[..|key|] == key;
    assert (" " + val)[1..] == val;
  }

  /** The numbers and words a saved value can be. */
  predicate Loadable(v: Value) {
    (v.Integer? ==> INT64_MIN <= v.i <= INT64_MAX) && !v.Real?
  }

  /** `strtod` does not read the two words. */
  ghost predicate Sensible(fl: Floats) {
    fl.read("true").NotFloat? && fl.read("false").NotFloat?
  }

  lemma IntegerRead(i: int, fl: Floats)
    requires INT64_MIN <= i <= INT64_MAX
    ensures ParseValue(IntegerText(i), fl) == Some(Integer(i))
  {
    hide ParseValue, Decimal;
    R.IntegerReads(i, false, fl);
    assert "" + Decimal(R.Magnitude(i)) == Decimal(R.Magnitude(i));
  }

  lemma LowerIs(c: char, s: string)
    requires 'a' <= c <= 'z'
    ensures Lower([c] + s) == [c] + Lower(s)
  {
    assert ([c] + s)[1..] == s;
  }

  lemma WordsRead(b: bool, fl: Floats)
    requires Sensible(fl)
    ensures ParseValue(if b then "true" else "false", fl) == Some(Boolean(b))
  {
    hide Lower;
    LowerIs('t', "rue");
    LowerIs('r', "ue");
    LowerIs('u', "e");
    LowerIs('e', "");
    LowerIs('f', "alse");
    LowerIs('a', "lse");
    LowerIs('l', "se");
    LowerIs('s', "e");
    LowerNothing();
    assert ['t'] + ("rue") == "true" && ['r'] + ("ue") == "rue" && ['u'] + "e" == "ue" && ['e'] + "" == "e";
    assert ['f'] + "alse" == "false" && ['a'] + "lse" == "alse" && ['l'] + "se" == "lse" && ['s'] + "e" == "se";
    var s := if b then "true" else "false";
    assert !Digit(s[0]);
    assert Lower(s) == s;
    assert IsTrue("true") && IsFalse("false");
    FalseIsNotTrue(s);
  }

  lemma FalseIsNotTrue(s: string)
    requires (s == "false" && Lower(s) == s) || s == "true"
    ensures s == "false" ==> !IsTrue(s)
  {
    if s == "false" {
      assert |s| == 5 && s[0] == 'f';
    }
  }

  lemma LowerNothing()
    ensures Lower("") == ""
  {
  }

  /** A written value is trimmed and reads back as itself. */
  lemma ValueReads(t: Tree, key: string, v: Value, fl: Floats)
    requires ExpressibleValue(v, fl) && Loadable(v) && Sensible(fl) && key != ""
    ensures var text := ValueText(v, fl).value;
      Trimmed(text) && NoNewLine(text) && Assign(t, key, text, fl) == SetValue(t, false, key, Some(v))
  {
    hide SetValue, ParseValue, Decimal;
    var text := ValueText(v, fl).value;
    match v {
      case Text(s) => assert text[1..|text| - 1] == s;
      case Integer(i) =>
        IntegerRead(i, fl);
        assert forall k :: 0 <= k < |text| ==> Digit(text[k]) || text[k] == '-';
      case Boolean(b) => WordsRead(b, fl);
    }
  }

  // ------------------------------------------------------------- paths as text

  /** A path below the root whose text the format can express. */
  predicate PathOk(p: Path) {
    p != [] && p[0].Key? &&
    forall k :: 0 <= k < |p| ==>
      match p[k]
      case Key(name) => KeyOk(name, k == 0)
      case Index(index) => index <= SIZE_MAX / 2
  }

  lemma PathOkSnoc(p: Path, s: Segment)
    requires p == [] || PathOk(p)
    requires if s.Key? then KeyOk(s.name, p == []) else s.index <= SIZE_MAX / 2 && p != []
    ensures PathOk(p + [s])
  {
  }

  predicate Clean(s: string) {
    Trimmed(s) && s[0] != '#' && forall k :: 0 <= k < |s| ==> s[k] != '=' && !NewLine(s[k])
  }

  lemma {:induction false} RenderSnoc(p: Path, s: Segment)
    ensures Render(p + [s]) == Render(p) + (if p != [] && s.Key? then "." else "") + SegmentText(s)
    decreases |p|
  {
    hide SegmentText;
    if p == [] {
      assert p + [s] == [s];
      assert [s][1..] == [];
    } else {
      assert (p + [s])[1..] == p[1..] + [s];
      RenderSnoc(p[1..], s);
    }
  }

  /** The prefix that saving carries is the text of the path. */
  lemma JoinRender(p: Path, s: Segment)
    requires p == [] || PathOk(p)
    ensures Join(Render(p), s) == Render(p + [s])
    ensures p != [] ==> Render(p) != ""
  {
    hide Decimal, Render, KeyOk;
    RenderSnoc(p, s);
    NoText();
    if p != [] { RenderClean(p); }
  }

  lemma NoText()
    ensures Render([]) == ""
  {
  }

  lemma SegmentClean(s: Segment, first: bool)
    requires if s.Key? then KeyOk(s.name, first) else !first
    ensures var r := SegmentText(s);
      Trimmed(r) && (first ==> r[0] != '#') && forall k :: 0 <= k < |r| ==> r[k] != '=' && !NewLine(r[k])
  {
    hide Decimal;
    if s.Index? {
      var d := Decimal(s.index);
      assert forall k :: 0 <= k < |d| ==> Digit(d[k]);
    }
  }

  lemma {:induction false} RenderClean(p: Path)
    requires PathOk(p)
    ensures Clean(Render(p))
    decreases |p|
  {
    hide KeyOk, Render, SegmentText, Space;
    var n := |p| - 1;
    var init, s := p[..n], p[n];
    assert p == init + [s];
    SegmentClean(s, n == 0);
    RenderSnoc(init, s);
    NoText();
    if n > 0 {
      RenderClean(init);
    }
  }

  lemma PathOkPlain(p: Path)
    requires PathOk(p)
    ensures Plain(p)
  {
    forall k | 0 <= k < |p| ensures PlainSegment(p[k]) {
      match p[k] {
        case Key(name) =>
        case Index(i) =>
      }
    }
  }

  lemma SetAtPath(t: Tree, p: Path, v: Value)
    requires PathOk(p) && t.Map?
    ensures SetValue(t, false, Render(p), Some(v)) == Some(PutAt(t, p, Leaf(v))) && PutAt(t, p, Leaf(v)).Map?
  {
    hide Render, Parse, KeyOk;
    PathOkPlain(p);
    ParseRender(p);
    PutAtUnfold(t, p, Leaf(v));
  }

  // ------------------------------------------------------------- the whole text

  lemma LoadSkips(t: Tree, s: string, fl: Floats)
    ensures LoadFrom(t, SkipNewLines(s), fl) == LoadFrom(t, s, fl)
  {
    hide ParseLine;
    if s != "" && NewLine(s[0]) { assert s[0..] == s; }
  }

  /** A line at the front of the text is parsed, and the rest is loaded into what it gives. */
  lemma LoadLine(t: Tree, line: string, rest: string, fl: Floats)
    requires line != "" && NoNewLine(line)
    ensures LoadFrom(t, line + "\n" + rest, fl) ==
      var t' := ParseLine(t, line, fl); if t'.None? then None else LoadFrom(t'.value, rest, fl)
  {
    hide ParseLine;
    var text := line + "\n" + rest;
    var n := LineLength(text);
    assert text[|line|] == '\n';
    assert forall k :: 0 <= k < |line| ==> text[k] == line[k];
    assert n == |line|;
    assert text[..n] == line && text[n..] == ['\n'] + rest;
    assert (['\n'] + rest)[1..] == rest;
    var t' := ParseLine(t, line, fl);
    if t'.Some? { LoadSkips(t'.value, rest, fl); }
  }

  /** Every value of the tree can be loaded. */
  predicate AllLoadable(t: Tree) {
    match t
    case Null => true
    case Leaf(v) => Loadable(v)
    case Map(es) => forall k :: 0 <= k < |es| ==> AllLoadable(es[k].tree)
    case Array(items) => forall k :: 0 <= k < |items| ==> AllLoadable(items[k])
  }

  /** The text saved for `t` under a path sets all its values under that path, whatever follows it. */
  lemma {:induction false} SavedLoads(t: Tree, p: Path, into: Tree, rest: string, fl: Floats)
    requires PathOk(p) && into.Map? && AllLoadable(t) && Sensible(fl) && Save(t, Render(p), fl).Some?
    ensures Build(into, p, t).Map?
    ensures LoadFrom(into, Save(t, Render(p), fl).value + rest, fl) == LoadFrom(Build(into, p, t), rest, fl)
    decreases t
  {
    hide PathOk, Render, LoadFrom, PutAt;
    match t {
      case Leaf(v) => LeafLoads(v, p, into, rest, fl);
      case Map(es) => EntriesLoad(es, p, into, rest, fl);
      case Array(items) => ItemsLoad(items, 0, p, into, rest, fl);
    }
  }

  lemma LeafLoads(v: Value, p: Path, into: Tree, rest: string, fl: Floats)
    requires PathOk(p) && into.Map? && Loadable(v) && Sensible(fl) && Save(Leaf(v), Render(p), fl).Some?
    ensures PutAt(into, p, Leaf(v)).Map?
    ensures LoadFrom(into, Save(Leaf(v), Render(p), fl).value + rest, fl) == LoadFrom(PutAt(into, p, Leaf(v)), rest, fl)
  {
    hide PathOk, Render, LoadFrom, PutAt, ValueText, SetValue, Assign, ParseLine, Sensible, Loadable;
    var key, val := Render(p), ValueText(v, fl).value;
    RenderClean(p);
    ValueReads(into, key, v, fl);
    ParseWritten(into, key, val, fl);
    SetAtPath(into, p, v);
    var line := key + " = " + val;
    LineClean(key, val);
    LoadLine(into, line, rest, fl);
    assert key + " = " + (val + "\n") + rest == line + "\n" + rest;
  }

  lemma LineClean(key: string, val: string)
    requires Clean(key) && NoNewLine(val)
    ensures NoNewLine(key + " = " + val) && key + " = " + val != ""
  {
  }

  lemma {:induction false} EntriesLoad(es: seq<Entry>, p: Path, into: Tree, rest: string, fl: Floats)
    requires (p == [] || PathOk(p)) && into.Map? && Sensible(fl) && SaveEntries(es, Render(p), fl).Some?
    requires forall k :: 0 <= k < |es| ==> AllLoadable(es[k].tree)
    ensures BuildEntries(into, p, es).Map?
    ensures LoadFrom(into, SaveEntries(es, Render(p), fl).value + rest, fl) ==
      LoadFrom(BuildEntries(into, p, es), rest, fl)
    decreases es
  {
    hide PathOk, Render, LoadFrom, PutAt, Save, Build, KeyOk, AllLoadable, Sensible, Join;
    if es == [] {
      assert "" + rest == rest;
    } else {
      var s, tail := Key(es[0].key), es[1..];
      JoinRender(p, s);
      NoText();
      PathOkSnoc(p, s);
      var a, b := Save(es[0].tree, Join(Render(p), s), fl).value, SaveEntries(tail, Render(p), fl).value;
      assert a + b + rest == a + (b + rest);
      SavedLoads(es[0].tree, p + [s], into, b + rest, fl);
      EntriesLoad(tail, p, Build(into, p + [s], es[0].tree), rest, fl);
    }
  }

  lemma {:induction false} ItemsLoad(items: seq<Tree>, index: nat, p: Path, into: Tree, rest: string, fl: Floats)
    requires PathOk(p) && into.Map? && Sensible(fl) && SaveItems(items, index, Render(p), fl).Some?
    requires forall k :: 0 <= k < |items| ==> AllLoadable(items[k])
    ensures BuildItems(into, p, items, index).Map?
    ensures LoadFrom(into, SaveItems(items, index, Render(p), fl).value + rest, fl) ==
      LoadFrom(BuildItems(into, p, items, index), rest, fl)
    decreases items
  {
    hide PathOk, Render, LoadFrom, PutAt, Save, Build, AllLoadable, Sensible, Join;
    if items == [] {
      assert "" + rest == rest;
    } else {
      var s, tail := Index(index), items[1..];
      JoinRender(p, s);
      PathOkNotEmpty(p);
      PathOkSnoc(p, s);
      var a, b := Save(items[0], Join(Render(p), s), fl).value, SaveItems(tail, index + 1, Render(p), fl).value;
      assert a + b + rest == a + (b + rest);
      SavedLoads(items[0], p + [s], into, b + rest, fl);
      ItemsLoad(tail, index + 1, p, Build(into, p + [s], items[0]), rest, fl);
    }
  }

  lemma PathOkNotEmpty(p: Path)
    requires PathOk(p)
    ensures p != []
  {
  }

  // ------------------------------------------------------------- the text that is written

  /** One line: the path, an equals sign between spaces, and the value; texts stand in quotes. */
  function Line(p: Path, v: Value, fl: Floats): string
    requires v.Real? ==> fl.write(v.bits).Some?
  {
    var val := match v
      case Text(s) => "\"" + s + "\""
      case Integer(i) => R.Signs(i) + Decimal(R.Magnitude(i))
      case Real(bits) => fl.write(bits).value
      case Boolean(b) => if b then "true" else "false";
    Render(p) + (" = " + (val + "\n"))
  }

  /** The lines of all values below a path, in order. */
  function Lines(t: Tree, p: Path, fl: Floats): string
    requires Save(t, Render(p), fl).Some? && (p == [] || PathOk(p))
    decreases t
  {
    match t
    case Null => ""
    case Leaf(v) => Line(p, v, fl)
    case Map(es) => if es == [] then "" else EntryLines(es, p, fl)
    case Array(items) => if p == [] then "" else ItemLines(items, 0, p, fl)
  }

  function EntryLines(es: seq<Entry>, p: Path, fl: Floats): string
    requires SaveEntries(es, Render(p), fl).Some? && (p == [] || PathOk(p))
    decreases es
  {
    if es == [] then ""
    else
      var s := Key(es[0].key);
      JoinRender(p, s);
      NoText();
      PathOkSnoc(p, s);
      Lines(es[0].tree, p + [s], fl) + EntryLines(es[1..], p, fl)
  }

  function ItemLines(items: seq<Tree>, index: nat, p: Path, fl: Floats): string
    requires SaveItems(items, index, Render(p), fl).Some? && PathOk(p)
    decreases items
  {
    if items == [] then ""
    else
      var s := Index(index);
      JoinRender(p, s);
      PathOkSnoc(p, s);
      Lines(items[0], p + [s], fl) + ItemLines(items[1..], index + 1, p, fl)
  }

  /** The text that is saved: one line for each value, under the text of its path. */
  lemma {:induction false} SavedText(t: Tree, p: Path, fl: Floats)
    requires Save(t, Render(p), fl).Some? && (p == [] || PathOk(p)) && (t.Array? ==> p != [])
    ensures Save(t, Render(p), fl).value == Lines(t, p, fl)
    decreases t
  {
    hide PathOk, Render, Decimal;
    match t {
      case Leaf(v) =>
      case Map(es) => if es != [] { SavedEntries(es, p, fl); }
      case Array(items) => SavedItems(items, 0, p, fl);
    }
  }

  lemma {:induction false} SavedEntries(es: seq<Entry>, p: Path, fl: Floats)
    requires SaveEntries(es, Render(p), fl).Some? && (p == [] || PathOk(p))
    ensures SaveEntries(es, Render(p), fl).value == EntryLines(es, p, fl)
    decreases es
  {
    hide PathOk, Render, Save, Join, KeyOk, Lines;
    if es != [] {
      var s := Key(es[0].key);
      JoinRender(p, s);
      NoText();
      PathOkSnoc(p, s);
      SnocNotEmpty(p, s);
      SavedText(es[0].tree, p + [s], fl);
      SavedEntries(es[1..], p, fl);
    }
  }

  lemma {:induction false} SavedItems(items: seq<Tree>, index: nat, p: Path, fl: Floats)
    requires SaveItems(items, index, Render(p), fl).Some? && PathOk(p)
    ensures SaveItems(items, index, Render(p), fl).value == ItemLines(items, index, p, fl)
    decreases items
  {
    hide PathOk, Render, Save, Join, Lines;
    if items != [] {
      var s := Index(index);
      JoinRender(p, s);
      PathOkNotEmpty(p);
      PathOkSnoc(p, s);
      SnocNotEmpty(p, s);
      SavedText(items[0], p + [s], fl);
      SavedItems(items[1..], index + 1, p, fl);
    }
  }

  lemma SnocNotEmpty(p: Path, s: Segment)
    ensures p + [s] != []
  {
  }

  // ------------------------------------------------------------- there and back

  /** Whenever a well-formed tree without floating-point values can be saved, loading the saved text
      rebuilds that very tree: the same maps, arrays, keys and values in the same order. */
  lemma RoundTrip(t: Tree, fl: Floats)
    requires WellFormed(t) && AllLoadable(t) && Sensible(fl) && SaveString(t, fl).Some?
    ensures Load(SaveString(t, fl).value, fl) == Some(t)
  {
    hide LoadFrom, SaveEntries, BuildEntries, Sensible;
    var es, text := t.entries, SaveString(t, fl).value;
    NoText();
    if es == [] {
      LoadNothing(Map([]), fl);
    } else {
      SavesExactly(t, "", fl);
      forall k | 0 <= k < |es| ensures Filled(es[k].tree) { ExpressibleFilled(es[k].tree, fl); }
      EntriesLoad(es, [], Map([]), "", fl);
      assert text + "" == text;
      BuildsEntries(Map([]), [], es);
      assert [] + es == es;
      LoadNothing(t, fl);
    }
  }

  lemma LoadNothing(t: Tree, fl: Floats)
    ensures LoadFrom(t, "", fl) == Some(t)
  {
  }
}
