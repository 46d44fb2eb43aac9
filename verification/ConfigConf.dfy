/** The `.conf` text form of a configuration tree (`embloader/src/configfile/conf.c`): reading, writing, and
    that reading undoes writing. */
module ConfigConf {
  import opened Wrappers
  import opened Digits
  import opened ConfigTree
  import opened ConfigPath
  import opened Sizes


  /** What `strtod` makes of a whole text: nothing, a number it cannot represent, or a number. */
  datatype FloatText = NotFloat | FloatRange | Float(bits: nat)

  /** The C library's reading and writing of floating-point numbers, about which nothing is known. */
  datatype Floats = Floats(read: string -> FloatText, write: nat -> Option<string>)

  // ------------------------------------------------------------- characters

  predicate Space(c: char) {
    c == ' ' || 9 <= c as int <= 13
  }

  predicate NewLine(c: char) {
    c == '\n' || c == '\r'
  }

  function TrimLeft(s: string): (r: string)
    ensures |r| <= |s|
    ensures r != "" ==> !Space(r[0])
  {
    if s != "" && Space(s[0]) then TrimLeft(s[1..]) else s
  }

  function TrimRight(s: string): (r: string)
    ensures |r| <= |s|
    ensures r != "" ==> !Space(r[|r| - 1])
  {
    if s != "" && Space(s[|s| - 1]) then TrimRight(s[..|s| - 1]) else s
  }

  function Lower(s: string): (r: string)
    ensures |r| == |s|
  {
    if s == "" then "" else [if 'A' <= s[0] <= 'Z' then s[0] + 32 as char else s[0]] + Lower(s[1..])
  }

  predicate IsTrue(s: string) {
    Lower(s) in ["y", "ok", "on", "yes", "true", "always", "enable", "enabled"]
  }

  predicate IsFalse(s: string) {
    Lower(s) in ["n", "no", "off", "false", "never", "disable", "disabled"]
  }

  // ------------------------------------------------------------- values

  predicate HexDigit(c: char) {
    Digit(c) || 'a' <= c <= 'f' || 'A' <= c <= 'F'
  }

  function HexValue(c: char): nat
    requires HexDigit(c)
  {
    if Digit(c) then DigitValue(c)
    else if 'a' <= c <= 'f' then c as nat - 'a' as nat + 10
    else c as nat - 'A' as nat + 10
  }

  function Hex(s: string): nat
    requires forall k :: 0 <= k < |s| ==> HexDigit(s[k])
  {
    if s == "" then 0 else Hex(s[..|s| - 1]) * 16 + HexValue(s[|s| - 1])
  }

  function Unsigned(s: string): Option<nat> {
    if |s| >= 2 && s[0] == '0' && (s[1] == 'x' || s[1] == 'X') then
      if |s| > 2 && forall k :: 2 <= k < |s| ==> HexDigit(s[k]) then Some(Hex(s[2..])) else None
    else if s != "" && AllDigits(s) then Some(Numeric(s))
    else None
  }

  /** The whole text as an integer, in hexadecimal behind 0x, by `strtoll`. */
  function Signed(s: string): Option<int> {
    if s != "" && s[0] == '-' then
      match Unsigned(s[1..])
      case None => None
      case Some(n) => var m: int := n; Some(-m)
    else if s != "" && s[0] == '+' then Unsigned(s[1..])
    else Unsigned(s)
  }

  /** `conf_parse_value`: an integer, else a number, else a word for true or false, else text. A number
      out of range is an error. */
  function ParseValue(s: string, fl: Floats): Option<Value> {
    var i := Signed(s);
    if i.Some? then if INT64_MIN <= i.value <= INT64_MAX then Some(Integer(i.value)) else None
    else
      match fl.read(s)
      case Float(bits) => Some(Real(bits))
      case FloatRange => None
      case NotFloat =>
        if IsTrue(s) then Some(Boolean(true)) else if IsFalse(s) then Some(Boolean(false)) else Some(Text(s))
  }

  // ------------------------------------------------------------- reading

  /** `conf_parse_line`: the tree after a line, or `None` for a line that is in error. */
  function ParseLine(t: Tree, line: string, fl: Floats): Option<Tree> {
    var core := TrimLeft(TrimRight(line));
    if core == "" || core[0] == '#' then Some(t)
    else
      var sep := FindChar(core, '=');
      if sep.None? then None
      else Assign(t, TrimRight(core[..sep.value]), TrimLeft(core[sep.value + 1..]), fl)
  }

  function Assign(t: Tree, key: string, val: string, fl: Floats): Option<Tree> {
    if key == "" || val == "" then None
    else if val[0] == '"' then
      if |val| < 2 || val[|val| - 1] != '"' then None
      else SetValue(t, false, key, Some(Text(val[1..|val| - 1])))
    else
      match ParseValue(val, fl)
      case None => None
      case Some(v) => SetValue(t, false, key, Some(v))
  }

  function LineLength(s: string): (n: nat)
    ensures n <= |s| && (forall k :: 0 <= k < n ==> !NewLine(s[k])) && (n < |s| ==> NewLine(s[n]))
  {
    if s == "" || NewLine(s[0]) then 0 else 1 + LineLength(s[1..])
  }

  function SkipNewLines(s: string): (r: string)
    ensures |r| <= |s| && (s != "" && NewLine(s[0]) ==> |r| < |s|)
    ensures r != "" ==> !NewLine(r[0])
  {
    if s != "" && NewLine(s[0]) then SkipNewLines(s[1..]) else s
  }

  /** The lines of a text applied to a tree in order. */
  function LoadFrom(t: Tree, text: string, fl: Floats): Option<Tree>
    decreases |text|
  {
    if text == "" then Some(t)
    else
      var n := LineLength(text);
      var t' := if n > 0 then ParseLine(t, text[..n], fl) else Some(t);
      if t'.None? then None else LoadFrom(t'.value, SkipNewLines(text[n..]), fl)
  }

  /** `configfile_conf_load_string`. */
  function Load(text: string, fl: Floats): Option<Tree> {
    LoadFrom(Map([]), text, fl)
  }

  // ------------------------------------------------------------- writing

  /** `conf_key_is_serializable`. */
  predicate KeyOk(key: string, root: bool) {
    key != "" && (forall k :: 0 <= k < |key| ==> !Delimiter(key[k]) && key[k] != '=' && !NewLine(key[k])) &&
    !Space(key[0]) && !Space(key[|key| - 1]) && !(root && key[0] == '#')
  }

  function IntegerText(i: int): string {
    if i < 0 then "-" + Decimal(-i) else Decimal(i)
  }

  predicate NoNewLine(s: string) {
    forall k :: 0 <= k < |s| ==> !NewLine(s[k])
  }

  function ValueText(v: Value, fl: Floats): Option<string> {
    match v
    case Text(s) => if NoNewLine(s) then Some("\"" + s + "\"") else None
    case Integer(i) => Some(IntegerText(i))
    case Real(bits) => fl.write(bits)
    case Boolean(b) => Some(if b then "true" else "false")
  }

  /** How a prefix grows by a key or an index. */
  function Join(prefix: string, s: Segment): string {
    match s
    case Key(name) => if prefix == "" then name else prefix + "." + name
    case Index(index) => prefix + "[" + Decimal(index) + "]"
  }

  function Concat(a: Option<string>, b: Option<string>): Option<string> {
    if a.Some? && b.Some? then Some(a.value + b.value) else None
  }

  /** `conf_save_node_recursive`: one line for each value, or `None` where the format cannot express the
      tree. An index that no longer fits the signed type of the field is negative there. */
  function Save(t: Tree, prefix: string, fl: Floats): Option<string>
    decreases t
  {
    match t
    case Null => None
    case Leaf(v) => Concat(Some(prefix + " = "), Concat(ValueText(v, fl), Some("\n")))
    case Map(es) => if es == [] then if prefix == "" then Some("") else None else SaveEntries(es, prefix, fl)
    case Array(items) => if items == [] then None else SaveItems(items, 0, prefix, fl)
  }

  function SaveEntries(es: seq<Entry>, prefix: string, fl: Floats): Option<string>
    decreases es
  {
    if es == [] then Some("")
    else if !KeyOk(es[0].key, prefix == "") then None
    else Concat(Save(es[0].tree, Join(prefix, Key(es[0].key)), fl), SaveEntries(es[1..], prefix, fl))
  }

  function SaveItems(items: seq<Tree>, index: nat, prefix: string, fl: Floats): Option<string>
    decreases items
  {
    if items == [] then Some("")
    else if index > SIZE_MAX / 2 then None
    else Concat(Save(items[0], Join(prefix, Index(index)), fl), SaveItems(items[1..], index + 1, prefix, fl))
  }

  /** `configfile_conf_save_string`. */
  function SaveString(t: Tree, fl: Floats): Option<string> {
    if t.Map? then Save(t, "", fl) else None
  }

  // ------------------------------------------------------------- setting all values of a tree

  /** The tree with every value of `t` set under the path `p`, in order. */
  function Build(tree: Tree, p: Path, t: Tree): Tree
    decreases t
  {
    match t
    case Null => tree
    case Leaf(v) => PutAt(tree, p, t)
    case Map(es) => BuildEntries(tree, p, es)
    case Array(items) => BuildItems(tree, p, items, 0)
  }

  function BuildEntries(tree: Tree, p: Path, es: seq<Entry>): Tree
    decreases es
  {
    if es == [] then tree
    else BuildEntries(Build(tree, p + [Key(es[0].key)], es[0].tree), p, es[1..])
  }

  function BuildItems(tree: Tree, p: Path, items: seq<Tree>, index: nat): Tree
    decreases items
  {
    if items == [] then tree
    else BuildItems(Build(tree, p + [Index(index)], items[0]), p, items[1..], index + 1)
  }

  /** No container in `t` is empty and there are no null nodes. */
  predicate Filled(t: Tree) {
    match t
    case Null => false
    case Leaf(_) => true
    case Map(es) => es != [] && forall k :: 0 <= k < |es| ==> Filled(es[k].tree)
    case Array(items) => items != [] && forall k :: 0 <= k < |items| ==> Filled(items[k])
  }

  /** What is at a segment of a node, and the node with something else there. */
  function Slot(tree: Tree, s: Segment): Tree {
    match s
    case Index(i) => Extend(Items(tree), i + 1)[i]
    case Key(k) => OrNull(Get(Entries(tree), k))
  }

  function SetSlot(tree: Tree, s: Segment, x: Tree): Tree {
    match s
    case Index(i) => Array(Extend(Items(tree), i + 1)[i := x])
    case Key(k) => Map(Put(Entries(tree), k, x))
  }

  predicate UniqueTop(t: Tree) {
    t.Map? ==> UniqueKeys(t.entries)
  }

  lemma SlotSet(tree: Tree, s: Segment, x: Tree, y: Tree)
    requires UniqueTop(tree)
    ensures UniqueTop(SetSlot(tree, s, x))
    ensures Slot(SetSlot(tree, s, x), s) == x
    ensures SetSlot(SetSlot(tree, s, x), s, y) == SetSlot(tree, s, y)
  {
    hide Find;
    match s {
      case Index(i) =>
        var items := Extend(Items(tree), i + 1);
        assert Extend(items[i := x], i + 1) == items[i := x];
        assert items[i := x][i := y] == items[i := y];
      case Key(k) =>
        var es := Entries(tree);
        GetPut(es, k, x, k);
        PutTwice(es, k, x, y);
    }
  }

  lemma PutTwice(es: seq<Entry>, k: string, x: Tree, y: Tree)
    requires UniqueKeys(es)
    ensures Put(Put(es, k, x), k, y) == Put(es, k, y)
  {
    hide Find;
    var r := Put(es, k, x);
    match Find(es, k) {
      case None => FindUnique(r, |es|);
      case Some(n) => FindUnique(r, n);
    }
  }

  lemma PutAtSlot(tree: Tree, s: Segment, q: Path, leaf: Tree)
    ensures PutAt(tree, [s] + q, leaf) == SetSlot(tree, s, PutAt(Slot(tree, s), q, leaf))
  {
    hide PutAt;
    var p := [s] + q;
    assert p[1..] == q;
    PutAtUnfold(tree, p, leaf);
  }

  /** Setting values under a longer path is setting them in the slot. */
  lemma {:induction false} Descend(tree: Tree, s: Segment, q: Path, t: Tree)
    requires UniqueTop(tree) && Filled(t)
    ensures Build(tree, [s] + q, t) == SetSlot(tree, s, Build(Slot(tree, s), q, t))
    decreases t
  {
    hide SetSlot, Slot, PutAt, UniqueTop;
    match t {
      case Leaf(v) => PutAtSlot(tree, s, q, t);
      case Map(es) => DescendEntries(tree, s, q, es);
      case Array(items) => DescendItems(tree, s, q, items, 0);
    }
  }

  lemma {:induction false} DescendEntries(tree: Tree, s: Segment, q: Path, es: seq<Entry>)
    requires UniqueTop(tree) && es != [] && forall k :: 0 <= k < |es| ==> Filled(es[k].tree)
    ensures BuildEntries(tree, [s] + q, es) == SetSlot(tree, s, BuildEntries(Slot(tree, s), q, es))
    decreases es
  {
    hide SetSlot, Slot, UniqueTop, Build, Filled;
    var k := Key(es[0].key);
    assert [s] + q + [k] == [s] + (q + [k]);
    Descend(tree, s, q + [k], es[0].tree);
    var x := Build(Slot(tree, s), q + [k], es[0].tree);
    if |es| > 1 {
      SlotSet(tree, s, x, BuildEntries(x, q, es[1..]));
      DescendEntries(SetSlot(tree, s, x), s, q, es[1..]);
    }
  }

  lemma {:induction false} DescendItems(tree: Tree, s: Segment, q: Path, items: seq<Tree>, index: nat)
    requires UniqueTop(tree) && items != [] && forall k :: 0 <= k < |items| ==> Filled(items[k])
    ensures BuildItems(tree, [s] + q, items, index) == SetSlot(tree, s, BuildItems(Slot(tree, s), q, items, index))
    decreases items
  {
    hide SetSlot, Slot, UniqueTop, Build, Filled;
    var k := Index(index);
    assert [s] + q + [k] == [s] + (q + [k]);
    Descend(tree, s, q + [k], items[0]);
    var x := Build(Slot(tree, s), q + [k], items[0]);
    if |items| > 1 {
      SlotSet(tree, s, x, BuildItems(x, q, items[1..], index + 1));
      DescendItems(SetSlot(tree, s, x), s, q, items[1..], index + 1);
    }
  }

  /** Setting all values of a tree, from nothing, makes that tree. */
  lemma {:induction false} BuildsItself(t: Tree)
    requires WellFormed(t) && Filled(t)
    ensures Build(Null, [], t) == t
    decreases t
  {
    match t {
      case Leaf(v) => PutAtHere(Null, t);
      case Map(es) => BuildsEntries(Null, [], es);
      case Array(items) => BuildsItems(Null, [], items);
    }
  }

  lemma {:induction false} BuildsEntries(tree: Tree, done: seq<Entry>, es: seq<Entry>)
    requires tree == Map(done) || (done == [] && tree == Null)
    requires UniqueKeys(done + es) && es != []
    requires forall k :: 0 <= k < |es| ==> WellFormed(es[k].tree) && Filled(es[k].tree)
    ensures BuildEntries(tree, [], es) == Map(done + es)
    decreases es
  {
    hide Build, WellFormed, Filled;
    var e, rest := es[0], es[1..];
    BuildsItself(e.tree);
    assert [Key(e.key)] + [] == [Key(e.key)] == [] + [Key(e.key)];
    assert UniqueKeys(done) && Find(done, e.key).None? by {
      assert forall k :: 0 <= k < |done| ==> (done + es)[k] == done[k];
      assert (done + es)[|done|] == e;
    }
    Descend(tree, Key(e.key), [], e.tree);
    assert SetSlot(tree, Key(e.key), e.tree) == Map(done + [e]);
    assert done + es == done + [e] + rest;
    if rest != [] { BuildsEntries(Map(done + [e]), done + [e], rest); }
  }

  lemma {:induction false} BuildsItems(tree: Tree, done: seq<Tree>, items: seq<Tree>)
    requires tree == Array(done) || (done == [] && tree == Null)
    requires items != [] && forall k :: 0 <= k < |items| ==> WellFormed(items[k]) && Filled(items[k])
    ensures BuildItems(tree, [], items, |done|) == Array(done + items)
    decreases items
  {
    hide Build, WellFormed, Filled;
    var x, rest := items[0], items[1..];
    BuildsItself(x);
    var s := Index(|done|);
    assert [s] + [] == [s] == [] + [s];
    Descend(tree, s, [], x);
    assert Slot(tree, s) == Null;
    assert Extend(done, |done| + 1)[|done| := x] == done + [x];
    assert SetSlot(tree, s, x) == Array(done + [x]);
    assert done + items == done + [x] + rest;
    if rest != [] { BuildsItems(Array(done + [x]), done + [x], rest); }
  }
}
