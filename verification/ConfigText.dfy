/** The loops of `conf.c`: over the lines of a text, within a line, and over a tree with a growing buffer. */
module ConfigText {
  import opened Wrappers
  import opened ConfigTree
  import opened ConfigPath
  import opened ConfigConf
  import opened ConfigNode
  import opened ConfigMerge
  import opened ConfigReplace
  import opened ConfigSet
  import opened Sizes

  // ------------------------------------------------------------- reading

  lemma TrimLeftStep(s: string)
    requires s != "" && Space(s[0])
    ensures TrimLeft(s) == TrimLeft(s[1..])
  {
  }

  lemma TrimRightStep(s: string)
    requires s != "" && Space(s[|s| - 1])
    ensures TrimRight(s) == TrimRight(s[..|s| - 1])
  {
  }

  lemma TrimDone(s: string)
    ensures s == "" || !Space(s[0]) ==> TrimLeft(s) == s
    ensures s == "" || !Space(s[|s| - 1]) ==> TrimRight(s) == s
  {
  }

  /** Moves the end of a range back over blanks. */
  method BackOverBlanks(s: string, from: nat, len: nat) returns (len': nat)
    requires from + len <= |s|
    ensures len' <= len && s[from..from + len'] == TrimRight(s[from..from + len])
  {
    len' := len;
    while len' > 0 && Space(s[from + len' - 1])
      invariant len' <= len && TrimRight(s[from..from + len']) == TrimRight(s[from..from + len])
    {
      var t := s[from..from + len'];
      TrimRightStep(t);
      assert t[..|t| - 1] == s[from..from + len' - 1];
      len' := len' - 1;
    }
    TrimDone(s[from..from + len']);
  }

  /** Moves the start of a range over blanks. */
  method OverBlanks(s: string, from: nat, len: nat) returns (from': nat, len': nat)
    requires from + len <= |s|
    ensures from <= from' && from' + len' == from + len && s[from'..from' + len'] == TrimLeft(s[from..from + len])
  {
    from', len' := from, len;
    while len' > 0 && Space(s[from'])
      invariant from <= from' && from' + len' == from + len
      invariant TrimLeft(s[from'..from' + len']) == TrimLeft(s[from..from + len])
    {
      var t := s[from'..from' + len'];
      TrimLeftStep(t);
      assert t[1..] == s[from' + 1..from' + len'];
      from', len' := from' + 1, len' - 1;
    }
    TrimDone(s[from'..from' + len']);
  }

  /** `memchr`. */
  method Search(s: string, from: nat, len: nat, c: char) returns (r: Option<nat>)
    requires from + len <= |s|
    ensures r == FindChar(s[from..from + len], c)
  {
    var t := s[from..from + len];
    for k := 0 to len
      invariant forall j :: 0 <= j < k ==> t[j] != c
    {
      assert s[from + k] == t[k];
      if s[from + k] == c { return Some(k); }
    }
    return None;
  }

  /** What a call on the tree of `node` did, when the tree should become `result`, if anything. */
  ghost predicate Made(plenty: bool, ok: bool, node: Node, top: Shape, result: Option<Tree>)
    reads Refs(top), node
  {
    (ok ==> result.Some? && IsRoot(node, top, result.value)) && (plenty && result.Some? ==> ok)
  }

  lemma MadeIs(plenty: bool, ok: bool, node: Node, top: Shape, result: Option<Tree>)
    ensures Made(plenty, ok, node, top, result) <==>
      (ok ==> result.Some? && IsRoot(node, top, result.value)) && (plenty && result.Some? ==> ok)
  {
  }

  /** `conf_parse_line`: narrows the line to its key and its value by moving pointers, then sets the value. */
  method ConfParseLine(plenty: bool, node: Node, line: string, fl: Floats, ghost top: Shape, ghost t: Tree)
    returns (ok: bool, ghost top': Shape)
    requires IsRoot(node, top, t)
    modifies Refs(top)
    ensures fresh(Refs(top') - Refs(top)) && Made(plenty, ok, node, top', ParseLine(t, line, fl))
  {
    hide *;
    assert allocated(Refs(top));
    var len := BackOverBlanks(line, 0, |line|);
    assert line[0..|line|] == line;
    var start;
    start, len := OverBlanks(line, 0, len);
    ghost var core := line[start..start + len];
    ParseCore(t, line, core, fl);
    if len == 0 || line[start] == '#' {
      MadeIs(plenty, true, node, top, Some(t));
      return true, top;
    }
    label Before:
    ok, top' := ConfParseCore(plenty, node, line, start, len, fl, top, t);
    assert forall m: Node | m in Refs(top') && m !in Refs(top) :: fresh@Before(m);
  }

  lemma ParseCore(t: Tree, line: string, core: string, fl: Floats)
    requires core == TrimLeft(TrimRight(line))
    ensures ParseLine(t, line, fl) ==
      if core == "" || core[0] == '#' then Some(t)
      else
        var sep := FindChar(core, '=');
        if sep.None? then None
        else Assign(t, TrimRight(core[..sep.value]), TrimLeft(core[sep.value + 1..]), fl)
  {
    hide TrimLeft, TrimRight, FindChar, Assign;
  }

  method ConfParseCore(plenty: bool, node: Node, line: string, start: nat, len: nat, fl: Floats, ghost top: Shape,
                       ghost t: Tree)
    returns (ok: bool, ghost top': Shape)
    requires start + len <= |line| && IsRoot(node, top, t)
    modifies Refs(top)
    ensures fresh(Refs(top') - Refs(top))
    ensures var core := line[start..start + len]; var sep := FindChar(core, '=');
      Made(plenty, ok, node, top',
        if sep.None? then None else Assign(t, TrimRight(core[..sep.value]), TrimLeft(core[sep.value + 1..]), fl))
  {
    hide *;
    assert allocated(Refs(top));
    var sep := Search(line, start, len, '=');
    if sep.None? {
      MadeIs(plenty, false, node, top, None);
      return false, top;
    }
    var keylen, val := sep.value, start + sep.value + 1;
    var vallen := len - keylen - 1;
    CoreParts(line, start, len, keylen);
    keylen := BackOverBlanks(line, start, keylen);
    val, vallen := OverBlanks(line, val, vallen);
    label Before:
    ok, top' := ConfAssign(plenty, node, line[start..start + keylen], line[val..val + vallen], fl, top, t);
    assert forall m: Node | m in Refs(top') && m !in Refs(top) :: fresh@Before(m);
  }

  lemma CoreParts(line: string, start: nat, len: nat, k: nat)
    requires start + len <= |line| && k < len
    ensures var core := line[start..start + len];
      core[..k] == line[start..start + k] && core[k + 1..] == line[start + k + 1..start + k + 1 + (len - k - 1)]
  {
  }

  /** The value of a key's text, if it has one. */
  function Meant(val: string, fl: Floats): Option<Value> {
    if val == "" then None
    else if val[0] == '"' then if |val| < 2 || val[|val| - 1] != '"' then None else Some(Text(val[1..|val| - 1]))
    else ParseValue(val, fl)
  }

  lemma AssignIs(t: Tree, key: string, val: string, fl: Floats)
    ensures Assign(t, key, val, fl) ==
      if key == "" || Meant(val, fl).None? then None else ConfigPath.SetValue(t, false, key, Some(Meant(val, fl).value))
  {
    hide ConfigPath.SetValue, ParseValue;
  }

  method ConfAssign(plenty: bool, node: Node, key: string, val: string, fl: Floats, ghost top: Shape, ghost t: Tree)
    returns (ok: bool, ghost top': Shape)
    requires IsRoot(node, top, t)
    modifies Refs(top)
    ensures fresh(Refs(top') - Refs(top)) && Made(plenty, ok, node, top', Assign(t, key, val, fl))
  {
    hide *;
    assert allocated(Refs(top));
    AssignIs(t, key, val, fl);
    var value := ConfMeant(val, fl);
    MadeIs(plenty, false, node, top, None);
    if key == "" || value.None? { return false, top; }
    var fails: bool := *;
    MadeIs(plenty, false, node, top, Assign(t, key, val, fl));
    if fails && !plenty { return false, top; }
    label Before:
    ok, top' := SetAtRoot(plenty, node, key, Some(value.value), top, t);
    assert forall m: Node | m in Refs(top') && m !in Refs(top) :: fresh@Before(m);
    MadeIs(plenty, ok, node, top', Assign(t, key, val, fl));
  }

  method ConfMeant(val: string, fl: Floats) returns (r: Option<Value>)
    ensures r == Meant(val, fl)
  {
    hide ParseValue;
    if val == "" { return None; }
    var quoted := val[0] == '"';
    if quoted {
      if |val| < 2 || val[|val| - 1] != '"' { return None; }
      return Some(Text(val[1..|val| - 1]));
    }
    return ParseValue(val, fl);
  }

  lemma SkipStep(s: string)
    ensures SkipNewLines(s) == if s != "" && NewLine(s[0]) then SkipNewLines(s[1..]) else s
  {
  }

  lemma LengthIs(s: string, n: nat)
    requires n <= |s| && (forall k :: 0 <= k < n ==> !NewLine(s[k])) && (n < |s| ==> NewLine(s[n]))
    ensures LineLength(s) == n
  {
    hide LineLength;
    var m := LineLength(s);
  }

  lemma LoadStep(t: Tree, text: string, fl: Floats)
    requires text != ""
    ensures LoadFrom(t, text, fl) ==
      var n := LineLength(text);
      var t' := if n > 0 then ParseLine(t, text[..n], fl) else Some(t);
      if t'.None? then None else LoadFrom(t'.value, SkipNewLines(text[n..]), fl)
  {
  }

  lemma LoadEnd(t: Tree, fl: Floats)
    ensures LoadFrom(t, "", fl) == Some(t)
  {
  }

  method LineEnd(buff: string, from: nat) returns (cur: nat)
    requires from <= |buff|
    ensures from <= cur <= |buff| && cur - from == LineLength(buff[from..])
  {
    cur := from;
    while cur < |buff| && !NewLine(buff[cur])
      invariant from <= cur <= |buff| && forall k :: from <= k < cur ==> !NewLine(buff[k])
    {
      cur := cur + 1;
    }
    LengthIs(buff[from..], cur - from);
  }

  method NextLine(buff: string, from: nat) returns (cur: nat)
    requires from <= |buff|
    ensures from <= cur <= |buff| && buff[cur..] == SkipNewLines(buff[from..])
    ensures from < |buff| && NewLine(buff[from]) ==> from < cur
  {
    cur := from;
    while cur < |buff| && NewLine(buff[cur])
      invariant from <= cur <= |buff| && SkipNewLines(buff[cur..]) == SkipNewLines(buff[from..])
      invariant from < |buff| && NewLine(buff[from]) ==> cur == from || from < cur
    {
      SkipStep(buff[cur..]);
      assert buff[cur..][1..] == buff[cur + 1..];
      cur := cur + 1;
    }
    SkipStep(buff[cur..]);
  }

  /** One line is parsed into the tree, and the next one is found. */
  method ConfLine(plenty: bool, node: Node, buff: string, start: nat, fl: Floats, ghost top: Shape, ghost t: Tree)
    returns (ok: bool, start': nat, ghost top': Shape, ghost next: Option<Tree>)
    requires start < |buff| && IsRoot(node, top, t)
    modifies Refs(top)
    ensures start < start' <= |buff|
    ensures fresh(Refs(top') - Refs(top)) && Made(plenty, ok, node, top', next)
    ensures LoadFrom(t, buff[start..], fl) == if next.None? then None else LoadFrom(next.value, buff[start'..], fl)
  {
    hide *;
    assert allocated(Refs(top));
    var cur := LineEnd(buff, start);
    Slices(buff, start, cur);
    LineBreak(buff, start, cur);
    start' := NextLine(buff, cur);
    ok, top', next := true, top, Some(t);
    MadeIs(plenty, true, node, top, next);
    if cur > start {
      next := ParseLine(t, buff[start..cur], fl);
      label Before:
      ok, top' := ConfParseLine(plenty, node, buff[start..cur], fl, top, t);
      assert forall m: Node | m in Refs(top') && m !in Refs(top) :: fresh@Before(m);
    }
    LineLoads(t, buff[start..], buff[start..cur], buff[cur..], next, fl);
  }

  lemma Slices(buff: string, start: nat, cur: nat)
    requires start <= cur <= |buff|
    ensures buff[start..] == buff[start..cur] + buff[cur..]
  {
  }

  /** A text whose first line is known. */
  lemma LineLoads(root: Tree, text: string, line: string, rest: string, next: Option<Tree>, fl: Floats)
    requires text == line + rest && text != "" && LineLength(text) == |line|
    requires next == if line != "" then ParseLine(root, line, fl) else Some(root)
    ensures LoadFrom(root, text, fl) == if next.None? then None else LoadFrom(next.value, SkipNewLines(rest), fl)
  {
    hide *;
    LoadStep(root, text, fl);
    assert text[..|line|] == line && text[|line|..] == rest;
  }

  /** `configfile_conf_load_string`: line after line into a new map, given up at the first bad one. */
  method ConfLoadString(plenty: bool, buff: string, fl: Floats) returns (r: Node?, ghost all: Option<Shape>)
    ensures r != null ==> Load(buff, fl).Some? && all.Some?
    ensures r != null ==> IsRoot(r, all.value, Load(buff, fl).value) && fresh(Refs(all.value))
    ensures plenty && Load(buff, fl).Some? ==> r != null
  {
    hide *;
    var root := NewNode(plenty, MapKind);
    if root == null { return null, None; }
    ghost var top := Shape(root, []);
    LoneNode(root);
    ghost var t, next := Map([]), Some(Map([]));
    LoadIs(buff, fl);
    RootIs(root, top, t);
    var start: nat := 0;
    assert buff[0..] == buff;
    while start < |buff|
      invariant start <= |buff| && IsRoot(root, top, t) && fresh(Refs(top))
      invariant LoadFrom(t, buff[start..], fl) == Load(buff, fl)
      decreases |buff| - start
    {
      var ok;
      ghost var was := top;
      label Before:
      ok, start, top, next := ConfLine(plenty, root, buff, start, fl, top, t);
      assert forall m: Node | m in Refs(top) && m !in Refs(was) :: fresh@Before(m);
      MadeIs(plenty, ok, root, top, next);
      if !ok { return null, None; }
      t := next.value;
    }
    assert buff[start..] == "";
    LoadEnd(t, fl);
    return root, Some(top);
  }

  lemma LoadIs(buff: string, fl: Floats)
    ensures Load(buff, fl) == LoadFrom(Map([]), buff, fl)
  {
  }

  lemma LineBreak(buff: string, start: nat, cur: nat)
    requires start <= cur <= |buff| && cur - start == LineLength(buff[start..]) && start < |buff|
    ensures cur == start ==> NewLine(buff[cur])
  {
    assert buff[start..][0] == buff[start];
  }

  // ------------------------------------------------------------- writing

  /** The output buffer, doubled when it is full, with a terminator behind the text. */
  class Output {
    var data: array<char>
    var pos: nat

    ghost predicate Valid()
      reads this, data
    {
      pos < data.Length && data[pos] == '\0'
    }

    ghost function Written(): string
      requires Valid()
      reads this, data
    {
      data[..pos]
    }

    constructor ()
      ensures Valid() && Written() == "" && fresh(data)
    {
      data := new char[1024];
      pos := 0;
      new;
      data[0] := '\0';
    }

    /** `conf_append_string`. */
    method Append(plenty: bool, str: string) returns (ok: bool)
      requires Valid()
      modifies this, data
      ensures Valid() && (ok ==> Written() == old(Written()) + str) && (!ok ==> Written() == old(Written()))
      ensures data == old(data) || fresh(data)
      ensures plenty ==> ok
    {
      var needed := pos + |str| + 1;
      if needed > data.Length {
        var fails: bool := *;
        if fails && !plenty { return false; }
        Grow(needed);
      }
      Put(str);
      return true;
    }

    /** Text and terminator behind what is there. */
    method Put(str: string)
      requires pos + |str| < data.Length
      modifies this`pos, data
      ensures Valid() && Written() == old(data[..pos]) + str
    {
      for k := 0 to |str|
        invariant pos == old(pos)
        invariant forall j :: 0 <= j < pos ==> data[j] == old(data[j])
        invariant forall j :: pos <= j < pos + k ==> data[j] == str[j - pos]
      {
        data[pos + k] := str[k];
      }
      data[pos + |str|] := '\0';
      pos := pos + |str|;
    }

    /** Doubles the capacity until it suffices, and moves the text. */
    method Grow(needed: nat)
      requires Valid()
      modifies this`data
      ensures pos == old(pos) && fresh(data) && data.Length >= needed && pos < data.Length
      ensures data[..pos] == old(data[..pos])
    {
      var size := data.Length;
      while size < needed
        invariant 0 < size && size >= data.Length
        decreases needed - size
      {
        size := size * 2;
      }
      var bigger := new char[size];
      forall k | 0 <= k < pos { bigger[k] := data[k]; }
      data := bigger;
    }
  }

  /** A tree in memory with given contents. */
  ghost predicate InMemory(node: Node, sh: Shape, t: Tree)
    reads Refs(sh)
  {
    Whole(sh) && sh.node == node && TreeOf(sh) == t
  }

  lemma InMemoryIs(node: Node, sh: Shape, t: Tree)
    requires InMemory(node, sh, t)
    ensures Whole(sh) && sh.node == node && TreeOf(sh) == t && node in Refs(sh) && node.items == Heads(sh.kids)
    ensures |node.items| == |sh.kids| == |TreesOf(sh.kids)| == |EntriesOf(sh.kids)|
    ensures match node.kind
      case NullKind => t == Null
      case ValueKind => t == Leaf(node.value)
      case ArrayKind => t == Array(TreesOf(sh.kids))
      case MapKind => t == Map(EntriesOf(sh.kids))
  {
    hide TreesOf, EntriesOf, Refs;
    RootIn(sh);
  }

  lemma ChildInMemory(node: Node, sh: Shape, t: Tree, k: nat)
    requires InMemory(node, sh, t) && k < |sh.kids|
    ensures var c := sh.kids[k];
      node.items == Heads(sh.kids) && node.items[k] == c.node && c.node.parent == node && Refs(c) <= Refs(sh) &&
        c.node in Refs(c)
    ensures node.kind.ArrayKind? ==> |t.items| == |sh.kids| && InMemory(sh.kids[k].node, sh.kids[k], t.items[k])
    ensures node.kind.MapKind? ==> |t.entries| == |sh.kids| && InMemory(sh.kids[k].node, sh.kids[k], t.entries[k].tree)
    ensures node.kind.MapKind? ==> sh.kids[k].node.key == Some(t.entries[k].key)
    ensures node.kind.ArrayKind? ==> sh.kids[k].node.index == k
  {
    hide *;
    InMemoryIs(node, sh, t);
    ChildWhole(node, sh.kids, k);
    ChildFields(sh.kids[k], node, node.kind, k);
    RootIn(sh);
    RootIn(sh.kids[k]);
    TreeAt(sh.kids, k);
    EntryAt(sh.kids, k);
    KeyIs(sh.kids[k].node);
    IsInMemory(sh.kids[k]);
  }

  lemma IsInMemory(sh: Shape)
    requires Whole(sh)
    ensures InMemory(sh.node, sh, TreeOf(sh))
  {
  }

  /** `conf_save_node_recursive`: on success the lines of the tree have been appended. */
  method ConfSaveNode(plenty: bool, node: Node, prefix: string, fl: Floats, out: Output, ghost sh: Shape, ghost t: Tree)
    returns (ok: bool)
    requires out.Valid() && InMemory(node, sh, t)
    modifies out, out.data
    ensures out.Valid() && (out.data == old(out.data) || fresh(out.data))
    ensures ok ==> Save(t, prefix, fl).Some? && out.Written() == old(out.Written()) + Save(t, prefix, fl).value
    ensures plenty && Save(t, prefix, fl).Some? ==> ok
    decreases sh, 1
  {
    hide InMemory, TreesOf, EntriesOf, Whole, ValueText;
    InMemoryIs(node, sh, t);
    ghost var was := out.Written();
    if node.kind == ValueKind {
      ok := ConfSaveValue(plenty, node.value, prefix, fl, out);
    } else if node.kind == MapKind {
      if node.items == [] {
        assert was + "" == was;
        return prefix == "";
      }
      ok := ConfSaveEntries(plenty, node, prefix, fl, out, sh, t);
    } else if node.kind == ArrayKind {
      if node.items == [] { return false; }
      ok := ConfSaveItems(plenty, node, prefix, fl, out, sh, t);
    } else {
      return false;
    }
  }

  method ConfSaveValue(plenty: bool, value: Value, prefix: string, fl: Floats, out: Output) returns (ok: bool)
    requires out.Valid()
    modifies out, out.data
    ensures out.Valid() && (out.data == old(out.data) || fresh(out.data))
    ensures ok ==> Save(Leaf(value), prefix, fl).Some?
    ensures ok ==> out.Written() == old(out.Written()) + Save(Leaf(value), prefix, fl).value
    ensures plenty && Save(Leaf(value), prefix, fl).Some? ==> ok
  {
    hide *;
    ghost var was := out.Written();
    SaveLeaf(value, prefix, fl, was);
    var text := ValueText(value, fl);
    ok := out.Append(plenty, prefix);
    if !ok { return; }
    ok := out.Append(plenty, " = ");
    if !ok || text.None? { return false; }
    ok := out.Append(plenty, text.value);
    if !ok { return; }
    ok := out.Append(plenty, "\n");
  }

  lemma SaveLeaf(value: Value, prefix: string, fl: Floats, was: string)
    ensures Save(Leaf(value), prefix, fl).Some? <==> ValueText(value, fl).Some?
    ensures ValueText(value, fl).Some? ==>
      was + Save(Leaf(value), prefix, fl).value == was + prefix + " = " + ValueText(value, fl).value + "\n"
  {
    hide ValueText;
    var text := ValueText(value, fl);
    if text.Some? {
      assert was + prefix + " = " + text.value + "\n" == was + (prefix + " = " + (text.value + "\n"));
    }
  }

  lemma SaveEntriesStep(es: seq<Entry>, prefix: string, fl: Floats)
    requires es != []
    ensures SaveEntries(es, prefix, fl) == if !KeyOk(es[0].key, prefix == "") then None
      else Concat(Save(es[0].tree, Join(prefix, Key(es[0].key)), fl), SaveEntries(es[1..], prefix, fl))
  {
  }

  method ConfSaveEntries(plenty: bool, node: Node, prefix: string, fl: Floats, out: Output, ghost sh: Shape,
                         ghost t: Tree)
    returns (ok: bool)
    requires out.Valid() && InMemory(node, sh, t) && node.kind == MapKind && t.Map?
    modifies out, out.data
    ensures out.Valid() && (out.data == old(out.data) || fresh(out.data))
    ensures ok ==> SaveEntries(t.entries, prefix, fl).Some?
    ensures ok ==> out.Written() == old(out.Written()) + SaveEntries(t.entries, prefix, fl).value
    ensures plenty && SaveEntries(t.entries, prefix, fl).Some? ==> ok
    decreases sh, 0
  {
    hide Save, SaveEntries, KeyOk, InMemory, TreesOf, EntriesOf, Whole, Heads, Refs, Tidy, Holds, Join;
    ghost var es := t.entries;
    ghost var was, all, done := out.Written(), SaveEntries(es, prefix, fl), "";
    InMemoryIs(node, sh, t);
    assert es[0..] == es;
    assert was + done == was;
    ConcatNothing(all);
    assert allocated(Refs(sh));
    for k := 0 to |node.items|
      invariant out.Valid() && (out.data == old(out.data) || fresh(out.data))
      invariant InMemory(node, sh, t) && node.kind == MapKind && |node.items| == |es| == |sh.kids|
      invariant out.Written() == was + done
      invariant all == Concat(Some(done), SaveEntries(es[k..], prefix, fl))
    {
      var child := node.items[k];
      ghost var rest, c := es[k..], sh.kids[k];
      ChildInMemory(node, sh, t, k);
      SaveEntriesStep(rest, prefix, fl);
      assert rest[0] == es[k] && rest[1..] == es[k + 1..];
      if child.parent != node || child.key.None? { return false; }
      var key := child.key.value;
      if !KeyOk(key, prefix == "") { return false; }
      var fails: bool := *;
      if fails && !plenty { return false; }
      ok := ConfSaveNode(plenty, child, Join(prefix, Key(key)), fl, out, c, es[k].tree);
      if !ok { return false; }
      ghost var line := Save(es[k].tree, Join(prefix, Key(key)), fl).value;
      assert was + done + line == was + (done + line);
      ConcatAssoc(done, line, SaveEntries(es[k + 1..], prefix, fl));
      done := done + line;
    }
    SaveNothing(prefix, fl);
    assert es[|es|..] == [];
    assert done + "" == done;
    return true;
  }

  lemma ConcatAssoc(a: string, b: string, c: Option<string>)
    ensures Concat(Some(a), Concat(Some(b), c)) == Concat(Some(a + b), c)
  {
    if c.Some? { assert a + (b + c.value) == a + b + c.value; }
  }

  lemma ConcatNothing(c: Option<string>)
    ensures Concat(Some(""), c) == c
  {
    if c.Some? { assert "" + c.value == c.value; }
  }

  lemma SaveNothing(prefix: string, fl: Floats)
    ensures SaveEntries([], prefix, fl) == Some("")
    ensures forall n: nat :: SaveItems([], n, prefix, fl) == Some("")
  {
  }

  lemma SaveItemsStep(items: seq<Tree>, index: nat, prefix: string, fl: Floats)
    requires items != []
    ensures SaveItems(items, index, prefix, fl) == if index > SIZE_MAX / 2 then None
      else Concat(Save(items[0], Join(prefix, Index(index)), fl), SaveItems(items[1..], index + 1, prefix, fl))
  {
  }

  method ConfSaveItems(plenty: bool, node: Node, prefix: string, fl: Floats, out: Output, ghost sh: Shape,
                       ghost t: Tree)
    returns (ok: bool)
    requires out.Valid() && InMemory(node, sh, t) && node.kind == ArrayKind && t.Array?
    modifies out, out.data
    ensures out.Valid() && (out.data == old(out.data) || fresh(out.data))
    ensures ok ==> SaveItems(t.items, 0, prefix, fl).Some?
    ensures ok ==> out.Written() == old(out.Written()) + SaveItems(t.items, 0, prefix, fl).value
    ensures plenty && SaveItems(t.items, 0, prefix, fl).Some? ==> ok
    decreases sh, 0
  {
    hide Save, SaveItems, InMemory, TreesOf, EntriesOf, Whole, Heads, Refs;
    ghost var items := t.items;
    ghost var was, all, done := out.Written(), SaveItems(items, 0, prefix, fl), "";
    InMemoryIs(node, sh, t);
    assert items[0..] == items;
    assert was + done == was;
    ConcatNothing(all);
    assert allocated(Refs(sh));
    for k := 0 to |node.items|
      invariant out.Valid() && (out.data == old(out.data) || fresh(out.data))
      invariant InMemory(node, sh, t) && node.kind == ArrayKind && |node.items| == |items| == |sh.kids|
      invariant out.Written() == was + done
      invariant all == Concat(Some(done), SaveItems(items[k..], k, prefix, fl))
    {
      var child := node.items[k];
      ghost var rest, c := items[k..], sh.kids[k];
      ChildInMemory(node, sh, t, k);
      SaveItemsStep(rest, k, prefix, fl);
      assert rest[0] == items[k] && rest[1..] == items[k + 1..];
      if child.parent != node { return false; }
      if child.index < 0 || child.index > SIZE_MAX / 2 { return false; }
      var fails: bool := *;
      if fails && !plenty { return false; }
      ok := ConfSaveNode(plenty, child, Join(prefix, Index(child.index)), fl, out, c, items[k]);
      if !ok { return false; }
      ghost var line := Save(items[k], Join(prefix, Index(k)), fl).value;
      assert was + done + line == was + (done + line);
      ConcatAssoc(done, line, SaveItems(items[k + 1..], k + 1, prefix, fl));
      done := done + line;
    }
    SaveNothing(prefix, fl);
    assert items[|items|..] == [];
    assert done + "" == done;
    return true;
  }

  /** `configfile_conf_save_string`. */
  method ConfSaveString(plenty: bool, node: Node, fl: Floats, ghost sh: Shape, ghost t: Tree)
    returns (r: Option<string>)
    requires InMemory(node, sh, t)
    ensures r.Some? ==> r == SaveString(t, fl)
    ensures plenty ==> r == SaveString(t, fl)
  {
    hide Save, InMemory, TreesOf, EntriesOf, Whole;
    InMemoryIs(node, sh, t);
    if node.kind != MapKind { return None; }
    var fails: bool := *;
    if fails && !plenty { return None; }
    assert allocated(Refs(sh));
    var out := new Output();
    var ok := ConfSaveNode(plenty, node, "", fl, out, sh, t);
    if !ok { return None; }
    assert "" + Save(t, "", fl).value == Save(t, "", fl).value;
    return Some(out.data[..out.pos]);
  }
}
