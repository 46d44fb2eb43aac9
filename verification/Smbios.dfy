/** The walk over the SMBIOS table (`embloader/src/smbios/base.c`). Addresses are offsets into the table. */
module Smbios {
  import opened Wrappers

  type Byte = b: nat | b < 256

  type Table = seq<Byte>

  const HEADER: nat := 4
  const END_OF_TABLE: Byte := 127
  const NO_HANDLE: nat := 0xFFFF

  // ------------------------------------------------------------- the form of a table

  /** A structure: its type and handle, the formatted bytes behind the header, and its strings. */
  datatype Record = Record(kind: Byte, handle: nat, formatted: seq<Byte>, strings: seq<seq<Byte>>)

  predicate NoNul(s: seq<Byte>) {
    forall k :: 0 <= k < |s| ==> s[k] != 0
  }

  predicate Plain(strings: seq<seq<Byte>>) {
    forall k :: 0 <= k < |strings| ==> strings[k] != [] && NoNul(strings[k])
  }

  predicate ValidRecord(r: Record) {
    r.handle < 0x1_0000 && HEADER + |r.formatted| < 256 && Plain(r.strings)
  }

  /** Terminated strings one behind the other. */
  function Strung(strings: seq<seq<Byte>>): Table {
    if strings == [] then [] else strings[0] + [0] + Strung(strings[1..])
  }

  /** The string set by section 6.1.3 of DSP0134: the strings and one more NUL, or two NULs for none. */
  function StringSet(strings: seq<seq<Byte>>): Table {
    if strings == [] then [0, 0] else Strung(strings) + [0]
  }

  function Header(r: Record): (h: Table)
    requires ValidRecord(r)
    ensures |h| == HEADER
  {
    [r.kind, HEADER + |r.formatted|, r.handle % 256, r.handle / 256]
  }

  /** A structure by section 6.1.2 of DSP0134. */
  function Render(r: Record): Table
    requires ValidRecord(r)
  {
    Header(r) + r.formatted + StringSet(r.strings)
  }

  predicate ValidTable(rs: seq<Record>) {
    forall k :: 0 <= k < |rs| ==> ValidRecord(rs[k])
  }

  function RenderAll(rs: seq<Record>): Table
    requires ValidTable(rs)
  {
    if rs == [] then [] else Render(rs[0]) + RenderAll(rs[1..])
  }

  // ------------------------------------------------------------- one structure

  /** The first place at or behind `from` with two NULs in a row. */
  function DoubleNul(t: Table, from: nat): (r: Option<nat>)
    ensures r.Some? ==> from <= r.value < |t| - 1
    decreases |t| - from
  {
    if from + 1 >= |t| then None
    else if t[from] == 0 && t[from + 1] == 0 then Some(from)
    else DoubleNul(t, from + 1)
  }

  /** Where the structure at `a` ends, if one stands there completely. */
  function End(t: Table, a: nat): (r: Option<nat>)
    ensures r.Some? ==> a + HEADER < r.value <= |t|
  {
    if |t| < HEADER || a >= |t| || |t| - a < HEADER then None
    else if t[a + 1] < HEADER || t[a + 1] as int > |t| - a then None
    else
      match DoubleNul(t, a + t[a + 1])
      case None => None
      case Some(k) => Some(k + 2)
  }

  /** `memchr` for a NUL. */
  method FindNul(t: Table, from: nat, limit: nat) returns (r: Option<nat>)
    requires from <= limit <= |t|
    ensures r.Some? ==> from <= r.value < limit && t[r.value] == 0 && NoNul(t[from..r.value])
    ensures r.None? ==> NoNul(t[from..limit])
  {
    for k := from to limit
      invariant NoNul(t[from..k])
    {
      if t[k] == 0 { return Some(k); }
      assert t[from..k + 1] == t[from..k] + [t[k]];
    }
    return None;
  }

  /** Bytes that are not NUL do not matter. */
  lemma {:induction false} SkipText(t: Table, from: nat, to: nat)
    requires from <= to <= |t| && NoNul(t[from..to])
    ensures DoubleNul(t, from) == DoubleNul(t, to)
    decreases |t[from..to]|
  {
    if from < to {
      assert t[from] == t[from..to][0];
      assert t[from + 1..to] == t[from..to][1..];
      SkipText(t, from + 1, to);
      if from + 1 >= |t| { assert DoubleNul(t, to).None?; }
    }
  }

  /** `smbios_structure_end`: from string to string until an empty one. */
  method StructureEnd(t: Table, a: nat) returns (r: Option<nat>)
    ensures r == End(t, a)
  {
    if |t| < HEADER || a >= |t| || |t| - a < HEADER { return None; }
    var length: nat := t[a + 1];
    if length < HEADER || length > |t| - a { return None; }
    var str := a + length;
    while str < |t|
      invariant a + length <= str <= |t|
      invariant DoubleNul(t, a + length) == DoubleNul(t, str)
      decreases |t| - str
    {
      var nul := FindNul(t, str, |t|);
      if nul.None? {
        SkipText(t, str, |t|);
        return None;
      }
      SkipText(t, str, nul.value);
      if nul.value >= |t| - 1 { return None; }
      if t[nul.value + 1] == 0 { return Some(nul.value + 2); }
      str := nul.value + 1;
    }
    return None;
  }

  function Kind(t: Table, a: nat): Byte
    requires a < |t|
  {
    t[a]
  }

  function Handle(t: Table, a: nat): nat
    requires a + HEADER <= |t|
  {
    t[a + 2] + 256 * t[a + 3] as nat
  }

  // ------------------------------------------------------------- the walk

  /** The addresses of the structures of a table, by recursion: the walk stops behind the end-of-table
      structure, at the end of the table, and in front of anything that is not a complete structure. */
  function Records(t: Table, a: nat): (r: seq<nat>)
    ensures forall k :: 0 <= k < |r| ==> a <= r[k] && r[k] + HEADER < |t| && End(t, r[k]).Some?
    ensures forall i, j :: 0 <= i < j < |r| ==> r[i] < r[j]
    decreases |t| - a
  {
    match End(t, a)
    case None => []
    case Some(e) =>
      if Kind(t, a) == END_OF_TABLE || e >= |t| then [a]
      else
        var rest := Records(t, e);
        assert forall k :: 0 <= k < |[a] + rest| ==> ([a] + rest)[k] == if k == 0 then a else rest[k - 1];
        [a] + rest
  }

  /** `smbios_walk`: the next structure behind `p`, or the first one. */
  method Walk(t: Table, p: Option<nat>) returns (r: Option<nat>)
    ensures r == Next(t, p)
  {
    if |t| < HEADER { return None; }
    var raw := 0;
    if p.Some? {
      var next := StructureEnd(t, p.value);
      if next.None? { return None; }
      if Kind(t, p.value) == END_OF_TABLE || next.value >= |t| { return None; }
      raw := next.value;
    }
    var end := StructureEnd(t, raw);
    if end.None? { return None; }
    return Some(raw);
  }

  function Next(t: Table, p: Option<nat>): Option<nat> {
    if p.None? then if End(t, 0).Some? then Some(0) else None
    else
      var e := End(t, p.value);
      if e.None? || Kind(t, p.value) == END_OF_TABLE || e.value >= |t| then None
      else if End(t, e.value).Some? then e else None
  }

  /** Walking enumerates exactly the structures of the recursive parse, in order, and then stops. */
  lemma {:induction false} WalkEnumerates(t: Table, a: nat, k: nat)
    requires var rs := Records(t, a); k < |rs|
    ensures var rs := Records(t, a); Next(t, Some(rs[k])) == if k + 1 < |rs| then Some(rs[k + 1]) else None
    decreases |t| - a
  {
    hide End;
    var rs, e := Records(t, a), End(t, a).value;
    if Kind(t, a) != END_OF_TABLE && e < |t| {
      var rest := Records(t, e);
      if k > 0 {
        WalkEnumerates(t, e, k - 1);
        assert rs[k] == rest[k - 1];
      }
      RecordsHead(t, e);
    }
  }

  lemma RecordsHead(t: Table, a: nat)
    ensures End(t, a).Some? <==> Records(t, a) != []
    ensures Records(t, a) != [] ==> Records(t, a)[0] == a
  {
  }

  lemma WalkStarts(t: Table)
    ensures Next(t, None) == if Records(t, 0) == [] then None else Some(Records(t, 0)[0])
  {
    hide End;
    RecordsHead(t, 0);
  }

  /** The walk stays in the table, goes forward, and has nothing behind the end-of-table structure. */
  lemma WalkSafe(t: Table, k: nat)
    requires k < |Records(t, 0)|
    ensures var rs := Records(t, 0);
      rs[k] + HEADER < |t| && (k + 1 < |rs| ==> rs[k] < rs[k + 1] && Kind(t, rs[k]) != END_OF_TABLE)
  {
    hide End;
    WalkEnumerates(t, 0, k);
  }

  // ------------------------------------------------------------- reading what was written

  /** The bytes `piece` stand at an address. */
  ghost predicate At(t: Table, from: nat, piece: Table) {
    from + |piece| <= |t| && forall k :: 0 <= k < |piece| ==> t[from + k] == piece[k]
  }

  lemma AtSplit(t: Table, from: nat, a: Table, b: Table)
    requires At(t, from, a + b)
    ensures At(t, from, a) && At(t, from + |a|, b)
  {
    forall k | 0 <= k < |a| ensures t[from + k] == a[k] { assert (a + b)[k] == a[k]; }
    forall k | 0 <= k < |b| ensures t[from + |a| + k] == b[k] {
      assert t[from + (|a| + k)] == (a + b)[|a| + k] == b[k];
    }
  }

  lemma AtSlice(t: Table, from: nat, piece: Table)
    requires At(t, from, piece)
    ensures t[from..from + |piece|] == piece
  {
  }

  lemma AtNul(t: Table, from: nat)
    requires At(t, from, [0])
    ensures from < |t| && t[from] == 0
  {
    assert t[from + 0] == [0][0];
  }

  lemma StrungFirst(strings: seq<seq<Byte>>)
    requires Plain(strings) && strings != []
    ensures Strung(strings) == strings[0] + ([0] + Strung(strings[1..])) && Plain(strings[1..])
    ensures Strung(strings) != [] && Strung(strings)[0] != 0
  {
    assert strings[0] + [0] + Strung(strings[1..]) == strings[0] + ([0] + Strung(strings[1..]));
  }

  /** A string at an address, its terminator, and what is behind them. */
  lemma TextAt(t: Table, from: nat, s: seq<Byte>, rest: Table)
    requires At(t, from, s + ([0] + rest)) && NoNul(s)
    ensures var n := from + |s|; n < |t| && t[from..n] == s && t[n] == 0 && At(t, n + 1, rest)
    ensures DoubleNul(t, from) == DoubleNul(t, from + |s|)
  {
    AtSplit(t, from, s, [0] + rest);
    AtSlice(t, from, s);
    AtSplit(t, from + |s|, [0], rest);
    AtNul(t, from + |s|);
    SkipText(t, from, from + |s|);
  }

  lemma {:induction false} StrungEnds(t: Table, from: nat, strings: seq<seq<Byte>>)
    requires Plain(strings) && strings != [] && At(t, from, Strung(strings) + [0])
    ensures DoubleNul(t, from) == Some(from + |Strung(strings)| - 1)
    decreases |strings|
  {
    hide Strung, At, Plain;
    var s, rest := strings[0], Strung(strings[1..]);
    StrungFirst(strings);
    assert s + ([0] + rest) + [0] == s + ([0] + (rest + [0]));
    FirstPlain(strings);
    TextAt(t, from, s, rest + [0]);
    var n := from + |s|;
    if |strings| > 1 {
      StrungFirst(strings[1..]);
      HeadAt(t, n + 1, rest, [0]);
      StrungEnds(t, n + 1, strings[1..]);
    } else {
      NoneStrung();
      assert strings[1..] == [];
      assert rest + [0] == [0];
      AtNul(t, n + 1);
    }
  }

  lemma FirstPlain(strings: seq<seq<Byte>>)
    requires Plain(strings) && strings != []
    ensures strings[0] != [] && NoNul(strings[0])
  {
  }

  lemma NoneStrung()
    ensures Strung([]) == []
  {
  }

  lemma HeadAt(t: Table, from: nat, a: Table, b: Table)
    requires At(t, from, a + b) && a != []
    ensures from < |t| && t[from] == a[0]
  {
    assert t[from + 0] == (a + b)[0];
  }

  lemma StringSetEnds(t: Table, from: nat, strings: seq<seq<Byte>>)
    requires Plain(strings) && At(t, from, StringSet(strings))
    ensures |StringSet(strings)| >= 2 && DoubleNul(t, from) == Some(from + |StringSet(strings)| - 2)
  {
    hide At, Strung, Plain;
    if strings == [] {
      assert [0, 0] == [0] + [0];
      AtSplit(t, from, [0], [0]);
      AtNul(t, from);
      AtNul(t, from + 1);
    } else {
      StrungFirst(strings);
      StrungEnds(t, from, strings);
    }
  }

  /** Wherever a structure stands as the standard writes it, its end, type, handle and strings are found. */
  lemma RenderedEnd(t: Table, a: nat, r: Record)
    requires ValidRecord(r) && At(t, a, Render(r))
    ensures End(t, a) == Some(a + |Render(r)|) && Kind(t, a) == r.kind && Handle(t, a) == r.handle
    ensures Strings(t, a + t[a + 1]) == r.strings
  {
    hide DoubleNul, StringSet, Strings, At;
    var h, ss := Header(r), StringSet(r.strings);
    AtSplit(t, a, h + r.formatted, ss);
    AtSplit(t, a, h, r.formatted);
    HeaderAt(t, a, r);
    StringSetEnds(t, a + HEADER + |r.formatted|, r.strings);
    StringsRead(t, a + HEADER + |r.formatted|, r.strings);
  }

  lemma HeaderAt(t: Table, a: nat, r: Record)
    requires ValidRecord(r) && At(t, a, Header(r))
    ensures a + HEADER <= |t| && t[a] == r.kind && t[a + 1] == HEADER + |r.formatted|
    ensures Handle(t, a) == r.handle
  {
    var h := Header(r);
    assert t[a + 0] == h[0] && t[a + 1] == h[1] && t[a + 2] == h[2] && t[a + 3] == h[3];
  }

  /** The addresses at which the structures of a written table stand. */
  function Starts(rs: seq<Record>, a: nat): (r: seq<nat>)
    requires ValidTable(rs)
    ensures |r| == |rs|
  {
    if rs == [] then [] else [a] + Starts(rs[1..], a + |Render(rs[0])|)
  }

  /** The type, the handle and the strings found at an address are those of a structure. */
  ghost predicate Reads(t: Table, a: nat, r: Record) {
    a + HEADER <= |t| && Kind(t, a) == r.kind && Handle(t, a) == r.handle && Strings(t, a + t[a + 1]) == r.strings
  }

  /** Each structure is read where it stands in the written table. */
  ghost predicate ReadsAll(t: Table, a: nat, rs: seq<Record>)
    requires ValidTable(rs)
  {
    forall k :: 0 <= k < |rs| ==> Reads(t, Starts(rs, a)[k], rs[k])
  }

  /** An end-of-table structure stands in the last place or not at all. */
  predicate EndsOnce(rs: seq<Record>) {
    forall k :: 0 <= k < |rs| - 1 ==> rs[k].kind != END_OF_TABLE
  }

  predicate HasEnd(rs: seq<Record>) {
    rs != [] && rs[|rs| - 1].kind == END_OF_TABLE
  }

  /** A table written structure by structure, with an end-of-table structure at most in the last place, is
      parsed into exactly those structures. Behind an end-of-table structure there may be anything. */
  lemma {:induction false} ParsesRendered(t: Table, a: nat, rs: seq<Record>)
    requires ValidTable(rs) && EndsOnce(rs) && At(t, a, RenderAll(rs))
    requires a + |RenderAll(rs)| == |t| || HasEnd(rs)
    ensures Records(t, a) == Starts(rs, a) && ReadsAll(t, a, rs)
    decreases |rs|
  {
    hide *;
    RenderAllStep(rs);
    EndStep(rs);
    if rs == [] {
      NoRecords(t, a);
    } else {
      AtSplit(t, a, Render(rs[0]), RenderAll(rs[1..]));
      RenderedEnd(t, a, rs[0]);
      IsReads(t, a, rs[0]);
      RecordsStep(t, a);
      if |rs| == 1 {
        NoneRead(t, a + |Render(rs[0])|, rs[1..]);
      } else {
        ParsesRendered(t, a + |Render(rs[0])|, rs[1..]);
      }
      StartsStep(t, a, rs);
    }
  }

  lemma EndStep(rs: seq<Record>)
    requires EndsOnce(rs)
    ensures rs == [] ==> !HasEnd(rs)
    ensures rs != [] ==> EndsOnce(rs[1..])
    ensures |rs| == 1 ==> HasEnd(rs) == (rs[0].kind == END_OF_TABLE)
    ensures |rs| > 1 ==> rs[0].kind != END_OF_TABLE && HasEnd(rs[1..]) == HasEnd(rs)
  {
  }

  lemma NoneRead(t: Table, a: nat, rs: seq<Record>)
    requires rs == []
    ensures Starts(rs, a) == [] && RenderAll(rs) == [] && ReadsAll(t, a, rs)
  {
  }

  lemma RenderAllStep(rs: seq<Record>)
    requires ValidTable(rs)
    ensures RenderAll(rs) == if rs == [] then [] else Render(rs[0]) + RenderAll(rs[1..])
    ensures rs != [] ==> ValidRecord(rs[0]) && ValidTable(rs[1..])
    ensures |rs| > 1 ==> |RenderAll(rs[1..])| > 0
  {
  }

  lemma RecordsStep(t: Table, a: nat)
    ensures End(t, a).Some? ==> a < |t|
    ensures End(t, a).Some? && (Kind(t, a) == END_OF_TABLE || End(t, a).value >= |t|) ==> Records(t, a) == [a]
    ensures End(t, a).Some? && !(Kind(t, a) == END_OF_TABLE || End(t, a).value >= |t|) ==>
      Records(t, a) == [a] + Records(t, End(t, a).value)
  {
    hide End;
  }

  lemma IsReads(t: Table, a: nat, r: Record)
    requires a + HEADER <= |t| && Kind(t, a) == r.kind && Handle(t, a) == r.handle
    requires Strings(t, a + t[a + 1]) == r.strings
    ensures Reads(t, a, r)
  {
  }

  lemma StartsStep(t: Table, a: nat, rs: seq<Record>)
    requires ValidTable(rs) && rs != []
    requires Reads(t, a, rs[0]) && ReadsAll(t, a + |Render(rs[0])|, rs[1..])
    ensures Starts(rs, a) == [a] + Starts(rs[1..], a + |Render(rs[0])|) && ReadsAll(t, a, rs)
  {
    hide Reads, Render;
    var next := Starts(rs[1..], a + |Render(rs[0])|);
    assert forall k :: 0 < k < |rs| ==> Starts(rs, a)[k] == next[k - 1] && rs[k] == rs[1..][k - 1];
  }

  lemma NoRecords(t: Table, a: nat)
    ensures Starts([], a) == [] && ReadsAll(t, a, []) && (a >= |t| ==> End(t, a).None? && Records(t, a) == [])
  {
  }

  // ------------------------------------------------------------- strings

  function FirstNul(t: Table, from: nat): (r: nat)
    requires from <= |t|
    ensures from <= r <= |t| && NoNul(t[from..r]) && (r < |t| ==> t[r] == 0)
    decreases |t| - from
  {
    if from == |t| || t[from] == 0 then from
    else
      var r := FirstNul(t, from + 1);
      assert t[from..r] == [t[from]] + t[from + 1..r];
      r
  }

  /** The strings at an address, up to the first empty one. */
  function Strings(t: Table, from: nat): seq<seq<Byte>>
    decreases |t| - from
  {
    if from >= |t| || t[from] == 0 then []
    else
      var nul := FirstNul(t, from);
      [t[from..nul]] + if nul < |t| then Strings(t, nul + 1) else []
  }

  lemma FirstNulIs(t: Table, from: nat, nul: nat)
    requires from <= nul < |t| && NoNul(t[from..nul]) && t[nul] == 0
    ensures FirstNul(t, from) == nul
    decreases |t[from..nul]|
  {
    if from < nul {
      assert t[from] == t[from..nul][0];
      assert t[from + 1..nul] == t[from..nul][1..];
      FirstNulIs(t, from + 1, nul);
    }
  }

  /** A text that is not empty is the first string where it stands. */
  lemma StringFirst(t: Table, from: nat, s: seq<Byte>, rest: Table)
    requires s != [] && NoNul(s) && At(t, from, s + ([0] + rest))
    ensures var next := from + |s| + 1; At(t, next, rest) && Strings(t, from) == [s] + Strings(t, next)
  {
    hide At, Strings, FirstNul, NoNul;
    var nul := from + |s|;
    HeadAt(t, from, s, [0] + rest);
    FirstThere(s);
    TextAt(t, from, s, rest);
    FirstNulIs(t, from, nul);
    StringsStep(t, from);
  }

  lemma FirstThere(s: seq<Byte>)
    requires s != [] && NoNul(s)
    ensures s[0] != 0
  {
  }

  lemma StringSetFirst(strings: seq<seq<Byte>>)
    requires Plain(strings) && strings != []
    ensures strings[0] != [] && NoNul(strings[0]) && Plain(strings[1..])
    ensures StringSet(strings) == strings[0] + ([0] + (Strung(strings[1..]) + [0]))
    ensures |strings| > 1 ==> StringSet(strings[1..]) == Strung(strings[1..]) + [0]
    ensures |strings| == 1 ==> Strung(strings[1..]) + [0] == [0] && strings[1..] == []
  {
    hide Strung;
    var s, rest := strings[0], Strung(strings[1..]);
    StrungFirst(strings);
    assert s + ([0] + rest) + [0] == s + ([0] + (rest + [0]));
    if |strings| == 1 {
      NoneStrung();
      assert strings[1..] == [];
    }
  }

  lemma {:induction false} StringsRead(t: Table, from: nat, strings: seq<seq<Byte>>)
    requires Plain(strings) && At(t, from, StringSet(strings))
    ensures Strings(t, from) == strings
    decreases |strings|
  {
    hide *;
    if strings == [] {
      NoStrings();
      AtSplit(t, from, [0], [0]);
      NoStringAt(t, from);
    } else {
      StringSetFirst(strings);
      StringFirst(t, from, strings[0], Strung(strings[1..]) + [0]);
      var next := from + |strings[0]| + 1;
      if |strings| == 1 { NoStringAt(t, next); } else { StringsRead(t, next, strings[1..]); }
      assert [strings[0]] + strings[1..] == strings;
    }
  }

  lemma NoStrings()
    ensures StringSet([]) == [0] + [0]
  {
  }

  lemma NoStringAt(t: Table, from: nat)
    requires At(t, from, [0])
    ensures Strings(t, from) == []
  {
    hide At;
    AtNul(t, from);
  }

  /** `embloader_get_smbios_string`: string number `id` of the structure at `a`, counted from one. */
  method GetString(t: Table, a: nat, id: nat) returns (r: Option<seq<Byte>>)
    ensures r == if id == 0 || End(t, a).None? || Kind(t, a) == END_OF_TABLE then None
      else var ss := Strings(t, a + t[a + 1]); if id <= |ss| then Some(ss[id - 1]) else None
  {
    hide *;
    if id == 0 { return None; }
    var end := StructureEnd(t, a);
    if end.None? || Kind(t, a) == END_OF_TABLE { return None; }
    EndIs(t, a);
    var str, cur := a + t[a + 1] as nat, 1;
    ghost var ss := Strings(t, str);
    while str < end.value && t[str] != 0
      invariant a + t[a + 1] as nat <= str < end.value <= |t| && 1 <= cur <= id
      invariant cur - 1 <= |ss| && Strings(t, str) == ss[cur - 1..]
      invariant DoubleNul(t, str) == Some(end.value - 2) || str == end.value - 1
      decreases end.value - str
    {
      StringsStep(t, str);
      var nul := FindNul(t, str, end.value);
      NulBefore(t, str, end.value - 2, nul);
      FirstNulIs(t, str, nul.value);
      SkipText(t, str, nul.value);
      if cur == id { return Some(t[str..nul.value]); }
      DoubleNulStep(t, nul.value);
      assert ss[cur - 1..][1..] == ss[cur..];
      str := nul.value + 1;
      cur := cur + 1;
    }
    StringsStep(t, str);
    return None;
  }

  /** A search that passes a NUL finds one there or before. */
  lemma NulBefore(t: Table, from: nat, k: nat, r: Option<nat>)
    requires from <= k && k + 2 <= |t| && t[k] == 0
    requires r.Some? ==> from <= r.value < k + 2 && NoNul(t[from..r.value])
    requires r.None? ==> NoNul(t[from..k + 2])
    ensures r.Some? && r.value <= k
  {
    HasNul(t, from, k + 2, k);
    if r.Some? { HasNul(t, from, r.value, k); }
  }

  lemma HasNul(t: Table, from: nat, to: nat, k: nat)
    requires from <= to <= |t| && k < |t| && t[k] == 0
    ensures from <= k < to ==> !NoNul(t[from..to])
  {
    if from <= k < to { assert t[from..to][k - from] == t[k]; }
  }

  lemma EndIs(t: Table, a: nat)
    requires End(t, a).Some?
    ensures var from := a + t[a + 1] as nat; var e := End(t, a).value;
      a + HEADER <= from < e <= |t| && DoubleNul(t, from) == Some(e - 2) && t[e - 2] == 0 && t[e - 1] == 0
  {
    NulThere(t, a + t[a + 1] as nat);
  }

  lemma {:induction false} NulThere(t: Table, from: nat)
    requires DoubleNul(t, from).Some?
    ensures var k := DoubleNul(t, from).value; t[k] == 0 && t[k + 1] == 0
    decreases |t| - from
  {
    if !(t[from] == 0 && t[from + 1] == 0) { NulThere(t, from + 1); }
  }

  lemma DoubleNulStep(t: Table, k: nat)
    requires k < |t|
    ensures DoubleNul(t, k).Some? && DoubleNul(t, k).value > k ==> DoubleNul(t, k + 1) == DoubleNul(t, k)
  {
  }

  lemma StringsStep(t: Table, from: nat)
    requires from <= |t|
    ensures from < |t| && t[from] != 0 ==> var nul := FirstNul(t, from);
      Strings(t, from) == [t[from..nul]] + if nul < |t| then Strings(t, nul + 1) else []
    ensures from == |t| || t[from] == 0 ==> Strings(t, from) == []
  {
  }

  // ------------------------------------------------------------- one type of structure

  /** The first structure at or behind number `k` that has a type. */
  function OfType(t: Table, rs: seq<nat>, kind: Byte, k: nat): (r: Option<nat>)
    requires InTable(t, rs)
    ensures match r
      case Some(n) => k <= n < |rs| && Kind(t, rs[n]) == kind && forall j :: k <= j < n ==> Kind(t, rs[j]) != kind
      case None => forall j :: k <= j < |rs| ==> Kind(t, rs[j]) != kind
    decreases |rs| - k
  {
    if k >= |rs| then None
    else if Kind(t, rs[k]) == kind then Some(k)
    else OfType(t, rs, kind, k + 1)
  }

  /** The first structure at or behind number `k` that has a handle. */
  function OfHandle(t: Table, rs: seq<nat>, handle: nat, k: nat): (r: Option<nat>)
    requires InTable(t, rs)
    ensures match r
      case Some(n) => k <= n < |rs| && Handle(t, rs[n]) == handle &&
        forall j :: k <= j < n ==> Handle(t, rs[j]) != handle
      case None => forall j :: k <= j < |rs| ==> Handle(t, rs[j]) != handle
    decreases |rs| - k
  {
    if k >= |rs| then None
    else if Handle(t, rs[k]) == handle then Some(k)
    else OfHandle(t, rs, handle, k + 1)
  }

  predicate InTable(t: Table, rs: seq<nat>) {
    forall k :: 0 <= k < |rs| ==> rs[k] + HEADER <= |t|
  }

  /** The structure of a type behind the first one with a handle, or the first of the type for 0xFFFF. */
  function ByType(t: Table, rs: seq<nat>, kind: Byte, handle: nat): (r: Option<nat>)
    requires InTable(t, rs)
    ensures r.Some? ==> r.value < |rs| && Kind(t, rs[r.value]) == kind
  {
    if handle == NO_HANDLE then OfType(t, rs, kind, 0)
    else
      match OfHandle(t, rs, handle, 0)
      case None => None
      case Some(h) => OfType(t, rs, kind, h + 1)
  }

  /** Structure number `n` is the first of its type behind structure number `h`, or from the start. */
  predicate NextOf(t: Table, rs: seq<nat>, kind: Byte, from: nat, n: nat)
    requires InTable(t, rs)
  {
    from <= n < |rs| && t[rs[n]] == kind && forall j :: from <= j < n ==> t[rs[j]] != kind
  }

  /** The handle of a structure stands behind its type and length, low byte first. */
  predicate HandleAt(t: Table, rs: seq<nat>, h: nat, handle: nat)
    requires InTable(t, rs) && h < |rs|
  {
    t[rs[h] + 2] as nat + 0x100 * t[rs[h] + 3] as nat == handle
  }

  predicate FirstHandle(t: Table, rs: seq<nat>, h: nat, handle: nat)
    requires InTable(t, rs)
  {
    h < |rs| && HandleAt(t, rs, h, handle) && forall g :: 0 <= g < h ==> !HandleAt(t, rs, g, handle)
  }

  lemma OfHandleIs(t: Table, rs: seq<nat>, handle: nat, h: nat)
    requires InTable(t, rs)
    ensures OfHandle(t, rs, handle, 0) == Some(h) <==> FirstHandle(t, rs, h, handle)
  {
    hide OfHandle;
    var r := OfHandle(t, rs, handle, 0);
    forall g | 0 <= g < |rs| ensures HandleAt(t, rs, g, handle) <==> Handle(t, rs[g]) == handle {}
    if r.Some? && h < |rs| && r.value != h { assert HandleAt(t, rs, r.value, handle); }
  }

  lemma OfTypeIs(t: Table, rs: seq<nat>, kind: Byte, from: nat, n: nat)
    requires InTable(t, rs)
    ensures OfType(t, rs, kind, from) == Some(n) <==> NextOf(t, rs, kind, from, n)
  {
    hide OfType;
    var r := OfType(t, rs, kind, from);
  }

  /** The structure found is the first of the type behind the first structure with the handle, or the first of
      the type at all for the handle 0xFFFF. */
  lemma ByTypeExactly(t: Table, rs: seq<nat>, kind: Byte, handle: nat, n: nat)
    requires InTable(t, rs)
    ensures handle == 0xFFFF ==> (ByType(t, rs, kind, handle) == Some(n) <==> NextOf(t, rs, kind, 0, n))
    ensures handle != 0xFFFF ==>
      (ByType(t, rs, kind, handle) == Some(n) <==>
        exists h: nat :: FirstHandle(t, rs, h, handle) && NextOf(t, rs, kind, h + 1, n))
  {
    hide OfType, OfHandle, FirstHandle, NextOf;
    OfTypeIs(t, rs, kind, 0, n);
    forall h: nat
      ensures OfHandle(t, rs, handle, 0) == Some(h) <==> FirstHandle(t, rs, h, handle)
      ensures OfType(t, rs, kind, h + 1) == Some(n) <==> NextOf(t, rs, kind, h + 1, n)
    {
      OfHandleIs(t, rs, handle, h);
      OfTypeIs(t, rs, kind, h + 1, n);
    }
  }

  /** `embloader_get_smbios_by_type`. */
  method GetByType(t: Table, kind: Byte, handle: nat) returns (r: Option<nat>)
    ensures var rs := Records(t, 0); var k := ByType(t, rs, kind, handle);
      r == if k.None? then None else Some(rs[k.value])
  {
    hide Records, End;
    ghost var rs, k := Records(t, 0), 0;
    assert InTable(t, rs) by { RecordsIn(t); }
    var past := handle == NO_HANDLE;
    WalkStarts(t);
    var p := Walk(t, None);
    while p.Some?
      invariant 0 <= k <= |rs| && p == if k < |rs| then Some(rs[k]) else None
      invariant !past ==> handle != NO_HANDLE && OfHandle(t, rs, handle, 0) == OfHandle(t, rs, handle, k)
      invariant past ==> ByType(t, rs, kind, handle) == OfType(t, rs, kind, k)
      decreases |rs| - k
    {
      WalkEnumerates(t, 0, k);
      if !past {
        if Handle(t, p.value) == handle { past := true; }
      } else if Kind(t, p.value) == kind {
        return p;
      }
      p := Walk(t, p);
      k := k + 1;
    }
    return None;
  }

  lemma RecordsIn(t: Table)
    ensures InTable(t, Records(t, 0))
  {
  }

  // ------------------------------------------------------------- the load loop

  /** The structures the load loop visits in its first `n` rounds; each round searches again from the
      handle of the structure before. `None` once a round found nothing. */
  function Visit(t: Table, rs: seq<nat>, kind: Byte, n: nat): (r: Option<nat>)
    requires InTable(t, rs)
    ensures r.Some? ==> r.value < |rs| && Kind(t, rs[r.value]) == kind
  {
    if n == 0 then ByType(t, rs, kind, NO_HANDLE)
    else
      match Visit(t, rs, kind, n - 1)
      case None => None
      case Some(k) => ByType(t, rs, kind, Handle(t, rs[k]))
  }

  /** The handle of a structure leads back to it: it is not 0xFFFF and no earlier structure has it. */
  predicate Leads(t: Table, rs: seq<nat>, k: nat)
    requires InTable(t, rs) && k < |rs|
  {
    Handle(t, rs[k]) != NO_HANDLE && forall j :: 0 <= j < k ==> Handle(t, rs[j]) != Handle(t, rs[k])
  }

  predicate AllLead(t: Table, rs: seq<nat>, kind: Byte)
    requires InTable(t, rs)
  {
    forall k :: 0 <= k < |rs| && Kind(t, rs[k]) == kind ==> Leads(t, rs, k)
  }

  /** The structures of a type, in the order of the table. */
  function Chosen(t: Table, rs: seq<nat>, kind: Byte, k: nat): seq<nat>
    requires InTable(t, rs)
    decreases |rs| - k
  {
    if k >= |rs| then [] else (if Kind(t, rs[k]) == kind then [k] else []) + Chosen(t, rs, kind, k + 1)
  }

  lemma LeadsNext(t: Table, rs: seq<nat>, kind: Byte, k: nat)
    requires InTable(t, rs) && k < |rs| && Leads(t, rs, k)
    ensures ByType(t, rs, kind, Handle(t, rs[k])) == OfType(t, rs, kind, k + 1)
  {
    var h := OfHandle(t, rs, Handle(t, rs[k]), 0);
  }

  lemma {:induction false} ChosenFirst(t: Table, rs: seq<nat>, kind: Byte, k: nat)
    requires InTable(t, rs)
    ensures Chosen(t, rs, kind, k) == match OfType(t, rs, kind, k)
      case None => []
      case Some(n) => [n] + Chosen(t, rs, kind, n + 1)
    decreases |rs| - k
  {
    hide *;
    OneStep(t, rs, kind, k);
    if k < |rs| && !(OfType(t, rs, kind, k) == Some(k)) {
      ChosenFirst(t, rs, kind, k + 1);
    }
  }

  lemma OneStep(t: Table, rs: seq<nat>, kind: Byte, k: nat)
    requires InTable(t, rs)
    ensures k >= |rs| ==> OfType(t, rs, kind, k).None? && Chosen(t, rs, kind, k) == []
    ensures k < |rs| && OfType(t, rs, kind, k) == Some(k) ==>
      Chosen(t, rs, kind, k) == [k] + Chosen(t, rs, kind, k + 1)
    ensures k < |rs| && OfType(t, rs, kind, k) != Some(k) ==>
      OfType(t, rs, kind, k) == OfType(t, rs, kind, k + 1) && Chosen(t, rs, kind, k) == Chosen(t, rs, kind, k + 1)
  {
  }

  /** `embloader_smbios_load_table`, as far as it chooses structures: where every structure of the type
      leads back to itself, each is loaded exactly once and in the order of the table. */
  method LoadTable(t: Table, kind: Byte) returns (loaded: seq<nat>)
    requires Loadable(t, kind)
    ensures loaded == Addresses(Records(t, 0), Chosen(t, Records(t, 0), kind, 0))
  {
    hide Records, End, ByType, Leads, OfType, Chosen, Addresses, Handle, Kind;
    ghost var rs := Records(t, 0);
    ghost var k := 0;
    var handle := NO_HANDLE;
    loaded := [];
    ByTypeStart(t, rs, kind);
    while true
      invariant 0 <= k <= |rs|
      invariant ByType(t, rs, kind, handle) == OfType(t, rs, kind, k)
      invariant loaded + Addresses(rs, Chosen(t, rs, kind, k)) == Addresses(rs, Chosen(t, rs, kind, 0))
      decreases |rs| - k
    {
      var ptr := GetByType(t, kind, handle);
      ChosenFirst(t, rs, kind, k);
      if ptr.None? {
        NoAddresses(loaded, rs);
        return loaded;
      }
      ghost var n := OfType(t, rs, kind, k).value;
      AddressesCons(loaded, rs, n, Chosen(t, rs, kind, n + 1));
      loaded := loaded + [ptr.value];
      LeadsNext(t, rs, kind, n);
      handle := Handle(t, ptr.value);
      k := n + 1;
    }
  }

  predicate Loadable(t: Table, kind: Byte) {
    InTable(t, Records(t, 0)) && AllLead(t, Records(t, 0), kind)
  }

  lemma NoAddresses(done: seq<nat>, rs: seq<nat>)
    ensures done + Addresses(rs, []) == done
  {
  }

  lemma ByTypeStart(t: Table, rs: seq<nat>, kind: Byte)
    requires InTable(t, rs)
    ensures ByType(t, rs, kind, NO_HANDLE) == OfType(t, rs, kind, 0)
  {
  }

  function Addresses(rs: seq<nat>, ks: seq<nat>): seq<nat> {
    if ks == [] then [] else [if ks[0] < |rs| then rs[ks[0]] else 0] + Addresses(rs, ks[1..])
  }

  lemma AddressesCons(done: seq<nat>, rs: seq<nat>, n: nat, ks: seq<nat>)
    requires n < |rs|
    ensures done + Addresses(rs, [n] + ks) == done + [rs[n]] + Addresses(rs, ks)
  {
    assert ([n] + ks)[1..] == ks;
    assert done + ([rs[n]] + Addresses(rs, ks)) == done + [rs[n]] + Addresses(rs, ks);
  }

  /** The loop has come to its end within `n` rounds. */
  predicate Stopped(t: Table, rs: seq<nat>, kind: Byte, n: nat)
    requires InTable(t, rs)
  {
    Visit(t, rs, kind, n).None?
  }

  /** Not so for every table: the loop comes to an end exactly when every structure of the type leads back
      to itself. Otherwise it returns for ever to structures it has loaded. */
  lemma LoadEnds(t: Table, rs: seq<nat>, kind: Byte)
    requires InTable(t, rs)
    ensures (exists n: nat :: Stopped(t, rs, kind, n)) <==> AllLead(t, rs, kind)
  {
    hide Visit, Leads, ByType;
    if AllLead(t, rs, kind) {
      VisitsEnd(t, rs, kind, |rs|);
      assert Stopped(t, rs, kind, |rs|);
    } else {
      var bad := FirstBad(t, rs, kind, 0);
      forall n: nat ensures !Stopped(t, rs, kind, n) { VisitsCircle(t, rs, kind, bad, n); }
    }
  }

  lemma {:induction false} FirstBad(t: Table, rs: seq<nat>, kind: Byte, from: nat) returns (bad: nat)
    requires InTable(t, rs) && from <= |rs|
    requires forall k :: 0 <= k < from && Kind(t, rs[k]) == kind ==> Leads(t, rs, k)
    requires !AllLead(t, rs, kind)
    ensures bad < |rs| && Kind(t, rs[bad]) == kind && !Leads(t, rs, bad)
    ensures forall k :: 0 <= k < bad && Kind(t, rs[k]) == kind ==> Leads(t, rs, k)
    decreases |rs| - from
  {
    hide Leads;
    if Kind(t, rs[from]) == kind && !Leads(t, rs, from) { return from; }
    bad := FirstBad(t, rs, kind, from + 1);
  }

  /** Round after round goes at least one structure further. */
  lemma {:induction false} VisitsEnd(t: Table, rs: seq<nat>, kind: Byte, n: nat)
    requires InTable(t, rs) && AllLead(t, rs, kind)
    ensures Visit(t, rs, kind, n).Some? ==> Visit(t, rs, kind, n).value >= n
  {
    hide Leads, ByType;
    if n == 0 {
      ByTypeStart(t, rs, kind);
    } else {
      VisitsEnd(t, rs, kind, n - 1);
      var before := Visit(t, rs, kind, n - 1);
      if before.Some? { LeadsNext(t, rs, kind, before.value); }
    }
  }

  /** No round gets past a structure that does not lead back to itself. */
  lemma {:induction false} VisitsCircle(t: Table, rs: seq<nat>, kind: Byte, bad: nat, n: nat)
    requires InTable(t, rs) && bad < |rs| && Kind(t, rs[bad]) == kind && !Leads(t, rs, bad)
    requires forall k :: 0 <= k < bad && Kind(t, rs[k]) == kind ==> Leads(t, rs, k)
    ensures Visit(t, rs, kind, n).Some? && Visit(t, rs, kind, n).value <= bad
  {
    hide Leads, OfType, OfHandle;
    if n > 0 {
      VisitsCircle(t, rs, kind, bad, n - 1);
      var k := Visit(t, rs, kind, n - 1).value;
      if k < bad { LeadsNext(t, rs, kind, k); } else { BackAgain(t, rs, kind, bad); }
    }
  }

  lemma BackAgain(t: Table, rs: seq<nat>, kind: Byte, bad: nat)
    requires InTable(t, rs) && bad < |rs| && Kind(t, rs[bad]) == kind && !Leads(t, rs, bad)
    ensures var r := ByType(t, rs, kind, Handle(t, rs[bad])); r.Some? && r.value <= bad
  {
    if Handle(t, rs[bad]) != NO_HANDLE {
      var h := OfHandle(t, rs, Handle(t, rs[bad]), 0);
      assert h.Some? && h.value < bad;
    }
  }
}
