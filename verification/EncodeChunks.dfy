/** Converting in chunks through a fixed buffer, resuming where the buffer filled up. */
module EncodeChunks {
  import opened Wrappers
  import opened Encode
  import opened EncodeText
  import opened EncodeConvert

  // ------------------------------------------------------------- chunks are the whole

  /** The longest piece a character of the source can become. */
  function LongestPiece(mode: Mode): nat {
    match mode
    case Recode(from) => Longest(Other(from))
    case Copy => 1
  }

  /** A buffer with room for one full character and for every replacement. */
  predicate Roomy(cfg: Config, room: nat) {
    room >= LongestPiece(cfg.mode) &&
    (cfg.rules.Some? ==> forall k :: 0 <= k < |cfg.rules.value| ==>
      cfg.rules.value[k].Rule? ==> |cfg.rules.value[k].replacement| <= room)
  }

  /** No rule deletes text: every step writes something. */
  predicate Productive(cfg: Config) {
    cfg.rules.Some? ==> forall k :: 0 <= k < |cfg.rules.value| ==>
      cfg.rules.value[k].Rule? ==> cfg.rules.value[k].replacement != []
  }

  lemma {:induction false} RuleApplied(rules: seq<Rule>, s: seq<Unit>) returns (k: nat)
    requires Transfer(rules, s).Found?
    ensures k < |rules| && rules[k].Rule? && Transfer(rules, s).replacement == rules[k].replacement
  {
    if rules[0].pattern <= s { return 0; }
    k := RuleApplied(rules[1..], s);
    k := k + 1;
  }

  lemma StepFits(cfg: Config, s: seq<Unit>, room: nat)
    requires s != [] && StepOf(cfg, s).Take?
    ensures Roomy(cfg, room) ==> |StepOf(cfg, s).piece| <= room
    ensures Productive(cfg) ==> StepOf(cfg, s).piece != []
  {
    hide First, Transfer;
    if cfg.rules.Some? && s[0] != HALF && Transfer(cfg.rules.value, s).Found? {
      var k := RuleApplied(cfg.rules.value, s);
    } else if cfg.mode.Recode? {
      PieceLength(cfg.mode.from, cfg.lenient, s);
    }
  }

  /** A roomy buffer is never too small to make progress. */
  lemma Progress(cfg: Config, s: seq<Unit>, room: nat)
    requires Roomy(cfg, room) && Bounded(cfg, s, room).status.OutOfResources?
    ensures 0 < Bounded(cfg, s, room).used < |s|
  {
    hide StepOf, Roomy;
    var part := Bounded(cfg, s, room);
    Greedy(cfg, s, room);
    StepFits(cfg, s[part.used..], room);
    if part.used == 0 { UsedNothing(cfg, s, room); }
  }

  lemma UsedNothing(cfg: Config, s: seq<Unit>, room: nat)
    requires Bounded(cfg, s, room).used == 0
    ensures Bounded(cfg, s, room).out == []
  {
  }

  /** Where every step writes something, source used means output written. */
  lemma WroteSome(cfg: Config, s: seq<Unit>, room: nat)
    requires Productive(cfg)
    ensures Bounded(cfg, s, room).used > 0 <==> Bounded(cfg, s, room).out != []
  {
    if !Ends(cfg, s) && StepOf(cfg, s).Take? { StepFits(cfg, s, room); }
    if Bounded(cfg, s, room).used == 0 { UsedNothing(cfg, s, room); }
  }

  /** The chunks a caller sees who converts again from `used` whenever the buffer was full. */
  function Chunks(cfg: Config, s: seq<Unit>, room: nat): (cs: seq<Outcome>)
    ensures cs != []
    decreases |s|
  {
    var part := Bounded(cfg, s, room);
    if part.status.OutOfResources? && part.used > 0
    then [part] + Chunks(cfg, s[part.used..], room)
    else [part]
  }

  /** All chunks put together. */
  function Sum(cs: seq<Outcome>): Outcome
    requires cs != []
  {
    if |cs| == 1 then cs[0] else Joined(cs[0], Sum(cs[1..]))
  }

  /** Every step of a conversion writes no more than fits into an empty buffer. */
  predicate StepsFit(cfg: Config, s: seq<Unit>, room: nat)
    decreases |s|
  {
    Ends(cfg, s) || StepOf(cfg, s).Refuse? ||
    (|StepOf(cfg, s).piece| <= room && StepsFit(cfg, s[StepOf(cfg, s).consumed..], room))
  }

  /** A roomy buffer is large enough for every text. */
  lemma {:induction false} RoomyFits(cfg: Config, s: seq<Unit>, room: nat)
    requires Roomy(cfg, room)
    ensures StepsFit(cfg, s, room)
    decreases |s|
  {
    hide StepOf, Roomy;
    if !Ends(cfg, s) && StepOf(cfg, s).Take? {
      TakeMoves(cfg, s);
      StepFits(cfg, s, room);
      RoomyFits(cfg, s[StepOf(cfg, s).consumed..], room);
    }
  }

  lemma TakeMoves(cfg: Config, s: seq<Unit>)
    requires !Ends(cfg, s)
    ensures s != [] && (StepOf(cfg, s).Take? ==> 0 < StepOf(cfg, s).consumed <= |s|)
  {
  }

  /** The steps of one chunk fit, and so it is up to the rest. */
  lemma {:induction false} ChunkFits(cfg: Config, s: seq<Unit>, left: nat, room: nat)
    requires left <= room
    ensures var part := Bounded(cfg, s, left);
      if part.status.OutOfResources? then StepsFit(cfg, s, room) <==> StepsFit(cfg, s[part.used..], room)
      else StepsFit(cfg, s, room)
    ensures Bounded(cfg, s, room).status.OutOfResources? && Bounded(cfg, s, room).used == 0 ==> !StepsFit(cfg, s, room)
    decreases |s|
  {
    hide StepOf;
    if !Ends(cfg, s) && StepOf(cfg, s).Take? {
      TakeMoves(cfg, s);
      var t := StepOf(cfg, s);
      if |t.piece| <= left {
        var rest := s[t.consumed..];
        ChunkFits(cfg, rest, left - |t.piece|, room);
        var more := Bounded(cfg, rest, left - |t.piece|);
        assert s[t.consumed + more.used..] == rest[more.used..];
      } else {
        assert s[0..] == s;
      }
    }
  }

  /** Chunked conversion equals the conversion into an unlimited buffer, in its text, the source used, the
      final status and the report of invalid input, exactly when every step fits into the buffer. */
  lemma {:induction false} ChunksExactly(cfg: Config, s: seq<Unit>, room: nat)
    ensures Sum(Chunks(cfg, s, room)) == Full(cfg, s) <==> StepsFit(cfg, s, room)
    ensures Sum(Chunks(cfg, s, room)).status.OutOfResources? <==> !StepsFit(cfg, s, room)
    decreases |s|
  {
    hide Bounded, Full, StepsFit;
    var part := Bounded(cfg, s, room);
    Resume(cfg, s, room);
    ChunkFits(cfg, s, room, room);
    if part.status.OutOfResources? && part.used > 0 {
      var rest := Chunks(cfg, s[part.used..], room);
      ChunksExactly(cfg, s[part.used..], room);
      assert ([part] + rest)[1..] == rest;
    }
  }

  /** With a roomy buffer it is so for every text. */
  lemma ChunksAreWhole(cfg: Config, s: seq<Unit>, room: nat)
    requires Roomy(cfg, room)
    ensures Sum(Chunks(cfg, s, room)) == Full(cfg, s)
  {
    hide *;
    RoomyFits(cfg, s, room);
    ChunksExactly(cfg, s, room);
  }

  /** Without a roomy buffer the caller is stuck: a surrogate pair never fits one unit. */
  lemma StuckWithoutRoom()
    ensures var cfg := Plain(Utf8, true); var s := [0xF0, 0x9F, 0x98, 0x80];
      !Roomy(cfg, 1) && Bounded(cfg, s, 1) == Outcome(OutOfResources, 0, [], false) && |Full(cfg, s).out| == 2
  {
    assert First8([0xF0, 0x9F, 0x98, 0x80]) == Glyph(0x1_F600, 4);
  }

  // ------------------------------------------------------------- the log file writer

  /** Bytes of the file writer's buffer, as UTF-16 units. */
  const FILE_BUFFER := 128

  /** The loop of `log_file_writer` for a UTF-16 log file: it succeeds only on well-formed text, and always
      on that if the file `works`; then the file has received the whole text. Otherwise it has received a
      beginning of it; a write that fails may have written a part. */
  method LogFileWrite(works: bool, formatted: seq<Unit>) returns (ok: bool, written: seq<Unit>)
    requires NulFree(formatted) && HALF !in formatted
    ensures ok ==> WellFormed(Utf8, formatted)
    ensures works && WellFormed(Utf8, formatted) ==> ok
    ensures ok ==> written == Full(Plain(Utf8, false), formatted).out
    ensures !ok ==> written <= Full(Plain(Utf8, false), formatted).out
  {
    hide Bounded, Full, WellFormed;
    var buff := new Unit[FILE_BUFFER];
    ghost var cfg := Plain(Utf8, false);
    var rest := formatted;
    written := [];
    ghost var part := Outcome(Success, 0, [], false);
    StrictAccepts(Utf8, formatted);
    JoinedNothing(cfg, formatted);
    while rest != []
      invariant NulFree(rest) && HALF !in rest
      invariant written == part.out
      invariant Full(cfg, formatted) == Joined(part, Full(cfg, rest))
      decreases |rest|
    {
      var status, used, wrote, flagged := Utf8ToUtf16(rest, buff, None, false);
      Resume(cfg, rest, FILE_BUFFER - 1);
      if status.OutOfResources? { Progress(cfg, rest, FILE_BUFFER - 1); }
      if status.Success? { UsedAll(rest, FILE_BUFFER - 1); }
      WroteSome(cfg, rest, FILE_BUFFER - 1);
      if used == 0 || wrote == 0 || used > |rest| || wrote > FILE_BUFFER { return false, written; }
      if (status.Success? && used != |rest|) || (status.OutOfResources? && used == |rest|) ||
         (!status.Success? && !status.OutOfResources?) {
        return false, written;
      }
      ghost var chunk := Bounded(cfg, rest, FILE_BUFFER - 1);
      var fails: bool, stored: nat := *, *;
      if fails && !works && stored <= wrote {
        PartWritten(written, chunk, Full(cfg, rest[used..]), stored);
        return false, written + buff[..wrote][..stored];
      }
      JoinedTwice(part, chunk, Full(cfg, rest[used..]));
      if status.Success? { FullNothing(cfg); }
      part := Joined(part, chunk);
      written := written + buff[..wrote];
      rest := rest[used..];
    }
    FullNothing(cfg);
    var flushed: bool := *;
    return flushed || works, written;
  }

  lemma PartWritten(written: seq<Unit>, chunk: Outcome, later: Outcome, stored: nat)
    requires stored <= |chunk.out|
    ensures written + chunk.out[..stored] <= written + Joined(chunk, later).out
  {
    assert chunk.out[..stored] + (chunk.out[stored..] + later.out) == chunk.out + later.out;
  }

  lemma JoinedNothing(cfg: Config, s: seq<Unit>)
    ensures Full(cfg, s) == Joined(Outcome(Success, 0, [], false), Full(cfg, s))
  {
  }

  lemma JoinedTwice(a: Outcome, b: Outcome, c: Outcome)
    ensures Joined(a, Joined(b, c)) == Joined(Joined(a, b), c)
  {
    assert a.out + (b.out + c.out) == a.out + b.out + c.out;
  }

  lemma FullNothing(cfg: Config)
    ensures Full(cfg, []) == Outcome(Success, 0, [], false)
  {
  }

  /** Without a terminator a conversion succeeds only at the end of the text. */
  lemma {:induction false} UsedAll(s: seq<Unit>, room: nat)
    requires NulFree(s) && Bounded(Plain(Utf8, false), s, room).status.Success?
    ensures Bounded(Plain(Utf8, false), s, room).used == |s|
    decreases |s|
  {
    hide StepOf;
    if s != [] {
      var t := StepOf(Plain(Utf8, false), s);
      UsedAll(s[t.consumed..], room - |t.piece|);
    }
  }

  // ------------------------------------------------------------- the console

  const LF: Unit := 0x0A
  const CR: Unit := 0x0D

  /** Units of the console's buffer that a conversion may use, the terminator included. */
  const CONSOLE_BUFFER := 127

  function Console(): Config {
    Config(Recode(Utf8), Some([Rule([LF], [CR, LF])]), true)
  }

  /** The loop of `_write_r` on the two output descriptors: the console receives the conversion of the
      text up to its first terminator with every line feed replaced, in pieces, and the count returned
      is the number of bytes before that terminator. If the console does not always `work`, the count is
      that of the bytes shown: nothing is counted that the console has not taken. */
  method ConsoleWrite(works: bool, buf: seq<Unit>) returns (count: nat, shown: seq<Unit>)
    requires HALF !in buf
    ensures count <= |buf| && Full(Console(), buf).out == shown + Full(Console(), buf[count..]).out
    ensures works ==> shown == Full(Console(), buf).out
    ensures works ==> count == Full(Console(), buf).used && (count == |buf| || buf[count] == 0)
  {
    hide Bounded, Full, StepOf;
    var buffer := new Unit[CONSOLE_BUFFER];
    ghost var cfg := Console();
    var rest := buf;
    shown := [];
    ghost var part := Outcome(Success, 0, [], false);
    JoinedNothing(cfg, buf);
    ConsoleStops(buf);
    while rest != []
      invariant HALF !in rest
      invariant part.used + |rest| == |buf| && rest == buf[part.used..] && shown == part.out
      invariant Full(cfg, buf) == Joined(part, Full(cfg, rest))
      decreases |rest|
    {
      var status, used, wrote, flagged := Utf8ToUtf16(rest, buffer, Some([Rule([LF], [CR, LF])]), true);
      Resume(cfg, rest, CONSOLE_BUFFER - 1);
      if status.OutOfResources? { Progress(cfg, rest, CONSOLE_BUFFER - 1); }
      WroteSome(cfg, rest, CONSOLE_BUFFER - 1);
      ConsoleStops(rest);
      if !status.Success? && !status.OutOfResources? { break; }
      if wrote == 0 || used == 0 { break; }
      var fails: bool := *;
      if fails && !works { break; }
      ghost var chunk := Bounded(cfg, rest, CONSOLE_BUFFER - 1);
      JoinedTwice(part, chunk, Full(cfg, rest[used..]));
      if status.Success? { StopsAgain(rest); }
      part := Joined(part, chunk);
      shown := shown + buffer[..wrote];
      rest := rest[used..];
    }
    FullNothing(cfg);
    return |buf| - |rest|, shown;
  }

  /** The console conversion never fails, and stops at the first terminator or the end. */
  lemma {:induction false} ConsoleStops(s: seq<Unit>)
    ensures var r := Full(Console(), s);
      r.status.Success? && r.used <= |s| && (r.used == |s| || s[r.used] == 0)
    decreases |s|
  {
    hide First;
    if !Ends(Console(), s) {
      ConsoleStep(s);
      ConsoleStops(s[StepOf(Console(), s).consumed..]);
    }
  }

  /** The rule acts on a line feed; any other step is that of the converter without rules. */
  lemma ConsoleStep(s: seq<Unit>)
    requires s != []
    ensures StepOf(Console(), s) == if s[0] == LF then Take(1, [CR, LF], false) else StepOf(Plain(Utf8, true), s)
    ensures StepOf(Console(), s).Take?
  {
    hide First;
    if s[0] == LF { assert [LF] <= s; } else { assert Transfer([Rule([LF], [CR, LF])], s).NotFound?; }
  }

  lemma StopsAgain(s: seq<Unit>)
    ensures var r := Full(Console(), s); r.used <= |s| && Full(Console(), s[r.used..]) == Outcome(Success, 0, [], false)
  {
    hide StepOf;
    ConsoleStops(s);
  }

  /** A line feed becomes a carriage return and a line feed. */
  function LineEnds(s: seq<Unit>): seq<Unit> {
    if s == [] then [] else (if s[0] == LF then [CR, LF] else [s[0]]) + LineEnds(s[1..])
  }

  /** Replacing line feeds while converting is the same as replacing them in the source and then
      converting without rules: no line feed hides inside a multi-byte character. */
  lemma {:induction false} RuleIsLineEnds(s: seq<Unit>)
    ensures Full(Console(), s).out == Full(Plain(Utf8, true), LineEnds(s)).out
    decreases |s|
  {
    hide StepOf;
    var plain := Plain(Utf8, true);
    if s == [] || s[0] == 0 {
    } else if s[0] == LF {
      var r := LineEnds(s);
      ConsoleStep(s);
      RuleIsLineEnds(s[1..]);
      assert r[1..][1..] == LineEnds(s[1..]);
      Ascii(r);
      Ascii(r[1..]);
    } else {
      ConsoleStep(s);
      SameFirst(s);
      SameStep(s, LineEnds(s));
      RuleIsLineEnds(s[StepOf(plain, s).consumed..]);
    }
  }

  lemma SameStep(s: seq<Unit>, r: seq<Unit>)
    requires s != [] && r != [] && First8(s) == First8(r)
    ensures var t := StepOf(Plain(Utf8, true), s);
      t == StepOf(Plain(Utf8, true), r) && t.Take? && t.consumed == if First8(s).Glyph? then First8(s).length else 1
  {
    hide First8, Encoded;
  }

  lemma Ascii(s: seq<Unit>)
    requires s != [] && (s[0] == CR || s[0] == LF)
    ensures Full(Plain(Utf8, true), s).out == [s[0]] + Full(Plain(Utf8, true), s[1..]).out
  {
    assert First8(s) == Glyph(s[0], 1);
  }

  /** Behind its first unit a character has only continuation bytes, so `LineEnds` keeps it whole. */
  lemma SameFirst(s: seq<Unit>)
    requires s != [] && s[0] != LF
    ensures var r := LineEnds(s); var n := if First8(s).Glyph? then First8(s).length else 1;
      r != [] && r[0] == s[0] && First8(r) == First8(s) && r[n..] == LineEnds(s[n..])
  {
    hide *;
    var r := LineEnds(s);
    LineFirst(s);
    Next(s, r, 1);
    if |s| > 1 && Tail(s[1]) {
      Next(s, r, 2);
      if |s| > 2 && Tail(s[2]) {
        Next(s, r, 3);
        if |s| > 3 && Tail(s[3]) { Next(s, r, 4); }
      }
    }
    FirstLike(s, r);
    FirstTails(s);
  }

  lemma LineFirst(s: seq<Unit>)
    requires s != [] && s[0] != LF
    ensures LineEnds(s) != [] && LineEnds(s)[0] == s[0] && LineEnds(s)[1..] == LineEnds(s[1..])
  {
  }

  /** Both texts end here, go on here with the same continuation byte, or go on with none. */
  predicate Like(s: seq<Unit>, r: seq<Unit>, k: nat) {
    (|s| > k <==> |r| > k) && (|s| > k ==> Tail(s[k]) == Tail(r[k]) && (Tail(s[k]) ==> s[k] == r[k]))
  }

  lemma FirstLike(s: seq<Unit>, r: seq<Unit>)
    requires s != [] && r != [] && s[0] == r[0] && Like(s, r, 1)
    requires |s| > 1 && Tail(s[1]) ==> Like(s, r, 2)
    requires |s| > 2 && Tail(s[1]) && Tail(s[2]) ==> Like(s, r, 3)
    ensures First8(s) == First8(r)
  {
    hide Tail, Low6;
  }

  lemma FirstTails(s: seq<Unit>)
    requires s != []
    ensures First8(s).Glyph? ==> var n := First8(s).length;
      1 <= n <= 4 && n <= |s| && (n > 1 ==> Tail(s[1])) && (n > 2 ==> Tail(s[2])) && (n > 3 ==> Tail(s[3]))
  {
    hide Tail, Low6;
  }

  lemma Next(s: seq<Unit>, r: seq<Unit>, k: nat)
    requires k <= |s| && k <= |r| && r[k..] == LineEnds(s[k..])
    ensures Like(s, r, k)
    ensures |s| > k && Tail(s[k]) ==> r[k + 1..] == LineEnds(s[k + 1..])
  {
    if |s| > k {
      var t := s[k..];
      assert t[1..] == s[k + 1..];
      assert r[k..][0] == r[k];
      if s[k] != LF { assert r[k..][1..] == r[k + 1..]; }
    }
  }
}
