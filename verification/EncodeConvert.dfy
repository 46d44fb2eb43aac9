/** The converters as loops over a destination buffer (`utf8_utf16.c`, `encode.c`), the allocating
    wrappers (`simple.c`) and the two callers that convert in chunks through a fixed buffer
    (`log/backends/file.c` and `_write_r` in `newlib/uefi.c`). */
module EncodeConvert {
  import opened Wrappers
  import opened Encode
  import opened EncodeText
  import opened Sizes

  // ------------------------------------------------------------- progress of a loop

  /** `part` is done, and the rest of the bounded conversion is still to come. */
  ghost predicate Running(cfg: Config, src: seq<Unit>, room: nat, part: Outcome) {
    part.used <= |src| && |part.out| <= room &&
    Bounded(cfg, src, room) == Joined(part, Bounded(cfg, src[part.used..], room - |part.out|))
  }

  lemma Started(cfg: Config, src: seq<Unit>, room: nat)
    ensures Running(cfg, src, room, Outcome(Success, 0, [], false))
  {
    hide Bounded;
    assert src[0..] == src;
    var r := Bounded(cfg, src, room);
    assert [] + r.out == r.out;
  }

  lemma Stepped(cfg: Config, src: seq<Unit>, room: nat, part: Outcome)
    requires Running(cfg, src, room, part) && !Ends(cfg, src[part.used..])
    ensures var t := StepOf(cfg, src[part.used..]);
      if t.Refuse? then
        Bounded(cfg, src, room) == Outcome(t.status, part.used, part.out, part.flagged || t.flagged)
      else if |t.piece| > room - |part.out| then
        Bounded(cfg, src, room) == Outcome(OutOfResources, part.used, part.out, part.flagged || t.flagged)
      else
        Running(cfg, src, room, Outcome(Success, part.used + t.consumed, part.out + t.piece, part.flagged || t.flagged))
  {
    hide StepOf;
    var rest := src[part.used..];
    var t := StepOf(cfg, rest);
    if t.Take? && |t.piece| <= room - |part.out| {
      assert rest[t.consumed..] == src[part.used + t.consumed..];
      var end := Bounded(cfg, rest[t.consumed..], room - |part.out| - |t.piece|);
      assert part.out + (t.piece + end.out) == part.out + t.piece + end.out;
    } else {
      assert part.out + [] == part.out;
    }
  }

  lemma Finished(cfg: Config, src: seq<Unit>, room: nat, part: Outcome)
    requires Running(cfg, src, room, part) && Ends(cfg, src[part.used..])
    ensures Bounded(cfg, src, room) == Outcome(Success, part.used, part.out, part.flagged)
  {
    assert part.out + [] == part.out;
  }

  // ------------------------------------------------------------- the loops

  datatype Answer = Applied | NoMatch | Failed(status: Status)

  /** `encode_proc_transfer`: the first matching rule is applied if its replacement fits. */
  method ProcTransfer(rules: seq<Rule>, src: seq<Unit>, s: nat, dst: array<Unit>, d: nat, limit: nat)
    returns (answer: Answer, s': nat, d': nat)
    requires s <= |src| && d <= limit <= dst.Length
    modifies dst
    ensures match Transfer(rules, src[s..])
      case NotFound => answer == NoMatch
      case BadRule => answer == Failed(InvalidParameter)
      case Found(_, r) => answer == if |r| <= limit - d then Applied else Failed(OutOfResources)
    ensures !answer.Applied? ==> s' == s && d' == d && dst[..] == old(dst[..])
    ensures answer.Applied? ==>
      var m := Transfer(rules, src[s..]);
      s' == s + m.consumed && d' == d + |m.replacement| &&
      dst[..d'] == old(dst[..d]) + m.replacement && dst[d'..] == old(dst[d'..])
  {
    for t := 0 to |rules|
      invariant Transfer(rules[t..], src[s..]) == Transfer(rules, src[s..])
      invariant dst[..] == old(dst[..])
    {
      var tr := rules[t];
      assert rules[t..][1..] == rules[t + 1..];
      if tr.Malformed? || tr.pattern == [] { return Failed(InvalidParameter), s, d; }
      if |tr.pattern| > |src| - s || src[s..s + |tr.pattern|] != tr.pattern { continue; }
      assert src[s..][..|tr.pattern|] == src[s..s + |tr.pattern|];
      if |tr.replacement| > limit - d { return Failed(OutOfResources), s, d; }
      Copied(dst, d, tr.replacement);
      return Applied, s + |tr.pattern|, d + |tr.replacement|;
    }
    return NoMatch, s, d;
  }

  /** `memcpy` into the destination. */
  method Copied(dst: array<Unit>, d: nat, piece: seq<Unit>)
    requires d + |piece| <= dst.Length
    modifies dst
    ensures dst[..d + |piece|] == old(dst[..d]) + piece && dst[d + |piece|..] == old(dst[d + |piece|..])
  {
    for k := 0 to |piece|
      invariant dst[..d] == old(dst[..d]) && dst[d..d + k] == piece[..k]
      invariant dst[d + |piece|..] == old(dst[d + |piece|..])
    {
      dst[d + k] := piece[k];
      assert piece[..k + 1] == piece[..k] + [piece[k]];
    }
    assert piece[..|piece|] == piece;
    assert dst[..d + |piece|] == dst[..d] + dst[d..d + |piece|];
  }

  method PutUtf16(dst: array<Unit>, j: nat, code: nat) returns (j': nat)
    requires Scalar(code) && j + |Encoded16(code)| <= dst.Length
    modifies dst
    ensures j' == j + |Encoded16(code)|
    ensures dst[..j'] == old(dst[..j]) + Encoded16(code) && dst[j'..] == old(dst[j'..])
  {
    if code <= 0xFFFF {
      dst[j] := code;
      return j + 1;
    }
    dst[j] := 0xD800 + (code - 0x1_0000) / 1024;
    dst[j + 1] := 0xDC00 + (code - 0x1_0000) % 1024;
    return j + 2;
  }

  method PutUtf8(dst: array<Unit>, j: nat, code: nat) returns (j': nat)
    requires Scalar(code) && j + |Encoded8(code)| <= dst.Length
    modifies dst
    ensures j' == j + |Encoded8(code)|
    ensures dst[..j'] == old(dst[..j]) + Encoded8(code) && dst[j'..] == old(dst[j'..])
  {
    if code < 0x80 {
      dst[j] := code;
      return j + 1;
    } else if code < 0x800 {
      dst[j] := 0xC0 + code / 64;
      dst[j + 1] := 0x80 + code % 64;
      return j + 2;
    } else if code < 0x1_0000 {
      dst[j] := 0xE0 + code / 4096;
      dst[j + 1] := 0x80 + code / 64 % 64;
      dst[j + 2] := 0x80 + code % 64;
      return j + 3;
    }
    dst[j] := 0xF0 + code / 0x4_0000;
    dst[j + 1] := 0x80 + code / 4096 % 64;
    dst[j + 2] := 0x80 + code / 64 % 64;
    dst[j + 3] := 0x80 + code % 64;
    return j + 4;
  }

  /** What a converter leaves behind: the result of the bounded conversion with room for a terminator,
      the terminator, and an untouched rest. */
  ghost predicate Delivered(cfg: Config, src: seq<Unit>, was: seq<Unit>, dst: seq<Unit>, status: Status, used: nat,
                            wrote: nat, flagged: bool)
    requires |was| == |dst|
  {
    if dst == [] then status.OutOfResources? && used == 0 && wrote == 0 && !flagged
    else
      var r := Bounded(cfg, src, |dst| - 1);
      status == r.status && used == r.used && wrote == |r.out| && flagged == r.flagged &&
      dst[..wrote] == r.out && dst[wrote] == 0 && dst[wrote + 1..] == was[wrote + 1..]
  }

  lemma Question()
    ensures Scalar(QUESTION as nat) && Encoded16(QUESTION as nat) == [QUESTION]
    ensures Encoded8(QUESTION as nat) == [QUESTION]
  {
  }

  lemma Needed16(code: nat)
    requires Scalar(code)
    ensures |Encoded16(code)| == if code > 0xFFFF then 2 else 1
  {
  }

  lemma Needed8(code: nat)
    requires Scalar(code)
    ensures |Encoded8(code)| == if code < 0x80 then 1 else if code < 0x800 then 2 else if code < 0x1_0000 then 3 else 4
  {
  }

  /** One character of a text, after no rule applied: what was written, or why nothing was. */
  ghost predicate Wrote(t: Step, i: nat, j: nat, limit: nat, was: seq<Unit>, dst: seq<Unit>, status: Status, i': nat,
                        j': nat, flagged: bool)
    requires j <= limit <= |was| == |dst|
  {
    flagged == t.flagged &&
    if t.Take? && |t.piece| <= limit - j then
      status.Success? && i' == i + t.consumed && j' == j + |t.piece| &&
      dst[..j'] == was[..j] + t.piece && dst[j'..] == was[j'..]
    else
      status == (if t.Refuse? then t.status else OutOfResources) && i' == i && j' == j && dst == was
  }

  method PutNext16(src: seq<Unit>, i: nat, dst: array<Unit>, j: nat, limit: nat, lenient: bool)
    returns (status: Status, i': nat, j': nat, flagged: bool)
    requires i < |src| && j <= limit <= dst.Length
    modifies dst
    ensures Wrote(Decode(Utf8, lenient, src[i..]), i, j, limit, old(dst[..]), dst[..], status, i', j', flagged)
  {
    hide First8, Encoded8, Encoded16, Scalar;
    var g := First8(src[i..]);
    var code, consumed := QUESTION as nat, 1;
    if g.Glyph? {
      code, consumed := g.code, g.length;
      FirstExact(Utf8, src[i..], code, consumed);
    } else {
      Question();
      if !lenient { return UnknownGlyph, i, j, true; }
    }
    Needed16(code);
    var needed := if code > 0xFFFF then 2 else 1;
    if needed > limit - j { return OutOfResources, i, j, g.Ill?; }
    j' := PutUtf16(dst, j, code);
    return Success, i + consumed, j', g.Ill?;
  }

  method PutNext8(src: seq<Unit>, i: nat, dst: array<Unit>, j: nat, limit: nat, lenient: bool)
    returns (status: Status, i': nat, j': nat, flagged: bool)
    requires i < |src| && j <= limit <= dst.Length
    modifies dst
    ensures Wrote(Decode(Utf16, lenient, src[i..]), i, j, limit, old(dst[..]), dst[..], status, i', j', flagged)
  {
    hide First16, Encoded8, Encoded16, Scalar;
    var g := First16(src[i..]);
    var code, consumed := QUESTION as nat, 1;
    if g.Glyph? {
      code, consumed := g.code, g.length;
      FirstExact(Utf16, src[i..], code, consumed);
    } else {
      Question();
      if !lenient { return UnknownGlyph, i, j, true; }
    }
    Needed8(code);
    var needed := if code < 0x80 then 1 else if code < 0x800 then 2 else if code < 0x1_0000 then 3 else 4;
    if needed > limit - j { return OutOfResources, i, j, g.Ill?; }
    j' := PutUtf8(dst, j, code);
    return Success, i + consumed, j', g.Ill?;
  }

  /** One round of a converter: the first matching rule, or else one character. */
  method NextPiece16(src: seq<Unit>, i: nat, dst: array<Unit>, j: nat, limit: nat, rules: Option<seq<Rule>>,
                     lenient: bool)
    returns (status: Status, i': nat, j': nat, flagged: bool)
    requires i < |src| && src[i] != HALF && j <= limit <= dst.Length
    modifies dst
    ensures var t := StepOf(Config(Recode(Utf8), rules, lenient), src[i..]);
      Wrote(t, i, j, limit, old(dst[..]), dst[..], status, i', j', flagged)
  {
    hide Decode, Transfer;
    if rules.Some? {
      var answer, si, dj := ProcTransfer(rules.value, src, i, dst, j, limit);
      if answer.Failed? { return answer.status, i, j, false; }
      if answer.Applied? { return Success, si, dj, false; }
    }
    status, i', j', flagged := PutNext16(src, i, dst, j, limit, lenient);
  }

  method NextPiece8(src: seq<Unit>, i: nat, dst: array<Unit>, j: nat, limit: nat, rules: Option<seq<Rule>>,
                    lenient: bool)
    returns (status: Status, i': nat, j': nat, flagged: bool)
    requires i < |src| && src[i] != HALF && j <= limit <= dst.Length
    modifies dst
    ensures var t := StepOf(Config(Recode(Utf16), rules, lenient), src[i..]);
      Wrote(t, i, j, limit, old(dst[..]), dst[..], status, i', j', flagged)
  {
    hide Decode, Transfer;
    if rules.Some? {
      var answer, si, dj := ProcTransfer(rules.value, src, i, dst, j, limit);
      if answer.Failed? { return answer.status, i, j, false; }
      if answer.Applied? { return Success, si, dj, false; }
    }
    status, i', j', flagged := PutNext8(src, i, dst, j, limit, lenient);
  }

  /** What the loop knows: everything before `i` is converted, or why the conversion is over. */
  ghost predicate Looping(cfg: Config, src: seq<Unit>, room: nat, was: seq<Unit>, dst: seq<Unit>, status: Status,
                          i: nat, j: nat, flagged: bool)
  {
    i <= |src| && j <= room <= |dst| == |was| && dst[j..] == was[j..] &&
    if status.Success? then Running(cfg, src, room, Outcome(Success, i, dst[..j], flagged))
    else Bounded(cfg, src, room) == Outcome(status, i, dst[..j], flagged)
  }

  lemma LoopStarts(cfg: Config, src: seq<Unit>, was: seq<Unit>)
    requires was != []
    ensures Looping(cfg, src, |was| - 1, was, was, Success, 0, 0, false)
  {
    hide Running, Bounded;
    Started(cfg, src, |was| - 1);
    assert was[..0] == [];
  }

  lemma LoopStep(cfg: Config, src: seq<Unit>, room: nat, was: seq<Unit>, before: seq<Unit>, dst: seq<Unit>, i: nat,
                 j: nat, flagged: bool, status: Status, i': nat, j': nat, invalid: bool)
    requires i < |src| && j <= room <= |before| == |dst|
    requires Looping(cfg, src, room, was, before, Success, i, j, flagged) && !Ends(cfg, src[i..])
    requires Wrote(StepOf(cfg, src[i..]), i, j, room, before, dst, status, i', j', invalid)
    ensures Looping(cfg, src, room, was, dst, status, i', j', flagged || invalid)
  {
    hide Running, Bounded, StepOf, Ends;
    Stepped(cfg, src, room, Outcome(Success, i, before[..j], flagged));
    var t := StepOf(cfg, src[i..]);
    if t.Take? && |t.piece| <= room - j {
      assert dst[j'..] == before[j'..] == before[j..][j' - j..] == was[j..][j' - j..] == was[j'..];
    }
  }

  lemma LoopEnds(cfg: Config, src: seq<Unit>, room: nat, was: seq<Unit>, dst: seq<Unit>, status: Status, i: nat, j: nat,
                 flagged: bool)
    requires Looping(cfg, src, room, was, dst, status, i, j, flagged)
    requires status.Success? ==> Ends(cfg, src[i..])
    ensures j <= room <= |dst| == |was| && dst[j..] == was[j..]
    ensures Bounded(cfg, src, room) == Outcome(status, i, dst[..j], flagged)
  {
    hide Running, Bounded, Ends;
    if status.Success? { Finished(cfg, src, room, Outcome(Success, i, dst[..j], flagged)); }
  }

  lemma LoopBounds(cfg: Config, src: seq<Unit>, room: nat, was: seq<Unit>, dst: seq<Unit>, status: Status, i: nat,
                   j: nat, flagged: bool)
    requires Looping(cfg, src, room, was, dst, status, i, j, flagged)
    ensures i <= |src| && j <= room <= |dst|
    ensures status.Success? ==> Running(cfg, src, room, Outcome(Success, i, dst[..j], flagged))
    ensures dst[j..] == was[j..] && |dst| == |was|
  {
  }

  lemma WroteFurther(cfg: Config, s: seq<Unit>, i: nat, j: nat, limit: nat, was: seq<Unit>, dst: seq<Unit>,
                     status: Status, i': nat, j': nat, flagged: bool)
    requires s != [] && j <= limit <= |was| == |dst|
    requires Wrote(StepOf(cfg, s), i, j, limit, was, dst, status, i', j', flagged)
    ensures status.Success? ==> i < i'
  {
    hide StepOf;
  }

  lemma NoRoom(cfg: Config, src: seq<Unit>, dst: seq<Unit>)
    requires dst == []
    ensures Delivered(cfg, src, dst, dst, OutOfResources, 0, 0, false)
  {
  }

  /** Writes the terminator behind the result. */
  method Terminate(ghost cfg: Config, ghost src: seq<Unit>, ghost was: seq<Unit>, dst: array<Unit>,
                   ghost status: Status, ghost i: nat, j: nat, ghost flagged: bool)
    requires j < dst.Length == |was| && dst[j..] == was[j..]
    requires Bounded(cfg, src, dst.Length - 1) == Outcome(status, i, dst[..j], flagged)
    modifies dst
    ensures Delivered(cfg, src, was, dst[..], status, i, j, flagged)
  {
    hide Bounded;
    ghost var out := dst[..j];
    dst[j] := 0;
    assert dst[..][..j] == out;
    assert dst[..][j + 1..] == was[j..][1..] == was[j + 1..];
  }

  /** `encode_utf8_to_utf16_convert`. */
  method Utf8ToUtf16(src: seq<Unit>, dst: array<Unit>, rules: Option<seq<Rule>>, lenient: bool)
    returns (status: Status, used: nat, wrote: nat, flagged: bool)
    requires HALF !in src
    modifies dst
    ensures Delivered(Config(Recode(Utf8), rules, lenient), src, old(dst[..]), dst[..], status, used, wrote, flagged)
  {
    hide *;
    status, flagged := Success, false;
    if dst.Length == 0 {
      NoRoom(Config(Recode(Utf8), rules, lenient), src, dst[..]);
      return OutOfResources, 0, 0, false;
    }
    var capacity := dst.Length - 1;
    var i: nat, j: nat := 0, 0;
    ghost var cfg := Config(Recode(Utf8), rules, lenient);
    ghost var was := dst[..];
    LoopStarts(cfg, src, was);
    while status.Success? && i < |src| && src[i] != 0
      invariant Looping(cfg, src, capacity, was, dst[..], status, i, j, flagged)
      decreases |src| - i, if status.Success? then 1 else 0
    {
      ghost var before, i0, j0 := dst[..], i, j;
      LoopBounds(cfg, src, capacity, was, before, status, i, j, flagged);
      NotEnds(cfg, src, i);
      var invalid;
      status, i, j, invalid := NextPiece16(src, i, dst, j, capacity, rules, lenient);
      LoopStep(cfg, src, capacity, was, before, dst[..], i0, j0, flagged, status, i, j, invalid);
      WroteFurther(cfg, src[i0..], i0, j0, capacity, before, dst[..], status, i, j, invalid);
      LoopBounds(cfg, src, capacity, was, dst[..], status, i, j, flagged || invalid);
      WroteBack(cfg, src[i0..], i0, j0, capacity, before, dst[..], status, i, j, invalid);
      flagged := flagged || invalid;
    }
    LoopBounds(cfg, src, capacity, was, dst[..], status, i, j, flagged);
    DoesEnd(cfg, src, i);
    LoopEnds(cfg, src, capacity, was, dst[..], status, i, j, flagged);
    Terminate(cfg, src, was, dst, status, i, j, flagged);
    return status, i, j, flagged;
  }

  lemma NotEnds(cfg: Config, src: seq<Unit>, i: nat)
    requires i < |src| && src[i] != 0
    ensures !Ends(cfg, src[i..]) && src[i..] != []
  {
  }

  lemma DoesEnd(cfg: Config, src: seq<Unit>, i: nat)
    requires i <= |src|
    ensures i == |src| || (cfg.mode.Recode? && src[i] == 0) ==> Ends(cfg, src[i..])
  {
  }

  lemma WroteBack(cfg: Config, s: seq<Unit>, i: nat, j: nat, limit: nat, was: seq<Unit>, dst: seq<Unit>, status: Status,
                  i': nat, j': nat, flagged: bool)
    requires s != [] && j <= limit <= |was| == |dst|
    requires Wrote(StepOf(cfg, s), i, j, limit, was, dst, status, i', j', flagged)
    ensures i <= i'
  {
    hide StepOf;
  }

  /** `encode_utf16_to_utf8_convert`. */
  method Utf16ToUtf8(src: seq<Unit>, dst: array<Unit>, rules: Option<seq<Rule>>, lenient: bool)
    returns (status: Status, used: nat, wrote: nat, flagged: bool)
    requires forall k :: 0 <= k < |src| - 1 ==> src[k] != HALF
    modifies dst
    ensures Delivered(Config(Recode(Utf16), rules, lenient), src, old(dst[..]), dst[..], status, used, wrote, flagged)
  {
    hide *;
    status, flagged := Success, false;
    if dst.Length == 0 {
      NoRoom(Config(Recode(Utf16), rules, lenient), src, dst[..]);
      return OutOfResources, 0, 0, false;
    }
    var capacity := dst.Length - 1;
    var i: nat, j: nat := 0, 0;
    ghost var cfg := Config(Recode(Utf16), rules, lenient);
    ghost var was := dst[..];
    LoopStarts(cfg, src, was);
    while status.Success? && i < |src| && src[i] != HALF && src[i] != 0
      invariant Looping(cfg, src, capacity, was, dst[..], status, i, j, flagged)
      decreases |src| - i, if status.Success? then 1 else 0
    {
      ghost var before, i0, j0 := dst[..], i, j;
      LoopBounds(cfg, src, capacity, was, before, status, i, j, flagged);
      NotEnds(cfg, src, i);
      var invalid;
      status, i, j, invalid := NextPiece8(src, i, dst, j, capacity, rules, lenient);
      LoopStep(cfg, src, capacity, was, before, dst[..], i0, j0, flagged, status, i, j, invalid);
      WroteFurther(cfg, src[i0..], i0, j0, capacity, before, dst[..], status, i, j, invalid);
      LoopBounds(cfg, src, capacity, was, dst[..], status, i, j, flagged || invalid);
      WroteBack(cfg, src[i0..], i0, j0, capacity, before, dst[..], status, i, j, invalid);
      flagged := flagged || invalid;
    }
    LoopBounds(cfg, src, capacity, was, dst[..], status, i, j, flagged);
    var terminated := i < |src| && src[i] == 0;
    DoesEnd(cfg, src, i);
    if terminated || !status.Success? {
      LoopEnds(cfg, src, capacity, was, dst[..], status, i, j, flagged);
    } else {
      status, i, j, flagged := LeftOver(src, i, dst, j, lenient, flagged, cfg);
      assert dst[j..] == was[j..];
    }
    Terminate(cfg, src, was, dst, status, i, j, flagged);
    return status, i, j, flagged;
  }

  /** The end of the UTF-16 converter: half a unit may be left. */
  method LeftOver(src: seq<Unit>, i: nat, dst: array<Unit>, j: nat, lenient: bool, was: bool, ghost cfg: Config)
    returns (status: Status, i': nat, j': nat, flagged: bool)
    requires i <= |src| && j < dst.Length && cfg.mode == Recode(Utf16) && cfg.lenient == lenient
    requires i < |src| ==> src[i] == HALF && i + 1 == |src|
    requires Running(cfg, src, dst.Length - 1, Outcome(Success, i, dst[..j], was))
    modifies dst
    ensures j <= j' < dst.Length && dst[j'..] == old(dst[j'..])
    ensures Bounded(cfg, src, dst.Length - 1) == Outcome(status, i', dst[..j'], flagged)
  {
    hide Decode, Transfer, Bounded, Running;
    ghost var room := dst.Length - 1;
    ghost var part := Outcome(Success, i, dst[..j], was);
    if i == |src| {
      Finished(cfg, src, room, part);
      return Success, i, j, was;
    }
    HalfUnit(cfg, src[i..]);
    Stepped(cfg, src, room, part);
    if !lenient { return UnknownGlyph, i, j, true; }
    if j >= dst.Length - 1 { return OutOfResources, i, j, true; }
    dst[j] := QUESTION;
    assert dst[..j + 1] == part.out + [QUESTION];
    Finished(cfg, src, room, Outcome(Success, i + 1, dst[..j + 1], true));
    return Success, |src|, j + 1, true;
  }

  /** Half a unit at the end is invalid, and no rule is tried on it. */
  lemma HalfUnit(cfg: Config, s: seq<Unit>)
    requires s != [] && s[0] == HALF && cfg.mode == Recode(Utf16)
    ensures StepOf(cfg, s) == if cfg.lenient then Take(1, [QUESTION], true) else Refuse(UnknownGlyph, true)
  {
  }

  /** One step of the copier with rules. */
  method CopyNext(src: seq<Unit>, i: nat, dst: array<Unit>, j: nat, rules: seq<Rule>)
    returns (status: Status, i': nat, j': nat)
    requires i < |src| && src[i] != HALF && j <= dst.Length
    modifies dst
    ensures var t := StepOf(Config(Copy, Some(rules), false), src[i..]);
      Wrote(t, i, j, dst.Length, old(dst[..]), dst[..], status, i', j', false)
  {
    hide Transfer;
    var answer, si, dj := ProcTransfer(rules, src, i, dst, j, dst.Length);
    if answer.Failed? { return answer.status, i, j; }
    if answer.Applied? { return Success, si, dj; }
    if j >= dst.Length { return OutOfResources, i, j; }
    ghost var done := dst[..j];
    dst[j] := src[i];
    assert dst[..j + 1] == done + [src[i]];
    return Success, i + 1, j + 1;
  }

  /** `encode_copy_convert`: equal encodings. Without rules it is one bounded copy. */
  method CopyConvert(src: seq<Unit>, dst: array<Unit>, rules: Option<seq<Rule>>)
    returns (status: Status, used: nat, wrote: nat)
    requires HALF !in src
    modifies dst
    ensures var r := Bounded(Config(Copy, rules, false), src, dst.Length);
      status == r.status && used == r.used && wrote == |r.out| &&
      dst[..wrote] == r.out && dst[wrote..] == old(dst[wrote..])
  {
    hide *;
    ghost var cfg, was, room := Config(Copy, rules, false), dst[..], dst.Length;
    var i: nat, j: nat := 0, 0;
    status := Success;
    if rules.None? {
      var size := if |src| <= dst.Length then |src| else dst.Length;
      CopyWhole(src, dst.Length);
      Copied(dst, 0, src[..size]);
      return if size < |src| then OutOfResources else Success, size, size;
    }
    CopyStarts(cfg, src, was);
    while i < |src| && status.Success?
      invariant i <= |src| && j <= dst.Length
      invariant Looping(cfg, src, room, was, dst[..], status, i, j, false)
      decreases |src| - i, if status.Success? then 1 else 0
    {
      LoopBounds(cfg, src, room, was, dst[..], status, i, j, false);
      CopyEnds(cfg, src, i);
      ghost var before, i0, j0 := dst[..], i, j;
      status, i, j := CopyNext(src, i, dst, j, rules.value);
      LoopStep(cfg, src, room, was, before, dst[..], i0, j0, false, status, i, j, false);
      WroteFurther(cfg, src[i0..], i0, j0, room, before, dst[..], status, i, j, false);
      LoopBounds(cfg, src, room, was, dst[..], status, i, j, false);
      WroteBack(cfg, src[i0..], i0, j0, room, before, dst[..], status, i, j, false);
    }
    LoopBounds(cfg, src, room, was, dst[..], status, i, j, false);
    CopyEnds(cfg, src, i);
    LoopEnds(cfg, src, room, was, dst[..], status, i, j, false);
    return status, i, j;
  }

  lemma CopyStarts(cfg: Config, src: seq<Unit>, was: seq<Unit>)
    ensures Looping(cfg, src, |was|, was, was, Success, 0, 0, false)
  {
    hide Running, Bounded;
    Started(cfg, src, |was|);
    assert was[..0] == [];
  }

  /** The copier does not stop at a terminator. */
  lemma CopyEnds(cfg: Config, src: seq<Unit>, i: nat)
    requires i <= |src| && cfg.mode == Copy
    ensures Ends(cfg, src[i..]) <==> i == |src|
  {
  }

  lemma {:induction false} CopyWhole(s: seq<Unit>, room: nat)
    ensures Bounded(Config(Copy, None, false), s, room) ==
      if |s| <= room then Outcome(Success, |s|, s, false) else Outcome(OutOfResources, room, s[..room], false)
    decreases |s|
  {
    if s != [] && room > 0 {
      CopyWhole(s[1..], room - 1);
      if |s| <= room { assert [s[0]] + s[1..] == s; } else { assert [s[0]] + s[1..][..room - 1] == s[..room]; }
    }
  }

  // ------------------------------------------------------------- allocating wrappers


  /** `encode_utf8_to_utf16`: the buffer it sizes always suffices, so the result is the whole text. */
  method Utf8String(utf8: seq<Unit>, memory: bool) returns (r: Option<seq<Unit>>)
    requires NulFree(utf8) && HALF !in utf8
    ensures r == if |utf8| <= SIZE_MAX / 2 - 1 && memory then Some(Full(Plain(Utf8, true), utf8).out) else None
  {
    var length := |utf8|;
    if length > SIZE_MAX / 2 - 1 || !memory { return None; }
    var dst := new Unit[length + 1];
    var status, used, wrote, flagged := Utf8ToUtf16(utf8, dst, None, true);
    LengthBound(Utf8, true, utf8);
    FitsWhole(Plain(Utf8, true), utf8, length);
    LenientFinishes(Utf8, utf8);
    if status != Success { return None; }
    return Some(dst[..wrote]);
  }

  /** `encode_utf16_to_utf8`. */
  method Utf16String(utf16: seq<Unit>, memory: bool) returns (r: Option<seq<Unit>>)
    requires NulFree(utf16) && HALF !in utf16
    ensures r == if |utf16| <= (SIZE_MAX - 1) / 3 && memory then Some(Full(Plain(Utf16, true), utf16).out) else None
  {
    var length := |utf16|;
    if length > (SIZE_MAX - 1) / 3 || !memory { return None; }
    var dst := new Unit[length * 3 + 1];
    var status, used, wrote, flagged := Utf16ToUtf8(utf16, dst, None, true);
    LengthBound(Utf16, true, utf16);
    FitsWhole(Plain(Utf16, true), utf16, length * 3);
    LenientFinishes(Utf16, utf16);
    if status != Success { return None; }
    return Some(dst[..wrote]);
  }
}
