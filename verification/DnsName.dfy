/**
 Decoding and encoding of DNS names with compression pointers (section 4.1.4 of RFC 1035),
 as the DNS inventory does it.

 A packet defines a deterministic chain of moves: from an offset the reader stops at a zero
 byte, jumps along a pointer, takes a label, or fails. `Chain`, `Spells`, `Fails` and
 `Endless` describe that chain without any reader; `DecodeName` is the reader's loop, with
 its set of visited offsets, and is proved to report exactly what the chain does.
 */
module DnsName {
  import opened Common

  type Byte = x: int | 0 <= x < 256

  type Label = seq<Byte>

  datatype DecodeError = OffsetOutOfRange | CompressionLoop | ShortPointer | ShortLabel

  datatype Decoded = Name(text: string, next: nat) | Invalid(error: DecodeError)

  datatype Move = Stop | Jump(target: nat) | Take(name: Label, after: nat) | Fail(error: DecodeError)

  // Bytes 0xC0 and above start a pointer; any other non-zero byte is a label length, so the
  // reserved lengths 64..191 are read as plain labels.
  const POINTER_TAG := 0xC0

  /** What the byte at `offset` makes a reader do. */
  function MoveAt(packet: seq<Byte>, offset: nat): Move {
    if offset >= |packet| then Fail(OffsetOutOfRange)
    else
      var length := packet[offset];
      if length == 0 then Stop
      else if length >= POINTER_TAG then
        if offset + 1 >= |packet| then Fail(ShortPointer)
        else Jump((length - POINTER_TAG) * 256 + packet[offset + 1])
      else if offset + 1 + length > |packet| then Fail(ShortLabel)
      else Take(packet[offset + 1..offset + 1 + length], offset + 1 + length)
  }

  predicate Advances(move: Move) {
    move.Jump? || move.Take?
  }

  function Target(move: Move): nat
    requires Advances(move)
  {
    if move.Jump? then move.target else move.after
  }

  function Taken(move: Move): seq<Label> {
    if move.Take? then [move.name] else []
  }

  /** After exactly `moves` moves from `offset` the chain stands at `at`, having taken `labels`. */
  ghost predicate Chain(packet: seq<Byte>, offset: nat, labels: seq<Label>, at: nat, moves: nat)
    decreases moves
  {
    if moves == 0 then labels == [] && at == offset
    else
      match MoveAt(packet, offset)
      case Jump(target) => Chain(packet, target, labels, at, moves - 1)
      case Take(part, after) =>
        labels != [] && labels[0] == part && Chain(packet, after, labels[1..], at, moves - 1)
      case _ => false
  }

  /** The chain from `offset` reaches a zero byte and takes exactly `labels` on the way. */
  ghost predicate Spells(packet: seq<Byte>, offset: nat, labels: seq<Label>) {
    exists at: nat, moves: nat :: Chain(packet, offset, labels, at, moves) && MoveAt(packet, at).Stop?
  }

  /** The chain from `offset` reaches an offset at which a reader fails with `error`. */
  ghost predicate Fails(packet: seq<Byte>, offset: nat, error: DecodeError) {
    exists labels, at: nat, moves: nat ::
      Chain(packet, offset, labels, at, moves) && MoveAt(packet, at) == Fail(error)
  }

  ghost predicate RunsFor(packet: seq<Byte>, offset: nat, moves: nat) {
    exists labels, at: nat :: Chain(packet, offset, labels, at, moves)
  }

  /** The chain from `offset` never ends. */
  ghost predicate Endless(packet: seq<Byte>, offset: nat) {
    forall moves: nat :: RunsFor(packet, offset, moves)
  }

  /** Where parsing resumes after the name: behind the first zero byte or pointer met. */
  function Resume(packet: seq<Byte>, offset: nat): (next: nat)
    decreases if offset <= |packet| then |packet| - offset else 0
  {
    match MoveAt(packet, offset)
    case Stop => offset + 1
    case Jump(_) => offset + 2
    case Take(_, after) => Resume(packet, after)
    case Fail(_) => offset
  }

  /******* Facts about chains *******/

  lemma ChainFromMove(packet: seq<Byte>, offset: nat, labels: seq<Label>, at: nat, moves: nat)
    requires Advances(MoveAt(packet, offset))
    requires Chain(packet, Target(MoveAt(packet, offset)), labels, at, moves)
    ensures Chain(packet, offset, Taken(MoveAt(packet, offset)) + labels, at, moves + 1)
  {
    var move := MoveAt(packet, offset);
    if move.Take? {
      assert ([move.name] + labels)[1..] == labels;
    } else {
      assert [] + labels == labels;
    }
  }

  lemma ChainHead(packet: seq<Byte>, offset: nat, labels: seq<Label>, at: nat, moves: nat) returns (rest: seq<Label>)
    requires moves > 0 && Chain(packet, offset, labels, at, moves)
    ensures Advances(MoveAt(packet, offset)) && labels == Taken(MoveAt(packet, offset)) + rest
    ensures Chain(packet, Target(MoveAt(packet, offset)), rest, at, moves - 1)
  {
    rest := if MoveAt(packet, offset).Take? then labels[1..] else labels;
  }

  lemma {:induction false} ChainJoin(
    packet: seq<Byte>, offset: nat, first: seq<Label>, middle: nat, m: nat, second: seq<Label>, at: nat, n: nat)
    requires Chain(packet, offset, first, middle, m)
    requires Chain(packet, middle, second, at, n)
    ensures Chain(packet, offset, first + second, at, m + n)
    decreases m
  {
    if m == 0 {
      assert first + second == second;
    } else {
      var rest := ChainHead(packet, offset, first, middle, m);
      var move := MoveAt(packet, offset);
      assert Chain(packet, offset, Taken(move) + (rest + second), at, m + n) by {
        ChainJoin(packet, Target(move), rest, middle, m - 1, second, at, n);
        ChainFromMove(packet, offset, rest + second, at, m - 1 + n);
      }
      assert Taken(move) + (rest + second) == first + second;
    }
  }

  lemma ChainStep(packet: seq<Byte>, offset: nat, labels: seq<Label>, at: nat, moves: nat)
    requires Chain(packet, offset, labels, at, moves)
    requires Advances(MoveAt(packet, at))
    ensures Chain(packet, offset, labels + Taken(MoveAt(packet, at)), Target(MoveAt(packet, at)), moves + 1)
  {
    var move := MoveAt(packet, at);
    assert Chain(packet, Target(move), [], Target(move), 0);
    assert move.Take? ==> [move.name][1..] == [];
    assert Chain(packet, at, Taken(move), Target(move), 1);
    ChainJoin(packet, offset, labels, at, moves, Taken(move), Target(move), 1);
  }

  lemma {:induction false} ChainIsDeterministic(
    packet: seq<Byte>, offset: nat, labels: seq<Label>, at: nat, labels': seq<Label>, at': nat, moves: nat)
    requires Chain(packet, offset, labels, at, moves)
    requires Chain(packet, offset, labels', at', moves)
    ensures labels == labels' && at == at'
    decreases moves
  {
    if moves > 0 {
      match MoveAt(packet, offset)
      case Jump(target) => ChainIsDeterministic(packet, target, labels, at, labels', at', moves - 1);
      case Take(part, after) =>
        ChainIsDeterministic(packet, after, labels[1..], at, labels'[1..], at', moves - 1);
        assert labels == [part] + labels[1..];
        assert labels' == [part] + labels'[1..];
    }
  }

  lemma {:induction false} ChainStopsAtItsEnd(
    packet: seq<Byte>, offset: nat, labels: seq<Label>, at: nat, moves: nat,
    labels': seq<Label>, at': nat, moves': nat)
    requires Chain(packet, offset, labels, at, moves)
    requires Chain(packet, offset, labels', at', moves')
    requires !Advances(MoveAt(packet, at))
    ensures moves' <= moves
    decreases moves
  {
    if moves > 0 && moves' > 0 {
      match MoveAt(packet, offset)
      case Jump(target) => ChainStopsAtItsEnd(packet, target, labels, at, moves - 1, labels', at', moves' - 1);
      case Take(_, after) =>
        ChainStopsAtItsEnd(packet, after, labels[1..], at, moves - 1, labels'[1..], at', moves' - 1);
    }
  }

  /** An ended chain has one end: it spells at most one name and excludes every other outcome. */
  lemma EndIsUnique(packet: seq<Byte>, offset: nat, labels: seq<Label>, at: nat, moves: nat)
    requires Chain(packet, offset, labels, at, moves)
    requires !Advances(MoveAt(packet, at))
    ensures !Endless(packet, offset)
    ensures forall labels' :: Spells(packet, offset, labels') <==> MoveAt(packet, at).Stop? && labels' == labels
    ensures forall error :: Fails(packet, offset, error) <==> MoveAt(packet, at) == Fail(error)
  {
    forall labels', at': nat, moves': nat | Chain(packet, offset, labels', at', moves')
      ensures moves' <= moves
      ensures !Advances(MoveAt(packet, at')) ==> labels' == labels && at' == at
    {
      ChainStopsAtItsEnd(packet, offset, labels, at, moves, labels', at', moves');
      if !Advances(MoveAt(packet, at')) {
        ChainStopsAtItsEnd(packet, offset, labels', at', moves', labels, at, moves);
        ChainIsDeterministic(packet, offset, labels, at, labels', at', moves);
      }
    }
    assert !RunsFor(packet, offset, moves + 1);
  }

  /** A set of offsets from which every move leads back into the set is never left. */
  lemma {:induction false} ClosedSetIsEndless(packet: seq<Byte>, visited: set<nat>, offset: nat, moves: nat)
    returns (labels: seq<Label>, at: nat)
    requires offset in visited
    requires forall o {:trigger MoveAt(packet, o)} | o in visited ::
      Advances(MoveAt(packet, o)) && Target(MoveAt(packet, o)) in visited
    ensures Chain(packet, offset, labels, at, moves) && at in visited
    decreases moves
  {
    if moves == 0 {
      labels, at := [], offset;
    } else {
      labels, at := ClosedSetIsEndless(packet, visited, offset, moves - 1);
      ChainStep(packet, offset, labels, at, moves - 1);
      labels, at := labels + Taken(MoveAt(packet, at)), Target(MoveAt(packet, at));
    }
  }

  lemma EndlessExcludesEnds(packet: seq<Byte>, offset: nat)
    requires Endless(packet, offset)
    ensures forall labels :: !Spells(packet, offset, labels)
    ensures forall error :: !Fails(packet, offset, error)
  {
    forall labels, at: nat, moves: nat | Chain(packet, offset, labels, at, moves)
      ensures Advances(MoveAt(packet, at))
    {
      if !Advances(MoveAt(packet, at)) {
        EndIsUnique(packet, offset, labels, at, moves);
      }
    }
  }

  lemma {:induction false} OffsetsAreBounded(visited: set<nat>, bound: nat)
    requires forall o | o in visited :: o < bound
    ensures |visited| <= bound
    decreases bound
  {
    if bound == 0 {
      assert visited == {};
    } else {
      var fewer := visited - {bound - 1};
      OffsetsAreBounded(fewer, bound - 1);
      assert visited <= fewer + {bound - 1};
      if bound - 1 in visited {
        assert visited == fewer + {bound - 1};
      } else {
        assert visited == fewer;
      }
    }
  }

  /******* The text of a name *******/

  // An ASCII byte stands for itself, any other byte for U+FFFD.
  function AsciiText(bytes: seq<Byte>): (text: string)
    ensures |text| == |bytes|
  {
    seq(|bytes|, i requires 0 <= i < |bytes| =>
      if bytes[i] < 128 then bytes[i] as char else '\U{FFFD}')
  }

  function Join(parts: seq<string>): string {
    if |parts| == 0 then ""
    else if |parts| == 1 then parts[0]
    else parts[0] + "." + Join(parts[1..])
  }

  function StripTrailingDots(text: string): string {
    if text != "" && text[|text| - 1] == '.' then StripTrailingDots(text[..|text| - 1]) else text
  }

  function LowerChar(c: char): char {
    if 'A' <= c <= 'Z' then (c as int + 32) as char else c
  }

  function Lower(text: string): (lower: string)
    ensures |lower| == |text|
  {
    seq(|text|, i requires 0 <= i < |text| => LowerChar(text[i]))
  }

  function Texts(labels: seq<Label>): (texts: seq<string>)
    ensures |texts| == |labels|
  {
    seq(|labels|, i requires 0 <= i < |labels| => AsciiText(labels[i]))
  }

  function NameText(labels: seq<Label>): string {
    Lower(StripTrailingDots(Join(Texts(labels))))
  }

  const UPPER := "ABCDEFGHIJKLMNOPQRSTUVWXYZ"
  const LOWER := "abcdefghijklmnopqrstuvwxyz"

  predicate LowersTo(c: char, lower: char) {
    if c in UPPER then exists k :: 0 <= k < 26 && UPPER[k] == c && LOWER[k] == lower else lower == c
  }

  lemma LetterLowers(c: char)
    ensures LowersTo(c, LowerChar(c))
  {
    if 'A' <= c <= 'Z' {
      var k := c as int - 'A' as int;
      assert UPPER[k] == c && LOWER[k] == LowerChar(c);
    }
  }

  lemma {:induction false} DotsAreStripped(text: string)
    ensures |StripTrailingDots(text)| <= |text| && StripTrailingDots(text) == text[..|StripTrailingDots(text)|]
    ensures forall i | |StripTrailingDots(text)| <= i < |text| :: text[i] == '.'
    ensures StripTrailingDots(text) != "" ==> StripTrailingDots(text)[|StripTrailingDots(text)| - 1] != '.'
    decreases |text|
  {
    if text != "" && text[|text| - 1] == '.' { DotsAreStripped(text[..|text| - 1]); }
  }

  /**
   The text of a name, character by character: an ASCII byte stands for itself and any other byte
   for U+FFFD; the joined labels lose their trailing dots only, and every letter its case.
   */
  lemma NameTextInCharacters(labels: seq<Label>)
    ensures
      var joined, name := Join(Texts(labels)), NameText(labels);
      && |name| <= |joined|
      && (forall i | 0 <= i < |name| :: LowersTo(joined[i], name[i]))
      && (forall i | |name| <= i < |joined| :: joined[i] == '.')
      && (name != "" ==> joined[|name| - 1] != '.')
    ensures forall k, i | 0 <= k < |labels| && 0 <= i < |labels[k]| ::
      Texts(labels)[k][i] as int == if labels[k][i] <= 127 then labels[k][i] else 65_533
  {
    var joined := Join(Texts(labels));
    DotsAreStripped(joined);
    forall i | 0 <= i < |NameText(labels)|
      ensures LowersTo(joined[i], NameText(labels)[i])
    {
      LetterLowers(joined[i]);
    }
  }

  /******* The reader *******/

  /** `result` is what the chain from `start` does, and it is the only thing that chain does. */
  ghost predicate Reports(packet: seq<Byte>, start: nat, result: Decoded) {
    && (forall labels ::
          Spells(packet, start, labels) ==> result == Name(NameText(labels), Resume(packet, start)))
    && (result.Name? ==> exists labels :: Spells(packet, start, labels))
    && (result == Invalid(CompressionLoop) <==> Endless(packet, start))
    && (forall error :: Fails(packet, start, error) ==> result == Invalid(error))
    && (result.Invalid? && result.error != CompressionLoop ==> Fails(packet, start, result.error))
  }

  lemma StopIsReported(packet: seq<Byte>, start: nat, labels: seq<Label>, at: nat, moves: nat)
    requires Chain(packet, start, labels, at, moves) && MoveAt(packet, at).Stop?
    ensures Reports(packet, start, Name(NameText(labels), Resume(packet, start)))
  {
    EndIsUnique(packet, start, labels, at, moves);
    assert Spells(packet, start, labels);
  }

  lemma FailureIsReported(packet: seq<Byte>, start: nat, labels: seq<Label>, at: nat, moves: nat)
    requires Chain(packet, start, labels, at, moves) && MoveAt(packet, at).Fail?
    ensures Reports(packet, start, Invalid(MoveAt(packet, at).error))
  {
    EndIsUnique(packet, start, labels, at, moves);
    assert Fails(packet, start, MoveAt(packet, at).error);
  }

  /** Every move from `visited` leads back into `visited` or to `frontier`. */
  ghost predicate LeadsOnlyTo(packet: seq<Byte>, visited: set<nat>, frontier: nat) {
    forall o {:trigger MoveAt(packet, o)} | o in visited ::
      && o < |packet|
      && Advances(MoveAt(packet, o))
      && (Target(MoveAt(packet, o)) in visited || Target(MoveAt(packet, o)) == frontier)
  }

  lemma RevisitIsReported(packet: seq<Byte>, start: nat, visited: set<nat>, offset: nat)
    requires LeadsOnlyTo(packet, visited, offset) && start in visited && offset in visited
    ensures Reports(packet, start, Invalid(CompressionLoop))
  {
    forall n: nat
      ensures RunsFor(packet, start, n)
    {
      var labels, at := ClosedSetIsEndless(packet, visited, start, n);
    }
    EndlessExcludesEnds(packet, start);
  }

  lemma VisitKeepsInvariant(
    packet: seq<Byte>, start: nat, labels: seq<Label>, offset: nat, moves: nat, visited: set<nat>)
    requires Chain(packet, start, labels, offset, moves) && Advances(MoveAt(packet, offset))
    requires LeadsOnlyTo(packet, visited, offset)
    ensures var move := MoveAt(packet, offset);
            && Chain(packet, start, labels + Taken(move), Target(move), moves + 1)
            && LeadsOnlyTo(packet, visited + {offset}, Target(move))
            && |visited + {offset}| <= |packet|
            && (move.Take? ==> Resume(packet, offset) == Resume(packet, Target(move)))
  {
    var move := MoveAt(packet, offset);
    ChainStep(packet, start, labels, offset, moves);
    assert offset < |packet|;
    forall o | o in visited + {offset}
      ensures o < |packet| && Advances(MoveAt(packet, o))
      ensures Target(MoveAt(packet, o)) in visited + {offset} || Target(MoveAt(packet, o)) == Target(move)
    {
      if o != offset {
        assert o in visited && Advances(MoveAt(packet, o));
      }
    }
    VisitsAreBounded(packet, visited + {offset}, Target(move));
  }

  lemma VisitsAreBounded(packet: seq<Byte>, visited: set<nat>, frontier: nat)
    requires LeadsOnlyTo(packet, visited, frontier)
    ensures |visited| <= |packet|
  {
    forall o | o in visited
      ensures o < |packet|
    {
      assert Advances(MoveAt(packet, o));
    }
    OffsetsAreBounded(visited, |packet|);
  }

  /** What the reader knows: the chain so far, the offsets it visited, and where parsing resumes. */
  ghost predicate Reading(
    packet: seq<Byte>, start: nat, labels: seq<Label>, offset: nat, moves: nat, seen: set<nat>, jumped: bool, next: nat)
  {
    && Chain(packet, start, labels, offset, moves) && LeadsOnlyTo(packet, seen, offset)
    && (start in seen || (start == offset && seen == {})) && |seen| <= |packet|
    && (if jumped then next == Resume(packet, start) else next == offset && Resume(packet, start) == Resume(packet, offset))
  }

  lemma JumpIsRead(
    packet: seq<Byte>, start: nat, labels: seq<Label>, offset: nat, moves: nat, seen: set<nat>, jumped: bool, next: nat,
    target: nat)
    requires Reading(packet, start, labels, offset, moves, seen, jumped, next) && MoveAt(packet, offset) == Jump(target)
    ensures Reading(packet, start, labels, target, moves + 1, seen + {offset}, true, if jumped then next else offset + 2)
  {
    VisitKeepsInvariant(packet, start, labels, offset, moves, seen);
    assert labels + [] == labels;
  }

  lemma LabelIsRead(
    packet: seq<Byte>, start: nat, labels: seq<Label>, offset: nat, moves: nat, seen: set<nat>, jumped: bool, next: nat,
    name: Label, after: nat)
    requires Reading(packet, start, labels, offset, moves, seen, jumped, next) && MoveAt(packet, offset) == Take(name, after)
    ensures Reading(packet, start, labels + [name], after, moves + 1, seen + {offset}, jumped, if jumped then next else after)
  {
    VisitKeepsInvariant(packet, start, labels, offset, moves, seen);
  }

  lemma StopIsRead(
    packet: seq<Byte>, start: nat, labels: seq<Label>, offset: nat, moves: nat, seen: set<nat>, jumped: bool, next: nat)
    requires Reading(packet, start, labels, offset, moves, seen, jumped, next) && MoveAt(packet, offset) == Stop
    ensures Reports(packet, start, Name(NameText(labels), if jumped then next else offset + 1))
  {
    StopIsReported(packet, start, labels, offset, moves);
  }

  lemma FailureIsRead(
    packet: seq<Byte>, start: nat, labels: seq<Label>, offset: nat, moves: nat, seen: set<nat>, jumped: bool, next: nat,
    error: DecodeError)
    requires Reading(packet, start, labels, offset, moves, seen, jumped, next) && MoveAt(packet, offset) == Fail(error)
    ensures Reports(packet, start, Invalid(error))
  {
    FailureIsReported(packet, start, labels, offset, moves);
  }

  lemma RevisitIsRead(
    packet: seq<Byte>, start: nat, labels: seq<Label>, offset: nat, moves: nat, seen: set<nat>, jumped: bool, next: nat)
    requires Reading(packet, start, labels, offset, moves, seen, jumped, next) && offset in seen
    ensures Reports(packet, start, Invalid(CompressionLoop))
  {
    RevisitIsReported(packet, start, seen, offset);
  }

  /** What a byte other than zero makes of the packet behind it. */
  method ReadMove(packet: seq<Byte>, offset: nat) returns (move: Move)
    requires offset < |packet| && packet[offset] != 0
    ensures move == MoveAt(packet, offset) && !move.Stop?
  {
    var length := packet[offset];
    if length >= POINTER_TAG {
      if offset + 1 >= |packet| {
        return Fail(ShortPointer);
      }
      return Jump((length - POINTER_TAG) * 256 + packet[offset + 1]);
    }
    if offset + 1 + length > |packet| {
      return Fail(ShortLabel);
    }
    return Take(packet[offset + 1..offset + 1 + length], offset + 1 + length);
  }

  /**
   The decoding loop. It returns a name exactly when the chain reaches a zero byte, with that
   chain's labels, and reports a loop exactly when the chain never ends, whatever the packet.
   */
  method DecodeName(packet: seq<Byte>, start: nat) returns (result: Decoded)
    ensures Reports(packet, start, result)
  {
    var offset: nat, next: nat, jumped := start, start, false;
    var labels: seq<Label> := [];
    var seen: set<nat> := {};
    ghost var moves: nat := 0;
    while true
      invariant Reading(packet, start, labels, offset, moves, seen, jumped, next)
      decreases |packet| - |seen|
    {
      if offset >= |packet| {
        FailureIsRead(packet, start, labels, offset, moves, seen, jumped, next, OffsetOutOfRange);
        return Invalid(OffsetOutOfRange);
      }
      if offset in seen {
        RevisitIsRead(packet, start, labels, offset, moves, seen, jumped, next);
        return Invalid(CompressionLoop);
      }
      ghost var visited := seen;
      seen := seen + {offset};
      var length := packet[offset];
      if length == 0 {
        StopIsRead(packet, start, labels, offset, moves, visited, jumped, next);
        offset := offset + 1;
        if !jumped {
          next := offset;
        }
        break;
      }
      var move := ReadMove(packet, offset);
      if move.Fail? {
        FailureIsRead(packet, start, labels, offset, moves, visited, jumped, next, move.error);
        return Invalid(move.error);
      }
      if move.Jump? {
        JumpIsRead(packet, start, labels, offset, moves, visited, jumped, next, move.target);
        if !jumped {
          next := offset + 2;
        }
        offset := move.target;
        jumped := true;
      } else {
        LabelIsRead(packet, start, labels, offset, moves, visited, jumped, next, move.name, move.after);
        labels := labels + [move.name];
        offset := move.after;
        if !jumped {
          next := offset;
        }
      }
      moves := moves + 1;
    }
    result := Name(NameText(labels), next);
  }

  /******* Encoding *******/

  predicate Encodable(labels: seq<Label>) {
    forall i | 0 <= i < |labels| :: |labels[i]| < 256
  }

  function EncodeLabels(labels: seq<Label>): seq<Byte>
    requires Encodable(labels)
  {
    if labels == [] then [] else [|labels[0]|] + labels[0] + EncodeLabels(labels[1..])
  }

  // The lengths this reader and writer share; RFC 1035 itself stops at 63.
  predicate Plain(part: Label) {
    1 <= |part| < POINTER_TAG
  }

  predicate AllPlain(labels: seq<Label>)
    ensures AllPlain(labels) ==> Encodable(labels)
  {
    forall i | 0 <= i < |labels| :: Plain(labels[i])
  }

  predicate HoldsAt(packet: seq<Byte>, offset: nat, bytes: seq<Byte>) {
    offset + |bytes| <= |packet| && forall i {:trigger bytes[i]} | 0 <= i < |bytes| :: packet[offset + i] == bytes[i]
  }

  lemma HoldsParts(packet: seq<Byte>, offset: nat, first: seq<Byte>, second: seq<Byte>)
    requires HoldsAt(packet, offset, first + second)
    ensures HoldsAt(packet, offset, first) && HoldsAt(packet, offset + |first|, second)
  {
    var bytes := first + second;
    assert forall i | 0 <= i < |first| :: bytes[i] == first[i];
    forall i | 0 <= i < |second|
      ensures packet[offset + |first| + i] == second[i]
    {
      assert bytes[|first| + i] == second[i];
    }
  }

  lemma HoldsByte(packet: seq<Byte>, offset: nat, byte: Byte)
    requires HoldsAt(packet, offset, [byte])
    ensures packet[offset] == byte
  {
    assert [byte][0] == byte;
  }

  lemma LabelMove(packet: seq<Byte>, offset: nat, part: Label)
    requires |part| < 256 && HoldsAt(packet, offset, [|part|] + part)
    ensures packet[offset] == |part|
    ensures Plain(part) ==> MoveAt(packet, offset) == Take(part, offset + 1 + |part|)
  {
    HoldsParts(packet, offset, [|part|], part);
    HoldsByte(packet, offset, |part|);
    assert forall i | 0 <= i < |part| :: packet[offset + 1 + i] == part[i];
    assert packet[offset + 1..offset + 1 + |part|] == part;
  }

  lemma FirstLabelMove(packet: seq<Byte>, offset: nat, labels: seq<Label>)
    requires labels != [] && Encodable(labels)
    requires HoldsAt(packet, offset, EncodeLabels(labels))
    ensures |EncodeLabels(labels)| == 1 + |labels[0]| + |EncodeLabels(labels[1..])|
    ensures HoldsAt(packet, offset + 1 + |labels[0]|, EncodeLabels(labels[1..]))
    ensures packet[offset] == |labels[0]|
    ensures Plain(labels[0]) ==> MoveAt(packet, offset) == Take(labels[0], offset + 1 + |labels[0]|)
  {
    HoldsParts(packet, offset, [|labels[0]|] + labels[0], EncodeLabels(labels[1..]));
    LabelMove(packet, offset, labels[0]);
  }

  lemma {:induction false} EncodedLabelsResume(packet: seq<Byte>, offset: nat, labels: seq<Label>)
    requires AllPlain(labels)
    requires HoldsAt(packet, offset, EncodeLabels(labels))
    ensures Resume(packet, offset) == Resume(packet, offset + |EncodeLabels(labels)|)
    decreases |labels|
  {
    if labels != [] {
      FirstLabelMove(packet, offset, labels);
      EncodedLabelsResume(packet, offset + 1 + |labels[0]|, labels[1..]);
    }
  }

  /** Encoded labels are read back one by one, and reading then goes on behind them. */
  lemma {:induction false} EncodedLabelsChain(packet: seq<Byte>, offset: nat, labels: seq<Label>)
    requires AllPlain(labels)
    requires HoldsAt(packet, offset, EncodeLabels(labels))
    ensures Chain(packet, offset, labels, offset + |EncodeLabels(labels)|, |labels|)
    decreases |labels|
  {
    if labels != [] {
      FirstLabelMove(packet, offset, labels);
      assert AllPlain(labels[1..]);
      EncodedLabelsChain(packet, offset + 1 + |labels[0]|, labels[1..]);
      FirstLabelChain(packet, offset, labels, offset + |EncodeLabels(labels)|, |labels| - 1);
    }
  }

  lemma FirstLabelChain(packet: seq<Byte>, offset: nat, labels: seq<Label>, at: nat, moves: nat)
    requires labels != [] && MoveAt(packet, offset) == Take(labels[0], offset + 1 + |labels[0]|)
    requires Chain(packet, offset + 1 + |labels[0]|, labels[1..], at, moves)
    ensures Chain(packet, offset, labels, at, moves + 1)
  {
  }

  /** Decoding undoes encoding: labels followed by a zero byte spell themselves. */
  lemma EncodedNameSpells(packet: seq<Byte>, offset: nat, labels: seq<Label>)
    requires AllPlain(labels)
    requires HoldsAt(packet, offset, EncodeLabels(labels) + [0])
    ensures Spells(packet, offset, labels)
    ensures Resume(packet, offset) == offset + |EncodeLabels(labels)| + 1
  {
    HoldsParts(packet, offset, EncodeLabels(labels), [0]);
    HoldsByte(packet, offset + |EncodeLabels(labels)|, 0);
    EncodedLabelsResume(packet, offset, labels);
    EncodedLabelsChain(packet, offset, labels);
  }

  function Pointer(target: nat): seq<Byte>
    requires target < 0x4000
  {
    [POINTER_TAG + target / 256, target % 256]
  }

  lemma PointerMove(packet: seq<Byte>, offset: nat, target: nat)
    requires target < 0x4000 && HoldsAt(packet, offset, Pointer(target))
    ensures MoveAt(packet, offset) == Jump(target)
  {
    var pointer := Pointer(target);
    assert packet[offset] == pointer[0] && packet[offset + 1] == pointer[1];
  }

  lemma CompressedChain(packet: seq<Byte>, offset: nat, labels: seq<Label>, target: nat)
    requires AllPlain(labels) && target < 0x4000
    requires HoldsAt(packet, offset, EncodeLabels(labels) + Pointer(target))
    ensures Chain(packet, offset, labels, target, |labels| + 1)
    ensures Resume(packet, offset) == offset + |EncodeLabels(labels)| + 2
  {
    var at := offset + |EncodeLabels(labels)|;
    HoldsParts(packet, offset, EncodeLabels(labels), Pointer(target));
    PointerMove(packet, at, target);
    assert Chain(packet, offset, labels, target, |labels| + 1) by {
      EncodedLabelsChain(packet, offset, labels);
      ChainStep(packet, offset, labels, at, |labels|);
      assert labels + [] == labels;
    }
    EncodedLabelsResume(packet, offset, labels);
  }

  lemma SpellsAfterChain(
    packet: seq<Byte>, offset: nat, labels: seq<Label>, at: nat, moves: nat, suffix: seq<Label>)
    requires Chain(packet, offset, labels, at, moves) && Spells(packet, at, suffix)
    ensures Spells(packet, offset, labels + suffix)
  {
    var end: nat, more: nat :| Chain(packet, at, suffix, end, more) && MoveAt(packet, end).Stop?;
    ChainJoin(packet, offset, labels, at, moves, suffix, end, more);
  }

  /**
   Compression keeps meaning: labels followed by a pointer to any offset that spells the
   remaining labels spell the whole name, wherever that offset lies, and parsing resumes just
   behind the pointer.
   */
  lemma CompressedNameSpells(packet: seq<Byte>, offset: nat, labels: seq<Label>, target: nat, suffix: seq<Label>)
    requires AllPlain(labels)
    requires target < 0x4000 && Spells(packet, target, suffix)
    requires HoldsAt(packet, offset, EncodeLabels(labels) + Pointer(target))
    ensures Spells(packet, offset, labels + suffix)
    ensures Resume(packet, offset) == offset + |EncodeLabels(labels)| + 2
  {
    CompressedChain(packet, offset, labels, target);
    SpellsAfterChain(packet, offset, labels, target, |labels| + 1, suffix);
  }

  /** A label outside 1..191 makes parsing resume too early, so the end of the name is misread. */
  lemma {:induction false} BadLabelResumesEarly(packet: seq<Byte>, offset: nat, labels: seq<Label>)
    requires Encodable(labels)
    requires !AllPlain(labels)
    requires HoldsAt(packet, offset, EncodeLabels(labels))
    ensures Resume(packet, offset) <= offset + |EncodeLabels(labels)|
    decreases |labels|
  {
    FirstLabelMove(packet, offset, labels);
    if Plain(labels[0]) {
      BadLabelResumesEarly(packet, offset + 1 + |labels[0]|, labels[1..]);
    }
  }

  /******* Questions *******/

  function Split(name: string): (parts: seq<string>)
    ensures parts != []
  {
    if name == "" then [""]
    else
      var rest := Split(name[1..]);
      if name[0] == '.' then [""] + rest else [[name[0]] + rest[0]] + rest[1..]
  }

  predicate IsAscii(text: string) {
    forall i | 0 <= i < |text| :: text[i] as int < 128
  }

  function AsciiBytes(text: string): (bytes: seq<Byte>)
    requires IsAscii(text)
    ensures |bytes| == |text|
  {
    seq(|text|, i requires 0 <= i < |text| => text[i] as Byte)
  }

  lemma {:induction false} SplitJoins(name: string)
    ensures Join(Split(name)) == name
    decreases |name|
  {
    if name != "" {
      SplitJoins(name[1..]);
      assert name == [name[0]] + name[1..];
      if name[0] == '.' {
        JoinAfterDot(Split(name[1..]));
      } else {
        JoinLonger(name[0], Split(name[1..]));
      }
    }
  }

  lemma {:induction false} SplitEnds(name: string)
    ensures Split(name)[|Split(name)| - 1] != "" ==> name != "" && name[|name| - 1] != '.'
    decreases |name|
  {
    if name != "" { SplitEnds(name[1..]); }
  }

  lemma SplitParts(name: string)
    ensures Join(Split(name)) == name
    ensures Split(name)[|Split(name)| - 1] != "" ==> name != "" && name[|name| - 1] != '.'
  {
    SplitJoins(name);
    SplitEnds(name);
  }

  lemma JoinAfterDot(rest: seq<string>)
    requires rest != []
    ensures Join([""] + rest) == ['.'] + Join(rest)
  {
    assert ([""] + rest)[1..] == rest;
    assert "" + "." + Join(rest) == ['.'] + Join(rest);
  }

  lemma JoinLonger(head: char, rest: seq<string>)
    requires rest != []
    ensures Join([[head] + rest[0]] + rest[1..]) == [head] + Join(rest)
  {
    var longer := [[head] + rest[0]] + rest[1..];
    assert longer[1..] == rest[1..];
    if |rest| > 1 {
      assert ([head] + rest[0]) + "." + Join(rest[1..]) == [head] + (rest[0] + "." + Join(rest[1..]));
    }
  }

  predicate HasQuestion(name: string) {
    forall i | 0 <= i < |Split(name)| :: IsAscii(Split(name)[i]) && |Split(name)[i]| < 256
  }

  function QuestionLabels(name: string): (labels: seq<Label>)
    requires HasQuestion(name)
    ensures Encodable(labels)
  {
    seq(|Split(name)|, i requires 0 <= i < |Split(name)| => AsciiBytes(Split(name)[i]))
  }

  function Word(value: nat): (bytes: seq<Byte>)
    requires value < 0x1_0000
    ensures |bytes| == 2
  {
    [value / 256, value % 256]
  }

  /**
   A query packet: a twelve-byte header, the question's name, its type and the Internet class.
   Building fails on non-ASCII text and on a label that one length byte cannot count.
   */
  function BuildQuery(id: nat, name: string, queryType: nat): (packet: Option<seq<Byte>>)
    requires id < 0x1_0000 && queryType < 0x1_0000
  {
    if !HasQuestion(name) then None
    else
      var header := Word(id) + Word(0x0100) + Word(1) + Word(0) + Word(0) + Word(0);
      Some(header + (EncodeLabels(QuestionLabels(name)) + [0]) + (Word(queryType) + Word(1)))
  }

  /** Two bytes in network order. */
  function ValueOf(high: int, low: int): int {
    high * 256 + low
  }

  lemma WordHoldsValue(value: nat)
    requires value < 0x1_0000
    ensures ValueOf(Word(value)[0], Word(value)[1]) == value
  {
  }

  predicate FitsQuestion(part: string) {
    |part| <= 255 && forall k | 0 <= k < |part| :: part[k] as int <= 127
  }

  /** A query is built exactly for names whose labels are ASCII and at most 255 characters long. */
  lemma QueryIsBuilt(id: nat, name: string, queryType: nat)
    requires id < 0x1_0000 && queryType < 0x1_0000
    ensures BuildQuery(id, name, queryType).Some? <==> forall i | 0 <= i < |Split(name)| :: FitsQuestion(Split(name)[i])
  {
    assert forall i | 0 <= i < |Split(name)| ::
      FitsQuestion(Split(name)[i]) <==> IsAscii(Split(name)[i]) && |Split(name)[i]| < 256;
  }

  const QUERY_HEADER: seq<Byte> := [1, 0, 0, 1, 0, 0, 0, 0, 0, 0]

  lemma HeaderBytes()
    ensures Word(0x0100) + Word(1) + Word(0) + Word(0) + Word(0) == QUERY_HEADER && Word(1) == [0, 1]
  {
  }

  lemma HeaderJoins(id: seq<Byte>, a: seq<Byte>, b: seq<Byte>, c: seq<Byte>, question: seq<Byte>, last: seq<Byte>, end: seq<Byte>)
    ensures id + a + b + c + c + c + question + (last + end) == id + (a + b + c + c + c) + question + last + end
  {
  }

  lemma FramedQuery(id: nat, name: string, queryType: nat)
    requires id < 0x1_0000 && queryType < 0x1_0000 && HasQuestion(name)
    ensures BuildQuery(id, name, queryType) ==
      Some(Word(id) + QUERY_HEADER + (EncodeLabels(QuestionLabels(name)) + [0]) + Word(queryType) + [0, 1])
  {
    HeaderBytes();
    HeaderJoins(Word(id), Word(0x0100), Word(1), Word(0), EncodeLabels(QuestionLabels(name)) + [0], Word(queryType), Word(1));
  }

  lemma FramedBytes(first: seq<Byte>, question: seq<Byte>, last: seq<Byte>)
    requires |first| == 2 && |last| == 2
    ensures
      var packet, n := first + QUERY_HEADER + question + last + [0, 1], |question|;
      && |packet| == n + 16 && packet[..2] == first && packet[2..12] == QUERY_HEADER
      && packet[n + 12..n + 14] == last && packet[n + 14..] == [0, 1]
  {
  }

  /** Before the question the identifier, recursion desired and one question, behind it its type and the Internet class. */
  lemma QueryBytes(id: nat, name: string, queryType: nat)
    requires id < 0x1_0000 && queryType < 0x1_0000 && BuildQuery(id, name, queryType).Some?
    ensures
      var packet := BuildQuery(id, name, queryType).value;
      && |packet| == 12 + (|name| + 2) + 4
      && packet[..2] == Word(id) && packet[2..12] == QUERY_HEADER
      && packet[|name| + 14..|name| + 16] == Word(queryType) && packet[|name| + 16..] == [0, 1]
    ensures ValueOf(Word(id)[0], Word(id)[1]) == id && ValueOf(Word(queryType)[0], Word(queryType)[1]) == queryType
  {
    SplitParts(name);
    EncodedLength(Split(name), QuestionLabels(name));
    WordHoldsValue(id);
    WordHoldsValue(queryType);
    FramedQuery(id, name, queryType);
    FramedBytes(Word(id), EncodeLabels(QuestionLabels(name)) + [0], Word(queryType));
  }

  lemma {:induction false} EncodedLength(parts: seq<string>, labels: seq<Label>)
    requires parts != [] && |parts| == |labels| && Encodable(labels)
    requires forall i | 0 <= i < |parts| :: |labels[i]| == |parts[i]|
    ensures |EncodeLabels(labels)| == |Join(parts)| + 1
    decreases |parts|
  {
    if |parts| == 1 {
      assert labels[1..] == [];
    } else {
      EncodedLength(parts[1..], labels[1..]);
    }
  }

  lemma AsciiReadsBack(part: string)
    requires IsAscii(part)
    ensures AsciiText(AsciiBytes(part)) == part
  {
    forall k | 0 <= k < |part|
      ensures AsciiText(AsciiBytes(part))[k] == part[k]
    {
      assert AsciiBytes(part)[k] == part[k] as int < 128;
    }
  }

  lemma QuestionTexts(name: string)
    requires HasQuestion(name)
    ensures Texts(QuestionLabels(name)) == Split(name)
  {
    var texts := Texts(QuestionLabels(name));
    forall i | 0 <= i < |texts|
      ensures texts[i] == Split(name)[i]
    {
      AsciiReadsBack(Split(name)[i]);
    }
  }

  /** The labels of a question whose last label is not empty read back as its lower-case name. */
  lemma QuestionText(name: string)
    requires HasQuestion(name)
    requires Split(name)[|Split(name)| - 1] != ""
    ensures NameText(QuestionLabels(name)) == Lower(name)
  {
    QuestionTexts(name);
    SplitParts(name);
    NothingToStrip(name);
  }

  lemma NothingToStrip(text: string)
    requires text != "" && text[|text| - 1] != '.'
    ensures StripTrailingDots(text) == text
  {
  }

  lemma QueryHoldsQuestion(id: nat, name: string, queryType: nat)
    requires id < 0x1_0000 && queryType < 0x1_0000
    requires HasQuestion(name)
    ensures HoldsAt(BuildQuery(id, name, queryType).value, 12, EncodeLabels(QuestionLabels(name)) + [0])
    ensures |EncodeLabels(QuestionLabels(name))| == |name| + 1
  {
    var question := EncodeLabels(QuestionLabels(name)) + [0];
    var header := Word(id) + Word(0x0100) + Word(1) + Word(0) + Word(0) + Word(0);
    var packet := header + question + (Word(queryType) + Word(1));
    assert forall i {:trigger question[i]} | 0 <= i < |question| :: packet[12 + i] == question[i];
    SplitParts(name);
    EncodedLength(Split(name), QuestionLabels(name));
  }

  /** The question at offset 12 spells `name` in lower case and parsing resumes just behind it. */
  ghost predicate ReadsBack(packet: seq<Byte>, name: string) {
    && Resume(packet, 12) == 12 + |name| + 2
    && exists labels :: Spells(packet, 12, labels) && NameText(labels) == Lower(name)
  }

  /**
   A question comes back whole if and only if every label has 1 to 191 bytes. RFC 1035 names,
   whose labels have 1 to 63 bytes, always do.
   */
  lemma QuestionRoundTrip(id: nat, name: string, queryType: nat)
    requires id < 0x1_0000 && queryType < 0x1_0000
    requires BuildQuery(id, name, queryType).Some?
    ensures ReadsBack(BuildQuery(id, name, queryType).value, name)
       <==> forall i | 0 <= i < |Split(name)| :: 1 <= |Split(name)[i]| < POINTER_TAG
  {
    var packet, labels := BuildQuery(id, name, queryType).value, QuestionLabels(name);
    QueryHoldsQuestion(id, name, queryType);
    assert forall i | 0 <= i < |labels| :: |labels[i]| == |Split(name)[i]|;
    if AllPlain(labels) {
      EncodedNameSpells(packet, 12, labels);
      assert Plain(labels[|labels| - 1]);
      QuestionText(name);
    } else {
      HoldsParts(packet, 12, EncodeLabels(labels), [0]);
      BadLabelResumesEarly(packet, 12, labels);
    }
  }
}
