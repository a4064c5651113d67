/** Following the kitty keyboard mode of a child terminal through its output, however it is cut up. */
module KittyKeyboard {
  import opened Common

  const MAX_CARRY_BYTES: nat := 64

  const ESC: Byte := 0x1B
  const BRACKET: Byte := 0x5B // [
  const PUSH: Byte := 0x3E // >
  const POP: Byte := 0x3C // <
  const SET: Byte := 0x3D // =
  const QUERY: Byte := 0x3F // ?
  const SEMICOLON: Byte := 0x3B // ;
  const TERMINATOR: Byte := 0x75 // u

  /** `base` and `stack` hold flags, `reply` the answer to the last query. */
  datatype Modes = Modes(base: Byte, stack: seq<Byte>, reply: Option<Bytes>)

  datatype Tracker = Tracker(modes: Modes, carry: Bytes)

  datatype Event = Nothing | Asked | Applied(operation: Byte, value: Option<Byte>)

  datatype Lexeme = NeedMore | Lexed(length: nat, event: Event)

  // ---------------------------------------------------------------------------
  // One sequence
  // ---------------------------------------------------------------------------

  predicate IsDigit(b: Byte) {
    0x30 <= b <= 0x39
  }

  function DigitsEnd(data: Bytes, from: nat): (end: nat)
    requires from <= |data|
    ensures from <= end <= |data|
    ensures forall i :: from <= i < end ==> IsDigit(data[i])
    ensures end < |data| ==> !IsDigit(data[end])
    decreases |data| - from
  {
    if from < |data| && IsDigit(data[from]) then DigitsEnd(data, from + 1) else from
  }

  function DecimalValue(digits: Bytes): nat
    requires forall b :: b in digits ==> IsDigit(b)
  {
    if digits == [] then 0
    else
      var last := digits[|digits| - 1];
      assert IsDigit(last);
      DecimalValue(digits[..|digits| - 1]) * 10 + (last - 0x30)
  }

  /** `str::parse::<u8>` on digits, nothing for none. */
  function ParseU8(digits: Bytes): Option<Byte>
    requires forall b :: b in digits ==> IsDigit(b)
  {
    if digits == [] || DecimalValue(digits) > 255 then None else Some(DecimalValue(digits))
  }

  /** What stands at the front of the data: an unfinished sequence, a finished one, or one byte to pass over. */
  function Lex(data: Bytes): (l: Lexeme)
    requires data != []
    ensures l.Lexed? ==> 1 <= l.length <= |data|
  {
    if data[0] != ESC then Lexed(1, Nothing)
    else if |data| < 2 then NeedMore
    else if data[1] != BRACKET then Lexed(1, Nothing)
    else if |data| < 3 then NeedMore
    else if data[2] !in [PUSH, POP, SET, QUERY] then Lexed(1, Nothing)
    else if data[2] == QUERY then
      if |data| < 4 then NeedMore
      else if data[3] == TERMINATOR then Lexed(4, Asked)
      else Lexed(1, Nothing)
    else
      var flagsEnd := DigitsEnd(data, 3);
      if flagsEnd == |data| then NeedMore
      else
        var end := if data[2] == SET && data[flagsEnd] == SEMICOLON then DigitsEnd(data, flagsEnd + 1) else flagsEnd;
        if end == |data| then NeedMore
        else if data[end] != TERMINATOR then Lexed(1, Nothing)
        else Lexed(end + 1, Applied(data[2], ParseU8(data[3..flagsEnd])))
  }

  // ---------------------------------------------------------------------------
  // Its effect
  // ---------------------------------------------------------------------------

  function Flags(m: Modes): Byte {
    if m.stack == [] then m.base else m.stack[|m.stack| - 1]
  }

  /** Whether keys are to be reported the disambiguated way. */
  predicate IsActive(m: Modes) {
    Flags(m) % 2 != 0
  }

  function Decimal(x: nat): Bytes {
    (if x < 10 then [] else Decimal(x / 10)) + [0x30 + x % 10]
  }

  function ReplyFor(m: Modes): Bytes {
    [ESC, BRACKET, QUERY] + Decimal(Flags(m)) + [TERMINATOR]
  }

  /** Only the lowest flag is supported. */
  function Supported(value: Option<Byte>): Byte {
    if value.None? then 0 else value.value % 2
  }

  function Apply(m: Modes, operation: Byte, value: Option<Byte>): Modes {
    if operation == PUSH then m.(stack := m.stack + [Supported(value)])
    else if operation == POP then
      var count := if value.None? then 1 else value.value;
      m.(stack := m.stack[..|m.stack| - Min(count, |m.stack|)])
    else if operation == SET then
      if m.stack == [] then m.(base := Supported(value))
      else m.(stack := m.stack[|m.stack| - 1 := Supported(value)])
    else m
  }

  function Do(m: Modes, event: Event): Modes {
    match event
    case Nothing => m
    case Asked => m.(reply := Some(ReplyFor(m)))
    case Applied(operation, value) => Apply(m, operation, value)
  }

  /** The modes after all finished sequences, and the unfinished rest. */
  function Scan(m: Modes, data: Bytes): (Modes, Bytes)
    decreases |data|
  {
    if data == [] then (m, [])
    else
      match Lex(data)
      case NeedMore => (m, data)
      case Lexed(length, event) => Scan(Do(m, event), data[length..])
  }

  function Unfinished(t: Tracker, bytes: Bytes): Bytes {
    Scan(t.modes, t.carry + bytes).1
  }

  function Observe(t: Tracker, bytes: Bytes): Tracker {
    var (modes, rest) := Scan(t.modes, t.carry + bytes);
    Tracker(modes, if |rest| <= MAX_CARRY_BYTES then rest else [])
  }

  // ---------------------------------------------------------------------------
  // Cutting the stream
  // ---------------------------------------------------------------------------

  lemma {:induction false} DigitsEndIgnoresWhatFollows(data: Bytes, more: Bytes, from: nat)
    requires from <= |data|
    ensures DigitsEnd(data, from) < |data| ==> DigitsEnd(data + more, from) == DigitsEnd(data, from)
    decreases |data| - from
  {
    if from < |data| && IsDigit(data[from]) {
      DigitsEndIgnoresWhatFollows(data, more, from + 1);
    }
  }

  /** A finished sequence is the same whatever follows it. */
  lemma LexIgnoresWhatFollows(data: Bytes, more: Bytes)
    requires data != [] && Lex(data).Lexed?
    ensures Lex(data + more) == Lex(data)
  {
    var all := data + more;
    assert forall i :: 0 <= i < |data| ==> all[i] == data[i];
    if |data| >= 3 {
      DigitsEndIgnoresWhatFollows(data, more, 3);
      var flagsEnd := DigitsEnd(data, 3);
      if flagsEnd < |data| {
        DigitsEndIgnoresWhatFollows(data, more, flagsEnd + 1);
        assert all[3..flagsEnd] == data[3..flagsEnd];
      }
    }
  }

  /** Scanning a whole is scanning its first part, then what that left over with the second part. */
  lemma {:induction false} ScanInTwoParts(m: Modes, a: Bytes, b: Bytes)
    ensures Scan(m, a + b) == Scan(Scan(m, a).0, Scan(m, a).1 + b)
    decreases |a|
  {
    if a == [] {
      assert a + b == b && [] + b == b;
    } else if Lex(a).Lexed? {
      LexIgnoresWhatFollows(a, b);
      var n := Lex(a).length;
      assert (a + b)[n..] == a[n..] + b;
      ScanInTwoParts(Do(m, Lex(a).event), a[n..], b);
    }
  }

  /** Cutting the output anywhere changes nothing, as long as the unfinished tail at the cut can be carried. */
  lemma ChunkingInvariance(t: Tracker, a: Bytes, b: Bytes)
    requires |Unfinished(t, a)| <= MAX_CARRY_BYTES
    ensures Observe(Observe(t, a), b) == Observe(t, a + b)
  {
    assert t.carry + (a + b) == (t.carry + a) + b;
    ScanInTwoParts(t.modes, t.carry + a, b);
  }

  function ObserveAll(t: Tracker, chunks: seq<Bytes>): Tracker
    decreases |chunks|
  {
    if chunks == [] then t else ObserveAll(Observe(t, chunks[0]), chunks[1..])
  }

  function Joined(chunks: seq<Bytes>): Bytes {
    if chunks == [] then [] else chunks[0] + Joined(chunks[1..])
  }

  /** The unfinished tail at every cut can be carried. */
  ghost predicate TailsFit(t: Tracker, chunks: seq<Bytes>)
    decreases |chunks|
  {
    |chunks| <= 1
    || (|Unfinished(t, chunks[0])| <= MAX_CARRY_BYTES && TailsFit(Observe(t, chunks[0]), chunks[1..]))
  }

  /** The same for any number of cuts. */
  lemma {:induction false} AnyChunkingInvariance(t: Tracker, chunks: seq<Bytes>)
    requires chunks != [] && TailsFit(t, chunks)
    ensures ObserveAll(t, chunks) == Observe(t, Joined(chunks))
    decreases |chunks|
  {
    if |chunks| == 1 {
      assert chunks[1..] == [] && chunks[0] + [] == chunks[0];
    } else {
      ChunkingInvariance(t, chunks[0], Joined(chunks[1..]));
      AnyChunkingInvariance(Observe(t, chunks[0]), chunks[1..]);
    }
  }

  /** For an unfinished push the limit is exact: one byte over it, and cutting there loses the push. */
  lemma LongPushIsLost(t: Tracker, a: Bytes)
    requires |Unfinished(t, a)| >= 3 && Unfinished(t, a)[2] == PUSH && Lex(Unfinished(t, a)).NeedMore?
    ensures (forall b :: Observe(Observe(t, a), b) == Observe(t, a + b)) <==> |Unfinished(t, a)| <= MAX_CARRY_BYTES
  {
    if |Unfinished(t, a)| <= MAX_CARRY_BYTES {
      forall b ensures Observe(Observe(t, a), b) == Observe(t, a + b) {
        ChunkingInvariance(t, a, b);
      }
    } else {
      LongPushFinishes(t, a);
    }
  }

  /** Finished after a cut a long push is lost, finished at once it is not. */
  lemma LongPushFinishes(t: Tracker, a: Bytes)
    requires |Unfinished(t, a)| > MAX_CARRY_BYTES && Unfinished(t, a)[2] == PUSH && Lex(Unfinished(t, a)).NeedMore?
    ensures Observe(Observe(t, a), [TERMINATOR]) != Observe(t, a + [TERMINATOR])
  {
    var (modes, rest) := Scan(t.modes, t.carry + a);
    var u := [TERMINATOR];
    Regroup(t.carry, a, u);
    ScanInTwoParts(t.modes, t.carry + a, u);
    var value := LongTailFinishes(rest);
    FinishedAtOnce(modes, rest, u, PUSH, value);
    assert [] + (rest + u) == rest + u && [] + u == u;
    TextChangesNothing(modes, u);
    assert Observe(t, a) == Tracker(modes, []);
    assert |Apply(modes, PUSH, value).stack| == |modes.stack| + 1;
  }

  /** Whatever is unfinished and long is digits so far, and a terminator finishes it. */
  lemma LongTailFinishes(tail: Bytes) returns (value: Option<Byte>)
    requires |tail| > 4 && Lex(tail).NeedMore?
    ensures tail[0] == ESC && tail[2] in [PUSH, POP, SET]
    ensures Lex(tail + [TERMINATOR]) == Lexed(|tail| + 1, Applied(tail[2], value))
    ensures tail[2] == POP ==> DigitsEnd(tail, 3) == |tail| && value == ParseU8(tail[3..])
  {
    var all := tail + [TERMINATOR];
    var flagsEnd := DigitsEnd(tail, 3);
    assert forall i :: 0 <= i < |tail| ==> all[i] == tail[i];
    DigitsEndIs(all, 3, flagsEnd);
    if flagsEnd < |tail| {
      DigitsEndIs(all, flagsEnd + 1, |tail|);
    }
    value := ParseU8(all[3..flagsEnd]);
    assert flagsEnd == |tail| ==> all[3..flagsEnd] == tail[3..];
  }

  /** A tail that is not carried is forgotten: the bytes that would have finished it are text. */
  lemma LongTailIsDropped(m: Modes, tail: Bytes, text: Bytes)
    requires tail != [] && Lex(tail).NeedMore? && |tail| > MAX_CARRY_BYTES && ESC !in text
    ensures Observe(Observe(Tracker(m, []), tail), text) == Tracker(m, [])
  {
    assert [] + tail == tail && [] + text == text;
    assert Scan(m, tail) == (m, tail);
    TextChangesNothing(m, text);
  }

  lemma FinishedAtOnce(m: Modes, tail: Bytes, more: Bytes, operation: Byte, value: Option<Byte>)
    requires tail + more != [] && Lex(tail + more) == Lexed(|tail + more|, Applied(operation, value))
    ensures Observe(Tracker(m, []), tail + more) == Tracker(Apply(m, operation, value), [])
  {
    var all := tail + more;
    assert [] + all == all && all[|all|..] == [];
    assert Scan(m, all) == Scan(Do(m, Applied(operation, value)), all[|all|..]);
  }

  /** A digit that makes a long unfinished pop of nothing a pop of one. */
  lemma LongPopOfNothing(tail: Bytes) returns (longer: Bytes)
    requires |tail| > 4 && Lex(tail).NeedMore? && tail[2] == POP && ParseU8(tail[3..]) == Some(0)
    ensures longer == tail + [0x31]
    ensures Lex(longer).NeedMore? && longer[0] == ESC && longer[2] == POP && DigitsEnd(longer, 3) == |longer|
    ensures ParseU8(longer[3..]) == Some(1)
  {
    longer := tail + [0x31];
    var value := LongTailFinishes(tail);
    DigitsEndIs(longer, 3, |longer|);
    assert longer[3..] == tail[3..] + [0x31];
    assert longer[3..][..|longer[3..]| - 1] == tail[3..];
  }

  lemma FinishedPopShows(m: Modes, tail: Bytes, more: Bytes, value: Option<Byte>)
    requires m.stack != [] && value != Some(0)
    requires tail + more != [] && Lex(tail + more) == Lexed(|tail + more|, Applied(POP, value))
    ensures Observe(Tracker(m, []), tail + more) != Tracker(m, [])
  {
    FinishedAtOnce(m, tail, more, POP, value);
    assert |Apply(m, POP, value).stack| < |m.stack|;
  }

  /** Bytes that finish the tail, and modes in which finishing it shows. */
  lemma FinishingShows(tail: Bytes) returns (m: Modes, more: Bytes)
    requires |tail| > MAX_CARRY_BYTES && Lex(tail).NeedMore?
    ensures ESC !in more
    ensures Observe(Tracker(m, []), tail + more) != Tracker(m, [])
  {
    var value := LongTailFinishes(tail);
    more := [TERMINATOR];
    if tail[2] == POP {
      m := Modes(0, [0], None);
      if value == Some(0) {
        var longer := LongPopOfNothing(tail);
        value := LongTailFinishes(longer);
        more := [0x31, TERMINATOR];
        assert tail + more == longer + [TERMINATOR];
      }
      FinishedPopShows(m, tail, more, value);
    } else {
      m := Modes(1 - Supported(value), [], None);
      FinishedAtOnce(m, tail, more, tail[2], value);
    }
  }

  /**
   * The limit on the carry is exact: an unfinished tail can be cut off safely, whatever the modes and
   * whatever follows, if and only if it is within the limit.
   */
  lemma CarryLimitIsExact(tail: Bytes)
    requires tail != [] && Lex(tail).NeedMore?
    ensures (forall m: Modes, more: Bytes ::
              Observe(Observe(Tracker(m, []), tail), more) == Observe(Tracker(m, []), tail + more))
            <==> |tail| <= MAX_CARRY_BYTES
  {
    if |tail| <= MAX_CARRY_BYTES {
      forall m: Modes, more: Bytes
        ensures Observe(Observe(Tracker(m, []), tail), more) == Observe(Tracker(m, []), tail + more)
      {
        assert [] + tail == tail;
        ChunkingInvariance(Tracker(m, []), tail, more);
      }
    } else {
      var m, more := FinishingShows(tail);
      LongTailIsDropped(m, tail, more);
    }
  }

  function Ones(n: nat): (digits: Bytes)
    ensures |digits| == n && forall i :: 0 <= i < n ==> digits[i] == 0x31
  {
    if n == 0 then [] else Ones(n - 1) + [0x31]
  }

  /** A push with 62 digits, cut just before its end: seen whole it counts, seen in two pieces it is lost. */
  lemma ALongPushIsLost() returns (push: Bytes)
    ensures |push| == MAX_CARRY_BYTES + 2 && push[|push| - 1] == TERMINATOR
    ensures var t := Tracker(Modes(0, [], None), []);
            && Observe(t, push) == Tracker(Modes(0, [0], None), [])
            && Observe(Observe(t, push[..|push| - 1]), push[|push| - 1..]) == t
  {
    var digits := Ones(MAX_CARRY_BYTES - 2);
    var tail := [ESC, BRACKET, PUSH] + digits;
    DigitsEndIs(tail, 3, |tail|);
    var value := LongTailFinishes(tail);
    push := tail + [TERMINATOR];
    assert push[..|push| - 1] == tail && push[|push| - 1..] == [TERMINATOR];
    LongTailIsDropped(Modes(0, [], None), tail, [TERMINATOR]);
    SequenceIsRead(PUSH, digits);
    assert push == Sequence(PUSH, digits);
    OnesAreTooMany(MAX_CARRY_BYTES - 2);
    FinishedAtOnce(Modes(0, [], None), tail, [TERMINATOR], PUSH, None);
  }

  lemma {:induction false} OnesAreTooMany(n: nat)
    requires n > 3
    ensures DecimalValue(Ones(n)) > 255 && ParseU8(Ones(n)) == None
  {
    if n > 4 {
      OnesAreTooMany(n - 1);
      assert Ones(n)[..n - 1] == Ones(n - 1);
    } else {
      FourOnes();
    }
  }

  lemma FourOnes()
    ensures DecimalValue(Ones(4)) == 1111
  {
    assert Ones(1) == [0x31] && Ones(2) == [0x31, 0x31];
    assert Ones(3) == [0x31, 0x31, 0x31] && Ones(4) == [0x31, 0x31, 0x31, 0x31];
    assert DecimalValue(Ones(4)[..1]) == 1;
    assert Ones(4)[..2][..1] == Ones(4)[..1] && Ones(4)[..3][..2] == Ones(4)[..2];
  }

  // ---------------------------------------------------------------------------
  // What the modes can be
  // ---------------------------------------------------------------------------

  ghost predicate FlagsAreBits(m: Modes) {
    m.base <= 1 && forall i :: 0 <= i < |m.stack| ==> m.stack[i] <= 1
  }

  /** Whatever a child prints, every flag kept is 0 or 1. */
  lemma {:induction false} ScanKeepsBits(m: Modes, data: Bytes)
    requires FlagsAreBits(m)
    ensures FlagsAreBits(Scan(m, data).0)
    decreases |data|
  {
    if data != [] && Lex(data).Lexed? {
      ScanKeepsBits(Do(m, Lex(data).event), data[Lex(data).length..]);
    }
  }

  /** Text without an escape passes through. */
  lemma {:induction false} TextChangesNothing(m: Modes, text: Bytes)
    requires ESC !in text
    ensures Scan(m, text) == (m, [])
    decreases |text|
  {
    if text != [] {
      assert text[0] in text;
      assert Lex(text) == Lexed(1, Nothing);
      TextChangesNothing(m, text[1..]);
    }
  }

  function Sequence(operation: Byte, digits: Bytes): Bytes {
    [ESC, BRACKET, operation] + digits + [TERMINATOR]
  }

  lemma {:induction false} DigitsEndIs(data: Bytes, from: nat, end: nat)
    requires from <= end <= |data|
    requires forall i :: from <= i < end ==> IsDigit(data[i])
    requires end < |data| ==> !IsDigit(data[end])
    ensures DigitsEnd(data, from) == end
    decreases end - from
  {
    if from < end {
      DigitsEndIs(data, from + 1, end);
    }
  }

  /** A sequence somebody writes is the sequence that is read, with the flags it named. */
  lemma SequenceIsRead(operation: Byte, digits: Bytes)
    requires operation in [PUSH, POP, SET] && forall b :: b in digits ==> IsDigit(b)
    ensures Lex(Sequence(operation, digits)) == Lexed(|digits| + 4, Applied(operation, ParseU8(digits)))
  {
    var data := Sequence(operation, digits);
    assert forall i :: 3 <= i < 3 + |digits| ==> data[i] == digits[i - 3];
    assert data[3 + |digits|] == TERMINATOR;
    DigitsEndIs(data, 3, 3 + |digits|);
    assert data[3..3 + |digits|] == digits;
  }

  // ---------------------------------------------------------------------------
  // The grammar
  // ---------------------------------------------------------------------------

  predicate AllDigits(digits: Bytes) {
    forall b :: b in digits ==> '0' as int <= b <= '9' as int
  }

  lemma DigitsAreDigits(digits: Bytes)
    requires AllDigits(digits)
    ensures forall i :: 0 <= i < |digits| ==> IsDigit(digits[i])
  {
    assert forall i :: 0 <= i < |digits| ==> digits[i] in digits;
  }

  /** A push, pop or set with its number; a set may have a second one, which is passed over. */
  predicate Spelled(bytes: Bytes, operation: Byte, flags: Bytes, second: Option<Bytes>) {
    && operation in [PUSH, POP, SET] && AllDigits(flags)
    && (second.Some? ==> operation == SET && AllDigits(second.value))
    && bytes == [ESC, BRACKET, operation] + flags
                + (if second.Some? then [SEMICOLON] + second.value else []) + [TERMINATOR]
  }

  ghost predicate Written(bytes: Bytes, event: Event) {
    || (bytes == [ESC, BRACKET, QUERY, TERMINATOR] && event == Asked)
    || exists operation, flags, second ::
         Spelled(bytes, operation, flags, second) && event == Applied(operation, ParseU8(flags))
  }

  /** The reader's own steps, once it is known where the digits end. */
  lemma LexNumbered(bytes: Bytes, flagsEnd: nat)
    requires 3 <= flagsEnd < |bytes| && bytes[0] == ESC && bytes[1] == BRACKET && bytes[2] in [PUSH, POP, SET]
    requires DigitsEnd(bytes, 3) == flagsEnd
    requires if bytes[2] == SET && bytes[flagsEnd] == SEMICOLON then DigitsEnd(bytes, flagsEnd + 1) == |bytes| - 1
             else flagsEnd == |bytes| - 1
    requires bytes[|bytes| - 1] == TERMINATOR
    ensures Lex(bytes) == Lexed(|bytes|, Applied(bytes[2], ParseU8(bytes[3..flagsEnd])))
  {
  }

  lemma NumberIsRead(bytes: Bytes, operation: Byte, flags: Bytes)
    requires Spelled(bytes, operation, flags, None)
    ensures Lex(bytes) == Lexed(|bytes|, Applied(operation, ParseU8(flags)))
  {
    var flagsEnd := 3 + |flags|;
    DigitsAreDigits(flags);
    assert bytes[3..flagsEnd] == flags;
    assert forall i :: 3 <= i < flagsEnd ==> bytes[i] == flags[i - 3];
    DigitsEndIs(bytes, 3, flagsEnd);
    LexNumbered(bytes, flagsEnd);
  }

  lemma SecondNumberIsPassedOver(bytes: Bytes, flags: Bytes, second: Bytes)
    requires Spelled(bytes, SET, flags, Some(second))
    ensures Lex(bytes) == Lexed(|bytes|, Applied(SET, ParseU8(flags)))
  {
    var flagsEnd := 3 + |flags|;
    DigitsAreDigits(flags);
    DigitsAreDigits(second);
    assert bytes[3..flagsEnd] == flags;
    assert forall i :: 3 <= i < flagsEnd ==> bytes[i] == flags[i - 3];
    assert forall i :: flagsEnd < i < |bytes| - 1 ==> bytes[i] == second[i - flagsEnd - 1];
    DigitsEndIs(bytes, 3, flagsEnd);
    DigitsEndIs(bytes, flagsEnd + 1, |bytes| - 1);
    LexNumbered(bytes, flagsEnd);
  }

  lemma SpelledIsRead(bytes: Bytes, operation: Byte, flags: Bytes, second: Option<Bytes>)
    requires Spelled(bytes, operation, flags, second)
    ensures Lex(bytes) == Lexed(|bytes|, Applied(operation, ParseU8(flags)))
  {
    if second.Some? {
      SecondNumberIsPassedOver(bytes, flags, second.value);
    } else {
      NumberIsRead(bytes, operation, flags);
    }
  }

  lemma ReadIsFramed(data: Bytes)
    requires data != [] && Lex(data).Lexed? && Lex(data).event.Applied?
    ensures var (flagsEnd, n) := (DigitsEnd(data, 3), Lex(data).length);
            && 3 <= flagsEnd < n <= |data| && data[2] in [PUSH, POP, SET]
            && data[0] == ESC && data[1] == BRACKET && data[n - 1] == TERMINATOR
            && Lex(data).event == Applied(data[2], ParseU8(data[3..flagsEnd]))
    ensures var (flagsEnd, n) := (DigitsEnd(data, 3), Lex(data).length);
            if data[2] == SET && data[flagsEnd] == SEMICOLON then n - 1 == DigitsEnd(data, flagsEnd + 1)
            else n - 1 == flagsEnd
  {
  }

  lemma InPieces(data: Bytes, flagsEnd: nat, n: nat)
    requires 3 <= flagsEnd < n <= |data|
    ensures data[..n] == [data[0], data[1], data[2]] + data[3..flagsEnd] + data[flagsEnd..n - 1] + [data[n - 1]]
    ensures flagsEnd < n - 1 ==> data[flagsEnd..n - 1] == [data[flagsEnd]] + data[flagsEnd + 1..n - 1]
  {
  }

  lemma RunsAreDigits(data: Bytes, from: nat, end: nat)
    requires from <= end <= |data| && forall i :: from <= i < end ==> IsDigit(data[i])
    ensures AllDigits(data[from..end])
  {
  }

  lemma ReadIsSpelled(data: Bytes) returns (flags: Bytes, second: Option<Bytes>)
    requires data != [] && Lex(data).Lexed? && Lex(data).event.Applied?
    ensures var event := Lex(data).event;
            && Spelled(data[..Lex(data).length], event.operation, flags, second)
            && event.value == ParseU8(flags)
  {
    var flagsEnd, n := DigitsEnd(data, 3), Lex(data).length;
    ReadIsFramed(data);
    InPieces(data, flagsEnd, n);
    RunsAreDigits(data, 3, flagsEnd);
    flags, second := data[3..flagsEnd], None;
    if data[2] == SET && data[flagsEnd] == SEMICOLON {
      RunsAreDigits(data, flagsEnd + 1, n - 1);
      second := Some(data[flagsEnd + 1..n - 1]);
    } else {
      assert data[flagsEnd..n - 1] == [];
    }
  }

  /** Whatever is unfinished has an end that would finish it. */
  lemma UnfinishedCanEnd(data: Bytes) returns (more: Bytes)
    requires data != [] && Lex(data).NeedMore?
    ensures more != [] && Lex(data + more).Lexed? && Lex(data + more).event != Nothing
    ensures Lex(data + more).length == |data + more|
  {
    if |data| < 3 {
      more := [ESC, BRACKET, QUERY, TERMINATOR][|data|..];
      assert data + more == [ESC, BRACKET, QUERY, TERMINATOR];
    } else if data[2] == QUERY {
      more := [TERMINATOR];
    } else {
      more := [TERMINATOR];
      var all, flagsEnd := data + more, DigitsEnd(data, 3);
      assert forall i :: 0 <= i < |data| ==> all[i] == data[i];
      DigitsEndIs(all, 3, flagsEnd);
      if flagsEnd < |data| {
        DigitsEndIs(all, flagsEnd + 1, |data|);
      }
    }
  }

  /** What is read at the front of the data is a sequence of the grammar. */
  lemma ReadIsWritten(data: Bytes)
    requires data != [] && Lex(data).Lexed? && Lex(data).event != Nothing
    ensures Written(data[..Lex(data).length], Lex(data).event)
  {
    if Lex(data).event.Applied? {
      var flags, second := ReadIsSpelled(data);
    } else {
      assert data[..4] == [ESC, BRACKET, QUERY, TERMINATOR];
    }
  }

  lemma WrittenIsRead(bytes: Bytes, event: Event)
    requires Written(bytes, event)
    ensures bytes != [] && Lex(bytes) == Lexed(|bytes|, event) && event != Nothing
  {
    if event.Applied? {
      var operation, flags, second :|
        Spelled(bytes, operation, flags, second) && event == Applied(operation, ParseU8(flags));
      SpelledIsRead(bytes, operation, flags, second);
    }
  }

  /** The data begins with this sequence. */
  ghost predicate BeginsWith(data: Bytes, n: nat, event: Event) {
    n <= |data| && Written(data[..n], event)
  }

  ghost predicate Completes(data: Bytes, more: Bytes, event: Event) {
    more != [] && Written(data + more, event)
  }

  /**
   * The reader reads the grammar: a sequence that stands at the front, with what it says; waits exactly for
   * data that some end would make one; and passes over one byte of anything else.
   */
  lemma LexReadsTheGrammar(data: Bytes)
    requires data != []
    ensures forall n: nat, event :: event != Nothing ==> (Lex(data) == Lexed(n, event) <==> BeginsWith(data, n, event))
    ensures Lex(data).NeedMore? <==> exists more, event :: Completes(data, more, event)
    ensures Lex(data).Lexed? && Lex(data).event == Nothing ==> Lex(data).length == 1
  {
    forall n: nat, event | event != Nothing ensures Lex(data) == Lexed(n, event) <==> BeginsWith(data, n, event) {
      if Lex(data) == Lexed(n, event) {
        ReadIsWritten(data);
      }
      if BeginsWith(data, n, event) {
        WrittenIsRead(data[..n], event);
        LexIgnoresWhatFollows(data[..n], data[n..]);
        assert data[..n] + data[n..] == data;
      }
    }
    if Lex(data).NeedMore? {
      var more := UnfinishedCanEnd(data);
      var all := data + more;
      ReadIsWritten(all);
      assert all[..|all|] == all;
      assert Completes(data, more, Lex(all).event);
    }
    forall more, event | Completes(data, more, event) ensures Lex(data).NeedMore? {
      WrittenIsRead(data + more, event);
      if Lex(data).Lexed? {
        LexIgnoresWhatFollows(data, more);
        assert false;
      }
    }
  }

  lemma SequenceIsApplied(m: Modes, operation: Byte, digits: Bytes, text: Bytes)
    requires operation in [PUSH, POP, SET] && forall b :: b in digits ==> IsDigit(b)
    requires ESC !in text
    ensures Scan(m, Sequence(operation, digits) + text) == (Apply(m, operation, ParseU8(digits)), [])
  {
    var data := Sequence(operation, digits);
    SequenceIsRead(operation, digits);
    LexIgnoresWhatFollows(data, text);
    assert (data + text)[|digits| + 4..] == text;
    TextChangesNothing(Apply(m, operation, ParseU8(digits)), text);
  }

  /** Push, print, pop: the child is back where it was, however nested it was already. */
  lemma PushThenPop(t: Tracker, digits: Bytes, text: Bytes)
    requires t.carry == [] && ESC !in text && forall b :: b in digits ==> IsDigit(b)
    ensures var pushed := Observe(t, Sequence(PUSH, digits) + text);
            && Flags(pushed.modes) == Supported(ParseU8(digits))
            && Observe(pushed, Sequence(POP, [])) == t
  {
    var push, pop := Sequence(PUSH, digits) + text, Sequence(POP, []);
    var deeper := Apply(t.modes, PUSH, ParseU8(digits));
    assert [] + push == push && [] + pop == pop && pop + [] == pop;
    SequenceIsApplied(t.modes, PUSH, digits, text);
    SequenceIsApplied(deeper, POP, [], []);
    assert deeper.stack[..|t.modes.stack|] == t.modes.stack;
  }

  function PushAll(m: Modes, values: seq<Option<Byte>>): Modes {
    if values == [] then m else Apply(PushAll(m, values[..|values| - 1]), PUSH, values[|values| - 1])
  }

  /** One pop with a count undoes that many pushes; more than there are empties the stack and no more. */
  lemma {:induction false} PopUndoesPushes(m: Modes, values: seq<Option<Byte>>, count: Byte)
    ensures |PushAll(m, values).stack| == |m.stack| + |values|
    ensures PushAll(m, values).stack[..|m.stack|] == m.stack
    ensures count == |values| ==> Apply(PushAll(m, values), POP, Some(count)) == m
    ensures count >= |m.stack| ==> Apply(m, POP, Some(count)) == m.(stack := [])
  {
    if values != [] {
      PopUndoesPushes(m, values[..|values| - 1], count);
    }
    assert PushAll(m, values).base == m.base && PushAll(m, values).reply == m.reply by {
      PushesTouchOnlyTheStack(m, values);
    }
  }

  lemma {:induction false} PushesTouchOnlyTheStack(m: Modes, values: seq<Option<Byte>>)
    ensures PushAll(m, values).base == m.base && PushAll(m, values).reply == m.reply
  {
    if values != [] {
      PushesTouchOnlyTheStack(m, values[..|values| - 1]);
    }
  }

  lemma OneDigitMore(digits: Bytes, d: nat)
    requires AllDigits(digits) && d < 10
    ensures AllDigits(digits + [0x30 + d]) && DecimalValue(digits + [0x30 + d]) == DecimalValue(digits) * 10 + d
  {
    assert (digits + [0x30 + d])[..|digits|] == digits;
  }

  /** A number is written in the digits it is read from, without a leading zero. */
  lemma {:induction false} DecimalIsRead(x: nat)
    ensures Decimal(x) != [] && AllDigits(Decimal(x)) && DecimalValue(Decimal(x)) == x
    ensures x > 0 ==> Decimal(x)[0] != '0' as int
  {
    if x >= 10 {
      var (tens, ones) := (x / 10, x % 10);
      DecimalIsRead(tens);
      OneDigitMore(Decimal(tens), ones);
      assert Decimal(x) == Decimal(tens) + [0x30 + ones];
    } else {
      OneDigitMore([], x);
      assert Decimal(x) == [] + [0x30 + x];
    }
  }

  lemma QueryIsRead(m: Modes)
    ensures Scan(m, [ESC, BRACKET, QUERY, TERMINATOR]) == (m.(reply := Some(ReplyFor(m))), [])
  {
    var ask := [ESC, BRACKET, QUERY, TERMINATOR];
    assert Lex(ask) == Lexed(4, Asked) && ask[4..] == [];
  }

  lemma AskIsAnswered(t: Tracker)
    requires t.carry == [] && Flags(t.modes) <= 1
    ensures Observe(t, Sequence(QUERY, [])).modes.reply == Some(Sequence(QUERY, [0x30 + Flags(t.modes)]))
  {
    var ask := [ESC, BRACKET, QUERY, TERMINATOR];
    QueryIsRead(t.modes);
    assert [] + ask == ask && Sequence(QUERY, []) == ask;
    assert Decimal(Flags(t.modes)) == [0x30 + Flags(t.modes)];
  }

  lemma SequenceIsObserved(t: Tracker, operation: Byte, digits: Bytes)
    requires operation in [PUSH, POP, SET] && t.carry == [] && forall b :: b in digits ==> IsDigit(b)
    ensures Observe(t, Sequence(operation, digits)) == Tracker(Apply(t.modes, operation, ParseU8(digits)), [])
  {
    var data := Sequence(operation, digits);
    SequenceIsApplied(t.modes, operation, digits, []);
    assert [] + data == data && data + [] == data;
  }

  lemma SetIsObserved(t: Tracker, digits: Bytes)
    requires t.carry == [] && forall b :: b in digits ==> IsDigit(b)
    ensures Observe(t, Sequence(SET, digits)).carry == []
    ensures Flags(Observe(t, Sequence(SET, digits)).modes) == Supported(ParseU8(digits))
  {
    SequenceIsObserved(t, SET, digits);
  }

  /** A push or a set switches reporting on exactly when its number is odd and fits a byte. */
  lemma ActivatedExactly(t: Tracker, operation: Byte, digits: Bytes)
    requires operation in [PUSH, SET] && t.carry == [] && forall b :: b in digits ==> IsDigit(b)
    ensures IsActive(Observe(t, Sequence(operation, digits)).modes) <==> IsOddByte(digits)
  {
    SequenceIsObserved(t, operation, digits);
    FlagsAfter(t.modes, operation, ParseU8(digits));
    SupportedExactly(digits);
  }

  predicate IsOddByte(digits: Bytes)
    requires forall b :: b in digits ==> IsDigit(b)
  {
    DecimalValue(digits) <= 255 && DecimalValue(digits) % 2 == 1
  }

  lemma FlagsAfter(m: Modes, operation: Byte, value: Option<Byte>)
    requires operation in [PUSH, SET]
    ensures Flags(Apply(m, operation, value)) == Supported(value)
  {
  }

  lemma SupportedExactly(digits: Bytes)
    requires forall b :: b in digits ==> IsDigit(b)
    ensures Supported(ParseU8(digits)) == if IsOddByte(digits) then 1 else 0
  {
    assert digits == [] ==> DecimalValue(digits) == 0;
  }

  /** Setting flags and asking for them answers with what was set. */
  lemma SetThenAsk(t: Tracker, digits: Bytes)
    requires t.carry == [] && forall b :: b in digits ==> IsDigit(b)
    ensures Observe(Observe(t, Sequence(SET, digits)), Sequence(QUERY, [])).modes.reply
            == Some(Sequence(QUERY, [0x30 + Supported(ParseU8(digits))]))
  {
    SetIsObserved(t, digits);
    AskIsAnswered(Observe(t, Sequence(SET, digits)));
  }
}
