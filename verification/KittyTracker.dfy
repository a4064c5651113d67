/** `KittyKeyboardTracker`, updated in place. */
module KittyTracking {
  import opened Common
  import opened KittyKeyboard
  import K = KittyKeyboard

  lemma ScanOnce(m: Modes, data: Bytes, l: Lexeme)
    requires data != [] && l == Lex(data)
    ensures l.NeedMore? ==> Scan(m, data) == (m, data)
    ensures l.Lexed? ==> Scan(m, data) == Scan(Do(m, l.event), data[l.length..])
  {
  }

  class KittyKeyboardTracker {
    var base: Byte
    var stack: seq<Byte>
    var carry: Bytes
    var queryReply: Option<Bytes>

    function View(): Tracker
      reads this
    {
      Tracker(Modes(base, stack, queryReply), carry)
    }

    constructor ()
      ensures View() == Tracker(Modes(0, [], None), [])
    {
      base, stack, carry, queryReply := 0, [], [], None;
    }

    /** Reads a run of digits from `from` on. */
    static method SkipDigits(data: Bytes, from: nat) returns (end: nat)
      requires from <= |data|
      ensures end == DigitsEnd(data, from)
    {
      end := from;
      while end < |data| && IsDigit(data[end])
        invariant from <= end <= |data|
        invariant forall i :: from <= i < end ==> IsDigit(data[i])
      {
        end := end + 1;
      }
      DigitsEndIs(data, from, end);
    }

    method ApplyOperation(operation: Byte, value: Option<Byte>)
      requires operation in [PUSH, POP, SET]
      modifies this`base, this`stack
      ensures View() == Tracker(Apply(old(View()).modes, operation, value), carry)
    {
      if operation == PUSH {
        stack := stack + [Supported(value)];
      } else if operation == POP {
        var count := if value.None? then 1 else value.value;
        var popped := 0;
        while popped < count && stack != []
          invariant 0 <= popped <= Min(count, |old(stack)|)
          invariant stack == old(stack)[..|old(stack)| - popped]
          invariant base == old(base)
        {
          stack := stack[..|stack| - 1];
          popped := popped + 1;
        }
      } else if stack != [] {
        stack := stack[|stack| - 1 := Supported(value)];
      } else {
        base := Supported(value);
      }
    }

    method Act(event: Event)
      requires event.Applied? ==> event.operation in [PUSH, POP, SET]
      modifies this`base, this`stack, this`queryReply
      ensures View() == Tracker(Do(old(View()).modes, event), carry)
    {
      match event {
        case Nothing =>
        case Asked => queryReply := Some(ReplyFor(View().modes));
        case Applied(operation, value) => ApplyOperation(operation, value);
      }
    }

    /** What the front of `tail` is: the source's chain of tests, in its order. */
    static method ReadSequence(tail: Bytes) returns (l: Lexeme)
      requires tail != []
      ensures l == Lex(tail)
      ensures l.Lexed? && l.event.Applied? ==> l.event.operation in [PUSH, POP, SET]
    {
      if tail[0] != ESC {
        return Lexed(1, Nothing);
      }
      if |tail| < 2 {
        return NeedMore;
      }
      if tail[1] != BRACKET {
        return Lexed(1, Nothing);
      }
      if |tail| < 3 {
        return NeedMore;
      }
      var operation := tail[2];
      if operation !in [PUSH, POP, SET, QUERY] {
        return Lexed(1, Nothing);
      }
      if operation == QUERY {
        if |tail| < 4 {
          return NeedMore;
        }
        return if tail[3] == TERMINATOR then Lexed(4, Asked) else Lexed(1, Nothing);
      }
      var end := SkipDigits(tail, 3);
      if end == |tail| {
        return NeedMore;
      }
      var flagsEnd := end;
      if operation == SET && tail[end] == SEMICOLON {
        end := SkipDigits(tail, end + 1);
        if end == |tail| {
          return NeedMore;
        }
      }
      if tail[end] != TERMINATOR {
        return Lexed(1, Nothing);
      }
      return Lexed(end + 1, Applied(operation, ParseU8(tail[3..flagsEnd])));
    }

    /** Reads one thing at `index` and acts on it; `end == index` says that it is unfinished. */
    method Advance(data: Bytes, index: nat) returns (end: nat)
      requires index < |data|
      modifies this`base, this`stack, this`queryReply
      ensures index <= end <= |data|
      ensures end == index ==>
                View() == old(View()) && Scan(View().modes, data[index..]) == (View().modes, data[index..])
      ensures end > index ==> Scan(old(View()).modes, data[index..]) == Scan(View().modes, data[end..])
    {
      var tail := data[index..];
      var l := ReadSequence(tail);
      ScanOnce(View().modes, tail, l);
      if l.NeedMore? {
        return index;
      }
      Act(l.event);
      end := index + l.length;
      assert tail[l.length..] == data[end..];
    }

    method Observe(bytes: Bytes)
      modifies this
      ensures View() == K.Observe(old(View()), bytes)
    {
      var data := carry + bytes;
      ghost var goal := Scan(View().modes, data);
      carry := [];
      var index, unfinished := 0, false;
      assert data[0..] == data;
      while index < |data| && !unfinished
        invariant 0 <= index <= |data| && carry == []
        invariant goal == Scan(View().modes, data[index..])
        invariant unfinished ==> goal == (View().modes, data[index..])
        decreases |data| - index, !unfinished
      {
        var end := Advance(data, index);
        unfinished := end == index;
        index := end;
      }
      assert index == |data| ==> data[index..] == [];
      if index < |data| && |data[index..]| <= MAX_CARRY_BYTES {
        carry := data[index..];
      }
    }

    method Active() returns (active: bool)
      ensures active <==> IsActive(View().modes)
    {
      active := (if stack == [] then base else stack[|stack| - 1]) % 2 != 0;
    }

    /** Hands the waiting answer over, once. */
    method TakeQueryReply() returns (r: Option<Bytes>)
      modifies this`queryReply
      ensures r == old(View()).modes.reply
      ensures View() == Tracker(old(View()).modes.(reply := None), carry)
    {
      r := queryReply;
      queryReply := None;
    }
  }
}
