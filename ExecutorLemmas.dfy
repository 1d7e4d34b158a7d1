/**
 * What one step and a bounded run of the dispatch loop guarantee.
 */
module ExecutorLemmas {
  import opened Wrappers
  import opened Tokens
  import Tape
  import opened Executor

  /** The data effect of each instruction: `+`/`-` wrap on a byte and touch
      only the current cell, `<`/`>` move the pointer and touch no cell,
      `.` appends the current cell as a character, `,` consumes exactly one
      input byte into the current cell. */
  lemma StepEffects(tokens: seq<Token>, s: State)
    requires s.index < |tokens| && Step(tokens, s).Some?
    ensures var s' := Step(tokens, s).value;
      && (tokens[s.index] == Plus ==>
            Current(s') == (Current(s) + 1) % 256 && s'.pointer == s.pointer
            && (Current(s) == 255 ==> Current(s') == 0))
      && (tokens[s.index] == Minus ==>
            Current(s') == (Current(s) - 1) % 256 && s'.pointer == s.pointer
            && (Current(s) == 0 ==> Current(s') == 255))
      && (tokens[s.index] in {Plus, Minus} ==>
            (forall a :: a != s.pointer ==> Tape.Read(s'.tape, a) == Tape.Read(s.tape, a))
            && s'.input == s.input && s'.output == s.output)
      && (tokens[s.index] == Left ==> s'.pointer == s.pointer - 1)
      && (tokens[s.index] == Right ==> s'.pointer == s.pointer + 1)
      && (tokens[s.index] in {Left, Right} ==>
            s'.tape == s.tape && s'.input == s.input && s'.output == s.output)
      && (tokens[s.index] == Print ==>
            s'.output == s.output + [AsChar(Current(s))]
            && s'.tape == s.tape && s'.pointer == s.pointer && s'.input == s.input)
      && (tokens[s.index] == Read ==>
            s.input != [] && Current(s') == s.input[0] && s'.input == s.input[1..]
            && (forall a :: a != s.pointer ==> Tape.Read(s'.tape, a) == Tape.Read(s.tape, a))
            && s'.pointer == s.pointer && s'.output == s.output)
      && (tokens[s.index].LeftBracket? || tokens[s.index].RightBracket? ==>
            s'.tape == s.tape && s'.pointer == s.pointer && s'.input == s.input && s'.output == s.output)
  {
  }

  /** A run that ended before its fuel did ends the same way with more fuel. */
  lemma {:induction false} RunFuelMonotone(tokens: seq<Token>, s: State, fuel: nat, more: nat)
    requires fuel <= more && !Run(tokens, s, fuel).OutOfFuel?
    ensures Run(tokens, s, more) == Run(tokens, s, fuel)
    decreases fuel
  {
    if s.index < |tokens| && Step(tokens, s).Some? {
      RunFuelMonotone(tokens, Step(tokens, s).value, fuel - 1, more - 1);
    }
  }

  /** `rest` is what remains of `input` after some bytes were taken from
      its front. */
  predicate Consumed(input: seq<Tape.Byte>, rest: seq<Tape.Byte>)
  {
    |rest| <= |input| && rest == input[|input| - |rest|..]
  }

  lemma ConsumedTransitive(a: seq<Tape.Byte>, b: seq<Tape.Byte>, c: seq<Tape.Byte>)
    requires Consumed(a, b) && Consumed(b, c)
    ensures Consumed(a, c)
  {
    assert c == b[|b| - |c|..] == a[|a| - |b|..][|b| - |c|..];
  }

  /** One step appends at most one character and consumes at most one byte. */
  lemma StepKeepsStreams(tokens: seq<Token>, s: State)
    requires s.index < |tokens| && Step(tokens, s).Some?
    ensures s.output <= Step(tokens, s).value.output
    ensures Consumed(s.input, Step(tokens, s).value.input)
  {
    if tokens[s.index] == Read {
      assert s.input[1..] == s.input[|s.input| - |s.input[1..]|..];
    }
  }

  /** A step that succeeds hands the rest of the run to the next state. */
  lemma RunAdvances(tokens: seq<Token>, s: State, fuel: nat)
    requires s.index < |tokens| && fuel > 0 && Step(tokens, s).Some?
    ensures Run(tokens, s, fuel) == Run(tokens, Step(tokens, s).value, fuel - 1)
  {
  }

  /** A run that takes no step ends in the state it started from. */
  lemma RunStops(tokens: seq<Token>, s: State, fuel: nat)
    requires s.index >= |tokens| || fuel == 0 || Step(tokens, s).None?
    ensures Run(tokens, s, fuel).Last() == s
  {
  }

  /** Output is only ever appended to and input only ever consumed from the
      front. */
  lemma {:induction false} RunKeepsStreams(tokens: seq<Token>, s: State, fuel: nat)
    ensures s.output <= Run(tokens, s, fuel).Last().output
    ensures Consumed(s.input, Run(tokens, s, fuel).Last().input)
    decreases fuel
  {
    if s.index < |tokens| && fuel > 0 && Step(tokens, s).Some? {
      var s' := Step(tokens, s).value;
      RunAdvances(tokens, s, fuel);
      StepKeepsStreams(tokens, s);
      RunKeepsStreams(tokens, s', fuel - 1);
      ConsumedTransitive(s.input, s'.input, Run(tokens, s', fuel - 1).Last().input);
    } else {
      RunStops(tokens, s, fuel);
    }
  }

  /** Every jump target lies inside the token sequence. */
  predicate JumpsInRange(tokens: seq<Token>)
  {
    forall k :: 0 <= k < |tokens| && (tokens[k].LeftBracket? || tokens[k].RightBracket?) ==>
      tokens[k].target < |tokens|
  }

  /** When every jump stays inside the program, the index never overshoots:
      a halted run stops exactly at the end of the token sequence. */
  lemma {:induction false} HaltsAtEnd(tokens: seq<Token>, s: State, fuel: nat)
    requires JumpsInRange(tokens) && s.index <= |tokens|
    ensures Run(tokens, s, fuel).Last().index <= |tokens|
    ensures Run(tokens, s, fuel).Halted? ==> Run(tokens, s, fuel).final.index == |tokens|
    decreases fuel
  {
    if s.index < |tokens| && fuel > 0 && Step(tokens, s).Some? {
      HaltsAtEnd(tokens, Step(tokens, s).value, fuel - 1);
    }
  }

  /** The tokens of the program `[-]`. */
  function ClearTokens(): seq<Token>
  {
    [LeftBracket(2), Minus, RightBracket(0)]
  }

  /** One pass through the body of `[-]`: decrement, then test at `]`. */
  lemma ClearLoopPass(s: State, fuel: nat)
    requires s.index == 1 && fuel >= 2
    ensures Run(ClearTokens(), s, fuel)
            == Run(ClearTokens(), s.(index := if Current(s) == 1 then 3 else 1,
                                     tape := Tape.Write(s.tape, s.pointer, Tape.WrappingDec(Current(s)))), fuel - 2)
  {
    var tokens := ClearTokens();
    var s1 := s.(index := 2, tape := Tape.Write(s.tape, s.pointer, Tape.WrappingDec(Current(s))));
    assert Step(tokens, s) == Some(s1);
    RunAdvances(tokens, s, fuel);
    Tape.ReadAfterWrite(s.tape, s.pointer, Tape.WrappingDec(Current(s)), s.pointer);
    assert Step(tokens, s1) == Some(s1.(index := if Current(s) == 1 then 3 else 1));
    RunAdvances(tokens, s1, fuel - 1);
  }

  /** The loop `[-]`, entered at its body with a non-zero cell `c`,
      decrements the cell to 0 in `2 * c` iterations and leaves through the
      closing bracket. */
  lemma {:induction false} ClearLoopBody(s: State, fuel: nat)
    requires s.index == 1 && Current(s) != 0
    requires fuel >= 2 * Current(s)
    ensures Run(ClearTokens(), s, fuel) == Halted(s.(index := 3, tape := Tape.Write(s.tape, s.pointer, 0)))
    decreases Current(s)
  {
    var c := Current(s);
    ClearLoopPass(s, fuel);
    var s2 := s.(index := if c == 1 then 3 else 1, tape := s.tape[s.pointer := c - 1]);
    if c != 1 {
      assert Current(s2) == c - 1;
      ClearLoopBody(s2, fuel - 2);
      assert s2.tape[s.pointer := 0] == s.tape[s.pointer := 0];
    }
  }

  /** `[-]` from any cell value: it halts with the current cell 0 and nothing
      else changed; on a zero cell the body is skipped in one iteration. */
  lemma ClearLoop(s: State, fuel: nat)
    requires s.index == 0 && fuel >= 1 + 2 * Current(s)
    ensures Run(ClearTokens(), s, fuel)
            == Halted(s.(index := 3, tape := if Current(s) == 0 then s.tape else Tape.Write(s.tape, s.pointer, 0)))
  {
    var tokens := ClearTokens();
    if Current(s) != 0 {
      assert Step(tokens, s) == Some(s.(index := 1));
      ClearLoopBody(s.(index := 1), fuel - 1);
    }
  }
}
