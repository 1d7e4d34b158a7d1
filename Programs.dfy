/**
 * Small programs run end to end through file mode.
 */
module Programs {
  import opened Wrappers
  import opened Tokens
  import opened Parser
  import Tape
  import opened Executor
  import opened Interpreter
  import ExecutorLemmas

  /** `++.` resolves to two increments and a print. */
  lemma PrintTwoResolves()
    ensures Parse("++.") == Ok([Plus, Plus, Print])
  {
    var code := "++.";
    assert code[0] == '+' && code[1] == '+' && code[2] == '.';
    assert [] + [Plus] == [Plus];
    assert [Plus] + [Plus] == [Plus, Plus];
    assert [Plus, Plus] + [Print] == [Plus, Plus, Print];
    assert ParsePrefix(code, 1) == Ok([Plus]);
    assert ParsePrefix(code, 2) == Ok([Plus, Plus]);
  }

  /** The three iterations of `++.`: the cell goes 0, 1, 2 and is printed. */
  lemma PrintTwoRuns()
    ensures Run([Plus, Plus, Print], Initial([]), 3) == Halted(State(3, 0, map[0 := 2], [], [AsChar(2)]))
  {
    var tokens := [Plus, Plus, Print];
    var s1 := State(1, 0, map[0 := 1], [], []);
    var s2 := State(2, 0, map[0 := 2], [], []);
    var s3 := State(3, 0, map[0 := 2], [], [AsChar(2)]);
    assert Step(tokens, Initial([])) == Some(s1);
    assert Current(s1) == 1 && Current(s2) == 2;
    assert Tape.Write(s1.tape, 0, 2) == map[0 := 2];
    assert Step(tokens, s1) == Some(s2);
    assert [] + [AsChar(2)] == [AsChar(2)];
    assert Step(tokens, s2) == Some(s3);
    assert Run(tokens, s2, 1) == Halted(s3);
    assert Run(tokens, s1, 2) == Halted(s3);
  }

  /** `++.` prints the single character with code 2. */
  lemma PrintTwo()
    ensures Interpret("++.", [], 3) == Ok(Halted(State(3, 0, map[0 := 2], [], [AsChar(2)])))
  {
    FilterOfSymbols("++.");
    PrintTwoResolves();
    PrintTwoRuns();
  }

  /** `+[-]` resolves to a `+` followed by the clear loop shifted by one. */
  lemma IncrementThenClearResolves()
    ensures Parse("+[-]") == Ok([Plus, LeftBracket(3), Minus, RightBracket(1)])
  {
    var code := "+[-]";
    assert code[0] == '+' && code[1] == '[' && code[2] == '-' && code[3] == ']';
    assert ScanMatch(code, 1, 0) == Some(3) by {
      assert ScanMatch(code, 3, 1) == Some(3);
      assert ScanMatch(code, 2, 1) == Some(3);
    }
    var t2 := [Plus, LeftBracket(3), Minus];
    assert FindLeft(t2, 3) == Some(1) by {
      assert t2[1..] == [LeftBracket(3), Minus];
    }
    assert [] + [Plus] == [Plus];
    assert [Plus] + [LeftBracket(3)] == [Plus, LeftBracket(3)];
    assert [Plus, LeftBracket(3)] + [Minus] == t2;
    assert t2 + [RightBracket(1)] == [Plus, LeftBracket(3), Minus, RightBracket(1)];
    assert ParsePrefix(code, 1) == Ok([Plus]);
    assert ParsePrefix(code, 2) == Ok([Plus, LeftBracket(3)]);
    assert ParsePrefix(code, 3) == Ok(t2);
  }

  /** `+[-]` sets the cell to 1, runs the loop body once, and halts with the
      cell back at 0 after four iterations. */
  lemma IncrementThenClear()
    ensures Interpret("+[-]", [], 4) == Ok(Halted(State(4, 0, map[0 := 0], [], [])))
  {
    FilterOfSymbols("+[-]");
    IncrementThenClearResolves();
    IncrementThenClearRuns();
  }

  /** The four iterations of `+[-]`: `+`, the untaken `[`, `-`, the
      untaken `]`. */
  lemma IncrementThenClearRuns()
    ensures Run([Plus, LeftBracket(3), Minus, RightBracket(1)], Initial([]), 4)
            == Halted(State(4, 0, map[0 := 0], [], []))
  {
    var tokens := [Plus, LeftBracket(3), Minus, RightBracket(1)];
    var s1 := State(1, 0, map[0 := 1], [], []);
    var s2 := State(2, 0, map[0 := 1], [], []);
    var s3 := State(3, 0, map[0 := 0], [], []);
    var s4 := State(4, 0, map[0 := 0], [], []);
    assert Step(tokens, Initial([])) == Some(s1);
    assert Current(s1) == 1;
    assert Step(tokens, s1) == Some(s2);
    assert Tape.Write(s2.tape, 0, 0) == map[0 := 0];
    assert Step(tokens, s2) == Some(s3);
    assert Current(s3) == 0;
    assert Step(tokens, s3) == Some(s4);
    assert Run(tokens, s3, 1) == Halted(s4);
    assert Run(tokens, s2, 2) == Halted(s4);
    assert Run(tokens, s1, 3) == Halted(s4);
  }

  /** `[-]` resolves to the clear loop. */
  lemma ClearResolves()
    ensures Parse("[-]") == Ok(ExecutorLemmas.ClearTokens())
  {
    var code := "[-]";
    assert code[0] == '[' && code[1] == '-' && code[2] == ']';
    assert ScanMatch(code, 0, 0) == Some(2) by {
      assert ScanMatch(code, 2, 1) == Some(2);
      assert ScanMatch(code, 1, 1) == Some(2);
    }
    var t1 := [LeftBracket(2), Minus];
    assert FindLeft(t1, 2) == Some(0);
    assert [] + [LeftBracket(2)] == [LeftBracket(2)];
    assert [LeftBracket(2)] + [Minus] == t1;
    assert t1 + [RightBracket(0)] == ExecutorLemmas.ClearTokens();
    assert ParsePrefix(code, 1) == Ok([LeftBracket(2)]);
    assert ParsePrefix(code, 2) == Ok(t1);
  }

  /** `[-]` on the blank tape skips its body: one iteration, and the index
      lands past the closing bracket with nothing written. */
  lemma ClearOnZeroSkips(input: seq<Tape.Byte>)
    ensures Interpret("[-]", input, 1) == Ok(Halted(State(3, 0, map[], input, [])))
  {
    FilterOfSymbols("[-]");
    ClearResolves();
    ExecutorLemmas.ClearLoop(Initial(input), 1);
  }

  /** `,.` resolves to a read and a print. */
  lemma EchoResolves()
    ensures Parse(",.") == Ok([Read, Print])
  {
    var code := ",.";
    assert code[0] == ',' && code[1] == '.';
    assert [] + [Read] == [Read];
    assert [Read] + [Print] == [Read, Print];
    assert ParsePrefix(code, 1) == Ok([Read]);
  }

  /** The two iterations of `,.` on one byte of input. */
  lemma EchoRuns(b: Tape.Byte)
    ensures Run([Read, Print], Initial([b]), 2) == Halted(State(2, 0, map[0 := b], [], [AsChar(b)]))
  {
    var tokens := [Read, Print];
    var s1 := State(1, 0, map[0 := b], [], []);
    var s2 := State(2, 0, map[0 := b], [], [AsChar(b)]);
    assert [b][1..] == [];
    assert Step(tokens, Initial([b])) == Some(s1);
    assert Current(s1) == b;
    assert [] + [AsChar(b)] == [AsChar(b)];
    assert Step(tokens, s1) == Some(s2);
    assert Run(tokens, s1, 1) == Halted(s2);
  }

  /** `,.` reads one byte and prints it back; with no input the read aborts
      the run before anything is printed. */
  lemma Echo(b: Tape.Byte)
    ensures Interpret(",.", [b], 2) == Ok(Halted(State(2, 0, map[0 := b], [], [AsChar(b)])))
    ensures Interpret(",.", [], 2) == Ok(Aborted(Initial([])))
  {
    FilterOfSymbols(",.");
    EchoResolves();
    EchoRuns(b);
    assert Step([Read, Print], Initial([])) == None;
  }

  /** `][` is reported as an unmatched `]`: the error of the first offending
      character, although the `[` is unmatched as well. */
  lemma FirstErrorWins()
    ensures Interpret("][", [], 0) == Err(UnmatchedRight)
  {
    FilterOfSymbols("][");
    FirstErrorWinsResolves();
  }

  /** Resolving `][` stops at its first character. */
  lemma FirstErrorWinsResolves()
    ensures Parse("][") == Err(UnmatchedRight)
  {
    var code := "][";
    assert code[0] == ']';
    assert ParsePrefix(code, 1) == Err(UnmatchedRight);
    ErrorPersists(code, 1, 2);
  }

  /** Characters outside the eight symbols are dropped before resolution. */
  lemma CommentsIgnored()
    ensures Interpret("a+b", [], 1) == Ok(Halted(State(1, 0, map[0 := 1], [], [])))
  {
    CommentsFiltered();
    IncrementResolves();
    IncrementRuns();
  }

  /** `+` on the blank tape sets cell 0 to 1 in one iteration. */
  lemma IncrementRuns()
    ensures Run([Plus], Initial([]), 1) == Halted(State(1, 0, map[0 := 1], [], []))
  {
    var s1 := State(1, 0, map[0 := 1], [], []);
    assert Step([Plus], Initial([])) == Some(s1);
    ExecutorLemmas.RunAdvances([Plus], Initial([]), 1);
  }

  /** `+` resolves to a single increment. */
  lemma IncrementResolves()
    ensures Parse("+") == Ok([Plus])
  {
    var code := "+";
    assert code[0] == '+';
    assert [] + [Plus] == [Plus];
    assert Emit(code, 0, []) == Ok([Plus]);
    assert ParsePrefix(code, 1) == Ok([Plus]);
  }

  /** Filtering `a+b` leaves only the `+`. */
  lemma CommentsFiltered()
    ensures Filter("a+b") == "+"
  {
    var text := "a+b";
    assert text[..2][..1] == "a" && text[..2] == "a+" && text[..1] == "a";
    assert Filter("a") == [];
    assert Filter("a+") == "+";
  }
}
