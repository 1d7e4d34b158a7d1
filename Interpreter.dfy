/**
 * File mode of `main`: the program text is filtered to the eight symbols
 * (src/main.rs:52-56), resolved, and, only if resolution succeeds, run from
 * instruction 0, pointer 0 and a blank tape.
 */
module Interpreter {
  import opened Wrappers
  import opened Tokens
  import opened Parser
  import Tape
  import opened Executor
  import ParserLemmas
  import ExecutorLemmas

  /** What file mode does with `text`, with at most `fuel` loop iterations. */
  function Interpret(text: seq<char>, input: seq<Tape.Byte>, fuel: nat): Result<Outcome, BracketError>
  {
    match Parse(Filter(text))
    case Err(e) => Err(e)
    case Ok(tokens) => Ok(Run(tokens, Initial(input), fuel))
  }

  /** File mode as the source runs it: filter, `parse`, and the dispatch loop
      over a new `Memory`. A failed resolution runs nothing. */
  method RunFile(text: seq<char>, input: seq<Tape.Byte>, fuel: nat) returns (r: Result<Status, BracketError>, output: seq<char>)
    ensures match Interpret(text, input, fuel)
      case Err(e) => r == Err(e) && output == []
      case Ok(o) => r == Ok(StatusOf(o)) && output == o.Last().output
  {
    var code := Filter(text);
    var parsed := ParseTokens(code);
    if parsed.Err? {
      return Err(parsed.error), [];
    }
    var memory := new Tape.Memory();
    var status, index, pointer, rest;
    status, index, pointer, rest, output := Execute(parsed.value, memory, 0, 0, input, fuel);
    r := Ok(status);
  }

  /** File mode refuses a program exactly when its brackets are unbalanced. */
  lemma RefusedIffUnbalanced(text: seq<char>, input: seq<Tape.Byte>, fuel: nat)
    ensures Interpret(text, input, fuel).Err? <==> !ParserLemmas.Balanced(Filter(text))
  {
    ParserLemmas.ParseOkIffBalanced(Filter(text));
  }

  /** In file mode every jump lands inside the program, so a run that halts
      stops exactly at the end of the token sequence. */
  lemma HaltsAtProgramEnd(text: seq<char>, input: seq<Tape.Byte>, fuel: nat)
    requires Interpret(text, input, fuel).Ok? && Interpret(text, input, fuel).value.Halted?
    ensures Interpret(text, input, fuel).value.final.index == |Filter(text)|
  {
    var code := Filter(text);
    var tokens := Parse(code).value;
    FilterKeepsSymbols(text);
    ParserLemmas.JumpTargets(code, tokens);
    ExecutorLemmas.HaltsAtEnd(tokens, Initial(input), fuel);
  }
}
