/**
 * The instruction-dispatch loop of `main` (src/main.rs:63-97), with input and
 * output as byte and character sequences. `Step` is one iteration of the
 * loop body, `Run` repeats it with a fuel bound, and `Execute` is the loop as
 * the source writes it, over a `Memory` object.
 */
module Executor {
  import opened Wrappers
  import opened Tokens
  import Tape

  /** Everything the loop updates: the instruction index, the data pointer,
      the tape, the input not yet consumed and the output so far. */
  datatype State = State(index: nat, pointer: int, tape: Tape.Cells, input: seq<Tape.Byte>, output: seq<char>)

  /** The state a file-mode run starts in. */
  function Initial(input: seq<Tape.Byte>): State
  {
    State(0, 0, map[], input, [])
  }

  /** The cell under the data pointer. */
  function Current(s: State): Tape.Byte
  {
    Tape.Read(s.tape, s.pointer)
  }

  /** `memory[pointer] as char`: the character whose code point is the byte. */
  function AsChar(b: Tape.Byte): char
  {
    b as char
  }

  /** True when the instruction at `s.index` is a jump that is taken. */
  predicate JumpTaken(tokens: seq<Token>, s: State)
    requires s.index < |tokens|
  {
    match tokens[s.index]
    case LeftBracket(_) => Current(s) == 0
    case RightBracket(_) => Current(s) != 0
    case _ => false
  }

  /**
   * One iteration of the loop body, including the `index += 1` that follows
   * every instruction (a taken jump to `x` therefore resumes at `x + 1`).
   * `None` is the panic of `read_exact(..).unwrap()` on exhausted input.
   */
  function Step(tokens: seq<Token>, s: State): (r: Option<State>)
    requires s.index < |tokens|
    ensures r.None? <==> tokens[s.index] == Read && s.input == []
    ensures r.Some? ==>
              r.value.index == (if JumpTaken(tokens, s) then tokens[s.index].target else s.index) + 1
  {
    var cell := Current(s);
    var next := s.index + 1;
    match tokens[s.index]
    case Minus => Some(s.(index := next, tape := Tape.Write(s.tape, s.pointer, Tape.WrappingDec(cell))))
    case Plus => Some(s.(index := next, tape := Tape.Write(s.tape, s.pointer, Tape.WrappingInc(cell))))
    case Left => Some(s.(index := next, pointer := s.pointer - 1))
    case Right => Some(s.(index := next, pointer := s.pointer + 1))
    case LeftBracket(x) => Some(s.(index := (if cell == 0 then x else s.index) + 1))
    case RightBracket(x) => Some(s.(index := (if cell != 0 then x else s.index) + 1))
    case Print => Some(s.(index := next, output := s.output + [AsChar(cell)]))
    case Read =>
      if s.input == [] then None
      else Some(s.(index := next, tape := Tape.Write(s.tape, s.pointer, s.input[0]), input := s.input[1..]))
  }

  /** How a bounded run ends: the index left the token sequence, a `Read`
      found no input, or the fuel ran out first. */
  datatype Outcome = Halted(final: State) | Aborted(stuck: State) | OutOfFuel(last: State)
  {
    /** The state the run ended in. */
    function Last(): State
    {
      match this
      case Halted(s) => s
      case Aborted(s) => s
      case OutOfFuel(s) => s
    }
  }

  /** At most `fuel` iterations of the loop, starting from `s`. */
  function Run(tokens: seq<Token>, s: State, fuel: nat): (r: Outcome)
    ensures r.Halted? ==> r.final.index >= |tokens|
    ensures r.Aborted? ==> r.stuck.index < |tokens| && tokens[r.stuck.index] == Read && r.stuck.input == []
    ensures r.OutOfFuel? ==> r.last.index < |tokens|
    decreases fuel
  {
    if s.index >= |tokens| then Halted(s)
    else if fuel == 0 then OutOfFuel(s)
    else match Step(tokens, s)
      case None => Aborted(s)
      case Some(s') => Run(tokens, s', fuel - 1)
  }

  /** The loop's exit status, as `Execute` reports it. */
  datatype Status = Finished | InputExhausted | FuelExhausted

  /** The outcome `Run` describes, as status and state. */
  function StatusOf(o: Outcome): Status
  {
    match o
    case Halted(_) => Finished
    case Aborted(_) => InputExhausted
    case OutOfFuel(_) => FuelExhausted
  }

  /**
   * The body of the dispatch loop for the instruction at `index`, over
   * `memory`; `ok` is false when a `Read` finds no input left.
   */
  method Dispatch(tokens: seq<Token>, memory: Tape.Memory, index: nat, pointer: int, rest: seq<Tape.Byte>, output: seq<char>)
    returns (ok: bool, index': nat, pointer': int, rest': seq<Tape.Byte>, output': seq<char>)
    requires memory.Valid() && index < |tokens|
    modifies memory, memory.stack
    ensures memory.Valid() && memory.stack == old(memory.stack)
    ensures Step(tokens, State(index, pointer, old(memory.Contents), rest, output))
            == if ok then Some(State(index', pointer', memory.Contents, rest', output')) else None
    ensures !ok ==> State(index', pointer', memory.Contents, rest', output') == State(index, pointer, old(memory.Contents), rest, output)
  {
    ghost var s := State(index, pointer, memory.Contents, rest, output);
    ok, index', pointer', rest', output' := true, index, pointer, rest, output;
    match tokens[index] {
      case Minus =>
        var c := memory.Get(pointer);
        memory.Set(pointer, Tape.WrappingDec(c));
        assert Step(tokens, s) == Some(s.(index := index + 1, tape := memory.Contents));
      case Plus =>
        var c := memory.Get(pointer);
        memory.Set(pointer, Tape.WrappingInc(c));
        assert Step(tokens, s) == Some(s.(index := index + 1, tape := memory.Contents));
      case Left =>
        pointer' := pointer - 1;
        assert Step(tokens, s) == Some(s.(index := index + 1, pointer := pointer'));
      case Right =>
        pointer' := pointer + 1;
        assert Step(tokens, s) == Some(s.(index := index + 1, pointer := pointer'));
      case LeftBracket(x) =>
        var c := memory.Get(pointer);
        if c == 0 {
          index' := x;
        }
        assert Step(tokens, s) == Some(s.(index := index' + 1));
      case RightBracket(x) =>
        var c := memory.Get(pointer);
        if c != 0 {
          index' := x;
        }
        assert Step(tokens, s) == Some(s.(index := index' + 1));
      case Print =>
        var c := memory.Get(pointer);
        output' := output + [AsChar(c)];
        assert Step(tokens, s) == Some(s.(index := index + 1, output := output'));
      case Read =>
        if rest == [] {
          return false, index, pointer, rest, output;
        }
        memory.Set(pointer, rest[0]);
        rest' := rest[1..];
        assert Step(tokens, s) == Some(s.(index := index + 1, tape := memory.Contents, input := rest'));
    }
    index' := index' + 1;
  }

  /**
   * The dispatch loop as the source writes it, over `memory`, starting from
   * instruction `index0` and pointer `pointer0` (the interactive mode keeps
   * both across runs). `fuel` bounds the number of iterations.
   */
  method Execute(tokens: seq<Token>, memory: Tape.Memory, index0: nat, pointer0: int, input: seq<Tape.Byte>, fuel: nat)
    returns (status: Status, index: nat, pointer: int, rest: seq<Tape.Byte>, output: seq<char>)
    requires memory.Valid()
    modifies memory, memory.stack
    ensures memory.Valid() && memory.stack == old(memory.stack)
    ensures var o := Run(tokens, State(index0, pointer0, old(memory.Contents), input, []), fuel);
      status == StatusOf(o) && o.Last() == State(index, pointer, memory.Contents, rest, output)
  {
    index, pointer, rest, output := index0, pointer0, input, [];
    var steps := 0;
    while index < |tokens|
      invariant memory.Valid() && memory.stack == old(memory.stack)
      invariant steps <= fuel
      invariant Run(tokens, State(index0, pointer0, old(memory.Contents), input, []), fuel)
                == Run(tokens, State(index, pointer, memory.Contents, rest, output), fuel - steps)
      decreases fuel - steps
    {
      if steps == fuel {
        return FuelExhausted, index, pointer, rest, output;
      }
      var ok;
      ok, index, pointer, rest, output := Dispatch(tokens, memory, index, pointer, rest, output);
      if !ok {
        return InputExhausted, index, pointer, rest, output;
      }
      steps := steps + 1;
    }
    status := Finished;
  }
}
