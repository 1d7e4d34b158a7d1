# A verified model of a Brainfuck interpreter's core

The interpreter in `src/main.rs` reads a Brainfuck program and keeps only the
eight symbols `+-[].,<>`. It then resolves the program into tokens with
`parse`, whose bracket tokens carry precomputed jump targets. Last, it runs
the tokens in a dispatch loop over a two-tier memory.

This project models those three pieces:

- **The resolver `parse`** (`Parser`, `ParserLemmas`):
  - `ParsePrefix` is a left-to-right fold that specifies it;
  - `ParseTokens` is the source's imperative loop, with the inner depth scan and the labelled `continue 'tokenizer`;
  - `Position` is `tokens.iter().position(..)`.
- **The tape `Memory`** (`Tape`): a class with
  - the 1024-cell `stack` array, serving addresses 1..1023;
  - the `heap` map, serving every other address;
  - a ghost abstract tape `Contents`.
  `Get` is `Index::index`; `Set` is `IndexMut::index_mut` followed by the store.
- **The dispatch loop of `main`** (`Executor`):
  - `Step` is one iteration of the loop body;
  - `Run` repeats it, bounded by fuel;
  - `Dispatch` and `Execute` are the loop as the source writes it, over a `Memory` object.

`Interpreter` puts file mode together: filter, resolve, and run only if
resolution succeeds. `Programs` runs small programs end to end.

Two details of the code are easy to misread:

- **Jump landing.** After a taken jump to `x`, the `index += 1` on line 96 still runs, so execution resumes at `x + 1`, not at `x`.
- **What `LeftBracket` stores.** A `LeftBracket` holds the *source* index of its matching `]`, not a token index. The two coincide only on text made of the eight symbols. This is why the jump-pairing properties (`JumpTargets`, `Involution`, `HaltsAtProgramEnd`) assume such text. File mode guarantees it through its filter.

## Model

| member | source | states |
|---|---|---|
| Tokens.Symbol | src/main.rs:118-151 | every token comes from one of the eight program symbols |
| Tokens.Filter | src/main.rs:52-56 | the `.filter(..)` of file mode; pinned down by `FilterOne` (a single character is kept iff it is a symbol) and `FilterAppend` (filtering distributes over concatenation); `FilterKeepsSymbols` and `FilterOfSymbols` follow, and `TokensFollowSymbols` ties it to the tokens |
| Tokens.FilterOne | src/main.rs:55 | a single character passes the filter exactly when it is one of the eight symbols |
| Tokens.FilterAppend | src/main.rs:54-56 | the filter works character by character: filtering a concatenation is the concatenation of the filtered parts, order kept |
| Tokens.FilterKeepsSymbols | src/main.rs:52-56 | the filtered program holds only the eight symbols and is no longer than the text |
| Tokens.FilterOfSymbols | src/main.rs:55 | filtering text made of symbols only leaves it unchanged |
| Parser.ScanMatch | src/main.rs:121-134 | the forward scan of a `[` can only stop at an index inside the program, at or after where it started |
| Parser.Emit | src/main.rs:118-151 | one iteration of the tokenizer; specified by `EmitAppends` (exactly the token of the symbol is pushed, with the scan or search result for a bracket) and by the error cases of `PrefixInvariant` |
| Parser.ParsePrefix | src/main.rs:115-155 | `parse` after its first `n` iterations, stopping at the first error; specified by `PrefixInvariant`, `ParseFailsAtFirstOffence`, `ParseGrows` and `ErrorPersists` |
| Parser.Parse | src/main.rs:115-155 | `parse` on the whole program; specified by `ParseOkIffBalanced`, `ParseOkIffWellMatched`, `TokensFollowSymbols`, `Involution`, `JumpTargets` and `PrefixStable`, and computed by `ParseTokens` |
| Parser.FindLeft | src/main.rs:137-140 | finds the first token `LeftBracket(i)`; reports none exactly when no such token was emitted |
| Parser.Position | src/main.rs:137-140 | the imperative search loop returns exactly the first position of `LeftBracket(i)`, or none |
| Parser.ErrorPersists | src/main.rs:134-144 | once the resolver has failed, it stays failed with the same error; no later character changes the outcome |
| Parser.ParseTokens | src/main.rs:115-155 | the loop with its inner depth scan and labelled `continue` computes exactly the fold `Parse`, error cases included |
| ParserLemmas.ScanMatchMeaning | src/main.rs:121-134 | the scan from a `[` at `i` returns `j` iff `j` is the first index at which the running depth over `code[i..=j]` is back to 0; it returns none iff the depth never returns |
| ParserLemmas.MatchIsCloser | src/main.rs:121-134 | the index a `[` stores lies strictly after it and holds a `]` |
| ParserLemmas.MatchInjective | src/main.rs:121-134 | two `[`s never store the same `]` |
| ParserLemmas.PrefixInvariant | src/main.rs:115-155 | after `n` characters the resolver has succeeded iff none of them is an unmatched `[` or `]`; the `LeftBracket` targets it holds are exactly the matches of those `[`s |
| ParserLemmas.ParseOkIffWellMatched | src/main.rs:115-155 | `parse` succeeds iff no character is an unmatched bracket |
| ParserLemmas.ParseFailsAtFirstOffence | src/main.rs:117-145 | a failure reports the error of the first offending character, scanning left to right: `UnmatchedLeft` for a `[`, `UnmatchedRight` for a `]` |
| ParserLemmas.ParseOkIffBalanced | src/main.rs:115-155 | `parse` succeeds iff the running depth never drops below 0 and ends at 0 |
| ParserLemmas.ParseGrows | src/main.rs:116-153 | the resolver only pushes: earlier token lists are prefixes of later ones |
| ParserLemmas.EmitAppends | src/main.rs:118-151 | one iteration pushes exactly the token of its symbol and nothing for any other character; `[` pushes its scan result and `]` its search result |
| ParserLemmas.TokensFollowSymbols | src/main.rs:117-151 | one token per symbol, in order: mapping the tokens back to their symbols gives exactly the filtered program |
| ParserLemmas.TokenAt | src/main.rs:117-153 | on text made of symbols only, token `k` is produced by character `k`, from the tokens `t[..k]` |
| ParserLemmas.ResolvedAt | src/main.rs:121-145 | on text made of symbols only, token `k` has the symbol of character `k`; a `[` holds its scan result; a `]` holds the position of the first `LeftBracket(k)` before it |
| ParserLemmas.JumpTargets | src/main.rs:115-155 | on text made of symbols only, a `LeftBracket` points forward and a `RightBracket` backward, both inside the token list |
| ParserLemmas.Involution | src/main.rs:115-155 | on text made of symbols only, `tokens[i] == LeftBracket(j)` iff `tokens[j] == RightBracket(i)` |
| ParserLemmas.PrefixStable | src/main.rs:107-110 | if `parse(code)` and `parse(code + ext)` both succeed, the first result is a prefix of the second |
| Tape.WrappingInc | src/main.rs:69 | `wrapping_add(1)` on a `u8` is addition modulo 256 |
| Tape.WrappingDec | src/main.rs:68 | `wrapping_sub(1)` on a `u8` is subtraction modulo 256 |
| Tape.ReadAfterWrite | src/main.rs:184-195 | after a write to `a`, reading `a` gives the value written and every other address is unchanged |
| Tape.BlankTape | src/main.rs:162-168 | every cell of a fresh tape reads 0 |
| Tape.Memory.constructor | src/main.rs:162-168 | `Memory::new` stands for the blank tape, whose every cell reads 0 |
| Tape.Memory.Get | src/main.rs:171-182 | `index` returns the abstract tape's cell at any address, dense or sparse, and 0 for an address never written |
| Tape.Memory.Set | src/main.rs:184-195 | `index_mut` plus the store changes the abstract tape at exactly one address and keeps both tiers consistent with it |
| Executor.Initial | src/main.rs:62-64 | the state file mode starts in: index 0, pointer 0, the blank tape of `Memory::new` (`BlankTape`), nothing printed; the starting point of `Interpret` and `RunFile` |
| Executor.AsChar | src/main.rs:87 | `memory[pointer] as char`: the character whose code point is the cell's value; what `StepEffects` says `.` appends |
| Executor.Step | src/main.rs:66-96 | one iteration fails only on a `Read` with no input left; otherwise the next index is the target plus 1 for a taken jump and the index plus 1 in every other case |
| Executor.Run | src/main.rs:65-97 | a run halts only with the index at or past the end of the tokens; it aborts only on a `Read` with no input; it runs out of fuel only with the index still inside |
| Executor.Dispatch | src/main.rs:67-96 | the loop body over `Memory` performs exactly `Step`, and changes nothing when the read fails |
| Executor.Execute | src/main.rs:66-97 | the `while` loop over `Memory` ends in exactly the outcome and state of `Run` |
| ExecutorLemmas.StepEffects | src/main.rs:68-94 | `+`/`-` wrap (255+1 is 0, 0-1 is 255) and touch only the current cell; `<`/`>` move the pointer by one and touch no cell; `.` appends the current cell as a character; `,` consumes exactly one input byte into the current cell; jumps change only the index |
| ExecutorLemmas.RunFuelMonotone | src/main.rs:65-97 | a run that ended before its fuel did ends identically with more fuel |
| ExecutorLemmas.RunKeepsStreams | src/main.rs:86-94 | output is only appended to, and input is only consumed from the front |
| ExecutorLemmas.HaltsAtEnd | src/main.rs:66 | when every jump target is inside the program, the index never overshoots, and a halted run stops exactly at the end |
| ExecutorLemmas.ClearLoopBody | src/main.rs:76-96 | the body of `[-]`, entered with a non-zero cell `c`, leaves through `]` with the cell at 0 within `2 * c` iterations |
| ExecutorLemmas.ClearLoop | src/main.rs:76-96 | `[-]` halts with the current cell at 0 from any cell value; on a zero cell it skips the body within one iteration |
| Interpreter.Interpret | src/main.rs:52-97 | file mode as a function: filter, resolve, and run only when resolution succeeds; specified by `RefusedIffUnbalanced` and `HaltsAtProgramEnd`, and computed by `RunFile` |
| Interpreter.RunFile | src/main.rs:52-97 | file mode runs nothing and prints nothing when resolution fails; otherwise it reports the outcome and output of `Run` |
| Interpreter.RefusedIffUnbalanced | src/main.rs:60 | file mode refuses a program exactly when its filtered brackets are unbalanced |
| Interpreter.HaltsAtProgramEnd | src/main.rs:52-97 | in file mode a halted run stops exactly at the end of the filtered program |
| Programs.PrintTwo | src/main.rs:66-97 | `++.` halts within three iterations, having output the single character with code 2 |
| Programs.IncrementThenClear | src/main.rs:66-97 | `+[-]` halts within four iterations with cell 0 |
| Programs.ClearOnZeroSkips | src/main.rs:76-80 | `[-]` on a zero cell skips the body and halts within one iteration |
| Programs.Echo | src/main.rs:86-94 | `,.` prints back the byte it reads; with no input, the run aborts at the read |
| Programs.FirstErrorWins | src/main.rs:136-145 | `][` is refused with `UnmatchedRight`, the error of its first character |
| Programs.CommentsIgnored | src/main.rs:52-56 | characters other than the eight symbols are dropped before resolution |

## Left out

- Argument parsing with `clap` (lines 24-27, 43) is not modelled, because it is library glue.
- Opening and reading the program file, UTF-8 decoding, and the debug `println!`s (lines 45-61) are left out as I/O. The model starts from the program text as a character sequence.
- The interactive read-line loop (lines 98-111) is left out.
  - It appends unfiltered characters, such as the newline, so `LeftBracket` source indices no longer match token indices.
  - The jump-pairing properties are therefore not claimed for it.
  - What it relies on is modelled: re-resolution only extends the token list (`PrefixStable`), and `Execute` accepts a starting index and pointer.
- Standard input and output become sequences.
  - `read_exact` takes the head of an input byte sequence.
  - `print!` appends a `char` to an output sequence.
  - The UTF-8 encoding that `print!` applies to characters above 127 is not modelled.
- `read_exact(..).unwrap()` panics on exhausted input. This is modelled as the `Aborted` outcome (`Step` returns `None`).
- `Executor.Run`, `Executor.Execute`: the source loop need not terminate, so both take a fuel bound. A run that needs more iterations than the fuel ends as `OutOfFuel`.
- `Executor.Step`: the `i32` data pointer is modelled as an unbounded `int`. The overflow panic of `pointer -= 1` / `pointer += 1` at the `i32` limits (lines 71, 74) is not modelled.
- `Parser.ParseTokens`: the `i32` depth counter (line 122) is modelled as an unbounded integer. Its overflow needs more than 2^31 - 1 unclosed `[`s; it panics in debug builds and wraps in release builds, and it is not modelled.
- `usize` indices are modelled as unbounded integers; they cannot overflow for a program that fits in memory.
- `HashMap` hashing internals are replaced by a Dafny `map`.
- `Tape.Memory.Set`: Rust's `IndexMut` returns a reference, and the caller stores through it. `Set` merges the two steps, so no reference escapes.
- Cells are integers in 0..255 with explicit wrap-around, rather than a machine `u8`.
