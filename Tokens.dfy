/**
 * The instruction set of the interpreter: the `Token` enum, the bracket
 * errors of the `Brainfuck` enum, and the eight-symbol alphabet that the
 * file-mode front end keeps when it filters the program text.
 */
module Tokens {

  /** One resolved instruction. A `LeftBracket` holds the SOURCE index of its
      matching `]`; a `RightBracket` holds the TOKEN index of its `[`. */
  datatype Token =
    | Plus
    | Minus
    | LeftBracket(target: nat)
    | RightBracket(target: nat)
    | Print
    | Read
    | Left
    | Right

  /** The two structural errors `parse` reports. */
  datatype BracketError = UnmatchedLeft | UnmatchedRight

  /** The characters the interpreter understands. */
  predicate IsSymbol(c: char)
  {
    c in "+-[].,<>"
  }

  /** The character a token was produced from. */
  function Symbol(t: Token): (c: char)
    ensures IsSymbol(c)
  {
    match t
    case Plus => '+'
    case Minus => '-'
    case LeftBracket(_) => '['
    case RightBracket(_) => ']'
    case Print => '.'
    case Read => ','
    case Left => '<'
    case Right => '>'
  }

  /** The symbols of a token sequence, in order. */
  function Symbols(tokens: seq<Token>): seq<char>
  {
    seq(|tokens|, k requires 0 <= k < |tokens| => Symbol(tokens[k]))
  }

  /** The program text with every non-symbol character dropped
      (`.filter(|x| "+-[].,<>".contains(*x))`). */
  function Filter(text: seq<char>): seq<char>
  {
    if text == [] then []
    else
      var last := text[|text| - 1];
      Filter(text[..|text| - 1]) + (if IsSymbol(last) then [last] else [])
  }

  /** Every character is one of the eight symbols. */
  predicate AllSymbols(code: seq<char>)
  {
    forall k :: 0 <= k < |code| ==> IsSymbol(code[k])
  }

  /** The filtered text holds only symbols and is no longer than the text. */
  lemma {:induction false} FilterKeepsSymbols(text: seq<char>)
    ensures AllSymbols(Filter(text)) && |Filter(text)| <= |text|
  {
    if text != [] {
      FilterKeepsSymbols(text[..|text| - 1]);
    }
  }

  /** Filtering keeps a single character exactly when it is a symbol. */
  lemma FilterOne(c: char)
    ensures Filter([c]) == if IsSymbol(c) then [c] else []
  {
    assert [c][..0] == [];
  }

  /** Filtering works character by character: it distributes over
      concatenation, so the kept symbols stay in their order. */
  lemma {:induction false} FilterAppend(a: seq<char>, b: seq<char>)
    ensures Filter(a + b) == Filter(a) + Filter(b)
    decreases |b|
  {
    if b == [] {
      assert a + b == a;
    } else {
      var b' := b[..|b| - 1];
      assert (a + b)[..|a + b| - 1] == a + b';
      FilterAppend(a, b');
    }
  }

  /** Filtering a text that holds only symbols changes nothing, so the
      filtered program is its own filter. */
  lemma {:induction false} FilterOfSymbols(code: seq<char>)
    requires AllSymbols(code)
    ensures Filter(code) == code
  {
    if code != [] {
      FilterOfSymbols(code[..|code| - 1]);
    }
  }
}
