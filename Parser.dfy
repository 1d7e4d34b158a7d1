/**
 * The resolver `parse` of src/main.rs: it turns the program characters into
 * tokens and resolves every bracket to a jump target.
 *
 * The specification is a left-to-right fold, `ParsePrefix(code, n)`, over the
 * first `n` characters; `ParseTokens` is the imperative loop of the source and
 * is proved to compute `Parse(code) == ParsePrefix(code, |code|)`.
 */
module Parser {
  import opened Wrappers
  import opened Tokens

  /** Change of the nesting depth caused by one character. */
  function Delta(c: char): int
  {
    if c == '[' then 1 else if c == ']' then -1 else 0
  }

  /** The running depth after the first `n` characters of `code`. */
  function Height(code: seq<char>, n: nat): int
    requires n <= |code|
  {
    if n == 0 then 0 else Height(code, n - 1) + Delta(code[n - 1])
  }

  /**
   * The forward scan that a `[` starts: continue from index `j` with running
   * depth `depth`, and stop at the first index where the depth, after that
   * index's character is counted, is 0.
   */
  function ScanMatch(code: seq<char>, j: nat, depth: int): (r: Option<nat>)
    ensures r.Some? ==> j <= r.value < |code|
    decreases |code| - j
  {
    if j >= |code| then None
    else
      var d := depth + Delta(code[j]);
      if d == 0 then Some(j) else ScanMatch(code, j + 1, d)
  }

  /** The index of the first token `LeftBracket(i)` in `tokens`, if any. */
  function FindLeft(tokens: seq<Token>, i: nat): (r: Option<nat>)
    ensures r.Some? ==> r.value < |tokens| && tokens[r.value] == LeftBracket(i)
    ensures r.Some? ==> forall k :: 0 <= k < r.value ==> tokens[k] != LeftBracket(i)
    ensures r.None? <==> LeftBracket(i) !in tokens
  {
    if tokens == [] then None
    else if tokens[0] == LeftBracket(i) then Some(0)
    else match FindLeft(tokens[1..], i)
      case None => None
      case Some(k) => Some(k + 1)
  }

  /** What processing character `i` does to the tokens emitted so far. */
  function Emit(code: seq<char>, i: nat, tokens: seq<Token>): Result<seq<Token>, BracketError>
    requires i < |code|
  {
    match code[i]
    case '+' => Ok(tokens + [Plus])
    case '-' => Ok(tokens + [Minus])
    case '[' =>
      (match ScanMatch(code, i, 0)
       case Some(j) => Ok(tokens + [LeftBracket(j)])
       case None => Err(UnmatchedLeft))
    case ']' =>
      (match FindLeft(tokens, i)
       case Some(k) => Ok(tokens + [RightBracket(k)])
       case None => Err(UnmatchedRight))
    case ',' => Ok(tokens + [Read])
    case '.' => Ok(tokens + [Print])
    case '<' => Ok(tokens + [Left])
    case '>' => Ok(tokens + [Right])
    case _ => Ok(tokens)
  }

  /** The outcome of the resolver after its first `n` iterations; the first
      error stops it and is kept. */
  function ParsePrefix(code: seq<char>, n: nat): Result<seq<Token>, BracketError>
    requires n <= |code|
  {
    if n == 0 then Ok([])
    else match ParsePrefix(code, n - 1)
      case Err(e) => Err(e)
      case Ok(tokens) => Emit(code, n - 1, tokens)
  }

  /** The outcome of `parse` on the whole program. */
  function Parse(code: seq<char>): Result<seq<Token>, BracketError>
  {
    ParsePrefix(code, |code|)
  }

  /** `tokens.iter().position(..)`: the first token `LeftBracket(i)`. */
  method Position(tokens: seq<Token>, i: nat) returns (index: Option<nat>)
    ensures index == FindLeft(tokens, i)
  {
    var k := 0;
    while k < |tokens|
      invariant 0 <= k <= |tokens|
      invariant forall m :: 0 <= m < k ==> tokens[m] != LeftBracket(i)
    {
      if tokens[k] == LeftBracket(i) {
        index := Some(k);
        FindLeftFirst(tokens, i, k);
        return;
      }
      k := k + 1;
    }
    index := None;
  }

  /** A first occurrence is what `FindLeft` reports. */
  lemma FindLeftFirst(tokens: seq<Token>, i: nat, k: nat)
    requires k < |tokens| && tokens[k] == LeftBracket(i)
    requires forall m :: 0 <= m < k ==> tokens[m] != LeftBracket(i)
    ensures FindLeft(tokens, i) == Some(k)
  {
  }

  /** Once the resolver has failed it stays failed with the same error:
      no later character is looked at. */
  lemma {:induction false} ErrorPersists(code: seq<char>, n: nat, m: nat)
    requires n <= m <= |code| && ParsePrefix(code, n).Err?
    ensures ParsePrefix(code, m) == ParsePrefix(code, n)
    decreases m
  {
    if m > n {
      ErrorPersists(code, n, m - 1);
    }
  }

  /** The resolver as the source writes it: one pass over the characters,
      a forward depth scan for every `[`, a search of the emitted tokens for
      every `]`. */
  method ParseTokens(code: seq<char>) returns (r: Result<seq<Token>, BracketError>)
    ensures r == Parse(code)
  {
    var tokens: seq<Token> := [];
    label tokenizer:
    for i := 0 to |code|
      invariant ParsePrefix(code, i) == Ok(tokens)
    {
      match code[i]
      case '+' => tokens := tokens + [Plus];
      case '-' => tokens := tokens + [Minus];
      case '[' =>
        var depth := 0;
        for j := i to |code|
          invariant ScanMatch(code, j, depth) == ScanMatch(code, i, 0)
        {
          if code[j] == '[' {
            depth := depth + 1;
          } else if code[j] == ']' {
            depth := depth - 1;
          }
          if depth == 0 {
            tokens := tokens + [LeftBracket(j)];
            continue tokenizer;
          }
        }
        ErrorPersists(code, i + 1, |code|);
        return Err(UnmatchedLeft);
      case ']' =>
        var index := Position(tokens, i);
        if index.Some? {
          tokens := tokens + [RightBracket(index.value)];
        } else {
          ErrorPersists(code, i + 1, |code|);
          return Err(UnmatchedRight);
        }
      case ',' => tokens := tokens + [Read];
      case '.' => tokens := tokens + [Print];
      case '<' => tokens := tokens + [Left];
      case '>' => tokens := tokens + [Right];
      case _ =>
    }
    return Ok(tokens);
  }
}
