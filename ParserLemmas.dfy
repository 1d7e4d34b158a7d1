/**
 * What the resolver guarantees: how the forward scan pairs brackets, when
 * `parse` fails and at which character, that it succeeds exactly on balanced
 * programs, that on a program of symbols only the jump targets form an
 * involution, and that extending a program only appends tokens.
 */
module ParserLemmas {
  import opened Wrappers
  import opened Tokens
  import opened Parser

  // ---------------------------------------------------------------------
  // Running depth and the forward scan
  // ---------------------------------------------------------------------

  /** `Height(code, k) - Height(code, i)` is the depth counted over the slice
      `code[i..k]` alone. */
  lemma {:induction false} RunningDepth(code: seq<char>, i: nat, k: nat)
    requires i <= k <= |code|
    ensures Height(code[i..k], k - i) == Height(code, k) - Height(code, i)
    decreases k
  {
    if k > i {
      RunningDepth(code, i, k - 1);
      assert code[i..k][..k - 1 - i] == code[i..k - 1];
      HeightOfPrefix(code[i..k], code[i..k - 1], k - 1 - i);
    }
  }

  /** `Height` only looks at the characters before `n`. */
  lemma {:induction false} HeightOfPrefix(a: seq<char>, b: seq<char>, n: nat)
    requires n <= |a| && n <= |b| && a[..n] == b[..n]
    ensures Height(a, n) == Height(b, n)
    decreases n
  {
    if n > 0 {
      assert a[n - 1] == a[..n][n - 1] && b[n - 1] == b[..n][n - 1];
      assert a[..n - 1] == a[..n][..n - 1] && b[..n - 1] == b[..n][..n - 1];
      HeightOfPrefix(a, b, n - 1);
    }
  }

  /** `j` is where the scan started by the `[` at `i` stops: the first index
      `j >= i` at which the depth over `code[i..=j]` is back to 0. */
  ghost predicate IsMatch(code: seq<char>, i: nat, j: nat)
  {
    i <= j < |code|
    && Height(code, j + 1) == Height(code, i)
    && forall m :: i < m <= j ==> Height(code, m) != Height(code, i)
  }

  /** The scan, resumed at `j` with the depth accumulated since `i`, finds
      the first return to depth 0 or reports that there is none. */
  lemma {:induction false} ScanFrom(code: seq<char>, i: nat, j: nat)
    requires i <= j <= |code|
    requires forall m :: i < m <= j ==> Height(code, m) != Height(code, i)
    ensures ScanMatch(code, j, Height(code, j) - Height(code, i)).Some? ==>
              IsMatch(code, i, ScanMatch(code, j, Height(code, j) - Height(code, i)).value)
    ensures ScanMatch(code, j, Height(code, j) - Height(code, i)).None? ==>
              forall m :: i < m <= |code| ==> Height(code, m) != Height(code, i)
    decreases |code| - j
  {
    if j < |code| && Height(code, j + 1) != Height(code, i) {
      ScanFrom(code, i, j + 1);
    }
  }

  /** The scan from `i` returns `j` exactly when `j` is the first return to
      depth 0, and returns nothing exactly when the depth never returns. */
  lemma ScanMatchMeaning(code: seq<char>, i: nat)
    requires i <= |code|
    ensures forall j: nat :: ScanMatch(code, i, 0) == Some(j) <==> IsMatch(code, i, j)
    ensures ScanMatch(code, i, 0).None? <==>
              forall m :: i < m <= |code| ==> Height(code, m) != Height(code, i)
  {
    ScanFrom(code, i, i);
    forall j: nat | IsMatch(code, i, j)
      ensures ScanMatch(code, i, 0) == Some(j)
    {
      assert Height(code, j + 1) == Height(code, i);
    }
    if ScanMatch(code, i, 0).Some? {
      var j := ScanMatch(code, i, 0).value;
      assert Height(code, j + 1) == Height(code, i);
    } else {
      forall m | i < m <= |code|
        ensures Height(code, m) != Height(code, i)
      {
      }
    }
  }

  /** Between a `[` and the end of its scan the depth stays above the depth
      before the `[`. */
  lemma {:induction false} AboveBeforeMatch(code: seq<char>, i: nat, n: nat)
    requires i < n <= |code| && code[i] == '['
    requires forall m :: i < m <= n ==> Height(code, m) != Height(code, i)
    ensures forall m :: i < m <= n ==> Height(code, m) > Height(code, i)
    decreases n
  {
    if n > i + 1 {
      AboveBeforeMatch(code, i, n - 1);
    }
  }

  /** The match of a `[` lies strictly after it and is a `]`. */
  lemma MatchIsCloser(code: seq<char>, i: nat, j: nat)
    requires i < |code| && code[i] == '['
    requires ScanMatch(code, i, 0) == Some(j)
    ensures i < j < |code| && code[j] == ']'
  {
    ScanMatchMeaning(code, i);
    assert Height(code, i + 1) == Height(code, i) + 1;
    AboveBeforeMatch(code, i, j);
    assert Height(code, j) > Height(code, i);
    assert Height(code, j + 1) == Height(code, j) + Delta(code[j]);
  }

  /** Two different brackets never share a match. */
  lemma MatchInjective(code: seq<char>, i1: nat, i2: nat, j: nat)
    requires i1 <= |code| && i2 <= |code|
    requires ScanMatch(code, i1, 0) == Some(j) && ScanMatch(code, i2, 0) == Some(j)
    ensures i1 == i2
  {
    ScanMatchMeaning(code, i1);
    ScanMatchMeaning(code, i2);
  }

  /** A `[` whose scan finds nothing leaves the depth of the whole program
      above the depth before it. */
  lemma UnclosedRaisesDepth(code: seq<char>, i: nat)
    requires i < |code| && code[i] == '['
    ensures ScanMatch(code, i, 0).None? ==> Height(code, |code|) > Height(code, i)
  {
    ScanMatchMeaning(code, i);
    if ScanMatch(code, i, 0).None? {
      AboveBeforeMatch(code, i, |code|);
    }
  }

  // ---------------------------------------------------------------------
  // When parse fails, and where
  // ---------------------------------------------------------------------

  /** Some `[` before index `n` has its match at `x`. */
  ghost predicate Opened(code: seq<char>, n: nat, x: nat)
  {
    exists i :: 0 <= i < n && i < |code| && code[i] == '[' && ScanMatch(code, i, 0) == Some(x)
  }

  /** The character at `i` makes the resolver fail: a `[` whose scan runs off
      the end, or a `]` that no earlier `[` scanned to. */
  ghost predicate Offending(code: seq<char>, i: nat)
    requires i < |code|
  {
    || (code[i] == '[' && ScanMatch(code, i, 0).None?)
    || (code[i] == ']' && !Opened(code, i, i))
  }

  /** No character is offending. */
  ghost predicate WellMatched(code: seq<char>)
  {
    forall i :: 0 <= i < |code| ==> !Offending(code, i)
  }

  /** The error that an offending character causes. */
  function ErrorOf(c: char): BracketError
  {
    if c == '[' then UnmatchedLeft else UnmatchedRight
  }

  /** After `n` characters the resolver has succeeded exactly when none of
      them is offending, and the `LeftBracket` targets it holds are exactly
      the matches of the `[`s among them. */
  lemma {:induction false} PrefixInvariant(code: seq<char>, n: nat)
    requires n <= |code|
    ensures ParsePrefix(code, n).Ok? <==> forall k :: 0 <= k < n ==> !Offending(code, k)
    ensures ParsePrefix(code, n).Ok? ==>
              forall x :: LeftBracket(x) in ParsePrefix(code, n).value <==> Opened(code, n, x)
    decreases n
  {
    if n > 0 {
      PrefixInvariant(code, n - 1);
      var c := code[n - 1];
      match ParsePrefix(code, n - 1)
      case Err(_) =>
        assert Offending(code, n - 1) || exists k :: 0 <= k < n - 1 && Offending(code, k);
      case Ok(t) =>
        forall x: nat ensures Opened(code, n, x) <==> Opened(code, n - 1, x) || (c == '[' && ScanMatch(code, n - 1, 0) == Some(x)) {
          if Opened(code, n, x) {
            var i :| 0 <= i < n && i < |code| && code[i] == '[' && ScanMatch(code, i, 0) == Some(x);
            if i < n - 1 {
              assert Opened(code, n - 1, x);
            }
          }
        }
        if c == '[' {
          match ScanMatch(code, n - 1, 0)
          case None =>
            assert Offending(code, n - 1);
          case Some(j) =>
            var t' := t + [LeftBracket(j)];
            assert ParsePrefix(code, n) == Ok(t');
            forall x: nat ensures LeftBracket(x) in t' <==> LeftBracket(x) in t || x == j {
              assert LeftBracket(x) in t' <==> LeftBracket(x) in t || LeftBracket(x) == t'[|t|];
            }
        } else if c == ']' {
          match FindLeft(t, n - 1)
          case None =>
            assert !Opened(code, n - 1, n - 1);
            assert Offending(code, n - 1);
          case Some(k) =>
            var t' := t + [RightBracket(k)];
            assert ParsePrefix(code, n) == Ok(t');
            forall x: nat ensures LeftBracket(x) in t' <==> LeftBracket(x) in t {
              assert LeftBracket(x) in t' <==> LeftBracket(x) in t || LeftBracket(x) == t'[|t|];
            }
        } else {
          var e := Emit(code, n - 1, t);
          assert e.Ok? && forall x :: LeftBracket(x) in e.value <==> LeftBracket(x) in t by {
            match c
            case '+' => assert e.value == t + [Plus];
            case '-' => assert e.value == t + [Minus];
            case ',' => assert e.value == t + [Read];
            case '.' => assert e.value == t + [Print];
            case '<' => assert e.value == t + [Left];
            case '>' => assert e.value == t + [Right];
            case _ => assert e.value == t;
          }
        }
    }
  }

  /** The resolver succeeds exactly on programs with no offending character. */
  lemma ParseOkIffWellMatched(code: seq<char>)
    ensures Parse(code).Ok? <==> WellMatched(code)
  {
    PrefixInvariant(code, |code|);
  }

  /** A failed resolution reports the error of the FIRST offending character:
      scanning is left to right and stops there. */
  lemma {:induction false} ParseFailsAtFirstOffence(code: seq<char>, n: nat)
    requires n <= |code| && ParsePrefix(code, n).Err?
    ensures exists i ::
              && 0 <= i < n
              && Offending(code, i)
              && (forall k :: 0 <= k < i ==> !Offending(code, k))
              && ParsePrefix(code, n).error == ErrorOf(code[i])
    decreases n
  {
    if ParsePrefix(code, n - 1).Err? {
      ParseFailsAtFirstOffence(code, n - 1);
    } else {
      PrefixInvariant(code, n - 1);
      PrefixInvariant(code, n);
      assert Offending(code, n - 1);
    }
  }

  // ---------------------------------------------------------------------
  // Success is exactly balance
  // ---------------------------------------------------------------------

  /** The depth never drops below 0 and ends at 0. */
  ghost predicate Balanced(code: seq<char>)
  {
    && Height(code, |code|) == 0
    && forall n :: 0 <= n <= |code| ==> Height(code, n) >= 0
  }

  /** Searching down from `k`, where the depth is above `q >= 0`, finds the
      last index before `k` at which the depth is `q`. */
  lemma {:induction false} DownSearch(code: seq<char>, q: int, k: nat, e: nat) returns (i: nat)
    requires 0 <= q && k <= e <= |code|
    requires forall m :: k <= m <= e ==> Height(code, m) > q
    ensures i < k && Height(code, i) == q
    ensures forall m :: i < m <= e ==> Height(code, m) > q
    decreases k
  {
    assert Height(code, k) > q;
    assert Height(code, k) == Height(code, k - 1) + Delta(code[k - 1]);
    if Height(code, k - 1) == q {
      i := k - 1;
    } else {
      i := DownSearch(code, q, k - 1, e);
    }
  }

  /** Index `i` is where the depth last equals `q` before everything up to `e`
      stays above it; then `code[i]` is a `[`. */
  lemma OpenerAt(code: seq<char>, q: int, i: nat, e: nat)
    requires i < e <= |code| && Height(code, i) == q
    requires forall m :: i < m <= e ==> Height(code, m) > q
    ensures code[i] == '['
  {
    assert Height(code, i + 1) > q;
  }

  /** In a balanced program every `]` has an earlier `[` that scans to it. */
  lemma BalancedCloserOpened(code: seq<char>, j: nat)
    requires Balanced(code) && j < |code| && code[j] == ']'
    ensures Opened(code, j, j)
  {
    var q := Height(code, j + 1);
    var i := DownSearch(code, q, j, j);
    OpenerAt(code, q, i, j);
    ScanMatchMeaning(code, i);
    assert IsMatch(code, i, j);
  }

  lemma BalancedIsWellMatched(code: seq<char>)
    requires Balanced(code)
    ensures WellMatched(code)
  {
    forall i | 0 <= i < |code|
      ensures !Offending(code, i)
    {
      if code[i] == '[' {
        UnclosedRaisesDepth(code, i);
      } else if code[i] == ']' {
        BalancedCloserOpened(code, i);
      }
    }
  }

  /** Without offending characters the depth never drops below 0. */
  lemma {:induction false} WellMatchedNoDip(code: seq<char>, n: nat)
    requires WellMatched(code) && n <= |code|
    ensures Height(code, n) >= 0
    decreases n
  {
    if n > 0 {
      WellMatchedNoDip(code, n - 1);
      if code[n - 1] == ']' {
        assert !Offending(code, n - 1);
        var i :| 0 <= i < n - 1 && code[i] == '[' && ScanMatch(code, i, 0) == Some(n - 1);
        ScanMatchMeaning(code, i);
        WellMatchedNoDip(code, i);
      }
    }
  }

  /** A program whose final depth is positive, with no dip below 0, has a
      `[` whose scan runs off the end. */
  lemma UnclosedOffends(code: seq<char>)
    requires forall n :: 0 <= n <= |code| ==> Height(code, n) >= 0
    ensures Height(code, |code|) > 0 ==> exists i :: 0 <= i < |code| && Offending(code, i)
  {
    if Height(code, |code|) > 0 {
      var q := Height(code, |code|) - 1;
      var i := DownSearch(code, q, |code|, |code|);
      OpenerAt(code, q, i, |code|);
      ScanMatchMeaning(code, i);
      assert Offending(code, i);
    }
  }

  lemma WellMatchedIsBalanced(code: seq<char>)
    requires WellMatched(code)
    ensures Balanced(code)
  {
    forall n | 0 <= n <= |code|
      ensures Height(code, n) >= 0
    {
      WellMatchedNoDip(code, n);
    }
    UnclosedOffends(code);
  }

  /** `parse` succeeds exactly when the brackets are balanced. */
  lemma ParseOkIffBalanced(code: seq<char>)
    ensures Parse(code).Ok? <==> Balanced(code)
  {
    ParseOkIffWellMatched(code);
    if Balanced(code) {
      BalancedIsWellMatched(code);
    }
    if WellMatched(code) {
      WellMatchedIsBalanced(code);
    }
  }

  // ---------------------------------------------------------------------
  // Shape of the token sequence
  // ---------------------------------------------------------------------

  /** The resolver only ever appends: the tokens after `n` characters are a
      prefix of the tokens after `m >= n` characters. */
  lemma {:induction false} ParseGrows(code: seq<char>, n: nat, m: nat)
    requires n <= m <= |code| && ParsePrefix(code, m).Ok?
    ensures ParsePrefix(code, n).Ok? && ParsePrefix(code, n).value <= ParsePrefix(code, m).value
    decreases m
  {
    if m > n {
      var t := ParsePrefix(code, m - 1).value;
      assert t <= ParsePrefix(code, m).value by {
        match code[m - 1]
        case '[' =>
        case ']' =>
        case _ =>
      }
      ParseGrows(code, n, m - 1);
    }
  }

  /** One step of the resolver appends the token of a symbol and nothing
      for any other character. */
  lemma EmitAppends(code: seq<char>, i: nat, tokens: seq<Token>)
    requires i < |code| && Emit(code, i, tokens).Ok?
    ensures var u := Emit(code, i, tokens).value;
      && (!IsSymbol(code[i]) ==> u == tokens)
      && (IsSymbol(code[i]) ==> |u| == |tokens| + 1 && u[..|tokens|] == tokens && Symbol(u[|tokens|]) == code[i])
      && (code[i] == '[' ==> ScanMatch(code, i, 0).Some? && u[|tokens|] == LeftBracket(ScanMatch(code, i, 0).value))
      && (code[i] == ']' ==> FindLeft(tokens, i).Some? && u[|tokens|] == RightBracket(FindLeft(tokens, i).value))
  {
    match code[i]
    case '[' =>
    case ']' =>
    case _ =>
  }

  /** One token per symbol, in order, and nothing for any other character. */
  lemma {:induction false} TokensFollowSymbols(code: seq<char>, n: nat)
    requires n <= |code| && ParsePrefix(code, n).Ok?
    ensures Symbols(ParsePrefix(code, n).value) == Filter(code[..n])
    decreases n
  {
    if n > 0 {
      ParseGrows(code, n - 1, n);
      TokensFollowSymbols(code, n - 1);
      var t := ParsePrefix(code, n - 1).value;
      var t' := ParsePrefix(code, n).value;
      EmitAppends(code, n - 1, t);
      assert code[..n][..n - 1] == code[..n - 1];
      assert code[..n][n - 1] == code[n - 1];
      if IsSymbol(code[n - 1]) {
        assert t' == t + [t'[|t|]];
        assert Symbols(t') == Symbols(t) + [code[n - 1]];
      }
    }
  }

  /** On a program of symbols only, the resolver has produced one token
      per character read. */
  lemma TokenCount(code: seq<char>, n: nat)
    requires AllSymbols(code) && n <= |code| && ParsePrefix(code, n).Ok?
    ensures |ParsePrefix(code, n).value| == n
  {
    TokensFollowSymbols(code, n);
    assert AllSymbols(code[..n]);
    FilterOfSymbols(code[..n]);
  }

  /** On a program of symbols only, the tokens after `n` characters are the
      first `n` tokens after `m >= n` characters. */
  lemma PrefixTokens(code: seq<char>, n: nat, m: nat)
    requires AllSymbols(code) && n <= m <= |code| && ParsePrefix(code, m).Ok?
    ensures |ParsePrefix(code, m).value| == m
    ensures ParsePrefix(code, n) == Ok(ParsePrefix(code, m).value[..n])
  {
    ParseGrows(code, n, m);
    TokenCount(code, n);
    TokenCount(code, m);
    var u := ParsePrefix(code, n).value;
    assert u == ParsePrefix(code, m).value[..|u|];
  }

  /** On a program of symbols only, token `k` comes from character `k`: the
      resolver had produced exactly `t[..k]` before reaching it. */
  lemma TokenAt(code: seq<char>, t: seq<Token>, k: nat)
    requires AllSymbols(code) && Parse(code) == Ok(t) && k < |code|
    ensures |t| == |code|
    ensures ParsePrefix(code, k) == Ok(t[..k])
    ensures Emit(code, k, t[..k]) == Ok(t[..k + 1])
  {
    PrefixTokens(code, k, |code|);
    PrefixTokens(code, k + 1, |code|);
  }

  /** On a program of symbols only, each token is resolved from its own
      character: `[` holds the index of its match, `]` the index of the
      first `LeftBracket` pointing at it, and every other symbol its
      instruction. */
  lemma ResolvedAt(code: seq<char>, t: seq<Token>, k: nat)
    requires AllSymbols(code) && Parse(code) == Ok(t) && k < |code|
    ensures |t| == |code| && Symbol(t[k]) == code[k]
    ensures code[k] == '[' ==>
              ScanMatch(code, k, 0).Some? && t[k] == LeftBracket(ScanMatch(code, k, 0).value)
    ensures code[k] == ']' ==>
              FindLeft(t[..k], k).Some? && t[k] == RightBracket(FindLeft(t[..k], k).value)
  {
    TokenAt(code, t, k);
    EmitAppends(code, k, t[..k]);
    assert t[k] == t[..k + 1][k];
  }

  /** On a program of symbols only, every jump lands inside the token
      sequence: a `LeftBracket` forward, a `RightBracket` backward. */
  lemma JumpTargets(code: seq<char>, t: seq<Token>)
    requires AllSymbols(code) && Parse(code) == Ok(t)
    ensures |t| == |code|
    ensures forall k :: 0 <= k < |t| && t[k].LeftBracket? ==> k < t[k].target < |t|
    ensures forall k :: 0 <= k < |t| && t[k].RightBracket? ==> t[k].target < k
  {
    TokenCount(code, |code|);
    forall k | 0 <= k < |t|
      ensures t[k].LeftBracket? ==> k < t[k].target < |t|
      ensures t[k].RightBracket? ==> t[k].target < k
    {
      ResolvedAt(code, t, k);
      if code[k] == '[' {
        MatchIsCloser(code, k, t[k].target);
      }
    }
  }

  /** On a program of symbols only, the brackets pair up both ways:
      token `i` is `LeftBracket(j)` exactly when token `j` is
      `RightBracket(i)`. */
  lemma Involution(code: seq<char>, t: seq<Token>, i: nat, j: nat)
    requires AllSymbols(code) && Parse(code) == Ok(t)
    requires i < |t| && j < |t|
    ensures t[i] == LeftBracket(j) <==> t[j] == RightBracket(i)
  {
    TokenCount(code, |code|);
    ResolvedAt(code, t, i);
    ResolvedAt(code, t, j);
    if t[i] == LeftBracket(j) {
      MatchIsCloser(code, i, j);
      var k := FindLeft(t[..j], j).value;
      assert t[..j][i] == LeftBracket(j);
      ResolvedAt(code, t, k);
      assert t[k] == t[..j][k];
      MatchInjective(code, i, k, j);
    }
    if t[j] == RightBracket(i) {
      assert t[..j][i] == t[i];
    }
  }

  // ---------------------------------------------------------------------
  // Extending the program
  // ---------------------------------------------------------------------

  /** A scan that succeeds on `code` finds the same index on any extension. */
  lemma {:induction false} ScanMatchExtends(code: seq<char>, ext: seq<char>, j: nat, depth: int)
    requires ScanMatch(code, j, depth).Some?
    ensures ScanMatch(code + ext, j, depth) == ScanMatch(code, j, depth)
    decreases |code| - j
  {
    assert (code + ext)[j] == code[j];
    if depth + Delta(code[j]) != 0 {
      ScanMatchExtends(code, ext, j + 1, depth + Delta(code[j]));
    }
  }

  /** While the resolver succeeds on `code`, it does the same on `code + ext`. */
  lemma {:induction false} PrefixAgrees(code: seq<char>, ext: seq<char>, n: nat)
    requires n <= |code| && ParsePrefix(code, n).Ok?
    ensures ParsePrefix(code + ext, n) == ParsePrefix(code, n)
    decreases n
  {
    if n > 0 {
      ParseGrows(code, n - 1, n);
      PrefixAgrees(code, ext, n - 1);
      assert (code + ext)[n - 1] == code[n - 1];
      if code[n - 1] == '[' {
        ScanMatchExtends(code, ext, n - 1, 0);
      }
    }
  }

  /** Re-resolving an extended program keeps every token already resolved:
      the old tokens are a prefix of the new ones. */
  lemma PrefixStable(code: seq<char>, ext: seq<char>)
    requires Parse(code).Ok? && Parse(code + ext).Ok?
    ensures Parse(code).value <= Parse(code + ext).value
  {
    PrefixAgrees(code, ext, |code|);
    ParseGrows(code + ext, |code|, |code + ext|);
  }
}
