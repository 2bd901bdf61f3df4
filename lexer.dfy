/** The tokenizer of the query language (query/lexer.cpp).

    The specification is a family of functions over positions in the input:
    `SkipSpaces`, `RunEnd`, `Next` (one `nextToken` call) and `Tokens` (the
    whole `tokenize` loop). The class `Lexer` keeps the source's cursor `pos`
    and its methods are proved to follow those functions step for step. */
module Lexing {
  import opened Common
  import Helper

  datatype TokenType = Keyword | Identifier | StringLiteral | Number | Symbol | EndOfFile

  datatype Token = Token(kind: TokenType, value: string)

  /** `current()` at position `p`: past the end of the input it reads as a NUL character. */
  function At(s: string, p: nat): char {
    if p < |s| then s[p] else '\0'
  }

  /** The three kinds of run the reading loops consume. */
  datatype Run = IdentRun | NumberRun | StringRun

  /** The condition each reading loop tests before consuming a character. */
  predicate InRun(r: Run, c: char) {
    match r
    case IdentRun => IsAlnum(c) || c == '_'
    case NumberRun => IsDigit(c) || c == '.'
    case StringRun => c != '"' && c != '\0'
  }

  /** A NUL character never continues a run, so every run stops at the end of the input. */
  lemma NulEndsEveryRun(r: Run)
    ensures !InRun(r, '\0')
  {
  }

  /** The position `skipWhitespace` stops at when started at `p`. */
  function SkipSpaces(s: string, p: nat): (q: nat)
    ensures p <= q
    ensures q > p ==> q <= |s|
    ensures !IsSpace(At(s, q))
    ensures forall k :: p <= k < q ==> IsSpace(At(s, k))
    decreases |s| - p
  {
    if IsSpace(At(s, p)) then SkipSpaces(s, p + 1) else p
  }

  /** The position a reading loop of kind `r` stops at when started at `p`:
      the first character from `p` on that does not continue the run. */
  function RunEnd(s: string, p: nat, r: Run): (e: nat)
    requires p <= |s|
    ensures p <= e <= |s|
    ensures forall k :: p <= k < e ==> InRun(r, s[k])
    ensures !InRun(r, At(s, e))
    decreases |s| - p
  {
    if p < |s| && InRun(r, s[p]) then RunEnd(s, p + 1, r) else p
  }

  /** The operator characters that combine with a following `=`. */
  predicate Pairable(c: char) {
    c == '=' || c == '!' || c == '<' || c == '>'
  }

  /** One `nextToken` call from cursor position `p`: the token and the new cursor. */
  function Next(s: string, p: nat): (r: (Token, nat))
    requires p <= |s| + 1
    ensures r.1 <= |s| + 1
    ensures r.0.kind == EndOfFile <==> At(s, SkipSpaces(s, p)) == '\0'
    ensures r.0.kind == EndOfFile ==> r.1 == SkipSpaces(s, p) && r.0.value == ""
    ensures r.0.kind != EndOfFile ==> p < r.1
  {
    var q := SkipSpaces(s, p);
    var c := At(s, q);
    if c == '\0' then
      (Token(EndOfFile, ""), q)
    else if IsAlpha(c) then
      var e := RunEnd(s, q, IdentRun);
      (Token(Identifier, s[q..e]), e)
    else if IsDigit(c) then
      var e := RunEnd(s, q, NumberRun);
      (Token(Number, s[q..e]), e)
    else if c == '"' then
      var e := RunEnd(s, q + 1, StringRun);
      (Token(StringLiteral, s[q + 1..e]), e + 1)
    else if Pairable(c) && At(s, q + 1) == '=' then
      (Token(Symbol, [c, '=']), q + 2)
    else
      (Token(Symbol, [c]), q + 1)
  }

  /** The tokens `tokenize` collects from cursor position `p`, up to (and without) END_OF_FILE.
      Each token takes at least one character, so there are no more tokens than characters
      left, and none from the end of the input on. */
  function Tokens(s: string, p: nat): (r: seq<Token>)
    requires p <= |s| + 1
    ensures forall i :: 0 <= i < |r| ==> r[i].kind != EndOfFile
    ensures r != [] ==> p < |s| && |r| <= |s| - p
    decreases |s| + 1 - p
  {
    var (t, q) := Next(s, p);
    if t.kind == EndOfFile then [] else [t] + Tokens(s, q)
  }

  /** `Lexer(input).tokenize()`. */
  function Lex(s: string): (r: seq<Token>)
    ensures forall i :: 0 <= i < |r| ==> r[i].kind != EndOfFile
    ensures |r| <= |s|
  {
    Tokens(s, 0)
  }

  /** The shape every emitted token has. */
  predicate WellFormed(t: Token) {
    match t.kind
    case Keyword => false
    case EndOfFile => false
    case Identifier =>
      t.value != [] && IsAlpha(t.value[0]) && forall i :: 0 <= i < |t.value| ==> InRun(IdentRun, t.value[i])
    case Number =>
      t.value != [] && IsDigit(t.value[0]) && forall i :: 0 <= i < |t.value| ==> InRun(NumberRun, t.value[i])
    case StringLiteral =>
      forall i :: 0 <= i < |t.value| ==> InRun(StringRun, t.value[i])
    case Symbol =>
      (|t.value| == 1 || |t.value| == 2)
      && !IsAlnum(t.value[0]) && !IsSpace(t.value[0]) && t.value[0] != '"' && t.value[0] != '\0'
      && (|t.value| == 2 ==> Pairable(t.value[0]) && t.value[1] == '=')
  }

  /** No whitespace inside an identifier, a number or a symbol. */
  lemma WellFormedHasNoSpace(t: Token)
    requires WellFormed(t) && t.kind != StringLiteral
    ensures forall i :: 0 <= i < |t.value| ==> !IsSpace(t.value[i])
  {
  }

  /** Each token `nextToken` returns before END_OF_FILE is well formed, and the
      identifier and number runs are maximal: the character after them does not continue them. */
  lemma NextWellFormed(s: string, p: nat)
    requires p <= |s| + 1
    ensures var (t, q) := Next(s, p);
      && (t.kind != EndOfFile ==> WellFormed(t))
      && (t.kind == Identifier ==> !InRun(IdentRun, At(s, q)))
      && (t.kind == Number ==> !InRun(NumberRun, At(s, q)))
  {
    var q := SkipSpaces(s, p);
    var c := At(s, q);
    var t := Next(s, p).0;
    if c != '\0' && !IsAlpha(c) && !IsDigit(c) && c == '"' {
      var e := RunEnd(s, q + 1, StringRun);
      assert t.value == s[q + 1..e];
      assert forall i :: 0 <= i < |t.value| ==> t.value[i] == s[q + 1 + i];
    } else if c != '\0' && IsAlpha(c) {
      var e := RunEnd(s, q, IdentRun);
      assert forall i :: 0 <= i < |t.value| ==> t.value[i] == s[q + i];
    } else if c != '\0' && IsDigit(c) {
      var e := RunEnd(s, q, NumberRun);
      assert forall i :: 0 <= i < |t.value| ==> t.value[i] == s[q + i];
    }
  }

  /** `tokenize` never returns END_OF_FILE or KEYWORD, and every token it returns is well formed. */
  lemma {:induction false} TokensWellFormed(s: string, p: nat)
    requires p <= |s| + 1
    ensures forall t :: t in Tokens(s, p) ==> WellFormed(t)
    decreases |s| + 1 - p
  {
    var (t, q) := Next(s, p);
    if t.kind != EndOfFile {
      NextWellFormed(s, p);
      TokensWellFormed(s, q);
      assert Tokens(s, p) == [t] + Tokens(s, q);
    }
  }

  /** The same for a whole input. */
  lemma LexWellFormed(s: string)
    ensures forall t :: t in Lex(s) ==> WellFormed(t) && t.kind != EndOfFile && t.kind != Keyword
  {
    TokensWellFormed(s, 0);
  }

  /** A literal without a closing quote takes the rest of the input (up to a NUL),
      and leaves the cursor past the end, so nothing follows it. */
  lemma UnterminatedLiteral(s: string, p: nat)
    requires p < |s| && s[p] == '"'
    requires forall k :: p < k < |s| ==> s[k] != '"' && s[k] != '\0'
    ensures Next(s, p) == (Token(StringLiteral, s[p + 1..]), |s| + 1)
    ensures Tokens(s, p) == [Token(StringLiteral, s[p + 1..])]
  {
    assert SkipSpaces(s, p) == p;
    RunToEnd(s, p + 1, StringRun);
    assert s[p + 1..|s|] == s[p + 1..];
    assert Tokens(s, |s| + 1) == [];
  }

  /** A run that every remaining character continues ends at the end of the input. */
  lemma {:induction false} RunToEnd(s: string, p: nat, r: Run)
    requires p <= |s|
    requires forall k :: p <= k < |s| ==> InRun(r, s[k])
    ensures RunEnd(s, p, r) == |s|
    decreases |s| - p
  {
    if p < |s| {
      RunToEnd(s, p + 1, r);
    }
  }

  /** A NUL character `nextToken` meets between tokens ends the input: the tokens before it are all there is. */
  lemma NulBetweenTokensEndsInput(s: string, p: nat)
    requires p <= |s| + 1
    requires At(s, SkipSpaces(s, p)) == '\0'
    ensures Tokens(s, p) == []
  {
  }

  /** Two inputs that agree on every position up to `n`, where both read NUL. */
  ghost predicate AgreeUpTo(s: string, u: string, n: nat) {
    n <= |s| && n <= |u| && At(s, n) == '\0' && forall k: nat :: k <= n ==> At(s, k) == At(u, k)
  }

  lemma SkipSpacesAgree(s: string, u: string, n: nat, p: nat)
    requires AgreeUpTo(s, u, n) && p <= n
    ensures SkipSpaces(s, p) == SkipSpaces(u, p) <= n
    decreases n - p
  {
    if IsSpace(At(s, p)) {
      SkipSpacesAgree(s, u, n, p + 1);
    }
  }

  lemma {:induction false} RunEndAgree(s: string, u: string, n: nat, p: nat, r: Run)
    requires AgreeUpTo(s, u, n) && p <= n
    ensures RunEnd(s, p, r) == RunEnd(u, p, r) <= n
    decreases n - p
  {
    assert At(s, p) == At(u, p);
    if p < |s| && InRun(r, s[p]) {
      assert p < n by { NulEndsEveryRun(r); }
      RunEndAgree(s, u, n, p + 1, r);
    } else {
      NulEndsEveryRun(r);
    }
  }

  /** Agreeing inputs have the same text below the agreement bound. */
  lemma SliceAgree(s: string, u: string, n: nat, p: nat, e: nat)
    requires AgreeUpTo(s, u, n) && p <= e <= n
    ensures s[p..e] == u[p..e]
  {
    forall k | p <= k < e ensures s[k] == u[k] {
      assert At(s, k) == At(u, k);
    }
  }

  /** `nextToken` reads nothing past the first NUL it meets between tokens or in an identifier,
      a number or a symbol; only a literal can read through a NUL. */
  lemma NextAgree(s: string, u: string, n: nat, p: nat)
    requires AgreeUpTo(s, u, n) && p <= n
    requires forall k :: p <= k < n ==> At(s, k) != '"'
    ensures Next(s, p) == Next(u, p) && Next(s, p).1 <= n
  {
    SkipSpacesAgree(s, u, n, p);
    var q := SkipSpaces(s, p);
    var c := At(s, q);
    assert At(u, q) == c;
    if c != '\0' {
      assert q < n && q < |s| && q < |u|;
      if IsAlpha(c) {
        RunEndAgree(s, u, n, q, IdentRun);
        SliceAgree(s, u, n, q, RunEnd(s, q, IdentRun));
      } else if IsDigit(c) {
        RunEndAgree(s, u, n, q, NumberRun);
        SliceAgree(s, u, n, q, RunEnd(s, q, NumberRun));
      } else {
        assert c != '"';
        assert At(s, q + 1) == At(u, q + 1);
      }
    }
  }

  lemma {:induction false} TokensAgree(s: string, u: string, n: nat, p: nat)
    requires AgreeUpTo(s, u, n) && p <= n
    requires forall k :: p <= k < n ==> At(s, k) != '"'
    ensures Tokens(s, p) == Tokens(u, p)
    decreases n - p
  {
    NextAgree(s, u, n, p);
    var (t, q) := Next(s, p);
    if t.kind != EndOfFile {
      TokensAgree(s, u, n, q);
    }
  }

  /** A NUL outside a string literal is indistinguishable from the end of the input:
      when no quote comes before it, nothing after it is tokenized. */
  lemma NulTruncates(a: string, b: string)
    requires '"' !in a
    ensures Lex(a + ['\0'] + b) == Lex(a)
  {
    var s := a + ['\0'] + b;
    forall k: nat | k <= |a| ensures At(s, k) == At(a, k) {
      if k < |a| {
        assert s[k] == a[k];
      }
    }
    forall k: nat | 0 <= k < |a| ensures At(s, k) != '"' {
      assert s[k] == a[k];
    }
    TokensAgree(s, a, |a|, 0);
  }

  /** A string `isNumber` accepts lexes as exactly one NUMBER token holding it. */
  lemma NumberLexesAsOneToken(s: string)
    requires Helper.IsNumber(s)
    ensures Lex(s) == [Token(Number, s)]
  {
    assert SkipSpaces(s, 0) == 0;
    assert forall k :: 0 <= k < |s| ==> InRun(NumberRun, s[k]);
    RunToEnd(s, 0, NumberRun);
    assert s[0..|s|] == s;
    assert Next(s, 0) == (Token(Number, s), |s|);
    assert Tokens(s, |s|) == [];
  }

  /** A NUMBER token is not limited to one decimal point: any run of digits and dots
      that starts with a digit lexes as one NUMBER token. */
  lemma DigitsAndDotsLexAsOneNumber(s: string)
    requires s != [] && IsDigit(s[0])
    requires forall k :: 0 <= k < |s| ==> IsDigit(s[k]) || s[k] == '.'
    ensures Lex(s) == [Token(Number, s)]
  {
    assert SkipSpaces(s, 0) == 0;
    assert forall k :: 0 <= k < |s| ==> InRun(NumberRun, s[k]);
    RunToEnd(s, 0, NumberRun);
    assert s[0..|s|] == s;
    assert Next(s, 0) == (Token(Number, s), |s|);
    assert Tokens(s, |s|) == [];
  }

  /** The lexer object: the input and the cursor. */
  class Lexer {
    const src: string
    var pos: nat

    /** The cursor never goes more than one past the end (only a literal's closing `advance` goes past it). */
    ghost predicate Valid()
      reads this
    {
      pos <= |src| + 1
    }

    constructor(input: string)
      ensures src == input && pos == 0 && Valid()
    {
      src := input;
      pos := 0;
    }

    /** `current()`: the character under the cursor, NUL once past the end. */
    function Current(): (c: char)
      reads this
      ensures pos < |src| ==> c == src[pos]
      ensures pos >= |src| ==> c == '\0'
    {
      At(src, pos)
    }

    /** `advance()`. */
    method Advance()
      modifies this
      ensures pos == old(pos) + 1
    {
      pos := pos + 1;
    }

    /** `skipWhitespace()`. */
    method SkipWhitespace()
      requires Valid()
      modifies this
      ensures Valid() && pos == SkipSpaces(src, old(pos))
    {
      while IsSpace(Current())
        invariant Valid() && old(pos) <= pos
        invariant SkipSpaces(src, old(pos)) == SkipSpaces(src, pos)
        decreases |src| + 1 - pos
      {
        Advance();
      }
    }

    /** The loop shared by the three reading methods: consume a run of kind `r`. */
    method ReadRun(r: Run) returns (val: string)
      requires pos <= |src|
      modifies this
      ensures pos == RunEnd(src, old(pos), r) && val == src[old(pos)..pos]
    {
      val := "";
      while InRun(r, Current())
        invariant old(pos) <= pos <= |src|
        invariant val == src[old(pos)..pos]
        invariant RunEnd(src, old(pos), r) == RunEnd(src, pos, r)
        decreases |src| - pos
      {
        val := val + [Current()];
        Advance();
      }
    }

    /** `readString()`: skip the opening quote, read up to a quote or NUL, skip one more character. */
    method ReadString() returns (t: Token)
      requires pos < |src| && src[pos] == '"'
      modifies this
      ensures var e := RunEnd(src, old(pos) + 1, StringRun);
        pos == e + 1 && t == Token(StringLiteral, src[old(pos) + 1..e])
    {
      Advance();
      var val := ReadRun(StringRun);
      Advance();
      t := Token(StringLiteral, val);
    }

    /** `readNumber()`: digits and dots, any number of dots. */
    method ReadNumber() returns (t: Token)
      requires pos <= |src|
      modifies this
      ensures pos == RunEnd(src, old(pos), NumberRun) && t == Token(Number, src[old(pos)..pos])
    {
      var val := ReadRun(NumberRun);
      t := Token(Number, val);
    }

    /** `readIdentifierOrKeyword()`: letters, digits and underscores, always tagged IDENTIFIER. */
    method ReadIdentifierOrKeyword() returns (t: Token)
      requires pos <= |src|
      modifies this
      ensures pos == RunEnd(src, old(pos), IdentRun) && t == Token(Identifier, src[old(pos)..pos])
    {
      var val := ReadRun(IdentRun);
      t := Token(Identifier, val);
    }

    /** `nextToken()`. */
    method NextToken() returns (t: Token)
      requires Valid()
      modifies this
      ensures Valid() && (t, pos) == Next(src, old(pos))
    {
      SkipWhitespace();
      if Current() == '\0' {
        return Token(EndOfFile, "");
      }
      if IsAlpha(Current()) {
        t := ReadIdentifierOrKeyword();
        return;
      }
      if IsDigit(Current()) {
        t := ReadNumber();
        return;
      }
      if Current() == '"' {
        t := ReadString();
        return;
      }
      var c := Current();
      Advance();
      if Pairable(c) && Current() == '=' {
        Advance();
        return Token(Symbol, [c, '=']);
      }
      t := Token(Symbol, [c]);
    }

    /** `tokenize()`: call `nextToken` until END_OF_FILE, keeping everything before it. */
    method Tokenize() returns (tokens: seq<Token>)
      requires Valid()
      modifies this
      ensures Valid() && tokens == Tokens(src, old(pos))
    {
      tokens := [];
      ghost var p := pos;
      var t := NextToken();
      while t.kind != EndOfFile
        invariant Valid() && p <= |src| + 1
        invariant (t, pos) == Next(src, p)
        invariant Tokens(src, old(pos)) == tokens + Tokens(src, p)
        decreases |src| + 1 - p
      {
        assert Tokens(src, p) == [t] + Tokens(src, pos);
        tokens := tokens + [t];
        p := pos;
        t := NextToken();
      }
    }
  }
}
