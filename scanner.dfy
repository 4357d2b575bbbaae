/** The SQL scanner (src/sql/scanner.rs): a cursor over the characters of
    the query that appends one token per lexeme. Scanning can fail with an
    error (an unexpected character, an unterminated string) or abort with
    a panic (an index past the end). The input is taken to be ASCII, so
    byte offsets and character offsets agree. */
module Scanning {
  import opened Wrappers
  import opened Strings
  import V = Values
  import opened Tokens

  /** The outcome of scan_token and scan_tokens: `Ok(())` or an error. */
  datatype Status = Scanned | Failed(message: string)

  /** What one call of scan_token does from offset `i`: append `token`, if
      any, and continue at `next`; or fail. */
  datatype Step = Step(token: Option<Token>, next: nat) | Failure(message: string)

  /** is_alpha and is_alphanumeric of the scanner, on ASCII. */
  predicate IsAlphaChar(c: char)
  {
    IsAlpha(c) || c == '_'
  }

  predicate IsAlnumChar(c: char)
  {
    IsAlphaChar(c) || IsDigit(c)
  }

  /** The runs the loops of scan_token pass over: the digits of a number,
      the rest of an identifier, the text of a string and of a comment. */
  datatype Run = Digits | Word | InString | InComment

  /** The characters that continue a run. */
  predicate Continues(run: Run, c: char)
  {
    match run
    case Digits => IsDigit(c)
    case Word => IsAlnumChar(c)
    case InString => c != '\''
    case InComment => c != '\n'
  }

  /** The offset where a run of kind `p` that starts at `j` ends: the
      first offset from `j` on that is past the end or holds a character
      that does not continue the run. */
  function Span(src: string, j: nat, p: Run): (r: nat)
    requires j <= |src|
    ensures j <= r <= |src|
    decreases |src| - j
  {
    if j == |src| || !Continues(p, src[j]) then j else Span(src, j + 1, p)
  }

  /** The run Span finds: every character in it continues the run, and
      the one after it, if any, does not. */
  lemma {:induction false} SpanStops(src: string, j: nat, p: Run)
    requires j <= |src|
    ensures forall k :: j <= k < Span(src, j, p) ==> Continues(p, src[k])
    ensures Span(src, j, p) < |src| ==> !Continues(p, src[Span(src, j, p)])
    decreases |src| - j
  {
    if j < |src| && Continues(p, src[j]) {
      SpanStops(src, j + 1, p);
    }
  }

  /** peek: the character at `i`, or NUL past the end. */
  function PeekAt(src: string, i: nat): char
  {
    if i < |src| then src[i] else '\0'
  }

  /** The message of an out-of-bounds index panic. */
  function OutOfBounds(len: nat, index: nat): string
  {
    "index out of bounds: the len is " + Decimal(len) + " but the index is " + Decimal(index)
  }

  /** peek_next: the character after `i`. As written the guard is
      `i + 1 > len`, which lets `i + 1 == len` through to an index past the
      end; corrected it is `i + 1 >= len`. */
  function PeekNextAt(src: string, i: nat, variant: Variant): (r: Result<char>)
    ensures variant == Corrected ==> r.Ok?
    ensures i + 1 < |src| ==> r == Ok(src[i + 1])
    ensures i + 1 > |src| ==> r == Ok('\0')
    ensures i + 1 == |src| ==> r == if variant == AsWritten then Panic(OutOfBounds(|src|, i + 1)) else Ok('\0')
  {
    if variant == AsWritten then
      if i + 1 > |src| then Ok('\0')
      else if i + 1 < |src| then Ok(src[i + 1])
      else Panic(OutOfBounds(|src|, i + 1))
    else
      if i + 1 >= |src| then Ok('\0') else Ok(src[i + 1])
  }

  /** The type of an identifier: its keyword, looked up lower-cased, or
      Identifier. */
  function KeywordOf(keywords: map<string, TokenType>, text: string): TokenType
  {
    if Lower(text) in keywords then keywords[Lower(text)] else Identifier
  }

  /** The end of a number starting at `i`: its digits, then a `.` or `,`
      when a digit follows it; the digits after the separator are left for
      the next token. Looking past the separator may panic. */
  function NumberEnd(src: string, i: nat, variant: Variant): (r: Result<nat>)
    requires i < |src|
    ensures r.Ok? ==> i < r.value <= |src|
  {
    var d := Span(src, i + 1, Digits);
    if d < |src| && (src[d] == '.' || src[d] == ',') then
      var after :- PeekNextAt(src, d, variant);
      Ok(if IsDigit(after) then d + 1 else d)
    else Ok(d)
  }

  /** A string from the quote at `i`: up to the next quote, which must
      come before the end; the lexeme keeps both quotes and the literal is
      the value of the text between them. */
  function StringAt(src: string, i: nat, round: string -> V.F64, variant: Variant): (r: Result<Step>)
    requires i < |src|
    ensures r.Ok? && r.value.Step? ==> i < r.value.next <= |src|
  {
    StringAtBy(src, i, round, variant, 1)
  }

  /** StringAt, whose definition is one step further away so that it is
      unfolded only where StringAtIs is called. */
  function StringAtBy(src: string, i: nat, round: string -> V.F64, variant: Variant, steps: nat): (r: Result<Step>)
    requires i < |src|
    ensures r.Ok? && r.value.Step? ==> i < r.value.next <= |src|
    decreases steps
  {
    if steps > 0 then StringAtBy(src, i, round, variant, steps - 1)
    else
      var j := Span(src, i + 1, InString);
      if j == |src| then Ok(Failure("Unterminated string value"))
      else
        var literal :- V.FromText(src[i + 1..j], round, variant);
        Ok(Step(Some(Token(Str, src[i..j + 1], literal)), j + 1))
  }

  lemma StringAtIs(src: string, i: nat, round: string -> V.F64, variant: Variant)
    requires i < |src|
    ensures StringAt(src, i, round, variant) == StringAtBy(src, i, round, variant, 0)
  {
  }

  /** The three outcomes of StringAt, each with what decides it. */
  lemma StringAtCases(src: string, i: nat, round: string -> V.F64, variant: Variant)
    requires i < |src|
    ensures var j := Span(src, i + 1, InString);
      && (j == |src| ==> StringAt(src, i, round, variant) == Ok(Failure("Unterminated string value")))
      && (j < |src| ==> var literal := V.FromText(src[i + 1..j], round, variant);
        && (literal.Panic? ==> StringAt(src, i, round, variant).Panic?)
        && (literal.Ok? ==> StringAt(src, i, round, variant) == Ok(Step(Some(Token(Str, src[i..j + 1], literal.value)), j + 1))))
  {
    StringAtIs(src, i, round, variant);
  }

  /** A number from the digit at `i`: its lexeme ends where NumberEnd
      says, and its literal is the value of the lexeme. */
  function NumberAt(src: string, i: nat, round: string -> V.F64, variant: Variant): (r: Result<Step>)
    requires i < |src|
    ensures r.Ok? && r.value.Step? ==> i < r.value.next <= |src|
  {
    NumberAtBy(src, i, round, variant, 1)
  }

  /** NumberAt, one step further away. */
  function NumberAtBy(src: string, i: nat, round: string -> V.F64, variant: Variant, steps: nat): (r: Result<Step>)
    requires i < |src|
    ensures r.Ok? && r.value.Step? ==> i < r.value.next <= |src|
    decreases steps
  {
    if steps > 0 then NumberAtBy(src, i, round, variant, steps - 1)
    else
      var e :- NumberEnd(src, i, variant);
      var literal :- V.FromText(src[i..e], round, variant);
      Ok(Step(Some(Token(Num, src[i..e], literal)), e))
  }

  lemma NumberAtIs(src: string, i: nat, round: string -> V.F64, variant: Variant)
    requires i < |src|
    ensures NumberAt(src, i, round, variant) == NumberAtBy(src, i, round, variant, 0)
  {
  }

  /** The string from `i` ends at the quote at `j`: its token appended
      and the cursor past the quote is what StringAt describes. */
  lemma StringScanned(src: string, i: nat, round: string -> V.F64, variant: Variant, j: nat, literal: V.Value,
                      tokens0: seq<Token>, tokens: seq<Token>, current: nat)
    requires i < j < |src| && j == Span(src, i + 1, InString) && current == j + 1
    requires V.FromText(src[i + 1..j], round, variant) == Ok(literal)
    requires tokens == tokens0 + [Token(Str, src[i..current], literal)]
    ensures Performs(StringAt(src, i, round, variant), Ok(Scanned), tokens0, tokens, current)
  {
    StringAtIs(src, i, round, variant);
    var token := Token(Str, src[i..current], literal);
    assert StringAtBy(src, i, round, variant, 0) == Ok(Step(Some(token), current));
    assert Emitted(Some(token)) == [token];
  }

  /** The three outcomes of NumberAt, each with what decides it. */
  lemma NumberAtCases(src: string, i: nat, round: string -> V.F64, variant: Variant)
    requires i < |src|
    ensures var e := NumberEnd(src, i, variant);
      && (e.Panic? ==> NumberAt(src, i, round, variant).Panic?)
      && (e.Ok? ==> var literal := V.FromText(src[i..e.value], round, variant);
        && (literal.Panic? ==> NumberAt(src, i, round, variant).Panic?)
        && (literal.Ok? ==> NumberAt(src, i, round, variant) == Ok(Step(Some(Token(Num, src[i..e.value], literal.value)), e.value))))
  {
    NumberAtIs(src, i, round, variant);
  }

  /** An identifier from the letter at `i`: the longest run of letters,
      digits and underscores, typed by the keyword table. */
  function IdentifierAt(src: string, i: nat, keywords: map<string, TokenType>): (r: Step)
    requires i < |src|
    ensures r.Step? && i < r.next <= |src|
  {
    var e := Span(src, i + 1, Word);
    Plain(src, i, e, KeywordOf(keywords, src[i..e]))
  }

  /** What a call that stands for `step` did: the same panic, the same
      error with no token appended, or the token appended and the cursor
      moved to where the step continues. */
  ghost predicate Performs(step: Result<Step>, r: Result<Status>, tokens0: seq<Token>, tokens: seq<Token>, current: nat)
  {
    && (step.Panic? ==> r.Panic?)
    && (step.Ok? && step.value.Failure? ==> r == Ok(Failed(step.value.message)) && tokens == tokens0)
    && (step.Ok? && step.value.Step? ==>
      r == Ok(Scanned) && current == step.value.next && tokens == tokens0 + Emitted(step.value.token))
  }

  /** A token whose lexeme is `src[i..j]` and whose literal is NULL. */
  function Plain(src: string, i: nat, j: nat, tokenType: TokenType): Step
    requires i <= j <= |src|
  {
    Step(Some(Token(tokenType, src[i..j], V.Null)), j)
  }

  /** The characters of the punctuation arms of scan_token. */
  predicate IsPunctuation(c: char)
  {
    || c == '(' || c == ')' || c == ',' || c == '.' || c == '-' || c == '+' || c == ';' || c == '*'
    || c == '<' || c == '>'
  }

  /** The whitespace scan_token passes over. */
  predicate IsLayout(c: char)
  {
    c == ' ' || c == '\t' || c == '\r' || c == '\n'
  }

  /** The punctuation arms of scan_token, from the character at `i`: a
      one-character token; `--`, which skips the rest of the line; and
      `<=` and `>=`, taken before `<` and `>`. */
  function PunctuationAt(src: string, i: nat): (r: Step)
    requires i < |src| && IsPunctuation(src[i])
    ensures r.Step? && i < r.next <= |src|
  {
    PunctuationAtBy(src, i, 1)
  }

  /** PunctuationAt, one step further away. */
  function PunctuationAtBy(src: string, i: nat, steps: nat): (r: Step)
    requires i < |src| && IsPunctuation(src[i])
    ensures r.Step? && i < r.next <= |src|
    decreases steps
  {
    if steps > 0 then PunctuationAtBy(src, i, steps - 1)
    else
      var c := src[i];
      if c == '(' then Plain(src, i, i + 1, LeftParen)
      else if c == ')' then Plain(src, i, i + 1, RightParen)
      else if c == ',' then Plain(src, i, i + 1, Comma)
      else if c == '.' then Plain(src, i, i + 1, Dot)
      else if c == '-' then
        if i + 1 < |src| && src[i + 1] == '-' then Step(None, Span(src, i + 2, InComment))
        else Plain(src, i, i + 1, Minus)
      else if c == '+' then Plain(src, i, i + 1, Plus)
      else if c == ';' then Plain(src, i, i + 1, Semicolon)
      else if c == '*' then Plain(src, i, i + 1, Star)
      else if c == '<' then
        if i + 1 < |src| && src[i + 1] == '=' then Plain(src, i, i + 2, LessEqual)
        else Plain(src, i, i + 1, TokenType.Less)
      else
        if i + 1 < |src| && src[i + 1] == '=' then Plain(src, i, i + 2, GreaterEqual)
        else Plain(src, i, i + 1, TokenType.Greater)
  }

  lemma PunctuationAtIs(src: string, i: nat)
    requires i < |src| && IsPunctuation(src[i])
    ensures PunctuationAt(src, i) == PunctuationAtBy(src, i, 0)
  {
  }

  /** scan_token from offset `i`: the lexeme that starts there. The arms
      are those of its match, the punctuation ones gathered in
      PunctuationAt; no character belongs to two arms. */
  function TokenAt(src: string, i: nat, keywords: map<string, TokenType>, round: string -> V.F64, variant: Variant)
    : (r: Result<Step>)
    requires i < |src|
    ensures r.Ok? && r.value.Step? ==> i < r.value.next <= |src|
  {
    TokenAtBy(src, i, keywords, round, variant, 1)
  }

  /** TokenAt, one step further away. */
  function TokenAtBy(src: string, i: nat, keywords: map<string, TokenType>, round: string -> V.F64, variant: Variant,
                     steps: nat): (r: Result<Step>)
    requires i < |src|
    ensures r.Ok? && r.value.Step? ==> i < r.value.next <= |src|
    decreases steps
  {
    if steps > 0 then TokenAtBy(src, i, keywords, round, variant, steps - 1)
    else
      var c := src[i];
      if IsPunctuation(c) then Ok(PunctuationAt(src, i))
      else if IsLayout(c) then Ok(Step(None, i + 1))
      else if c == '\'' then StringAt(src, i, round, variant)
      else if IsDigit(c) then NumberAt(src, i, round, variant)
      else if IsAlphaChar(c) then Ok(IdentifierAt(src, i, keywords))
      else Ok(Failure("Unexpected character '" + [c] + "'"))
  }

  lemma TokenAtIs(src: string, i: nat, keywords: map<string, TokenType>, round: string -> V.F64, variant: Variant)
    requires i < |src|
    ensures TokenAt(src, i, keywords, round, variant) == TokenAtBy(src, i, keywords, round, variant, 0)
  {
  }

  function Emitted(token: Option<Token>): seq<Token>
  {
    if token.Some? then [token.value] else []
  }

  /** scan_tokens from offset `i`: the tokens appended until the end of the
      input or the first error, and how it ended. */
  function Scan(src: string, i: nat, keywords: map<string, TokenType>, round: string -> V.F64, variant: Variant)
    : Result<(seq<Token>, Status)>
    requires i <= |src|
    decreases |src| - i
  {
    if i == |src| then Ok(([], Scanned))
    else
      var step :- TokenAt(src, i, keywords, round, variant);
      match step
      case Failure(message) => Ok(([], Failed(message)))
      case Step(token, next) =>
        var rest :- Scan(src, next, keywords, round, variant);
        Ok((Emitted(token) + rest.0, rest.1))
  }

  /** The tokens appended so far (`tokens`, from `t0`) and what scanning
      from `i` will add make up what scanning from `i0` adds. */
  ghost predicate Resumes(src: string, i0: nat, t0: seq<Token>, i: nat, tokens: seq<Token>,
                          keywords: map<string, TokenType>, round: string -> V.F64, variant: Variant)
    requires i0 <= |src| && i <= |src|
  {
    var scan := Scan(src, i0, keywords, round, variant);
    var rest := Scan(src, i, keywords, round, variant);
    && (rest.Panic? ==> scan.Panic?)
    && (rest.Ok? ==> scan.Ok? && scan.value.1 == rest.value.1 && t0 + scan.value.0 == tokens + rest.value.0)
  }

  lemma ResumesStarts(src: string, i: nat, keywords: map<string, TokenType>, round: string -> V.F64, variant: Variant, tokens: seq<Token>)
    requires i <= |src|
    ensures Resumes(src, i, tokens, i, tokens, keywords, round, variant)
  {
  }

  /** Scanning from `i` is the step at `i`, then scanning from where it
      continues. */
  lemma ScanStep(src: string, i: nat, keywords: map<string, TokenType>, round: string -> V.F64, variant: Variant)
    requires i < |src|
    requires TokenAt(src, i, keywords, round, variant).Ok? && TokenAt(src, i, keywords, round, variant).value.Step?
    ensures var step := TokenAt(src, i, keywords, round, variant).value;
      var rest := Scan(src, step.next, keywords, round, variant);
      && (rest.Panic? ==> Scan(src, i, keywords, round, variant).Panic?)
      && (rest.Ok? ==> Scan(src, i, keywords, round, variant) == Ok((Emitted(step.token) + rest.value.0, rest.value.1)))
  {
  }

  /** One more scan_token step keeps the two in step. */
  lemma ResumesStep(src: string, i0: nat, t0: seq<Token>, i: nat, tokens: seq<Token>,
                    keywords: map<string, TokenType>, round: string -> V.F64, variant: Variant)
    requires i0 <= |src| && i < |src|
    requires Resumes(src, i0, t0, i, tokens, keywords, round, variant)
    requires TokenAt(src, i, keywords, round, variant).Ok? && TokenAt(src, i, keywords, round, variant).value.Step?
    ensures var step := TokenAt(src, i, keywords, round, variant).value;
      Resumes(src, i0, t0, step.next, tokens + Emitted(step.token), keywords, round, variant)
  {
    ScanStep(src, i, keywords, round, variant);
    var step := TokenAt(src, i, keywords, round, variant).value;
    var rest := Scan(src, step.next, keywords, round, variant);
    if rest.Ok? {
      assert tokens + (Emitted(step.token) + rest.value.0) == tokens + Emitted(step.token) + rest.value.0;
    }
  }

  /** A panic of scan_token is a panic of the whole. */
  lemma ResumesPanics(src: string, i0: nat, t0: seq<Token>, i: nat, tokens: seq<Token>,
                      keywords: map<string, TokenType>, round: string -> V.F64, variant: Variant)
    requires i0 <= |src| && i < |src|
    requires Resumes(src, i0, t0, i, tokens, keywords, round, variant)
    requires TokenAt(src, i, keywords, round, variant).Panic?
    ensures Scan(src, i0, keywords, round, variant).Panic?
  {
  }

  /** An error of scan_token ends the whole with that error, the tokens so
      far being all it appends. */
  lemma ResumesFails(src: string, i0: nat, t0: seq<Token>, i: nat, tokens: seq<Token>,
                     keywords: map<string, TokenType>, round: string -> V.F64, variant: Variant)
    requires i0 <= |src| && i < |src|
    requires Resumes(src, i0, t0, i, tokens, keywords, round, variant)
    requires TokenAt(src, i, keywords, round, variant).Ok? && TokenAt(src, i, keywords, round, variant).value.Failure?
    ensures var scan := Scan(src, i0, keywords, round, variant);
      scan == Ok((scan.value.0, Failed(TokenAt(src, i, keywords, round, variant).value.message)))
      && t0 + scan.value.0 == tokens
  {
  }

  /** At the end of the input nothing more is appended. */
  lemma ResumesEnds(src: string, i0: nat, t0: seq<Token>, i: nat, tokens: seq<Token>,
                    keywords: map<string, TokenType>, round: string -> V.F64, variant: Variant)
    requires i0 <= |src| && i == |src|
    requires Resumes(src, i0, t0, i, tokens, keywords, round, variant)
    ensures var scan := Scan(src, i0, keywords, round, variant);
      scan == Ok((scan.value.0, Scanned)) && t0 + scan.value.0 == tokens
  {
  }

  class Scanner {
    const source: string
    var tokens: seq<Token>
    var start: nat
    var current: nat
    var keywords: map<string, TokenType>
    /** The nearest-float conversion the `f64` parse uses. */
    const round: string -> V.F64
    const variant: Variant

    ghost predicate Valid()
      reads this
    {
      start <= current <= |source|
    }

    /** Scanner::new: the cursor at the start, no tokens, and the keyword
        table. */
    constructor (sql: string, round: string -> V.F64, variant: Variant)
      ensures Valid() && source == sql && tokens == [] && start == 0 && current == 0
      ensures keywords == KEYWORD_MAP && this.round == round && this.variant == variant
    {
      source := sql;
      tokens := [];
      start := 0;
      current := 0;
      this.round := round;
      this.variant := variant;
      var table := AddKeywords(map[]);
      keywords := table;
    }

    predicate IsAtEnd()
      reads this
    {
      current >= |source|
    }

    /** peek: the character under the cursor, NUL at the end. */
    function Peek(): (c: char)
      reads this
      ensures c == PeekAt(source, current)
      ensures !IsAtEnd() ==> c == source[current]
      ensures IsAtEnd() ==> c == '\0'
    {
      PeekAt(source, current)
    }

    /** peek_next: the character after the cursor, as PeekNextAt states it
        for either guard. */
    function PeekNext(): (r: Result<char>)
      reads this
      ensures r == PeekNextAt(source, current, variant)
      ensures current + 1 < |source| ==> r == Ok(source[current + 1])
      ensures current + 1 > |source| ==> r == Ok('\0')
      ensures current + 1 == |source| ==> r == if variant == AsWritten then Panic(OutOfBounds(|source|, current + 1)) else Ok('\0')
    {
      PeekNextAt(source, current, variant)
    }

    /** advance: the character under the cursor, which moves past it. */
    method Advance() returns (c: char)
      requires current < |source|
      modifies this
      ensures c == source[old(current)] && current == old(current) + 1
      ensures tokens == old(tokens) && start == old(start) && keywords == old(keywords)
    {
      current := current + 1;
      c := source[current - 1];
    }

    /** match_token: the cursor moves past `expected` when it is under it. */
    method MatchToken(expected: char) returns (matched: bool)
      modifies this
      ensures matched <==> old(current) < |source| && source[old(current)] == expected
      ensures current == if matched then old(current) + 1 else old(current)
      ensures tokens == old(tokens) && start == old(start) && keywords == old(keywords)
    {
      if IsAtEnd() || source[current] != expected {
        matched := false;
      } else {
        current := current + 1;
        matched := true;
      }
    }

    /** add_token and add_literal: the lexeme from `start` to the cursor. */
    method AddLiteral(tokenType: TokenType, literal: V.Value)
      requires Valid()
      modifies this
      ensures current == old(current) && start == old(start) && keywords == old(keywords)
      ensures tokens == old(tokens) + [Token(tokenType, source[start..current], literal)]
    {
      var text := source[start..current];
      tokens := tokens + [Token(tokenType, text, literal)];
    }

    method AddToken(tokenType: TokenType)
      requires Valid()
      modifies this
      ensures current == old(current) && start == old(start) && keywords == old(keywords)
      ensures tokens == old(tokens) + [Token(tokenType, source[start..current], V.Null)]
    {
      AddLiteral(tokenType, V.Null);
    }

    /** The loops of identifier, number, string and the comment branch:
        the cursor moves past the run of kind `p`, stopping
        at the end of the input. */
    method AdvanceWhile(p: Run)
      requires Valid()
      modifies this
      ensures Valid() && tokens == old(tokens) && start == old(start) && keywords == old(keywords)
      ensures current == Span(source, old(current), p)
    {
      while !IsAtEnd() && Continues(p, Peek())
        invariant Valid() && old(current) <= current
        invariant Span(source, current, p) == Span(source, old(current), p)
        invariant tokens == old(tokens) && start == old(start) && keywords == old(keywords)
        decreases |source| - current
      {
        var _ := Advance();
      }
    }

    /** identifier: the letters, digits and underscores after the first
        letter, typed by the keyword table. */
    method Identifier()
      requires Valid() && current == start + 1 && start < |source|
      modifies this
      ensures Valid() && start == old(start) && keywords == old(keywords)
      ensures Performs(Ok(IdentifierAt(source, start, keywords)), Ok(Scanned), old(tokens), tokens, current)
    {
      AdvanceWhile(Word);
      var text := source[start..current];
      var tokenType := if Lower(text) in keywords then keywords[Lower(text)] else TokenType.Identifier;
      AddToken(tokenType);
    }

    /** number: the digits, a separator followed by a digit, and the
        literal of the text. */
    method Number() returns (r: Result<Status>)
      requires Valid() && current == start + 1 && start < |source|
      modifies this
      ensures Valid() && start == old(start) && keywords == old(keywords)
      ensures Performs(NumberAt(source, start, round, variant), r, old(tokens), tokens, current)
    {
      NumberAtCases(source, start, round, variant);
      AdvanceWhile(Digits);
      if Peek() == '.' || Peek() == ',' {
        var next := PeekNext();
        if next.Panic? {
          return Panic(next.reason);
        }
        if IsDigit(next.value) {
          var _ := Advance();
        }
      }
      var literal := V.FromText(source[start..current], round, variant);
      if literal.Panic? {
        return Panic(literal.reason);
      }
      AddLiteral(Num, literal.value);
      r := Ok(Scanned);
    }

    /** string: up to the closing quote, which must come before the end;
        the lexeme keeps the quotes and the literal is the text between. */
    method String() returns (r: Result<Status>)
      requires Valid() && current == start + 1 && start < |source|
      modifies this
      ensures Valid() && start == old(start) && keywords == old(keywords)
      ensures Performs(StringAt(source, start, round, variant), r, old(tokens), tokens, current)
    {
      AdvanceWhile(InString);
      ghost var j := current;
      if IsAtEnd() {
        StringAtCases(source, start, round, variant);
        return Ok(Failed("Unterminated string value"));
      }
      var _ := Advance();
      assert source[start + 1..current - 1] == source[start + 1..j];
      var literal := V.FromText(source[start + 1..current - 1], round, variant);
      if literal.Panic? {
        StringAtCases(source, start, round, variant);
        return Panic(literal.reason);
      }
      AddLiteral(Str, literal.value);
      r := Ok(Scanned);
      StringScanned(source, start, round, variant, j, literal.value, old(tokens), tokens, current);
    }

    /** scan_token: one lexeme from the cursor, as TokenAt describes. */
    method ScanToken() returns (r: Result<Status>)
      requires Valid() && start == current < |source|
      modifies this
      ensures Valid() && start == old(start) && keywords == old(keywords)
      ensures Performs(TokenAt(source, old(current), keywords, round, variant), r, old(tokens), tokens, current)
    {
      TokenAtIs(source, current, keywords, round, variant);
      if IsPunctuation(source[current]) {
        PunctuationAtIs(source, current);
      }
      var c := Advance();
      if c == '(' {
        AddToken(LeftParen);
      } else if c == ')' {
        AddToken(RightParen);
      } else if c == ',' {
        AddToken(Comma);
      } else if c == '.' {
        AddToken(Dot);
      } else if c == '-' {
        var comment := MatchToken('-');
        if comment {
          AdvanceWhile(InComment);
        } else {
          AddToken(Minus);
        }
      } else if c == '+' {
        AddToken(Plus);
      } else if c == ';' {
        AddToken(Semicolon);
      } else if c == '*' {
        AddToken(Star);
      } else if c == '<' {
        var equal := MatchToken('=');
        AddToken(if equal then LessEqual else TokenType.Less);
      } else if c == '>' {
        var equal := MatchToken('=');
        AddToken(if equal then GreaterEqual else TokenType.Greater);
      } else if c == ' ' || c == '\t' || c == '\r' || c == '\n' {
      } else if c == '\'' {
        r := String();
        return;
      } else if IsDigit(c) {
        r := Number();
        return;
      } else if IsAlphaChar(c) {
        Identifier();
      } else {
        return Ok(Failed("Unexpected character '" + [c] + "'"));
      }
      r := Ok(Scanned);
    }

    /** scan_tokens: scan_token from each token's start until the end of
        the input or the first error. */
    method ScanTokens() returns (r: Result<Status>)
      requires Valid()
      modifies this
      ensures var scan := Scan(source, old(current), keywords, round, variant);
        && (scan.Panic? ==> r.Panic?)
        && (scan.Ok? ==> r == Ok(scan.value.1) && tokens == old(tokens) + scan.value.0)
      ensures keywords == old(keywords)
    {
      start := current;
      ResumesStarts(source, current, keywords, round, variant, tokens);
      while !IsAtEnd()
        invariant Valid() && keywords == old(keywords)
        invariant Resumes(source, old(current), old(tokens), current, tokens, keywords, round, variant)
        decreases |source| - current
      {
        start := current;
        ghost var before := tokens;
        ghost var at := current;
        var status := ScanToken();
        if status.Panic? {
          ResumesPanics(source, old(current), old(tokens), at, before, keywords, round, variant);
          return Panic(status.reason);
        }
        if status.value.Failed? {
          ResumesFails(source, old(current), old(tokens), at, before, keywords, round, variant);
          return Ok(status.value);
        }
        ResumesStep(source, old(current), old(tokens), at, before, keywords, round, variant);
      }
      ResumesEnds(source, old(current), old(tokens), current, tokens, keywords, round, variant);
      r := Ok(Scanned);
    }
  }

  /** parse: a new scanner over `sql` scans it; the tokens on success,
      the message on an error. */
  method Parse(sql: string, round: string -> V.F64, variant: Variant) returns (r: Result<Lexed>)
    ensures var scan := Scan(sql, 0, KEYWORD_MAP, round, variant);
      && (scan.Panic? ==> r.Panic?)
      && (scan.Ok? && scan.value.1.Scanned? ==> r == Ok(Lexed(scan.value.0)))
      && (scan.Ok? && scan.value.1.Failed? ==> r == Ok(LexError(scan.value.1.message)))
  {
    var scanner := new Scanner(sql, round, variant);
    var status := scanner.ScanTokens();
    if status.Panic? {
      return Panic(status.reason);
    }
    if status.value.Failed? {
      return Ok(LexError(status.value.message));
    }
    assert scanner.tokens == [] + Scan(sql, 0, KEYWORD_MAP, round, variant).value.0;
    assert scanner.tokens == Scan(sql, 0, KEYWORD_MAP, round, variant).value.0;
    r := Ok(Lexed(scanner.tokens));
  }

  /** The result of parse: the tokens, or an error message. */
  datatype Lexed = Lexed(tokens: seq<Token>) | LexError(message: string)

  // ---------------------------------------------------------------------
  // What one step does

  /** The characters a lexeme can start with. */
  predicate Recognised(c: char)
  {
    IsPunctuation(c) || IsLayout(c) || c == '\'' || IsDigit(c) || IsAlphaChar(c)
  }

  /** A `--` at `i` opens a comment. */
  predicate CommentAt(src: string, i: nat)
  {
    i + 1 < |src| && src[i] == '-' && src[i + 1] == '-'
  }

  /** The fixed lexemes of the token types that have one. */
  function Spelling(t: TokenType): Option<string>
  {
    match t
    case LeftParen => Some("(")
    case RightParen => Some(")")
    case Comma => Some(",")
    case Dot => Some(".")
    case Minus => Some("-")
    case Plus => Some("+")
    case Star => Some("*")
    case Semicolon => Some(";")
    case Colon => Some(":")
    case Bang => Some("!")
    case Equals => Some("=")
    case Less => Some("<")
    case LessEqual => Some("<=")
    case Greater => Some(">")
    case GreaterEqual => Some(">=")
    case BangEquals => Some("!=")
    case Unequal => Some("<>")
    case _ => None
  }

  /** Every token's lexeme is the text its step moves over. */
  lemma LexemeIsSource(src: string, i: nat, keywords: map<string, TokenType>, round: string -> V.F64, variant: Variant)
    requires i < |src|
    ensures var r := TokenAt(src, i, keywords, round, variant);
      r.Ok? && r.value.Step? && r.value.token.Some? ==> r.value.token.value.lexeme == src[i..r.value.next]
  {
    TokenAtIs(src, i, keywords, round, variant);
    if IsPunctuation(src[i]) {
      PunctuationAtIs(src, i);
    } else if src[i] == '\'' {
      StringAtIs(src, i, round, variant);
    } else if IsDigit(src[i]) {
      NumberAtIs(src, i, round, variant);
    }
  }

  /** A step appends no token exactly on whitespace, which it moves past
      by one, and on a comment, which it skips up to the end of its line,
      leaving the newline for the next step. */
  lemma LayoutSkipped(src: string, i: nat, keywords: map<string, TokenType>, round: string -> V.F64, variant: Variant)
    requires i < |src|
    ensures var r := TokenAt(src, i, keywords, round, variant);
      r.Ok? && r.value.Step? && r.value.token.None? <==> IsLayout(src[i]) || CommentAt(src, i)
    ensures IsLayout(src[i]) ==> TokenAt(src, i, keywords, round, variant) == Ok(Step(None, i + 1))
    ensures CommentAt(src, i) ==> var r := TokenAt(src, i, keywords, round, variant);
      && r.Ok? && r.value.Step? && r.value.token.None?
      && (r.value.next == |src| || src[r.value.next] == '\n')
      && forall k :: i < k < r.value.next ==> src[k] != '\n'
  {
    if CommentAt(src, i) {
      SpanStops(src, i + 2, InComment);
    }
    TokenAtIs(src, i, keywords, round, variant);
    if IsPunctuation(src[i]) {
      PunctuationAtIs(src, i);
    } else if src[i] == '\'' {
      StringAtIs(src, i, round, variant);
    } else if IsDigit(src[i]) {
      NumberAtIs(src, i, round, variant);
    }
  }

  /** A step fails exactly on a character no lexeme starts with and on a
      string with no closing quote, with the source's two messages. */
  lemma FailsExactly(src: string, i: nat, keywords: map<string, TokenType>, round: string -> V.F64, variant: Variant)
    requires i < |src|
    ensures var r := TokenAt(src, i, keywords, round, variant);
      r.Ok? && r.value.Failure? <==> !Recognised(src[i]) || (src[i] == '\'' && Span(src, i + 1, InString) == |src|)
    ensures !Recognised(src[i]) ==> TokenAt(src, i, keywords, round, variant) == Ok(Failure("Unexpected character '" + [src[i]] + "'"))
    ensures src[i] == '\'' && Span(src, i + 1, InString) == |src| ==> TokenAt(src, i, keywords, round, variant) == Ok(Failure("Unterminated string value"))
  {
    TokenAtIs(src, i, keywords, round, variant);
    if src[i] == '\'' {
      StringAtIs(src, i, round, variant);
    } else if IsDigit(src[i]) {
      NumberAtIs(src, i, round, variant);
    }
  }

  /** A step panics only on a literal: on the string `'"'`, whose text
      strip_quotes cannot slice, and, as written, on a number whose digits
      are followed by a `.` or `,` that ends the input, where peek_next
      reads past the end. */
  lemma PanicsExactly(src: string, i: nat, keywords: map<string, TokenType>, round: string -> V.F64, variant: Variant)
    requires i < |src|
    ensures var j := Span(src, i + 1, InString);
      var d := Span(src, i + 1, Digits);
      TokenAt(src, i, keywords, round, variant).Panic? <==>
        || (src[i] == '\'' && j < |src| && src[i + 1..j] == "\"")
        || (variant == AsWritten && IsDigit(src[i]) && d + 1 == |src| && (src[d] == '.' || src[d] == ','))
  {
    TokenAtIs(src, i, keywords, round, variant);
    if src[i] == '\'' {
      StringAtIs(src, i, round, variant);
      var j := Span(src, i + 1, InString);
      if j < |src| {
        V.FromTextPanics(src[i + 1..j], round, variant);
      }
    } else if IsDigit(src[i]) {
      NumberAtIs(src, i, round, variant);
      var e := NumberEnd(src, i, variant);
      if e.Ok? {
        V.FromTextPanics(src[i..e.value], round, variant);
        assert src[i..e.value][0] == src[i];
      }
    }
  }

  /** A string's lexeme runs from its quote to the next one, and its
      literal is the value of the text between the two. */
  lemma StringShape(src: string, i: nat, keywords: map<string, TokenType>, round: string -> V.F64, variant: Variant)
    requires i < |src| && src[i] == '\''
    ensures var r := TokenAt(src, i, keywords, round, variant);
      var j := Span(src, i + 1, InString);
      r.Ok? && r.value.Step? ==>
        && r.value.next == j + 1 && j < |src| && src[j] == '\'' && (forall k :: i < k < j ==> src[k] != '\'')
        && r.value.token.Some? && r.value.token.value.tokenType == Str
        && V.FromText(src[i + 1..j], round, variant) == Ok(r.value.token.value.literal)
  {
    SpanStops(src, i + 1, InString);
    TokenAtIs(src, i, keywords, round, variant);
    StringAtIs(src, i, round, variant);
  }

  /** A number's lexeme is its run of digits, then a `.` or `,` when a
      digit follows that; the digits after the separator are not part of
      it. Its literal is the value of the lexeme. */
  lemma NumberShape(src: string, i: nat, keywords: map<string, TokenType>, round: string -> V.F64, variant: Variant)
    requires i < |src| && IsDigit(src[i])
    ensures var r := TokenAt(src, i, keywords, round, variant);
      r.Ok? && r.value.Step? ==>
        var e := r.value.next;
        var d := Span(src, i + 1, Digits);
        var fraction := d + 1 < |src| && (src[d] == '.' || src[d] == ',') && IsDigit(src[d + 1]);
        && r.value.token.Some? && r.value.token.value.tokenType == Num
        && (forall k :: i <= k < d ==> IsDigit(src[k]))
        && e == (if fraction then d + 1 else d)
        && V.FromText(src[i..e], round, variant) == Ok(r.value.token.value.literal)
  {
    TokenAtIs(src, i, keywords, round, variant);
    NumberAtCases(src, i, round, variant);
    NumberEndShape(src, i, variant);
    var d := Span(src, i + 1, Digits);
    forall k | i <= k < d
      ensures IsDigit(src[k])
    {
      if k > i {
        SpanStops(src, i + 1, Digits);
      }
    }
  }

  /** Where NumberEnd puts the end of a number that does not panic. */
  lemma NumberEndShape(src: string, i: nat, variant: Variant)
    requires i < |src|
    ensures var e := NumberEnd(src, i, variant);
      var d := Span(src, i + 1, Digits);
      e.Ok? ==> e.value == if d + 1 < |src| && (src[d] == '.' || src[d] == ',') && IsDigit(src[d + 1]) then d + 1 else d
  {
  }

  /** An identifier is the longest run of letters, digits and underscores
      from its first letter, typed as the keyword its lower-cased lexeme
      names, or Identifier. With the keyword table of add_keywords it is
      never Nil. */
  lemma IdentifierShape(src: string, i: nat, keywords: map<string, TokenType>, round: string -> V.F64, variant: Variant)
    requires i < |src| && IsAlphaChar(src[i])
    ensures var r := TokenAt(src, i, keywords, round, variant);
      && r.Ok? && r.value.Step? && r.value.token.Some?
      && var e := r.value.next;
      var t := r.value.token.value;
      && (forall k :: i <= k < e ==> IsAlnumChar(src[k])) && (e == |src| || !IsAlnumChar(src[e]))
      && t.literal == V.Null
      && (Lower(t.lexeme) in keywords ==> t.tokenType == keywords[Lower(t.lexeme)])
      && (Lower(t.lexeme) !in keywords ==> t.tokenType == TokenType.Identifier)
      && (keywords == KEYWORD_MAP ==> t.tokenType != Nil)
  {
    SpanStops(src, i + 1, Word);
    TokenAtIs(src, i, keywords, round, variant);
    LowerNeverNil(src[i..Span(src, i + 1, Word)]);
  }

  /** Every other lexeme is spelled as its token type: the longer of `<=`
      and `<` (`>=` and `>`) that is there, and a single character
      otherwise, with a NULL literal. */
  lemma PunctuationShape(src: string, i: nat, keywords: map<string, TokenType>, round: string -> V.F64, variant: Variant)
    requires i < |src| && IsPunctuation(src[i]) && !CommentAt(src, i)
    ensures var r := TokenAt(src, i, keywords, round, variant);
      && r.Ok? && r.value.Step? && r.value.token.Some?
      && var t := r.value.token.value;
      && Spelling(t.tokenType) == Some(t.lexeme) && t.literal == V.Null
      && (|t.lexeme| == 1 <==> !((src[i] == '<' || src[i] == '>') && i + 1 < |src| && src[i + 1] == '='))
  {
    TokenAtIs(src, i, keywords, round, variant);
    PunctuationAtIs(src, i);
    assert src[i..i + 1] == [src[i]];
    if i + 1 < |src| {
      assert src[i..i + 2] == [src[i], src[i + 1]];
    }
  }

  /** The types with no lexeme of theirs in the scanner: `!`, `=`, `:`,
      `!=` and `<>` are unexpected characters, and Nil's key "NIL" is
      never looked up. */
  predicate Unscannable(t: TokenType)
  {
    t.Bang? || t.Equals? || t.Colon? || t.BangEquals? || t.Unequal? || t.Nil?
  }

  /** With the keyword table of add_keywords, no step makes a token of an
      unscannable type. */
  lemma StepScannable(src: string, i: nat, round: string -> V.F64, variant: Variant)
    requires i < |src|
    ensures var r := TokenAt(src, i, KEYWORD_MAP, round, variant);
      r.Ok? && r.value.Step? && r.value.token.Some? ==> !Unscannable(r.value.token.value.tokenType)
  {
    TokenAtIs(src, i, KEYWORD_MAP, round, variant);
    if IsPunctuation(src[i]) {
      PunctuationAtIs(src, i);
    } else if src[i] == '\'' {
      StringAtIs(src, i, round, variant);
    } else if IsDigit(src[i]) {
      NumberAtIs(src, i, round, variant);
    } else if IsAlphaChar(src[i]) {
      IdentifierShape(src, i, KEYWORD_MAP, round, variant);
    }
  }

  /** Nor does a whole scan. */
  lemma {:induction false} ScanScannable(src: string, i: nat, round: string -> V.F64, variant: Variant)
    requires i <= |src|
    ensures var scan := Scan(src, i, KEYWORD_MAP, round, variant);
      scan.Ok? ==> forall k :: 0 <= k < |scan.value.0| ==> !Unscannable(scan.value.0[k].tokenType)
    decreases |src| - i
  {
    if i < |src| {
      var step := TokenAt(src, i, KEYWORD_MAP, round, variant);
      if step.Ok? && step.value.Step? {
        StepScannable(src, i, round, variant);
        ScanScannable(src, step.value.next, round, variant);
        ScanStep(src, i, KEYWORD_MAP, round, variant);
      }
    }
  }

  // ---------------------------------------------------------------------
  // peek_next at the last character

  /** As written, `12.` panics: after the digits the cursor is on the
      last character, and peek_next reads the offset past the end. */
  lemma PeekNextPastEnd(keywords: map<string, TokenType>, round: string -> V.F64)
    ensures TokenAt("12.", 0, keywords, round, AsWritten) == Panic(OutOfBounds(3, 3))
    ensures Scan("12.", 0, keywords, round, AsWritten).Panic?
  {
    TokenAtIs("12.", 0, keywords, round, AsWritten);
    NumberAtIs("12.", 0, round, AsWritten);
    assert Span("12.", 1, Digits) == 2 by {
      assert Span("12.", 2, Digits) == 2;
    }
  }

  /** Corrected, peek_next gives NUL there, and `12.` is the number 12
      followed by a dot. The literal is Integer(12) because Corrected also
      tries i64 before f64 when classifying text (Values.IntegerTextIsInteger);
      with the peek_next fix alone the tokens would be the same but the
      number's literal would be a Float. */
  lemma PeekNextCorrected(keywords: map<string, TokenType>, round: string -> V.F64)
    ensures TokenAt("12.", 0, keywords, round, Corrected) == Ok(Step(Some(Token(Num, "12", V.Integer(12))), 2))
    ensures Scan("12.", 0, keywords, round, Corrected)
      == Ok(([Token(Num, "12", V.Integer(12)), Token(Dot, ".", V.Null)], Scanned))
  {
    var src := "12.";
    assert Span(src, 1, Digits) == 2 by {
      assert Span(src, 2, Digits) == 2;
    }
    assert NumberEnd(src, 0, Corrected) == Ok(2);
    assert src[0..2] == "12";
    assert ParseI64("12") == Some(12) by {
      assert "12"[..1] == "1";
      assert "1"[..0] == "";
    }
    V.IntegerTextIsInteger("12", round);
    NumberAtCases(src, 0, round, Corrected);
    TokenAtIs(src, 0, keywords, round, Corrected);
    var number := Token(Num, "12", V.Integer(12));
    assert TokenAt(src, 0, keywords, round, Corrected) == Ok(Step(Some(number), 2));
    PunctuationAtIs(src, 2);
    TokenAtIs(src, 2, keywords, round, Corrected);
    assert src[2..3] == ".";
    var dot := Token(Dot, ".", V.Null);
    assert TokenAt(src, 2, keywords, round, Corrected) == Ok(Step(Some(dot), 3));
    assert Scan(src, 3, keywords, round, Corrected) == Ok(([], Scanned));
    ScanStep(src, 2, keywords, round, Corrected);
    ScanStep(src, 0, keywords, round, Corrected);
    assert [number] + ([dot] + []) == [number, dot];
  }
}
