/** The parser's look-ahead: eight token slots over the scanner, moved down as tokens are consumed. */
module TokenWindow {
  import opened Lexer
  import opened Bytes

  const TOKEN_CAPACITY: nat := 8
  const COMPACTION_THRESHOLD: nat := 4

  // ----- How far ahead the parser looks -----

  function Upper(b: byte): byte { if 97 <= b <= 122 then b - 32 else b }

  /** ascii_eq_nocase on a word and a keyword. */
  predicate Spells(source: seq<byte>, token: Token, keyword: string) {
    && token.kind == WORD && token.length == |keyword| && token.start + token.length <= |source|
    && forall i :: 0 <= i < |keyword| ==> Upper(source[token.start + i]) as char == keyword[i]
  }

  predicate IsKeyword(source: seq<byte>, n: nat, keyword: string) { Spells(source, TokenAt(source, n), keyword) }

  /** The last token create_is_graph_type looks at, counted from the one it starts at. */
  function LooksTo(source: seq<byte>, n: nat): (k: nat)
    ensures k <= 5
  {
    var name := if IsKeyword(source, n + 1, "OR") then 3 else 1;
    var property := if IsKeyword(source, n + name, "PROPERTY") then name + 1 else name;
    if IsKeyword(source, n + property, "GRAPH") then property + 1 else property
  }

  class Window {
    const scanner: Scanner
    const tokens: array<Token>
    var tokenCount: nat
    var currentIndex: nat
    ghost var base: nat  // the number of the token in slot 0

    ghost predicate Valid()
      reads this, scanner, tokens
    {
      && scanner.Valid() && tokens.Length == TOKEN_CAPACITY
      && currentIndex < COMPACTION_THRESHOLD && currentIndex <= tokenCount <= TOKEN_CAPACITY
      && base % COMPACTION_THRESHOLD == 0
      && scanner.position == PositionAfter(scanner.source, base + tokenCount)
      && forall i: nat :: i < tokenCount ==> tokens[i] == TokenAt(scanner.source, base + i)
    }

    /** How many tokens have been consumed. */
    ghost function Consumed(): nat
      reads this
    {
      base + currentIndex
    }

    /** gql_lexer_init */
    constructor (source: seq<byte>)
      ensures Valid() && Consumed() == 0 && scanner.source == source
      ensures fresh(scanner) && fresh(tokens)
    {
      scanner := new Scanner(source);
      tokens := new Token[8](_ => Token(END, 0, 0, 0, false));
      tokenCount, currentIndex, base := 0, 0, 0;
    }

    /** ensure_token */
    method EnsureToken(index: nat)
      requires Valid() && index < TOKEN_CAPACITY
      modifies this`tokenCount, scanner, tokens
      ensures Valid() && index < tokenCount
    {
      hide LexFrom;
      while tokenCount <= index
        invariant Valid()
        decreases TOKEN_CAPACITY - tokenCount
      {
        LexNext();
      }
    }

    /** One more token into the first free slot. */
    method LexNext()
      requires Valid() && tokenCount < TOKEN_CAPACITY
      modifies this`tokenCount, scanner, tokens
      ensures Valid() && tokenCount == old(tokenCount) + 1
    {
      hide LexFrom, Scanner.Valid;
      tokens[tokenCount] := scanner.LexOne();
      tokenCount := tokenCount + 1;
    }

    /**
     * gql_lexer_peek: token number n + k, where n have been consumed, whatever was looked at
     * before; None where the look goes past the eight slots.
     */
    method Peek(k: nat) returns (token: Option<Token>)
      requires Valid()
      modifies this`tokenCount, scanner, tokens
      ensures Valid()
      ensures token == if Consumed() % COMPACTION_THRESHOLD + k < TOKEN_CAPACITY
                       then Some(TokenAt(scanner.source, Consumed() + k)) else None
    {
      hide LexFrom, Scanner.Valid;
      FourAhead(k);
      if currentIndex + k >= TOKEN_CAPACITY {
        return None;
      }
      EnsureToken(currentIndex + k);
      token := Some(tokens[currentIndex + k]);
    }

    /**
     * How far ahead the eight slots reach depends on how many tokens were consumed: four tokens
     * always, the fifth exactly unless one less than a multiple of four were.
     */
    lemma FourAhead(k: nat)
      requires Valid()
      ensures currentIndex == Consumed() % COMPACTION_THRESHOLD
      ensures currentIndex + k < TOKEN_CAPACITY <==> Consumed() % COMPACTION_THRESHOLD + k < TOKEN_CAPACITY
      ensures k <= 4 ==> currentIndex + k < TOKEN_CAPACITY
      ensures k == 5 ==> (currentIndex + k < TOKEN_CAPACITY <==> Consumed() % COMPACTION_THRESHOLD != 3)
    {
      hide TokenAt, PositionAfter, Scanner.Valid;
    }

    /** A look ahead for a keyword. */
    method LookFor(k: nat, keyword: string) returns (r: Option<bool>)
      requires Valid()
      modifies this`tokenCount, scanner, tokens
      ensures Valid()
      ensures r == if Consumed() % COMPACTION_THRESHOLD + k < TOKEN_CAPACITY
                   then Some(IsKeyword(scanner.source, Consumed() + k, keyword)) else None
    {
      hide LexFrom, Scanner.Valid, Spells, PositionAfter;
      var token := Peek(k);
      r := if token.Some? then Some(Spells(scanner.source, token.value, keyword)) else None;
    }

    /** create_is_graph_type, at CREATE; None where it looks past the eight slots. */
    method CreateIsGraphType() returns (r: Option<bool>)
      requires Valid()
      modifies this`tokenCount, scanner, tokens
      ensures Valid()
      ensures var k := LooksTo(scanner.source, Consumed());
              r == if Consumed() % COMPACTION_THRESHOLD + k < TOKEN_CAPACITY
                   then Some(IsKeyword(scanner.source, Consumed() + k, "TYPE")) else None
    {
      hide LexFrom, Scanner.Valid, Window.Valid, IsKeyword;
      var i := 1;
      var or := LookFor(i, "OR");
      if or == Some(true) {
        i := i + 2;
      }
      var property := LookFor(i, "PROPERTY");
      if property == Some(true) {
        i := i + 1;
      }
      var graph := LookFor(i, "GRAPH");
      if graph == Some(true) {
        i := i + 1;
      }
      r := LookFor(i, "TYPE");
    }

    /** gql_lexer_advance, with the move down once the threshold is reached. */
    method Advance()
      requires Valid()
      modifies this, scanner, tokens
      ensures Valid() && Consumed() == old(Consumed()) + 1
    {
      hide LexFrom, Scanner.Valid;
      EnsureToken(currentIndex + 1);
      currentIndex := currentIndex + 1;
      if currentIndex >= COMPACTION_THRESHOLD {
        Compact();
      }
    }

    /** The remaining tokens moved to the front. */
    method Compact()
      requires scanner.Valid() && tokens.Length == TOKEN_CAPACITY
      requires currentIndex == COMPACTION_THRESHOLD <= tokenCount <= TOKEN_CAPACITY
      requires scanner.position == PositionAfter(scanner.source, base + tokenCount)
      requires forall i: nat :: i < tokenCount ==> tokens[i] == TokenAt(scanner.source, base + i)
      requires base % COMPACTION_THRESHOLD == 0
      modifies this, tokens
      ensures Valid() && Consumed() == old(Consumed()) && currentIndex == 0
    {
      hide LexFrom, Scanner.Valid;
      var remaining := tokenCount - currentIndex;
      forall i | 0 <= i < remaining {
        tokens[i] := tokens[currentIndex + i];
      }
      base := base + currentIndex;
      tokenCount, currentIndex := remaining, 0;
    }
  }

  /**
   * create_is_graph_type looks past the eight slots exactly for CREATE OR REPLACE PROPERTY GRAPH
   * with CREATE at a token whose number is one less than a multiple of four.
   */
  lemma LooksPastIff(source: seq<byte>, n: nat)
    ensures n % COMPACTION_THRESHOLD + LooksTo(source, n) >= TOKEN_CAPACITY <==>
            && n % COMPACTION_THRESHOLD == 3 && IsKeyword(source, n + 1, "OR")
            && IsKeyword(source, n + 3, "PROPERTY") && IsKeyword(source, n + 4, "GRAPH")
  {
    hide IsKeyword;
  }

  // ----- A text on which it does -----

  predicate Capitals(word: string) {
    word != "" && word[0] != 'X' && forall i :: 0 <= i < |word| ==> 'A' <= word[i] <= 'Z'
  }

  function Letters(word: string): (s: seq<byte>)
    requires Capitals(word)
    ensures |s| == |word|
  {
    seq(|word|, i requires 0 <= i < |word| => word[i] as int)
  }

  /** RETURN 1 NEXT CREATE OR REPLACE PROPERTY GRAPH g */
  function Text(): seq<byte> { Letters("RETURN") + ([SPACE, 49] + AfterOne()) }

  function AfterOne(): seq<byte> { [SPACE] + Letters("NEXT") + ([SPACE] + Letters("CREATE") + AfterCreate()) }

  function AfterCreate(): seq<byte> { [SPACE] + Letters("OR") + ([SPACE] + Letters("REPLACE") + AfterReplace()) }

  function AfterReplace(): seq<byte> { [SPACE] + Letters("PROPERTY") + ([SPACE] + Letters("GRAPH") + [SPACE, 103]) }

  /** A word behind at most one space is the next token. */
  lemma WordToken(source: seq<byte>, p: nat, start: nat, end: nat)
    requires p <= start <= p + 1 && start < end <= |source| && (p < start ==> source[p] == SPACE)
    requires IsWordStart(source[start]) && source[start] < 0x80 && source[start] != 120 && source[start] != 88
    requires forall i :: start <= i < end ==> IsWordByte(source[i])
    requires end < |source| ==> !IsWordByte(source[end])
    ensures LexFrom(source, p).1 == end
    ensures LexFrom(source, p).0.kind == WORD && LexFrom(source, p).0.start == start
    ensures LexFrom(source, p).0.length == end - start
  {
    hide LinesBefore, LexemeAt, Spaces, Run;
    OneSpace(source, p, start);
    var t := source[start..];
    assert forall i :: 0 <= i < |t| ==> t[i] == source[start + i];
    LongestWord(t);
  }

  /** One space, or none, in front of a byte that begins a token. */
  lemma OneSpace(source: seq<byte>, p: nat, start: nat)
    requires p <= start <= p + 1 && start < |source| && (p < start ==> source[p] == SPACE)
    requires IsWordByte(source[start]) && source[start] < 0x80
    ensures Spaces(source[p..]) == start - p
  {
    hide BlockEnd, Run;
    assert SpaceLength(source[start..]) == 0;
    if p < start {
      DropOfDrop(source, p, 1);
    }
  }

  /** So is a digit with spaces around it. */
  lemma DigitToken(source: seq<byte>, p: nat)
    requires p + 2 < |source| && source[p] == SPACE && source[p + 2] == SPACE
    requires IsDigit(source[p + 1]) && source[p + 1] != ZERO
    ensures LexFrom(source, p).1 == p + 2
  {
    hide LinesBefore, Spaces, LexemeAt;
    OneSpace(source, p, p + 1);
    DigitAlone(source[p + 1..]);
  }

  lemma DigitAlone(t: seq<byte>)
    requires |t| > 1 && IsDigit(t[0]) && t[0] != ZERO && t[1] == SPACE
    ensures LexemeAt(t).skipped == 0 && LexemeAt(t).length == 1
  {
    hide Run;
    RunStep(t, DIGITS);
    RunStep(t[1..], DIGITS);
  }

  lemma PositionStep(source: seq<byte>, n: nat)
    ensures PositionAfter(source, n + 1) == LexFrom(source, PositionAfter(source, n)).1
    ensures n == 0 ==> PositionAfter(source, n) == 0
  {
    hide LexFrom;
  }

  /** The bytes of a source where a keyword comes next. */
  lemma KeywordBytes(source: seq<byte>, p: nat, space: seq<byte>, word: string, rest: seq<byte>)
    requires Capitals(word) && p <= |source| && source[p..] == space + Letters(word) + rest
    ensures var start, end := p + |space|, p + |space| + |word|;
            && end + |rest| == |source| && source[end..] == rest && source[p..start] == space
            && forall i :: 0 <= i < |word| ==> source[start + i] as char == word[i]
  {
    var t := source[p..];
    assert forall i :: 0 <= i < |t| ==> source[p + i] == t[i];
    forall i | 0 <= i < |word| ensures source[p + |space| + i] as char == word[i] {
      assert t[|space| + i] == Letters(word)[i];
    }
    DropOfDrop(source, p, |space| + |word|);
    assert t[|space| + |word|..] == rest && t[..|space|] == space;
    SliceOfDrop(source, p, 0, |space|);
  }

  /** A keyword behind at most one space, and in front of one. */
  lemma NextKeyword(source: seq<byte>, n: nat, p: nat, space: seq<byte>, word: string, rest: seq<byte>)
    requires p == PositionAfter(source, n) && Capitals(word) && source[p..] == space + Letters(word) + rest
    requires (space == [] || space == [SPACE]) && rest != [] && rest[0] == SPACE
    ensures PositionAfter(source, n + 1) == p + |space| + |word| <= |source|
    ensures IsKeyword(source, n, word) && source[p + |space| + |word|..] == rest
  {
    hide LexFrom, PositionAfter, Letters;
    var start, end := p + |space|, p + |space| + |word|;
    KeywordBytes(source, p, space, word, rest);
    assert source[end] == source[end..][0];
    assert start > p ==> source[p..start][0] == source[p];
    forall i | start <= i < end ensures 65 <= source[i] <= 90 {
      assert source[start + (i - start)] as char == word[i - start];
    }
    assert source[start + 0] as char == word[0];
    PositionStep(source, n);
    WordToken(source, p, start, end);
  }

  lemma LiteralsAreCapitals()
    ensures Capitals("RETURN") && Capitals("NEXT") && Capitals("CREATE") && Capitals("OR")
    ensures Capitals("REPLACE") && Capitals("PROPERTY") && Capitals("GRAPH")
  {
  }

  /** The tokens of the text: CREATE is the fourth. */
  lemma TokensOfText()
    ensures IsKeyword(Text(), 3, "CREATE") && IsKeyword(Text(), 4, "OR")
    ensures IsKeyword(Text(), 6, "PROPERTY") && IsKeyword(Text(), 7, "GRAPH")
  {
    hide LexFrom, PositionAfter, IsKeyword, Letters, Capitals;
    LiteralsAreCapitals();
    var s, one := Text(), [SPACE, 49] + AfterOne();
    PositionStep(s, 0);
    assert s[0..] == [] + Letters("RETURN") + one;
    NextKeyword(s, 0, 0, [], "RETURN", one);
    PositionStep(s, 1);
    assert s[6] == one[0] && s[7] == one[1] && s[8] == one[2] && s[8..] == one[2..] == AfterOne();
    DigitToken(s, 6);
    NextKeyword(s, 2, 8, [SPACE], "NEXT", [SPACE] + Letters("CREATE") + AfterCreate());
    NextKeyword(s, 3, 13, [SPACE], "CREATE", AfterCreate());
    NextKeyword(s, 4, 20, [SPACE], "OR", [SPACE] + Letters("REPLACE") + AfterReplace());
    NextKeyword(s, 5, 23, [SPACE], "REPLACE", AfterReplace());
    NextKeyword(s, 6, 31, [SPACE], "PROPERTY", [SPACE] + Letters("GRAPH") + [SPACE, 103]);
    NextKeyword(s, 7, 40, [SPACE], "GRAPH", [SPACE, 103]);
  }

  /** After RETURN 1 NEXT the parser is at CREATE, and looks past the slots. */
  method CreateLooksPast() returns (r: Option<bool>)
    ensures r == None
  {
    hide LexFrom, Scanner.Valid, IsKeyword, TokenAt, PositionAfter, Text;
    var w := new Window(Text());
    w.Advance();
    w.Advance();
    w.Advance();
    TokensOfText();
    LooksPastIff(Text(), 3);
    r := w.CreateIsGraphType();
  }
}
