/** The scanner: white space and comments, one token at a time, always forward. */
module Lexer {
  import opened Bytes
  import opened StringLiteral

  datatype Kind = END | ERROR | STRING | DELIMITED | BYTES | NUMBER | PARAMETER | WORD | SYMBOL

  /** A token is a kind, a span of the source and its line; keywords are words here. */
  datatype Token = Token(kind: Kind, start: nat, length: nat, line: nat, isFloat: bool)

  // ----- Bytes -----

  const LF: byte := 10
  const CR: byte := 13
  const SPACE: byte := 32
  const DOLLAR: byte := 36
  const ASTERISK: byte := 42
  const PLUS: byte := 43
  const MINUS: byte := 45
  const PERIOD: byte := 46
  const SLASH: byte := 47
  const ZERO: byte := 48
  const AT: byte := 64
  const UNDERSCORE: byte := 95

  predicate IsDigit(b: byte) { 48 <= b <= 57 }

  predicate IsWordStart(b: byte) { b >= 0x80 || b == UNDERSCORE || 97 <= b <= 122 || 65 <= b <= 90 }

  predicate IsWordByte(b: byte) { IsWordStart(b) || IsDigit(b) }

  /** is_ws_byte */
  predicate IsWhite(b: byte) { b == SPACE || 9 <= b <= 13 || 0x1C <= b <= 0x1F }

  predicate Second(t: seq<byte>, b: byte) { |t| > 1 && t[1] == b }

  /** utf8_ws_len */
  function WhiteSequence(t: seq<byte>): (n: nat)
    ensures n <= |t| && (n > 0 ==> t[0] >= 0xC2)
    ensures forall i :: 0 <= i < n ==> t[i] != LF && t[i] != CR
  {
    if |t| >= 2 && t[0] == 0xC2 && t[1] == 0xA0 then 2
    else if |t| >= 3 && t[0] == 0xE1 && t[1] == 0x9A && t[2] == 0x80 then 3
    else if |t| >= 3 && t[0] == 0xE1 && t[1] == 0xA0 && t[2] == 0x8E then 3
    else if |t| >= 3 && t[0] == 0xE2 && t[1] == 0x80
         && (0x80 <= t[2] <= 0x8A || t[2] == 0xA8 || t[2] == 0xA9 || t[2] == 0xAF) then 3
    else if |t| >= 3 && t[0] == 0xE2 && t[1] == 0x81 && t[2] == 0x9F then 3
    else if |t| >= 3 && t[0] == 0xE3 && t[1] == 0x80 && t[2] == 0x80 then 3
    else 0
  }

  datatype Class =
    | DIGITS | WORD_BYTES | HEX_DIGITS | OCTAL_DIGITS | BINARY_DIGITS | PLAIN_DIGITS | NOT_LINE_END | BYTE_STRING_BODY

  predicate In(b: byte, family: Class) {
    match family
    case DIGITS => IsDigit(b) || b == UNDERSCORE
    case WORD_BYTES => IsWordByte(b)
    case HEX_DIGITS => HexValue(b).Some? || b == UNDERSCORE
    case OCTAL_DIGITS => 48 <= b <= 55 || b == UNDERSCORE
    case BINARY_DIGITS => 48 <= b <= 49 || b == UNDERSCORE
    case PLAIN_DIGITS => IsDigit(b)
    case NOT_LINE_END => b != LF && b != CR
    case BYTE_STRING_BODY => b != SINGLE
  }

  /** The length of the run of such bytes at the head. */
  function Run(t: seq<byte>, family: Class): (n: nat)
    ensures n <= |t| && (n < |t| ==> !In(t[n], family))
  {
    if t != [] && In(t[0], family) then 1 + Run(t[1..], family) else 0
  }

  // ----- White space and comments -----

  /** The rest of a block comment, its end included, or everything. */
  function BlockEnd(t: seq<byte>): (n: nat)
    ensures n <= |t|
  {
    if t == [] then 0
    else if t[0] == ASTERISK && Second(t, SLASH) then 2
    else 1 + BlockEnd(t[1..])
  }

  /** One white space character or comment at the head. */
  function SpaceLength(t: seq<byte>): (n: nat)
    requires t != []
    ensures n <= |t| && (n == 0 ==> !IsWhite(t[0]))
  {
    if WhiteSequence(t) > 0 then WhiteSequence(t)
    else if IsWhite(t[0]) then 1
    else if t[0] == SLASH && Second(t, ASTERISK) then 2 + BlockEnd(t[2..])
    else if (t[0] == SLASH && Second(t, SLASH)) || (t[0] == MINUS && Second(t, MINUS)) then
      2 + Run(t[2..], NOT_LINE_END)
    else 0
  }

  /** All white space and comments at the head. */
  function Spaces(t: seq<byte>): (n: nat)
    ensures n <= |t|
  {
    if t == [] || SpaceLength(t) == 0 then 0 else SpaceLength(t) + Spaces(t[SpaceLength(t)..])
  }

  // ----- One token -----

  /** A token at the head: its kind, the bytes before its span, and the length of the span. */
  datatype Lexeme = Lexeme(kind: Kind, skipped: nat, length: nat, isFloat: bool)

  function LexemeOf(kind: Kind, length: nat): Lexeme { Lexeme(kind, 0, length, false) }

  /** lex_string */
  function StringLexeme(t: seq<byte>): (l: Lexeme)
    requires t != []
    ensures l.skipped == 0 && 1 <= l.length <= |t|
  {
    match BodyLength(t[1..], t[0])
    case None => LexemeOf(ERROR, |t|)
    case Some(n) => LexemeOf(if t[0] == ACCENT then DELIMITED else STRING, 1 + n)
  }

  predicate IsByteDigit(b: byte) { b == SPACE || HexValue(b).Some? }

  /** lex_byte_string */
  function ByteStringLexeme(t: seq<byte>): (l: Lexeme)
    requires 2 <= |t|
    ensures l.skipped == 0 && 1 <= l.length <= |t|
  {
    var body := t[2..];
    var n := Run(body, BYTE_STRING_BODY);
    if n == |body| then LexemeOf(ERROR, |t|)
    else LexemeOf(if exists i :: 0 <= i < n && !IsByteDigit(body[i]) then ERROR else BYTES, 3 + n)
  }

  function RadixClass(t: seq<byte>): Option<Class> {
    if t == [] || t[0] != ZERO then None
    else if Second(t, 120) || Second(t, 88) then Some(HEX_DIGITS)      // x
    else if Second(t, 111) || Second(t, 79) then Some(OCTAL_DIGITS)    // o
    else if Second(t, 98) || Second(t, 66) then Some(BINARY_DIGITS)    // b
    else None
  }

  /** The digits of a number with a radix prefix; underscores alone do not make one. */
  function RadixLexeme(t: seq<byte>, family: Class): (l: Lexeme)
    requires 2 <= |t|
    ensures l.skipped == 0 && 1 <= l.length <= |t|
  {
    var digits := t[2..];
    var n := Run(digits, family);
    LexemeOf(if exists i :: 0 <= i < n && digits[i] != UNDERSCORE then NUMBER else ERROR, 2 + n)
  }

  function FractionEnd(t: seq<byte>): (n: nat)
    ensures n <= |t|
  {
    if t != [] && t[0] == PERIOD then 1 + Run(t[1..], DIGITS) else 0
  }

  function ExponentEnd(t: seq<byte>): (n: nat)
    ensures n <= |t|
  {
    if t == [] || !(t[0] == 101 || t[0] == 69) then 0  // e
    else
      var sign := if |t| > 1 && (t[1] == PLUS || t[1] == MINUS) then 2 else 1;
      sign + Run(t[sign..], PLAIN_DIGITS)
  }

  predicate IsFloatSuffix(b: byte) { b == 70 || b == 102 || b == 68 || b == 100 }   // F f D d

  predicate IsSuffix(b: byte) { IsFloatSuffix(b) || b == 77 || b == 109 }  // M m

  function SuffixEnd(t: seq<byte>): (n: nat)
    ensures n <= |t|
  {
    if t != [] && IsSuffix(t[0]) then 1 else 0
  }

  /** Where the digits, the fraction and the exponent of a decimal number end. */
  function FractionStop(t: seq<byte>): (n: nat)
    ensures Run(t, DIGITS) <= n <= |t|
  {
    Run(t, DIGITS) + FractionEnd(t[Run(t, DIGITS)..])
  }

  function ExponentStop(t: seq<byte>): (n: nat)
    ensures Run(t, DIGITS) <= n <= |t|
  {
    FractionStop(t) + ExponentEnd(t[FractionStop(t)..])
  }

  function DecimalLength(t: seq<byte>): (n: nat)
    ensures n <= |t| && Run(t, DIGITS) <= n
  {
    ExponentStop(t) + SuffixEnd(t[ExponentStop(t)..])
  }

  /** A point, an exponent or one of the suffixes F and D makes a number a float. */
  predicate DecimalIsFloat(t: seq<byte>) {
    ExponentStop(t) > Run(t, DIGITS) || (ExponentStop(t) < |t| && IsFloatSuffix(t[ExponentStop(t)]))
  }

  /** lex_number */
  function NumberLexeme(t: seq<byte>): (l: Lexeme)
    requires t != [] && IsDigit(t[0])
    ensures l.skipped == 0 && 1 <= l.length <= |t|
  {
    match RadixClass(t)
    case Some(family) => RadixLexeme(t, family)
    case None => Lexeme(NUMBER, 0, DecimalLength(t), DecimalIsFloat(t))
  }

  /** The rest of a quoted parameter name; unlike in a string, a doubled delimiter ends it. */
  function QuotedNameEnd(t: seq<byte>, delimiter: byte): (n: nat)
    ensures n <= |t|
  {
    if t == [] then 0
    else if t[0] == delimiter then 1
    else if t[0] == BACKSLASH then (if |t| == 1 then 1 else 2 + QuotedNameEnd(t[2..], delimiter))
    else 1 + QuotedNameEnd(t[1..], delimiter)
  }

  function ParameterNameEnd(t: seq<byte>): (n: nat)
    ensures n <= |t|
  {
    if t == [] then 0
    else if IsDelimiter(t[0]) then 1 + QuotedNameEnd(t[1..], t[0])
    else if IsWordStart(t[0]) then 1 + Run(t[1..], WORD_BYTES)
    else 0
  }

  /** lex_param */
  function ParameterLexeme(t: seq<byte>): (l: Lexeme)
    requires t != [] && t[0] == DOLLAR
    ensures l.skipped == 0 && 1 <= l.length <= |t|
  {
    var dollars := if Second(t, DOLLAR) then 2 else 1;
    LexemeOf(PARAMETER, dollars + ParameterNameEnd(t[dollars..]))
  }

  /** The operators of three bytes, tried before those of two. */
  predicate IsTriple(a: char, b: char, c: char) {
    (a, b, c) in {('|', '+', '|'), (']', '~', '>'), (']', '-', '>'), ('<', '~', '['), ('<', '-', '>'),
                  ('<', '~', '/'), ('<', '-', '/'), ('<', '-', '['), ('/', '-', '>'), ('/', '~', '>')}
  }

  predicate IsPair(a: char, b: char) {
    (a, b) in {('|', '|'), (':', ':'), ('$', '$'), ('.', '.'), ('>', '='), ('<', '-'), ('<', '~'),
               ('<', '='), ('<', '>'), ('-', '>'), ('-', '['), ('-', '/'), (']', '-'), (']', '~'),
               ('=', '>'), ('/', '-'), ('/', '~'), ('~', '['), ('~', '>'), ('~', '/')}
  }

  predicate IsSymbol(c: char) {
    c in {'&', '*', ':', ',', '@', '=', '!', '>', '{', '[', '(', '<', '-', '%', '.', '+', '?',
          '}', ']', ')', '/', '~', '|', ';'}
  }

  function OperatorLength(t: seq<byte>): (n: nat)
    ensures n <= |t|
    ensures forall i :: 0 <= i < n ==> t[i] != CR && t[i] != LF
  {
    if |t| > 2 && IsTriple(t[0] as char, t[1] as char, t[2] as char) then 3
    else if |t| > 1 && IsPair(t[0] as char, t[1] as char) then 2
    else 0
  }

  function SymbolLexeme(t: seq<byte>): (l: Lexeme)
    requires t != []
    ensures l.skipped == 0 && 1 <= l.length <= |t|
  {
    var n := OperatorLength(t);
    if n > 0 then LexemeOf(SYMBOL, n) else LexemeOf(if IsSymbol(t[0] as char) then SYMBOL else ERROR, 1)
  }

  /** What lex_one does at a byte that is neither white space nor a comment. */
  function LexemeAt(t: seq<byte>): (l: Lexeme)
    requires t != []
    ensures 1 <= l.length && l.skipped + l.length <= |t|
  {
    if (t[0] == 120 || t[0] == 88) && Second(t, SINGLE) then ByteStringLexeme(t)
    else if t[0] == AT && |t| > 1 && IsDelimiter(t[1]) then
      StringLexeme(t[1..]).(skipped := 1)
    else if IsDelimiter(t[0]) then StringLexeme(t)
    else if t[0] == DOLLAR then ParameterLexeme(t)
    else if IsDigit(t[0]) then NumberLexeme(t)
    else if IsWordStart(t[0]) then LexemeOf(WORD, 1 + Run(t[1..], WORD_BYTES))
    else SymbolLexeme(t)
  }

  // ----- The longest token -----

  /** The bytes from `i` up to `j` are of the class. */
  predicate Between(t: seq<byte>, i: nat, j: nat, family: Class) {
    i <= j <= |t| && forall x :: i <= x < j ==> In(t[x], family)
  }

  lemma {:induction false} RunIsBetween(t: seq<byte>, i: nat, family: Class)
    requires i <= |t|
    ensures Between(t, i, i + Run(t[i..], family), family)
    decreases |t| - i
  {
    hide In;
    RunStep(t[i..], family);
    if i < |t| && In(t[i], family) {
      DropOfDrop(t, i, 1);
      RunIsBetween(t, i + 1, family);
    }
  }

  lemma RunIsLongest(t: seq<byte>, i: nat, j: nat, family: Class)
    requires i <= |t|
    ensures var n := i + Run(t[i..], family);
            && Between(t, i, n, family)
            && (Between(t, i, j, family) ==> j <= n && (j < n ==> In(t[j], family)))
  {
    hide Run, In;
    RunIsBetween(t, i, family);
    var n := i + Run(t[i..], family);
    assert n < |t| ==> t[i..][n - i] == t[n];
  }

  /** A word is the longest run of word bytes. */
  lemma LongestWord(t: seq<byte>)
    requires t != [] && IsWordStart(t[0]) && !((t[0] == 120 || t[0] == 88) && Second(t, SINGLE))
    ensures var l := LexemeAt(t);
            && l.kind == WORD && l.skipped == 0 && (forall i :: 0 <= i < l.length ==> IsWordByte(t[i]))
            && (l.length < |t| ==> !IsWordByte(t[l.length]))
  {
    hide Run, ByteStringLexeme, StringLexeme, NumberLexeme, SymbolLexeme;
    RunIsBetween(t, 1, WORD_BYTES);
    var n := Run(t[1..], WORD_BYTES);
    assert n < |t| - 1 ==> t[1..][n] == t[1 + n];
    assert forall i :: 1 <= i < 1 + n ==> In(t[i], WORD_BYTES);
  }

  /** The operators and the symbols of one byte. */
  predicate IsPunctuation(s: seq<byte>) {
    || (|s| == 1 && IsSymbol(s[0] as char))
    || (|s| == 2 && IsPair(s[0] as char, s[1] as char))
    || (|s| == 3 && IsTriple(s[0] as char, s[1] as char, s[2] as char))
  }

  /** Of the operators and symbols that start here the longest one is taken; without any the byte is an error. */
  lemma LongestPunctuation(t: seq<byte>)
    requires t != []
    ensures var l := SymbolLexeme(t);
            && (l.kind == SYMBOL <==> exists m: nat :: m <= |t| && IsPunctuation(t[..m]))
            && (l.kind == SYMBOL ==> IsPunctuation(t[..l.length]))
            && forall m: nat :: l.length < m <= |t| ==> !IsPunctuation(t[..m])
  {
    hide IsSymbol, IsPair, IsTriple;
  }

  // A decimal number in full: digits, a fraction, an exponent and a suffix, each of them optional.

  predicate FractionBetween(t: seq<byte>, i: nat, j: nat) {
    i <= j <= |t| && (i == j || (t[i] == PERIOD && Between(t, i + 1, j, DIGITS)))
  }

  predicate IsSign(b: byte) { b == PLUS || b == MINUS }

  predicate ExponentBetween(t: seq<byte>, i: nat, j: nat) {
    && i <= j <= |t|
    && (i == j || ((t[i] == 101 || t[i] == 69)
                   && (Between(t, i + 1, j, PLAIN_DIGITS)
                       || (i + 1 < j && IsSign(t[i + 1]) && Between(t, i + 2, j, PLAIN_DIGITS)))))
  }

  predicate SuffixBetween(t: seq<byte>, i: nat, j: nat) { i <= j <= |t| && (i == j || (j == i + 1 && IsSuffix(t[i]))) }

  predicate DecimalParts(t: seq<byte>, a: nat, b: nat, c: nat, m: nat) {
    Between(t, 0, a, DIGITS) && FractionBetween(t, a, b) && ExponentBetween(t, b, c) && SuffixBetween(t, c, m)
  }

  /** The first `m` bytes are a decimal number. */
  ghost predicate DecimalUpTo(t: seq<byte>, m: nat) { exists a: nat, b: nat, c: nat :: DecimalParts(t, a, b, c, m) }

  lemma WholeIsLongest(t: seq<byte>, a: nat)
    ensures Between(t, 0, Run(t, DIGITS), DIGITS)
    ensures Between(t, 0, a, DIGITS) ==> a <= Run(t, DIGITS) && (a < Run(t, DIGITS) ==> In(t[a], DIGITS))
  {
    hide Run, In, Between;
    assert t[0..] == t;
    RunIsLongest(t, 0, a, DIGITS);
  }

  lemma FractionEndAt(t: seq<byte>, a: nat)
    requires a <= |t|
    ensures a + FractionEnd(t[a..]) == if a < |t| && t[a] == PERIOD then a + 1 + Run(t[a + 1..], DIGITS) else a
  {
    hide Run;
    if a < |t| {
      DropOfDrop(t, a, 1);
    }
  }

  lemma FractionIsLongest(t: seq<byte>, b: nat)
    ensures FractionBetween(t, Run(t, DIGITS), FractionStop(t))
    ensures FractionBetween(t, Run(t, DIGITS), b) ==>
              b <= FractionStop(t) && (b < FractionStop(t) ==> In(t[b], DIGITS) || t[b] == PERIOD)
  {
    hide Run, In, Between, FractionEnd;
    var a := Run(t, DIGITS);
    FractionEndAt(t, a);
    if a < |t| && t[a] == PERIOD {
      RunIsLongest(t, a + 1, b, DIGITS);
    }
  }

  lemma ExponentIsLongest(t: seq<byte>, c: nat)
    ensures ExponentBetween(t, FractionStop(t), ExponentStop(t))
    ensures ExponentBetween(t, FractionStop(t), c) ==>
              && c <= ExponentStop(t)
              && (c < ExponentStop(t) ==> IsDigit(t[c]) || IsSign(t[c]) || t[c] == 101 || t[c] == 69)
  {
    hide Run, FractionStop;
    var b := FractionStop(t);
    if b < |t| && (t[b] == 101 || t[b] == 69) {
      var k := if b + 1 < |t| && IsSign(t[b + 1]) then 2 else 1;
      DropOfDrop(t, b, k);
      RunIsLongest(t, b + k, c, PLAIN_DIGITS);
    }
  }

  /** A decimal number is the longest that starts here. */
  lemma LongestDecimal(t: seq<byte>)
    ensures DecimalUpTo(t, DecimalLength(t))
    ensures forall m: nat :: DecimalLength(t) < m <= |t| ==> !DecimalUpTo(t, m)
  {
    hide Run, FractionStop, ExponentStop;
    WholeIsLongest(t, 0);
    FractionIsLongest(t, 0);
    ExponentIsLongest(t, 0);
    assert DecimalParts(t, Run(t, DIGITS), FractionStop(t), ExponentStop(t), DecimalLength(t));
    forall m: nat | DecimalUpTo(t, m) ensures m <= DecimalLength(t) {
      var a: nat, b: nat, c: nat :| DecimalParts(t, a, b, c, m);
      WholeIsLongest(t, a);
      if a == Run(t, DIGITS) {
        FractionIsLongest(t, b);
        if b == FractionStop(t) {
          ExponentIsLongest(t, c);
        }
      }
    }
  }

  // ----- Lines -----

  /** A line ends behind this byte: a line feed, or a carriage return that no line feed follows. */
  predicate EndsLine(source: seq<byte>, i: nat)
    requires i < |source|
  {
    source[i] == LF || (source[i] == CR && !(i + 1 < |source| && source[i + 1] == LF))
  }

  function LinesBefore(source: seq<byte>, p: nat): nat
    requires p <= |source|
  {
    if p == 0 then 0 else LinesBefore(source, p - 1) + if EndsLine(source, p - 1) then 1 else 0
  }

  // ----- The token stream -----

  /** One lex_one from a position: the token and the position behind it. */
  function LexFrom(source: seq<byte>, p: nat): (r: (Token, nat))
    requires p <= |source|
    ensures p <= r.0.start && r.0.start + r.0.length == r.1 <= |source|
    ensures r.0.kind == END ==> r.1 == |source|
    ensures r.0.kind != END ==> p < r.1 && 1 <= r.0.length
  {
    var start := p + Spaces(source[p..]);
    if start == |source| then (Token(END, start, 0, 1 + LinesBefore(source, start), false), start)
    else
      var l := LexemeAt(source[start..]);
      NeverEnd(source[start..]);
      (Token(l.kind, start + l.skipped, l.length, 1 + LinesBefore(source, start + l.skipped), l.isFloat),
       start + l.skipped + l.length)
  }

  lemma NeverEnd(t: seq<byte>)
    requires t != []
    ensures LexemeAt(t).kind != END
  {
  }

  /** The position after `n` tokens. */
  function PositionAfter(source: seq<byte>, n: nat): (p: nat)
    ensures p <= |source|
  {
    if n == 0 then 0 else LexFrom(source, PositionAfter(source, n - 1)).1
  }

  /** Token `n` of the source. */
  function TokenAt(source: seq<byte>, n: nat): Token { LexFrom(source, PositionAfter(source, n)).0 }

  /** Tokens are disjoint, in order and inside the source. */
  lemma TokensAdvance(source: seq<byte>, n: nat)
    ensures TokenAt(source, n).start + TokenAt(source, n).length <= TokenAt(source, n + 1).start
    ensures TokenAt(source, n + 1).start + TokenAt(source, n + 1).length <= |source|
    ensures TokenAt(source, n).kind != END ==> PositionAfter(source, n) < PositionAfter(source, n + 1)
  {
    hide LexemeAt, Spaces;
  }

  function EndToken(source: seq<byte>): Token { Token(END, |source|, 0, 1 + LinesBefore(source, |source|), false) }

  lemma EndTokenOnly(source: seq<byte>, p: nat)
    requires p <= |source|
    ensures LexFrom(source, p).0.kind == END ==> LexFrom(source, p) == (EndToken(source), |source|)
    ensures p == |source| ==> LexFrom(source, p).0.kind == END
  {
    hide LexemeAt, LinesBefore;
    NoSpaces(source[|source|..]);
    if source[p + Spaces(source[p..])..] != [] {
      NeverEnd(source[p + Spaces(source[p..])..]);
    }
  }

  lemma NoSpaces(t: seq<byte>)
    requires t == []
    ensures Spaces(t) == 0
  {
  }

  /** Once at the end, the stream stays there. */
  lemma {:induction false} EndRepeats(source: seq<byte>, n: nat, m: nat)
    requires n <= m && TokenAt(source, n).kind == END
    ensures TokenAt(source, m) == EndToken(source)
    decreases m
  {
    hide LexFrom, LinesBefore;
    EndTokenOnly(source, PositionAfter(source, m));
    if n < m {
      EndRepeats(source, n, m - 1);
      EndTokenOnly(source, PositionAfter(source, m - 1));
    }
  }

  /** Every token before the end takes at least one byte. */
  lemma {:induction false} AtLeastOneByteEach(source: seq<byte>, n: nat)
    ensures TokenAt(source, n).kind != END ==> n < PositionAfter(source, n + 1)
  {
    hide LexFrom;
    if n > 0 {
      AtLeastOneByteEach(source, n - 1);
      if TokenAt(source, n - 1).kind == END {
        EndRepeats(source, n - 1, n);
      }
    }
  }

  /** And it gets there: the end comes no later than one token for every byte. */
  lemma EndComes(source: seq<byte>)
    ensures TokenAt(source, |source|).kind == END
  {
    hide LexFrom;
    AtLeastOneByteEach(source, |source|);
  }

  /**
   * A quoted text in the source, not followed by its delimiter, is one token that spans it and
   * decodes to the text.
   */
  lemma QuotedLexes(before: seq<byte>, text: seq<byte>, delimiter: byte, rest: seq<byte>)
    requires IsDelimiter(delimiter) && (rest == [] || rest[0] != delimiter)
    ensures var source := before + (Quote(text, delimiter) + rest);
            var token := LexFrom(source, |before|).0;
            && token.kind == (if delimiter == ACCENT then DELIMITED else STRING)
            && token.start == |before| && token.length == |Quote(text, delimiter)|
            && DecodeToken(source[token.start..token.start + token.length], delimiter) == text
  {
    hide Quote, BodyLength, DecodeToken, LinesBefore, WhiteSequence;
    var t := Quote(text, delimiter) + rest;
    var source := before + t;
    assert source[|before|..] == t;
    QuoteRoundTrip(text, delimiter, rest);
    DelimiterIsToken(t);
    assert source[|before|..|before| + |Quote(text, delimiter)|] == Quote(text, delimiter);
  }

  lemma DelimiterIsToken(t: seq<byte>)
    requires t != [] && IsDelimiter(t[0])
    ensures Spaces(t) == 0 && LexemeAt(t) == StringLexeme(t)
  {
    hide BodyLength;
  }

  // ----- The scanner -----

  lemma LinesStep(source: seq<byte>, p: nat)
    requires p < |source|
    ensures LinesBefore(source, p + 1) == LinesBefore(source, p) + if EndsLine(source, p) then 1 else 0
  {
  }

  /** A line feed behind a carriage return changes nothing for a run, a comment or a quoted name. */
  lemma RunPair(t: seq<byte>, family: Class)
    requires |t| > 1 && t[0] == CR && t[1] == LF && In(CR, family)
    ensures Run(t, family) == 2 + Run(t[2..], family)
  {
    DropOfDrop(t, 1, 1);
  }

  lemma BlockPair(t: seq<byte>)
    requires |t| > 1 && t[0] == CR && t[1] == LF
    ensures BlockEnd(t) == 2 + BlockEnd(t[2..])
  {
    DropOfDrop(t, 1, 1);
  }

  lemma NamePair(t: seq<byte>, delimiter: byte)
    requires IsDelimiter(delimiter) && |t| > 1 && t[0] == CR && t[1] == LF
    ensures QuotedNameEnd(t, delimiter) == 2 + QuotedNameEnd(t[2..], delimiter)
  {
    DropOfDrop(t, 1, 1);
  }

  lemma BodyPair(t: seq<byte>, delimiter: byte)
    requires IsDelimiter(delimiter) && |t| > 1 && t[0] == CR && t[1] == LF
    ensures BodyLength(t, delimiter) == Further(2, BodyLength(t[2..], delimiter))
  {
    DropOfDrop(t, 1, 1);
  }

  lemma SpacesPair(t: seq<byte>)
    requires |t| > 1 && t[0] == CR && t[1] == LF
    ensures Spaces(t) == 2 + Spaces(t[2..])
  {
    DropOfDrop(t, 1, 1);
    assert SpaceLength(t) == 1 && SpaceLength(t[1..]) == 1;
  }

  /** How far bump moves: over a line end of two bytes at once. */
  function BumpLength(t: seq<byte>): nat
    requires t != []
  {
    if t[0] == CR && Second(t, LF) then 2 else 1
  }

  lemma RunStep(t: seq<byte>, family: Class)
    ensures Run(t, family) == if t != [] && In(t[0], family) then 1 + Run(t[1..], family) else 0
  {
  }

  lemma LineEndIsBad(t: seq<byte>, k: nat)
    requires k + 1 < |t| && t[k] == CR && t[k + 1] == LF
    ensures !IsByteDigit(t[k]) && !IsByteDigit(t[k + 1])
  {
  }

  /** One bump over the body of a byte string; a line end of two bytes is bad either way. */
  lemma ByteBodyTurn(t: seq<byte>, k: nat)
    requires k < |t| && t[k] != SINGLE
    ensures var b := BumpLength(t[k..]);
            && k + b <= |t|
            && Run(t[k..], BYTE_STRING_BODY) == b + Run(t[k + b..], BYTE_STRING_BODY)
            && ((exists i :: 0 <= i < k + b && !IsByteDigit(t[i])) <==>
                (exists i :: 0 <= i < k && !IsByteDigit(t[i])) || !IsByteDigit(t[k]))
  {
    hide Run, IsByteDigit;
    var b := BumpLength(t[k..]);
    RunStep(t[k..], BYTE_STRING_BODY);
    DropOfDrop(t, k, b);
    if b == 2 {
      RunPair(t[k..], BYTE_STRING_BODY);
      assert t[k + 1] == t[k..][1];
      LineEndIsBad(t, k);
    }
  }

  lemma DigitTurn(t: seq<byte>, k: nat, family: Class)
    requires k < |t| && In(t[k], family) && !In(CR, family)
    ensures BumpLength(t[k..]) == 1 && Run(t[k..], family) == 1 + Run(t[k + 1..], family)
    ensures (exists i :: 0 <= i < k + 1 && t[i] != UNDERSCORE) <==>
            (exists i :: 0 <= i < k && t[i] != UNDERSCORE) || t[k] != UNDERSCORE
  {
    hide Run, In;
    RunStep(t[k..], family);
    DropOfDrop(t, k, 1);
  }

  lemma SpacesStep(t: seq<byte>)
    requires t != []
    ensures Spaces(t) == if SpaceLength(t) == 0 then 0 else SpaceLength(t) + Spaces(t[SpaceLength(t)..])
  {
    hide SpaceLength;
  }

  lemma NoSpaceAhead(t: seq<byte>)
    requires t != [] && Spaces(t) == 0
    ensures !IsWhite(t[0])
  {
    hide WhiteSequence, BlockEnd, Run;
  }

  lemma BodyLengthDelimiter(t: seq<byte>, delimiter: byte)
    requires t != [] && t[0] == delimiter
    ensures BodyLength(t, delimiter) ==
            if Second(t, delimiter) then Further(2, BodyLength(t[2..], delimiter)) else Some(1)
  {
  }

  /** A backslash takes the byte behind it along, a line end of two bytes as well. */
  lemma BodyLengthEscape(t: seq<byte>, delimiter: byte)
    requires IsDelimiter(delimiter) && t != [] && t[0] == BACKSLASH
    ensures |t| == 1 ==> BodyLength(t, delimiter) == Further(1, BodyLength(t[1..], delimiter))
    ensures |t| > 1 ==>
              var n := 1 + BumpLength(t[1..]); BodyLength(t, delimiter) == Further(n, BodyLength(t[n..], delimiter))
  {
    if |t| > 1 && BumpLength(t[1..]) == 2 {
      BodyLengthPlain(t[2..], delimiter);
      DropOfDrop(t, 2, 1);
    }
  }

  lemma BodyLengthNone(delimiter: byte)
    ensures BodyLength([], delimiter) == None
  {
  }

  class Scanner {
    const source: seq<byte>
    var position: nat
    var line: nat

    ghost predicate Valid()
      reads this
    {
      position <= |source| && line == 1 + LinesBefore(source, position)
    }

    ghost function Rest(): seq<byte>
      requires Valid()
      reads this
    {
      source[position..]
    }

    constructor (source: seq<byte>)
      ensures this.source == source && Valid() && position == 0
    {
      this.source, position, line := source, 0, 1;
    }

    predicate Ahead(offset: nat, b: byte)
      reads this
    {
      position + offset < |source| && source[position + offset] == b
    }

    /** bump */
    method Bump()
      requires Valid() && position < |source|
      modifies this
      ensures Valid() && position == old(position) + BumpLength(old(Rest()))
      ensures Rest() == old(Rest())[BumpLength(old(Rest()))..]
    {
      hide LinesBefore;
      var b := source[position];
      LinesStep(source, position);
      position := position + 1;
      if b == LF {
        line := line + 1;
      } else if b == CR {
        if position < |source| && source[position] == LF {
          LinesStep(source, position);
          position := position + 1;
        }
        line := line + 1;
      }
    }

    /** Bumping over bytes that are no line ends. */
    method BumpPlain(n: nat)
      requires Valid() && n <= |Rest()| && forall i :: 0 <= i < n ==> Rest()[i] != CR
      modifies this
      ensures Valid() && position == old(position) + n && Rest() == old(Rest())[n..]
    {
      ghost var t := Rest();
      for i := 0 to n
        invariant Valid() && position == old(position) + i && Rest() == t[i..]
      {
        assert t[i] == t[i..][0];
        Bump();
      }
    }

    /** A loop that bumps over a run of bytes. */
    method SkipRun(family: Class)
      requires Valid()
      modifies this
      ensures Valid() && position == old(position) + Run(old(Rest()), family)
    {
      hide LinesBefore;
      while position < |source| && In(source[position], family)
        invariant Valid() && position + Run(Rest(), family) == old(position) + Run(old(Rest()), family)
        decreases |source| - position
      {
        ghost var t := Rest();
        if BumpLength(t) == 2 {
          RunPair(t, family);
        }
        Bump();
      }
    }

    method SkipBlock()
      requires Valid()
      modifies this
      ensures Valid() && position == old(position) + BlockEnd(old(Rest()))
    {
      hide LinesBefore;
      while position < |source|
        invariant Valid() && position + BlockEnd(Rest()) == old(position) + BlockEnd(old(Rest()))
        decreases |source| - position
      {
        ghost var t := Rest();
        if Ahead(0, ASTERISK) && Ahead(1, SLASH) {
          BumpPlain(2);
          return;
        }
        if BumpLength(t) == 2 {
          BlockPair(t);
        }
        Bump();
      }
    }

    /** A comment, when one starts here. */
    method SkipComment()
      requires Valid() && position < |source| && WhiteSequence(Rest()) == 0 && !IsWhite(source[position])
      modifies this
      ensures Valid() && position == old(position) + SpaceLength(old(Rest()))
    {
      hide LinesBefore, BlockEnd, Run, WhiteSequence;
      if Ahead(0, SLASH) && Ahead(1, ASTERISK) {
        BumpPlain(2);
        SkipBlock();
      } else if (Ahead(0, SLASH) && Ahead(1, SLASH)) || (Ahead(0, MINUS) && Ahead(1, MINUS)) {
        BumpPlain(2);
        SkipRun(NOT_LINE_END);
      }
    }

    /** One turn of skip_ws_and_comments. */
    method SkipSpace()
      requires Valid() && position < |source|
      modifies this
      ensures Valid() && old(position) <= position
      ensures position + Spaces(Rest()) == old(position) + Spaces(old(Rest()))
      ensures position == old(position) ==> Spaces(old(Rest())) == 0
    {
      hide LinesBefore, BlockEnd, Run, WhiteSequence, Spaces;
      ghost var t := Rest();
      SpacesStep(t);
      var n := WhiteSequence(source[position..]);
      if n > 0 {
        WhiteKeepsLine(source, position, n);
        position := position + n;
        DropOfDrop(source, old(position), n);
      } else if IsWhite(source[position]) {
        if BumpLength(t) == 2 {
          SpacesPair(t);
        }
        Bump();
      } else {
        SkipComment();
        DropOfDrop(source, old(position), position - old(position));
      }
    }

    /** skip_ws_and_comments */
    method SkipSpaces()
      requires Valid()
      modifies this
      ensures Valid() && position == old(position) + Spaces(old(Rest())) && Spaces(Rest()) == 0
    {
      hide LinesBefore, Spaces;
      while position < |source|
        invariant Valid() && position + Spaces(Rest()) == old(position) + Spaces(old(Rest()))
        decreases |source| - position
      {
        var before := position;
        SkipSpace();
        if position == before {
          return;
        }
      }
      NoSpaces(Rest());
    }

    /** The token of a lexeme at a position. */
    ghost predicate Yields(token: Token, l: Lexeme, at: nat, atLine: nat)
      reads this
    {
      token == Token(l.kind, at, l.length, atLine, l.isFloat) && position == at + l.length
    }

    /** lex_string */
    method LexString() returns (token: Token)
      requires Valid() && position < |source| && IsDelimiter(source[position])
      modifies this
      ensures Valid() && Yields(token, StringLexeme(old(Rest())), old(position), old(line))
    {
      hide LinesBefore, BodyLength;
      var start, startLine, delimiter := position, line, source[position];
      Bump();
      ghost var body := BodyLength(Rest(), delimiter);
      while position < |source|
        invariant Valid() && start < position && body == Further(position - start - 1, BodyLength(Rest(), delimiter))
        decreases |source| - position
      {
        var closed := StringTurn(delimiter);
        if closed {
          return Token(if delimiter == ACCENT then DELIMITED else STRING, start, position - start, startLine, false);
        }
      }
      BodyLengthNone(delimiter);
      return Token(ERROR, start, position - start, startLine, false);
    }

    /** One turn of the loop of lex_string: whether it met the closing delimiter. */
    method StringTurn(delimiter: byte) returns (closed: bool)
      requires Valid() && position < |source| && IsDelimiter(delimiter)
      modifies this
      ensures Valid() && old(position) < position
      ensures closed ==> position == old(position) + 1 && BodyLength(old(Rest()), delimiter) == Some(1)
      ensures !closed ==>
                BodyLength(old(Rest()), delimiter) == Further(position - old(position), BodyLength(Rest(), delimiter))
    {
      hide LinesBefore, BodyLength;
      ghost var t := Rest();
      if source[position] == delimiter {
        BodyLengthDelimiter(t, delimiter);
        if Ahead(1, delimiter) {
          BumpPlain(2);
          return false;
        }
        Bump();
        return true;
      }
      if source[position] == BACKSLASH {
        BodyLengthEscape(t, delimiter);
        Bump();
        if position < |source| {
          DropOfDrop(t, 1, BumpLength(Rest()));
          Bump();
        }
        return false;
      }
      if BumpLength(t) == 2 {
        BodyPair(t, delimiter);
      }
      BodyLengthPlain(t, delimiter);
      Bump();
      return false;
    }

    /** The loop over the body of a byte string; `bad` where a byte is neither digit nor space. */
    method SkipByteBody() returns (bad: bool)
      requires Valid()
      modifies this
      ensures Valid() && position == old(position) + Run(old(Rest()), BYTE_STRING_BODY)
      ensures bad <==> exists i :: 0 <= i < Run(old(Rest()), BYTE_STRING_BODY) && !IsByteDigit(old(Rest())[i])
    {
      hide LinesBefore, Run, IsByteDigit;
      ghost var t := Rest();
      ghost var n := Run(t, BYTE_STRING_BODY);
      bad := false;
      ghost var k := 0;
      while position < |source| && source[position] != SINGLE
        invariant Valid() && position == old(position) + k && k <= n
        invariant Rest() == t[k..] && k + Run(t[k..], BYTE_STRING_BODY) == n
        invariant bad <==> exists i :: 0 <= i < k && !IsByteDigit(t[i])
        decreases |source| - position
      {
        assert source[position] == t[k];
        if !IsByteDigit(source[position]) {
          bad := true;
        }
        ByteBodyTurn(t, k);
        k := k + BumpLength(t[k..]);
        Bump();
      }
      RunStep(t[k..], BYTE_STRING_BODY);
    }

    /** lex_byte_string */
    method LexByteString() returns (token: Token)
      requires Valid() && |Rest()| >= 2 && Rest()[0] != CR && Rest()[1] == SINGLE
      modifies this
      ensures Valid() && Yields(token, ByteStringLexeme(old(Rest())), old(position), old(line))
    {
      hide LinesBefore, Run, IsByteDigit;
      var start, startLine := position, line;
      BumpPlain(2);
      var bad := SkipByteBody();
      if position == |source| {
        return Token(ERROR, start, position - start, startLine, false);
      }
      Bump();
      token := Token(if bad then ERROR else BYTES, start, position - start, startLine, false);
    }

    /** The loop over the digits behind a radix prefix, and whether there are any. */
    method SkipDigits(family: Class) returns (any: bool)
      requires Valid() && !In(CR, family)
      modifies this
      ensures Valid() && position == old(position) + Run(old(Rest()), family)
      ensures any <==> exists i :: 0 <= i < Run(old(Rest()), family) && old(Rest())[i] != UNDERSCORE
    {
      hide LinesBefore, Run, In;
      ghost var t := Rest();
      any := false;
      ghost var k := 0;
      while position < |source| && In(source[position], family)
        invariant Valid() && position == old(position) + k && k <= |t|
        invariant Rest() == t[k..] && k + Run(t[k..], family) == Run(t, family)
        invariant any <==> exists i :: 0 <= i < k && t[i] != UNDERSCORE
        decreases |source| - position
      {
        assert source[position] == t[k];
        if source[position] != UNDERSCORE {
          any := true;
        }
        DigitTurn(t, k, family);
        Bump();
        DropOfDrop(t, k, 1);
        k := k + 1;
      }
      RunStep(t[k..], family);
    }

    method LexRadix(family: Class) returns (token: Token)
      requires Valid() && |Rest()| >= 2 && Rest()[0] != CR && Rest()[1] != CR && !In(CR, family)
      modifies this
      ensures Valid() && Yields(token, RadixLexeme(old(Rest()), family), old(position), old(line))
    {
      hide LinesBefore, Run, In;
      var start, startLine := position, line;
      BumpPlain(2);
      var any := SkipDigits(family);
      token := Token(if any then NUMBER else ERROR, start, position - start, startLine, false);
    }

    method SkipFraction()
      requires Valid()
      modifies this
      ensures Valid() && position == old(position) + FractionEnd(old(Rest()))
    {
      hide LinesBefore;
      if Ahead(0, PERIOD) {
        Bump();
        SkipRun(DIGITS);
      }
    }

    method SkipExponent()
      requires Valid()
      modifies this
      ensures Valid() && position == old(position) + ExponentEnd(old(Rest()))
    {
      hide LinesBefore;
      if Ahead(0, 101) || Ahead(0, 69) {
        ghost var t := Rest();
        Bump();
        if Ahead(0, PLUS) || Ahead(0, MINUS) {
          Bump();
          DropOfDrop(t, 1, 1);
        }
        SkipRun(PLAIN_DIGITS);
      }
    }

    /** Digits, fraction and exponent; a point or an exponent makes a float. */
    method SkipUnsuffixed() returns (isFloat: bool)
      requires Valid()
      modifies this
      ensures Valid() && position == old(position) + ExponentStop(old(Rest()))
      ensures isFloat <==> ExponentStop(old(Rest())) > Run(old(Rest()), DIGITS)
    {
      hide LinesBefore, Run, FractionEnd, ExponentEnd;
      var start := position;
      SkipRun(DIGITS);
      var whole := position;
      DropOfDrop(source, start, whole - start);
      SkipFraction();
      DropOfDrop(source, start, position - start);
      SkipExponent();
      isFloat := position > whole;
    }

    method SkipDecimal() returns (isFloat: bool)
      requires Valid()
      modifies this
      ensures Valid() && position == old(position) + DecimalLength(old(Rest()))
      ensures isFloat <==> DecimalIsFloat(old(Rest()))
    {
      hide LinesBefore, Run, ExponentStop;
      var start := position;
      isFloat := SkipUnsuffixed();
      DropOfDrop(source, start, position - start);
      if SuffixEnd(source[position..]) == 1 {
        isFloat := isFloat || IsFloatSuffix(source[position]);
        Bump();
      }
    }

    /** lex_number */
    method LexNumber() returns (token: Token)
      requires Valid() && position < |source| && IsDigit(source[position])
      modifies this
      ensures Valid() && Yields(token, NumberLexeme(old(Rest())), old(position), old(line))
    {
      hide LinesBefore, Run, DecimalLength, DecimalIsFloat, RadixLexeme;
      var start, startLine := position, line;
      var radix := RadixClass(source[position..]);
      if radix.Some? {
        token := LexRadix(radix.value);
      } else {
        var isFloat := SkipDecimal();
        token := Token(NUMBER, start, position - start, startLine, isFloat);
      }
    }

    /** The loop over a quoted parameter name. */
    method SkipQuotedName(delimiter: byte)
      requires Valid() && IsDelimiter(delimiter)
      modifies this
      ensures Valid() && position == old(position) + QuotedNameEnd(old(Rest()), delimiter)
    {
      hide LinesBefore;
      while position < |source|
        invariant Valid() && old(position) <= position
        invariant position + QuotedNameEnd(Rest(), delimiter) == old(position) + QuotedNameEnd(old(Rest()), delimiter)
        decreases |source| - position
      {
        if source[position] == delimiter {
          Bump();
          return;
        }
        NameTurn(delimiter);
      }
    }

    method NameTurn(delimiter: byte)
      requires Valid() && position < |source| && IsDelimiter(delimiter) && source[position] != delimiter
      modifies this
      ensures Valid() && old(position) < position
      ensures position + QuotedNameEnd(Rest(), delimiter) == old(position) + QuotedNameEnd(old(Rest()), delimiter)
    {
      hide LinesBefore;
      ghost var t := Rest();
      if source[position] == BACKSLASH {
        Bump();
        if position < |source| {
          ghost var u := Rest();
          DropOfDrop(t, 1, BumpLength(u));
          if BumpLength(u) == 2 {
            DropOfDrop(t, 2, 1);
          }
          Bump();
        }
        return;
      }
      if BumpLength(t) == 2 {
        NamePair(t, delimiter);
      }
      Bump();
    }

    method SkipParameterName()
      requires Valid()
      modifies this
      ensures Valid() && position == old(position) + ParameterNameEnd(old(Rest()))
    {
      hide LinesBefore, Run, QuotedNameEnd;
      if position < |source| {
        var first := source[position];
        if IsDelimiter(first) {
          Bump();
          SkipQuotedName(first);
        } else if IsWordStart(first) {
          Bump();
          SkipRun(WORD_BYTES);
        }
      }
    }

    /** lex_param */
    method LexParameter() returns (token: Token)
      requires Valid() && position < |source| && source[position] == DOLLAR
      modifies this
      ensures Valid() && Yields(token, ParameterLexeme(old(Rest())), old(position), old(line))
    {
      hide LinesBefore, ParameterNameEnd;
      var start, startLine := position, line;
      BumpPlain(if Ahead(1, DOLLAR) then 2 else 1);
      SkipParameterName();
      token := Token(PARAMETER, start, position - start, startLine, false);
    }

    /** lex_identifier, its keyword kind left open. */
    method LexWord() returns (token: Token)
      requires Valid() && position < |source| && IsWordStart(source[position])
      modifies this
      ensures Valid() && Yields(token, LexemeOf(WORD, 1 + Run(old(Rest())[1..], WORD_BYTES)), old(position), old(line))
    {
      hide LinesBefore;
      var start, startLine := position, line;
      Bump();
      SkipRun(WORD_BYTES);
      token := Token(WORD, start, position - start, startLine, false);
    }

    /** The operators, the longest first, then the one-byte symbols. */
    method LexSymbol() returns (token: Token)
      requires Valid() && position < |source| && source[position] != CR
      modifies this
      ensures Valid() && Yields(token, SymbolLexeme(old(Rest())), old(position), old(line))
    {
      hide LinesBefore, IsTriple, IsPair, IsSymbol, OperatorLength;
      var start, startLine, n := position, line, OperatorLength(source[position..]);
      var kind := if n > 0 || IsSymbol(source[position] as char) then SYMBOL else ERROR;
      BumpPlain(if n > 0 then n else 1);
      token := Token(kind, start, position - start, startLine, false);
    }

    /** lex_one */
    method LexOne() returns (token: Token)
      requires Valid()
      modifies this
      ensures Valid() && (token, position) == LexFrom(source, old(position))
    {
      hide LinesBefore, Spaces, StringLexeme, ByteStringLexeme, NumberLexeme, ParameterLexeme, SymbolLexeme, Run;
      SkipSpaces();
      if position == |source| {
        return Token(END, position, 0, line, false);
      }
      NoSpaceAhead(Rest());
      var b := source[position];
      if (b == 120 || b == 88) && Ahead(1, SINGLE) {
        token := LexByteString();
      } else if b == AT && (Ahead(1, SINGLE) || Ahead(1, DOUBLE) || Ahead(1, ACCENT)) {
        Bump();
        token := LexString();
      } else if IsDelimiter(b) {
        token := LexString();
      } else if b == DOLLAR {
        token := LexParameter();
      } else if IsDigit(b) {
        token := LexNumber();
      } else if IsWordStart(b) {
        token := LexWord();
      } else {
        token := LexSymbol();
      }
    }
  }

  lemma WhiteKeepsLine(source: seq<byte>, p: nat, n: nat)
    requires p <= |source| && n == WhiteSequence(source[p..])
    ensures LinesBefore(source, p + n) == LinesBefore(source, p)
  {
    hide LinesBefore;
    var t := source[p..];
    if n > 0 {
      assert t[0] == source[p] && t[1] == source[p + 1];
      LinesStep(source, p);
      LinesStep(source, p + 1);
      if n > 2 {
        assert t[2] == source[p + 2];
        LinesStep(source, p + 2);
      }
    }
  }
}
