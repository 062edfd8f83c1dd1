/** The scanner's tables told apart from it, by the characters and code points they stand for. */
module Spellings {
  import opened Bytes
  import opened StringLiteral
  import opened Lexer
  import Utf8

  function AsText(s: seq<byte>): (text: string)
    ensures |text| == |s|
  {
    seq(|s|, i requires 0 <= i < |s| => s[i] as char)
  }

  // ----- Operators -----

  const LONG_OPERATORS: set<string> := {"|+|", "]~>", "]->", "<~[", "<->", "<~/", "<-/", "<-[", "/->", "/~>"}

  const SHORT_OPERATORS: set<string> := {
    "||", "::", "$$", "..", ">=", "<-", "<~", "<=", "<>", "->",
    "-[", "-/", "]-", "]~", "=>", "/-", "/~", "~[", "~>", "~/"}

  const SYMBOLS: string := "&*:,@=!>{[(<-%.+?}])/~|;"

  /** Exactly these spellings are punctuation. */
  lemma PunctuationSpelled(s: seq<byte>)
    ensures IsPunctuation(s) <==>
              || AsText(s) in LONG_OPERATORS
              || AsText(s) in SHORT_OPERATORS
              || (|s| == 1 && AsText(s)[0] in SYMBOLS)
  {
    if |s| == 1 {
      SymbolSpelled(s[0] as char);
    } else if |s| == 2 {
      ShortSpelled(s[0] as char, s[1] as char);
      assert AsText(s) == [s[0] as char, s[1] as char];
    } else if |s| == 3 {
      LongSpelled(s[0] as char, s[1] as char, s[2] as char);
      assert AsText(s) == [s[0] as char, s[1] as char, s[2] as char];
    }
  }

  lemma SymbolSpelled(c: char)
    ensures IsSymbol(c) <==> c in SYMBOLS
  {
  }

  lemma ShortSpelled(a: char, b: char)
    ensures IsPair(a, b) <==> [a, b] in SHORT_OPERATORS
  {
  }

  lemma LongSpelled(a: char, b: char, c: char)
    ensures IsTriple(a, b, c) <==> [a, b, c] in LONG_OPERATORS
  {
  }

  // ----- Words and numbers -----

  /** The characters of each class of digits, and of words. */
  lemma ClassesSpelled(b: byte)
    ensures In(b, DIGITS) <==> b as char in "0123456789_"
    ensures In(b, PLAIN_DIGITS) <==> b as char in "0123456789"
    ensures In(b, HEX_DIGITS) <==> b as char in "0123456789abcdefABCDEF_"
    ensures In(b, OCTAL_DIGITS) <==> b as char in "01234567_"
    ensures In(b, BINARY_DIGITS) <==> b as char in "01_"
    ensures IsWordStart(b) <==> b >= 0x80 || b as char == '_' || 'a' <= b as char <= 'z' || 'A' <= b as char <= 'Z'
    ensures IsWordByte(b) <==> IsWordStart(b) || b as char in "0123456789"
  {
  }

  /** The prefixes of numbers to another base, and the digits behind them. */
  lemma RadixSpelled(t: seq<byte>)
    ensures RadixClass(t) ==
            if |t| < 2 then None
            else if AsText(t[..2]) in {"0x", "0X"} then Some(HEX_DIGITS)
            else if AsText(t[..2]) in {"0o", "0O"} then Some(OCTAL_DIGITS)
            else if AsText(t[..2]) in {"0b", "0B"} then Some(BINARY_DIGITS)
            else None
  {
    if |t| >= 2 {
      assert AsText(t[..2]) == [t[0] as char, t[1] as char];
    }
  }

  /** The letters and signs inside a decimal number. */
  lemma DecimalSpelled(b: byte)
    ensures b == PERIOD <==> b as char == '.'
    ensures b == 101 || b == 69 <==> b as char in "eE"
    ensures IsSign(b) <==> b as char in "+-"
    ensures IsFloatSuffix(b) <==> b as char in "fFdD"
    ensures IsSuffix(b) <==> b as char in "fFdDmM"
  {
  }

  /** A decimal number is a float exactly when a point, an exponent or one of four suffixes is in it. */
  lemma FloatMeans(t: seq<byte>)
    ensures DecimalIsFloat(t) <==> exists i :: 0 <= i < DecimalLength(t) && t[i] as char in ".eEfFdD"
  {
    hide Run, FractionStop, ExponentStop, Between;
    var whole, fraction, exponent := Run(t, DIGITS), FractionStop(t), ExponentStop(t);
    WholeIsLongest(t, 0);
    FractionIsLongest(t, 0);
    ExponentIsLongest(t, 0);
    if exponent > whole {
      assert t[if fraction > whole then whole else fraction] as char in ".eE";
    } else {
      DigitsOnly(t, whole);
      if exponent < |t| && IsSuffix(t[exponent]) {
        DecimalSpelled(t[exponent]);
      }
    }
  }

  lemma DigitsOnly(t: seq<byte>, n: nat)
    requires Between(t, 0, n, DIGITS)
    ensures n <= |t| && forall i :: 0 <= i < n ==> t[i] as char !in ".eEfFdD"
  {
    forall i | 0 <= i < n ensures t[i] as char !in ".eEfFdD" {
      assert In(t[i], DIGITS);
    }
  }

  // ----- Parameters, byte strings and quotes behind an at sign -----

  /** A name that nothing behind it continues. */
  predicate IsName(name: seq<byte>, rest: seq<byte>) {
    && name != [] && IsWordStart(name[0]) && (forall i :: 0 <= i < |name| ==> IsWordByte(name[i]))
    && (rest != [] ==> !IsWordByte(rest[0]))
  }

  lemma {:induction false} NameRun(name: seq<byte>, rest: seq<byte>)
    requires (forall i :: 0 <= i < |name| ==> IsWordByte(name[i])) && (rest != [] ==> !IsWordByte(rest[0]))
    ensures Run(name + rest, WORD_BYTES) == |name|
  {
    if name == [] {
      assert name + rest == rest;
    } else {
      NameRun(name[1..], rest);
      assert (name + rest)[1..] == name[1..] + rest;
    }
  }

  /** A parameter is one or two dollar signs and a name. */
  lemma ParameterSpelled(lead: seq<byte>, name: seq<byte>, rest: seq<byte>)
    requires (AsText(lead) == "$" || AsText(lead) == "$$") && IsName(name, rest)
    ensures var l := LexemeAt(lead + (name + rest));
            l.kind == PARAMETER && l.skipped == 0 && l.length == |lead| + |name|
  {
    hide Run;
    var t, behind := lead + (name + rest), name + rest;
    assert |lead| == |AsText(lead)| && lead[0] as char == AsText(lead)[0];
    assert |lead| == 2 ==> lead[1] as char == AsText(lead)[1];
    assert t[|lead|..] == behind && behind[0] == name[0] && (|lead| == 1 ==> t[1] == name[0]);
    assert behind[1..] == name[1..] + rest;
    NameRun(name[1..], rest);
  }

  lemma {:induction false} QuoteRun(body: seq<byte>, rest: seq<byte>)
    requires (forall i :: 0 <= i < |body| ==> body[i] != SINGLE) && rest != [] && rest[0] == SINGLE
    ensures Run(body + rest, BYTE_STRING_BODY) == |body|
  {
    if body == [] {
      assert body + rest == rest;
    } else {
      QuoteRun(body[1..], rest);
      assert (body + rest)[1..] == body[1..] + rest;
    }
  }

  /** A byte string is an x and quoted hexadecimal digits and spaces; other characters make it an error. */
  lemma ByteStringSpelled(lead: char, body: seq<byte>, rest: seq<byte>)
    requires lead in "xX" && forall i :: 0 <= i < |body| ==> body[i] as char != '\''
    ensures var l := LexemeAt([lead as int, SINGLE] + (body + ([SINGLE] + rest)));
            && l.skipped == 0 && l.length == |body| + 3
            && (l.kind == BYTES || l.kind == ERROR)
            && (l.kind == BYTES <==> forall i :: 0 <= i < |body| ==> body[i] as char in "0123456789abcdefABCDEF ")
  {
    hide Run;
    var t, behind := [lead as int, SINGLE] + (body + ([SINGLE] + rest)), body + ([SINGLE] + rest);
    assert t[2..] == behind;
    QuoteRun(body, [SINGLE] + rest);
    forall i | 0 <= i < |body| ensures IsByteDigit(behind[i]) <==> body[i] as char in "0123456789abcdefABCDEF " {
      ByteDigitSpelled(body[i]);
    }
  }

  lemma ByteDigitSpelled(b: byte)
    ensures IsByteDigit(b) <==> b as char in "0123456789abcdefABCDEF "
  {
  }

  /** Behind an at sign a quoted text is the same token, the sign left out. */
  lemma AtSpelled(text: seq<byte>, delimiter: byte, rest: seq<byte>)
    requires IsDelimiter(delimiter) && (rest == [] || rest[0] != delimiter)
    ensures var l := LexemeAt([AT] + (Quote(text, delimiter) + rest));
            && l.kind == (if delimiter == ACCENT then DELIMITED else STRING)
            && l.skipped == 1 && l.length == |Quote(text, delimiter)|
  {
    hide Quote, BodyLength;
    var t := Quote(text, delimiter) + rest;
    QuoteRoundTrip(text, delimiter, rest);
    assert ([AT] + t)[1..] == t && ([AT] + t)[1] == t[0];
  }

  // ----- White space and comments -----

  /** The code points beyond ASCII that separate tokens. */
  predicate WhiteCodePoint(cp: nat) {
    cp == 0xA0 || cp == 0x1680 || cp == 0x180E || 0x2000 <= cp <= 0x200A || cp == 0x2028 || cp == 0x2029
    || cp == 0x202F || cp == 0x205F || cp == 0x3000
  }

  /** They are skipped in their UTF-8 encoding. */
  lemma WhiteSpelled(cp: nat, rest: seq<byte>)
    requires WhiteCodePoint(cp)
    ensures Utf8.Scalar(cp) && WhiteSequence(Utf8.EncodeScalar(cp) + rest) == |Utf8.EncodeScalar(cp)|
  {
    var e := Utf8.EncodeScalar(cp);
    var t := e + rest;
    var q := cp / 0x40;
    assert t[0] == e[0] && t[1] == e[1] && (cp > 0x7FF ==> t[2] == e[2]);
  }

  /** And nothing else is. */
  lemma OnlyWhiteSkipped(t: seq<byte>) returns (cp: nat)
    requires WhiteSequence(t) > 0
    ensures WhiteCodePoint(cp) && Utf8.Scalar(cp) && Utf8.EncodeScalar(cp) == t[..WhiteSequence(t)]
  {
    var b0: int, b1: int := t[0], t[1];
    if b0 == 0xC2 {
      cp := 0xA0;
    } else {
      var b2: int := t[2];
      cp := 0x1000 * (b0 - 0xE0) + 0x40 * (b1 - 0x80) + (b2 - 0x80);
      assert cp / 0x40 == 0x40 * (b0 - 0xE0) + (b1 - 0x80);
    }
  }

  /** The ASCII characters that separate tokens. */
  lemma WhiteBytesSpelled(b: byte)
    ensures IsWhite(b) <==> b as char in " \t\n\U{B}\U{C}\r\U{1C}\U{1D}\U{1E}\U{1F}"
  {
  }

  /** The text contains the end of a block comment. */
  predicate EndsComment(text: seq<byte>) {
    exists i :: 0 <= i < |text| - 1 && text[i] as char == '*' && text[i + 1] as char == '/'
  }

  lemma {:induction false} BlockEndAt(body: seq<byte>, rest: seq<byte>)
    requires !EndsComment(body + [ASTERISK])
    ensures BlockEnd(body + ([ASTERISK, SLASH] + rest)) == |body| + 2
  {
    var t := body + ([ASTERISK, SLASH] + rest);
    if body != [] {
      assert t[1..] == body[1..] + ([ASTERISK, SLASH] + rest);
      var text := body + [ASTERISK];
      assert t[0] == text[0] && t[1] == text[1];
      assert !(text[0] as char == '*' && text[0 + 1] as char == '/');
      forall i | 0 <= i < |body[1..] + [ASTERISK]| - 1
        ensures !((body[1..] + [ASTERISK])[i] as char == '*' && (body[1..] + [ASTERISK])[i + 1] as char == '/')
      {
        assert text[i + 1] == (body[1..] + [ASTERISK])[i] && text[i + 1 + 1] == (body[1..] + [ASTERISK])[i + 1];
      }
      BlockEndAt(body[1..], rest);
    }
  }

  /** A block comment is skipped up to its first end. */
  lemma BlockComment(body: seq<byte>, rest: seq<byte>)
    requires !EndsComment(body + [ASTERISK])
    ensures SpaceLength([SLASH, ASTERISK] + (body + ([ASTERISK, SLASH] + rest))) == |body| + 4
  {
    hide BlockEnd, Run;
    BlockEndAt(body, rest);
    assert ([SLASH, ASTERISK] + (body + ([ASTERISK, SLASH] + rest)))[2..] == body + ([ASTERISK, SLASH] + rest);
  }

  /** A line comment, by two slashes or two minus signs, is skipped up to the end of the line. */
  lemma LineComment(lead: string, line: seq<byte>, rest: seq<byte>)
    requires lead == "//" || lead == "--"
    requires forall i :: 0 <= i < |line| ==> line[i] as char !in "\n\r"
    requires rest == [] || rest[0] as char in "\n\r"
    ensures var bytes := [lead[0] as int, lead[1] as int];
            SpaceLength(bytes + (line + rest)) == 2 + |line|
  {
    hide BlockEnd, Run;
    var bytes := [lead[0] as int, lead[1] as int];
    var t := bytes + (line + rest);
    assert t[2..] == line + rest;
    LineRun(line, rest);
  }

  lemma {:induction false} LineRun(line: seq<byte>, rest: seq<byte>)
    requires forall i :: 0 <= i < |line| ==> line[i] as char !in "\n\r"
    requires rest == [] || rest[0] as char in "\n\r"
    ensures Run(line + rest, NOT_LINE_END) == |line|
  {
    if line == [] {
      assert line + rest == rest;
    } else {
      LineRun(line[1..], rest);
      assert (line + rest)[1..] == line[1..] + rest;
    }
  }
}
