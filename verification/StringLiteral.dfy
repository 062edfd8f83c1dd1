/** Quoted literals: where they end, what they decode to, and quoting as the inverse. */
module StringLiteral {
  import opened Bytes
  import Utf8

  const SINGLE: byte := 39
  const DOUBLE: byte := 34
  const ACCENT: byte := 96
  const BACKSLASH: byte := 92

  predicate IsDelimiter(b: byte) { b == SINGLE || b == DOUBLE || b == ACCENT }

  // ----- Where a literal ends -----

  /**
   * How many bytes behind the opening delimiter belong to the literal, the closing delimiter
   * included; None when it is never closed. A doubled delimiter and a backslash pair are skipped.
   */
  function BodyLength(t: seq<byte>, delimiter: byte): (r: Option<nat>)
    ensures r.Some? ==> 1 <= r.value <= |t| && t[r.value - 1] == delimiter
  {
    if t == [] then None
    else if t[0] == delimiter then
      if |t| > 1 && t[1] == delimiter then Further(2, BodyLength(t[2..], delimiter)) else Some(1)
    else if t[0] == BACKSLASH then
      if |t| == 1 then None else Further(2, BodyLength(t[2..], delimiter))
    else Further(1, BodyLength(t[1..], delimiter))
  }

  function Further(n: nat, r: Option<nat>): Option<nat> {
    match r case None => None case Some(k) => Some(n + k)
  }

  /** A byte that is neither the delimiter nor a backslash makes no difference on its own. */
  lemma BodyLengthPlain(t: seq<byte>, delimiter: byte)
    requires t != [] && t[0] != delimiter && t[0] != BACKSLASH
    ensures BodyLength(t, delimiter) == Further(1, BodyLength(t[1..], delimiter))
  {
  }

  // ----- What a literal decodes to -----

  /** hex_value */
  function HexValue(b: byte): (h: Option<nat>)
    ensures h.Some? ==> h.value < 16
  {
    if 48 <= b <= 57 then Some(b - 48)
    else if 97 <= b <= 102 then Some(b - 87)
    else if 65 <= b <= 70 then Some(b - 55)
    else None
  }

  /** utf8_encode, for the code points six hexadecimal digits can spell. */
  function Utf8Encode(cp: nat): (s: seq<byte>)
    requires cp < 0x100_0000
    ensures 1 <= |s| <= 4
    ensures |s| <= 3 || 0x1_0000 <= cp
  {
    if cp <= 0x7F then [cp]
    else if cp <= 0x7FF then [0xC0 + cp / 0x40, 0x80 + cp % 0x40]
    else if cp <= 0xFFFF then [0xE0 + cp / 0x1000, 0x80 + cp / 0x40 % 0x40, 0x80 + cp % 0x40]
    else [0xF0 + cp / 0x4_0000 % 0x10, 0x80 + cp / 0x1000 % 0x40, 0x80 + cp / 0x40 % 0x40, 0x80 + cp % 0x40]
  }

  /** On the Unicode scalar values it is the standard encoding. */
  lemma EscapeIsUtf8(cp: nat)
    requires Utf8.Scalar(cp)
    ensures Utf8Encode(cp) == Utf8.EncodeScalar(cp)
  {
    var q := cp / 0x40;
    assert cp / 0x1000 == q / 0x40;
    assert cp / 0x4_0000 == q / 0x40 / 0x40;
  }

  /** How many of the first `n` bytes are hexadecimal digits, up to the first that is not. */
  function HexRun(t: seq<byte>, n: nat): (k: nat)
    ensures k <= n && k <= |t|
  {
    if n == 0 || t == [] || HexValue(t[0]) == None then 0 else 1 + HexRun(t[1..], n - 1)
  }

  function Power16(n: nat): nat { if n == 0 then 1 else 16 * Power16(n - 1) }

  lemma EscapeRange()
    ensures Power16(4) == 0x1_0000 && Power16(6) == 0x100_0000
  {
    assert Power16(2) == 256;
  }

  /** The value of a run of hexadecimal digits, most significant first. */
  function HexNumber(t: seq<byte>, n: nat): (v: nat)
    requires n <= |t| && forall i :: 0 <= i < n ==> HexValue(t[i]).Some?
    ensures v < Power16(n)
  {
    if n == 0 then 0 else HexNumber(t, n - 1) * 16 + HexValue(t[n - 1]).value
  }

  lemma {:induction false} HexRunDigits(t: seq<byte>, n: nat)
    ensures forall i :: 0 <= i < HexRun(t, n) ==> HexValue(t[i]).Some?
  {
    if !(n == 0 || t == [] || HexValue(t[0]) == None) {
      HexRunDigits(t[1..], n - 1);
      assert forall i :: 1 <= i < HexRun(t, n) ==> t[i] == t[1..][i - 1];
    }
  }

  /** The byte a one-letter escape stands for. */
  function SimpleEscape(e: byte): byte {
    if e == 116 then 9         // t
    else if e == 98 then 8     // b
    else if e == 110 then 10   // n
    else if e == 114 then 13   // r
    else if e == 102 then 12   // f
    else e
  }

  function EscapeDigits(e: byte): nat { if e == 117 then 4 else if e == 85 then 6 else 0 }

  /** The bytes an escape yields, and how many bytes behind its letter it takes. */
  function Escaped(e: byte, t: seq<byte>): (r: (seq<byte>, nat))
    ensures r.1 <= |t| && 1 <= |r.0| <= r.1 + 1
  {
    var n := EscapeDigits(e);
    if n == 0 then ([SimpleEscape(e)], 0)
    else
      var k := HexRun(t, n);
      HexRunDigits(t, n);
      EscapeRange();
      if k == n then (Utf8Encode(HexNumber(t, n)), n)
      else ([63], if k < |t| then k + 1 else k)  // '?', and the byte that is no digit is swallowed
  }

  /** decode_quoted on what stands between the delimiters. */
  function Decode(body: seq<byte>, delimiter: byte): (text: seq<byte>)
    ensures |text| <= |body|
  {
    if body == [] then []
    else if body[0] == BACKSLASH then
      if |body| == 1 then []
      else
        var r := Escaped(body[1], body[2..]);
        r.0 + Decode(body[2 + r.1..], delimiter)
    else if body[0] == delimiter && |body| > 1 && body[1] == delimiter then [delimiter] + Decode(body[2..], delimiter)
    else [body[0]] + Decode(body[1..], delimiter)
  }

  /** gql_token_decoded_text of a quoted token. */
  function DecodeToken(token: seq<byte>, delimiter: byte): (text: seq<byte>)
    ensures |text| <= if |token| < 2 then 0 else |token| - 2
  {
    if |token| < 2 then [] else Decode(token[1..|token| - 1], delimiter)
  }

  // ----- What each escape decodes to -----

  const LOWER_CASE: string := "0123456789abcdef"
  const UPPER_CASE: string := "0123456789ABCDEF"

  /** The byte is the hexadecimal digit of the value, in either case. */
  predicate IsHexDigit(b: byte, value: nat) {
    value < 16 && (b as char == LOWER_CASE[value] || b as char == UPPER_CASE[value])
  }

  lemma HexValueSpells(b: byte, value: nat)
    ensures HexValue(b) == Some(value) <==> IsHexDigit(b, value)
  {
  }

  predicate IsHex(b: byte) { b as char in LOWER_CASE || b as char in UPPER_CASE }

  lemma HexValueSome(b: byte)
    ensures HexValue(b).Some? <==> IsHex(b)
  {
    hide IsHexDigit;
    if HexValue(b).Some? {
      HexValueSpells(b, HexValue(b).value);
      HexDigitIsHex(b, HexValue(b).value);
    } else if i :| 0 <= i < 16 && (b as char == LOWER_CASE[i] || b as char == UPPER_CASE[i]) {
      HexDigitAt(b, i);
      HexValueSpells(b, i);
    }
  }

  lemma HexDigitIsHex(b: byte, value: nat)
    requires IsHexDigit(b, value)
    ensures IsHex(b)
  {
  }

  lemma HexDigitAt(b: byte, value: nat)
    requires value < 16 && (b as char == LOWER_CASE[value] || b as char == UPPER_CASE[value])
    ensures IsHexDigit(b, value)
  {
  }

  /** The last `n` hexadecimal digits of a number, most significant first. */
  function HexDigits(value: nat, n: nat): (digits: seq<nat>)
    ensures |digits| == n && forall i :: 0 <= i < n ==> digits[i] < 16
  {
    if n == 0 then [] else HexDigits(value / 16, n - 1) + [value % 16]
  }

  /** A text begins with the number written in `n` hexadecimal digits. */
  ghost predicate SpellsHex(t: seq<byte>, value: nat, n: nat) {
    n <= |t| && value < Power16(n) && forall i :: 0 <= i < n ==> IsHexDigit(t[i], HexDigits(value, n)[i])
  }

  lemma {:induction false} SpelledNumber(t: seq<byte>, value: nat, n: nat)
    requires SpellsHex(t, value, n)
    ensures n <= |t| && forall i :: 0 <= i < n ==> HexValue(t[i]).Some?
    ensures HexNumber(t, n) == value
  {
    hide HexValue, IsHexDigit;
    if n > 0 {
      assert forall i :: 0 <= i < n - 1 ==> HexDigits(value / 16, n - 1)[i] == HexDigits(value, n)[i];
      SpelledNumber(t, value / 16, n - 1);
      HexValueSpells(t[n - 1], value % 16);
    }
  }

  lemma {:induction false} HexRunWhole(t: seq<byte>, n: nat)
    requires n <= |t| && forall i :: 0 <= i < n ==> HexValue(t[i]).Some?
    ensures HexRun(t, n) == n
  {
    hide HexValue;
    if n > 0 {
      assert forall i :: 0 <= i < n - 1 ==> t[1..][i] == t[i + 1];
      HexRunWhole(t[1..], n - 1);
    }
  }

  /** A scalar value spelled in four digits behind u, or in six behind U, decodes to its UTF-8 encoding. */
  lemma UnicodeEscape(letter: char, body: seq<byte>, cp: nat, delimiter: byte)
    requires letter in {'u', 'U'} && Utf8.Scalar(cp)
    requires 2 <= |body| && body[0] == BACKSLASH && body[1] as char == letter
    requires SpellsHex(body[2..], cp, if letter == 'u' then 4 else 6)
    ensures var n := if letter == 'u' then 4 else 6;
            Decode(body, delimiter) == Utf8.EncodeScalar(cp) + Decode(body[2 + n..], delimiter)
  {
    hide HexRun, HexNumber, SpellsHex, HexValue;
    var n := if letter == 'u' then 4 else 6;
    SpelledNumber(body[2..], cp, n);
    HexRunWhole(body[2..], n);
    EscapeIsUtf8(cp);
  }

  /** The letters that stand for control characters; any other byte but u and U stands for itself. */
  lemma PlainEscape(body: seq<byte>, delimiter: byte)
    requires 2 <= |body| && body[0] == BACKSLASH && body[1] as char !in {'u', 'U'}
    ensures var b := body[1] as char;
            var meant := if b == 't' then '\t' else if b == 'n' then '\n' else if b == 'r' then '\r'
                         else if b == 'b' then '\U{8}' else if b == 'f' then '\U{C}' else b;
            Decode(body, delimiter) == [meant as int] + Decode(body[2..], delimiter)
  {
  }

  /**
   * With a byte among the digits that is none, or too few of them, the escape decodes to a question
   * mark, and the byte is gone with the digits before it.
   */
  lemma BadEscape(letter: char, body: seq<byte>, k: nat, delimiter: byte)
    requires letter in {'u', 'U'} && k < if letter == 'u' then 4 else 6
    requires 2 + k <= |body| && body[0] == BACKSLASH && body[1] as char == letter
    requires forall i :: 2 <= i < 2 + k ==> IsHex(body[i])
    requires 2 + k < |body| ==> !IsHex(body[2 + k])
    ensures Decode(body, delimiter) ==
            ['?' as int] + Decode(if 2 + k < |body| then body[3 + k..] else [], delimiter)
  {
    hide HexRun, HexValue, IsHex, HexNumber;
    var t := body[2..];
    forall i | 0 <= i < |t| && i <= k ensures HexValue(t[i]).Some? <==> IsHex(body[2 + i]) {
      HexValueSome(t[i]);
    }
    HexRunStops(t, k, if letter == 'u' then 4 else 6);
  }

  lemma {:induction false} HexRunStops(t: seq<byte>, k: nat, n: nat)
    requires k < n && k <= |t| && (forall i :: 0 <= i < k ==> HexValue(t[i]).Some?)
    requires k < |t| ==> HexValue(t[k]) == None
    ensures HexRun(t, n) == k
  {
    hide HexValue;
    if k > 0 {
      assert forall i :: 0 <= i < k - 1 ==> t[1..][i] == t[i + 1];
      HexRunStops(t[1..], k - 1, n - 1);
    }
  }

  // ----- Quoting -----

  /** The text with delimiters doubled and backslashes escaped. */
  function Escape(text: seq<byte>, delimiter: byte): seq<byte> {
    if text == [] then [] else EscapeByte(text[0], delimiter) + Escape(text[1..], delimiter)
  }

  function EscapeByte(b: byte, delimiter: byte): seq<byte> {
    if b == delimiter || b == BACKSLASH then [b, b] else [b]
  }

  function Quote(text: seq<byte>, delimiter: byte): seq<byte> { [delimiter] + (Escape(text, delimiter) + [delimiter]) }

  lemma BodyLengthEscaped(b: byte, delimiter: byte, later: seq<byte>)
    requires IsDelimiter(delimiter)
    ensures BodyLength(EscapeByte(b, delimiter) + later, delimiter) ==
            Further(|EscapeByte(b, delimiter)|, BodyLength(later, delimiter))
  {
    var head := EscapeByte(b, delimiter);
    assert (head + later)[|head|..] == later;
  }

  /** The literal goes on behind an escaped text as if it started there. */
  lemma {:induction false} BodyLengthBehind(text: seq<byte>, delimiter: byte, behind: seq<byte>)
    requires IsDelimiter(delimiter)
    ensures BodyLength(Escape(text, delimiter) + behind, delimiter) ==
            Further(|Escape(text, delimiter)|, BodyLength(behind, delimiter))
  {
    hide BodyLength, EscapeByte;
    if text == [] {
      assert Escape(text, delimiter) + behind == behind;
    } else {
      var later := Escape(text[1..], delimiter);
      BodyLengthBehind(text[1..], delimiter, behind);
      BodyLengthEscaped(text[0], delimiter, later + behind);
      ConcatAssoc(EscapeByte(text[0], delimiter), later, behind);
    }
  }

  lemma {:induction false} DecodeEscaped(text: seq<byte>, delimiter: byte)
    requires IsDelimiter(delimiter)
    ensures Decode(Escape(text, delimiter), delimiter) == text
  {
    if text != [] {
      DecodeEscaped(text[1..], delimiter);
      var head, later := EscapeByte(text[0], delimiter), Escape(text[1..], delimiter);
      assert (head + later)[|head|..] == later;
      if text[0] == BACKSLASH {
        assert Escaped(BACKSLASH, later) == ([BACKSLASH], 0);
      }
    }
  }

  /**
   * Quoting round-trips: a quoted text not followed by its delimiter is one literal, spanning all
   * of it, and decodes to the text.
   */
  lemma QuoteRoundTrip(text: seq<byte>, delimiter: byte, rest: seq<byte>)
    requires IsDelimiter(delimiter) && (rest == [] || rest[0] != delimiter)
    ensures var source := Quote(text, delimiter) + rest;
            && source[0] == delimiter
            && BodyLength(source[1..], delimiter) == Some(|Quote(text, delimiter)| - 1)
    ensures DecodeToken(Quote(text, delimiter), delimiter) == text
  {
    hide Escape, Quote, Decode;
    BodyLengthBehind(text, delimiter, [delimiter] + rest);
    QuoteParts(text, delimiter, rest);
    BodyLengthClosed(delimiter, rest);
    DecodeEscaped(text, delimiter);
  }

  lemma BodyLengthClosed(delimiter: byte, rest: seq<byte>)
    requires rest == [] || rest[0] != delimiter
    ensures BodyLength([delimiter] + rest, delimiter) == Some(1)
  {
  }

  /** Followed by its delimiter it is not: the literal then goes on. */
  lemma QuoteGoesOn(text: seq<byte>, delimiter: byte, rest: seq<byte>)
    requires IsDelimiter(delimiter) && rest != [] && rest[0] == delimiter
    ensures BodyLength((Quote(text, delimiter) + rest)[1..], delimiter) ==
            Further(|Quote(text, delimiter)|, BodyLength(rest[1..], delimiter))
  {
    hide BodyLength, Escape, Quote;
    BodyLengthBehind(text, delimiter, [delimiter] + rest);
    QuoteParts(text, delimiter, rest);
    BodyLengthDoubled(delimiter, rest);
  }

  lemma BodyLengthDoubled(delimiter: byte, rest: seq<byte>)
    requires rest != [] && rest[0] == delimiter
    ensures BodyLength([delimiter] + rest, delimiter) == Further(2, BodyLength(rest[1..], delimiter))
  {
    assert ([delimiter] + rest)[2..] == rest[1..];
  }

  lemma QuoteParts(text: seq<byte>, delimiter: byte, rest: seq<byte>)
    ensures |Quote(text, delimiter)| == |Escape(text, delimiter)| + 2
    ensures (Quote(text, delimiter) + rest)[0] == delimiter
    ensures (Quote(text, delimiter) + rest)[1..] == Escape(text, delimiter) + ([delimiter] + rest)
    ensures Quote(text, delimiter)[1..|Quote(text, delimiter)| - 1] == Escape(text, delimiter)
  {
    hide Escape;
    ConcatAssoc(Escape(text, delimiter), [delimiter], rest);
  }

  // ----- decode_quoted -----

  const INITIAL_CAPACITY_FACTOR: nat := 4

  /** The digit loop of a long escape: at most `digits` of them, or '?' for too few. */
  method DecodeEscape(e: byte, t: seq<byte>) returns (written: seq<byte>, taken: nat)
    ensures (written, taken) == Escaped(e, t)
  {
    var digits := EscapeDigits(e);
    if digits == 0 {
      return [SimpleEscape(e)], 0;
    }
    HexRunDigits(t, digits);
    EscapeRange();
    var cp: nat := 0;
    taken := 0;
    assert t[0..] == t;
    while taken < digits
      invariant taken <= digits && taken <= |t| && HexRun(t, digits) == taken + HexRun(t[taken..], digits - taken)
      invariant cp == HexNumber(t, taken)
      decreases digits - taken
    {
      if taken == |t| {
        return [63], taken;
      }
      var h := HexValue(t[taken]);
      if h == None {
        return [63], taken + 1;
      }
      DropOfDrop(t, taken, 1);
      cp := cp * 16 + h.value;
      taken := taken + 1;
    }
    written := Utf8Encode(cp);
  }

  /** One turn of the decoding loop: the bytes it writes and the bytes of the body it takes. */
  method DecodeOne(body: seq<byte>, delimiter: byte) returns (written: seq<byte>, taken: nat)
    requires body != []
    ensures 1 <= taken <= |body| && |written| <= taken
    ensures Decode(body, delimiter) == written + Decode(body[taken..], delimiter)
  {
    hide Escaped;
    if body[0] == BACKSLASH {
      if |body| == 1 {
        return [], 1;
      }
      written, taken := DecodeEscape(body[1], body[2..]);
      taken := taken + 2;
    } else if body[0] == delimiter && |body| > 1 && body[1] == delimiter {
      written, taken := [delimiter], 2;
    } else {
      written, taken := [body[0]], 1;
    }
  }

  /** decode_quoted: the output never outgrows its initial capacity. */
  method DecodeQuoted(token: seq<byte>, delimiter: byte) returns (text: seq<byte>)
    ensures text == DecodeToken(token, delimiter)
  {
    hide Decode;
    if |token| < 2 {
      return [];
    }
    var body := token[1..|token| - 1];
    var capacity := (|token| + 1) * INITIAL_CAPACITY_FACTOR;
    var output := new byte[capacity];
    var n: nat := 0;
    ghost var whole := Decode(body, delimiter);
    while body != []
      invariant n + |body| <= |token| - 2
      invariant whole == output[..n] + Decode(body, delimiter)
      decreases |body|
    {
      var written, taken := DecodeOne(body, delimiter);
      ghost var later := Decode(body[taken..], delimiter);
      if n + |written| + 1 > capacity {
        assert false;
      }
      ConcatAssoc(output[..n], written, later);
      Copy(output, n, written);
      n, body := n + |written|, body[taken..];
    }
    DecodeNothing(delimiter);
    text := output[..n];
  }

  lemma DecodeNothing(delimiter: byte)
    ensures Decode([], delimiter) == []
  {
  }

  /** memcpy into the output */
  method Copy(output: array<byte>, at: nat, bytes: seq<byte>)
    requires at + |bytes| <= output.Length
    modifies output
    ensures output[..at + |bytes|] == old(output[..at]) + bytes
  {
    forall i | 0 <= i < |bytes| {
      output[at + i] := bytes[i];
    }
  }
}
