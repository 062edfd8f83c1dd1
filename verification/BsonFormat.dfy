/** The byte layout of BSON documents: elements, the validator's rules, and what they determine. */
module BsonFormat {
  import opened Bytes
  import Utf8

  const EOD: byte := 0x00
  const DOUBLE: byte := 0x01
  const UTF8: byte := 0x02
  const DOCUMENT: byte := 0x03
  const ARRAY: byte := 0x04
  const BINARY: byte := 0x05
  const UNDEFINED: byte := 0x06
  const OID: byte := 0x07
  const BOOL: byte := 0x08
  const DATE_TIME: byte := 0x09
  const NULL: byte := 0x0A
  const REGEX: byte := 0x0B
  const DBPOINTER: byte := 0x0C
  const CODE: byte := 0x0D
  const SYMBOL: byte := 0x0E
  const CODEWSCOPE: byte := 0x0F
  const INT32: byte := 0x10
  const TIMESTAMP: byte := 0x11
  const INT64: byte := 0x12
  const DECIMAL128: byte := 0x13
  const MAXKEY: byte := 0x7F
  const MINKEY: byte := 0xFF

  const MAX_DEPTH: nat := 200
  const EMPTY_DOCUMENT_SIZE: nat := 5

  predicate KnownTag(tag: byte) { DOUBLE <= tag <= DECIMAL128 || tag == MAXKEY || tag == MINKEY }

  predicate HasNoValue(tag: byte) { tag == UNDEFINED || tag == NULL || tag == MINKEY || tag == MAXKEY }

  predicate IsString(tag: byte) { tag == UTF8 || tag == CODE || tag == SYMBOL }

  /** memchr(s, 0, |s|): the index of the first zero byte, |s| where there is none. */
  function FindZero(s: seq<byte>): (k: nat)
    ensures k <= |s|
    ensures k < |s| ==> s[k] == 0
  {
    if s == [] || s[0] == 0 then 0 else 1 + FindZero(s[1..])
  }

  /** `n` when the buffer holds that many bytes, 0 (the failure value) otherwise. */
  function SizeWithin(n: nat, rest: seq<byte>): (r: nat)
    ensures r <= |rest|
  {
    if n <= |rest| then n else 0
  }

  /** The size of a value of type `tag` at the head of `rest`; 0 on failure and for empty values. */
  function ValueSize(tag: byte, rest: seq<byte>): (n: nat)
    ensures n <= |rest|
  {
    if tag == DOUBLE || tag == DATE_TIME || tag == TIMESTAMP || tag == INT64 then SizeWithin(8, rest)
    else if tag == INT32 then SizeWithin(4, rest)
    else if tag == BOOL then SizeWithin(1, rest)
    else if tag == OID then SizeWithin(12, rest)
    else if tag == DECIMAL128 then SizeWithin(16, rest)
    else if IsString(tag) then PrefixedSize(rest, 4, 1, 4)
    else if tag == DOCUMENT || tag == ARRAY then PrefixedSize(rest, 4, 5, 0)
    else if tag == BINARY then PrefixedSize(rest, 5, 0, 5)
    else if tag == DBPOINTER then PrefixedSize(rest, 4, 1, 16)
    else if tag == CODEWSCOPE then PrefixedSize(rest, 4, 14, 0)
    else if tag == REGEX then RegexSize(rest)
    else 0
  }

  /** A value led by its 32-bit length: at least `minimum`, at most INT32_MAX, plus `extra` bytes. */
  function PrefixedSize(rest: seq<byte>, header: nat, minimum: nat, extra: nat): (n: nat)
    requires 4 <= header
    ensures n <= |rest|
  {
    if |rest| < header then 0
    else
      var n := LoadU32(rest);
      if n < minimum || n > INT32_MAX then 0 else SizeWithin(extra + n, rest)
  }

  /** Two zero-terminated strings. */
  function RegexSize(rest: seq<byte>): (n: nat)
    ensures n <= |rest|
  {
    var k := FindZero(rest);
    if k == |rest| then 0
    else
      var options := rest[k + 1..];
      var m := FindZero(options);
      if m == |options| then 0 else k + 1 + m + 1
  }

  /** The sizes of the values that have a fixed one, by type number. */
  const FIXED_SIZES: map<byte, nat> := map[
    0x01 := 8, 0x06 := 0, 0x07 := 12, 0x08 := 1, 0x09 := 8, 0x0A := 0, 0x10 := 4, 0x11 := 8, 0x12 := 8, 0x13 := 16,
    0x7F := 0, 0xFF := 0]

  lemma FixedSizes(tag: byte, rest: seq<byte>)
    requires tag in FIXED_SIZES
    ensures ValueSize(tag, rest) == if FIXED_SIZES[tag] <= |rest| then FIXED_SIZES[tag] else 0
    ensures HasNoValue(tag) <==> FIXED_SIZES[tag] == 0
  {
  }

  /** The sizes of the values led by a length: strings, documents, binaries, pointers and code with scope. */
  lemma PrefixedSizes(tag: byte, rest: seq<byte>, size: nat)
    requires tag in {0x02, 0x03, 0x04, 0x05, 0x0C, 0x0D, 0x0E, 0x0F}
    ensures size > 0 ==>
              (ValueSize(tag, rest) == size <==>
                && 4 <= |rest| && size <= |rest| && LoadU32(rest) <= INT32_MAX
                && var n := LoadU32(rest);
                   if tag in {0x02, 0x0D, 0x0E} then 1 <= n && size == 4 + n
                   else if tag in {0x03, 0x04} then 5 <= n && size == n
                   else if tag == 0x05 then size == 4 + 1 + n
                   else if tag == 0x0C then 1 <= n && size == 4 + n + 12
                   else 14 <= n && size == n)
  {
  }

  // ----- Elements -----

  datatype Element = Element(tag: byte, key: seq<byte>, value: seq<byte>)

  function EncodeElement(e: Element): (s: seq<byte>)
    ensures |s| == 2 + |e.key| + |e.value|
  {
    [e.tag] + e.key + [0] + e.value
  }

  /** The element at the head of `t`, the bytes from some offset to the end of a document. */
  function DecodeElement(t: seq<byte>): Option<Element> {
    if t == [] || t[0] == EOD then None
    else
      var k := FindZero(t[1..]);
      if k == |t| - 1 then None
      else
        var n := ValueSize(t[0], t[2 + k..]);
        if n == 0 && !HasNoValue(t[0]) then None
        else Some(Element(t[0], t[1..1 + k], t[2 + k..][..n]))
  }

  /** An element whose bytes read back as itself. */
  predicate Readable(e: Element) {
    && e.tag != EOD
    && FindZero(e.key) == |e.key|
    && ValueSize(e.tag, e.value) == |e.value|
    && (e.value == [] ==> HasNoValue(e.tag))
  }

  predicate AllReadable(es: seq<Element>) { forall i :: 0 <= i < |es| ==> Readable(es[i]) }

  function EncodeElements(es: seq<Element>): seq<byte> {
    if es == [] then [] else EncodeElement(es[0]) + EncodeElements(es[1..])
  }

  /** The elements that repeated decoding visits from the head of `t` on. */
  function Elements(t: seq<byte>): (es: seq<Element>)
    ensures AllReadable(es)
    ensures EncodeElements(es) <= t
    decreases |t|
  {
    match DecodeElement(t)
    case None => []
    case Some(e) =>
      DecodedElementIsPrefix(t);
      var rest := t[|EncodeElement(e)|..];
      assert t == EncodeElement(e) + rest;
      [e] + Elements(rest)
  }

  lemma {:induction false} FindZeroAppend(s: seq<byte>, rest: seq<byte>)
    ensures FindZero(s) < |s| ==> FindZero(s + rest) == FindZero(s)
    ensures FindZero(s) == |s| ==> FindZero(s + [0] + rest) == |s|
  {
    if s != [] && s[0] != 0 {
      FindZeroAppend(s[1..], rest);
      assert (s + rest)[1..] == s[1..] + rest;
      assert (s + [0] + rest)[1..] == s[1..] + [0] + rest;
    }
  }

  lemma {:induction false} FindZeroPrefix(s: seq<byte>, n: nat)
    requires n <= |s|
    ensures FindZero(s) < n ==> FindZero(s[..n]) == FindZero(s)
    ensures FindZero(s) >= n ==> FindZero(s[..n]) == n
  {
    if n > 0 && s[0] != 0 {
      FindZeroPrefix(s[1..], n - 1);
      assert s[..n][1..] == s[1..][..n - 1];
    }
  }

  lemma RegexSizeAppend(value: seq<byte>, rest: seq<byte>)
    requires RegexSize(value) == |value| && value != []
    ensures RegexSize(value + rest) == |value|
  {
    var k := FindZero(value);
    FindZeroAppend(value, rest);
    FindZeroAppend(value[k + 1..], rest);
    assert (value + rest)[k + 1..] == value[k + 1..] + rest;
  }

  /** Bytes after a value do not change its size. */
  lemma ValueSizeAppend(tag: byte, value: seq<byte>, rest: seq<byte>)
    requires ValueSize(tag, value) == |value| && value != []
    ensures ValueSize(tag, value + rest) == |value|
  {
    if tag == REGEX {
      RegexSizeAppend(value, rest);
    } else if 4 <= |value| {
      assert (value + rest)[..4] == value[..4];
    }
  }

  lemma RegexSizeOfCut(rest: seq<byte>)
    ensures RegexSize(rest[..RegexSize(rest)]) == RegexSize(rest)
  {
    var n := RegexSize(rest);
    if n != 0 {
      var k := FindZero(rest);
      FindZeroPrefix(rest, n);
      FindZeroPrefix(rest[k + 1..], n - k - 1);
      assert rest[..n][k + 1..] == rest[k + 1..][..n - k - 1];
    }
  }

  lemma PrefixedSizeOfCut(rest: seq<byte>, header: nat, minimum: nat, extra: nat)
    requires 4 <= header <= extra + minimum
    ensures var n := PrefixedSize(rest, header, minimum, extra);
            PrefixedSize(rest[..n], header, minimum, extra) == n
  {
    var n := PrefixedSize(rest, header, minimum, extra);
    if n != 0 {
      assert rest[..n][..4] == rest[..4];
    }
  }

  /** A value keeps its size when it is cut out of the bytes around it. */
  lemma ValueSizeOfCut(tag: byte, rest: seq<byte>)
    ensures ValueSize(tag, rest[..ValueSize(tag, rest)]) == ValueSize(tag, rest)
  {
    RegexSizeOfCut(rest);
    PrefixedSizeOfCut(rest, 4, 1, 4);
    PrefixedSizeOfCut(rest, 4, 5, 0);
    PrefixedSizeOfCut(rest, 5, 0, 5);
    PrefixedSizeOfCut(rest, 4, 1, 16);
    PrefixedSizeOfCut(rest, 4, 14, 0);
  }

  lemma ElementBytes(t: seq<byte>, k: nat, n: nat)
    requires 2 + k + n <= |t| && t[1 + k] == 0
    ensures t == EncodeElement(Element(t[0], t[1..1 + k], t[2 + k..][..n])) + t[2 + k + n..]
  {
  }

  lemma DecodedElementIsPrefix(t: seq<byte>)
    requires DecodeElement(t).Some?
    ensures var e := DecodeElement(t).value; Readable(e) && EncodeElement(e) <= t
  {
    var k := FindZero(t[1..]);
    var n := ValueSize(t[0], t[2 + k..]);
    assert t[1..][k] == t[1 + k];
    ElementBytes(t, k, n);
    ValueSizeOfCut(t[0], t[2 + k..]);
    FindZeroPrefix(t[1..], k);
    assert t[1..][..k] == t[1..1 + k];
  }

  lemma EncodedElementParts(e: Element, rest: seq<byte>)
    ensures var t, k := EncodeElement(e) + rest, |e.key|;
            && t[0] == e.tag && t[1..] == e.key + [0] + (e.value + rest)
            && t[1..1 + k] == e.key && t[2 + k..] == e.value + rest
  {
  }

  lemma NoValueNoSize(tag: byte, rest: seq<byte>)
    ensures HasNoValue(tag) ==> ValueSize(tag, rest) == 0
  {
  }

  lemma DecodeEncodedElement(e: Element, rest: seq<byte>)
    requires Readable(e)
    ensures DecodeElement(EncodeElement(e) + rest) == Some(e)
  {
    hide ValueSize, FindZero, EncodeElement;
    EncodedElementParts(e, rest);
    FindZeroAppend(e.key, e.value + rest);
    NoValueNoSize(e.tag, e.value + rest);
    if e.value != [] {
      ValueSizeAppend(e.tag, e.value, rest);
    }
    assert (e.value + rest)[..|e.value|] == e.value;
  }

  /** Decoding visits exactly the elements that were encoded, then stops at the terminator. */
  lemma {:induction false} ElementsOfEncoding(es: seq<Element>, rest: seq<byte>)
    requires AllReadable(es)
    requires rest == [] || rest[0] == EOD
    ensures Elements(EncodeElements(es) + rest) == es
  {
    if es == [] {
      assert EncodeElements(es) + rest == rest;
    } else {
      var tail := EncodeElements(es[1..]) + rest;
      ConcatAssoc(EncodeElement(es[0]), EncodeElements(es[1..]), rest);
      DecodeEncodedElement(es[0], tail);
      assert (EncodeElement(es[0]) + tail)[|EncodeElement(es[0])|..] == tail;
      ElementsOfEncoding(es[1..], rest);
    }
  }

  lemma {:induction false} EncodeElementsConcat(es: seq<Element>, fs: seq<Element>)
    ensures EncodeElements(es + fs) == EncodeElements(es) + EncodeElements(fs)
  {
    if es == [] {
      assert es + fs == fs;
    } else {
      EncodeElementsConcat(es[1..], fs);
      assert (es + fs)[1..] == es[1..] + fs;
      ConcatAssoc(EncodeElement(es[0]), EncodeElements(es[1..]), EncodeElements(fs));
    }
  }

  lemma EncodeElementsCons(e: Element, es: seq<Element>)
    ensures EncodeElements([e] + es) == EncodeElement(e) + EncodeElements(es)
  {
    assert ([e] + es)[1..] == es;
  }

  lemma EncodeElementsSnoc(es: seq<Element>, e: Element)
    ensures EncodeElements(es + [e]) == EncodeElements(es) + EncodeElement(e)
  {
    EncodeElementsConcat(es, [e]);
    assert EncodeElements([e]) == EncodeElement(e) + EncodeElements([]);
  }

  // ----- The validator's rules -----

  /** A length-prefixed, zero-terminated, well-formed string; the value has been sized before. */
  predicate ValidString(value: seq<byte>) {
    && 4 <= |value|
    && var n := LoadU32(value);
       && 1 <= n <= INT32_MAX
       && 4 + n <= |value|
       && value[3 + n] == 0
       && Utf8.Accepts(value[4..3 + n])
  }

  predicate ValidCodeWithScope(value: seq<byte>, depth: nat)
    decreases |value|, 1
  {
    && 14 <= |value|
    && var n := LoadU32(value[4..]);
       && 1 <= n <= INT32_MAX
       && 8 + n <= |value|
       && value[7 + n] == 0
       && Utf8.Accepts(value[8..7 + n])
       && var scope := value[8 + n..];
          && 4 <= |scope|
          && LoadU32(scope) == |scope|
          && ValidRange(scope, depth + 1, false)
  }

  predicate ValidValue(tag: byte, value: seq<byte>, depth: nat)
    decreases |value|, 2
  {
    if tag == DOCUMENT || tag == ARRAY then ValidRange(value, depth + 1, tag == ARRAY)
    else if IsString(tag) || tag == DBPOINTER then ValidString(value)
    else if tag == CODEWSCOPE then ValidCodeWithScope(value, depth)
    else true
  }

  /** `printf("%u", n)` */
  function Decimal(n: nat): (s: seq<byte>)
    ensures s != []
  {
    if n < 10 then [48 + n] else Decimal(n / 10) + [48 + n % 10]
  }

  /** Digits read with the most significant first. */
  function NumberOf(digits: seq<byte>): int {
    if digits == [] then 0
    else
      var last: int := digits[|digits| - 1];
      10 * NumberOf(digits[..|digits| - 1]) + last - 48
  }

  /** The digits are those of the number, and none of them is a leading zero. */
  lemma {:induction false} DecimalSpells(n: nat)
    ensures NumberOf(Decimal(n)) == n
    ensures forall i :: 0 <= i < |Decimal(n)| ==> 48 <= Decimal(n)[i] <= 57
    ensures n > 0 ==> Decimal(n)[0] != 48
    ensures n == 0 ==> Decimal(n) == [48]
  {
    if n < 10 {
      assert NumberOf([48 + n]) == 10 * NumberOf([48 + n][..0]) + n;
    } else {
      DecimalSpells(n / 10);
      assert Decimal(n)[..|Decimal(n)| - 1] == Decimal(n / 10);
    }
  }

  /** The decimal spelling of a number: digits, the first of several not a zero. */
  predicate Spells(digits: seq<byte>, n: nat) {
    && digits != []
    && (forall i :: 0 <= i < |digits| ==> 48 <= digits[i] <= 57)
    && (1 < |digits| ==> digits[0] != 48)
    && NumberOf(digits) == n
  }

  /** Without its last digit a spelling is that of a tenth of the number. */
  lemma SpellingTail(digits: seq<byte>, n: nat)
    requires Spells(digits, n) && 1 < |digits|
    ensures Spells(digits[..|digits| - 1], n / 10) && digits[|digits| - 1] == 48 + n % 10
  {
    var most := digits[..|digits| - 1];
    var last: int := digits[|digits| - 1];
    assert n == 10 * NumberOf(most) + (last - 48);
  }

  lemma {:induction false} SpellingIsDecimal(digits: seq<byte>, n: nat)
    requires Spells(digits, n)
    ensures digits == Decimal(n)
    decreases |digits|
  {
    hide Spells, NumberOf;
    SpellingStart(digits, n);
    if 1 < |digits| {
      SpellingTail(digits, n);
      SpellingIsDecimal(digits[..|digits| - 1], n / 10);
      assert digits == digits[..|digits| - 1] + [digits[|digits| - 1]];
    }
  }

  /** A spelling of one digit is that digit, one of more is of 10 or more. */
  lemma SpellingStart(digits: seq<byte>, n: nat)
    requires Spells(digits, n)
    ensures digits != [] && (|digits| == 1 ==> n < 10 && digits == [48 + n])
    ensures 1 < |digits| ==> 10 <= n
    decreases |digits|
  {
    var most := digits[..|digits| - 1];
    var last: int := digits[|digits| - 1];
    assert n == 10 * NumberOf(most) + (last - 48);
    if |digits| == 1 {
      assert digits == [last];
    } else {
      SpellingTail(digits, n);
      SpellingStart(most, n / 10);
    }
  }

  lemma DecimalIsTheSpelling(digits: seq<byte>, n: nat)
    ensures Spells(digits, n) <==> digits == Decimal(n)
  {
    hide NumberOf, Decimal;
    DecimalSpells(n);
    if Spells(digits, n) {
      SpellingIsDecimal(digits, n);
    }
  }

  predicate ValidElement(e: Element, depth: nat, isArray: bool, index: nat)
    decreases |e.value|, 3
  {
    && KnownTag(e.tag)
    && e.key != []
    && Utf8.Accepts(e.key)
    && (isArray ==> e.key == Decimal(index))
    && ValidValue(e.tag, e.value, depth)
  }

  /** The elements of a document from some offset to its end. */
  predicate ValidTail(t: seq<byte>, depth: nat, isArray: bool, index: nat)
    decreases |t|, 0
  {
    if t == [] then false
    else if t[0] == EOD then |t| == 1
    else
      match DecodeElement(t)
      case None => false
      case Some(e) =>
        DecodedElementIsPrefix(t);
        && ValidElement(e, depth, isArray, index)
        && ValidTail(t[|EncodeElement(e)|..], depth, isArray, index + 1)
  }

  /** A document of `|d|` bytes, its length prefix not looked at. */
  predicate ValidRange(d: seq<byte>, depth: nat, isArray: bool)
    decreases |d|, 0
  {
    && EMPTY_DOCUMENT_SIZE <= |d|
    && depth <= MAX_DEPTH
    && d[|d| - 1] == 0
    && ValidTail(d[4..], depth, isArray, 0)
  }

  predicate ValidDocument(d: seq<byte>) {
    && EMPTY_DOCUMENT_SIZE <= |d|
    && LoadU32(d) == |d|
    && ValidRange(d, 0, false)
  }

  // ----- Documents as element lists -----

  predicate ValidElements(es: seq<Element>, depth: nat, isArray: bool, index: nat) {
    && AllReadable(es)
    && forall i :: 0 <= i < |es| ==> ValidElement(es[i], depth, isArray, index + i)
  }

  function DocumentSize(es: seq<Element>): nat { EMPTY_DOCUMENT_SIZE + |EncodeElements(es)| }

  function EncodeDocument(es: seq<Element>): (d: seq<byte>)
    requires DocumentSize(es) <= UINT32_MAX
    ensures |d| == DocumentSize(es)
  {
    StoreU32(DocumentSize(es)) + EncodeElements(es) + [EOD]
  }

  /** What the iterator visits. */
  function DocumentElements(d: seq<byte>): (es: seq<Element>)
    ensures AllReadable(es)
  {
    if |d| < EMPTY_DOCUMENT_SIZE then [] else Elements(d[4..])
  }

  lemma ValidElementsCons(e: Element, es: seq<Element>, depth: nat, isArray: bool, index: nat)
    ensures ValidElements([e] + es, depth, isArray, index) <==>
            Readable(e) && ValidElement(e, depth, isArray, index) && ValidElements(es, depth, isArray, index + 1)
  {
    var all := [e] + es;
    if ValidElements(all, depth, isArray, index) {
      assert all[0] == e && ValidElement(all[0], depth, isArray, index + 0);
      forall i | 0 <= i < |es| ensures Readable(es[i]) && ValidElement(es[i], depth, isArray, index + 1 + i) {
        assert es[i] == all[i + 1] && ValidElement(all[i + 1], depth, isArray, index + (i + 1));
      }
    }
    if Readable(e) && ValidElement(e, depth, isArray, index) && ValidElements(es, depth, isArray, index + 1) {
      forall i | 0 <= i < |all| ensures Readable(all[i]) && ValidElement(all[i], depth, isArray, index + i) {
        if i > 0 {
          assert all[i] == es[i - 1] && ValidElement(es[i - 1], depth, isArray, index + 1 + (i - 1));
        }
      }
    }
  }

  lemma ValidTailStep(t: seq<byte>, depth: nat, isArray: bool, index: nat) returns (e: Element, rest: seq<byte>)
    requires ValidTail(t, depth, isArray, index) && t[0] != EOD
    ensures Readable(e) && ValidElement(e, depth, isArray, index)
    ensures ValidTail(rest, depth, isArray, index + 1)
    ensures t == EncodeElement(e) + rest && Elements(t) == [e] + Elements(rest)
  {
    e := DecodeElement(t).value;
    DecodedElementIsPrefix(t);
    rest := t[|EncodeElement(e)|..];
  }

  /** An accepted tail is the encoding of the elements it iterates to, and nothing else. */
  lemma {:induction false} ValidTailDetermined(t: seq<byte>, depth: nat, isArray: bool, index: nat)
    requires ValidTail(t, depth, isArray, index)
    ensures ValidElements(Elements(t), depth, isArray, index)
    ensures t == EncodeElements(Elements(t)) + [EOD]
    decreases |t|
  {
    if t[0] == EOD {
      assert t == [] + [EOD];
    } else {
      var e, rest := ValidTailStep(t, depth, isArray, index);
      ValidTailDetermined(rest, depth, isArray, index + 1);
      ValidElementsCons(e, Elements(rest), depth, isArray, index);
      EncodeElementsCons(e, Elements(rest));
      ConcatAssoc(EncodeElement(e), EncodeElements(Elements(rest)), [EOD]);
    }
  }

  lemma NotEndOfDocument(e: Element, rest: seq<byte>)
    requires Readable(e)
    ensures var t := EncodeElement(e) + rest; t != [] && t[0] != EOD
  {
  }

  lemma {:induction false} EncodingIsValidTail(es: seq<Element>, depth: nat, isArray: bool, index: nat)
    requires ValidElements(es, depth, isArray, index)
    ensures ValidTail(EncodeElements(es) + [EOD], depth, isArray, index)
  {
    if es == [] {
      assert EncodeElements(es) + [EOD] == [EOD];
    } else {
      hide EncodeElement, DecodeElement, ValidElement, ValidElements, Readable;
      var tail := EncodeElements(es[1..]) + [EOD];
      var t := EncodeElements(es) + [EOD];
      assert es == [es[0]] + es[1..];
      ValidElementsCons(es[0], es[1..], depth, isArray, index);
      ConcatAssoc(EncodeElement(es[0]), EncodeElements(es[1..]), [EOD]);
      DecodeEncodedElement(es[0], tail);
      NotEndOfDocument(es[0], tail);
      assert t[|EncodeElement(es[0])|..] == tail;
      EncodingIsValidTail(es[1..], depth, isArray, index + 1);
    }
  }

  lemma EncodedDocumentParts(es: seq<Element>)
    requires AllReadable(es) && DocumentSize(es) <= UINT32_MAX
    ensures var d := EncodeDocument(es);
            LoadU32(d) == |d| && d[4..] == EncodeElements(es) + [EOD] && DocumentElements(d) == es
  {
    var d := EncodeDocument(es);
    assert d == StoreU32(DocumentSize(es)) + (EncodeElements(es) + [EOD]);
    LoadStoreU32(DocumentSize(es), EncodeElements(es) + [EOD]);
    assert d[4..] == EncodeElements(es) + [EOD];
    ElementsOfEncoding(es, [EOD]);
  }

  lemma EncodingIsValidRange(es: seq<Element>, depth: nat, isArray: bool)
    requires ValidElements(es, depth, isArray, 0) && depth <= MAX_DEPTH
    requires DocumentSize(es) <= UINT32_MAX
    ensures ValidRange(EncodeDocument(es), depth, isArray)
  {
    EncodedDocumentParts(es);
    EncodingIsValidTail(es, depth, isArray, 0);
  }

  /** A valid range that carries its own length is the encoding of its elements. */
  lemma ValidRangeDetermined(d: seq<byte>, depth: nat, isArray: bool)
    requires ValidRange(d, depth, isArray) && LoadU32(d) == |d|
    ensures var es := DocumentElements(d);
            ValidElements(es, depth, isArray, 0) && DocumentSize(es) == |d| && EncodeDocument(es) == d
  {
    ValidTailDetermined(d[4..], depth, isArray, 0);
    StoreLoadU32(d);
    assert d == d[..4] + d[4..];
    ConcatAssoc(d[..4], EncodeElements(Elements(d[4..])), [EOD]);
  }

  /**
   * Validation implies complete iteration: the iterator visits exactly the elements the validator
   * checked, and they and the length prefix make up every byte of the document.
   */
  lemma ValidDocumentDetermined(d: seq<byte>)
    requires ValidDocument(d)
    ensures var es := DocumentElements(d);
            ValidElements(es, 0, false, 0) && DocumentSize(es) == |d| && EncodeDocument(es) == d
  {
    ValidRangeDetermined(d, 0, false);
  }

  /** The validator accepts exactly the encodings of lists of valid elements. */
  lemma ValidDocumentExactly(d: seq<byte>)
    ensures ValidDocument(d) <==>
            exists es :: ValidElements(es, 0, false, 0) && DocumentSize(es) <= UINT32_MAX && d == EncodeDocument(es)
  {
    if ValidDocument(d) {
      ValidDocumentDetermined(d);
    }
    forall es | ValidElements(es, 0, false, 0) && DocumentSize(es) <= UINT32_MAX && d == EncodeDocument(es)
      ensures ValidDocument(d)
    {
      EncodedDocumentParts(es);
      EncodingIsValidRange(es, 0, false);
    }
  }

  /** Documents with the same elements are the same bytes. */
  lemma ElementsDetermineDocument(d: seq<byte>, d': seq<byte>)
    requires ValidDocument(d) && ValidDocument(d')
    requires DocumentElements(d) == DocumentElements(d')
    ensures d == d'
  {
    ValidDocumentDetermined(d);
    ValidDocumentDetermined(d');
  }

  // ----- The rules for elements -----

  /** The type numbers of the format. */
  const TYPE_NUMBERS: set<byte> := {
    0x01, 0x02, 0x03, 0x04, 0x05, 0x06, 0x07, 0x08, 0x09, 0x0A, 0x0B, 0x0C, 0x0D, 0x0E, 0x0F, 0x10, 0x11, 0x12, 0x13,
    0x7F, 0xFF}

  lemma ElementExactly(e: Element, depth: nat, isArray: bool, index: nat)
    ensures ValidElement(e, depth, isArray, index) <==>
              && e.tag in TYPE_NUMBERS && e.key != [] && Utf8.Accepts(e.key)
              && ValidValue(e.tag, e.value, depth)
              && (isArray ==> Spells(e.key, index))
  {
    hide ValidValue, Utf8.Accepts, Spells;
    DecimalIsTheSpelling(e.key, index);
  }

  lemma ElementsExactly(es: seq<Element>, depth: nat, isArray: bool)
    requires AllReadable(es)
    ensures ValidElements(es, depth, isArray, 0) <==>
              forall i :: 0 <= i < |es| ==>
                && es[i].tag in TYPE_NUMBERS && es[i].key != [] && Utf8.Accepts(es[i].key)
                && ValidValue(es[i].tag, es[i].value, depth)
                && (isArray ==> Spells(es[i].key, i))
  {
    hide ValidValue, Utf8.Accepts, Spells, Readable, ValidElement;
    forall i | 0 <= i < |es|
      ensures ValidElement(es[i], depth, isArray, 0 + i) <==>
                && es[i].tag in TYPE_NUMBERS && es[i].key != [] && Utf8.Accepts(es[i].key)
                && ValidValue(es[i].tag, es[i].value, depth)
                && (isArray ==> Spells(es[i].key, i))
    {
      ElementExactly(es[i], depth, isArray, i);
    }
  }

  /**
   * A document is accepted if and only if it is not nested too deeply and every element has a type
   * of the format, a nonempty key of well-formed text and a valid value; in an array the keys
   * spell 0, 1, 2 and so on.
   */
  lemma RangeExactly(es: seq<Element>, depth: nat, isArray: bool)
    requires AllReadable(es) && DocumentSize(es) <= UINT32_MAX
    ensures ValidRange(EncodeDocument(es), depth, isArray) <==>
              && depth <= 200
              && forall i :: 0 <= i < |es| ==>
                   && es[i].tag in TYPE_NUMBERS && es[i].key != [] && Utf8.Accepts(es[i].key)
                   && ValidValue(es[i].tag, es[i].value, depth)
                   && (isArray ==> Spells(es[i].key, i))
  {
    hide ValidRange, EncodeDocument, LoadU32, ValidValue, Utf8.Accepts, Readable, Spells, DocumentElements;
    hide ValidElements;
    EncodedDocumentParts(es);
    ElementsExactly(es, depth, isArray);
    if depth <= MAX_DEPTH && ValidElements(es, depth, isArray, 0) {
      EncodingIsValidRange(es, depth, isArray);
    }
    if ValidRange(EncodeDocument(es), depth, isArray) {
      RangeDepth(EncodeDocument(es), depth, isArray);
      ValidRangeDetermined(EncodeDocument(es), depth, isArray);
    }
  }

  lemma RangeDepth(d: seq<byte>, depth: nat, isArray: bool)
    requires ValidRange(d, depth, isArray)
    ensures depth <= MAX_DEPTH
  {
  }

  // ----- The nesting limit -----

  lemma SingleSize(e: Element)
    ensures DocumentSize([e]) == 5 + |EncodeElement(e)|
  {
    assert EncodeElements([e]) == EncodeElement(e) + EncodeElements([]);
  }

  /** A document of one element is valid where the element is. */
  lemma SingleRange(e: Element, depth: nat)
    requires Readable(e) && DocumentSize([e]) <= UINT32_MAX
    ensures ValidRange(EncodeDocument([e]), depth, false) <==> depth <= MAX_DEPTH && ValidElement(e, depth, false, 0)
    ensures LoadU32(EncodeDocument([e])) == DocumentSize([e])
  {
    hide LoadU32, EncodeDocument, ValidElement, Readable, Elements;
    EncodedDocumentParts([e]);
    ValidElementsCons(e, [], depth, false, 0);
    assert [e] + [] == [e];
    if depth <= MAX_DEPTH && ValidElement(e, depth, false, 0) {
      EncodingIsValidRange([e], depth, false);
    }
    if ValidRange(EncodeDocument([e]), depth, false) {
      ValidRangeDetermined(EncodeDocument([e]), depth, false);
    }
  }

  lemma EmptyRange(depth: nat)
    ensures ValidRange(EncodeDocument([]), depth, false) <==> depth <= MAX_DEPTH
    ensures LoadU32(EncodeDocument([])) == 5
  {
    hide LoadU32, StoreU32;
    EncodedDocumentParts([]);
    if depth <= MAX_DEPTH {
      EncodingIsValidRange([], depth, false);
    }
  }

  /** The document with nothing but `n` documents around each other, each the value of a property a. */
  function Nested(n: nat): (d: seq<byte>)
    requires 5 + 8 * n <= INT32_MAX
    ensures |d| == 5 + 8 * n
    decreases n, 0
  {
    if n == 0 then EncodeDocument([]) else SingleSize(NestedElement(n - 1)); EncodeDocument([NestedElement(n - 1)])
  }

  function NestedElement(n: nat): (e: Element)
    requires 5 + 8 * n <= INT32_MAX
    ensures |EncodeElement(e)| == 8 + 8 * n
    decreases n, 1
  {
    Element(0x03, [97], Nested(n))
  }

  /** It carries its length, and counts as a value of its type. */
  lemma {:induction false} NestedReadable(n: nat)
    requires 5 + 8 * n <= INT32_MAX
    ensures LoadU32(Nested(n)) == |Nested(n)| && Readable(NestedElement(n))
  {
    hide LoadU32, EncodeDocument, ValidRange;
    if n == 0 {
      EmptyRange(0);
    } else {
      NestedReadable(n - 1);
      SingleSize(NestedElement(n - 1));
      SingleRange(NestedElement(n - 1), 0);
    }
    assert FindZero([97]) == 1;
  }

  lemma {:induction false} NestedRange(n: nat, depth: nat)
    requires 5 + 8 * n <= INT32_MAX
    ensures ValidRange(Nested(n), depth, false) <==> depth + n <= 200
    decreases n
  {
    hide LoadU32, EncodeDocument, ValidRange, ValidElement, NestedElement, Readable;
    if n == 0 {
      EmptyRange(depth);
    } else {
      NestedRange(n - 1, depth + 1);
      NestedReadable(n - 1);
      SingleSize(NestedElement(n - 1));
      SingleRange(NestedElement(n - 1), depth);
      NestedElementValid(n - 1, depth);
    }
  }

  lemma NestedElementValid(n: nat, depth: nat)
    requires 5 + 8 * n <= INT32_MAX
    ensures ValidElement(NestedElement(n), depth, false, 0) <==> ValidRange(Nested(n), depth + 1, false)
  {
    hide Nested, ValidRange;
    assert Utf8.Accepts([97]);
  }

  /** The outermost document counted, 201 levels are the most a valid document has. */
  lemma NestingLimit(n: nat)
    requires 5 + 8 * n <= INT32_MAX
    ensures ValidDocument(Nested(n)) <==> n <= 200
  {
    hide ValidRange, LoadU32, Nested;
    NestedReadable(n);
    NestedRange(n, 0);
  }
}
