/** The recursive validator, walking a document by offsets. */
module BsonValidator {
  import opened Bytes
  import opened BsonFormat
  import Utf8

  /** memchr over a range */
  method ScanForZero(s: seq<byte>) returns (k: nat)
    ensures k == FindZero(s)
  {
    k := 0;
    while k < |s| && s[k] != 0
      invariant k <= |s|
      invariant FindZero(s) == k + FindZero(s[k..])
    {
      assert s[k..][1..] == s[k + 1..];
      k := k + 1;
    }
  }

  method ValidateString(value: seq<byte>) returns (ok: bool)
    ensures ok == ValidString(value)
  {
    if |value| < 4 {
      return false;
    }
    var n := LoadU32(value);
    if n < 1 || n > INT32_MAX || 4 + n > |value| {
      return false;
    }
    if value[4 + (n - 1)] != 0 {
      return false;
    }
    ok := Utf8.Validate(value[4..4 + (n - 1)]);
  }

  method ValidateCodeWithScope(value: seq<byte>, depth: nat) returns (ok: bool)
    requires ValueSize(CODEWSCOPE, value) == |value| && value != []
    ensures ok == ValidCodeWithScope(value, depth)
    decreases |value|, 1
  {
    var codeLength := LoadU32(value[4..]);
    if codeLength < 1 || codeLength > INT32_MAX || 8 + codeLength > |value| {
      return false;
    }
    if value[8 + (codeLength - 1)] != 0 {
      return false;
    }
    var codeOk := Utf8.Validate(value[8..8 + (codeLength - 1)]);
    if !codeOk {
      return false;
    }
    var scope := value[8 + codeLength..];
    if |scope| < 4 {
      return false;
    }
    var scopeLength := LoadU32(scope);
    if scopeLength != |scope| {
      return false;
    }
    ok := ValidateRange(scope, depth + 1, false);
  }

  method ValidateValue(tag: byte, value: seq<byte>, depth: nat) returns (ok: bool)
    requires ValueSize(tag, value) == |value| && (value == [] ==> HasNoValue(tag))
    ensures ok == ValidValue(tag, value, depth)
    decreases |value|, 2
  {
    if tag == DOCUMENT || tag == ARRAY {
      ok := ValidateRange(value, depth + 1, tag == ARRAY);
    } else if IsString(tag) {
      ok := ValidateString(value);
    } else if tag == DBPOINTER {
      ok := ValidateString(value);
    } else if tag == CODEWSCOPE {
      ok := ValidateCodeWithScope(value, depth);
    } else {
      ok := true;
    }
  }

  lemma ValidTailUnfolds(t: seq<byte>, depth: nat, isArray: bool, index: nat)
    requires t != [] && t[0] != EOD
    ensures ValidTail(t, depth, isArray, index) <==>
            && DecodeElement(t).Some?
            && var e := DecodeElement(t).value;
               && |EncodeElement(e)| <= |t|
               && ValidElement(e, depth, isArray, index)
               && ValidTail(t[|EncodeElement(e)|..], depth, isArray, index + 1)
  {
    if DecodeElement(t).Some? {
      DecodedElementIsPrefix(t);
    }
  }

  /** The checks made on one element: the body of the validator's loop. */
  method CheckElement(t: seq<byte>, depth: nat, isArray: bool, index: nat) returns (ok: bool, size: nat)
    requires t != [] && t[0] != EOD
    ensures ok <==> DecodeElement(t).Some? && ValidElement(DecodeElement(t).value, depth, isArray, index)
    ensures ok ==> size == |EncodeElement(DecodeElement(t).value)| <= |t|
    decreases |t|, 0
  {
    size := 0;
    var tag := t[0];
    if !KnownTag(tag) {
      return false, 0;
    }
    var keyLength := ScanForZero(t[1..]);
    if keyLength == |t| - 1 || keyLength == 0 {
      return false, 0;
    }
    var key, rest := t[1..1 + keyLength], t[2 + keyLength..];
    var keyOk := Utf8.Validate(key);
    if !keyOk || (isArray && key != Decimal(index)) {
      return false, 0;
    }
    var valueSize := ValueSize(tag, rest);
    if valueSize == 0 && !HasNoValue(tag) {
      return false, 0;
    }
    ValueSizeOfCut(tag, rest);
    ok := ValidateValue(tag, rest[..valueSize], depth);
    size := 1 + keyLength + 1 + valueSize;
  }

  /** One round of the validator's loop: either the verdict or the bytes to step over. */
  method CheckHead(t: seq<byte>, depth: nat, isArray: bool, index: nat) returns (done: bool, ok: bool, size: nat)
    requires t != []
    ensures done ==> ok == ValidTail(t, depth, isArray, index)
    ensures !done ==> !ok && 0 < size <= |t|
    ensures !done ==> ValidTail(t, depth, isArray, index) == ValidTail(t[size..], depth, isArray, index + 1)
    decreases |t|, 1
  {
    if t[0] == EOD {
      return true, |t| == 1, 0;
    }
    ValidTailUnfolds(t, depth, isArray, index);
    ok, size := CheckElement(t, depth, isArray, index);
    done, ok := !ok, false;
  }

  method ValidateRange(data: seq<byte>, depth: nat, isArray: bool) returns (ok: bool)
    ensures ok == ValidRange(data, depth, isArray)
    decreases |data|, 0
  {
    if |data| < EMPTY_DOCUMENT_SIZE || depth > MAX_DEPTH || data[|data| - 1] != 0 {
      return false;
    }
    ghost var verdict := ValidTail(data[4..], depth, isArray, 0);
    var rest, arrayIndex, done := data[4..], 0, false;  // the bytes from `offset` on
    ok := false;
    while rest != [] && !done
      invariant |rest| < |data|
      invariant done ==> ok == verdict
      invariant !done ==> !ok && verdict == ValidTail(rest, depth, isArray, arrayIndex)
      decreases |rest|, !done
    {
      var size;
      done, ok, size := CheckHead(rest, depth, isArray, arrayIndex);
      if !done {
        rest, arrayIndex := rest[size..], arrayIndex + 1;
      }
    }
  }

  /** linklet_bson_validate */
  method Validate(data: seq<byte>) returns (ok: bool)
    ensures ok == ValidDocument(data)
  {
    if |data| < EMPTY_DOCUMENT_SIZE || LoadU32(data) != |data| {
      return false;
    }
    ok := ValidateRange(data, 0, false);
  }
}
