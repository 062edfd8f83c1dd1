/** The in-place document writer: a growable buffer, typed appends, nested documents, arrays. */
module BsonWriter {
  import opened Bytes
  import opened BsonFormat
  import BsonReader
  import Utf8

  const INITIAL_CAPACITY: nat := 64

  /** A zero-terminated C string, the terminator left out. */
  predicate CString(s: seq<byte>) { FindZero(s) == |s| }

  /** What the writer asks of a key. */
  predicate GoodKey(key: seq<byte>) { key != [] && Utf8.Accepts(key) }

  // ----- The effect of an append, on bytes -----

  /** The element bytes of a document handle: everything between the length and the terminator. */
  function Body(bson: seq<byte>): seq<byte>
    requires bson == [] || EMPTY_DOCUMENT_SIZE <= |bson|
  {
    if bson == [] then [] else bson[4..|bson| - 1]
  }

  function SizeWith(bson: seq<byte>, e: Element): nat
    requires bson == [] || EMPTY_DOCUMENT_SIZE <= |bson|
  {
    EMPTY_DOCUMENT_SIZE + |Body(bson)| + |EncodeElement(e)|
  }

  function Appended(bson: seq<byte>, e: Element): (d: seq<byte>)
    requires bson == [] || EMPTY_DOCUMENT_SIZE <= |bson|
    requires SizeWith(bson, e) <= INT32_MAX
    ensures |d| == SizeWith(bson, e)
  {
    StoreU32(SizeWith(bson, e)) + Body(bson) + EncodeElement(e) + [EOD]
  }

  /** `extra` put in front of the terminator: how a nested document is closed. */
  function Extended(bson: seq<byte>, extra: seq<byte>): (d: seq<byte>)
    requires EMPTY_DOCUMENT_SIZE <= |bson| && |bson| + |extra| <= INT32_MAX
    ensures |d| == |bson| + |extra|
  {
    StoreU32(|bson| + |extra|) + bson[4..|bson| - 1] + extra + [EOD]
  }

  lemma ExtendedIs(bson: seq<byte>, extra: seq<byte>, d: seq<byte>)
    requires EMPTY_DOCUMENT_SIZE <= |bson| && |bson| + |extra| <= INT32_MAX && |d| == |bson| + |extra|
    requires d[..|d| - 1] == StoreU32(|d|) + bson[4..|bson| - 1] + extra && d[|d| - 1] == EOD
    ensures d == Extended(bson, extra)
  {
    hide StoreU32;
    assert d == d[..|d| - 1] + [d[|d| - 1]];
  }

  /** The handle of the document with the given elements: no buffer until the first append. */
  function Handle(es: seq<Element>): (bson: seq<byte>)
    requires DocumentSize(es) <= UINT32_MAX
    ensures bson == [] || EMPTY_DOCUMENT_SIZE <= |bson|
  {
    if es == [] then [] else EncodeDocument(es)
  }

  /** Appending to bytes is appending to the element list. */
  lemma AppendedToHandle(es: seq<Element>, e: Element)
    requires DocumentSize(es + [e]) <= INT32_MAX
    ensures DocumentSize(es) <= DocumentSize(es + [e]) == SizeWith(Handle(es), e)
    ensures Appended(Handle(es), e) == EncodeDocument(es + [e])
  {
    EncodeElementsSnoc(es, e);
    assert Body(Handle(es)) == EncodeElements(es);
    AppendedIsEncoding(Handle(es), es, e);
  }

  /** Opening a nested value, then closing it with its bytes, is one append of those bytes. */
  lemma BeginEndIsAppend(bson: seq<byte>, tag: byte, key: seq<byte>, child: seq<byte>)
    requires bson == [] || EMPTY_DOCUMENT_SIZE <= |bson|
    requires SizeWith(bson, Element(tag, key, child)) <= INT32_MAX
    ensures SizeWith(bson, Element(tag, key, [])) + |child| == SizeWith(bson, Element(tag, key, child))
    ensures Extended(Appended(bson, Element(tag, key, [])), child) == Appended(bson, Element(tag, key, child))
  {
    var begun := Appended(bson, Element(tag, key, []));
    assert begun[4..|begun| - 1] == Body(bson) + EncodeElement(Element(tag, key, []));
    assert EncodeElement(Element(tag, key, [])) + child == EncodeElement(Element(tag, key, child));
    var prefix := StoreU32(SizeWith(bson, Element(tag, key, child)));
    ConcatAssoc(prefix + Body(bson), EncodeElement(Element(tag, key, [])), child);
    ConcatAssoc(prefix, Body(bson), EncodeElement(Element(tag, key, [])));
  }

  // ----- Typed values -----

  type i32 = v: int | -0x8000_0000 <= v < 0x8000_0000
  type i64 = v: int | -0x8000_0000_0000_0000 <= v < 0x8000_0000_0000_0000

  /** The width of the values that have a fixed one. */
  function FixedWidth(tag: byte): nat {
    if tag == DOUBLE || tag == DATE_TIME || tag == TIMESTAMP || tag == INT64 then 8
    else if tag == INT32 then 4
    else if tag == BOOL then 1
    else if tag == OID then 12
    else if tag == DECIMAL128 then 16
    else 0
  }

  predicate IsFixed(tag: byte) { HasNoValue(tag) || FixedWidth(tag) > 0 }

  /** The arguments of the typed appends, by the way their bytes are laid out. */
  datatype Value =
    | Fixed(tag: byte, bytes: seq<byte>)
    | Text(tag: byte, text: seq<byte>)
    | Nested(isArray: bool, document: seq<byte>)
    | Binary(subtype: byte, bytes: seq<byte>)
    | Regex(pattern: seq<byte>, options: seq<byte>)
    | DbPointer(text: seq<byte>, oid: seq<byte>)
    | CodeWithScope(text: seq<byte>, document: seq<byte>)

  function Double(bits: u64): Value { Fixed(DOUBLE, StoreU64(bits)) }
  function Int32(i: i32): Value { Fixed(INT32, StoreU32(i % 0x1_0000_0000)) }
  function Int64(l: i64): Value { Fixed(INT64, StoreU64(l % 0x1_0000_0000_0000_0000)) }
  function DateTime(ms: i64): Value { Fixed(DATE_TIME, StoreU64(ms % 0x1_0000_0000_0000_0000)) }
  function Timestamp(increment: u32, seconds: u32): Value { Fixed(TIMESTAMP, StoreU32(increment) + StoreU32(seconds)) }

  function TagOf(v: Value): byte {
    match v
    case Fixed(tag, _) => tag
    case Text(tag, _) => tag
    case Nested(isArray, _) => if isArray then ARRAY else DOCUMENT
    case Binary(_, _) => BINARY
    case Regex(_, _) => REGEX
    case DbPointer(_, _) => DBPOINTER
    case CodeWithScope(_, _) => CODEWSCOPE
  }

  function StringBytes(text: seq<byte>): (s: seq<byte>)
    requires |text| < UINT32_MAX
    ensures |s| == |text| + 5
  {
    StoreU32(|text| + 1) + text + [0]
  }

  /** The checks a typed append makes itself, before those on the key and the total size. */
  predicate Storable(v: Value) {
    match v
    case Fixed(tag, bytes) => IsFixed(tag) && |bytes| == FixedWidth(tag)
    case Text(tag, text) => IsString(tag) && |text| < INT32_MAX && (tag == UTF8 ==> Utf8.Accepts(text))
    case Binary(_, bytes) => |bytes| <= INT32_MAX
    case DbPointer(text, oid) => |text| < INT32_MAX && |oid| == 12
    case CodeWithScope(text, scope) => 9 + |text| + |BsonReader.DocumentBytes(scope)| <= INT32_MAX
    case _ => true
  }

  function ValueBytes(v: Value): seq<byte>
    requires Storable(v)
  {
    match v
    case Fixed(_, bytes) => bytes
    case Text(_, text) => StringBytes(text)
    case Nested(_, d) => BsonReader.DocumentBytes(d)
    case Binary(subtype, bytes) => StoreU32(|bytes|) + [subtype] + bytes
    case Regex(pattern, options) => pattern + [0] + options + [0]
    case DbPointer(text, oid) => StringBytes(text) + oid
    case CodeWithScope(text, scope) => ScopeBytes(text, BsonReader.DocumentBytes(scope))
  }

  /** The two's-complement readings of loaded words. */
  function AsI32(v: u32): i32 { if v < 0x8000_0000 then v else v - 0x1_0000_0000 }

  function AsI64(v: u64): i64 { if v < 0x8000_0000_0000_0000 then v else v - 0x1_0000_0000_0000_0000 }

  /** Scalars are stored so that the reader's loads give them back, sign included. */
  lemma ScalarsReadBack(bits: u64, i: i32, l: i64, increment: u32, seconds: u32)
    ensures Storable(Double(bits)) && LoadU64(ValueBytes(Double(bits))) == bits
    ensures Storable(Int32(i)) && AsI32(LoadU32(ValueBytes(Int32(i)))) == i
    ensures Storable(Int64(l)) && AsI64(LoadU64(ValueBytes(Int64(l)))) == l
    ensures Storable(DateTime(l)) && AsI64(LoadU64(ValueBytes(DateTime(l)))) == l
    ensures Storable(Timestamp(increment, seconds))
    ensures LoadU32(ValueBytes(Timestamp(increment, seconds))) == increment
    ensures LoadU32(ValueBytes(Timestamp(increment, seconds))[4..]) == seconds
  {
    hide LoadU32, LoadU64, StoreU32, StoreU64;
    WordReadsBack64(bits);
    WordReadsBack64(l % 0x1_0000_0000_0000_0000);
    WordReadsBack32(i % 0x1_0000_0000);
    LoadStoreU32(increment, StoreU32(seconds));
    WordReadsBack32(seconds);
    assert (StoreU32(increment) + StoreU32(seconds))[4..] == StoreU32(seconds);
  }

  /** The types of the scalars, by number. */
  lemma ScalarTypes(bits: u64, i: i32, l: i64, increment: u32, seconds: u32)
    ensures TagOf(Double(bits)) == 0x01 && TagOf(Int32(i)) == 0x10 && TagOf(Int64(l)) == 0x12
    ensures TagOf(DateTime(l)) == 0x09 && TagOf(Timestamp(increment, seconds)) == 0x11
  {
  }

  lemma WordReadsBack32(v: u32)
    ensures LoadU32(StoreU32(v)) == v
  {
    LoadStoreU32(v, []);
    assert StoreU32(v) + [] == StoreU32(v);
  }

  lemma WordReadsBack64(v: u64)
    ensures LoadU64(StoreU64(v)) == v
  {
    LoadStoreU64(v, []);
    assert StoreU64(v) + [] == StoreU64(v);
  }

  /** A document that carries its own length and is valid where it is nested. */
  predicate NestedDocument(d: seq<byte>, depth: nat, isArray: bool) {
    |d| <= INT32_MAX && ValidRange(d, depth, isArray) && LoadU32(d) == |d|
  }

  /** What a caller must give for the document to stay valid; the writers check only some of it. */
  predicate Sound(v: Value, depth: nat) {
    match v
    case Text(_, text) => Utf8.Accepts(text)
    case Nested(isArray, d) => NestedDocument(BsonReader.DocumentBytes(d), depth + 1, isArray)
    case Regex(pattern, options) => CString(pattern) && CString(options)
    case DbPointer(text, _) => Utf8.Accepts(text)
    case CodeWithScope(text, scope) =>
      Utf8.Accepts(text) && NestedDocument(BsonReader.DocumentBytes(scope), depth + 1, false)
    case _ => true
  }

  /** Stored bytes that are sized and validated as a value of their type. */
  predicate GoodBytes(tag: byte, bytes: seq<byte>, depth: nat) {
    && ValueSize(tag, bytes) == |bytes|
    && (bytes == [] ==> HasNoValue(tag))
    && ValidValue(tag, bytes, depth)
  }

  lemma StringIsGood(tag: byte, s: seq<byte>, depth: nat)
    requires IsString(tag) || tag == DBPOINTER
    requires PrefixedSize(s, 4, 1, if tag == DBPOINTER then 16 else 4) == |s| && s != [] && ValidString(s)
    ensures GoodBytes(tag, s, depth)
  {
  }

  lemma CodeWithScopeIsGood(s: seq<byte>, depth: nat)
    requires PrefixedSize(s, 4, 14, 0) == |s| && s != [] && ValidCodeWithScope(s, depth)
    ensures GoodBytes(CODEWSCOPE, s, depth)
  {
  }

  lemma StringBytesParts(text: seq<byte>, rest: seq<byte>)
    requires |text| < UINT32_MAX
    ensures var s := StringBytes(text) + rest;
            && LoadU32(s) == |text| + 1 && s[4..4 + |text|] == text && s[4 + |text|] == 0
            && s[5 + |text|..] == rest
  {
    assert StringBytes(text) + rest == StoreU32(|text| + 1) + (text + [0] + rest);
    LoadStoreU32(|text| + 1, text + [0] + rest);
  }

  /** Where the parts of the values of variable length stand. */
  lemma ValueParts(text: seq<byte>, more: seq<byte>, oid: seq<byte>, subtype: byte)
    requires |text| < INT32_MAX && |oid| == 12
    requires 9 + |text| + |BsonReader.DocumentBytes(more)| <= INT32_MAX && |more| <= INT32_MAX
    ensures var s := ValueBytes(DbPointer(text, oid));
            && LoadU32(s) == |text| + 1 && s[4..4 + |text|] == text && s[4 + |text|] == 0 && s[5 + |text|..] == oid
    ensures Storable(Binary(subtype, more))
    ensures var s := ValueBytes(Binary(subtype, more));
            LoadU32(s) == |more| && s[4] == subtype && s[5..] == more
    ensures CString(text) && CString(more) ==>
              var s := ValueBytes(Regex(text, more));
              && FindZero(s) == |text| && s[..|text|] == text
              && FindZero(s[|text| + 1..]) == |more| && s[|text| + 1..][..|more|] == more && |s| == |text| + |more| + 2
    ensures var s, d := ValueBytes(CodeWithScope(text, more)), BsonReader.DocumentBytes(more);
            && LoadU32(s) == |s| == 9 + |text| + |d| && LoadU32(s[4..]) == |text| + 1
            && s[8..8 + |text|] == text && s[8 + |text|] == 0 && s[9 + |text|..] == d
  {
    hide LoadU32, StoreU32, BsonReader.DocumentBytes;
    StringBytesParts(text, oid);
    LoadStoreU32(|more|, [subtype] + more);
    assert ValueBytes(Binary(subtype, more)) == StoreU32(|more|) + ([subtype] + more);
    if CString(text) && CString(more) {
      RegexParts(text, more);
    }
    ScopeLayout(text, BsonReader.DocumentBytes(more));
  }

  lemma RegexParts(pattern: seq<byte>, options: seq<byte>)
    requires CString(pattern) && CString(options)
    ensures var s := pattern + [0] + options + [0];
            && FindZero(s) == |pattern| && s[..|pattern|] == pattern
            && FindZero(s[|pattern| + 1..]) == |options| && s[|pattern| + 1..][..|options|] == options
  {
    var s := pattern + [0] + options + [0];
    FindZeroAppend(pattern, options + [0]);
    assert s == pattern + [0] + (options + [0]);
    FindZeroAppend(options, []);
    assert s[|pattern| + 1..] == options + [0] + [];
  }

  lemma StringValue(text: seq<byte>, rest: seq<byte>)
    requires |text| < INT32_MAX && Utf8.Accepts(text)
    ensures var s := StringBytes(text) + rest;
            PrefixedSize(s, 4, 1, 4 + |rest|) == |s| && ValidString(s)
  {
    StringBytesParts(text, rest);
    var s := StringBytes(text) + rest;
    assert s[4..3 + LoadU32(s)] == text;
  }

  lemma RegexValue(pattern: seq<byte>, options: seq<byte>, depth: nat)
    requires CString(pattern) && CString(options)
    ensures GoodBytes(REGEX, pattern + [0] + options + [0], depth)
  {
    var s := pattern + [0] + options + [0];
    var rest := options + [0];
    assert s == pattern + [0] + rest;
    FindZeroAppend(pattern, rest);
    assert s[|pattern| + 1..] == rest;
    assert rest == options + [0] + [];
    FindZeroAppend(options, []);
  }

  lemma FixedValue(tag: byte, bytes: seq<byte>, depth: nat)
    requires IsFixed(tag) && |bytes| == FixedWidth(tag)
    ensures KnownTag(tag) && GoodBytes(tag, bytes, depth)
  {
  }

  lemma NestedValue(d: seq<byte>, isArray: bool, depth: nat)
    requires NestedDocument(d, depth + 1, isArray)
    ensures GoodBytes(if isArray then ARRAY else DOCUMENT, d, depth)
  {
  }

  lemma DbPointerValue(text: seq<byte>, oid: seq<byte>, depth: nat)
    requires |text| < INT32_MAX && Utf8.Accepts(text) && |oid| == 12
    ensures GoodBytes(DBPOINTER, StringBytes(text) + oid, depth)
  {
    hide Utf8.Accepts, ValidString, PrefixedSize;
    StringValue(text, oid);
    StringIsGood(DBPOINTER, StringBytes(text) + oid, depth);
  }

  function ScopeBytes(text: seq<byte>, scope: seq<byte>): (s: seq<byte>)
    requires 9 + |text| + |scope| <= INT32_MAX
    ensures |s| == 9 + |text| + |scope|
  {
    StoreU32(9 + |text| + |scope|) + (StringBytes(text) + scope)
  }

  lemma ScopeLayout(text: seq<byte>, scope: seq<byte>)
    requires 9 + |text| + |scope| <= INT32_MAX
    ensures var s := ScopeBytes(text, scope);
            && LoadU32(s) == |s| && LoadU32(s[4..]) == |text| + 1
            && s[8..8 + |text|] == text && s[8 + |text|] == 0 && s[9 + |text|..] == scope
  {
    hide LoadU32, StringBytes;
    var inner := StringBytes(text) + scope;
    var s := ScopeBytes(text, scope);
    LoadStoreU32(9 + |text| + |scope|, inner);
    StringBytesParts(text, scope);
    assert s[4..] == inner;
    SliceOfDrop(s, 4, 4, 4 + |text|);
    DropOfDrop(s, 4, 5 + |text|);
  }

  lemma CodeWithScopeValue(text: seq<byte>, scope: seq<byte>, depth: nat)
    requires Utf8.Accepts(text) && NestedDocument(scope, depth + 1, false)
    requires 9 + |text| + |scope| <= INT32_MAX
    ensures GoodBytes(CODEWSCOPE, ScopeBytes(text, scope), depth)
  {
    hide Utf8.Accepts, GoodBytes, ValidCodeWithScope, ValidRange, StringBytes, ScopeBytes;
    ScopeLayout(text, scope);
    ScopeParts(ScopeBytes(text, scope), text, scope, depth);
    CodeWithScopeIsGood(ScopeBytes(text, scope), depth);
  }

  lemma ScopeParts(s: seq<byte>, text: seq<byte>, scope: seq<byte>, depth: nat)
    requires |s| == 9 + |text| + |scope| <= INT32_MAX
    requires Utf8.Accepts(text) && NestedDocument(scope, depth + 1, false)
    requires LoadU32(s[4..]) == |text| + 1 && s[8..8 + |text|] == text && s[8 + |text|] == 0
    requires s[9 + |text|..] == scope
    ensures ValidCodeWithScope(s, depth)
  {
    assert s[8..7 + LoadU32(s[4..])] == text;
    assert s[8 + LoadU32(s[4..])..] == scope;
  }

  // ----- What the validator takes is what the writer stores -----

  /** A text the checker accepts, stored behind its length, and what follows it. */
  predicate StoresText(value: seq<byte>, text: seq<byte>, rest: seq<byte>) {
    Utf8.Accepts(text) && |text| < INT32_MAX && value == StringBytes(text) + rest
  }

  predicate StoresScope(value: seq<byte>, text: seq<byte>, scope: seq<byte>, depth: nat) {
    && Utf8.Accepts(text) && 9 + |text| + |scope| <= INT32_MAX
    && NestedDocument(scope, depth + 1, false) && value == ScopeBytes(text, scope)
  }

  /** A string behind its length is valid exactly when it is a stored text that the checker accepts. */
  lemma StringExactly(value: seq<byte>, extra: nat)
    requires 4 <= |value| && LoadU32(value) <= INT32_MAX && |value| == 4 + LoadU32(value) + extra
    ensures ValidString(value) <==> exists text, rest :: |rest| == extra && StoresText(value, text, rest)
  {
    hide LoadU32, StoreU32, Utf8.Accepts, StringBytes;
    if ValidString(value) {
      var n := LoadU32(value);
      var text, rest := value[4..3 + n], value[4 + n..];
      StringBytesAre(value, text, rest);
      assert StoresText(value, text, rest);
    }
    if text, rest :| |rest| == extra && StoresText(value, text, rest) {
      StringValue(text, rest);
    }
  }

  lemma StringBytesAre(value: seq<byte>, text: seq<byte>, rest: seq<byte>)
    requires 4 <= |value| && 1 <= LoadU32(value) <= INT32_MAX && 4 + LoadU32(value) <= |value|
    requires value[3 + LoadU32(value)] == 0 && text == value[4..3 + LoadU32(value)]
    requires rest == value[4 + LoadU32(value)..]
    ensures |text| < INT32_MAX && value == StringBytes(text) + rest
  {
    StoreLoadU32(value);
    hide LoadU32, StoreU32;
    CutAt(value, 3 + LoadU32(value));
  }

  lemma CutAt(s: seq<byte>, k: nat)
    requires 4 <= k < |s|
    ensures s == s[..4] + s[4..k] + [s[k]] + s[k + 1..]
  {
  }

  /** The rules for the values of strings, pointers and code with scope; all other sized scalars are valid. */
  lemma ValuesExactly(tag: byte, value: seq<byte>, depth: nat)
    requires ValueSize(tag, value) == |value| && value != []
    ensures IsString(tag) ==>
              (ValidValue(tag, value, depth) <==> exists text, rest :: |rest| == 0 && StoresText(value, text, rest))
    ensures tag == DBPOINTER ==>
              (ValidValue(tag, value, depth) <==> exists text, oid :: |oid| == 12 && StoresText(value, text, oid))
    ensures tag == DOCUMENT || tag == ARRAY ==>
              (ValidValue(tag, value, depth) <==> NestedDocument(value, depth + 1, tag == ARRAY))
    ensures !IsString(tag) && tag !in {DBPOINTER, DOCUMENT, ARRAY, CODEWSCOPE} ==> ValidValue(tag, value, depth)
  {
    hide LoadU32, ValidString, ValidRange, StringBytes, Utf8.Accepts, RegexSize;
    if IsString(tag) {
      StringExactly(value, 0);
    } else if tag == DBPOINTER {
      StringExactly(value, 12);
    }
  }

  /** Code with scope: a stored text the checker accepts, then a scope one level deeper, lengths exact. */
  lemma CodeWithScopeExactly(value: seq<byte>, depth: nat)
    requires ValueSize(CODEWSCOPE, value) == |value| && value != []
    ensures ValidValue(CODEWSCOPE, value, depth) <==> exists text, scope :: StoresScope(value, text, scope, depth)
  {
    hide LoadU32, StoreU32, ValidRange, StringBytes, Utf8.Accepts;
    if ValidCodeWithScope(value, depth) {
      var inner := value[4..];
      var n := LoadU32(inner);
      var text, scope := inner[4..3 + n], inner[4 + n..];
      SliceOfDrop(value, 4, 4, 3 + n);
      DropOfDrop(value, 4, 4 + n);
      StringBytesAre(inner, text, scope);
      StoreLoadU32(value);
      assert value == value[..4] + inner;
      assert StoresScope(value, text, scope, depth);
    }
    if text, scope :| StoresScope(value, text, scope, depth) {
      ScopeLayout(text, scope);
      ScopeParts(value, text, scope, depth);
    }
  }

  lemma BinaryValue(subtype: byte, bytes: seq<byte>, depth: nat)
    requires |bytes| + 5 <= INT32_MAX
    ensures GoodBytes(BINARY, StoreU32(|bytes|) + [subtype] + bytes, depth)
  {
    var s := StoreU32(|bytes|) + [subtype] + bytes;
    assert s == StoreU32(|bytes|) + ([subtype] + bytes);
    LoadStoreU32(|bytes|, [subtype] + bytes);
  }

  lemma TextValue(tag: byte, text: seq<byte>, depth: nat)
    requires IsString(tag) && |text| < INT32_MAX && Utf8.Accepts(text)
    ensures GoodBytes(tag, StringBytes(text), depth)
  {
    hide Utf8.Accepts, ValidString, PrefixedSize;
    var s := StringBytes(text);
    assert s + [] == s;
    StringValue(text, []);
    StringIsGood(tag, s, depth);
  }

  /** A sound value is stored as bytes that are sized and validated as such a value. */
  lemma ValueIsValid(v: Value, depth: nat)
    requires Storable(v) && Sound(v, depth)
    requires |ValueBytes(v)| <= INT32_MAX
    ensures KnownTag(TagOf(v)) && GoodBytes(TagOf(v), ValueBytes(v), depth)
  {
    hide Utf8.Accepts, GoodBytes, NestedDocument, StringBytes, ScopeBytes;
    match v
    case Fixed(tag, bytes) => FixedValue(tag, bytes, depth);
    case Text(tag, text) => TextValue(tag, text, depth);
    case Nested(isArray, d) => NestedValue(BsonReader.DocumentBytes(d), isArray, depth);
    case Binary(subtype, bytes) => BinaryValue(subtype, bytes, depth);
    case Regex(pattern, options) => RegexValue(pattern, options, depth);
    case DbPointer(text, oid) => DbPointerValue(text, oid, depth);
    case CodeWithScope(text, scope) => CodeWithScopeValue(text, BsonReader.DocumentBytes(scope), depth);
  }

  // ----- Appends keep documents valid -----

  /** A handle whose document is valid at some nesting depth. */
  predicate ValidHandle(bson: seq<byte>, depth: nat, isArray: bool) {
    bson == [] || (LoadableLength(bson) && ValidRange(bson, depth, isArray))
  }

  predicate LoadableLength(bson: seq<byte>) {
    EMPTY_DOCUMENT_SIZE <= |bson| <= UINT32_MAX && LoadU32(bson) == |bson|
  }

  function HandleElements(bson: seq<byte>): seq<Element> {
    DocumentElements(BsonReader.DocumentBytes(bson))
  }

  lemma HandleDetermined(bson: seq<byte>, depth: nat, isArray: bool)
    requires ValidHandle(bson, depth, isArray)
    ensures var es := HandleElements(bson);
            && ValidElements(es, depth, isArray, 0) && DocumentSize(es) <= UINT32_MAX
            && Body(bson) == EncodeElements(es)
  {
    if bson != [] {
      ValidRangeDetermined(bson, depth, isArray);
    }
  }

  lemma AppendedIsEncoding(bson: seq<byte>, es: seq<Element>, e: Element)
    requires bson == [] || EMPTY_DOCUMENT_SIZE <= |bson|
    requires Body(bson) == EncodeElements(es) && SizeWith(bson, e) <= INT32_MAX
    ensures DocumentSize(es + [e]) == SizeWith(bson, e)
    ensures Appended(bson, e) == EncodeDocument(es + [e])
  {
    EncodeElementsSnoc(es, e);
    ConcatAssoc(StoreU32(SizeWith(bson, e)), EncodeElements(es), EncodeElement(e));
  }

  lemma ValidElementsSnoc(es: seq<Element>, e: Element, depth: nat, isArray: bool)
    requires ValidElements(es, depth, isArray, 0)
    requires Readable(e) && ValidElement(e, depth, isArray, |es|)
    ensures ValidElements(es + [e], depth, isArray, 0)
  {
    var all := es + [e];
    forall i | 0 <= i < |all| ensures Readable(all[i]) && ValidElement(all[i], depth, isArray, 0 + i) {
      assert i < |es| ==> all[i] == es[i] && ValidElement(es[i], depth, isArray, 0 + i);
    }
  }

  /**
   * Appending a valid element to a valid document gives a valid document whose elements are the
   * old ones and the new one.
   */
  lemma AppendKeepsValid(bson: seq<byte>, e: Element, depth: nat, isArray: bool)
    requires ValidHandle(bson, depth, isArray) && depth <= MAX_DEPTH
    requires Readable(e) && ValidElement(e, depth, isArray, |HandleElements(bson)|)
    requires SizeWith(bson, e) <= INT32_MAX
    ensures var d := Appended(bson, e);
            && LoadableLength(d) && ValidRange(d, depth, isArray)
            && DocumentElements(d) == HandleElements(bson) + [e]
  {
    HandleDetermined(bson, depth, isArray);
    var es := HandleElements(bson);
    AppendedIsEncoding(bson, es, e);
    ValidElementsSnoc(es, e, depth, isArray);
    EncodedDocumentParts(es + [e]);
    EncodingIsValidRange(es + [e], depth, isArray);
  }

  /** The typed form: every typed append of a sound value keeps a top-level document valid. */
  lemma TypedAppendKeepsValid(bson: seq<byte>, key: seq<byte>, v: Value)
    requires ValidHandle(bson, 0, false)
    requires CString(key) && GoodKey(key) && Storable(v) && Sound(v, 0)
    requires SizeWith(bson, Element(TagOf(v), key, ValueBytes(v))) <= INT32_MAX
    ensures var e := Element(TagOf(v), key, ValueBytes(v));
            ValidDocument(Appended(bson, e)) && DocumentElements(Appended(bson, e)) == HandleElements(bson) + [e]
  {
    ValueIsValid(v, 0);
    AppendKeepsValid(bson, Element(TagOf(v), key, ValueBytes(v)), 0, false);
  }

  lemma {:induction false} DecimalIsGoodKey(n: nat)
    ensures CString(Decimal(n)) && GoodKey(Decimal(n))
    ensures forall i :: 0 <= i < |Decimal(n)| ==> 48 <= Decimal(n)[i] <= 57
  {
    var d := Decimal(n);
    if n >= 10 {
      DecimalIsGoodKey(n / 10);
    }
    DigitsAreGood(d);
  }

  lemma {:induction false} DigitsAreGood(d: seq<byte>)
    requires forall i :: 0 <= i < |d| ==> 48 <= d[i] <= 57
    ensures CString(d) && Utf8.Accepts(d)
  {
    if d != [] {
      assert Utf8.SequenceLength(d) == 1;
      DigitsAreGood(d[1..]);
    }
  }

  /** An array append under the count of the existing keys keeps the array valid. */
  lemma ArrayAppendKeepsValid(arr: seq<byte>, v: Value, depth: nat)
    requires ValidHandle(arr, depth, true) && depth <= MAX_DEPTH
    requires Storable(v) && Sound(v, depth)
    requires SizeWith(arr, Element(TagOf(v), Decimal(|HandleElements(arr)|), ValueBytes(v))) <= INT32_MAX
    ensures var e := Element(TagOf(v), Decimal(|HandleElements(arr)|), ValueBytes(v));
            && LoadableLength(Appended(arr, e)) && ValidRange(Appended(arr, e), depth, true)
            && DocumentElements(Appended(arr, e)) == HandleElements(arr) + [e]
  {
    ValueIsValid(v, depth);
    DecimalIsGoodKey(|HandleElements(arr)|);
    AppendKeepsValid(arr, Element(TagOf(v), Decimal(|HandleElements(arr)|), ValueBytes(v)), depth, true);
  }

  // ----- The buffer -----

  /** How the writes of new bytes, terminator and length prefix come out together. */
  lemma ThreeWrites(full: seq<byte>, at: nat, bytes: seq<byte>, end: nat, prefix: seq<byte>, now: seq<byte>)
    requires |prefix| == 4 <= at && at + |bytes| <= end < |full|
    requires now == WriteAt(WriteAt(full, at, bytes)[end := EOD], 0, prefix)
    ensures now[..at + |bytes|] == prefix + full[4..at] + bytes
    ensures now[end] == EOD
  {
    var first := WriteAt(full, at, bytes);
    assert first[4..at] == full[4..at] && first[at..at + |bytes|] == bytes;
    var second := first[end := EOD];
    assert second[4..at + |bytes|] == first[4..at + |bytes|];
    assert now[4..at + |bytes|] == second[4..at + |bytes|];
    assert first[4..at + |bytes|] == full[4..at] + bytes;
  }

  class BsonBuffer {
    var data: array<byte>  // its length is the capacity
    var length: nat
    var isStatic: bool

    ghost predicate Valid()
      reads this
    {
      length <= data.Length && (length == 0 || EMPTY_DOCUMENT_SIZE <= length)
    }

    /** The document handle held: empty until the first append. */
    ghost function Contents(): (bson: seq<byte>)
      requires Valid()
      reads this, data
      ensures bson == [] || EMPTY_DOCUMENT_SIZE <= |bson|
    {
      data[..length]
    }

    constructor ()
      ensures Valid() && fresh(data) && Contents() == [] && !isStatic
    {
      data := new byte[0];
      length, isStatic := 0, false;
    }

    /** Room for `required` bytes, by doubling; the contents stay. */
    method ReserveTo(required: nat) returns (ok: bool)
      requires Valid()
      modifies this
      ensures Valid() && length == old(length) && isStatic == old(isStatic)
      ensures data == old(data) || fresh(data)
      ensures Contents() == old(Contents())
      ensures ok <==> !isStatic && required <= INT32_MAX
      ensures ok ==> required <= data.Length
    {
      if isStatic || required > INT32_MAX {
        return false;
      }
      if required <= data.Length {
        return true;
      }
      var capacity := if data.Length != 0 then data.Length else INITIAL_CAPACITY;
      while capacity < required
        invariant 0 < capacity && data.Length <= capacity
        decreases required - capacity
      {
        capacity := capacity * 2;
      }
      var grown := new byte[capacity];
      forall i | 0 <= i < data.Length {
        grown[i] := data[i];
      }
      data := grown;
      return true;
    }

    /** memcpy into the buffer, which is owned and large enough. */
    method CopyIn(at: nat, bytes: seq<byte>)
      requires at + |bytes| <= data.Length
      modifies data
      ensures data[..] == WriteAt(old(data[..]), at, bytes)
    {
      forall i | 0 <= i < |bytes| {
        data[at + i] := bytes[i];
      }
    }

    /** New bytes at `at`, the terminator at `end`, and the length prefix to match. */
    method PutElement(at: nat, bytes: seq<byte>, end: nat)
      requires 4 <= at && at + |bytes| <= end < data.Length && end < INT32_MAX
      modifies this`length, data
      ensures length == end + 1
      ensures data[..at + |bytes|] == StoreU32(end + 1) + old(data[4..at]) + bytes
      ensures data[end] == EOD
    {
      ghost var full := data[..];
      CopyIn(at, bytes);
      data[end] := EOD;
      length := end + 1;
      CopyIn(0, StoreU32(end + 1));
      ThreeWrites(full, at, bytes, end, StoreU32(end + 1), data[..]);
      assert data[..at + |bytes|] == data[..][..at + |bytes|];
    }

    /**
     * Writes type, key and the new terminator, and the new total length; the value's bytes, from
     * `at` on, are left for the caller to fill in.
     */
    method AppendValueBegin(key: seq<byte>, tag: byte, valueLength: nat) returns (ok: bool, at: nat)
      requires Valid() && CString(key)
      modifies this, data
      ensures Valid() && isStatic == old(isStatic)
      ensures data == old(data) || fresh(data)
      ensures var size := EMPTY_DOCUMENT_SIZE + |Body(old(Contents()))| + 2 + |key| + valueLength;
              && (ok <==> GoodKey(key) && !isStatic && size <= INT32_MAX)
              && (ok ==> length == size && at + valueLength + 1 == size
                         && data[..at] == StoreU32(size) + Body(old(Contents())) + ([tag] + key + [0])
                         && data[length - 1] == EOD)
      ensures !ok ==> Contents() == old(Contents())
    {
      hide Utf8.Accepts, StoreU32;
      at := 0;
      if key == [] {
        return false, 0;
      }
      var keyOk := Utf8.Validate(key);
      if !keyOk {
        return false, 0;
      }
      var typePosition := if length == 0 then 4 else length - 1;
      var newLength := typePosition + 1 + |key| + 1 + valueLength + 1;
      if newLength > INT32_MAX {
        return false, 0;
      }
      ghost var was := Contents();
      ok := ReserveTo(newLength);
      if !ok {
        return false, 0;
      }
      assert data[4..typePosition] == Body(was);
      at := typePosition + 1 + |key| + 1;
      PutElement(typePosition, [tag] + key + [0], at + valueLength);
    }

    /** Begins an element and fills its value in. */
    method AppendElement(tag: byte, key: seq<byte>, value: seq<byte>) returns (ok: bool)
      requires Valid() && CString(key)
      modifies this, data
      ensures Valid() && isStatic == old(isStatic)
      ensures data == old(data) || fresh(data)
      ensures ok <==> GoodKey(key) && !isStatic && SizeWith(old(Contents()), Element(tag, key, value)) <= INT32_MAX
      ensures Contents() == if ok then Appended(old(Contents()), Element(tag, key, value)) else old(Contents())
    {
      hide Utf8.Accepts, StoreU32;
      ghost var was := Contents();
      var at;
      ok, at := AppendValueBegin(key, tag, |value|);
      if ok {
        ghost var head := data[..at];
        CopyIn(at, value);
        assert data[..length] == head + value + [EOD];
        ghost var size := SizeWith(was, Element(tag, key, value));
        assert head + value == StoreU32(size) + Body(was) + EncodeElement(Element(tag, key, value)) by {
          ConcatAssoc(StoreU32(size) + Body(was), [tag] + key + [0], value);
        }
      }
    }

    /** The typed appends. */
    method Append(key: seq<byte>, v: Value) returns (ok: bool)
      requires Valid() && CString(key)
      modifies this, data
      ensures Valid() && isStatic == old(isStatic)
      ensures data == old(data) || fresh(data)
      ensures ok <==> Storable(v) && GoodKey(key) && !isStatic
                      && SizeWith(old(Contents()), Element(TagOf(v), key, ValueBytes(v))) <= INT32_MAX
      ensures Contents() == if ok then Appended(old(Contents()), Element(TagOf(v), key, ValueBytes(v)))
                            else old(Contents())
    {
      if !Storable(v) {
        return false;
      }
      ok := AppendElement(TagOf(v), key, ValueBytes(v));
    }

    /** Copies the element an iterator stands on. */
    method AppendIterator(it: BsonReader.BsonIterator) returns (ok: bool)
      requires Valid() && it.Valid() && it.tag != EOD && CString(it.key)
      requires it as object != this && it as object != data
      modifies this, data
      ensures Valid() && isStatic == old(isStatic)
      ensures data == old(data) || fresh(data)
      ensures var e := it.Current();
              && (ok <==> GoodKey(e.key) && !isStatic && SizeWith(old(Contents()), e) <= INT32_MAX)
              && Contents() == if ok then Appended(old(Contents()), e) else old(Contents())
    {
      ok := AppendElement(it.tag, it.key, it.Value());
    }

    /** Opens a nested document or array: an element without its value yet. */
    method AppendNestedBegin(key: seq<byte>, tag: byte) returns (ok: bool, child: BsonBuffer)
      requires Valid() && CString(key)
      modifies this, data
      ensures Valid() && isStatic == old(isStatic)
      ensures data == old(data) || fresh(data)
      ensures fresh(child) && child.Valid() && child.Contents() == [] && !child.isStatic && fresh(child.data)
      ensures child.data != data
      ensures ok <==> GoodKey(key) && !isStatic && SizeWith(old(Contents()), Element(tag, key, [])) <= INT32_MAX
      ensures Contents() == if ok then Appended(old(Contents()), Element(tag, key, [])) else old(Contents())
    {
      ok := AppendElement(tag, key, []);
      child := new BsonBuffer();
    }

    /** Closes it: the child's bytes go in front of the parent's terminator. */
    method AppendNestedEnd(child: BsonBuffer) returns (ok: bool)
      requires Valid() && length != 0 && child.Valid()
      requires child != this && child.data != data
      modifies this, data, child
      ensures Valid() && isStatic == old(isStatic) && child.Valid() && child.length == 0
      ensures data == old(data) || fresh(data)
      ensures var nested := BsonReader.DocumentBytes(old(child.Contents()));
              && (ok <==> !isStatic && |old(Contents())| + |nested| <= INT32_MAX)
              && Contents() == if ok then Extended(old(Contents()), nested) else old(Contents())
    {
      hide BsonReader.DocumentBytes, StoreU32, Extended;
      var nested := BsonReader.DocumentBytes(child.data[..child.length]);
      child.length := 0;
      if isStatic || length + |nested| > INT32_MAX {
        return false;
      }
      ghost var was := Contents();
      var newLength := length + |nested|;
      ok := ReserveTo(newLength);
      assert data[4..|was| - 1] == was[4..|was| - 1];
      PutElement(length - 1, nested, newLength - 1);
      ExtendedIs(was, nested, data[..length]);
    }

    /** The array appends: the key is the number of elements so far. */
    method AppendToArray(v: Value) returns (ok: bool)
      requires Valid()
      modifies this, data
      ensures Valid() && isStatic == old(isStatic)
      ensures data == old(data) || fresh(data)
      ensures var key := Decimal(|HandleElements(old(Contents()))|);
              && (ok <==> Storable(v) && !isStatic
                          && SizeWith(old(Contents()), Element(TagOf(v), key, ValueBytes(v))) <= INT32_MAX)
              && Contents() == if ok then Appended(old(Contents()), Element(TagOf(v), key, ValueBytes(v)))
                               else old(Contents())
    {
      var index := BsonReader.CountKeys(data[..length]);
      DecimalIsGoodKey(index);
      ok := Append(Decimal(index), v);
    }
  }
}
