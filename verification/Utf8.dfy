/** The UTF-8 checker applied to every key and string of a document. */
module Utf8 {
  import opened Bytes

  // ----- The checker -----

  /** `(b & 0xC0) == 0x80` */
  predicate Continuation(b: byte) { b / 0x40 == 2 }

  /** The length of the sequence the checker accepts at the head of `s`; 0 where it rejects. */
  function SequenceLength(s: seq<byte>): (n: nat)
    requires s != []
    ensures n <= |s|
  {
    var c := s[0];
    if c <= 0x7F then 1
    else if 0xC2 <= c <= 0xDF then
      if 2 <= |s| && Continuation(s[1]) then 2 else 0
    else if c == 0xE0 then
      if 3 <= |s| && s[1] / 0x20 == 5 && Continuation(s[2]) then 3 else 0
    else if 0xE1 <= c <= 0xEC || 0xEE <= c <= 0xEF then
      if 3 <= |s| && Continuation(s[1]) && Continuation(s[2]) then 3 else 0
    else if c == 0xED then
      if 3 <= |s| && s[1] / 0x20 == 4 && Continuation(s[2]) then 3 else 0
    else if c == 0xF0 then
      if 4 <= |s| && s[1] / 0x10 == 9 && Continuation(s[2]) && Continuation(s[3]) then 4 else 0
    else if 0xF1 <= c <= 0xF3 then
      if 4 <= |s| && Continuation(s[1]) && Continuation(s[2]) && Continuation(s[3]) then 4 else 0
    else if c == 0xF4 then
      if 4 <= |s| && s[1] / 0x10 == 8 && Continuation(s[2]) && Continuation(s[3]) then 4 else 0
    else 0
  }

  predicate Accepts(s: seq<byte>) {
    s == [] || (SequenceLength(s) != 0 && Accepts(s[SequenceLength(s)..]))
  }

  method Validate(data: seq<byte>) returns (ok: bool)
    ensures ok == Accepts(data)
  {
    var i := 0;
    while i < |data|
      invariant 0 <= i <= |data|
      invariant Accepts(data) == Accepts(data[i..])
    {
      var n := SequenceLength(data[i..]);
      if n == 0 {
        return false;
      }
      assert data[i..][n..] == data[i + n..];
      i := i + n;
    }
    return true;
  }

  // ----- Section 3 of RFC 3629: the encoding of a Unicode scalar value -----

  predicate Scalar(cp: nat) { cp <= 0xD7FF || 0xE000 <= cp <= 0x10FFFF }

  function EncodeScalar(cp: nat): (s: seq<byte>)
    requires Scalar(cp)
    ensures s != []
  {
    if cp <= 0x7F then [cp]
    else if cp <= 0x7FF then [0xC0 + cp / 0x40, 0x80 + cp % 0x40]
    else if cp <= 0xFFFF then [0xE0 + cp / 0x40 / 0x40, 0x80 + cp / 0x40 % 0x40, 0x80 + cp % 0x40]
    else [0xF0 + cp / 0x40 / 0x40 / 0x40, 0x80 + cp / 0x40 / 0x40 % 0x40, 0x80 + cp / 0x40 % 0x40, 0x80 + cp % 0x40]
  }

  predicate Text(cps: seq<nat>) { forall i :: 0 <= i < |cps| ==> Scalar(cps[i]) }

  function EncodeText(cps: seq<nat>): seq<byte>
    requires Text(cps)
  {
    if cps == [] then [] else EncodeScalar(cps[0]) + EncodeText(cps[1..])
  }

  /** The scalar values the checker refuses: those with lead byte F0 and second byte A0 to BF. */
  predicate Refused(cp: nat) { 0x2_0000 <= cp <= 0x3_FFFF }

  // ----- The checker against the standard -----

  lemma SequenceLengthOfScalar(cp: nat, rest: seq<byte>)
    requires Scalar(cp)
    ensures SequenceLength(EncodeScalar(cp) + rest) == if Refused(cp) then 0 else |EncodeScalar(cp)|
  {
    var e := EncodeScalar(cp);
    var s := e + rest;
    assert s[0] == e[0] && (|e| > 1 ==> s[1] == e[1]) && (|e| > 2 ==> s[2] == e[2]) && (|e| > 3 ==> s[3] == e[3]);
    var q1 := cp / 0x40;
    var q2 := q1 / 0x40;
    var q3 := q2 / 0x40;
  }

  /** `high` with the six payload bits of a continuation byte appended. */
  function Join(high: nat, b: byte): (cp: nat)
    requires Continuation(b)
    ensures cp / 0x40 == high && cp % 0x40 == b - 0x80
  {
    high * 0x40 + (b as int - 0x80)
  }

  /** The scalar value encoded at the head of `s`. */
  function HeadScalar(s: seq<byte>): (cp: nat)
    requires s != [] && SequenceLength(s) != 0
    ensures Scalar(cp) && !Refused(cp)
    ensures EncodeScalar(cp) == s[..SequenceLength(s)]
  {
    var n := SequenceLength(s);
    if n == 1 then s[0]
    else if n == 2 then Join(s[0] as int - 0xC0, s[1])
    else if n == 3 then Join(Join(s[0] as int - 0xE0, s[1]), s[2])
    else Join(Join(Join(s[0] as int - 0xF0, s[1]), s[2]), s[3])
  }

  function DecodeText(s: seq<byte>): (cps: seq<nat>)
    requires Accepts(s)
    ensures Text(cps) && forall i :: 0 <= i < |cps| ==> !Refused(cps[i])
    ensures EncodeText(cps) == s
  {
    if s == [] then []
    else
      var n := SequenceLength(s);
      assert s == s[..n] + s[n..];
      [HeadScalar(s)] + DecodeText(s[n..])
  }

  /** Of the well-formed texts the checker accepts exactly those without a refused scalar value. */
  lemma {:induction false} AcceptsText(cps: seq<nat>)
    requires Text(cps)
    ensures Accepts(EncodeText(cps)) <==> forall i :: 0 <= i < |cps| ==> !Refused(cps[i])
  {
    if cps != [] {
      var s, head := EncodeText(cps), EncodeScalar(cps[0]);
      SequenceLengthOfScalar(cps[0], EncodeText(cps[1..]));
      assert s[|head|..] == EncodeText(cps[1..]);
      AcceptsText(cps[1..]);
      assert forall i :: 1 <= i < |cps| ==> cps[i] == cps[1..][i - 1];
    }
  }

  /** The accepted byte strings are the well-formed texts without a refused scalar value. */
  lemma AcceptsExactly(s: seq<byte>)
    ensures Accepts(s) <==>
            exists cps :: Text(cps) && (forall i :: 0 <= i < |cps| ==> !Refused(cps[i])) && EncodeText(cps) == s
  {
    if Accepts(s) {
      var cps := DecodeText(s);
      assert Text(cps) && EncodeText(cps) == s;
    } else {
      forall cps | Text(cps) && EncodeText(cps) == s
        ensures exists i :: 0 <= i < |cps| && Refused(cps[i])
      {
        AcceptsText(cps);
      }
    }
  }

  /** Well-formed text that is refused: the one character U+20000. */
  lemma RefusesWellFormed()
    ensures Text([0x2_0000]) && !Accepts(EncodeText([0x2_0000]))
  {
    AcceptsText([0x2_0000]);
    assert Refused([0x2_0000][0]);
  }
}
