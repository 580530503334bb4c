/** Which byte strings `String::from_utf8` accepts. */
module Utf8 {
  type byte = b: int | 0 <= b < 256

  predicate Continues(s: seq<byte>, i: nat) {
    i < |s| && 0x80 <= s[i] <= 0xBF
  }

  /** The length of the well-formed UTF-8 sequence that `s` begins with, 0 if there is none (section 4 of RFC 3629). */
  function SequenceLength(s: seq<byte>): (n: nat)
    requires s != []
    ensures n <= |s|
  {
    var b := s[0];
    if b < 0x80 then 1
    else if 0xC2 <= b <= 0xDF && Continues(s, 1) then 2
    else if 0xE0 <= b <= 0xEF && Continues(s, 1) && Continues(s, 2)
            && (b == 0xE0 ==> s[1] >= 0xA0) && (b == 0xED ==> s[1] <= 0x9F) then 3
    else if 0xF0 <= b <= 0xF4 && Continues(s, 1) && Continues(s, 2) && Continues(s, 3)
            && (b == 0xF0 ==> s[1] >= 0x90) && (b == 0xF4 ==> s[1] <= 0x8F) then 4
    else 0
  }

  predicate ValidUtf8(s: seq<byte>) {
    s == [] || (SequenceLength(s) > 0 && ValidUtf8(s[SequenceLength(s)..]))
  }

  // ----- Valid means: some text encodes to it -----

  /** A Unicode scalar value: a code point that is no surrogate. */
  predicate Scalar(c: int) {
    0 <= c < 0xD800 || 0xE000 <= c <= 0x10FFFF
  }

  /** The UTF-8 encoding of one scalar value (section 3 of RFC 3629). */
  function Encoded(c: int): seq<byte>
    requires Scalar(c)
  {
    if c < 0x80 then [c]
    else if c < 0x800 then [0xC0 + c / 64, 0x80 + c % 64]
    else if c < 0x10000 then [0xE0 + c / 64 / 64, 0x80 + c / 64 % 64, 0x80 + c % 64]
    else [0xF0 + c / 64 / 64 / 64, 0x80 + c / 64 / 64 % 64, 0x80 + c / 64 % 64, 0x80 + c % 64]
  }

  predicate Scalars(cs: seq<int>) {
    forall i :: 0 <= i < |cs| ==> Scalar(cs[i])
  }

  function Encoding(cs: seq<int>): seq<byte>
    requires Scalars(cs)
  {
    if cs == [] then [] else Encoded(cs[0]) + Encoding(cs[1..])
  }

  /** Six low bits behind the others. */
  function Behind(hi: nat, lo: nat): nat {
    64 * hi + lo
  }

  lemma SixBits(hi: nat, lo: nat)
    requires lo < 64
    ensures Behind(hi, lo) / 64 == hi && Behind(hi, lo) % 64 == lo
  {
  }

  lemma EncodedIsSequence(c: int, rest: seq<byte>)
    requires Scalar(c)
    ensures SequenceLength(Encoded(c) + rest) == |Encoded(c)|
  {
  }

  lemma TwoBytes(s: seq<byte>) returns (c: int)
    requires s != [] && SequenceLength(s) == 2
    ensures Scalar(c) && Encoded(c) == s[..2]
  {
    SixBits(s[0] - 0xC0, s[1] - 0x80);
    c := Behind(s[0] - 0xC0, s[1] - 0x80);
  }

  lemma ThreeBytes(s: seq<byte>) returns (c: int)
    requires s != [] && SequenceLength(s) == 3
    ensures Scalar(c) && Encoded(c) == s[..3]
  {
    var hi := Behind(s[0] - 0xE0, s[1] - 0x80);
    SixBits(s[0] - 0xE0, s[1] - 0x80);
    SixBits(hi, s[2] - 0x80);
    c := Behind(hi, s[2] - 0x80);
  }

  lemma FourBytes(s: seq<byte>) returns (c: int)
    requires s != [] && SequenceLength(s) == 4
    ensures Scalar(c) && Encoded(c) == s[..4]
  {
    var top := Behind(s[0] - 0xF0, s[1] - 0x80);
    var hi := Behind(top, s[2] - 0x80);
    SixBits(s[0] - 0xF0, s[1] - 0x80);
    SixBits(top, s[2] - 0x80);
    SixBits(hi, s[3] - 0x80);
    c := Behind(hi, s[3] - 0x80);
  }

  /** The scalar value that a well-formed sequence stands for. */
  lemma SequenceIsEncoded(s: seq<byte>, n: nat) returns (c: int)
    requires s != [] && n == SequenceLength(s) > 0
    ensures Scalar(c) && Encoded(c) == s[..n]
  {
    if n == 1 {
      c := s[0];
    } else if n == 2 {
      c := TwoBytes(s);
    } else if n == 3 {
      c := ThreeBytes(s);
    } else {
      c := FourBytes(s);
    }
  }

  lemma EncodingBehind(c: int, cs: seq<int>)
    requires Scalar(c) && Scalars(cs)
    ensures Scalars([c] + cs) && Encoding([c] + cs) == Encoded(c) + Encoding(cs)
  {
    assert ([c] + cs)[1..] == cs;
  }

  lemma {:induction false} EncodingIsValid(cs: seq<int>)
    requires Scalars(cs)
    ensures ValidUtf8(Encoding(cs))
  {
    if cs != [] {
      var first, rest := Encoded(cs[0]), Encoding(cs[1..]);
      EncodingIsValid(cs[1..]);
      EncodedIsSequence(cs[0], rest);
      assert (first + rest)[|first|..] == rest;
    }
  }

  lemma {:induction false} ValidIsEncoding(s: seq<byte>) returns (cs: seq<int>)
    requires ValidUtf8(s)
    ensures Scalars(cs) && Encoding(cs) == s
  {
    cs := [];
    if s != [] {
      var n := SequenceLength(s);
      var c := SequenceIsEncoded(s, n);
      var rest := ValidIsEncoding(s[n..]);
      EncodingBehind(c, rest);
      cs := [c] + rest;
      assert s == s[..n] + s[n..];
    }
  }

  /** The scanner accepts exactly the encodings of sequences of scalar values. */
  lemma ValidIffEncoding(s: seq<byte>)
    ensures ValidUtf8(s) <==> exists cs :: Scalars(cs) && Encoding(cs) == s
  {
    if ValidUtf8(s) {
      var cs := ValidIsEncoding(s);
    }
    forall cs | Scalars(cs) && Encoding(cs) == s ensures ValidUtf8(s) {
      EncodingIsValid(cs);
    }
  }
}
