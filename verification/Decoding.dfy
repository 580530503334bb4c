/** Percent and form decoding of query strings and bodies, on bytes. */
module Decoding {
  import opened Lists
  import opened Utf8

  const PERCENT: byte := 0x25
  const PLUS: byte := 0x2B
  const SPACE: byte := 0x20
  const AMPERSAND: byte := 0x26
  const EQUALS: byte := 0x3D

  predicate IsHex(b: byte) {
    0x30 <= b <= 0x39 || 0x41 <= b <= 0x46 || 0x61 <= b <= 0x66
  }

  function HexValue(b: byte): (v: nat)
    requires IsHex(b)
    ensures v < 16
  {
    if b <= 0x39 then b - 0x30 else if b <= 0x46 then b - 0x41 + 10 else b - 0x61 + 10
  }

  function Octet(hi: byte, lo: byte): byte
    requires IsHex(hi) && IsHex(lo)
  {
    16 * HexValue(hi) + HexValue(lo)
  }

  predicate StartsEscape(s: seq<byte>) {
    |s| > 2 && s[0] == PERCENT && IsHex(s[1]) && IsHex(s[2])
  }

  function Unplus(b: byte): byte {
    if b == PLUS then SPACE else b
  }

  /** One byte per token: an escape, a plus, or any other byte as it stands. */
  function Decode(s: seq<byte>): seq<byte> {
    if s == [] then []
    else if StartsEscape(s) then [Octet(s[1], s[2])] + Decode(s[3..])
    else [Unplus(s[0])] + Decode(s[1..])
  }

  /** `String::from_utf8`, with the library's lossy replacement behind it. */
  function ToText(s: seq<byte>, lossy: seq<byte> -> seq<byte>): seq<byte> {
    if ValidUtf8(s) then s else lossy(s)
  }

  method PercentDecode(s: seq<byte>, lossy: seq<byte> -> seq<byte>) returns (text: seq<byte>)
    ensures text == if ValidUtf8(Decode(s)) then Decode(s) else lossy(Decode(s))
  {
    var bytes := seq(|s|, j requires 0 <= j < |s| => Unplus(s[j]));
    var out: seq<byte> := [];
    var i := 0;
    assert s[0..] == s;
    while i < |bytes|
      invariant 0 <= i <= |s| == |bytes|
      invariant out + Decode(s[i..]) == Decode(s)
    {
      DecodeStep(s, i);
      if bytes[i] == PERCENT && i + 2 < |bytes| && IsHex(bytes[i + 1]) && IsHex(bytes[i + 2]) {
        assert StartsEscape(s[i..]);
        Regroup(out, Octet(s[i + 1], s[i + 2]), Decode(s[i + 3..]));
        out := out + [Octet(bytes[i + 1], bytes[i + 2])];
        i := i + 3;
      } else {
        assert !StartsEscape(s[i..]);
        Regroup(out, bytes[i], Decode(s[i + 1..]));
        out := out + [bytes[i]];
        i := i + 1;
      }
    }
    assert s[i..] == [] && out + [] == out;
    text := ToText(out, lossy);
  }

  lemma DecodeStep(s: seq<byte>, i: nat)
    requires i < |s|
    ensures Decode(s[i..]) == if StartsEscape(s[i..]) then [Octet(s[i + 1], s[i + 2])] + Decode(s[i + 3..])
                              else [Unplus(s[i])] + Decode(s[i + 1..])
  {
    assert s[i..][1..] == s[i + 1..];
    if StartsEscape(s[i..]) {
      assert s[i..][3..] == s[i + 3..];
    }
  }

  lemma Regroup(a: seq<byte>, x: byte, b: seq<byte>)
    ensures a + ([x] + b) == (a + [x]) + b
  {
  }

  /** A byte that is no hex digit is never part of an escape that begins before it. */
  lemma {:induction false} DecodeBefore(a: seq<byte>, x: byte, b: seq<byte>)
    requires !IsHex(x)
    ensures Decode(a + [x] + b) == Decode(a) + Decode([x] + b)
  {
    var s := a + [x] + b;
    if a == [] {
      assert s == [x] + b;
    } else if StartsEscape(a) {
      assert StartsEscape(s) && s[3..] == a[3..] + [x] + b;
      DecodeBefore(a[3..], x, b);
    } else {
      assert !StartsEscape(s) by {
        assert |a| == 1 ==> s[1] == x;
        assert |a| == 2 ==> s[2] == x;
      }
      assert s[1..] == a[1..] + [x] + b;
      DecodeBefore(a[1..], x, b);
    }
  }

  /** In any context a plus decodes to a space, and any other byte but a percent sign or a hex digit to itself. */
  lemma ByteInContext(a: seq<byte>, x: byte, b: seq<byte>)
    requires !IsHex(x) && x != 0x25
    ensures Decode(a + [x] + b) == Decode(a) + ([if x == 0x2B then 0x20 else x] + Decode(b))
  {
    DecodeBefore(a, x, b);
    assert ([x] + b)[1..] == b;
  }

  predicate TwoHex(b: seq<byte>) {
    |b| >= 2 && IsHex(b[0]) && IsHex(b[1])
  }

  lemma PercentInFront(b: seq<byte>)
    ensures Decode([PERCENT] + b)
            == if TwoHex(b) then [Octet(b[0], b[1])] + Decode(b[2..]) else [PERCENT] + Decode(b)
  {
    var s := [PERCENT] + b;
    if TwoHex(b) {
      assert s[3..] == b[2..];
    } else {
      assert s[1..] == b;
    }
  }

  /**
   * In any context, a percent sign with two hex digits behind it decodes to the byte they
   * spell, and one without passes through.
   */
  lemma PercentInContext(a: seq<byte>, b: seq<byte>)
    ensures Decode(a + [0x25] + b)
            == Decode(a) + if TwoHex(b) then [Octet(b[0], b[1])] + Decode(b[2..]) else [0x25] + Decode(b)
  {
    DecodeBefore(a, PERCENT, b);
    PercentInFront(b);
  }

  function LowerHexDigit(n: nat): byte
    requires n < 16
  {
    if n < 10 then 0x30 + n else 0x61 + n - 10
  }

  /** Every byte can be spelled in digits of either case, in both places. */
  lemma EitherCase(b: byte)
    ensures var hi, lo := b / 16, b % 16;
      && Octet(HexDigit(hi), HexDigit(lo)) == Octet(HexDigit(hi), LowerHexDigit(lo)) == b
      && Octet(LowerHexDigit(hi), HexDigit(lo)) == Octet(LowerHexDigit(hi), LowerHexDigit(lo)) == b
  {
  }

  /** And hex digits are nothing but these. */
  lemma HexDigitsAre(b: byte)
    ensures IsHex(b) <==> exists n: nat :: n < 16 && IsDigitFor(b, n)
  {
    if IsHex(b) {
      assert IsDigitFor(b, HexValue(b));
    }
  }

  predicate IsDigitFor(b: byte, n: nat) {
    n < 16 && (b == HexDigit(n) || b == LowerHexDigit(n))
  }

  // ----- Looking a parameter up -----

  /** `splitn(2, '=')`: what stands before the first equals sign, and what stands behind it. */
  function KeyPart(pair: seq<byte>): seq<byte> {
    if EQUALS in pair then pair[..FirstIndex(pair, EQUALS)] else pair
  }

  function ValuePart(pair: seq<byte>): seq<byte> {
    if EQUALS in pair then pair[FirstIndex(pair, EQUALS) + 1..] else []
  }

  function FindPair(pairs: seq<seq<byte>>, key: seq<byte>, lossy: seq<byte> -> seq<byte>): Option<seq<byte>> {
    if pairs == [] then None
    else if ToText(Decode(KeyPart(pairs[0])), lossy) == key then Some(ToText(Decode(ValuePart(pairs[0])), lossy))
    else FindPair(pairs[1..], key, lossy)
  }

  function QueryParam(query: Option<seq<byte>>, key: seq<byte>, lossy: seq<byte> -> seq<byte>): Option<seq<byte>> {
    if query.None? then None else FindPair(Split(query.value, AMPERSAND), key, lossy)
  }

  function FormParam(body: seq<byte>, key: seq<byte>, lossy: seq<byte> -> seq<byte>): Option<seq<byte>> {
    if !ValidUtf8(body) then None else FindPair(Split(body, AMPERSAND), key, lossy)
  }

  /** What the key of a pair reads as, once decoded. */
  function KeyText(pair: seq<byte>, lossy: seq<byte> -> seq<byte>): seq<byte> {
    ToText(Decode(KeyPart(pair)), lossy)
  }

  function ValueText(pair: seq<byte>, lossy: seq<byte> -> seq<byte>): seq<byte> {
    ToText(Decode(ValuePart(pair)), lossy)
  }

  ghost predicate IsFirstPair(pairs: seq<seq<byte>>, key: seq<byte>, lossy: seq<byte> -> seq<byte>, i: int) {
    && 0 <= i < |pairs| && KeyText(pairs[i], lossy) == key
    && forall j :: 0 <= j < i ==> KeyText(pairs[j], lossy) != key
  }

  /** For every list of pairs, however written: the decoded value of the first pair whose key decodes to this one. */
  lemma {:induction false} FindPairIsFirst(pairs: seq<seq<byte>>, key: seq<byte>, lossy: seq<byte> -> seq<byte>)
    ensures match FindPair(pairs, key, lossy)
            case Some(value) => exists i :: IsFirstPair(pairs, key, lossy, i) && ValueText(pairs[i], lossy) == value
            case None => forall i :: 0 <= i < |pairs| ==> KeyText(pairs[i], lossy) != key
  {
    if pairs != [] {
      var rest := pairs[1..];
      assert forall j :: 0 < j < |pairs| ==> pairs[j] == rest[j - 1];
      if KeyText(pairs[0], lossy) == key {
        assert IsFirstPair(pairs, key, lossy, 0);
      } else {
        FindPairIsFirst(rest, key, lossy);
        var r := FindPair(rest, key, lossy);
        if r.Some? {
          var i :| IsFirstPair(rest, key, lossy, i) && ValueText(rest[i], lossy) == r.value;
          assert IsFirstPair(pairs, key, lossy, i + 1);
        }
      }
    }
  }

  // ----- Every legal way of writing a list of pairs -----

  /** How one byte was written: as itself, a space as a plus, or an escape in either case. */
  datatype Token = Raw(b: byte) | Plus | Escape(hi: byte, lo: byte)

  /** `%`, `+` and `&` must be escaped everywhere, `=` in a key. */
  predicate Legal(t: Token, inValue: bool) {
    match t
    case Raw(b) => b != PERCENT && b != PLUS && b != AMPERSAND && (b == EQUALS ==> inValue)
    case Plus => true
    case Escape(hi, lo) => IsHex(hi) && IsHex(lo)
  }

  predicate AllLegal(ts: seq<Token>, inValue: bool) {
    forall i :: 0 <= i < |ts| ==> Legal(ts[i], inValue)
  }

  function Written(t: Token): seq<byte> {
    match t
    case Raw(b) => [b]
    case Plus => [PLUS]
    case Escape(hi, lo) => [PERCENT, hi, lo]
  }

  function Meant(t: Token): byte {
    match t
    case Raw(b) => b
    case Plus => SPACE
    case Escape(hi, lo) => if IsHex(hi) && IsHex(lo) then Octet(hi, lo) else 0
  }

  function Text(ts: seq<Token>): seq<byte> {
    if ts == [] then [] else Written(ts[0]) + Text(ts[1..])
  }

  function Meaning(ts: seq<Token>): seq<byte> {
    seq(|ts|, i requires 0 <= i < |ts| => Meant(ts[i]))
  }

  /** A pair as written; the equals sign may be left out when the value is empty. */
  datatype Pair = Pair(key: seq<Token>, value: seq<Token>, bare: bool)

  predicate LegalPair(p: Pair) {
    && AllLegal(p.key, false) && AllLegal(p.value, true)
    && (p.bare ==> p.value == [])
    && ValidUtf8(Meaning(p.key)) && ValidUtf8(Meaning(p.value))
  }

  function PairText(p: Pair): seq<byte> {
    Text(p.key) + (if p.bare then [] else [EQUALS] + Text(p.value))
  }

  function PairTexts(ps: seq<Pair>): seq<seq<byte>> {
    seq(|ps|, i requires 0 <= i < |ps| => PairText(ps[i]))
  }

  function QueryText(ps: seq<Pair>): seq<byte> {
    Join(PairTexts(ps), AMPERSAND)
  }

  /** Decoding undoes every legal way of writing a byte string. */
  lemma {:induction false} DecodeUndoesWriting(ts: seq<Token>)
    requires AllLegal(ts, true)
    ensures Decode(Text(ts)) == Meaning(ts)
  {
    if ts != [] {
      var rest := Text(ts[1..]);
      DecodeUndoesWriting(ts[1..]);
      DecodeToken(ts[0], rest);
      assert Meaning(ts) == [Meant(ts[0])] + Meaning(ts[1..]);
    }
  }

  lemma DecodeToken(t: Token, rest: seq<byte>)
    requires Legal(t, true)
    ensures Decode(Written(t) + rest) == [Meant(t)] + Decode(rest)
  {
    var s := Written(t) + rest;
    match t
    case Escape(hi, lo) =>
      assert StartsEscape(s) && s[3..] == rest;
    case _ =>
      assert !StartsEscape(s) && s[1..] == rest;
  }

  /** Separators never occur in what is written between them. */
  lemma {:induction false} WrittenHasNoSeparator(ts: seq<Token>, inValue: bool)
    requires AllLegal(ts, inValue)
    ensures AMPERSAND !in Text(ts)
    ensures !inValue ==> EQUALS !in Text(ts)
  {
    if ts != [] {
      WrittenHasNoSeparator(ts[1..], inValue);
      assert Legal(ts[0], inValue);
    }
  }

  lemma {:induction false} FirstIndexBehind(a: seq<byte>, b: seq<byte>, x: byte)
    requires x !in a
    ensures x in a + [x] + b && FirstIndex(a + [x] + b, x) == |a|
  {
    var s := a + [x] + b;
    assert s[|a|] == x;
    if a != [] {
      assert s[1..] == a[1..] + [x] + b;
      FirstIndexBehind(a[1..], b, x);
    }
  }

  lemma PairParts(p: Pair)
    requires AllLegal(p.key, false) && AllLegal(p.value, true) && (p.bare ==> p.value == [])
    ensures AMPERSAND !in PairText(p)
    ensures KeyPart(PairText(p)) == Text(p.key) && ValuePart(PairText(p)) == Text(p.value)
  {
    WrittenHasNoSeparator(p.key, false);
    WrittenHasNoSeparator(p.value, true);
    if p.bare {
      assert PairText(p) == Text(p.key);
    } else {
      var s := Text(p.key) + [EQUALS] + Text(p.value);
      assert PairText(p) == s;
      FirstIndexBehind(Text(p.key), Text(p.value), EQUALS);
      assert s[..|Text(p.key)|] == Text(p.key) && s[|Text(p.key)| + 1..] == Text(p.value);
    }
  }

  /** What one written pair decodes to, whatever the lossy fallback does. */
  lemma PairDecodes(p: Pair, lossy: seq<byte> -> seq<byte>)
    requires LegalPair(p)
    ensures ToText(Decode(KeyPart(PairText(p))), lossy) == Meaning(p.key)
    ensures ToText(Decode(ValuePart(PairText(p))), lossy) == Meaning(p.value)
  {
    PairParts(p);
    DecodeUndoesWriting(p.key);
    DecodeUndoesWriting(p.value);
  }

  /** `r` is the value of the first pair with this key, and `None` if there is no such pair. */
  ghost predicate IsFirstValue(ps: seq<Pair>, key: seq<byte>, r: Option<seq<byte>>) {
    match r
    case Some(value) => exists i :: IsFirst(ps, key, i) && Meaning(ps[i].value) == value
    case None => KeyAbsent(ps, key)
  }

  ghost predicate KeyAbsent(ps: seq<Pair>, key: seq<byte>) {
    forall i :: 0 <= i < |ps| ==> Meaning(ps[i].key) != key
  }

  ghost predicate IsFirst(ps: seq<Pair>, key: seq<byte>, i: int) {
    && 0 <= i < |ps| && Meaning(ps[i].key) == key
    && forall j :: 0 <= j < i ==> Meaning(ps[j].key) != key
  }

  lemma FindPairStep(pairs: seq<seq<byte>>, p: Pair, key: seq<byte>, lossy: seq<byte> -> seq<byte>)
    requires LegalPair(p) && pairs != [] && pairs[0] == PairText(p)
    ensures FindPair(pairs, key, lossy)
            == if Meaning(p.key) == key then Some(Meaning(p.value)) else FindPair(pairs[1..], key, lossy)
  {
    PairDecodes(p, lossy);
  }

  lemma {:induction false} FindsFirstValue(ps: seq<Pair>, key: seq<byte>, lossy: seq<byte> -> seq<byte>)
    requires forall i :: 0 <= i < |ps| ==> LegalPair(ps[i])
    ensures IsFirstValue(ps, key, FindPair(PairTexts(ps), key, lossy))
  {
    if ps != [] {
      FindPairStep(PairTexts(ps), ps[0], key, lossy);
      assert PairTexts(ps)[1..] == PairTexts(ps[1..]);
      if Meaning(ps[0].key) == key {
        assert IsFirst(ps, key, 0);
      } else {
        FindsFirstValue(ps[1..], key, lossy);
        FirstValueBehind(ps, key, FindPair(PairTexts(ps[1..]), key, lossy));
      }
    }
  }

  lemma FirstValueBehind(ps: seq<Pair>, key: seq<byte>, r: Option<seq<byte>>)
    requires ps != [] && Meaning(ps[0].key) != key && IsFirstValue(ps[1..], key, r)
    ensures IsFirstValue(ps, key, r)
  {
    var tail := ps[1..];
    assert forall j :: 0 < j < |ps| ==> ps[j] == tail[j - 1];
    if r.Some? {
      var i :| IsFirst(tail, key, i) && Meaning(tail[i].value) == r.value;
      assert IsFirst(ps, key, i + 1);
    }
  }

  lemma QuerySplits(ps: seq<Pair>)
    requires ps != [] && forall i :: 0 <= i < |ps| ==> LegalPair(ps[i])
    ensures Split(QueryText(ps), AMPERSAND) == PairTexts(ps)
  {
    forall i | 0 <= i < |ps| ensures AMPERSAND !in PairTexts(ps)[i] {
      PairParts(ps[i]);
    }
    SplitJoin(PairTexts(ps), AMPERSAND);
  }

  /** `query_param` undoes every legal encoder: first pair wins, absent keys are absent. */
  lemma QueryParamUndoesEncoding(ps: seq<Pair>, key: seq<byte>, lossy: seq<byte> -> seq<byte>)
    requires ps != [] && forall i :: 0 <= i < |ps| ==> LegalPair(ps[i])
    ensures IsFirstValue(ps, key, QueryParam(Some(QueryText(ps)), key, lossy))
    ensures QueryParam(None, key, lossy) == None
  {
    QuerySplits(ps);
    FindsFirstValue(ps, key, lossy);
  }

  /** Nothing in it has a meaning of its own: no `%`, `+`, `&` or `=`. */
  predicate Plain(s: seq<byte>) {
    forall i :: 0 <= i < |s| ==> s[i] != 0x25 && s[i] != 0x2B && s[i] != 0x26 && s[i] != 0x3D
  }

  function Verbatim(s: seq<byte>): seq<Token> {
    seq(|s|, i requires 0 <= i < |s| => Raw(s[i]))
  }

  lemma {:induction false} VerbatimText(s: seq<byte>)
    requires Plain(s)
    ensures AllLegal(Verbatim(s), false) && Text(Verbatim(s)) == s && Meaning(Verbatim(s)) == s
  {
    if s != [] {
      VerbatimText(s[1..]);
      assert Verbatim(s)[1..] == Verbatim(s[1..]);
    }
  }

  lemma PlainPair(key: seq<byte>, value: seq<byte>) returns (p: Pair)
    requires Plain(key) && Plain(value) && ValidUtf8(key) && ValidUtf8(value)
    ensures LegalPair(p) && Meaning(p.key) == key && Meaning(p.value) == value
    ensures PairText(p) == key + [0x3D] + value
  {
    VerbatimText(key);
    VerbatimText(value);
    p := Pair(Verbatim(key), Verbatim(value), false);
    assert key + ([0x3D] + value) == key + [0x3D] + value;
  }

  /** A plain key is found under its plain value: `key=value&other=more`, the first of two equal keys winning. */
  lemma PlainPairsFound(key: seq<byte>, value: seq<byte>, other: seq<byte>, more: seq<byte>,
                        lossy: seq<byte> -> seq<byte>)
    requires Plain(key) && Plain(value) && Plain(other) && Plain(more)
    requires ValidUtf8(key) && ValidUtf8(value) && ValidUtf8(other) && ValidUtf8(more)
    ensures var query := (key + [0x3D] + value) + [0x26] + (other + [0x3D] + more);
      && QueryParam(Some(query), key, lossy) == Some(value)
      && QueryParam(Some(query), other, lossy) == Some(if other == key then value else more)
  {
    var p := PlainPair(key, value);
    var q := PlainPair(other, more);
    TwoPairsText(p, q);
    FirstOfTwo(p, q, key, lossy);
    FirstOfTwo(p, q, other, lossy);
  }

  lemma TwoPairsText(p: Pair, q: Pair)
    ensures QueryText([p, q]) == PairText(p) + [0x26] + PairText(q)
  {
    var texts := [PairText(p), PairText(q)];
    assert PairTexts([p, q]) == texts;
    assert texts[1..] == [PairText(q)];
    assert Join(texts[1..], AMPERSAND) == PairText(q);
    assert Join(texts, AMPERSAND) == texts[0] + [AMPERSAND] + Join(texts[1..], AMPERSAND);
  }

  lemma FirstOfTwo(p: Pair, q: Pair, key: seq<byte>, lossy: seq<byte> -> seq<byte>)
    requires LegalPair(p) && LegalPair(q) && (Meaning(p.key) == key || Meaning(q.key) == key)
    ensures QueryParam(Some(QueryText([p, q])), key, lossy)
            == Some(if Meaning(p.key) == key then Meaning(p.value) else Meaning(q.value))
  {
    var ps := [p, q];
    QueryParamUndoesEncoding(ps, key, lossy);
    assert ps[0] == p && ps[1] == q;
  }

  /**
   * `form_param` does the same if and only if the body as sent is UTF-8 or the key is absent:
   * from any other body it answers `None`.
   */
  lemma FormParamUndoesEncoding(ps: seq<Pair>, key: seq<byte>, lossy: seq<byte> -> seq<byte>)
    requires ps != [] && forall i :: 0 <= i < |ps| ==> LegalPair(ps[i])
    ensures IsFirstValue(ps, key, FormParam(QueryText(ps), key, lossy))
            <==> ValidUtf8(QueryText(ps)) || KeyAbsent(ps, key)
    ensures !ValidUtf8(QueryText(ps)) ==> FormParam(QueryText(ps), key, lossy) == None
  {
    QuerySplits(ps);
    FindsFirstValue(ps, key, lossy);
  }

  /**
   * The condition is needed: `k=` with the two bytes of a UTF-8 letter, the first as it is and
   * the second escaped. The value is UTF-8, the body is not, and the key is not found.
   */
  lemma FormParamMissesPresentKey(lossy: seq<byte> -> seq<byte>) returns (p: Pair)
    ensures LegalPair(p) && Meaning(p.key) == [0x6B] && Meaning(p.value) == [0xC3, 0xA9]
    ensures QueryParam(Some(QueryText([p])), [0x6B], lossy) == Some([0xC3, 0xA9])
    ensures FormParam(QueryText([p]), [0x6B], lossy) == None
  {
    p := Pair([Raw(0x6B)], [Raw(0xC3), Escape(0x41, 0x39)], false);
    assert Meaning(p.key) == [0x6B] && Meaning(p.value) == [0xC3, 0xA9];
    assert ValidUtf8([0x6B]) && ValidUtf8([0xC3, 0xA9]);
    QueryParamUndoesEncoding([p], [0x6B], lossy);
    assert IsFirst([p], [0x6B], 0);
    assert p.value[1..] == [Escape(0x41, 0x39)];
    assert QueryText([p]) == [0x6B] + ([EQUALS] + ([0xC3] + [PERCENT, 0x41, 0x39]));
    NotUtf8Behind(EQUALS, [0xC3] + [PERCENT, 0x41, 0x39]);
    NotUtf8Behind(0x6B, [EQUALS] + ([0xC3] + [PERCENT, 0x41, 0x39]));
  }

  lemma NotUtf8Behind(b: byte, s: seq<byte>)
    requires b < 0x80 && !ValidUtf8(s)
    ensures !ValidUtf8([b] + s)
  {
    assert ([b] + s)[1..] == s;
  }

  /** The empty list prints as the empty string, in which the empty key is found. */
  lemma EmptyListHasEmptyKey(key: seq<byte>, lossy: seq<byte> -> seq<byte>)
    ensures QueryParam(Some(QueryText([])), key, lossy) == if key == [] then Some([]) else None
    ensures FormParam(QueryText([]), key, lossy) == if key == [] then Some([]) else None
  {
    var nothing := Pair([], [], true);
    var empty: seq<byte> := [];
    assert PairTexts([]) == [] && QueryText([]) == empty;
    assert Split(empty, AMPERSAND) == [empty];
    assert PairText(nothing) == empty && Meaning([]) == empty;
    FindPairStep([empty], nothing, key, lossy);
    assert [empty][1..] == [];
  }

  /** Text with no percent and no plus decodes to itself. */
  lemma {:induction false} PlainTextUnchanged(s: seq<byte>)
    requires PERCENT !in s && PLUS !in s
    ensures Decode(s) == s
  {
    if s != [] {
      PlainTextUnchanged(s[1..]);
      assert [s[0]] + s[1..] == s;
    }
  }

  // ----- Encoders that keep to ASCII, as the URL Standard demands -----

  predicate Ascii(s: seq<byte>) {
    forall i :: 0 <= i < |s| ==> s[i] < 0x80
  }

  predicate EscapesNonAscii(ts: seq<Token>) {
    forall i :: 0 <= i < |ts| && ts[i].Raw? ==> ts[i].b < 0x80
  }

  lemma {:induction false} AsciiIsUtf8(s: seq<byte>)
    requires Ascii(s)
    ensures ValidUtf8(s)
  {
    if s != [] {
      AsciiIsUtf8(s[1..]);
    }
  }

  lemma {:induction false} TextIsAscii(ts: seq<Token>)
    requires AllLegal(ts, true) && EscapesNonAscii(ts)
    ensures Ascii(Text(ts))
  {
    if ts != [] {
      TextIsAscii(ts[1..]);
      assert Legal(ts[0], true);
    }
  }

  lemma {:induction false} JoinIsAscii(parts: seq<seq<byte>>)
    requires forall i :: 0 <= i < |parts| ==> Ascii(parts[i])
    ensures Ascii(Join(parts, AMPERSAND))
  {
    if |parts| > 1 {
      JoinIsAscii(parts[1..]);
    }
  }

  /** For such an encoder `form_param` has no proviso. */
  lemma FormParamUndoesAsciiEncoding(ps: seq<Pair>, key: seq<byte>, lossy: seq<byte> -> seq<byte>)
    requires ps != [] && forall i :: 0 <= i < |ps| ==> LegalPair(ps[i])
    requires forall i :: 0 <= i < |ps| ==> EscapesNonAscii(ps[i].key) && EscapesNonAscii(ps[i].value)
    ensures IsFirstValue(ps, key, FormParam(QueryText(ps), key, lossy))
  {
    forall i | 0 <= i < |ps| ensures Ascii(PairTexts(ps)[i]) {
      TextIsAscii(ps[i].key);
      TextIsAscii(ps[i].value);
    }
    JoinIsAscii(PairTexts(ps));
    AsciiIsUtf8(QueryText(ps));
    FormParamUndoesEncoding(ps, key, lossy);
  }

  function HexDigit(n: nat): byte
    requires n < 16
  {
    if n < 10 then 0x30 + n else 0x41 + n - 10
  }

  /** Escape every byte. */
  function Escaped(s: seq<byte>): seq<Token> {
    seq(|s|, i requires 0 <= i < |s| => Escape(HexDigit(s[i] / 16), HexDigit(s[i] % 16)))
  }

  /** Such an encoder exists for every byte string. */
  lemma EscapedMeans(s: seq<byte>)
    ensures AllLegal(Escaped(s), false) && EscapesNonAscii(Escaped(s)) && Meaning(Escaped(s)) == s
  {
    forall i | 0 <= i < |s| ensures Legal(Escaped(s)[i], false) && Meant(Escaped(s)[i]) == s[i] {
      HexRoundTrip(s[i]);
    }
  }

  /** Each pair with every byte escaped. */
  function EscapedPairs(kvs: seq<(seq<byte>, seq<byte>)>): seq<Pair> {
    seq(|kvs|, i requires 0 <= i < |kvs| => Pair(Escaped(kvs[i].0), Escaped(kvs[i].1), false))
  }

  /** Hence for every non-empty list of UTF-8 pairs there is a body from which `form_param` reads it back. */
  lemma EveryFormHasEncoding(kvs: seq<(seq<byte>, seq<byte>)>, key: seq<byte>, lossy: seq<byte> -> seq<byte>)
    requires kvs != [] && forall i :: 0 <= i < |kvs| ==> ValidUtf8(kvs[i].0) && ValidUtf8(kvs[i].1)
    ensures match FormParam(QueryText(EscapedPairs(kvs)), key, lossy)
            case Some(value) => exists i :: FirstWith(kvs, key, i) && kvs[i].1 == value
            case None => forall i :: 0 <= i < |kvs| ==> kvs[i].0 != key
  {
    var ps := EscapedPairs(kvs);
    forall i | 0 <= i < |kvs|
      ensures LegalPair(ps[i]) && EscapesNonAscii(ps[i].key) && EscapesNonAscii(ps[i].value)
      ensures Meaning(ps[i].key) == kvs[i].0 && Meaning(ps[i].value) == kvs[i].1
    {
      EscapedMeans(kvs[i].0);
      EscapedMeans(kvs[i].1);
    }
    FormParamUndoesAsciiEncoding(ps, key, lossy);
    var r := FormParam(QueryText(ps), key, lossy);
    if r.Some? {
      var i :| IsFirst(ps, key, i) && Meaning(ps[i].value) == r.value;
      assert FirstWith(kvs, key, i);
    } else {
      forall i | 0 <= i < |kvs| ensures kvs[i].0 != key {
        assert Meaning(ps[i].key) != key;
      }
    }
  }

  ghost predicate FirstWith(kvs: seq<(seq<byte>, seq<byte>)>, key: seq<byte>, i: int) {
    0 <= i < |kvs| && kvs[i].0 == key && forall j :: 0 <= j < i ==> kvs[j].0 != key
  }

  lemma HexRoundTrip(b: byte)
    ensures var hi, lo := HexDigit(b / 16), HexDigit(b % 16);
      IsHex(hi) && IsHex(lo) && Octet(hi, lo) == b
  {
  }
}
