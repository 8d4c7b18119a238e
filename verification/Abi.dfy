/** The binary ABI decoder (abi.rs): tagged trees of integers, pairs and injections. */
module Abi {
  import opened Machine
  import Ast

  datatype Error =
    | EndOfPayload
    | ShortInt
    | UnknownTag(tag: u8)
    | TrailingBytes
    | OddLength
    | BadDigit

  datatype Parse = Parsed(expr: Ast.Expr, rest: seq<u8>) | Failed(error: Error)
  {
    predicate IsFailure() { Failed? }
    function PropagateFailure(): Parse requires Failed? { this }
    function Extract(): (Ast.Expr, seq<u8>) requires Parsed? { (expr, rest) }
  }

  // ---- Big-endian two's complement ----

  function Big(bytes: seq<u8>): nat {
    if bytes == [] then 0 else Big(bytes[..|bytes| - 1]) * 256 + bytes[|bytes| - 1]
  }

  function BigBytes(n: nat, len: nat): seq<u8> {
    if len == 0 then [] else BigBytes(n / 256, len - 1) + [n % 256]
  }

  function Pow256(k: nat): nat { if k == 0 then 1 else 256 * Pow256(k - 1) }

  lemma {:induction false} BigRoundTrip(n: nat, len: nat)
    requires n < Pow256(len)
    ensures |BigBytes(n, len)| == len && Big(BigBytes(n, len)) == n
  {
    if len > 0 {
      BigRoundTrip(n / 256, len - 1);
      var b := BigBytes(n, len);
      assert b[..|b| - 1] == BigBytes(n / 256, len - 1);
    }
  }

  lemma {:induction false} BytesRoundTrip(bytes: seq<u8>)
    ensures Big(bytes) < Pow256(|bytes|) && BigBytes(Big(bytes), |bytes|) == bytes
  {
    if bytes != [] {
      var front := bytes[..|bytes| - 1];
      BytesRoundTrip(front);
      assert bytes == front + [bytes[|bytes| - 1]];
    }
  }

  lemma EightBytes()
    ensures Pow256(8) == TWO_64
  {
    assert Pow256(4) == TWO_32;
  }

  function FromBytes(bytes: seq<u8>): i64
    requires |bytes| == 8
  {
    BytesRoundTrip(bytes);
    assert Pow256(8) == TWO_64 by { EightBytes(); }
    var n := Big(bytes);
    if n < TWO_63 then n else n - TWO_64
  }

  function ToBytes(n: i64): seq<u8> { BigBytes(if n >= 0 then n else n + TWO_64, 8) }

  lemma IntBytes(n: i64)
    ensures |ToBytes(n)| == 8 && FromBytes(ToBytes(n)) == n
  {
    EightBytes();
    BigRoundTrip(if n >= 0 then n else n + TWO_64, 8);
  }

  lemma BytesInt(bytes: seq<u8>)
    requires |bytes| == 8
    ensures ToBytes(FromBytes(bytes)) == bytes
  {
    EightBytes();
    BytesRoundTrip(bytes);
  }

  // ---- The decoder ----

  function ParseBytes(bytes: seq<u8>): (r: Parse)
    ensures r.Parsed? ==> |r.rest| < |bytes|
    decreases |bytes|
  {
    if bytes == [] then Failed(EndOfPayload) else
    var tag, rest := bytes[0], bytes[1..];
    if tag == 0 then
      if |rest| < 8 then Failed(ShortInt)
      else Parsed(Ast.IntLiteral(FromBytes(rest[..8])), rest[8..])
    else if tag == 1 then
      var (l, rest1) :- ParseBytes(rest);
      var (r, rest2) :- ParseBytes(rest1);
      Parsed(Ast.Pair(l, r), rest2)
    else if tag == 2 then
      var (v, rest1) :- ParseBytes(rest);
      Parsed(Ast.Left(v), rest1)
    else if tag == 3 then
      var (v, rest1) :- ParseBytes(rest);
      Parsed(Ast.Right(v), rest1)
    else Failed(UnknownTag(tag))
  }

  /** The trees the format can carry. */
  predicate Encodable(e: Ast.Expr) {
    match e
    case IntLiteral(_) => true
    case Pair(l, r) => Encodable(l) && Encodable(r)
    case Left(v) => Encodable(v)
    case Right(v) => Encodable(v)
    case _ => false
  }

  function Encode(e: Ast.Expr): seq<u8>
    requires Encodable(e)
  {
    match e
    case IntLiteral(n) => [0] + ToBytes(n)
    case Pair(l, r) => [1] + Encode(l) + Encode(r)
    case Left(v) => [2] + Encode(v)
    case Right(v) => [3] + Encode(v)
  }

  lemma ParsesInt(n: i64, rest: seq<u8>)
    ensures ParseBytes([0] + ToBytes(n) + rest) == Parsed(Ast.IntLiteral(n), rest)
  {
    var bytes := [0] + ToBytes(n) + rest;
    IntBytes(n);
    assert bytes[1..] == ToBytes(n) + rest;
    assert bytes[1..][..8] == ToBytes(n) && bytes[1..][8..] == rest;
  }

  lemma {:induction false} DecodeEncoded(e: Ast.Expr, rest: seq<u8>)
    requires Encodable(e)
    ensures ParseBytes(Encode(e) + rest) == Parsed(e, rest)
  {
    var bytes := Encode(e) + rest;
    match e {
      case IntLiteral(n) => ParsesInt(n, rest);
      case Pair(l, r) =>
        assert bytes[1..] == Encode(l) + (Encode(r) + rest);
        DecodeEncoded(l, Encode(r) + rest);
        DecodeEncoded(r, rest);
      case Left(v) =>
        assert bytes[1..] == Encode(v) + rest;
        DecodeEncoded(v, rest);
      case Right(v) =>
        assert bytes[1..] == Encode(v) + rest;
        DecodeEncoded(v, rest);
    }
  }

  lemma CanonicalInt(bytes: seq<u8>)
    requires |bytes| >= 9 && bytes[0] == 0
    ensures bytes == Encode(Ast.IntLiteral(FromBytes(bytes[1..][..8]))) + bytes[1..][8..]
  {
    var rest := bytes[1..];
    BytesInt(rest[..8]);
    assert rest == rest[..8] + rest[8..];
  }

  lemma Regroup(tag: u8, a: seq<u8>, b: seq<u8>, rest: seq<u8>)
    ensures [tag] + (a + (b + rest)) == [tag] + a + b + rest
    ensures b == [] ==> [tag] + (a + rest) == [tag] + a + rest
  {
  }

  /** Whatever parses was an encoding: the format has no second spelling of a tree. */
  lemma {:induction false} Canonical(bytes: seq<u8>)
    requires ParseBytes(bytes).Parsed?
    ensures var p := ParseBytes(bytes); Encodable(p.expr) && bytes == Encode(p.expr) + p.rest
    decreases |bytes|
  {
    var rest := bytes[1..];
    assert bytes == [bytes[0]] + rest;
    if bytes[0] == 0 {
      CanonicalInt(bytes);
    } else {
      Canonical(rest);
      var first := ParseBytes(rest);
      if bytes[0] == 1 {
        Canonical(first.rest);
        var second := ParseBytes(first.rest);
        Regroup(bytes[0], Encode(first.expr), Encode(second.expr), second.rest);
      } else {
        Regroup(bytes[0], Encode(first.expr), [], first.rest);
      }
    }
  }

  lemma PrefixFree(d: Ast.Expr, e: Ast.Expr, r: seq<u8>, s: seq<u8>)
    requires Encodable(d) && Encodable(e) && Encode(d) + r == Encode(e) + s
    ensures d == e && r == s
  {
    DecodeEncoded(d, r);
    DecodeEncoded(e, s);
  }

  // ---- Hexadecimal text ----

  /** A hexadecimal digit of either case. */
  function Digit(c: char): Option<u8> {
    if '0' <= c <= '9' then Some(c as int - '0' as int)
    else if 'a' <= c <= 'f' then Some(c as int - 'a' as int + 10)
    else if 'A' <= c <= 'F' then Some(c as int - 'A' as int + 10)
    else None
  }

  /** `u8::from_str_radix(_, 16)` on two characters; it also accepts a sign before one digit. */
  function HexByte(c: char, d: char): Option<u8> {
    if Digit(d).None? then None
    else if c == '+' then Digit(d)
    else if Digit(c).None? then None
    else Some(Digit(c).value * 16 + Digit(d).value)
  }

  datatype Bytes = Decoded(bytes: seq<u8>) | Malformed(error: Error)

  function DecodePairs(s: string): Bytes
    requires |s| % 2 == 0
    decreases |s|
  {
    if s == [] then Decoded([]) else
    match HexByte(s[0], s[1])
    case None => Malformed(BadDigit)
    case Some(b) =>
      match DecodePairs(s[2..])
      case Malformed(e) => Malformed(e)
      case Decoded(tail) => Decoded([b] + tail)
  }

  function DecodeHex(s: string): Bytes {
    if |s| % 2 != 0 then Malformed(OddLength) else DecodePairs(s)
  }

  function DeserializeHex(s: string): Parse {
    match DecodeHex(s)
    case Malformed(e) => Failed(e)
    case Decoded(bytes) =>
      match ParseBytes(bytes)
      case Failed(e) => Failed(e)
      case Parsed(expr, rest) => if rest != [] then Failed(TrailingBytes) else Parsed(expr, [])
  }

  /** The digits an encoder writes. */
  function LowerDigit(n: nat): char
    requires n < 16
  {
    if n < 10 then '0' + n as char else 'a' + (n - 10) as char
  }

  predicate IsLowerDigit(c: char) { '0' <= c <= '9' || 'a' <= c <= 'f' }

  function ToHex(bytes: seq<u8>): string {
    if bytes == [] then "" else [LowerDigit(bytes[0] / 16), LowerDigit(bytes[0] % 16)] + ToHex(bytes[1..])
  }

  lemma DigitOfLower(n: nat)
    requires n < 16
    ensures Digit(LowerDigit(n)) == Some(n) && IsLowerDigit(LowerDigit(n))
  {
  }

  lemma ByteRoundTrip(b: u8)
    ensures HexByte(LowerDigit(b / 16), LowerDigit(b % 16)) == Some(b)
  {
    DigitOfLower(b / 16);
    DigitOfLower(b % 16);
  }

  lemma {:induction false} HexRoundTrip(bytes: seq<u8>)
    ensures |ToHex(bytes)| % 2 == 0 && DecodePairs(ToHex(bytes)) == Decoded(bytes)
  {
    if bytes != [] {
      HexRoundTrip(bytes[1..]);
      ByteRoundTrip(bytes[0]);
      assert ToHex(bytes)[2..] == ToHex(bytes[1..]);
      assert bytes == [bytes[0]] + bytes[1..];
    }
  }

  /** Deserializing succeeds exactly on hexadecimal text of one whole encoding. */
  lemma DeserializeExactly(s: string, e: Ast.Expr)
    ensures DeserializeHex(s) == Parsed(e, []) <==> Encodable(e) && DecodeHex(s) == Decoded(Encode(e))
  {
    if DeserializeHex(s) == Parsed(e, []) {
      Canonical(DecodeHex(s).bytes);
      assert Encode(e) + [] == Encode(e);
    }
    if Encodable(e) && DecodeHex(s) == Decoded(Encode(e)) {
      DecodeEncoded(e, []);
      assert Encode(e) + [] == Encode(e);
    }
  }

  lemma DeserializeInvertsHex(e: Ast.Expr, extra: seq<u8>)
    requires Encodable(e)
    ensures DeserializeHex(ToHex(Encode(e) + extra)) == if extra == [] then Parsed(e, []) else Failed(TrailingBytes)
  {
    HexRoundTrip(Encode(e) + extra);
    DecodeEncoded(e, extra);
  }

  // ---- When the text is canonical ----

  /** Written in the sixteen digits that encoding uses: no capitals, no signs. */
  predicate LowerDigits(s: string) { forall i :: 0 <= i < |s| ==> IsLowerDigit(s[i]) }

  lemma DigitsOfDigit(c: char)
    requires IsLowerDigit(c)
    ensures Digit(c).Some? && Digit(c).value < 16 && LowerDigit(Digit(c).value) == c && c != '+'
  {
  }

  /** Two such digits that denote a byte are the ones encoding writes for it. */
  lemma DigitsOfByte(c: char, d: char)
    requires IsLowerDigit(c) && IsLowerDigit(d)
    ensures HexByte(c, d).Some?
    ensures c == LowerDigit(HexByte(c, d).value / 16) && d == LowerDigit(HexByte(c, d).value % 16)
  {
    DigitsOfDigit(c);
    DigitsOfDigit(d);
  }

  lemma {:induction false} HexIsLower(bytes: seq<u8>)
    ensures LowerDigits(ToHex(bytes))
  {
    if bytes != [] {
      ByteRoundTrip(bytes[0]);
      HexIsLower(bytes[1..]);
    }
  }

  lemma {:induction false} LowerIsHex(s: string)
    requires |s| % 2 == 0 && LowerDigits(s)
    ensures DecodePairs(s).Decoded? && ToHex(DecodePairs(s).bytes) == s
    decreases |s|
  {
    if s != [] {
      DigitsOfByte(s[0], s[1]);
      assert forall i :: 0 <= i < |s[2..]| ==> s[2..][i] == s[i + 2];
      LowerIsHex(s[2..]);
      assert s == [s[0], s[1]] + s[2..];
    }
  }

  /** Among all texts of a tree, encoding's own is the one without capitals and signs. */
  lemma CanonicalText(s: string, e: Ast.Expr)
    requires DeserializeHex(s) == Parsed(e, [])
    ensures Encodable(e) && (s == ToHex(Encode(e)) <==> LowerDigits(s))
  {
    DeserializeExactly(s, e);
    HexIsLower(Encode(e));
    if LowerDigits(s) { LowerIsHex(s); }
  }

  /** The text is not canonical: a sign before a digit spells the same byte as a zero. */
  lemma SignSpellsZero(d: char, tail: string)
    requires Digit(d).Some?
    ensures DecodeHex(['+', d] + tail) == DecodeHex(['0', d] + tail)
  {
    assert (['+', d] + tail)[2..] == tail == (['0', d] + tail)[2..];
  }
}
