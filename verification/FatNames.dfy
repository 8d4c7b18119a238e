/** Names in a FAT32 directory: the 11-byte padded form, the dotted form shown in a listing, and the
    conversion between them (modules/fs/fat32.c). Text is bytes; a C string has no zero byte. */
module FatNames {
  import opened Machine

  const SPACE: u8 := 0x20
  const DOT: u8 := 0x2E
  const NEWLINE: u8 := 0x0A

  predicate CString(s: Bytes) { 0 !in s }

  function Upper(c: u8): u8 { if 0x61 <= c <= 0x7A then c - 32 else c }

  function UpperAll(s: Bytes): (r: Bytes)
    ensures |r| == |s| && forall i :: 0 <= i < |s| ==> r[i] == Upper(s[i])
  {
    seq(|s|, i requires 0 <= i < |s| => Upper(s[i]))
  }

  /** The position of the first dot, or the length. */
  function DotAt(s: Bytes): (n: nat)
    ensures n <= |s| && DOT !in s[..n] && (n < |s| ==> s[n] == DOT)
  {
    if s == [] || s[0] == DOT then 0
    else
      var n := 1 + DotAt(s[1..]);
      assert s[..n] == [s[0]] + s[1..][..n - 1];
      n
  }

  function Take(s: Bytes, n: nat): Bytes { if |s| <= n then s else s[..n] }

  function Spaces(n: nat): (r: Bytes)
    ensures |r| == n && forall i :: 0 <= i < n ==> r[i] == SPACE
  {
    seq(n, _ => SPACE)
  }

  function Padded(s: Bytes, n: nat): (r: Bytes)
    ensures |r| == n
  {
    Take(s, n) + Spaces(n - |Take(s, n)|)
  }

  /** The 11-byte form: up to eight bytes before the first dot, up to three after it, upper case. */
  function FatName(s: Bytes): (r: Bytes)
    ensures |r| == 11
  {
    var d := DotAt(s);
    Padded(UpperAll(s[..d]), 8) + Padded(UpperAll(if d < |s| then s[d + 1..] else []), 3)
  }

  /** The k-th byte of the 11-byte form. */
  function FatByte(s: Bytes, k: nat): u8
    requires k < 11
  {
    var d := DotAt(s);
    if k < 8 then (if k < d then Upper(s[k]) else SPACE)
    else if d + 1 + (k - 8) < |s| then Upper(s[d + 1 + (k - 8)]) else SPACE
  }

  lemma FatNameBytes(s: Bytes, r: Bytes)
    requires |r| == 11 && forall k :: 0 <= k < 11 ==> r[k] == FatByte(s, k)
    ensures r == FatName(s)
  {
    var d := DotAt(s);
    assert r[..8] == Padded(UpperAll(s[..d]), 8);
    assert r[8..] == Padded(UpperAll(if d < |s| then s[d + 1..] else []), 3);
    assert r == r[..8] + r[8..];
  }

  lemma FirstByte(s: Bytes)
    requires s != [] && s[0] != DOT
    ensures FatName(s)[0] == Upper(s[0])
  {
    assert DotAt(s) > 0;
  }

  method FormatFatName(input: Bytes) returns (output: array<u8>)
    requires CString(input)
    ensures fresh(output) && output[..] == FatName(input)
  {
    output := new u8[11];
    for k := 0 to 11
      invariant forall i :: 0 <= i < k ==> output[i] == SPACE
    {
      output[k] := SPACE;
    }
    var i, j := 0, 0;
    ghost var d := DotAt(input);
    while i < |input| && input[i] != DOT && j < 8
      invariant i == j <= 8 && i <= d
      invariant forall k :: 0 <= k < i ==> output[k] == Upper(input[k])
      invariant forall k :: i <= k < 11 ==> output[k] == SPACE
    {
      assert i < d;
      output[j] := Upper(input[i]);
      j := j + 1;
      i := i + 1;
    }
    assert forall k :: 0 <= k < 8 ==> output[k] == FatByte(input, k);
    while i < |input| && input[i] != DOT
      invariant i <= d
    {
      assert i < d;
      i := i + 1;
    }
    assert i == d;
    if i < |input| && input[i] == DOT {
      i := i + 1;
      j := 8;
      while i < |input| && j < 11
        invariant d + 1 <= i <= |input| && j == 8 + (i - (d + 1)) <= 11
        invariant forall k :: 0 <= k < j ==> output[k] == FatByte(input, k)
        invariant forall k :: j <= k < 11 ==> output[k] == SPACE
      {
        output[j] := Upper(input[i]);
        j := j + 1;
        i := i + 1;
      }
    }
    FatNameBytes(input, output[..]);
  }

  // ---- Names as a listing shows them ----

  /** The bytes that are not spaces, in order. */
  function Squeeze(s: Bytes): (r: Bytes)
    ensures |r| <= |s| && SPACE !in r
  {
    if s == [] then [] else (if s[0] == SPACE then [] else [s[0]]) + Squeeze(s[1..])
  }

  /** The dotted form of an 11-byte name. */
  function DisplayName(name: Bytes): Bytes
    requires |name| == 11
  {
    Squeeze(name[..8]) + if name[8] != SPACE then [DOT] + Squeeze(name[8..]) else []
  }

  /** Spaces only at the end. */
  predicate TrailingSpaces(s: Bytes) { forall i, j :: 0 <= i < j < |s| && s[i] == SPACE ==> s[j] == SPACE }

  predicate NameByte(c: u8) { c != 0 && c != DOT && c != NEWLINE && !(0x61 <= c <= 0x7A) }

  /** A well-formed 8.3 name: upper case, no dots, padding only at the end of each part. */
  predicate WellFormed(name: Bytes) {
    |name| == 11 && (forall i :: 0 <= i < 11 ==> NameByte(name[i]))
    && TrailingSpaces(name[..8]) && TrailingSpaces(name[8..])
  }

  lemma {:induction false} SqueezeSpaces(s: Bytes)
    requires forall i :: 0 <= i < |s| ==> s[i] == SPACE
    ensures Squeeze(s) == [] && s == Spaces(|s|)
  {
    if s != [] { SqueezeSpaces(s[1..]); }
  }

  lemma {:induction false} SqueezeTrailing(s: Bytes)
    requires TrailingSpaces(s)
    ensures Squeeze(s) <= s && s == Squeeze(s) + Spaces(|s| - |Squeeze(s)|)
  {
    if s != [] {
      if s[0] == SPACE {
        SqueezeSpaces(s);
      } else {
        forall i, j | 0 <= i < j < |s[1..]| && s[1..][i] == SPACE ensures s[1..][j] == SPACE {
          assert s[i + 1] == SPACE && s[j + 1] == s[1..][j];
        }
        SqueezeTrailing(s[1..]);
        assert s == [s[0]] + s[1..];
      }
    }
  }

  lemma {:induction false} DotAtOf(a: Bytes, b: Bytes)
    requires DOT !in a && (b == [] || b[0] == DOT)
    ensures DotAt(a + b) == |a|
  {
    if a == [] { assert a + b == b; } else {
      assert (a + b)[1..] == a[1..] + b;
      DotAtOf(a[1..], b);
    }
  }

  lemma SplitAtDot(a: Bytes, b: Bytes)
    requires DOT !in a
    ensures FatName(a) == Padded(UpperAll(a), 8) + Spaces(3)
    ensures FatName(a + [DOT] + b) == Padded(UpperAll(a), 8) + Padded(UpperAll(b), 3)
  {
    DotAtOf(a, []);
    assert a + [] == a && a[..|a|] == a;
    var s := a + [DOT] + b;
    assert s == a + ([DOT] + b);
    DotAtOf(a, [DOT] + b);
    assert s[..|a|] == a && s[|a| + 1..] == b;
    assert Padded(UpperAll([]), 3) == Spaces(3);
  }

  lemma {:induction false} SqueezeKeeps(s: Bytes)
    ensures forall x :: x in Squeeze(s) ==> x in s
  {
    if s != [] { SqueezeKeeps(s[1..]); }
  }

  lemma DisplayedBytes(name: Bytes)
    requires WellFormed(name)
    ensures NEWLINE !in DisplayName(name) && CString(DisplayName(name)) && |DisplayName(name)| <= 12
  {
    SqueezeKeeps(name[..8]);
    SqueezeKeeps(name[8..]);
  }

  lemma PartsPad(part: Bytes, n: nat)
    requires TrailingSpaces(part) && |part| == n && forall i :: 0 <= i < n ==> NameByte(part[i])
    ensures Padded(UpperAll(Squeeze(part)), n) == part && DOT !in Squeeze(part)
  {
    SqueezeTrailing(part);
    var a := Squeeze(part);
    assert forall i :: 0 <= i < |a| ==> a[i] == part[i];
    assert UpperAll(a) == a;
  }

  lemma BlankExtension(name: Bytes)
    requires WellFormed(name) && name[8] == SPACE
    ensures name[8..] == Spaces(3) && DisplayName(name) == Squeeze(name[..8])
  {
    assert name[8..][0] == SPACE;
  }

  lemma WithExtension(name: Bytes)
    requires WellFormed(name) && name[8] != SPACE
    ensures DisplayName(name) == Squeeze(name[..8]) + [DOT] + Squeeze(name[8..])
  {
  }

  lemma TwoParts(name: Bytes, stem: Bytes, ext: Bytes)
    requires |name| == 11 && stem == name[..8] && ext == name[8..]
    ensures stem + ext == name
  {
  }

  /** Formatting the displayed name gives back the directory's bytes. */
  lemma DisplayedNameFormats(name: Bytes)
    requires WellFormed(name)
    ensures FatName(DisplayName(name)) == name
  {
    var stem, ext := name[..8], name[8..];
    PartsPad(stem, 8);
    PartsPad(ext, 3);
    SplitAtDot(Squeeze(stem), Squeeze(ext));
    TwoParts(name, stem, ext);
    if name[8] == SPACE { BlankExtension(name); } else { WithExtension(name); }
  }
}
