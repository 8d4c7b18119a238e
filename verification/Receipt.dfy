/** The ledger receipt: how a commit is formatted (kernel/watcher.c) and that nothing is lost on the way. */
module Receipt {
  import opened Machine
  import opened Digits

  const HASH_DIGITS: nat := 16
  const OPENING: string := "TX: 0x"
  const MIDDLE: string := " | VOL: "

  const LOWEST: int := -0x8000_0000

  /** The volume as the formatter prints it. The one i32 whose negation wraps around to itself leaves
      nothing for the digit loop, and only the sign is printed. */
  function VolumeText(volume: i32): string { if volume == LOWEST then "-" else Numeral(volume) }

  /** The receipt of a transaction. */
  function Text(hash: u64, volume: i32): string {
    OPENING + Hex(hash, HASH_DIGITS) + MIDDLE + VolumeText(volume)
  }

  /** Read a receipt back. */
  function Read(s: string): Option<(nat, int)> {
    if |s| < 30 || s[..6] != OPENING || s[22..30] != MIDDLE then None else
    var hash := ReadHex(s[6..22]);
    var volume := ReadNumeral(s[30..]);
    if hash.Some? && volume.Some? then Some((hash.value, volume.value)) else None
  }

  lemma SixteenDigits()
    ensures Pow16(HASH_DIGITS) == TWO_64
  {
    assert Pow16(8) == TWO_32;
  }

  lemma VolumeReads(volume: i32)
    ensures ReadNumeral(VolumeText(volume)) == if volume == LOWEST then None else Some(volume as int)
  {
    if volume != LOWEST { NumeralReads(volume); }
  }

  /** A receipt reads back to exactly its hash and volume, unless the volume is the lowest i32. */
  lemma ReceiptReads(hash: u64, volume: i32)
    ensures Read(Text(hash, volume)) == if volume == LOWEST then None else Some((hash, volume as int))
  {
    SixteenDigits();
    HexReads(hash, HASH_DIGITS);
    VolumeReads(volume);
    var s := Text(hash, volume);
    assert s[..6] == OPENING && s[6..22] == Hex(hash, HASH_DIGITS) && s[22..30] == MIDDLE && s[30..] == VolumeText(volume);
  }

  predicate Plain(s: string) { forall i :: 0 <= i < |s| ==> ' ' <= s[i] <= '|' }

  lemma VolumeFits(volume: i32)
    ensures |VolumeText(volume)| <= 11 && Plain(VolumeText(volume))
  {
    var m: int := volume;
    var n := if m < 0 then -m else m;
    assert Pow10(10) == 10_000_000_000;
    DecimalLength(n, 10);
    DecimalRoundTrip(n);
    assert Plain(Decimal(n));
  }

  lemma HexPlain(hash: u64)
    ensures Plain(Hex(hash, HASH_DIGITS))
  {
    HexDigitsOnly(hash, HASH_DIGITS);
  }

  /** A receipt always fits the 63 bytes an event keeps, and holds neither a terminator nor a line break. */
  lemma ReceiptFits(hash: u64, volume: i32)
    ensures |Text(hash, volume)| <= 41 && Plain(Text(hash, volume))
  {
    VolumeFits(volume);
    HexPlain(hash);
    var a, b, c := OPENING + Hex(hash, HASH_DIGITS), MIDDLE, VolumeText(volume);
    assert Plain(OPENING) && Plain(a) && Plain(b);
    assert Text(hash, volume) == a + b + c;
    assert Plain(a + b);
  }

  /** The bytes of a text, one for each character. */
  function ToBytes(s: string): seq<u8> { seq(|s|, i requires 0 <= i < |s| => (s[i] as int) % 256) }

  function ToText(b: seq<u8>): string { seq(|b|, i requires 0 <= i < |b| => b[i] as char) }

  lemma PlainBytes(text: string)
    requires Plain(text)
    ensures ToText(ToBytes(text)) == text && 0x0A !in ToBytes(text) && 0 !in ToBytes(text)
  {
    var b := ToBytes(text);
    forall i | 0 <= i < |text| ensures b[i] == text[i] as int && b[i] != 0x0A && b[i] != 0 {
      assert ' ' <= text[i] <= '|';
    }
  }

  // ---- The formatters, in place ----

  method U64ToHex(value: u64, buf: array<char>)
    requires buf.Length >= 17
    modifies buf
    ensures buf[..16] == Hex(value, HASH_DIGITS) && buf[16] == '\0'
  {
    var val: nat := value;
    var i := 15;
    while i >= 0
      invariant -1 <= i <= 15
      invariant Hex(value, HASH_DIGITS) == Hex(val, i + 1) + buf[i + 1..16]
    {
      ghost var tail := buf[i + 1..16];
      buf[i] := HEX[val % 16];
      assert buf[i..16] == [HEX[val % 16]] + tail;
      val := val / 16;
      i := i - 1;
    }
    assert buf[0..16] == buf[..16];
    buf[16] := '\0';
  }

  function Reversed(s: string): (r: string)
    ensures |r| == |s| && forall i :: 0 <= i < |s| ==> r[i] == s[|s| - 1 - i]
  {
    seq(|s|, i requires 0 <= i < |s| => s[|s| - 1 - i])
  }

  /** The digits the loop collects; none unless the number is positive. */
  function DigitsOf(val: int): string { if val > 0 then Decimal(val) else "" }

  /** Moving the last digit over to the collected ones keeps the whole. */
  lemma LastDigit(val: nat, collected: string)
    requires val > 0
    ensures DigitsOf(val) + Reversed(collected) == DigitsOf(val / 10) + Reversed(collected + [DigitChar(val % 10)])
    ensures |DigitsOf(val)| == |DigitsOf(val / 10)| + 1
  {
    assert Reversed(collected + [DigitChar(val % 10)]) == [DigitChar(val % 10)] + Reversed(collected);
  }

  lemma AtMostTen(value: int)
    requires value < 0x1_0000_0000
    ensures |DigitsOf(value)| <= 10
  {
    assert Pow10(10) == 10_000_000_000;
    if value > 0 { DecimalLength(value, 10); }
  }

  /** The digits of a number, last one first, as the loop leaves them. */
  method CollectDigits(value: int, temp: array<char>) returns (count: nat)
    requires value < 0x1_0000_0000 && temp.Length == 16
    modifies temp
    ensures count <= 10 && Reversed(temp[..count]) == DigitsOf(value)
  {
    AtMostTen(value);
    var val := value;
    count := 0;
    while val > 0
      invariant |DigitsOf(val)| + count == |DigitsOf(value)|
      invariant DigitsOf(value) == DigitsOf(val) + Reversed(temp[..count])
    {
      ghost var before := temp[..count];
      temp[count] := DigitChar(val % 10);
      assert temp[..count + 1] == before + [DigitChar(val % 10)];
      LastDigit(val, before);
      val := val / 10;
      count := count + 1;
    }
  }

  /** Negation as the machine does it. */
  function Negated(value: i32): i32 { (0x8000_0000 - value) % 0x1_0000_0000 - 0x8000_0000 }

  lemma SignAndDigits(value: i32)
    requires value != 0
    ensures VolumeText(value) == if value < 0 then ['-'] + DigitsOf(Negated(value)) else DigitsOf(value)
  {
    if value == LOWEST { assert Negated(value) == LOWEST; }
    else if value < 0 { assert Negated(value) == -(value as int); }
  }

  lemma SignLast(digits: string)
    ensures Reversed(digits + ['-']) == ['-'] + Reversed(digits)
  {
  }

  /** Digits and then the sign, last character first. */
  method CollectSigned(value: i32, temp: array<char>) returns (count: nat)
    requires value != 0 && temp.Length == 16
    modifies temp
    ensures count <= 11 && Reversed(temp[..count]) == VolumeText(value)
  {
    SignAndDigits(value);
    count := CollectDigits(if value < 0 then Negated(value) else value, temp);
    if value < 0 {
      ghost var digits := temp[..count];
      SignLast(digits);
      temp[count] := '-';
      count := count + 1;
      assert temp[..count] == digits + ['-'];
    }
  }

  /** Copy from the last digit collected back to the first, and terminate. */
  method CopyReversed(temp: array<char>, count: nat, buf: array<char>)
    requires count <= temp.Length && count < buf.Length && temp != buf
    modifies buf
    ensures buf[..count] == Reversed(temp[..count]) && buf[count] == '\0'
  {
    for i := 0 to count
      invariant forall k :: 0 <= k < i ==> buf[k] == temp[count - 1 - k]
    {
      buf[i] := temp[count - 1 - i];
    }
    buf[count] := '\0';
  }

  method I32ToDecimal(value: i32, buf: array<char>) returns (length: nat)
    requires buf.Length >= 16
    modifies buf
    ensures length <= 11 && buf[..length] == VolumeText(value) && buf[length] == '\0'
  {
    if value == 0 {
      buf[0] := '0';
      buf[1] := '\0';
      assert VolumeText(0) == "0";
      return 1;
    }
    var temp := new char[16];
    length := CollectSigned(value, temp);
    CopyReversed(temp, length, buf);
  }

  method CopyText(text: string, buf: array<char>, start: nat) returns (end: nat)
    requires start + |text| <= buf.Length
    modifies buf
    ensures end == start + |text| && buf[..end] == old(buf[..start]) + text
  {
    end := start;
    for k := 0 to |text|
      invariant end == start + k
      invariant buf[..end] == old(buf[..start]) + text[..k]
    {
      buf[end] := text[k];
      end := end + 1;
    }
    assert text[..|text|] == text;
  }

  method Assemble(hashDigits: string, volumeDigits: string, context: array<char>) returns (length: nat)
    requires context.Length == 64 && |hashDigits| == 16 && |volumeDigits| <= 11
    modifies context
    ensures length == 30 + |volumeDigits| && context[length] == '\0'
    ensures context[..length] == OPENING + hashDigits + MIDDLE + volumeDigits
  {
    length := CopyText(OPENING, context, 0);
    length := CopyText(hashDigits, context, length);
    length := CopyText(MIDDLE, context, length);
    length := CopyText(volumeDigits, context, length);
    ghost var text := context[..length];
    context[length] := '\0';
    assert context[..length] == text;
  }

  /** The context string of a ledger commit. */
  method FormatReceipt(hash: u64, volume: i32) returns (context: array<char>, length: nat)
    ensures fresh(context) && context.Length == 64 && length < 64
    ensures context[..length] == Text(hash, volume) && context[length] == '\0'
  {
    context := new char[64];
    var hashText := new char[17];
    var volumeText := new char[16];
    U64ToHex(hash, hashText);
    var volumeLength := I32ToDecimal(volume, volumeText);
    length := Assemble(hashText[..16], volumeText[..volumeLength], context);
  }
}
