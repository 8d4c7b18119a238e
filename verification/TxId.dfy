/** The transaction id of lib.rs: a 64-bit FNV-1a style hash of the contract source, salted with
    the resulting volume and the timer nonce. */
module TxId {
  import opened Machine
  import Modulo
  import opened Bits

  const OFFSET_BASIS: u64 := 0xcbf29ce484222325

  // ---- Multiplying by the odd prime ----

  function Times(x: u64): u64 { (x * 0x100000001b3) % TWO_64 }

  /** Multiplication by the inverse of the prime modulo 2^64. */
  function Untimes(x: u64): u64 { (x * 0xce965057aff6957b) % TWO_64 }

  lemma TimesIsBijection(x: u64)
    ensures Untimes(Times(x)) == x && Times(Untimes(x)) == x
  {
    // 0x100000001b3 * 0xce965057aff6957b == 1 + 2^64 * 0xce9650590f
    var q := (x * 0x100000001b3) / 0x1_0000_0000_0000_0000;
    assert Times(x) == x * 0x100000001b3 - q * 0x1_0000_0000_0000_0000;
    Modulo.Unique(Times(x) * 0xce965057aff6957b, TWO_64, x * 0xce9650590f - q * 0xce965057aff6957b, x);
    var p := (x * 0xce965057aff6957b) / 0x1_0000_0000_0000_0000;
    assert Untimes(x) == x * 0xce965057aff6957b - p * 0x1_0000_0000_0000_0000;
    Modulo.Unique(Untimes(x) * 0x100000001b3, TWO_64, x * 0xce9650590f - p * 0x100000001b3, x);
  }

  // ---- One round of the hash ----

  function Mix(hash: u64, word: u64): u64 { Times(Xor(hash, word)) }

  /** Undo a round, given the word mixed in (or find the word, given the state before). */
  function Unmix(mixed: u64, word: u64): u64 { Xor(Untimes(mixed), word) }

  lemma MixUndone(hash: u64, word: u64)
    ensures Unmix(Mix(hash, word), word) == hash
    ensures Unmix(Mix(hash, word), hash) == word
    ensures Mix(hash, Unmix(word, hash)) == word
  {
    TimesIsBijection(Xor(hash, word));
    TimesIsBijection(word);
    XorUndone(hash, word);
    XorUndone(word, hash);
    XorUndone(Untimes(word), hash);
    XorUndone(hash, Xor(Untimes(word), hash));
  }

  /** `volume as u64` for an i32: sign extension. */
  function VolumeWord(volume: i32): u64 { if volume >= 0 then volume else volume + TWO_64 }

  function HashBytes(hash: u64, source: seq<u8>): u64
    decreases |source|
  {
    if source == [] then hash else HashBytes(Mix(hash, source[0]), source[1..])
  }

  function Id(source: seq<u8>, volume: i32, nonce: u64): u64 {
    Mix(Mix(HashBytes(OFFSET_BASIS, source), VolumeWord(volume)), nonce)
  }

  lemma {:induction false} HashBytesAppend(hash: u64, a: seq<u8>, b: seq<u8>)
    ensures HashBytes(hash, a + b) == HashBytes(HashBytes(hash, a), b)
    decreases |a|
  {
    if a == [] {
      assert a + b == b;
    } else {
      assert (a + b)[1..] == a[1..] + b;
      HashBytesAppend(Mix(hash, a[0]), a[1..], b);
    }
  }

  method GenerateTxId(source: seq<u8>, volume: i32, nonce: u64) returns (hash: u64)
    ensures hash == Id(source, volume, nonce)
  {
    hash := OFFSET_BASIS;
    for i := 0 to |source|
      invariant hash == HashBytes(OFFSET_BASIS, source[..i])
    {
      assert source[..i + 1] == source[..i] + [source[i]];
      HashBytesAppend(OFFSET_BASIS, source[..i], [source[i]]);
      hash := Xor(hash, source[i]);
      hash := Times(hash);
    }
    assert source[..|source|] == source;
    hash := Xor(hash, VolumeWord(volume));
    hash := Times(hash);
    hash := Xor(hash, nonce);
    hash := Times(hash);
  }

  /** Distinct states stay distinct through any bytes that follow. */
  lemma {:induction false} HashBytesInjective(h: u64, k: u64, source: seq<u8>)
    requires HashBytes(h, source) == HashBytes(k, source)
    ensures h == k
    decreases |source|
  {
    if source != [] {
      HashBytesInjective(Mix(h, source[0]), Mix(k, source[0]), source[1..]);
      MixUndone(h, source[0]);
      MixUndone(k, source[0]);
    }
  }

  /** The nonce that gives a wanted id. */
  function NonceOf(source: seq<u8>, volume: i32, id: u64): u64 {
    Unmix(id, Mix(HashBytes(OFFSET_BASIS, source), VolumeWord(volume)))
  }

  /** For a fixed source and volume, nonces and ids correspond one to one. */
  lemma NonceBijection(source: seq<u8>, volume: i32, nonce: u64, id: u64)
    ensures Id(source, volume, nonce) == id <==> nonce == NonceOf(source, volume, id)
  {
    var h := Mix(HashBytes(OFFSET_BASIS, source), VolumeWord(volume));
    MixUndone(h, nonce);
    MixUndone(h, id);
  }

  lemma DistinctNonces(source: seq<u8>, volume: i32, m: u64, n: u64)
    ensures Id(source, volume, m) == Id(source, volume, n) <==> m == n
  {
    NonceBijection(source, volume, m, Id(source, volume, n));
    NonceBijection(source, volume, n, Id(source, volume, n));
  }

  lemma DistinctVolumes(source: seq<u8>, v: i32, w: i32, nonce: u64)
    ensures Id(source, v, nonce) == Id(source, w, nonce) <==> v == w
  {
    var h := HashBytes(OFFSET_BASIS, source);
    MixUndone(Mix(h, VolumeWord(v)), nonce);
    MixUndone(Mix(h, VolumeWord(w)), nonce);
    MixUndone(h, VolumeWord(v));
    MixUndone(h, VolumeWord(w));
  }

  lemma SourceState(before: seq<u8>, b: u8, after: seq<u8>)
    ensures HashBytes(OFFSET_BASIS, before + [b] + after) == HashBytes(Mix(HashBytes(OFFSET_BASIS, before), b), after)
  {
    HashBytesAppend(OFFSET_BASIS, before + [b], after);
    HashBytesAppend(OFFSET_BASIS, before, [b]);
  }

  /** Changing one byte of the source, and nothing else, changes the id. */
  lemma OneByteChanged(before: seq<u8>, b: u8, c: u8, after: seq<u8>, volume: i32, nonce: u64)
    ensures Id(before + [b] + after, volume, nonce) == Id(before + [c] + after, volume, nonce) <==> b == c
  {
    var h := HashBytes(OFFSET_BASIS, before);
    SourceState(before, b, after);
    SourceState(before, c, after);
    var sb, sc := HashBytes(Mix(h, b), after), HashBytes(Mix(h, c), after);
    MixUndone(Mix(sb, VolumeWord(volume)), nonce);
    MixUndone(Mix(sc, VolumeWord(volume)), nonce);
    MixUndone(sb, VolumeWord(volume));
    MixUndone(sc, VolumeWord(volume));
    if sb == sc { HashBytesInjective(Mix(h, b), Mix(h, c), after); }
    MixUndone(h, b);
    MixUndone(h, c);
  }
}
