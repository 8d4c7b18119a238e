/** Machine integers and the few shared wrappers used by every component model. */
module Machine {
  datatype Option<+T> = None | Some(value: T)

  const TWO_32: int := 0x1_0000_0000
  const TWO_63: int := 0x8000_0000_0000_0000
  const TWO_64: int := 0x1_0000_0000_0000_0000

  type u8 = x: int | 0 <= x < 256
  type u16 = x: int | 0 <= x < 0x1_0000
  type u64 = x: int | 0 <= x < 0x1_0000_0000_0000_0000
  type u32 = x: int | 0 <= x < 0x1_0000_0000
  type i32 = x: int | -0x8000_0000 <= x < 0x8000_0000
  type i64 = x: int | -0x8000_0000_0000_0000 <= x < 0x8000_0000_0000_0000

  type Bytes = seq<u8>

  /** Two's complement wrap-around of a release-mode i64 operation. */
  function Wrap64(x: int): (r: i64)
    ensures (r - x) % TWO_64 == 0
  {
    (x + TWO_63) % TWO_64 - TWO_63
  }

  function Abs(x: int): int { if x < 0 then -x else x }

  /** Rust's `/` on i64: divide the magnitudes, then apply the sign. */
  function TruncDiv(a: int, b: int): int
    requires b != 0
  {
    if (a < 0) == (b < 0) then Abs(a) / Abs(b) else -(Abs(a) / Abs(b))
  }

  lemma {:induction false} TimesAtLeast(b: int, q: int, least: int)
    requires q >= 0 && b >= least >= 0
    ensures b * q >= least * q
  {
    if b > least { TimesAtLeast(b - 1, q, least); }
  }

  lemma QuotientBelow(a: int, b: int)
    requires a >= 0 && b > 0
    ensures 0 <= a / b <= a
    ensures b > 1 ==> a / b <= a / 2
  {
    var q := a / b;
    assert q >= 0 && a >= b * q;
    TimesAtLeast(b, q, 1);
    if b > 1 { TimesAtLeast(b, q, 2); }
  }

  /** The quotient of two i64 leaves the range only for i64::MIN / -1. */
  lemma QuotientInRange(a: i64, b: i64)
    requires b != 0
    ensures -TWO_63 <= TruncDiv(a, b) < TWO_63 <==> !(a == -TWO_63 && b == -1)
  {
    QuotientBelow(Abs(a), Abs(b));
  }

  lemma Reassociate<T>(a: seq<T>, b: seq<T>, c: seq<T>)
    ensures (a + b) + c == a + (b + c)
  {
  }
}
