/**
 * 32-bit integer views used by the playlist model: Qt's quint32 and qint32,
 * the static_casts between them, and QString::toUInt on decimal text.
 * Dafny integers are unbounded, so every wrap-around is written out here.
 */
module Word32 {
  const TWO_31: int := 0x8000_0000
  const TWO_32: int := 0x1_0000_0000

  /** quint32 */
  type U32 = x: int | 0 <= x < 0x1_0000_0000

  /** qint32 */
  type I32 = x: int | -0x8000_0000 <= x < 0x8000_0000

  /** static_cast<quint32>: the value modulo 2^32. */
  function ToU32(x: int): (r: U32)
    ensures 0 <= x < TWO_32 ==> r == x
    ensures -TWO_32 <= x < 0 ==> r == x + TWO_32
  {
    x % TWO_32
  }

  /** static_cast<qint32> of a 32-bit pattern: two's complement reinterpretation. */
  function ToI32(x: int): (r: I32)
    ensures -TWO_31 <= x < TWO_31 ==> r == x
    ensures TWO_31 <= x < TWO_32 ==> r == x - TWO_32
  {
    var m := x % TWO_32;
    if m < TWO_31 then m else m - TWO_32
  }

  /**
   * QString::toUInt applied to QString::number(x): the number itself when it
   * fits a quint32, and 0 (conversion failure) otherwise, e.g. for "-1".
   */
  function ToUInt(x: int): (r: U32)
    ensures r == x || (r == 0 && (x < 0 || x >= TWO_32))
  {
    if 0 <= x < TWO_32 then x else 0
  }

  /** A signed shift sent as quint32 is recovered by the qint32 reinterpretation. */
  lemma SignedRoundTrip(d: I32)
    ensures ToI32(ToU32(d)) == d
  {
  }

  /** Adding a value already reduced modulo 2^32 changes nothing modulo 2^32. */
  lemma {:induction false} AddReduced(a: int, b: int)
    ensures ToU32(ToU32(a) + b) == ToU32(a + b)
    ensures ToI32(ToU32(a) + b) == ToI32(a + b)
  {
    var q := a / TWO_32;
    assert a == q * TWO_32 + ToU32(a);
    ModuloShift(a + b, q);
  }

  /** Shifting by whole multiples of 2^32 does not change the residue. */
  lemma {:induction false} ModuloShift(x: int, q: int)
    ensures (x - q * TWO_32) % TWO_32 == x % TWO_32
    decreases if q < 0 then -q else q
  {
    if q > 0 {
      ModuloShift(x, q - 1);
      assert (x - q * TWO_32) + TWO_32 == x - (q - 1) * TWO_32;
    } else if q < 0 {
      ModuloShift(x, q + 1);
      assert (x - q * TWO_32) - TWO_32 == x - (q + 1) * TWO_32;
    }
  }
}
