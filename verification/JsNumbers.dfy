/** JavaScript's integer operators on numbers that hold exact integers (ECMA-262, ToInt32 and ToUint32). */
module JsNumbers {
  const TWO16 := 0x1_0000
  const TWO31 := 0x8000_0000
  const TWO32 := 0x1_0000_0000

  function ToUint32(n: int): (r: int) {
    n % TWO32
  }

  function ToInt32(n: int): (r: int) {
    var m := n % TWO32;
    if m >= TWO31 then m - TWO32 else m
  }

  /** `n & 0xffff` */
  function Low16(n: int): (r: int) {
    ToUint32(n) % TWO16
  }

  /** `n >>> 16` */
  function Ushr16(n: int): (r: int) {
    ToUint32(n) / TWO16
  }

  /** `n >> 16`: the sign is kept, so the shift is a floor division. */
  function Sshr16(n: int): (r: int) {
    ToInt32(n) / TWO16
  }

  /** `n << 16` */
  function Shl16(n: int): (r: int) {
    ToInt32(n * TWO16)
  }

  /** Unsigned split: exact as long as the number fits in 32 unsigned bits. */
  lemma SplitUnsigned(n: int)
    requires 0 <= n < TWO32
    ensures n == Low16(n) + TWO16 * Ushr16(n)
    ensures 0 <= Low16(n) < TWO16 && 0 <= Ushr16(n) < TWO16
  {
  }

  /** Signed split: exact as long as the number fits in 32 signed bits. */
  lemma SplitSigned(n: int)
    requires -TWO31 <= n < TWO31
    ensures n == Low16(n) + TWO16 * Sshr16(n)
    ensures 0 <= Low16(n) < TWO16
    ensures n < 0 <==> Sshr16(n) < 0
  {
  }

  /** Taking the low half never depends on the wrap-around. */
  lemma Low16Mod(n: int)
    ensures Low16(n) == n % TWO16
  {
    var q, m := n / TWO32, n % TWO32;
    assert n == q * TWO32 + m;
    assert n == (q * TWO16 + m / TWO16) * TWO16 + m % TWO16;
  }
}
