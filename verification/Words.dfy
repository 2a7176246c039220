/** The bitwise operators of manager/js/des.js on 32-bit words. */
module Words {
  function And(a: bv32, b: bv32): bv32 {
    a & b
  }

  function Or(a: bv32, b: bv32): bv32 {
    a | b
  }

  function Xor(a: bv32, b: bv32): bv32 {
    a ^ b
  }

  function Shl(a: bv32, n: bv6): bv32
    requires n <= 32
  {
    a << n
  }

  /** `x >> n` on a signed number: the bias makes copies of the sign come in from the left. */
  function Sar(x: bv32, n: bv6): bv32
    requires n <= 32
  {
    ((x ^ 0x80000000) >> n) - (0x80000000 >> n)
  }

  lemma XorTwice(a: bv32, b: bv32)
    ensures Xor(Xor(a, b), b) == a
  {
  }

  lemma XorAssoc(a: bv32, b: bv32, c: bv32)
    ensures Xor(Xor(a, b), c) == Xor(a, Xor(b, c))
  {
  }

  lemma XorComm(a: bv32, b: bv32)
    ensures Xor(a, b) == Xor(b, a)
  {
  }

  lemma AndXor(p: bv32, q: bv32, m: bv32)
    ensures And(Xor(p, q), m) == Xor(And(p, m), And(q, m))
  {
    AndXorBits(p, q, m, p ^ q, p & m, q & m);
  }

  lemma AndXorBits(p: bv32, q: bv32, m: bv32, x: bv32, y: bv32, z: bv32)
    requires x == p ^ q && y == p & m && z == q & m
    ensures x & m == y ^ z
  {
  }

  lemma AndAnd(x: bv32, m: bv32)
    ensures And(And(x, m), m) == And(x, m)
  {
  }

  /** A term both sides have drops out. */
  lemma XorFour(p: bv32, a: bv32, t: bv32)
    ensures Xor(Xor(p, t), Xor(a, t)) == Xor(p, a)
  {
    hide Xor;
    XorComm(a, t);
    XorAssoc(Xor(p, t), t, a);
    XorTwice(p, t);
  }
}
