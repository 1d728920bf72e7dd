/** Eight bytes as a little-endian word, and the bit trick that finds a zero byte in it. */
module Words {

  function Word(a: bv8, b: bv8, c: bv8, d: bv8, e: bv8, f: bv8, g: bv8, h: bv8): bv64 {
    (a as bv64) | ((b as bv64) << 8) | ((c as bv64) << 16) | ((d as bv64) << 24)
    | ((e as bv64) << 32) | ((f as bv64) << 40) | ((g as bv64) << 48) | ((h as bv64) << 56)
  }

  function HasZero(v: bv64): bv64 {
    (v - 0x0101010101010101) & !v & 0x8080808080808080
  }

  /** The trick is exact: the result is zero exactly when no byte is. */
  lemma HasZeroIff(a: bv8, b: bv8, c: bv8, d: bv8, e: bv8, f: bv8, g: bv8, h: bv8)
    ensures HasZero(Word(a, b, c, d, e, f, g, h)) == 0 <==>
      a != 0 && b != 0 && c != 0 && d != 0 && e != 0 && f != 0 && g != 0 && h != 0
  {
  }

  lemma WordInjective(a: bv8, b: bv8, c: bv8, d: bv8, e: bv8, f: bv8, g: bv8, h: bv8,
                      a': bv8, b': bv8, c': bv8, d': bv8, e': bv8, f': bv8, g': bv8, h': bv8)
    requires Word(a, b, c, d, e, f, g, h) == Word(a', b', c', d', e', f', g', h')
    ensures a == a' && b == b' && c == c' && d == d' && e == e' && f == f' && g == g' && h == h'
  {
  }
}
