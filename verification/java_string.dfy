/** Java's `String.hashCode`, which both `Score.hashCode` and `Source.hashCode`
    delegate to: h = 31 * h + c over the characters, in 32-bit two's-complement
    `int` arithmetic that wraps around silently. */
module JavaString {

  const TWO_31: int := 0x8000_0000
  const TWO_32: int := 0x1_0000_0000

  predicate IsInt32(x: int) {
    -TWO_31 <= x < TWO_31
  }

  /** Reduces an unbounded integer to the Java `int` it wraps around to. */
  function ToInt32(x: int): (r: int)
    ensures IsInt32(r)
    ensures (x - r) % TWO_32 == 0
    ensures IsInt32(x) ==> r == x
  {
    var m := x % TWO_32;
    if m >= TWO_31 then m - TWO_32 else m
  }

  /** Each character counts as one UTF-16 code unit with the character's code. */
  function HashCode(s: string): (h: int)
    ensures IsInt32(h)
  {
    if |s| == 0 then 0 else ToInt32(31 * HashCode(s[..|s| - 1]) + s[|s| - 1] as int)
  }

  /** The hash as the `String.hashCode` documentation states it,
      s[0]*31^(n-1) + ... + s[n-1], in unbounded arithmetic (Horner form). */
  function Polynomial(s: string): int
  {
    if |s| == 0 then 0 else 31 * Polynomial(s[..|s| - 1]) + s[|s| - 1] as int
  }

  lemma ToInt32Congruent(a: int, b: int)
    requires (a - b) % TWO_32 == 0
    ensures ToInt32(a) == ToInt32(b)
  {
  }

  /** Congruence modulo 2^32 survives multiplying both sides by 31. */
  lemma ScaleCongruent(a: int, b: int)
    requires (a - b) % TWO_32 == 0
    ensures (31 * a - 31 * b) % TWO_32 == 0
  {
    var k := (a - b) / TWO_32;
    assert a - b == k * TWO_32;
    assert 31 * a - 31 * b == (31 * k) * TWO_32;
  }

  /** Wrapping at every step gives the documented polynomial reduced to 32 bits. */
  lemma {:induction false} HashCodeIsWrappedPolynomial(s: string)
    ensures HashCode(s) == ToInt32(Polynomial(s))
  {
    if |s| > 0 {
      var p := s[..|s| - 1];
      var c := s[|s| - 1] as int;
      HashCodeIsWrappedPolynomial(p);
      var h := HashCode(p);
      ScaleCongruent(Polynomial(p), h);
      ToInt32Congruent(31 * Polynomial(p) + c, 31 * h + c);
    }
  }
}
